/**
 * Seeding the closure table while rebuilding:
 *
 *   INSERT INTO relations (ancestor, descendant) SELECT id, id FROM nodes
 *
 * Every node gets a row to itself; the type columns are not listed, so they
 * take their column default 0.
 */
module InsertReflexive {
  import opened ClosureTable
  import InsertClosureOfDepth
  import GetCircular

  /** The rows the statement inserts for the node ids `nodes`, numbered from `next`. */
  function Inserted(nodes: seq<nat>, width: nat, next: nat): (added: seq<Row>)
    ensures |added| == |nodes|
    ensures forall k :: 0 <= k < |added| ==> added[k] == Row(next + k, nodes[k], nodes[k], Zeros(width))
  {
    seq(|nodes|, k requires 0 <= k < |nodes| => Row(next + k, nodes[k], nodes[k], Zeros(width)))
  }

  /** The table after the statement: the old rows, untouched, followed by the inserted rows. */
  function Apply(t: seq<Row>, nodes: seq<nat>, width: nat, next: nat): (t': seq<Row>)
    ensures |t'| == |t| + |nodes|
    ensures t'[..|t|] == t
  {
    t + Inserted(nodes, width, next)
  }

  /**
   * After seeding, every node has a reflexive row of weight 0; the seeded
   * rows keep the table's ids unique and one value per type column.
   */
  lemma EveryNodeReachesItself(t: seq<Row>, nodes: seq<nat>, width: nat, next: nat)
    requires WellFormed(t, width) && UniqueIds(t) && IdsBelow(t, next)
    ensures forall n :: n in nodes ==> exists x :: x in Apply(t, nodes, width, next) && x.from == n && x.to == n && Sum(x.weights) == 0
    ensures forall x :: x in Inserted(nodes, width, next) ==> x.from == x.to && x.weights == Zeros(width) && !Direct(x.weights)
    ensures WellFormed(Apply(t, nodes, width, next), width)
    ensures UniqueIds(Apply(t, nodes, width, next)) && IdsBelow(Apply(t, nodes, width, next), next + |nodes|)
  {
    var added := Inserted(nodes, width, next);
    var u := Apply(t, nodes, width, next);
    forall n | n in nodes
      ensures exists x :: x in u && x.from == n && x.to == n && Sum(x.weights) == 0
    {
      var k :| 0 <= k < |nodes| && nodes[k] == n;
      assert u[|t| + k] == added[k];
    }
    AppendFreshKeepsIds(t, added, next);
    forall x | x in u ensures |x.weights| == width {
      if x !in t {
        var k :| 0 <= k < |added| && added[k] == x;
      }
    }
  }

  /**
   * A reflexive row weighs 0, so for any depth of at least 1 it takes part in
   * neither a closure-of-depth join nor a cycle check.
   */
  lemma ReflexiveRowsNeverJoin(r: Row, other: Row, width: nat, depth: nat)
    requires r.from == r.to && r.weights == Zeros(width) && depth >= 1
    ensures !InsertClosureOfDepth.Joined(depth, r, other) && !InsertClosureOfDepth.Joined(depth, other, r)
    ensures !GetCircular.Closes(depth, r, other) && !GetCircular.Closes(depth, other, r)
  {
  }
}
