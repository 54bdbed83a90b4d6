/**
 * One step of rebuilding the closure table:
 *
 *   INSERT INTO relations (ancestor, descendant, <type columns>)
 *   SELECT r1.ancestor, r2.descendant, <r1.c + r2.c per type column>
 *   FROM relations r1 JOIN relations r2
 *   ON r1.descendant = r2.ancestor AND <sum of r1> = depth AND <sum of r2> = 1
 *
 * Every path of length `depth` is extended by one direct relation.
 */
module InsertClosureOfDepth {
  import opened Joins
  import opened ClosureTable

  /** The `ON` clause for `depth`. */
  predicate Joined(depth: nat, r1: Row, r2: Row) {
    r1.to == r2.from && Sum(r1.weights) == depth && Sum(r2.weights) == 1
  }

  function JoinCondition(depth: nat): (Row, Row) -> bool {
    (r1: Row, r2: Row) => Joined(depth, r1, r2)
  }

  /** The joined pairs of positions, each once. */
  function Pairs(t: seq<Row>, depth: nat): (ps: seq<(nat, nat)>)
    ensures forall p: (nat, nat) :: p in ps <==> InRange(p, |t|) && Joined(depth, t[p.0], t[p.1])
    ensures NoDuplicates(ps)
  {
    Join(t, JoinCondition(depth))
  }

  /** Every listed pair is a joined pair of rows of the table, with one value per type column each. */
  lemma PairsJoined(t: seq<Row>, width: nat, depth: nat)
    requires WellFormed(t, width)
    ensures forall k :: 0 <= k < |Pairs(t, depth)| ==>
              InRange(Pairs(t, depth)[k], |t|) && Joined(depth, t[Pairs(t, depth)[k].0], t[Pairs(t, depth)[k].1])
              && |t[Pairs(t, depth)[k].0].weights| == width == |t[Pairs(t, depth)[k].1].weights|
  {
    var ps := Pairs(t, depth);
    forall k | 0 <= k < |ps|
      ensures InRange(ps[k], |t|) && Joined(depth, t[ps[k].0], t[ps[k].1])
      ensures |t[ps[k].0].weights| == width == |t[ps[k].1].weights|
    {
      assert ps[k] in ps;
      assert t[ps[k].0] in t && t[ps[k].1] in t;
    }
  }

  /**
   * The rows the statement inserts, numbered from `next` by the id sequence:
   * the k-th joined pair `(r1, r2)` becomes `(r1.ancestor, r2.descendant,
   * r1 + r2 column by column)`.
   */
  function Inserted(t: seq<Row>, width: nat, depth: nat, next: nat): (added: seq<Row>)
    requires WellFormed(t, width)
    ensures |added| == |Pairs(t, depth)|
    ensures WellFormed(added, width)
    ensures forall k :: 0 <= k < |added| ==>
              InRange(Pairs(t, depth)[k], |t|) &&
              Joined(depth, t[Pairs(t, depth)[k].0], t[Pairs(t, depth)[k].1]) &&
              added[k] == Row(next + k, t[Pairs(t, depth)[k].0].from, t[Pairs(t, depth)[k].1].to,
                              AddWeights(t[Pairs(t, depth)[k].0].weights, t[Pairs(t, depth)[k].1].weights))
  {
    var ps := Pairs(t, depth);
    PairsJoined(t, width, depth);
    var added := seq(|ps|, k requires 0 <= k < |ps| =>
      Row(next + k, t[ps[k].0].from, t[ps[k].1].to, AddWeights(t[ps[k].0].weights, t[ps[k].1].weights)));
    assert WellFormed(added, width) by {
      forall x | x in added ensures |x.weights| == width {
        var k :| 0 <= k < |added| && added[k] == x;
      }
    }
    added
  }

  /** The table after the statement: the old rows, untouched, followed by the inserted rows. */
  function Apply(t: seq<Row>, width: nat, depth: nat, next: nat): (t': seq<Row>)
    requires WellFormed(t, width)
    ensures |t'| == |t| + |Pairs(t, depth)|
    ensures t'[..|t|] == t
    ensures WellFormed(t', width)
  {
    t + Inserted(t, width, depth, next)
  }

  /**
   * Every inserted row joins a path of weight `depth` to a direct relation
   * starting where that path ends, and weighs `depth + 1`.
   */
  lemma InsertedRowsExtendByOne(t: seq<Row>, width: nat, depth: nat, next: nat, x: Row)
    requires WellFormed(t, width) && x in Inserted(t, width, depth, next)
    ensures Sum(x.weights) == depth + 1
    ensures exists i, j :: 0 <= i < |t| && 0 <= j < |t| && Joined(depth, t[i], t[j]) &&
              x.from == t[i].from && x.to == t[j].to
  {
    var added := Inserted(t, width, depth, next);
    var ps := Pairs(t, depth);
    var k :| 0 <= k < |added| && added[k] == x;
    var i, j := ps[k].0, ps[k].1;
    assert t[i] in t && t[j] in t;
    SumOfAddWeights(t[i].weights, t[j].weights);
  }

  /** Every path of weight `depth` followed by a direct relation yields an inserted row. */
  lemma EveryExtensionInserted(t: seq<Row>, width: nat, depth: nat, next: nat, i: nat, j: nat)
    requires WellFormed(t, width) && i < |t| && j < |t| && Joined(depth, t[i], t[j])
    ensures exists x :: x in Inserted(t, width, depth, next) && x.from == t[i].from && x.to == t[j].to
  {
    var added := Inserted(t, width, depth, next);
    var ps := Pairs(t, depth);
    assert (i, j) in ps;
    var k :| 0 <= k < |ps| && ps[k] == (i, j);
    assert added[k] in added;
  }

  /** A row whose type columns do not sum to `depth` never starts an inserted path. */
  lemma OnlyRowsOfDepthAreExtended(t: seq<Row>, depth: nat, i: nat)
    requires i < |t| && Sum(t[i].weights) != depth
    ensures forall p :: p in Pairs(t, depth) ==> p.0 != i
  {
  }
}
