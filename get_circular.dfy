/**
 * The cycle check used while rebuilding:
 *
 *   SELECT r1.ancestor, r1.descendant
 *   FROM relations r1 JOIN relations r2
 *   ON r1.ancestor = r2.descendant AND r1.descendant = r2.ancestor
 *      AND <sum of r1> = 1 AND <sum of r2> = depth
 *
 * returns the direct relations that close a cycle with a path of `depth`.
 */
module GetCircular {
  import opened Joins
  import opened ClosureTable

  /** The `ON` clause: `r1` is direct and `r2` runs back from its descendant to its ancestor with weight `depth`. */
  predicate Closes(depth: nat, r1: Row, r2: Row) {
    r1.from == r2.to && r1.to == r2.from && Sum(r1.weights) == 1 && Sum(r2.weights) == depth
  }

  function JoinCondition(depth: nat): (Row, Row) -> bool {
    (r1: Row, r2: Row) => Closes(depth, r1, r2)
  }

  /** The selected `(ancestor, descendant)` pairs, one per joined pair of rows. */
  function Circular(t: seq<Row>, depth: nat): (result: seq<(nat, nat)>)
    ensures |result| == |Join(t, JoinCondition(depth))|
    ensures forall k :: 0 <= k < |result| ==>
              var p := Join(t, JoinCondition(depth))[k];
              InRange(p, |t|) && Closes(depth, t[p.0], t[p.1]) && result[k] == (t[p.0].from, t[p.0].to)
  {
    var ps := Join(t, JoinCondition(depth));
    assert forall k :: 0 <= k < |ps| ==> InRange(ps[k], |t|) && Closes(depth, t[ps[k].0], t[ps[k].1]) by {
      forall k | 0 <= k < |ps| ensures InRange(ps[k], |t|) && Closes(depth, t[ps[k].0], t[ps[k].1]) {
        assert ps[k] in ps;
      }
    }
    seq(|ps|, k requires 0 <= k < |ps| => (t[ps[k].0].from, t[ps[k].0].to))
  }

  /**
   * Each returned pair is the ancestor and descendant of a direct relation,
   * and a row of weight `depth` runs from that descendant back to that
   * ancestor.
   */
  lemma ReturnedPairsCloseCycles(t: seq<Row>, depth: nat)
    ensures forall p :: p in Circular(t, depth) ==>
              (exists r1 :: r1 in t && Sum(r1.weights) == 1 && r1.from == p.0 && r1.to == p.1) &&
              (exists r2 :: r2 in t && Sum(r2.weights) == depth && r2.from == p.1 && r2.to == p.0)
  {
    var result := Circular(t, depth);
    var ps := Join(t, JoinCondition(depth));
    forall p | p in result
      ensures exists r1 :: r1 in t && Sum(r1.weights) == 1 && r1.from == p.0 && r1.to == p.1
      ensures exists r2 :: r2 in t && Sum(r2.weights) == depth && r2.from == p.1 && r2.to == p.0
    {
      var k :| 0 <= k < |result| && result[k] == p;
      assert t[ps[k].0] in t && t[ps[k].1] in t;
    }
  }

  /** The result is empty exactly when no direct relation has a reverse row of weight `depth`. */
  lemma EmptyIffNoReverseRow(t: seq<Row>, depth: nat)
    ensures Circular(t, depth) == [] <==>
              !exists i, j :: 0 <= i < |t| && 0 <= j < |t| && Closes(depth, t[i], t[j])
  {
    var ps := Join(t, JoinCondition(depth));
    if exists i, j :: 0 <= i < |t| && 0 <= j < |t| && Closes(depth, t[i], t[j]) {
      var i, j :| 0 <= i < |t| && 0 <= j < |t| && Closes(depth, t[i], t[j]);
      assert (i, j) in ps;
    } else if ps != [] {
      assert ps[0] in ps;
    }
  }
}
