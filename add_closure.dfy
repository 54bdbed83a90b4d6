/**
 * The closure insertion run after a direct relation `e` is saved:
 *
 *   INSERT INTO relations (ancestor, descendant, <type columns>)
 *   SELECT r1.ancestor, r2.descendant, <one CASE per type column>
 *   FROM relations r1 JOIN relations r2
 *   ON (combines paths through e) OR (extends a path by e)
 *
 * modelled as the rows the SELECT produces, appended with fresh ids.
 */
module AddClosure {
  import opened Joins
  import opened ClosureTable

  /** `r1` ends at `e`'s ancestor and `r2` starts at `e`'s descendant: a path into `e`, then a path out of it. */
  predicate CombinesPaths(e: Row, r1: Row, r2: Row) {
    r1.to == e.from && r2.from == e.to
  }

  /** `r1` hands off to `r2` and one of them is `e` itself. */
  predicate ExtendsPaths(e: Row, r1: Row, r2: Row) {
    r1.to == r2.from && (r1.id == e.id || r2.id == e.id)
  }

  /** The `ON` clause: the two conditions OR'd. */
  predicate Joined(e: Row, r1: Row, r2: Row) {
    CombinesPaths(e, r1, r2) || ExtendsPaths(e, r1, r2)
  }

  function JoinCondition(e: Row): (Row, Row) -> bool {
    (r1: Row, r2: Row) => Joined(e, r1, r2)
  }

  /**
   * The CASE for one type column, `a = r1.c`, `b = r2.c`, `handOff` is
   * `r1.descendant = r2.ancestor`: a column neither row takes part in stays 0;
   * a hand-off adds the two values; any other combination adds one more hop.
   */
  function ColumnSum(a: nat, b: nat, handOff: bool): (v: nat)
    ensures a == 0 && b == 0 ==> v == 0
    ensures (a > 0 || b > 0) ==> a + b <= v <= a + b + 1
    ensures (a > 0 || b > 0) ==> (v == a + b <==> handOff)
  {
    if handOff && (a > 0 || b > 0) then a + b
    else if !handOff && (a > 0 || b > 0) then a + b + 1
    else 0
  }

  /** `depth_sum_case`: the c-th CASE computes the c-th type column from the c-th columns of `r1` and `r2`. */
  function DepthSumCase(r1: Row, r2: Row): (w: seq<nat>)
    requires |r1.weights| == |r2.weights|
    ensures |w| == |r1.weights|
    ensures forall c :: 0 <= c < |w| ==> w[c] == ColumnSum(r1.weights[c], r2.weights[c], r1.to == r2.from)
  {
    seq(|r1.weights|, c requires 0 <= c < |r1.weights| => ColumnSum(r1.weights[c], r2.weights[c], r1.to == r2.from))
  }

  /** The joined pairs of positions, each once. */
  function Pairs(t: seq<Row>, e: Row): (ps: seq<(nat, nat)>)
    ensures forall p: (nat, nat) :: p in ps <==> InRange(p, |t|) && Joined(e, t[p.0], t[p.1])
    ensures NoDuplicates(ps)
  {
    Join(t, JoinCondition(e))
  }

  /** Every listed pair is a joined pair of rows of the table, with one value per type column each. */
  lemma PairsJoined(t: seq<Row>, e: Row)
    requires WellFormed(t, |e.weights|)
    ensures forall k :: 0 <= k < |Pairs(t, e)| ==>
              InRange(Pairs(t, e)[k], |t|) && Joined(e, t[Pairs(t, e)[k].0], t[Pairs(t, e)[k].1])
              && |t[Pairs(t, e)[k].0].weights| == |e.weights| == |t[Pairs(t, e)[k].1].weights|
  {
    var ps := Pairs(t, e);
    forall k | 0 <= k < |ps|
      ensures InRange(ps[k], |t|) && Joined(e, t[ps[k].0], t[ps[k].1])
      ensures |t[ps[k].0].weights| == |e.weights| == |t[ps[k].1].weights|
    {
      assert ps[k] in ps;
      assert t[ps[k].0] in t && t[ps[k].1] in t;
    }
  }

  /**
   * The rows the statement inserts into table `t`, numbered from `next` by
   * the id sequence: the k-th joined pair `(r1, r2)` becomes the row
   * `(next + k, r1.ancestor, r2.descendant, DepthSumCase(r1, r2))`.
   */
  function Inserted(t: seq<Row>, e: Row, next: nat): (added: seq<Row>)
    requires WellFormed(t, |e.weights|)
    ensures |added| == |Pairs(t, e)|
    ensures WellFormed(added, |e.weights|)
    ensures forall k :: 0 <= k < |added| ==>
              InRange(Pairs(t, e)[k], |t|) &&
              Joined(e, t[Pairs(t, e)[k].0], t[Pairs(t, e)[k].1]) &&
              added[k] == Row(next + k, t[Pairs(t, e)[k].0].from, t[Pairs(t, e)[k].1].to,
                              DepthSumCase(t[Pairs(t, e)[k].0], t[Pairs(t, e)[k].1]))
  {
    var ps := Pairs(t, e);
    PairsJoined(t, e);
    var added := seq(|ps|, k requires 0 <= k < |ps| =>
      Row(next + k, t[ps[k].0].from, t[ps[k].1].to, DepthSumCase(t[ps[k].0], t[ps[k].1])));
    assert WellFormed(added, |e.weights|) by {
      forall x | x in added ensures |x.weights| == |e.weights| {
        var k :| 0 <= k < |added| && added[k] == x;
      }
    }
    added
  }

  /** The table after the statement: the old rows, untouched, followed by the inserted rows. */
  function Apply(t: seq<Row>, e: Row, next: nat): (t': seq<Row>)
    requires WellFormed(t, |e.weights|)
    ensures |t'| == |t| + |Pairs(t, e)|
    ensures t'[..|t|] == t
    ensures WellFormed(t', |e.weights|)
  {
    t + Inserted(t, e, next)
  }

  /**
   * Every inserted row runs from the ancestor of a joined `r1` to the
   * descendant of a joined `r2`, and every joined pair yields exactly one
   * inserted row, also a pair meeting both OR'd conditions.
   */
  lemma InsertedRowsAreJoinedPairs(t: seq<Row>, e: Row, next: nat)
    requires WellFormed(t, |e.weights|)
    ensures forall x :: x in Inserted(t, e, next) ==>
              exists i, j :: 0 <= i < |t| && 0 <= j < |t| && Joined(e, t[i], t[j]) &&
                x.from == t[i].from && x.to == t[j].to && x.weights == DepthSumCase(t[i], t[j])
    ensures forall i, j :: 0 <= i < |t| && 0 <= j < |t| && Joined(e, t[i], t[j]) ==>
              exists k :: 0 <= k < |Pairs(t, e)| && Pairs(t, e)[k] == (i, j)
    ensures forall k, k' :: 0 <= k < k' < |Pairs(t, e)| ==> Pairs(t, e)[k] != Pairs(t, e)[k']
  {
    var added := Inserted(t, e, next);
    var ps := Pairs(t, e);
    forall x | x in added
      ensures exists i, j :: 0 <= i < |t| && 0 <= j < |t| && Joined(e, t[i], t[j]) &&
                x.from == t[i].from && x.to == t[j].to && x.weights == DepthSumCase(t[i], t[j])
    {
      var k :| 0 <= k < |added| && added[k] == x;
      var i, j := ps[k].0, ps[k].1;
      assert Joined(e, t[i], t[j]);
    }
    forall i, j | 0 <= i < |t| && 0 <= j < |t| && Joined(e, t[i], t[j])
      ensures exists k :: 0 <= k < |ps| && ps[k] == (i, j)
    {
      assert (i, j) in ps;
    }
  }

  /** A pair can meet both OR'd conditions only when `e` is a self-loop. */
  lemma BothConditionsOnlyOnSelfLoop(e: Row, r1: Row, r2: Row)
    requires CombinesPaths(e, r1, r2) && ExtendsPaths(e, r1, r2)
    ensures e.from == e.to
  {
  }

  /**
   * Extending a path (a hand-off from `r1` to `r2`) adds the weight vectors
   * column by column, so the total weight of the new row is the sum of the
   * totals of the two rows.
   */
  lemma HandOffAddsWeights(r1: Row, r2: Row)
    requires |r1.weights| == |r2.weights|
    requires r1.to == r2.from
    ensures DepthSumCase(r1, r2) == AddWeights(r1.weights, r2.weights)
    ensures Sum(DepthSumCase(r1, r2)) == Sum(r1.weights) + Sum(r2.weights)
  {
    assert DepthSumCase(r1, r2) == AddWeights(r1.weights, r2.weights);
    SumOfAddWeights(r1.weights, r2.weights);
  }

  /** A sum over columns is monotone in each column. */
  lemma {:induction false} SumMonotone(a: seq<nat>, b: seq<nat>)
    requires |a| == |b|
    requires forall c :: 0 <= c < |a| ==> a[c] <= b[c]
    ensures Sum(a) <= Sum(b)
    decreases |a|
  {
    if a != [] {
      SumMonotone(a[..|a| - 1], b[..|b| - 1]);
    }
  }

  /** Every inserted row weighs at least as much as its two source rows together. */
  lemma InsertedWeighsAtLeastSources(r1: Row, r2: Row)
    requires |r1.weights| == |r2.weights|
    ensures Sum(DepthSumCase(r1, r2)) >= Sum(r1.weights) + Sum(r2.weights)
  {
    SumMonotone(AddWeights(r1.weights, r2.weights), DepthSumCase(r1, r2));
    SumOfAddWeights(r1.weights, r2.weights);
  }
}
