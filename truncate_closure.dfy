/**
 * The closure truncation run when a direct relation is destroyed (or
 * before it is re-added on update, with its former values):
 *
 *   DELETE FROM relations WHERE id IN (
 *     SELECT id FROM
 *       (SELECT COUNT(*) count, <key> FROM (<candidates>) GROUP BY <key>) criteria
 *     JOIN
 *       (<rows in the neighbourhood, numbered within their key>) ranked
 *     ON <keys equal> AND count >= row_number)
 *
 * The key of a row is `(ancestor, descendant, type columns)`. For every key
 * the statement deletes as many rows of the neighbourhood as there are
 * candidate pairs producing that key, and never more than exist.
 */
module TruncateClosure {
  import opened Wrappers
  import opened Joins
  import opened ClosureTable

  // ---------------------------------------------------------------------------
  // Candidates and criteria

  /**
   * A candidate pair for deleted relation `e`: `r1` ends at `e`'s ancestor,
   * `r2` starts at `e`'s descendant, except the pair that spans exactly `e`.
   */
  predicate CandidatePair(e: Key, r1: Row, r2: Row) {
    r1.to == e.from && r2.from == e.to && !(r1.from == e.from && r2.to == e.to)
  }

  function CandidateCondition(e: Key): (Row, Row) -> bool {
    (r1: Row, r2: Row) => CandidatePair(e, r1, r2)
  }

  /**
   * The CASE for one type column of a candidate, `a = r1.c`, `b = r2.c`,
   * `edgeValue = e.c`: a hand-off sums the two values when one of them is
   * positive; any other combination adds the deleted relation's own value in
   * that column, with no guard, so it can yield a positive value in a column
   * neither row takes part in.
   */
  function CandidateColumn(a: nat, b: nat, handOff: bool, edgeValue: nat): (v: nat)
    ensures handOff ==> (v == 0 <==> a == 0 && b == 0)
    ensures handOff && (a > 0 || b > 0) ==> v == a + b
    ensures !handOff ==> v == a + b + edgeValue
  {
    if handOff && (a > 0 || b > 0) then a + b
    else if !handOff then a + b + edgeValue
    else 0
  }

  /** The weight vector of a candidate row, column by column. */
  function CandidateWeights(e: Key, r1: Row, r2: Row): (w: seq<nat>)
    requires |r1.weights| == |e.weights| && |r2.weights| == |e.weights|
    ensures |w| == |e.weights|
    ensures forall c :: 0 <= c < |w| ==>
              w[c] == CandidateColumn(r1.weights[c], r2.weights[c], r1.to == r2.from, e.weights[c])
  {
    seq(|e.weights|, c requires 0 <= c < |e.weights| =>
      CandidateColumn(r1.weights[c], r2.weights[c], r1.to == r2.from, e.weights[c]))
  }

  /** The joined candidate pairs of positions, each once. */
  function CandidatePairs(t: seq<Row>, e: Key): (ps: seq<(nat, nat)>)
    ensures forall p: (nat, nat) :: p in ps <==> InRange(p, |t|) && CandidatePair(e, t[p.0], t[p.1])
    ensures NoDuplicates(ps)
  {
    Join(t, CandidateCondition(e))
  }

  /** Every listed candidate pair is a joined pair of rows of the table, with one value per type column each. */
  lemma CandidatePairsJoined(t: seq<Row>, e: Key)
    requires WellFormed(t, |e.weights|)
    ensures forall k :: 0 <= k < |CandidatePairs(t, e)| ==>
              InRange(CandidatePairs(t, e)[k], |t|)
              && CandidatePair(e, t[CandidatePairs(t, e)[k].0], t[CandidatePairs(t, e)[k].1])
              && |t[CandidatePairs(t, e)[k].0].weights| == |e.weights| == |t[CandidatePairs(t, e)[k].1].weights|
  {
    var ps := CandidatePairs(t, e);
    forall k | 0 <= k < |ps|
      ensures InRange(ps[k], |t|) && CandidatePair(e, t[ps[k].0], t[ps[k].1])
      ensures |t[ps[k].0].weights| == |e.weights| == |t[ps[k].1].weights|
    {
      assert ps[k] in ps;
      assert t[ps[k].0] in t && t[ps[k].1] in t;
    }
  }

  /** The key each candidate pair produces (`r1.ancestor, r2.descendant, weights`). */
  function Candidates(t: seq<Row>, e: Key): (ks: seq<Key>)
    requires WellFormed(t, |e.weights|)
    ensures |ks| == |CandidatePairs(t, e)|
    ensures forall k :: 0 <= k < |ks| ==>
              InRange(CandidatePairs(t, e)[k], |t|) &&
              CandidatePair(e, t[CandidatePairs(t, e)[k].0], t[CandidatePairs(t, e)[k].1]) &&
              ks[k] == Key(t[CandidatePairs(t, e)[k].0].from, t[CandidatePairs(t, e)[k].1].to,
                           CandidateWeights(e, t[CandidatePairs(t, e)[k].0], t[CandidatePairs(t, e)[k].1]))
  {
    var ps := CandidatePairs(t, e);
    CandidatePairsJoined(t, e);
    seq(|ps|, k requires 0 <= k < |ps| =>
      Key(t[ps[k].0].from, t[ps[k].1].to, CandidateWeights(e, t[ps[k].0], t[ps[k].1])))
  }

  /**
   * `criteria`: the candidates grouped by key, each group with the number
   * of candidate pairs that produced it (`COUNT(*)`).
   */
  function Criteria(t: seq<Row>, e: Key): (m: map<Key, nat>)
    requires WellFormed(t, |e.weights|)
    ensures forall k :: k in m <==> k in Candidates(t, e)
    ensures forall k :: k in m ==> 1 <= m[k] == multiset(Candidates(t, e))[k] <= |CandidatePairs(t, e)|
  {
    var ks := Candidates(t, e);
    map k | k in ks :: multiset(ks)[k]
  }

  // ---------------------------------------------------------------------------
  // The ranked neighbourhood

  /**
   * `only_relations_in_closure_condition`. SQL's AND binds tighter than OR,
   * so the filter reads `A OR (B AND C)`: the row starts at a node that
   * reaches `e`'s ancestor, or it starts at `e`'s ancestor and ends at a node
   * that `e`'s ancestor reaches. Both subqueries use `e`'s ancestor.
   */
  predicate InScope(t: seq<Row>, e: Key, x: Row) {
    (exists y :: y in t && y.to == e.from && y.from == x.from)
    || (x.from == e.from && exists y :: y in t && y.from == e.from && y.to == x.to)
  }

  /** Rows of `s` in the neighbourhood of `e` in `t` that carry key `k`. */
  function ScopedCount(s: seq<Row>, t: seq<Row>, e: Key, k: Key): (n: nat)
    ensures n <= |s|
    decreases |s|
  {
    if s == [] then 0
    else
      var last := s[|s| - 1];
      ScopedCount(s[..|s| - 1], t, e, k) + (if InScope(t, e, last) && KeyOf(last) == k then 1 else 0)
  }

  /**
   * `ROW_NUMBER() OVER (PARTITION BY <key>)` of the row at position `i`: one
   * more than the number of earlier rows of the neighbourhood with its key.
   * PostgreSQL leaves the order within a partition open; the model numbers
   * rows in table order.
   */
  function RowNumber(t: seq<Row>, e: Key, i: nat): (n: nat)
    requires i < |t|
    ensures 1 <= n <= i + 1
  {
    1 + ScopedCount(t[..i], t, e, KeyOf(t[i]))
  }

  /** `ranked JOIN criteria ON <keys equal> AND count >= row_number`. */
  predicate Selected(t: seq<Row>, e: Key, i: nat)
    requires i < |t| && WellFormed(t, |e.weights|)
  {
    InScope(t, e, t[i]) && KeyOf(t[i]) in Criteria(t, e) && Criteria(t, e)[KeyOf(t[i])] >= RowNumber(t, e, i)
  }

  /** The ids the sub-select returns. */
  function DeletedIds(t: seq<Row>, e: Key): (ids: set<nat>)
    requires WellFormed(t, |e.weights|)
    ensures forall id :: id in ids <==> exists i :: 0 <= i < |t| && Selected(t, e, i) && t[i].id == id
  {
    set i | 0 <= i < |t| && Selected(t, e, i) :: t[i].id
  }

  /** The table after the DELETE. */
  function Truncated(t: seq<Row>, e: Key): (t': seq<Row>)
    requires WellFormed(t, |e.weights|)
    ensures multiset(t') <= multiset(t)
    ensures forall x :: x in t' <==> x in t && x.id !in DeletedIds(t, e)
  {
    RemoveIds(t, DeletedIds(t, e))
  }

  // ---------------------------------------------------------------------------
  // What the statement deletes

  /**
   * With unique ids, the row at position `i` is deleted exactly when it lies
   * in the neighbourhood, its key is a criteria group and its row number is
   * within that group's count.
   */
  lemma DeletedExactlySelected(t: seq<Row>, e: Key, i: nat)
    requires WellFormed(t, |e.weights|) && UniqueIds(t) && i < |t|
    ensures t[i] !in Truncated(t, e) <==> Selected(t, e, i)
    ensures t[i] !in Truncated(t, e) ==>
              InScope(t, e, t[i]) && KeyOf(t[i]) in Criteria(t, e) &&
              RowNumber(t, e, i) <= Criteria(t, e)[KeyOf(t[i])]
  {
    DeletedIdIffSelected(t, e, i);
  }

  /** With unique ids, a row's id is among the deleted ids exactly when that row is selected. */
  lemma DeletedIdIffSelected(t: seq<Row>, e: Key, i: nat)
    requires WellFormed(t, |e.weights|) && UniqueIds(t) && i < |t|
    ensures t[i].id in DeletedIds(t, e) <==> Selected(t, e, i)
  {
    if t[i].id in DeletedIds(t, e) {
      var j :| 0 <= j < |t| && Selected(t, e, j) && t[j].id == t[i].id;
      assert j == i;
    }
  }

  /** Rows at positions below `m` with key `k` that the statement selects. */
  function SelectedCount(t: seq<Row>, e: Key, k: Key, m: nat): (n: nat)
    requires m <= |t| && WellFormed(t, |e.weights|)
    decreases m
  {
    if m == 0 then 0
    else SelectedCount(t, e, k, m - 1) + (if KeyOf(t[m - 1]) == k && Selected(t, e, m - 1) then 1 else 0)
  }

  /** The group's count caps the number of selected rows of its key. */
  lemma {:induction false} SelectedCountIsMin(t: seq<Row>, e: Key, k: Key, m: nat)
    requires m <= |t| && WellFormed(t, |e.weights|)
    ensures SelectedCount(t, e, k, m) ==
              if k in Criteria(t, e) then Min(Criteria(t, e)[k], ScopedCount(t[..m], t, e, k)) else 0
    decreases m
  {
    if m > 0 {
      SelectedCountIsMin(t, e, k, m - 1);
      assert t[..m][..m - 1] == t[..m - 1];
    }
  }

  function Min(a: nat, b: nat): nat {
    if a <= b then a else b
  }

  /** Rows of `s` with key `k` whose id is in `ids`. */
  function RemovedCount(s: seq<Row>, ids: set<nat>, k: Key): (n: nat)
    decreases |s|
  {
    if s == [] then 0
    else RemovedCount(s[..|s| - 1], ids, k) + (if KeyOf(s[|s| - 1]) == k && s[|s| - 1].id in ids then 1 else 0)
  }

  /** Deleting ids removes, key by key, exactly the rows carrying them. */
  lemma {:induction false} RemoveIdsCountKey(s: seq<Row>, ids: set<nat>, k: Key)
    ensures CountKey(RemoveIds(s, ids), k) + RemovedCount(s, ids, k) == CountKey(s, k)
    decreases |s|
  {
    if s != [] {
      RemoveIdsCountKey(s[..|s| - 1], ids, k);
      RemoveIdsLast(s, ids, k);
    }
  }

  /** With unique ids, the rows carrying a returned id are the selected rows. */
  lemma {:induction false} SelectedCountIsRemovedCount(t: seq<Row>, e: Key, k: Key, m: nat)
    requires m <= |t| && WellFormed(t, |e.weights|) && UniqueIds(t)
    ensures SelectedCount(t, e, k, m) == RemovedCount(t[..m], DeletedIds(t, e), k)
    decreases m
  {
    if m > 0 {
      var ids := DeletedIds(t, e);
      SelectedCountIsRemovedCount(t, e, k, m - 1);
      DeletedIdIffSelected(t, e, m - 1);
      assert (t[m - 1].id in ids) == Selected(t, e, m - 1);
      assert t[..m][..m - 1] == t[..m - 1];
      assert RemovedCount(t[..m], ids, k) ==
             RemovedCount(t[..m - 1], ids, k) + (if KeyOf(t[m - 1]) == k && t[m - 1].id in ids then 1 else 0);
    }
  }

  /** Deleting the selected ids removes, key by key, exactly the selected rows. */
  lemma RemainingCount(t: seq<Row>, e: Key, k: Key, m: nat)
    requires m <= |t| && WellFormed(t, |e.weights|) && UniqueIds(t)
    ensures CountKey(RemoveIds(t[..m], DeletedIds(t, e)), k) + SelectedCount(t, e, k, m) == CountKey(t[..m], k)
  {
    RemoveIdsCountKey(t[..m], DeletedIds(t, e), k);
    SelectedCountIsRemovedCount(t, e, k, m);
  }

  /** Removing ids from a sequence, looked at through its last row. */
  lemma RemoveIdsLast(s: seq<Row>, ids: set<nat>, k: Key)
    requires s != []
    ensures CountKey(RemoveIds(s, ids), k) ==
              CountKey(RemoveIds(s[..|s| - 1], ids), k) +
              (if s[|s| - 1].id !in ids && KeyOf(s[|s| - 1]) == k then 1 else 0)
  {
    var rest := RemoveIds(s[..|s| - 1], ids);
    if s[|s| - 1].id !in ids {
      assert (rest + [s[|s| - 1]])[..|rest|] == rest;
    }
  }

  /**
   * For every key the statement deletes exactly `min(count, rows of that key
   * in the neighbourhood)` rows, where `count` is the number of candidate
   * pairs producing the key; rows of keys without candidates stay.
   */
  lemma {:induction false} DeletesMinOfCountAndRanked(t: seq<Row>, e: Key, k: Key)
    requires WellFormed(t, |e.weights|) && UniqueIds(t)
    ensures CountKey(Truncated(t, e), k) ==
              CountKey(t, k) - (if k in Criteria(t, e) then Min(Criteria(t, e)[k], ScopedCount(t, t, e, k)) else 0)
    ensures k in Criteria(t, e) ==> CountKey(t, k) - CountKey(Truncated(t, e), k) <= Criteria(t, e)[k]
  {
    RemainingCount(t, e, k, |t|);
    SelectedCountIsMin(t, e, k, |t|);
    assert t[..|t|] == t;
  }

  /** Row numbers of a key run 1, 2, 3, … through the neighbourhood. */
  lemma RowNumberCountsEarlierRows(t: seq<Row>, e: Key, i: nat, j: nat)
    requires i < j < |t| && InScope(t, e, t[i]) && KeyOf(t[i]) == KeyOf(t[j])
    ensures RowNumber(t, e, i) < RowNumber(t, e, j)
  {
    ScopedCountPrefix(t, e, KeyOf(t[i]), i + 1, j);
    assert t[..i + 1][..i] == t[..i];
  }

  /** Counting over a longer prefix never gives less. */
  lemma {:induction false} ScopedCountPrefix(t: seq<Row>, e: Key, k: Key, a: nat, b: nat)
    requires a <= b <= |t|
    ensures ScopedCount(t[..a], t, e, k) <= ScopedCount(t[..b], t, e, k)
    decreases b - a
  {
    if a < b {
      ScopedCountPrefix(t, e, k, a, b - 1);
      assert t[..b][..b - 1] == t[..b - 1];
    }
  }

  // ---------------------------------------------------------------------------
  // The MySQL ranking: a running counter over rows sorted by key

  /** Lexicographic order on type columns (`ORDER BY … <type columns>`). */
  predicate WeightsLe(a: seq<nat>, b: seq<nat>)
    decreases |a|
  {
    a == [] || (b != [] && (a[0] < b[0] || (a[0] == b[0] && WeightsLe(a[1..], b[1..]))))
  }

  /** `ORDER BY ancestor, descendant, <type columns>`. */
  predicate KeyLe(a: Key, b: Key) {
    a.from < b.from || (a.from == b.from && (a.to < b.to || (a.to == b.to && WeightsLe(a.weights, b.weights))))
  }

  predicate SortedByKey(s: seq<Row>) {
    forall i, j :: 0 <= i < j < |s| ==> KeyLe(KeyOf(s[i]), KeyOf(s[j]))
  }

  lemma {:induction false} WeightsLeAntisymmetric(a: seq<nat>, b: seq<nat>)
    requires WeightsLe(a, b) && WeightsLe(b, a)
    ensures a == b
    decreases |a|
  {
    if a != [] {
      WeightsLeAntisymmetric(a[1..], b[1..]);
      assert a == [a[0]] + a[1..] && b == [b[0]] + b[1..];
    }
  }

  /** In rows sorted by key, a key that differs from the previous row's key has not occurred before. */
  lemma SortedKeysContiguous(s: seq<Row>, i: nat)
    requires SortedByKey(s) && 0 < i < |s| && KeyOf(s[i - 1]) != KeyOf(s[i])
    ensures forall j :: 0 <= j < i ==> KeyOf(s[j]) != KeyOf(s[i])
  {
    forall j | 0 <= j < i ensures KeyOf(s[j]) != KeyOf(s[i]) {
      if j < i - 1 && KeyOf(s[j]) == KeyOf(s[i]) {
        var a, b := KeyOf(s[i - 1]), KeyOf(s[i]);
        assert KeyLe(b, a) && KeyLe(a, b);
        if a.from == b.from && a.to == b.to {
          WeightsLeAntisymmetric(a.weights, b.weights);
        }
        assert false;
      }
    }
  }

  /** `ROW_NUMBER() OVER (PARTITION BY <key>)` of a ranked sequence, in its order. */
  function PartitionRowNumbers(s: seq<Row>): (r: seq<nat>)
    ensures |r| == |s|
  {
    seq(|s|, i requires 0 <= i < |s| => 1 + CountKey(s[..i], KeyOf(s[i])))
  }

  /**
   * In rows sorted by key, the partition row number restarts at 1 where the
   * key changes and otherwise counts up from the previous row's.
   */
  lemma RunningCount(s: seq<Row>, i: nat)
    requires SortedByKey(s) && i < |s|
    ensures PartitionRowNumbers(s)[i] ==
              if i > 0 && KeyOf(s[i - 1]) == KeyOf(s[i]) then PartitionRowNumbers(s)[i - 1] + 1 else 1
  {
    if i > 0 {
      assert s[..i] == s[..i - 1] + [s[i - 1]];
      if KeyOf(s[i - 1]) != KeyOf(s[i]) {
        SortedKeysContiguous(s, i);
        CountKeyAbsent(s[..i], KeyOf(s[i]));
      }
    }
  }

  /**
   * `rank_similar_relations_mysql`: the session variables `@cur_<key>` hold
   * the previous row's key (NULL at the start) and `@cur_count` restarts at 1
   * when the key changes and otherwise counts up. Over rows sorted by key it
   * yields the partition row numbers.
   */
  method RankSortedRows(s: seq<Row>) returns (rowNumbers: seq<nat>)
    requires SortedByKey(s)
    ensures rowNumbers == PartitionRowNumbers(s)
  {
    var curCount: nat := 0;
    var cur: Option<Key> := None;
    ghost var numbers := PartitionRowNumbers(s);
    rowNumbers := [];
    var i := 0;
    while i < |s|
      invariant 0 <= i <= |s| && rowNumbers == numbers[..i]
      invariant i == 0 ==> cur == None
      invariant i > 0 ==> cur == Some(KeyOf(s[i - 1])) && curCount == numbers[i - 1]
    {
      var k := KeyOf(s[i]);
      RunningCount(s, i);
      if cur == Some(k) {
        curCount := curCount + 1;
      } else {
        curCount := 1;
      }
      assert curCount == numbers[i];
      cur := Some(k);
      rowNumbers := rowNumbers + [curCount];
      assert numbers[..i + 1] == numbers[..i] + [numbers[i]];
      i := i + 1;
    }
    assert numbers[..|s|] == numbers;
  }

  // ---------------------------------------------------------------------------
  // The ranked rows, and the row numbers in any order

  /** The rows of `s` that pass the neighbourhood filter of `e` in `t`, in their order: what `ranked` numbers. */
  function Scoped(s: seq<Row>, t: seq<Row>, e: Key): (r: seq<Row>)
    ensures |r| <= |s|
    decreases |s|
  {
    if s == [] then []
    else Scoped(s[..|s| - 1], t, e) + (if InScope(t, e, s[|s| - 1]) then [s[|s| - 1]] else [])
  }

  /** The ranked rows carrying a key are the rows of that key the filter lets through. */
  lemma {:induction false} ScopedCountIsCountKey(s: seq<Row>, t: seq<Row>, e: Key, k: Key)
    ensures CountKey(Scoped(s, t, e), k) == ScopedCount(s, t, e, k)
    decreases |s|
  {
    if s != [] {
      var last := s[|s| - 1];
      ScopedCountIsCountKey(s[..|s| - 1], t, e, k);
      if InScope(t, e, last) {
        CountKeySnoc(Scoped(s[..|s| - 1], t, e), last, k);
      } else {
        assert Scoped(s, t, e) == Scoped(s[..|s| - 1], t, e);
      }
    }
  }

  /** The ranked rows of a prefix of the table are a prefix of the ranked rows of a longer one. */
  lemma {:induction false} ScopedPrefix(t: seq<Row>, e: Key, a: nat, b: nat)
    requires a <= b <= |t|
    ensures |Scoped(t[..a], t, e)| <= |Scoped(t[..b], t, e)|
    ensures Scoped(t[..a], t, e) == Scoped(t[..b], t, e)[..|Scoped(t[..a], t, e)|]
    decreases b - a
  {
    if a < b {
      ScopedPrefix(t, e, a, b - 1);
      assert t[..b][..b - 1] == t[..b - 1];
    }
  }

  /**
   * `RowNumber` is `ROW_NUMBER() OVER (PARTITION BY <key>)` over the ranked
   * rows taken in table order: an in-scope row at table position `i` sits at
   * position `j` of the ranked rows, and its partition row number there is
   * its `RowNumber`.
   */
  lemma RowNumberIsPartitionRowNumber(t: seq<Row>, e: Key, i: nat)
    requires i < |t| && InScope(t, e, t[i])
    ensures var j := |Scoped(t[..i], t, e)|;
            j < |Scoped(t, t, e)| && Scoped(t, t, e)[j] == t[i]
            && PartitionRowNumbers(Scoped(t, t, e))[j] == RowNumber(t, e, i)
  {
    var before := Scoped(t[..i], t, e);
    var all := Scoped(t, t, e);
    var j := |before|;
    assert t[..i + 1][..i] == t[..i];
    assert Scoped(t[..i + 1], t, e) == before + [t[i]];
    ScopedPrefix(t, e, i + 1, |t|);
    assert t[..|t|] == t;
    assert all[..j + 1] == before + [t[i]];
    assert all[j] == t[i];
    assert all[..j] == before;
    ScopedCountIsCountKey(t[..i], t, e, KeyOf(t[i]));
  }

  /** Positions below `m` of `s` with key `k` whose partition row number is at most `c`. */
  function RankedWithin(s: seq<Row>, k: Key, c: nat, m: nat): (n: nat)
    requires m <= |s|
    ensures n <= m
    decreases m
  {
    if m == 0 then 0
    else RankedWithin(s, k, c, m - 1) + (if KeyOf(s[m - 1]) == k && PartitionRowNumbers(s)[m - 1] <= c then 1 else 0)
  }

  /**
   * Whatever the order of the rows within a partition, the rows of key `k`
   * numbered at most `c` are `min(c, rows of key k)`: `count >= row_number`
   * picks the same number of rows of every key in any order.
   */
  lemma {:induction false} RankedWithinIsMin(s: seq<Row>, k: Key, c: nat, m: nat)
    requires m <= |s|
    ensures RankedWithin(s, k, c, m) == Min(c, CountKey(s[..m], k))
    decreases m
  {
    if m > 0 {
      RankedWithinIsMin(s, k, c, m - 1);
      assert s[..m] == s[..m - 1] + [s[m - 1]];
      CountKeySnoc(s[..m - 1], s[m - 1], k);
    }
  }

  /**
   * For any arrangement `s` of the rows the filter lets through (the MySQL
   * branch sorts them by key, see `RankSortedRows`; PostgreSQL may number a
   * partition in any order), the rows of a key numbered within the group's
   * count are exactly as many as the numbering in table order selects:
   * `min(count, rows of that key in the neighbourhood)`.
   */
  lemma RankingSelectsAsManyInAnyOrder(t: seq<Row>, e: Key, s: seq<Row>, k: Key)
    requires WellFormed(t, |e.weights|)
    requires multiset(s) == multiset(Scoped(t, t, e))
    ensures CountKey(s, k) == ScopedCount(t, t, e, k)
    ensures k in Criteria(t, e) ==>
              RankedWithin(s, k, Criteria(t, e)[k], |s|) == Min(Criteria(t, e)[k], ScopedCount(t, t, e, k))
              == SelectedCount(t, e, k, |t|)
  {
    CountKeyPermutation(s, Scoped(t, t, e), k);
    ScopedCountIsCountKey(t, t, e, k);
    if k in Criteria(t, e) {
      RankedWithinIsMin(s, k, Criteria(t, e)[k], |s|);
      assert s[..|s|] == s;
      SelectedCountIsMin(t, e, k, |t|);
      assert t[..|t|] == t;
    }
  }
}
