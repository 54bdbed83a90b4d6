/**
 * The relations table of the typed engine: one row per direct edge or
 * closure fact, `(id, ancestor, descendant, one weight per type column)`.
 * The table is a sequence of rows; SQL treats it as a multiset, so the
 * order only matters where a statement ranks rows.
 */
module ClosureTable {

  /** A row of the relations table; `weights[c]` is the value of the c-th configured type column. */
  datatype Row = Row(id: nat, from: nat, to: nat, weights: seq<nat>)

  /** The grouping key of a row: everything except its id. */
  datatype Key = Key(from: nat, to: nat, weights: seq<nat>)

  function KeyOf(r: Row): (k: Key)
    ensures k.from == r.from && k.to == r.to && k.weights == r.weights
  {
    Key(r.from, r.to, r.weights)
  }

  /** The sum of all type columns of a row (`hierarchy + invalidate + …`). */
  function Sum(w: seq<nat>): (s: nat)
    ensures w == [] ==> s == 0
    decreases |w|
  {
    if w == [] then 0 else Sum(w[..|w| - 1]) + w[|w| - 1]
  }

  /** A type column carries a value of at least 1 exactly when the sum is positive somewhere. */
  lemma {:induction false} SumZero(w: seq<nat>)
    ensures Sum(w) == 0 <==> forall c :: 0 <= c < |w| ==> w[c] == 0
    decreases |w|
  {
    if w != [] {
      SumZero(w[..|w| - 1]);
      assert forall c :: 0 <= c < |w| - 1 ==> w[..|w| - 1][c] == w[c];
    }
  }

  /** Every column is bounded by the sum of all columns. */
  lemma {:induction false} ColumnAtMostSum(w: seq<nat>, c: nat)
    requires c < |w|
    ensures w[c] <= Sum(w)
    decreases |w|
  {
    if c < |w| - 1 {
      ColumnAtMostSum(w[..|w| - 1], c);
    }
  }

  /** A direct relation: its type columns sum to 1, i.e. exactly one column is 1 and all others are 0. */
  predicate Direct(w: seq<nat>) {
    Sum(w) == 1
  }

  /** Every row has one value per configured type column. */
  predicate WellFormed(t: seq<Row>, width: nat) {
    forall r :: r in t ==> |r.weights| == width
  }

  /** The primary key: no two rows share an id. */
  predicate UniqueIds(t: seq<Row>) {
    forall i, j :: 0 <= i < |t| && 0 <= j < |t| && t[i].id == t[j].id ==> i == j
  }

  /** Every id handed out so far is below `next` (the id sequence's next value). */
  predicate IdsBelow(t: seq<Row>, next: nat) {
    forall r :: r in t ==> r.id < next
  }

  /** Number of rows with key `k` (prefix recursion, so that it grows row by row). */
  function CountKey(t: seq<Row>, k: Key): (n: nat)
    ensures n <= |t|
    decreases |t|
  {
    if t == [] then 0
    else CountKey(t[..|t| - 1], k) + (if KeyOf(t[|t| - 1]) == k then 1 else 0)
  }

  /** A key that no row carries is counted zero times. */
  lemma {:induction false} CountKeyAbsent(t: seq<Row>, k: Key)
    requires forall i :: 0 <= i < |t| ==> KeyOf(t[i]) != k
    ensures CountKey(t, k) == 0
    decreases |t|
  {
    if t != [] {
      CountKeyAbsent(t[..|t| - 1], k);
    }
  }

  /** Counting a key over a table grown by one row. */
  lemma CountKeySnoc(t: seq<Row>, x: Row, k: Key)
    ensures CountKey(t + [x], k) == CountKey(t, k) + (if KeyOf(x) == k then 1 else 0)
  {
    assert (t + [x])[..|t|] == t;
  }

  /** Counting a key over two tables one after the other adds the counts. */
  lemma {:induction false} CountKeyConcat(u: seq<Row>, v: seq<Row>, k: Key)
    ensures CountKey(u + v, k) == CountKey(u, k) + CountKey(v, k)
    decreases |v|
  {
    if v != [] {
      var init := v[..|v| - 1];
      CountKeyConcat(u, init, k);
      assert u + v == (u + init) + [v[|v| - 1]];
      CountKeySnoc(u + init, v[|v| - 1], k);
    } else {
      assert u + v == u;
    }
  }

  /** Taking the row at position `j` out of a table: one row fewer of its key, and one fewer in the multiset. */
  lemma CountKeyRemoveAt(b: seq<Row>, j: nat, k: Key)
    requires j < |b|
    ensures CountKey(b, k) == CountKey(b[..j] + b[j + 1..], k) + (if KeyOf(b[j]) == k then 1 else 0)
    ensures multiset(b[..j] + b[j + 1..]) == multiset(b) - multiset{b[j]}
  {
    assert b == b[..j] + [b[j]] + b[j + 1..];
    CountKeyConcat(b[..j] + [b[j]], b[j + 1..], k);
    CountKeySnoc(b[..j], b[j], k);
    CountKeyConcat(b[..j], b[j + 1..], k);
    assert multiset(b) == multiset(b[..j]) + multiset{b[j]} + multiset(b[j + 1..]);
  }

  /** The count of a key depends only on the multiset of rows, not on their order. */
  lemma {:induction false} CountKeyPermutation(a: seq<Row>, b: seq<Row>, k: Key)
    requires multiset(a) == multiset(b)
    ensures CountKey(a, k) == CountKey(b, k)
    decreases |a|
  {
    if a == [] {
      assert |b| == |multiset(b)| == 0;
    } else {
      var x := a[|a| - 1];
      var init := a[..|a| - 1];
      assert a == init + [x];
      assert multiset(init) == multiset(a) - multiset{x};
      assert x in multiset(b);
      var j :| 0 <= j < |b| && b[j] == x;
      CountKeyRemoveAt(b, j, k);
      CountKeyPermutation(init, b[..j] + b[j + 1..], k);
    }
  }

  /** `DELETE … WHERE id IN ids`: the rows whose id is not selected, in their order. */
  function RemoveIds(t: seq<Row>, ids: set<nat>): (r: seq<Row>)
    ensures |r| <= |t|
    ensures forall x :: x in r <==> x in t && x.id !in ids
    ensures multiset(r) <= multiset(t)
    decreases |t|
  {
    if t == [] then []
    else
      var rest := RemoveIds(t[..|t| - 1], ids);
      assert t == t[..|t| - 1] + [t[|t| - 1]];
      if t[|t| - 1].id in ids then rest else rest + [t[|t| - 1]]
  }

  /** Removing rows keeps ids unique and keeps every id below the sequence's next value. */
  lemma {:induction false} RemoveIdsKeepsIds(t: seq<Row>, ids: set<nat>, next: nat)
    requires UniqueIds(t) && IdsBelow(t, next)
    ensures UniqueIds(RemoveIds(t, ids)) && IdsBelow(RemoveIds(t, ids), next)
    decreases |t|
  {
    if t != [] {
      var init := t[..|t| - 1];
      assert UniqueIds(init) by {
        forall i, j | 0 <= i < |init| && 0 <= j < |init| && init[i].id == init[j].id ensures i == j {
          assert t[i] == init[i] && t[j] == init[j];
        }
      }
      assert IdsBelow(init, next) by {
        forall r | r in init ensures r.id < next {
          assert r in t;
        }
      }
      RemoveIdsKeepsIds(init, ids, next);
      var rest := RemoveIds(init, ids);
      var last := t[|t| - 1];
      if last.id !in ids {
        forall x | x in rest ensures x.id != last.id {
          assert x in init;
          var i :| 0 <= i < |init| && init[i] == x;
          assert t[i] == x;
        }
      }
    }
  }

  /** Appending rows with fresh, distinct ids keeps ids unique and below the new next value. */
  lemma AppendFreshKeepsIds(t: seq<Row>, added: seq<Row>, next: nat)
    requires UniqueIds(t) && IdsBelow(t, next)
    requires forall k :: 0 <= k < |added| ==> added[k].id == next + k
    ensures UniqueIds(t + added) && IdsBelow(t + added, next + |added|)
  {
    var u := t + added;
    assert forall i :: 0 <= i < |t| ==> u[i].id < next by {
      forall i | 0 <= i < |t| ensures u[i].id < next {
        assert t[i] in t;
      }
    }
    assert forall i :: |t| <= i < |u| ==> u[i].id == next + (i - |t|);
  }

  /** All-zero weights: the column default for rows inserted without type values. */
  function Zeros(width: nat): (w: seq<nat>)
    ensures |w| == width && Sum(w) == 0
  {
    var w := seq(width, _ => 0);
    SumZero(w);
    w
  }

  /** Per-column `r1.c + r2.c` (the summed type columns of a joined pair). */
  function AddWeights(a: seq<nat>, b: seq<nat>): (w: seq<nat>)
    requires |a| == |b|
    ensures |w| == |a|
    ensures forall c :: 0 <= c < |w| ==> w[c] == a[c] + b[c]
  {
    seq(|a|, c requires 0 <= c < |a| => a[c] + b[c])
  }

  /** Summing column by column adds the totals. */
  lemma {:induction false} SumOfAddWeights(a: seq<nat>, b: seq<nat>)
    requires |a| == |b|
    ensures Sum(AddWeights(a, b)) == Sum(a) + Sum(b)
    decreases |a|
  {
    if a != [] {
      var n := |a| - 1;
      SumOfAddWeights(a[..n], b[..n]);
      assert AddWeights(a, b)[..n] == AddWeights(a[..n], b[..n]);
    }
  }
}
