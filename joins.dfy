/**
 * The self-join `FROM t r1 JOIN t r2 ON cond(r1, r2)` that every statement
 * of both engines is built on, as the sequence of index pairs `(i, j)` whose
 * rows satisfy the join condition. The pairs come in lexicographic order, so
 * every pair of rows appears at most once however many disjuncts of the
 * condition it satisfies.
 */
module Joins {

  /** `p` is a valid pair of positions in a table of `n` rows. */
  predicate InRange(p: (nat, nat), n: nat) {
    p.0 < n && p.1 < n
  }

  /** No pair of positions is listed twice. */
  predicate NoDuplicates(ps: seq<(nat, nat)>) {
    forall a, b :: 0 <= a < b < |ps| ==> ps[a] != ps[b]
  }

  /** The pairs `(i, j)`, `j` from `from` upwards, that the condition joins. */
  function RowPairs<T>(t: seq<T>, cond: (T, T) -> bool, i: nat, from: nat): (ps: seq<(nat, nat)>)
    requires i < |t| && from <= |t|
    ensures forall p :: p in ps <==> p.0 == i && from <= p.1 < |t| && cond(t[i], t[p.1])
    ensures NoDuplicates(ps)
    decreases |t| - from
  {
    if from == |t| then []
    else
      var rest := RowPairs(t, cond, i, from + 1);
      if cond(t[i], t[from]) then [(i, from)] + rest else rest
  }

  /** The pairs `(i', j)` with `i' >= i` that the condition joins. */
  function PairsFrom<T>(t: seq<T>, cond: (T, T) -> bool, i: nat): (ps: seq<(nat, nat)>)
    requires i <= |t|
    ensures forall p :: p in ps <==> i <= p.0 < |t| && p.1 < |t| && cond(t[p.0], t[p.1])
    ensures NoDuplicates(ps)
    decreases |t| - i
  {
    if i == |t| then []
    else
      var head := RowPairs(t, cond, i, 0);
      var rest := PairsFrom(t, cond, i + 1);
      assert forall a, b :: 0 <= a < |head| && 0 <= b < |rest| ==> head[a].0 < rest[b].0 by {
        forall a, b | 0 <= a < |head| && 0 <= b < |rest| ensures head[a].0 < rest[b].0 {
          assert head[a] in head;
          assert rest[b] in rest;
        }
      }
      head + rest
  }

  /**
   * `t r1 JOIN t r2 ON cond`: every pair of positions whose rows the
   * condition joins, each exactly once.
   */
  function Join<T>(t: seq<T>, cond: (T, T) -> bool): (ps: seq<(nat, nat)>)
    ensures forall p: (nat, nat) :: p in ps <==> InRange(p, |t|) && cond(t[p.0], t[p.1])
    ensures NoDuplicates(ps)
  {
    PairsFrom(t, cond, 0)
  }

  /** Positions listed by a join are positions of the table. */
  lemma JoinInRange<T>(t: seq<T>, cond: (T, T) -> bool, k: nat)
    requires k < |Join(t, cond)|
    ensures InRange(Join(t, cond)[k], |t|)
    ensures cond(t[Join(t, cond)[k].0], t[Join(t, cond)[k].1])
  {
    assert Join(t, cond)[k] in Join(t, cond);
  }

  /** A joined pair of positions occurs at exactly one place of the join. */
  lemma JoinedExactlyOnce<T>(t: seq<T>, cond: (T, T) -> bool, i: nat, j: nat)
    requires i < |t| && j < |t| && cond(t[i], t[j])
    ensures exists k :: 0 <= k < |Join(t, cond)| && Join(t, cond)[k] == (i, j)
    ensures forall k, k' ::
              (0 <= k < |Join(t, cond)| && 0 <= k' < |Join(t, cond)| &&
               Join(t, cond)[k] == (i, j) && Join(t, cond)[k'] == (i, j)) ==> k == k'
  {
    var ps := Join(t, cond);
    assert (i, j) in ps;
  }
}
