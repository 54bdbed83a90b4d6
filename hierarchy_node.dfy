/**
 * The node model of the single-type engine: its parent, children,
 * descendants and ancestors are read from the `relations` table through
 * `hierarchy` rows, and its predicates are existence checks on that table.
 */
module HierarchyNode {
  import opened Wrappers
  import opened Joins
  import opened HierarchyEdge

  /** The `pick` value of every row of `t` that `keep` selects, in table order. */
  function Collect(t: seq<HRow>, keep: HRow -> bool, pick: HRow -> nat): (vs: seq<nat>)
    ensures |vs| <= |t|
    decreases |t|
  {
    if t == [] then []
    else Collect(t[..|t| - 1], keep, pick) + (if keep(t[|t| - 1]) then [pick(t[|t| - 1])] else [])
  }

  /** A value is collected exactly when a selected row carries it. */
  lemma {:induction false} CollectMembers(t: seq<HRow>, keep: HRow -> bool, pick: HRow -> nat)
    ensures forall v :: v in Collect(t, keep, pick) <==> exists r :: r in t && keep(r) && pick(r) == v
    decreases |t|
  {
    if t != [] {
      var init := t[..|t| - 1];
      CollectMembers(init, keep, pick);
      assert t == init + [t[|t| - 1]];
    }
  }

  /** `Collect` of a table grown by one row. */
  lemma CollectSnoc(s: seq<HRow>, x: HRow, keep: HRow -> bool, pick: HRow -> nat)
    ensures Collect(s + [x], keep, pick) == Collect(s, keep, pick) + (if keep(x) then [pick(x)] else [])
  {
    assert (s + [x])[..|s|] == s;
  }

  /** The `from` node of a row (`source: :from`). */
  function Source(r: HRow): nat { r.from }

  /** The `to` node of a row (`source: :to`). */
  function Target(r: HRow): nat { r.to }

  /** The rows `children` selects: hierarchy links from `n`. */
  function ChildKeep(n: nat): HRow -> bool {
    (r: HRow) => r.from == n && IsHierarchyLink(r)
  }

  /** The rows `descendants` selects: hierarchy rows from `n`. */
  function DescendantKeep(n: nat): HRow -> bool {
    (r: HRow) => r.from == n && IsHierarchyRow(r)
  }

  /** The rows `ancestors` selects: hierarchy rows into `n`. */
  function AncestorKeep(n: nat): HRow -> bool {
    (r: HRow) => r.to == n && IsHierarchyRow(r)
  }

  /** A `hierarchy` row, at any depth. */
  predicate IsHierarchyRow(r: HRow) {
    r.relationType == Hierarchy
  }

  /** `children`: targets of the hierarchy links from `n`. */
  function Children(t: seq<HRow>, n: nat): (cs: seq<nat>)
    ensures forall c :: c in cs <==> exists r :: r in t && r.from == n && IsHierarchyLink(r) && r.to == c
  {
    CollectMembers(t, ChildKeep(n), Target);
    Collect(t, ChildKeep(n), Target)
  }

  /** `descendants`: targets of the hierarchy rows from `n`, at any depth. */
  function Descendants(t: seq<HRow>, n: nat): (ds: seq<nat>)
    ensures forall d :: d in ds <==> exists r :: r in t && r.from == n && IsHierarchyRow(r) && r.to == d
  {
    CollectMembers(t, DescendantKeep(n), Target);
    Collect(t, DescendantKeep(n), Target)
  }

  /** `ancestors`: sources of the hierarchy rows into `n`, at any depth. */
  function Ancestors(t: seq<HRow>, n: nat): (as_: seq<nat>)
    ensures forall a :: a in as_ <==> exists r :: r in t && r.to == n && IsHierarchyRow(r) && r.from == a
  {
    CollectMembers(t, AncestorKeep(n), Source);
    Collect(t, AncestorKeep(n), Source)
  }

  /** `parent_relation`: the first hierarchy link into `n`, if any. */
  function ParentRelation(t: seq<HRow>, n: nat): (r: Option<HRow>)
    ensures r.Some? ==> r.value in t && r.value.to == n && IsHierarchyLink(r.value)
    ensures r.None? <==> !exists x :: x in t && x.to == n && IsHierarchyLink(x)
    decreases |t|
  {
    if t == [] then None
    else if t[0].to == n && IsHierarchyLink(t[0]) then Some(t[0])
    else
      var rest := ParentRelation(t[1..], n);
      assert forall x :: x in t ==> x == t[0] || x in t[1..];
      rest
  }

  /** `parent`: the source of the parent relation, `nil` without one. */
  function Parent(t: seq<HRow>, n: nat): (p: Option<nat>)
    ensures p.Some? ==> exists r :: r in t && r.to == n && IsHierarchyLink(r) && r.from == p.value
    ensures p.None? <==> !exists r :: r in t && r.to == n && IsHierarchyLink(r)
  {
    match ParentRelation(t, n)
    case None => None
    case Some(r) => Some(r.from)
  }

  /** `leaf?`: no hierarchy row starts at `n`. */
  predicate Leaf(t: seq<HRow>, n: nat) {
    !exists r :: r in t && r.from == n && IsHierarchyRow(r)
  }

  /** `child?`: a parent relation exists. */
  predicate IsChild(t: seq<HRow>, n: nat) {
    ParentRelation(t, n).Some?
  }

  /** `in_closure?`: a hierarchy row from `o` into `n`, or from `n` into `o`. */
  predicate InClosure(t: seq<HRow>, n: nat, o: nat) {
    exists r :: r in t && IsHierarchyRow(r) && ((r.to == n && r.from == o) || (r.from == n && r.to == o))
  }

  /** Every child is a descendant. */
  lemma ChildrenAreDescendants(t: seq<HRow>, n: nat)
    ensures forall c :: c in Children(t, n) ==> c in Descendants(t, n)
  {
    forall c | c in Children(t, n) ensures c in Descendants(t, n) {
      var r :| r in t && r.from == n && IsHierarchyLink(r) && r.to == c;
      assert IsHierarchyRow(r);
    }
  }

  /** A node is a leaf exactly when it has no descendants. */
  lemma LeafIffNoDescendants(t: seq<HRow>, n: nat)
    ensures Leaf(t, n) <==> Descendants(t, n) == []
  {
    if !Leaf(t, n) {
      var r :| r in t && r.from == n && IsHierarchyRow(r);
      assert r.to in Descendants(t, n);
    }
    if Descendants(t, n) != [] {
      assert Descendants(t, n)[0] in Descendants(t, n);
    }
  }

  /** A node is a child exactly when it has a parent, and its parent is one of its ancestors. */
  lemma ChildIffParent(t: seq<HRow>, n: nat)
    ensures IsChild(t, n) <==> Parent(t, n).Some?
    ensures Parent(t, n).Some? ==> Parent(t, n).value in Ancestors(t, n)
  {
    if Parent(t, n).Some? {
      var r :| r in t && r.to == n && IsHierarchyLink(r) && r.from == Parent(t, n).value;
      assert IsHierarchyRow(r);
    }
  }

  /** `o` is in the closure of `n` exactly when it is an ancestor or a descendant of `n`. */
  lemma InClosureIffAncestorOrDescendant(t: seq<HRow>, n: nat, o: nat)
    ensures InClosure(t, n, o) <==> o in Ancestors(t, n) || o in Descendants(t, n)
  {
    if InClosure(t, n, o) {
      var r :| r in t && IsHierarchyRow(r) && ((r.to == n && r.from == o) || (r.from == n && r.to == o));
      if r.to == n && r.from == o {
        assert o in Ancestors(t, n);
      } else {
        assert o in Descendants(t, n);
      }
    }
  }

  // ---------------------------------------------------------------------------
  // Scenarios

  /**
   * Adding a link between two chains: with the links `1 -> 2` and `3 -> 4`
   * in place, creating the link `2 -> 3` makes `2`, `3` and `4` the
   * descendants of `1`.
   */
  lemma LinkingChainsJoinsDescendants(t: seq<HRow>)
    requires t == [HRow(0, 1, 2, Hierarchy, 1), HRow(1, 3, 4, Hierarchy, 1)]
    ensures forall d :: d in Descendants(Created(t, 2, 2, 3, Hierarchy, 1), 1) <==> d == 2 || d == 3 || d == 4
  {
    var e := HRow(2, 2, 3, Hierarchy, 1);
    var t1 := t + [e];
    assert Created(t, 2, 2, 3, Hierarchy, 1) == t1 + Inserted(t1, e, 3);
    forall d ensures d in Descendants(t1 + Inserted(t1, e, 3), 1) <==> d == 2 || d == 3 || d == 4 {
      LinkedChainsDescendant(t1, e, d);
    }
  }

  /** One node at a time: `d` descends from `1` in the linked chains exactly when it is `2`, `3` or `4`. */
  lemma LinkedChainsDescendant(t1: seq<HRow>, e: HRow, d: nat)
    requires t1 == [HRow(0, 1, 2, Hierarchy, 1), HRow(1, 3, 4, Hierarchy, 1), HRow(2, 2, 3, Hierarchy, 1)]
    requires e == t1[2]
    ensures d in Descendants(t1 + Inserted(t1, e, 3), 1) <==> d == 2 || d == 3 || d == 4
  {
    var added := Inserted(t1, e, 3);
    var u := t1 + added;
    if d == 2 {
      assert t1[0] in u;
    } else if d == 3 || d == 4 {
      var x := LinkAddsRowFromOne(t1, e, d);
      assert x in u;
    }
    if d in Descendants(u, 1) {
      var r :| r in u && r.from == 1 && IsHierarchyRow(r) && r.to == d;
      if r in added {
        RowsFromOneEndBelowLink(t1, e, r);
      } else {
        assert r in t1;
      }
    }
  }

  /** The new link `2 -> 3` extends `1 -> 2` to `3` and, through `3 -> 4`, to `4`. */
  lemma LinkAddsRowFromOne(t1: seq<HRow>, e: HRow, d: nat) returns (x: HRow)
    requires t1 == [HRow(0, 1, 2, Hierarchy, 1), HRow(1, 3, 4, Hierarchy, 1), HRow(2, 2, 3, Hierarchy, 1)]
    requires e == t1[2] && (d == 3 || d == 4)
    ensures x in Inserted(t1, e, 3) && x.from == 1 && x.to == d && IsHierarchyRow(x)
  {
    var j := if d == 3 then 2 else 1;
    assert Joined(e, t1[0], t1[j]);
    EveryJoinedPairInserted(t1, e, 3, 0, j);
    x :| x in Inserted(t1, e, 3) && x.from == t1[0].from && x.to == t1[j].to && x.relationType == Hierarchy;
  }

  /** Every row the new link `2 -> 3` adds from `1` ends at `3` or `4`. */
  lemma RowsFromOneEndBelowLink(t1: seq<HRow>, e: HRow, r: HRow)
    requires t1 == [HRow(0, 1, 2, Hierarchy, 1), HRow(1, 3, 4, Hierarchy, 1), HRow(2, 2, 3, Hierarchy, 1)]
    requires e == t1[2] && r in Inserted(t1, e, 3) && r.from == 1
    ensures r.to == 3 || r.to == 4
  {
    var added := Inserted(t1, e, 3);
    var k :| 0 <= k < |added| && added[k] == r;
    var p := Join(t1, JoinCondition(e))[k];
    assert Joined(e, t1[p.0], t1[p.1]) && r.from == t1[p.0].from && r.to == t1[p.1].to;
    assert p.0 == 0;
    assert p.1 == 1 || p.1 == 2;
  }

  /** The rows the chain `1 -> 2 -> 3 -> 4` and its closure occupy, in creation order. */
  predicate IsChainClosure(t: seq<HRow>) {
    t == [HRow(0, 1, 2, Hierarchy, 1), HRow(1, 2, 3, Hierarchy, 1), HRow(2, 1, 3, Hierarchy, 2),
          HRow(3, 3, 4, Hierarchy, 1), HRow(4, 2, 4, Hierarchy, 2), HRow(5, 1, 4, Hierarchy, 3)]
  }

  /** `Without` of a table grown by one row. */
  lemma WithoutSnoc(s: seq<HRow>, x: HRow, ids: set<nat>)
    ensures Without(s + [x], ids) == Without(s, ids) + (if x.id in ids then [] else [x])
  {
    assert (s + [x])[..|s|] == s;
  }

  /** `MemorableIds` of a table grown by one row. */
  lemma MemorableIdsSnoc(s: seq<HRow>, x: HRow, t: seq<HRow>, e: HRow)
    ensures MemorableIds(s + [x], t, e) == MemorableIds(s, t, e) + (if Memorable(t, e, x) then [x.id] else [])
  {
    assert (s + [x])[..|s|] == s;
  }

  /** Which rows of the chain destroying `2 -> 3` memorises: those from `1` or `2` into `3` or `4`. */
  lemma MiddleLinkMemorable(t: seq<HRow>)
    requires IsChainClosure(t)
    ensures !Memorable(t, t[1], t[0]) && Memorable(t, t[1], t[1]) && Memorable(t, t[1], t[2])
    ensures !Memorable(t, t[1], t[3]) && Memorable(t, t[1], t[4]) && Memorable(t, t[1], t[5])
  {
    var e := t[1];
    assert !Memorable(t, e, t[0]) by {
      forall r3 | r3 in t ensures !(r3.to == 2 && r3.from == 2) {}
    }
    assert Memorable(t, e, t[1]) by { assert t[1] in t; }
    assert Memorable(t, e, t[2]) by { assert t[2] in t && t[1] in t; }
    assert !Memorable(t, e, t[3]) by {
      forall r2 | r2 in t ensures !(r2.from == 3 && r2.to == 3) {}
    }
    assert Memorable(t, e, t[4]) by { assert t[1] in t && t[4] in t; }
    assert Memorable(t, e, t[5]) by { assert t[2] in t && t[4] in t; }
  }

  /** Destroying `2 -> 3` memorises the ids of `2 -> 3`, `1 -> 3`, `2 -> 4` and `1 -> 4`. */
  lemma MiddleLinkMemo(t: seq<HRow>)
    requires IsChainClosure(t)
    ensures MemorizedIds(t, t[1]) == [1, 2, 4, 5]
  {
    MiddleLinkMemorable(t);
    MemoOfChain(t, t[1]);
  }

  /** `MemorableIds` of a table grown by three rows. */
  lemma MemorableIdsSnoc3(s: seq<HRow>, a: HRow, b: HRow, c: HRow, t: seq<HRow>, e: HRow)
    ensures MemorableIds(s + [a, b, c], t, e) == MemorableIds(s, t, e)
              + (if Memorable(t, e, a) then [a.id] else [])
              + (if Memorable(t, e, b) then [b.id] else [])
              + (if Memorable(t, e, c) then [c.id] else [])
  {
    MemorableIdsSnoc(s, a, t, e);
    MemorableIdsSnoc(s + [a], b, t, e);
    MemorableIdsSnoc(s + [a] + [b], c, t, e);
    assert s + [a, b, c] == s + [a] + [b] + [c];
  }

  /** The memo of a six-row table, from which of its rows are memorable. */
  lemma MemoOfChain(t: seq<HRow>, e: HRow)
    requires |t| == 6 && t[1].id == 1 && t[2].id == 2 && t[4].id == 4 && t[5].id == 5
    requires !Memorable(t, e, t[0]) && Memorable(t, e, t[1]) && Memorable(t, e, t[2])
    requires !Memorable(t, e, t[3]) && Memorable(t, e, t[4]) && Memorable(t, e, t[5])
    ensures MemorizedIds(t, e) == [1, 2, 4, 5]
  {
    var s0: seq<HRow> := [];
    var s3 := s0 + [t[0], t[1], t[2]];
    assert MemorableIds(s0, t, e) == [];
    MemorableIdsSnoc3(s0, t[0], t[1], t[2], t, e);
    assert MemorableIds(s3, t, e) == [1, 2];
    MemorableIdsSnoc3(s3, t[3], t[4], t[5], t, e);
    assert s3 + [t[3], t[4], t[5]] == t;
  }

  /** Deleting the link's own row from the chain. */
  lemma MiddleLinkRowDeleted(t: seq<HRow>)
    requires IsChainClosure(t)
    ensures Without(t, {1}) == [t[0], t[2], t[3], t[4], t[5]]
  {
    var ids := {1};
    var s0: seq<HRow> := [];
    var s1 := s0 + [t[0]];
    var s2 := s1 + [t[1]];
    var s3 := s2 + [t[2]];
    var s4 := s3 + [t[3]];
    var s5 := s4 + [t[4]];
    var s6 := s5 + [t[5]];
    assert Without(s0, ids) == [];
    WithoutSnoc(s0, t[0], ids);
    assert Without(s1, ids) == [t[0]];
    WithoutSnoc(s1, t[1], ids);
    assert Without(s2, ids) == [t[0]];
    WithoutSnoc(s2, t[2], ids);
    assert Without(s3, ids) == [t[0], t[2]];
    WithoutSnoc(s3, t[3], ids);
    assert Without(s4, ids) == [t[0], t[2], t[3]];
    WithoutSnoc(s4, t[4], ids);
    assert Without(s5, ids) == [t[0], t[2], t[3], t[4]];
    WithoutSnoc(s5, t[5], ids);
    assert s6 == t;
  }

  /** Deleting the memorised rows from what remains of the chain. */
  lemma MemorizedRowsDeleted(t: seq<HRow>, ids: set<nat>)
    requires IsChainClosure(t) && ids == {1, 2, 4, 5}
    ensures Without([t[0], t[2], t[3], t[4], t[5]], ids) == [t[0], t[3]]
  {
    var s0: seq<HRow> := [];
    var s1 := s0 + [t[0]];
    var s2 := s1 + [t[2]];
    var s3 := s2 + [t[3]];
    var s4 := s3 + [t[4]];
    var s5 := s4 + [t[5]];
    assert Without(s0, ids) == [];
    WithoutSnoc(s0, t[0], ids);
    assert Without(s1, ids) == [t[0]];
    WithoutSnoc(s1, t[2], ids);
    assert Without(s2, ids) == [t[0]];
    WithoutSnoc(s2, t[3], ids);
    assert Without(s3, ids) == [t[0], t[3]];
    WithoutSnoc(s3, t[4], ids);
    assert Without(s4, ids) == [t[0], t[3]];
    WithoutSnoc(s4, t[5], ids);
    assert s5 == [t[0], t[2], t[3], t[4], t[5]];
  }

  /** Destroying `2 -> 3` leaves exactly `1 -> 2` and `3 -> 4`. */
  lemma MiddleLinkDestroyed(t: seq<HRow>)
    requires IsChainClosure(t)
    ensures Destroyed(t, t[1]) == [t[0], t[3]]
  {
    var e := t[1];
    MiddleLinkMemo(t);
    MiddleLinkRowDeleted(t);
    var ids := set id | id in MemorizedIds(t, e);
    assert ids == {1, 2, 4, 5};
    MemorizedRowsDeleted(t, ids);
  }

  /**
   * Removing the middle link of the chain `1 -> 2 -> 3 -> 4` (with all its
   * closure rows) leaves `1 -> 2` and `3 -> 4`: `2` has no children and no
   * descendants any more, `3` is the only ancestor of `4`, and `2` is still
   * the only child of `1`.
   */
  lemma RemovingMiddleLinkSplitsChain(t: seq<HRow>)
    requires IsChainClosure(t)
    ensures Destroyed(t, t[1]) == [t[0], t[3]]
    ensures Children(Destroyed(t, t[1]), 2) == [] && Descendants(Destroyed(t, t[1]), 2) == []
    ensures Ancestors(Destroyed(t, t[1]), 4) == [3]
    ensures Children(Destroyed(t, t[1]), 1) == [2]
  {
    MiddleLinkDestroyed(t);
    var s0: seq<HRow> := [];
    var s1 := s0 + [t[0]];
    var u := s1 + [t[3]];
    assert u == [t[0], t[3]];
    CollectSnoc(s0, t[0], ChildKeep(2), Target);
    CollectSnoc(s1, t[3], ChildKeep(2), Target);
    CollectSnoc(s0, t[0], DescendantKeep(2), Target);
    CollectSnoc(s1, t[3], DescendantKeep(2), Target);
    CollectSnoc(s0, t[0], AncestorKeep(4), Source);
    CollectSnoc(s1, t[3], AncestorKeep(4), Source);
    CollectSnoc(s0, t[0], ChildKeep(1), Target);
    CollectSnoc(s1, t[3], ChildKeep(1), Target);
  }
}
