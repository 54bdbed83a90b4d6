/**
 * The edge model of the single-type engine: rows `(id, from_id, to_id,
 * relation_type, depth)`. Creating a hierarchy link (depth 1, type
 * `hierarchy`) inserts the closure rows it implies; destroying one first
 * memorises the ids of the closure rows that run through it, then deletes
 * them.
 */
module HierarchyEdge {
  import opened Wrappers
  import opened Joins

  const Hierarchy: string := "hierarchy"

  /** A row of the `relations` table. */
  datatype HRow = HRow(id: nat, from: nat, to: nat, relationType: string, depth: nat)

  /** `depth == 1 && relation_type == 'hierarchy'`: the rows that maintain the closure. */
  predicate IsHierarchyLink(r: HRow) {
    r.depth == 1 && r.relationType == Hierarchy
  }

  /** The primary key: no two rows share an id. */
  predicate UniqueIds(t: seq<HRow>) {
    forall i, j :: 0 <= i < |t| && 0 <= j < |t| && t[i].id == t[j].id ==> i == j
  }

  /** Every id handed out so far is below `next`. */
  predicate IdsBelow(t: seq<HRow>, next: nat) {
    forall r :: r in t ==> r.id < next
  }

  /** `DELETE ... WHERE id IN ids`: the rows whose id is not listed, in order. */
  function Without(t: seq<HRow>, ids: set<nat>): (r: seq<HRow>)
    ensures |r| <= |t|
    decreases |t|
  {
    if t == [] then []
    else Without(t[..|t| - 1], ids) + (if t[|t| - 1].id in ids then [] else [t[|t| - 1]])
  }

  /** The rows left are exactly the rows whose id is not listed. */
  lemma {:induction false} WithoutMembers(t: seq<HRow>, ids: set<nat>)
    ensures forall x :: x in Without(t, ids) <==> x in t && x.id !in ids
    decreases |t|
  {
    if t != [] {
      var init := t[..|t| - 1];
      WithoutMembers(init, ids);
      assert t == init + [t[|t| - 1]];
    }
  }

  /** Ids are unique in a table exactly when they are unique in all but its last row and the last row's id is new. */
  lemma UniqueIdsSnoc(s: seq<HRow>, x: HRow)
    ensures UniqueIds(s + [x]) <==> UniqueIds(s) && forall y :: y in s ==> y.id != x.id
  {
    var u := s + [x];
    if UniqueIds(u) {
      forall i, j | 0 <= i < |s| && 0 <= j < |s| && s[i].id == s[j].id ensures i == j {
        assert u[i] == s[i] && u[j] == s[j];
      }
      forall y | y in s ensures y.id != x.id {
        var i :| 0 <= i < |s| && s[i] == y;
        assert u[i] == y && u[|s|] == x;
      }
    }
  }

  /** Deleting rows keeps ids unique. */
  lemma {:induction false} WithoutUniqueIds(t: seq<HRow>, ids: set<nat>)
    requires UniqueIds(t)
    ensures UniqueIds(Without(t, ids))
    decreases |t|
  {
    if t != [] {
      var init, last := t[..|t| - 1], t[|t| - 1];
      assert t == init + [last];
      UniqueIdsSnoc(init, last);
      WithoutUniqueIds(init, ids);
      if last.id !in ids {
        WithoutMembers(init, ids);
        UniqueIdsSnoc(Without(init, ids), last);
      }
    }
  }

  /** Deleting rows keeps ids unique and below the sequence. */
  lemma WithoutKeepsIds(t: seq<HRow>, ids: set<nat>, next: nat)
    requires UniqueIds(t) && IdsBelow(t, next)
    ensures UniqueIds(Without(t, ids)) && IdsBelow(Without(t, ids), next)
  {
    WithoutUniqueIds(t, ids);
    WithoutMembers(t, ids);
  }

  // ---------------------------------------------------------------------------
  // add_closures

  /** `r1` ends at the link's source and `r2` starts at its target. */
  predicate Sandwiches(e: HRow, r1: HRow, r2: HRow) {
    r1.to == e.from && r2.from == e.to
  }

  /** The `ON` clause as written: a sandwich, or any hand-off at one of the link's two nodes. */
  predicate JoinedAsWritten(e: HRow, r1: HRow, r2: HRow) {
    Sandwiches(e, r1, r2) || (r1.to == r2.from && (r1.to == e.from || r1.to == e.to))
  }

  /** The `ON` clause as intended: a sandwich, or a hand-off in which one of the two rows is the link itself. */
  predicate Joined(e: HRow, r1: HRow, r2: HRow) {
    Sandwiches(e, r1, r2) || (r1.to == r2.from && (r1.id == e.id || r2.id == e.id))
  }

  /** The CASE: a hand-off adds the two depths, anything else adds one hop more. */
  function ClosureDepth(r1: HRow, r2: HRow): (d: nat)
    ensures r1.depth + r2.depth <= d <= r1.depth + r2.depth + 1
    ensures d == r1.depth + r2.depth <==> r1.to == r2.from
  {
    if r1.to == r2.from then r1.depth + r2.depth else r1.depth + r2.depth + 1
  }

  /** The rows an `INSERT ... SELECT` over the listed pairs produces, numbered from `next`. */
  function InsertedFor(t: seq<HRow>, ps: seq<(nat, nat)>, next: nat): (added: seq<HRow>)
    requires forall k :: 0 <= k < |ps| ==> ps[k].0 < |t| && ps[k].1 < |t|
    ensures |added| == |ps|
    ensures forall k :: 0 <= k < |added| ==>
              added[k] == HRow(next + k, t[ps[k].0].from, t[ps[k].1].to, Hierarchy, ClosureDepth(t[ps[k].0], t[ps[k].1]))
  {
    seq(|ps|, k requires 0 <= k < |ps| =>
      HRow(next + k, t[ps[k].0].from, t[ps[k].1].to, Hierarchy, ClosureDepth(t[ps[k].0], t[ps[k].1])))
  }

  function JoinAsWrittenCondition(e: HRow): (HRow, HRow) -> bool {
    (r1: HRow, r2: HRow) => JoinedAsWritten(e, r1, r2)
  }

  function JoinCondition(e: HRow): (HRow, HRow) -> bool {
    (r1: HRow, r2: HRow) => Joined(e, r1, r2)
  }

  /** The rows the statement as written inserts for link `e`. */
  function InsertedAsWritten(t: seq<HRow>, e: HRow, next: nat): (added: seq<HRow>)
    ensures |added| == |Join(t, JoinAsWrittenCondition(e))|
    ensures forall k :: 0 <= k < |added| ==>
              var p := Join(t, JoinAsWrittenCondition(e))[k];
              InRange(p, |t|) && JoinedAsWritten(e, t[p.0], t[p.1])
              && added[k] == HRow(next + k, t[p.0].from, t[p.1].to, Hierarchy, ClosureDepth(t[p.0], t[p.1]))
  {
    var ps := Join(t, JoinAsWrittenCondition(e));
    assert forall k :: 0 <= k < |ps| ==> InRange(ps[k], |t|) && JoinedAsWritten(e, t[ps[k].0], t[ps[k].1]) by {
      forall k | 0 <= k < |ps| ensures InRange(ps[k], |t|) && JoinedAsWritten(e, t[ps[k].0], t[ps[k].1]) {
        assert ps[k] in ps;
      }
    }
    InsertedFor(t, ps, next)
  }

  /** The rows the intended statement inserts for link `e`. */
  function Inserted(t: seq<HRow>, e: HRow, next: nat): (added: seq<HRow>)
    ensures |added| == |Join(t, JoinCondition(e))|
    ensures forall k :: 0 <= k < |added| ==>
              var p := Join(t, JoinCondition(e))[k];
              InRange(p, |t|) && Joined(e, t[p.0], t[p.1])
              && added[k] == HRow(next + k, t[p.0].from, t[p.1].to, Hierarchy, ClosureDepth(t[p.0], t[p.1]))
  {
    var ps := Join(t, JoinCondition(e));
    assert forall k :: 0 <= k < |ps| ==> InRange(ps[k], |t|) && Joined(e, t[ps[k].0], t[ps[k].1]) by {
      forall k | 0 <= k < |ps| ensures InRange(ps[k], |t|) && Joined(e, t[ps[k].0], t[ps[k].1]) {
        assert ps[k] in ps;
      }
    }
    InsertedFor(t, ps, next)
  }

  /**
   * A closure row stands for a path through link `e`: it starts at `e`'s
   * source or at a node with a row into that source, and it ends at `e`'s
   * target or at a node with a row from that target.
   */
  predicate ThroughLink(t: seq<HRow>, e: HRow, x: HRow) {
    && (x.from == e.from || exists r :: r in t && r.from == x.from && r.to == e.from)
    && (x.to == e.to || exists r :: r in t && r.from == e.to && r.to == x.to)
  }

  /**
   * Every row the intended statement inserts stands for a path through the
   * new link (which is already saved when `after_create` runs), and its depth
   * is the length of that path: the depths of the two rows, plus the link's
   * own hop unless one of the rows is the link.
   */
  lemma InsertedRowsRunThroughLink(t: seq<HRow>, e: HRow, next: nat, x: HRow)
    requires e in t && UniqueIds(t) && IsHierarchyLink(e)
    requires x in Inserted(t, e, next)
    ensures ThroughLink(t, e, x) && x.relationType == Hierarchy
    ensures exists i, j :: 0 <= i < |t| && 0 <= j < |t| && Joined(e, t[i], t[j])
              && x.from == t[i].from && x.to == t[j].to
              && x.depth == t[i].depth + t[j].depth + (if t[i].to == t[j].from then 0 else e.depth)
  {
    var added := Inserted(t, e, next);
    var ps := Join(t, JoinCondition(e));
    var k :| 0 <= k < |added| && added[k] == x;
    var i, j := ps[k].0, ps[k].1;
    assert t[i] in t && t[j] in t;
    var ie :| 0 <= ie < |t| && t[ie] == e;
    if !Sandwiches(e, t[i], t[j]) {
      if t[i].id == e.id {
        assert t[i] == e;
      } else {
        assert t[j] == e;
      }
    }
  }

  /** Every pair the intended condition joins yields one inserted row. */
  lemma EveryJoinedPairInserted(t: seq<HRow>, e: HRow, next: nat, i: nat, j: nat)
    requires i < |t| && j < |t| && Joined(e, t[i], t[j])
    ensures exists x :: x in Inserted(t, e, next) && x.from == t[i].from && x.to == t[j].to
              && x.relationType == Hierarchy && x.depth == ClosureDepth(t[i], t[j])
  {
    var ps := Join(t, JoinCondition(e));
    assert (i, j) in ps;
    var k :| 0 <= k < |ps| && ps[k] == (i, j);
    assert Inserted(t, e, next)[k] in Inserted(t, e, next);
  }

  /** Every pair the condition as written joins yields one inserted row. */
  lemma EveryPairJoinedAsWrittenInserted(t: seq<HRow>, e: HRow, next: nat, i: nat, j: nat)
    requires i < |t| && j < |t| && JoinedAsWritten(e, t[i], t[j])
    ensures exists x :: x in InsertedAsWritten(t, e, next) && x.from == t[i].from && x.to == t[j].to
              && x.relationType == Hierarchy && x.depth == ClosureDepth(t[i], t[j])
  {
    var ps := Join(t, JoinAsWrittenCondition(e));
    assert (i, j) in ps;
    var k :| 0 <= k < |ps| && ps[k] == (i, j);
    assert InsertedAsWritten(t, e, next)[k] in InsertedAsWritten(t, e, next);
  }

  /**
   * The corrected condition joins a subset of what the condition as written
   * joins: when one row of a hand-off is the saved link, the hand-off lies at
   * one of the link's two nodes.
   */
  lemma CorrectedPairsJoinedAsWritten(t: seq<HRow>, e: HRow, i: nat, j: nat)
    requires e in t && UniqueIds(t)
    requires i < |t| && j < |t| && Joined(e, t[i], t[j])
    ensures JoinedAsWritten(e, t[i], t[j])
  {
    var k :| 0 <= k < |t| && t[k] == e;
    if !Sandwiches(e, t[i], t[j]) {
      if t[i].id == e.id {
        assert i == k;
      } else {
        assert j == k;
      }
    }
  }

  /**
   * Every row the corrected statement inserts is inserted by the statement as
   * written too, with the same endpoints, type and depth: the statement as
   * written only adds rows on top.
   */
  lemma CorrectedRowsInsertedAsWritten(t: seq<HRow>, e: HRow, next: nat, next': nat, x: HRow)
    requires e in t && UniqueIds(t) && x in Inserted(t, e, next)
    ensures exists y :: y in InsertedAsWritten(t, e, next') && y.from == x.from && y.to == x.to
                        && y.relationType == x.relationType && y.depth == x.depth
  {
    var added := Inserted(t, e, next);
    var k :| 0 <= k < |added| && added[k] == x;
    var p := Join(t, JoinCondition(e))[k];
    CorrectedPairsJoinedAsWritten(t, e, p.0, p.1);
    EveryPairJoinedAsWrittenInserted(t, e, next', p.0, p.1);
  }

  /**
   * The statement as written joins any hand-off at the link's source: with
   * closure `1 -> 2`, `2 -> 3`, `1 -> 3` and the new link `2 -> 4`, the
   * existing path `1 -> 2 -> 3` is inserted again, as a second `1 -> 3` row
   * of depth 2 that does not run through the new link.
   */
  lemma AsWrittenDuplicatesUnrelatedPaths(t: seq<HRow>)
    requires t == [HRow(1, 1, 2, Hierarchy, 1), HRow(2, 2, 3, Hierarchy, 1),
                   HRow(3, 1, 3, Hierarchy, 2), HRow(4, 2, 4, Hierarchy, 1)]
    ensures exists x :: x in InsertedAsWritten(t, t[3], 5) && !ThroughLink(t, t[3], x)
                        && x.from == t[2].from && x.to == t[2].to && x.depth == t[2].depth
  {
    var e := t[3];
    assert JoinedAsWritten(e, t[0], t[1]);
    EveryPairJoinedAsWrittenInserted(t, e, 5, 0, 1);
    var x :| x in InsertedAsWritten(t, e, 5) && x.from == t[0].from && x.to == t[1].to
             && x.relationType == Hierarchy && x.depth == ClosureDepth(t[0], t[1]);
    assert x.to != e.to;
    assert forall r :: r in t ==> r.from != e.to;
    assert !ThroughLink(t, e, x);
  }

  // ---------------------------------------------------------------------------
  // memorize_closures_to_destroy

  /** `r1` starts at a node with a row to the link's target and ends at a node with a row from the link's source. */
  predicate Memorable(t: seq<HRow>, e: HRow, r1: HRow) {
    (exists r2 :: r2 in t && r2.from == r1.from && r2.to == e.to)
    && (exists r3 :: r3 in t && r3.to == r1.to && r3.from == e.from)
  }

  /** The ids of the memorable rows of `s` (a part of `t`), in table order. */
  function MemorableIds(s: seq<HRow>, t: seq<HRow>, e: HRow): (ids: seq<nat>)
    ensures |ids| <= |s|
    decreases |s|
  {
    if s == [] then []
    else MemorableIds(s[..|s| - 1], t, e) + (if Memorable(t, e, s[|s| - 1]) then [s[|s| - 1].id] else [])
  }

  /** An id is listed exactly when a memorable row of `s` carries it. */
  lemma {:induction false} MemorableIdsMembers(s: seq<HRow>, t: seq<HRow>, e: HRow)
    ensures forall id :: id in MemorableIds(s, t, e) <==> exists i :: 0 <= i < |s| && s[i].id == id && Memorable(t, e, s[i])
    decreases |s|
  {
    if s != [] {
      var init := s[..|s| - 1];
      MemorableIdsMembers(init, t, e);
      assert forall i :: 0 <= i < |init| ==> init[i] == s[i];
    }
  }

  /** The `select_values` result: ids of rows running from above the link's target to below its source. */
  function MemorizedIds(t: seq<HRow>, e: HRow): (ids: seq<nat>)
    ensures |ids| <= |t|
  {
    MemorableIds(t, t, e)
  }

  /**
   * The memo lists exactly the ids of the rows `r1` for which some row runs
   * from `r1`'s source to the link's target and some row runs from the
   * link's source to `r1`'s target.
   */
  lemma MemorizedIdsMembers(t: seq<HRow>, e: HRow)
    ensures forall id :: id in MemorizedIds(t, e) <==> exists i :: 0 <= i < |t| && t[i].id == id && Memorable(t, e, t[i])
  {
    MemorableIdsMembers(t, t, e);
  }

  /** A link that is still in the table memorises its own id. */
  lemma LinkMemorizesItself(t: seq<HRow>, e: HRow)
    requires e in t
    ensures e.id in MemorizedIds(t, e)
  {
    var i :| 0 <= i < |t| && t[i] == e;
    assert Memorable(t, e, t[i]);
    MemorizedIdsMembers(t, e);
  }

  /**
   * The table after `add_closures` of `e`: for a hierarchy link, the old rows
   * followed by the rows of the corrected statement (`Inserted`); the
   * statement as written adds duplicates on top (`CorrectedRowsInsertedAsWritten`).
   */
  function AfterAddClosures(t: seq<HRow>, e: HRow, next: nat): (t': seq<HRow>)
    ensures |t'| >= |t| && t'[..|t|] == t
  {
    if IsHierarchyLink(e) then t + Inserted(t, e, next) else t
  }

  /** The table after a link is created: its row, then the closure rows it implies when it is a hierarchy link. */
  function Created(t: seq<HRow>, next: nat, from: nat, to: nat, relationType: string, depth: nat): (t': seq<HRow>)
  {
    var r := HRow(next, from, to, relationType, depth);
    AfterAddClosures(t + [r], r, next + 1)
  }

  /**
   * The table after a link with a fresh memo is destroyed: its row is
   * deleted, then, for a hierarchy link, the rows memorised before the
   * deletion.
   */
  function Destroyed(t: seq<HRow>, e: HRow): (t': seq<HRow>)
    ensures |t'| <= |t|
  {
    var remaining := Without(t, {e.id});
    if IsHierarchyLink(e) && MemorizedIds(t, e) != [] then Without(remaining, set id | id in MemorizedIds(t, e))
    else remaining
  }

  /**
   * Destroying a link deletes its own row and nothing that was not there;
   * for a hierarchy link still in the table, exactly the memorised rows go,
   * and for any other relation only its own row.
   */
  lemma DestroyedMembers(t: seq<HRow>, e: HRow)
    ensures forall x :: x in Destroyed(t, e) ==> x in t && x.id != e.id
    ensures IsHierarchyLink(e) && e in t ==> forall x :: x in Destroyed(t, e) <==> x in t && x.id !in MemorizedIds(t, e)
    ensures !IsHierarchyLink(e) ==> forall x :: x in Destroyed(t, e) <==> x in t && x.id != e.id
  {
    var remaining := Without(t, {e.id});
    WithoutMembers(t, {e.id});
    var ids := set id | id in MemorizedIds(t, e);
    WithoutMembers(remaining, ids);
    if IsHierarchyLink(e) && e in t {
      LinkMemorizesItself(t, e);
    }
  }

  // ---------------------------------------------------------------------------
  // The table and the edge object

  /** The `relations` table with its id sequence. */
  class Relations {
    var rows: seq<HRow>
    var nextId: nat

    ghost predicate Valid()
      reads this
    {
      UniqueIds(rows) && IdsBelow(rows, nextId)
    }

    constructor()
      ensures rows == [] && nextId == 0 && Valid()
    {
      rows := [];
      nextId := 0;
    }

    /** `INSERT` of a new relation: the row takes the next id of the sequence. */
    method Insert(r: HRow)
      requires Valid() && r.id == nextId
      modifies this
      ensures Valid()
      ensures rows == old(rows) + [r] && nextId == old(nextId) + 1
    {
      var u := rows + [r];
      forall i | 0 <= i < |rows| ensures u[i].id < nextId {
        assert rows[i] in rows;
      }
      rows := u;
      nextId := nextId + 1;
    }
  }

  /** A saved relation object, with the ids it memorises before it is destroyed. */
  class Edge {
    const row: HRow
    var closuresToDestroy: Option<seq<nat>>

    constructor(row: HRow)
      ensures this.row == row && closuresToDestroy.None?
    {
      this.row := row;
      closuresToDestroy := None;
    }

    /** `add_closures`: for a hierarchy link, insert the closure rows it implies. */
    method AddClosures(relations: Relations)
      requires relations.Valid()
      modifies relations
      ensures relations.Valid()
      ensures relations.rows == AfterAddClosures(old(relations.rows), row, old(relations.nextId))
      ensures IsHierarchyLink(row) ==> relations.nextId == old(relations.nextId) + |Join(old(relations.rows), JoinCondition(row))|
      ensures !IsHierarchyLink(row) ==> relations.nextId == old(relations.nextId)
    {
      if !IsHierarchyLink(row) {
        return;
      }
      var added := Inserted(relations.rows, row, relations.nextId);
      var t, next := relations.rows, relations.nextId;
      assert UniqueIds(t + added) && IdsBelow(t + added, next + |added|) by {
        var u := t + added;
        forall i | 0 <= i < |t| ensures u[i].id < next {
          assert t[i] in t;
        }
        forall r | r in u ensures r.id < next + |added| {
          var i :| 0 <= i < |u| && u[i] == r;
        }
      }
      relations.rows := relations.rows + added;
      relations.nextId := relations.nextId + |added|;
    }

    /** `memorize_closures_to_destroy`: for a hierarchy link, store the ids of the rows through it. */
    method MemorizeClosuresToDestroy(relations: Relations)
      modifies this
      ensures IsHierarchyLink(row) ==> closuresToDestroy == Some(MemorizedIds(relations.rows, row))
      ensures !IsHierarchyLink(row) ==> closuresToDestroy == old(closuresToDestroy)
    {
      if !IsHierarchyLink(row) {
        return;
      }
      closuresToDestroy := Some(MemorizedIds(relations.rows, row));
    }

    /**
     * `truncate_closures`: with a non-empty memo, delete the memorised ids
     * and reset the memo to `nil`; otherwise change nothing.
     */
    method TruncateClosures(relations: Relations)
      requires relations.Valid()
      modifies this, relations
      ensures relations.Valid() && relations.nextId == old(relations.nextId)
      ensures old(closuresToDestroy).Some? && old(closuresToDestroy).value != [] ==>
                relations.rows == Without(old(relations.rows), set id | id in old(closuresToDestroy).value)
                && closuresToDestroy.None?
      ensures !(old(closuresToDestroy).Some? && old(closuresToDestroy).value != []) ==>
                relations.rows == old(relations.rows) && closuresToDestroy == old(closuresToDestroy)
    {
      if !(closuresToDestroy.Some? && closuresToDestroy.value != []) {
        return;
      }
      var ids := set id | id in closuresToDestroy.value;
      WithoutKeepsIds(relations.rows, ids, relations.nextId);
      relations.rows := Without(relations.rows, ids);
      closuresToDestroy := None;
    }
  }

  /** Creating a relation: the row is inserted with the next id, then `after_create` runs. */
  method Create(relations: Relations, from: nat, to: nat, relationType: string, depth: nat) returns (edge: Edge)
    requires relations.Valid()
    modifies relations
    ensures fresh(edge) && edge.row == HRow(old(relations.nextId), from, to, relationType, depth)
    ensures edge.closuresToDestroy.None?
    ensures relations.Valid()
    ensures relations.rows == Created(old(relations.rows), old(relations.nextId), from, to, relationType, depth)
    ensures relations.nextId == old(relations.nextId) + 1 +
              if IsHierarchyLink(edge.row) then |Join(old(relations.rows) + [edge.row], JoinCondition(edge.row))| else 0
  {
    var r := HRow(relations.nextId, from, to, relationType, depth);
    relations.Insert(r);
    edge := new Edge(r);
    edge.AddClosures(relations);
  }

  /**
   * Destroying a relation: `before_destroy` memorises, the row is deleted,
   * then `after_destroy` deletes the memorised rows.
   */
  method Destroy(relations: Relations, edge: Edge)
    requires relations.Valid()
    modifies relations, edge
    ensures relations.Valid() && relations.nextId == old(relations.nextId)
    ensures old(edge.closuresToDestroy).None? ==> relations.rows == Destroyed(old(relations.rows), edge.row)
    ensures old(edge.closuresToDestroy).None? ==> edge.closuresToDestroy.None? || edge.closuresToDestroy == Some([])
  {
    edge.MemorizeClosuresToDestroy(relations);
    WithoutKeepsIds(relations.rows, {edge.row.id}, relations.nextId);
    relations.rows := Without(relations.rows, {edge.row.id});
    edge.TruncateClosures(relations);
  }
}
