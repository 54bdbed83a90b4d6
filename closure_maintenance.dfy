/**
 * The closure maintenance callbacks of an edge model. The relations table
 * is an object whose rows the callbacks change in place: `after_create`
 * adds closures, `after_update` alters them (truncate with the former
 * values, then add with the current ones) and `after_destroy` truncates
 * them. Only direct relations trigger any of this.
 */
module ClosureMaintenance {
  import opened Wrappers
  import opened ClosureTable
  import opened RelationAccess
  import AddClosure
  import TruncateClosure

  /** `new_record?`: the relation has no id yet (it was never saved, or it is a `dup`). */
  predicate NewRecord(rel: Relation) {
    rel.id.None?
  }

  /** `direct?`: the relation's type values sum to 1. */
  predicate IsDirect(o: DagOptions, rel: Relation)
    requires forall c :: c in TypeColumns(o) ==> c in rel.attributes
  {
    Direct(TypeValues(o, rel))
  }

  /**
   * The relation `truncate_closures_with_former_values` builds: a `dup`
   * (which has no id) whose attributes named in `changes` are reset to their
   * previous values; every other attribute keeps its current value.
   */
  function FormerValues(rel: Relation, changes: map<string, nat>): (former: Relation)
    ensures NewRecord(former)
    ensures former.attributes.Keys == rel.attributes.Keys + changes.Keys
    ensures forall c :: c in changes ==> former.attributes[c] == changes[c]
    ensures forall c :: c in rel.attributes && c !in changes ==> former.attributes[c] == rel.attributes[c]
  {
    Relation(None, rel.attributes + changes)
  }

  /** Every column the statements read is still readable on the former-values relation. */
  lemma FormerValuesHasColumns(o: DagOptions, rel: Relation, changes: map<string, nat>)
    requires HasColumns(o, rel)
    ensures HasColumns(o, FormerValues(rel, changes))
  {
  }

  /**
   * Only the changed columns the statements read can move the key: when no
   * ancestor, descendant or type column changed, the former key is the
   * current key.
   */
  lemma FormerKeyUnchanged(o: DagOptions, rel: Relation, changes: map<string, nat>)
    requires HasColumns(o, rel)
    requires AncestorColumn(o) !in changes && DescendantColumn(o) !in changes
    requires forall c :: c in TypeColumns(o) ==> c !in changes
    ensures KeyOfRelation(o, FormerValues(rel, changes)) == KeyOfRelation(o, rel)
  {
    KeyIffColumnsAgree(o, FormerValues(rel, changes), rel);
  }

  /** The table with the row carrying `r`'s id replaced by `r` (an UPDATE by primary key). */
  function WithRow(t: seq<Row>, r: Row): (t': seq<Row>)
    ensures |t'| == |t|
    ensures forall i :: 0 <= i < |t| ==> t'[i] == (if t[i].id == r.id then r else t[i])
  {
    seq(|t|, i requires 0 <= i < |t| => if t[i].id == r.id then r else t[i])
  }

  /** The rows of the edge model's table, with the id sequence's next value. */
  class RelationTable {
    const options: DagOptions
    var rows: seq<Row>
    var nextId: nat

    /** Every row has one value per type column; ids are unique and below the sequence. */
    ghost predicate Valid()
      reads this
    {
      WellFormed(rows, |options.typeColumns|) && UniqueIds(rows) && IdsBelow(rows, nextId)
    }

    constructor(options: DagOptions)
      ensures this.options == options && rows == [] && nextId == 0
      ensures Valid()
    {
      this.options := options;
      rows := [];
      nextId := 0;
    }

    /**
     * `add_closures`: for a direct relation, run the closure insertion with
     * the relation as the edge; otherwise do nothing.
     */
    method AddClosures(rel: Relation)
      requires Valid() && HasColumns(options, rel) && rel.id.Some?
      modifies this
      ensures Valid()
      ensures IsDirect(options, rel) ==>
                var e := RowOfRelation(options, rel);
                rows == AddClosure.Apply(old(rows), e, old(nextId))
                && nextId == old(nextId) + |AddClosure.Pairs(old(rows), e)|
      ensures !IsDirect(options, rel) ==> rows == old(rows) && nextId == old(nextId)
    {
      if !IsDirect(options, rel) {
        return;
      }
      var e := RowOfRelation(options, rel);
      var added := AddClosure.Inserted(rows, e, nextId);
      AppendFreshKeepsIds(rows, added, nextId);
      rows := rows + added;
      nextId := nextId + |added|;
    }

    /** Runs the closure truncation for `rel`'s key, whatever `rel` is. */
    method Truncate(rel: Relation)
      requires Valid() && HasColumns(options, rel)
      modifies this
      ensures Valid() && nextId == old(nextId)
      ensures rows == TruncateClosure.Truncated(old(rows), KeyOfRelation(options, rel))
    {
      var e := KeyOfRelation(options, rel);
      RemoveIdsKeepsIds(rows, TruncateClosure.DeletedIds(rows, e), nextId);
      rows := TruncateClosure.Truncated(rows, e);
    }

    /**
     * `truncate_closures`: for a direct relation that was saved, run the
     * closure truncation with its values; a new record or a closure row
     * changes nothing.
     */
    method TruncateClosures(rel: Relation)
      requires Valid() && HasColumns(options, rel)
      modifies this
      ensures Valid() && nextId == old(nextId)
      ensures IsDirect(options, rel) && !NewRecord(rel) ==>
                rows == TruncateClosure.Truncated(old(rows), KeyOfRelation(options, rel))
      ensures !(IsDirect(options, rel) && !NewRecord(rel)) ==> rows == old(rows)
    {
      if !(IsDirect(options, rel) && !NewRecord(rel)) {
        return;
      }
      Truncate(rel);
    }

    /**
     * `truncate_closures_with_former_values`: run the closure truncation with
     * the values the relation had before the update. The former-values
     * relation is a `dup`, so it is not checked for being direct or saved.
     */
    method TruncateClosuresWithFormerValues(rel: Relation, changes: map<string, nat>)
      requires Valid() && HasColumns(options, rel)
      modifies this
      ensures Valid() && nextId == old(nextId)
      ensures HasColumns(options, FormerValues(rel, changes))
      ensures rows == TruncateClosure.Truncated(old(rows), KeyOfRelation(options, FormerValues(rel, changes)))
    {
      var former := FormerValues(rel, changes);
      FormerValuesHasColumns(options, rel, changes);
      Truncate(former);
    }

    /**
     * `alter_closure`: for a relation that is direct after the update, first
     * truncate with the former values, then add with the current values.
     */
    method AlterClosure(rel: Relation, changes: map<string, nat>)
      requires Valid() && HasColumns(options, rel) && rel.id.Some?
      modifies this
      ensures Valid()
      ensures HasColumns(options, FormerValues(rel, changes))
      ensures IsDirect(options, rel) ==>
                var truncated := TruncateClosure.Truncated(old(rows), KeyOfRelation(options, FormerValues(rel, changes)));
                var e := RowOfRelation(options, rel);
                && WellFormed(truncated, |e.weights|)
                && rows == AddClosure.Apply(truncated, e, old(nextId))
                && nextId == old(nextId) + |AddClosure.Pairs(truncated, e)|
      ensures !IsDirect(options, rel) ==> rows == old(rows) && nextId == old(nextId)
    {
      FormerValuesHasColumns(options, rel, changes);
      if !IsDirect(options, rel) {
        return;
      }
      TruncateClosuresWithFormerValues(rel, changes);
      AddClosures(rel);
    }

    /** `INSERT` of a new relation: the row takes the next id of the sequence. */
    method Insert(r: Row)
      requires Valid() && r.id == nextId && |r.weights| == |options.typeColumns|
      modifies this
      ensures Valid()
      ensures rows == old(rows) + [r] && nextId == old(nextId) + 1
    {
      AppendFreshKeepsIds(rows, [r], nextId);
      rows := rows + [r];
      nextId := nextId + 1;
    }

    /**
     * Creating a relation: the row is inserted with the next id, then
     * `after_create` adds the closures it implies.
     */
    method Create(attributes: map<string, nat>) returns (rel: Relation)
      requires Valid() && HasColumns(options, Relation(None, attributes))
      modifies this
      ensures Valid()
      ensures rel == Relation(Some(old(nextId)), attributes) && HasColumns(options, rel)
      ensures var created := old(rows) + [RowOfRelation(options, rel)];
              && WellFormed(created, |options.typeColumns|)
              && (IsDirect(options, rel) ==>
                    rows == AddClosure.Apply(created, RowOfRelation(options, rel), old(nextId) + 1)
                    && nextId == old(nextId) + 1 + |AddClosure.Pairs(created, RowOfRelation(options, rel))|)
              && (!IsDirect(options, rel) ==> rows == created && nextId == old(nextId) + 1)
    {
      rel := Relation(Some(nextId), attributes);
      Insert(RowOfRelation(options, rel));
      AddClosures(rel);
    }

    /**
     * Updating a saved relation to the attributes of `rel`, `changes` holding
     * the previous value of every changed attribute: the row is rewritten in
     * place, then `after_update` alters the closures.
     */
    method Update(rel: Relation, changes: map<string, nat>)
      requires Valid() && HasColumns(options, rel) && rel.id.Some? && rel.id.value < nextId
      modifies this
      ensures Valid()
      ensures HasColumns(options, FormerValues(rel, changes))
      ensures var updated := WithRow(old(rows), RowOfRelation(options, rel));
              && WellFormed(updated, |options.typeColumns|)
              && (!IsDirect(options, rel) ==> rows == updated && nextId == old(nextId))
              && (IsDirect(options, rel) ==>
                    var truncated := TruncateClosure.Truncated(updated, KeyOfRelation(options, FormerValues(rel, changes)));
                    WellFormed(truncated, |options.typeColumns|)
                    && rows == AddClosure.Apply(truncated, RowOfRelation(options, rel), old(nextId))
                    && nextId == old(nextId) + |AddClosure.Pairs(truncated, RowOfRelation(options, rel))|)
    {
      var r := RowOfRelation(options, rel);
      var updated := WithRow(rows, r);
      assert WellFormed(updated, |options.typeColumns|) by {
        forall x | x in updated ensures |x.weights| == |options.typeColumns| {
          var i :| 0 <= i < |updated| && updated[i] == x;
          assert rows[i] in rows;
        }
      }
      assert UniqueIds(updated);
      assert IdsBelow(updated, nextId) by {
        forall x | x in updated ensures x.id < nextId {
          var i :| 0 <= i < |updated| && updated[i] == x;
          assert rows[i] in rows;
        }
      }
      rows := updated;
      AlterClosure(rel, changes);
    }

    /**
     * Destroying a saved relation: its row is deleted, then `after_destroy`
     * truncates the closures it implied.
     */
    method Destroy(rel: Relation)
      requires Valid() && HasColumns(options, rel) && rel.id.Some?
      modifies this
      ensures Valid() && nextId == old(nextId)
      ensures var remaining := RemoveIds(old(rows), {rel.id.value});
              && WellFormed(remaining, |options.typeColumns|)
              && (IsDirect(options, rel) ==> rows == TruncateClosure.Truncated(remaining, KeyOfRelation(options, rel)))
              && (!IsDirect(options, rel) ==> rows == remaining)
    {
      RemoveIdsKeepsIds(rows, {rel.id.value}, nextId);
      rows := RemoveIds(rows, {rel.id.value});
      TruncateClosures(rel);
    }
  }
}
