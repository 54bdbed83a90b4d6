/**
 * How the statements read a relation: column names come from the relation's
 * DAG options, values are read from the relation by those names
 * (`relation.send(column)`). A relation is modelled as its id (`nil` before
 * it is saved) and its attributes by column name.
 */
module RelationAccess {
  import opened Wrappers
  import Configuration
  import opened ClosureTable

  /** The relation's `_dag_options`: the configuration and the configured type columns, in order. */
  datatype DagOptions = DagOptions(config: Configuration.Config, typeColumns: seq<string>)

  /** An edge object: its id and its attribute values by column name. */
  datatype Relation = Relation(id: Option<nat>, attributes: map<string, nat>)

  /** `ancestor_column`, read from the options. */
  function AncestorColumn(o: DagOptions): (column: string)
    ensures column == Configuration.AncestorColumn(o.config)
  {
    Configuration.AncestorColumn(o.config)
  }

  /** `descendant_column`, read from the options. */
  function DescendantColumn(o: DagOptions): (column: string)
    ensures column == Configuration.DescendantColumn(o.config)
  {
    Configuration.DescendantColumn(o.config)
  }

  /** `type_columns`, read from the options, in configured order. */
  function TypeColumns(o: DagOptions): (columns: seq<string>)
    ensures columns == o.typeColumns
  {
    o.typeColumns
  }

  /** The relation answers every column the statements read. */
  predicate HasColumns(o: DagOptions, rel: Relation) {
    && AncestorColumn(o) in rel.attributes
    && DescendantColumn(o) in rel.attributes
    && forall c :: c in TypeColumns(o) ==> c in rel.attributes
  }

  /** `ancestor_id_value`: the relation's value in the configured ancestor column. */
  function AncestorIdValue(o: DagOptions, rel: Relation): (v: nat)
    requires AncestorColumn(o) in rel.attributes
    ensures v == rel.attributes[Configuration.AncestorColumn(o.config)]
  {
    rel.attributes[AncestorColumn(o)]
  }

  /** `descendant_id_value`: the relation's value in the configured descendant column. */
  function DescendantIdValue(o: DagOptions, rel: Relation): (v: nat)
    requires DescendantColumn(o) in rel.attributes
    ensures v == rel.attributes[Configuration.DescendantColumn(o.config)]
  {
    rel.attributes[DescendantColumn(o)]
  }

  /** `type_values`: one value per type column, in the columns' order. */
  function TypeValues(o: DagOptions, rel: Relation): (vs: seq<nat>)
    requires forall c :: c in TypeColumns(o) ==> c in rel.attributes
    ensures |vs| == |o.typeColumns|
    ensures forall i :: 0 <= i < |vs| ==> vs[i] == rel.attributes[o.typeColumns[i]]
  {
    seq(|TypeColumns(o)|, i requires 0 <= i < |TypeColumns(o)| => rel.attributes[TypeColumns(o)[i]])
  }

  /** The relation's values as a key of the table (everything the truncation reads). */
  function KeyOfRelation(o: DagOptions, rel: Relation): (k: Key)
    requires HasColumns(o, rel)
    ensures k.from == AncestorIdValue(o, rel) && k.to == DescendantIdValue(o, rel)
    ensures k.weights == TypeValues(o, rel)
  {
    Key(AncestorIdValue(o, rel), DescendantIdValue(o, rel), TypeValues(o, rel))
  }

  /** The saved relation as a row of the table (`id_value` and the values above). */
  function RowOfRelation(o: DagOptions, rel: Relation): (r: Row)
    requires HasColumns(o, rel) && rel.id.Some?
    ensures r.id == rel.id.value && KeyOf(r) == KeyOfRelation(o, rel)
    ensures |r.weights| == |o.typeColumns|
  {
    Row(rel.id.value, AncestorIdValue(o, rel), DescendantIdValue(o, rel), TypeValues(o, rel))
  }

  /** Two relations hold the same values in every column the statements read. */
  predicate AgreeOnColumns(o: DagOptions, a: Relation, b: Relation)
    requires HasColumns(o, a) && HasColumns(o, b)
  {
    && a.attributes[AncestorColumn(o)] == b.attributes[AncestorColumn(o)]
    && a.attributes[DescendantColumn(o)] == b.attributes[DescendantColumn(o)]
    && forall c :: c in TypeColumns(o) ==> a.attributes[c] == b.attributes[c]
  }

  /**
   * The statements see a relation only through its configured columns: two
   * relations have the same key exactly when they agree on the ancestor,
   * descendant and type columns, whatever else they hold; with the same id
   * they then give the same row.
   */
  lemma KeyIffColumnsAgree(o: DagOptions, a: Relation, b: Relation)
    requires HasColumns(o, a) && HasColumns(o, b)
    ensures KeyOfRelation(o, a) == KeyOfRelation(o, b) <==> AgreeOnColumns(o, a, b)
    ensures a.id == b.id && a.id.Some? ==> (RowOfRelation(o, a) == RowOfRelation(o, b) <==> AgreeOnColumns(o, a, b))
  {
    if KeyOfRelation(o, a) == KeyOfRelation(o, b) {
      forall c | c in TypeColumns(o) ensures a.attributes[c] == b.attributes[c] {
        var i :| 0 <= i < |o.typeColumns| && o.typeColumns[i] == c;
        assert TypeValues(o, a)[i] == TypeValues(o, b)[i];
      }
    }
    if AgreeOnColumns(o, a, b) {
      assert TypeValues(o, a) == TypeValues(o, b);
    }
  }

  // ---------------------------------------------------------------------------
  // type_select_list

  /** `names.join(', ')`. */
  function JoinNames(names: seq<string>): string
    decreases |names|
  {
    if |names| == 0 then ""
    else if |names| == 1 then names[0]
    else names[0] + ", " + JoinNames(names[1..])
  }

  /** `type_select_list`: the type columns joined by `", "` in configured order. */
  function TypeSelectList(o: DagOptions): (list: string)
    ensures list == JoinNames(o.typeColumns)
  {
    JoinNames(TypeColumns(o))
  }

  /** Reads a column list back: cuts at every `", "`. */
  function SplitNames(s: string): (names: seq<string>)
    ensures |names| >= 1
    decreases |s|
  {
    if s == [] then [""]
    else if |s| >= 2 && s[0] == ',' && s[1] == ' ' then [""] + SplitNames(s[2..])
    else
      var rest := SplitNames(s[1..]);
      [[s[0]] + rest[0]] + rest[1..]
  }

  /** A name without a comma is read back whole, and the text after its separator is read on. */
  lemma {:induction false} SplitAfterName(a: string, b: string)
    requires ',' !in a
    ensures SplitNames(a) == [a]
    ensures SplitNames(a + ", " + b) == [a] + SplitNames(b)
    decreases |a|
  {
    if a == [] {
      assert a + ", " + b == ", " + b;
      assert (", " + b)[2..] == b;
    } else {
      SplitAfterName(a[1..], b);
      assert (a + ", " + b)[1..] == a[1..] + ", " + b;
      assert [a[0]] + a[1..] == a;
    }
  }

  /**
   * The select list names exactly the configured type columns, in order: as
   * long as no column name contains a comma, reading the list back gives the
   * columns.
   */
  lemma {:induction false} TypeSelectListRoundTrip(names: seq<string>)
    requires |names| >= 1
    requires forall i :: 0 <= i < |names| ==> ',' !in names[i]
    ensures SplitNames(JoinNames(names)) == names
    decreases |names|
  {
    if |names| == 1 {
      SplitAfterName(names[0], "");
    } else {
      SplitAfterName(names[0], JoinNames(names[1..]));
      TypeSelectListRoundTrip(names[1..]);
    }
  }
}
