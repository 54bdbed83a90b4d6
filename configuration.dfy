/**
 * The DAG configuration: a hash of options, each looked up with `||` so that
 * an absent option falls back to the default column name. Ruby's `nil` is
 * `None`; a configured value, even an empty string, is kept as given.
 */
module Configuration {
  import opened Wrappers

  datatype Config = Config(
    nodeClassName: Option<string>,
    edgeClassName: Option<string>,
    ancestorColumn: Option<string>,
    descendantColumn: Option<string>,
    typeColumn: Option<string>,
    depthColumn: Option<string>)

  /** `node_class_name`: the configured value, `nil` when not configured. */
  function NodeClassName(c: Config): (name: Option<string>)
    ensures name == c.nodeClassName
  {
    c.nodeClassName
  }

  /** `edge_class_name`: the configured value, `nil` when not configured. */
  function EdgeClassName(c: Config): (name: Option<string>)
    ensures name == c.edgeClassName
  {
    c.edgeClassName
  }

  /** `ancestor_column`: the configured name, else `ancestor_id`. */
  function AncestorColumn(c: Config): (column: string)
    ensures c.ancestorColumn.Some? ==> column == c.ancestorColumn.value
    ensures c.ancestorColumn.None? ==> column == "ancestor_id"
  {
    c.ancestorColumn.GetOr("ancestor_id")
  }

  /** `descendant_column`: the configured name, else `descendant_id`. */
  function DescendantColumn(c: Config): (column: string)
    ensures c.descendantColumn.Some? ==> column == c.descendantColumn.value
    ensures c.descendantColumn.None? ==> column == "descendant_id"
  {
    c.descendantColumn.GetOr("descendant_id")
  }

  /** `type_column`: the configured name, else `type`. */
  function TypeColumn(c: Config): (column: string)
    ensures c.typeColumn.Some? ==> column == c.typeColumn.value
    ensures c.typeColumn.None? ==> column == "type"
  {
    c.typeColumn.GetOr("type")
  }

  /** `depth_column`: the configured name, else `depth`. */
  function DepthColumn(c: Config): (column: string)
    ensures c.depthColumn.Some? ==> column == c.depthColumn.value
    ensures c.depthColumn.None? ==> column == "depth"
  {
    c.depthColumn.GetOr("depth")
  }

  /**
   * Without configured column names the four columns the statements address
   * are four different columns, and one option never affects another
   * option's column.
   */
  lemma DefaultColumnsDistinct(c: Config)
    requires c.ancestorColumn.None? && c.descendantColumn.None? && c.typeColumn.None? && c.depthColumn.None?
    ensures AncestorColumn(c) != DescendantColumn(c)
    ensures [AncestorColumn(c), DescendantColumn(c), TypeColumn(c), DepthColumn(c)]
            == ["ancestor_id", "descendant_id", "type", "depth"]
    ensures forall name :: AncestorColumn(c.(ancestorColumn := Some(name))) == name
                        && DescendantColumn(c.(ancestorColumn := Some(name))) == "descendant_id"
  {
  }
}
