/**
 * The two validations of a relation against the table: uniqueness of
 * `from` scoped to `to` among rows whose type columns sum to at most 1,
 * and the guard against a row in the opposite direction.
 */
module Validations {
  import opened Wrappers
  import opened ClosureTable
  import opened RelationAccess

  /** Where an error is recorded: on the `from` attribute or on `:base`. */
  datatype Attribute = From | Base

  /** An entry of `errors`: the attribute and the error key. */
  datatype ValidationError = ValidationError(attribute: Attribute, key: string)

  const TakenKey := "taken"
  const CircularDependencyKey := "typed_dag.circular_dependency"

  /** The relation's endpoints are readable. */
  predicate HasEndpoints(o: DagOptions, rel: Relation) {
    AncestorColumn(o) in rel.attributes && DescendantColumn(o) in rel.attributes
  }

  /**
   * `validates_uniqueness_of :from, scope: [:to]` with the condition
   * `NOT (<type columns summed> > 1)`: another row (not the relation itself,
   * once saved) between the same two nodes whose type columns sum to at most 1.
   */
  predicate Taken(o: DagOptions, t: seq<Row>, rel: Relation)
    requires HasEndpoints(o, rel)
  {
    exists r :: r in t && (rel.id.None? || r.id != rel.id.value)
      && r.from == AncestorIdValue(o, rel) && r.to == DescendantIdValue(o, rel)
      && Sum(r.weights) <= 1
  }

  /** `no_circular_dependency`: a row runs from the relation's descendant to its ancestor. */
  predicate Circular(o: DagOptions, t: seq<Row>, rel: Relation)
    requires HasEndpoints(o, rel)
  {
    exists r :: r in t && r.from == DescendantIdValue(o, rel) && r.to == AncestorIdValue(o, rel)
  }

  /** The errors validation records, in the order the validations are declared. */
  function Errors(o: DagOptions, t: seq<Row>, rel: Relation): (errors: seq<ValidationError>)
    requires HasEndpoints(o, rel)
    ensures ValidationError(From, TakenKey) in errors <==> Taken(o, t, rel)
    ensures ValidationError(Base, CircularDependencyKey) in errors <==> Circular(o, t, rel)
    ensures forall err :: err in errors ==>
              err == ValidationError(From, TakenKey) || err == ValidationError(Base, CircularDependencyKey)
    ensures |errors| <= 2
  {
    (if Taken(o, t, rel) then [ValidationError(From, TakenKey)] else [])
    + (if Circular(o, t, rel) then [ValidationError(Base, CircularDependencyKey)] else [])
  }

  /** `valid?`: no error was recorded. */
  predicate IsValid(o: DagOptions, t: seq<Row>, rel: Relation)
    requires HasEndpoints(o, rel)
  {
    Errors(o, t, rel) == []
  }

  /** A relation is valid exactly when no other near-direct row joins its nodes and no row runs backwards. */
  lemma ValidIffNeitherError(o: DagOptions, t: seq<Row>, rel: Relation)
    requires HasEndpoints(o, rel)
    ensures IsValid(o, t, rel) <==> !Taken(o, t, rel) && !Circular(o, t, rel)
  {
    if IsValid(o, t, rel) {
      assert ValidationError(From, TakenKey) !in Errors(o, t, rel);
      assert ValidationError(Base, CircularDependencyKey) !in Errors(o, t, rel);
    }
  }

  /** Rows that validation looks at: those between the relation's two nodes, in either direction. */
  predicate Between(o: DagOptions, rel: Relation, r: Row)
    requires HasEndpoints(o, rel)
  {
    var a, d := AncestorIdValue(o, rel), DescendantIdValue(o, rel);
    (r.from == a && r.to == d) || (r.from == d && r.to == a)
  }

  /**
   * Validation only depends on the rows between the relation's two nodes:
   * two tables that agree on those rows give the same errors. Validation is
   * a function of the table, so it never changes it.
   */
  lemma ErrorsDependOnlyOnRowsBetween(o: DagOptions, t1: seq<Row>, t2: seq<Row>, rel: Relation)
    requires HasEndpoints(o, rel)
    requires forall r :: Between(o, rel, r) ==> (r in t1 <==> r in t2)
    ensures Errors(o, t1, rel) == Errors(o, t2, rel)
  {
    if Taken(o, t1, rel) {
      var r :| r in t1 && (rel.id.None? || r.id != rel.id.value)
        && r.from == AncestorIdValue(o, rel) && r.to == DescendantIdValue(o, rel) && Sum(r.weights) <= 1;
      assert Between(o, rel, r);
    }
    if Taken(o, t2, rel) {
      var r :| r in t2 && (rel.id.None? || r.id != rel.id.value)
        && r.from == AncestorIdValue(o, rel) && r.to == DescendantIdValue(o, rel) && Sum(r.weights) <= 1;
      assert Between(o, rel, r);
    }
    if Circular(o, t1, rel) {
      var r :| r in t1 && r.from == DescendantIdValue(o, rel) && r.to == AncestorIdValue(o, rel);
      assert Between(o, rel, r);
    }
    if Circular(o, t2, rel) {
      var r :| r in t2 && r.from == DescendantIdValue(o, rel) && r.to == AncestorIdValue(o, rel);
      assert Between(o, rel, r);
    }
  }

  /**
   * Closure rows between the same two nodes whose type columns sum to more
   * than 1 (`invalidate: 2`, or `hierarchy: 1, invalidate: 1`) never make a
   * new relation `taken`; any other row there, whatever its type, does.
   */
  lemma OnlyNearDirectRowsBlock(o: DagOptions, t: seq<Row>, rel: Relation, r: Row)
    requires HasEndpoints(o, rel) && rel.id.None?
    requires r.from == AncestorIdValue(o, rel) && r.to == DescendantIdValue(o, rel)
    requires forall x :: x in t ==> Sum(x.weights) > 1
    ensures !Taken(o, t, rel)
    ensures Taken(o, t + [r], rel) <==> Sum(r.weights) <= 1
  {
    assert r in t + [r];
    if Taken(o, t + [r], rel) {
      var x :| x in t + [r] && x.from == AncestorIdValue(o, rel) && x.to == DescendantIdValue(o, rel)
        && Sum(x.weights) <= 1;
      assert x == r;
    }
  }
}
