/**
 * The part of the ORM's select query that the tenant-scope behaviour reads
 * and changes: hydration, the select clause and the list of conditions,
 * with a meaning for conditions over rows so that scoping can be stated as
 * a property of the rows a query selects.
 */
module Query {
  import opened Values

  /** A row of the query's result, keyed by `Table.column`. */
  type Row = map<string, Value>

  /** A condition of the query's WHERE clause. */
  datatype Condition =
    | FieldEquals(field: string, value: Value)   // `where([field => value])`
    | Matching(path: string, inner: Condition)    // `matching(path, fn)` with `fn` adding `inner`
    | Given(tag: string)                        // a condition the caller put on the query

  /** One entry of the select clause: an array key and the selected expression. */
  datatype SelectItem = SelectItem(key: Value, expr: Value)

  /** The select clause `['existing' => 1]` that `Table::exists()` builds. */
  const ExistsSelect: seq<SelectItem> := [SelectItem(Str("existing"), Int(1))]

  /**
   * The query is an existence probe: hydration off and a select clause
   * strictly identical (`===`) to `['existing' => 1]`, so one entry whose
   * key is the string `existing` and whose value is the integer 1.
   */
  predicate IsExistsProbe(hydrate: bool, select: seq<SelectItem>): (p: bool)
    ensures p <==> !hydrate && |select| == 1 && select[0].key == Str("existing") && select[0].expr == Int(1)
  {
    !hydrate && select == ExistsSelect
  }

  /**
   * What a condition means for a row. `reach(path, row)` gives the rows
   * reachable from `row` through the association path (the inner join that
   * `matching` builds); `given` gives the meaning of the caller's own conditions.
   */
  ghost predicate Holds(c: Condition, row: Row, reach: (string, Row) -> set<Row>, given: (string, Row) -> bool)
    decreases c
  {
    match c
    case FieldEquals(f, v) => f in row && row[f] == v
    case Matching(path, inner) => exists r :: r in reach(path, row) && Holds(inner, r, reach, given)
    case Given(tag) => given(tag, row)
  }

  /** A row is selected when it meets every condition. */
  ghost predicate Selects(conditions: seq<Condition>, row: Row, reach: (string, Row) -> set<Row>, given: (string, Row) -> bool)
  {
    forall i :: 0 <= i < |conditions| ==> Holds(conditions[i], row, reach, given)
  }

  /** Adding a condition narrows the selection to the rows that also meet it. */
  lemma SelectsAppend(conditions: seq<Condition>, c: Condition, row: Row, reach: (string, Row) -> set<Row>, given: (string, Row) -> bool)
    ensures Selects(conditions + [c], row, reach, given) <==>
      Selects(conditions, row, reach, given) && Holds(c, row, reach, given)
  {
    var all := conditions + [c];
    assert all[|conditions|] == c;
    assert forall i :: 0 <= i < |conditions| ==> all[i] == conditions[i];
  }

  /** The ORM's select query, changed in place by `where` and `matching`. */
  class SelectQuery {
    var hydrate: bool
    var select: seq<SelectItem>
    var conditions: seq<Condition>

    constructor (hydrate: bool, select: seq<SelectItem>, conditions: seq<Condition>)
      ensures this.hydrate == hydrate && this.select == select && this.conditions == conditions
    {
      this.hydrate, this.select, this.conditions := hydrate, select, conditions;
    }

    /** `where([field => value])`: one more condition, nothing else changes. */
    method Where(c: Condition)
      modifies this
      ensures conditions == old(conditions) + [c]
      ensures hydrate == old(hydrate) && select == old(select)
    {
      conditions := conditions + [c];
    }

    /** `matching(path, fn)`: rows must reach, through `path`, a row meeting `inner`. */
    method Match(path: string, inner: Condition)
      modifies this
      ensures conditions == old(conditions) + [Matching(path, inner)]
      ensures hydrate == old(hydrate) && select == old(select)
    {
      conditions := conditions + [Matching(path, inner)];
    }
  }
}
