/** The part of Eloquent's query builder that Criterion::apply touches, kept
    abstract: the list of joins, the list of ORDER BY clauses, the selected
    columns, and a log of the custom sort handlers invoked on the model.
    Nothing here executes SQL. */
module Query {
  import opened PhpStrings

  /** leftJoin($table, $first, $operator, $second). */
  datatype Join = LeftJoin(table: string, first: string, operator: string, second: string)

  /** orderBy($column, $direction). */
  datatype OrderClause = OrderClause(column: string, direction: string)

  /** A call $model->$method($builder, $order) made on the builder's model. */
  datatype HandlerCall = HandlerCall(handler: string, order: string)

  /** The model behind the builder, seen only through the names of its methods. */
  datatype Model = Model(methods: set<string>)

  /** method_exists($model, $name): PHP compares method names without regard
      to ASCII case. */
  predicate HasMethod(model: Model, name: string)
    ensures name in model.methods ==> HasMethod(model, name)
  {
    exists m | m in model.methods :: LowerAscii(m) == LowerAscii(name)
  }

  /** Two names that differ only in ASCII case find the same methods. */
  lemma HasMethodIgnoresCase(model: Model, a: string, b: string)
    requires LowerAscii(a) == LowerAscii(b)
    ensures HasMethod(model, a) <==> HasMethod(model, b)
  {
  }

  lemma LowerAsciiIdempotent(s: string)
    ensures LowerAscii(LowerAscii(s)) == LowerAscii(s)
  {
  }

  /** In particular a name and its lower-cased form find the same methods. */
  lemma HasMethodOfLowerCase(model: Model, name: string)
    ensures HasMethod(model, LowerAscii(name)) <==> HasMethod(model, name)
  {
    LowerAsciiIdempotent(name);
    HasMethodIgnoresCase(model, LowerAscii(name), name);
  }

  /** Everything apply can observe or change about a builder. An empty
      column list stands for the default projection. */
  datatype QueryState = QueryState(
    joins: seq<Join>,
    orders: seq<OrderClause>,
    columns: seq<string>,
    calls: seq<HandlerCall>)

  /** collect($joins)->pluck('table'): the joined tables, in join order. */
  function JoinedTables(joins: seq<Join>): (tables: seq<string>)
    ensures |tables| == |joins|
    ensures forall k :: 0 <= k < |joins| ==> tables[k] == joins[k].table
    decreases |joins|
  {
    if joins == [] then [] else [joins[0].table] + JoinedTables(joins[1..])
  }

  /** Whether some join of the query already brings in `table`. */
  predicate HasJoin(s: QueryState, table: string) {
    table in JoinedTables(s.joins)
  }

  /** No table is joined twice. */
  predicate JoinTablesDistinct(joins: seq<Join>) {
    forall i, j :: 0 <= i < j < |joins| ==> joins[i].table != joins[j].table
  }

  /** The mutable builder, one per request. */
  class Builder {
    const model: Model
    var joins: seq<Join>
    var orders: seq<OrderClause>
    var columns: seq<string>
    var calls: seq<HandlerCall>

    function State(): QueryState
      reads this
    {
      QueryState(joins, orders, columns, calls)
    }

    constructor (model: Model)
      ensures this.model == model
      ensures State() == QueryState([], [], [], [])
    {
      this.model := model;
      joins, orders, columns, calls := [], [], [], [];
    }

    /** Appends a left join; the rest of the query is untouched. */
    method LeftJoin(table: string, first: string, operator: string, second: string)
      modifies this
      ensures State() == old(State()).(joins := old(joins) + [Join.LeftJoin(table, first, operator, second)])
    {
      joins := joins + [Join.LeftJoin(table, first, operator, second)];
    }

    /** Appends an ORDER BY clause after the existing ones. */
    method OrderBy(column: string, direction: string)
      modifies this
      ensures State() == old(State()).(orders := old(orders) + [OrderClause(column, direction)])
    {
      orders := orders + [OrderClause(column, direction)];
    }

    /** select($column): replaces the projection by the one column pattern. */
    method Select(column: string)
      modifies this
      ensures State() == old(State()).(columns := [column])
    {
      columns := [column];
    }

    /** Invokes the model's custom sort handler; its own effect on the query
        is not modelled, only the fact and the arguments of the call. */
    method CallHandler(name: string, order: string)
      modifies this
      ensures State() == old(State()).(calls := old(calls) + [HandlerCall(name, order)])
    {
      calls := calls + [HandlerCall(name, order)];
    }
  }
}
