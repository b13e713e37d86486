/** Jedrzej\Sortable\Criterion: one sort directive ("field" or "field,asc" or
    "field,desc") parsed into a field and an order, and its translation into
    joins, ORDER BY clauses and a projection on a query builder. */
module Criterion {
  import opened PhpStrings
  import opened Query

  // ---------------------------------------------------------------------------
  // Values
  // ---------------------------------------------------------------------------

  /** Criterion::ORDER_ASCENDING and Criterion::ORDER_DESCENDING. */
  const OrderAscending: string := "asc"
  const OrderDescending: string := "desc"

  datatype Order = Asc | Desc

  /** The string a Criterion stores for its order. */
  function Token(o: Order): string {
    match o
    case Asc => OrderAscending
    case Desc => OrderDescending
  }

  /** A constructed criterion: the field exactly as given and a valid order. */
  datatype Criterion = Criterion(field: string, order: Order)

  /** The two InvalidArgumentExceptions the class throws. */
  datatype Error =
    | ParseError(value: string)   // "Unable to parse field name or order from ..."
    | InvalidOrder                // "Invalid order value"

  datatype Result<T> = Ok(value: T) | Err(error: Error)

  /** getField(): together with getOrder() it gives back the arguments the
      constructor accepted. */
  function GetField(c: Criterion): (s: string)
    ensures NewCriterion(s, GetOrder(c)) == Ok(c)
  {
    c.field
  }

  /** getOrder(): always one of the two order constants. */
  function GetOrder(c: Criterion): (s: string)
    ensures s == OrderAscending || s == OrderDescending
  {
    Token(c.order)
  }

  // ---------------------------------------------------------------------------
  // Construction and parsing
  // ---------------------------------------------------------------------------

  /** The constructor: accepts exactly the two order constants. */
  function NewCriterion(field: string, order: string): (r: Result<Criterion>)
    ensures r.Ok? <==> order == OrderAscending || order == OrderDescending
    ensures r.Ok? ==> r.value.field == field && GetOrder(r.value) == order
    ensures r.Err? ==> r.error == InvalidOrder
  {
    if order == OrderAscending then Ok(Criterion(field, Asc))
    else if order == OrderDescending then Ok(Criterion(field, Desc))
    else Err(InvalidOrder)
  }

  /** prepareValue(): trim the surrounding blanks and control characters. */
  function PrepareValue(value: string): (r: string)
    ensures r == [] || (!IsTrimChar(r[0]) && !IsTrimChar(r[|r| - 1]))
    ensures |r| <= |value|
    ensures Trim(r) == r
  {
    TrimmedEnds(value);
    TrimRemovesPadding(value);
    TrimIdempotent(value);
    Trim(value)
  }

  /** The language of /^([^,]+)(,(asc|desc))?$/ with its first group `field`
      and the order parseFieldAndOrder returns for it. PCRE's `$` also matches
      just before a final newline, hence the second suffix form. */
  predicate Derives(value: string, defaultOrder: string, field: string, order: string) {
    |field| > 0 && ',' !in field &&
    ((value == field && order == defaultOrder) ||
     ((order == OrderAscending || order == OrderDescending) &&
      (value == field + "," + order || value == field + "," + order + "\n")))
  }

  /** parseFieldAndOrder(): the regular expression as an explicit splitter at
      the first comma. */
  function ParseFieldAndOrder(value: string, defaultOrder: string): (r: Result<(string, string)>)
    ensures r.Err? ==> r.error == ParseError(value)
  {
    var i := FirstIndex(value, ',');
    if i == 0 then Err(ParseError(value))
    else if i == |value| then Ok((value, defaultOrder))
    else
      var suffix := value[i + 1..];
      if suffix == OrderAscending || suffix == OrderAscending + "\n" then Ok((value[..i], OrderAscending))
      else if suffix == OrderDescending || suffix == OrderDescending + "\n" then Ok((value[..i], OrderDescending))
      else Err(ParseError(value))
  }

  /** make(): trim, parse, construct. */
  function Make(value: string, defaultOrder: string := OrderAscending): (r: Result<Criterion>)
    ensures r.Ok? ==> |r.value.field| > 0 && ',' !in r.value.field
    ensures r.Err? ==> r.error == ParseError(PrepareValue(value)) || r.error == InvalidOrder
  {
    match ParseFieldAndOrder(PrepareValue(value), defaultOrder)
    case Err(e) => Err(e)
    case Ok((field, order)) =>
      ParseAccepts(PrepareValue(value), defaultOrder, field, order);
      NewCriterion(field, order)
  }

  // ---------------------------------------------------------------------------
  // Parsing lemmas
  // ---------------------------------------------------------------------------

  /** Soundness of the splitter: what it accepts is in the grammar. */
  lemma ParseAccepts(value: string, defaultOrder: string, field: string, order: string)
    requires ParseFieldAndOrder(value, defaultOrder) == Ok((field, order))
    ensures Derives(value, defaultOrder, field, order)
  {
    var i := FirstIndex(value, ',');
    if i == |value| {
      assert value[..i] == value;
    } else {
      assert value == value[..i] + "," + value[i + 1..];
    }
  }

  /** Completeness of the splitter: everything in the grammar is accepted,
      with the field and order the regular expression captures. */
  lemma ParseCompletes(value: string, defaultOrder: string, field: string, order: string)
    requires Derives(value, defaultOrder, field, order)
    ensures ParseFieldAndOrder(value, defaultOrder) == Ok((field, order))
  {
    if value == field {
      assert FirstIndex(value, ',') == |value|;
    } else {
      var suffix := if value == field + "," + order then order else order + "\n";
      assert value == field + [','] + suffix;
      FirstIndexAfterPrefix(field, ',', suffix);
      assert value[..|field|] == field;
      assert value[|field| + 1..] == suffix;
    }
  }

  /** parseFieldAndOrder succeeds with (field, order) exactly when the input
      matches the pattern with those captures. */
  lemma ParseMatchesGrammar(value: string, defaultOrder: string, field: string, order: string)
    ensures ParseFieldAndOrder(value, defaultOrder) == Ok((field, order)) <==> Derives(value, defaultOrder, field, order)
  {
    if ParseFieldAndOrder(value, defaultOrder) == Ok((field, order)) {
      ParseAccepts(value, defaultOrder, field, order);
    }
    if Derives(value, defaultOrder, field, order) {
      ParseCompletes(value, defaultOrder, field, order);
    }
  }

  /** An empty field is rejected whatever follows it. */
  lemma ParseRejectsEmptyField(rest: string, defaultOrder: string)
    ensures ParseFieldAndOrder("", defaultOrder) == Err(ParseError(""))
    ensures ParseFieldAndOrder("," + rest, defaultOrder) == Err(ParseError("," + rest))
  {
    assert ("," + rest)[0] == ',';
  }

  /** After the comma only "asc" or "desc" may follow (PCRE also lets a final
      newline through): any other text, a further comma included, is rejected. */
  lemma ParseRejectsUnknownOrder(field: string, token: string, defaultOrder: string)
    requires |field| > 0 && ',' !in field
    requires token != OrderAscending && token != OrderDescending
    requires token != OrderAscending + "\n" && token != OrderDescending + "\n"
    ensures ParseFieldAndOrder(field + "," + token, defaultOrder) == Err(ParseError(field + "," + token))
  {
    var value := field + "," + token;
    assert value == field + [','] + token;
    FirstIndexAfterPrefix(field, ',', token);
    assert value[|field| + 1..] == token;
  }

  /** Inputs outside the grammar: empty, empty field, unknown or upper-case
      order, more than one comma. */
  lemma ParseRejects(defaultOrder: string)
    ensures ParseFieldAndOrder("", defaultOrder) == Err(ParseError(""))
    ensures ParseFieldAndOrder(",asc", defaultOrder) == Err(ParseError(",asc"))
    ensures ParseFieldAndOrder("f,up", defaultOrder) == Err(ParseError("f,up"))
    ensures ParseFieldAndOrder("f,ASC", defaultOrder) == Err(ParseError("f,ASC"))
    ensures ParseFieldAndOrder("a,b,asc", defaultOrder) == Err(ParseError("a,b,asc"))
  {
    ParseRejectsEmptyField("asc", defaultOrder);
    ParseRejectsUnknownOrder("f", "up", defaultOrder);
    ParseRejectsUnknownOrder("f", "ASC", defaultOrder);
    assert "b,asc"[0] != "desc\n"[0];
    ParseRejectsUnknownOrder("a", "b,asc", defaultOrder);
  }

  // ---------------------------------------------------------------------------
  // make() lemmas
  // ---------------------------------------------------------------------------

  /** make() yields c exactly when the trimmed input is in the grammar with
      c's field and order. */
  lemma MakeMatchesGrammar(value: string, defaultOrder: string, c: Criterion)
    ensures Make(value, defaultOrder) == Ok(c) <==> Derives(PrepareValue(value), defaultOrder, c.field, GetOrder(c))
  {
    var v := PrepareValue(value);
    ParseMatchesGrammar(v, defaultOrder, c.field, GetOrder(c));
    if Make(value, defaultOrder) == Ok(c) {
      var r := ParseFieldAndOrder(v, defaultOrder);
      assert r.Ok?;
      ParseAccepts(v, defaultOrder, r.value.0, r.value.1);
    }
  }

  /** Without an order suffix the default order is used, and make() fails
      with InvalidOrder when that default is neither "asc" nor "desc". */
  lemma MakeDefaultOrder(value: string, defaultOrder: string)
    requires var v := PrepareValue(value); |v| > 0 && ',' !in v
    ensures Make(value, defaultOrder) ==
      if defaultOrder == OrderAscending then Ok(Criterion(PrepareValue(value), Asc))
      else if defaultOrder == OrderDescending then Ok(Criterion(PrepareValue(value), Desc))
      else Err(InvalidOrder)
  {
    var v := PrepareValue(value);
    ParseCompletes(v, defaultOrder, v, defaultOrder);
  }

  /** make($value) without a default order sorts ascending when the value
      has no suffix. */
  lemma MakeDefaultsToAscending(value: string)
    requires var v := PrepareValue(value); |v| > 0 && ',' !in v
    ensures Make(value) == Ok(Criterion(PrepareValue(value), Asc))
  {
    MakeDefaultOrder(value, OrderAscending);
  }

  /** An explicit suffix fixes the order whatever the default, and the field
      is the text before the comma. */
  lemma MakeExplicitOrder(value: string, defaultOrder: string, field: string, order: Order)
    requires |field| > 0 && ',' !in field
    requires PrepareValue(value) == field + "," + Token(order)
    ensures Make(value, defaultOrder) == Ok(Criterion(field, order))
  {
    ParseCompletes(PrepareValue(value), defaultOrder, field, Token(order));
  }

  /** Blanks and control characters around the directive do not matter. */
  lemma MakeIgnoresPadding(p: string, s: string, q: string, defaultOrder: string)
    requires AllTrimChars(p) && AllTrimChars(q)
    ensures Make(p + s + q, defaultOrder) == Make(s, defaultOrder)
  {
    TrimIgnoresPadding(p, s, q);
  }

  /** make() fails with a parse error, carrying the trimmed text, exactly
      when the trimmed input is outside the grammar. */
  lemma MakeFailsOffGrammar(value: string, defaultOrder: string)
    ensures Make(value, defaultOrder) == Err(ParseError(PrepareValue(value))) <==>
            forall field, order :: !Derives(PrepareValue(value), defaultOrder, field, order)
  {
    var v := PrepareValue(value);
    var r := ParseFieldAndOrder(v, defaultOrder);
    if r.Ok? {
      ParseAccepts(v, defaultOrder, r.value.0, r.value.1);
      assert Make(value, defaultOrder) == NewCriterion(r.value.0, r.value.1);
    } else {
      forall field, order ensures !Derives(v, defaultOrder, field, order) {
        if Derives(v, defaultOrder, field, order) {
          ParseCompletes(v, defaultOrder, field, order);
        }
      }
    }
  }

  // ---------------------------------------------------------------------------
  // apply()
  // ---------------------------------------------------------------------------

  /** How apply() ends. A dotted field with fewer than four segments reads an
      undefined index of the exploded field; under Laravel's error handler
      that notice is thrown as an exception, which this value stands for. */
  datatype Outcome = Applied | UndefinedOffset(index: nat)

  /** 'sort' . studly_case($field): the name of the custom handler. */
  function SortMethodName(field: string): (name: string)
    ensures |name| >= 4 && name[..4] == "sort"
    ensures ' ' !in name[4..] && |name| <= 4 + |field|
  {
    "sort" + StudlyCase(field)
  }

  /** A field written in snake or kebab case looks for the handler named
      after its words: "user_name" looks for sortUserName. */
  lemma SortMethodNameOfWords(sep: char, words: seq<string>)
    requires sep == '-' || sep == '_'
    requires forall k :: 0 <= k < |words| ==> PlainWord(words[k])
    ensures SortMethodName(Implode(sep, words)) == "sort" + CapitalizedWords(words)
  {
    StudlyCaseOfWords(sep, words);
  }

  /** The join a dotted field base.table.fk.column asks for: on
      base.fk = table.id when flipped, on table.fk = base.id otherwise. */
  function RelationJoin(keys: seq<string>, flip: bool): Join
    requires |keys| >= 3
  {
    if flip then Join.LeftJoin(keys[1], keys[0] + "." + keys[2], "=", keys[1] + ".id")
    else Join.LeftJoin(keys[1], keys[1] + "." + keys[2], "=", keys[0] + ".id")
  }

  /** What apply() does to a query, as a function of its state: the call of
      the custom handler if the model has one (what the handler itself does
      to the builder is not modelled); for a dotted field the join (unless the
      table is already joined), the ORDER BY on the joined column and the
      projection on the base table; otherwise a plain ORDER BY. */
  function Step(c: Criterion, model: Model, s: QueryState): (r: (Outcome, QueryState))
    ensures s.joins <= r.1.joins && |r.1.joins| <= |s.joins| + 1
    ensures s.orders <= r.1.orders && s.calls <= r.1.calls
    ensures r.0.Applied? ==> |r.1.orders| + |r.1.calls| == |s.orders| + |s.calls| + 1
    ensures r.0.UndefinedOffset? ==> r.1.(joins := s.joins) == s
  {
    var name := SortMethodName(c.field);
    if HasMethod(model, name) then
      (Applied, s.(calls := s.calls + [HandlerCall(name, GetOrder(c))]))
    else if '.' in c.field then
      var keys := Explode('.', c.field);
      var flip := |keys| > 4 && keys[4] == "flip";
      if !HasJoin(s, keys[1]) && |keys| < 3 then (UndefinedOffset(2), s)
      else
        var joined := if HasJoin(s, keys[1]) then s else s.(joins := s.joins + [RelationJoin(keys, flip)]);
        if |keys| < 4 then (UndefinedOffset(3), joined)
        else (Applied, joined.(orders := joined.orders + [OrderClause(keys[1] + "." + keys[3], GetOrder(c))],
                               columns := [keys[0] + ".*"]))
    else
      (Applied, s.(orders := s.orders + [OrderClause(c.field, GetOrder(c))]))
  }

  /** apply(): the source's three branches, updating the builder in place. */
  method Apply(c: Criterion, b: Builder) returns (outcome: Outcome)
    modifies b
    ensures (outcome, b.State()) == Step(c, b.model, old(b.State()))
  {
    var sortMethod := SortMethodName(GetField(c));
    if HasMethod(b.model, sortMethod) {
      b.CallHandler(sortMethod, GetOrder(c));
      return Applied;
    }
    if '.' in GetField(c) {
      var keys := Explode('.', GetField(c));
      if |keys| > 4 && keys[4] == "flip" {
        // foreign key in the base table
        if !HasJoin(b.State(), keys[1]) {
          b.LeftJoin(keys[1], keys[0] + "." + keys[2], "=", keys[1] + ".id");
        }
        b.OrderBy(keys[1] + "." + keys[3], GetOrder(c));
        b.Select(keys[0] + ".*");
      } else {
        // foreign key in the joined table
        if !HasJoin(b.State(), keys[1]) {
          if |keys| < 3 {
            return UndefinedOffset(2);
          }
          b.LeftJoin(keys[1], keys[1] + "." + keys[2], "=", keys[0] + ".id");
        }
        if |keys| < 4 {
          return UndefinedOffset(3);
        }
        b.OrderBy(keys[1] + "." + keys[3], GetOrder(c));
        b.Select(keys[0] + ".*");
      }
    } else {
      b.OrderBy(GetField(c), GetOrder(c));
    }
    return Applied;
  }

  // ---------------------------------------------------------------------------
  // apply() lemmas
  // ---------------------------------------------------------------------------

  /** With a custom handler, apply() only calls it: no join, no ORDER BY and
      no projection of its own. */
  lemma ApplyDelegatesToHandler(c: Criterion, model: Model, s: QueryState)
    requires HasMethod(model, SortMethodName(c.field))
    ensures Step(c, model, s) ==
      (Applied, QueryState(s.joins, s.orders, s.columns, s.calls + [HandlerCall(SortMethodName(c.field), GetOrder(c))]))
  {
  }

  /** A field without a dot and without a handler adds exactly one ORDER BY
      on the field itself, and nothing else. */
  lemma ApplyPlainField(c: Criterion, model: Model, s: QueryState)
    requires !HasMethod(model, SortMethodName(c.field)) && '.' !in c.field
    ensures Step(c, model, s) ==
      (Applied, QueryState(s.joins, s.orders + [OrderClause(c.field, GetOrder(c))], s.columns, s.calls))
  {
  }

  /** A criterion that goes through the join branch for `table` without error. */
  predicate JoinsThrough(c: Criterion, model: Model, table: string) {
    !HasMethod(model, SortMethodName(c.field)) && '.' in c.field &&
    var keys := Explode('.', c.field); |keys| >= 4 && keys[1] == table
  }

  /** The join a criterion of JoinsThrough asks for. */
  function JoinOf(c: Criterion): Join
    requires |Explode('.', c.field)| >= 4
  {
    var keys := Explode('.', c.field);
    RelationJoin(keys, |keys| > 4 && keys[4] == "flip")
  }

  /** The ORDER BY clause a criterion of JoinsThrough asks for. */
  function OrderOf(c: Criterion): OrderClause
    requires |Explode('.', c.field)| >= 4
  {
    var keys := Explode('.', c.field);
    OrderClause(keys[1] + "." + keys[3], GetOrder(c))
  }

  /** A dotted field with at least four segments and no handler: the join
      (unless its table is already joined), the ORDER BY on the joined
      column, and the projection on the base table. */
  lemma ApplyDottedField(c: Criterion, model: Model, s: QueryState)
    requires !HasMethod(model, SortMethodName(c.field)) && '.' in c.field
    requires |Explode('.', c.field)| >= 4
    ensures var keys := Explode('.', c.field);
      Step(c, model, s) ==
        (Applied, QueryState(
          s.joins + (if HasJoin(s, keys[1]) then [] else [JoinOf(c)]),
          s.orders + [OrderOf(c)],
          [keys[0] + ".*"],
          s.calls))
  {
    var keys := Explode('.', c.field);
    var flip := |keys| > 4 && keys[4] == "flip";
    var joined := if HasJoin(s, keys[1]) then s else s.(joins := s.joins + [RelationJoin(keys, flip)]);
    assert JoinOf(c) == RelationJoin(keys, flip);
    assert Step(c, model, s) ==
      (Applied, joined.(orders := joined.orders + [OrderOf(c)], columns := [keys[0] + ".*"]));
    if HasJoin(s, keys[1]) {
      assert s.joins + [] == s.joins;
    }
  }

  /** The segments of base.table.fk.column[.rest...] when none of them holds a dot. */
  lemma RelationKeys(base: string, table: string, fk: string, column: string, rest: seq<string>)
    requires '.' !in base && '.' !in table && '.' !in fk && '.' !in column
    requires forall k :: 0 <= k < |rest| ==> '.' !in rest[k]
    ensures var keys := [base, table, fk, column] + rest;
      Explode('.', Implode('.', keys)) == keys && '.' in Implode('.', keys)
  {
    var keys := [base, table, fk, column] + rest;
    ExplodeImplode('.', keys);
  }

  /** base.table.fk.column without "flip" as fifth segment: join table on
      table.fk = base.id unless table is already joined, then ORDER BY
      table.column and select base.*. */
  lemma ApplyForeignKeyInJoinedTable(c: Criterion, model: Model, s: QueryState,
                                     base: string, table: string, fk: string, column: string, rest: seq<string>)
    requires Explode('.', c.field) == [base, table, fk, column] + rest
    requires rest == [] || rest[0] != "flip"
    requires !HasMethod(model, SortMethodName(c.field))
    ensures Step(c, model, s) ==
      (Applied, QueryState(
        s.joins + (if HasJoin(s, table) then [] else [Join.LeftJoin(table, table + "." + fk, "=", base + ".id")]),
        s.orders + [OrderClause(table + "." + column, GetOrder(c))],
        [base + ".*"],
        s.calls))
  {
    var keys := [base, table, fk, column] + rest;
    assert keys[0] == base && keys[1] == table && keys[2] == fk && keys[3] == column;
    assert |keys| > 4 ==> keys[4] == rest[0];
    ApplyDottedField(c, model, s);
  }

  /** base.table.fk.column.flip: the same, but joined on base.fk = table.id. */
  lemma ApplyForeignKeyInBaseTable(c: Criterion, model: Model, s: QueryState,
                                   base: string, table: string, fk: string, column: string, rest: seq<string>)
    requires Explode('.', c.field) == [base, table, fk, column] + rest
    requires |rest| > 0 && rest[0] == "flip"
    requires !HasMethod(model, SortMethodName(c.field))
    ensures Step(c, model, s) ==
      (Applied, QueryState(
        s.joins + (if HasJoin(s, table) then [] else [Join.LeftJoin(table, base + "." + fk, "=", table + ".id")]),
        s.orders + [OrderClause(table + "." + column, GetOrder(c))],
        [base + ".*"],
        s.calls))
  {
    var keys := [base, table, fk, column] + rest;
    assert keys[0] == base && keys[1] == table && keys[2] == fk && keys[3] == column;
    assert |keys| > 4 ==> keys[4] == rest[0];
    ApplyDottedField(c, model, s);
  }

  /** A dotted field with fewer than four segments fails on the missing index:
      with two segments nothing changes; with three the join is already in
      place (added if absent) when the ORDER BY fails. */
  lemma ApplyShortPath(c: Criterion, model: Model, s: QueryState)
    requires !HasMethod(model, SortMethodName(c.field)) && '.' in c.field
    requires |Explode('.', c.field)| < 4
    ensures var keys := Explode('.', c.field);
      Step(c, model, s) ==
        if |keys| == 2 then
          (if HasJoin(s, keys[1]) then UndefinedOffset(3) else UndefinedOffset(2), s)
        else
          (UndefinedOffset(3),
           if HasJoin(s, keys[1]) then s
           else s.(joins := s.joins + [Join.LeftJoin(keys[1], keys[1] + "." + keys[2], "=", keys[0] + ".id")]))
  {
  }

  /** Two criteria through the same table, applied in sequence: the table is
      joined at most once, by the first, and both ORDER BY clauses are added
      in application order. */
  lemma ApplySameTableTwice(c1: Criterion, c2: Criterion, model: Model, s: QueryState, table: string)
    requires JoinsThrough(c1, model, table) && JoinsThrough(c2, model, table)
    ensures var (o1, s1) := Step(c1, model, s);
            var (o2, s2) := Step(c2, model, s1);
      o1 == Applied && o2 == Applied &&
      s2.joins == s.joins + (if HasJoin(s, table) then [] else [JoinOf(c1)]) &&
      s2.orders == s.orders + [OrderOf(c1), OrderOf(c2)] &&
      s2.calls == s.calls
  {
    var (o1, s1) := Step(c1, model, s);
    assert HasJoin(s1, table) by {
      if !HasJoin(s, table) {
        assert s1.joins == s.joins + [JoinOf(c1)];
        assert JoinedTables(s1.joins)[|s.joins|] == table;
      }
    }
  }

  /** apply()'s own join step never joins a table twice: distinct join
      tables stay distinct. A custom handler's effect is not modelled. */
  lemma ApplyKeepsJoinTablesDistinct(c: Criterion, model: Model, s: QueryState)
    requires JoinTablesDistinct(s.joins)
    ensures JoinTablesDistinct(Step(c, model, s).1.joins)
  {
    var s' := Step(c, model, s).1;
    if s'.joins != s.joins {
      var keys := Explode('.', c.field);
      assert !HasJoin(s, keys[1]);
      assert s'.joins == s.joins + [RelationJoin(keys, |keys| > 4 && keys[4] == "flip")];
      forall i | 0 <= i < |s.joins| ensures s.joins[i].table != keys[1] {
        assert JoinedTables(s.joins)[i] == s.joins[i].table;
      }
    }
  }
}
