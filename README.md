# Sortable criterion, modelled in Dafny

A model of `Jedrzej\Sortable\Criterion`. This class turns one sort directive
from a query string into a sort criterion and applies that criterion to an
Eloquent query. A directive is `field`, `field,asc` or `field,desc`.

- **Parsing** (`make`, `prepareValue`, `parseFieldAndOrder`, the constructor).
  The raw value is trimmed of space, tab, newline, carriage return, NUL and
  vertical tab. It is then matched against `/^([^,]+)(,(asc|desc))?$/`. A
  missing suffix falls back to the caller's default order. The constructor
  rejects any order other than `asc` or `desc`.
- **Application** (`apply`). There are three branches:
  - If the model has a method `sort<StudlyField>`, `apply` only calls it.
  - A dotted field `base.table.fk.column[.flip]` left-joins `table`, unless it
    is already joined. It then orders by `table.column` and selects `base.*`.
    Without `flip` the join is on `table.fk = base.id`. With `flip` it is on
    `base.fk = table.id`.
  - Any other field gets one plain ORDER BY.

Files:

- `php_strings.dfy` (module `PhpStrings`): the string builtins the class
  relies on. These are `trim` with the class's character list,
  `explode`/`implode` on one character, ASCII lower-casing, and Laravel's
  `studly_case`.
- `query.dfy` (module `Query`): the query builder, kept abstract. A class
  `Builder` holds the joins, the ORDER BY clauses, the selected columns and a
  log of custom-handler calls. Its methods append to these sequences, except
  `Select`, which replaces the column list as Laravel's `select` does. The
  value `QueryState` is a snapshot of the builder. `Model` stands for the
  builder's model and gives only the names of its methods.
- `criterion.dfy` (module `Criterion`): the class itself.
  - Parsing is a set of pure functions over `Result`.
  - `Derives` states the grammar declaratively.
  - `Step` is a function that says what `apply` does to a `QueryState`.
  - `Apply` is a method that changes a `Builder` in place, following the
    source's branches. It is proved to agree with `Step`.

`getField` is the datatype field `field`, read through `GetField`. `getOrder`
is `GetOrder`. `make`'s optional default order is a Dafny default
parameter of `Make`, `"asc"` as in the source.

Decisions where the source leaves room:

- Dotted fields with fewer than four segments. The source reads
  `$relation_keys[2]` and `$relation_keys[3]` without a guard. Under Laravel's
  error handler the resulting "undefined offset" notice is thrown as an
  exception. The model follows this and returns `UndefinedOffset(i)`.
  - With two segments, the builder is unchanged. The failing index is 2 when
    the table is not yet joined, and 3 when it is.
  - With three segments, the join is added first (unless the table is already
    joined) and then index 3 fails.
  - `apply` then ends with an `UndefinedOffset` error, after any join it has
    already added.
- Parse errors carry the trimmed value. `make` replaces `$value` by its
  trimmed form before parsing, so the exception message quotes the trimmed
  text, not the raw one.
- PCRE's `$` also matches just before a final newline. `ParseFieldAndOrder`
  therefore also accepts `field,asc\n` and `field,desc\n`, and `Derives`
  states this. Through `Make` such input cannot arise, because trimming has
  already removed the newline.
- `method_exists` compares method names without regard to ASCII case.
  `HasMethod` compares the lower-cased names.

## Model

| member | source | states |
|---|---|---|
| PhpStrings.TrimLeftSpec | src/Jedrzej/Sortable/Criterion.php:102-105 | the part trim removes from the front is a prefix made only of the listed characters, and the rest does not start with one |
| PhpStrings.TrimRightSpec | src/Jedrzej/Sortable/Criterion.php:102-105 | the part trim removes from the back is a suffix made only of the listed characters, and the rest does not end with one |
| PhpStrings.TrimmedEnds | src/Jedrzej/Sortable/Criterion.php:102-105 | a trimmed value neither starts nor ends with space, tab, newline, carriage return, NUL or vertical tab |
| PhpStrings.TrimRemovesPadding | src/Jedrzej/Sortable/Criterion.php:102-105 | the input is the trimmed value with a run of trim characters before it and one after it |
| PhpStrings.TrimFixpoint | src/Jedrzej/Sortable/Criterion.php:102-105 | trim leaves a string unchanged if and only if neither end is a trim character |
| PhpStrings.TrimIdempotent | src/Jedrzej/Sortable/Criterion.php:102-105 | trimming twice equals trimming once |
| PhpStrings.TrimIgnoresPadding | src/Jedrzej/Sortable/Criterion.php:102-105 | trim(p + s + q) == trim(s) for any padding p, q made of trim characters |
| PhpStrings.FirstIndex | src/Jedrzej/Sortable/Criterion.php:119 | the first comma (or dot): no separator before it, and the separator at it when inside the string |
| PhpStrings.Explode | src/Jedrzej/Sortable/Criterion.php:58-59 | explode gives at least one piece, two or more exactly when the field contains a dot, and no piece contains a dot |
| PhpStrings.ImplodeExplode | src/Jedrzej/Sortable/Criterion.php:59 | joining the exploded pieces with dots gives the field back |
| PhpStrings.ExplodeImplode | src/Jedrzej/Sortable/Criterion.php:59 | exploding a dot-join of dot-free segments gives the segments back, so segment i of base.table.fk.column is what the source indexes as $relation_keys[i] |
| PhpStrings.StudlyCase | src/Jedrzej/Sortable/Criterion.php:54 | studly_case leaves no space in the handler name and never makes it longer than the field |
| PhpStrings.StudlyCaseOfWords | src/Jedrzej/Sortable/Criterion.php:54 | studly_case of words joined by - or _ is the words with their first letters upper-cased, run together: "user_name" becomes "UserName" |
| Query.JoinedTables | src/Jedrzej/Sortable/Criterion.php:63 | pluck('table') lists the table of every join, in join order |
| Query.HasMethod | src/Jedrzej/Sortable/Criterion.php:56 | method_exists finds every method the model declares |
| Query.HasMethodIgnoresCase | src/Jedrzej/Sortable/Criterion.php:56 | two names that differ only in ASCII case find the same methods |
| Query.HasMethodOfLowerCase | src/Jedrzej/Sortable/Criterion.php:56 | a name and its lower-cased form find the same methods |
| Query.Builder.LeftJoin | src/Jedrzej/Sortable/Criterion.php:64 | leftJoin appends one join and changes nothing else |
| Query.Builder.OrderBy | src/Jedrzej/Sortable/Criterion.php:77 | orderBy appends one ORDER BY clause after the existing ones and changes nothing else |
| Query.Builder.Select | src/Jedrzej/Sortable/Criterion.php:67 | select replaces the projection by the one column pattern and changes nothing else |
| Query.Builder.CallHandler | src/Jedrzej/Sortable/Criterion.php:57 | the handler call is recorded with its name and order, and nothing else changes |
| Criterion.GetField | src/Jedrzej/Sortable/Criterion.php:18-21 | getField and getOrder give back arguments that the constructor accepts and that rebuild the same criterion |
| Criterion.GetOrder | src/Jedrzej/Sortable/Criterion.php:26-29 | getOrder always returns "asc" or "desc" |
| Criterion.NewCriterion | src/Jedrzej/Sortable/Criterion.php:85-93 | the constructor succeeds if and only if the order is "asc" or "desc". It then keeps the field and that order. Otherwise it fails with InvalidOrder |
| Criterion.PrepareValue | src/Jedrzej/Sortable/Criterion.php:102-105 | the prepared value neither starts nor ends with a trim character, is no longer than the input and is already trimmed. TrimRemovesPadding says it is the input without its padding |
| Criterion.ParseFieldAndOrder | src/Jedrzej/Sortable/Criterion.php:117-125 | every failure is a parse error carrying the parsed text |
| Criterion.ParseAccepts | src/Jedrzej/Sortable/Criterion.php:119-120 | whatever the splitter accepts matches the directive pattern (a comma-free field, then optionally ,asc or ,desc) with the returned field as the field group. The order is the suffix if present, else the default |
| Criterion.ParseCompletes | src/Jedrzej/Sortable/Criterion.php:119-120 | every match of the pattern is accepted, with those captures |
| Criterion.ParseMatchesGrammar | src/Jedrzej/Sortable/Criterion.php:117-125 | parseFieldAndOrder returns (field, order) if and only if the input matches the pattern with those captures |
| Criterion.ParseRejects | src/Jedrzej/Sortable/Criterion.php:119-124 | "", ",asc", "f,up", "f,ASC" and "a,b,asc" are rejected with a parse error |
| Criterion.ParseRejectsEmptyField | src/Jedrzej/Sortable/Criterion.php:119-124 | an empty input or an empty field before the comma is a parse error |
| Criterion.ParseRejectsUnknownOrder | src/Jedrzej/Sortable/Criterion.php:119-124 | any text after the comma other than asc or desc is a parse error. This includes a second comma and upper case |
| Criterion.Make | src/Jedrzej/Sortable/Criterion.php:39-45 | a made criterion has a non-empty field without a comma. A failure is a parse error on the trimmed value or InvalidOrder |
| Criterion.MakeMatchesGrammar | src/Jedrzej/Sortable/Criterion.php:39-45 | make yields a criterion if and only if the trimmed input matches the pattern with that criterion's field and order |
| Criterion.MakeDefaultOrder | src/Jedrzej/Sortable/Criterion.php:39-45 | without a suffix the order is the default. make fails with InvalidOrder when the default is neither asc nor desc |
| Criterion.MakeDefaultsToAscending | src/Jedrzej/Sortable/Criterion.php:39 | make($value) with the default argument sorts a suffix-free value ascending |
| Criterion.MakeExplicitOrder | src/Jedrzej/Sortable/Criterion.php:119-120 | an explicit ,asc or ,desc decides the order whatever the default, and the field is the text before the comma |
| Criterion.MakeIgnoresPadding | src/Jedrzej/Sortable/Criterion.php:41 | make(p + s + q) == make(s) for padding drawn from the trim characters |
| Criterion.MakeFailsOffGrammar | src/Jedrzej/Sortable/Criterion.php:119-124 | make fails with a parse error on the trimmed value if and only if no field and order derive it |
| Criterion.Apply | src/Jedrzej/Sortable/Criterion.php:52-79 | the builder's new state and the outcome are exactly those Step gives for the old state |
| Criterion.Step | src/Jedrzej/Sortable/Criterion.php:52-79 | apply's own operations only append: joins, ORDER BY clauses and handler calls are kept and at most one join is added. What a custom handler then does to the builder is not modelled. A successful apply adds exactly one ordering, an ORDER BY or a handler call. A failing one leaves everything but the joins unchanged. ApplyDottedField and the lemmas after it give the exact result per branch |
| Criterion.SortMethodName | src/Jedrzej/Sortable/Criterion.php:54 | the handler name is "sort" followed by a space-free name no longer than the field |
| Criterion.SortMethodNameOfWords | src/Jedrzej/Sortable/Criterion.php:54 | a snake- or kebab-case field looks for sort followed by its words capitalised, as in sortUserName |
| Criterion.ApplyDelegatesToHandler | src/Jedrzej/Sortable/Criterion.php:54-57 | with a matching sort method, apply only calls it with the order. There is no join, no ORDER BY and no projection |
| Criterion.ApplyPlainField | src/Jedrzej/Sortable/Criterion.php:76-78 | a field without a dot adds exactly one ORDER BY (field, order) and nothing else |
| Criterion.ApplyDottedField | src/Jedrzej/Sortable/Criterion.php:58-75 | a field with four or more segments gets the join only when its table is not joined yet. It gets one ORDER BY on table.column and the projection base.* |
| Criterion.ApplyForeignKeyInJoinedTable | src/Jedrzej/Sortable/Criterion.php:68-75 | a field whose dot-separated segments are base.table.fk.column, with no "flip" fifth segment, joins table on table.fk = base.id unless table is already joined. It orders by table.column and selects base.* |
| Criterion.ApplyForeignKeyInBaseTable | src/Jedrzej/Sortable/Criterion.php:61-67 | with "flip" as fifth segment the join condition is base.fk = table.id. The ORDER BY and projection are as without flip |
| Criterion.ApplyShortPath | src/Jedrzej/Sortable/Criterion.php:70-73 | a dotted field with fewer than four segments fails on the undefined index. With three segments a missing join has already been added when it fails |
| Criterion.ApplySameTableTwice | src/Jedrzej/Sortable/Criterion.php:63-73 | two dotted criteria through the same table add at most one join, from the first. They add two ORDER BY clauses, in application order |
| Criterion.ApplyKeepsJoinTablesDistinct | src/Jedrzej/Sortable/Criterion.php:63-64 | apply's own join step keeps join tables distinct: if no table is joined twice before apply, none is after. A custom handler, which receives the builder, may add joins of its own, and that is not modelled |
| Criterion.RelationKeys | src/Jedrzej/Sortable/Criterion.php:59-60 | a dot-join of four or more dot-free segments contains a dot and explodes into exactly those segments |

## Left out

- The real Eloquent builder and SQL. The builder is the abstract state above.
  Laravel's normalisation of the direction string in `orderBy` is not
  modelled, because the class only ever passes "asc" or "desc".
- What a custom sort handler does. `method_exists` and `call_user_func_array`
  become a lookup in the model's method names and a recorded call. The
  handler's own effect on the query is not modelled. A handler receives the
  builder and may add joins or ORDER BY clauses, so the append-only and
  distinct-join facts about `Step` cover apply's own operations only.
- Query.JoinedTables: the join test is exact string equality. Laravel's
  `contains` compares loosely, so two numeric-looking table names such as
  "1" and "01" would count as equal there. This is not modelled.
- Criterion.NewCriterion: takes the order as a string. PHP's loose
  `in_array` on non-string values, such as the integer 0, is not modelled.
- Strings are character sequences, where PHP uses byte strings. Every
  operation here only inspects ASCII characters. Lower- and upper-casing is
  ASCII only, as in PHP's method-name comparison.
- Laravel's `studly_case` is written out after its definition (`-` and `_`
  become spaces, then ucwords, then spaces are removed). Its cache is left
  out.
- Loading, routing and splitting of a multi-field sort parameter are outside
  this class.
