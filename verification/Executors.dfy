/** Task executors: merging defaults, checking locked inputs, and computing final outputs. */
module Executors {
  import opened Values
  import opened Graphs

  const ROWS := "rows"
  const COLUMN_PREFIX := "column:"

  // ----- shared skeleton -----

  /** What a task run works on: resolved inputs, which of them are locked, and seeded defaults. */
  datatype Context = Context(inputs: Record, locked: set<string>, seeds: Record)

  predicate IsInternal(key: string) {
    |key| >= 2 && key[0] == '_' && key[1] == '_'
  }

  function Strip(outputs: Record): Record {
    map k | k in outputs && !IsInternal(k) :: outputs[k]
  }

  /** Only userInput definitions declare form fields. */
  function FormFields(definition: Definition): seq<string> {
    match definition
    case UserInput(fields, _, _) => fields
    case Table(_, _, _, _, _, _, _, _, _) => []
  }

  ghost function Defaults(fields: seq<string>, context: Context): Record {
    if fields == [] then
      context.seeds + context.inputs
    else
      map f | f in fields && (f in context.inputs || f in context.seeds) ::
        (if f in context.inputs then context.inputs[f] else context.seeds[f])
  }

  method Prepare(fields: seq<string>, context: Context) returns (defaults: Record)
    ensures defaults == Defaults(fields, context)
  {
    if fields == [] {
      return context.seeds + context.inputs;
    }
    defaults := map[];
    for k := 0 to |fields|
      invariant forall f :: f in defaults <==> f in fields[..k] && (f in context.inputs || f in context.seeds)
      invariant forall f :: f in defaults ==>
                              defaults[f] == if f in context.inputs then context.inputs[f] else context.seeds[f]
    {
      var field := fields[k];
      if field in context.inputs {
        defaults := defaults[field := context.inputs[field]];
      } else if field in context.seeds {
        defaults := defaults[field := context.seeds[field]];
      }
    }
    assert fields[..|fields|] == fields;
  }

  /** Every locked input that was resolved comes back unchanged (an absent key reads as null). */
  ghost predicate LocksHold(context: Context, outputs: Record) {
    forall k :: k in context.locked && k in context.inputs ==> Get(outputs, k) == context.inputs[k]
  }

  method ValidateLockedInputs(context: Context, outputs: Record) returns (errors: seq<string>)
    ensures errors == [] <==> LocksHold(context, outputs)
  {
    errors := [];
    var todo := context.locked;
    while todo != {}
      invariant todo <= context.locked
      invariant errors == [] <==>
                forall k :: k in context.locked - todo && k in context.inputs ==> Get(outputs, k) == context.inputs[k]
    {
      var key :| key in todo;
      if key in context.inputs && Get(outputs, key) != context.inputs[key] {
        errors := errors + [key];
      }
      todo := todo - {key};
    }
  }

  // ----- the declared cost output -----

  function CostOf(definition: Definition, outputs: Record): Option<real> {
    if definition.output.None? then None
    else
      var value := Get(outputs, definition.output.value);
      if value.Num? then Some(value.n) else None
  }

  // ----- userInput -----

  ghost predicate FormAccepted(definition: Definition, context: Context, clean: Record)
    requires definition.UserInput?
  {
    && LocksHold(context, clean)
    && definition.acceptsForm(clean)
    && (definition.output.Some? ==> CostOf(definition, clean).Some?)
  }

  // ----- table -----

  function ParseColumnKey(key: string): Option<string> {
    if |key| > |COLUMN_PREFIX| && key[..|COLUMN_PREFIX|] == COLUMN_PREFIX then Some(key[|COLUMN_PREFIX|..]) else None
  }

  function Cell(row: Value, column: string): Value {
    if row.Object? then Get(row.fields, column) else Null
  }

  function ParseNumeric(parseText: string -> Option<real>, value: Value): Option<real> {
    match value
    case Num(n) => Some(n)
    case Text(s) => parseText(s)
    case _ => None
  }

  function NumbersUpTo(rows: seq<Value>, k: nat, column: string, parseText: string -> Option<real>): seq<real>
    requires k <= |rows|
  {
    if k == 0 then []
    else
      var parsed := ParseNumeric(parseText, Cell(rows[k - 1], column));
      var before := NumbersUpTo(rows, k - 1, column, parseText);
      if parsed.Some? then before + [parsed.value] else before
  }

  function NonEmptyUpTo(rows: seq<Value>, k: nat, column: string): nat
    requires k <= |rows|
  {
    if k == 0 then 0
    else
      var cell := Cell(rows[k - 1], column);
      NonEmptyUpTo(rows, k - 1, column) + (if cell == Null || cell == Text("") then 0 else 1)
  }

  function Total(values: seq<real>): real {
    if values == [] then 0.0 else Total(values[..|values| - 1]) + values[|values| - 1]
  }

  function Least(values: seq<real>): real
    requires values != []
  {
    if |values| == 1 then values[0]
    else
      var rest := Least(values[1..]);
      if rest < values[0] then rest else values[0]
  }

  function Greatest(values: seq<real>): real
    requires values != []
  {
    if |values| == 1 then values[0]
    else
      var rest := Greatest(values[1..]);
      if rest > values[0] then rest else values[0]
  }

  ghost function Aggregate(
    rows: seq<Value>, column: string, operation: string, parseText: string -> Option<real>): Value
  {
    if operation == "count" then Num(NonEmptyUpTo(rows, |rows|, column) as real)
    else Fold(NumbersUpTo(rows, |rows|, column, parseText), operation)
  }

  function Fold(values: seq<real>, operation: string): Value {
    if values == [] then Null
    else if operation == "sum" then Num(Total(values))
    else if operation == "min" then Num(Least(values))
    else if operation == "max" then Num(Greatest(values))
    else if operation == "avg" then Num(Total(values) / |values| as real)
    else Null
  }

  method ComputeAggregation(rows: seq<Value>, column: string, operation: string, parseText: string -> Option<real>)
    returns (value: Value)
    ensures value == Aggregate(rows, column, operation, parseText)
  {
    if operation == "count" {
      var count := 0;
      for k := 0 to |rows|
        invariant count == NonEmptyUpTo(rows, k, column)
      {
        var cell := Cell(rows[k], column);
        if cell != Null && cell != Text("") {
          count := count + 1;
        }
      }
      return Num(count as real);
    }
    var values: seq<real> := [];
    for k := 0 to |rows|
      invariant values == NumbersUpTo(rows, k, column, parseText)
    {
      var parsed := ParseNumeric(parseText, Cell(rows[k], column));
      if parsed.Some? {
        values := values + [parsed.value];
      }
    }
    return Fold(values, operation);
  }

  lemma {:induction false} ExtremesExact(values: seq<real>)
    requires values != []
    ensures Least(values) in values && forall v :: v in values ==> Least(values) <= v
    ensures Greatest(values) in values && forall v :: v in values ==> v <= Greatest(values)
  {
    if |values| == 1 {
    } else {
      ExtremesExact(values[1..]);
      assert forall v :: v in values <==> v == values[0] || v in values[1..];
    }
  }

  /** `min` and `max` are attained bounds, and `avg` times the number of values is `sum`. */
  lemma AggregatesMean(values: seq<real>)
    requires values != []
    ensures Fold(values, "min").Num? && Fold(values, "min").n in values
    ensures forall v :: v in values ==> Fold(values, "min").n <= v
    ensures Fold(values, "max").Num? && Fold(values, "max").n in values
    ensures forall v :: v in values ==> v <= Fold(values, "max").n
    ensures Fold(values, "sum").Num? && Fold(values, "avg").Num?
    ensures Fold(values, "avg").n * |values| as real == Fold(values, "sum").n
  {
    ExtremesExact(values);
  }

  predicate Computable(a: Aggregation) {
    a.id != "" && a.columnId != "" && a.operation != ""
  }

  /** Later aggregations overwrite earlier ones with the same id, and any header value or `rows`. */
  ghost function WithAggregates(definition: Definition, base: Record, rows: seq<Value>, k: nat): Record
    requires definition.Table? && k <= |definition.aggregations|
  {
    if k == 0 then base
    else
      var a := definition.aggregations[k - 1];
      var before := WithAggregates(definition, base, rows, k - 1);
      if Computable(a) then before[a.id := Aggregate(rows, a.columnId, a.operation, definition.parseText)] else before
  }

  ghost function TableOutputs(definition: Definition, header: Record, rows: seq<Value>): Record
    requires definition.Table?
  {
    WithAggregates(definition, header[ROWS := List(rows)], rows, |definition.aggregations|)
  }

  method BuildTableTaskOutputs(definition: Definition, header: Record, rows: seq<Value>) returns (outputs: Record)
    requires definition.Table?
    ensures outputs == TableOutputs(definition, header, rows)
  {
    outputs := header[ROWS := List(rows)];
    for k := 0 to |definition.aggregations|
      invariant outputs == WithAggregates(definition, header[ROWS := List(rows)], rows, k)
    {
      var aggregation := definition.aggregations[k];
      if Computable(aggregation) {
        var value := ComputeAggregation(rows, aggregation.columnId, aggregation.operation, definition.parseText);
        outputs := outputs[aggregation.id := value];
      }
    }
  }

  function HeaderSeen(fields: seq<string>, clean: Record): Record {
    map f | f in fields && f != "" :: Get(clean, f)
  }

  function HeaderKept(fields: seq<string>, clean: Record): Record {
    map f | f in fields && f != "" && f in clean :: clean[f]
  }

  ghost predicate ColumnLocksHold(context: Context, rows: seq<Value>) {
    forall k, i :: k in context.locked && k in context.inputs && ParseColumnKey(k).Some?
                   && 0 <= i < |rows| && rows[i].Object? ==>
      Get(rows[i].fields, ParseColumnKey(k).value) == context.inputs[k]
  }

  ghost predicate TableAccepted(definition: Definition, context: Context, clean: Record)
    requires definition.Table?
  {
    var rows := Get(clean, ROWS);
    && LocksHold(context, clean)
    && definition.acceptsHeader(HeaderSeen(definition.headerFields, clean))
    && rows.List?
    && definition.minRows <= |rows.items|
    && (definition.maxRows.Some? ==> |rows.items| <= definition.maxRows.value)
    && (forall i :: 0 <= i < |rows.items| ==> rows.items[i].Object? && definition.acceptsRow(rows.items[i].fields))
    && (ROWS in context.locked ==> rows == Get(context.inputs, ROWS))
    && ColumnLocksHold(context, rows.items)
  }

  /** Anything that is not a list counts as no rows. */
  function RowItems(clean: Record): seq<Value> {
    if Get(clean, ROWS).List? then Get(clean, ROWS).items else []
  }

  method ValidateLockedRowsAndColumns(context: Context, clean: Record) returns (errors: seq<string>)
    ensures errors == [] <==>
            && (ROWS in context.locked ==> Get(clean, ROWS) == Get(context.inputs, ROWS))
            && ColumnLocksHold(context, RowItems(clean))
  {
    errors := [];
    if ROWS in context.locked && Get(clean, ROWS) != Get(context.inputs, ROWS) {
      errors := [ROWS];
    }
    ghost var rowsFine := errors == [];
    var rows := RowItems(clean);
    var todo := context.locked;
    while todo != {}
      invariant todo <= context.locked
      invariant errors == [] <==> rowsFine && ColumnLocksHold(context.(locked := context.locked - todo), rows)
    {
      var key :| key in todo;
      var column := ParseColumnKey(key);
      ghost var fineBefore := errors == [];
      if column.Some? && key in context.inputs {
        for i := 0 to |rows|
          invariant errors == [] <==>
                    && fineBefore
                    && forall j :: 0 <= j < i && rows[j].Object? ==>
                         Get(rows[j].fields, column.value) == context.inputs[key]
        {
          if rows[i].Object? && Get(rows[i].fields, column.value) != context.inputs[key] {
            errors := errors + [key];
          }
        }
      }
      todo := todo - {key};
    }
    assert context.(locked := context.locked - todo) == context;
  }

  // ----- the template method -----

  /** The merged and cleaned submission that validation and completion look at. */
  ghost function Cleaned(definition: Definition, context: Context, submitted: Record): Record {
    Strip(Defaults(FormFields(definition), context) + submitted)
  }

  ghost predicate Accepted(definition: Definition, context: Context, clean: Record) {
    if definition.UserInput? then FormAccepted(definition, context, clean)
    else TableAccepted(definition, context, clean)
  }

  /** What `run` returns, or nothing where it raises. */
  ghost function Outcome(definition: Definition, context: Context, submitted: Record): Option<Record> {
    var clean := Cleaned(definition, context, submitted);
    if !Accepted(definition, context, clean) then None
    else if definition.UserInput? then Some(clean)
    else Some(TableOutputs(definition, HeaderKept(definition.headerFields, clean), Get(clean, ROWS).items))
  }

  method Run(definition: Definition, context: Context, submitted: Record) returns (final: Option<Record>)
    ensures final == Outcome(definition, context, submitted)
  {
    var defaults := Prepare(FormFields(definition), context);
    var clean := Strip(defaults + submitted);
    var errors := ValidateLockedInputs(context, clean);
    if errors != [] {
      return None;
    }
    match definition
    case UserInput(_, acceptsForm, output) =>
      if !acceptsForm(clean) || (output.Some? && CostOf(definition, clean).None?) {
        return None;
      }
      return Some(clean);
    case Table(headerFields, acceptsHeader, _, acceptsRow, minRows, maxRows, _, _, _) =>
      if !acceptsHeader(HeaderSeen(headerFields, clean)) {
        return None;
      }
      var rows := Get(clean, ROWS);
      if !rows.List? || |rows.items| < minRows || (maxRows.Some? && |rows.items| > maxRows.value) {
        return None;
      }
      for i := 0 to |rows.items|
        invariant forall j :: 0 <= j < i ==> rows.items[j].Object? && acceptsRow(rows.items[j].fields)
      {
        if !rows.items[i].Object? || !acceptsRow(rows.items[i].fields) {
          return None;
        }
      }
      errors := ValidateLockedRowsAndColumns(context, clean);
      if errors != [] {
        return None;
      }
      var outputs := BuildTableTaskOutputs(definition, HeaderKept(headerFields, clean), rows.items);
      return Some(outputs);
  }

  // ----- what a successful run guarantees -----

  /** A finished form keeps every locked input, and submitting the result again reproduces it. */
  lemma UserInputRun(definition: Definition, context: Context, submitted: Record)
    requires definition.UserInput? && Outcome(definition, context, submitted).Some?
    ensures var final := Outcome(definition, context, submitted).value;
            && LocksHold(context, final)
            && definition.acceptsForm(final)
            && (definition.output.Some? ==> CostOf(definition, final).Some?)
            && (forall k :: k in final ==> !IsInternal(k))
            && Outcome(definition, context, final) == Some(final)
  {
    var final := Outcome(definition, context, submitted).value;
    assert Cleaned(definition, context, final) == final;
  }

  /** The last computable aggregation with this id. */
  ghost function Deciding(definition: Definition, k: nat, id: string): Option<Aggregation>
    requires definition.Table? && k <= |definition.aggregations|
  {
    if k == 0 then None
    else if definition.aggregations[k - 1].id == id && Computable(definition.aggregations[k - 1]) then
      Some(definition.aggregations[k - 1])
    else Deciding(definition, k - 1, id)
  }

  lemma {:induction false} AggregatesDecide(definition: Definition, base: Record, rows: seq<Value>, k: nat, id: string)
    requires definition.Table? && k <= |definition.aggregations|
    ensures var out := WithAggregates(definition, base, rows, k);
            var deciding := Deciding(definition, k, id);
            if deciding.Some? then
              && id in out
              && out[id] == Aggregate(rows, deciding.value.columnId, deciding.value.operation, definition.parseText)
            else (id in out <==> id in base) && (id in out ==> out[id] == base[id])
    ensures Deciding(definition, k, id).Some? ==> exists i :: 0 <= i < k && definition.aggregations[i].id == id
  {
    if k == 0 {
    } else {
      AggregatesDecide(definition, base, rows, k - 1, id);
    }
  }

  /** Wherever a locked input has an aggregation's id, it already holds that aggregate of the rows. */
  ghost predicate LockedAggregatesMatch(definition: Definition, context: Context, rows: seq<Value>)
    requires definition.Table?
  {
    forall k :: k in context.locked && k in context.inputs && !IsInternal(k) ==>
      var deciding := Deciding(definition, |definition.aggregations|, k);
      deciding.Some? ==>
        context.inputs[k] == Aggregate(rows, deciding.value.columnId, deciding.value.operation, definition.parseText)
  }

  /**
   * Locked rows, columns and header values arrive unchanged, and an aggregate depends on the rows alone. Rows and
   * header values leave under their own keys unless an aggregation is stored there.
   */
  lemma TableRun(definition: Definition, context: Context, submitted: Record)
    requires definition.Table? && Outcome(definition, context, submitted).Some?
    ensures var final, clean := Outcome(definition, context, submitted).value, Cleaned(definition, context, submitted);
            var rows, count := RowItems(clean), |definition.aggregations|;
            && Get(clean, ROWS) == List(rows)
            && (forall i :: 0 <= i < |rows| ==> rows[i].Object? && definition.acceptsRow(rows[i].fields))
            && (ROWS in context.locked ==> List(rows) == Get(context.inputs, ROWS))
            && ColumnLocksHold(context, rows)
            && (forall id :: Deciding(definition, count, id).Some? ==>
                  var a := Deciding(definition, count, id).value;
                  id in final && final[id] == Aggregate(rows, a.columnId, a.operation, definition.parseText))
            && (Deciding(definition, count, ROWS).None? ==> Get(final, ROWS) == List(rows))
            && (forall f :: f in definition.headerFields && f != "" && f != ROWS && f in context.locked
                            && f in context.inputs && Deciding(definition, count, f).None? ==>
                  Get(final, f) == context.inputs[f])
  {
    var clean := Cleaned(definition, context, submitted);
    var base := HeaderKept(definition.headerFields, clean)[ROWS := List(RowItems(clean))];
    forall id
      ensures var final := Outcome(definition, context, submitted).value;
              var deciding := Deciding(definition, |definition.aggregations|, id);
              if deciding.Some? then
                && id in final
                && final[id] ==
                   Aggregate(RowItems(clean), deciding.value.columnId, deciding.value.operation, definition.parseText)
              else Get(final, id) == Get(base, id)
    {
      AggregatesDecide(definition, base, RowItems(clean), |definition.aggregations|, id);
    }
  }

  /** What a second run sees under each key that matters. */
  lemma RerunSees(definition: Definition, context: Context, submitted: Record, k: string)
    requires definition.Table? && Outcome(definition, context, submitted).Some?
    ensures var final := Outcome(definition, context, submitted).value;
            var clean, again := Cleaned(definition, context, submitted), Cleaned(definition, context, final);
            var deciding := Deciding(definition, |definition.aggregations|, k);
            if IsInternal(k) then k !in again && k !in clean
            else if deciding.Some? then
              && k in again
              && again[k] ==
                 Aggregate(RowItems(clean), deciding.value.columnId, deciding.value.operation, definition.parseText)
            else if k == ROWS || (k in definition.headerFields && k != "") then
              (k in again <==> k in clean) && Get(again, k) == Get(clean, k)
            else k in context.inputs ==> Get(again, k) == context.inputs[k]
  {
    var clean := Cleaned(definition, context, submitted);
    var base := HeaderKept(definition.headerFields, clean)[ROWS := List(RowItems(clean))];
    AggregatesDecide(definition, base, RowItems(clean), |definition.aggregations|, k);
  }

  /** The header values of a second run: an aggregation stored under a header field's id takes its place. */
  ghost function HeaderAgain(definition: Definition, clean: Record): Record
    requires definition.Table?
  {
    map f | f in definition.headerFields && f != "" ::
      var deciding := Deciding(definition, |definition.aggregations|, f);
      if deciding.Some? && !IsInternal(f) then
        Aggregate(RowItems(clean), deciding.value.columnId, deciding.value.operation, definition.parseText)
      else Get(clean, f)
  }

  lemma RerunHeader(definition: Definition, context: Context, submitted: Record)
    requires definition.Table? && Outcome(definition, context, submitted).Some?
    ensures var clean := Cleaned(definition, context, submitted);
            var again := Cleaned(definition, context, Outcome(definition, context, submitted).value);
            HeaderSeen(definition.headerFields, again) == HeaderAgain(definition, clean)
  {
    forall f | f in definition.headerFields && f != ""
      ensures var clean := Cleaned(definition, context, submitted);
              var again := Cleaned(definition, context, Outcome(definition, context, submitted).value);
              Get(again, f) == HeaderAgain(definition, clean)[f]
    {
      RerunSees(definition, context, submitted, f);
    }
  }

  lemma RerunLocks(definition: Definition, context: Context, submitted: Record)
    requires definition.Table? && Outcome(definition, context, submitted).Some?
    ensures var clean := Cleaned(definition, context, submitted);
            var again := Cleaned(definition, context, Outcome(definition, context, submitted).value);
            LocksHold(context, again) <==> LockedAggregatesMatch(definition, context, RowItems(clean))
  {
    var clean := Cleaned(definition, context, submitted);
    forall k | k in context.locked && k in context.inputs
      ensures var again := Cleaned(definition, context, Outcome(definition, context, submitted).value);
              var deciding := Deciding(definition, |definition.aggregations|, k);
              Get(again, k) == context.inputs[k] <==>
              (!IsInternal(k) && deciding.Some? ==>
                 context.inputs[k] ==
                 Aggregate(RowItems(clean), deciding.value.columnId, deciding.value.operation, definition.parseText))
    {
      RerunSees(definition, context, submitted, k);
    }
  }

  /** On the same rows, header values that aggregations overwrite do not matter. */
  lemma SameOutputs(definition: Definition, context: Context, submitted: Record)
    requires definition.Table? && Outcome(definition, context, submitted).Some?
    ensures var clean, final := Cleaned(definition, context, submitted), Outcome(definition, context, submitted).value;
            var again := Cleaned(definition, context, final);
            TableOutputs(definition, HeaderKept(definition.headerFields, again), RowItems(clean)) == final
  {
    var clean, final := Cleaned(definition, context, submitted), Outcome(definition, context, submitted).value;
    var again, rows := Cleaned(definition, context, final), RowItems(clean);
    var one := HeaderKept(definition.headerFields, clean)[ROWS := List(rows)];
    var two := HeaderKept(definition.headerFields, again)[ROWS := List(rows)];
    var other := TableOutputs(definition, HeaderKept(definition.headerFields, again), rows);
    forall k
      ensures (k in other <==> k in final) && (k in other ==> other[k] == final[k])
    {
      RerunSees(definition, context, submitted, k);
      AggregatesDecide(definition, one, rows, |definition.aggregations|, k);
      AggregatesDecide(definition, two, rows, |definition.aggregations|, k);
    }
  }

  /**
   * Running a finished table task again on its own outputs reproduces them exactly when no aggregation is stored as
   * the rows, the header is accepted with the aggregates stored in it, and no lock stands against an aggregate.
   */
  lemma TableRerun(definition: Definition, context: Context, submitted: Record)
    requires definition.Table? && Outcome(definition, context, submitted).Some?
    ensures var final, clean := Outcome(definition, context, submitted).value, Cleaned(definition, context, submitted);
            Outcome(definition, context, final) == Some(final) <==>
            && Deciding(definition, |definition.aggregations|, ROWS).None?
            && definition.acceptsHeader(HeaderAgain(definition, clean))
            && LockedAggregatesMatch(definition, context, RowItems(clean))
  {
    RerunSees(definition, context, submitted, ROWS);
    RerunHeader(definition, context, submitted);
    RerunLocks(definition, context, submitted);
    SameOutputs(definition, context, submitted);
  }

  /** Aggregation ids that clash with no header field and not with `rows`. */
  ghost predicate AggregatesApart(definition: Definition)
    requires definition.Table?
  {
    forall i :: 0 <= i < |definition.aggregations| ==>
      var id := definition.aggregations[i].id;
      id != ROWS && id !in definition.headerFields
  }

  /** Where aggregation ids stay clear of header fields, `rows` and bound inputs, a second run always reproduces. */
  lemma TableRerunApart(definition: Definition, context: Context, submitted: Record)
    requires definition.Table? && AggregatesApart(definition)
    requires Outcome(definition, context, submitted).Some?
    ensures var final, clean := Outcome(definition, context, submitted).value, Cleaned(definition, context, submitted);
            Outcome(definition, context, final) == Some(final) <==>
            LockedAggregatesMatch(definition, context, RowItems(clean))
    ensures (forall i :: 0 <= i < |definition.aggregations| ==> definition.aggregations[i].id !in context.inputs) ==>
              var final := Outcome(definition, context, submitted).value;
              Outcome(definition, context, final) == Some(final)
  {
    var clean := Cleaned(definition, context, submitted);
    TableRerun(definition, context, submitted);
    forall k
      ensures Deciding(definition, |definition.aggregations|, k).Some? ==>
                exists i :: 0 <= i < |definition.aggregations| && definition.aggregations[i].id == k
    {
      AggregatesDecide(definition, map[], [], |definition.aggregations|, k);
    }
    assert HeaderAgain(definition, clean) == HeaderSeen(definition.headerFields, clean);
  }

  /** One column, one locked column value, and a row count that is stored under the key of that lock. */
  lemma RerunCanFail()
    ensures var definition :=
              Table([], _ => true, ["c"], _ => true, 0, None, [Aggregation("column:c", "c", "count")], _ => None, None);
            var context := Context(map["column:c" := Num(5.0)], {"column:c"}, map[]);
            var first := Outcome(definition, context, map[ROWS := List([Object(map["c" := Num(5.0)])])]);
            AggregatesApart(definition) && first.Some? && Outcome(definition, context, first.value).None?
  {
    var definition :=
      Table([], _ => true, ["c"], _ => true, 0, None, [Aggregation("column:c", "c", "count")], _ => None, None);
    var context := Context(map["column:c" := Num(5.0)], {"column:c"}, map[]);
    var row := Object(map["c" := Num(5.0)]);
    var submitted: Record := map[ROWS := List([row])];
    assert ROWS[0] == 'r' && "column:c"[0] == 'c';
    var clean := Cleaned(definition, context, submitted);
    assert clean == map["column:c" := Num(5.0), ROWS := List([row])];
    assert "column:c"[..|COLUMN_PREFIX|] == COLUMN_PREFIX && "column:c"[|COLUMN_PREFIX|..] == "c";
    assert Accepted(definition, context, clean);
    assert NonEmptyUpTo([row], 1, "c") == 1;
    assert Aggregate([row], "c", "count", definition.parseText) == Num(1.0);
    assert Deciding(definition, 1, "column:c") == Some(definition.aggregations[0]);
    var final := Outcome(definition, context, submitted).value;
    RerunSees(definition, context, submitted, "column:c");
    assert Get(Cleaned(definition, context, final), "column:c") == Num(1.0);
  }
}
