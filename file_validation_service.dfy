/** The rule-driven validation engine: a sheet's rows are checked column by
    column against the sheet's rule set; each row either contributes its
    errors or, when it has none, one transformed record. */
module FileValidationService {
  import opened Wrappers
  import opened Text
  import opened Calendar
  import opened Cells
  import opened ValidationConfig

  /** `{row, column, message}`; `row` is the spreadsheet line (index + 2). */
  datatype ValidationError = ValidationError(row: int, column: string, message: string)

  datatype SheetReport = SheetReport(
    valid: bool,
    errors: seq<ValidationError>,
    validRows: seq<Record>,
    totalRows: nat)

  /** `validationRules[sheetName] || validationRules.default`, then `.columns`:
      `None` when the name is an inherited member, whose `.columns` is undefined. */
  function ResolveColumns(sheetName: string): (r: Option<Columns>)
    ensures sheetName in Registry ==> r == Some(Registry[sheetName].columns)
    ensures sheetName !in Registry ==> (r.None? <==> sheetName in InheritedMembers)
    ensures sheetName !in Registry && sheetName !in InheritedMembers ==> r == Some(Default.columns)
  {
    if sheetName in Registry then Some(Registry[sheetName].columns)
    else if sheetName in InheritedMembers then None
    else Some(Default.columns)
  }

  /** `rule.errorMessage || `${columnName} validation failed``. */
  function FailureMessage(rule: ColumnRule, column: string): string {
    if rule.errorMessage.Some? && rule.errorMessage.value != "" then rule.errorMessage.value
    else column + " validation failed"
  }

  /** `validateValue`: the type-specific check of a present value; a message,
      `None` for null, or the exception `value.toLowerCase()` throws. */
  function ValidateValue(host: Host, now: CalendarDate, value: Cell, rule: ColumnRule, column: string)
    : (r: Result<Option<string>, Fault>)
    ensures r.Err? <==> rule.kind == BooleanKind && value.Num?
  {
    match rule.kind
    case NumberKind =>
      (match NumberOf(host, value)
       case None => Ok(Some(column + " must be a number"))
       case Some(x) =>
         if rule.min.Some? && x < rule.min.value as real
         then Ok(Some(column + " must be greater than " + IntToString(rule.min.value)))
         else Ok(None))
    case DateKind =>
      (match host.dateOf(value)
       case None => Ok(Some(column + " must be a valid date"))
       case Some(date) =>
         if rule.validate.Some? && !Accepts(rule.validate.value, date, now)
         then Ok(Some(FailureMessage(rule, column)))
         else Ok(None))
    case BooleanKind =>
      (match value
       case Bool(_) => Ok(None)
       case Str(s) => if ToLower(s) == "yes" || ToLower(s) == "no" then Ok(None)
                      else Ok(Some(column + " must be Yes or No"))
       case Num(_) => Err(LowerCaseOfNonString))
    case _ => Ok(None)
  }

  /** One iteration of `validateRow`'s loop: the error (if any) for one column. */
  function ColumnError(host: Host, now: CalendarDate, row: Row, column: string, rule: ColumnRule)
    : Result<Option<string>, Fault>
  {
    if rule.required && !Present(row, column) then Ok(Some(column + " is required"))
    else if Present(row, column) then ValidateValue(host, now, row[column], rule, column)
    else Ok(None)
  }

  /** The errors `validateRow` collects for `row`, column by column in declaration order. */
  function RowErrors(host: Host, now: CalendarDate, row: Row, columns: Columns, rowNumber: int)
    : (r: Result<seq<ValidationError>, Fault>)
    ensures r.Ok? ==> |r.value| <= |columns|
    ensures r.Ok? ==> forall k :: 0 <= k < |r.value| ==>
      r.value[k].row == rowNumber && 0 <= ColumnIndex(columns, r.value[k].column)
    decreases |columns|
  {
    if columns == [] then Ok([])
    else
      match RowErrors(host, now, row, columns[..|columns| - 1], rowNumber)
      case Err(f) => Err(f)
      case Ok(es) =>
        var (column, rule) := columns[|columns| - 1];
        match ColumnError(host, now, row, column, rule)
        case Err(f) => Err(f)
        case Ok(None) => Ok(es)
        case Ok(Some(m)) => Ok(es + [ValidationError(rowNumber, column, m)])
  }

  /** Position of the first column called `name`, or -1. */
  function ColumnIndex(columns: Columns, name: string): (i: int)
    ensures -1 <= i < |columns|
    ensures i >= 0 ==> columns[i].0 == name
    ensures forall j :: 0 <= j < |columns| && (i == -1 || j < i) ==> columns[j].0 != name
    decreases |columns|
  {
    if columns == [] then -1
    else if columns[0].0 == name then 0
    else var i := ColumnIndex(columns[1..], name); if i == -1 then -1 else i + 1
  }

  /** Every column of `row` passes its rule. */
  ghost predicate RowPasses(host: Host, now: CalendarDate, row: Row, columns: Columns) {
    forall j :: 0 <= j < |columns| ==> ColumnError(host, now, row, columns[j].0, columns[j].1) == Ok(None)
  }

  /** A fault in a prefix of the columns is the row's fault. */
  lemma {:induction false} RowErrorsFaultPersists(host: Host, now: CalendarDate, row: Row, columns: Columns,
                                                  rowNumber: int, j: nat)
    requires j <= |columns|
    requires RowErrors(host, now, row, columns[..j], rowNumber).Err?
    ensures RowErrors(host, now, row, columns, rowNumber) == RowErrors(host, now, row, columns[..j], rowNumber)
    decreases |columns|
  {
    if j < |columns| {
      var init := columns[..|columns| - 1];
      assert init[..j] == columns[..j];
      RowErrorsFaultPersists(host, now, row, init, rowNumber, j);
    } else {
      assert columns[..j] == columns;
    }
  }

  /** A row has no errors exactly when every column passes. */
  lemma {:induction false} RowErrorsEmpty(host: Host, now: CalendarDate, row: Row, columns: Columns, rowNumber: int)
    ensures RowErrors(host, now, row, columns, rowNumber) == Ok([]) <==> RowPasses(host, now, row, columns)
    decreases |columns|
  {
    if columns != [] {
      var init := columns[..|columns| - 1];
      RowErrorsEmpty(host, now, row, init, rowNumber);
      assert forall j :: 0 <= j < |init| ==> init[j] == columns[j];
    }
  }

  /** A row's check throws exactly when some column's check throws. */
  lemma {:induction false} RowErrorsFault(host: Host, now: CalendarDate, row: Row, columns: Columns, rowNumber: int)
    ensures RowErrors(host, now, row, columns, rowNumber).Err? <==>
      exists j :: 0 <= j < |columns| && ColumnError(host, now, row, columns[j].0, columns[j].1).Err?
    decreases |columns|
  {
    if columns != [] {
      var init := columns[..|columns| - 1];
      RowErrorsFault(host, now, row, init, rowNumber);
      assert forall j :: 0 <= j < |init| ==> init[j] == columns[j];
    }
  }

  /** Errors in `es` name columns in strictly increasing declaration position, so none twice. */
  predicate InColumnOrder(columns: Columns, es: seq<ValidationError>) {
    forall k, l :: 0 <= k < l < |es| ==>
      ColumnIndex(columns, es[k].column) < ColumnIndex(columns, es[l].column) &&
      es[k].column != es[l].column
  }

  /** A successful row's errors are those of its first columns, then at most one for the last column. */
  lemma RowErrorsSnoc(host: Host, now: CalendarDate, row: Row, columns: Columns, rowNumber: int)
    requires columns != [] && RowErrors(host, now, row, columns, rowNumber).Ok?
    ensures RowErrors(host, now, row, columns[..|columns| - 1], rowNumber).Ok?
    ensures var es := RowErrors(host, now, row, columns, rowNumber).value;
      var ei := RowErrors(host, now, row, columns[..|columns| - 1], rowNumber).value;
      |ei| <= |es| <= |ei| + 1 && es[..|ei|] == ei &&
      (|es| == |ei| + 1 ==> es[|ei|].column == columns[|columns| - 1].0)
  {
  }

  /** A name found among the first columns keeps its position when a column is added. */
  lemma ColumnIndexSnoc(columns: Columns, name: string)
    requires columns != [] && 0 <= ColumnIndex(columns[..|columns| - 1], name)
    ensures ColumnIndex(columns, name) == ColumnIndex(columns[..|columns| - 1], name)
  {
    var init := columns[..|columns| - 1];
    assert forall j :: 0 <= j < |init| ==> init[j] == columns[j];
  }

  lemma InColumnOrderSnoc(columns: Columns, ei: seq<ValidationError>, es: seq<ValidationError>)
    requires columns != [] && DistinctNames(columns)
    requires InColumnOrder(columns[..|columns| - 1], ei)
    requires forall k :: 0 <= k < |ei| ==> 0 <= ColumnIndex(columns[..|columns| - 1], ei[k].column)
    requires |ei| <= |es| <= |ei| + 1 && es[..|ei|] == ei
    requires |es| == |ei| + 1 ==> es[|ei|].column == columns[|columns| - 1].0
    ensures InColumnOrder(columns, es)
  {
    var init := columns[..|columns| - 1];
    var last := |columns| - 1;
    forall k | 0 <= k < |ei|
      ensures ColumnIndex(columns, ei[k].column) == ColumnIndex(init, ei[k].column) < last
    {
      ColumnIndexSnoc(columns, ei[k].column);
    }
    assert ColumnIndex(columns, columns[last].0) == last;
    forall k, l | 0 <= k < l < |es|
      ensures ColumnIndex(columns, es[k].column) < ColumnIndex(columns, es[l].column) &&
        es[k].column != es[l].column
    {
      assert es[k] == ei[k];
      if l < |ei| {
        assert es[l] == ei[l];
      }
    }
  }

  /** Errors follow the declaration order of their columns, so a column
      contributes at most one error per row. */
  lemma {:induction false} RowErrorsInColumnOrder(host: Host, now: CalendarDate, row: Row, columns: Columns,
                                                  rowNumber: int)
    requires DistinctNames(columns)
    requires RowErrors(host, now, row, columns, rowNumber).Ok?
    ensures InColumnOrder(columns, RowErrors(host, now, row, columns, rowNumber).value)
    decreases |columns|
  {
    if columns != [] {
      var init := columns[..|columns| - 1];
      assert DistinctNames(init);
      RowErrorsSnoc(host, now, row, columns, rowNumber);
      RowErrorsInColumnOrder(host, now, row, init, rowNumber);
      InColumnOrderSnoc(columns, RowErrors(host, now, row, init, rowNumber).value,
                        RowErrors(host, now, row, columns, rowNumber).value);
    }
  }

  /** Every column whose check yields message `m` has the error (`rowNumber`, column, `m`) in `es`. */
  ghost predicate ReportsColumnErrors(host: Host, now: CalendarDate, row: Row, columns: Columns, rowNumber: int,
                                      es: seq<ValidationError>) {
    forall j, m :: 0 <= j < |columns| && ColumnError(host, now, row, columns[j].0, columns[j].1) == Ok(Some(m)) ==>
      ValidationError(rowNumber, columns[j].0, m) in es
  }

  /** Every error in `es` carries the message its column's check yields. */
  ghost predicate ErrorsFromColumns(host: Host, now: CalendarDate, row: Row, columns: Columns,
                                    es: seq<ValidationError>) {
    forall k :: 0 <= k < |es| ==>
      exists j :: 0 <= j < |columns| && es[k].column == columns[j].0 &&
        ColumnError(host, now, row, columns[j].0, columns[j].1) == Ok(Some(es[k].message))
  }

  /** A row's errors are exactly its failing columns' messages: each failing column
      contributes its message, and every error is some column's message. */
  lemma {:induction false} RowErrorsMessages(host: Host, now: CalendarDate, row: Row, columns: Columns,
                                             rowNumber: int)
    requires RowErrors(host, now, row, columns, rowNumber).Ok?
    ensures ReportsColumnErrors(host, now, row, columns, rowNumber, RowErrors(host, now, row, columns, rowNumber).value)
    ensures ErrorsFromColumns(host, now, row, columns, RowErrors(host, now, row, columns, rowNumber).value)
    decreases |columns|
  {
    if columns != [] {
      var init := columns[..|columns| - 1];
      RowErrorsStep(host, now, row, columns, rowNumber);
      RowErrorsMessages(host, now, row, init, rowNumber);
      var last := columns[|columns| - 1];
      var b := Emitted(rowNumber, last.0, ColumnError(host, now, row, last.0, last.1).value);
      ReportsColumnErrorsSnoc(host, now, row, columns, rowNumber,
                              RowErrors(host, now, row, init, rowNumber).value, b);
      ErrorsFromColumnsSnoc(host, now, row, columns, rowNumber,
                            RowErrors(host, now, row, init, rowNumber).value, b);
    }
  }

  /** The error a column's outcome adds: one for a message, none otherwise. */
  function Emitted(rowNumber: int, column: string, outcome: Option<string>): seq<ValidationError> {
    if outcome.Some? then [ValidationError(rowNumber, column, outcome.value)] else []
  }

  /** A successful row's errors are those of its first columns followed by the last column's. */
  lemma RowErrorsStep(host: Host, now: CalendarDate, row: Row, columns: Columns, rowNumber: int)
    requires columns != [] && RowErrors(host, now, row, columns, rowNumber).Ok?
    ensures RowErrors(host, now, row, columns[..|columns| - 1], rowNumber).Ok?
    ensures ColumnError(host, now, row, columns[|columns| - 1].0, columns[|columns| - 1].1).Ok?
    ensures RowErrors(host, now, row, columns, rowNumber).value ==
      RowErrors(host, now, row, columns[..|columns| - 1], rowNumber).value +
      Emitted(rowNumber, columns[|columns| - 1].0,
              ColumnError(host, now, row, columns[|columns| - 1].0, columns[|columns| - 1].1).value)
  {
    var ei := RowErrors(host, now, row, columns[..|columns| - 1], rowNumber).value;
    assert ei + [] == ei;
  }

  lemma ReportsColumnErrorsSnoc(host: Host, now: CalendarDate, row: Row, columns: Columns, rowNumber: int,
                                a: seq<ValidationError>, b: seq<ValidationError>)
    requires columns != []
    requires ReportsColumnErrors(host, now, row, columns[..|columns| - 1], rowNumber, a)
    requires ColumnError(host, now, row, columns[|columns| - 1].0, columns[|columns| - 1].1).Ok?
    requires b == Emitted(rowNumber, columns[|columns| - 1].0,
                          ColumnError(host, now, row, columns[|columns| - 1].0, columns[|columns| - 1].1).value)
    ensures ReportsColumnErrors(host, now, row, columns, rowNumber, a + b)
  {
    var init := columns[..|columns| - 1];
    forall j, m | 0 <= j < |columns| && ColumnError(host, now, row, columns[j].0, columns[j].1) == Ok(Some(m))
      ensures ValidationError(rowNumber, columns[j].0, m) in a + b
    {
      if j < |init| {
        assert init[j] == columns[j];
      }
    }
  }

  lemma ErrorsFromColumnsSnoc(host: Host, now: CalendarDate, row: Row, columns: Columns, rowNumber: int,
                              a: seq<ValidationError>, b: seq<ValidationError>)
    requires columns != []
    requires ErrorsFromColumns(host, now, row, columns[..|columns| - 1], a)
    requires ColumnError(host, now, row, columns[|columns| - 1].0, columns[|columns| - 1].1).Ok?
    requires b == Emitted(rowNumber, columns[|columns| - 1].0,
                          ColumnError(host, now, row, columns[|columns| - 1].0, columns[|columns| - 1].1).value)
    ensures ErrorsFromColumns(host, now, row, columns, a + b)
  {
    var init := columns[..|columns| - 1];
    var last := |columns| - 1;
    forall k | 0 <= k < |a + b|
      ensures exists j :: 0 <= j < |columns| && (a + b)[k].column == columns[j].0 &&
                          ColumnError(host, now, row, columns[j].0, columns[j].1) == Ok(Some((a + b)[k].message))
    {
      if k < |a| {
        assert (a + b)[k] == a[k];
        var j :| 0 <= j < |init| && a[k].column == init[j].0 &&
          ColumnError(host, now, row, init[j].0, init[j].1) == Ok(Some(a[k].message));
        assert init[j] == columns[j];
      } else {
        assert (a + b)[k] == b[k - |a|];
        assert (a + b)[k].column == columns[last].0;
      }
    }
  }

  /** With distinct column names: (`rowNumber`, column `j`, `m`) is an error of the row
      exactly when column `j`'s check yields `m`. */
  lemma RowErrorMessage(host: Host, now: CalendarDate, row: Row, columns: Columns, rowNumber: int,
                        j: nat, m: string)
    requires DistinctNames(columns) && j < |columns|
    requires RowErrors(host, now, row, columns, rowNumber).Ok?
    ensures ValidationError(rowNumber, columns[j].0, m) in RowErrors(host, now, row, columns, rowNumber).value <==>
      ColumnError(host, now, row, columns[j].0, columns[j].1) == Ok(Some(m))
  {
    RowErrorsMessages(host, now, row, columns, rowNumber);
    var es := RowErrors(host, now, row, columns, rowNumber).value;
    if ValidationError(rowNumber, columns[j].0, m) in es {
      var k :| 0 <= k < |es| && es[k] == ValidationError(rowNumber, columns[j].0, m);
      var i :| 0 <= i < |columns| && es[k].column == columns[i].0 &&
        ColumnError(host, now, row, columns[i].0, columns[i].1) == Ok(Some(es[k].message));
      assert i == j;
    }
  }

  /** `validateRow`: the loop over the rule entries, with `continue` after a
      missing required value. */
  method ValidateRow(host: Host, now: CalendarDate, row: Row, columns: Columns, rowNumber: int)
    returns (result: Result<seq<ValidationError>, Fault>)
    ensures result == RowErrors(host, now, row, columns, rowNumber)
  {
    var errors: seq<ValidationError> := [];
    for i := 0 to |columns|
      invariant RowErrors(host, now, row, columns[..i], rowNumber) == Ok(errors)
    {
      assert columns[..i + 1][..i] == columns[..i];
      var (columnName, rule) := columns[i];
      var value := Get(row, columnName);
      if rule.required && (value == None || value == Some(Str(""))) {
        errors := errors + [ValidationError(rowNumber, columnName, columnName + " is required")];
        continue;
      }
      if value != None && value != Some(Str("")) {
        var validationError := ValidateValue(host, now, value.value, rule, columnName);
        match validationError {
          case Err(f) =>
            RowErrorsFaultPersists(host, now, row, columns, rowNumber, i + 1);
            return Err(f);
          case Ok(Some(message)) =>
            errors := errors + [ValidationError(rowNumber, columnName, message)];
          case Ok(None) =>
        }
      }
    }
    assert columns[..|columns|] == columns;
    result := Ok(errors);
  }

  /** The value a present column contributes: `rule.transform(value)` or the value itself. */
  function FieldValue(row: Row, column: string, rule: ColumnRule): Result<Cell, Fault>
    requires column in row
  {
    if rule.transform.Some? then ApplyTransform(rule.transform.value, row[column]) else Ok(row[column])
  }

  /** The record `transformRow` builds from a row. */
  function Transformed(row: Row, columns: Columns): Result<Record, Fault>
    decreases |columns|
  {
    if columns == [] then Ok(map[])
    else
      match Transformed(row, columns[..|columns| - 1])
      case Err(f) => Err(f)
      case Ok(rec) =>
        var (column, rule) := columns[|columns| - 1];
        if !Present(row, column) then Ok(rec)
        else
          match FieldValue(row, column, rule)
          case Err(f) => Err(f)
          case Ok(v) => Ok(rec[rule.field := v])
  }

  lemma {:induction false} TransformedFaultPersists(row: Row, columns: Columns, j: nat)
    requires j <= |columns|
    requires Transformed(row, columns[..j]).Err?
    ensures Transformed(row, columns) == Transformed(row, columns[..j])
    decreases |columns|
  {
    if j < |columns| {
      var init := columns[..|columns| - 1];
      assert init[..j] == columns[..j];
      TransformedFaultPersists(row, init, j);
    } else {
      assert columns[..j] == columns;
    }
  }

  /** The fields of the present columns among `columns`. */
  ghost function PresentFields(row: Row, columns: Columns): set<string> {
    set j | 0 <= j < |columns| && Present(row, columns[j].0) :: columns[j].1.field
  }

  lemma PresentFieldsSnoc(row: Row, columns: Columns)
    requires columns != []
    ensures PresentFields(row, columns) ==
      PresentFields(row, columns[..|columns| - 1]) +
      (if Present(row, columns[|columns| - 1].0) then {columns[|columns| - 1].1.field} else {})
  {
    var init := columns[..|columns| - 1];
    assert forall j :: 0 <= j < |init| ==> init[j] == columns[j];
  }

  /** The record's keys are exactly the fields of the present columns. */
  lemma {:induction false} TransformedKeys(row: Row, columns: Columns)
    requires Transformed(row, columns).Ok?
    ensures Transformed(row, columns).value.Keys == PresentFields(row, columns)
    decreases |columns|
  {
    if columns != [] {
      TransformedKeys(row, columns[..|columns| - 1]);
      PresentFieldsSnoc(row, columns);
    }
  }

  /** With distinct fields, each present column's field holds its column's (transformed) value. */
  lemma {:induction false} TransformedValues(row: Row, columns: Columns)
    requires Transformed(row, columns).Ok? && DistinctFields(columns)
    ensures forall j :: 0 <= j < |columns| && Present(row, columns[j].0) ==>
      columns[j].1.field in Transformed(row, columns).value &&
      FieldValue(row, columns[j].0, columns[j].1) == Ok(Transformed(row, columns).value[columns[j].1.field])
    decreases |columns|
  {
    if columns != [] {
      var init := columns[..|columns| - 1];
      assert forall j :: 0 <= j < |init| ==> init[j] == columns[j];
      assert DistinctFields(init);
      TransformedValues(row, init);
    }
  }

  /** Transforming throws exactly when some present column's transform throws. */
  lemma {:induction false} TransformedFault(row: Row, columns: Columns)
    ensures Transformed(row, columns).Err? <==>
      exists j :: 0 <= j < |columns| && Present(row, columns[j].0) && FieldValue(row, columns[j].0, columns[j].1).Err?
    decreases |columns|
  {
    if columns != [] {
      var init := columns[..|columns| - 1];
      TransformedFault(row, init);
      assert forall j :: 0 <= j < |init| ==> init[j] == columns[j];
    }
  }

  /** `transformRow`: assigns one key per present column. */
  method TransformRow(row: Row, columns: Columns) returns (result: Result<Record, Fault>)
    ensures result == Transformed(row, columns)
  {
    var transformedRow: Record := map[];
    for i := 0 to |columns|
      invariant Transformed(row, columns[..i]) == Ok(transformedRow)
    {
      assert columns[..i + 1][..i] == columns[..i];
      var (columnName, rule) := columns[i];
      var value := Get(row, columnName);
      if value != None && value != Some(Str("")) {
        if rule.transform.Some? {
          var transformed := ApplyTransform(rule.transform.value, value.value);
          if transformed.Err? {
            TransformedFaultPersists(row, columns, i + 1);
            return Err(transformed.error);
          }
          transformedRow := transformedRow[rule.field := transformed.value];
        } else {
          transformedRow := transformedRow[rule.field := value.value];
        }
      }
    }
    assert columns[..|columns|] == columns;
    result := Ok(transformedRow);
  }

  datatype Outcome = Outcome(errors: seq<ValidationError>, validRows: seq<Record>)

  /** What `validateSheet`'s `forEach` accumulates over `rows`; row `i` is line `i + 2`. */
  function Collect(host: Host, now: CalendarDate, rows: seq<Row>, columns: Columns): Result<Outcome, Fault>
    decreases |rows|
  {
    if rows == [] then Ok(Outcome([], []))
    else CollectRow(host, now, Collect(host, now, rows[..|rows| - 1], columns), rows[|rows| - 1], |rows| + 1, columns)
  }

  /** One call of `forEach`'s callback: the row's errors are appended, or its record when it has none. */
  function CollectRow(host: Host, now: CalendarDate, acc: Result<Outcome, Fault>, row: Row, rowNumber: int,
                      columns: Columns): Result<Outcome, Fault>
  {
    match acc
    case Err(f) => Err(f)
    case Ok(out) =>
      match RowErrors(host, now, row, columns, rowNumber)
      case Err(f) => Err(f)
      case Ok(es) =>
        if es != [] then Ok(Outcome(out.errors + es, out.validRows))
        else
          match Transformed(row, columns)
          case Err(f) => Err(f)
          case Ok(rec) => Ok(Outcome(out.errors, out.validRows + [rec]))
  }

  /** The first `index + 1` rows are the first `index` followed by row `index`. */
  lemma CollectPrefix(host: Host, now: CalendarDate, rows: seq<Row>, columns: Columns, index: nat)
    requires index < |rows|
    ensures Collect(host, now, rows[..index + 1], columns) ==
      CollectRow(host, now, Collect(host, now, rows[..index], columns), rows[index], index + 2, columns)
  {
    assert rows[..index + 1][..index] == rows[..index];
  }

  /** A successful sheet's errors are its first rows' errors followed by the last row's. */
  lemma CollectErrorsSnoc(host: Host, now: CalendarDate, rows: seq<Row>, columns: Columns)
    requires rows != [] && Collect(host, now, rows, columns).Ok?
    ensures Collect(host, now, rows[..|rows| - 1], columns).Ok?
    ensures RowErrors(host, now, rows[|rows| - 1], columns, |rows| + 1).Ok?
    ensures Collect(host, now, rows, columns).value.errors ==
      Collect(host, now, rows[..|rows| - 1], columns).value.errors +
      RowErrors(host, now, rows[|rows| - 1], columns, |rows| + 1).value
  {
    var acc := Collect(host, now, rows[..|rows| - 1], columns).value;
    if RowErrors(host, now, rows[|rows| - 1], columns, |rows| + 1) == Ok([]) {
      assert acc.errors + [] == acc.errors;
    }
  }

  /** The report `validateSheet` returns, or the exception it throws. */
  function SheetReportOf(host: Host, now: CalendarDate, rows: seq<Row>, sheetName: string)
    : (r: Result<SheetReport, Fault>)
    ensures r.Ok? ==> (r.value.valid <==> r.value.errors == []) && r.value.totalRows == |rows|
    ensures rows == [] ==> r == Ok(SheetReport(true, [], [], 0))
  {
    match ResolveColumns(sheetName)
    case None => if rows == [] then Ok(SheetReport(true, [], [], 0)) else Err(EntriesOfUndefined)
    case Some(columns) =>
      match Collect(host, now, rows, columns)
      case Err(f) => Err(f)
      case Ok(out) => Ok(SheetReport(|out.errors| == 0, out.errors, out.validRows, |rows|))
  }

  lemma {:induction false} CollectFaultPersists(host: Host, now: CalendarDate, rows: seq<Row>, columns: Columns, j: nat)
    requires j <= |rows|
    requires Collect(host, now, rows[..j], columns).Err?
    ensures Collect(host, now, rows, columns) == Collect(host, now, rows[..j], columns)
    decreases |rows|
  {
    if j < |rows| {
      var init := rows[..|rows| - 1];
      assert init[..j] == rows[..j];
      CollectFaultPersists(host, now, init, columns, j);
    } else {
      assert rows[..j] == rows;
    }
  }

  /** `validateSheet`: the `forEach` over the rows. */
  method ValidateSheet(host: Host, now: CalendarDate, rows: seq<Row>, sheetName: string)
    returns (result: Result<SheetReport, Fault>)
    ensures result == SheetReportOf(host, now, rows, sheetName)
  {
    var rules := ResolveColumns(sheetName);
    var errors: seq<ValidationError> := [];
    var validRows: seq<Record> := [];
    for index := 0 to |rows|
      invariant rules.None? ==> index == 0
      invariant rules.Some? ==> Collect(host, now, rows[..index], rules.value) == Ok(Outcome(errors, validRows))
    {
      if rules.None? {
        return Err(EntriesOfUndefined);
      }
      CollectPrefix(host, now, rows, rules.value, index);
      var rowErrors := ValidateRow(host, now, rows[index], rules.value, index + 2);
      if rowErrors.Err? {
        CollectFaultPersists(host, now, rows, rules.value, index + 1);
        return Err(rowErrors.error);
      }
      if |rowErrors.value| > 0 {
        errors := errors + rowErrors.value;
      } else {
        var record := TransformRow(rows[index], rules.value);
        if record.Err? {
          CollectFaultPersists(host, now, rows, rules.value, index + 1);
          return Err(record.error);
        }
        validRows := validRows + [record.value];
      }
    }
    assert rows[..|rows|] == rows;
    if rules.None? {
      return Ok(SheetReport(true, [], [], 0));
    }
    result := Ok(SheetReport(|errors| == 0, errors, validRows, |rows|));
  }

  /** The number of rows with at least one failing column. */
  ghost function FailingCount(host: Host, now: CalendarDate, rows: seq<Row>, columns: Columns): nat
    decreases |rows|
  {
    if rows == [] then 0
    else FailingCount(host, now, rows[..|rows| - 1], columns) +
         (if RowPasses(host, now, rows[|rows| - 1], columns) then 0 else 1)
  }

  /** The rows all of whose columns pass, in input order. */
  ghost function Passing(host: Host, now: CalendarDate, rows: seq<Row>, columns: Columns): seq<Row>
    decreases |rows|
  {
    if rows == [] then []
    else Passing(host, now, rows[..|rows| - 1], columns) +
         (if RowPasses(host, now, rows[|rows| - 1], columns) then [rows[|rows| - 1]] else [])
  }

  /** Each row goes to exactly one side: valid records plus failing rows are all rows,
      and the valid records are those of the passing rows, in input order. */
  lemma {:induction false} CollectPartition(host: Host, now: CalendarDate, rows: seq<Row>, columns: Columns)
    requires Collect(host, now, rows, columns).Ok?
    ensures var out := Collect(host, now, rows, columns).value;
      |out.validRows| + FailingCount(host, now, rows, columns) == |rows|
    ensures var out := Collect(host, now, rows, columns).value;
      |out.validRows| == |Passing(host, now, rows, columns)| &&
      forall k :: 0 <= k < |out.validRows| ==>
        Transformed(Passing(host, now, rows, columns)[k], columns) == Ok(out.validRows[k])
    decreases |rows|
  {
    if rows != [] {
      var init := rows[..|rows| - 1];
      var last := rows[|rows| - 1];
      CollectPartition(host, now, init, columns);
      RowErrorsEmpty(host, now, last, columns, |rows| + 1);
    }
  }

  /** Every error in `es` names a line `i + 2` of a row `i` with a failing column. */
  ghost predicate LinesOfFailingRows(host: Host, now: CalendarDate, rows: seq<Row>, columns: Columns,
                                     es: seq<ValidationError>) {
    forall k :: 0 <= k < |es| ==>
      2 <= es[k].row < |rows| + 2 && !RowPasses(host, now, rows[es[k].row - 2], columns)
  }

  lemma LinesOfFailingRowsSnoc(host: Host, now: CalendarDate, rows: seq<Row>, columns: Columns,
                               a: seq<ValidationError>, b: seq<ValidationError>)
    requires rows != []
    requires LinesOfFailingRows(host, now, rows[..|rows| - 1], columns, a)
    requires forall k :: 0 <= k < |b| ==> b[k].row == |rows| + 1
    requires b != [] ==> !RowPasses(host, now, rows[|rows| - 1], columns)
    ensures LinesOfFailingRows(host, now, rows, columns, a + b)
  {
    var init := rows[..|rows| - 1];
    forall k | 0 <= k < |a + b|
      ensures 2 <= (a + b)[k].row < |rows| + 2 && !RowPasses(host, now, rows[(a + b)[k].row - 2], columns)
    {
      if k < |a| {
        assert (a + b)[k] == a[k];
        assert rows[a[k].row - 2] == init[a[k].row - 2];
      } else {
        assert (a + b)[k] == b[k - |a|];
      }
    }
  }

  /** Every error's line is a row index + 2, of a row some column of which fails. */
  lemma {:induction false} CollectErrorLines(host: Host, now: CalendarDate, rows: seq<Row>, columns: Columns)
    requires Collect(host, now, rows, columns).Ok?
    ensures LinesOfFailingRows(host, now, rows, columns, Collect(host, now, rows, columns).value.errors)
    decreases |rows|
  {
    if rows != [] {
      var init := rows[..|rows| - 1];
      var last := rows[|rows| - 1];
      CollectErrorsSnoc(host, now, rows, columns);
      CollectErrorLines(host, now, init, columns);
      RowErrorsEmpty(host, now, last, columns, |rows| + 1);
      LinesOfFailingRowsSnoc(host, now, rows, columns, Collect(host, now, init, columns).value.errors,
                             RowErrors(host, now, last, columns, |rows| + 1).value);
    }
  }

  /** Line numbers that never decrease along `es`. */
  predicate InRowOrder(es: seq<ValidationError>) {
    forall k, l :: 0 <= k < l < |es| ==> es[k].row <= es[l].row
  }

  lemma InRowOrderSnoc(a: seq<ValidationError>, b: seq<ValidationError>, n: int)
    requires InRowOrder(a) && forall k :: 0 <= k < |a| ==> a[k].row <= n
    requires forall k :: 0 <= k < |b| ==> b[k].row == n
    ensures InRowOrder(a + b)
  {
    forall k, l | 0 <= k < l < |a + b| ensures (a + b)[k].row <= (a + b)[l].row {
      if l < |a| {
        assert (a + b)[k] == a[k] && (a + b)[l] == a[l];
      } else if k < |a| {
        assert (a + b)[k] == a[k] && (a + b)[l] == b[l - |a|];
      } else {
        assert (a + b)[k] == b[k - |a|] && (a + b)[l] == b[l - |a|];
      }
    }
  }

  /** Errors appear in row order: their line numbers never decrease. */
  lemma {:induction false} CollectErrorOrder(host: Host, now: CalendarDate, rows: seq<Row>, columns: Columns)
    requires Collect(host, now, rows, columns).Ok?
    ensures InRowOrder(Collect(host, now, rows, columns).value.errors)
    decreases |rows|
  {
    if rows != [] {
      var init := rows[..|rows| - 1];
      var last := rows[|rows| - 1];
      CollectErrorsSnoc(host, now, rows, columns);
      CollectErrorOrder(host, now, init, columns);
      CollectErrorLines(host, now, init, columns);
      var acc := Collect(host, now, init, columns).value.errors;
      assert forall k :: 0 <= k < |acc| ==> acc[k].row <= |rows| + 1;
      InRowOrderSnoc(acc, RowErrors(host, now, last, columns, |rows| + 1).value, |rows| + 1);
    }
  }

  /** Errors sorted by line and, within a line, by the declaration position of their column. */
  predicate InSheetOrder(columns: Columns, es: seq<ValidationError>) {
    forall k, l :: 0 <= k < l < |es| ==>
      es[k].row < es[l].row ||
      (es[k].row == es[l].row && ColumnIndex(columns, es[k].column) < ColumnIndex(columns, es[l].column))
  }

  lemma InSheetOrderSnoc(columns: Columns, a: seq<ValidationError>, b: seq<ValidationError>, n: int)
    requires InSheetOrder(columns, a) && forall k :: 0 <= k < |a| ==> a[k].row < n
    requires InColumnOrder(columns, b) && forall k :: 0 <= k < |b| ==> b[k].row == n
    ensures InSheetOrder(columns, a + b)
  {
    forall k, l | 0 <= k < l < |a + b|
      ensures (a + b)[k].row < (a + b)[l].row ||
        ((a + b)[k].row == (a + b)[l].row &&
         ColumnIndex(columns, (a + b)[k].column) < ColumnIndex(columns, (a + b)[l].column))
    {
      if l < |a| {
        assert (a + b)[k] == a[k] && (a + b)[l] == a[l];
      } else if k < |a| {
        assert (a + b)[k] == a[k] && (a + b)[l] == b[l - |a|];
      } else {
        assert (a + b)[k] == b[k - |a|] && (a + b)[l] == b[l - |a|];
      }
    }
  }

  /** With distinct column names, errors come in row order and, within a row, in column order. */
  lemma {:induction false} CollectSheetOrder(host: Host, now: CalendarDate, rows: seq<Row>, columns: Columns)
    requires DistinctNames(columns) && Collect(host, now, rows, columns).Ok?
    ensures InSheetOrder(columns, Collect(host, now, rows, columns).value.errors)
    decreases |rows|
  {
    if rows != [] {
      var init := rows[..|rows| - 1];
      var last := rows[|rows| - 1];
      CollectErrorsSnoc(host, now, rows, columns);
      CollectSheetOrder(host, now, init, columns);
      CollectErrorLines(host, now, init, columns);
      RowErrorsInColumnOrder(host, now, last, columns, |rows| + 1);
      var acc := Collect(host, now, init, columns).value.errors;
      assert forall k :: 0 <= k < |acc| ==> acc[k].row < |rows| + 1;
      InSheetOrderSnoc(columns, acc, RowErrors(host, now, last, columns, |rows| + 1).value, |rows| + 1);
    }
  }

  /** The report of `validateSheet` lists errors in row order, then in the column order of the sheet's rules. */
  lemma SheetErrorsInOrder(host: Host, now: CalendarDate, rows: seq<Row>, sheetName: string)
    requires SheetReportOf(host, now, rows, sheetName).Ok?
    ensures ResolveColumns(sheetName).Some? ==>
      InSheetOrder(ResolveColumns(sheetName).value, SheetReportOf(host, now, rows, sheetName).value.errors)
    ensures ResolveColumns(sheetName).None? ==> SheetReportOf(host, now, rows, sheetName).value.errors == []
  {
    if ResolveColumns(sheetName).Some? {
      if sheetName in Registry {
        RegistryWellFormed(sheetName);
      } else {
        RegistryWellFormed("default");
      }
      CollectSheetOrder(host, now, rows, ResolveColumns(sheetName).value);
    }
  }

  /** Every row `i` of `rows` with a failing column has an error on line `i + 2` in `es`. */
  ghost predicate ReportsFailingRows(host: Host, now: CalendarDate, rows: seq<Row>, columns: Columns,
                                     es: seq<ValidationError>) {
    forall i :: 0 <= i < |rows| && !RowPasses(host, now, rows[i], columns) ==>
      exists k :: 0 <= k < |es| && es[k].row == i + 2
  }

  lemma ReportsFailingRowsSnoc(host: Host, now: CalendarDate, rows: seq<Row>, columns: Columns,
                               a: seq<ValidationError>, b: seq<ValidationError>)
    requires rows != []
    requires ReportsFailingRows(host, now, rows[..|rows| - 1], columns, a)
    requires !RowPasses(host, now, rows[|rows| - 1], columns) ==> b != [] && b[0].row == |rows| + 1
    ensures ReportsFailingRows(host, now, rows, columns, a + b)
  {
    var init := rows[..|rows| - 1];
    forall i | 0 <= i < |rows| && !RowPasses(host, now, rows[i], columns)
      ensures exists k :: 0 <= k < |a + b| && (a + b)[k].row == i + 2
    {
      if i < |init| {
        assert init[i] == rows[i];
        var k :| 0 <= k < |a| && a[k].row == i + 2;
        assert (a + b)[k] == a[k];
      } else {
        assert (a + b)[|a|] == b[0];
      }
    }
  }

  /** Every row with a failing column has at least one error in the report. */
  lemma {:induction false} CollectReportsFailingRows(host: Host, now: CalendarDate, rows: seq<Row>, columns: Columns)
    requires Collect(host, now, rows, columns).Ok?
    ensures ReportsFailingRows(host, now, rows, columns, Collect(host, now, rows, columns).value.errors)
    decreases |rows|
  {
    if rows != [] {
      var init := rows[..|rows| - 1];
      var last := rows[|rows| - 1];
      CollectErrorsSnoc(host, now, rows, columns);
      CollectReportsFailingRows(host, now, init, columns);
      RowErrorsEmpty(host, now, last, columns, |rows| + 1);
      ReportsFailingRowsSnoc(host, now, rows, columns, Collect(host, now, init, columns).value.errors,
                             RowErrors(host, now, last, columns, |rows| + 1).value);
    }
  }

  /** A successful sheet's report holds every error of each of its rows. */
  lemma {:induction false} CollectIncludesRow(host: Host, now: CalendarDate, rows: seq<Row>, columns: Columns, i: nat)
    requires Collect(host, now, rows, columns).Ok? && i < |rows|
    ensures RowErrors(host, now, rows[i], columns, i + 2).Ok?
    ensures forall e :: e in RowErrors(host, now, rows[i], columns, i + 2).value ==>
      e in Collect(host, now, rows, columns).value.errors
    decreases |rows|
  {
    var init := rows[..|rows| - 1];
    CollectErrorsSnoc(host, now, rows, columns);
    if i < |init| {
      CollectIncludesRow(host, now, init, columns, i);
      assert init[i] == rows[i];
    }
  }

  /** Each error of the report is an error of the row on its line. */
  lemma {:induction false} CollectErrorOrigin(host: Host, now: CalendarDate, rows: seq<Row>, columns: Columns, k: nat)
    requires Collect(host, now, rows, columns).Ok? && k < |Collect(host, now, rows, columns).value.errors|
    ensures var e := Collect(host, now, rows, columns).value.errors[k];
      2 <= e.row < |rows| + 2 && RowErrors(host, now, rows[e.row - 2], columns, e.row).Ok? &&
      e in RowErrors(host, now, rows[e.row - 2], columns, e.row).value
    decreases |rows|
  {
    var init := rows[..|rows| - 1];
    CollectErrorsSnoc(host, now, rows, columns);
    var acc := Collect(host, now, init, columns).value.errors;
    var rowEs := RowErrors(host, now, rows[|rows| - 1], columns, |rows| + 1).value;
    var e := Collect(host, now, rows, columns).value.errors[k];
    if k < |acc| {
      assert e == acc[k];
      CollectErrorOrigin(host, now, init, columns, k);
      assert init[e.row - 2] == rows[e.row - 2];
    } else {
      assert e == rowEs[k - |acc|];
    }
  }

  /** A failing column's message is in the report, on its row's line. */
  lemma CollectColumnError(host: Host, now: CalendarDate, rows: seq<Row>, columns: Columns, i: nat, j: nat, m: string)
    requires Collect(host, now, rows, columns).Ok? && i < |rows| && j < |columns|
    requires ColumnError(host, now, rows[i], columns[j].0, columns[j].1) == Ok(Some(m))
    ensures ValidationError(i + 2, columns[j].0, m) in Collect(host, now, rows, columns).value.errors
  {
    CollectIncludesRow(host, now, rows, columns, i);
    RowErrorsMessages(host, now, rows[i], columns, i + 2);
  }

  /** Every error of the report is the message of some column of the row on its line. */
  lemma CollectErrorCause(host: Host, now: CalendarDate, rows: seq<Row>, columns: Columns, k: nat)
    requires Collect(host, now, rows, columns).Ok? && k < |Collect(host, now, rows, columns).value.errors|
    ensures var e := Collect(host, now, rows, columns).value.errors[k];
      2 <= e.row < |rows| + 2 &&
      exists j :: 0 <= j < |columns| && e.column == columns[j].0 &&
        ColumnError(host, now, rows[e.row - 2], columns[j].0, columns[j].1) == Ok(Some(e.message))
  {
    CollectErrorOrigin(host, now, rows, columns, k);
    var e := Collect(host, now, rows, columns).value.errors[k];
    RowErrorCause(host, now, rows[e.row - 2], columns, e.row, e);
  }

  lemma RowErrorCause(host: Host, now: CalendarDate, row: Row, columns: Columns, rowNumber: int, e: ValidationError)
    requires RowErrors(host, now, row, columns, rowNumber).Ok? && e in RowErrors(host, now, row, columns, rowNumber).value
    ensures exists j :: 0 <= j < |columns| && e.column == columns[j].0 &&
                        ColumnError(host, now, row, columns[j].0, columns[j].1) == Ok(Some(e.message))
  {
    RowErrorsMessages(host, now, row, columns, rowNumber);
    var es := RowErrors(host, now, row, columns, rowNumber).value;
    var l :| 0 <= l < |es| && es[l] == e;
  }

  /** Every passing row's columns all pass. */
  lemma {:induction false} PassingRowsPass(host: Host, now: CalendarDate, rows: seq<Row>, columns: Columns)
    ensures forall r :: r in Passing(host, now, rows, columns) ==> RowPasses(host, now, r, columns)
    decreases |rows|
  {
    if rows != [] {
      PassingRowsPass(host, now, rows[..|rows| - 1], columns);
    }
  }

  /** A row lacking a required column gets "<column> is required" on its line and yields no record. */
  lemma CollectMissingRequired(host: Host, now: CalendarDate, rows: seq<Row>, columns: Columns, i: nat, j: nat)
    requires Collect(host, now, rows, columns).Ok? && i < |rows| && j < |columns|
    requires columns[j].1.required && !Present(rows[i], columns[j].0)
    ensures ValidationError(i + 2, columns[j].0, columns[j].0 + " is required") in
      Collect(host, now, rows, columns).value.errors
    ensures rows[i] !in Passing(host, now, rows, columns)
  {
    MissingColumn(host, now, rows[i], columns[j].0, columns[j].1);
    CollectColumnError(host, now, rows, columns, i, j, columns[j].0 + " is required");
    PassingRowsPass(host, now, rows, columns);
  }

  /** The sheet's check throws exactly when some row's check throws, or some
      error-free row's transform throws. */
  lemma {:induction false} CollectFault(host: Host, now: CalendarDate, rows: seq<Row>, columns: Columns)
    ensures Collect(host, now, rows, columns).Err? <==>
      exists i :: 0 <= i < |rows| &&
        (RowErrors(host, now, rows[i], columns, i + 2).Err? ||
         (RowErrors(host, now, rows[i], columns, i + 2) == Ok([]) && Transformed(rows[i], columns).Err?))
    decreases |rows|
  {
    if rows != [] {
      var init := rows[..|rows| - 1];
      CollectFault(host, now, init, columns);
      assert forall i :: 0 <= i < |init| ==> init[i] == rows[i];
    }
  }

  /** A required column that is absent or '' gets exactly the "is required"
      message and no type check; an absent optional column gets nothing. */
  lemma MissingColumn(host: Host, now: CalendarDate, row: Row, column: string, rule: ColumnRule)
    requires !Present(row, column)
    ensures rule.required ==> ColumnError(host, now, row, column, rule) == Ok(Some(column + " is required"))
    ensures !rule.required ==> ColumnError(host, now, row, column, rule) == Ok(None)
  {
  }

  /** Number rule: a value equal to `min` passes, one below it fails with the
      "greater than" message, a non-numeric value fails with "must be a number". */
  lemma NumberRule(host: Host, now: CalendarDate, value: Cell, rule: ColumnRule, column: string)
    requires rule.kind == NumberKind
    ensures NumberOf(host, value).None? ==>
      ValidateValue(host, now, value, rule, column) == Ok(Some(column + " must be a number"))
    ensures NumberOf(host, value).Some? && rule.min.Some? ==>
      (ValidateValue(host, now, value, rule, column) == Ok(None) <==>
       NumberOf(host, value).value >= rule.min.value as real)
    ensures NumberOf(host, value).Some? && rule.min.Some? && NumberOf(host, value).value < rule.min.value as real ==>
      ValidateValue(host, now, value, rule, column) ==
        Ok(Some(column + " must be greater than " + IntToString(rule.min.value)))
  {
  }

  /** String-typed rules and types without a case never reject a present value. */
  lemma UncheckedKinds(host: Host, now: CalendarDate, value: Cell, rule: ColumnRule, column: string)
    requires rule.kind == StringKind || rule.kind.OtherKind?
    ensures ValidateValue(host, now, value, rule, column) == Ok(None)
  {
  }

  /** Boolean rule: a native boolean passes; a string passes exactly when it is
      yes or no in any case, otherwise "must be Yes or No"; a number throws. */
  lemma BooleanRule(host: Host, now: CalendarDate, value: Cell, rule: ColumnRule, column: string)
    requires rule.kind == BooleanKind
    ensures value.Bool? ==> ValidateValue(host, now, value, rule, column) == Ok(None)
    ensures value.Str? ==>
      var s := value.text;
      ValidateValue(host, now, value, rule, column) ==
        if (|s| == 3 && s[0] in "yY" && s[1] in "eE" && s[2] in "sS") || (|s| == 2 && s[0] in "nN" && s[1] in "oO")
        then Ok(None) else Ok(Some(column + " must be Yes or No"))
    ensures value.Num? ==> ValidateValue(host, now, value, rule, column) == Err(LowerCaseOfNonString)
  {
    if value.Str? {
      LowerIsYes(value.text);
      LowerIsNo(value.text);
    }
  }

  /** Date rule: an unparseable value fails with "must be a valid date"; a
      failing predicate yields the rule's message or "validation failed". */
  lemma DateRule(host: Host, now: CalendarDate, value: Cell, rule: ColumnRule, column: string)
    requires rule.kind == DateKind
    ensures host.dateOf(value).None? ==>
      ValidateValue(host, now, value, rule, column) == Ok(Some(column + " must be a valid date"))
    ensures host.dateOf(value).Some? ==>
      ValidateValue(host, now, value, rule, column) ==
        if rule.validate.Some? && !Accepts(rule.validate.value, host.dateOf(value).value, now)
        then Ok(Some(if rule.errorMessage.Some? && rule.errorMessage.value != "" then rule.errorMessage.value
                     else column + " validation failed"))
        else Ok(None)
  {
  }

  /** With the registry's `min: 0`, an amount of 0 passes. */
  lemma ZeroAmountPasses(host: Host, now: CalendarDate)
    ensures ValidateValue(host, now, Num(0.0), AmountRule, "Amount") == Ok(None)
    ensures ValidateValue(host, now, Num(-0.5), AmountRule, "Amount") == Ok(Some("Amount must be greater than 0"))
  {
    assert DigitChar(0) == '0';
    assert IntToString(0) == "0";
    assert AmountRule.kind == NumberKind && AmountRule.min == Some(0);
    assert "Amount" + " must be greater than " + "0" == "Amount must be greater than 0";
  }

  /** A sheet name that is neither registered nor inherited is checked with `default`. */
  lemma UnknownSheetUsesDefault(host: Host, now: CalendarDate, rows: seq<Row>, sheetName: string)
    requires sheetName !in Registry && sheetName !in InheritedMembers
    ensures SheetReportOf(host, now, rows, sheetName) == SheetReportOf(host, now, rows, "default")
  {
  }
}
