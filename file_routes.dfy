/** The logic inside three HTTP handlers: the hard-coded checker of
    `/validate`, the batching loop of `/import` and the offset and page-count
    arithmetic of `/records`. The handlers' HTTP plumbing is not modelled. */
module FileRoutes {
  import opened Wrappers
  import opened Text
  import opened Calendar
  import opened Cells

  // ------------------------------------------------------------------
  // POST /validate
  // ------------------------------------------------------------------

  const RequiredColumns: seq<string> := ["Name", "Amount", "Date", "Verified"]

  /** `xs` occurs in `ys` in the same order, possibly with gaps. */
  predicate Subsequence(xs: seq<string>, ys: seq<string>)
    decreases |ys|
  {
    if xs == [] then true
    else if ys == [] then false
    else if xs[0] == ys[0] then Subsequence(xs[1..], ys[1..])
    else Subsequence(xs, ys[1..])
  }

  /** `requiredColumns.filter(col => !(col in firstRow))`. */
  function MissingColumns(columns: seq<string>, firstRow: Row): (r: seq<string>)
    ensures forall c :: c in r <==> c in columns && c !in firstRow
    ensures Subsequence(r, columns)
    decreases |columns|
  {
    if columns == [] then []
    else if columns[0] !in firstRow then [columns[0]] + MissingColumns(columns[1..], firstRow)
    else MissingColumns(columns[1..], firstRow)
  }

  /** `new Date('2025-01-26T18:39:26+05:30')` read in local time: the instant is
      13:09 UTC, a day of January 2025 in every time zone (26 January in most, 27
      January from UTC+11 east). Only its month and year are used. */
  const Now: CalendarDate := Date(2025, 1, 26)

  /** `new Date(currentYear, currentMonth, 1)`. */
  function StartOfMonth(): CalendarDate {
    NewDate(Now.year, Now.month - 1, 1)
  }

  /** `new Date(currentYear, currentMonth + 1, 0)`. */
  function EndOfMonth(): CalendarDate {
    NewDate(Now.year, Now.month - 1 + 1, 0)
  }

  /** The window is 1 to 31 January 2025, both included. */
  lemma MonthWindow()
    ensures StartOfMonth() == Date(2025, 1, 1)
    ensures EndOfMonth() == Date(2025, 1, 31)
  {
    NewDateRoundTrip(2025, 1, 1);
    NewDateDayZero(2025, 1);
  }

  /** `Row ${rowNum}: `. */
  function RowPrefix(n: nat): string {
    "Row " + NatToString(n) + ": "
  }

  /** `if (!row['Name'])`. */
  function NameMessage(v: Option<Cell>): Option<string> {
    if !Truthy(v) then Some("Name is required") else None
  }

  /** The Amount chain: falsy, then `isNaN`, then `parseFloat(...) <= 0`
      (a NaN from `parseFloat` is not `<= 0`). */
  function AmountMessage(host: Host, v: Option<Cell>): Option<string> {
    if !Truthy(v) then Some("Amount is required")
    else if NumberOf(host, v.value).None? then Some("Amount must be a number")
    else if ParseFloat(host, v.value).Some? && ParseFloat(host, v.value).value <= 0.0
    then Some("Amount must be greater than zero")
    else None
  }

  /** `/^(\d{2})\.(\d{2})\.(\d{2})$/`, with each group read by `parseInt`. */
  function MatchDate(s: string): Option<(nat, nat, nat)> {
    if |s| == 8 && IsDigit(s[0]) && IsDigit(s[1]) && s[2] == '.' && IsDigit(s[3]) && IsDigit(s[4])
       && s[5] == '.' && IsDigit(s[6]) && IsDigit(s[7])
    then Some((DigitValue(s[0]) * 10 + DigitValue(s[1]),
               DigitValue(s[3]) * 10 + DigitValue(s[4]),
               DigitValue(s[6]) * 10 + DigitValue(s[7])))
    else None
  }

  /** `row['Date'].toString()` matched against the pattern. A number's numeral
      holds at most one '.', and a boolean reads "true", so only strings can match. */
  function MatchDateCell(c: Cell): Option<(nat, nat, nat)> {
    if c.Str? then MatchDate(c.text) else None
  }

  /** Two decimal digits with a leading zero. */
  function TwoDigits(n: nat): string
    requires n < 100
  {
    [DigitChar(n / 10), DigitChar(n % 10)]
  }

  /** The DD.MM.YY text of a (day, month, year) triple. */
  function FormatDate(d: nat, m: nat, y: nat): string
    requires d < 100 && m < 100 && y < 100
  {
    TwoDigits(d) + "." + TwoDigits(m) + "." + TwoDigits(y)
  }

  /** The pattern reads back every formatted triple. */
  lemma FormatThenMatch(d: nat, m: nat, y: nat)
    requires d < 100 && m < 100 && y < 100
    ensures MatchDate(FormatDate(d, m, y)) == Some((d, m, y))
  {
    var f := FormatDate(d, m, y);
    assert f[0] == DigitChar(d / 10) && f[1] == DigitChar(d % 10) && f[2] == '.';
    assert f[3] == DigitChar(m / 10) && f[4] == DigitChar(m % 10) && f[5] == '.';
    assert f[6] == DigitChar(y / 10) && f[7] == DigitChar(y % 10);
  }

  /** A text the pattern matches is the format of the triple it reads. */
  lemma MatchThenFormat(s: string)
    requires MatchDate(s).Some?
    ensures var t := MatchDate(s).value;
      t.0 < 100 && t.1 < 100 && t.2 < 100 && FormatDate(t.0, t.1, t.2) == s
  {
    var t := MatchDate(s).value;
    var g := FormatDate(t.0, t.1, t.2);
    DigitCharOfValue(s[0]);
    DigitCharOfValue(s[1]);
    DigitCharOfValue(s[3]);
    DigitCharOfValue(s[4]);
    DigitCharOfValue(s[6]);
    DigitCharOfValue(s[7]);
    assert g[0] == s[0] && g[1] == s[1] && g[3] == s[3] && g[4] == s[4] && g[6] == s[6] && g[7] == s[7];
  }

  lemma DigitCharOfValue(c: char)
    requires IsDigit(c)
    ensures DigitChar(DigitValue(c)) == c
  {
  }

  /** The checks on a matched (day, month, two-digit year): the calendar round
      trip of `new Date(fullYear, month - 1, day)`, then the month window. */
  function TripleMessage(day: nat, month: nat, year: nat): Option<string> {
    var fullYear := 2000 + year;
    var date := NewDate(fullYear, month - 1, day);
    if date.day != day || date.month - 1 != month - 1 || date.year != fullYear
    then Some("Invalid date value")
    else if Before(date, StartOfMonth()) || Before(EndOfMonth(), date)
    then Some("Date must be within the current month (January 2025)")
    else None
  }

  /** The Date checks: required, format, then the matched triple. */
  function DateMessage(v: Option<Cell>): Option<string> {
    if !Truthy(v) then Some("Date is required")
    else
      match MatchDateCell(v.value)
      case None => Some("Date must be in DD.MM.YY format")
      case Some((day, month, year)) => TripleMessage(day, month, year)
  }

  /** A matched triple fails the round trip exactly when it names no calendar day. */
  lemma TripleRoundTrip(day: nat, month: nat, year: nat)
    ensures TripleMessage(day, month, year) == Some("Invalid date value") <==> !Valid(Date(2000 + year, month, day))
  {
    NewDateRoundTrip(2000 + year, month, day);
  }

  /** A matched triple passes exactly when it is a day of January 2025. */
  lemma TripleAccepted(day: nat, month: nat, year: nat)
    ensures TripleMessage(day, month, year) == None <==> month == 1 && year == 25 && 1 <= day <= 31
  {
    MonthWindow();
    NewDateRoundTrip(2000 + year, month, day);
  }

  /** `row['Verified'] && !['Yes', 'No'].includes(row['Verified'])`. */
  function VerifiedMessage(v: Option<Cell>): Option<string> {
    if Truthy(v) && v.value != Str("Yes") && v.value != Str("No")
    then Some("Verified must be either 'Yes' or 'No'") else None
  }

  function Tagged(n: nat, m: Option<string>): seq<string> {
    if m.Some? then [RowPrefix(n) + m.value] else []
  }

  /** What one iteration of the `forEach` pushes for the row numbered `n`. */
  function RowMessages(host: Host, row: Row, n: nat): seq<string> {
    Tagged(n, NameMessage(Get(row, "Name"))) +
    Tagged(n, AmountMessage(host, Get(row, "Amount"))) +
    Tagged(n, DateMessage(Get(row, "Date"))) +
    Tagged(n, VerifiedMessage(Get(row, "Verified")))
  }

  /** The messages of all rows; row `i` is numbered `i + 1`. */
  function AllMessages(host: Host, data: seq<Row>): seq<string>
    decreases |data|
  {
    if data == [] then []
    else AllMessages(host, data[..|data| - 1]) + RowMessages(host, data[|data| - 1], |data|)
  }

  /** The handler's replies: 400 for no data, otherwise `success` and `errors`. */
  datatype ValidateReply = NoData | Reply(success: bool, errors: seq<string>)

  function ValidateReplyOf(host: Host, data: seq<Row>): (r: ValidateReply)
    ensures r.NoData? <==> data == []
    ensures r.Reply? ==> (r.success <==> r.errors == [])
  {
    if data == [] then NoData
    else
      var missing := MissingColumns(RequiredColumns, data[0]);
      if missing != [] then Reply(false, ["Missing required columns: " + Join(missing, ", ")])
      else
        var errors := AllMessages(host, data);
        Reply(errors == [], errors)
  }

  /** The `forEach` callback: push a message for each failed check of the row
      numbered `rowNum`. */
  method CheckRow(host: Host, row: Row, rowNum: nat, errors: seq<string>) returns (out: seq<string>)
    ensures out == errors + RowMessages(host, row, rowNum)
  {
    var prefix := RowPrefix(rowNum);
    var name := NameMessage(Get(row, "Name"));
    var amount := AmountMessage(host, Get(row, "Amount"));
    var date := DateMessage(Get(row, "Date"));
    var verified := VerifiedMessage(Get(row, "Verified"));
    out := errors;
    if name.Some? {
      out := out + [prefix + name.value];
    }
    ghost var afterName := out;
    if amount.Some? {
      out := out + [prefix + amount.value];
    }
    ghost var afterAmount := out;
    if date.Some? {
      out := out + [prefix + date.value];
    }
    ghost var afterDate := out;
    if verified.Some? {
      out := out + [prefix + verified.value];
    }
    assert afterName == errors + Tagged(rowNum, name);
    assert afterAmount == afterName + Tagged(rowNum, amount);
    assert afterDate == afterAmount + Tagged(rowNum, date);
    assert out == afterDate + Tagged(rowNum, verified);
    AppendFour(errors, Tagged(rowNum, name), Tagged(rowNum, amount), Tagged(rowNum, date), Tagged(rowNum, verified));
    assert RowMessages(host, row, rowNum) == Tagged(rowNum, name) + Tagged(rowNum, amount) + Tagged(rowNum, date) + Tagged(rowNum, verified);
  }

  lemma AppendFour(e: seq<string>, a: seq<string>, b: seq<string>, c: seq<string>, d: seq<string>)
    ensures e + (a + b + c + d) == e + a + b + c + d
  {
  }

  /** The `/validate` handler body: the column check on the first row, then the
      `forEach` that pushes each failed check of each row. */
  method ValidateData(host: Host, data: seq<Row>) returns (reply: ValidateReply)
    ensures reply == ValidateReplyOf(host, data)
  {
    if |data| == 0 {
      return NoData;
    }
    var firstRow := data[0];
    var missingColumns := MissingColumns(RequiredColumns, firstRow);
    if |missingColumns| > 0 {
      return Reply(false, ["Missing required columns: " + Join(missingColumns, ", ")]);
    }
    var errors: seq<string> := [];
    for index := 0 to |data|
      invariant errors == AllMessages(host, data[..index])
    {
      assert data[..index + 1][..index] == data[..index];
      errors := CheckRow(host, data[index], index + 1, errors);
    }
    assert data[..|data|] == data;
    if |errors| > 0 {
      return Reply(false, errors);
    }
    reply := Reply(true, errors);
  }

  /** When the first row lacks required columns the reply is one error naming
      them in the fixed order, and no row is checked: the rest of the data is irrelevant. */
  lemma MissingColumnsShortCircuit(host: Host, data: seq<Row>)
    requires data != [] && MissingColumns(RequiredColumns, data[0]) != []
    ensures var missing := MissingColumns(RequiredColumns, data[0]);
      ValidateReplyOf(host, data) == Reply(false, ["Missing required columns: " + Join(missing, ", ")]) &&
      Subsequence(missing, RequiredColumns) &&
      (forall c :: c in missing <==> c in RequiredColumns && c !in data[0])
    ensures ValidateReplyOf(host, data) == ValidateReplyOf(host, data[..1])
  {
  }

  /** The column check looks only at the keys of the first row (a key with an
      empty value counts as present), so a later row without them is checked row by row. */
  lemma ColumnsCheckedOnFirstRowOnly(host: Host, data: seq<Row>)
    requires data != [] && forall c :: c in RequiredColumns ==> c in data[0]
    ensures ValidateReplyOf(host, data) == Reply(AllMessages(host, data) == [], AllMessages(host, data))
  {
    NoMissingColumns(data[0]);
  }

  lemma NoMissingColumns(firstRow: Row)
    requires forall c :: c in RequiredColumns ==> c in firstRow
    ensures MissingColumns(RequiredColumns, firstRow) == []
  {
  }

  /** The digits at the head of `s`. */
  function LeadingDigits(s: string): (d: string)
    ensures AllDigits(d) && d <= s
    ensures |d| < |s| ==> !IsDigit(s[|d|])
    decreases |s|
  {
    if s == [] || !IsDigit(s[0]) then [] else [s[0]] + LeadingDigits(s[1..])
  }

  /** The row number a message starts with, if it starts with `Row <digits>: `. */
  function RowNumberOf(msg: string): Option<nat> {
    if |msg| < 4 || msg[..4] != "Row " then None
    else
      var digits := LeadingDigits(msg[4..]);
      var after := msg[4 + |digits|..];
      if digits != [] && |after| >= 2 && after[..2] == ": " then Some(DigitsValue(digits)) else None
  }

  /** The row number can be read back from every message the checker writes. */
  lemma RowPrefixRoundTrip(n: nat, text: string)
    ensures RowNumberOf(RowPrefix(n) + text) == Some(n)
  {
    var msg := RowPrefix(n) + text;
    var numeral := NatToString(n);
    assert msg == "Row " + (numeral + ": " + text);
    assert msg[..4] == "Row ";
    var tail := msg[4..];
    assert tail == numeral + ": " + text;
    var digits := LeadingDigits(tail);
    assert tail[|numeral|] == ':';
    assert digits == numeral;
    assert msg[4 + |digits|..] == ": " + text;
    NatToStringRoundTrip(n);
  }

  /** Every message a row yields carries that row's number; a row yields at most
      one message per checked column. */
  lemma RowMessagesNumbered(host: Host, row: Row, n: nat)
    ensures |RowMessages(host, row, n)| <= 4
    ensures forall k :: 0 <= k < |RowMessages(host, row, n)| ==> RowNumberOf(RowMessages(host, row, n)[k]) == Some(n)
  {
    var ms := RowMessages(host, row, n);
    forall k | 0 <= k < |ms| ensures RowNumberOf(ms[k]) == Some(n) {
      var text := ms[k][|RowPrefix(n)|..];
      assert ms[k] == RowPrefix(n) + text;
      RowPrefixRoundTrip(n, text);
    }
  }

  /** Every message carries a row number from 1 to `rows`. */
  predicate NumberedWithin(ms: seq<string>, rows: nat) {
    forall k :: 0 <= k < |ms| ==> RowNumberOf(ms[k]).Some? && 1 <= RowNumberOf(ms[k]).value <= rows
  }

  /** The row numbers of the messages never decrease. */
  predicate NumberedInOrder(ms: seq<string>) {
    forall k, l :: 0 <= k < l < |ms| ==>
      RowNumberOf(ms[k]).Some? && RowNumberOf(ms[l]).Some? && RowNumberOf(ms[k]).value <= RowNumberOf(ms[l]).value
  }

  /** Appending the messages of row `rows` to those of the rows before it keeps
      the numbering within bounds and in order. */
  lemma NumberedSnoc(prior: seq<string>, last: seq<string>, rows: nat)
    requires rows >= 1 && NumberedWithin(prior, rows - 1) && NumberedInOrder(prior)
    requires forall k :: 0 <= k < |last| ==> RowNumberOf(last[k]) == Some(rows)
    ensures NumberedWithin(prior + last, rows) && NumberedInOrder(prior + last)
  {
    var ms := prior + last;
    forall k | 0 <= k < |ms|
      ensures RowNumberOf(ms[k]).Some? && 1 <= RowNumberOf(ms[k]).value <= rows
      ensures k >= |prior| ==> RowNumberOf(ms[k]) == Some(rows)
    {
      if k < |prior| {
        assert ms[k] == prior[k];
      } else {
        assert ms[k] == last[k - |prior|];
      }
    }
    forall k, l | 0 <= k < l < |ms|
      ensures RowNumberOf(ms[k]).Some? && RowNumberOf(ms[l]).Some? &&
              RowNumberOf(ms[k]).value <= RowNumberOf(ms[l]).value
    {
      if l < |prior| {
        assert ms[k] == prior[k] && ms[l] == prior[l];
      }
    }
  }

  /** Messages are numbered index + 1 and appear in row order. */
  lemma {:induction false} MessageRowNumbers(host: Host, data: seq<Row>)
    ensures NumberedWithin(AllMessages(host, data), |data|)
    ensures NumberedInOrder(AllMessages(host, data))
    decreases |data|
  {
    if data != [] {
      var init := data[..|data| - 1];
      MessageRowNumbers(host, init);
      var last := RowMessages(host, data[|data| - 1], |data|);
      RowMessagesNumbered(host, data[|data| - 1], |data|);
      NumberedSnoc(AllMessages(host, init), last, |data|);
    }
  }

  /** A row passes the checker exactly when all four checks pass. */
  predicate RowAccepted(host: Host, row: Row) {
    NameMessage(Get(row, "Name")) == None && AmountMessage(host, Get(row, "Amount")) == None &&
    DateMessage(Get(row, "Date")) == None && VerifiedMessage(Get(row, "Verified")) == None
  }

  /** `success` holds exactly when there is data, the first row has the four
      columns, and every row is accepted. */
  lemma {:induction false} ValidateSuccess(host: Host, data: seq<Row>)
    ensures ValidateReplyOf(host, data) == Reply(true, []) <==>
      data != [] && (forall c :: c in RequiredColumns ==> c in data[0]) &&
      forall i :: 0 <= i < |data| ==> RowAccepted(host, data[i])
  {
    AllMessagesEmpty(host, data);
    if data != [] {
      var missing := MissingColumns(RequiredColumns, data[0]);
      if missing != [] {
        assert missing[0] in missing;
      }
    }
  }

  lemma {:induction false} AllMessagesEmpty(host: Host, data: seq<Row>)
    ensures AllMessages(host, data) == [] <==> forall i :: 0 <= i < |data| ==> RowAccepted(host, data[i])
    decreases |data|
  {
    if data != [] {
      var init := data[..|data| - 1];
      AllMessagesEmpty(host, init);
      RowMessagesEmpty(host, data[|data| - 1], |data|);
      AllRowsSnoc(host, init, data);
    }
  }

  lemma RowMessagesEmpty(host: Host, row: Row, n: nat)
    ensures RowMessages(host, row, n) == [] <==> RowAccepted(host, row)
  {
  }

  lemma AllRowsSnoc(host: Host, init: seq<Row>, data: seq<Row>)
    requires data != [] && init == data[..|data| - 1]
    ensures (forall i :: 0 <= i < |data| ==> RowAccepted(host, data[i])) <==>
      (forall i :: 0 <= i < |init| ==> RowAccepted(host, init[i])) && RowAccepted(host, data[|data| - 1])
  {
    assert forall i :: 0 <= i < |init| ==> init[i] == data[i];
  }

  /** Amount: a falsy value (0 included) is "required", a value `Number` cannot
      read is "must be a number", a non-positive number is "greater than zero".
      The fixture that labels a 0 amount "must be greater than zero" gets "required". */
  lemma AmountOutcomes(host: Host, x: real, s: string)
    ensures AmountMessage(host, None) == Some("Amount is required")
    ensures AmountMessage(host, Some(Num(0.0))) == Some("Amount is required")
    ensures x < 0.0 ==> AmountMessage(host, Some(Num(x))) == Some("Amount must be greater than zero")
    ensures x > 0.0 ==> AmountMessage(host, Some(Num(x))) == None
    ensures AmountMessage(host, Some(Str(""))) == Some("Amount is required")
    ensures s != "" && host.numberOf(s).None? ==> AmountMessage(host, Some(Str(s))) == Some("Amount must be a number")
    ensures s != "" && host.numberOf(s).Some? && host.parseFloatOf(s).Some? && host.parseFloatOf(s).value <= 0.0 ==>
      AmountMessage(host, Some(Str(s))) == Some("Amount must be greater than zero")
    ensures s != "" && host.numberOf(s).Some? && (host.parseFloatOf(s).None? || host.parseFloatOf(s).value > 0.0) ==>
      AmountMessage(host, Some(Str(s))) == None
    ensures AmountMessage(host, Some(Bool(true))) == None
    ensures AmountMessage(host, Some(Bool(false))) == Some("Amount is required")
  {
  }

  /** The Date checks in order: a falsy value is required, a value the pattern does not
      match gets the format message, and a matched triple gets that triple's message. */
  lemma DateOutcomes(v: Option<Cell>, day: nat, month: nat, year: nat)
    ensures !Truthy(v) ==> DateMessage(v) == Some("Date is required")
    ensures Truthy(v) && MatchDateCell(v.value).None? ==> DateMessage(v) == Some("Date must be in DD.MM.YY format")
    ensures Truthy(v) && MatchDateCell(v.value) == Some((day, month, year)) ==>
      DateMessage(v) == TripleMessage(day, month, year)
  {
  }

  /** A matched triple gets the window message exactly when it is a calendar day outside January 2025. */
  lemma TripleOutsideWindow(day: nat, month: nat, year: nat)
    ensures TripleMessage(day, month, year) == Some("Date must be within the current month (January 2025)") <==>
      Valid(Date(2000 + year, month, day)) && !(month == 1 && year == 25)
  {
    TripleRoundTrip(day, month, year);
    TripleAccepted(day, month, year);
  }

  /** A Date string is accepted exactly when it is DD.01.25 for a day from 01 to 31. */
  lemma DateAccepted(s: string)
    ensures DateMessage(Some(Str(s))) == None <==> exists d :: 1 <= d <= 31 && s == FormatDate(d, 1, 25)
  {
    if DateMessage(Some(Str(s))) == None {
      var t := MatchDate(s).value;
      MatchThenFormat(s);
      TripleAccepted(t.0, t.1, t.2);
      assert s == FormatDate(t.0, 1, 25);
    }
    if exists d :: 1 <= d <= 31 && s == FormatDate(d, 1, 25) {
      var d :| 1 <= d <= 31 && s == FormatDate(d, 1, 25);
      FormatThenMatch(d, 1, 25);
      TripleAccepted(d, 1, 25);
    }
  }

  /** The last day of January is inside the window. */
  lemma LastDayOfJanuaryAccepted()
    ensures DateMessage(Some(Str("31.01.25"))) == None
  {
    FormatThenMatch(31, 1, 25);
    assert MatchDate("31.01.25") == Some((31, 1, 25));
    TripleAccepted(31, 1, 25);
  }

  /** The first of February is a valid date outside the window. */
  lemma FirstOfFebruaryOutsideWindow()
    ensures DateMessage(Some(Str("01.02.25"))) == Some("Date must be within the current month (January 2025)")
  {
    FormatThenMatch(1, 2, 25);
    assert MatchDate("01.02.25") == Some((1, 2, 25));
    TripleRoundTrip(1, 2, 25);
    TripleAccepted(1, 2, 25);
  }

  /** 31 February fails the calendar round trip. */
  lemma ThirtyFirstOfFebruaryInvalid()
    ensures DateMessage(Some(Str("31.02.25"))) == Some("Invalid date value")
  {
    FormatThenMatch(31, 2, 25);
    assert MatchDate("31.02.25") == Some((31, 2, 25));
    TripleRoundTrip(31, 2, 25);
  }

  /** An ISO date and a spreadsheet serial number fail the pattern. */
  lemma DateFormatExamples()
    ensures DateMessage(Some(Str("2025-01-24"))) == Some("Date must be in DD.MM.YY format")
    ensures DateMessage(Some(Num(45678.0))) == Some("Date must be in DD.MM.YY format")
  {
  }

  /** Verified: absent or falsy passes, otherwise only exactly "Yes" or "No". */
  lemma VerifiedCaseSensitive(v: Option<Cell>)
    ensures VerifiedMessage(v) == None <==> !Truthy(v) || v == Some(Str("Yes")) || v == Some(Str("No"))
    ensures VerifiedMessage(Some(Str("yes"))) == Some("Verified must be either 'Yes' or 'No'")
  {
  }

  /** A January 2025 day in DD.MM.YY form passes the Date checks. */
  lemma JanuaryDay(d: nat)
    requires 1 <= d <= 31
    ensures DateMessage(Some(Str(FormatDate(d, 1, 25)))) == None
  {
    DateAccepted(FormatDate(d, 1, 25));
  }

  /** A row with a name, a positive amount, a January 2025 date and Yes or No has no message. */
  lemma CleanRow(host: Host, row: Row, n: nat, amount: real, d: nat)
    requires Truthy(Get(row, "Name")) && Get(row, "Amount") == Some(Num(amount)) && amount > 0.0
    requires 1 <= d <= 31 && Get(row, "Date") == Some(Str(FormatDate(d, 1, 25)))
    requires Get(row, "Verified") in {Some(Str("Yes")), Some(Str("No"))}
    ensures RowMessages(host, row, n) == []
  {
    JanuaryDay(d);
  }

  /** The checker's messages are the rows' own messages, concatenated in row order. */
  lemma {:induction false} AllMessagesOfRows(host: Host, rows: seq<Row>, expected: seq<seq<string>>)
    requires |rows| == |expected|
    requires forall i :: 0 <= i < |rows| ==> RowMessages(host, rows[i], i + 1) == expected[i]
    ensures AllMessages(host, rows) == Flatten(expected)
    decreases |rows|
  {
    if rows != [] {
      var n := |rows| - 1;
      AllMessagesOfRows(host, rows[..n], expected[..n]);
      FlattenSnoc(expected[..n], expected[n]);
      assert expected[..n] + [expected[n]] == expected;
    }
  }

  // ------------------------------------------------------------------
  // POST /import
  // ------------------------------------------------------------------

  const BatchSize: nat := 100

  datatype ImportReply = NoRecords | Imported(imported: nat, total: nat)

  /** `records.map(record => ({...record, sheetName}))`. */
  function WithSheetName(records: seq<Record>, sheetName: Cell): (r: seq<Record>)
    ensures |r| == |records|
    ensures forall k :: 0 <= k < |r| ==>
      r[k].Keys == records[k].Keys + {"sheetName"} && r[k]["sheetName"] == sheetName
    ensures forall k, f :: 0 <= k < |r| && f in records[k] && f != "sheetName" ==> r[k][f] == records[k][f]
  {
    seq(|records|, k requires 0 <= k < |records| => records[k]["sheetName" := sheetName])
  }

  function Min(a: int, b: int): int {
    if a <= b then a else b
  }

  /** The consecutive slices `s.slice(i, i + size)` for i = 0, size, 2 * size, ... */
  function Batches<T>(s: seq<T>, size: nat): (bs: seq<seq<T>>)
    requires size > 0
    ensures forall k :: 0 <= k < |bs| ==> 1 <= |bs[k]| <= size
    decreases |s|
  {
    if s == [] then []
    else if |s| <= size then [s]
    else [s[..size]] + Batches(s[size..], size)
  }

  function Flatten<T>(bs: seq<seq<T>>): seq<T>
    decreases |bs|
  {
    if bs == [] then [] else bs[0] + Flatten(bs[1..])
  }

  lemma {:induction false} FlattenSnoc<T>(bs: seq<seq<T>>, b: seq<T>)
    ensures Flatten(bs + [b]) == Flatten(bs) + b
    decreases |bs|
  {
    if bs != [] {
      assert (bs + [b])[1..] == bs[1..] + [b];
      FlattenSnoc(bs[1..], b);
    }
  }

  /** The batches cover the records, in order, with nothing repeated. */
  lemma {:induction false} BatchesCover<T>(s: seq<T>, size: nat)
    requires size > 0
    ensures Flatten(Batches(s, size)) == s
    decreases |s|
  {
    if |s| > size {
      BatchesCover(s[size..], size);
      assert Batches(s, size)[1..] == Batches(s[size..], size);
      assert s[..size] + s[size..] == s;
    }
  }

  /** Batch `k` is the slice from `k * size`, and every batch but the last is full. */
  lemma {:induction false} BatchesAreSlices<T>(s: seq<T>, size: nat, k: nat)
    requires size > 0 && k < |Batches(s, size)|
    ensures k * size < |s|
    ensures Batches(s, size)[k] == s[k * size..Min(k * size + size, |s|)]
    ensures k < |Batches(s, size)| - 1 ==> |Batches(s, size)[k]| == size
    decreases |s|
  {
    if k > 0 {
      assert |s| > size;
      assert Batches(s, size)[k] == Batches(s[size..], size)[k - 1];
      BatchesAreSlices(s[size..], size, k - 1);
      var before := (k - 1) * size;
      MulSucc(k, size);
      assert k * size == size + before;
      SliceOfSuffix(s, size, before, Min(before + size, |s| - size));
    }
  }

  lemma SliceOfSuffix<T>(s: seq<T>, start: nat, from: nat, to: nat)
    requires start <= |s| && from <= to <= |s| - start
    ensures s[start..][from..to] == s[start + from..start + to]
  {
  }

  lemma MulSucc(k: nat, size: nat)
    requires k > 0
    ensures k * size == size + (k - 1) * size
  {
  }

  /** There are ceil(|s| / size) batches. */
  lemma {:induction false} BatchesCount<T>(s: seq<T>, size: nat)
    requires size > 0
    ensures |Batches(s, size)| == CeilDiv(|s|, size)
    decreases |s|
  {
    if |s| > size {
      BatchesCount(s[size..], size);
      CeilDivStep(|s|, size);
    } else if s != [] {
      CeilDivOfAtMost(|s|, size);
    }
  }

  /** Taking the slice at `i` leaves the batches of what follows it. */
  lemma BatchesStep<T>(s: seq<T>, i: nat, size: nat)
    requires size > 0 && i < |s|
    ensures i + size <= |s| ==> Batches(s[i..], size) == [s[i..Min(i + size, |s|)]] + Batches(s[i + size..], size)
    ensures i + size > |s| ==> Batches(s[i..], size) == [s[i..Min(i + size, |s|)]]
  {
    var rest := s[i..];
    if |rest| > size {
      assert rest[..size] == s[i..i + size];
      assert rest[size..] == s[i + size..];
    } else {
      assert s[i..Min(i + size, |s|)] == rest;
      if i + size == |s| {
        assert s[i + size..] == [];
      }
    }
  }

  /** One turn of the import loop keeps "the batches sent so far, then the
      batches of the rest, are the batches of the whole". */
  lemma BatchesInvariantStep<T>(s: seq<T>, size: nat, sent: seq<seq<T>>, i: nat)
    requires size > 0 && i < |s|
    requires Batches(s, size) == sent + Batches(s[i..], size)
    ensures i + size <= |s| ==>
      Batches(s, size) == (sent + [s[i..Min(i + size, |s|)]]) + Batches(s[i + size..], size)
    ensures i + size > |s| ==> Batches(s, size) == sent + [s[i..Min(i + size, |s|)]]
  {
    BatchesStep(s, i, size);
  }

  /** What `bulkCreate` returns for each batch, concatenated as `results.push(...imported)` does. */
  function CreatedBy(bulkCreate: seq<Record> -> seq<Record>, batches: seq<seq<Record>>): seq<Record>
    decreases |batches|
  {
    if batches == [] then [] else bulkCreate(batches[0]) + CreatedBy(bulkCreate, batches[1..])
  }

  lemma {:induction false} CreatedByAppend(bulkCreate: seq<Record> -> seq<Record>, batches: seq<seq<Record>>,
                                           batch: seq<Record>)
    ensures CreatedBy(bulkCreate, batches + [batch]) == CreatedBy(bulkCreate, batches) + bulkCreate(batch)
    decreases |batches|
  {
    if batches != [] {
      assert (batches + [batch])[1..] == batches[1..] + [batch];
      CreatedByAppend(bulkCreate, batches[1..], batch);
    }
  }

  /** The `/import` handler body: tag each record with the sheet name and hand
      consecutive batches of at most 100 to `bulkCreate`; `batches` is the
      sequence of arguments it was called with. */
  method ImportRecords(records: seq<Record>, sheetName: Cell, bulkCreate: seq<Record> -> seq<Record>)
    returns (reply: ImportReply, batches: seq<seq<Record>>)
    ensures records == [] ==> reply == NoRecords && batches == []
    ensures records != [] ==>
      batches == Batches(WithSheetName(records, sheetName), BatchSize) &&
      reply == Imported(|CreatedBy(bulkCreate, batches)|, |records|)
  {
    if |records| == 0 {
      return NoRecords, [];
    }
    var recordsWithSheet := WithSheetName(records, sheetName);
    var results: seq<Record> := [];
    batches := [];
    var i := 0;
    assert recordsWithSheet[0..] == recordsWithSheet;
    while i < |recordsWithSheet|
      invariant 0 <= i
      invariant i <= |recordsWithSheet| ==>
        Batches(recordsWithSheet, BatchSize) == batches + Batches(recordsWithSheet[i..], BatchSize)
      invariant i > |recordsWithSheet| ==> Batches(recordsWithSheet, BatchSize) == batches
      invariant results == CreatedBy(bulkCreate, batches)
      decreases |recordsWithSheet| - i
    {
      var batch := recordsWithSheet[i..Min(i + BatchSize, |recordsWithSheet|)];
      var imported := bulkCreate(batch);
      CreatedByAppend(bulkCreate, batches, batch);
      results := results + imported;
      BatchesInvariantStep(recordsWithSheet, BatchSize, batches, i);
      batches := batches + [batch];
      i := i + BatchSize;
    }
    if i == |recordsWithSheet| {
      assert recordsWithSheet[i..] == [];
    }
    reply := Imported(|results|, |records|);
  }

  /** The sum over the batches of the number of rows `bulkCreate` returned. */
  function ResultCount(bulkCreate: seq<Record> -> seq<Record>, batches: seq<seq<Record>>): nat
    decreases |batches|
  {
    if batches == [] then 0 else |bulkCreate(batches[0])| + ResultCount(bulkCreate, batches[1..])
  }

  /** `imported` is the sum of the batch results' sizes. */
  lemma {:induction false} ImportedIsSum(bulkCreate: seq<Record> -> seq<Record>, batches: seq<seq<Record>>)
    ensures |CreatedBy(bulkCreate, batches)| == ResultCount(bulkCreate, batches)
    decreases |batches|
  {
    if batches != [] {
      ImportedIsSum(bulkCreate, batches[1..]);
    }
  }

  /** When `bulkCreate` stores every record it is given, `imported` equals `total`. */
  lemma {:induction false} ImportedAll(bulkCreate: seq<Record> -> seq<Record>, s: seq<Record>)
    requires forall b :: |bulkCreate(b)| == |b|
    ensures |CreatedBy(bulkCreate, Batches(s, BatchSize))| == |s|
  {
    BatchesCover(s, BatchSize);
    CreatedLength(bulkCreate, Batches(s, BatchSize));
  }

  lemma {:induction false} CreatedLength(bulkCreate: seq<Record> -> seq<Record>, batches: seq<seq<Record>>)
    requires forall b :: |bulkCreate(b)| == |b|
    ensures |CreatedBy(bulkCreate, batches)| == |Flatten(batches)|
    decreases |batches|
  {
    if batches != [] {
      CreatedLength(bulkCreate, batches[1..]);
    }
  }

  // ------------------------------------------------------------------
  // GET /records
  // ------------------------------------------------------------------

  const DefaultPage := 1
  const DefaultLimit := 10

  /** `parseInt(x) || d`: NaN (`None`) and 0 are falsy. */
  function IntOr(parsed: Option<int>, d: int): (r: int)
    ensures parsed.Some? && parsed.value != 0 ==> r == parsed.value
    ensures parsed.None? || parsed == Some(0) ==> r == d
  {
    if parsed.Some? && parsed.value != 0 then parsed.value else d
  }

  /** `Math.ceil(a / b)`. */
  function CeilDiv(a: int, b: int): (q: int)
    requires b != 0
    ensures b > 0 ==> (q - 1) * b < a <= q * b
    ensures b < 0 ==> q * b <= a < (q - 1) * b
  {
    if b > 0 then (if a % b == 0 then a / b else a / b + 1)
    else -(a / -b)
  }

  lemma CeilDivStep(a: int, b: int)
    requires b > 0
    ensures CeilDiv(a, b) == CeilDiv(a - b, b) + 1
  {
    var q := CeilDiv(a, b);
    var p := CeilDiv(a - b, b);
    assert (p + 1) * b == p * b + b;
    assert (q - 1) * b < a <= q * b;
    assert p * b < a <= (p + 1) * b;
    MulUnique(q, p + 1, b, a);
  }

  /** Two quotients whose windows `((x - 1) * b, x * b]` share a point are equal. */
  lemma MulUnique(x: int, y: int, b: int, a: int)
    requires b > 0
    requires (x - 1) * b < a <= x * b
    requires (y - 1) * b < a <= y * b
    ensures x == y
  {
    if x < y {
      MulMono(x, y - 1, b);
    } else if y < x {
      MulMono(y, x - 1, b);
    }
  }

  lemma MulMono(x: int, y: int, b: int)
    requires x <= y && b > 0
    ensures x * b <= y * b
  {
    assert y * b - x * b == (y - x) * b;
  }

  lemma CeilDivOfAtMost(a: int, b: int)
    requires 0 < a <= b
    ensures CeilDiv(a, b) == 1
  {
  }

  datatype Paging = Paging(page: int, limit: int, offset: int)

  datatype PageInfo = PageInfo(currentPage: int, totalPages: int, totalRecords: nat)

  /** `page`, `limit` and `offset` from the parsed query parameters. */
  function PagingOf(pageParam: Option<int>, limitParam: Option<int>): (p: Paging)
    ensures p.page != 0 && p.limit != 0
    ensures pageParam.Some? && pageParam.value != 0 ==> p.page == pageParam.value
    ensures limitParam.Some? && limitParam.value != 0 ==> p.limit == limitParam.value
    ensures pageParam.None? || pageParam == Some(0) ==> p.page == DefaultPage
    ensures limitParam.None? || limitParam == Some(0) ==> p.limit == DefaultLimit
    ensures p.offset == (p.page - 1) * p.limit
  {
    var page := IntOr(pageParam, DefaultPage);
    var limit := IntOr(limitParam, DefaultLimit);
    Paging(page, limit, (page - 1) * limit)
  }

  /** The `pagination` object of the reply for `count` stored records. */
  function PageInfoOf(p: Paging, count: nat): PageInfo
    requires p.limit != 0
  {
    PageInfo(p.page, CeilDiv(count, p.limit), count)
  }

  /** Record `j` lies in page `page`'s window exactly when `j / limit == page - 1`. */
  lemma WindowOfIndex(page: int, limit: int, j: nat)
    requires page >= 1 && limit >= 1
    ensures (page - 1) * limit >= 0
    ensures (page - 1) * limit <= j < (page - 1) * limit + limit <==> j / limit == page - 1
  {
    MulMono(0, page - 1, limit);
    var q := j / limit;
    assert q * limit <= j < q * limit + limit;
    if q < page - 1 {
      MulMono(q + 1, page - 1, limit);
      assert (q + 1) * limit == q * limit + limit;
    } else if q > page - 1 {
      MulMono(page, q, limit);
      assert page * limit == (page - 1) * limit + limit;
    }
  }

  /** With positive parameters, page `p` holds exactly the records whose index
      `j` has `j / limit == p - 1`: consecutive pages tile the record order. */
  lemma PageWindow(pageParam: Option<int>, limitParam: Option<int>, j: nat)
    requires var p := PagingOf(pageParam, limitParam); p.page >= 1 && p.limit >= 1
    ensures var p := PagingOf(pageParam, limitParam);
      p.offset >= 0 && (p.offset <= j < p.offset + p.limit <==> j / p.limit == p.page - 1)
  {
    var p := PagingOf(pageParam, limitParam);
    WindowOfIndex(p.page, p.limit, j);
  }

  /** `totalPages` is the fewest pages of `limit` records that hold all `count`
      records; with no records it is 0. */
  lemma TotalPagesCover(p: Paging, count: nat)
    requires p.limit > 0
    ensures var t := PageInfoOf(p, count).totalPages;
      t >= 0 && count <= t * p.limit && (count > 0 ==> (t - 1) * p.limit < count) && (t == 0 <==> count == 0)
  {
    var t := PageInfoOf(p, count).totalPages;
    if t < 0 {
      MulMono(t, -1, p.limit);
    } else if t == 0 {
      assert t * p.limit == 0;
    }
  }

  /** The defaults: no (or a zero or non-numeric) parameter gives page 1 of 10 at offset 0. */
  lemma PagingDefaults()
    ensures PagingOf(None, None) == Paging(1, 10, 0)
    ensures PagingOf(Some(0), Some(0)) == Paging(1, 10, 0)
    ensures PagingOf(Some(3), None).offset == 20
  {
  }
}
