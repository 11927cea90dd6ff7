/** The rule registry: a rule set per sheet name, each an ordered list of
    column rules, with the date-window predicates and the boolean transform
    that the rules refer to. The current time is a parameter. */
module ValidationConfig {
  import opened Wrappers
  import opened Text
  import opened Calendar
  import opened Cells

  /** The `type` of a rule; only number, date and boolean have a check. */
  datatype Kind = StringKind | NumberKind | DateKind | BooleanKind | OtherKind(name: string)

  /** The `validate` predicates of the registry's date rules. */
  datatype DateCheck =
    | SameMonthAsNow      // same month and year as "now"
    | NotBeforeLastMonth  // on or after "now" with its month set one back

  /** The `transform` functions of the registry. */
  datatype Transform = YesToTrue  // `value?.toLowerCase() === 'yes'`

  datatype ColumnRule = ColumnRule(
    required: bool,
    kind: Kind,
    min: Option<int>,
    validate: Option<DateCheck>,
    errorMessage: Option<string>,
    transform: Option<Transform>,
    field: string)

  /** Column header and rule, in declaration order (the order of `Object.entries`). */
  type Columns = seq<(string, ColumnRule)>

  datatype RuleSet = RuleSet(columns: Columns)

  const NameRule := ColumnRule(true, StringKind, None, None, None, None, "name")
  const AmountRule := ColumnRule(true, NumberKind, Some(0), None, None, None, "amount")
  const DateRule := ColumnRule(true, DateKind, None, Some(SameMonthAsNow),
                               Some("Date must be within the current month"), None, "date")
  const VerifiedRule := ColumnRule(false, BooleanKind, None, None, None, Some(YesToTrue), "verified")
  const InvoiceDateRule := ColumnRule(true, DateKind, None, Some(NotBeforeLastMonth),
                                      Some("Date must not be older than previous month"), None, "date")
  const ReceiptDateRule := ColumnRule(false, DateKind, None, None, None, None, "receiptDate")

  const Default := RuleSet([("Name", NameRule), ("Amount", AmountRule),
                            ("Date", DateRule), ("Verified", VerifiedRule)])

  const SpecialSheet := RuleSet([("Name", NameRule), ("Amount", AmountRule),
                                 ("Invoice Date", InvoiceDateRule), ("Receipt Date", ReceiptDateRule),
                                 ("Verified", VerifiedRule)])

  /** The registry's own properties. */
  const Registry: map<string, RuleSet> := map["default" := Default, "specialSheet" := SpecialSheet]

  /** Property names every object literal inherits from `Object.prototype`;
      looking one of them up in the registry yields a function or an object, not a rule set. */
  const InheritedMembers: set<string> := {
    "constructor", "__proto__", "hasOwnProperty", "isPrototypeOf", "propertyIsEnumerable",
    "toString", "toLocaleString", "valueOf",
    "__defineGetter__", "__defineSetter__", "__lookupGetter__", "__lookupSetter__"
  }

  function Names(cs: Columns): (ns: seq<string>)
    ensures |ns| == |cs| && forall i :: 0 <= i < |cs| ==> ns[i] == cs[i].0
  {
    seq(|cs|, i requires 0 <= i < |cs| => cs[i].0)
  }

  predicate DistinctNames(cs: Columns) {
    forall i, j :: 0 <= i < j < |cs| ==> cs[i].0 != cs[j].0
  }

  predicate DistinctFields(cs: Columns) {
    forall i, j :: 0 <= i < j < |cs| ==> cs[i].1.field != cs[j].1.field
  }

  /** The `default` rule set: its columns, which are required, and their output fields. */
  lemma DefaultRuleSet()
    ensures "default" in Registry && Registry["default"] == Default
    ensures Names(Default.columns) == ["Name", "Amount", "Date", "Verified"]
    ensures forall i :: 0 <= i < 4 ==> Default.columns[i].1.required == (i < 3)
    ensures forall i :: 0 <= i < 4 ==>
      Default.columns[i].1.field == ["name", "amount", "date", "verified"][i]
    ensures Default.columns[1].1.min == Some(0)
    ensures Default.columns[2].1.errorMessage == Some("Date must be within the current month")
  {
  }

  /** The `specialSheet` rule set: `Invoice Date` feeds `date`, the optional
      `Receipt Date` feeds `receiptDate` and has no predicate. */
  lemma SpecialSheetRuleSet()
    ensures "specialSheet" in Registry && Registry["specialSheet"] == SpecialSheet
    ensures Names(SpecialSheet.columns) == ["Name", "Amount", "Invoice Date", "Receipt Date", "Verified"]
    ensures SpecialSheet.columns[2].1.field == "date" && SpecialSheet.columns[2].1.required
    ensures SpecialSheet.columns[3].1.field == "receiptDate" && !SpecialSheet.columns[3].1.required
    ensures SpecialSheet.columns[3].1.validate == None
    ensures SpecialSheet.columns[1].1.min == Some(0)
    ensures SpecialSheet.columns[4] == Default.columns[3]
  {
  }

  /** Every registered rule set names each column once and each output field once. */
  lemma RegistryWellFormed(name: string)
    requires name in Registry
    ensures DistinctNames(Registry[name].columns) && DistinctFields(Registry[name].columns)
  {
  }

  /** No registered sheet name is shadowed by an inherited member. */
  lemma RegistryOwnNames()
    ensures forall name :: name in Registry ==> name !in InheritedMembers
  {
  }

  /** (year, month) before `m` of `y`. */
  function PrecedingMonth(y: int, m: int): (ym: (int, int))
    requires 1 <= m <= 12
    ensures 1 <= ym.1 <= 12 && FollowingMonth(ym.0, ym.1) == (y, m)
  {
    if m > 1 then (y, m - 1) else (y - 1, 12)
  }

  /** `new Date(now.setMonth(now.getMonth() - 1))`: the same day number one month
      back, normalised by the host when that month is shorter. */
  function LastMonth(now: CalendarDate): CalendarDate {
    NewDate(now.year, now.month - 2, now.day)
  }

  /** When the day exists one month back, LastMonth is that day. */
  lemma LastMonthSameDay(now: CalendarDate)
    requires now.day <= DaysInMonth(PrecedingMonth(now.year, now.month).0, PrecedingMonth(now.year, now.month).1)
    ensures LastMonth(now) == Date(PrecedingMonth(now.year, now.month).0, PrecedingMonth(now.year, now.month).1, now.day)
  {
    var p := PrecedingMonth(now.year, now.month);
    assert Date(now.year + (now.month - 2) / 12, (now.month - 2) % 12 + 1, 1) == Date(p.0, p.1, 1);
    ShiftWithinMonth(Date(p.0, p.1, 1), now.day - 1);
  }

  /** When it does not (31 March one month back), the surplus days carry over
      into the current month. */
  lemma LastMonthOverflow(now: CalendarDate)
    requires now.day > DaysInMonth(PrecedingMonth(now.year, now.month).0, PrecedingMonth(now.year, now.month).1)
    ensures LastMonth(now) == Date(now.year, now.month,
      now.day - DaysInMonth(PrecedingMonth(now.year, now.month).0, PrecedingMonth(now.year, now.month).1))
  {
    var p := PrecedingMonth(now.year, now.month);
    assert Date(now.year + (now.month - 2) / 12, (now.month - 2) % 12 + 1, 1) == Date(p.0, p.1, 1);
    ShiftIntoFollowingMonth(Date(p.0, p.1, 1), now.day - 1);
  }

  /** Either way, LastMonth is strictly earlier than now. */
  lemma LastMonthBeforeNow(now: CalendarDate)
    ensures Before(LastMonth(now), now)
  {
    var p := PrecedingMonth(now.year, now.month);
    if now.day <= DaysInMonth(p.0, p.1) {
      LastMonthSameDay(now);
    } else {
      LastMonthOverflow(now);
    }
  }

  /** `rule.validate(date)` with the clock read as `now`. */
  predicate Accepts(check: DateCheck, date: Date, now: CalendarDate) {
    match check
    case SameMonthAsNow => date.month == now.month && date.year == now.year
    case NotBeforeLastMonth => NotAfter(LastMonth(now), date)
  }

  /** The default Date predicate holds exactly on the days from the first to the
      last of now's month. */
  lemma SameMonthWindow(date: CalendarDate, now: CalendarDate)
    ensures Accepts(SameMonthAsNow, date, now) <==>
      NotAfter(Date(now.year, now.month, 1), date) &&
      NotAfter(date, Date(now.year, now.month, DaysInMonth(now.year, now.month)))
  {
  }

  /** The Invoice Date predicate accepts now itself and rejects the day before LastMonth. */
  lemma NotBeforeLastMonthBoundary(now: CalendarDate)
    ensures Accepts(NotBeforeLastMonth, now, now)
    ensures Accepts(NotBeforeLastMonth, LastMonth(now), now)
    ensures !Accepts(NotBeforeLastMonth, PrevDay(LastMonth(now)), now)
  {
    LastMonthBeforeNow(now);
  }

  /** `rule.transform(value)`. The source calls `value?.toLowerCase()`, which
      throws on a number or boolean. */
  function ApplyTransform(t: Transform, value: Cell): (r: Result<Cell, Fault>)
    ensures r.Ok? <==> value.Str?
  {
    match t
    case YesToTrue =>
      match value
      case Str(s) => Ok(Bool(ToLower(s) == "yes"))
      case _ => Err(LowerCaseOfNonString)
  }

  /** YesToTrue maps a string to true exactly when it is "yes" in some case,
      and both rule sets use it for Verified. */
  lemma YesToTrueMeaning(s: string)
    ensures ApplyTransform(YesToTrue, Str(s)) ==
      Ok(Bool(|s| == 3 && s[0] in "yY" && s[1] in "eE" && s[2] in "sS"))
    ensures Default.columns[3].1.transform == SpecialSheet.columns[4].1.transform == Some(YesToTrue)
  {
    LowerIsYes(s);
  }
}
