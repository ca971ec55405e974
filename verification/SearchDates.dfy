/** Date bounds of a search: day windows in milliseconds, the form's month/day/year
    text, and the reading of date fields. */
module SearchDates {
  import opened Text
  import opened Calendar

  type NaiveDate = d: Date | Valid(d) witness EPOCH

  /** What the reading of dates takes from outside: the phrases resolved against today's
      date ("last week") and the formats other than month/day/year. */
  datatype DateReader = DateReader(human: string -> Option<(NaiveDate, NaiveDate)>, other: string -> Option<NaiveDate>)

  // ----- Day windows -----

  function StartOfDayMs(day: NaiveDate): int {
    YmdHmToMs(Stamp(day, 0, 0)).value
  }

  function EndOfDayMs(day: NaiveDate): int {
    StartOfDayMs(NextDay(day)) - 1
  }

  /** Whether the calendar library can represent the date. */
  predicate Representable(day: Date) {
    Valid(day) && -262_143 <= day.y <= 262_142
  }

  function UtcDayFromMs(ms: int): Option<NaiveDate> {
    var day := DateAt(ms / DAY_MS);
    if Representable(day) then Some(day) else None
  }

  predicate InDay(ms: int, day: NaiveDate) {
    StartOfDayMs(day) <= ms <= EndOfDayMs(day)
  }

  lemma DayWindow(day: NaiveDate)
    ensures StartOfDayMs(day) == DaysSinceEpoch(day) * DAY_MS
    ensures EndOfDayMs(day) == StartOfDayMs(day) + DAY_MS - 1
  {
    hide DaysSinceEpoch;
    SuccessorAddsOne(day);
  }

  /** The windows tile the millisecond line: consecutive ones touch, and every
      millisecond lies in exactly one, that of its UTC day. */
  lemma WindowsTile(ms: int, day: NaiveDate)
    ensures EndOfDayMs(day) + 1 == StartOfDayMs(NextDay(day))
    ensures InDay(ms, day) <==> day == DateAt(ms / DAY_MS)
  {
    hide DaysSinceEpoch, DateAt;
    var n := DaysSinceEpoch(day);
    DayWindow(day);
    WalkOfCount(day);
    CountOfWalk(ms / DAY_MS);
    assert n * DAY_MS <= ms < (n + 1) * DAY_MS <==> ms / DAY_MS == n;
  }

  lemma DayOfBounds(day: NaiveDate)
    ensures DateAt(StartOfDayMs(day) / DAY_MS) == day && DateAt(EndOfDayMs(day) / DAY_MS) == day
  {
    hide DaysSinceEpoch, DateAt;
    DayWindow(day);
    WindowsTile(StartOfDayMs(day), day);
    WindowsTile(EndOfDayMs(day), day);
  }

  // ----- The form's date text -----

  /** The remainder with the sign of the dividend. */
  function TruncatedMod(n: int, d: nat): int
    requires d > 0
  {
    if n >= 0 then n % d else -((-n) % d)
  }

  /** Only two digits of the year are kept. */
  function FormatFormDate(day: NaiveDate): string {
    Decimal(day.m) + "/" + Decimal(day.d) + "/" + FormatInt(TruncatedMod(day.y, 100))
  }

  const U32_MAX := 0xffff_ffff
  const I32_MIN := -0x8000_0000
  const I32_MAX := 0x7fff_ffff

  function ParseSingleDay(reader: DateReader, value: string): Option<NaiveDate> {
    var parts := Split(value, '/');
    if |parts| == 3 then
      var month := ParseInt(parts[0], false, 0, U32_MAX);
      var day := ParseInt(parts[1], false, 0, U32_MAX);
      var year := ParseInt(parts[2], true, I32_MIN, I32_MAX);
      if month.None? || day.None? || year.None? then None
      else
        var date := Date(if 0 <= year.value <= 99 then year.value + 2000 else year.value, month.value, day.value);
        if Representable(date) then Some(date) else None
    else reader.other(value)
  }

  /** The years a form date survives: this century, where the two digits belong, and the
      years before zero with at most two digits, which keep their sign. */
  predicate YearSurvives(y: int) {
    2000 <= y <= 2099 || -99 <= y <= -1
  }

  lemma DigitsHaveNoSlash(n: nat)
    ensures '/' !in Decimal(n) && '-' !in Decimal(n)
  {
    forall i | 0 <= i < |Decimal(n)| ensures Decimal(n)[i] != '/' && Decimal(n)[i] != '-' {
      assert IsDigit(Decimal(n)[i]);
    }
  }

  lemma SplitFormDate(a: string, b: string, c: string)
    requires '/' !in a && '/' !in b && '/' !in c
    ensures Split(a + "/" + b + "/" + c, '/') == [a, b, c]
  {
    var rest := b + ['/'] + c;
    assert a + "/" + b + "/" + c == a + ['/'] + rest;
    SplitStep(a, '/', rest);
    SplitStep(b, '/', c);
    SplitStep(c, '/', []);
  }

  lemma ParseOfFormattedInt(n: int)
    requires I32_MIN <= n <= I32_MAX
    ensures ParseInt(FormatInt(n), true, I32_MIN, I32_MAX) == Some(n) && '/' !in FormatInt(n)
  {
    if n >= 0 {
      ParseOfDecimal(n, true, I32_MIN, I32_MAX);
      DigitsHaveNoSlash(n);
    } else {
      ValueOfDecimal(-n);
      DigitsHaveNoSlash(-n);
      assert FormatInt(n)[1..] == Decimal(-n);
    }
  }

  function FoldedYear(y: int): int {
    var t := TruncatedMod(y, 100);
    if 0 <= t <= 99 then t + 2000 else t
  }

  /** What a form date stands for once its century is gone. It is a date: where there is
      a 29 February, there is one in the year read back. */
  function Folded(day: NaiveDate): (r: NaiveDate)
    ensures Representable(r) && r.m == day.m && r.d == day.d
  {
    LeapYearsFold(day.y);
    Date(FoldedYear(day.y), day.m, day.d)
  }

  lemma LeapYearsFold(y: int)
    ensures IsLeap(y) ==> IsLeap(FoldedYear(y))
    ensures -99 <= FoldedYear(y) <= 2099
  {
    hide TruncatedMod, IsLeap;
    YearDigits(y);
    LeapDigits(y);
  }

  lemma LeapDigits(y: int)
    ensures IsLeap(y) ==> IsLeap(FoldedYear(y))
  {
    hide TruncatedMod, IsLeap;
    var t := TruncatedMod(y, 100);
    YearDigits(y);
    if IsLeap(y) {
      LeapByFour(y);
      DigitsByFour(y);
      ShortLeapYear(t);
    }
  }

  lemma LeapByFour(y: int)
    requires IsLeap(y)
    ensures y % 4 == 0
  {
  }

  lemma ShortLeapYear(t: int)
    requires -99 <= t <= 99 && t % 4 == 0
    ensures IsLeap(if 0 <= t then t + 2000 else t)
  {
    var n := if 0 <= t then t + 2000 else t;
    assert n % 4 == 0;
    assert t > 0 ==> n % 100 == t;
    assert t < 0 ==> n % 100 == t + 100;
  }

  lemma DigitsByFour(y: int)
    requires y % 4 == 0
    ensures TruncatedMod(y, 100) % 4 == 0
  {
    var n := if y >= 0 then y else -y;
    var k := n / 4 - 25 * (n / 100);
    assert n == 4 * (n / 4);
    assert n % 100 == 4 * k;
    FourTimes(k);
  }

  lemma FourTimes(k: int)
    ensures (4 * k) % 4 == 0 && (-(4 * k)) % 4 == 0
  {
  }

  /** Exactly the surviving years fold to themselves. */
  lemma YearDigits(y: int)
    ensures -99 <= TruncatedMod(y, 100) <= 99
    ensures FoldedYear(y) == y <==> YearSurvives(y)
  {
  }

  lemma MonthsAreShort(day: NaiveDate)
    ensures 1 <= day.m <= 12 && 1 <= day.d <= 31
  {
  }

  /** Reading back a form date gives its folded date, so the date itself exactly for the
      surviving years. */
  lemma FormDateRoundTrip(reader: DateReader, day: NaiveDate)
    ensures ParseSingleDay(reader, FormatFormDate(day)) == Some(Folded(day))
    ensures ParseSingleDay(reader, FormatFormDate(day)) == Some(day) <==> YearSurvives(day.y)
  {
    hide Decimal, FormatInt, Split, ParseInt, TruncatedMod, DaysInMonth;
    var m, d, y := Decimal(day.m), Decimal(day.d), TruncatedMod(day.y, 100);
    YearDigits(day.y);
    MonthsAreShort(day);
    DigitsHaveNoSlash(day.m);
    DigitsHaveNoSlash(day.d);
    ParseOfFormattedInt(y);
    SplitFormDate(m, d, FormatInt(y));
    ParseOfDecimal(day.m, false, 0, U32_MAX);
    ParseOfDecimal(day.d, false, 0, U32_MAX);
  }

  /** The last day of the last century comes back a hundred years later. */
  lemma LastCenturyIsLost(reader: DateReader)
    ensures ParseSingleDay(reader, FormatFormDate(Date(1999, 12, 31))) == Some(Date(2099, 12, 31))
  {
    hide ParseSingleDay, FormatFormDate;
    FormDateRoundTrip(reader, Date(1999, 12, 31));
  }

  // ----- Date fields -----

  function DayRange(reader: DateReader, value: string): Result<(int, int)> {
    var v := Trim(value);
    var days := reader.human(v);
    if days.Some? then Ok((StartOfDayMs(days.value.0), EndOfDayMs(days.value.1)))
    else
      var day := ParseSingleDay(reader, v);
      if day.Some? then Ok((StartOfDayMs(day.value), EndOfDayMs(day.value)))
      else Err("unrecognized date: " + v)
  }

  predicate IsDateOrBlank(reader: DateReader, value: string) {
    Trim(value) == [] || DayRange(reader, value).Ok?
  }

  /** The first dash at or after `k` that has a date, or nothing, on both sides. */
  function FindRangeDash(reader: DateReader, value: string, k: nat): (r: Option<(string, string)>)
    requires k <= |value|
    decreases |value| - k
  {
    if k == |value| then None
    else
      var start, end := value[..k], value[k + 1..];
      if value[k] == '-' && IsDateOrBlank(reader, start) && IsDateOrBlank(reader, end)
         && !(Trim(start) == [] && Trim(end) == [])
      then Some((start, end))
      else FindRangeDash(reader, value, k + 1)
  }

  function SplitDateRange(reader: DateReader, value: string): Option<(string, string)> {
    if value != [] && value[0] == '-' then Some(([], value[1..])) else FindRangeDash(reader, value, 0)
  }

  /** The bounds of a search; `None` leaves a side open. */
  datatype Bounds = Bounds(from: Option<int>, to: Option<int>)

  function ApplyDateRange(reader: DateReader, bounds: Bounds, value: string): Result<Bounds> {
    var v := Trim(value);
    if v == [] then Err("date: requires a value")
    else match SplitDateRange(reader, v)
      case Some((start, end)) =>
        var first := if Trim(start) == [] then Ok(bounds)
                     else match DayRange(reader, start)
                          case Ok(r) => Ok(bounds.(from := Some(r.0)))
                          case Err(e) => Err(e);
        (match first
         case Err(e) => Err(e)
         case Ok(b) =>
           var second := if Trim(end) == [] then Ok(b)
                         else match DayRange(reader, end)
                              case Ok(r) => Ok(b.(to := Some(r.1)))
                              case Err(e) => Err(e);
           if second.Ok? && Trim(start) == [] && Trim(end) == [] then Err("date range requires a start or end date")
           else second)
      case None =>
        match DayRange(reader, v)
        case Ok(r) => Ok(Bounds(Some(r.0), Some(r.1)))
        case Err(e) => Err(e)
  }

  function ApplyAfter(reader: DateReader, bounds: Bounds, value: string): Result<Bounds> {
    match DayRange(reader, value)
    case Ok(r) => Ok(bounds.(from := Some(r.0)))
    case Err(e) => Err(e)
  }

  function ApplyBefore(reader: DateReader, bounds: Bounds, value: string): Result<Bounds> {
    match DayRange(reader, value)
    case Ok(r) => Ok(bounds.(to := Some(r.1)))
    case Err(e) => Err(e)
  }

  // ----- Bounds back to fields -----

  datatype DateFields = DateFields(date: string, after: string, before: string)

  function Day(bound: Option<int>): Option<NaiveDate> {
    match bound
    case None => None
    case Some(ms) => UtcDayFromMs(ms)
  }

  function DateFieldsFromBounds(bounds: Bounds): DateFields {
    match (Day(bounds.from), Day(bounds.to))
    case (Some(start), Some(end)) =>
      if start == end then DateFields(FormatFormDate(start), "", "")
      else DateFields(FormatFormDate(start) + "-" + FormatFormDate(end), "", "")
    case (Some(start), None) => DateFields("", FormatFormDate(start), "")
    case (None, Some(end)) => DateFields("", "", FormatFormDate(end))
    case (None, None) => DateFields("", "", "")
  }

  /** Bounds that are whole days. */
  function DayBounds(start: Option<NaiveDate>, end: Option<NaiveDate>): Bounds {
    Bounds(if start.None? then None else Some(StartOfDayMs(start.value)),
           if end.None? then None else Some(EndOfDayMs(end.value)))
  }

  predicate IsRepresentable(day: Option<NaiveDate>) {
    day.Some? ==> Representable(day.value)
  }

  predicate Survives(day: Option<NaiveDate>) {
    day.Some? ==> YearSurvives(day.value.y)
  }

  function FoldedDay(day: Option<NaiveDate>): Option<NaiveDate> {
    if day.None? then None else Some(Folded(day.value))
  }

  /** No phrase starts with a digit. */
  ghost predicate PhrasesAreWords(reader: DateReader) {
    forall v :: reader.human(v).Some? ==> v != [] && !IsDigit(v[0])
  }

  /** The three date fields, read in the order the form writes them. */
  function ReadFields(reader: DateReader, f: DateFields): Result<Bounds> {
    var none := Bounds(None, None);
    var b1 := if Trim(f.date) == [] then Ok(none) else ApplyDateRange(reader, none, f.date);
    if b1.Err? then b1
    else
      var b2 := if Trim(f.after) == [] then b1 else ApplyAfter(reader, b1.value, f.after);
      if b2.Err? then b2
      else if Trim(f.before) == [] then b2 else ApplyBefore(reader, b2.value, f.before)
  }

  /** A text of digits, slashes and dashes that starts and ends with a digit. */
  predicate DateText(s: string) {
    && s != [] && IsDigit(s[0]) && IsDigit(s[|s| - 1])
    && forall i :: 0 <= i < |s| ==> IsDigit(s[i]) || s[i] == '/' || s[i] == '-'
  }

  lemma DateTextIsTrimmed(s: string)
    requires DateText(s)
    ensures Trim(s) == s && !HasSpace(s)
  {
    hide Trim, IsSpace, IsDigit;
    forall i | 0 <= i < |s| ensures !IsSpace(s[i]) {
      DateCharIsNoSpace(s[i]);
    }
    TrimOfTrimmed(s);
  }

  lemma DateCharIsNoSpace(c: char)
    requires IsDigit(c) || c == '/' || c == '-'
    ensures !IsSpace(c)
  {
  }

  lemma FormDateText(day: NaiveDate)
    ensures DateText(FormatFormDate(day))
  {
    hide TruncatedMod;
    var t := TruncatedMod(day.y, 100);
    var m, d, y := Decimal(day.m), Decimal(day.d), FormatInt(t);
    var s := FormatFormDate(day);
    assert y[|y| - 1] == Decimal(if t < 0 then -t else t)[|y| - 1 - if t < 0 then 1 else 0];
    assert s == m + "/" + d + "/" + y;
    assert s[0] == m[0] && s[|s| - 1] == y[|y| - 1];
    forall i | 0 <= i < |s| ensures IsDigit(s[i]) || s[i] == '/' || s[i] == '-' {
      if i < |m| { assert s[i] == m[i]; }
      else if |m| < i < |m| + 1 + |d| { assert s[i] == d[i - |m| - 1]; }
      else if |m| + |d| + 1 < i { assert s[i] == y[i - |m| - |d| - 2]; }
    }
  }

  lemma RangeText(start: NaiveDate, end: NaiveDate)
    ensures DateText(FormatFormDate(start) + "-" + FormatFormDate(end))
  {
    hide FormatFormDate;
    FormDateText(start);
    FormDateText(end);
    var a, b := FormatFormDate(start), FormatFormDate(end);
    var value := a + "-" + b;
    assert value[0] == a[0] && value[|value| - 1] == b[|b| - 1];
  }

  lemma FormDateDayRange(reader: DateReader, day: NaiveDate)
    requires PhrasesAreWords(reader)
    ensures DayRange(reader, FormatFormDate(day)) == Ok((StartOfDayMs(Folded(day)), EndOfDayMs(Folded(day))))
  {
    hide FormatFormDate, ParseSingleDay, StartOfDayMs, EndOfDayMs, Trim, Folded;
    FormDateText(day);
    DateTextIsTrimmed(FormatFormDate(day));
    FormDateRoundTrip(reader, day);
  }

  /** No dash of `s` has a date, or nothing, before it. */
  ghost predicate NoDateBeforeDash(reader: DateReader, s: string) {
    forall k :: 0 <= k < |s| && s[k] == '-' ==> !IsDateOrBlank(reader, s[..k])
  }

  lemma NoYearNoDay(reader: DateReader, a: string, b: string)
    requires '/' !in a && '/' !in b
    ensures ParseSingleDay(reader, a + "/" + b + "/").None?
  {
    hide Split;
    SplitFormDate(a, b, []);
    assert a + "/" + b + "/" + [] == a + "/" + b + "/";
    assert ParseInt([], true, I32_MIN, I32_MAX).None?;
  }

  lemma NoPhraseNoRange(reader: DateReader, s: string)
    requires PhrasesAreWords(reader) && s != [] && IsDigit(s[0]) && s[|s| - 1] == '/' && ParseSingleDay(reader, s).None?
    ensures !IsDateOrBlank(reader, s)
  {
    hide ParseSingleDay, Trim, IsSpace, StartOfDayMs, EndOfDayMs, IsDigit;
    DateCharIsNoSpace(s[0]);
    DateCharIsNoSpace('/');
    TrimOfTrimmed(s);
  }

  /** A day without its year is no date. */
  lemma DayAndMonthAreNoDate(reader: DateReader, m: nat, d: nat)
    requires PhrasesAreWords(reader)
    ensures !IsDateOrBlank(reader, Decimal(m) + "/" + Decimal(d) + "/")
  {
    hide Decimal, ParseSingleDay, IsDateOrBlank, PhrasesAreWords;
    var s := Decimal(m) + "/" + Decimal(d) + "/";
    DigitsHaveNoSlash(m);
    DigitsHaveNoSlash(d);
    assert IsDigit(Decimal(m)[0]) && s[0] == Decimal(m)[0] && s[|s| - 1] == '/';
    NoYearNoDay(reader, Decimal(m), Decimal(d));
    NoPhraseNoRange(reader, s);
  }

  /** The dash of a year before zero is not taken for the dash of a range. */
  lemma YearDashIsNoRange(reader: DateReader, day: NaiveDate)
    requires PhrasesAreWords(reader)
    ensures NoDateBeforeDash(reader, FormatFormDate(day))
  {
    hide IsDateOrBlank, TruncatedMod, PhrasesAreWords;
    var t := TruncatedMod(day.y, 100);
    var head, y := Decimal(day.m) + "/" + Decimal(day.d) + "/", FormatInt(t);
    var s := FormatFormDate(day);
    assert s == head + y;
    DigitsHaveNoSlash(day.m);
    DigitsHaveNoSlash(day.d);
    DigitsHaveNoSlash(if t < 0 then -t else t);
    DayAndMonthAreNoDate(reader, day.m, day.d);
    forall k | 0 <= k < |s| && s[k] == '-' ensures !IsDateOrBlank(reader, s[..k]) {
      assert k == |head| by { DashPlace(day.m, day.d, t, k); }
      assert s[..k] == head;
    }
  }

  lemma DashPlace(m: nat, d: nat, t: int, k: nat)
    requires var s := Decimal(m) + "/" + Decimal(d) + "/" + FormatInt(t); k < |s| && s[k] == '-'
    ensures k == |Decimal(m) + "/" + Decimal(d) + "/"|
  {
    hide Decimal;
    var a, b, c := Decimal(m), Decimal(d), Decimal(if t < 0 then -t else t);
    DigitsHaveNoSlash(m);
    DigitsHaveNoSlash(d);
    DigitsHaveNoSlash(if t < 0 then -t else t);
  }

  lemma {:induction false} NoDashNoRange(reader: DateReader, s: string, k: nat)
    requires k <= |s| && NoDateBeforeDash(reader, s)
    ensures FindRangeDash(reader, s, k) == None
    decreases |s| - k
  {
    hide IsDateOrBlank;
    if k < |s| {
      NoDashNoRange(reader, s, k + 1);
    }
  }

  lemma {:induction false} RangeDashFound(reader: DateReader, a: string, b: string, k: nat)
    requires k <= |a| && NoDateBeforeDash(reader, a) && DayRange(reader, a).Ok? && IsDateOrBlank(reader, b) && Trim(a) != []
    ensures FindRangeDash(reader, a + "-" + b, k) == Some((a, b))
    decreases |a| - k
  {
    hide DayRange, Trim;
    var s := a + "-" + b;
    if k < |a| {
      assert s[k] == a[k] && s[..k] == a[..k];
      RangeDashFound(reader, a, b, k + 1);
    } else {
      assert s[..k] == a && s[k + 1..] == b;
    }
  }

  lemma DateRangeRoundTrip(reader: DateReader, bounds: Bounds, start: NaiveDate, end: NaiveDate)
    requires PhrasesAreWords(reader)
    ensures var value := FormatFormDate(start) + "-" + FormatFormDate(end);
            && DateText(value)
            && ApplyDateRange(reader, bounds, value)
            == Ok(Bounds(Some(StartOfDayMs(Folded(start))), Some(EndOfDayMs(Folded(end)))))
    ensures ApplyDateRange(reader, bounds, FormatFormDate(start))
         == Ok(Bounds(Some(StartOfDayMs(Folded(start))), Some(EndOfDayMs(Folded(start)))))
  {
    hide DayRange, FormatFormDate, StartOfDayMs, EndOfDayMs, FindRangeDash, Folded, Trim, PhrasesAreWords, NoDateBeforeDash, IsSpace;
    var a, b := FormatFormDate(start), FormatFormDate(end);
    var value := a + "-" + b;
    FormDateText(start);
    FormDateText(end);
    RangeText(start, end);
    DateTextIsTrimmed(a);
    DateTextIsTrimmed(b);
    DateTextIsTrimmed(value);
    FormDateDayRange(reader, start);
    FormDateDayRange(reader, end);
    YearDashIsNoRange(reader, start);
    RangeDashFound(reader, a, b, 0);
    NoDashNoRange(reader, a, 0);
    assert value[0] == a[0] && !IsDigit('-');
  }

  /** A range open on one side leaves the bound of that side as it is. */
  lemma OpenRange(reader: DateReader, bounds: Bounds, day: NaiveDate)
    requires PhrasesAreWords(reader)
    ensures ApplyDateRange(reader, bounds, "-" + FormatFormDate(day)) == Ok(bounds.(to := Some(EndOfDayMs(Folded(day)))))
    ensures ApplyDateRange(reader, bounds, FormatFormDate(day) + "-") == Ok(bounds.(from := Some(StartOfDayMs(Folded(day)))))
  {
    hide DayRange, FormatFormDate, StartOfDayMs, EndOfDayMs, FindRangeDash, Folded, Trim, PhrasesAreWords, NoDateBeforeDash,
         IsSpace, IsDigit;
    var a := FormatFormDate(day);
    FormDateText(day);
    DateTextIsTrimmed(a);
    FormDateDayRange(reader, day);
    TrimOfTrimmed([]);
    var until, since := "-" + a, a + "-";
    DateCharsAreTrimmed(until);
    DateCharsAreTrimmed(since);
    assert until[0] == '-' && until[1..] == a;
    assert since[0] == a[0] && a[0] != '-' by { DashIsNoDigit(); }
    YearDashIsNoRange(reader, day);
    assert a + "-" + [] == since;
    RangeDashFound(reader, a, [], 0);
  }

  lemma DashIsNoDigit()
    ensures !IsDigit('-')
  {
  }

  /** A text of digits, slashes and dashes. */
  predicate DateChars(s: string) {
    forall i :: 0 <= i < |s| ==> IsDigit(s[i]) || s[i] == '/' || s[i] == '-'
  }

  lemma DateCharsAreTrimmed(s: string)
    requires DateChars(s)
    ensures Trim(s) == s && !HasSpace(s) && '"' !in s
  {
    hide Trim, IsSpace, IsDigit;
    forall i | 0 <= i < |s| ensures !IsSpace(s[i]) && s[i] != '"' {
      DateCharIsNoSpace(s[i]);
      DateCharIsNoQuote(s[i]);
    }
    TrimOfTrimmed(s);
  }

  lemma DateCharIsNoQuote(c: char)
    requires IsDigit(c) || c == '/' || c == '-'
    ensures c != '"'
  {
  }

  /** The days a value stands for: those of a phrase, or else the one day it names. */
  function DaysOf(reader: DateReader, value: string): Option<(NaiveDate, NaiveDate)> {
    if reader.human(value).Some? then reader.human(value)
    else match ParseSingleDay(reader, value)
         case None => None
         case Some(day) => Some((day, day))
  }

  /** Whole-day bounds, written to the form's date fields and read again, are the bounds of
      the folded days. */
  lemma BoundsReadFolded(reader: DateReader, start: Option<NaiveDate>, end: Option<NaiveDate>)
    requires PhrasesAreWords(reader) && IsRepresentable(start) && IsRepresentable(end)
    ensures ReadFields(reader, DateFieldsFromBounds(DayBounds(start, end))) == Ok(DayBounds(FoldedDay(start), FoldedDay(end)))
  {
    hide FormatFormDate, StartOfDayMs, EndOfDayMs, ApplyDateRange, DayRange, UtcDayFromMs, Trim, DateText, Folded, PhrasesAreWords;
    TrimOfTrimmed([]);
    if start.Some? {
      FormDateFacts(reader, start.value);
    }
    if end.Some? {
      FormDateFacts(reader, end.value);
    }
    if start.Some? && end.Some? {
      DateRangeRoundTrip(reader, Bounds(None, None), start.value, end.value);
      DateTextIsTrimmed(FormatFormDate(start.value) + "-" + FormatFormDate(end.value));
    }
  }

  /** They survive the trip exactly when the year of each bound given does. */
  lemma BoundsRoundTrip(reader: DateReader, start: Option<NaiveDate>, end: Option<NaiveDate>)
    requires PhrasesAreWords(reader) && IsRepresentable(start) && IsRepresentable(end)
    ensures ReadFields(reader, DateFieldsFromBounds(DayBounds(start, end))) == Ok(DayBounds(start, end))
        <==> Survives(start) && Survives(end)
  {
    hide ReadFields, DateFieldsFromBounds, StartOfDayMs, EndOfDayMs, PhrasesAreWords;
    BoundsReadFolded(reader, start, end);
    if start.Some? {
      WindowsDiffer(start.value, Folded(start.value));
      YearDigits(start.value.y);
    }
    if end.Some? {
      WindowsDiffer(end.value, Folded(end.value));
      YearDigits(end.value.y);
    }
  }

  lemma WindowsDiffer(a: NaiveDate, b: NaiveDate)
    ensures StartOfDayMs(a) == StartOfDayMs(b) <==> a == b
    ensures EndOfDayMs(a) == EndOfDayMs(b) <==> a == b
  {
    hide StartOfDayMs, EndOfDayMs, DateAt;
    DayOfBounds(a);
    DayOfBounds(b);
  }

  /** A representable day is found again from its bounds. */
  lemma DayIsFound(day: NaiveDate)
    requires Representable(day)
    ensures UtcDayFromMs(StartOfDayMs(day)) == UtcDayFromMs(EndOfDayMs(day)) == Some(day)
  {
    hide StartOfDayMs, EndOfDayMs, DateAt;
    DayOfBounds(day);
  }

  lemma FormDateFacts(reader: DateReader, day: NaiveDate)
    requires Representable(day) && PhrasesAreWords(reader)
    ensures UtcDayFromMs(StartOfDayMs(day)) == UtcDayFromMs(EndOfDayMs(day)) == Some(day)
    ensures Trim(FormatFormDate(day)) == FormatFormDate(day) != []
    ensures DayRange(reader, FormatFormDate(day)) == Ok((StartOfDayMs(Folded(day)), EndOfDayMs(Folded(day))))
  {
    hide StartOfDayMs, EndOfDayMs, FormatFormDate, Trim, DayRange, Folded, UtcDayFromMs;
    DayIsFound(day);
    FormDateText(day);
    DateTextIsTrimmed(FormatFormDate(day));
    FormDateDayRange(reader, day);
  }
}
