/** What each field of a search line sets, told from the line as it is written. */
module SearchLines {
  import opened Text
  import opened SearchWords
  import opened SearchQuoting
  import opened SearchDates
  import opened SearchTerms
  import opened SearchForm

  /** Everything is asked for together with a target, or the bounds are out of order. */
  predicate Conflict(p: ParsedSearch) {
    || (p.all && (p.account.Some? || p.room.Some?))
    || (p.from.Some? && p.to.Some? && p.from.value > p.to.value)
  }

  /** The line of some fields, one more field, and a query. */
  function Line(fs: seq<Field>, f: Field, query: string): string {
    FieldsText(fs + [f]) + query
  }

  /** The fields before have set `p`, and the query is not taken for a field. */
  predicate Before(reader: DateReader, fs: seq<Field>, p: ParsedSearch, query: string) {
    AllWritable(fs) && Known(fs) && ApplyAll(reader, NOTHING_PARSED, fs) == Ok(p) && QueryIsPlain(query)
  }

  /** The line parses to what is given, with its query, or fails if there is none or it is in conflict. */
  predicate Gives(reader: DateReader, line: string, query: string, given: Option<ParsedSearch>) {
    match given
    case None => ParsedTerms(reader, line).Err?
    case Some(p) =>
      if Conflict(p) then ParsedTerms(reader, line).Err? else ParsedTerms(reader, line) == Ok(p.(query := Trim(query)))
  }

  function Applied(r: Result<ParsedSearch>): Option<ParsedSearch> {
    match r
    case Err(_) => None
    case Ok(p) => Some(p)
  }

  lemma PlainQueryIsRead(reader: DateReader, query: string, p: ParsedSearch)
    requires QueryIsPlain(query)
    ensures Words(query).Ok?
    ensures var r := ReadWords(reader, Words(query).value, p, true);
            r.Ok? && r.value.parsed == p && QueryText(query, r.value.start) == Trim(query)
  {
    hide ReadWords, FieldOf, Trim, QueryText;
    var words := Words(query).value;
    QueryOfMovedWords(reader, [], query, words, p);
    assert Shifted(words, 0) == words && [] + query == query;
  }

  /** A line gives what its last field does to what the fields before it have set. */
  lemma LineGives(reader: DateReader, fs: seq<Field>, p: ParsedSearch, f: Field, query: string)
    requires Before(reader, fs, p, query) && QuoteSafe(f.value) && Plain(f.name) && KindOf(f.name).Some? && ':' !in f.name
    ensures Gives(reader, Line(fs, f, query), query, Applied(ApplyAll(reader, p, [f])))
  {
    hide Words, ReadWords, FieldsText, ApplyAll, Trim, QuoteSafe, Plain, KindOf, QueryText, QueryIsPlain;
    var all := fs + [f];
    assert AllWritable(all) && Known(all);
    ParseOfFieldsAndQuery(reader, all, query);
    ApplyConcat(reader, NOTHING_PARSED, fs, [f]);
    PlainQueryIsRead(reader, query, p);
    if ApplyAll(reader, p, [f]).Ok? {
      PlainQueryIsRead(reader, query, ApplyAll(reader, p, [f]).value);
    }
  }

  lemma FieldNames()
    ensures Plain("account") && Plain("room") && Plain("sender") && Plain("all") && Plain("limit")
    ensures Plain("date") && Plain("after") && Plain("before")
    ensures KindOf("account") == Some(Account) && KindOf("room") == Some(Room) && KindOf("sender") == Some(Sender)
    ensures KindOf("all") == Some(All) && KindOf("limit") == Some(Limit) && KindOf("date") == Some(DateRange)
    ensures KindOf("after") == Some(AfterDate) && KindOf("before") == Some(BeforeDate)
    ensures ':' !in "account" && ':' !in "room" && ':' !in "sender" && ':' !in "all" && ':' !in "limit"
    ensures ':' !in "date" && ':' !in "after" && ':' !in "before"
  {
    hide KindOf;
    PlainNames();
    Kinds();
    NamesHaveNoColon();
    AllIsAName();
  }

  lemma AllIsAName()
    ensures Plain("all") && KindOf("all") == Some(All) && ':' !in "all"
  {
    hide IsSpace;
    LettersAreNoSpaces();
  }

  /** Targets and the sender are set to the trimmed value, which must not be empty. */
  lemma TargetsAreSet(reader: DateReader, fs: seq<Field>, p: ParsedSearch, value: string, query: string)
    requires Before(reader, fs, p, query) && QuoteSafe(value)
    ensures var v := Trim(value);
            && Gives(reader, Line(fs, Field("account", value), query), query, if v == [] then None else Some(p.(account := Some(v))))
            && Gives(reader, Line(fs, Field("room", value), query), query, if v == [] then None else Some(p.(room := Some(v))))
            && Gives(reader, Line(fs, Field("sender", value), query), query, if v == [] then None else Some(p.(sender := Some(v))))
  {
    hide Trim, KindOf, Plain, ApplyAll, Before, Gives, Line, QuoteSafe;
    FieldNames();
    TrimIsIdempotent(value);
    LineGives(reader, fs, p, Field("account", value), query);
    LineGives(reader, fs, p, Field("room", value), query);
    LineGives(reader, fs, p, Field("sender", value), query);
    ApplyOne(reader, p, Field("account", value), Account);
    ApplyOne(reader, p, Field("room", value), Room);
    ApplyOne(reader, p, Field("sender", value), Sender);
  }

  /** The flag is set or cleared by three words each, and by nothing else. */
  lemma AllIsSet(reader: DateReader, fs: seq<Field>, p: ParsedSearch, value: string, query: string)
    requires Before(reader, fs, p, query) && QuoteSafe(value)
    ensures var v := Trim(value);
            Gives(reader, Line(fs, Field("all", value), query), query,
                  if v in {"true", "yes", "1"} then Some(p.(all := true))
                  else if v in {"false", "no", "0"} then Some(p.(all := false)) else None)
  {
    hide Trim, KindOf, Plain, ApplyAll, Before, Gives, Line, QuoteSafe;
    FieldNames();
    TrimIsIdempotent(value);
    LineGives(reader, fs, p, Field("all", value), query);
    ApplyOne(reader, p, Field("all", value), All);
  }

  /** A number is brought into 1 to 200; what is no number, or too large a one, is an error. */
  lemma LimitIsSet(reader: DateReader, fs: seq<Field>, p: ParsedSearch, value: string, n: nat, query: string)
    requires Before(reader, fs, p, query) && QuoteSafe(value)
    ensures Trim(value) == Decimal(n) && n <= USIZE_MAX ==>
              Gives(reader, Line(fs, Field("limit", value), query), query,
                    Some(p.(limit := if n == 0 then 1 else if n <= 200 then n else 200)))
    ensures Trim(value) == Decimal(n) && n > USIZE_MAX ==> Gives(reader, Line(fs, Field("limit", value), query), query, None)
    ensures Trim(value) == [] || (Trim(value)[0] != '+' && !AllDigits(Trim(value))) ==>
              Gives(reader, Line(fs, Field("limit", value), query), query, None)
  {
    hide Trim, KindOf, Plain, ApplyAll, Before, Gives, Line, Decimal, QuoteSafe;
    FieldNames();
    TrimIsIdempotent(value);
    LineGives(reader, fs, p, Field("limit", value), query);
    ApplyOne(reader, p, Field("limit", value), Limit);
    ValueOfDecimal(n);
    DecimalHasNoSign(n);
  }

  lemma DecimalHasNoSign(n: nat)
    ensures Decimal(n) != [] && Decimal(n)[0] != '+' && AllDigits(Decimal(n))
  {
    hide Decimal;
    assert IsDigit(Decimal(n)[0]);
  }

  lemma DateValueIsPlain(value: string)
    requires DateChars(value)
    ensures QuoteSafe(value) && Trim(value) == value
  {
    hide Trim, DateChars;
    DateCharsAreTrimmed(value);
  }

  /** The written dates of two days, and the ranges made of them, hold date characters only. */
  lemma WrittenDates(start: NaiveDate, end: NaiveDate)
    ensures var a, b := FormatFormDate(start), FormatFormDate(end);
            DateChars(a) && DateChars(b) && DateChars(a + "-" + b) && DateChars("-" + b) && DateChars(a + "-")
  {
    hide FormatFormDate;
    FormDateText(start);
    FormDateText(end);
  }

  lemma DateFieldGives(reader: DateReader, fs: seq<Field>, p: ParsedSearch, value: string, query: string)
    requires Before(reader, fs, p, query) && DateChars(value)
    ensures var bounds := Bounds(p.from, p.to);
            && Gives(reader, Line(fs, Field("date", value), query), query,
                     Applied(WithBounds(p, ApplyDateRange(reader, bounds, value))))
            && Gives(reader, Line(fs, Field("after", value), query), query,
                     Applied(WithBounds(p, ApplyAfter(reader, bounds, value))))
            && Gives(reader, Line(fs, Field("before", value), query), query,
                     Applied(WithBounds(p, ApplyBefore(reader, bounds, value))))
  {
    hide Trim, KindOf, Plain, ApplyAll, Before, Gives, Line, QuoteSafe, DateChars, ApplyDateRange, ApplyAfter, ApplyBefore;
    FieldNames();
    DateValueIsPlain(value);
    LineGives(reader, fs, p, Field("date", value), query);
    LineGives(reader, fs, p, Field("after", value), query);
    LineGives(reader, fs, p, Field("before", value), query);
    ApplyOne(reader, p, Field("date", value), DateRange);
    ApplyOne(reader, p, Field("after", value), AfterDate);
    ApplyOne(reader, p, Field("before", value), BeforeDate);
  }

  /** A date is the window of its day; `after` sets the start of it, `before` the end, `date`
      both, and a range the start of its first and the end of its last day, an open side being
      left as it is. */
  lemma DatesAreSet(reader: DateReader, fs: seq<Field>, p: ParsedSearch, start: NaiveDate, end: NaiveDate, query: string)
    requires Before(reader, fs, p, query) && PhrasesAreWords(reader)
    ensures var a, b := FormatFormDate(start), FormatFormDate(end);
            var from, to := Some(StartOfDayMs(Folded(start))), Some(EndOfDayMs(Folded(end)));
            && Gives(reader, Line(fs, Field("after", a), query), query, Some(p.(from := from)))
            && Gives(reader, Line(fs, Field("before", b), query), query, Some(p.(to := to)))
            && Gives(reader, Line(fs, Field("date", a + "-" + b), query), query, Some(p.(from := from, to := to)))
            && Gives(reader, Line(fs, Field("date", a + "-"), query), query, Some(p.(from := from)))
            && Gives(reader, Line(fs, Field("date", "-" + b), query), query, Some(p.(to := to)))
            && Gives(reader, Line(fs, Field("date", a), query), query,
                     Some(p.(from := from, to := Some(EndOfDayMs(Folded(start))))))
  {
    hide FormatFormDate, StartOfDayMs, EndOfDayMs, Folded, ApplyDateRange, DayRange, Before, Gives, Line, DateChars, PhrasesAreWords;
    var a, b := FormatFormDate(start), FormatFormDate(end);
    var bounds := Bounds(p.from, p.to);
    WrittenDates(start, end);
    DateFieldGives(reader, fs, p, a, query);
    DateFieldGives(reader, fs, p, b, query);
    DateFieldGives(reader, fs, p, a + "-" + b, query);
    DateFieldGives(reader, fs, p, a + "-", query);
    DateFieldGives(reader, fs, p, "-" + b, query);
    FormDateDayRange(reader, start);
    FormDateDayRange(reader, end);
    DateRangeRoundTrip(reader, bounds, start, end);
    OpenRange(reader, bounds, start);
    OpenRange(reader, bounds, end);
  }

  /** Any value that stands for some days bounds the search by the start of the first and the
      end of the last; a value that stands for none is an error. */
  lemma DaysAreSet(reader: DateReader, fs: seq<Field>, p: ParsedSearch, value: string, query: string)
    requires Before(reader, fs, p, query) && QuoteSafe(value)
    ensures var days := DaysOf(reader, Trim(value));
            && Gives(reader, Line(fs, Field("after", value), query), query,
                     if days.None? then None else Some(p.(from := Some(StartOfDayMs(days.value.0)))))
            && Gives(reader, Line(fs, Field("before", value), query), query,
                     if days.None? then None else Some(p.(to := Some(EndOfDayMs(days.value.1)))))
  {
    hide Trim, KindOf, Plain, ApplyAll, Before, Gives, Line, QuoteSafe, ParseSingleDay, StartOfDayMs, EndOfDayMs;
    FieldNames();
    TrimIsIdempotent(value);
    LineGives(reader, fs, p, Field("after", value), query);
    LineGives(reader, fs, p, Field("before", value), query);
    ApplyOne(reader, p, Field("after", value), AfterDate);
    ApplyOne(reader, p, Field("before", value), BeforeDate);
  }

  // ----- The separator -----

  const DASHES := "-- "

  lemma ScanOfDashes()
    ensures Run(INITIAL, DASHES) == Scan([Span("--", 0, 2)], PLAIN, None, 2, 3)
  {
    hide IsSpace;
    assert !IsSpace('-') && IsSpace(' ') by { DashAndSpace(); }
    var one, two := Step(INITIAL, '-'), Step(Step(INITIAL, '-'), '-');
    assert one == Scan([], Quoting("-", false, false), Some(0), 1, 1);
    assert two == Scan([], Quoting("--", false, false), Some(0), 2, 2);
    RunOfOne(INITIAL, '-', "- ");
    RunOfOne(one, '-', " ");
    RunOfOne(two, ' ', []);
  }

  lemma DashAndSpace()
    ensures !IsSpace('-') && IsSpace(' ')
  {
  }

  lemma RunOfOne(st: Scan, c: char, rest: string)
    ensures Run(st, [c] + rest) == Run(Step(st, c), rest)
  {
    hide Step;
    assert ([c] + rest)[1..] == rest;
  }

  lemma WordsAfterDashes(query: string)
    ensures match Words(query)
            case Err(e) => Words(DASHES + query) == Err(e)
            case Ok(words) => Words(DASHES + query) == Ok([Span("--", 0, 2)] + Shifted(words, 3))
  {
    hide Run, Finish, Step;
    var st, before := Run(INITIAL, DASHES), [Span("--", 0, 2)];
    ScanOfDashes();
    assert before + Shifted([], 3) == before;
    RunLater(INITIAL, st, before, 3, query);
    RunConcat(INITIAL, DASHES, query);
    FinishLater(Run(INITIAL, query), Run(st, query), before, 3);
  }

  /** After `--` everything is the query, fields included; only a further `--` is dropped. */
  lemma DashesEndFields(reader: DateReader, fs: seq<Field>, query: string)
    requires AllWritable(fs) && Known(fs) && Words(query).Ok?
    requires Words(query).value == [] || Words(query).value[0].cooked != "--"
    ensures Gives(reader, FieldsText(fs) + DASHES + query, query, Applied(ApplyAll(reader, NOTHING_PARSED, fs)))
  {
    hide Words, FieldsText, ApplyAll, Trim, AllWritable, Known, FieldOf, ApplyField, Shifted;
    var words := Words(query).value;
    WordsAfterDashes(query);
    assert FieldsText(fs) + DASHES + query == FieldsText(fs) + (DASHES + query);
    ParseOfFieldsAndQuery(reader, fs, DASHES + query);
    var applied := ApplyAll(reader, NOTHING_PARSED, fs);
    if applied.Ok? {
      ReadAfterDashes(reader, applied.value, query, words);
    }
  }

  lemma ReadAfterDashes(reader: DateReader, p: ParsedSearch, query: string, words: seq<Span>)
    requires Words(query) == Ok(words) && (words == [] || words[0].cooked != "--")
    ensures var r := ReadWords(reader, [Span("--", 0, 2)] + Shifted(words, 3), p, true);
            r.Ok? && r.value.parsed == p && QueryText(DASHES + query, r.value.start) == Trim(query)
  {
    hide Words, Trim, FieldOf, ApplyField;
    var all := [Span("--", 0, 2)] + Shifted(words, 3);
    assert all[1..] == Shifted(words, 3);
    TrimFromFirstWord(query, words);
    if words != [] {
      var start := words[0].start;
      assert (DASHES + query)[start + 3..] == query[start..];
    }
  }

  // ----- Back to the form -----

  /** The form rebuilt from any line that parses: its scope tells which targets the line named,
      and everything else is carried over. */
  lemma FormOfLine(reader: DateReader, input: string)
    requires ParsedTerms(reader, input).Ok?
    ensures var p := ParsedTerms(reader, input).value;
            var form := FromParsed(p);
            var everywhere := p.all || p.account == Some("*");
            && (form.scope == Everywhere <==> everywhere)
            && (form.scope == SpecificRoom <==> !everywhere && p.room.Some? && p.room != Some("*"))
            && (form.scope == SpecificAccount <==> !everywhere && p.account.Some? && (p.room.None? || p.room == Some("*")))
            && (form.scope == CurrentAccount <==> !everywhere && p.account.None? && p.room == Some("*"))
            && (form.scope == CurrentRoom <==> !everywhere && p.account.None? && p.room.None?)
            && (p.account.Some? && p.account != Some("*") ==> form.account == p.account.value)
            && (p.room.Some? && p.room != Some("*") ==> form.room == p.room.value)
            && form.query == p.query && form.sender == OrEmpty(p.sender) && form.limit == Decimal(p.limit)
            && form.dates == DateFieldsFromBounds(Bounds(p.from, p.to))
  {
    hide ParsedTerms, Trim, Decimal, DateFieldsFromBounds;
    ParseIsSensible(reader, input);
    assert "*" != "";
  }

  /** So a line that asks for everything opens the form on everything. */
  lemma AllOpensEverywhere(reader: DateReader, query: string)
    requires QueryIsPlain(query)
    ensures var line := "all:true " + query;
            ParsedTerms(reader, line).Ok? && FromParsed(ParsedTerms(reader, line).value).scope == Everywhere
  {
    hide ParsedTerms, QueryIsPlain, Line, QuoteSafe, Trim;
    TrueIsPlain();
    LineOfAll(query);
    NoFieldsBefore(reader, query);
    AllIsSet(reader, [], NOTHING_PARSED, "true", query);
    FormOfLine(reader, "all:true " + query);
  }

  lemma NoFieldsBefore(reader: DateReader, query: string)
    requires QueryIsPlain(query)
    ensures Before(reader, [], NOTHING_PARSED, query)
  {
    hide QueryIsPlain;
  }

  lemma LineOfAll(query: string)
    ensures Line([], Field("all", "true"), query) == "all:true " + query
  {
    hide *;
    var f := Field("all", "true");
    TrueIsPlain();
    AloneInLine(f, query);
    LineOfOneField(f, query);
    Regrouped("all", ":", "true", " ", query);
    AllSpelledOut();
  }

  lemma AloneInLine(f: Field, query: string)
    ensures Line([], f, query) == FieldsText([f]) + query
  {
    hide FieldsText;
    assert [] + [f] == [f];
  }

  lemma AllSpelledOut()
    ensures "all" + ":" + "true" + " " == "all:true "
  {
  }

  lemma Regrouped(a: string, b: string, c: string, d: string, e: string)
    ensures a + (b + c + d + e) == (a + b + c + d) + e
  {
  }

  lemma TrueIsPlain()
    ensures QuoteSafe("true") && QuoteIfNeeded("true") == "true" && Trim("true") == "true"
  {
    hide Trim, IsSpace, EscapeQuotes;
    LettersAreNoSpaces();
    TrimOfTrimmed("true");
  }
}
