/** The search form: it writes itself in the search language and is rebuilt from a parse. */
module SearchForm {
  import opened Text
  import opened Calendar
  import opened SearchWords
  import opened SearchQuoting
  import opened SearchDates
  import opened SearchTerms

  datatype Scope = CurrentRoom | CurrentAccount | Everywhere | SpecificRoom | SpecificAccount

  /** The fields of the form that the search language carries. */
  datatype Form = Form(
    scope: Scope,
    query: string,
    account: string,
    room: string,
    sender: string,
    dates: DateFields,
    limit: string)

  function OrEmpty(value: Option<string>): string {
    if value.Some? then value.value else ""
  }

  function FromParsed(p: ParsedSearch): Form {
    var account, room := OrEmpty(p.account), OrEmpty(p.room);
    var scope :=
      if p.all || account == "*" then Everywhere
      else if room == "*" then (if account == "" then CurrentAccount else SpecificAccount)
      else if room != "" then SpecificRoom
      else if account != "" then SpecificAccount
      else CurrentRoom;
    Form(scope, p.query, if account == "*" then "" else account, if room == "*" then "" else room,
         OrEmpty(p.sender), DateFieldsFromBounds(Bounds(p.from, p.to)), Decimal(p.limit))
  }

  function ScopeTokens(form: Form): Result<seq<string>> {
    match form.scope
    case CurrentRoom => Ok([])
    case CurrentAccount => Ok(["room:*"])
    case Everywhere => Ok(["account:*"])
    case SpecificRoom =>
      if Trim(form.room) == [] then Err("specific room scope requires a room")
      else Ok(["room:" + QuoteIfNeeded(form.room)]
              + (if Trim(form.account) == [] then [] else ["account:" + QuoteIfNeeded(form.account)]))
    case SpecificAccount =>
      if Trim(form.account) == [] then Err("specific account scope requires an account")
      else Ok(["account:" + QuoteIfNeeded(form.account), "room:*"])
  }

  function OptionalToken(name: string, value: string): seq<string> {
    if Trim(value) == [] then [] else [name + ":" + QuoteIfNeeded(value)]
  }

  function Join(tokens: seq<string>): string
    requires tokens != []
  {
    if |tokens| == 1 then tokens[0] else tokens[0] + " " + Join(tokens[1..])
  }

  function ToParsed(reader: DateReader, form: Form): Result<ParsedSearch> {
    match ScopeTokens(form)
    case Err(e) => Err(e)
    case Ok(scope) =>
      var tokens := scope
        + OptionalToken("sender", form.sender)
        + OptionalToken("date", form.dates.date)
        + OptionalToken("after", form.dates.after)
        + OptionalToken("before", form.dates.before)
        + (if Trim(form.limit) == [] then [] else ["limit:" + Trim(form.limit)])
        + [form.query];
      ParsedTerms(reader, Join(tokens))
  }

  // ----- Forms that can be written -----

  predicate Target(value: string) {
    Trim(value) != [] && Trim(value) != "*" && QuoteSafe(value)
  }

  predicate TargetsWritable(form: Form) {
    match form.scope
    case SpecificRoom => Target(form.room) && (Trim(form.account) == [] || Target(form.account))
    case SpecificAccount => Target(form.account)
    case _ => true
  }

  predicate LimitWritable(form: Form) {
    exists n: nat :: 1 <= n <= 200 && Trim(form.limit) == Decimal(n)
  }

  /** Every visible value survives quoting, the limit is in range, and the dates are
      those of a window of whole days, of years that two digits tell, open or closed on either side. */
  predicate FormWritable(form: Form, start: Option<NaiveDate>, end: Option<NaiveDate>) {
    && TargetsWritable(form)
    && (Trim(form.sender) == [] || QuoteSafe(form.sender))
    && LimitWritable(form)
    && Survives(start) && Survives(end)
    && (start.Some? && end.Some? ==> !Before(end.value, start.value))
    && form.dates == DateFieldsFromBounds(DayBounds(start, end))
  }

  /** The query is not taken for anything else: its quotes close, and its first word is
      neither a field nor `--`. */
  predicate QueryIsPlain(query: string) {
    match Words(query)
    case Err(_) => false
    case Ok(words) => words == [] || (words[0].cooked != "--" && FieldOf(words[0].cooked).None?)
  }

  predicate Restores(form: Form, back: Form) {
    && back.scope == form.scope
    && back.query == Trim(form.query)
    && back.room == (if form.scope.SpecificRoom? then Trim(form.room) else "")
    && back.account == (if form.scope.SpecificRoom? || form.scope.SpecificAccount? then Trim(form.account) else "")
    && back.sender == Trim(form.sender)
    && back.dates == form.dates
    && back.limit == Trim(form.limit)
  }

  // ----- The fields a form writes -----

  function ScopeFields(form: Form): seq<Field> {
    match form.scope
    case CurrentRoom => []
    case CurrentAccount => [Field("room", "*")]
    case Everywhere => [Field("account", "*")]
    case SpecificRoom =>
      [Field("room", form.room)] + (if Trim(form.account) == [] then [] else [Field("account", form.account)])
    case SpecificAccount => [Field("account", form.account), Field("room", "*")]
  }

  function OptionalField(name: string, value: string): seq<Field> {
    if Trim(value) == [] then [] else [Field(name, value)]
  }

  function DateFieldList(d: DateFields): seq<Field> {
    OptionalField("date", d.date) + OptionalField("after", d.after) + OptionalField("before", d.before)
  }

  function FormFields(form: Form): seq<Field> {
    ScopeFields(form) + OptionalField("sender", form.sender) + DateFieldList(form.dates) + [Field("limit", form.limit)]
  }

  function Texts(fs: seq<Field>): seq<string> {
    seq(|fs|, i requires 0 <= i < |fs| => FieldText(fs[i]))
  }

  lemma {:induction false} JoinOfTexts(fs: seq<Field>, query: string)
    ensures Join(Texts(fs) + [query]) == FieldsText(fs) + query
    decreases fs
  {
    hide FieldText;
    var tokens := Texts(fs) + [query];
    if fs == [] {
      assert tokens == [query];
    } else {
      assert tokens[1..] == Texts(fs[1..]) + [query] && tokens[0] == FieldText(fs[0]);
      JoinOfTexts(fs[1..], query);
    }
  }

  lemma StarIsPlain()
    ensures Trim("*") == "*" && QuoteSafe("*") && QuoteIfNeeded("*") == "*"
  {
    hide Trim, EscapeQuotes;
    var star := "*";
    assert |star| == 1 && star[0] == '*' && !IsSpace('*');
    TrimOfTrimmed(star);
    assert !HasSpace(star) && '"' !in star;
  }

  lemma DigitsArePlain(s: string)
    requires AllDigits(s) && s != []
    ensures Trim(s) == s && !HasSpace(s) && '"' !in s
  {
    TrimOfTrimmed(s);
  }

  lemma LimitIsPlain(limit: string, n: nat)
    requires Trim(limit) == Decimal(n)
    ensures QuoteSafe(limit) && QuoteIfNeeded(limit) == Trim(limit) != []
  {
    DigitsArePlain(Decimal(n));
  }

  lemma DateTextIsPlain(s: string)
    requires DateText(s)
    ensures QuoteSafe(s)
  {
    DateTextIsTrimmed(s);
  }

  lemma DatesAreWritable(start: Option<NaiveDate>, end: Option<NaiveDate>)
    requires IsRepresentable(start) && IsRepresentable(end)
    ensures var d := DateFieldsFromBounds(DayBounds(start, end));
            && (d.date == [] || DateText(d.date)) && (d.after == [] || DateText(d.after))
            && (d.before == [] || DateText(d.before))
  {
    hide FormatFormDate, StartOfDayMs, EndOfDayMs, UtcDayFromMs, DateText;
    if start.Some? {
      DayIsFound(start.value);
      FormDateText(start.value);
    }
    if end.Some? {
      DayIsFound(end.value);
      FormDateText(end.value);
    }
    if start.Some? && end.Some? {
      RangeText(start.value, end.value);
    }
  }

  lemma PlainNames()
    ensures Plain("room") && Plain("account") && Plain("sender") && Plain("limit")
    ensures Plain("date") && Plain("after") && Plain("before")
  {
  }

  lemma AllWritableConcat(fs: seq<Field>, gs: seq<Field>)
    requires AllWritable(fs) && AllWritable(gs)
    ensures AllWritable(fs + gs)
  {
  }

  lemma FieldsAreWritable(form: Form, start: Option<NaiveDate>, end: Option<NaiveDate>)
    requires FormWritable(form, start, end)
    ensures AllWritable(ScopeFields(form)) && AllWritable(OptionalField("sender", form.sender))
    ensures AllWritable(DateFieldList(form.dates)) && AllWritable([Field("limit", form.limit)])
    ensures AllWritable(FormFields(form))
  {
    hide Plain, QuoteSafe, Trim, DateFieldsFromBounds, DateText, DayBounds, Before;
    PlainNames();
    StarIsPlain();
    var n: nat :| 1 <= n <= 200 && Trim(form.limit) == Decimal(n);
    LimitIsPlain(form.limit, n);
    DatesAreWritable(start, end);
    var d := form.dates;
    TrimOfTrimmed([]);
    if d.date != [] { DateTextIsPlain(d.date); }
    if d.after != [] { DateTextIsPlain(d.after); }
    if d.before != [] { DateTextIsPlain(d.before); }
    AllWritableConcat(ScopeFields(form), OptionalField("sender", form.sender));
    AllWritableConcat(ScopeFields(form) + OptionalField("sender", form.sender), DateFieldList(d));
  }

  lemma NamesWithColon()
    ensures "room" + ":" == "room:" && "account" + ":" == "account:" && "limit" + ":" == "limit:"
    ensures "room:" + "*" == "room:*" && "account:" + "*" == "account:*"
  {
  }

  lemma TextsConcat(fs: seq<Field>, gs: seq<Field>)
    ensures Texts(fs + gs) == Texts(fs) + Texts(gs)
  {
    hide FieldText;
  }

  lemma ScopeTokensAreTexts(form: Form)
    requires TargetsWritable(form)
    ensures ScopeTokens(form) == Ok(Texts(ScopeFields(form)))
  {
    hide QuoteIfNeeded, Trim, QuoteSafe;
    StarIsPlain();
    NamesWithColon();
    var star, rooms, accounts := FieldText(Field("room", "*")), FieldText(Field("room", form.room)), FieldText(Field("account", form.account));
    assert star == "room:*" && FieldText(Field("account", "*")) == "account:*";
    assert rooms == "room:" + QuoteIfNeeded(form.room) && accounts == "account:" + QuoteIfNeeded(form.account);
    assert Texts(ScopeFields(form)) == ScopeTokens(form).value;
  }

  lemma OptionalTokenIsText(name: string, value: string)
    ensures OptionalToken(name, value) == Texts(OptionalField(name, value))
  {
    hide QuoteIfNeeded, Trim;
  }

  lemma TokensAreFieldTexts(reader: DateReader, form: Form)
    requires TargetsWritable(form) && LimitWritable(form)
    ensures ToParsed(reader, form) == ParsedTerms(reader, FieldsText(FormFields(form)) + form.query)
  {
    hide ParsedTerms, QuoteIfNeeded, Trim, Join, QuoteSafe, Texts, ScopeFields, ScopeTokens, OptionalField, OptionalToken,
         TargetsWritable, FieldsText;
    var n: nat :| 1 <= n <= 200 && Trim(form.limit) == Decimal(n);
    LimitIsPlain(form.limit, n);
    NamesWithColon();
    var d := form.dates;
    ScopeTokensAreTexts(form);
    OptionalTokenIsText("sender", form.sender);
    OptionalTokenIsText("date", d.date);
    OptionalTokenIsText("after", d.after);
    OptionalTokenIsText("before", d.before);
    LimitText(form.limit);
    var scope, sender := ScopeFields(form), OptionalField("sender", form.sender);
    var date, after, before := OptionalField("date", d.date), OptionalField("after", d.after), OptionalField("before", d.before);
    var limit := [Field("limit", form.limit)];
    TextsConcat(date, after);
    TextsConcat(date + after, before);
    TextsConcat(scope, sender);
    TextsConcat(scope + sender, date + after + before);
    TextsConcat(scope + sender + (date + after + before), limit);
    assert Texts(FormFields(form)) + [form.query]
        == Texts(scope) + Texts(sender) + Texts(date) + Texts(after) + Texts(before) + ["limit:" + Trim(form.limit)] + [form.query];
    JoinOfTexts(FormFields(form), form.query);
  }

  lemma LimitText(limit: string)
    ensures Texts([Field("limit", limit)]) == ["limit:" + QuoteIfNeeded(limit)]
  {
    hide QuoteIfNeeded;
    NamesWithColon();
  }

  // ----- Reading the fields back -----

  function ApplyAll(reader: DateReader, p: ParsedSearch, fs: seq<Field>): Result<ParsedSearch>
    decreases fs
  {
    if fs == [] then Ok(p)
    else match KindOf(fs[0].name)
      case None => Err("")
      case Some(kind) =>
        match ApplyField(reader, p, fs[0].name, kind, Trim(fs[0].value))
        case Err(e) => Err(e)
        case Ok(p') => ApplyAll(reader, p', fs[1..])
  }

  predicate Known(fs: seq<Field>) {
    forall i :: 0 <= i < |fs| ==> KindOf(fs[i].name).Some? && ':' !in fs[i].name
  }

  lemma {:induction false} ApplyConcat(reader: DateReader, p: ParsedSearch, fs: seq<Field>, gs: seq<Field>)
    ensures ApplyAll(reader, p, fs + gs)
         == match ApplyAll(reader, p, fs) case Err(e) => Err(e) case Ok(p') => ApplyAll(reader, p', gs)
    decreases fs
  {
    hide ApplyField, KindOf, Trim;
    if fs == [] {
      assert fs + gs == gs;
    } else {
      assert (fs + gs)[0] == fs[0] && (fs + gs)[1..] == fs[1..] + gs;
      var kind := KindOf(fs[0].name);
      if kind.Some? {
        var applied := ApplyField(reader, p, fs[0].name, kind.value, Trim(fs[0].value));
        if applied.Ok? {
          ApplyConcat(reader, applied.value, fs[1..], gs);
        }
      }
    }
  }

  lemma FieldWord(f: Field)
    requires KindOf(f.name).Some? && ':' !in f.name
    ensures var cooked := f.name + ":" + Trim(f.value);
            cooked != "--" && FieldOf(cooked) == Some((f.name, KindOf(f.name).value, Trim(f.value)))
  {
    hide KindOf, Trim;
    var cooked := f.name + ":" + Trim(f.value);
    assert cooked == f.name + [':'] + Trim(f.value);
    SplitOnceAt(f.name, ':', Trim(f.value));
    assert cooked[|f.name|] == ':';
  }

  /** Reading the rest of the words after some fields. */
  function ReadOn(reader: DateReader, applied: Result<ParsedSearch>, rest: seq<Span>): Result<Reading> {
    match applied
    case Err(e) => Err(e)
    case Ok(p) => ReadWords(reader, rest, p, true)
  }

  lemma {:induction false} ReadFieldWords(reader: DateReader, fs: seq<Field>, pos: nat, rest: seq<Span>, p: ParsedSearch)
    requires Known(fs)
    ensures ReadWords(reader, FieldSpans(fs, pos) + rest, p, true) == ReadOn(reader, ApplyAll(reader, p, fs), rest)
    decreases fs
  {
    hide ApplyField, KindOf, Trim, FieldOf, FieldText, ReadWords, FieldSpans;
    FieldSpansHead(fs, pos);
    if fs == [] {
      assert FieldSpans(fs, pos) + rest == rest;
    } else {
      var f := fs[0];
      FieldWord(f);
      var end := pos + |FieldText(f)|;
      var word, later := Span(f.name + ":" + Trim(f.value), pos, end), FieldSpans(fs[1..], end + 1) + rest;
      assert FieldSpans(fs, pos) + rest == [word] + later;
      ReadFieldWord(reader, word, later, p, f.name, KindOf(f.name).value, Trim(f.value));
      var applied := ApplyField(reader, p, f.name, KindOf(f.name).value, Trim(f.value));
      if applied.Ok? {
        ReadFieldWords(reader, fs[1..], end + 1, rest, applied.value);
      }
    }
  }

  lemma FieldSpansHead(fs: seq<Field>, pos: nat)
    ensures fs == [] ==> FieldSpans(fs, pos) == []
    ensures fs != [] ==>
              var end := pos + |FieldText(fs[0])|;
              FieldSpans(fs, pos) == [Span(fs[0].name + ":" + Trim(fs[0].value), pos, end)] + FieldSpans(fs[1..], end + 1)
  {
    hide FieldText, Trim;
  }

  lemma ReadFieldWord(reader: DateReader, word: Span, rest: seq<Span>, p: ParsedSearch, name: string, kind: Kind, value: string)
    requires word.cooked != "--" && FieldOf(word.cooked) == Some((name, kind, value))
    ensures ReadWords(reader, [word] + rest, p, true) == ReadOn(reader, ApplyField(reader, p, name, kind, value), rest)
  {
    hide ApplyField, FieldOf;
    assert ([word] + rest)[1..] == rest;
  }

  /** The same reading, of words that stand `k` characters later. */
  function Moved(r: Result<Reading>, k: nat): Result<Reading> {
    match r
    case Err(e) => Err(e)
    case Ok(v) => Ok(v.(start := if v.start.Some? then Some(v.start.value + k) else None))
  }

  lemma {:induction false} ReadMovedWords(reader: DateReader, words: seq<Span>, k: nat, p: ParsedSearch, fields: bool)
    ensures ReadWords(reader, Shifted(words, k), p, fields) == Moved(ReadWords(reader, words, p, fields), k)
    decreases words
  {
    hide ApplyField, FieldOf;
    if words != [] {
      var field := FieldOf(words[0].cooked);
      assert Shifted(words, k)[1..] == Shifted(words[1..], k);
      if words[0].cooked == "--" {
        ReadMovedWords(reader, words[1..], k, p, false);
      } else if fields && field.Some? {
        var applied := ApplyField(reader, p, field.value.0, field.value.1, field.value.2);
        if applied.Ok? {
          ReadMovedWords(reader, words[1..], k, applied.value, true);
        }
      }
    }
  }

  /** What is left to parse once some fields have been read. */
  function ParsedAfter(reader: DateReader, applied: Result<ParsedSearch>, query: string): Result<ParsedSearch> {
    match Words(query)
    case Err(e) => Err(e)
    case Ok(words) =>
      match ReadOn(reader, applied, words)
      case Err(e) => Err(e)
      case Ok(r) => Checked(r.parsed.(query := QueryText(query, r.start)))
  }

  /** Written fields matter to a line through what they set only. */
  lemma ParseOfFieldsAndQuery(reader: DateReader, fs: seq<Field>, query: string)
    requires AllWritable(fs) && Known(fs)
    ensures ParsedTerms(reader, FieldsText(fs) + query) == ParsedAfter(reader, ApplyAll(reader, NOTHING_PARSED, fs), query)
  {
    hide Words, ReadWords, FieldsText, FieldSpans, Trim, AllWritable, Known, ApplyAll, Shifted, Checked, IsWordOf;
    WordsOfFieldsAndQuery(fs, query);
    if Words(query).Ok? {
      var words, prefix := Words(query).value, FieldsText(fs);
      var applied := ApplyAll(reader, NOTHING_PARSED, fs);
      ReadFieldWords(reader, fs, 0, Shifted(words, |prefix|), NOTHING_PARSED);
      if applied.Ok? {
        ReadMovedWords(reader, words, |prefix|, applied.value, true);
        var r := ReadWords(reader, words, applied.value, true);
        if r.Ok? && r.value.start.Some? {
          QueryOfMovedText(prefix, query, r.value.start.value);
        }
      }
    }
  }

  lemma QueryOfMovedText(prefix: string, query: string, start: nat)
    ensures QueryText(prefix + query, Some(start + |prefix|)) == QueryText(query, Some(start))
  {
    hide Trim;
    if start <= |query| {
      assert (prefix + query)[start + |prefix|..] == query[start..];
    }
  }

  /** The same fields, some under another of their names. */
  predicate Synonymous(fs: seq<Field>, gs: seq<Field>) {
    |fs| == |gs| && forall i :: 0 <= i < |fs| ==> KindOf(fs[i].name) == KindOf(gs[i].name) && fs[i].value == gs[i].value
  }

  /** The same parse, or two failures, whose texts may name the field differently. */
  predicate Alike(a: Result<ParsedSearch>, b: Result<ParsedSearch>) {
    a == b || (a.Err? && b.Err?)
  }

  lemma AppliedByKind(reader: DateReader, p: ParsedSearch, name: string, name': string, kind: Kind, value: string)
    ensures Alike(ApplyField(reader, p, name, kind, value), ApplyField(reader, p, name', kind, value))
  {
    hide ApplyDateRange, ApplyAfter, ApplyBefore, Trim, ParseInt;
  }

  lemma {:induction false} SynonymsApplyAlike(reader: DateReader, p: ParsedSearch, fs: seq<Field>, gs: seq<Field>)
    requires Synonymous(fs, gs)
    ensures Alike(ApplyAll(reader, p, fs), ApplyAll(reader, p, gs))
    decreases fs
  {
    hide ApplyField, KindOf, Trim;
    if fs != [] && KindOf(fs[0].name).Some? {
      var kind, value := KindOf(fs[0].name).value, Trim(fs[0].value);
      AppliedByKind(reader, p, fs[0].name, gs[0].name, kind, value);
      var applied := ApplyField(reader, p, fs[0].name, kind, value);
      if applied.Ok? {
        SynonymsApplyAlike(reader, applied.value, fs[1..], gs[1..]);
      }
    }
  }

  /** A line reads the same whichever of its names each field is written with. */
  lemma SynonymsParseAlike(reader: DateReader, fs: seq<Field>, gs: seq<Field>, query: string)
    requires AllWritable(fs) && Known(fs) && AllWritable(gs) && Known(gs) && Synonymous(fs, gs)
    ensures Alike(ParsedTerms(reader, FieldsText(fs) + query), ParsedTerms(reader, FieldsText(gs) + query))
  {
    hide Words, ReadWords, FieldsText, AllWritable, Known, ApplyAll, Synonymous, Checked, QueryText;
    ParseOfFieldsAndQuery(reader, fs, query);
    ParseOfFieldsAndQuery(reader, gs, query);
    SynonymsApplyAlike(reader, NOTHING_PARSED, fs, gs);
  }

  /** Two names for one field. */
  predicate AreSynonyms(name: string, other: string) {
    || (name == "from" && other == "sender")
    || (name == "received" && other == "date")
    || (name == "to" && other == "before")
  }

  /** So each documented synonym can stand for the other name before any value and query. */
  lemma EachSynonym(reader: DateReader, name: string, other: string, value: string, query: string)
    requires AreSynonyms(name, other) && QuoteSafe(value)
    ensures var rest := ":" + QuoteIfNeeded(value) + " " + query;
            Alike(ParsedTerms(reader, name + rest), ParsedTerms(reader, other + rest))
  {
    hide ParsedTerms, QuoteSafe, QuoteIfNeeded, AreSynonyms, Plain, KindOf, FieldsText;
    var f, g := Field(name, value), Field(other, value);
    SynonymsAreNames(name, other);
    LineOfOneField(f, query);
    LineOfOneField(g, query);
    SynonymsParseAlike(reader, [f], [g], query);
  }

  lemma SynonymsAreNames(name: string, other: string)
    requires AreSynonyms(name, other)
    ensures Plain(name) && Plain(other) && ':' !in name && ':' !in other
    ensures KindOf(name) == KindOf(other) && KindOf(name).Some?
  {
    hide IsSpace;
    PlainNames();
    assert Plain("from") && Plain("received") && Plain("to") by { LettersAreNoSpaces(); }
  }

  lemma LettersAreNoSpaces()
    ensures forall c {:trigger IsSpace(c)} :: 'a' <= c <= 'z' ==> !IsSpace(c)
  {
  }

  lemma LineOfOneField(f: Field, query: string)
    ensures FieldsText([f]) + query == f.name + (":" + QuoteIfNeeded(f.value) + " " + query)
  {
    hide QuoteIfNeeded;
    assert [f][1..] == [];
  }

  // ----- What a written form says -----

  lemma Kinds()
    ensures KindOf("room") == Some(Room) && KindOf("account") == Some(Account) && KindOf("sender") == Some(Sender)
    ensures KindOf("limit") == Some(Limit) && KindOf("date") == Some(DateRange)
    ensures KindOf("after") == Some(AfterDate) && KindOf("before") == Some(BeforeDate)
  {
  }

  lemma NamesHaveNoColon()
    ensures ':' !in "room" && ':' !in "account" && ':' !in "sender" && ':' !in "limit"
    ensures ':' !in "date" && ':' !in "after" && ':' !in "before"
  {
  }

  lemma FormFieldsAreKnown(form: Form)
    ensures Known(FormFields(form))
  {
    hide KindOf, Trim;
    Kinds();
    NamesHaveNoColon();
  }

  function ScopeParsed(form: Form): ParsedSearch {
    match form.scope
    case CurrentRoom => NOTHING_PARSED
    case CurrentAccount => NOTHING_PARSED.(room := Some("*"))
    case Everywhere => NOTHING_PARSED.(account := Some("*"))
    case SpecificRoom =>
      NOTHING_PARSED.(room := Some(Trim(form.room)),
                      account := if Trim(form.account) == [] then None else Some(Trim(form.account)))
    case SpecificAccount => NOTHING_PARSED.(account := Some(Trim(form.account)), room := Some("*"))
  }

  lemma ApplyOne(reader: DateReader, p: ParsedSearch, f: Field, kind: Kind)
    requires KindOf(f.name) == Some(kind)
    ensures ApplyAll(reader, p, [f]) == ApplyField(reader, p, f.name, kind, Trim(f.value))
  {
    hide ApplyField, KindOf, Trim;
    assert [f][1..] == [];
  }

  lemma ApplyTarget(reader: DateReader, p: ParsedSearch, f: Field, kind: Kind)
    requires KindOf(f.name) == Some(kind) && (kind.Room? || kind.Account? || kind.Sender?)
    requires Trim(f.value) != []
    ensures ApplyAll(reader, p, [f])
         == Ok(if kind.Room? then p.(room := Some(Trim(f.value)))
               else if kind.Account? then p.(account := Some(Trim(f.value)))
               else p.(sender := Some(Trim(f.value))))
  {
    hide KindOf, Trim, ApplyAll;
    TrimIsIdempotent(f.value);
    ApplyOne(reader, p, f, kind);
  }

  lemma AppliedScope(reader: DateReader, form: Form)
    requires TargetsWritable(form)
    ensures ApplyAll(reader, NOTHING_PARSED, ScopeFields(form)) == Ok(ScopeParsed(form))
  {
    hide KindOf, Trim, ApplyAll, QuoteSafe;
    Kinds();
    StarIsPlain();
    var p := NOTHING_PARSED;
    ApplyNothing(reader, p);
    var star := Field("room", "*");
    match form.scope
    case CurrentRoom =>
    case CurrentAccount => ApplyTarget(reader, p, star, Room);
    case Everywhere => ApplyTarget(reader, p, Field("account", "*"), Account);
    case SpecificRoom =>
      var room := Field("room", form.room);
      ApplyTarget(reader, p, room, Room);
      if Trim(form.account) == [] {
        assert [room] + [] == [room];
      } else {
        ApplyConcat(reader, p, [room], [Field("account", form.account)]);
        ApplyTarget(reader, p.(room := Some(Trim(form.room))), Field("account", form.account), Account);
      }
    case SpecificAccount =>
      var account := Field("account", form.account);
      ApplyConcat(reader, p, [account], [star]);
      assert [account] + [star] == [account, star];
      ApplyTarget(reader, p, account, Account);
      ApplyTarget(reader, p.(account := Some(Trim(form.account))), star, Room);
  }

  lemma ApplyNothing(reader: DateReader, p: ParsedSearch)
    ensures ApplyAll(reader, p, []) == Ok(p)
  {
  }

  lemma AppliedSender(reader: DateReader, p: ParsedSearch, sender: string)
    ensures ApplyAll(reader, p, OptionalField("sender", sender))
         == Ok(if Trim(sender) == [] then p else p.(sender := Some(Trim(sender))))
  {
    hide KindOf, Trim, ApplyAll;
    Kinds();
    ApplyNothing(reader, p);
    if Trim(sender) != [] {
      ApplyTarget(reader, p, Field("sender", sender), Sender);
    }
  }

  lemma AppliedLimit(reader: DateReader, p: ParsedSearch, limit: string, n: nat)
    requires 1 <= n <= 200 && Trim(limit) == Decimal(n)
    ensures ApplyAll(reader, p, [Field("limit", limit)]) == Ok(p.(limit := n))
  {
    hide KindOf, Trim, ApplyAll, ParseInt, Decimal;
    Kinds();
    TrimIsIdempotent(limit);
    ParseOfDecimal(n, false, 0, USIZE_MAX);
    ApplyOne(reader, p, Field("limit", limit), Limit);
  }

  /** The date fields alone set the bounds, as `ReadFields` does. */
  lemma AppliedDates(reader: DateReader, p: ParsedSearch, d: DateFields)
    requires p.from == None && p.to == None
    requires Trim(d.date) == d.date && Trim(d.after) == d.after && Trim(d.before) == d.before
    ensures ApplyAll(reader, p, DateFieldList(d)) == WithBounds(p, ReadFields(reader, d))
  {
    hide KindOf, Trim, ApplyAll, ApplyDateRange, ApplyAfter, ApplyBefore;
    Kinds();
    var date, after, before := OptionalField("date", d.date), OptionalField("after", d.after), OptionalField("before", d.before);
    ApplyConcat(reader, p, date + after, before);
    ApplyConcat(reader, p, date, after);
    ApplyOne(reader, p, Field("date", d.date), DateRange);
    ApplyNothing(reader, p);
    var p1 := ApplyAll(reader, p, date);
    if p1.Ok? {
      ApplyOne(reader, p1.value, Field("after", d.after), AfterDate);
      ApplyNothing(reader, p1.value);
      var p2 := ApplyAll(reader, p1.value, after);
      if p2.Ok? {
        ApplyOne(reader, p2.value, Field("before", d.before), BeforeDate);
        ApplyNothing(reader, p2.value);
      }
    }
  }

  function FormParsed(form: Form, n: nat, bounds: Bounds): ParsedSearch {
    ScopeParsed(form).(sender := if Trim(form.sender) == [] then None else Some(Trim(form.sender)),
                       from := bounds.from, to := bounds.to, limit := n)
  }

  lemma AppliedForm(reader: DateReader, form: Form, start: Option<NaiveDate>, end: Option<NaiveDate>, n: nat)
    requires FormWritable(form, start, end) && PhrasesAreWords(reader)
    requires 1 <= n <= 200 && Trim(form.limit) == Decimal(n)
    ensures ApplyAll(reader, NOTHING_PARSED, FormFields(form)) == Ok(FormParsed(form, n, DayBounds(start, end)))
  {
    hide Trim, ApplyAll, ScopeFields, OptionalField, DateFieldList, TargetsWritable, DayBounds, ReadFields, DateFieldsFromBounds;
    var scope, sender, dates := ScopeFields(form), OptionalField("sender", form.sender), DateFieldList(form.dates);
    var p0 := NOTHING_PARSED;
    AppliedScope(reader, form);
    var p1 := ScopeParsed(form);
    AppliedSender(reader, p1, form.sender);
    var p2 := if Trim(form.sender) == [] then p1 else p1.(sender := Some(Trim(form.sender)));
    DatesAreTrimmed(start, end);
    AppliedDates(reader, p2, form.dates);
    BoundsRoundTrip(reader, start, end);
    var bounds := DayBounds(start, end);
    var p3 := p2.(from := bounds.from, to := bounds.to);
    AppliedLimit(reader, p3, form.limit, n);
    ApplyConcat(reader, p0, scope, sender);
    ApplyConcat(reader, p0, scope + sender, dates);
    ApplyConcat(reader, p0, scope + sender + dates, [Field("limit", form.limit)]);
  }

  lemma DatesAreTrimmed(start: Option<NaiveDate>, end: Option<NaiveDate>)
    requires IsRepresentable(start) && IsRepresentable(end)
    ensures var d := DateFieldsFromBounds(DayBounds(start, end));
            Trim(d.date) == d.date && Trim(d.after) == d.after && Trim(d.before) == d.before
  {
    hide Trim, DateText, DayBounds, DateFieldsFromBounds;
    DatesAreWritable(start, end);
    TrimOfTrimmed([]);
    var d := DateFieldsFromBounds(DayBounds(start, end));
    if d.date != [] { DateTextIsTrimmed(d.date); }
    if d.after != [] { DateTextIsTrimmed(d.after); }
    if d.before != [] { DateTextIsTrimmed(d.before); }
  }

  lemma FormPassesCheck(form: Form, start: Option<NaiveDate>, end: Option<NaiveDate>, n: nat, query: string)
    requires FormWritable(form, start, end)
    ensures var p := FormParsed(form, n, DayBounds(start, end)).(query := query); Checked(p) == Ok(p)
  {
    hide Trim, StartOfDayMs, EndOfDayMs, TargetsWritable, LimitWritable, DateFieldsFromBounds, DaysSinceEpoch;
    if start.Some? && end.Some? {
      DayWindow(start.value);
      DayWindow(end.value);
      CountIsOrderIsomorphic(end.value, start.value);
    }
  }

  lemma FormIsRestored(form: Form, start: Option<NaiveDate>, end: Option<NaiveDate>, n: nat)
    requires FormWritable(form, start, end) && Trim(form.limit) == Decimal(n)
    ensures Restores(form, FromParsed(FormParsed(form, n, DayBounds(start, end)).(query := Trim(form.query))))
  {
    hide Trim, DayBounds, DateFieldsFromBounds, QuoteSafe, LimitWritable, Decimal;
    assert "*" != "";
  }

  // ----- The query -----

  lemma {:induction false} TrimEndOfSuffix(s: string, i: nat)
    requires i < |s| && !IsSpace(s[i])
    ensures |TrimEnd(s[i..])| == |TrimEnd(s)| - i > 0
  {
    if IsSpace(s[|s| - 1]) {
      assert i < |s| - 1;
      assert s[i..][..|s[i..]| - 1] == s[..|s| - 1][i..];
      TrimEndOfSuffix(s[..|s| - 1], i);
    }
  }

  /** Cutting at a later non-blank leaves strictly less. */
  lemma LaterCutIsShorter(s: string, i: nat, j: nat)
    requires i < j < |s| && !IsSpace(s[i]) && !IsSpace(s[j])
    ensures |Trim(s[j..])| < |Trim(s[i..])|
  {
    hide IsSpace, TrimEnd;
    assert s[i..][0] == s[i] && s[j..][0] == s[j];
    TrimEndOfSuffix(s, i);
    TrimEndOfSuffix(s, j);
  }

  lemma TrimFromFirstWord(s: string, words: seq<Span>)
    requires Words(s) == Ok(words)
    ensures words == [] ==> Trim(s) == []
    ensures words != [] ==> words[0].start < |s| && Trim(s[words[0].start..]) == Trim(s)
  {
    hide Words, TrimEnd, IsSpace, UnquoteAll;
    WordsPartitionInput(s);
    if words == [] {
      assert Blank(s);
      TrimEnds(s);
    } else {
      assert IsWordOf(s, words[0]);
      var i := words[0].start;
      assert Blank(s[..i]) by {
        forall k | 0 <= k < |s[..i]| ensures IsSpace(s[..i][k]) {
          assert s[..i][k] == s[k];
          assert !Covered(words, k) by { FirstStartsFirst(words, k); }
        }
      }
      assert s[..i] + s[i..] == s;
      TrimStartSkipsBlank(s[..i], s[i..]);
    }
  }

  lemma FirstStartsFirst(words: seq<Span>, k: nat)
    requires words != [] && Separated(words) && k < words[0].start < words[0].end
    ensures !Covered(words, k)
  {
    forall i | 0 <= i < |words| ensures words[0].start <= words[i].start {
      if i > 0 { assert words[0].end < words[i].start; }
    }
  }

  /** The query read from words moved by a prefix: the whole query when its first word is
      plain, and strictly less than it otherwise. */
  lemma QueryOfMovedWords(reader: DateReader, prefix: string, query: string, words: seq<Span>, p: ParsedSearch)
    requires Words(query) == Ok(words)
    ensures var r := ReadWords(reader, Shifted(words, |prefix|), p, true);
            && (QueryIsPlain(query) ==> r.Ok? && r.value.parsed == p && QueryText(prefix + query, r.value.start) == Trim(query))
            && (!QueryIsPlain(query) && r.Ok? ==> |QueryText(prefix + query, r.value.start)| < |Trim(query)|)
  {
    hide Words, FieldOf, ApplyField, Trim;
    var k := |prefix|;
    var moved := Shifted(words, k);
    TrimFromFirstWord(query, words);
    if words == [] {
      assert moved == [];
    } else {
      var first := words[0].start;
      assert moved[0] == Span(words[0].cooked, first + k, words[0].end + k);
      assert (prefix + query)[first + k..] == query[first..];
      if !QueryIsPlain(query) && ReadWords(reader, moved, p, true).Ok? {
        LaterWordsCutLater(reader, prefix, query, words, p);
      }
    }
  }

  /** A first word that is not plain is consumed, so the query starts at a later word, if at all. */
  lemma FirstWordIsConsumed(reader: DateReader, words: seq<Span>, p: ParsedSearch)
    requires words != [] && (words[0].cooked == "--" || FieldOf(words[0].cooked).Some?)
    requires ReadWords(reader, words, p, true).Ok?
    ensures var start := ReadWords(reader, words, p, true).value.start;
            start.None? || exists j :: 0 < j < |words| && words[j].start == start.value
  {
    hide FieldOf, ApplyField;
    var start := ReadWords(reader, words, p, true).value.start;
    var field := FieldOf(words[0].cooked);
    if words[0].cooked == "--" {
      QueryStartsAtWord(reader, words[1..], p, false);
    } else {
      QueryStartsAtWord(reader, words[1..], ApplyField(reader, p, field.value.0, field.value.1, field.value.2).value, true);
    }
    if start.Some? {
      var i :| 0 <= i < |words[1..]| && words[1..][i].start == start.value;
      assert words[1..][i] == words[i + 1];
    }
  }

  lemma LaterWordsCutLater(reader: DateReader, prefix: string, query: string, words: seq<Span>, p: ParsedSearch)
    requires Words(query) == Ok(words) && words != [] && !QueryIsPlain(query)
    requires ReadWords(reader, Shifted(words, |prefix|), p, true).Ok?
    ensures |QueryText(prefix + query, ReadWords(reader, Shifted(words, |prefix|), p, true).value.start)| < |Trim(query)|
  {
    hide Words, FieldOf, ApplyField, Trim, IsSpace, IsWordOf, ReadWords;
    var k := |prefix|;
    var moved := Shifted(words, k);
    var start := ReadWords(reader, moved, p, true).value.start;
    WordsPartitionInput(query);
    TrimFromFirstWord(query, words);
    WordStartsNonBlank(query, words[0]);
    var first := words[0].start;
    FirstWordIsConsumed(reader, moved, p);
    if start.Some? {
      var j :| 0 < j < |moved| && moved[j].start == start.value;
      var cut := words[j].start;
      WordStartsNonBlank(query, words[j]);
      assert (prefix + query)[cut + k..] == query[cut..];
      LaterCutIsShorter(query, first, cut);
    }
  }

  lemma WordStartsNonBlank(s: string, w: Span)
    requires IsWordOf(s, w)
    ensures w.start < w.end <= |s| && !IsSpace(s[w.start]) && Trim(s[w.start..]) != []
  {
    hide IsSpace, Trim, UnquoteAll;
    assert s[w.start..][0] == s[w.start];
    TrimEnds(s[w.start..]);
  }

  // ----- The round trip -----

  /** A writable form comes back from its own language whole, up to trimming, and its query
      comes back exactly when the query is plain. */
  lemma FormRoundTrip(reader: DateReader, form: Form, start: Option<NaiveDate>, end: Option<NaiveDate>)
    requires FormWritable(form, start, end) && PhrasesAreWords(reader)
    ensures var r := ToParsed(reader, form);
            && (QueryIsPlain(form.query) ==> r.Ok? && Restores(form, FromParsed(r.value)))
            && (QueryIsPlain(form.query) <==> r.Ok? && FromParsed(r.value).query == Trim(form.query))
  {
    hide Words, ReadWords, FormFields, FieldsText, FieldSpans, Trim, Restores, TargetsWritable, DayBounds,
         DateFieldsFromBounds, Checked, QueryText, AllWritable, Known, ApplyAll, FormParsed, ToParsed, Shifted, QueryIsPlain;
    var n: nat :| 1 <= n <= 200 && Trim(form.limit) == Decimal(n);
    var fs, prefix := FormFields(form), FieldsText(FormFields(form));
    var full := prefix + form.query;
    TokensAreFieldTexts(reader, form);
    FieldsAreWritable(form, start, end);
    FormFieldsAreKnown(form);
    WordsOfFieldsAndQuery(fs, form.query);
    var p := FormParsed(form, n, DayBounds(start, end));
    AppliedForm(reader, form, start, end, n);
    if Words(form.query).Err? {
      assert !QueryIsPlain(form.query) by { OpenQuoteIsNotPlain(form.query); }
    } else {
      var words := Words(form.query).value;
      var moved := Shifted(words, |prefix|);
      ReadFieldWords(reader, fs, 0, moved, NOTHING_PARSED);
      QueryOfMovedWords(reader, prefix, form.query, words, p);
      if QueryIsPlain(form.query) {
        FormPassesCheck(form, start, end, n, Trim(form.query));
        FormIsRestored(form, start, end, n);
        assert Restores(form, FromParsed(ToParsed(reader, form).value));
        RestoresQuery(form, FromParsed(ToParsed(reader, form).value));
      } else if ToParsed(reader, form).Ok? {
        var r := ReadWords(reader, moved, p, true).value;
        CheckKeeps(r.parsed.(query := QueryText(full, r.start)));
      }
    }
  }

  lemma OpenQuoteIsNotPlain(query: string)
    requires Words(query).Err?
    ensures !QueryIsPlain(query)
  {
  }

  lemma RestoresQuery(form: Form, back: Form)
    requires Restores(form, back)
    ensures back.query == Trim(form.query)
  {
  }

  lemma CheckKeeps(p: ParsedSearch)
    requires Checked(p).Ok?
    ensures Checked(p).value == p
  {
  }

  /** The form as it first opens. */
  const DEFAULT_FORM := Form(CurrentRoom, "", "", "", "", DateFields("", "", ""), Decimal(DEFAULT_LIMIT))

  /** The default form, and with it every form that adds a sender that survives quoting, is
      writable. */
  lemma DefaultFormIsWritable(sender: string, query: string)
    requires QuoteSafe(sender)
    ensures FormWritable(DEFAULT_FORM.(sender := sender, query := query), None, None)
  {
    hide QuoteSafe, Trim, Decimal;
    DigitsArePlain(Decimal(20));
    assert Trim(DEFAULT_FORM.limit) == Decimal(20);
  }
}
