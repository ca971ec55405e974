/** The search language: fields, then a query. */
module SearchTerms {
  import opened Text
  import opened SearchWords
  import opened SearchDates

  const DEFAULT_LIMIT: nat := 20
  const USIZE_MAX := 0xffff_ffff_ffff_ffff

  datatype ParsedSearch = ParsedSearch(
    query: string,
    account: Option<string>,
    room: Option<string>,
    sender: Option<string>,
    all: bool,
    from: Option<int>,
    to: Option<int>,
    limit: nat)

  const NOTHING_PARSED := ParsedSearch("", None, None, None, false, None, None, DEFAULT_LIMIT)

  datatype Kind = Account | Room | Sender | All | Limit | DateRange | BeforeDate | AfterDate

  function KindOf(name: string): Option<Kind> {
    if name == "account" then Some(Account)
    else if name == "room" then Some(Room)
    else if name == "sender" || name == "from" then Some(Sender)
    else if name == "all" then Some(All)
    else if name == "limit" then Some(Limit)
    else if name == "date" || name == "received" then Some(DateRange)
    else if name == "before" || name == "to" then Some(BeforeDate)
    else if name == "after" then Some(AfterDate)
    else None
  }

  function NonemptyValue(name: string, value: string): Result<string> {
    if Trim(value) == [] then Err(name + ": requires a value") else Ok(Trim(value))
  }

  function ParseBool(name: string, value: string): Result<bool> {
    var v := Trim(value);
    if v == "true" || v == "yes" || v == "1" then Ok(true)
    else if v == "false" || v == "no" || v == "0" then Ok(false)
    else Err(name + ": must be true or false")
  }

  function Clamp(n: int): nat {
    if n < 1 then 1 else if n > 200 then 200 else n
  }

  function WithBounds(p: ParsedSearch, bounds: Result<Bounds>): Result<ParsedSearch> {
    match bounds
    case Ok(b) => Ok(p.(from := b.from, to := b.to))
    case Err(e) => Err(e)
  }

  function ApplyField(reader: DateReader, p: ParsedSearch, name: string, kind: Kind, value: string): Result<ParsedSearch> {
    var bounds := Bounds(p.from, p.to);
    if kind.DateRange? then WithBounds(p, ApplyDateRange(reader, bounds, value))
    else if kind.BeforeDate? then WithBounds(p, ApplyBefore(reader, bounds, value))
    else if kind.AfterDate? then WithBounds(p, ApplyAfter(reader, bounds, value))
    else if kind.All? then
      match ParseBool(name, value)
      case Ok(b) => Ok(p.(all := b))
      case Err(e) => Err(e)
    else
      match NonemptyValue(name, value)
      case Err(e) => Err(e)
      case Ok(v) =>
        if kind.Account? then Ok(p.(account := Some(v)))
        else if kind.Room? then Ok(p.(room := Some(v)))
        else if kind.Sender? then Ok(p.(sender := Some(v)))
        else
          match ParseInt(v, false, 0, USIZE_MAX)
          case None => Err("limit must be a number")
          case Some(n) => Ok(p.(limit := Clamp(n)))
  }

  /** The field a word names, with its value, when the word is a field at all. */
  function FieldOf(cooked: string): Option<(string, Kind, string)> {
    match SplitOnce(cooked, ':')
    case None => None
    case Some((name, value)) =>
      if KindOf(name).None? then None else Some((name, KindOf(name).value, value))
  }

  /** What the words say: the fields, and the character at which the query starts. */
  datatype Reading = Reading(parsed: ParsedSearch, start: Option<nat>)

  /** Fields are read up to the first word that is none; `--` ends them and is dropped. */
  function ReadWords(reader: DateReader, words: seq<Span>, p: ParsedSearch, fields: bool): Result<Reading> {
    if words == [] then Ok(Reading(p, None))
    else if words[0].cooked == "--" then ReadWords(reader, words[1..], p, false)
    else
      var field := FieldOf(words[0].cooked);
      if fields && field.Some? then
        match ApplyField(reader, p, field.value.0, field.value.1, field.value.2)
        case Err(e) => Err(e)
        case Ok(p') => ReadWords(reader, words[1..], p', true)
      else Ok(Reading(p, Some(words[0].start)))
  }

  function QueryText(input: string, start: Option<nat>): string {
    if start.Some? && start.value <= |input| then Trim(input[start.value..]) else []
  }

  function Checked(p: ParsedSearch): Result<ParsedSearch> {
    if p.all && (p.account.Some? || p.room.Some?) then Err("all:true cannot be combined with account: or room:")
    else if p.from.Some? && p.to.Some? && p.from.value > p.to.value then Err("date range starts after it ends")
    else Ok(p)
  }

  function ParsedTerms(reader: DateReader, input: string): Result<ParsedSearch> {
    match Words(input)
    case Err(e) => Err(e)
    case Ok(words) =>
      match ReadWords(reader, words, NOTHING_PARSED, true)
      case Err(e) => Err(e)
      case Ok(r) => Checked(r.parsed.(query := QueryText(input, r.start)))
  }

  // ----- The query is a verbatim piece of the input -----

  /** Every word before index `k` is a field or `--`. */
  predicate OnlyFields(words: seq<Span>, k: nat)
    requires k <= |words|
  {
    forall i :: 0 <= i < k ==> words[i].cooked == "--" || FieldOf(words[i].cooked).Some?
  }

  lemma {:induction false} QueryStartsAtWord(reader: DateReader, words: seq<Span>, p: ParsedSearch, fields: bool)
    requires ReadWords(reader, words, p, fields).Ok?
    ensures var start := ReadWords(reader, words, p, fields).value.start;
            start.None? || exists k :: 0 <= k < |words| && words[k].start == start.value && OnlyFields(words, k)
    ensures ReadWords(reader, words, p, fields).value.parsed.query == p.query
    decreases words
  {
    hide FieldOf, ApplyField;
    if words != [] {
      var field := FieldOf(words[0].cooked);
      var rest := words[1..];
      if words[0].cooked == "--" {
        QueryStartsAtWord(reader, rest, p, false);
        OneWordLater(words);
      } else if fields && field.Some? {
        ApplyFieldKeepsQuery(reader, p, field.value.0, field.value.1, field.value.2);
        QueryStartsAtWord(reader, rest, ApplyField(reader, p, field.value.0, field.value.1, field.value.2).value, true);
        OneWordLater(words);
      } else {
        assert OnlyFields(words, 0);
        assert words[0].start == ReadWords(reader, words, p, fields).value.start.value;
      }
    }
  }

  lemma OneWordLater(words: seq<Span>)
    requires words != [] && (words[0].cooked == "--" || FieldOf(words[0].cooked).Some?)
    ensures forall k :: 0 <= k < |words[1..]| && OnlyFields(words[1..], k) ==>
              words[1..][k] == words[k + 1] && OnlyFields(words, k + 1)
  {
    hide FieldOf;
    var rest := words[1..];
    forall k | 0 <= k < |rest| && OnlyFields(rest, k) ensures OnlyFields(words, k + 1) {
      forall i | 0 <= i < k + 1 ensures words[i].cooked == "--" || FieldOf(words[i].cooked).Some? {
        assert i > 0 ==> words[i] == rest[i - 1];
      }
    }
  }

  lemma ApplyFieldKeepsQuery(reader: DateReader, p: ParsedSearch, name: string, kind: Kind, value: string)
    ensures ApplyField(reader, p, name, kind, value).Ok? ==> ApplyField(reader, p, name, kind, value).value.query == p.query
  {
    hide ApplyDateRange, ApplyAfter, ApplyBefore, ParseBool, ParseInt, NonemptyValue;
  }

  /** The query is the trimmed rest of the input from the first character of some word on,
      or empty; every earlier word is a field or `--`. */
  lemma QueryIsTrimmedSuffix(reader: DateReader, input: string)
    requires ParsedTerms(reader, input).Ok?
    ensures var query, words := ParsedTerms(reader, input).value.query, Words(input).value;
            || query == []
            || exists k :: && 0 <= k < |words| && words[k].start < |input|
                           && query == Trim(input[words[k].start..]) && OnlyFields(words, k)
  {
    hide ReadWords, Words, IsWordOf, OnlyFields, Trim;
    var words := Words(input).value;
    var r := ReadWords(reader, words, NOTHING_PARSED, true).value;
    QueryStartsAtWord(reader, words, NOTHING_PARSED, true);
    WordsPartitionInput(input);
    if r.start.Some? {
      var k :| 0 <= k < |words| && words[k].start == r.start.value && OnlyFields(words, k);
      WordIsInText(input, words[k]);
    }
  }

  // ----- What a parse promises -----

  predicate Given(value: Option<string>) {
    value.Some? ==> value.value != [] && Trim(value.value) == value.value
  }

  /** A limit in range, targets and sender trimmed and not empty. */
  predicate Sensible(p: ParsedSearch) {
    1 <= p.limit <= 200 && Given(p.account) && Given(p.room) && Given(p.sender)
  }

  lemma ApplyFieldIsSensible(reader: DateReader, p: ParsedSearch, name: string, kind: Kind, value: string)
    requires Sensible(p)
    ensures ApplyField(reader, p, name, kind, value).Ok? ==> Sensible(ApplyField(reader, p, name, kind, value).value)
  {
    hide ApplyDateRange, ApplyAfter, ApplyBefore, ParseBool, ParseInt, Trim;
    TrimIsIdempotent(value);
  }

  lemma {:induction false} ReadWordsIsSensible(reader: DateReader, words: seq<Span>, p: ParsedSearch, fields: bool)
    requires Sensible(p)
    ensures ReadWords(reader, words, p, fields).Ok? ==> Sensible(ReadWords(reader, words, p, fields).value.parsed)
    decreases words
  {
    hide FieldOf, ApplyField, Sensible;
    if words != [] {
      var field := FieldOf(words[0].cooked);
      if words[0].cooked == "--" {
        ReadWordsIsSensible(reader, words[1..], p, false);
      } else if fields && field.Some? {
        ApplyFieldIsSensible(reader, p, field.value.0, field.value.1, field.value.2);
        var applied := ApplyField(reader, p, field.value.0, field.value.1, field.value.2);
        if applied.Ok? {
          ReadWordsIsSensible(reader, words[1..], applied.value, true);
        }
      }
    }
  }

  /** Whatever is typed: a parse that succeeds has a limit of 1 to 200, non-empty trimmed
      targets and sender, bounds in order, and does not ask for everything and for a target. */
  lemma ParseIsSensible(reader: DateReader, input: string)
    requires ParsedTerms(reader, input).Ok?
    ensures var p := ParsedTerms(reader, input).value;
            && Sensible(p)
            && !(p.all && (p.account.Some? || p.room.Some?))
            && (p.from.Some? && p.to.Some? ==> p.from.value <= p.to.value)
  {
    hide Words, ReadWords, Trim;
    ReadWordsIsSensible(reader, Words(input).value, NOTHING_PARSED, true);
  }

  // ----- The loop over byte-addressed words -----

  /** The rest of the text at a byte offset, trimmed; empty when there is no such offset. */
  function TrimmedSuffix(input: string, offset: Option<nat>): string {
    if offset.None? then []
    else match SuffixAt(input, offset.value)
         case None => []
         case Some(s) => Trim(s)
  }

  lemma {:induction false} SuffixPastPrefix(a: string, t: string, k: nat)
    ensures SuffixAt(a + t, Bytes(a) + k) == SuffixAt(t, k)
  {
    hide Utf8Len;
    if a == [] {
      assert a + t == t;
    } else {
      var s := a + t;
      assert s[1..] == a[1..] + t && s[0] == a[0];
      assert SuffixAt(s, Bytes(a) + k) == SuffixAt(s[1..], Bytes(a[1..]) + k);
      SuffixPastPrefix(a[1..], t, k);
    }
  }

  lemma WordIsInText(input: string, w: Span)
    requires IsWordOf(input, w)
    ensures w.start < w.end <= |input|
  {
    hide UnquoteAll, IsSpace, Unbroken;
  }

  lemma LastEndsLast(words: seq<Span>, k: nat)
    requires words != [] && Separated(words)
    requires words[|words| - 1].start < words[|words| - 1].end <= k
    ensures !Covered(words, k)
  {
  }

  lemma NothingAfterLastWord(input: string, words: seq<Span>)
    requires words != [] && Words(input) == Ok(words)
    ensures words[|words| - 1].end <= |input| && Blank(input[words[|words| - 1].end..])
  {
    hide Words, IsWordOf, IsSpace;
    WordsPartitionInput(input);
    var last := words[|words| - 1];
    assert IsWordOf(input, last);
    assert last.start < last.end <= |input| by { WordIsInText(input, last); }
    var t := input[last.end..];
    forall i | 0 <= i < |t| ensures IsSpace(t[i]) {
      var k := last.end + i;
      assert t[i] == input[k];
      assert !Covered(words, k) by { LastEndsLast(words, k); }
    }
  }

  /** One byte past a word is still nothing but whitespace, if no word follows: even where
      that byte lies inside a multi-byte space. */
  lemma ByteAfterLastWord(input: string, words: seq<Span>)
    requires words != [] && Words(input) == Ok(words)
    ensures words[|words| - 1].end <= |input|
    ensures TrimmedSuffix(input, Some(Bytes(input[..words[|words| - 1].end]) + 1)) == []
  {
    hide Words, Trim, Bytes, IsSpace, SuffixAt;
    NothingAfterLastWord(input, words);
    var end := words[|words| - 1].end;
    var a, t := input[..end], input[end..];
    assert a + t == input;
    SuffixPastPrefix(a, t, 1);
    var rest := SuffixAt(t, 1);
    if rest.Some? {
      TrimEnds(rest.value);
    }
  }

  lemma SuffixOfWord(input: string, w: Span)
    requires IsWordOf(input, w)
    ensures TrimmedSuffix(input, Some(Bytes(input[..w.start]))) == QueryText(input, Some(w.start))
  {
    hide Trim, IsWordOf, Bytes, SuffixAt;
    WordIsInText(input, w);
    SuffixAtBoundary(input[..w.start], input[w.start..]);
    assert input[..w.start] + input[w.start..] == input;
  }

  method ParseSearchTerms(reader: DateReader, input: string) returns (r: Result<ParsedSearch>)
    ensures r == ParsedTerms(reader, input)
  {
    hide Words, IsWordOf, AllAtBytes, TrimmedSuffix, QueryText, Checked, ApplyField, FieldOf, IsSpace;
    var split := ShellWords(input);
    if split.Err? {
      return Err(split.error);
    }
    var tokens := split.value;
    ghost var words := Words(input).value;
    WordsPartitionInput(input);
    var parsed := NOTHING_PARSED;
    var parsingFields := true;
    var queryStart: Option<nat> := None;
    ghost var start: Option<nat> := None;
    var i := 0;
    AtBytesFacts(input, words);
    assert words[0..] == words;
    assert TrimmedSuffix(input, None) == QueryText(input, None) == [] by { NoQuery(input); }
    while i < |tokens|
      invariant 0 <= i <= |tokens| == |words|
      invariant ReadWords(reader, words, NOTHING_PARSED, true) == ReadWords(reader, words[i..], parsed, parsingFields)
      invariant start == None
      invariant queryStart == None || (!parsingFields && (i < |tokens| || TrimmedSuffix(input, queryStart) == []))
    {
      var token := tokens[i];
      assert words[i..][0] == words[i] && words[i..][1..] == words[i + 1..];
      if token.cooked == "--" {
        parsingFields := false;
        queryStart := Some(token.end + 1);
        if i + 1 == |tokens| {
          ByteAfterLastWord(input, words);
        }
        i := i + 1;
        continue;
      }
      if parsingFields {
        var field := FieldOf(token.cooked);
        if field.Some? {
          var applied := ApplyField(reader, parsed, field.value.0, field.value.1, field.value.2);
          if applied.Err? {
            return Err(applied.error);
          }
          parsed := applied.value;
          i := i + 1;
          continue;
        }
      }
      queryStart := Some(token.start);
      start := Some(words[i].start);
      SuffixOfWord(input, words[i]);
      break;
    }
    assert ReadWords(reader, words, NOTHING_PARSED, true) == Ok(Reading(parsed, start));
    assert TrimmedSuffix(input, queryStart) == QueryText(input, start);
    parsed := parsed.(query := TrimmedSuffix(input, queryStart));
    r := Checked(parsed);
  }

  lemma NoQuery(input: string)
    ensures TrimmedSuffix(input, None) == QueryText(input, None) == []
  {
  }

  lemma AtBytesFacts(input: string, words: seq<Span>)
    requires InText(input, words)
    ensures |AllAtBytes(input, words)| == |words|
    ensures forall i :: 0 <= i < |words| ==> AllAtBytes(input, words)[i] == AtBytes(input, words[i])
  {
  }
}
