/** Writing a value so that the tokenizer reads it back: when it works, exactly, and what
    a line of written fields followed by a query is split into. */
module SearchQuoting {
  import opened Text
  import opened SearchWords

  function EscapeQuotes(s: string): string {
    if s == [] then [] else (if s[0] == '"' then ['\\', '"'] else [s[0]]) + EscapeQuotes(s[1..])
  }

  /** Quotes a value that contains whitespace; inside, only quotes are escaped. */
  function QuoteIfNeeded(value: string): string {
    var t := Trim(value);
    if HasSpace(t) then ['"'] + EscapeQuotes(t) + ['"'] else t
  }

  /** The values that survive: no backslash if they need quoting, no quote if they do not. */
  predicate QuoteSafe(value: string) {
    var t := Trim(value);
    if HasSpace(t) then '\\' !in t else '"' !in t
  }

  predicate Plain(s: string) {
    forall i :: 0 <= i < |s| ==> !IsSpace(s[i]) && s[i] != '"'
  }

  lemma PlainConcat(s: string, t: string)
    requires Plain(s) && Plain(t)
    ensures Plain(s + t)
  {
  }

  lemma PlainValue(t: string)
    ensures Plain(t) <==> !HasSpace(t) && '"' !in t
  {
    if '"' in t {
      var i :| 0 <= i < |t| && t[i] == '"';
    }
  }

  // ----- The tokenizer inside one word -----

  /** The state once the word in progress (or a new one) has taken `n` more characters. */
  function Grown(st: Scan, q: Quoting, n: nat): Scan {
    if n == 0 then st
    else Scan(st.words, q, if st.start.Some? then st.start else Some(st.pos), st.pos + n, st.pos + n)
  }

  lemma {:induction false} RunPlain(st: Scan, s: string)
    requires Plain(s) && !st.q.quoted && !st.q.escaped
    ensures Run(st, s) == Grown(st, st.q.(text := st.q.text + s), |s|)
    decreases s
  {
    if s != [] {
      assert !IsSpace(s[0]) && s[0] != '"';
      RunPlain(Step(st, s[0]), s[1..]);
      assert st.q.text + [s[0]] + s[1..] == st.q.text + s;
    } else {
      assert st.q.text + s == st.q.text;
    }
  }

  lemma {:induction false} RunQuoted(st: Scan, s: string)
    requires '\\' !in s && st.q.quoted && !st.q.escaped
    ensures Run(st, EscapeQuotes(s)) == Grown(st, st.q.(text := st.q.text + s), |EscapeQuotes(s)|)
    decreases s
  {
    if s == [] {
      assert st.q.text + s == st.q.text;
    } else {
      var rest := EscapeQuotes(s[1..]);
      assert st.q.text + [s[0]] + s[1..] == st.q.text + s;
      if s[0] == '"' {
        var all := ['\\', '"'] + rest;
        assert all[0] == '\\' && all[1..][0] == '"' && all[1..][1..] == rest;
        RunQuoted(Step(Step(st, '\\'), '"'), s[1..]);
      } else {
        var all := [s[0]] + rest;
        assert all[1..] == rest;
        RunQuoted(Step(st, s[0]), s[1..]);
      }
    }
  }

  lemma StepQuote(st: Scan)
    requires !st.q.escaped
    ensures Step(st, '"') == Grown(st, st.q.(quoted := !st.q.quoted), 1)
  {
  }

  lemma GrownTwice(st: Scan, q1: Quoting, n1: nat, q2: Quoting, n2: nat)
    requires n1 > 0 && n2 > 0
    ensures Grown(Grown(st, q1, n1), q2, n2) == Grown(st, q2, n1 + n2)
    ensures Grown(st, q1, n1).q == q1
  {
  }

  lemma RunQuotedValue(st: Scan, name: string, t: string)
    requires Plain(name) && name != [] && '\\' !in t && t != [] && st.q == PLAIN
    ensures var text := name + (['"'] + (EscapeQuotes(t) + ['"']));
            Run(st, text) == Grown(st, Quoting(name + t, false, false), |text|)
  {
    hide Step, Grown, EscapeQuotes, Plain;
    var inner := EscapeQuotes(t);
    var n := |name|;
    assert [] + name == name && |inner| > 0 by { EscapedIsNotShorter(t); }
    var q1, q2, q3 := Quoting(name, false, false), Quoting(name, true, false), Quoting(name + t, true, false);
    RunPlain(st, name);
    RunConcat(st, name, ['"'] + (inner + ['"']));
    var st1 := Grown(st, q1, n);
    GrownTwice(st, q1, n, q2, 1);
    StepQuote(st1);
    assert (['"'] + (inner + ['"']))[1..] == inner + ['"'];
    var st2 := Grown(st, q2, n + 1);
    GrownTwice(st, q2, n + 1, q3, |inner|);
    RunQuoted(st2, t);
    RunSnoc(st2, inner, '"');
    GrownTwice(st, q3, n + 1 + |inner|, q3.(quoted := false), 1);
    StepQuote(Grown(st, q3, n + 1 + |inner|));
  }

  lemma {:induction false} EscapedIsNotShorter(t: string)
    ensures |EscapeQuotes(t)| >= |t|
  {
    if t != [] {
      EscapedIsNotShorter(t[1..]);
    }
  }

  /** A plain name with a safe value is taken whole, as one word. */
  lemma RunNamedValue(st: Scan, name: string, value: string)
    requires Plain(name) && name != [] && QuoteSafe(value) && st.q == PLAIN
    ensures var text := name + QuoteIfNeeded(value);
            Run(st, text) == Grown(st, Quoting(name + Trim(value), false, false), |text|)
  {
    hide Run, Grown, Plain, EscapeQuotes, Trim;
    var t := Trim(value);
    PlainValue(t);
    if HasSpace(t) {
      assert name + QuoteIfNeeded(value) == name + (['"'] + (EscapeQuotes(t) + ['"']));
      RunQuotedValue(st, name, t);
    } else {
      PlainConcat(name, t);
      RunPlain(st, name + t);
      assert [] + (name + t) == name + t;
    }
  }

  // ----- Unsafe values are damaged -----

  lemma {:induction false} UnquotingDropsQuotes(q: Quoting, s: string)
    ensures |UnquoteAll(q, s).text| <= |q.text| + |s|
    ensures !q.quoted && !q.escaped && '"' in s ==> |UnquoteAll(q, s).text| < |q.text| + |s|
    decreases s
  {
    if s != [] {
      UnquotingDropsQuotes(Unquote(q, s[0]), s[1..]);
    }
  }

  /** Each character of the value yields at most one; a backslash met inside quotes yields none. */
  lemma {:induction false} UnquotingEscaped(q: Quoting, s: string)
    requires q.escaped ==> q.quoted
    ensures |UnquoteAll(q, EscapeQuotes(s)).text| <= |q.text| + |s|
    ensures q.quoted && !q.escaped && '\\' in s ==> |UnquoteAll(q, EscapeQuotes(s)).text| < |q.text| + |s|
    decreases s
  {
    if s != [] {
      var rest := EscapeQuotes(s[1..]);
      if s[0] == '"' {
        var all := ['\\', '"'] + rest;
        assert all[0] == '\\' && all[1..][0] == '"' && all[1..][1..] == rest;
        UnquotingEscaped(Unquote(Unquote(q, '\\'), '"'), s[1..]);
      } else {
        var all := [s[0]] + rest;
        assert all[1..] == rest;
        UnquotingEscaped(Unquote(q, s[0]), s[1..]);
      }
    }
  }

  lemma {:induction false} UnquotingPlain(q: Quoting, s: string)
    requires Plain(s) && !q.quoted && !q.escaped
    ensures UnquoteAll(q, s) == q.(text := q.text + s)
    decreases s
  {
    if s == [] {
      assert q.text + s == q.text;
    } else {
      assert s[0] != '"';
      assert q.text + [s[0]] + s[1..] == q.text + s;
      UnquotingPlain(Unquote(q, s[0]), s[1..]);
    }
  }

  lemma UnsafeIsDamaged(name: string, value: string)
    requires Plain(name) && !QuoteSafe(value)
    ensures var q := UnquoteAll(PLAIN, name + QuoteIfNeeded(value));
            q.quoted || |q.text| < |name + Trim(value)|
  {
    hide Trim, UnquoteAll, EscapeQuotes, Plain;
    var t := Trim(value);
    UnquotingPlain(PLAIN, name);
    assert [] + name == name;
    var q0 := Quoting(name, false, false);
    if HasSpace(t) {
      var inner := EscapeQuotes(t);
      var q1 := Unquote(q0, '"');
      assert name + QuoteIfNeeded(value) == (name + ['"']) + (inner + ['"']);
      UnquoteConcat(PLAIN, name + ['"'], inner + ['"']);
      UnquoteSnoc(PLAIN, name, '"');
      UnquotingEscaped(q1, t);
      UnquoteSnoc(q1, inner, '"');
    } else {
      UnquoteConcat(PLAIN, name, t);
      UnquotingDropsQuotes(q0, t);
    }
  }

  /** A written field reads back as one word holding the trimmed value exactly when the value is safe. */
  lemma QuotingRoundTrip(name: string, value: string)
    requires Plain(name) && name != []
    ensures var text := name + QuoteIfNeeded(value);
            Words(text) == Ok([Span(name + Trim(value), 0, |text|)]) <==> QuoteSafe(value)
  {
    hide Run, QuoteSafe, QuoteIfNeeded, Plain, Trim, UnquoteAll;
    var text := name + QuoteIfNeeded(value);
    if QuoteSafe(value) {
      RunNamedValue(INITIAL, name, value);
      var w := Span(name + Trim(value), 0, |text|);
      assert Words(text) == Ok(INITIAL.words + [w]) && INITIAL.words + [w] == [w];
    } else {
      UnsafeIsDamaged(name, value);
      if Words(text) == Ok([Span(name + Trim(value), 0, |text|)]) {
        OneWordReadsAll(text, name + Trim(value));
      }
    }
  }

  /** A quote in a value without spaces is not escaped, and leaves the line without an end. */
  lemma QuoteInValue()
    ensures Words("room:" + QuoteIfNeeded("a\"b")) == Err(UNTERMINATED)
  {
    hide QuoteIfNeeded, Words, IsSpace, Plain;
    assert QuoteIfNeeded("a\"b") == "a\"b" by { NoSpaceNoQuoting(); }
    var text := "room:a\"b";
    assert "room:" + "a\"b" == text == "room:a" + "\"b";
    assert Plain("room:a") by { LettersArePlain(); }
    UnquoteConcat(PLAIN, "room:a", "\"b");
    UnquotingPlain(PLAIN, "room:a");
    FailsIffQuoteOpen(text);
    OnlyOneError(text);
  }

  lemma NoSpaceNoQuoting()
    ensures QuoteIfNeeded("a\"b") == "a\"b"
  {
    hide Trim;
    TrimOfTrimmed("a\"b");
  }

  lemma LettersArePlain()
    ensures Plain("room:a")
  {
  }

  lemma OnlyOneError(text: string)
    ensures Words(text).Err? ==> Words(text) == Err(UNTERMINATED)
  {
  }

  lemma OneWordReadsAll(text: string, cooked: string)
    requires Words(text) == Ok([Span(cooked, 0, |text|)])
    ensures UnquoteAll(PLAIN, text) == Quoting(cooked, false, false)
  {
    hide Words;
    WordsPartitionInput(text);
    assert IsWordOf(text, Words(text).value[0]) && text[0..|text|] == text;
  }

  // ----- A line of fields, then a query -----

  /** A field and its value, as the form writes them. */
  datatype Field = Field(name: string, value: string)

  function FieldText(f: Field): string {
    f.name + ":" + QuoteIfNeeded(f.value)
  }

  predicate Writable(f: Field) {
    Plain(f.name) && QuoteSafe(f.value)
  }

  predicate AllWritable(fs: seq<Field>) {
    forall i :: 0 <= i < |fs| ==> Writable(fs[i])
  }

  /** Every field followed by one space. */
  function FieldsText(fs: seq<Field>): string {
    if fs == [] then [] else FieldText(fs[0]) + " " + FieldsText(fs[1..])
  }

  function FieldSpans(fs: seq<Field>, pos: nat): seq<Span> {
    if fs == [] then []
    else
      var end := pos + |FieldText(fs[0])|;
      [Span(fs[0].name + ":" + Trim(fs[0].value), pos, end)] + FieldSpans(fs[1..], end + 1)
  }

  predicate Idle(st: Scan) {
    st.q == PLAIN && st.start.None?
  }

  lemma PlainColon()
    ensures Plain(":")
  {
  }

  lemma RunField(st: Scan, f: Field)
    requires Idle(st) && Writable(f)
    ensures var st' := Run(st, FieldText(f) + " ");
            && Idle(st') && st'.pos == st.pos + |FieldText(f)| + 1
            && st'.words == st.words + [Span(f.name + ":" + Trim(f.value), st.pos, st.pos + |FieldText(f)|)]
  {
    hide Run, Plain, QuoteSafe, QuoteIfNeeded, Trim;
    var name := f.name + ":";
    assert Plain(":") by { PlainColon(); }
    PlainConcat(f.name, ":");
    RunNamedValue(st, name, f.value);
    RunSnoc(st, FieldText(f), ' ');
    assert FieldText(f) == name + QuoteIfNeeded(f.value);
  }

  lemma RunNothing(st: Scan)
    ensures Run(st, []) == st
  {
  }

  lemma {:induction false} RunFields(st: Scan, fs: seq<Field>)
    requires Idle(st) && AllWritable(fs)
    ensures var st' := Run(st, FieldsText(fs));
            && Idle(st') && st'.pos == st.pos + |FieldsText(fs)|
            && st'.words == st.words + FieldSpans(fs, st.pos)
    decreases fs
  {
    hide Idle, Writable, FieldText, Run, Trim;
    if fs == [] {
      assert Run(st, []) == st by { RunNothing(st); }
    } else {
      var text, rest := FieldText(fs[0]) + " ", FieldsText(fs[1..]);
      assert Writable(fs[0]) && AllWritable(fs[1..]);
      RunField(st, fs[0]);
      var st1 := Run(st, text);
      RunFields(st1, fs[1..]);
      RunConcat(st, text, rest);
      var w := Span(fs[0].name + ":" + Trim(fs[0].value), st.pos, st.pos + |FieldText(fs[0])|);
      assert FieldSpans(fs, st.pos) == [w] + FieldSpans(fs[1..], st1.pos);
      assert st.words + [w] + FieldSpans(fs[1..], st1.pos) == st.words + FieldSpans(fs, st.pos);
    }
  }

  // ----- The same scan, later in a longer text -----

  function Shifted(words: seq<Span>, k: nat): seq<Span> {
    seq(|words|, i requires 0 <= i < |words| => Span(words[i].cooked, words[i].start + k, words[i].end + k))
  }

  ghost predicate Later(a: Scan, b: Scan, before: seq<Span>, k: nat) {
    && b.words == before + Shifted(a.words, k)
    && b.q == a.q && b.pos == a.pos + k
    && b.start.Some? == a.start.Some?
    && (a.start.Some? ==> b.start.value == a.start.value + k && b.end == a.end + k)
  }

  lemma StepLater(a: Scan, b: Scan, before: seq<Span>, k: nat, c: char)
    requires Later(a, b, before, k) && (a.start.None? ==> a.q == PLAIN)
    ensures Later(Step(a, c), Step(b, c), before, k)
    ensures Step(a, c).start.None? ==> Step(a, c).q == PLAIN
  {
    if IsSpace(c) && !a.q.quoted && !a.q.escaped && a.start.Some? {
      var w := Span(a.q.text, a.start.value, a.end);
      assert Shifted(a.words + [w], k) == Shifted(a.words, k) + Shifted([w], k);
    }
  }

  lemma {:induction false} RunLater(a: Scan, b: Scan, before: seq<Span>, k: nat, s: string)
    requires Later(a, b, before, k) && (a.start.None? ==> a.q == PLAIN)
    ensures Later(Run(a, s), Run(b, s), before, k)
    decreases s
  {
    if s != [] {
      StepLater(a, b, before, k, s[0]);
      RunLater(Step(a, s[0]), Step(b, s[0]), before, k, s[1..]);
    }
  }

  /** The words of written fields and a query are the fields' words, then the query's, moved. */
  lemma WordsOfFieldsAndQuery(fs: seq<Field>, query: string)
    requires AllWritable(fs)
    ensures var k := |FieldsText(fs)|;
            match Words(query)
            case Err(e) => Words(FieldsText(fs) + query) == Err(e)
            case Ok(words) => Words(FieldsText(fs) + query) == Ok(FieldSpans(fs, 0) + Shifted(words, k))
  {
    hide FieldsText, FieldSpans, AllWritable, Run, Finish;
    var k := |FieldsText(fs)|;
    RunFields(INITIAL, fs);
    assert FieldSpans(fs, 0) + Shifted([], k) == [] + FieldSpans(fs, 0);
    var st := Run(INITIAL, FieldsText(fs));
    RunLater(INITIAL, st, FieldSpans(fs, 0), k, query);
    RunConcat(INITIAL, FieldsText(fs), query);
    FinishLater(Run(INITIAL, query), Run(st, query), FieldSpans(fs, 0), k);
  }

  lemma FinishLater(a: Scan, b: Scan, before: seq<Span>, k: nat)
    requires Later(a, b, before, k)
    ensures match Finish(a)
            case Err(e) => Finish(b) == Err(e)
            case Ok(words) => Finish(b) == Ok(before + Shifted(words, k))
  {
    if a.start.Some? {
      var w, v := Span(a.q.text, a.start.value, a.end), Span(b.q.text, b.start.value, b.end);
      assert Shifted(a.words + [w], k) == Shifted(a.words, k) + [v];
      assert b.words + [v] == before + (Shifted(a.words, k) + [v]);
    }
  }
}
