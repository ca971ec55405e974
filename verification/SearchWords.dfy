/** The quoting tokenizer of the search language. The specification is a fold over
    characters with an explicit pending-escape state; the loop that looks ahead and
    counts bytes is proved to compute it. */
module SearchWords {
  import opened Text

  /** A word and the characters `[start..end)` of the input it was read from. */
  datatype Span = Span(cooked: string, start: nat, end: nat)

  /** The same word, addressed by UTF-8 byte offsets. */
  datatype ShellWord = ShellWord(cooked: string, start: nat, end: nat)

  // ----- Unquoting one word -----

  datatype Quoting = Quoting(text: string, quoted: bool, escaped: bool)

  function Unquote(q: Quoting, c: char): Quoting {
    if q.escaped then Quoting(q.text + [c], true, false)
    else if c == '"' then q.(quoted := !q.quoted)
    else if c == '\\' && q.quoted then q.(escaped := true)
    else q.(text := q.text + [c])
  }

  function UnquoteAll(q: Quoting, s: string): Quoting
    decreases s
  {
    if s == [] then q else UnquoteAll(Unquote(q, s[0]), s[1..])
  }

  const PLAIN := Quoting([], false, false)

  lemma {:induction false} UnquoteConcat(q: Quoting, s: string, t: string)
    ensures UnquoteAll(q, s + t) == UnquoteAll(UnquoteAll(q, s), t)
    decreases s
  {
    if s == [] {
      assert s + t == t;
    } else {
      assert (s + t)[1..] == s[1..] + t;
      UnquoteConcat(Unquote(q, s[0]), s[1..], t);
    }
  }

  lemma UnquoteSnoc(q: Quoting, s: string, c: char)
    ensures UnquoteAll(q, s + [c]) == Unquote(UnquoteAll(q, s), c)
  {
    UnquoteConcat(q, s, [c]);
    assert [c][1..] == [];
  }

  // ----- Splitting into words -----

  /** `start` is the first character of the word in progress, `pos` the next character. */
  datatype Scan = Scan(words: seq<Span>, q: Quoting, start: Option<nat>, end: nat, pos: nat)

  function Step(st: Scan, c: char): Scan {
    if IsSpace(c) && !st.q.quoted && !st.q.escaped then
      match st.start
      case None => st.(pos := st.pos + 1)
      case Some(i) => Scan(st.words + [Span(st.q.text, i, st.end)], PLAIN, None, st.end, st.pos + 1)
    else
      var q := Unquote(st.q, c);
      var start := if st.start.Some? then st.start else Some(st.pos);
      Scan(st.words, q, start, if q.escaped then st.end else st.pos + 1, st.pos + 1)
  }

  function Run(st: Scan, s: string): Scan
    decreases s
  {
    if s == [] then st else Run(Step(st, s[0]), s[1..])
  }

  function Finish(st: Scan): Result<seq<Span>> {
    if st.q.quoted then Err(UNTERMINATED)
    else match st.start
         case None => Ok(st.words)
         case Some(i) => Ok(st.words + [Span(st.q.text, i, st.end)])
  }

  const UNTERMINATED := "unterminated quote in /search"
  const INITIAL := Scan([], PLAIN, None, 0, 0)

  function Words(s: string): Result<seq<Span>> {
    Finish(Run(INITIAL, s))
  }

  function AtBytes(s: string, w: Span): ShellWord
    requires w.start <= |s| && w.end <= |s|
  {
    ShellWord(w.cooked, Bytes(s[..w.start]), Bytes(s[..w.end]))
  }

  lemma {:induction false} RunConcat(st: Scan, s: string, t: string)
    ensures Run(st, s + t) == Run(Run(st, s), t)
    decreases s
  {
    if s == [] {
      assert s + t == t;
    } else {
      assert (s + t)[1..] == s[1..] + t;
      RunConcat(Step(st, s[0]), s[1..], t);
    }
  }

  lemma RunSnoc(st: Scan, s: string, c: char)
    ensures Run(st, s + [c]) == Step(Run(st, s), c)
  {
    RunConcat(st, s, [c]);
    assert [c][1..] == [];
  }

  // ----- What the words are -----

  /** Whitespace after the first character of `s[start..end]` stands inside quotes. */
  predicate Unbroken(s: string, start: nat, end: nat)
    requires end <= |s|
  {
    forall k :: start < k < end && IsSpace(s[k]) ==> UnquoteAll(PLAIN, s[start..k]).quoted
  }

  /** `w` is a non-empty stretch of `s` that starts with a non-blank, holds no whitespace outside
      quotes, and reads as that stretch unquoted on its own. */
  predicate IsWordOf(s: string, w: Span) {
    && w.start < w.end <= |s|
    && !IsSpace(s[w.start])
    && Unbroken(s, w.start, w.end)
    && UnquoteAll(PLAIN, s[w.start..w.end]) == Quoting(w.cooked, false, false)
  }

  /** Words in order, with at least one character between two of them. */
  predicate Separated(words: seq<Span>) {
    forall i, j :: 0 <= i < j < |words| ==> words[i].end < words[j].start
  }

  predicate Covered(words: seq<Span>, k: nat) {
    exists i :: 0 <= i < |words| && words[i].start <= k < words[i].end
  }

  /** `words` are words of `s` in order, apart, with every non-blank character in one of them. */
  predicate Splits(s: string, words: seq<Span>) {
    && (forall i :: 0 <= i < |words| ==> IsWordOf(s, words[i]))
    && Separated(words)
    && (forall k :: 0 <= k < |s| && !IsSpace(s[k]) ==> Covered(words, k))
  }

  ghost predicate Progress(s: string, st: Scan) {
    && st.pos == |s|
    && (forall i :: 0 <= i < |st.words| ==> IsWordOf(s, st.words[i]))
    && Separated(st.words)
    && (forall k :: 0 <= k < |s| && !IsSpace(s[k]) ==>
          Covered(st.words, k) || (st.start.Some? && st.start.value <= k))
    && (st.q.escaped ==> st.q.quoted)
    && match st.start
       case None => st.q == PLAIN && forall i :: 0 <= i < |st.words| ==> st.words[i].end < |s|
       case Some(b) =>
         && b < st.end <= |s|
         && !IsSpace(s[b])
         && Unbroken(s, b, |s|)
         && (!st.q.escaped ==> st.end == |s|)
         && st.q == UnquoteAll(PLAIN, s[b..])
         && forall i :: 0 <= i < |st.words| ==> st.words[i].end < b
  }

  lemma WordsSurvive(s: string, c: char, w: Span)
    requires IsWordOf(s, w)
    ensures IsWordOf(s + [c], w)
  {
    hide UnquoteAll, IsSpace;
    assert (s + [c])[w.start..w.end] == s[w.start..w.end];
    UnbrokenPrefix(s, [c], w.start, w.end);
  }

  lemma UnbrokenPrefix(s: string, t: string, start: nat, end: nat)
    requires end <= |s|
    ensures Unbroken(s + t, start, end) <==> Unbroken(s, start, end)
  {
    hide UnquoteAll, IsSpace;
    assert forall k :: start < k < end ==> (s + t)[start..k] == s[start..k];
  }

  /** A character that does not end the word keeps it in one piece. */
  lemma UnbrokenSnoc(s: string, c: char, b: nat)
    requires b <= |s| && Unbroken(s, b, |s|)
    requires b < |s| && IsSpace(c) ==> UnquoteAll(PLAIN, s[b..]).quoted
    ensures Unbroken(s + [c], b, |s| + 1)
  {
    hide UnquoteAll, IsSpace;
    UnbrokenPrefix(s, [c], b, |s|);
    var s' := s + [c];
    forall k | b < k < |s'| && IsSpace(s'[k]) ensures UnquoteAll(PLAIN, s'[b..k]).quoted {
      if k == |s| {
        assert s'[b..k] == s[b..];
      }
    }
  }

  lemma CoverageGrows(words: seq<Span>, w: Span, k: nat)
    ensures Covered(words, k) ==> Covered(words + [w], k)
    ensures w.start <= k < w.end ==> Covered(words + [w], k)
  {
    if Covered(words, k) {
      var i :| 0 <= i < |words| && words[i].start <= k < words[i].end;
      assert (words + [w])[i] == words[i];
    }
    assert (words + [w])[|words|] == w;
  }

  /** Whitespace outside quotes ends the word in progress, if there is one. */
  lemma SpaceProgress(s: string, st: Scan, c: char)
    requires Progress(s, st) && IsSpace(c) && !st.q.quoted && !st.q.escaped
    ensures Progress(s + [c], Step(st, c))
  {
    hide IsSpace, UnquoteAll, Covered, Unbroken;
    var s' := s + [c];
    forall i | 0 <= i < |st.words| ensures IsWordOf(s', st.words[i]) {
      WordsSurvive(s, c, st.words[i]);
    }
    if st.start.Some? {
      var w := Span(st.q.text, st.start.value, st.end);
      UnbrokenPrefix(s, [c], w.start, w.end);
      assert s'[w.start..w.end] == s[w.start..];
      assert IsWordOf(s', w);
      forall k | 0 <= k < |s'| && !IsSpace(s'[k]) ensures Covered(st.words + [w], k) {
        CoverageGrows(st.words, w, k);
      }
    }
  }

  /** Any other character starts a word or continues one. */
  lemma WordProgress(s: string, st: Scan, c: char)
    requires Progress(s, st) && !(IsSpace(c) && !st.q.quoted && !st.q.escaped)
    ensures Progress(s + [c], Step(st, c))
  {
    hide IsSpace, UnquoteAll, Covered, IsWordOf, Unbroken;
    var s' := s + [c];
    forall i | 0 <= i < |st.words| ensures IsWordOf(s', st.words[i]) {
      WordsSurvive(s, c, st.words[i]);
    }
    var b := if st.start.Some? then st.start.value else |s|;
    assert s'[b..] == s[b..] + [c];
    UnquoteSnoc(PLAIN, s[b..], c);
    if st.start.None? {
      NothingUnquoted();
      assert s[b..] == [];
      UnbrokenNothing(s);
    }
    UnbrokenSnoc(s, c, b);
  }

  lemma UnbrokenNothing(s: string)
    ensures Unbroken(s, |s|, |s|)
  {
  }

  lemma NothingUnquoted()
    ensures UnquoteAll(PLAIN, []) == PLAIN
  {
  }

  lemma StepProgress(s: string, st: Scan, c: char)
    requires Progress(s, st)
    ensures Progress(s + [c], Step(st, c))
  {
    hide Progress, Step, IsSpace;
    if IsSpace(c) && !st.q.quoted && !st.q.escaped {
      SpaceProgress(s, st, c);
    } else {
      WordProgress(s, st, c);
    }
  }

  lemma {:induction false} RunProgress(s: string)
    ensures Progress(s, Run(INITIAL, s))
  {
    if s != [] {
      var last := |s| - 1;
      RunProgress(s[..last]);
      StepProgress(s[..last], Run(INITIAL, s[..last]), s[last]);
      RunSnoc(INITIAL, s[..last], s[last]);
      assert s[..last] + [s[last]] == s;
    }
  }

  /** A successful split: the words are non-empty, strictly ordered, disjoint stretches,
      each reading as itself unquoted, and every non-whitespace character is in exactly one. */
  lemma WordsPartitionInput(s: string)
    requires Words(s).Ok?
    ensures Splits(s, Words(s).value)
  {
    hide Unbroken, UnquoteAll, IsSpace, Covered;
    RunProgress(s);
    var st := Run(INITIAL, s);
    if st.start.Some? {
      var w := Span(st.q.text, st.start.value, st.end);
      assert s[w.start..w.end] == s[w.start..];
      forall k | 0 <= k < |s| && !IsSpace(s[k]) ensures Covered(Words(s).value, k) {
        CoverageGrows(st.words, w, k);
      }
    }
  }

  // ----- There is no other split -----

  /** The scan has finished `words` and is between words after the first `k` characters. */
  predicate Between(s: string, k: nat, words: seq<Span>)
    requires k <= |s|
  {
    var st := Run(INITIAL, s[..k]);
    st.words == words && st.start.None? && st.q == PLAIN
  }

  lemma RunOn(s: string, k: nat)
    requires k < |s|
    ensures Run(INITIAL, s[..k + 1]) == Step(Run(INITIAL, s[..k]), s[k])
  {
    hide Run, Step;
    assert s[..k + 1] == s[..k] + [s[k]];
    RunSnoc(INITIAL, s[..k], s[k]);
  }

  lemma {:induction false} BlanksStayBetween(s: string, j: nat, k: nat, words: seq<Span>)
    requires j <= k <= |s| && Between(s, j, words) && forall m :: j <= m < k ==> IsSpace(s[m])
    ensures Between(s, k, words)
    decreases k
  {
    hide Run, IsSpace;
    if j < k {
      BlanksStayBetween(s, j, k - 1, words);
      RunOn(s, k - 1);
    }
  }

  /** Inside a word nothing is finished. */
  lemma {:induction false} InsideWord(s: string, w: Span, k: nat, words: seq<Span>)
    requires IsWordOf(s, w) && Between(s, w.start, words) && w.start < k <= w.end
    ensures var st := Run(INITIAL, s[..k]);
            st.words == words && st.start == Some(w.start) && st.q == UnquoteAll(PLAIN, s[w.start..k])
    decreases k
  {
    hide Run, IsSpace, UnquoteAll;
    var b := w.start;
    RunOn(s, k - 1);
    PositionOf(s, b);
    assert s[b..k] == s[b..k - 1] + [s[k - 1]];
    UnquoteSnoc(PLAIN, s[b..k - 1], s[k - 1]);
    if k - 1 == b {
      assert s[b..b] == [];
      NothingUnquoted();
    } else {
      InsideWord(s, w, k - 1, words);
    }
  }

  lemma PositionOf(s: string, k: nat)
    requires k <= |s|
    ensures var st := Run(INITIAL, s[..k]); st.pos == k && (st.start.Some? && !st.q.escaped ==> st.end == k)
  {
    RunProgress(s[..k]);
  }

  /** At its end the word is complete, and a blank after it finishes it. */
  lemma WordIsFinished(s: string, w: Span, words: seq<Span>)
    requires IsWordOf(s, w) && Between(s, w.start, words)
    ensures w.end == |s| ==> Words(s) == Ok(words + [w])
    ensures w.end < |s| && IsSpace(s[w.end]) ==> Between(s, w.end + 1, words + [w])
  {
    hide Run, IsSpace, UnquoteAll;
    InsideWord(s, w, w.end, words);
    PositionOf(s, w.end);
    if w.end == |s| {
      assert s[..w.end] == s;
    } else {
      RunOn(s, w.end);
    }
  }

  /** Where the word after the first `i` starts, or the input ends. */
  function StartOf(s: string, words: seq<Span>, i: nat): nat {
    if i < |words| then words[i].start else |s|
  }

  lemma GapIsOutside(s: string, words: seq<Span>, i: nat, j: nat, k: nat)
    requires Splits(s, words) && i <= |words| && j < |words| && k < StartOf(s, words, i) && (i > 0 ==> words[i - 1].end <= k)
    ensures !(words[j].start <= k < words[j].end)
  {
    hide IsSpace, IsWordOf, Covered;
    SplitFacts(s, words, j);
    if j < i {
      SplitFacts(s, words, i - 1);
    } else {
      SplitFacts(s, words, i);
    }
  }

  lemma GapsAreBlank(s: string, words: seq<Span>, i: nat, k: nat)
    requires Splits(s, words) && i <= |words| && k < StartOf(s, words, i) && k < |s| && (i > 0 ==> words[i - 1].end <= k)
    ensures IsSpace(s[k])
  {
    hide IsSpace, IsWordOf, Separated;
    forall j | 0 <= j < |words| ensures !(words[j].start <= k < words[j].end) {
      GapIsOutside(s, words, i, j, k);
    }
    assert !Covered(words, k);
  }

  lemma {:induction false} ScanFollowsSplit(s: string, words: seq<Span>, i: nat)
    requires Splits(s, words) && i < |words|
    ensures IsWordOf(s, words[i]) && Between(s, words[i].start, words[..i])
  {
    hide IsSpace, IsWordOf, Between, Splits;
    SplitFacts(s, words, i);
    if i == 0 {
      NothingScanned(s);
      forall m | 0 <= m < words[0].start ensures IsSpace(s[m]) {
        GapsAreBlank(s, words, 0, m);
      }
      BlanksStayBetween(s, 0, words[0].start, []);
    } else {
      ScanFollowsSplit(s, words, i - 1);
      var w := words[i - 1];
      assert words[..i] == words[..i - 1] + [w];
      forall m | w.end <= m < words[i].start ensures IsSpace(s[m]) {
        GapsAreBlank(s, words, i, m);
      }
      SplitFacts(s, words, i - 1);
      WordIsFinished(s, w, words[..i - 1]);
      BlanksStayBetween(s, w.end + 1, words[i].start, words[..i]);
    }
  }

  lemma SplitFacts(s: string, words: seq<Span>, i: nat)
    requires Splits(s, words) && i < |words|
    ensures IsWordOf(s, words[i]) && words[i].start < words[i].end <= |s|
    ensures i > 0 ==> words[i - 1].end < words[i].start
  {
  }

  lemma NothingScanned(s: string)
    ensures Between(s, 0, [])
  {
  }

  lemma BetweenAtEnd(s: string, words: seq<Span>)
    requires Between(s, |s|, words)
    ensures Words(s) == Ok(words)
  {
    assert s[..|s|] == s;
  }

  /** The words are the one way to split the input at its unquoted whitespace, and there is
      none exactly when splitting fails. */
  lemma WordsAreTheSplit(s: string, words: seq<Span>)
    ensures Words(s) == Ok(words) <==> Splits(s, words)
  {
    hide Splits, Words, Between, IsWordOf, IsSpace;
    if Words(s) == Ok(words) {
      WordsPartitionInput(s);
    }
    if Splits(s, words) {
      OneSplit(s, words);
    }
  }

  lemma OneSplit(s: string, words: seq<Span>)
    requires Splits(s, words)
    ensures Words(s) == Ok(words)
  {
    hide Splits, Words, Between, IsWordOf, IsSpace;
    var n := |words|;
    if n == 0 {
      NothingScanned(s);
      forall m | 0 <= m < |s| ensures IsSpace(s[m]) {
        GapsAreBlank(s, words, 0, m);
      }
      BlanksStayBetween(s, 0, |s|, []);
      BetweenAtEnd(s, []);
    } else {
      var w := words[n - 1];
      ScanFollowsSplit(s, words, n - 1);
      SplitFacts(s, words, n - 1);
      WordIsFinished(s, w, words[..n - 1]);
      assert words == words[..n - 1] + [w];
      if w.end < |s| {
        forall m | w.end <= m < |s| ensures IsSpace(s[m]) {
          GapsAreBlank(s, words, n, m);
        }
        BlanksStayBetween(s, w.end + 1, |s|, words);
        BetweenAtEnd(s, words);
      }
    }
  }

  /** The same in bytes: offsets fall on character boundaries and keep the order of the words. */
  lemma ByteSpansAreOrdered(s: string)
    requires Words(s).Ok?
    ensures var words := Words(s).value;
            && InText(s, words)
            && (forall i :: 0 <= i < |words| ==> AtBytes(s, words[i]).start < AtBytes(s, words[i]).end <= Bytes(s))
            && (forall i, j :: 0 <= i < j < |words| ==> AtBytes(s, words[i]).end < AtBytes(s, words[j]).start)
            && (forall i :: 0 <= i < |words| ==> SuffixAt(s, AtBytes(s, words[i]).start) == Some(s[words[i].start..]))
  {
    hide Words, Bytes, UnquoteAll, IsSpace, SuffixAt, Covered;
    var words := Words(s).value;
    WordsPartitionInput(s);
    assert s[..|s|] == s;
    forall i | 0 <= i < |words|
      ensures words[i].start <= |s| && words[i].end <= |s|
      ensures AtBytes(s, words[i]).start < AtBytes(s, words[i]).end <= Bytes(s)
      ensures SuffixAt(s, AtBytes(s, words[i]).start) == Some(s[words[i].start..])
    {
      var w := words[i];
      assert IsWordOf(s, w);
      OffsetsAreOrdered(s, w.start, w.end);
      if w.end < |s| {
        OffsetsAreOrdered(s, w.end, |s|);
      }
      assert s[..w.start] + s[w.start..] == s;
      SuffixAtBoundary(s[..w.start], s[w.start..]);
    }
    forall i, j | 0 <= i < j < |words| ensures AtBytes(s, words[i]).end < AtBytes(s, words[j]).start {
      OffsetsAreOrdered(s, words[i].end, words[j].start);
    }
  }

  /** Splitting fails exactly when the quotes, read from the first character, are left open. */
  lemma FailsIffQuoteOpen(s: string)
    ensures Words(s).Err? <==> UnquoteAll(PLAIN, s).quoted
  {
    SameQuoting(INITIAL, PLAIN, s);
  }

  lemma {:induction false} SameQuoting(st: Scan, q: Quoting, s: string)
    requires st.q.quoted == q.quoted && st.q.escaped == q.escaped && (q.escaped ==> q.quoted)
    ensures Run(st, s).q.quoted == UnquoteAll(q, s).quoted
    decreases s
  {
    if s != [] {
      SameQuoting(Step(st, s[0]), Unquote(q, s[0]), s[1..]);
    }
  }

  // ----- The loop -----

  predicate InText(s: string, words: seq<Span>) {
    forall i :: 0 <= i < |words| ==> words[i].start <= |s| && words[i].end <= |s|
  }

  function AllAtBytes(s: string, words: seq<Span>): seq<ShellWord>
    requires InText(s, words)
  {
    seq(|words|, i requires 0 <= i < |words| => AtBytes(s, words[i]))
  }

  /** The loop's variables: finished words, the word in progress and its byte offsets. */
  datatype Reader = Reader(words: seq<ShellWord>, current: string, start: Option<nat>, end: nat, inQuote: bool) {
    function Begun(idx: nat): Reader {
      if start.Some? then this else this.(start := Some(idx))
    }
  }

  ghost predicate Mirrors(input: string, st: Scan, r: Reader) {
    && r.inQuote == st.q.quoted && r.current == st.q.text
    && InText(input, st.words) && r.words == AllAtBytes(input, st.words)
    && r.start.Some? == st.start.Some?
    && (r.start.Some? ==>
          && st.start.value <= |input| && r.start.value == Bytes(input[..st.start.value])
          && (!st.q.escaped ==> st.end <= |input| && r.end == Bytes(input[..st.end])))
  }

  lemma MirrorStart(input: string)
    ensures Bytes(input[..0]) == 0 && INITIAL == Run(INITIAL, input[..0])
    ensures Progress(input[..0], INITIAL) && Mirrors(input, INITIAL, Reader([], [], None, 0, false))
  {
    RunProgress(input[..0]);
  }

  lemma MirrorQuote(input: string, i: nat, st: Scan, r: Reader)
    requires i < |input| && st.pos == i && !st.q.escaped && Mirrors(input, st, r) && input[i] == '"'
    ensures !Step(st, input[i]).q.escaped
    ensures Mirrors(input, Step(st, input[i]),
                    r.Begun(Bytes(input[..i])).(inQuote := !r.inQuote, end := Bytes(input[..i + 1])))
  {
  }

  lemma MirrorBackslash(input: string, i: nat, st: Scan, r: Reader)
    requires i < |input| && st.pos == i && !st.q.escaped && Mirrors(input, st, r) && input[i] == '\\' && r.inQuote
    ensures Step(st, input[i]).q.escaped
    ensures Mirrors(input, Step(st, input[i]), r.Begun(Bytes(input[..i])))
  {
  }

  lemma MirrorText(input: string, i: nat, st: Scan, r: Reader)
    requires i < |input| && st.pos == i && Mirrors(input, st, r)
    requires st.q.escaped ==> st.q.quoted
    requires st.q.escaped || !(input[i] == '"' || (input[i] == '\\' && r.inQuote) || (IsSpace(input[i]) && !r.inQuote))
    ensures !Step(st, input[i]).q.escaped
    ensures Mirrors(input, Step(st, input[i]),
                    r.Begun(Bytes(input[..i])).(current := r.current + [input[i]], end := Bytes(input[..i + 1])))
  {
  }

  lemma MirrorSpace(input: string, i: nat, st: Scan, r: Reader)
    requires i < |input| && st.pos == i && !st.q.escaped && Mirrors(input, st, r) && IsSpace(input[i]) && !r.inQuote
    ensures !Step(st, input[i]).q.escaped
    ensures Mirrors(input, Step(st, input[i]),
                    if r.start.None? then r
                    else r.(words := r.words + [ShellWord(r.current, r.start.value, r.end)], current := [], start := None))
  {
  }

  lemma MirrorEnd(input: string, st: Scan, r: Reader)
    requires Mirrors(input, st, r) && (st.q.escaped ==> st.q.quoted)
    ensures r.inQuote <==> Finish(st).Err?
    ensures r.inQuote ==> Finish(st).error == UNTERMINATED
    ensures !r.inQuote ==>
              && InText(input, Finish(st).value)
              && AllAtBytes(input, Finish(st).value)
              == if r.start.None? then r.words else r.words + [ShellWord(r.current, r.start.value, r.end)]
  {
  }

  method ShellWords(input: string) returns (result: Result<seq<ShellWord>>)
    ensures result.Err? <==> Words(input).Err?
    ensures result.Err? ==> result.error == Words(input).error
    ensures result.Ok? ==> InText(input, Words(input).value) && result.value == AllAtBytes(input, Words(input).value)
  {
    hide Run, Progress, Mirrors, Step, IsSpace, AllAtBytes, InText, Finish, Bytes, UnquoteAll;
    var r := Reader([], [], None, 0, false);
    var i: nat, idx: nat := 0, 0;
    ghost var st := INITIAL;
    MirrorStart(input);
    while i < |input|
      invariant i <= |input| && idx == Bytes(input[..i])
      invariant st == Run(INITIAL, input[..i]) && Progress(input[..i], st) && Mirrors(input, st, r)
      invariant st.q.escaped ==> i == |input| && st.q.quoted
    {
      var ch := input[i];
      Advance(input, i, st);
      if ch == '"' {
        MirrorQuote(input, i, st, r);
        r := r.Begun(idx).(inQuote := !r.inQuote, end := idx + Utf8Len(ch));
      } else if ch == '\\' && r.inQuote {
        MirrorBackslash(input, i, st, r);
        r := r.Begun(idx);
        if i + 1 < |input| {
          st := Step(st, ch);
          i, idx := i + 1, idx + Utf8Len(ch);
          var next := input[i];
          Advance(input, i, st);
          MirrorText(input, i, st, r);
          r := r.(current := r.current + [next], end := idx + Utf8Len(next));
        }
      } else if IsSpace(ch) && !r.inQuote {
        MirrorSpace(input, i, st, r);
        if r.start.Some? {
          r := r.(words := r.words + [ShellWord(r.current, r.start.value, r.end)], current := [], start := None);
        }
      } else {
        MirrorText(input, i, st, r);
        r := r.Begun(idx).(current := r.current + [ch], end := idx + Utf8Len(ch));
      }
      st := Step(st, input[i]);
      idx := idx + Utf8Len(input[i]);
      i := i + 1;
    }
    assert input[..i] == input;
    MirrorEnd(input, st, r);
    if r.inQuote {
      return Err(UNTERMINATED);
    }
    return Ok(if r.start.None? then r.words else r.words + [ShellWord(r.current, r.start.value, r.end)]);
  }

  /** One more character of the input. */
  lemma Advance(input: string, i: nat, st: Scan)
    requires i < |input| && st == Run(INITIAL, input[..i]) && Progress(input[..i], st)
    ensures Step(st, input[i]).q.escaped ==> Step(st, input[i]).q.quoted
    ensures st.start.None? ==> !st.q.quoted
    ensures st.pos == i
    ensures Step(st, input[i]) == Run(INITIAL, input[..i + 1])
    ensures Progress(input[..i + 1], Step(st, input[i]))
    ensures Bytes(input[..i + 1]) == Bytes(input[..i]) + Utf8Len(input[i])
  {
    assert input[..i + 1] == input[..i] + [input[i]];
    RunSnoc(INITIAL, input[..i], input[i]);
    StepProgress(input[..i], st, input[i]);
    BytesSnoc(input[..i], input[i]);
  }
}
