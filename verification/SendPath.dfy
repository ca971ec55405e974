/** The leading path of a `/send` argument: quoted, or up to the first unescaped whitespace. */
module SendPath {
  import opened Text

  predicate IsQuote(c: char) { c == '\'' || c == '"' }

  predicate IsEscapable(c: char) { c == ' ' || c == '\\' || IsQuote(c) }

  /** The unescaped path, and the text after the whitespace that ended it, if any did. */
  datatype Token = Token(path: string, rest: Option<string>) {
    function Then(c: char): Token { Token([c] + path, rest) }
  }

  function Scan(arg: string): Token {
    if arg == [] then Token([], None)
    else if arg[0] == '\\' && |arg| > 1 && IsEscapable(arg[1]) then Scan(arg[2..]).Then(arg[1])
    else if IsSpace(arg[0]) then Token([], Some(arg[1..]))
    else Scan(arg[1..]).Then(arg[0])
  }

  /** The path token of an argument, quoted or not; an unclosed quote takes all the rest. */
  function LeadingToken(arg: string): Token {
    if arg != [] && IsQuote(arg[0]) then
      var i := IndexOf(arg[1..], arg[0]);
      if i == |arg| - 1 then Token(arg[1..], None) else Token(arg[1..][..i], Some(arg[1..][i + 1..]))
    else Scan(arg)
  }

  function Caption(rest: Option<string>): Option<string> {
    if rest.None? || Trim(rest.value) == [] then None else Some(Trim(rest.value))
  }

  function PathAndCaption(arg: string): (string, Option<string>) {
    var t := LeadingToken(arg);
    (t.path, Caption(t.rest))
  }

  /** What completion asks: the quote is not closed, or no unescaped whitespace has come yet. */
  predicate InPathToken(arg: string) {
    if arg != [] && IsQuote(arg[0]) then arg[0] !in arg[1..] else Scan(arg).rest.None?
  }

  // ----- Escaping -----

  /** What a terminal types for a dropped file: every escapable character escaped. */
  function Escape(path: string): string {
    if path == [] then [] else (if IsEscapable(path[0]) then ['\\', path[0]] else [path[0]]) + Escape(path[1..])
  }

  predicate OnlyPlainSpaces(path: string) {
    forall i :: 0 <= i < |path| && IsSpace(path[i]) ==> path[i] == ' '
  }

  lemma {:induction false} ScanOfEscaped(path: string)
    ensures OnlyPlainSpaces(path) ==> Scan(Escape(path)) == Token(path, None)
    ensures !OnlyPlainSpaces(path) ==> Scan(Escape(path)).rest.Some?
    decreases path
  {
    if path != [] {
      var rest := Escape(path[1..]);
      ScanOfEscaped(path[1..]);
      assert path == [path[0]] + path[1..];
      if IsEscapable(path[0]) {
        var s := ['\\', path[0]] + rest;
        assert s[2..] == rest;
        assert OnlyPlainSpaces(path) <==> OnlyPlainSpaces(path[1..]) by { PlainTail(path); }
      } else {
        var s := [path[0]] + rest;
        assert s[1..] == rest;
        assert OnlyPlainSpaces(path) <==> !IsSpace(path[0]) && OnlyPlainSpaces(path[1..]) by { PlainTail(path); }
      }
    }
  }

  lemma PlainTail(path: string)
    requires path != []
    ensures OnlyPlainSpaces(path) <==> (IsSpace(path[0]) ==> path[0] == ' ') && OnlyPlainSpaces(path[1..])
  {
    hide IsSpace;
    assert forall i :: 0 <= i < |path[1..]| ==> path[1..][i] == path[i + 1];
    if OnlyPlainSpaces(path[1..]) {
      assert forall i :: 1 <= i < |path| ==> path[i] == path[1..][i - 1];
    }
  }

  /** An escaped path parses back to itself, whole and with no caption, exactly when its only
      whitespace is spaces. */
  lemma EscapeRoundTrip(path: string)
    ensures PathAndCaption(Escape(path)) == (path, None) && InPathToken(Escape(path))
        <==> OnlyPlainSpaces(path)
  {
    ScanOfEscaped(path);
    if path != [] {
      assert Escape(path)[0] == if IsEscapable(path[0]) then '\\' else path[0];
    }
  }

  /** A quoted path is read up to its closing quote, exactly when it does not contain one. */
  lemma QuotedPath(quote: char, path: string, rest: string)
    requires IsQuote(quote)
    ensures LeadingToken([quote] + path + [quote] + rest) == Token(path, Some(rest)) <==> quote !in path
  {
    var arg := [quote] + path + [quote] + rest;
    var body := path + [quote] + rest;
    assert arg[1..] == body;
    var i := IndexOf(body, quote);
    if quote !in path {
      IndexOfFirst(path, quote, rest);
      assert body[..|path|] == path && body[|path| + 1..] == rest;
    } else {
      var j :| 0 <= j < |path| && path[j] == quote;
      assert body[j] == quote;
      assert i <= j;
    }
  }

  /** No whitespace, and no backslash where it would escape. */
  predicate Literal(path: string) {
    forall i :: 0 <= i < |path| ==> !IsSpace(path[i]) && (path[i] == '\\' && i + 1 < |path| ==> !IsEscapable(path[i + 1]))
  }

  /** Such a path, typed as it is, is read as it is: a stray backslash is kept. */
  lemma {:induction false} LiteralPath(path: string)
    requires Literal(path)
    ensures Scan(path) == Token(path, None)
    decreases path
  {
    hide IsSpace, IsEscapable;
    if path != [] {
      assert Literal(path[1..]) by {
        forall i | 0 <= i < |path[1..]| ensures !IsSpace(path[1..][i]) && (path[1..][i] == '\\' && i + 1 < |path[1..]| ==> !IsEscapable(path[1..][i + 1])) {
          assert path[1..][i] == path[i + 1];
          assert i + 1 < |path[1..]| ==> path[1..][i + 1] == path[i + 2];
        }
      }
      LiteralPath(path[1..]);
    }
  }

  /** A backslash gives a space, a backslash or a quote after it literally, and is kept before
      anything else. */
  lemma BackslashTakes(c: char, rest: string)
    ensures Scan(['\\', c] + rest)
         == if c in {' ', '\\', '\'', '"'} then Scan(rest).Then(c) else Scan([c] + rest).Then('\\')
  {
    var s := ['\\', c] + rest;
    assert s[1..] == [c] + rest && s[2..] == rest;
  }

  /** Without a closing quote everything after the opening one is the path. */
  lemma OpenQuote(quote: char, path: string)
    requires IsQuote(quote) && quote !in path
    ensures PathAndCaption([quote] + path) == (path, None)
  {
    assert ([quote] + path)[1..] == path;
    IndexOfNone(path, quote);
  }

  // ----- Path, then caption -----

  /** The caption of a text: none if it is blank, otherwise the text without the whitespace
      at its ends. */
  ghost predicate IsCaptionOf(text: string, caption: Option<string>) {
    && (caption.None? <==> Blank(text))
    && (caption.Some? ==>
          && caption.value != [] && !IsSpace(caption.value[0]) && !IsSpace(caption.value[|caption.value| - 1])
          && exists i: nat, j: nat :: IsMiddle(text, caption.value, i, j))
  }

  /** The argument reads as `path`, and as the caption that `text` is. */
  ghost predicate ReadsAs(arg: string, path: string, text: string) {
    PathAndCaption(arg).0 == path && IsCaptionOf(text, PathAndCaption(arg).1)
  }

  lemma CaptionIsTrimmed(text: string)
    ensures IsCaptionOf(text, Caption(Some(text)))
  {
    hide IsSpace, Trim, IsMiddle;
    TrimEnds(text);
    TrimIsMiddle(text);
  }

  lemma {:induction false} EscapedThen(path: string, c: char, text: string)
    requires IsSpace(c)
    ensures OnlyPlainSpaces(path) ==> Scan(Escape(path) + [c] + text) == Token(path, Some(text))
    ensures !OnlyPlainSpaces(path) ==> |Scan(Escape(path) + [c] + text).path| < |path|
    decreases path
  {
    hide IsSpace, OnlyPlainSpaces;
    var s := Escape(path) + [c] + text;
    if path == [] {
      SpaceIsNoBackslash(c);
      assert s == [c] + text && s[1..] == text;
      NoSpacesAtAll();
    } else {
      EscapedThen(path[1..], c, text);
      PlainTail(path);
      var later := Escape(path[1..]) + [c] + text;
      if IsEscapable(path[0]) {
        SpacesThatEscape(path[0]);
        assert s == ['\\', path[0]] + later && s[2..] == later;
      } else {
        assert s == [path[0]] + later && s[1..] == later;
      }
    }
  }

  lemma SpaceIsNoBackslash(c: char)
    requires IsSpace(c)
    ensures c != '\\' && !IsQuote(c)
  {
  }

  lemma SpacesThatEscape(c: char)
    requires IsEscapable(c)
    ensures IsSpace(c) ==> c == ' '
  {
  }

  lemma NoSpacesAtAll()
    ensures OnlyPlainSpaces([])
  {
  }

  /** A dropped file's path, whitespace, and a text: the path and its caption are read exactly
      when the path's only whitespace is spaces. */
  lemma EscapedPathAndCaption(path: string, c: char, text: string)
    requires IsSpace(c)
    ensures ReadsAs(Escape(path) + [c] + text, path, text) <==> OnlyPlainSpaces(path)
  {
    hide IsSpace, Scan, OnlyPlainSpaces, Trim, IsCaptionOf;
    var arg := Escape(path) + [c] + text;
    SpaceIsNoBackslash(c);
    assert arg[0] == if path == [] then c else if IsEscapable(path[0]) then '\\' else path[0];
    EscapedThen(path, c, text);
    CaptionIsTrimmed(text);
  }

  lemma LiteralTail(path: string)
    requires Literal(path) && path != []
    ensures Literal(path[1..]) && !IsSpace(path[0])
    ensures path[0] == '\\' && |path| > 1 ==> !IsEscapable(path[1])
  {
    hide IsSpace, IsEscapable;
    assert forall i :: 0 <= i < |path[1..]| ==> path[1..][i] == path[i + 1];
  }

  /** The path ends with a backslash that would escape what follows it. */
  predicate EscapesNext(path: string, c: char) {
    path != [] && path[|path| - 1] == '\\' && IsEscapable(c)
  }

  lemma {:induction false} LiteralThen(path: string, c: char, text: string)
    requires Literal(path) && IsSpace(c)
    ensures !EscapesNext(path, c) ==> Scan(path + [c] + text) == Token(path, Some(text))
    ensures EscapesNext(path, c) ==>
              var p := Scan(path + [c] + text).path; |p| >= |path| && p[|path| - 1] == c
    decreases path
  {
    hide IsSpace, IsEscapable, Literal;
    var s := path + [c] + text;
    SpaceIsNoBackslash(c);
    if path == [] {
      assert s == [c] + text && s[1..] == text;
    } else {
      LiteralTail(path);
      var later := path[1..] + [c] + text;
      assert s == [path[0]] + later && s[1..] == later;
      if |path| == 1 {
        assert path == [path[0]] && later == [c] + text && s[2..] == text;
      } else {
        assert s[1] == path[1];
      }
      LiteralThen(path[1..], c, text);
    }
  }

  /** A path typed as it is, whitespace, and a text: read as such exactly when the path does not
      end with a backslash before a space. */
  lemma LiteralPathAndCaption(path: string, c: char, text: string)
    requires Literal(path) && (path != [] ==> !IsQuote(path[0])) && IsSpace(c)
    ensures ReadsAs(path + [c] + text, path, text) <==> !EscapesNext(path, c)
  {
    hide IsSpace, IsEscapable, Scan, Literal, Trim, IsCaptionOf;
    var arg := path + [c] + text;
    SpaceIsNoBackslash(c);
    assert arg[0] == if path == [] then c else path[0];
    LiteralThen(path, c, text);
    CaptionIsTrimmed(text);
  }

  /** A quoted path and a text: read as such exactly when the path does not hold the quote. */
  lemma QuotedPathAndCaption(quote: char, path: string, text: string)
    requires IsQuote(quote)
    ensures ReadsAs([quote] + path + [quote] + text, path, text) <==> quote !in path
  {
    hide IsSpace, Scan, Trim, IsCaptionOf;
    var arg, body := [quote] + path + [quote] + text, path + [quote] + text;
    assert arg[1..] == body;
    QuotedPath(quote, path, text);
    CaptionIsTrimmed(text);
    var i := IndexOf(body, quote);
    if quote in path {
      var j :| 0 <= j < |path| && path[j] == quote;
      assert body[j] == quote && i <= j;
    }
  }

  // ----- Typing on -----

  /** Completion and parsing agree on where the path ends, whatever has been typed. */
  lemma CompletionAgreesWithParsing(arg: string)
    ensures InPathToken(arg) <==> LeadingToken(arg).rest.None?
    ensures InPathToken(arg) ==> PathAndCaption(arg).1 == None
  {
  }

  /** An ordinary character: it neither ends a path nor escapes or quotes. */
  predicate IsOrdinary(c: char) { !IsSpace(c) && !IsEscapable(c) }

  lemma {:induction false} ScanTypedOn(arg: string, c: char)
    requires Scan(arg).rest.None? && IsOrdinary(c)
    ensures Scan(arg + [c]) == Token(Scan(arg).path + [c], None)
    decreases arg
  {
    hide IsSpace, IsEscapable, Scan;
    var s := arg + [c];
    NothingToScan();
    ScanFrom(s, 0);
    assert s[0..] == s;
    if arg == [] {
      assert s == [c] && s[1..] == [];
    } else {
      ScanFrom(arg, 0);
      assert arg[0..] == arg && s[0] == arg[0];
      assert |arg| > 1 ==> s[1] == arg[1] && s[2..] == arg[2..] + [c];
      assert s[1..] == arg[1..] + [c];
      if arg[0] == '\\' && |arg| > 1 && IsEscapable(arg[1]) {
        ScanTypedOn(arg[2..], c);
      } else {
        ScanTypedOn(arg[1..], c);
      }
    }
  }

  lemma TokenTypedOn(arg: string, c: char)
    requires InPathToken(arg) && IsOrdinary(c)
    ensures LeadingToken(arg + [c]) == Token(LeadingToken(arg).path + [c], None)
  {
    hide IsSpace, Scan;
    var s := arg + [c];
    if arg != [] && IsQuote(arg[0]) {
      assert s[1..] == arg[1..] + [c] && arg[0] !in s[1..];
    } else {
      ScanTypedOn(arg, c);
    }
  }

  /** The next ordinary character typed goes into the path exactly while completion says the
      path is being typed; after that it goes into the caption, and the path stays. */
  lemma NextCharacterGoes(arg: string, c: char)
    requires IsOrdinary(c)
    ensures var (path, _), (path', caption') := PathAndCaption(arg), PathAndCaption(arg + [c]);
            && (InPathToken(arg) <==> path' == path + [c])
            && (!InPathToken(arg) <==> path' == path && caption'.Some?)
  {
    hide IsSpace, Scan, LeadingToken, InPathToken, Trim;
    CompletionAgreesWithParsing(arg);
    if InPathToken(arg) {
      TokenTypedOn(arg, c);
    } else {
      EndedPathIsFixed(arg, [c]);
      var rest := LeadingToken(arg).rest.value;
      assert (rest + [c])[|rest|] == c;
      TrimEnds(rest + [c]);
    }
  }

  /** Completion is offered exactly while more typing can still change the path. */
  lemma InPathWhileItCanChange(arg: string)
    ensures InPathToken(arg) <==> exists more :: PathAndCaption(arg + more).0 != PathAndCaption(arg).0
  {
    hide LeadingToken, InPathToken, Trim;
    if InPathToken(arg) {
      NextCharacterGoes(arg, 'x') by { LetterIsOrdinary(); }
      assert PathAndCaption(arg + ['x']).0 != PathAndCaption(arg).0;
    } else {
      forall more ensures PathAndCaption(arg + more).0 == PathAndCaption(arg).0 {
        EndedPathIsFixed(arg, more);
      }
    }
  }

  lemma LetterIsOrdinary()
    ensures IsOrdinary('x')
  {
  }

  lemma {:induction false} ScanEndedStaysEnded(arg: string, more: string)
    requires Scan(arg).rest.Some?
    ensures Scan(arg + more) == Token(Scan(arg).path, Some(Scan(arg).rest.value + more))
    decreases arg
  {
    var s := arg + more;
    if arg[0] == '\\' && |arg| > 1 && IsEscapable(arg[1]) {
      assert s[2..] == arg[2..] + more;
      ScanEndedStaysEnded(arg[2..], more);
    } else if IsSpace(arg[0]) {
      assert s[1..] == arg[1..] + more;
    } else {
      assert s[1..] == arg[1..] + more;
      assert arg[0] != '\\' || |arg| > 1 by { BackslashAloneDoesNotEnd(arg); }
      ScanEndedStaysEnded(arg[1..], more);
    }
  }

  lemma BackslashAloneDoesNotEnd(arg: string)
    requires Scan(arg).rest.Some?
    ensures arg[0] == '\\' ==> |arg| > 1
  {
  }

  /** Once the path has ended, whatever is typed after it leaves the path alone and only
      extends the text the caption is taken from. */
  lemma EndedPathIsFixed(arg: string, more: string)
    requires !InPathToken(arg)
    ensures LeadingToken(arg + more) == Token(LeadingToken(arg).path, Some(LeadingToken(arg).rest.value + more))
    ensures !InPathToken(arg + more)
    ensures PathAndCaption(arg + more).0 == PathAndCaption(arg).0
  {
    var s := arg + more;
    if arg != [] && IsQuote(arg[0]) {
      var body, i := arg[1..], IndexOf(arg[1..], arg[0]);
      assert body == body[..i] + [arg[0]] + body[i + 1..];
      assert s[1..] == body[..i] + [arg[0]] + (body[i + 1..] + more);
      IndexOfFirst(body[..i], arg[0], body[i + 1..] + more);
      assert s[1..][..i] == body[..i] && s[1..][i + 1..] == body[i + 1..] + more;
    } else {
      ScanEndedStaysEnded(arg, more);
    }
  }

  // ----- The loop -----

  /** One step of the scan of the argument from `i` on. */
  lemma ScanFrom(arg: string, i: nat)
    requires i < |arg|
    ensures Scan(arg[i..])
         == if arg[i] == '\\' && i + 1 < |arg| && IsEscapable(arg[i + 1]) then Scan(arg[i + 2..]).Then(arg[i + 1])
            else if IsSpace(arg[i]) then Token([], Some(arg[i + 1..]))
            else Scan(arg[i + 1..]).Then(arg[i])
  {
    hide IsSpace, IsEscapable;
    var s := arg[i..];
    assert s[1..] == arg[i + 1..];
    if i + 1 < |arg| {
      assert s[2..] == arg[i + 2..];
    }
  }

  /** The path and the byte at which the caption text begins. */
  method ScanUnquotedPathToken(arg: string) returns (path: string, captionStart: Option<nat>)
    ensures path == Scan(arg).path && captionStart.Some? == Scan(arg).rest.Some?
    ensures captionStart.Some? ==> SuffixAt(arg, captionStart.value) == Scan(arg).rest
  {
    hide IsSpace, Bytes, SuffixAt, Scan, IsEscapable;
    path := [];
    var i: nat, idx: nat := 0, 0;
    assert arg[0..] == arg;
    NoBytes(arg);
    while i < |arg|
      invariant i <= |arg| && idx == Bytes(arg[..i])
      invariant Scan(arg) == Token(path + Scan(arg[i..]).path, Scan(arg[i..]).rest)
      decreases |arg| - i
    {
      var ch := arg[i];
      ScanFrom(arg, i);
      OneMoreByte(arg, i);
      if ch == '\\' {
        assert !IsSpace(ch) by { BackslashIsNotSpace(); }
        if i + 1 < |arg| && IsEscapable(arg[i + 1]) {
          OneMoreByte(arg, i + 1);
          path := path + [arg[i + 1]];
          i, idx := i + 2, idx + Utf8Len(ch) + Utf8Len(arg[i + 1]);
          continue;
        }
        path := path + [ch];
        i, idx := i + 1, idx + Utf8Len(ch);
        continue;
      }
      if IsSpace(ch) {
        captionStart := Some(idx + Utf8Len(ch));
        assert arg == arg[..i + 1] + arg[i + 1..];
        SuffixAtBoundary(arg[..i + 1], arg[i + 1..]);
        return;
      }
      path := path + [ch];
      i, idx := i + 1, idx + Utf8Len(ch);
    }
    assert arg[i..] == [];
    NothingToScan();
    captionStart := None;
  }

  lemma NothingToScan()
    ensures Scan([]) == Token([], None)
  {
  }

  lemma NoBytes(arg: string)
    ensures Bytes(arg[..0]) == 0
  {
  }

  lemma BackslashIsNotSpace()
    ensures !IsSpace('\\')
  {
  }

  // ----- The two callers -----

  /** The byte at which `c` is first found. */
  function Find(s: string, c: char): (at: Option<nat>)
    ensures at.None? <==> c !in s
  {
    if c in s then Some(Bytes(s[..IndexOf(s, c)])) else None
  }

  lemma SlicesAtQuote(rest: string, quote: char)
    requires quote in rest
    ensures var i, at := IndexOf(rest, quote), Find(rest, quote).value;
            && i < |rest| && CharCount(rest, at) == i
            && SuffixAt(rest, at + Utf8Len(quote)) == Some(rest[i + 1..])
  {
    hide Bytes, SuffixAt, CharCount, IndexOf, Utf8Len;
    var i := IndexOf(rest, quote);
    assert i < |rest| by { assert rest[..|rest|] == rest; }
    CharCountOfPrefix(rest, i);
    OneMoreByte(rest, i);
    assert rest == rest[..i + 1] + rest[i + 1..];
    SuffixAtBoundary(rest[..i + 1], rest[i + 1..]);
  }

  lemma SliceAfterQuote(arg: string)
    requires arg != []
    ensures SuffixAt(arg, Utf8Len(arg[0])) == Some(arg[1..])
  {
    assert arg == [arg[0]] + arg[1..];
    assert Bytes([arg[0]]) == Utf8Len(arg[0]) by { assert [arg[0]][1..] == []; }
    SuffixAtBoundary([arg[0]], arg[1..]);
  }

  method ParseLeadingPathToken(arg: string) returns (path: string, caption: Option<string>)
    ensures (path, caption) == PathAndCaption(arg)
  {
    hide Bytes, SuffixAt, CharCount, Find, Scan, Trim, IsSpace;
    if arg != [] && IsQuote(arg[0]) {
      var quote := arg[0];
      SliceAfterQuote(arg);
      var rest := SuffixAt(arg, Utf8Len(quote)).value;
      var end := Find(rest, quote);
      if end.None? {
        return rest, None;
      }
      SlicesAtQuote(rest, quote);
      path := rest[..CharCount(rest, end.value)];
      var after := Trim(SuffixAt(rest, end.value + Utf8Len(quote)).value);
      return path, if after == [] then None else Some(after);
    }
    var captionStart;
    path, captionStart := ScanUnquotedPathToken(arg);
    var slice := if captionStart.Some? then SuffixAt(arg, captionStart.value) else None;
    var after := Trim(if slice.Some? then slice.value else "");
    TrimEnds("");
    caption := if after == [] then None else Some(after);
  }

  method SendArgumentStillInPathToken(arg: string) returns (still: bool)
    ensures still <==> InPathToken(arg)
  {
    hide Bytes, SuffixAt, Find, Scan;
    if arg != [] && IsQuote(arg[0]) {
      var quote := arg[0];
      SliceAfterQuote(arg);
      var rest := SuffixAt(arg, Utf8Len(quote)).value;
      return Find(rest, quote).None?;
    }
    var _, captionStart := ScanUnquotedPathToken(arg);
    return captionStart.None?;
  }
}
