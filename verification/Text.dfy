/** Text as the client sees it: sequences of Unicode scalar values, addressed by
    UTF-8 byte offsets, with the White_Space property and decimal numerals. */
module Text {

  datatype Option<+T> = None | Some(value: T)

  datatype Result<+T> = Ok(value: T) | Err(error: string)

  // ----- Whitespace -----

  /** The White_Space property of the Unicode Character Database. */
  predicate IsSpace(c: char) {
    || '\U{9}' <= c <= '\U{d}' || c == ' ' || c == '\U{85}' || c == '\U{a0}' || c == '\U{1680}'
    || '\U{2000}' <= c <= '\U{200a}' || c == '\U{2028}' || c == '\U{2029}' || c == '\U{202f}'
    || c == '\U{205f}' || c == '\U{3000}'
  }

  predicate Blank(s: string) {
    forall i :: 0 <= i < |s| ==> IsSpace(s[i])
  }

  predicate HasSpace(s: string) {
    exists i :: 0 <= i < |s| && IsSpace(s[i])
  }

  function TrimStart(s: string): (r: string)
    ensures |r| <= |s| && r == s[|s| - |r|..] && Blank(s[..|s| - |r|])
    ensures r == [] || !IsSpace(r[0])
  {
    hide IsSpace;
    if s != [] && IsSpace(s[0]) then
      var rest := s[1..];
      var r := TrimStart(rest);
      var k := |rest| - |r|;
      assert rest[k..] == s[k + 1..];
      assert s[..k + 1] == [s[0]] + rest[..k];
      r
    else s
  }

  function TrimEnd(s: string): (r: string)
    ensures |r| <= |s| && r == s[..|r|] && Blank(s[|r|..])
    ensures r == [] || !IsSpace(r[|r| - 1])
  {
    hide IsSpace;
    if s != [] && IsSpace(s[|s| - 1]) then
      var rest := s[..|s| - 1];
      var r := TrimEnd(rest);
      assert rest[..|r|] == s[..|r|];
      assert s[|r|..] == rest[|r|..] + [s[|s| - 1]];
      r
    else s
  }

  function Trim(s: string): string {
    TrimEnd(TrimStart(s))
  }

  lemma TrimEnds(s: string)
    ensures Trim(s) == [] <==> Blank(s)
    ensures Trim(s) != [] ==> !IsSpace(Trim(s)[0]) && !IsSpace(Trim(s)[|Trim(s)| - 1])
  {
    hide IsSpace, TrimStart, TrimEnd;
    var t := TrimStart(s);
    assert s == s[..|s| - |t|] + t;
    if t == [] {
      assert s[..|s|] == s;
      NothingToTrim();
    } else {
      assert t[0] == s[|s| - |t|];
      EndKeepsFirst(t);
    }
  }

  predicate IsMiddle(s: string, t: string, i: nat, j: nat) {
    i <= j <= |s| && t == s[i..j] && Blank(s[..i]) && Blank(s[j..])
  }

  /** Trimming takes whitespace off both ends and nothing else. */
  lemma TrimIsMiddle(s: string)
    ensures exists i: nat, j: nat :: IsMiddle(s, Trim(s), i, j)
  {
    hide IsSpace, TrimStart, TrimEnd;
    var t := TrimStart(s);
    var r := TrimEnd(t);
    var i := |s| - |t|;
    var j := i + |r|;
    assert s[i..] == t && t[..|r|] == r;
    assert s[i..j] == r;
    assert s[j..] == t[|r|..];
    assert Blank(t[|r|..]);
    assert IsMiddle(s, Trim(s), i, j);
  }

  lemma NothingToTrim()
    ensures TrimEnd([]) == []
  {
  }

  lemma EndKeepsFirst(t: string)
    requires t != [] && !IsSpace(t[0])
    ensures TrimEnd(t) != [] && TrimEnd(t)[0] == t[0]
  {
    hide IsSpace, TrimEnd;
    assert TrimEnd(t) != [];
  }

  /** A text that neither starts nor ends with whitespace is its own trim. */
  lemma TrimOfTrimmed(s: string)
    requires s == [] || (!IsSpace(s[0]) && !IsSpace(s[|s| - 1]))
    ensures Trim(s) == s
  {
  }

  lemma TrimIsIdempotent(s: string)
    ensures Trim(Trim(s)) == Trim(s)
  {
    TrimEnds(s);
    TrimOfTrimmed(Trim(s));
  }

  /** Trimming never cuts into a non-blank. */
  lemma {:induction false} TrimEndPast(s: string, i: nat)
    requires i < |s| && !IsSpace(s[i])
    ensures |TrimEnd(s)| > i
  {
    hide IsSpace;
    var n := |s| - 1;
    if IsSpace(s[n]) {
      TrimEndPast(s[..n], i);
    }
  }

  /** A text that starts with a non-blank is trimmed only after its last non-blank. */
  lemma TrimKeepsThrough(before: string, c: char, rest: string)
    requires (before != [] ==> !IsSpace(before[0])) && !IsSpace(c)
    ensures exists tail :: Trim(before + [c] + rest) == before + [c] + tail
  {
    hide IsSpace, TrimEnd;
    var s := before + [c] + rest;
    assert TrimStart(s) == s;
    TrimEndPast(s, |before|);
    var r := TrimEnd(s);
    assert r == before + [c] + s[|before| + 1..|r|];
  }

  lemma {:induction false} TrimEndOfPadded(s: string, blank: string)
    requires s != [] && !IsSpace(s[|s| - 1]) && Blank(blank)
    ensures TrimEnd(s + blank) == s
    decreases |blank|
  {
    hide IsSpace;
    var t := s + blank;
    if blank == [] {
      assert t == s;
    } else {
      assert t[..|t| - 1] == s + blank[..|blank| - 1];
      TrimEndOfPadded(s, blank[..|blank| - 1]);
    }
  }

  lemma TrimOfPadded(s: string, blank: string)
    requires s != [] && !IsSpace(s[0]) && !IsSpace(s[|s| - 1]) && Blank(blank)
    ensures Trim(s + blank) == s
  {
    hide IsSpace, TrimEnd;
    assert TrimStart(s + blank) == s + blank;
    TrimEndOfPadded(s, blank);
  }

  lemma {:induction false} TrimStartSkipsBlank(blank: string, s: string)
    requires Blank(blank)
    ensures TrimStart(blank + s) == TrimStart(s)
  {
    if blank == [] {
      assert blank + s == s;
    } else {
      assert (blank + s)[1..] == blank[1..] + s;
      TrimStartSkipsBlank(blank[1..], s);
    }
  }

  // ----- UTF-8 offsets -----

  function Utf8Len(c: char): (n: nat)
    ensures 1 <= n <= 4
  {
    if c < '\U{80}' then 1 else if c < '\U{800}' then 2 else if c < '\U{10000}' then 3 else 4
  }

  /** The length of the UTF-8 encoding. */
  function Bytes(s: string): nat {
    if s == [] then 0 else Utf8Len(s[0]) + Bytes(s[1..])
  }

  lemma {:induction false} BytesConcat(s: string, t: string)
    ensures Bytes(s + t) == Bytes(s) + Bytes(t)
  {
    if s == [] {
      assert s + t == t;
    } else {
      assert (s + t)[1..] == s[1..] + t;
      BytesConcat(s[1..], t);
    }
  }

  lemma BytesSnoc(s: string, c: char)
    ensures Bytes(s + [c]) == Bytes(s) + Utf8Len(c)
  {
    BytesConcat(s, [c]);
    assert [c][1..] == [];
  }

  lemma OneMoreByte(s: string, i: nat)
    requires i < |s|
    ensures Bytes(s[..i + 1]) == Bytes(s[..i]) + Utf8Len(s[i])
  {
    assert s[..i + 1] == s[..i] + [s[i]];
    BytesSnoc(s[..i], s[i]);
  }

  /** Offsets of two positions are ordered as the positions are. */
  lemma OffsetsAreOrdered(s: string, i: nat, j: nat)
    requires i < j <= |s|
    ensures Bytes(s[..i]) < Bytes(s[..j])
  {
    var mid := s[i..j];
    assert s[..j] == s[..i] + mid;
    BytesConcat(s[..i], mid);
  }

  /** The text from byte `offset` on; `None` past the end or inside a character. */
  function SuffixAt(s: string, offset: nat): (r: Option<string>)
    ensures r.Some? ==> |r.value| <= |s| && r.value == s[|s| - |r.value|..]
  {
    if offset == 0 then Some(s)
    else if s == [] || offset < Utf8Len(s[0]) then None
    else SuffixAt(s[1..], offset - Utf8Len(s[0]))
  }

  lemma {:induction false} SuffixAtBoundary(s: string, t: string)
    ensures SuffixAt(s + t, Bytes(s)) == Some(t)
  {
    hide Utf8Len;
    if s == [] {
      assert s + t == t;
    } else {
      assert (s + t)[1..] == s[1..] + t && (s + t)[0] == s[0];
      assert SuffixAt(s + t, Bytes(s)) == SuffixAt((s + t)[1..], Bytes(s[1..]));
      SuffixAtBoundary(s[1..], t);
    }
  }

  /** How many characters `bytes` bytes of `s` make. */
  function CharCount(s: string, bytes: nat): (n: nat)
    ensures n <= |s|
  {
    if s == [] || bytes < Utf8Len(s[0]) then 0 else 1 + CharCount(s[1..], bytes - Utf8Len(s[0]))
  }

  predicate IsBoundary(s: string, offset: nat) {
    Bytes(s[..CharCount(s, offset)]) == offset
  }

  lemma {:induction false} CharCountOfPrefix(s: string, k: nat)
    requires k <= |s|
    ensures CharCount(s, Bytes(s[..k])) == k
  {
    if k > 0 {
      assert s[..k][1..] == s[1..][..k - 1];
      CharCountOfPrefix(s[1..], k - 1);
    } else if s != [] {
      assert s[..k] == [];
    }
  }

  // ----- Splitting -----

  function IndexOf(s: string, c: char): (i: nat)
    ensures i <= |s| && c !in s[..i]
    ensures i < |s| ==> s[i] == c
  {
    if s == [] || s[0] == c then 0
    else
      var i := 1 + IndexOf(s[1..], c);
      assert s[..i] == [s[0]] + s[1..][..i - 1];
      i
  }

  /** The text before and after the first `c`. */
  function SplitOnce(s: string, c: char): Option<(string, string)> {
    var i := IndexOf(s, c);
    if i == |s| then None else Some((s[..i], s[i + 1..]))
  }

  lemma {:induction false} IndexOfFirst(a: string, c: char, b: string)
    requires c !in a
    ensures IndexOf(a + [c] + b, c) == |a|
  {
    if a != [] {
      assert (a + [c] + b)[1..] == a[1..] + [c] + b;
      IndexOfFirst(a[1..], c, b);
    }
  }

  lemma IndexOfNone(s: string, c: char)
    requires c !in s
    ensures IndexOf(s, c) == |s|
  {
    hide IndexOf;
  }

  lemma SplitOnceAt(a: string, c: char, b: string)
    requires c !in a
    ensures SplitOnce(a + [c] + b, c) == Some((a, b))
  {
    IndexOfFirst(a, c, b);
    assert (a + [c] + b)[..|a|] == a && (a + [c] + b)[|a| + 1..] == b;
  }

  /** All the pieces between occurrences of `c`; at least one. */
  function Split(s: string, c: char): (r: seq<string>)
    ensures r != []
    decreases |s|
  {
    var i := IndexOf(s, c);
    if i == |s| then [s] else [s[..i]] + Split(s[i + 1..], c)
  }

  lemma SplitUnfolds(s: string, c: char)
    ensures var i := IndexOf(s, c);
            Split(s, c) == if i == |s| then [s] else [s[..i]] + Split(s[i + 1..], c)
  {
    hide IndexOf;
  }

  lemma SplitStep(a: string, c: char, b: string)
    requires c !in a
    ensures Split(a + [c] + b, c) == [a] + Split(b, c)
    ensures Split(a, c) == [a]
  {
    IndexOfFirst(a, c, b);
    assert (a + [c] + b)[..|a|] == a && (a + [c] + b)[|a| + 1..] == b;
    assert IndexOf(a, c) == |a|;
  }

  // ----- Numerals -----

  predicate IsDigit(c: char) { '0' <= c <= '9' }

  predicate AllDigits(s: string) {
    forall i :: 0 <= i < |s| ==> IsDigit(s[i])
  }

  function Decimal(n: nat): (s: string)
    ensures s != [] && AllDigits(s)
  {
    var digit := ['0' + (n % 10) as char];
    if n < 10 then digit else Decimal(n / 10) + digit
  }

  function DigitsValue(s: string): nat
    requires AllDigits(s)
  {
    if s == [] then 0 else 10 * DigitsValue(s[..|s| - 1]) + (s[|s| - 1] as int - '0' as int)
  }

  /** An integer literal with an optional sign (`-` only if the type is signed), in range. */
  function ParseInt(s: string, signed: bool, low: int, high: int): Option<int> {
    var negative := signed && s != [] && s[0] == '-';
    var digits := if s != [] && (s[0] == '+' || negative) then s[1..] else s;
    if digits == [] || !AllDigits(digits) then None
    else
      var n: int := DigitsValue(digits);
      var v := if negative then -n else n;
      if low <= v <= high then Some(v) else None
  }

  function FormatInt(n: int): string {
    if n < 0 then "-" + Decimal(-n) else Decimal(n)
  }

  lemma {:induction false} ValueOfDecimal(n: nat)
    ensures DigitsValue(Decimal(n)) == n
  {
    var s := Decimal(n);
    var digit := '0' + (n % 10) as char;
    if n < 10 {
      assert s[..|s| - 1] == [];
    } else {
      ValueOfDecimal(n / 10);
      assert s[..|s| - 1] == Decimal(n / 10);
    }
  }

  lemma ParseOfDecimal(n: nat, signed: bool, low: int, high: int)
    requires low <= n <= high
    ensures ParseInt(Decimal(n), signed, low, high) == Some(n)
  {
    ValueOfDecimal(n);
    assert IsDigit(Decimal(n)[0]);
  }
}
