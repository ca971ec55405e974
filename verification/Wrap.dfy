/** Wrapping of styled lines: words first, characters where a word is too wide, with a
    gutter repeated on every row. */
module Wrap {
  import opened Text

  datatype Style = Style(code: int)

  datatype Cell = Cell(ch: char, style: Style)

  datatype RichSpan = RichSpan(text: string, style: Style, repeatOnWrap: bool)

  /** What wrapping takes from outside: the display width of a character, and the word
      wrapper, which splits a text into lines for a width. */
  datatype Env = Env(width: char -> nat, wrap: (string, nat) -> seq<string>)

  /** The word wrapper's contract: there is a first line, it is a prefix of the text before
      its first newline, and it is empty only if the text starts with a space or a newline. */
  ghost predicate WrapsPrefixes(env: Env) {
    forall s, w {:trigger env.wrap(s, w)} :: s != [] && w >= 1 ==>
      && env.wrap(s, w) != [] && env.wrap(s, w)[0] <= s && '\n' !in env.wrap(s, w)[0]
      && (env.wrap(s, w)[0] == [] ==> s[0] == ' ' || s[0] == '\n')
  }

  // ----- Cells and spans -----

  function TextOf(cells: seq<Cell>): (s: string)
    ensures |s| == |cells| && forall i :: 0 <= i < |s| ==> s[i] == cells[i].ch
  {
    seq(|cells|, i requires 0 <= i < |cells| => cells[i].ch)
  }

  function CellsOf(text: string, style: Style): (cells: seq<Cell>)
    ensures |cells| == |text|
  {
    seq(|text|, i requires 0 <= i < |text| => Cell(text[i], style))
  }

  function Flatten(spans: seq<RichSpan>): seq<Cell> {
    if spans == [] then [] else CellsOf(spans[0].text, spans[0].style) + Flatten(spans[1..])
  }

  function WidthOf(env: Env, cells: seq<Cell>): nat {
    if cells == [] then 0 else env.width(cells[0].ch) + WidthOf(env, cells[1..])
  }

  function PushWrappedChar(line: seq<RichSpan>, c: Cell): seq<RichSpan> {
    var n := |line| - 1;
    if n >= 0 && line[n].style == c.style then line[..n] + [line[n].(text := line[n].text + [c.ch])]
    else line + [RichSpan([c.ch], c.style, false)]
  }

  function ToSpans(cells: seq<Cell>): seq<RichSpan> {
    if cells == [] then [] else PushWrappedChar(ToSpans(cells[..|cells| - 1]), cells[|cells| - 1])
  }

  // ----- Word breaks -----

  function SkipSpaces(cells: seq<Cell>): (r: seq<Cell>)
    ensures |r| <= |cells| && r == cells[|cells| - |r|..]
    ensures forall i :: 0 <= i < |cells| - |r| ==> cells[i].ch == ' '
    ensures r == [] || r[0].ch != ' '
  {
    if cells == [] || cells[0].ch != ' ' then cells else SkipSpaces(cells[1..])
  }

  predicate NoNewline(cells: seq<Cell>) {
    forall i :: 0 <= i < |cells| ==> cells[i].ch != '\n'
  }

  /** The place of the first newline, or the end. */
  function FirstNewline(cells: seq<Cell>): (n: nat)
    ensures n <= |cells| && NoNewline(cells[..n])
    ensures n < |cells| ==> cells[n].ch == '\n'
  {
    if cells == [] || cells[0].ch == '\n' then 0 else 1 + FirstNewline(cells[1..])
  }

  function BeforeNewline(cells: seq<Cell>): seq<Cell> { cells[..FirstNewline(cells)] }

  lemma NewlineIsFirst(cells: seq<Cell>, n: nat)
    requires n <= |cells| && NoNewline(cells[..n]) && (n < |cells| ==> cells[n].ch == '\n')
    ensures FirstNewline(cells) == n
  {
    hide FirstNewline;
    var k := FirstNewline(cells);
    assert NoNewline(cells[..k]);
  }

  lemma NoNewlineJoins(cells: seq<Cell>, i: nat, j: nat)
    requires i <= j <= |cells| && NoNewline(cells[..i]) && NoNewline(cells[i..j])
    ensures NoNewline(cells[..j])
  {
    forall k | 0 <= k < j ensures cells[k].ch != '\n' {
      if k < i {
        assert cells[..i][k] == cells[k];
      } else {
        assert cells[i..j][k - i] == cells[k];
      }
    }
  }

  lemma NewlineAfter(cells: seq<Cell>, m: nat)
    requires m <= |cells| && NoNewline(cells[..m])
    ensures FirstNewline(cells) == m + FirstNewline(cells[m..])
  {
    hide FirstNewline, NoNewline;
    var k := FirstNewline(cells[m..]);
    assert cells[m..][..k] == cells[m..m + k];
    NoNewlineJoins(cells, m, m + k);
    NewlineIsFirst(cells, m + k);
  }

  lemma SpacesAreNoNewlines(cells: seq<Cell>)
    requires Spaces(cells)
    ensures NoNewline(cells)
  {
  }

  lemma NewlineFound(cells: seq<Cell>)
    ensures NoNewline(cells) <==> FirstNewline(cells) == |cells|
    ensures NoNewline(cells) ==> BeforeNewline(cells) == cells
  {
    if NoNewline(cells) {
      NewlineIsFirst(cells, |cells|);
    }
    assert cells[..|cells|] == cells;
  }

  ghost function FirstLine(env: Env, cells: seq<Cell>, width: nat): (n: nat)
    requires WrapsPrefixes(env) && cells != [] && width >= 1
    ensures n <= |cells| && NoNewline(cells[..n]) && (n == 0 ==> cells[0].ch == ' ' || cells[0].ch == '\n')
    ensures env.wrap(TextOf(cells), width) != [] && env.wrap(TextOf(cells), width)[0] == TextOf(cells[..n])
  {
    var line := env.wrap(TextOf(cells), width)[0];
    assert line == TextOf(cells)[..|line|];
    assert forall i :: 0 <= i < |line| ==> line[i] == cells[..|line|][i].ch;
    |line|
  }

  // ----- The cursor loop -----

  /** What one turn of the loop leaves: its line goes, and the spaces after it. */
  ghost function Turn(env: Env, cells: seq<Cell>, width: nat): (rest: seq<Cell>)
    requires WrapsPrefixes(env) && cells != [] && width >= 1
  {
    SkipSpaces(cells[FirstLine(env, cells, width)..])
  }

  /** What is left of the cells after so many turns; the loop ends when nothing is. */
  ghost function RestAfter(env: Env, cells: seq<Cell>, width: nat, continuation: nat, turns: nat): seq<Cell>
    requires WrapsPrefixes(env) && width >= 1 && continuation >= 1
    decreases turns
  {
    if turns == 0 || cells == [] then cells
    else RestAfter(env, Turn(env, cells, width), continuation, continuation, turns - 1)
  }

  lemma SkipSkipsSpaces(cells: seq<Cell>, n: nat)
    requires n <= |cells|
    ensures var after := SkipSpaces(cells[n..]);
            && n + |after| <= |cells| && after == cells[|cells| - |after|..]
            && Spaces(cells[n..|cells| - |after|])
            && (n == 0 && cells != [] ==> (|after| == |cells| <==> cells[0].ch != ' '))
  {
    hide SkipSpaces;
    var rest := cells[n..];
    var after := SkipSpaces(rest);
    var m := |cells| - |after|;
    forall i | n <= i < m ensures cells[i].ch == ' ' {
      assert rest[i - n].ch == ' ';
    }
    assert rest[|rest| - |after|..] == cells[m..];
    assert n == 0 ==> rest == cells;
  }

  /** A turn drops a line of `n` cells and spaces, never reaches past a newline, and moves unless
      it is at one. */
  predicate IsTurn(cells: seq<Cell>, n: nat, after: seq<Cell>)
    requires cells != []
  {
    && n + |after| <= |cells| && after == cells[|cells| - |after|..]
    && Spaces(cells[n..|cells| - |after|])
    && (|after| == |cells| <==> cells[0].ch == '\n')
    && NoNewline(cells[..|cells| - |after|])
    && FirstNewline(cells) == |cells| - |after| + FirstNewline(after)
  }

  lemma TurnSplits(env: Env, cells: seq<Cell>, width: nat)
    requires WrapsPrefixes(env) && cells != [] && width >= 1
    ensures IsTurn(cells, FirstLine(env, cells, width), Turn(env, cells, width))
  {
    hide WrapsPrefixes, TextOf, SkipSpaces, NoNewline, FirstLine, IsTurn;
    SplitAt(cells, FirstLine(env, cells, width));
  }

  lemma SplitAt(cells: seq<Cell>, n: nat)
    requires cells != [] && n <= |cells| && NoNewline(cells[..n])
    requires n == 0 ==> cells[0].ch == ' ' || cells[0].ch == '\n'
    ensures IsTurn(cells, n, SkipSpaces(cells[n..]))
  {
    hide SkipSpaces, FirstNewline, Spaces, NoNewline;
    var after := SkipSpaces(cells[n..]);
    var m := |cells| - |after|;
    SkipSkipsSpaces(cells, n);
    SpacesAreNoNewlines(cells[n..m]);
    NoNewlineJoins(cells, n, m);
    NewlineAfter(cells, m);
    NewlineNotBefore(cells, m);
  }

  lemma NewlineNotBefore(cells: seq<Cell>, n: nat)
    requires n <= |cells| && NoNewline(cells[..n])
    ensures n > 0 ==> cells[0].ch != '\n'
  {
    assert n > 0 ==> cells[..n][0] == cells[0];
  }

  /** The turns never pass the first newline, and as many turns as there are cells before it
      reach it and stay there. */
  lemma {:induction false} LoopStopsAtNewline(env: Env, cells: seq<Cell>, width: nat, continuation: nat, turns: nat)
    requires WrapsPrefixes(env) && width >= 1 && continuation >= 1
    ensures var n, rest := FirstNewline(cells), RestAfter(env, cells, width, continuation, turns);
            && |cells| - n <= |rest|
            && (n <= turns ==> rest == cells[n..])
    decreases turns
  {
    hide WrapsPrefixes, Turn, FirstNewline, BeforeNewline;
    if turns > 0 && cells != [] {
      var after := Turn(env, cells, width);
      TurnSplits(env, cells, width);
      LoopStopsAtNewline(env, after, continuation, continuation, turns - 1);
    }
  }

  /** The loop that wraps a line ends exactly on bodies without a newline, within as many
      turns as there are cells; at a newline it turns forever. */
  lemma LoopEndsIffNoNewline(env: Env, cells: seq<Cell>, width: nat, continuation: nat)
    requires WrapsPrefixes(env) && width >= 1 && continuation >= 1
    ensures (exists turns: nat :: RestAfter(env, cells, width, continuation, turns) == []) <==> NoNewline(cells)
    ensures NoNewline(cells) ==> RestAfter(env, cells, width, continuation, |cells|) == []
  {
    hide WrapsPrefixes, RestAfter, FirstNewline;
    NewlineFound(cells);
    LoopStopsAtNewline(env, cells, width, continuation, |cells|);
    forall turns: nat | RestAfter(env, cells, width, continuation, turns) == [] ensures NoNewline(cells) {
      LoopStopsAtNewline(env, cells, width, continuation, turns);
    }
  }

  /** A file name `a`, newline, `b` is enough: the second half is never reached. */
  lemma FileNameNeverWraps(env: Env, style: Style, width: nat, continuation: nat, turns: nat)
    requires WrapsPrefixes(env) && width >= 1 && continuation >= 1 && turns >= 1
    ensures RestAfter(env, CellsOf("a\nb", style), width, continuation, turns) == CellsOf("\nb", style)
  {
    hide WrapsPrefixes, RestAfter, FirstNewline;
    var cells := CellsOf("a\nb", style);
    NewlineIsFirst(cells, 1);
    LoopStopsAtNewline(env, cells, width, continuation, turns);
    assert cells[1..] == CellsOf("\nb", style);
  }

  /** The word-wrapped lines up to a newline, without the spaces at the breaks. */
  ghost function Segments(env: Env, cells: seq<Cell>, width: nat, continuation: nat): seq<seq<Cell>>
    requires WrapsPrefixes(env) && width >= 1 && continuation >= 1
    decreases |cells|
  {
    if cells == [] || cells[0].ch == '\n' then []
    else
      TurnSplits(env, cells, width);
      [cells[..FirstLine(env, cells, width)]] + Segments(env, Turn(env, cells, width), continuation, continuation)
  }

  // ----- Character breaks -----

  function SaturatingSub(a: nat, b: nat): nat {
    if a < b then 0 else a - b
  }

  /** Fills rows character by character; `remaining` is what is left of the current row. */
  function BreakCells(env: Env, cells: seq<Cell>, current: seq<Cell>, remaining: nat, continuation: nat): seq<seq<Cell>>
    decreases cells
  {
    if cells == [] then (if current == [] then [] else [current])
    else
      var w := env.width(cells[0].ch);
      if remaining < w then
        [current] + BreakCells(env, cells[1..], [cells[0]], SaturatingSub(continuation, w), continuation)
      else
        BreakCells(env, cells[1..], current + [cells[0]], remaining - w, continuation)
  }

  function BreakLine(env: Env, line: seq<Cell>, width: nat, continuation: nat): seq<seq<Cell>> {
    if WidthOf(env, line) <= width then [line] else BreakCells(env, line, [], width, continuation)
  }

  function BreakLines(env: Env, lines: seq<seq<Cell>>, width: nat, continuation: nat): seq<seq<Cell>>
    decreases lines
  {
    if lines == [] then []
    else BreakLine(env, lines[0], width, continuation) + BreakLines(env, lines[1..], continuation, continuation)
  }

  ghost function BodyRows(env: Env, cells: seq<Cell>, width: nat, continuation: nat): seq<seq<Cell>>
    requires WrapsPrefixes(env) && width >= 1 && continuation >= 1
  {
    var rows := BreakLines(env, Segments(env, cells, width, continuation), width, continuation);
    if rows == [] then [[]] else rows
  }

  // ----- Whole lines -----

  function GutterLength(line: seq<RichSpan>): (n: nat)
    ensures n <= |line| && forall i :: 0 <= i < n ==> line[i].repeatOnWrap
    ensures n < |line| ==> !line[n].repeatOnWrap
  {
    if line == [] || !line[0].repeatOnWrap then 0 else 1 + GutterLength(line[1..])
  }

  function Gutter(line: seq<RichSpan>): seq<RichSpan> { line[..GutterLength(line)] }

  function Body(line: seq<RichSpan>): seq<Cell> { Flatten(line[GutterLength(line)..]) }

  predicate IsEmptyLine(line: seq<RichSpan>) {
    forall i :: 0 <= i < |line| ==> line[i].text == []
  }

  /** The width left for the body beside the gutter. */
  function BodyWidth(env: Env, line: seq<RichSpan>, width: nat): (w: nat)
    ensures w >= 1
  {
    var left := SaturatingSub(if width < 1 then 1 else width, WidthOf(env, Flatten(Gutter(line))));
    if left < 1 then 1 else left
  }

  // ----- Conservation -----

  /** A row, and the spaces dropped after it. */
  datatype Piece = Piece(row: seq<Cell>, gap: seq<Cell>)

  function Joined(pieces: seq<Piece>): seq<Cell> {
    if pieces == [] then [] else pieces[0].row + pieces[0].gap + Joined(pieces[1..])
  }

  predicate Spaces(cells: seq<Cell>) {
    forall i :: 0 <= i < |cells| ==> cells[i].ch == ' '
  }

  /** `cells` is exactly the rows in order, each followed by a dropped run of spaces. */
  predicate SplitsInto(cells: seq<Cell>, rows: seq<seq<Cell>>, pieces: seq<Piece>) {
    && Joined(pieces) == cells
    && |pieces| == |rows|
    && forall i :: 0 <= i < |pieces| ==> pieces[i].row == rows[i] && Spaces(pieces[i].gap)
  }

  lemma {:induction false} JoinedConcat(a: seq<Piece>, b: seq<Piece>)
    ensures Joined(a + b) == Joined(a) + Joined(b)
    decreases a
  {
    if a == [] {
      assert a + b == b;
    } else {
      assert (a + b)[1..] == a[1..] + b;
      JoinedConcat(a[1..], b);
    }
  }

  lemma JoinedOne(p: Piece)
    ensures Joined([p]) == p.row + p.gap
  {
    assert [p][1..] == [];
  }

  lemma SplitAppend(a: seq<Cell>, rows: seq<seq<Cell>>, ps: seq<Piece>, b: seq<Cell>, rows': seq<seq<Cell>>, ps': seq<Piece>)
    requires SplitsInto(a, rows, ps) && SplitsInto(b, rows', ps')
    ensures SplitsInto(a + b, rows + rows', ps + ps')
  {
    hide Spaces;
    JoinedConcat(ps, ps');
  }

  lemma SplitOne(row: seq<Cell>)
    ensures SplitsInto(row, [row], [Piece(row, [])])
  {
    JoinedOne(Piece(row, []));
  }

  /** Spaces can be dropped after the last row. */
  lemma SplitDropSpaces(a: seq<Cell>, rows: seq<seq<Cell>>, ps: seq<Piece>, gap: seq<Cell>) returns (ps': seq<Piece>)
    requires rows != [] && SplitsInto(a, rows, ps) && Spaces(gap)
    ensures SplitsInto(a + gap, rows, ps')
  {
    var n := |ps| - 1;
    var last := Piece(ps[n].row, ps[n].gap + gap);
    ps' := ps[..n] + [last];
    assert ps == ps[..n] + [ps[n]];
    JoinedConcat(ps[..n], [ps[n]]);
    JoinedConcat(ps[..n], [last]);
    JoinedOne(ps[n]);
    JoinedOne(last);
  }

  /** Character breaks drop nothing at all. */
  lemma {:induction false} BreakCellsConserves(env: Env, cells: seq<Cell>, current: seq<Cell>, remaining: nat, continuation: nat)
    returns (ps: seq<Piece>)
    ensures SplitsInto(current + cells, BreakCells(env, cells, current, remaining, continuation), ps)
    ensures cells != [] || current != [] ==> BreakCells(env, cells, current, remaining, continuation) != []
    decreases cells
  {
    hide SplitsInto;
    if cells == [] {
      assert current + cells == current;
      if current == [] {
        ps := [];
        SplitNothing();
      } else {
        ps := [Piece(current, [])];
        SplitOne(current);
      }
    } else {
      var c, w := cells[0], env.width(cells[0].ch);
      if remaining < w {
        var rest := BreakCells(env, cells[1..], [c], SaturatingSub(continuation, w), continuation);
        var later := BreakCellsConserves(env, cells[1..], [c], SaturatingSub(continuation, w), continuation);
        assert [c] + cells[1..] == cells;
        SplitOne(current);
        SplitAppend(current, [current], [Piece(current, [])], cells, rest, later);
        ps := [Piece(current, [])] + later;
      } else {
        ps := BreakCellsConserves(env, cells[1..], current + [c], remaining - w, continuation);
        assert current + [c] + cells[1..] == current + cells;
      }
    }
  }

  lemma SplitNothing()
    ensures SplitsInto([], [], [])
  {
  }

  lemma BreakLineConserves(env: Env, line: seq<Cell>, width: nat, continuation: nat) returns (ps: seq<Piece>)
    ensures SplitsInto(line, BreakLine(env, line, width, continuation), ps)
    ensures BreakLine(env, line, width, continuation) != []
  {
    hide SplitsInto;
    if WidthOf(env, line) <= width {
      ps := [Piece(line, [])];
      SplitOne(line);
    } else {
      ps := BreakCellsConserves(env, line, [], width, continuation);
      assert [] + line == line;
    }
  }

  lemma {:induction false} SegmentsConserve(env: Env, cells: seq<Cell>, width: nat, continuation: nat)
    returns (ps: seq<Piece>)
    requires WrapsPrefixes(env) && width >= 1 && continuation >= 1
    ensures SplitsInto(BeforeNewline(cells), BreakLines(env, Segments(env, cells, width, continuation), width, continuation), ps)
    decreases |cells|
  {
    hide BreakLine, WrapsPrefixes, SplitsInto, SkipSpaces, Turn;
    if cells == [] || cells[0].ch == '\n' {
      ps := [];
      SplitNothing();
    } else {
      TurnSplits(env, cells, width);
      var n, after := FirstLine(env, cells, width), Turn(env, cells, width);
      var line, gap := cells[..n], cells[n..|cells| - |after|];
      assert BeforeNewline(cells) == line + gap + BeforeNewline(after);
      var later := Segments(env, after, continuation, continuation);
      var rest := SegmentsConserve(env, after, continuation, continuation);
      var rows := BreakLine(env, line, width, continuation);
      var inner := BreakLineConserves(env, line, width, continuation);
      inner := SplitDropSpaces(line, rows, inner, gap);
      SplitAppend(line + gap, rows, inner, BeforeNewline(after), BreakLines(env, later, continuation, continuation), rest);
      assert ([line] + later)[1..] == later;
      ps := inner + rest;
    }
  }

  /** Wrapping loses and invents nothing: the rows are the body up to a newline, with its
      styles, in order, but for runs of spaces dropped after a row. */
  lemma RowsConserveBody(env: Env, cells: seq<Cell>, width: nat, continuation: nat)
    requires WrapsPrefixes(env) && width >= 1 && continuation >= 1
    ensures exists ps :: SplitsInto(BeforeNewline(cells), BodyRows(env, cells, width, continuation), ps)
    ensures NoNewline(cells) ==> BeforeNewline(cells) == cells
  {
    hide BreakLines, Segments, SplitsInto, BeforeNewline, WrapsPrefixes;
    NewlineFound(cells);
    var before := BeforeNewline(cells);
    var ps := SegmentsConserve(env, cells, width, continuation);
    if BreakLines(env, Segments(env, cells, width, continuation), width, continuation) == [] {
      assert before == [] by { NoRowsNoCells(before, ps); }
      SplitOne([]);
      assert SplitsInto(before, BodyRows(env, cells, width, continuation), [Piece([], [])]);
    } else {
      assert SplitsInto(before, BodyRows(env, cells, width, continuation), ps);
    }
  }

  lemma NoRowsNoCells(cells: seq<Cell>, ps: seq<Piece>)
    requires SplitsInto(cells, [], ps)
    ensures cells == []
  {
  }

  // ----- Fit -----

  /** The row is one character too wide for any row, followed only by zero-width ones. */
  predicate OverWide(env: Env, row: seq<Cell>, width: nat) {
    && row != [] && env.width(row[0].ch) > width
    && forall i :: 1 <= i < |row| ==> env.width(row[i].ch) == 0
  }

  /** Row 0 fits the first width; every later row fits the continuation width or is over-wide. */
  predicate Fits(env: Env, rows: seq<seq<Cell>>, width: nat, continuation: nat) {
    && (rows != [] ==> WidthOf(env, rows[0]) <= width)
    && forall j :: 1 <= j < |rows| ==> WidthOf(env, rows[j]) <= continuation || OverWide(env, rows[j], continuation)
  }

  lemma {:induction false} WidthConcat(env: Env, a: seq<Cell>, b: seq<Cell>)
    ensures WidthOf(env, a + b) == WidthOf(env, a) + WidthOf(env, b)
    decreases a
  {
    if a == [] {
      assert a + b == b;
    } else {
      assert (a + b)[1..] == a[1..] + b;
      WidthConcat(env, a[1..], b);
    }
  }

  lemma WidthSnoc(env: Env, a: seq<Cell>, c: Cell)
    ensures WidthOf(env, a + [c]) == WidthOf(env, a) + env.width(c.ch)
    ensures WidthOf(env, [c]) == env.width(c.ch)
  {
    WidthConcat(env, a, [c]);
    assert [c][1..] == [];
  }

  /** `limit` is what the row in progress may take, and `remaining` what is left of it. */
  predicate InProgress(env: Env, current: seq<Cell>, remaining: nat, limit: nat) {
    WidthOf(env, current) + remaining == limit || (remaining == 0 && OverWide(env, current, limit))
  }

  lemma {:induction false} BreakCellsFits(env: Env, cells: seq<Cell>, current: seq<Cell>, remaining: nat, continuation: nat, limit: nat)
    requires InProgress(env, current, remaining, limit)
    ensures var rows := BreakCells(env, cells, current, remaining, continuation);
            && (rows != [] ==> WidthOf(env, rows[0]) <= limit || (OverWide(env, current, limit) && OverWide(env, rows[0], limit)))
            && forall j :: 1 <= j < |rows| ==> WidthOf(env, rows[j]) <= continuation || OverWide(env, rows[j], continuation)
    decreases cells
  {
    hide WidthOf;
    if cells != [] {
      var c, w := cells[0], env.width(cells[0].ch);
      WidthSnoc(env, current, c);
      if remaining < w {
        BreakCellsFits(env, cells[1..], [c], SaturatingSub(continuation, w), continuation, continuation);
        var rest := BreakCells(env, cells[1..], [c], SaturatingSub(continuation, w), continuation);
        var rows: seq<seq<Cell>> := [current] + rest;
        forall j | 1 <= j < |rows| ensures WidthOf(env, rows[j]) <= continuation || OverWide(env, rows[j], continuation) {
          assert rows[j] == rest[j - 1];
        }
      } else {
        assert InProgress(env, current + [c], remaining - w, limit);
        OverWideIsWide(env, current + [c], limit);
        BreakCellsFits(env, cells[1..], current + [c], remaining - w, continuation, limit);
      }
    }
  }

  lemma BreakLineFits(env: Env, line: seq<Cell>, width: nat, continuation: nat)
    ensures Fits(env, BreakLine(env, line, width, continuation), width, continuation)
  {
    if WidthOf(env, line) > width {
      BreakCellsFits(env, line, [], width, continuation, width);
    }
  }

  lemma {:induction false} BreakLinesFit(env: Env, lines: seq<seq<Cell>>, width: nat, continuation: nat)
    ensures Fits(env, BreakLines(env, lines, width, continuation), width, continuation)
    decreases lines
  {
    hide BreakLine, WidthOf, OverWide;
    if lines != [] {
      var first := BreakLine(env, lines[0], width, continuation);
      var rest := BreakLines(env, lines[1..], continuation, continuation);
      var _ := BreakLineConserves(env, lines[0], width, continuation);
      BreakLineFits(env, lines[0], width, continuation);
      BreakLinesFit(env, lines[1..], continuation, continuation);
      var rows := first + rest;
      forall j | 1 <= j < |rows| ensures WidthOf(env, rows[j]) <= continuation || OverWide(env, rows[j], continuation) {
        assert rows[j] == if j < |first| then first[j] else rest[j - |first|];
      }
    }
  }

  /** Every row fits its limit, unless it is one over-wide character. */
  lemma RowsFit(env: Env, cells: seq<Cell>, width: nat, continuation: nat)
    requires WrapsPrefixes(env) && width >= 1 && continuation >= 1
    ensures Fits(env, BodyRows(env, cells, width, continuation), width, continuation)
  {
    hide BreakLines, Segments;
    BreakLinesFit(env, Segments(env, cells, width, continuation), width, continuation);
  }

  /** The first character of `next` would not have fit at the end of `row`. */
  predicate BrokeLate(env: Env, row: seq<Cell>, next: seq<Cell>, limit: nat) {
    next != [] && WidthOf(env, row) + env.width(next[0].ch) > limit
  }

  predicate BreaksLate(env: Env, rows: seq<seq<Cell>>, limit: nat, continuation: nat) {
    forall j :: 1 <= j < |rows| ==> BrokeLate(env, rows[j - 1], rows[j], if j == 1 then limit else continuation)
  }

  /** Characters are broken off as late as possible. */
  lemma {:induction false} BreaksAreGreedy(env: Env, cells: seq<Cell>, current: seq<Cell>, remaining: nat, continuation: nat, limit: nat)
    requires InProgress(env, current, remaining, limit)
    ensures BreaksLate(env, BreakCells(env, cells, current, remaining, continuation), limit, continuation)
    decreases cells
  {
    hide WidthOf;
    if cells != [] {
      var c, w := cells[0], env.width(cells[0].ch);
      WidthSnoc(env, current, c);
      if remaining < w {
        var rest := BreakCells(env, cells[1..], [c], SaturatingSub(continuation, w), continuation);
        BreaksAreGreedy(env, cells[1..], [c], SaturatingSub(continuation, w), continuation, continuation);
        FirstRowExtends(env, cells[1..], [c], SaturatingSub(continuation, w), continuation);
        assert rest[0][0] == c;
        OverWideIsWide(env, current, limit);
        assert BrokeLate(env, current, rest[0], limit);
        var rows: seq<seq<Cell>> := [current] + rest;
        forall j | 1 <= j < |rows| ensures BrokeLate(env, rows[j - 1], rows[j], if j == 1 then limit else continuation) {
          assert rows[j] == rest[j - 1];
          assert j > 1 ==> rows[j - 1] == rest[j - 2];
        }
      } else {
        assert InProgress(env, current + [c], remaining - w, limit);
        BreaksAreGreedy(env, cells[1..], current + [c], remaining - w, continuation, limit);
      }
    }
  }

  /** A line too wide for its row is broken as late as its row and the next ones allow. */
  lemma WideLinesBreakLate(env: Env, line: seq<Cell>, width: nat, continuation: nat)
    requires WidthOf(env, line) > width
    ensures BreaksLate(env, BreakLine(env, line, width, continuation), width, continuation)
    ensures AllCells(BreakLine(env, line, width, continuation)) == line
  {
    hide BreakCells, BreaksLate, AllCells;
    BreaksAreGreedy(env, line, [], width, continuation, width);
    BreakDropsNothing(env, line, [], width, continuation);
    assert [] + line == line;
  }

  lemma {:induction false} FirstRowExtends(env: Env, cells: seq<Cell>, current: seq<Cell>, remaining: nat, continuation: nat)
    requires current != []
    ensures var rows := BreakCells(env, cells, current, remaining, continuation); rows != [] && current <= rows[0]
    decreases cells
  {
    if cells != [] && remaining >= env.width(cells[0].ch) {
      FirstRowExtends(env, cells[1..], current + [cells[0]], remaining - env.width(cells[0].ch), continuation);
    }
  }

  lemma OverWideIsWide(env: Env, row: seq<Cell>, limit: nat)
    ensures OverWide(env, row, limit) ==> WidthOf(env, row) > limit
  {
  }

  // ----- Words stay whole -----

  predicate StartsWord(cells: seq<Cell>) {
    cells != [] && cells[0].ch != ' ' && cells[0].ch != '\n'
  }

  /** Lines after the first start with a character that is no space. */
  lemma {:induction false} LinesStartAtWords(env: Env, cells: seq<Cell>, width: nat, continuation: nat)
    requires WrapsPrefixes(env) && width >= 1 && continuation >= 1
    ensures var lines := Segments(env, cells, width, continuation);
            && (forall i :: 1 <= i < |lines| ==> StartsWord(lines[i]))
            && (StartsWord(cells) ==> lines != [] && lines[0] != [] && lines[0][0] == cells[0])
    decreases |cells|
  {
    hide WrapsPrefixes, Segments, Turn, NoNewline, TextOf, FirstNewline, Spaces;
    if cells == [] || cells[0].ch == '\n' {
      NoSegments(env, cells, width, continuation);
    } else {
      TurnSplits(env, cells, width);
      SegmentStep(env, cells, width, continuation);
      var n, after := FirstLine(env, cells, width), Turn(env, cells, width);
      var later := Segments(env, after, continuation, continuation);
      LinesStartAtWords(env, after, continuation, continuation);
      LaterLinesStartAtWords(env, cells, width, continuation, later);
      var lines := [cells[..n]] + later;
      assert forall i :: 1 <= i < |lines| ==> lines[i] == later[i - 1];
    }
  }

  /** After a turn no space comes first, so the next line starts a word, if there is one. */
  lemma LaterLinesStartAtWords(env: Env, cells: seq<Cell>, width: nat, continuation: nat, later: seq<seq<Cell>>)
    requires WrapsPrefixes(env) && width >= 1 && continuation >= 1 && cells != []
    requires var after := Turn(env, cells, width);
             && later == Segments(env, after, continuation, continuation)
             && (forall i :: 1 <= i < |later| ==> StartsWord(later[i]))
             && (StartsWord(after) ==> later != [] && later[0] != [] && later[0][0] == after[0])
    ensures forall i :: 0 <= i < |later| ==> StartsWord(later[i])
  {
    hide WrapsPrefixes, Segments, FirstLine, SkipSpaces;
    var after := Turn(env, cells, width);
    if !StartsWord(after) {
      NoSegments(env, after, continuation, continuation);
    }
  }

  lemma NoSegments(env: Env, cells: seq<Cell>, width: nat, continuation: nat)
    requires WrapsPrefixes(env) && width >= 1 && continuation >= 1 && (cells == [] || cells[0].ch == '\n')
    ensures Segments(env, cells, width, continuation) == []
  {
    hide WrapsPrefixes;
  }

  predicate AllFit(env: Env, lines: seq<seq<Cell>>, width: nat, continuation: nat) {
    forall i :: 0 <= i < |lines| ==> WidthOf(env, lines[i]) <= if i == 0 then width else continuation
  }

  /** A character break happens only to a line too wide for its row. */
  lemma {:induction false} FittingLinesAreKept(env: Env, lines: seq<seq<Cell>>, width: nat, continuation: nat)
    requires AllFit(env, lines, width, continuation)
    ensures BreakLines(env, lines, width, continuation) == lines
    decreases lines
  {
    hide WidthOf;
    if lines != [] {
      var rest := lines[1..];
      assert forall i :: 0 <= i < |rest| ==> rest[i] == lines[i + 1];
      FittingLinesAreKept(env, rest, continuation, continuation);
      assert [lines[0]] + rest == lines;
    }
  }

  // ----- Spans carry the cells -----

  lemma {:induction false} FlattenConcat(a: seq<RichSpan>, b: seq<RichSpan>)
    ensures Flatten(a + b) == Flatten(a) + Flatten(b)
    decreases a
  {
    if a == [] {
      assert a + b == b;
    } else {
      assert (a + b)[1..] == a[1..] + b;
      FlattenConcat(a[1..], b);
    }
  }

  lemma FlattenOne(span: RichSpan)
    ensures Flatten([span]) == CellsOf(span.text, span.style)
  {
    assert [span][1..] == [];
  }

  lemma FlattenPush(line: seq<RichSpan>, c: Cell)
    ensures Flatten(PushWrappedChar(line, c)) == Flatten(line) + [c]
  {
    var n := |line| - 1;
    if n >= 0 && line[n].style == c.style {
      var last := line[n].(text := line[n].text + [c.ch]);
      assert line == line[..n] + [line[n]];
      FlattenConcat(line[..n], [line[n]]);
      FlattenConcat(line[..n], [last]);
      FlattenOne(line[n]);
      FlattenOne(last);
      assert CellsOf(last.text, last.style) == CellsOf(line[n].text, last.style) + [c];
    } else {
      var span := RichSpan([c.ch], c.style, false);
      FlattenConcat(line, [span]);
      FlattenOne(span);
      assert CellsOf([c.ch], c.style) == [c];
    }
  }

  /** Spans as long as possible: none empty, neighbours of different style. */
  predicate Merged(spans: seq<RichSpan>) {
    && (forall i :: 0 <= i < |spans| ==> spans[i].text != [] && !spans[i].repeatOnWrap)
    && forall i :: 1 <= i < |spans| ==> spans[i - 1].style != spans[i].style
  }

  lemma MergedPush(line: seq<RichSpan>, c: Cell)
    requires Merged(line)
    ensures Merged(PushWrappedChar(line, c))
  {
  }

  /** A row's spans hold exactly its cells, in as few spans as its styles allow. */
  lemma {:induction false} SpansCarryCells(cells: seq<Cell>)
    ensures Flatten(ToSpans(cells)) == cells && Merged(ToSpans(cells))
  {
    hide Flatten, PushWrappedChar, Merged;
    if cells == [] {
      NoSpansNothing();
    } else {
      var n := |cells| - 1;
      SpansCarryCells(cells[..n]);
      FlattenPush(ToSpans(cells[..n]), cells[n]);
      MergedPush(ToSpans(cells[..n]), cells[n]);
      assert cells == cells[..n] + [cells[n]];
    }
  }

  lemma NoSpansNothing()
    ensures Flatten([]) == [] && Merged([])
  {
  }

  // ----- Whole lines -----

  function Rendered(gutter: seq<RichSpan>, rows: seq<seq<Cell>>): seq<seq<RichSpan>> {
    seq(|rows|, i requires 0 <= i < |rows| => gutter + ToSpans(rows[i]))
  }

  ghost function WrappedLine(env: Env, line: seq<RichSpan>, width: nat, continuation: nat): seq<seq<RichSpan>>
    requires WrapsPrefixes(env)
  {
    if IsEmptyLine(line) then [[]]
    else Rendered(Gutter(line), BodyRows(env, Body(line), BodyWidth(env, line, width), BodyWidth(env, line, continuation)))
  }

  ghost function WrappedLines(env: Env, lines: seq<seq<RichSpan>>, width: nat, continuation: nat): seq<seq<RichSpan>>
    requires WrapsPrefixes(env)
  {
    if lines == [] then []
    else
      WrappedLines(env, lines[..|lines| - 1], width, continuation)
      + WrappedLine(env, lines[|lines| - 1], width, continuation)
  }

  /** What a non-empty line wraps to: rows that each start with the whole gutter, whose
      bodies conserve the line's body up to a newline and fit what the gutter leaves. */
  ghost predicate WellWrapped(env: Env, line: seq<RichSpan>, width: nat, continuation: nat, out: seq<seq<RichSpan>>) {
    exists rows: seq<seq<Cell>>, pieces ::
      && |out| == |rows| > 0
      && (forall i :: 0 <= i < |out| ==> Gutter(line) <= out[i])
      && (forall i :: 0 <= i < |out| ==> Flatten(out[i][|Gutter(line)|..]) == rows[i] && Merged(out[i][|Gutter(line)|..]))
      && SplitsInto(BeforeNewline(Body(line)), rows, pieces)
      && Fits(env, rows, BodyWidth(env, line, width), BodyWidth(env, line, continuation))
  }

  lemma LinesWrapWell(env: Env, line: seq<RichSpan>, width: nat, continuation: nat)
    requires WrapsPrefixes(env) && !IsEmptyLine(line)
    ensures WellWrapped(env, line, width, continuation, WrappedLine(env, line, width, continuation))
  {
    hide BodyRows, ToSpans, SplitsInto, Fits, BodyWidth, Body, Flatten, Merged, Gutter, BeforeNewline;
    var w, c := BodyWidth(env, line, width), BodyWidth(env, line, continuation);
    var rows := BodyRows(env, Body(line), w, c);
    var out := WrappedLine(env, line, width, continuation);
    RowsConserveBody(env, Body(line), w, c);
    var pieces :| SplitsInto(BeforeNewline(Body(line)), rows, pieces);
    RowsFit(env, Body(line), w, c);
    BodyRowsNotEmpty(env, Body(line), w, c);
    forall i | 0 <= i < |out|
      ensures Gutter(line) <= out[i]
      ensures Flatten(out[i][|Gutter(line)|..]) == rows[i] && Merged(out[i][|Gutter(line)|..])
    {
      assert out[i] == Gutter(line) + ToSpans(rows[i]);
      assert out[i][|Gutter(line)|..] == ToSpans(rows[i]);
      SpansCarryCells(rows[i]);
    }
  }

  lemma BodyRowsNotEmpty(env: Env, cells: seq<Cell>, width: nat, continuation: nat)
    requires WrapsPrefixes(env) && width >= 1 && continuation >= 1
    ensures BodyRows(env, cells, width, continuation) != []
  {
  }

  lemma {:induction false} BreakDropsNothing(env: Env, cells: seq<Cell>, current: seq<Cell>, remaining: nat, continuation: nat)
    ensures AllCells(BreakCells(env, cells, current, remaining, continuation)) == current + cells
    decreases cells
  {
    if cells == [] {
      assert [current][1..] == [] && current + [] == current;
    } else {
      var c, w := cells[0], env.width(cells[0].ch);
      assert [c] + cells[1..] == cells;
      if remaining < w {
        BreakDropsNothing(env, cells[1..], [c], SaturatingSub(continuation, w), continuation);
        var rest := BreakCells(env, cells[1..], [c], SaturatingSub(continuation, w), continuation);
        assert ([current] + rest)[1..] == rest;
      } else {
        BreakDropsNothing(env, cells[1..], current + [c], remaining - w, continuation);
        assert current + [c] + cells[1..] == current + cells;
      }
    }
  }

  function AllCells(rows: seq<seq<Cell>>): seq<Cell> {
    if rows == [] then [] else rows[0] + AllCells(rows[1..])
  }

  /** Lines are wrapped one by one, in order; an empty one is an empty row. */
  lemma {:induction false} LinesAreIndependent(env: Env, a: seq<seq<RichSpan>>, b: seq<seq<RichSpan>>, width: nat, continuation: nat)
    requires WrapsPrefixes(env)
    ensures WrappedLines(env, a + b, width, continuation)
         == WrappedLines(env, a, width, continuation) + WrappedLines(env, b, width, continuation)
    ensures |b| == 1 && IsEmptyLine(b[0]) ==> WrappedLines(env, b, width, continuation) == [[]]
    decreases |b|
  {
    hide WrapsPrefixes, WrappedLine, IsEmptyLine;
    if b == [] {
      assert a + b == a;
    } else {
      var n := |b| - 1;
      LinesAreIndependent(env, a, b[..n], width, continuation);
      assert (a + b)[..|a + b| - 1] == a + b[..n];
      if |b| == 1 {
        assert b[..n] == [];
        EmptyLineIsOneRow(env, b[0], width, continuation);
      }
    }
  }

  lemma EmptyLineIsOneRow(env: Env, line: seq<RichSpan>, width: nat, continuation: nat)
    requires WrapsPrefixes(env)
    ensures IsEmptyLine(line) ==> WrappedLine(env, line, width, continuation) == [[]]
  {
  }

  // ----- Rows on the screen -----

  /** The columns a row may take: the width, or, if the gutter fills it, one more than the gutter. */
  function RowWidth(gutter: nat, width: nat): (w: nat)
    ensures w > gutter
  {
    if width <= gutter then gutter + 1 else width
  }

  function GutterWidth(env: Env, line: seq<RichSpan>): nat { WidthOf(env, Flatten(Gutter(line))) }

  /** What the gutter leaves of a row's columns. */
  function BesideGutter(env: Env, line: seq<RichSpan>, width: nat): nat {
    RowWidth(GutterWidth(env, line), width) - GutterWidth(env, line)
  }

  lemma GutterAndBody(env: Env, line: seq<RichSpan>, width: nat)
    ensures GutterWidth(env, line) + BodyWidth(env, line, width) == RowWidth(GutterWidth(env, line), width)
    ensures BodyWidth(env, line, width) == BesideGutter(env, line, width)
  {
    hide WidthOf, Gutter;
  }

  lemma RowColumns(env: Env, line: seq<RichSpan>, row: seq<RichSpan>)
    requires Gutter(line) <= row
    ensures WidthOf(env, Flatten(row)) == GutterWidth(env, line) + WidthOf(env, Flatten(row[|Gutter(line)|..]))
  {
    hide WidthOf, Gutter, Flatten;
    var n := |Gutter(line)|;
    assert row == Gutter(line) + row[n..];
    FlattenConcat(Gutter(line), row[n..]);
    WidthConcat(env, Flatten(Gutter(line)), Flatten(row[n..]));
  }

  /** The row, gutter and all, takes no more than its columns, or is one over-wide character. */
  predicate FitsScreen(env: Env, line: seq<RichSpan>, row: seq<RichSpan>, width: nat) {
    var limit := RowWidth(GutterWidth(env, line), width);
    || WidthOf(env, Flatten(row)) <= limit
    || (|Gutter(line)| <= |row| && OverWide(env, Flatten(row[|Gutter(line)|..]), limit - GutterWidth(env, line)))
  }

  /** Whole rows fit the screen: the first the first width, later ones the continuation width. */
  lemma RowsFitScreen(env: Env, line: seq<RichSpan>, width: nat, continuation: nat)
    requires WrapsPrefixes(env) && !IsEmptyLine(line)
    ensures var out := WrappedLine(env, line, width, continuation);
            && out != [] && WidthOf(env, Flatten(out[0])) <= RowWidth(GutterWidth(env, line), width)
            && forall i :: 1 <= i < |out| ==> FitsScreen(env, line, out[i], continuation)
  {
    hide WrappedLine, WidthOf, Flatten, Gutter, BodyWidth, SplitsInto, Merged, Body, OverWide, GutterWidth, WrapsPrefixes;
    var out := WrappedLine(env, line, width, continuation);
    LinesWrapWell(env, line, width, continuation);
    GutterAndBody(env, line, width);
    GutterAndBody(env, line, continuation);
    var n := |Gutter(line)|;
    var rows: seq<seq<Cell>>, pieces :|
      && |out| == |rows| > 0
      && (forall i :: 0 <= i < |out| ==> Gutter(line) <= out[i])
      && (forall i :: 0 <= i < |out| ==> Flatten(out[i][n..]) == rows[i] && Merged(out[i][n..]))
      && SplitsInto(BeforeNewline(Body(line)), rows, pieces)
      && Fits(env, rows, BodyWidth(env, line, width), BodyWidth(env, line, continuation));
    forall i | 0 <= i < |out|
      ensures WidthOf(env, Flatten(out[i])) == GutterWidth(env, line) + WidthOf(env, rows[i])
    {
      RowColumns(env, line, out[i]);
    }
  }

  /** How the wrapper's lines lie in the cells: line `i` is its first line for what is left at
      `starts[i]`, and from one line to the next exactly the spaces are skipped. */
  ghost predicate IsWordWrap(env: Env, cells: seq<Cell>, lines: seq<seq<Cell>>, starts: seq<nat>, width: nat, continuation: nat) {
    && |starts| == |lines|
    && (forall i :: 0 <= i < |lines| ==> IsWrapperLine(env, cells, lines[i], starts[i], if i == 0 then width else continuation))
    && (lines != [] ==> starts[0] == 0)
    && (forall i :: 1 <= i < |lines| ==> SkipsTo(cells, starts[i - 1] + |lines[i - 1]|, starts[i]))
    && SkipsTo(cells, if lines == [] then 0 else starts[|lines| - 1] + |lines[|lines| - 1]|, FirstNewline(cells))
  }

  ghost predicate IsWrapperLine(env: Env, cells: seq<Cell>, line: seq<Cell>, start: nat, width: nat) {
    && start < |cells| && line <= cells[start..]
    && env.wrap(TextOf(cells[start..]), width) != [] && TextOf(line) == env.wrap(TextOf(cells[start..]), width)[0]
  }

  /** Exactly the spaces from `from` on lie before `to`. */
  predicate SkipsTo(cells: seq<Cell>, from: nat, to: nat) {
    from <= to <= |cells| && Spaces(cells[from..to]) && (to < |cells| ==> cells[to].ch != ' ')
  }

  lemma LaterWrapperLine(env: Env, cells: seq<Cell>, m: nat, line: seq<Cell>, start: nat, width: nat)
    requires m <= |cells| && IsWrapperLine(env, cells[m..], line, start, width)
    ensures IsWrapperLine(env, cells, line, start + m, width)
  {
    assert cells[m..][start..] == cells[start + m..];
  }

  lemma LaterSkips(cells: seq<Cell>, m: nat, from: nat, to: nat)
    requires m <= |cells| && SkipsTo(cells[m..], from, to)
    ensures SkipsTo(cells, from + m, to + m)
  {
    assert cells[m..][from..to] == cells[from + m..to + m];
  }

  lemma FirstWrapperLine(env: Env, cells: seq<Cell>, width: nat)
    requires WrapsPrefixes(env) && width >= 1 && cells != []
    ensures IsWrapperLine(env, cells, cells[..FirstLine(env, cells, width)], 0, width)
  {
    hide WrapsPrefixes;
    assert cells[0..] == cells;
  }

  lemma TurnSkips(env: Env, cells: seq<Cell>, width: nat)
    requires WrapsPrefixes(env) && width >= 1 && cells != []
    ensures |Turn(env, cells, width)| <= |cells|
    ensures SkipsTo(cells, FirstLine(env, cells, width), |cells| - |Turn(env, cells, width)|)
  {
    hide WrapsPrefixes, NoNewline, FirstNewline, FirstLine, SkipSpaces, Spaces;
    TurnSplits(env, cells, width);
  }

  /** One more line in front of a wrapped rest. */
  lemma WordWrapStep(env: Env, cells: seq<Cell>, n: nat, m: nat, later: seq<seq<Cell>>, rest: seq<nat>, width: nat, continuation: nat)
    returns (starts: seq<nat>)
    requires n <= m <= |cells| && cells != [] && IsWrapperLine(env, cells, cells[..n], 0, width) && SkipsTo(cells, n, m)
    requires IsWordWrap(env, cells[m..], later, rest, continuation, continuation)
    requires FirstNewline(cells) == m + FirstNewline(cells[m..]) && (later == [] ==> FirstNewline(cells[m..]) == 0)
    ensures IsWordWrap(env, cells, [cells[..n]] + later, starts, width, continuation)
  {
    hide IsWrapperLine, SkipsTo, FirstNewline;
    var after, lines := cells[m..], [cells[..n]] + later;
    starts := [0] + seq(|rest|, i requires 0 <= i < |rest| => rest[i] + m);
    forall i | 0 <= i < |lines| ensures IsWrapperLine(env, cells, lines[i], starts[i], if i == 0 then width else continuation) {
      if i > 0 {
        LaterWrapperLine(env, cells, m, later[i - 1], rest[i - 1], continuation);
      }
    }
    forall i | 1 <= i < |lines| ensures SkipsTo(cells, starts[i - 1] + |lines[i - 1]|, starts[i]) {
      if i > 1 {
        LaterSkips(cells, m, rest[i - 2] + |later[i - 2]|, rest[i - 1]);
      }
    }
    if later != [] {
      var k := |later| - 1;
      LaterSkips(cells, m, rest[k] + |later[k]|, FirstNewline(after));
    }
  }

  lemma {:induction false} LinesAreTheWrappers(env: Env, cells: seq<Cell>, width: nat, continuation: nat)
    returns (starts: seq<nat>)
    requires WrapsPrefixes(env) && width >= 1 && continuation >= 1
    ensures IsWordWrap(env, cells, Segments(env, cells, width, continuation), starts, width, continuation)
    decreases |cells|
  {
    hide WrapsPrefixes, Segments, Turn, NoNewline, Spaces, IsWordWrap, IsWrapperLine, SkipsTo, FirstLine;
    if cells == [] || cells[0].ch == '\n' {
      NoSegments(env, cells, width, continuation);
      starts := [];
      NothingToWrap(env, cells, width, continuation);
    } else {
      var n, after := FirstLine(env, cells, width), Turn(env, cells, width);
      var m := |cells| - |after|;
      var later := Segments(env, after, continuation, continuation);
      TurnSplits(env, cells, width);
      TurnSkips(env, cells, width);
      FirstWrapperLine(env, cells, width);
      SegmentStep(env, cells, width, continuation);
      var rest := LinesAreTheWrappers(env, after, continuation, continuation);
      NoSegmentsNoText(env, after, continuation, continuation);
      assert after == cells[m..];
      starts := WordWrapStep(env, cells, n, m, later, rest, width, continuation);
    }
  }

  lemma NothingToWrap(env: Env, cells: seq<Cell>, width: nat, continuation: nat)
    requires cells == [] || cells[0].ch == '\n'
    ensures IsWordWrap(env, cells, [], [], width, continuation)
  {
    assert cells[0..0] == [];
  }

  lemma NoSegmentsNoText(env: Env, cells: seq<Cell>, width: nat, continuation: nat)
    requires WrapsPrefixes(env) && width >= 1 && continuation >= 1
    ensures Segments(env, cells, width, continuation) == [] ==> FirstNewline(cells) == 0
  {
    hide WrapsPrefixes, FirstLine;
  }

  /** The rows on the screen: the wrapper is asked for what the gutter leaves of the row's
      columns, and where its lines fit there, they are the rows. */
  lemma RowsAreTheWrappers(env: Env, line: seq<RichSpan>, width: nat, continuation: nat)
    returns (lines: seq<seq<Cell>>, starts: seq<nat>)
    requires WrapsPrefixes(env) && !IsEmptyLine(line)
    ensures var first, later := BesideGutter(env, line, width), BesideGutter(env, line, continuation);
            && IsWordWrap(env, Body(line), lines, starts, first, later)
            && (AllFit(env, lines, first, later) && lines != [] ==>
                  WrappedLine(env, line, width, continuation) == Rendered(Gutter(line), lines))
  {
    hide WrapsPrefixes, Segments, IsWordWrap, Body, Gutter, Flatten, WidthOf, AllFit, BodyWidth, BesideGutter, IsEmptyLine,
         BreakLines, Rendered;
    GutterAndBody(env, line, width);
    GutterAndBody(env, line, continuation);
    var first, later := BodyWidth(env, line, width), BodyWidth(env, line, continuation);
    lines := Segments(env, Body(line), first, later);
    starts := LinesAreTheWrappers(env, Body(line), first, later);
    if AllFit(env, lines, first, later) {
      FittingLinesAreKept(env, lines, first, later);
    }
  }

  /** A body that the wrapper keeps whole, and that fits beside the gutter, stays on one row. */
  lemma FittingBodyIsOneRow(env: Env, line: seq<RichSpan>, width: nat, continuation: nat)
    requires WrapsPrefixes(env) && !IsEmptyLine(line)
    requires var body, beside := Body(line), BesideGutter(env, line, width);
             && WidthOf(env, body) <= beside
             && (body == [] || (var kept := env.wrap(TextOf(body), beside); kept != [] && kept[0] == TextOf(body)))
    ensures WrappedLine(env, line, width, continuation) == [Gutter(line) + ToSpans(Body(line))]
  {
    hide WrapsPrefixes, Segments, Body, Gutter, Flatten, WidthOf, BodyWidth, BesideGutter, IsEmptyLine, BreakLines, TextOf, ToSpans;
    GutterAndBody(env, line, width);
    var body, first, later := Body(line), BodyWidth(env, line, width), BodyWidth(env, line, continuation);
    var lines := Segments(env, body, first, later);
    if body == [] {
      NoSegments(env, body, first, later);
      NoLinesNoRows(env, first, later);
    } else {
      KeptWhole(env, body, first, later);
      FittingLinesAreKept(env, lines, first, later);
    }
  }

  lemma KeptWhole(env: Env, body: seq<Cell>, width: nat, continuation: nat)
    requires WrapsPrefixes(env) && width >= 1 && continuation >= 1 && body != []
    requires env.wrap(TextOf(body), width) != [] && env.wrap(TextOf(body), width)[0] == TextOf(body)
    ensures Segments(env, body, width, continuation) == [body]
  {
    hide *;
    var n := FirstLine(env, body, width);
    assert n == |body| by { assert |TextOf(body[..n])| == n && |TextOf(body)| == |body|; }
    WrapperTurns(env, body, width);
    assert body[..n] == body && body[n..] == [];
    NewlineNotBefore(body, n);
    SegmentStep(env, body, width, continuation);
    NoSegments(env, Turn(env, body, width), continuation, continuation);
  }

  // ----- The loops -----

  method RichLine(cells: seq<Cell>, start: nat, count: nat) returns (richLine: seq<RichSpan>)
    requires start + count <= |cells|
    ensures richLine == ToSpans(cells[start..start + count])
  {
    hide ToSpans, PushWrappedChar;
    richLine := [];
    NoSpans();
    assert cells[start..start] == [];
    for i := 0 to count
      invariant richLine == ToSpans(cells[start..start + i])
    {
      SpansSnoc(cells[start..start + i], cells[start + i]);
      assert cells[start..start + i + 1] == cells[start..start + i] + [cells[start + i]];
      richLine := PushWrappedChar(richLine, cells[start + i]);
    }
  }

  method SkipSpacesFrom(cells: seq<Cell>, start: nat) returns (cursor: nat)
    requires start <= |cells|
    ensures start <= cursor <= |cells| && cells[cursor..] == SkipSpaces(cells[start..])
  {
    cursor := start;
    while cursor < |cells| && cells[cursor].ch == ' '
      invariant start <= cursor <= |cells| && SkipSpaces(cells[cursor..]) == SkipSpaces(cells[start..])
    {
      assert cells[cursor..][1..] == cells[cursor + 1..];
      cursor := cursor + 1;
    }
  }

  lemma RowRendered(rows: seq<seq<Cell>>, row: seq<Cell>)
    ensures Rendered([], rows + [row]) == Rendered([], rows) + [ToSpans(row)]
  {
    assert [] + ToSpans(row) == ToSpans(row);
  }

  lemma RenderedConcat(gutter: seq<RichSpan>, a: seq<seq<Cell>>, b: seq<seq<Cell>>)
    ensures Rendered(gutter, a + b) == Rendered(gutter, a) + Rendered(gutter, b)
  {
  }

  lemma SegmentStep(env: Env, rest: seq<Cell>, width: nat, continuation: nat)
    requires WrapsPrefixes(env) && width >= 1 && continuation >= 1 && rest != [] && rest[0].ch != '\n'
    ensures Segments(env, rest, width, continuation)
         == [rest[..FirstLine(env, rest, width)]] + Segments(env, Turn(env, rest, width), continuation, continuation)
  {
    hide WrapsPrefixes, Turn, FirstLine;
  }

  lemma WrapperTurns(env: Env, rest: seq<Cell>, width: nat)
    requires WrapsPrefixes(env) && width >= 1 && rest != []
    ensures var lines := env.wrap(TextOf(rest), width);
            && lines != [] && |lines[0]| == FirstLine(env, rest, width) <= |rest|
            && Turn(env, rest, width) == SkipSpaces(rest[|lines[0]|..])
  {
    hide WrapsPrefixes, SkipSpaces;
    assert |TextOf(rest[..FirstLine(env, rest, width)])| == FirstLine(env, rest, width);
  }

  /** One turn at index `i`, read off the whole sequence of cells. */
  lemma CursorMoves(cells: seq<Cell>, i: nat, count: nat, next: nat)
    requires i < |cells| && i <= next <= |cells| && NoNewline(cells[..i]) && IsTurn(cells[i..], count, cells[next..])
    ensures next == i ==> !NoNewline(cells)
    ensures next > i ==> cells[i].ch != '\n' && NoNewline(cells[..next])
  {
    hide NoNewline, FirstNewline, Spaces;
    var rest := cells[i..];
    if next == i {
      NewlineShows(cells, i);
    } else {
      assert rest[..next - i] == cells[i..next];
      NoNewlineJoins(cells, i, next);
    }
  }

  /** One turn from the cursor: the line's spans, and where the cursor goes. */
  method OneTurn(env: Env, cells: seq<Cell>, charCursor: nat, segWidth: nat, ghost continuation: nat)
    returns (richLine: seq<RichSpan>, next: nat, ghost line: seq<Cell>)
    requires WrapsPrefixes(env) && segWidth >= 1 && continuation >= 1 && charCursor < |cells| && NoNewline(cells[..charCursor])
    ensures richLine == ToSpans(line)
    ensures charCursor <= next <= |cells|
    ensures next == charCursor ==> !NoNewline(cells)
    ensures next > charCursor ==>
              && NoNewline(cells[..next])
              && Segments(env, cells[charCursor..], segWidth, continuation)
              == [line] + Segments(env, cells[next..], continuation, continuation)
  {
    hide Segments, ToSpans, SkipSpaces, WrapsPrefixes, FirstLine, TextOf, NoNewline, Turn, IsTurn;
    ghost var rest := cells[charCursor..];
    WrapperTurns(env, rest, segWidth);
    var tw := env.wrap(TextOf(cells[charCursor..]), segWidth);
    var count := |tw[0]|;
    richLine := RichLine(cells, charCursor, count);
    line := cells[charCursor..charCursor + count];
    next := SkipSpacesFrom(cells, charCursor + count);
    assert rest[count..] == cells[charCursor + count..] && rest[..count] == line;
    TurnSplits(env, rest, segWidth);
    CursorMoves(cells, charCursor, count, next);
    if next > charCursor {
      SegmentStep(env, rest, segWidth, continuation);
    }
  }

  /** The cursor loop; nothing comes back where it would turn forever at a newline. */
  method WordWrap(env: Env, cells: seq<Cell>, width: nat, continuation: nat) returns (result: Option<seq<seq<RichSpan>>>)
    requires WrapsPrefixes(env) && width >= 1 && continuation >= 1
    ensures result.Some? <==> NoNewline(cells)
    ensures result.Some? ==> result.value == Rendered([], Segments(env, cells, width, continuation))
  {
    hide Segments, ToSpans, Rendered, SkipSpaces, WrapsPrefixes, FirstLine, TextOf, NoNewline, Turn, FirstNewline, Spaces;
    var outLines: seq<seq<RichSpan>> := [];
    var charCursor := 0;
    ghost var done: seq<seq<Cell>> := [];
    assert cells[0..] == cells;
    assert NoNewline(cells[..0]) by { NoCellsNoNewline(cells[..0]); }
    NothingRendered();
    var isFirstSegment := true;
    while charCursor < |cells|
      invariant charCursor <= |cells| && NoNewline(cells[..charCursor])
      invariant outLines == Rendered([], done)
      invariant Segments(env, cells, width, continuation)
             == done + Segments(env, cells[charCursor..], if isFirstSegment then width else continuation, continuation)
      decreases |cells| - charCursor
    {
      var segWidth := if isFirstSegment then width else continuation;
      isFirstSegment := false;
      var richLine, next, line := OneTurn(env, cells, charCursor, segWidth, continuation);
      outLines := outLines + [richLine];
      if next == charCursor {
        return None;
      }
      RowRendered(done, line);
      ghost var later := Segments(env, cells[next..], continuation, continuation);
      assert done + ([line] + later) == (done + [line]) + later;
      charCursor := next;
      done := done + [line];
    }
    assert cells[charCursor..] == [] && cells[..charCursor] == cells;
    SegmentsOfNothing(env, width, continuation);
    SegmentsOfNothing(env, continuation, continuation);
    assert done + [] == done;
    return Some(outLines);
  }

  lemma NoCellsNoNewline(cells: seq<Cell>)
    requires cells == []
    ensures NoNewline(cells)
  {
  }

  lemma NewlineShows(cells: seq<Cell>, i: nat)
    requires i < |cells| && cells[i].ch == '\n'
    ensures !NoNewline(cells)
  {
  }

  lemma NothingRendered()
    ensures Rendered([], []) == []
  {
  }

  lemma SegmentsOfNothing(env: Env, width: nat, continuation: nat)
    requires WrapsPrefixes(env) && width >= 1 && continuation >= 1
    ensures Segments(env, [], width, continuation) == []
  {
  }

  lemma BreakStep(env: Env, rest: seq<Cell>, cur: seq<Cell>, remaining: nat, continuation: nat)
    requires rest != []
    ensures var c, w := rest[0], env.width(rest[0].ch);
            (if remaining < w
             then [cur] + BreakCells(env, rest[1..], [] + [c], SaturatingSub(continuation, w), continuation)
             else BreakCells(env, rest[1..], cur + [c], SaturatingSub(remaining, w), continuation))
            == BreakCells(env, rest, cur, remaining, continuation)
  {
    assert [] + [rest[0]] == [rest[0]];
  }

  /** The part of the pass that fills rows from one line too wide for its row. */
  method CharBreak(env: Env, line: seq<Cell>, maxW: nat, continuation: nat) returns (rows: seq<seq<RichSpan>>)
    ensures rows == Rendered([], BreakCells(env, line, [], maxW, continuation))
  {
    hide ToSpans, Rendered, BreakCells, PushWrappedChar;
    rows := [];
    var current: seq<RichSpan>, remaining := [], maxW;
    ghost var done: seq<seq<Cell>>, cur: seq<Cell> := [], [];
    NothingRendered();
    NoSpans();
    assert line[0..] == line;
    for i := 0 to |line|
      invariant rows == Rendered([], done) && current == ToSpans(cur)
      invariant BreakCells(env, line, [], maxW, continuation)
             == done + BreakCells(env, line[i..], cur, remaining, continuation)
    {
      var ch := line[i];
      var cw := env.width(ch.ch);
      BreakStep(env, line[i..], cur, remaining, continuation);
      assert line[i..][0] == ch && line[i..][1..] == line[i + 1..];
      if remaining < cw {
        RowRendered(done, cur);
        rows := rows + [current];
        ghost var later := BreakCells(env, line[i + 1..], [] + [ch], SaturatingSub(continuation, cw), continuation);
        assert done + ([cur] + later) == (done + [cur]) + later;
        done := done + [cur];
        current, remaining := [], continuation;
        cur := [];
      }
      SpansSnoc(cur, ch);
      current := PushWrappedChar(current, ch);
      remaining := SaturatingSub(remaining, cw);
      cur := cur + [ch];
    }
    assert line[|line|..] == [];
    BreakEnd(env, cur, remaining, continuation);
    NoSpansNoCells(cur);
    if current != [] {
      RowRendered(done, cur);
      rows := rows + [current];
    } else {
      assert done + [] == done;
    }
  }

  lemma BreakEnd(env: Env, cur: seq<Cell>, remaining: nat, continuation: nat)
    ensures BreakCells(env, [], cur, remaining, continuation) == if cur == [] then [] else [cur]
  {
  }

  lemma NoSpans()
    ensures ToSpans([]) == []
  {
  }

  lemma NoSpansNoCells(cells: seq<Cell>)
    ensures ToSpans(cells) == [] <==> cells == []
  {
  }

  lemma SpansSnoc(cells: seq<Cell>, c: Cell)
    ensures ToSpans(cells + [c]) == PushWrappedChar(ToSpans(cells), c)
  {
    assert (cells + [c])[..|cells|] == cells;
  }

  method BreakRows(env: Env, outLines: seq<seq<RichSpan>>, ghost lines: seq<seq<Cell>>, width: nat, continuation: nat)
    returns (finalLines: seq<seq<RichSpan>>)
    requires outLines == Rendered([], lines)
    ensures finalLines == Rendered([], BreakLines(env, lines, width, continuation))
  {
    hide ToSpans, Rendered, BreakLine, BreakLines, Flatten, WidthOf, BreakCells, Merged;
    finalLines := [];
    ghost var done: seq<seq<Cell>> := [];
    NothingRendered();
    RenderedAt(lines);
    assert lines[0..] == lines;
    for idx := 0 to |outLines|
      invariant finalLines == Rendered([], done)
      invariant BreakLines(env, lines, width, continuation)
             == done + BreakLines(env, lines[idx..], if idx == 0 then width else continuation, continuation)
    {
      var line := outLines[idx];
      var maxW := if idx == 0 then width else continuation;
      ghost var rows := BreakLine(env, lines[idx], maxW, continuation);
      ghost var later := BreakLines(env, lines[idx + 1..], continuation, continuation);
      assert BreakLines(env, lines[idx..], maxW, continuation) == rows + later by { BreakLinesStep(env, lines, idx, maxW, continuation); }
      assert done + (rows + later) == (done + rows) + later;
      SpansCarryCells(lines[idx]);
      var cells := Flatten(line);
      RowsOfLine(env, lines[idx], maxW, continuation);
      RenderedConcat([], done, rows);
      if WidthOf(env, cells) <= maxW {
        finalLines := finalLines + [line];
      } else {
        var broken := CharBreak(env, cells, maxW, continuation);
        finalLines := finalLines + broken;
      }
      done := done + rows;
    }
    assert lines[|lines|..] == [];
    NoLinesNoRows(env, width, continuation);
    NoLinesNoRows(env, continuation, continuation);
    assert done + [] == done;
  }

  lemma BreakLinesStep(env: Env, lines: seq<seq<Cell>>, idx: nat, width: nat, continuation: nat)
    requires idx < |lines|
    ensures BreakLines(env, lines[idx..], width, continuation)
         == BreakLine(env, lines[idx], width, continuation) + BreakLines(env, lines[idx + 1..], continuation, continuation)
  {
    assert lines[idx..][1..] == lines[idx + 1..];
  }

  lemma NoLinesNoRows(env: Env, width: nat, continuation: nat)
    ensures BreakLines(env, [], width, continuation) == []
  {
  }

  lemma RenderedAt(lines: seq<seq<Cell>>)
    ensures |Rendered([], lines)| == |lines|
    ensures forall i :: 0 <= i < |lines| ==> Rendered([], lines)[i] == ToSpans(lines[i])
  {
    forall i | 0 <= i < |lines| ensures Rendered([], lines)[i] == ToSpans(lines[i]) {
      assert [] + ToSpans(lines[i]) == ToSpans(lines[i]);
    }
  }

  lemma RowsOfLine(env: Env, line: seq<Cell>, width: nat, continuation: nat)
    ensures Rendered([], BreakLine(env, line, width, continuation))
         == if WidthOf(env, line) <= width then [ToSpans(line)] else Rendered([], BreakCells(env, line, [], width, continuation))
  {
    assert [] + ToSpans(line) == ToSpans(line);
  }

  /** Nothing comes back exactly when some line's body holds a newline. */
  method WrapRichLines(env: Env, lines: seq<seq<RichSpan>>, firstWidth: nat, continuationWidth: nat)
    returns (result: Option<seq<seq<RichSpan>>>)
    requires WrapsPrefixes(env)
    ensures result.Some? <==> forall i :: 0 <= i < |lines| ==> NoNewline(Body(lines[i]))
    ensures result.Some? ==>
              result.value == if lines == [] then [[]] else WrappedLines(env, lines, firstWidth, continuationWidth)
  {
    hide ToSpans, BodyWidth, BodyRows, Body, Gutter, WrapsPrefixes, Flatten, WrappedLine;
    var wrapped: seq<seq<RichSpan>> := [];
    for n := 0 to |lines|
      invariant wrapped == WrappedLines(env, lines[..n], firstWidth, continuationWidth)
      invariant n > 0 ==> wrapped != []
      invariant forall i :: 0 <= i < n ==> NoNewline(Body(lines[i]))
    {
      var rawLine := lines[n];
      assert lines[..n + 1][..n] == lines[..n];
      var rows := WrapOneLine(env, rawLine, firstWidth, continuationWidth);
      if rows.None? {
        return None;
      }
      wrapped := wrapped + rows.value;
    }
    assert lines[..|lines|] == lines;
    if wrapped == [] {
      wrapped := [[]];
    }
    return Some(wrapped);
  }

  method WrapOneLine(env: Env, rawLine: seq<RichSpan>, firstWidth: nat, continuationWidth: nat)
    returns (result: Option<seq<seq<RichSpan>>>)
    requires WrapsPrefixes(env)
    ensures result.Some? <==> NoNewline(Body(rawLine))
    ensures result.Some? ==> result.value == WrappedLine(env, rawLine, firstWidth, continuationWidth) != []
  {
    hide ToSpans, WrapsPrefixes, Flatten, Segments, BreakLines, WidthOf, NoNewline, IsEmptyLine;
    if IsEmptyLine(rawLine) {
      EmptyLineHasNoBody(rawLine);
      return Some([[]]);
    }
    var split := GutterLength(rawLine);
    var prefix, body := rawLine[..split], Flatten(rawLine[split..]);
    var first := BodyWidth(env, rawLine, firstWidth);
    var continuation := BodyWidth(env, rawLine, continuationWidth);
    var words := WordWrap(env, body, first, continuation);
    if words.None? {
      return None;
    }
    ghost var segments := Segments(env, body, first, continuation);
    var finalLines := BreakRows(env, words.value, segments, first, continuation);
    ghost var broken := BreakLines(env, segments, first, continuation);
    if finalLines == [] {
      finalLines := [[]];
    }
    ghost var cells := BodyRows(env, body, first, continuation);
    assert finalLines == Rendered([], cells) by { FinalIsRendered(broken); }
    var rows := InsertGutter(prefix, finalLines, cells);
    return Some(rows);
  }

  lemma EmptyLineHasNoBody(line: seq<RichSpan>)
    requires IsEmptyLine(line)
    ensures NoNewline(Body(line))
  {
    EmptySpansAreFlat(line[GutterLength(line)..]);
  }

  lemma {:induction false} EmptySpansAreFlat(spans: seq<RichSpan>)
    requires IsEmptyLine(spans)
    ensures Flatten(spans) == []
  {
    if spans != [] {
      EmptySpansAreFlat(spans[1..]);
    }
  }

  lemma FinalIsRendered(broken: seq<seq<Cell>>)
    ensures Rendered([], if broken == [] then [[]] else broken)
         == if Rendered([], broken) == [] then [[]] else Rendered([], broken)
  {
    NoSpans();
    assert |Rendered([], broken)| == |broken|;
  }

  /** Re-emits the gutter at the start of every row. */
  method InsertGutter(prefix: seq<RichSpan>, finalLines: seq<seq<RichSpan>>, ghost cells: seq<seq<Cell>>)
    returns (rows: seq<seq<RichSpan>>)
    requires finalLines == Rendered([], cells)
    ensures rows == Rendered(prefix, cells)
  {
    hide ToSpans;
    RenderedAt(cells);
    rows := [];
    for i := 0 to |finalLines|
      invariant |rows| == i && forall j :: 0 <= j < i ==> rows[j] == prefix + finalLines[j]
    {
      var row := finalLines[i];
      for offset := 0 to |prefix|
        invariant row == prefix[..offset] + finalLines[i]
      {
        row := row[..offset] + [prefix[offset]] + row[offset..];
      }
      rows := rows + [row];
    }
  }
}
