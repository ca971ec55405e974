/** Cell geometry: where the cursor of the compose box is drawn, and how far the room list
    scrolls around its divider row. */
module Geometry {
  import opened Text

  // ----- Compose layout -----

  const PREFIX := 2

  function Max(a: nat, b: nat): nat { if a < b then b else a }

  function Min(a: nat, b: nat): nat { if a < b then a else b }

  /** Rows taken by `cols` columns. */
  function Height(cols: nat, width: nat): nat
    requires width > 0
  {
    var rows := (cols + width - 1) / width;
    if rows < 1 then 1 else rows
  }

  /** Row and column, within its own line, of unwrapped column `col`. */
  function Wrapped(col: nat, width: nat): (nat, nat)
    requires width > 0
  {
    if col > width then (1 + (col - width) / width, (col - width) % width) else (0, col)
  }

  function Rows(buffer: string, width: nat): nat
    requires width > 0
    decreases |buffer|
  {
    var i := IndexOf(buffer, '\n');
    Height(PREFIX + i, width) + if i == |buffer| then 0 else Rows(buffer[i + 1..], width)
  }

  /** Where the cursor before character `k` is drawn. */
  function Place(buffer: string, k: nat, width: nat): (nat, nat)
    requires width > 0 && k <= |buffer|
    decreases |buffer|
  {
    var i := IndexOf(buffer, '\n');
    if k <= i then Wrapped(PREFIX + k, width)
    else
      var (row, col) := Place(buffer[i + 1..], k - i - 1, width);
      (Height(PREFIX + i, width) + row, col)
  }

  predicate LexLess(a: (nat, nat), b: (nat, nat)) {
    a.0 < b.0 || (a.0 == b.0 && a.1 < b.1)
  }

  // ----- Division by a width -----

  lemma Distribute(p: int, q: int, n: int)
    ensures (q - p) * n == q * n - p * n
  {
  }

  lemma AtLeastOne(k: int, n: nat)
    requires k >= 1
    ensures k * n >= n
  {
  }

  lemma ProductOrder(p: int, q: int, n: nat)
    requires n > 0
    ensures p < q ==> p * n + n <= q * n
    ensures p * n < q * n ==> p < q
  {
    Distribute(p, q, n);
    Distribute(q, p, n);
    if p < q {
      AtLeastOne(q - p, n);
    } else if q < p {
      AtLeastOne(p - q, n);
    }
  }

  lemma DivideIs(a: nat, n: nat, q: nat, r: nat)
    requires n > 0 && a == q * n + r && r < n
    ensures a / n == q && a % n == r
  {
    var q' := a / n;
    Quotient(a, n);
    ProductOrder(q, q', n);
    ProductOrder(q', q, n);
  }

  lemma Quotient(a: nat, n: nat)
    requires n > 0
    ensures a == (a / n) * n + a % n && 0 <= a % n < n
  {
  }

  /** Wrapping is division, except that a full first row keeps its end column. */
  lemma WrappedIsDivision(col: nat, width: nat)
    requires width > 0
    ensures col == Wrapped(col, width).0 * width + Wrapped(col, width).1
    ensures col != width ==> Wrapped(col, width).1 < width
    ensures col == width ==> Wrapped(col, width) == (0, width)
  {
    if col > width {
      var q, r := (col - width) / width, (col - width) % width;
      assert col - width == q * width + r;
      assert (1 + q) * width == width + q * width;
    }
  }

  lemma HeightCovers(cols: nat, width: nat)
    requires width > 0 && cols > 0
    ensures (Height(cols, width) - 1) * width < cols <= Height(cols, width) * width
  {
    var a := cols + width - 1;
    Quotient(a, width);
    Distribute(1, a / width, width);
    ProductOrder(a / width, 1, width);
  }

  lemma WrappedIncreases(a: nat, b: nat, width: nat)
    requires width > 0 && a < b
    ensures LexLess(Wrapped(a, width), Wrapped(b, width))
  {
    hide Wrapped;
    WrappedIsDivision(a, width);
    WrappedIsDivision(b, width);
    var (p, x) := Wrapped(a, width);
    var (q, y) := Wrapped(b, width);
    ProductOrder(q, p, width);
    if a == width {
      ProductOrder(0, q, width);
      assert q != 0 by { assert b > width; WrappedPastFirstRow(b, width); }
    }
  }

  lemma WrappedPastFirstRow(col: nat, width: nat)
    requires width > 0 && col > width
    ensures Wrapped(col, width).0 > 0
  {
  }

  /** At least two rows, all of them full. */
  predicate FillsRows(cols: nat, width: nat)
    requires width > 0
  {
    cols % width == 0 && cols >= 2 * width
  }

  /** A cursor in a line of `cols` columns stays within the line's rows, except at the end of
      a line that fills at least two rows exactly, where it starts one more. */
  lemma WrappedStaysInLine(col: nat, cols: nat, width: nat)
    requires width > 0 && 0 < col <= cols
    ensures Wrapped(col, width).0 <= Height(cols, width)
    ensures Wrapped(col, width).0 == Height(cols, width) <==> col == cols && FillsRows(cols, width)
    ensures Wrapped(col, width).0 == Height(cols, width) ==> Wrapped(col, width).1 == 0
  {
    hide Wrapped, Height;
    WrappedIsDivision(col, width);
    HeightCovers(cols, width);
    var (row, c) := Wrapped(col, width);
    var h := Height(cols, width);
    assert row * width <= cols <= h * width;
    ProductOrder(h, row, width);
    ProductOrder(row, h, width);
    if row == h {
      assert c == 0 && col == cols == h * width;
      DivideIs(cols, width, h, 0);
      if h < 2 {
        FirstRowFull(col, h, width);
      }
      ProductOrder(1, h, width);
    }
    if col == cols && FillsRows(cols, width) {
      Quotient(cols, width);
      RowOfMultiple(cols / width, row, c, h, width);
    }
  }

  lemma FirstRowFull(col: nat, h: nat, width: nat)
    requires width > 0 && 0 < col == h * width && h < 2
    ensures Wrapped(col, width).0 == 0 && h == 1
  {
  }

  lemma RowOfMultiple(q: nat, row: nat, c: nat, h: nat, width: nat)
    requires width > 0 && q * width == row * width + c && c < width
    requires (h - 1) * width < q * width <= h * width
    ensures row == q == h
  {
    ProductOrder(row, q, width);
    ProductOrder(q, row, width);
    ProductOrder(h - 1, q, width);
    ProductOrder(h, q, width);
  }

  lemma {:induction false} PlaceIsNotOrigin(buffer: string, k: nat, width: nat)
    requires width > 0 && k <= |buffer|
    ensures Place(buffer, k, width) != (0, 0)
    decreases |buffer|
  {
    hide IndexOf, Wrapped;
    var i := IndexOf(buffer, '\n');
    if k <= i {
      WrappedIsDivision(PREFIX + k, width);
    } else {
      PlaceIsNotOrigin(buffer[i + 1..], k - i - 1, width);
    }
  }

  /** The cursor moves strictly forward on screen, across wraps and newlines. */
  lemma {:induction false} PlaceIncreases(buffer: string, k: nat, k': nat, width: nat)
    requires width > 0 && k < k' <= |buffer|
    ensures LexLess(Place(buffer, k, width), Place(buffer, k', width))
    decreases |buffer|
  {
    hide IndexOf, Wrapped, Height;
    var i := IndexOf(buffer, '\n');
    if k' <= i {
      WrappedIncreases(PREFIX + k, PREFIX + k', width);
    } else if k <= i {
      WrappedStaysInLine(PREFIX + k, PREFIX + i, width);
      PlaceIsNotOrigin(buffer[i + 1..], k' - i - 1, width);
    } else {
      PlaceIncreases(buffer[i + 1..], k - i - 1, k' - i - 1, width);
    }
  }

  // ----- Lines -----

  /** The first character of the line that position `k` is on. */
  function LineStart(buffer: string, k: nat): (r: nat)
    requires k <= |buffer|
    ensures r <= k && '\n' !in buffer[r..k]
    ensures r == 0 || buffer[r - 1] == '\n'
  {
    if k == 0 || buffer[k - 1] == '\n' then k
    else
      var r := LineStart(buffer, k - 1);
      assert buffer[r..k] == buffer[r..k - 1] + [buffer[k - 1]];
      r
  }

  /** Rows of all the lines above the one position `k` is on. */
  function RowsAbove(buffer: string, k: nat, width: nat): nat
    requires width > 0 && k <= |buffer|
    decreases |buffer|
  {
    var i := IndexOf(buffer, '\n');
    if k <= i then 0 else Height(PREFIX + i, width) + RowsAbove(buffer[i + 1..], k - i - 1, width)
  }

  lemma {:induction false} LineStartOfRest(buffer: string, i: nat, k: nat)
    requires i < k <= |buffer| && buffer[i] == '\n'
    ensures LineStart(buffer, k) == i + 1 + LineStart(buffer[i + 1..], k - i - 1)
  {
    var rest := buffer[i + 1..];
    if k - 1 == i {
    } else {
      assert rest[k - i - 2] == buffer[k - 1];
      if buffer[k - 1] != '\n' {
        LineStartOfRest(buffer, i, k - 1);
      }
    }
  }

  lemma {:induction false} LineStartOfFirst(buffer: string, k: nat)
    requires k <= IndexOf(buffer, '\n')
    ensures LineStart(buffer, k) == 0
  {
    if k > 0 {
      assert buffer[..IndexOf(buffer, '\n')][k - 1] == buffer[k - 1];
      LineStartOfFirst(buffer, k - 1);
    }
  }

  /** The column that `col` would be if the rows above it were laid end to end. */
  function Unfolded(rows: int, col: nat, width: nat): int {
    rows * width + col
  }

  /** The place is the unwrapped column folded into rows, below the rows of the lines above. */
  lemma {:induction false} PlaceFoldsColumn(buffer: string, k: nat, width: nat)
    requires width > 0 && k <= |buffer|
    ensures var (row, col) := Place(buffer, k, width);
            var above := RowsAbove(buffer, k, width);
            && row >= above && col <= width
            && Unfolded(row - above, col, width) == PREFIX + k - LineStart(buffer, k)
            && (col == width ==> row == above)
    decreases |buffer|
  {
    hide Place, RowsAbove, Wrapped, Height, LineStart, IndexOf, Unfolded;
    var i := IndexOf(buffer, '\n');
    PlaceUnfolds(buffer, k, width);
    if k <= i {
      FirstColumn(PREFIX + k, width);
      LineStartOfFirst(buffer, k);
    } else {
      PlaceFoldsColumn(buffer[i + 1..], k - i - 1, width);
      LineStartOfRest(buffer, i, k);
    }
  }

  lemma FirstColumn(col: nat, width: nat)
    requires width > 0
    ensures Wrapped(col, width).1 <= width && (Wrapped(col, width).1 == width ==> Wrapped(col, width).0 == 0)
    ensures Unfolded(Wrapped(col, width).0, Wrapped(col, width).1, width) == col
  {
    hide Wrapped;
    WrappedIsDivision(col, width);
  }

  lemma PlaceUnfolds(buffer: string, k: nat, width: nat)
    requires width > 0 && k <= |buffer|
    ensures var i := IndexOf(buffer, '\n');
            && (k <= i ==> Place(buffer, k, width) == Wrapped(PREFIX + k, width) && RowsAbove(buffer, k, width) == 0)
            && (k > i ==>
                  var h, later := Height(PREFIX + i, width), Place(buffer[i + 1..], k - i - 1, width);
                  && Place(buffer, k, width) == (h + later.0, later.1)
                  && RowsAbove(buffer, k, width) == h + RowsAbove(buffer[i + 1..], k - i - 1, width))
  {
    hide IndexOf, Wrapped, Height;
  }

  lemma RowsUnfold(buffer: string, width: nat)
    requires width > 0
    ensures var i := IndexOf(buffer, '\n');
            Rows(buffer, width) == Height(PREFIX + i, width) + if i == |buffer| then 0 else Rows(buffer[i + 1..], width)
  {
    hide IndexOf, Height;
  }

  /** The one cursor drawn below the box: at the end of a last line that fills at least two
      rows exactly. */
  predicate Overhangs(buffer: string, k: nat, width: nat)
    requires width > 0 && k <= |buffer|
  {
    var cols := PREFIX + |buffer| - LineStart(buffer, |buffer|);
    k == |buffer| && FillsRows(cols, width)
  }

  lemma {:induction false} PlaceIsInBox(buffer: string, k: nat, width: nat)
    requires width > 0 && k <= |buffer|
    ensures Place(buffer, k, width).0 <= Rows(buffer, width)
    ensures Place(buffer, k, width).0 == Rows(buffer, width) <==> Overhangs(buffer, k, width)
    decreases |buffer|
  {
    hide Place, Rows, RowsAbove, Wrapped, Height, LineStart, IndexOf, Overhangs, FillsRows;
    var i := IndexOf(buffer, '\n');
    PlaceUnfolds(buffer, k, width);
    RowsUnfold(buffer, width);
    if k <= i {
      WrappedStaysInLine(PREFIX + k, PREFIX + i, width);
    }
    if i == |buffer| {
      OverhangOfOnly(buffer, k, width);
    } else {
      OverhangOfRest(buffer, i, k, width);
      RowsIsPositive(buffer[i + 1..], width);
      if k > i {
        PlaceIsInBox(buffer[i + 1..], k - i - 1, width);
      }
    }
  }

  lemma OverhangOfOnly(buffer: string, k: nat, width: nat)
    requires width > 0 && k <= |buffer| == IndexOf(buffer, '\n')
    ensures Overhangs(buffer, k, width) <==> k == |buffer| && FillsRows(PREFIX + |buffer|, width)
  {
    hide LineStart, FillsRows, IndexOf;
    LineStartOfFirst(buffer, |buffer|);
  }

  lemma OverhangOfRest(buffer: string, i: nat, k: nat, width: nat)
    requires width > 0 && k <= |buffer| && i < |buffer| && buffer[i] == '\n'
    ensures k <= i ==> !Overhangs(buffer, k, width)
    ensures k > i ==> (Overhangs(buffer, k, width) <==> Overhangs(buffer[i + 1..], k - i - 1, width))
  {
    hide LineStart, FillsRows;
    LineStartOfRest(buffer, i, |buffer|);
  }

  /** Two letters fill the second of two rows behind the prefix, and the cursor goes to a third. */
  lemma CursorLeavesBox()
    ensures Rows("ab", 2) == 2 && Place("ab", 2, 2) == (2, 0)
  {
    assert IndexOf("ab", '\n') == 2;
  }

  lemma RowsIsPositive(buffer: string, width: nat)
    requires width > 0
    ensures Rows(buffer, width) > 0
  {
  }

  // ----- The layout loop -----

  /** Where a byte cursor is drawn; a cursor past the end is drawn at the origin of the text. */
  function CursorPlace(buffer: string, cursor: nat, width: nat): (nat, nat)
    requires width > 0
  {
    if cursor > Bytes(buffer) then (0, PREFIX) else Place(buffer, CharCount(buffer, cursor), width)
  }

  lemma SplitHead(rest: string)
    ensures var i := IndexOf(rest, '\n');
            && Split(rest, '\n')[0] == rest[..i]
            && (i == |rest| ==> Split(rest, '\n') == [rest])
            && (i < |rest| ==> Split(rest, '\n')[1..] == Split(rest[i + 1..], '\n'))
  {
    hide IndexOf, Split;
    var i := IndexOf(rest, '\n');
    SplitUnfolds(rest, '\n');
    if i == |rest| {
      assert rest[..i] == rest;
    } else {
      var later := Split(rest[i + 1..], '\n');
      assert ([rest[..i]] + later)[1..] == later;
    }
  }

  /** One line further: the rest of the buffer after its first newline. */
  lemma NextLine(buffer: string, p: nat, width: nat)
    requires p <= |buffer| && width > 0
    ensures var rest := buffer[p..];
            var i := IndexOf(rest, '\n');
            var segment := rest[..i];
            && Split(rest, '\n')[0] == segment
            && Bytes(buffer[..p + i]) == Bytes(buffer[..p]) + Bytes(segment)
            && (i == |rest| ==> Split(rest, '\n') == [segment] && p + i == |buffer|)
            && (i < |rest| ==>
                  && Split(rest, '\n')[1..] == Split(buffer[p + i + 1..], '\n')
                  && rest[i + 1..] == buffer[p + i + 1..]
                  && Bytes(buffer[..p + i + 1]) == Bytes(buffer[..p]) + Bytes(segment) + 1)
  {
    hide Bytes, IndexOf, Split;
    var rest := buffer[p..];
    var i := IndexOf(rest, '\n');
    var segment := rest[..i];
    assert buffer[..p + i] == buffer[..p] + segment;
    BytesConcat(buffer[..p], segment);
    SplitHead(rest);
    if i < |rest| {
      assert rest[i + 1..] == buffer[p + i + 1..];
      assert rest[i] == buffer[p + i] == '\n';
      assert buffer[..p + i + 1] == buffer[..p + i] + ['\n'];
      BytesSnoc(buffer[..p + i], '\n');
    } else {
      assert segment == rest;
    }
  }

  /** Characters of the line starting at `p` before position `k`, counted from their bytes. */
  lemma CharsBeforeCursor(buffer: string, p: nat, i: nat, k: nat)
    requires p <= k <= p + i <= |buffer|
    ensures Bytes(buffer[..p]) <= Bytes(buffer[..k])
    ensures CharCount(buffer[p..p + i], Bytes(buffer[..k]) - Bytes(buffer[..p])) == k - p
  {
    var segment := buffer[p..p + i];
    assert buffer[..k] == buffer[..p] + segment[..k - p];
    BytesConcat(buffer[..p], segment[..k - p]);
    CharCountOfPrefix(segment, k - p);
  }

  lemma OffsetOrder(buffer: string, k: nat, j: nat)
    requires k <= |buffer| && j <= |buffer|
    ensures Bytes(buffer[..k]) <= Bytes(buffer[..j]) <==> k <= j
  {
    if k < j {
      OffsetsAreOrdered(buffer, k, j);
    } else if j < k {
      OffsetsAreOrdered(buffer, j, k);
    }
  }

  /** The state of the loop at the line starting at `p` (past the buffer when all are done). */
  ghost predicate LayoutSoFar(buffer: string, k: nat, width: nat, p: nat, segments: seq<string>, offset: nat,
                              totalRows: nat, place: (nat, nat))
    requires width > 0 && k <= |buffer|
  {
    && (segments == [] ==> p == |buffer| + 1)
    && (segments != [] ==> p <= |buffer| && segments == Split(buffer[p..], '\n') && offset == Bytes(buffer[..p]))
    && Rows(buffer, width) == totalRows + (if p <= |buffer| then Rows(buffer[p..], width) else 0)
    && (if k < p then place == Place(buffer, k, width)
        else p <= |buffer| && Place(buffer, k, width) == (totalRows + Place(buffer[p..], k - p, width).0, Place(buffer[p..], k - p, width).1))
  }

  lemma LayoutStep(buffer: string, k: nat, width: nat, p: nat, segments: seq<string>, offset: nat,
                   totalRows: nat, place: (nat, nat))
    requires width > 0 && k <= |buffer| && segments != []
    requires LayoutSoFar(buffer, k, width, p, segments, offset, totalRows, place)
    ensures var segment := segments[0];
            var cursor := Bytes(buffer[..k]);
            var found := offset <= cursor <= offset + Bytes(segment);
            var col := if found then PREFIX + CharCount(segment, cursor - offset) else 0;
            var place' := if found then (totalRows + Wrapped(col, width).0, Wrapped(col, width).1) else place;
            LayoutSoFar(buffer, k, width, p + |segment| + 1, segments[1..], offset + Bytes(segment) + 1,
                        totalRows + Height(PREFIX + |segment|, width), place')
  {
    hide Wrapped, Height, Split, IndexOf, Bytes, CharCount;
    var rest := buffer[p..];
    var i := IndexOf(rest, '\n');
    NextLine(buffer, p, width);
    OffsetOrder(buffer, p, k);
    OffsetOrder(buffer, k, p + i);
    assert rest[..i] == buffer[p..p + i];
    if p <= k <= p + i {
      CharsBeforeCursor(buffer, p, i, k);
    }
  }

  method ComposeLayout(buffer: string, cursor: nat, innerWidth: nat) returns (rows: nat, curRow: nat, curCol: nat)
    requires cursor <= Bytes(buffer) ==> IsBoundary(buffer, cursor)
    ensures var width := Max(innerWidth, 1);
            rows == Rows(buffer, width) && (curRow, curCol) == CursorPlace(buffer, cursor, width)
  {
    hide Rows, Place, Split, Bytes, CharCount, Wrapped, Height, LayoutSoFar, IndexOf;
    var width := Max(innerWidth, 1);
    var totalRows: nat, offset: nat := 0, 0;
    curRow, curCol := 0, PREFIX;
    var segments := Split(buffer, '\n');
    ghost var inside := cursor <= Bytes(buffer);
    ghost var k := if inside then CharCount(buffer, cursor) else 0;
    ghost var p: nat, seen: (nat, nat) := 0, (0, PREFIX);
    LayoutStart(buffer, k, width);
    while segments != []
      invariant LayoutSoFar(buffer, k, width, p, segments, offset, totalRows, seen)
      invariant inside ==> (curRow, curCol) == seen
      invariant !inside ==> (curRow, curCol) == (0, PREFIX)
      decreases |segments|
    {
      var segment := segments[0];
      LayoutStep(buffer, k, width, p, segments, offset, totalRows, seen);
      SegmentIsInBuffer(buffer, k, width, p, segments, offset, totalRows, seen);
      seen := if offset <= Bytes(buffer[..k]) <= offset + Bytes(segment)
              then (totalRows + Wrapped(PREFIX + CharCount(segment, Bytes(buffer[..k]) - offset), width).0,
                    Wrapped(PREFIX + CharCount(segment, Bytes(buffer[..k]) - offset), width).1)
              else seen;
      var segEnd := offset + Bytes(segment);
      if offset <= cursor <= segEnd {
        var (subRow, subCol) := Wrapped(PREFIX + CharCount(segment, cursor - offset), width);
        curRow, curCol := totalRows + subRow, subCol;
      }
      totalRows := totalRows + Height(PREFIX + |segment|, width);
      offset := segEnd + 1;
      segments := segments[1..];
      p := p + |segment| + 1;
    }
    LayoutEnd(buffer, k, width, p, offset, totalRows, seen);
    rows := Max(totalRows, 1);
  }

  lemma LayoutStart(buffer: string, k: nat, width: nat)
    requires width > 0 && k <= |buffer|
    ensures Bytes(buffer[..0]) == 0
    ensures LayoutSoFar(buffer, k, width, 0, Split(buffer, '\n'), 0, 0, (0, PREFIX))
  {
    assert buffer[0..] == buffer;
  }

  lemma SegmentIsInBuffer(buffer: string, k: nat, width: nat, p: nat, segments: seq<string>, offset: nat,
                          totalRows: nat, place: (nat, nat))
    requires width > 0 && k <= |buffer| && segments != []
    requires LayoutSoFar(buffer, k, width, p, segments, offset, totalRows, place)
    ensures offset + Bytes(segments[0]) <= Bytes(buffer)
  {
    var i := IndexOf(buffer[p..], '\n');
    NextLine(buffer, p, width);
    BytesConcat(buffer[..p + i], buffer[p + i..]);
    assert buffer[..p + i] + buffer[p + i..] == buffer;
  }

  lemma LayoutEnd(buffer: string, k: nat, width: nat, p: nat, offset: nat, totalRows: nat, place: (nat, nat))
    requires width > 0 && k <= |buffer|
    requires LayoutSoFar(buffer, k, width, p, [], offset, totalRows, place)
    ensures totalRows == Rows(buffer, width) > 0 && place == Place(buffer, k, width)
  {
    RowsIsPositive(buffer, width);
  }

  // ----- One line for each cursor -----

  /** Characters `[p..e)` of the buffer are one whole line, without its newline. */
  predicate IsLine(buffer: string, p: nat, e: nat) {
    && p <= e <= |buffer| && '\n' !in buffer[p..e]
    && (p == 0 || buffer[p - 1] == '\n')
    && (e == |buffer| || buffer[e] == '\n')
  }

  /** The byte offset of a position lies on a line, ends included. */
  predicate OnLine(buffer: string, k: nat, p: nat, e: nat)
    requires k <= |buffer|
  {
    IsLine(buffer, p, e) && Bytes(buffer[..p]) <= Bytes(buffer[..k]) <= Bytes(buffer[..e])
  }

  lemma LineIsOfPosition(buffer: string, k: nat, p: nat, e: nat)
    requires k <= |buffer| && IsLine(buffer, p, e)
    ensures OnLine(buffer, k, p, e) <==> p == LineStart(buffer, k) && e == k + IndexOf(buffer[k..], '\n')
  {
    hide Bytes, LineStart, IndexOf;
    var q, rest := LineStart(buffer, k), buffer[k..];
    var i := IndexOf(rest, '\n');
    OffsetOrder(buffer, p, k);
    OffsetOrder(buffer, k, e);
    if p <= k <= e {
      NoNewlineWithin(buffer, q, k);
      NoNewlineWithin(buffer, p, e);
      assert rest[..i] == buffer[k..k + i];
      assert i < |rest| ==> rest[i] == buffer[k + i];
      assert e < |buffer| ==> rest[e - k] == buffer[e];
      NoNewlineWithin(buffer, k, k + i);
    }
  }

  lemma NoNewlineWithin(buffer: string, p: nat, e: nat)
    requires p <= e <= |buffer| && '\n' !in buffer[p..e]
    ensures forall j :: p <= j < e ==> buffer[j] != '\n'
  {
    assert forall j :: p <= j < e ==> buffer[p..e][j - p] == buffer[j];
  }

  /** The offset of every cursor lies on exactly one line, though ends count on both sides. */
  lemma OneLinePerCursor(buffer: string, k: nat)
    requires k <= |buffer|
    ensures exists p, e :: OnLine(buffer, k, p, e)
    ensures forall p, e, p', e' :: OnLine(buffer, k, p, e) && OnLine(buffer, k, p', e') ==> p == p' && e == e'
  {
    hide Bytes, LineStart, IndexOf, OnLine;
    var q, e := LineStart(buffer, k), k + IndexOf(buffer[k..], '\n');
    assert buffer[q..e] == buffer[q..k] + buffer[k..][..e - k];
    assert IsLine(buffer, q, e);
    LineIsOfPosition(buffer, k, q, e);
    forall p, f | OnLine(buffer, k, p, f) ensures p == q && f == e {
      assert IsLine(buffer, p, f) by { OnLineIsLine(buffer, k, p, f); }
      LineIsOfPosition(buffer, k, p, f);
    }
  }

  lemma OnLineIsLine(buffer: string, k: nat, p: nat, e: nat)
    requires k <= |buffer| && OnLine(buffer, k, p, e)
    ensures IsLine(buffer, p, e)
  {
  }

  // ----- Room list scroll -----

  /** A room list: the selected row, the page, all the rows, and how many of them are pinned
      above the divider, which takes a row of its own when both sides are non-empty. */
  datatype RoomList = RoomList(selected: nat, page: nat, len: nat, pinned: nat) {
    predicate Divided() { 0 < pinned < len }

    /** Whether the divider is drawn above the selection when scrolled to `scroll`. */
    predicate DividerBefore(scroll: nat) {
      Divided() && selected >= pinned && pinned > scroll
    }

    function DividerRows(scroll: nat): nat {
      if DividerBefore(scroll) then 1 else 0
    }

    /** The selection is on the page when scrolled to `scroll`. */
    predicate Shows(scroll: nat) {
      scroll <= selected && selected - scroll + DividerRows(scroll) < page
    }

    function MaxScroll(): nat {
      var rows := len + if Divided() then 1 else 0;
      Min(if rows < page then 0 else rows - page, if len < 1 then 0 else len - 1)
    }

    function Scrolled(current: nat): nat {
      var scroll :=
        if selected < current then selected
        else if page == 0 then current
        else
          var row := selected - current + DividerRows(current);
          if row < page then current
          else
            var down := Min(current + row + 1 - page, selected);
            if !DividerBefore(down) && down > 0 && selected - (down - 1) + DividerRows(down - 1) < page then down - 1
            else down;
      Min(scroll, MaxScroll())
    }
  }

  method DividerAwareRoomScroll(current: nat, selected: nat, page: nat, len: nat, pinned: nat) returns (r: nat)
    ensures r == RoomList(selected, page, len, pinned).Scrolled(current)
  {
    var list := RoomList(selected, page, len, pinned);
    var scroll := current;
    if selected < scroll {
      scroll := selected;
    } else if page > 0 {
      var selectedRow := selected - scroll + list.DividerRows(scroll);
      if selectedRow >= page {
        scroll := Min(scroll + selectedRow + 1 - page, selected);
        if !list.DividerBefore(scroll) && scroll > 0 {
          var candidate := scroll - 1;
          var candidateRow := selected - candidate + list.DividerRows(candidate);
          if candidateRow < page {
            scroll := candidate;
          }
        }
      }
    }
    r := Min(scroll, list.MaxScroll());
  }

  /** The selection is always shown; a view that shows it is only clamped, a selection above
      the view becomes its first row, and one below it is reached by the least scroll down,
      which the clamp never undoes. */
  lemma ScrollShowsSelection(list: RoomList, current: nat)
    requires list.page >= 1 && list.selected < list.len
    ensures var r := list.Scrolled(current);
            && list.Shows(r) && r <= list.MaxScroll()
            && (list.Shows(current) ==> r == Min(current, list.MaxScroll()))
            && (list.selected < current ==> r == Min(list.selected, list.MaxScroll()))
            && (list.selected >= current && !list.Shows(current) ==>
                  r > current && forall s :: current <= s < r ==> !list.Shows(s))
  {
  }

  lemma ScrollIsIdempotent(list: RoomList, current: nat)
    requires list.page >= 1 && list.selected < list.len
    ensures list.Scrolled(list.Scrolled(current)) == list.Scrolled(current)
  {
    ScrollShowsSelection(list, current);
    ScrollShowsSelection(list, list.Scrolled(current));
  }
}
