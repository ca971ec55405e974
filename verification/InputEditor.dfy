/** The line editor of the input box: a UTF-8 text with a byte cursor, proved to behave as
    the text left and the text right of the cursor. */
module InputEditor {
  import opened Text

  /** The text on either side of the cursor. */
  datatype Sides = Sides(left: string, right: string) {
    function Text(): string { left + right }
  }

  // ----- What each key does to the two sides -----

  function Inserted(s: Sides, text: string): Sides { Sides(s.left + text, s.right) }

  /** Moves the cursor to character `k` of the whole text. */
  function MovedTo(s: Sides, k: nat): Sides
    requires k <= |s.Text()|
  {
    Sides(s.Text()[..k], s.Text()[k..])
  }

  function Backspaced(s: Sides): Sides {
    if s.left == [] then s else s.(left := s.left[..|s.left| - 1])
  }

  function DeletedForward(s: Sides): Sides {
    if s.right == [] then s else s.(right := s.right[1..])
  }

  /** The start of the last word of a text, after skipping the whitespace that follows it. */
  function WordStart(left: string): (i: nat)
    ensures i <= |left|
  {
    SkipBack(left, SkipBack(left, |left|, true), false)
  }

  /** Back over the characters before `i` that are whitespace, or that are not. */
  function SkipBack(s: string, i: nat, space: bool): (r: nat)
    requires i <= |s|
    ensures r <= i && forall k :: r <= k < i ==> IsSpace(s[k]) == space
    ensures r == 0 || IsSpace(s[r - 1]) != space
  {
    if i == 0 || IsSpace(s[i - 1]) != space then i else SkipBack(s, i - 1, space)
  }

  function SkipAhead(s: string, i: nat, space: bool): (r: nat)
    requires i <= |s|
    ensures i <= r <= |s| && forall k :: i <= k < r ==> IsSpace(s[k]) == space
    ensures r == |s| || IsSpace(s[r]) != space
    decreases |s| - i
  {
    if i == |s| || IsSpace(s[i]) != space then i else SkipAhead(s, i + 1, space)
  }

  function WordEnd(right: string): (i: nat)
    ensures i <= |right|
  {
    SkipAhead(right, SkipAhead(right, 0, false), true)
  }

  function WordDeleted(s: Sides): Sides { s.(left := s.left[..WordStart(s.left)]) }

  function WordLeft(s: Sides): Sides {
    var i := WordStart(s.left);
    Sides(s.left[..i], s.left[i..] + s.right)
  }

  function WordRight(s: Sides): Sides {
    var i := WordEnd(s.right);
    Sides(s.left + s.right[..i], s.right[i..])
  }

  // ----- The editor -----

  class Input {
    var buffer: string
    var cursor: nat

    ghost predicate Valid()
      reads this
    {
      cursor <= Bytes(buffer) && IsBoundary(buffer, cursor)
    }

    ghost function View(): Sides
      reads this
    {
      var k := CharCount(buffer, cursor);
      Sides(buffer[..k], buffer[k..])
    }

    constructor ()
      ensures Valid() && View() == Sides([], [])
    {
      buffer, cursor := [], 0;
    }

    method InsertStr(text: string)
      requires Valid()
      modifies this
      ensures Valid() && View() == Inserted(old(View()), text)
    {
      hide Bytes, CharCount;
      var k := CharCount(buffer, cursor);
      var left, right := buffer[..k], buffer[k..];
      buffer := left + text + right;
      cursor := cursor + Bytes(text);
      BytesConcat(left, text);
      CursorAfter(left + text, right);
    }

    method InsertChar(ch: char)
      requires Valid()
      modifies this
      ensures Valid() && View() == Inserted(old(View()), [ch])
    {
      hide Bytes, CharCount;
      var k := CharCount(buffer, cursor);
      var left, right := buffer[..k], buffer[k..];
      buffer := left + [ch] + right;
      cursor := cursor + Utf8Len(ch);
      BytesSnoc(left, ch);
      CursorAfter(left + [ch], right);
    }

    method Backspace()
      requires Valid()
      modifies this
      ensures Valid() && View() == Backspaced(old(View()))
    {
      hide Bytes, CharCount;
      CursorAtStart(buffer, cursor);
      if cursor == 0 {
        return;
      }
      var k := CharCount(buffer, cursor);
      var left, right := buffer[..k], buffer[k..];
      var previous := left[..k - 1];
      buffer, cursor := previous + right, Bytes(previous);
      CursorAfter(previous, right);
    }

    method DeleteForward()
      requires Valid()
      modifies this
      ensures Valid() && View() == DeletedForward(old(View()))
    {
      hide Bytes, CharCount;
      CursorAtEnd(buffer, cursor);
      if cursor >= Bytes(buffer) {
        return;
      }
      var k := CharCount(buffer, cursor);
      var left, right := buffer[..k], buffer[k..];
      buffer := left + right[1..];
      CursorAfter(left, right[1..]);
    }

    method MoveCursorLeft()
      requires Valid()
      modifies this`cursor
      ensures Valid() && View() == (var s := old(View()); if s.left == [] then s else MovedTo(s, |s.left| - 1))
    {
      hide Bytes, CharCount;
      CursorAtStart(buffer, cursor);
      SplitAtCursor(buffer, cursor);
      if cursor == 0 {
        return;
      }
      var k := CharCount(buffer, cursor);
      cursor := Bytes(buffer[..k - 1]);
      CursorWithin(buffer, k - 1);
    }

    method MoveCursorRight()
      requires Valid()
      modifies this`cursor
      ensures Valid() && View() == (var s := old(View()); if s.right == [] then s else MovedTo(s, |s.left| + 1))
    {
      hide Bytes, CharCount;
      CursorAtEnd(buffer, cursor);
      SplitAtCursor(buffer, cursor);
      if cursor >= Bytes(buffer) {
        return;
      }
      var k := CharCount(buffer, cursor);
      OneMoreByte(buffer, k);
      cursor := cursor + Utf8Len(buffer[k]);
      CursorWithin(buffer, k + 1);
    }

    method DeleteWordBack()
      requires Valid()
      modifies this
      ensures Valid() && View() == WordDeleted(old(View()))
    {
      hide Bytes, CharCount, IsSpace;
      CursorAtStart(buffer, cursor);
      if cursor == 0 {
        return;
      }
      var k := CharCount(buffer, cursor);
      var left, right := buffer[..k], buffer[k..];
      var i := FindWordStart(left);
      buffer, cursor := left[..i] + right, Bytes(left[..i]);
      CursorAfter(left[..i], right);
    }

    method MoveCursorWordLeft()
      requires Valid()
      modifies this`cursor
      ensures Valid() && View() == WordLeft(old(View()))
    {
      hide Bytes, CharCount, IsSpace;
      var k := CharCount(buffer, cursor);
      var i := FindWordStart(buffer[..k]);
      cursor := Bytes(buffer[..k][..i]);
      assert buffer[..k][..i] == buffer[..i];
      assert buffer[..k][i..] + buffer[k..] == buffer[i..];
      CursorWithin(buffer, i);
    }

    method MoveCursorWordRight()
      requires Valid()
      modifies this`cursor
      ensures Valid() && View() == WordRight(old(View()))
    {
      hide Bytes, CharCount, IsSpace;
      var k := CharCount(buffer, cursor);
      var s := buffer[k..];
      var i := FindWordEnd(s);
      cursor := cursor + Bytes(s[..i]);
      BytesConcat(buffer[..k], s[..i]);
      assert buffer[..k] + s[..i] == buffer[..k + i];
      assert s[i..] == buffer[k + i..];
      CursorWithin(buffer, k + i);
    }
  }

  method FindWordStart(left: string) returns (i: nat)
    ensures i == WordStart(left)
  {
    hide IsSpace;
    i := |left|;
    while i > 0 && IsSpace(left[i - 1])
      invariant i <= |left| && SkipBack(left, i, true) == SkipBack(left, |left|, true)
    {
      i := i - 1;
    }
    ghost var j := i;
    while i > 0 && !IsSpace(left[i - 1])
      invariant i <= j && SkipBack(left, i, false) == SkipBack(left, j, false)
    {
      i := i - 1;
    }
  }

  method FindWordEnd(right: string) returns (i: nat)
    ensures i == WordEnd(right)
  {
    hide IsSpace;
    i := 0;
    while i < |right| && !IsSpace(right[i])
      invariant i <= |right| && SkipAhead(right, i, false) == SkipAhead(right, 0, false)
    {
      i := i + 1;
    }
    ghost var j := i;
    while i < |right| && IsSpace(right[i])
      invariant i <= |right| && SkipAhead(right, i, true) == SkipAhead(right, j, true)
    {
      i := i + 1;
    }
  }

  // ----- Byte cursors -----

  /** A cursor that is the length of the left side is on a boundary and splits there. */
  lemma CursorAfter(left: string, right: string)
    ensures var s, c := left + right, Bytes(left);
            && CharCount(s, c) == |left| && IsBoundary(s, c) && c <= Bytes(s)
            && s[..|left|] == left && s[|left|..] == right
  {
    var s := left + right;
    assert s[..|left|] == left;
    CharCountOfPrefix(s, |left|);
    BytesConcat(left, right);
  }

  lemma CursorWithin(s: string, k: nat)
    requires k <= |s|
    ensures var c := Bytes(s[..k]); CharCount(s, c) == k && IsBoundary(s, c) && c <= Bytes(s)
  {
    CursorAfter(s[..k], s[k..]);
    assert s[..k] + s[k..] == s;
  }

  lemma CursorAtStart(s: string, c: nat)
    requires IsBoundary(s, c)
    ensures c == 0 <==> CharCount(s, c) == 0
  {
    if CharCount(s, c) == 0 {
      assert s[..0] == [];
    }
  }

  lemma CursorAtEnd(s: string, c: nat)
    requires IsBoundary(s, c) && c <= Bytes(s)
    ensures c == Bytes(s) <==> CharCount(s, c) == |s|
  {
    var k := CharCount(s, c);
    if k == |s| {
      assert s[..k] == s;
    } else {
      OffsetsAreOrdered(s, k, |s|);
      assert s[..|s|] == s;
    }
  }

  lemma SplitAtCursor(s: string, c: nat)
    ensures s[..CharCount(s, c)] + s[CharCount(s, c)..] == s
  {
  }

  // ----- Whole editing sessions -----

  datatype Key = Type(text: string) | BackspaceKey | DeleteKey | Left | Right | WordLeftKey | WordRightKey | DeleteWordKey

  function Press(s: Sides, key: Key): Sides {
    match key
    case Type(text) => Inserted(s, text)
    case BackspaceKey => Backspaced(s)
    case DeleteKey => DeletedForward(s)
    case Left => if s.left == [] then s else MovedTo(s, |s.left| - 1)
    case Right => if s.right == [] then s else MovedTo(s, |s.left| + 1)
    case WordLeftKey => WordLeft(s)
    case WordRightKey => WordRight(s)
    case DeleteWordKey => WordDeleted(s)
  }

  function Session(s: Sides, keys: seq<Key>): Sides
    decreases keys
  {
    if keys == [] then s else Session(Press(s, keys[0]), keys[1..])
  }

  /** The byte editor plays any session as the two sides do. */
  method Play(input: Input, keys: seq<Key>)
    requires input.Valid()
    modifies input
    ensures input.Valid() && input.View() == Session(old(input.View()), keys)
  {
    ghost var start := input.View();
    assert keys[0..] == keys;
    for i := 0 to |keys|
      invariant input.Valid()
      invariant Session(start, keys) == Session(input.View(), keys[i..])
    {
      hide Bytes, CharCount, IsSpace;
      assert keys[i..][0] == keys[i] && keys[i..][1..] == keys[i + 1..];
      match keys[i]
      case Type(text) => input.InsertStr(text);
      case BackspaceKey => input.Backspace();
      case DeleteKey => input.DeleteForward();
      case Left => input.MoveCursorLeft();
      case Right => input.MoveCursorRight();
      case WordLeftKey => input.MoveCursorWordLeft();
      case WordRightKey => input.MoveCursorWordRight();
      case DeleteWordKey => input.DeleteWordBack();
    }
  }

  predicate IsMove(key: Key) { key.Left? || key.Right? || key.WordLeftKey? || key.WordRightKey? }

  lemma MoveKeepsText(s: Sides, key: Key)
    requires IsMove(key)
    ensures Press(s, key).Text() == s.Text()
  {
    hide IsSpace, WordStart, WordEnd;
    var i, j := WordStart(s.left), WordEnd(s.right);
    assert s.left[..i] + (s.left[i..] + s.right) == s.left + s.right;
    assert s.left + s.right[..j] + s.right[j..] == s.left + s.right;
  }

  /** Moving about changes no text. */
  lemma {:induction false} MovesKeepText(s: Sides, keys: seq<Key>)
    requires forall i :: 0 <= i < |keys| ==> IsMove(keys[i])
    ensures Session(s, keys).Text() == s.Text()
    decreases keys
  {
    hide Press, Sides.Text;
    if keys != [] {
      MoveKeepsText(s, keys[0]);
      MovesKeepText(Press(s, keys[0]), keys[1..]);
    }
  }

  /** Going left and deleting is a backspace; going left and right, or right and left, is
      nothing; and at either end there is nothing to pass or to delete. */
  lemma KeysAgree(s: Sides)
    ensures Press(s, BackspaceKey) == if s.left == [] then s else Press(Press(s, Left), DeleteKey)
    ensures s.left != [] ==> Press(Press(s, Left), Right) == s
    ensures s.right != [] ==> Press(Press(s, Right), Left) == s
    ensures s.left == [] ==> Press(s, Left) == Press(s, WordLeftKey) == Press(s, DeleteWordKey) == s
    ensures s.right == [] ==> Press(s, Right) == Press(s, DeleteKey) == Press(s, WordRightKey) == s
  {
    hide WordStart, WordEnd;
    var n := |s.left|;
    var all := s.left + s.right;
    assert all[..n] == s.left && all[n..] == s.right;
    if n > 0 {
      assert all[..n - 1] + all[n - 1..] == all;
      assert all[n - 1..][1..] == s.right && all[..n - 1] == s.left[..n - 1];
    }
    if s.right != [] {
      assert all[..n + 1] + all[n + 1..] == all;
    }
  }

  function Repeat(key: Key, n: nat): seq<Key> { seq(n, _ => key) }

  /** A paste is undone by as many backspaces as it has characters. */
  lemma {:induction false} BackspacesUndoTyping(s: Sides, text: string)
    ensures Session(Inserted(s, text), Repeat(BackspaceKey, |text|)) == s
    decreases |text|
  {
    var keys := Repeat(BackspaceKey, |text|);
    if text == [] {
      assert s.left + text == s.left;
    } else {
      var n := |text| - 1;
      assert (s.left + text)[..|s.left + text| - 1] == s.left + text[..n];
      assert keys[1..] == Repeat(BackspaceKey, n);
      BackspacesUndoTyping(s, text[..n]);
    }
  }

  function Typed(text: string): seq<Key> { seq(|text|, i requires 0 <= i < |text| => Type([text[i]])) }

  /** Typing character by character is pasting the whole text. */
  lemma {:induction false} TypingIsPasting(s: Sides, text: string)
    ensures Session(s, Typed(text)) == Press(s, Type(text))
    decreases text
  {
    if text == [] {
      assert s.left + text == s.left;
    } else {
      assert Typed(text)[1..] == Typed(text[1..]);
      TypingIsPasting(Inserted(s, [text[0]]), text[1..]);
      assert s.left + [text[0]] + text[1..] == s.left + text;
    }
  }

  predicate IsWordThenSpaces(s: string, i: nat, j: nat) {
    && i <= j <= |s|
    && (forall k :: i <= k < j ==> !IsSpace(s[k]))
    && (forall k :: j <= k < |s| ==> IsSpace(s[k]))
  }

  /** Deleting a word removes exactly what moving over it passes: the last word, whole, and all
      the whitespace after it; or everything, if there is no word. */
  lemma WordBackIsOneWord(s: Sides)
    ensures var i := WordStart(s.left);
            && WordDeleted(s) == Sides(WordLeft(s).left, s.right)
            && WordLeft(s).Text() == s.Text()
            && WordLeft(s).left == s.left[..i]
            && (i == 0 || IsSpace(s.left[i - 1]))
            && exists j: nat :: IsWordThenSpaces(s.left, i, j) && (i < j || (i == 0 && Blank(s.left)))
  {
    hide IsSpace;
    var j := SkipBack(s.left, |s.left|, true);
    var i := WordStart(s.left);
    assert IsWordThenSpaces(s.left, i, j);
    assert s.left[..i] + (s.left[i..] + s.right) == s.left + s.right;
  }

  /** Moving right passes the rest of a word, to its end, and then all the whitespace, to the
      next word or the end. */
  lemma WordRightIsOneWord(s: Sides)
    ensures var i := WordEnd(s.right);
            && WordRight(s).Text() == s.Text()
            && WordRight(s).right == s.right[i..]
            && (i == |s.right| || !IsSpace(s.right[i]))
            && exists j: nat :: IsWordThenSpaces(s.right[..i], 0, j) && (j == |s.right| || IsSpace(s.right[j]))
  {
    hide IsSpace;
    var j := SkipAhead(s.right, 0, false);
    var i := WordEnd(s.right);
    assert IsWordThenSpaces(s.right[..i], 0, j);
    assert s.left + s.right[..i] + s.right[i..] == s.left + s.right;
  }
}
