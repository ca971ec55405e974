/** The repair pass over a configuration file: every unknown table or option is commented
    out behind a marker, line by line, and nothing else is touched. */
module ConfigRepair {
  import opened Text

  const MARKER_HEAD := "# Commented out because this is not "
  const MARKER_TAIL := "a valid axon-tui config option."
  const MARKER := MARKER_HEAD + MARKER_TAIL

  const SECTIONS := {"shortcuts", "colors", "display", "server"}

  const SHORTCUT_KEYS := {
    "next_room", "previous_room", "next_account", "previous_account", "quit", "complete", "submit", "clear_input",
    "backspace", "cursor_start", "cursor_end", "cursor_left", "cursor_right", "edit_previous", "edit_next",
    "media_preview", "newline", "message_down", "message_up", "message_page_up", "message_page_down", "reply",
    "thread", "search_sort", "search_group", "search_edit", "edit_message", "redact_message", "react_message",
    "unreact_message", "unread_threads", "focus_next", "focus_prev", "find", "toggle_accounts_panel",
    "toggle_rooms_panel", "toggle_unread_filter", "refresh", "pin_room", "unpin_room", "toggle_space",
    "move_space_up", "move_space_down", "jump_day_back", "jump_day_forward", "room_filter_cycle",
    "room_sort_cycle", "room_filter_dms", "room_filter_groups", "room_filter_favorites", "room_filter_all",
    "room_filter_by_name", "room_sort_recent", "room_sort_alpha"}

  const COLOR_KEYS := {
    "border", "selected_room", "unread_count", "message_sender", "own_message_sender", "input_hint", "status",
    "background", "selection_background", "accounts_foreground", "rooms_foreground", "messages_foreground",
    "input_foreground", "accounts_background", "rooms_background", "messages_background", "input_background",
    "popup_background"}

  const DISPLAY_KEYS := {
    "debug", "show_state_events", "message_density", "time_format", "input_lines", "max_input_lines",
    "preview_warmup_count", "highlight_selected_line", "confirm_logout", "search_wrap",
    "accept_incoming_verification", "accounts_panel_width", "rooms_panel_width_adj", "pinned_rooms", "room_sort",
    "room_filter"}

  const SERVER_KEYS := {"base_url", "bearer_token"}

  predicate IsValidSection(name: string) { name in SECTIONS }

  predicate IsValidOption(section: Option<string>, key: string) {
    section.Some? &&
    (if section.value == "shortcuts" then key in SHORTCUT_KEYS
     else if section.value == "colors" then key in COLOR_KEYS
     else if section.value == "display" then key in DISPLAY_KEYS
     else section.value == "server" && key in SERVER_KEYS)
  }

  // ----- Lines -----

  /** The lines of a text, each with its newline; only the last may lack one. */
  function SplitInclusive(text: string): seq<string>
    decreases |text|
  {
    if text == [] then []
    else
      var i := IndexOf(text, '\n');
      if i == |text| then [text] else [text[..i + 1]] + SplitInclusive(text[i + 1..])
  }

  function Concat(lines: seq<string>): string {
    if lines == [] then [] else lines[0] + Concat(lines[1..])
  }

  predicate HasNewline(line: string) {
    line != [] && line[|line| - 1] == '\n'
  }

  function Content(line: string): string {
    if HasNewline(line) then line[..|line| - 1] else line
  }

  /** Non-empty, with no newline but possibly the last character. */
  predicate IsLine(line: string) {
    line != [] && '\n' !in line[..|line| - 1]
  }

  predicate WellSplit(lines: seq<string>) {
    && (forall i :: 0 <= i < |lines| ==> IsLine(lines[i]))
    && (forall i :: 0 <= i < |lines| - 1 ==> HasNewline(lines[i]))
  }

  // ----- Classifying a line -----

  function TableName(line: string): Option<string> {
    var header := Trim(line[..IndexOf(line, '#')]);
    if |header| >= 2 && header[0] == '[' && header[|header| - 1] == ']'
    then Some(Trim(header[1..|header| - 1]))
    else None
  }

  function AssignmentKey(line: string): Option<string> {
    match SplitOnce(line, '=')
    case None => None
    case Some((key, _)) => Some(Trim(key))
  }

  datatype Line = Table(name: string) | Inert | Assignment(key: string) | Other

  function Classify(line: string): Line {
    var trimmed := Trim(Content(line));
    match TableName(trimmed)
    case Some(name) => Table(name)
    case None =>
      if trimmed == [] || trimmed[0] == '#' then Inert
      else match AssignmentKey(trimmed)
           case Some(key) => Assignment(key)
           case None => Other
  }

  // ----- The pass -----

  datatype State = State(section: Option<string>, invalidSection: bool, continuation: bool)

  const START := State(None, false, false)

  predicate Rejected(st: State, line: string) {
    match Classify(line)
    case Table(name) => !IsValidSection(name)
    case Inert => false
    case Assignment(key) => st.invalidSection || !IsValidOption(st.section, key)
    case Other => st.invalidSection || st.continuation
  }

  function Next(st: State, line: string): State {
    match Classify(line)
    case Table(name) => if IsValidSection(name) then State(Some(name), false, false) else State(None, true, false)
    case Inert => st
    case _ => st.(continuation := Rejected(st, line) && !st.invalidSection)
  }

  function Commented(line: string): seq<string> {
    [MARKER + "\n", "# " + line]
  }

  function Emitted(st: State, line: string): seq<string> {
    if Rejected(st, line) then Commented(line) else [line]
  }

  function RepairLines(st: State, lines: seq<string>): seq<string>
    decreases lines
  {
    if lines == [] then [] else Emitted(st, lines[0]) + RepairLines(Next(st, lines[0]), lines[1..])
  }

  predicate Changes(st: State, lines: seq<string>)
    decreases lines
  {
    lines != [] && (Rejected(st, lines[0]) || Changes(Next(st, lines[0]), lines[1..]))
  }

  function After(st: State, lines: seq<string>): State
    decreases lines
  {
    if lines == [] then st else After(Next(st, lines[0]), lines[1..])
  }

  /** The repaired text, and whether any line was commented out. */
  function Repair(text: string): (string, bool) {
    var lines := SplitInclusive(text);
    (Concat(RepairLines(START, lines)), Changes(START, lines))
  }

  // ----- Splitting and joining -----

  lemma {:induction false} SplitIsWellSplit(text: string)
    ensures WellSplit(SplitInclusive(text)) && Concat(SplitInclusive(text)) == text
    decreases |text|
  {
    hide IsLine, HasNewline, IndexOf;
    if text != [] {
      var i := IndexOf(text, '\n');
      if i == |text| {
        assert IsLine(text) by { PrefixIsLine(text, i); assert text[..i] == text; }
        assert [text][1..] == [] && text + [] == text;
      } else {
        var line, rest := text[..i + 1], text[i + 1..];
        PrefixIsLine(text, i);
        SplitIsWellSplit(rest);
        assert ([line] + SplitInclusive(rest))[1..] == SplitInclusive(rest);
        assert text == line + rest;
      }
    }
  }

  lemma PrefixIsLine(text: string, i: nat)
    requires text != [] && i <= |text| && '\n' !in text[..i] && (i < |text| ==> text[i] == '\n')
    ensures i < |text| ==> IsLine(text[..i + 1]) && HasNewline(text[..i + 1])
    ensures i == |text| ==> IsLine(text)
  {
    if i < |text| {
      assert text[..i + 1][..i] == text[..i];
    } else {
      assert text[..i] == text;
      assert '\n' !in text[..|text| - 1];
    }
  }

  lemma SplitFirstLine(line: string, rest: string)
    requires IsLine(line) && HasNewline(line)
    ensures SplitInclusive(line + rest) == [line] + SplitInclusive(rest)
  {
    var body, text := line[..|line| - 1], line + rest;
    assert text == body + ['\n'] + rest;
    IndexOfFirst(body, '\n', rest);
    assert text[..|line|] == line && text[|line|..] == rest;
  }

  lemma SplitLastLine(line: string)
    requires IsLine(line)
    ensures SplitInclusive(line) == [line]
  {
    if HasNewline(line) {
      assert line + [] == line;
      SplitFirstLine(line, []);
    } else {
      assert line == line[..|line| - 1] + [line[|line| - 1]];
      assert '\n' !in line;
    }
  }

  lemma {:induction false} SplitOfConcat(lines: seq<string>)
    requires WellSplit(lines)
    ensures SplitInclusive(Concat(lines)) == lines
    decreases lines
  {
    hide SplitInclusive, IsLine, HasNewline;
    if lines == [] {
      SplitNothing();
    } else {
      SplitOfConcat(lines[1..]);
      if |lines| == 1 {
        assert lines == [lines[0]] && Concat(lines) == lines[0] by { assert lines[0] + [] == lines[0]; }
        SplitLastLine(lines[0]);
      } else {
        SplitFirstLine(lines[0], Concat(lines[1..]));
      }
    }
  }

  lemma SplitNothing()
    ensures SplitInclusive([]) == []
  {
  }

  lemma CommentedIsWellSplit(line: string)
    requires IsLine(line)
    ensures WellSplit(Commented(line)) && (HasNewline("# " + line) <==> HasNewline(line))
  {
    var c := "# " + line;
    assert c[..|c| - 1] == "# " + line[..|line| - 1];
    var m := MARKER + "\n";
    assert m[..|m| - 1] == MARKER;
    MarkerIsOneLine();
  }

  lemma MarkerIsOneLine()
    ensures '\n' !in MARKER && |MARKER| == 67 && MARKER[0] == '#' && MARKER[66] == '.'
  {
    assert '\n' !in MARKER_HEAD;
    assert '\n' !in MARKER_TAIL;
    assert MARKER_HEAD[0] == '#' && MARKER_TAIL[30] == '.';
  }

  // ----- Comments are inert -----

  lemma TrimKeepsFirst(s: string)
    requires s != [] && !IsSpace(s[0])
    ensures Trim(s) != [] && Trim(s)[0] == s[0]
  {
    TrimEnds(s);
    assert TrimStart(s) == s;
  }

  lemma HashIsInert(line: string)
    requires line != [] && line[0] == '#'
    ensures Classify(line) == Inert
  {
    hide Trim, TableName, AssignmentKey;
    var content := Content(line);
    assert content != [] && content[0] == '#';
    HashIsNoSpace();
    TrimKeepsFirst(content);
    HashIsNoTable(Trim(content));
  }

  lemma HashIsNoSpace()
    ensures !IsSpace('#')
  {
  }

  lemma HashIsNoTable(trimmed: string)
    requires trimmed != [] && trimmed[0] == '#'
    ensures TableName(trimmed) == None
  {
    hide Trim;
    assert IndexOf(trimmed, '#') == 0 && trimmed[..0] == [];
    TrimOfTrimmed([]);
  }

  lemma CommentedIsInert(line: string)
    ensures forall l :: l in Commented(line) ==> Classify(l) == Inert
  {
    hide Classify, Commented;
    CommentedHasTwo(line);
    MarkerIsOneLine();
    HashIsInert(MARKER + "\n");
    HashIsInert("# " + line);
  }

  // ----- Reading back what a person writes -----

  /** A table header, with blanks and a comment around it, is read as the table it names. */
  lemma TableLine(name: string, blank: string, comment: string)
    requires '#' !in name && '\n' !in name && '\n' !in comment && '\n' !in blank && Blank(blank)
    ensures Classify("[" + name + "]" + blank + "#" + comment) == Table(Trim(name))
  {
    hide IsSpace, Trim;
    var header := "[" + name + "]";
    var before := header + blank;
    var line := before + ['#'] + comment;
    assert line == "[" + name + "]" + blank + "#" + comment;
    assert Content(line) == line by { NoNewlineInside(before + ['#'], comment); }
    BracketsAreNoSpaces();
    assert line[0] == '[';
    var trimmed := Trim(line);
    TrimKeepsThrough(before, '#', comment);
    var tail :| trimmed == before + ['#'] + tail;
    assert '#' !in before by { HashOutside(name, blank); }
    IndexOfFirst(before, '#', tail);
    assert trimmed[..|before|] == before;
    TrimOfPadded(header, blank);
    assert header[1..|header| - 1] == name;
  }

  /** Indentation, blanks at the end and the newline do not matter. */
  lemma LayoutIsIgnored(indent: string, core: string, blank: string)
    requires Blank(indent) && Blank(blank) && core != [] && !IsSpace(core[0]) && !IsSpace(core[|core| - 1])
    ensures Classify(indent + core + blank) == Classify(core)
  {
    hide IsSpace, Trim, TableName, AssignmentKey;
    var line := indent + core + blank;
    assert !IsSpace(core[|core| - 1]) && core[|core| - 1] != '\n' by { NewlineIsSpace(); }
    assert Content(core) == core;
    TrimOfTrimmed(core);
    if HasNewline(line) {
      assert blank != [] by { LastOf(indent + core, blank); }
      var less := blank[..|blank| - 1];
      assert Content(line) == indent + core + less;
      TrimOfLaidOut(indent, core, less);
    } else {
      TrimOfLaidOut(indent, core, blank);
    }
  }

  lemma LastOf(s: string, t: string)
    requires s != []
    ensures (s + t)[|s + t| - 1] == if t == [] then s[|s| - 1] else t[|t| - 1]
  {
  }

  lemma NewlineIsSpace()
    ensures IsSpace('\n')
  {
  }

  lemma TrimOfLaidOut(indent: string, core: string, blank: string)
    requires Blank(indent) && Blank(blank) && core != [] && !IsSpace(core[0]) && !IsSpace(core[|core| - 1])
    ensures Trim(indent + core + blank) == core
  {
    hide IsSpace, TrimStart, TrimEnd;
    assert indent + core + blank == indent + (core + blank);
    TrimStartSkipsBlank(indent, core + blank);
    StartsHere(core + blank);
    TrimEndOfPadded(core, blank);
  }

  lemma StartsHere(s: string)
    requires s != [] && !IsSpace(s[0])
    ensures TrimStart(s) == s
  {
  }

  /** A table header without a comment. */
  lemma TableHeader(name: string)
    requires '#' !in name
    ensures Classify("[" + name + "]") == Table(Trim(name))
  {
    hide IsSpace, Trim;
    var header := "[" + name + "]";
    BracketsAreNoSpaces();
    assert Content(header) == header;
    TrimOfTrimmed(header);
    assert IndexOf(header, '#') == |header| by { IndexOfNone(header, '#'); }
    assert header[..|header|] == header && header[1..|header| - 1] == name;
  }

  /** Blank lines and comments are left alone. */
  lemma InertLine(blank: string, comment: string)
    requires Blank(blank)
    ensures Classify(blank) == Inert && Classify(blank + "#" + comment) == Inert
  {
    hide IsSpace, Trim, TableName, AssignmentKey;
    BlankContent(blank);
    TrimEnds(Content(blank));
    NoTableNowhere();
    var line := blank + ['#'] + comment;
    assert line == blank + "#" + comment;
    var content := Content(line);
    assert exists rest :: content == blank + ['#'] + rest by {
      assert content == blank + ['#'] + (if HasNewline(line) then comment[..|comment| - 1] else comment);
    }
    var rest :| content == blank + ['#'] + rest;
    TrimmedComment(blank, rest);
    HashIsNoTable(Trim(content));
  }

  lemma BlankContent(blank: string)
    requires Blank(blank)
    ensures Blank(Content(blank))
  {
  }

  lemma NoTableNowhere()
    ensures TableName([]) == None
  {
    hide Trim;
    TrimOfTrimmed([]);
  }

  lemma TrimmedComment(blank: string, rest: string)
    requires Blank(blank)
    ensures var t := Trim(blank + ['#'] + rest); t != [] && t[0] == '#'
  {
    hide IsSpace, TrimStart, TrimEnd;
    var comment := ['#'] + rest;
    assert blank + ['#'] + rest == blank + comment;
    TrimStartSkipsBlank(blank, comment);
    HashIsNoSpace();
    StartsHere(comment);
    TrimKeepsFirst(comment);
  }

  /** Anything else without an equals sign is the further line of a value. */
  lemma OtherLine(core: string)
    requires core != [] && !IsSpace(core[0]) && !IsSpace(core[|core| - 1]) && core[0] != '#' && core[0] != '[' && '=' !in core
    ensures Classify(core) == Other
  {
    hide IsSpace, Trim;
    NewlineIsSpace();
    assert Content(core) == core;
    TrimOfTrimmed(core);
    NoBracketNoTable(core);
    IndexOfNone(core, '=');
  }

  lemma NoNewlineInside(a: string, b: string)
    requires '\n' !in a && '\n' !in b && a != []
    ensures Content(a + b) == a + b
  {
    var s := a + b;
    assert s[|s| - 1] in a || s[|s| - 1] in b;
  }

  lemma HashOutside(name: string, blank: string)
    requires '#' !in name && Blank(blank)
    ensures '#' !in "[" + name + "]" + blank
  {
    HashIsNoSpace();
    assert '#' !in blank;
  }

  lemma BracketsAreNoSpaces()
    ensures !IsSpace('[') && !IsSpace(']') && !IsSpace('#')
  {
  }

  /** An assignment is read as its trimmed key, whatever the value. */
  lemma AssignmentLine(key: string, value: string)
    requires Trim(key) != [] && Trim(key) == key && key[0] != '#' && key[0] != '[' && '=' !in key && '\n' !in key && '\n' !in value
    ensures Classify(key + " = " + value) == Assignment(key)
  {
    hide IsSpace, Trim;
    var line := key + [' '] + ['='] + ([' '] + value);
    assert line == key + " = " + value;
    assert Content(line) == line by { NoNewlineInside(key + [' '] + ['='], [' '] + value); }
    TrimEnds(key);
    SpaceIsBlank();
    TrimKeepsThrough(key + [' '], '=', [' '] + value);
    var trimmed := Trim(line);
    var tail :| trimmed == (key + [' ']) + ['='] + tail;
    SplitOnceAt(key + [' '], '=', tail);
    TrimOfPadded(key, [' ']);
    NoBracketNoTable(trimmed);
  }

  lemma SpaceIsBlank()
    ensures Blank([' ']) && !IsSpace('=')
  {
  }

  lemma NoBracketNoTable(trimmed: string)
    requires trimmed != [] && trimmed[0] != '[' && !IsSpace(trimmed[0])
    ensures TableName(trimmed) == None
  {
    hide IsSpace;
    var i := IndexOf(trimmed, '#');
    if i == 0 {
      TrimOfTrimmed([]);
    } else {
      TrimKeepsFirst(trimmed[..i]);
    }
  }

  // ----- Well-split output -----

  lemma {:induction false} RepairIsWellSplit(st: State, lines: seq<string>)
    requires WellSplit(lines)
    ensures WellSplit(RepairLines(st, lines))
    ensures lines != [] ==> RepairLines(st, lines) != []
    decreases lines
  {
    hide Rejected, Next, IsLine, HasNewline, Commented;
    if lines != [] {
      var rest := RepairLines(Next(st, lines[0]), lines[1..]);
      RepairIsWellSplit(Next(st, lines[0]), lines[1..]);
      EmittedIsWellSplit(st, lines[0]);
      WellSplitConcat(Emitted(st, lines[0]), rest);
    }
  }

  lemma EmittedIsWellSplit(st: State, line: string)
    requires IsLine(line)
    ensures var e := Emitted(st, line); e != [] && WellSplit(e) && (HasNewline(line) ==> HasNewline(e[|e| - 1]))
  {
    hide Rejected, IsLine, HasNewline;
    CommentedIsWellSplit(line);
  }

  lemma WellSplitConcat(a: seq<string>, b: seq<string>)
    requires WellSplit(a) && WellSplit(b) && a != [] && (b != [] ==> HasNewline(a[|a| - 1]))
    ensures WellSplit(a + b)
  {
    hide IsLine, HasNewline;
  }

  lemma {:induction false} RepairConcat(st: State, a: seq<string>, b: seq<string>)
    ensures RepairLines(st, a + b) == RepairLines(st, a) + RepairLines(After(st, a), b)
    ensures Changes(st, a + b) == (Changes(st, a) || Changes(After(st, a), b))
    ensures After(st, a + b) == After(After(st, a), b)
    decreases a
  {
    hide Emitted, Next, Rejected;
    if a == [] {
      assert a + b == b;
    } else {
      assert (a + b)[0] == a[0] && (a + b)[1..] == a[1..] + b;
      RepairConcat(Next(st, a[0]), a[1..], b);
    }
  }

  lemma {:induction false} UnchangedIsIdentity(st: State, lines: seq<string>)
    requires !Changes(st, lines)
    ensures RepairLines(st, lines) == lines
    decreases lines
  {
    hide Next, Rejected;
    if lines != [] {
      UnchangedIsIdentity(Next(st, lines[0]), lines[1..]);
    }
  }

  // ----- The second pass simulates the first -----

  /** The second pass never meets anything invalid; it knows the section whenever the first
      pass is in a valid one. */
  ghost predicate Follows(first: State, second: State) {
    && !second.invalidSection && !second.continuation
    && (!first.invalidSection ==> second.section == first.section)
  }

  lemma {:induction false} InertLines(st: State, lines: seq<string>)
    requires forall l :: l in lines ==> Classify(l) == Inert
    ensures !Changes(st, lines) && After(st, lines) == st
    decreases lines
  {
    hide Classify;
    if lines != [] {
      assert lines[0] in lines;
      InertLines(st, lines[1..]);
    }
  }

  lemma FollowsStep(first: State, second: State, line: string)
    requires Follows(first, second)
    ensures !Changes(second, Emitted(first, line))
    ensures Follows(Next(first, line), After(second, Emitted(first, line)))
  {
    hide Classify, IsValidOption, IsValidSection, Commented;
    if Rejected(first, line) {
      CommentedIsInert(line);
      InertLines(second, Commented(line));
    } else {
      assert [line][1..] == [];
    }
  }

  lemma {:induction false} SecondPassChangesNothing(first: State, second: State, lines: seq<string>)
    requires Follows(first, second)
    ensures !Changes(second, RepairLines(first, lines))
    decreases lines
  {
    hide Emitted, Next, Follows;
    if lines != [] {
      var e, rest := Emitted(first, lines[0]), RepairLines(Next(first, lines[0]), lines[1..]);
      FollowsStep(first, second, lines[0]);
      SecondPassChangesNothing(Next(first, lines[0]), After(second, e), lines[1..]);
      RepairConcat(second, e, rest);
    }
  }

  lemma RepairedLines(text: string)
    ensures SplitInclusive(Repair(text).0) == RepairLines(START, SplitInclusive(text))
  {
    hide SplitInclusive, WellSplit;
    SplitIsWellSplit(text);
    RepairIsWellSplit(START, SplitInclusive(text));
    SplitOfConcat(RepairLines(START, SplitInclusive(text)));
  }

  /** A second pass returns the first pass's output and reports no change. */
  lemma RepairIsIdempotent(text: string)
    ensures Repair(Repair(text).0) == (Repair(text).0, false)
  {
    hide SplitInclusive, RepairLines, Changes;
    var lines := SplitInclusive(text);
    RepairedLines(text);
    SecondPassChangesNothing(START, START, lines);
    UnchangedIsIdentity(START, RepairLines(START, lines));
  }

  // ----- Nothing is lost -----

  /** Every line of the original, in order, verbatim or behind the marker and `# `. */
  predicate Survive(lines: seq<string>, out: seq<string>)
    decreases lines
  {
    if lines == [] then out == []
    else
      || (|out| >= 1 && out[0] == lines[0] && Survive(lines[1..], out[1..]))
      || (|out| >= 2 && out[..2] == Commented(lines[0]) && Survive(lines[1..], out[2..]))
  }

  lemma {:induction false} LinesSurvive(st: State, lines: seq<string>)
    ensures Survive(lines, RepairLines(st, lines))
    decreases lines
  {
    hide Rejected, Next, Commented;
    if lines != [] {
      var rest := RepairLines(Next(st, lines[0]), lines[1..]);
      var out := RepairLines(st, lines);
      LinesSurvive(Next(st, lines[0]), lines[1..]);
      if Rejected(st, lines[0]) {
        assert |Commented(lines[0])| == 2 by { CommentedHasTwo(lines[0]); }
        assert out[..2] == Commented(lines[0]) && out[2..] == rest;
      } else {
        assert out[1..] == rest;
      }
    }
  }

  lemma CommentedHasTwo(line: string)
    ensures |Commented(line)| == 2 && Commented(line)[0] == MARKER + "\n" && Commented(line)[1] == "# " + line
  {
  }

  lemma TextSurvives(text: string)
    ensures Survive(SplitInclusive(text), SplitInclusive(Repair(text).0))
  {
    hide SplitInclusive, Repair;
    RepairedLines(text);
    LinesSurvive(START, SplitInclusive(text));
  }

  /** Undoing the pass: drop each marker and uncomment the line after it. */
  function Undo(lines: seq<string>): seq<string>
    decreases |lines|
  {
    if |lines| >= 2 && lines[0] == MARKER + "\n" && |lines[1]| >= 2
    then [lines[1][2..]] + Undo(lines[2..])
    else if lines == [] then []
    else [lines[0]] + Undo(lines[1..])
  }

  lemma {:induction false} UndoLines(st: State, lines: seq<string>)
    requires (MARKER + "\n") !in lines
    ensures Undo(RepairLines(st, lines)) == lines
    decreases lines
  {
    hide Rejected, Next, Commented;
    if lines != [] {
      var rest := RepairLines(Next(st, lines[0]), lines[1..]);
      var out := RepairLines(st, lines);
      UndoLines(Next(st, lines[0]), lines[1..]);
      CommentedHasTwo(lines[0]);
      if Rejected(st, lines[0]) {
        assert out[0] == MARKER + "\n" && out[1] == "# " + lines[0] && out[2..] == rest;
        assert out[1][2..] == lines[0];
      } else {
        assert out[0] == lines[0] && out[1..] == rest;
        assert lines[0] in lines;
      }
    }
  }

  /** The original text can be had back, if it carried no marker of an earlier pass. */
  lemma RepairIsUndoable(text: string)
    requires (MARKER + "\n") !in SplitInclusive(text)
    ensures Concat(Undo(SplitInclusive(Repair(text).0))) == text
  {
    hide SplitInclusive, Repair, Undo, Concat;
    RepairedLines(text);
    UndoLines(START, SplitInclusive(text));
    SplitIsWellSplit(text);
  }

  // ----- What is repaired -----

  /** The table a line stands under: the last one opened above it. */
  function SectionAbove(lines: seq<string>, i: nat): Option<string>
    requires i <= |lines|
  {
    if i == 0 then None
    else match Classify(lines[i - 1])
         case Table(name) => Some(name)
         case _ => SectionAbove(lines, i - 1)
  }

  /** Every table is known and every assignment names an option of the table above it. */
  predicate Clean(lines: seq<string>) {
    forall i :: 0 <= i < |lines| ==> LineIsClean(lines, i)
  }

  predicate LineIsClean(lines: seq<string>, i: nat)
    requires i < |lines|
  {
    match Classify(lines[i])
    case Table(name) => IsValidSection(name)
    case Assignment(key) => IsValidOption(SectionAbove(lines, i), key)
    case _ => true
  }

  /** While nothing has been rejected, the pass is in the section above. */
  lemma {:induction false} CleanPrefix(lines: seq<string>, i: nat)
    requires i <= |lines|
    ensures !Changes(START, lines[..i]) <==> forall j :: 0 <= j < i ==> LineIsClean(lines, j)
    ensures !Changes(START, lines[..i]) ==> After(START, lines[..i]) == State(SectionAbove(lines, i), false, false)
  {
    hide Changes, After, LineIsClean, SectionAbove, Classify;
    if i == 0 {
      NoLineYet(lines);
      NoSectionYet(lines);
    } else {
      CleanPrefix(lines, i - 1);
      var before, line := lines[..i - 1], lines[i - 1];
      assert lines[..i] == before + [line];
      RepairConcat(START, before, [line]);
      if !Changes(START, before) {
        CleanStep(lines, i - 1, After(START, before));
      }
    }
  }

  lemma NoSectionYet(lines: seq<string>)
    ensures SectionAbove(lines, 0) == None
  {
  }

  lemma CleanStep(lines: seq<string>, i: nat, st: State)
    requires i < |lines| && st == State(SectionAbove(lines, i), false, false)
    ensures Changes(st, [lines[i]]) <==> !LineIsClean(lines, i)
    ensures LineIsClean(lines, i) ==> After(st, [lines[i]]) == State(SectionAbove(lines, i + 1), false, false)
  {
    hide Classify, IsValidOption, IsValidSection;
    assert [lines[i]][1..] == [];
  }

  lemma ChangesIffUnclean(lines: seq<string>)
    ensures Changes(START, lines) <==> !Clean(lines)
  {
    hide Changes, After, LineIsClean;
    CleanPrefix(lines, |lines|);
    assert lines[..|lines|] == lines;
  }

  /** A text is left alone exactly when it is clean, and what comes out always is. */
  lemma RepairCleans(text: string)
    ensures Repair(text).1 <==> !Clean(SplitInclusive(text))
    ensures Repair(text).1 <==> Repair(text).0 != text
    ensures Clean(SplitInclusive(Repair(text).0))
  {
    hide SplitInclusive, RepairLines, Changes, Clean, Concat, After;
    var lines := SplitInclusive(text);
    ChangesIffUnclean(lines);
    RepairIsIdempotent(text);
    ChangesIffUnclean(SplitInclusive(Repair(text).0));
    SplitIsWellSplit(text);
    if !Changes(START, lines) {
      UnchangedIsIdentity(START, lines);
    }
  }

  // ----- Which lines go -----

  predicate IsHead(line: string) {
    Classify(line).Table? || Classify(line).Assignment?
  }

  /** The nearest table or assignment above a line: what the line belongs to. */
  function HeadAbove(lines: seq<string>, i: nat): (head: Option<nat>)
    requires i <= |lines|
    ensures head.Some? ==> head.value < i
  {
    if i == 0 then None else if IsHead(lines[i - 1]) then Some(i - 1) else HeadAbove(lines, i - 1)
  }

  lemma {:induction false} HeadIsNearest(lines: seq<string>, i: nat)
    requires i <= |lines|
    ensures match HeadAbove(lines, i)
            case Some(h) => h < i && IsHead(lines[h]) && forall j :: h < j < i ==> !IsHead(lines[j])
            case None => forall j :: 0 <= j < i ==> !IsHead(lines[j])
  {
    hide IsHead;
    if i > 0 {
      HeadIsNearest(lines, i - 1);
    }
  }

  /** A line that goes: an unknown table, an assignment that names no option of the table above
      it, or the further line of a value or a table that goes. */
  predicate Goes(lines: seq<string>, i: nat)
    requires i < |lines|
    decreases i
  {
    match Classify(lines[i])
    case Table(name) => !IsValidSection(name)
    case Inert => false
    case Assignment(key) => !IsValidOption(SectionAbove(lines, i), key)
    case Other => HeadAbove(lines, i).Some? && Goes(lines, HeadAbove(lines, i).value)
  }

  predicate SomethingGoes(lines: seq<string>, n: nat)
    requires n <= |lines|
  {
    exists i :: 0 <= i < n && Goes(lines, i)
  }

  /** The first `n` lines, those that go behind the marker and `# `. */
  function Fates(lines: seq<string>, n: nat): seq<string>
    requires n <= |lines|
  {
    if n == 0 then []
    else Fates(lines, n - 1) + if Goes(lines, n - 1) then [MARKER + "\n", "# " + lines[n - 1]] else [lines[n - 1]]
  }

  /** What the pass knows at line `i`. */
  ghost predicate PassAt(lines: seq<string>, i: nat, st: State)
    requires i <= |lines|
  {
    var table, head := SectionAbove(lines, i), HeadAbove(lines, i);
    && (st.invalidSection <==> table.Some? && !IsValidSection(table.value))
    && (!st.invalidSection ==> st.section == table)
    && (st.invalidSection || st.continuation <==> head.Some? && Goes(lines, head.value))
  }

  lemma NoOptionOfUnknownTable(section: string, key: string)
    requires !IsValidSection(section)
    ensures !IsValidOption(Some(section), key)
  {
  }

  lemma PassStep(lines: seq<string>, i: nat, st: State)
    requires i < |lines| && PassAt(lines, i, st)
    ensures Rejected(st, lines[i]) <==> Goes(lines, i)
    ensures PassAt(lines, i + 1, Next(st, lines[i]))
  {
    hide Classify, IsValidOption, IsValidSection;
    var table := SectionAbove(lines, i);
    if st.invalidSection && Classify(lines[i]).Assignment? {
      NoOptionOfUnknownTable(table.value, Classify(lines[i]).key);
    }
  }

  lemma PassStarts(lines: seq<string>)
    ensures PassAt(lines, 0, START) && RepairLines(START, lines[..0]) == [] && After(START, lines[..0]) == START
    ensures !Changes(START, lines[..0])
  {
  }

  lemma {:induction false} PassFollows(lines: seq<string>, i: nat)
    requires i <= |lines|
    ensures PassAt(lines, i, After(START, lines[..i]))
    ensures RepairLines(START, lines[..i]) == Fates(lines, i)
    ensures Changes(START, lines[..i]) <==> SomethingGoes(lines, i)
  {
    hide PassAt, Rejected, Next, Goes, RepairLines, Changes, After;
    if i == 0 {
      PassStarts(lines);
    } else {
      PassFollows(lines, i - 1);
      var before, line, st := lines[..i - 1], lines[i - 1], After(START, lines[..i - 1]);
      assert lines[..i] == before + [line];
      RepairConcat(START, before, [line]);
      PassOverOne(st, line);
      PassStep(lines, i - 1, st);
      CommentedHasTwo(line);
      assert Commented(line) == [MARKER + "\n", "# " + line];
    }
  }

  lemma PassOverOne(st: State, line: string)
    ensures RepairLines(st, [line]) == Emitted(st, line) && After(st, [line]) == Next(st, line)
    ensures Changes(st, [line]) <==> Rejected(st, line)
  {
    hide Emitted, Next, Rejected;
    assert [line][1..] == [] && Emitted(st, line) + [] == Emitted(st, line);
  }

  lemma RepairReports(text: string)
    ensures Repair(text).1 == Changes(START, SplitInclusive(text))
  {
    hide SplitInclusive, RepairLines, Changes, Concat;
  }

  /** The whole output, line by line: what goes is commented out, everything else stays; a
      change is reported exactly when something goes. */
  lemma RepairLineByLine(text: string)
    ensures SplitInclusive(Repair(text).0) == Fates(SplitInclusive(text), |SplitInclusive(text)|)
    ensures Repair(text).1 <==> SomethingGoes(SplitInclusive(text), |SplitInclusive(text)|)
  {
    hide SplitInclusive, RepairLines, Changes, Goes, Fates, Repair, PassAt, After, SomethingGoes;
    var lines := SplitInclusive(text);
    RepairedLines(text);
    RepairReports(text);
    PassFollows(lines, |lines|);
    assert lines[..|lines|] == lines;
  }

  /** The further lines of a value share the fate of its assignment, and lines that belong to
      nothing stay. */
  lemma FurtherLinesFollow(lines: seq<string>, i: nat)
    requires i < |lines| && Classify(lines[i]).Other?
    ensures forall h :: 0 <= h < i && IsHead(lines[h]) && (forall j :: h < j < i ==> !IsHead(lines[j])) ==>
              (Goes(lines, i) <==> Goes(lines, h))
    ensures (forall h :: 0 <= h < i ==> !IsHead(lines[h])) ==> !Goes(lines, i)
  {
    hide IsHead, Classify, IsValidOption, IsValidSection;
    HeadIsNearest(lines, i);
  }

  /** An unknown option whose value takes three lines goes with all three. */
  lemma ArrayGoesWhole()
    ensures var lines := ["[display]\n", "bogus = [\n", "  \"x\",\n", "]\n"];
            !Goes(lines, 0) && Goes(lines, 1) && Goes(lines, 2) && Goes(lines, 3)
  {
    hide Classify, IsValidOption, IsHead;
    var lines := ["[display]\n", "bogus = [\n", "  \"x\",\n", "]\n"];
    ArrayLines();
    UnknownDisplayOption();
    assert IsHead(lines[1]) && !IsHead(lines[2]) by { HeadKinds(lines[1]); HeadKinds(lines[2]); }
    assert SectionAbove(lines, 1) == Some("display");
    FurtherLinesFollow(lines, 2);
    FurtherLinesFollow(lines, 3);
  }

  lemma HeadKinds(line: string)
    ensures IsHead(line) <==> Classify(line).Table? || Classify(line).Assignment?
  {
  }

  lemma UnknownDisplayOption()
    ensures !IsValidOption(Some("display"), "bogus") && IsValidSection("display")
  {
  }

  lemma ArrayLines()
    ensures Classify("[display]\n") == Table("display") && Classify("bogus = [\n") == Assignment("bogus")
    ensures Classify("  \"x\",\n") == Other && Classify("]\n") == Other
  {
    hide Classify, Trim, IsSpace;
    assert !IsSpace('d') && !IsSpace('y') && !IsSpace('b') && !IsSpace('s') && !IsSpace('[') && !IsSpace(']')
        && !IsSpace('"') && !IsSpace(',') && IsSpace(' ') && IsSpace('\n') by { SomeCharacters(); }
    TrimOfTrimmed("display");
    TrimOfTrimmed("bogus");
    TableHeader("display");
    assert "[" + "display" + "]" == "[display]" && [] + "[display]" + "\n" == "[display]\n";
    LayoutIsIgnored([], "[display]", "\n");
    AssignmentLine("bogus", "[");
    assert "bogus" + " = " + "[" == "bogus = [" && [] + "bogus = [" + "\n" == "bogus = [\n";
    LayoutIsIgnored([], "bogus = [", "\n");
    OtherLine("\"x\",");
    assert "  " + "\"x\"," + "\n" == "  \"x\",\n";
    LayoutIsIgnored("  ", "\"x\",", "\n");
    OtherLine("]");
    assert [] + "]" + "\n" == "]\n";
    LayoutIsIgnored([], "]", "\n");
  }

  lemma SomeCharacters()
    ensures !IsSpace('d') && !IsSpace('y') && !IsSpace('b') && !IsSpace('s') && !IsSpace('[') && !IsSpace(']')
    ensures !IsSpace('"') && !IsSpace(',') && IsSpace(' ') && IsSpace('\n')
  {
  }

  // ----- The loop -----

  lemma {:induction false} ConcatConcat(a: seq<string>, b: seq<string>)
    ensures Concat(a + b) == Concat(a) + Concat(b)
    decreases a
  {
    if a == [] {
      assert a + b == b;
    } else {
      assert (a + b)[1..] == a[1..] + b;
      ConcatConcat(a[1..], b);
    }
  }

  /** One more line of the input. */
  lemma OneMoreLine(lines: seq<string>, i: nat)
    requires i < |lines|
    ensures var st := After(START, lines[..i]);
            && After(START, lines[..i + 1]) == Next(st, lines[i])
            && Changes(START, lines[..i + 1]) == (Changes(START, lines[..i]) || Rejected(st, lines[i]))
            && Concat(RepairLines(START, lines[..i + 1]))
            == Concat(RepairLines(START, lines[..i]))
             + (if Rejected(st, lines[i]) then MARKER + "\n" + "# " + lines[i] else lines[i])
  {
    hide Rejected, Next;
    var st := After(START, lines[..i]);
    assert lines[..i + 1] == lines[..i] + [lines[i]];
    RepairConcat(START, lines[..i], [lines[i]]);
    assert [lines[i]][1..] == [];
    var e := Emitted(st, lines[i]);
    assert RepairLines(st, [lines[i]]) == e + [] == e;
    ConcatConcat(RepairLines(START, lines[..i]), e);
    ConcatEmitted(st, lines[i]);
  }

  lemma ConcatEmitted(st: State, line: string)
    ensures Concat(Emitted(st, line)) == if Rejected(st, line) then MARKER + "\n" + "# " + line else line
  {
    hide Rejected, Commented;
    CommentedHasTwo(line);
    ConcatTwo(MARKER + "\n", "# " + line);
    assert Commented(line) == [MARKER + "\n", "# " + line];
    assert [line][1..] == [] && line + [] == line;
    assert MARKER + "\n" + ("# " + line) == MARKER + "\n" + "# " + line;
  }

  lemma ConcatTwo(a: string, b: string)
    ensures Concat([a, b]) == a + b
  {
    assert [a, b][1..] == [b] && [b][1..] == [];
    assert Concat([b]) == b + [] == b;
  }

  method CommentInvalidOptions(text: string) returns (output: string, changed: bool)
    ensures (output, changed) == Repair(text)
  {
    hide RepairLines, Changes, After, Concat, SplitInclusive, Classify, IsValidOption, IsValidSection;
    var lines := SplitInclusive(text);
    output, changed := [], false;
    var section: Option<string>, invalidSection, invalidOptionContinuation := None, false, false;
    NoLineYet(lines);
    for i := 0 to |lines|
      invariant output == Concat(RepairLines(START, lines[..i])) && changed == Changes(START, lines[..i])
      invariant After(START, lines[..i]) == State(section, invalidSection, invalidOptionContinuation)
    {
      var line := lines[i];
      OneMoreLine(lines, i);
      match Classify(line)
      case Table(name) =>
        if IsValidSection(name) {
          section, invalidSection, invalidOptionContinuation := Some(name), false, false;
          output := output + line;
        } else {
          section, invalidSection, invalidOptionContinuation := None, true, false;
          output := output + (MARKER + "\n" + "# " + line);
          changed := true;
        }
      case Inert =>
        output := output + line;
      case other =>
        var invalidOption := invalidSection
          || (other.Assignment? && !IsValidOption(section, other.key))
          || (other.Other? && invalidOptionContinuation);
        if invalidOption {
          output := output + (MARKER + "\n" + "# " + line);
          invalidOptionContinuation := !invalidSection;
          changed := true;
        } else {
          invalidOptionContinuation := false;
          output := output + line;
        }
    }
    assert lines[..|lines|] == lines;
  }

  lemma NoLineYet(lines: seq<string>)
    ensures RepairLines(START, lines[..0]) == [] && Concat([]) == [] && !Changes(START, lines[..0])
    ensures After(START, lines[..0]) == START
  {
  }
}
