# matrix-axon, verified

A Dafny model of the decision-making parts of the matrix-axon terminal client and of two of
its release scripts, with proofs that hold for every input, every run and every server.

- **Calendar** (`Calendar.dfy`): the closed-form proleptic Gregorian day count is an order
  isomorphism between dates and the integers, and the millisecond stamps built on it.
- **Search language** (`SearchWords.dfy`, `SearchQuoting.dfy`, `SearchTerms.dfy`,
  `SearchDates.dfy`, `SearchForm.dfy`, `SearchLines.dfy`): the quoting tokenizer, the field
  parser, the date fields, the form that writes itself in the language and is rebuilt from a
  parse, and what each field of a line sets.
- **Search results** (`SearchOrder.dfy`, `Sorting.dfy`): the grouped listing, whose group
  order comes out of a hash map.
- **Rich-text wrapping** (`Wrap.dfy`): word wrapping, character breaking and the gutter.
- **Screen geometry** (`Geometry.dfy`): the compose cursor and the room-list scroll.
- **Verification modal** (`Verification.dfy`): live frames from a lossy bus merged with
  authoritative re-reads.
- **Input editor** (`InputEditor.dfy`): a UTF-8 text with a byte cursor.
- **Configuration repair** (`ConfigRepair.dfy`): the pass that comments out unknown options.
- **Play upload** (`PlayUpload.dfy`): a transaction against an arbitrary server.
- **Site link check** (`SiteLinks.dfy`): the worklist crawl.
- **`/send` paths** (`SendPath.dfy`): the path token and its caption.

Text is a sequence of Unicode scalar values (`Text.dfy`); byte offsets are lengths of UTF-8
encodings, and whitespace is the White_Space property. Code that works by loops and updates is
modelled by methods and classes proved against functions of their inputs or old state; what the
code is for is then proved about those functions. `dafny verify dfyconfig.toml` checks the whole
project.

What comes from outside is a parameter: the server's answers (a function of everything exchanged
so far), the resolution of links and fragments, the display width of a character, the word
wrapper, the phrases resolved against today's date and the date formats other than
month/day/year, and the iteration order of the hash map. Three of them carry an assumption:
`Wrap.WrapsPrefixes` (the wrapper's first line is a prefix of the piece of its input before the
first newline, and empty only if the input starts with a space or a newline),
`SearchDates.PhrasesAreWords` (no date phrase starts with a digit) and `SiteLinks.FilesExist`
(a link that resolves to a page resolves to one of the site's files).

Findings, each with its exact condition and an input in the table: the loop of
`wrap_rich_lines` never ends on a line whose body holds a newline, and such lines come from file
names (`clients/tui/src/app/render.rs:669-677`), reaction keys
(`clients/tui/src/app/render.rs:432-438`) and spoiler labels (`clients/tui/src/html.rs:292-302`),
none of which is split into lines first; a written search value survives quoting
only without a backslash (if it has whitespace) or without a quote (if it has none); a form date
survives only in 2000 to 2099 and -99 to -1; the compose cursor is drawn one row below the box
at the end of a last line that fills two or more rows exactly; a re-read does not bring a copy of
the verification modal back that has ended otherwise; a late comparison frame reopens a
finished verification, which can then be confirmed; a comparison frame without emoji shows an
empty comparison. The comment on `wrap_rich_lines` says that the first width holds for the first
output line; the code, followed here, gives it to the first row of every line. The comment on
`stage_from` says that terminal states keep a message already shown; in the code a later
cancellation frame replaces it.

## Model

| member | source | states |
|---|---|---|
| `Calendar.SuccessorAddsOne` | clients/tui/src/command.rs:907-933 | The calendar successor of every valid date, across month ends, leap days and 400-year eras, has a day count exactly one greater. |
| `Calendar.CountIsOrderIsomorphic` | clients/tui/src/command.rs:923-933 | Two valid dates compare as their day counts do, and are equal exactly when the counts are. |
| `Calendar.CountOfWalk` | clients/tui/src/command.rs:923-933 | The closed form equals the naive walk: the date reached by n single-day steps from 1970-01-01, forwards or backwards, counts n, so every integer is hit. |
| `Calendar.WalkOfCount` | clients/tui/src/command.rs:923-933 | Every valid date is the one the walk reaches at its own count: with the previous row, a bijection between dates and integers. |
| `Calendar.StampsAreStrictlyIncreasing` | clients/tui/src/command.rs:898-905 | A stamp is produced exactly for inputs of the calendar and the clock, and strictly increases, by at least a minute, in year, month, day, hour, minute, both ways. |
| `Calendar.OverflowFreeWindow` | clients/tui/src/command.rs:898-933 | Every signed 64-bit intermediate of the stamp computation is in range if and only if the minute lies between -292275055-05-16 16:48 and 292278994-08-17 07:12; the slash and named-month parsers do not bound the year, so this is a condition on callers. |
| `SearchDates.WindowsTile` | clients/tui/src/search.rs:777-784 | Day windows tile the millisecond line: each ends one before the next day's start, and a millisecond is in a day's window exactly if that is its UTC day. |
| `SearchDates.FormDateRoundTrip` | clients/tui/src/search.rs:527-529 | Reading back the form's month/day/two-digit-year text of any date gives that month and day of the year its two digits fold to, which always has that day; so the same date if and only if the year is 2000 to 2099 or -99 to -1. |
| `SearchDates.LastCenturyIsLost` | clients/tui/src/search.rs:527-529 | 1999-12-31 comes back as 2099-12-31. |
| `SearchDates.BoundsRoundTrip` | clients/tui/src/search.rs:505-519 | Whole-day bounds, open or closed on either side, are unchanged by being written to the date, after and before fields and read again if and only if the year of each bound given is 2000 to 2099 or -99 to -1. |
| `SearchDates.BoundsReadFolded` | clients/tui/src/search.rs:505-519 | Whatever the years, they are read as the bounds of the folded days: the dash of a negative year is not taken for the dash of a range. |
| `SearchDates.DateRangeRoundTrip` | clients/tui/src/search.rs:649-697 | A written range of any two days is split at the dash between them and read as the start of its first and the end of its last folded day; a single written date as its own window. |
| `SearchDates.OpenRange` | clients/tui/src/search.rs:649-697 | A range with one side missing sets the other bound and leaves the missing one as it was, also for dates with a negative year. |
| `SearchWords.ShellWords` | clients/tui/src/search.rs:793-841 | The look-ahead loop over byte offsets fails exactly when the character-by-character scan does, and otherwise returns the scan's words with their UTF-8 offsets. |
| `SearchWords.WordsPartitionInput` | clients/tui/src/search.rs:793-841 | Words are non-empty stretches in strict order with a gap between, hold whitespace only inside quotes, each reads as its own stretch unquoted, and every non-whitespace character is in one; so gaps are only whitespace. |
| `SearchWords.WordsAreTheSplit` | clients/tui/src/search.rs:793-841 | Splitting succeeds with a list of words if and only if that list splits the input in this way: the split is unique, and there is none exactly when splitting fails. |
| `SearchWords.ByteSpansAreOrdered` | clients/tui/src/search.rs:786-841 | In bytes, too, spans are non-empty, strictly ordered and inside the input, and start at character boundaries. |
| `SearchWords.FailsIffQuoteOpen` | clients/tui/src/search.rs:830-832 | Splitting fails if and only if unquoting the whole input leaves a quote open. |
| `SearchQuoting.QuotingRoundTrip` | clients/tui/src/search.rs:531-538 | A written field reads back as one word holding the trimmed value if and only if the value has no backslash when it contains whitespace, and no quote when it does not. |
| `SearchQuoting.QuoteInValue` | clients/tui/src/search.rs:531-538 | The value `a"b`, written as a room, makes the line fail with an unterminated quote. |
| `SearchQuoting.WordsOfFieldsAndQuery` | clients/tui/src/search.rs:462-502 | The words of any written fields followed by any query are the fields' words and then the query's words, moved; and the whole fails exactly if the query alone does. |
| `SearchTerms.ParseSearchTerms` | clients/tui/src/search.rs:551-630 | The loop over byte-addressed tokens computes the parse over words, including the `--` case whose offset one past the token may fall inside a multi-byte space. |
| `SearchTerms.QueryIsTrimmedSuffix` | clients/tui/src/search.rs:562-620 | The query of a successful parse is empty or the verbatim trimmed rest of the input from the first character of some word, every earlier word being a field or `--`. |
| `SearchTerms.ByteAfterLastWord` | clients/tui/src/search.rs:566-570 | Whatever follows the byte after a final `--` trims to nothing, or is no character boundary, so the query is empty. |
| `SearchTerms.ParseIsSensible` | clients/tui/src/search.rs:551-639 | Whatever is typed, a successful parse has a limit of 1 to 200, non-empty trimmed targets and sender, bounds in order, and never asks for everything together with a target. |
| `SearchForm.ParseOfFieldsAndQuery` | clients/tui/src/search.rs:551-630 | A line of written fields and a query parses as the query does from the state that applying the fields in order gives; fields matter through that state only. |
| `SearchForm.SynonymsParseAlike` | clients/tui/src/search.rs:574-607 | Any line of written fields and a query parses the same, or fails too, with each field under any of its names. |
| `SearchForm.EachSynonym` | clients/tui/src/search.rs:574-607 | In particular from, received and to stand for sender, date and before, with any value that survives quoting and any query. |
| `SearchForm.FormRoundTrip` | clients/tui/src/search.rs:325-367 | For every form whose visible values survive quoting, with targets other than `*`, a limit of 1 to 200 and whole-day dates of 2000 to 2099 or -99 to -1, or none: if the query is plain, writing and parsing succeeds and restores scope, visible targets, sender, dates, limit and trimmed query; and the query comes back if and only if its quotes close and its first word is neither a field nor `--`. |
| `SearchForm.TokensAreFieldTexts` | clients/tui/src/search.rs:462-502 | The text a form hands to the parser is its fields, each followed by a space, and the query. |
| `SearchForm.AppliedForm` | clients/tui/src/search.rs:551-630 | Applying the written fields in order sets exactly the form's targets, sender, bounds and limit. |
| `SearchForm.QueryOfMovedWords` | clients/tui/src/search.rs:562-620 | After any prefix of fields a plain query is read whole; any other query that parses at all is read strictly shorter. |
| `SearchForm.DefaultFormIsWritable` | clients/tui/src/search.rs:304-321 | The form as it first opens, with any query and any sender that survives quoting, meets the conditions of the round trip. |
| `SearchLines.LineGives` | clients/tui/src/search.rs:551-639 | A line gives what its last field does to what the fields before it have set, with the query after it, and fails exactly if that is an error or a conflict: everything together with a target, or bounds out of order. |
| `SearchLines.TargetsAreSet` | clients/tui/src/search.rs:574-585 | account, room and sender set the trimmed value and nothing else; an empty one is an error. |
| `SearchLines.AllIsSet` | clients/tui/src/search.rs:586-589 | true, yes and 1 set the flag, false, no and 0 clear it, and anything else is an error. |
| `SearchLines.LimitIsSet` | clients/tui/src/search.rs:590-596 | A number is brought into 1 to 200; no number, or one past 64 bits, is an error. |
| `SearchLines.DatesAreSet` | clients/tui/src/search.rs:597-608 | after sets the start of its day, before the end of its day, date both, a range the start of its first and the end of its last day, and an open range one of them, after any fields before. |
| `SearchLines.DaysAreSet` | clients/tui/src/search.rs:691-697 | Any value, phrase or date, bounds the search by the first and the last day it stands for; one that stands for none is an error. |
| `SearchLines.DashesEndFields` | clients/tui/src/search.rs:562-570 | After `--` the whole rest is the query, even where it starts with a field. |
| `SearchLines.FormOfLine` | clients/tui/src/search.rs:325-367 | The form rebuilt from any line that parses: its scope, both ways, from the flag and the targets named, the named targets, sender, dates, limit and query. |
| `SearchLines.AllOpensEverywhere` | clients/tui/src/search.rs:325-340 | The line `all:true`, with any plain query, opens the form on everything. |
| `Sorting.SortSorts` | clients/tui/src/search.rs:127-138 | The stable sort yields the strict order that breaks ties by original position. |
| `Sorting.SortedIsUnique` | clients/tui/src/search.rs:182-199 | Given elements have one strictly sorted arrangement. |
| `SearchOrder.RoomGroupOrder` | clients/tui/src/search.rs:165-205 | The loops compute the ranks of the rooms: by first appearance for relevance, otherwise by sorted time bounds. |
| `SearchOrder.OrderedIndices` | clients/tui/src/search.rs:119-141 | Ungrouped, the server's order is kept index by index, whatever the sort; by room, the listing that the next rows describe; a permutation of the results in both. |
| `SearchOrder.BoundsSpec` | clients/tui/src/search.rs:172-180 | A room's bounds are attained by its own results and bound them all; exactly the rooms of results have bounds. |
| `SearchOrder.FirstSeenNumbers` | clients/tui/src/search.rs:165-175 | By relevance rooms are numbered without repeats or gaps, the first result's room being 0. |
| `SearchOrder.HashOrderDoesNotMatter` | clients/tui/src/search.rs:181-205 | The listing is the same for every iteration order of the hash map. |
| `SearchOrder.ListingIsSorted` | clients/tui/src/search.rs:119-163 | The grouped listing is a permutation sorted by room rank, then the chosen order, then the server's order. |
| `SearchOrder.GroupsAreContiguous` | clients/tui/src/search.rs:119-163 | Each account-and-room's results are contiguous and internally ordered by time, then event id, then the server's order, or by the server's order alone. |
| `SearchOrder.RoomsFollowTime` | clients/tui/src/search.rs:181-199 | Sorted by time, rooms come in the order of their newest or oldest result, then by room id and account. |
| `SearchOrder.EarlierRoomsRankLower` | clients/tui/src/search.rs:165-175 | By relevance, a room seen among the first results ranks before any room first seen later. |
| `SearchOrder.FirstIsExtreme` | clients/tui/src/search.rs:119-205 | The first entry is globally newest, oldest, or the server's first result, as chosen. |
| `Wrap.RowsConserveBody` | clients/tui/src/wrap.rs:104-225 | For every body and widths the rows, cells with their styles in order, are the body, up to its first newline if it has one, with only runs of spaces after a row taken out. |
| `Wrap.LoopEndsIffNoNewline` | clients/tui/src/wrap.rs:144-181 | The cursor loop reaches the end after some number of turns if and only if the body has no newline, and then within as many turns as it has characters. |
| `Wrap.LoopStopsAtNewline` | clients/tui/src/wrap.rs:144-181 | No number of turns passes the first newline; as many turns as there are characters before it reach it, and every further turn stays there. |
| `Wrap.FileNameNeverWraps` | clients/tui/src/wrap.rs:144-181 | On the file name `a`, newline, `b` every number of turns from one on leaves the newline and `b` over, for any widths. |
| `Wrap.RowsFit` | clients/tui/src/wrap.rs:183-217 | The first row fits the first width; every later row fits the continuation width or is one over-wide character followed only by zero-width ones. |
| `Wrap.BreaksAreGreedy` | clients/tui/src/wrap.rs:199-217 | A character break comes as late as possible: the next row's first character would not have fit. |
| `Wrap.FittingLinesAreKept` | clients/tui/src/wrap.rs:185-199 | A line that fits its row is not broken. |
| `Wrap.LinesStartAtWords` | clients/tui/src/wrap.rs:175-180 | Word-wrapped lines after the first are not empty and start with neither a space nor a newline. |
| `Wrap.SpansCarryCells` | clients/tui/src/wrap.rs:243-251 | Pushing characters one by one yields spans that hold exactly those styled characters, none empty, neighbours of different style. |
| `Wrap.LinesWrapWell` | clients/tui/src/wrap.rs:104-235 | Every row of a non-empty line starts with its whole gutter, and the bodies of the rows conserve the line's body, up to a newline. |
| `Wrap.RowsFitScreen` | clients/tui/src/wrap.rs:118-124 | Whole rows, gutter included: the first takes at most the first width, every later one at most the continuation width or is one over-wide character; where the gutter fills the width, one column more than the gutter. |
| `Wrap.RowsAreTheWrappers` | clients/tui/src/wrap.rs:118-181 | The wrapper is asked for exactly what the gutter leaves of the row; where its lines fit there, they are the rows behind the gutter. |
| `Wrap.LinesAreTheWrappers` | clients/tui/src/wrap.rs:144-181 | Each word-wrapped line is the wrapper's first line for all that is left, and exactly the spaces between two lines are skipped, up to the first newline or the end. |
| `Wrap.FittingBodyIsOneRow` | clients/tui/src/wrap.rs:118-219 | A body that the wrapper keeps whole at what the gutter leaves, and that fits there, stays on one row. |
| `Wrap.WideLinesBreakLate` | clients/tui/src/wrap.rs:199-217 | A line too wide for its row is broken as late as its row and the following ones allow, and loses no cell. |
| `Wrap.LinesAreIndependent` | clients/tui/src/wrap.rs:104-241 | Lines are wrapped one by one and in order; an empty one gives one empty row. |
| `Wrap.WordWrap` | clients/tui/src/wrap.rs:139-181 | The cursor loop comes back if and only if the cells hold no newline, and then with the word-wrapped lines, each the wrapper's first line for what remains, spaces at breaks skipped. |
| `Wrap.CharBreak` | clients/tui/src/wrap.rs:199-217 | The remaining-columns loop fills rows as the recursive definition does. |
| `Wrap.BreakRows` | clients/tui/src/wrap.rs:183-219 | Only lines wider than their row are broken; the first line is held to the first width. |
| `Wrap.InsertGutter` | clients/tui/src/wrap.rs:225-232 | Inserting the gutter span by span puts it whole before every row. |
| `Wrap.WrapRichLines` | clients/tui/src/wrap.rs:95-241 | The whole pass comes back if and only if no line's body, its gutter aside, holds a newline, and then with the wrapped lines one after the other, of which the rows above say what they are; no lines at all become one empty row. |
| `Geometry.PlaceIncreases` | clients/tui/src/geometry.rs:81-111 | As the cursor advances, row and column strictly increase lexicographically, across wraps and newlines: places are distinct. |
| `Geometry.PlaceFoldsColumn` | clients/tui/src/geometry.rs:92-107 | Below the rows of the lines above, row times width plus column is the unwrapped column with its two-column prefix; the column equals the width only at the end of a full first row. |
| `Geometry.PlaceIsInBox` | clients/tui/src/geometry.rs:93-110 | The cursor's row is at most the row count, and equal to it if and only if it ends a last line that fills at least two rows exactly. |
| `Geometry.CursorLeavesBox` | clients/tui/src/geometry.rs:93-110 | The text `ab` at width 2 takes two rows, and its end is drawn on row 2, below them. |
| `Geometry.ComposeLayout` | clients/tui/src/geometry.rs:81-111 | The loop over segments returns the row count and the cursor's place; a cursor past the end stays at the origin. |
| `Geometry.OneLinePerCursor` | clients/tui/src/geometry.rs:89-107 | The byte offset of every cursor lies on exactly one line of the buffer, ends included, so one segment matches it. |
| `Geometry.DividerAwareRoomScroll` | clients/tui/src/geometry.rs:113-150 | The branches compute the scroll that the next two rows are about. |
| `Geometry.ScrollShowsSelection` | clients/tui/src/geometry.rs:113-150 | For a page of at least one row and a selection in range, the selection is shown with the divider counted; a selection below the view is reached by the least scroll not below the current one, which the clamp keeps. |
| `Geometry.ScrollIsIdempotent` | clients/tui/src/geometry.rs:113-150 | Scrolling again changes nothing. |
| `Verification.VerificationFlow.ApplyFlow` | clients/tui/src/app.rs:292-317 | Merging a re-read: the whole new state as a function of the old. |
| `Verification.VerificationFlow.ApplyFrame` | clients/tui/src/app.rs:320-367 | Merging a live frame: the whole new state as a function of the old. |
| `Verification.StepKeeps` | clients/tui/src/app.rs:290-367 | One event fixes bound ids and received comparison data and never goes from confirming to comparing. |
| `Verification.RunKeeps` | clients/tui/src/app.rs:290-367 | In every interleaving of frames, re-reads, request outcomes and keys, from any point on: bound flow id and known user and device ids never change, comparison data is never cleared. |
| `Verification.ConfirmingIsNotReopened` | clients/tui/src/app.rs:307-316 | In no run does the comparison come back after an answer without some other stage between. |
| `Verification.RepeatsChangeNothing` | clients/tui/src/app.rs:290-367 | A frame or a re-read applied twice equals once. |
| `Verification.ForeignTrafficIsIgnored` | clients/tui/src/app/timeline.rs:147-198 | Removing every frame, read and outcome of other flows from any interleaving leaves a bound modal's final state the same. |
| `Verification.ReadsConverge` | clients/tui/src/app.rs:267-317 | Merging the same read into any two states gives the same stage if and only if the read is not of exchanged keys with one state alone knowing the emoji, or one alone confirming. |
| `Verification.CopiesConverge` | clients/tui/src/app/lifecycle.rs:1131-1146 | Two copies of a bound modal fed any two interleavings and then the same read show the same stage if and only if: both finished alike before, or one finished and the read reports that very end, or both are open and the read is not of exchanged keys with one copy alone knowing the emoji or one alone confirming. If both are open, identities are known and the read brings emoji and decimals, they are equal in everything if and only if it is not of exchanged keys while exactly one is confirming. |
| `Verification.CancelledCopyStaysBehind` | clients/tui/src/app/lifecycle.rs:1137-1139 | A copy that saw a cancellation and one that did not differ after the same read of a ready flow: one shows the end, the other waits. |
| `Verification.TerminalIsLeftOnlyByLateSas` | clients/tui/src/app.rs:345-355 | A finished modal leaves its terminal stage if and only if a comparison frame for it arrives. |
| `Verification.TerminalUntilLateSas` | clients/tui/src/app/lifecycle.rs:1131-1146 | Without such a frame it stays finished through every run. |
| `Verification.CancelledFlowCanBeConfirmed` | clients/tui/src/app.rs:352-354 | With one, an ended verification is put back before the user and can be confirmed. |
| `Verification.ClaimsHaveCauses` | clients/tui/src/app.rs:267-367 | In every run a success was announced by a frame or a read that was for this modal and took effect when it came, and confirming by the user's answer to a shown comparison or by such a read. |
| `Verification.EndsAreShown` | clients/tui/src/app.rs:267-367 | A frame that ends the flow is shown as such, with its reason behind the text; a re-read ends the modal if and only if it says the flow is done or cancelled; the user's no ends an open modal, and so does a failed request, with its message. |
| `Verification.ProgressIsShown` | clients/tui/src/app.rs:267-367 | An open modal shows where an event says the flow stands: waiting, the comparison until it is answered and if there is one, or confirming. |
| `Verification.UnboundModalHears` | clients/tui/src/app/timeline.rs:147-198 | A frame binds a modal without a flow if and only if it comes from the device asked, for the account that asked, and is no request; any other leaves it untouched. |
| `Verification.OthersAreNotHeard` | clients/tui/src/app/timeline.rs:147-198 | A modal with a flow hears exactly the frames of that flow and account; what is not heard changes nothing. |
| `Verification.LatestDataAreShown` | clients/tui/src/app.rs:292-355 | In every run the emoji and the decimals shown are those heard last, or the first ones if none were. |
| `Verification.IdentityIsTheFirst` | clients/tui/src/app.rs:292-345 | In every run an unknown user or device becomes the first one heard of, or stays unknown if none was. |
| `Verification.ComparisonIsNeverBlank` | clients/tui/src/app.rs:345-355 | The comparison always has emoji to show in runs whose comparison frames bring them. |
| `Verification.BlankComparison` | clients/tui/src/app.rs:345-355 | It is blank after a step if and only if that step is a comparison frame without emoji, none being known. |
| `Verification.BlankComparisonHappens` | clients/tui/src/app.rs:345-355 | A waiting modal that gets a comparison frame with decimals only shows an empty comparison. |
| `InputEditor.Play` | clients/tui/src/app.rs:1763-1918 | The byte-cursor editor plays any sequence of keys exactly as the text left and right of the cursor do, keeping the cursor on a character boundary. |
| `InputEditor.Input.InsertStr` | clients/tui/src/app.rs:1774-1778 | Inserted text goes to the left of the cursor. |
| `InputEditor.Input.InsertChar` | clients/tui/src/app.rs:1763-1767 | A typed character goes to the left of the cursor. |
| `InputEditor.Input.MoveCursorLeft` | clients/tui/src/app.rs:1850-1859 | One whole character back; the text is not written to. |
| `InputEditor.Input.MoveCursorRight` | clients/tui/src/app.rs:1861-1870 | One whole character on. |
| `InputEditor.Input.MoveCursorWordLeft` | clients/tui/src/app.rs:1893-1904 | To the start of the word before the cursor. |
| `InputEditor.Input.MoveCursorWordRight` | clients/tui/src/app.rs:1906-1918 | To the start of the next word. |
| `InputEditor.Input.Backspace` | clients/tui/src/app.rs:1813-1827 | The whole character before the cursor goes, however many bytes it has. |
| `InputEditor.Input.DeleteForward` | clients/tui/src/app.rs:1829-1840 | The whole character after the cursor goes. |
| `InputEditor.Input.DeleteWordBack` | clients/tui/src/app.rs:1872-1891 | The word before the cursor goes, with the whitespace after it. |
| `InputEditor.FindWordStart` | clients/tui/src/app.rs:1878-1886 | The two backward loops stop at the start of the last word. |
| `InputEditor.FindWordEnd` | clients/tui/src/app.rs:1908-1916 | The two forward loops stop at the start of the next word. |
| `InputEditor.WordBackIsOneWord` | clients/tui/src/app.rs:1872-1904 | Deleting a word removes exactly what moving over it passes: the whole last word and all the whitespace after it, or everything if there is no word. |
| `InputEditor.WordRightIsOneWord` | clients/tui/src/app.rs:1906-1918 | Moving right passes the rest of a word to its end and then all the whitespace, to the next word or the end. |
| `InputEditor.BackspacesUndoTyping` | clients/tui/src/app.rs:1763-1827 | A paste is undone by as many backspaces as it has characters. |
| `InputEditor.TypingIsPasting` | clients/tui/src/app.rs:1763-1778 | Typing character by character leaves what pasting the whole text does. |
| `InputEditor.MovesKeepText` | clients/tui/src/app.rs:1850-1918 | No sequence of moves changes the text. |
| `InputEditor.KeysAgree` | clients/tui/src/app.rs:1813-1870 | Left and delete is a backspace; left and right undo each other; at either end there is nothing to pass or delete. |
| `ConfigRepair.CommentInvalidOptions` | clients/tui/src/config.rs:1035-1092 | The line loop with its three state variables computes the repair and whether anything changed. |
| `ConfigRepair.RepairIsIdempotent` | clients/tui/src/config.rs:1035-1112 | On every text a second pass returns the first pass's output and reports no change. |
| `ConfigRepair.SecondPassChangesNothing` | clients/tui/src/config.rs:1035-1082 | The simulation behind it: a second pass that knows the section whenever the first is in a valid one rejects nothing the first emits. |
| `ConfigRepair.TextSurvives` | clients/tui/src/config.rs:1084-1092 | Every line survives in order, verbatim or behind the marker and `# `. |
| `ConfigRepair.RepairIsUndoable` | clients/tui/src/config.rs:1084-1092 | Dropping markers and uncommenting the line after each gives the text back, if it held no marker before. |
| `ConfigRepair.RepairCleans` | clients/tui/src/config.rs:1035-1212 | The output has only known tables, and every assignment names an option of the table above it; a change is reported if and only if the input was not so, and if and only if the text differs. |
| `ConfigRepair.RepairLineByLine` | clients/tui/src/config.rs:1035-1092 | The whole output, told from the input lines alone: an unknown table, an assignment that names no option of the table above it, and a further line of either are commented out, every other line stays; a change is reported if and only if one goes. |
| `ConfigRepair.FurtherLinesFollow` | clients/tui/src/config.rs:1067-1078 | A line that is neither table, assignment, blank nor comment goes if and only if the nearest table or assignment above it does, and stays if there is none. |
| `ConfigRepair.ArrayGoesWhole` | clients/tui/src/config.rs:1067-1078 | An unknown option with an array over four lines goes with all its lines. |
| `ConfigRepair.LayoutIsIgnored` | clients/tui/src/config.rs:1042-1044 | Indentation, blanks at the end and the newline do not change what a line is. |
| `ConfigRepair.TableHeader` | clients/tui/src/config.rs:1094-1100 | A bracketed header without a comment is read as the table it names. |
| `ConfigRepair.InertLine` | clients/tui/src/config.rs:1062-1065 | Blank lines and comments, indented or not, are left alone. |
| `ConfigRepair.OtherLine` | clients/tui/src/config.rs:1067-1104 | Any other line without an equals sign is the further line of a value. |
| `ConfigRepair.TableLine` | clients/tui/src/config.rs:1094-1100 | A bracketed header, with blanks and a comment after it, is read as the table it names. |
| `ConfigRepair.AssignmentLine` | clients/tui/src/config.rs:1102-1104 | A key, an equals sign and any value are read as an assignment to the key. |
| `PlayUpload.Upload` | scripts/lib/play-upload.py:156-246 | The program with its try and finally is a run of the transaction machine, against every server. |
| `PlayUpload.RunEdit` | scripts/lib/play-upload.py:169-236 | The guarded part of the run: it leaves the machine over if it committed, and otherwise at the clean-up, with the same outcome. |
| `PlayUpload.CommitIsGuarded` | scripts/lib/play-upload.py:169-236 | Commit is only ever sent after exactly: edit opened, bundle accepted with the expected version, if one was given, and with a matching digest, or none in the answer, symbols accepted if given, track read and free of others' work, track written, edit validated; and never to check. |
| `PlayUpload.CommitOnTrace` | scripts/lib/play-upload.py:156-236 | Told by the exchanges alone: when commit is sent, no answer before it failed its step, the symbols were for the version code given, and the track written ends with that code, under the name asked for or else the code, in the status asked for. |
| `PlayUpload.FailuresHaveCauses` | scripts/lib/play-upload.py:156-246 | A finished run failed if and only if some answer failed its step: no edit, a bundle refused or with another digest or version code, symbols refused, a track unreadable or with others' unfinished work, or a write, validation or commit not answered 200; a failed clean-up is no failure. |
| `PlayUpload.EditIsDroppedOnce` | scripts/lib/play-upload.py:237-244 | A finished run asks to delete its edit exactly once, as its last request, if and only if it opened one and commit was not answered 200. |
| `PlayUpload.OutcomeIsTrue` | scripts/lib/play-upload.py:156-246 | Success means everything was staged; a commit was answered 200 if and only if the run succeeded and was not a check. |
| `PlayUpload.OnlyOwnWorkIsReplaced` | scripts/lib/play-upload.py:101-123 | Any draft dropped, and any release in flight replaced by completing, carries exactly the uploaded version code. |
| `PlayUpload.TrackGetsTheUpload` | scripts/lib/play-upload.py:203-213 | The written track ends with the uploaded version code in the status asked for; a draft keeps exactly the releases that are no drafts, a completed release stands alone. |
| `PlayUpload.KeptInOrder` | scripts/lib/play-upload.py:206-209 | The releases that stay on the track stay in order and as often as they were there. |
| `PlayUpload.RunsReplaceOnlyOwnWork` | scripts/lib/play-upload.py:200-224 | In every run, a track is written right after the server's answer to reading it, which the refusal check passed; against the releases of that very answer, any draft dropped, and any release in flight replaced by completing, carries exactly the version code the server gave the bundle. |
| `PlayUpload.PreflightIsStricter` | scripts/lib/play-upload.py:101-123 | A track that passes preflight passes the later check for any version code; only releases of exactly that version code can make the difference. |
| `PlayUpload.PreflightRefuses` | scripts/lib/play-upload.py:101-123 | Preflight refuses any draft, and for a completed release anything in progress or halted too. |
| `PlayUpload.Preflight` | scripts/lib/play-upload.py:136-153 | Opens an edit, reads the track, applies the refusal without exemptions, and asks to delete the edit once, whatever happens. |
| `SiteLinks.Crawl` | scripts/check-site-links.py:138-168 | Terminates on every finite site; the pages seen are exactly those reachable from index.html, although anchors make pages be parsed early; the problems recorded are exactly those of the pages seen. |
| `SiteLinks.CrawlPage` | scripts/check-site-links.py:148-168 | One page: everything it links to is seen or queued afterwards, and its problems are all recorded. |
| `SiteLinks.CheckSite` | scripts/check-site-links.py:138-179 | The status is 0 if and only if no reachable page has a problem; every unresolvable link, missing anchor or base on a reachable page is reported, and nothing else. |
| `SiteLinks.PagesWithoutProblems` | scripts/check-site-links.py:148-168 | A page has no problem if and only if it sets no base and every link leaves the site, or leads to a file that is no page, or to a page at its top or at an anchor it has; each problem names a link that does not, or the base. |
| `SendPath.ScanUnquotedPathToken` | clients/tui/src/command.rs:728-749 | The peeking loop yields the unescaped path and the byte offset at which the rest begins. |
| `SendPath.EscapeRoundTrip` | clients/tui/src/command.rs:728-796 | A backslash-escaped path parses back to itself with no caption if and only if its only whitespace is spaces. |
| `SendPath.QuotedPath` | clients/tui/src/command.rs:759-772 | A path in quotes is read up to the closing quote, with the rest after it, if and only if it does not contain that quote. |
| `SendPath.LiteralPath` | clients/tui/src/command.rs:728-749 | A path without whitespace and without an escaping backslash is read as typed; stray backslashes are kept. |
| `SendPath.BackslashTakes` | clients/tui/src/command.rs:728-740 | A backslash gives a space, a backslash or either quote after it literally, and is kept before anything else. |
| `SendPath.EscapedPathAndCaption` | clients/tui/src/command.rs:759-779 | An escaped path, any whitespace character and any text read as that path and the trimmed text, none if blank, if and only if the path's only whitespace is spaces. |
| `SendPath.LiteralPathAndCaption` | clients/tui/src/command.rs:759-779 | A path typed as it is, whitespace and a text read as such if and only if the path does not end with a backslash before a space. |
| `SendPath.QuotedPathAndCaption` | clients/tui/src/command.rs:759-772 | A quoted path and a text read as such if and only if the path does not hold the quote. |
| `SendPath.OpenQuote` | clients/tui/src/command.rs:759-772 | Without a closing quote everything after the opening one is the path, and there is no caption. |
| `SendPath.EndedPathIsFixed` | clients/tui/src/command.rs:759-796 | Once the path has ended, any appended text leaves the path as it is and the token ended. |
| `SendPath.ParseLeadingPathToken` | clients/tui/src/command.rs:759-779 | The parse, with its own search for the closing quote and its byte slices, gives the path token and the trimmed text after it. |
| `SendPath.SendArgumentStillInPathToken` | clients/tui/src/command.rs:790-796 | Completion's own search says that the quote is open, or that no unescaped whitespace has come. |
| `SendPath.CompletionAgreesWithParsing` | clients/tui/src/command.rs:759-796 | The two agree on every argument where the path ends; inside it there is no caption. |
| `SendPath.NextCharacterGoes` | clients/tui/src/command.rs:759-796 | The next ordinary character typed is added to the path if and only if completion says the path is being typed, and otherwise leaves the path and makes a caption. |
| `SendPath.InPathWhileItCanChange` | clients/tui/src/command.rs:781-796 | Completion says so if and only if some further typing changes the path that is parsed. |

## Left out

- Calendar.OverflowFreeWindow: the values are unbounded integers with the 64-bit range stated as a condition; what an overflowing build would compute (a panic or a wrapped value) is not modelled.
- Geometry.ScrollShowsSelection: list and page sizes are unbounded; the saturating addition at the top of the machine range is not modelled.
- SearchDates.BoundsRoundTrip: the end of the calendar library's range (year 262142), where the day after the last one does not exist, is not modelled for day windows.
- SearchOrder.OrderedIndices: the standard library's stable sort is modelled as insertion, which has the same result.
- Wrap.WrapRichLines: the branch for a wrapper that returns no line at all is unreachable under the wrapper's contract; a loop that would turn forever is modelled by coming back with nothing, without the memory it would take.
- SiteLinks.Crawl: the homepage exists; without it the script stops with an error on opening it.
- PlayUpload.Upload: the text of error messages and warnings, tokens, signing and file reads; a digest is compared as already lower-cased and stripped of separators.
- Verification.RunKeeps: one open modal; the opening of a new one by an unsolicited request, also over an open one, and the suppression of such requests, are not modelled.
- SearchForm.FormRoundTrip: the form's focus, sort and grouping, which the search language does not carry.
- Date formats other than month/day/year and the phrases ("last week"): parameters, since they rest on the clock and on string slicing of other formats.
- URL parsing and path normalisation of the link check: the resolution of a link is a parameter.
- HTTP and WebSocket client code, serialisation, terminal set-up and drawing, HTML sanitising and markdown, image caches, TOML merging: plumbing over other libraries.
- Moving the cursor to the start or the end of the input, key dispatch, field cycling, thumbnails and centred rectangles: finite tables and one-line arithmetic that would only add easy members.
