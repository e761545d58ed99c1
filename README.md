# rustguard: the configuration editor, modelled in Dafny

rustguard is a terminal dashboard for WireGuard profiles. Its one piece of
real logic is a small Vim-like editor for a profile's configuration file,
`EditorState` in `src/main.rs`. The editor holds a non-empty list of lines, a
`(cursor_row, cursor_col)` cursor, a Normal/Insert mode and a cheatsheet
overlay flag. It takes one key at a time and reports when the session ends:
`"saved"` (Ctrl+S) or `"cancel"` (Esc in Normal mode). This project models
that editor and proves what it does with each key. It also models two small
pieces of the dashboard: moving the selection in the profile list, and
collecting the active interfaces from the output of `wg show`.

Files and modules:

- `wrappers.dfy` (`Wrappers`): `Option`, standing in for Rust's `Option`.
- `keys.dfy` (`Keys`): a key event. It is a character with a Control flag, or
  one of the named keys the editor handles; every other key is `Other`.
- `text.dfy` (`Text`): strings as `seq<char>`, plus the Rust `str` operations
  the code relies on. These are `join("\n")`, `lines()`, `split_whitespace()`
  and `contains()`, each with its round trips.
- `editor.dfy` (`Editor`): the editor.
  - `State` is the value of everything `handle_event` reads or writes.
  - `Invariant` is the property every reachable state keeps.
  - There is one function per key action.
  - `Step` is `handle_event`, as a function from the old state and a key to
    the new state and the optional `Outcome` (`Saved` or `Cancelled`).
  - `Run` feeds a session a sequence of keys.
  - The class `EditorState` has the Rust struct's fields. The lines are a
    `seq` that the methods reassign. `HandleEvent` updates the fields in place
    and is proved to do exactly what `Step` says.
- `editor_properties.dfy` (`EditorProperties`): what the editor promises,
  proved about `Step` and `Run`. The main tool is `Pos`, the cursor's offset
  into the text a save writes (`Payload`, the lines joined by line feeds).
  In Insert mode, typing, Enter, Backspace, Left and Right behave exactly like
  a one-line editor on that text. Enter inserts a line feed at the cursor, and
  Backspace deletes the character before it. Normal-mode `h`/`l` never leave
  the line.
- `manager.dfy` (`Manager`): the selection clamp of the main screen and the
  `wg show` scan. The scan is the method `ActiveVpns`, a loop proved against
  the function `Interfaces`.

Modelling choices:

- A line is a `seq<char>`, and `cursor_col` counts characters. The source
  counts UTF-8 bytes; for ASCII text the two agree.
- `str::lines` is modelled exactly:
  - the text is split at line feeds;
  - a line that ends with a line feed loses one carriage return before it;
  - a final empty piece is dropped.

  A bare carriage return at the very end of the text is kept, as in current
  Rust.
- `split_whitespace` splits at the characters for which Rust's
  `char::is_whitespace` holds (the Unicode White_Space set).
- The string results `"saved"` and `"cancel"` become `Outcome.Saved` and
  `Outcome.Cancelled`.

## Model

| member | source | states |
|---|---|---|
| `Editor.New` | src/main.rs:174-188 | a new session satisfies the invariant: the cursor is at (0,0) in Normal mode with the cheatsheet hidden, and empty content gives exactly one empty line |
| `Editor.MoveLeft` | src/main.rs:204-208 | `h`/Left keeps the cursor inside the line |
| `Editor.MoveRight` | src/main.rs:209-215 | `l`/Right keeps the cursor inside the line, at most just past its end |
| `Editor.MoveUp` | src/main.rs:216-221 | Up/`k` keeps the cursor in bounds on the destination line |
| `Editor.MoveDown` | src/main.rs:222-227 | Down/`j` keeps the cursor in bounds on the destination line |
| `Editor.WrapLeft` | src/main.rs:309-316 | Insert-mode Left, including its wrap to the previous line, keeps the cursor in bounds |
| `Editor.WrapRight` | src/main.rs:317-326 | Insert-mode Right, including its wrap to the next line, keeps the cursor in bounds |
| `Editor.OpenLineBelow` | src/main.rs:241-247 | `o` leaves the cursor in bounds on the new line |
| `Editor.DeleteCharAt` | src/main.rs:248-254 | `x` leaves the cursor in bounds |
| `Editor.DeleteLine` | src/main.rs:255-266 | `D` keeps at least one line and leaves the cursor in bounds |
| `Editor.InsertChar` | src/main.rs:282-287 | typing a character leaves the cursor in bounds |
| `Editor.SplitLine` | src/main.rs:288-295 | Enter leaves the cursor in bounds |
| `Editor.DeleteBackward` | src/main.rs:296-308 | Backspace leaves the cursor in bounds, including when it joins two lines |
| `Editor.NormalKey` | src/main.rs:203-275 | every Normal-mode key keeps the invariant |
| `Editor.InsertKey` | src/main.rs:277-344 | every Insert-mode key keeps the invariant |
| `Editor.Step` | src/main.rs:196-347 | every key keeps the invariant: at least one line, the cursor on a line and at most past its end, and the cheatsheet only in Normal mode |
| `Editor.Run` | src/main.rs:600-617 | every state reachable by feeding keys until the session ends keeps the invariant |
| `Editor.EditorState.constructor` | src/main.rs:174-188 | builds an object whose fields equal `New(content)` and which keeps the stored profile name |
| `Editor.EditorState.HandleEvent` | src/main.rs:196-347 | updates the fields in place to exactly `Step`'s new state, returns `Step`'s outcome, and keeps the invariant |
| `Editor.EditorState.HandleNormal` | src/main.rs:203-275 | in place, performs exactly `NormalKey` |
| `Editor.EditorState.HandleInsert` | src/main.rs:278-343 | in place, performs exactly `InsertKey` |
| `Editor.EditorState.OpenBelow` | src/main.rs:241-247 | in place, performs exactly `OpenLineBelow` |
| `Editor.EditorState.DeleteUnderCursor` | src/main.rs:248-254 | in place, performs exactly `DeleteCharAt` |
| `Editor.EditorState.DeleteCursorLine` | src/main.rs:255-266 | in place, performs exactly `DeleteLine` |
| `Editor.EditorState.SplitAtCursor` | src/main.rs:288-295 | in place, performs exactly `SplitLine` |
| `Editor.EditorState.DeleteBeforeCursor` | src/main.rs:296-308 | in place, performs exactly `DeleteBackward` |
| `EditorProperties.Pos` | src/main.rs:605 | the cursor's offset lies inside the saved text, with room for the rest of the cursor's line |
| `EditorProperties.PosBounds` | src/main.rs:605 | the offset is 0 exactly at (0,0), and it equals the length of the saved text exactly at the end of the last line |
| `EditorProperties.PosDeterminesCursor` | src/main.rs:166-167 | on the same lines, as long as both cursors are in bounds, equal offsets mean equal `(row, col)` |
| `EditorProperties.PayloadSplitsBack` | src/main.rs:605 | the saved text `Payload` (the lines joined by line feeds) has the lines' characters plus one line feed between each two, and lines without line feeds are read back from it exactly |
| `EditorProperties.NewKeepsText` | src/main.rs:174-188 | content with no carriage return and no final line feed is saved back byte for byte if nothing is edited |
| `EditorProperties.NewDropsFinalNewline` | src/main.rs:178 | content ending in a line feed (and with no carriage return) loses that one line feed when saved without edits |
| `EditorProperties.NewOpensCRLF` | src/main.rs:174-188 | a profile in which every line, the last one included, ends with CRLF opens as its lines without the carriage returns |
| `EditorProperties.RunTwo` | src/main.rs:600-602 | feeding two keys is one step and then, unless that step ended the session, another |
| `EditorProperties.RunAppend` | src/main.rs:600-617 | once a session has ended, later keys change nothing; otherwise feeding more keys continues from the state reached |
| `EditorProperties.CheatsheetSwallowsKey` | src/main.rs:199-202 | while the cheatsheet is shown, any key only hides it (lines, cursor and mode unchanged, no outcome) |
| `EditorProperties.CheatsheetRoundTrip` | src/main.rs:267-269 | `?` shows the cheatsheet and changes nothing else; the next key, whatever it is, restores the earlier state |
| `EditorProperties.CheatsheetOnlyFromQuestionMark` | src/main.rs:267-269 | starting with the cheatsheet hidden, a key shows it if and only if the mode is Normal and the key is `?` |
| `EditorProperties.Outcomes` | src/main.rs:270-273 | both directions: the outcome is `Saved` exactly for Ctrl+S, and `Cancelled` exactly for Esc in Normal mode, neither while the cheatsheet is shown; a key that ends the session changes nothing |
| `EditorProperties.EscLeavesInsert` | src/main.rs:279-281 | Esc in Insert mode only switches to Normal mode and ends nothing |
| `EditorProperties.PlainSIgnored` | src/main.rs:270-274 | `s` without Control does nothing in Normal mode |
| `EditorProperties.NormalOtherKeysIgnored` | src/main.rs:274 | in Normal mode, every key without a command (Enter, Backspace, unmodelled keys, characters other than `h l k j i a o x D ?` and Ctrl+S) leaves the state unchanged and ends nothing |
| `EditorProperties.DeleteLineSpec` | src/main.rs:255-266 | with several lines, `D` removes exactly the cursor's line and keeps the others in order, then clamps the row to the new last line and the column to that line's length; with one line it clears it and sets column 0 |
| `EditorProperties.OpenLineSpec` | src/main.rs:241-247 | `o` inserts exactly one empty line right after the cursor's line and keeps every other line in order; the cursor goes to (row+1, 0) in Insert mode |
| `EditorProperties.OpenLineAddsLineFeed` | src/main.rs:241-247 | `o` inserts one line feed into the saved text at the end of the cursor's line and puts the cursor just after it |
| `EditorProperties.DeleteCharSpec` | src/main.rs:248-254 | `x` deletes the character at the cursor from its line and from the saved text; the cursor, the mode (Normal), the hidden cheatsheet and every other line stay; at the end of a line it changes nothing |
| `EditorProperties.TypeCharSpec` | src/main.rs:282-287 | a character typed without Control goes into the saved text at the cursor, and the cursor moves one past it; the line becomes `prefix + [c] + suffix` and no other line changes |
| `EditorProperties.ControlCharIgnored` | src/main.rs:282-287 | in Insert mode, a Control-modified character other than `s` is not inserted and changes nothing |
| `EditorProperties.InsertOtherKeysIgnored` | src/main.rs:342 | in Insert mode, unmodelled keys and Control-modified characters other than Ctrl+S leave the state unchanged and end nothing |
| `EditorProperties.EnterSpec` | src/main.rs:288-295 | Enter inserts a line feed into the saved text at the cursor; the line becomes its prefix and, right below it, its suffix; the lines before and after keep their order; the cursor goes to (row+1, 0) |
| `EditorProperties.BackspaceWithinLine` | src/main.rs:297-301 | Backspace not at column 0 removes the character before the cursor from its line (row kept, column minus one, every other line unchanged) and from the saved text, and moves the offset back by one |
| `EditorProperties.BackspaceJoinsLine` | src/main.rs:302-307 | Backspace at column 0 below the first line appends the line to the one above, moves the later lines up by one, puts the cursor at (row-1, old length of the line above), and deletes the line feed before the cursor from the saved text |
| `EditorProperties.DeleteBackwardJoinShape` | src/main.rs:302-307 | a backward delete at column 0 below the first line leaves lines `before ++ [above + line] ++ after` and the cursor at (row-1, length of `above`) |
| `EditorProperties.BackspaceSpec` | src/main.rs:296-308 | Backspace in Insert mode: inside a line it removes the character before the cursor (row kept, column minus one, other lines unchanged); at column 0 below the first line it joins the line onto the one above with the cursor at the join; either way the saved text loses the character before the offset, which moves back by one; at (0,0) nothing changes |
| `EditorProperties.SplitThenDeleteBackward` | src/main.rs:288-307 | a backward delete right after a line split restores the state before the split, for any cursor in bounds |
| `EditorProperties.DeleteBackwardThenSplit` | src/main.rs:288-307 | a split right after a backward delete that joined two lines restores the two lines and the cursor |
| `EditorProperties.InsertThenDeleteBackward` | src/main.rs:282-301 | a backward delete right after inserting a character restores the state before it |
| `EditorProperties.EnterThenBackspace` | src/main.rs:288-307 | Backspace right after Enter restores exactly the state before Enter |
| `EditorProperties.BackspaceThenEnter` | src/main.rs:288-307 | Enter right after a Backspace that joined two lines restores exactly the state before the Backspace |
| `EditorProperties.TypeThenBackspace` | src/main.rs:282-301 | Backspace right after typing a character restores exactly the earlier state |
| `EditorProperties.VerticalMoves` | src/main.rs:216-227 | Up/Down in either mode, and `k`/`j` in Normal mode, move one line when there is one and clamp the column to the destination line's length; the lines and mode are unchanged |
| `EditorProperties.NormalHorizontalStaysOnLine` | src/main.rs:204-215 | Normal-mode `h`/`l`/Left/Right change only the column (lines, row, mode and cheatsheet are kept); they move one column, stopping at either end of the line |
| `EditorProperties.AppendAndInsert` | src/main.rs:228-240 | `a` moves right by one only if the cursor is before the end of the line, then enters Insert mode; `i` only enters Insert mode |
| `EditorProperties.WrapLeftPos` | src/main.rs:309-316 | Insert-mode Left moves the offset back by one (never below 0), wrapping to the end of the previous line from column 0, and keeps the lines |
| `EditorProperties.WrapRightPos` | src/main.rs:317-326 | Insert-mode Right moves the offset on by one (never past the end of the text), wrapping to the start of the next line from the end of a line, and keeps the lines |
| `EditorProperties.InsertHorizontalMoves` | src/main.rs:309-326 | Insert-mode Left/Right move one character through the saved text, wrapping across line ends: Left at column 0 goes to the end of the previous line, Right at end of line goes to (row+1, 0) |
| `EditorProperties.AppendAtEndThenType` | src/main.rs:232-287 | example: `a` at the end of `abc` stays at column 3 in Insert mode, and typing `d` gives `abcd` with the cursor at (0,4) |
| `EditorProperties.OpenBetweenLines` | src/main.rs:241-247 | example: `o` on `["ab","cd"]` at (0,2) gives `["ab","","cd"]` with the cursor at (1,0) in Insert mode |
| `EditorProperties.DeleteOnlyLine` | src/main.rs:262-265 | example: `D` on `["hello"]` gives `[""]` with the cursor at (0,0) |
| `EditorProperties.BackspaceJoinsLines` | src/main.rs:302-307 | example: Backspace on `["ab","cd"]` at (1,0) gives `["abcd"]` with the cursor at (0,2) |
| `Text.Split` | src/main.rs:178 | the pieces contain no line feed, there is at least one, and joining them with line feeds gives back the text |
| `Text.JoinLength` | src/main.rs:605 | `join` (`JoinWith`, and `Join` for line feeds) keeps every character of the parts and adds one separator fewer than there are parts; no parts give the empty text |
| `Text.JoinAt` | src/main.rs:605 | in the joined text every part sits between what precedes it (the earlier parts, each followed by a separator) and what follows it |
| `Text.StripCR` | src/main.rs:178 | removes the final character exactly when it is a carriage return, and otherwise returns the line unchanged |
| `Text.StripCRAppended` | src/main.rs:178 | undoes appending one carriage return |
| `Text.Lines` | src/main.rs:175-179 | non-empty content has at least one line, and no line contains a line feed |
| `Text.JoinInjective` | src/main.rs:605 | two line-feed-free line lists with the same joined text are equal |
| `Text.SplitJoin` | src/main.rs:605 | splitting the joined text of line-feed-free lines gives back the lines |
| `Text.LinesJoin` | src/main.rs:178 | `lines()` followed by `join("\n")` gives back text that has no carriage return and does not end with a line feed |
| `Text.LinesDropFinalNewline` | src/main.rs:178 | on such text ending in a line feed, the round trip loses only that final line feed |
| `Text.LinesOfTerminated` | src/main.rs:178 | on text made of pieces each ended by a line feed, the lines are exactly the pieces, each with one trailing carriage return removed |
| `Text.LinesCRLF` | src/main.rs:178 | text in which every line, the last one included, ends with CRLF opens as exactly its lines, without the carriage returns |
| `Text.LinesCRLFUnterminated` | src/main.rs:178 | CRLF text whose last line has no line break opens as the terminated lines without their carriage returns, followed by the last line as it is |
| `Text.LinesLF` | src/main.rs:178 | text with LF line endings opens as exactly its lines when no line ends with a carriage return, so CRLF and LF files open alike |
| `Text.LinesCRLFExample` | src/main.rs:178 | `"a\r\nb"` opens as `["a", "b"]` |
| `Text.LinesBareCRExample` | src/main.rs:178 | `"a\r"` opens as `["a\r"]`: a bare carriage return at the end stays |
| `Text.LinesLoneCRLFExample` | src/main.rs:178 | `"\r\n"` opens as one empty line |
| `Text.LeadingWord` | src/main.rs:136 | the longest prefix without whitespace: non-empty, whitespace-free, and ending at the text's end or at a whitespace character |
| `Text.Words` | src/main.rs:136 | every piece `split_whitespace` returns is non-empty and contains no whitespace |
| `Text.WordsJoin` | src/main.rs:136 | splitting words that were joined by a whitespace character gives back the words |
| `Text.WordsSkipSpace` | src/main.rs:136 | leading whitespace of any length contributes no word |
| `Text.WordsAfterWord` | src/main.rs:136 | a word followed by whitespace or by nothing is the first word, and splitting goes on after it |
| `Text.WordsSpaced` | src/main.rs:136 | words separated by non-empty whitespace runs of any length, with any whitespace before and after, split into exactly those words |
| `Text.WhitespaceAscii` | src/main.rs:136 | `char::is_whitespace`, as `IsWhitespace`: on ASCII it holds for exactly space, tab, line feed, vertical tab, form feed and carriage return; no-break space is whitespace too |
| `Text.Contains` | src/main.rs:135 | true exactly when the pattern occurs at some index of the line |
| `Manager.Select` | src/main.rs:564-569 | the selection stays a valid index (or 0 for an empty list), and Up/`k` and Down/`j` move it by at most one |
| `Manager.SelectRepeated` | src/main.rs:564-569 | any number of presses keeps the selection a valid index |
| `Manager.DownClamps` | src/main.rs:567-569 | n presses of Down from index i select i+n, or the last entry if there are fewer |
| `Manager.UpClamps` | src/main.rs:564-566 | n presses of Up from index i select i-n, or the top entry |
| `Manager.Interfaces` | src/main.rs:134-140 | at most one name per line, and each name is a non-empty whitespace-free word |
| `Manager.InterfaceOf` | src/main.rs:135-138 | a line yields a name exactly when it contains `interface:` and has at least two words; the name is then one of its words and whitespace-free |
| `Manager.InterfacesAppend` | src/main.rs:134-140 | the scan works line by line: the result for a concatenation of outputs is the concatenation of the results |
| `Manager.InterfacesListed` | src/main.rs:134-140 | a name is collected if and only if some line contains `interface:` and has that name as its second word |
| `Manager.HeaderNamesInterface` | src/main.rs:135-137 | the header line `interface: <name>` yields exactly `<name>` |
| `Manager.ActiveVpns` | src/main.rs:126-142 | the loop collects exactly `Interfaces(Lines(output))`, the names of the output's lines in order |

## Left out

- Terminal rendering and layout are not modelled, because they are output only with no effect on the editor's state. This covers `centered_rect`, the `terminal.draw` closure, the cheatsheet and help text, and the `execute!(…, cursor::Show/Hide)` calls inside `handle_event`.
- Event polling and reading (`event::poll`, `event::read`) are not modelled. Keys are the input parameters of `Step`, `Run` and `HandleEvent`. Press and release kinds are not distinguished: every event that reaches `handle_event` is one key.
- The file system and logging are not modelled: reading the profile, `fs::write` on save and its error report, `log_status`, `list_vpn_profiles`, `config_path` and `log_file_path`. The text a save writes is modelled as `Editor.Payload`, the lines joined by line feeds.
- External processes are not modelled: `toggle_vpn` and `get_vpn_details` (`sudo wg-quick`, `wg show <interface>`). For `get_active_vpns`, only the scan of the captured output is modelled; running `wg show` is not.
- `EditorState::profile` is kept as an opaque string that never changes. Nothing in the editor reads it.
- The screen switching of the main loop (Manager, Status, Help, Details) is not modelled, apart from the selection moves and feeding keys to the editor (`Editor.Run`).
- Byte offsets are not modelled: a cursor column counts characters. The source's `String::insert`/`remove`/`split_off` work on UTF-8 byte offsets and panic inside a multi-byte character; the model treats every character as one unit, so it has no such panic.
- `String::from_utf8_lossy` (replacing invalid UTF-8 in `wg show` output) is not modelled: the output is given as characters.
