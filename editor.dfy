/** The modal line editor of the configuration screen (`EditorState` in
    src/main.rs): a non-empty list of lines, a cursor, a Normal/Insert mode and
    a cheatsheet overlay, fed one key at a time.

    `State` and `Step` are the editor's behaviour as values; `EditorState` is
    the object the dashboard owns, whose `HandleEvent` updates its fields in
    place and is proved to do exactly what `Step` says. */
module Editor {

  import opened Wrappers
  import opened Text
  import opened Keys

  datatype Mode = Normal | Insert

  /** What ends an edit session: the `"saved"` and `"cancel"` results. */
  datatype Outcome = Saved | Cancelled

  /** Everything `handle_event` reads or writes. */
  datatype State = State(lines: seq<String>, row: nat, col: nat, mode: Mode, cheatsheet: bool)

  function Min(a: nat, b: nat): nat
  {
    if a <= b then a else b
  }

  /** There is a line, the cursor is on one, and at most one past its last
      character. */
  predicate CursorInBounds(s: State)
  {
    |s.lines| >= 1 && s.row < |s.lines| && s.col <= |s.lines[s.row]|
  }

  /** The invariant of every reachable state: the cursor is in bounds, and the
      cheatsheet is only ever shown in Normal mode. */
  predicate Invariant(s: State)
  {
    CursorInBounds(s) && (s.cheatsheet ==> s.mode == Normal)
  }

  /** The line under the cursor. */
  function Line(s: State): String
    requires CursorInBounds(s)
  {
    s.lines[s.row]
  }

  /** A fresh session on the text of a profile: the text's lines, or one
      empty line for an empty text, with the cursor at the top left. */
  function New(content: String): (s: State)
    ensures Invariant(s)
    ensures s.row == 0 && s.col == 0 && s.mode == Normal && !s.cheatsheet
    ensures content == [] ==> s.lines == [[]]
  {
    State(if content == [] then [[]] else Lines(content), 0, 0, Normal, false)
  }

  /** What the dashboard writes back to the profile on save. */
  function Payload(s: State): String
  {
    Join(s.lines)
  }

  // ---------------------------------------------------------------------------
  // Cursor movement

  /** One column left, stopping at column 0. */
  function MoveLeft(s: State): (r: State)
    requires CursorInBounds(s)
    ensures CursorInBounds(r)
  {
    if s.col > 0 then s.(col := s.col - 1) else s
  }

  /** One column right, stopping just past the last character. */
  function MoveRight(s: State): (r: State)
    requires CursorInBounds(s)
    ensures CursorInBounds(r)
  {
    if s.col < |Line(s)| then s.(col := s.col + 1) else s
  }

  /** One line up, pulling the column back onto a shorter line. */
  function MoveUp(s: State): (r: State)
    requires CursorInBounds(s)
    ensures CursorInBounds(r)
  {
    if s.row > 0 then s.(row := s.row - 1, col := Min(s.col, |s.lines[s.row - 1]|)) else s
  }

  /** One line down, pulling the column back onto a shorter line. */
  function MoveDown(s: State): (r: State)
    requires CursorInBounds(s)
    ensures CursorInBounds(r)
  {
    if s.row + 1 < |s.lines| then s.(row := s.row + 1, col := Min(s.col, |s.lines[s.row + 1]|)) else s
  }

  /** Insert-mode Left: as `MoveLeft`, but from column 0 to the end of the
      previous line. */
  function WrapLeft(s: State): (r: State)
    requires CursorInBounds(s)
    ensures CursorInBounds(r)
  {
    if s.col > 0 then s.(col := s.col - 1)
    else if s.row > 0 then s.(row := s.row - 1, col := |s.lines[s.row - 1]|)
    else s
  }

  /** Insert-mode Right: as `MoveRight`, but from the end of a line to the start
      of the next one. */
  function WrapRight(s: State): (r: State)
    requires CursorInBounds(s)
    ensures CursorInBounds(r)
  {
    if s.col < |Line(s)| then s.(col := s.col + 1)
    else if s.row + 1 < |s.lines| then s.(row := s.row + 1, col := 0)
    else s
  }

  // ---------------------------------------------------------------------------
  // Edits

  /** `o`: a new empty line below the cursor's, entered in Insert mode. */
  function OpenLineBelow(s: State): (r: State)
    requires CursorInBounds(s)
    ensures CursorInBounds(r)
  {
    var at := s.row + 1;
    s.(lines := s.lines[..at] + [[]] + s.lines[at..], row := at, col := 0, mode := Insert)
  }

  /** `x`: the character under the cursor removed, if there is one. */
  function DeleteCharAt(s: State): (r: State)
    requires CursorInBounds(s)
    ensures CursorInBounds(r)
  {
    var line := Line(s);
    if s.col < |line| then s.(lines := s.lines[s.row := line[..s.col] + line[s.col + 1..]])
    else s
  }

  /** `D`: the cursor's line removed, or cleared when it is the only one. */
  function DeleteLine(s: State): (r: State)
    requires CursorInBounds(s)
    ensures CursorInBounds(r)
  {
    if |s.lines| > 1 then
      var lines := s.lines[..s.row] + s.lines[s.row + 1..];
      var row := if s.row >= |lines| then |lines| - 1 else s.row;
      s.(lines := lines, row := row, col := Min(s.col, |lines[row]|))
    else
      s.(lines := s.lines[0 := []], col := 0)
  }

  /** A typed character, inserted before the cursor. */
  function InsertChar(s: State, c: char): (r: State)
    requires CursorInBounds(s)
    ensures CursorInBounds(r)
  {
    var line := Line(s);
    s.(lines := s.lines[s.row := line[..s.col] + [c] + line[s.col..]], col := s.col + 1)
  }

  /** Enter: the cursor's line cut in two at the cursor, the cursor at the start
      of the second half. */
  function SplitLine(s: State): (r: State)
    requires CursorInBounds(s)
    ensures CursorInBounds(r)
  {
    var line := Line(s);
    s.(lines := s.lines[..s.row] + [line[..s.col], line[s.col..]] + s.lines[s.row + 1..],
       row := s.row + 1, col := 0)
  }

  /** Backspace: the character before the cursor removed; at the start of a line,
      that line appended to the previous one instead. */
  function DeleteBackward(s: State): (r: State)
    requires CursorInBounds(s)
    ensures CursorInBounds(r)
  {
    var line := Line(s);
    if s.col > 0 then
      s.(lines := s.lines[s.row := line[..s.col - 1] + line[s.col..]], col := s.col - 1)
    else if s.row > 0 then
      var above := s.lines[s.row - 1];
      s.(lines := s.lines[..s.row - 1] + [above + line] + s.lines[s.row + 1..],
         row := s.row - 1, col := |above|)
    else s
  }

  // ---------------------------------------------------------------------------
  // Key dispatch

  /** A key in Normal mode while the cheatsheet is hidden. */
  function NormalKey(s: State, key: Key): (r: (State, Option<Outcome>))
    requires Invariant(s) && s.mode == Normal && !s.cheatsheet
    ensures Invariant(r.0)
  {
    match key
    case Char('h', _) | Left => (MoveLeft(s), None)
    case Char('l', _) | Right => (MoveRight(s), None)
    case Char('k', _) | Up => (MoveUp(s), None)
    case Char('j', _) | Down => (MoveDown(s), None)
    case Char('i', _) => (s.(mode := Insert), None)
    case Char('a', _) => (MoveRight(s).(mode := Insert), None)
    case Char('o', _) => (OpenLineBelow(s), None)
    case Char('x', _) => (DeleteCharAt(s), None)
    case Char('D', _) => (DeleteLine(s), None)
    case Char('?', _) => (s.(cheatsheet := !s.cheatsheet), None)
    case Char('s', true) => (s, Some(Saved))
    case Esc => (s, Some(Cancelled))
    case _ => (s, None)
  }

  /** A key in Insert mode. */
  function InsertKey(s: State, key: Key): (r: (State, Option<Outcome>))
    requires Invariant(s) && s.mode == Insert
    ensures Invariant(r.0)
  {
    match key
    case Esc => (s.(mode := Normal), None)
    case Char(c, false) => (InsertChar(s, c), None)
    case Enter => (SplitLine(s), None)
    case Backspace => (DeleteBackward(s), None)
    case Left => (WrapLeft(s), None)
    case Right => (WrapRight(s), None)
    case Up => (MoveUp(s), None)
    case Down => (MoveDown(s), None)
    case Char('s', true) => (s, Some(Saved))
    case _ => (s, None)
  }

  /** `handle_event`: the state after one key, and the session's outcome if the
      key ends it. A shown cheatsheet swallows the key and hides itself. */
  function Step(s: State, key: Key): (r: (State, Option<Outcome>))
    requires Invariant(s)
    ensures Invariant(r.0)
  {
    match s.mode
    case Normal => if s.cheatsheet then (s.(cheatsheet := false), None) else NormalKey(s, key)
    case Insert => InsertKey(s, key)
  }

  /** A session fed `keys` one at a time until one of them ends it: the final
      state, and the outcome if the session ended. */
  function Run(s: State, keys: seq<Key>): (r: (State, Option<Outcome>))
    requires Invariant(s)
    ensures Invariant(r.0)
    decreases |keys|
  {
    if keys == [] then (s, None)
    else
      var (next, outcome) := Step(s, keys[0]);
      if outcome.Some? then (next, outcome) else Run(next, keys[1..])
  }

  // ---------------------------------------------------------------------------
  // The editor object

  class EditorState {
    const profile: String
    var lines: seq<String>
    var cursorRow: nat
    var cursorCol: nat
    var mode: Mode
    var showCheatsheet: bool

    ghost function Value(): State
      reads this
    {
      State(lines, cursorRow, cursorCol, mode, showCheatsheet)
    }

    ghost predicate Valid()
      reads this
    {
      Invariant(Value())
    }

    constructor (profile: String, content: String)
      ensures Valid()
      ensures this.profile == profile && Value() == New(content)
    {
      this.profile := profile;
      lines := if content == [] then [[]] else Lines(content);
      cursorRow, cursorCol := 0, 0;
      mode := Normal;
      showCheatsheet := false;
    }

    /** Applies `key` to this editor in place; `result` is the outcome when the
        key ends the session. */
    method HandleEvent(key: Key) returns (result: Option<Outcome>)
      requires Valid()
      modifies this
      ensures Valid()
      ensures (Value(), result) == Step(old(Value()), key)
    {
      if mode == Normal {
        if showCheatsheet {
          showCheatsheet := false;
          return None;
        }
        result := HandleNormal(key);
      } else {
        result := HandleInsert(key);
      }
    }

    /** `handle_event` in Normal mode with the cheatsheet hidden. */
    method HandleNormal(key: Key) returns (result: Option<Outcome>)
      requires Valid() && mode == Normal && !showCheatsheet
      modifies this
      ensures Valid()
      ensures (Value(), result) == NormalKey(old(Value()), key)
    {
      result := None;
      match key {
        case Char('h', _) | Left =>
          if cursorCol > 0 {
            cursorCol := cursorCol - 1;
          }
        case Char('l', _) | Right =>
          if cursorCol < |lines[cursorRow]| {
            cursorCol := cursorCol + 1;
          }
        case Char('k', _) | Up =>
          if cursorRow > 0 {
            cursorRow := cursorRow - 1;
            cursorCol := Min(cursorCol, |lines[cursorRow]|);
          }
        case Char('j', _) | Down =>
          if cursorRow + 1 < |lines| {
            cursorRow := cursorRow + 1;
            cursorCol := Min(cursorCol, |lines[cursorRow]|);
          }
        case Char('i', _) =>
          mode := Insert;
        case Char('a', _) =>
          if cursorCol < |lines[cursorRow]| {
            cursorCol := cursorCol + 1;
          }
          mode := Insert;
        case Char('o', _) =>
          OpenBelow();
        case Char('x', _) =>
          DeleteUnderCursor();
        case Char('D', _) =>
          DeleteCursorLine();
        case Char('?', _) =>
          showCheatsheet := !showCheatsheet;
        case Char('s', true) =>
          result := Some(Saved);
        case Esc =>
          result := Some(Cancelled);
        case _ =>
      }
    }

    /** `handle_event` in Insert mode. */
    method HandleInsert(key: Key) returns (result: Option<Outcome>)
      requires Valid() && mode == Insert
      modifies this
      ensures Valid()
      ensures (Value(), result) == InsertKey(old(Value()), key)
    {
      result := None;
      match key {
        case Esc =>
          mode := Normal;
        case Char(c, false) =>
          var line := lines[cursorRow];
          lines := lines[cursorRow := line[..cursorCol] + [c] + line[cursorCol..]];
          cursorCol := cursorCol + 1;
        case Enter =>
          SplitAtCursor();
        case Backspace =>
          DeleteBeforeCursor();
        case Left =>
          if cursorCol > 0 {
            cursorCol := cursorCol - 1;
          } else if cursorRow > 0 {
            cursorRow := cursorRow - 1;
            cursorCol := |lines[cursorRow]|;
          }
        case Right =>
          if cursorCol < |lines[cursorRow]| {
            cursorCol := cursorCol + 1;
          } else if cursorRow + 1 < |lines| {
            cursorRow := cursorRow + 1;
            cursorCol := 0;
          }
        case Up =>
          if cursorRow > 0 {
            cursorRow := cursorRow - 1;
            cursorCol := Min(cursorCol, |lines[cursorRow]|);
          }
        case Down =>
          if cursorRow + 1 < |lines| {
            cursorRow := cursorRow + 1;
            cursorCol := Min(cursorCol, |lines[cursorRow]|);
          }
        case Char('s', true) =>
          result := Some(Saved);
        case _ =>
      }
    }

    /** `o`: an empty line opened below the cursor's, entered in Insert mode. */
    method OpenBelow()
      requires Valid() && !showCheatsheet
      modifies this
      ensures Valid()
      ensures Value() == OpenLineBelow(old(Value()))
    {
      cursorRow := cursorRow + 1;
      lines := lines[..cursorRow] + [[]] + lines[cursorRow..];
      cursorCol := 0;
      mode := Insert;
    }

    /** `x`: the character under the cursor removed. */
    method DeleteUnderCursor()
      requires Valid()
      modifies this
      ensures Valid()
      ensures Value() == DeleteCharAt(old(Value()))
    {
      var line := lines[cursorRow];
      if cursorCol < |line| {
        lines := lines[cursorRow := line[..cursorCol] + line[cursorCol + 1..]];
      }
    }

    /** `D`: the cursor's line removed, or cleared when it is the only one. */
    method DeleteCursorLine()
      requires Valid()
      modifies this
      ensures Valid()
      ensures Value() == DeleteLine(old(Value()))
    {
      if |lines| > 1 {
        lines := lines[..cursorRow] + lines[cursorRow + 1..];
        if cursorRow >= |lines| {
          cursorRow := |lines| - 1;
        }
        cursorCol := Min(cursorCol, |lines[cursorRow]|);
      } else {
        lines := lines[0 := []];
        cursorCol := 0;
      }
    }

    /** Enter in Insert mode: the line cut in two at the cursor. */
    method SplitAtCursor()
      requires Valid()
      modifies this
      ensures Valid()
      ensures Value() == SplitLine(old(Value()))
    {
      ghost var before := lines;
      var line := lines[cursorRow];
      var newLine := line[cursorCol..];
      lines := lines[cursorRow := line[..cursorCol]];
      lines := lines[..cursorRow + 1] + [newLine] + lines[cursorRow + 1..];
      assert lines == before[..cursorRow] + [line[..cursorCol], newLine] + before[cursorRow + 1..];
      cursorRow := cursorRow + 1;
      cursorCol := 0;
    }

    /** Backspace in Insert mode: the character before the cursor removed, or
        the line joined to the one above. */
    method DeleteBeforeCursor()
      requires Valid()
      modifies this
      ensures Valid()
      ensures Value() == DeleteBackward(old(Value()))
    {
      if cursorCol > 0 {
        var line := lines[cursorRow];
        lines := lines[cursorRow := line[..cursorCol - 1] + line[cursorCol..]];
        cursorCol := cursorCol - 1;
      } else if cursorRow > 0 {
        ghost var before := lines;
        var currentLine := lines[cursorRow];
        lines := lines[..cursorRow] + lines[cursorRow + 1..];
        cursorRow := cursorRow - 1;
        cursorCol := |lines[cursorRow]|;
        lines := lines[cursorRow := lines[cursorRow] + currentLine];
        assert lines == before[..cursorRow] + [before[cursorRow] + currentLine] + before[cursorRow + 2..];
      }
    }
  }
}
