/** What the editor promises, stated about `Editor.Step` and `Editor.Run`.

    The central view: the cursor is an offset `Pos` into the text that a save
    writes (`Payload`, the lines joined by line feeds). In Insert mode typing,
    Enter, Backspace, Left and Right then act exactly as a one-line editor does
    on that text, while Normal mode never moves across a line boundary. */
module EditorProperties {

  import opened Wrappers
  import opened Text
  import opened Keys
  import opened Editor

  /** The cursor's offset in the saved text. */
  function Pos(s: State): (p: nat)
    requires CursorInBounds(s)
    ensures p - s.col + |Line(s)| <= |Payload(s)|
  {
    JoinAt(s.lines, s.row, '\n');
    |JoinBefore(s.lines, s.row, '\n')| + s.col
  }

  /** The saved text around the cursor's line. */
  lemma Around(s: State)
    requires CursorInBounds(s)
    ensures Payload(s) == JoinBefore(s.lines, s.row, '\n') + Line(s) + JoinAfter(s.lines, s.row, '\n')
  {
    JoinAt(s.lines, s.row, '\n');
  }

  /** The cursor never points past the end of the saved text, and it is at
      its start exactly at the top left. */
  lemma PosBounds(s: State)
    requires CursorInBounds(s)
    ensures Pos(s) <= |Payload(s)|
    ensures Pos(s) == 0 <==> s.row == 0 && s.col == 0
    ensures Pos(s) == |Payload(s)| <==> s.row + 1 == |s.lines| && s.col == |Line(s)|
  {
    Around(s);
  }

  /** What precedes a later line is longer than what precedes an earlier one
      by at least the earlier line and its separator. */
  lemma {:induction false} JoinBeforeGrows(lines: seq<String>, a: nat, b: nat)
    requires a < b < |lines|
    ensures |JoinBefore(lines, b, '\n')| >= |JoinBefore(lines, a, '\n')| + |lines[a]| + 1
    decreases b - a
  {
    JoinBeforeNext(lines, a, '\n');
    if a + 1 < b {
      JoinBeforeGrows(lines, a + 1, b);
    }
  }

  /** On the same lines, the offset determines the cursor: `Pos` loses nothing. */
  lemma PosDeterminesCursor(s: State, t: State)
    requires CursorInBounds(s) && CursorInBounds(t)
    requires s.lines == t.lines && Pos(s) == Pos(t)
    ensures s.row == t.row && s.col == t.col
  {
    if s.row < t.row {
      JoinBeforeGrows(s.lines, s.row, t.row);
    } else if t.row < s.row {
      JoinBeforeGrows(s.lines, t.row, s.row);
    }
  }

  // ---------------------------------------------------------------------------
  // Construction and the invariant

  /** A profile without carriage returns or a final line feed opens with
      exactly its text: saving straight away writes it back unchanged. */
  lemma NewKeepsText(content: String)
    requires '\r' !in content
    requires content == [] || content[|content| - 1] != '\n'
    ensures Payload(New(content)) == content
  {
    if content != [] {
      LinesJoin(content);
    }
  }

  /** A profile written with CRLF line endings opens as the same lines as
      with LF endings: each line without its carriage return. */
  lemma NewOpensCRLF(lines: seq<String>)
    requires |lines| >= 1
    requires forall i :: 0 <= i < |lines| ==> '\n' !in lines[i]
    ensures New(Join(WithCR(lines)) + ['\n']).lines == lines
  {
    LinesCRLF(lines);
  }

  /** The saved text holds every character of the lines plus one line feed
      between each two, and lines without line feeds are read back from it
      exactly. */
  lemma PayloadSplitsBack(s: State)
    requires |s.lines| >= 1
    ensures |Payload(s)| == TotalLength(s.lines) + |s.lines| - 1
    ensures (forall i :: 0 <= i < |s.lines| ==> '\n' !in s.lines[i]) ==> Split(Payload(s)) == s.lines
  {
    JoinLength(s.lines, '\n');
    if forall i :: 0 <= i < |s.lines| ==> '\n' !in s.lines[i] {
      SplitJoin(s.lines);
    }
  }

  /** A profile that ends with a line feed (and has no carriage return) loses
      that line feed when it is saved without edits. */
  lemma NewDropsFinalNewline(content: String)
    requires '\r' !in content
    requires |content| > 0 && content[|content| - 1] == '\n'
    ensures Payload(New(content)) + ['\n'] == content
  {
    LinesDropFinalNewline(content);
  }

  /** A session fed two keys. */
  lemma RunTwo(s: State, first: Key, second: Key)
    requires Invariant(s)
    ensures var (t, outcome) := Step(s, first);
      Run(s, [first, second]) == if outcome.Some? then (t, outcome) else Step(t, second)
  {
    var (t, outcome) := Step(s, first);
    assert [first, second][1..] == [second];
    assert Run(t, [second]) == Step(t, second) by {
      assert [second][1..] == [];
    }
  }

  /** Feeding one more batch of keys: a session that has ended takes no more
      input, and one that has not continues from where it stopped. */
  lemma {:induction false} RunAppend(s: State, keys: seq<Key>, more: seq<Key>)
    requires Invariant(s)
    ensures var (t, outcome) := Run(s, keys);
      Run(s, keys + more) == if outcome.Some? then (t, outcome) else Run(t, more)
    decreases |keys|
  {
    if keys != [] {
      assert (keys + more)[0] == keys[0];
      assert (keys + more)[1..] == keys[1..] + more;
      var (next, outcome) := Step(s, keys[0]);
      if outcome.None? {
        RunAppend(next, keys[1..], more);
      }
    } else {
      assert keys + more == more;
    }
  }

  // ---------------------------------------------------------------------------
  // The cheatsheet overlay

  /** While the cheatsheet is shown, any key only hides it. */
  lemma CheatsheetSwallowsKey(s: State, key: Key)
    requires Invariant(s) && s.mode == Normal && s.cheatsheet
    ensures Step(s, key) == (s.(cheatsheet := false), None)
  {
  }

  /** `?` shows the cheatsheet and changes nothing else; the next key, whatever
      it is, hides it again, which gives back the state before `?`. */
  lemma CheatsheetRoundTrip(s: State, ctrl: bool, key: Key)
    requires Invariant(s) && s.mode == Normal && !s.cheatsheet
    ensures Step(s, Char('?', ctrl)) == (s.(cheatsheet := true), None)
    ensures Run(s, [Char('?', ctrl), key]) == (s, None)
  {
    RunTwo(s, Char('?', ctrl), key);
  }

  /** Only `?` in Normal mode shows the cheatsheet. */
  lemma CheatsheetOnlyFromQuestionMark(s: State, key: Key)
    requires Invariant(s) && !s.cheatsheet
    ensures Step(s, key).0.cheatsheet <==> s.mode == Normal && key.Char? && key.c == '?'
  {
  }

  // ---------------------------------------------------------------------------
  // Outcomes

  /** Which keys end the session, in both directions: Ctrl+S saves in both
      modes, Esc cancels only in Normal mode, neither while the cheatsheet is
      shown, and a key that ends the session changes nothing. */
  lemma Outcomes(s: State, key: Key)
    requires Invariant(s)
    ensures var open := !(s.mode == Normal && s.cheatsheet);
      (Step(s, key).1 == Some(Saved) <==> open && key == Char('s', true)) &&
      (Step(s, key).1 == Some(Cancelled) <==> open && s.mode == Normal && key == Esc)
    ensures Step(s, key).1.Some? ==> Step(s, key).0 == s
  {
  }

  /** Esc in Insert mode returns to Normal mode and does nothing else. */
  lemma EscLeavesInsert(s: State)
    requires Invariant(s) && s.mode == Insert
    ensures Step(s, Esc) == (s.(mode := Normal), None)
  {
  }

  /** A plain `s` is not a command in Normal mode. */
  lemma PlainSIgnored(s: State)
    requires Invariant(s) && s.mode == Normal && !s.cheatsheet
    ensures Step(s, Char('s', false)) == (s, None)
  {
  }

  /** Every key Normal mode has no command for changes nothing: Enter,
      Backspace, keys outside the model, and every character other than the
      commands `h l k j i a o x D ?` and Ctrl+S. */
  lemma NormalOtherKeysIgnored(s: State, key: Key)
    requires Invariant(s) && s.mode == Normal && !s.cheatsheet
    requires key !in {Left, Right, Up, Down, Esc}
    requires !(key.Char? && key.c in {'h', 'l', 'k', 'j', 'i', 'a', 'o', 'x', 'D', '?'})
    requires key != Char('s', true)
    ensures Step(s, key) == (s, None)
  {
  }

  /** Every key Insert mode has no command for changes nothing: keys outside
      the model, and Control-modified characters other than Ctrl+S. */
  lemma InsertOtherKeysIgnored(s: State, key: Key)
    requires Invariant(s) && s.mode == Insert
    requires key == Other || (key.Char? && key.ctrl && key.c != 's')
    ensures Step(s, key) == (s, None)
  {
  }

  // ---------------------------------------------------------------------------
  // Line commands in Normal mode

  /** `D` with several lines removes exactly the cursor's line, keeps the rest
      in order, and clamps the cursor; on the only line it clears it. */
  lemma DeleteLineSpec(s: State, ctrl: bool)
    requires Invariant(s) && s.mode == Normal && !s.cheatsheet
    ensures var (r, outcome) := Step(s, Char('D', ctrl));
      outcome == None && r.mode == Normal && !r.cheatsheet &&
      (|s.lines| > 1 ==>
        |r.lines| == |s.lines| - 1 &&
        (forall i :: 0 <= i < s.row ==> r.lines[i] == s.lines[i]) &&
        (forall i :: s.row <= i < |r.lines| ==> r.lines[i] == s.lines[i + 1]) &&
        r.row == Min(s.row, |r.lines| - 1) &&
        r.col == Min(s.col, |r.lines[r.row]|)) &&
      (|s.lines| == 1 ==> r.lines == [[]] && r.row == 0 && r.col == 0)
  {
  }

  /** `o` puts one empty line directly below the cursor's line, keeps every
      other line in order, and starts inserting on the new line. */
  lemma OpenLineSpec(s: State, ctrl: bool)
    requires Invariant(s) && s.mode == Normal && !s.cheatsheet
    ensures var (r, outcome) := Step(s, Char('o', ctrl));
      outcome == None && r.mode == Insert &&
      |r.lines| == |s.lines| + 1 &&
      (forall i :: 0 <= i <= s.row ==> r.lines[i] == s.lines[i]) &&
      r.lines[s.row + 1] == [] &&
      (forall i :: s.row + 1 < i < |r.lines| ==> r.lines[i] == s.lines[i - 1]) &&
      r.row == s.row + 1 && r.col == 0
  {
  }

  /** `o` adds a line feed to the saved text at the end of the cursor's line. */
  lemma OpenLineAddsLineFeed(s: State, ctrl: bool)
    requires Invariant(s) && s.mode == Normal && !s.cheatsheet
    ensures var r := Step(s, Char('o', ctrl)).0;
      var at := |JoinBefore(s.lines, s.row, '\n')| + |Line(s)|;
      at <= |Payload(s)| &&
      Payload(r) == Payload(s)[..at] + ['\n'] + Payload(s)[at..] &&
      Pos(r) == at + 1
  {
    var l := Line(s);
    JoinBreak(s.lines, s.row, |l|, '\n');
    assert l[..|l|] == l && l[|l|..] == [];
    assert Step(s, Char('o', ctrl)).0.lines == s.lines[..s.row] + [l[..|l|], l[|l|..]] + s.lines[s.row + 1..];
  }

  // ---------------------------------------------------------------------------
  // Character edits

  /** `x` removes the character under the cursor from the saved text, and does
      nothing at the end of a line. */
  lemma DeleteCharSpec(s: State, ctrl: bool)
    requires Invariant(s) && s.mode == Normal && !s.cheatsheet
    ensures var (r, outcome) := Step(s, Char('x', ctrl));
      outcome == None && r.mode == Normal && !r.cheatsheet &&
      (s.col < |Line(s)| ==>
        Payload(r) == Payload(s)[..Pos(s)] + Payload(s)[Pos(s) + 1..] &&
        r.lines[s.row] == Line(s)[..s.col] + Line(s)[s.col + 1..] &&
        r.row == s.row && r.col == s.col && |r.lines| == |s.lines| &&
        (forall i :: 0 <= i < |s.lines| && i != s.row ==> r.lines[i] == s.lines[i])) &&
      (s.col == |Line(s)| ==> r == s)
  {
    if s.col < |Line(s)| {
      JoinDeleteAt(s.lines, s.row, s.col, '\n');
    }
  }

  /** A printable character typed in Insert mode goes into the saved text
      at the cursor, the cursor moves past it, and no other line changes. */
  lemma TypeCharSpec(s: State, c: char)
    requires Invariant(s) && s.mode == Insert
    ensures var (r, outcome) := Step(s, Char(c, false));
      outcome == None && r.mode == Insert &&
      Payload(r) == Payload(s)[..Pos(s)] + [c] + Payload(s)[Pos(s)..] &&
      Pos(r) == Pos(s) + 1 &&
      r.row == s.row && r.col == s.col + 1 && |r.lines| == |s.lines| &&
      r.lines[s.row] == Line(s)[..s.col] + [c] + Line(s)[s.col..] &&
      (forall i :: 0 <= i < |s.lines| && i != s.row ==> r.lines[i] == s.lines[i])
  {
    JoinInsertAt(s.lines, s.row, s.col, c, '\n');
    JoinReplace(s.lines, s.row, Line(s)[..s.col] + [c] + Line(s)[s.col..], '\n');
  }

  /** Control-modified characters other than Ctrl+S are not typed. */
  lemma ControlCharIgnored(s: State, c: char)
    requires Invariant(s) && s.mode == Insert && c != 's'
    ensures Step(s, Char(c, true)) == (s, None)
  {
  }

  /** Enter in Insert mode puts a line feed into the saved text at the cursor
      (so the concatenation of the lines is unchanged), with the cursor at the
      start of the new second half. */
  lemma EnterSpec(s: State)
    requires Invariant(s) && s.mode == Insert
    ensures var (r, outcome) := Step(s, Enter);
      outcome == None && r.mode == Insert &&
      Payload(r) == Payload(s)[..Pos(s)] + ['\n'] + Payload(s)[Pos(s)..] &&
      Pos(r) == Pos(s) + 1 &&
      |r.lines| == |s.lines| + 1 &&
      r.lines[s.row] == Line(s)[..s.col] && r.lines[s.row + 1] == Line(s)[s.col..] &&
      r.lines[..s.row] == s.lines[..s.row] && r.lines[s.row + 2..] == s.lines[s.row + 1..] &&
      r.row == s.row + 1 && r.col == 0
  {
    JoinBreak(s.lines, s.row, s.col, '\n');
  }

  /** Backspace within a line removes the character before the cursor from
      its line and from the saved text, moves the cursor back by one, and
      leaves every other line alone. */
  lemma BackspaceWithinLine(s: State)
    requires CursorInBounds(s) && s.col > 0
    ensures var r := DeleteBackward(s);
      r.row == s.row && r.col == s.col - 1 && r.mode == s.mode && |r.lines| == |s.lines| &&
      r.lines[s.row] == Line(s)[..s.col - 1] + Line(s)[s.col..] &&
      (forall i :: 0 <= i < |s.lines| && i != s.row ==> r.lines[i] == s.lines[i])
    ensures var r := DeleteBackward(s);
      Payload(r) == Payload(s)[..Pos(s) - 1] + Payload(s)[Pos(s)..] && Pos(r) == Pos(s) - 1
  {
    var l := Line(s);
    JoinDeleteAt(s.lines, s.row, s.col - 1, '\n');
    JoinReplace(s.lines, s.row, l[..s.col - 1] + l[s.col..], '\n');
    assert l[..s.col - 1] + l[s.col - 1 + 1..] == l[..s.col - 1] + l[s.col..];
  }

  /** The lines and cursor after a backward delete at the start of a line. */
  lemma DeleteBackwardJoinShape(s: State)
    requires CursorInBounds(s) && s.col == 0 && s.row > 0
    ensures var r := DeleteBackward(s);
      r.row == s.row - 1 && r.col == |s.lines[s.row - 1]| && r.mode == s.mode &&
      |r.lines| == |s.lines| - 1 &&
      r.lines[s.row - 1] == s.lines[s.row - 1] + Line(s) &&
      r.lines[..s.row - 1] == s.lines[..s.row - 1] && r.lines[s.row..] == s.lines[s.row + 1..]
  {
  }

  /** Backspace at the start of a line appends that line to the one above,
      moves the later lines up by one, puts the cursor at the join point, and
      removes the line feed before the cursor from the saved text. */
  lemma BackspaceJoinsLine(s: State)
    requires CursorInBounds(s) && s.col == 0 && s.row > 0
    ensures var r := DeleteBackward(s);
      r.row == s.row - 1 && r.col == |s.lines[s.row - 1]| && r.mode == s.mode &&
      |r.lines| == |s.lines| - 1 &&
      r.lines[s.row - 1] == s.lines[s.row - 1] + Line(s) &&
      r.lines[..s.row - 1] == s.lines[..s.row - 1] && r.lines[s.row..] == s.lines[s.row + 1..]
    ensures Pos(s) > 0
    ensures var r := DeleteBackward(s);
      Payload(r) == Payload(s)[..Pos(s) - 1] + Payload(s)[Pos(s)..] && Pos(r) == Pos(s) - 1
  {
    DeleteBackwardJoinShape(s);
    var r := DeleteBackward(s);
    var row := s.row;
    var above := s.lines[row - 1];
    var joined := r.lines[row - 1];
    assert joined[..|above|] == above && joined[|above|..] == Line(s);
    assert s.lines == r.lines[..row - 1] + [joined[..|above|], joined[|above|..]] + r.lines[row..];
    JoinBreak(r.lines, row - 1, |above|, '\n');
  }

  /** Backspace in Insert mode removes the character before the cursor from
      the saved text (a line feed when the cursor is at the start of a line,
      which joins that line onto the previous one); at the very start it does
      nothing. */
  lemma BackspaceSpec(s: State)
    requires Invariant(s) && s.mode == Insert
    ensures var (r, outcome) := Step(s, Backspace);
      outcome == None && r.mode == Insert &&
      (s.col > 0 ==>
        r.row == s.row && r.col == s.col - 1 && |r.lines| == |s.lines| &&
        r.lines[s.row] == Line(s)[..s.col - 1] + Line(s)[s.col..] &&
        (forall i :: 0 <= i < |s.lines| && i != s.row ==> r.lines[i] == s.lines[i])) &&
      (s.col == 0 && s.row > 0 ==>
        r.row == s.row - 1 && r.col == |s.lines[s.row - 1]| && |r.lines| == |s.lines| - 1 &&
        r.lines[s.row - 1] == s.lines[s.row - 1] + Line(s) &&
        r.lines[..s.row - 1] == s.lines[..s.row - 1] && r.lines[s.row..] == s.lines[s.row + 1..]) &&
      (Pos(s) > 0 ==>
        Payload(r) == Payload(s)[..Pos(s) - 1] + Payload(s)[Pos(s)..] &&
        Pos(r) == Pos(s) - 1) &&
      (Pos(s) == 0 ==> r == s)
  {
    PosBounds(s);
    if s.col > 0 {
      BackspaceWithinLine(s);
    } else if s.row > 0 {
      BackspaceJoinsLine(s);
    }
  }

  // ---------------------------------------------------------------------------
  // Undoing edits

  /** Deleting backwards right after a split joins the two halves again. */
  lemma SplitThenDeleteBackward(s: State)
    requires CursorInBounds(s)
    ensures DeleteBackward(SplitLine(s)) == s
  {
    var t := SplitLine(s);
    var row, l := s.row, Line(s);
    assert t.lines[..row] == s.lines[..row] && t.lines[row + 2..] == s.lines[row + 1..];
    assert t.lines[row] + t.lines[row + 1] == l by {
      assert l[..s.col] + l[s.col..] == l;
    }
    assert s.lines == s.lines[..row] + [l] + s.lines[row + 1..];
  }

  /** Splitting right after a backward delete that joined two lines cuts them
      where they were joined. */
  lemma DeleteBackwardThenSplit(s: State)
    requires CursorInBounds(s) && s.col == 0 && s.row > 0
    ensures SplitLine(DeleteBackward(s)) == s
  {
    var t := DeleteBackward(s);
    var above := s.lines[s.row - 1];
    var l := Line(s);
    assert (above + l)[..|above|] == above && (above + l)[|above|..] == l;
    assert SplitLine(t).lines == s.lines;
  }

  /** Deleting backwards right after inserting a character removes it. */
  lemma InsertThenDeleteBackward(s: State, c: char)
    requires CursorInBounds(s)
    ensures DeleteBackward(InsertChar(s, c)) == s
  {
    var l := Line(s);
    var typed := l[..s.col] + [c] + l[s.col..];
    assert typed[..s.col] + typed[s.col + 1..] == l;
    var t := InsertChar(s, c);
    assert Line(t) == typed && t.col == s.col + 1;
    assert DeleteBackward(t).lines == s.lines[s.row := l] == s.lines;
  }

  /** Backspace right after Enter gives back the state before Enter. */
  lemma EnterThenBackspace(s: State)
    requires Invariant(s) && s.mode == Insert
    ensures Run(s, [Enter, Backspace]) == (s, None)
  {
    SplitThenDeleteBackward(s);
    RunTwo(s, Enter, Backspace);
  }

  /** Enter right after a Backspace that joined two lines splits them again. */
  lemma BackspaceThenEnter(s: State)
    requires Invariant(s) && s.mode == Insert && s.col == 0 && s.row > 0
    ensures Run(s, [Backspace, Enter]) == (s, None)
  {
    DeleteBackwardThenSplit(s);
    RunTwo(s, Backspace, Enter);
  }

  /** Backspace right after typing a character removes it again. */
  lemma TypeThenBackspace(s: State, c: char)
    requires Invariant(s) && s.mode == Insert
    ensures Run(s, [Char(c, false), Backspace]) == (s, None)
  {
    InsertThenDeleteBackward(s, c);
    RunTwo(s, Char(c, false), Backspace);
  }

  // ---------------------------------------------------------------------------
  // Cursor movement

  /** Up and Down, in either mode, move one line and pull the column back onto
      a shorter destination line; they change nothing else. */
  lemma VerticalMoves(s: State, key: Key)
    requires Invariant(s) && !s.cheatsheet
    requires key == Up || key == Down || (s.mode == Normal && key.Char? && key.c in {'k', 'j'})
    ensures var (r, outcome) := Step(s, key);
      outcome == None && r.lines == s.lines && r.mode == s.mode &&
      r.row == (if key == Up || (key.Char? && key.c == 'k') then (if s.row > 0 then s.row - 1 else s.row)
                else (if s.row + 1 < |s.lines| then s.row + 1 else s.row)) &&
      (r.row != s.row ==> r.col == Min(s.col, |r.lines[r.row]|)) &&
      (r.row == s.row ==> r.col == s.col)
  {
  }

  /** In Normal mode, `h`, `l`, Left and Right stay on the cursor's line. */
  lemma NormalHorizontalStaysOnLine(s: State, key: Key)
    requires Invariant(s) && s.mode == Normal && !s.cheatsheet
    requires key in {Left, Right} || (key.Char? && key.c in {'h', 'l'})
    ensures var (r, outcome) := Step(s, key);
      outcome == None && r == s.(col := r.col) &&
      (if key == Left || (key.Char? && key.c == 'h')
       then r.col == (if s.col > 0 then s.col - 1 else 0)
       else r.col == Min(s.col + 1, |Line(s)|))
  {
  }

  /** `a` moves one column right unless at the end of the line, then starts
      inserting; `i` only starts inserting. */
  lemma AppendAndInsert(s: State, ctrl: bool)
    requires Invariant(s) && s.mode == Normal && !s.cheatsheet
    ensures var (r, outcome) := Step(s, Char('a', ctrl));
      outcome == None && r.mode == Insert && r.lines == s.lines && r.row == s.row &&
      r.col == Min(s.col + 1, |Line(s)|)
    ensures Step(s, Char('i', ctrl)) == (s.(mode := Insert), None)
  {
  }

  /** Insert-mode Left moves one character back through the saved text. */
  lemma WrapLeftPos(s: State)
    requires CursorInBounds(s)
    ensures var l := WrapLeft(s);
      l.lines == s.lines && l.mode == s.mode &&
      Pos(l) == (if Pos(s) > 0 then Pos(s) - 1 else 0) &&
      (s.col == 0 && s.row > 0 ==> l.row == s.row - 1 && l.col == |s.lines[s.row - 1]|)
  {
    PosBounds(s);
    if s.col == 0 && s.row > 0 {
      JoinBeforeNext(s.lines, s.row - 1, '\n');
    }
  }

  /** Insert-mode Right moves one character on through the saved text. */
  lemma WrapRightPos(s: State)
    requires CursorInBounds(s)
    ensures var r := WrapRight(s);
      r.lines == s.lines && r.mode == s.mode &&
      Pos(r) == (if Pos(s) < |Payload(s)| then Pos(s) + 1 else Pos(s)) &&
      (s.col == |Line(s)| && s.row + 1 < |s.lines| ==> r.row == s.row + 1 && r.col == 0)
  {
    PosBounds(s);
    if s.col == |Line(s)| && s.row + 1 < |s.lines| {
      JoinBeforeNext(s.lines, s.row, '\n');
    }
  }

  /** In Insert mode Left and Right move one character through the saved text,
      crossing line ends: Left at column 0 goes to the end of the previous line
      and Right at the end of a line to the start of the next. */
  lemma InsertHorizontalMoves(s: State)
    requires Invariant(s) && s.mode == Insert
    ensures var l := Step(s, Left).0;
      l.lines == s.lines && l.mode == Insert &&
      Pos(l) == (if Pos(s) > 0 then Pos(s) - 1 else 0) &&
      (s.col == 0 && s.row > 0 ==> l.row == s.row - 1 && l.col == |s.lines[s.row - 1]|)
    ensures var r := Step(s, Right).0;
      r.lines == s.lines && r.mode == Insert &&
      Pos(r) == (if Pos(s) < |Payload(s)| then Pos(s) + 1 else Pos(s)) &&
      (s.col == |Line(s)| && s.row + 1 < |s.lines| ==> r.row == s.row + 1 && r.col == 0)
  {
    WrapLeftPos(s);
    WrapRightPos(s);
  }

  // ---------------------------------------------------------------------------
  // Worked examples

  /** Append at the end of `abc`, then type `d`. */
  lemma AppendAtEndThenType()
    ensures Run(State(["abc"], 0, 3, Normal, false), [Char('a', false), Char('d', false)])
         == (State(["abcd"], 0, 4, Insert, false), None)
  {
    var s := State(["abc"], 0, 3, Normal, false);
    var t := State(["abc"], 0, 3, Insert, false);
    assert |"abc"| == 3;
    assert Step(s, Char('a', false)) == (t, None);
    assert "abc"[..3] + ['d'] + "abc"[3..] == "abcd";
    assert InsertChar(t, 'd') == State(["abcd"], 0, 4, Insert, false);
    RunTwo(s, Char('a', false), Char('d', false));
  }

  /** `o` between two lines. */
  lemma OpenBetweenLines()
    ensures Step(State(["ab", "cd"], 0, 2, Normal, false), Char('o', false))
         == (State(["ab", "", "cd"], 1, 0, Insert, false), None)
  {
    assert ["ab", "cd"][..1] + [[]] + ["ab", "cd"][1..] == ["ab", "", "cd"];
  }

  /** `D` on the only line clears it. */
  lemma DeleteOnlyLine()
    ensures Step(State(["hello"], 0, 0, Normal, false), Char('D', false))
         == (State([""], 0, 0, Normal, false), None)
  {
    assert ["hello"][0 := []] == [""];
  }

  /** Backspace at the start of the second line joins the two lines. */
  lemma BackspaceJoinsLines()
    ensures Step(State(["ab", "cd"], 1, 0, Insert, false), Backspace)
         == (State(["abcd"], 0, 2, Insert, false), None)
  {
    var s := State(["ab", "cd"], 1, 0, Insert, false);
    assert s.lines[..0] == [] && s.lines[2..] == [];
    assert s.lines[0] + s.lines[1] == "abcd";
    assert s.lines[..0] + ["abcd"] + s.lines[2..] == ["abcd"];
    assert DeleteBackward(s) == State(["abcd"], 0, 2, Insert, false);
  }
}
