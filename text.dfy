/** Strings as sequences of characters, and the few Rust `str` operations the
    editor and the dashboard rely on: `join`, `lines`, `split_whitespace` and
    `contains`. Every character is one unit (a position is a character index). */
module Text {

  type String = seq<char>

  // ---------------------------------------------------------------------------
  // join

  /** The number of characters in all of `parts` together. */
  function TotalLength(parts: seq<String>): nat
  {
    if parts == [] then 0 else |parts[0]| + TotalLength(parts[1..])
  }

  /** `parts` with `sep` between consecutive elements (Rust's `join`). */
  function JoinWith(parts: seq<String>, sep: char): String
  {
    if |parts| == 0 then []
    else if |parts| == 1 then parts[0]
    else parts[0] + [sep] + JoinWith(parts[1..], sep)
  }

  /** The text saved for a sequence of lines: `lines.join("\n")`. */
  function Join(lines: seq<String>): String
  {
    JoinWith(lines, '\n')
  }

  /** The join holds all the characters of the parts and one separator fewer
      than there are parts. */
  lemma {:induction false} JoinLength(parts: seq<String>, sep: char)
    ensures |parts| == 0 ==> JoinWith(parts, sep) == []
    ensures |parts| >= 1 ==> |JoinWith(parts, sep)| == TotalLength(parts) + |parts| - 1
    decreases |parts|
  {
    if |parts| > 1 {
      JoinLength(parts[1..], sep);
    }
  }

  /** The text that precedes `parts[r]` in `JoinWith(parts, sep)`. */
  function JoinBefore(parts: seq<String>, r: nat, sep: char): String
    requires r <= |parts|
  {
    if r == 0 then [] else JoinWith(parts[..r], sep) + [sep]
  }

  /** The text that follows `parts[r]` in `JoinWith(parts, sep)`. */
  function JoinAfter(parts: seq<String>, r: nat, sep: char): String
    requires r < |parts|
  {
    if r + 1 == |parts| then [] else [sep] + JoinWith(parts[r + 1..], sep)
  }

  lemma {:induction false} JoinAppend(a: seq<String>, b: seq<String>, sep: char)
    requires |a| >= 1 && |b| >= 1
    ensures JoinWith(a + b, sep) == JoinWith(a, sep) + [sep] + JoinWith(b, sep)
    decreases |a|
  {
    if |a| == 1 {
      assert (a + b)[1..] == b;
    } else {
      assert (a + b)[1..] == a[1..] + b;
      JoinAppend(a[1..], b, sep);
    }
  }

  /** Every element sits in the joined text between its two neighbourhoods. */
  lemma JoinAt(parts: seq<String>, r: nat, sep: char)
    requires r < |parts|
    ensures JoinWith(parts, sep) == JoinBefore(parts, r, sep) + parts[r] + JoinAfter(parts, r, sep)
  {
    var tail := parts[r..];
    assert parts == parts[..r] + tail;
    assert tail[0] == parts[r] && tail[1..] == parts[r + 1..];
    if r > 0 {
      JoinAppend(parts[..r], tail, sep);
    }
  }

  /** Moving one element on: what precedes `parts[r + 1]` is what precedes
      `parts[r]`, then `parts[r]`, then a separator. */
  lemma JoinBeforeNext(parts: seq<String>, r: nat, sep: char)
    requires r + 1 < |parts|
    ensures JoinBefore(parts, r + 1, sep) == JoinBefore(parts, r, sep) + parts[r] + [sep]
  {
    assert parts[..r + 1] == parts[..r] + [parts[r]];
    if r > 0 {
      JoinAppend(parts[..r], [parts[r]], sep);
    }
  }

  /** `JoinBefore` only looks at the elements before `r`. */
  lemma JoinBeforeSamePrefix(p: seq<String>, q: seq<String>, r: nat, sep: char)
    requires r <= |p| && r <= |q| && p[..r] == q[..r]
    ensures JoinBefore(p, r, sep) == JoinBefore(q, r, sep)
  {
  }

  /** `JoinAfter` only looks at the elements after `r`. */
  lemma JoinAfterSameSuffix(p: seq<String>, rp: nat, q: seq<String>, rq: nat, sep: char)
    requires rp < |p| && rq < |q| && p[rp + 1..] == q[rq + 1..]
    ensures JoinAfter(p, rp, sep) == JoinAfter(q, rq, sep)
  {
    assert |p| - rp == |q| - rq by {
      assert |p[rp + 1..]| == |q[rq + 1..]|;
    }
  }

  /** Replacing one element changes the join only in that element's place. */
  lemma JoinReplace(parts: seq<String>, r: nat, m: String, sep: char)
    requires r < |parts|
    ensures JoinBefore(parts[r := m], r, sep) == JoinBefore(parts, r, sep)
    ensures JoinWith(parts[r := m], sep) == JoinBefore(parts, r, sep) + m + JoinAfter(parts, r, sep)
  {
    var q := parts[r := m];
    JoinAt(q, r, sep);
    assert q[..r] == parts[..r];
    JoinBeforeSamePrefix(q, parts, r, sep);
    assert q[r + 1..] == parts[r + 1..];
    JoinAfterSameSuffix(q, r, parts, r, sep);
  }

  /** The join of one more element at the front. */
  lemma JoinCons(x: String, q: seq<String>, sep: char)
    ensures JoinWith([x] + q, sep) == x + (if q == [] then [] else [sep] + JoinWith(q, sep))
  {
    assert ([x] + q)[1..] == q;
  }

  /** The join of one more element at the back. */
  lemma JoinSnoc(p: seq<String>, x: String, sep: char)
    ensures JoinWith(p + [x], sep) == (if p == [] then [] else JoinWith(p, sep) + [sep]) + x
  {
    if p == [] {
      assert p + [x] == [x];
    } else {
      JoinAppend(p, [x], sep);
    }
  }

  /** After cutting element `r` in two at `k`, the second half starts one
      separator after the cut. */
  lemma JoinBreakBefore(parts: seq<String>, r: nat, k: nat, sep: char)
    requires r < |parts| && k <= |parts[r]|
    ensures var x := parts[r];
      var q := parts[..r] + [x[..k], x[k..]] + parts[r + 1..];
      JoinBefore(q, r + 1, sep) == JoinBefore(parts, r, sep) + x[..k] + [sep]
  {
    var x := parts[r];
    var q := parts[..r] + [x[..k], x[k..]] + parts[r + 1..];
    assert q[..r + 1] == parts[..r] + [x[..k]];
    JoinSnoc(parts[..r], x[..k], sep);
  }

  /** A concatenation cut where its parts meet. */
  lemma CutConcat(u: String, v: String)
    ensures (u + v)[..|u|] == u && (u + v)[|u|..] == v
  {
  }

  /** The join around element `r`, with that element cut at `k`. */
  lemma JoinAtCut(parts: seq<String>, r: nat, k: nat, sep: char)
    requires r < |parts| && k <= |parts[r]|
    ensures var x := parts[r];
      JoinWith(parts, sep) == (JoinBefore(parts, r, sep) + x[..k]) + (x[k..] + JoinAfter(parts, r, sep))
  {
    var x := parts[r];
    JoinAt(parts, r, sep);
    assert x == x[..k] + x[k..];
    Regroup(JoinBefore(parts, r, sep), x[..k], x[k..], JoinAfter(parts, r, sep));
  }

  /** Regrouping a concatenation of four pieces. */
  lemma Regroup(b: String, x: String, y: String, a: String)
    ensures b + (x + y) + a == (b + x) + (y + a)
  {
  }

  /** Cutting element `r` in two at `k`: the join of the result, around the
      two halves. */
  lemma JoinBreakParts(parts: seq<String>, r: nat, k: nat, sep: char)
    requires r < |parts| && k <= |parts[r]|
    ensures var x := parts[r];
      var q := parts[..r] + [x[..k], x[k..]] + parts[r + 1..];
      JoinWith(q, sep) == JoinBefore(parts, r, sep) + x[..k] + [sep] + (x[k..] + JoinAfter(parts, r, sep))
  {
    var x := parts[r];
    var q := parts[..r] + [x[..k], x[k..]] + parts[r + 1..];
    var pre, post := parts[..r] + [x[..k]], [x[k..]] + parts[r + 1..];
    JoinSnoc(parts[..r], x[..k], sep);
    JoinCons(x[k..], parts[r + 1..], sep);
    assert q == pre + post;
    JoinAppend(pre, post, sep);
  }

  /** Cutting element `r` in two at `k` puts one separator into the join at
      that point. */
  lemma JoinBreak(parts: seq<String>, r: nat, k: nat, sep: char)
    requires r < |parts| && k <= |parts[r]|
    ensures var x := parts[r];
      var q := parts[..r] + [x[..k], x[k..]] + parts[r + 1..];
      var at := |JoinBefore(parts, r, sep)| + k;
      at <= |JoinWith(parts, sep)| &&
      JoinWith(q, sep) == JoinWith(parts, sep)[..at] + [sep] + JoinWith(parts, sep)[at..] &&
      |JoinBefore(q, r + 1, sep)| == at + 1
  {
    var x := parts[r];
    var u, v := JoinBefore(parts, r, sep) + x[..k], x[k..] + JoinAfter(parts, r, sep);
    JoinBreakParts(parts, r, k, sep);
    JoinBreakBefore(parts, r, k, sep);
    JoinAtCut(parts, r, k, sep);
    CutConcat(u, v);
  }

  /** Removing character `k` of element `r` removes one character of the
      join, at that element's start plus `k`. */
  lemma JoinDeleteAt(parts: seq<String>, r: nat, k: nat, sep: char)
    requires r < |parts| && k < |parts[r]|
    ensures var x := parts[r];
      var at := |JoinBefore(parts, r, sep)| + k;
      at < |JoinWith(parts, sep)| &&
      JoinWith(parts[r := x[..k] + x[k + 1..]], sep) ==
        JoinWith(parts, sep)[..at] + JoinWith(parts, sep)[at + 1..]
  {
    var x := parts[r];
    var b := JoinBefore(parts, r, sep);
    var a := JoinAfter(parts, r, sep);
    var u, v := b + x[..k], x[k + 1..] + a;
    assert JoinWith(parts[r := x[..k] + x[k + 1..]], sep) == u + v by {
      JoinReplace(parts, r, x[..k] + x[k + 1..], sep);
    }
    assert JoinWith(parts, sep) == u + [x[k]] + v by {
      JoinAt(parts, r, sep);
      assert x == x[..k] + [x[k]] + x[k + 1..];
    }
    assert (u + [x[k]] + v)[..|u|] == u && (u + [x[k]] + v)[|u| + 1..] == v;
  }

  /** Inserting `c` into element `r` before its character `k` inserts it into
      the join, at that element's start plus `k`. */
  lemma JoinInsertAt(parts: seq<String>, r: nat, k: nat, c: char, sep: char)
    requires r < |parts| && k <= |parts[r]|
    ensures var x := parts[r];
      var at := |JoinBefore(parts, r, sep)| + k;
      at <= |JoinWith(parts, sep)| &&
      JoinWith(parts[r := x[..k] + [c] + x[k..]], sep) ==
        JoinWith(parts, sep)[..at] + [c] + JoinWith(parts, sep)[at..]
  {
    var x := parts[r];
    var b := JoinBefore(parts, r, sep);
    var a := JoinAfter(parts, r, sep);
    var u, v := b + x[..k], x[k..] + a;
    assert JoinWith(parts[r := x[..k] + [c] + x[k..]], sep) == u + [c] + v by {
      JoinReplace(parts, r, x[..k] + [c] + x[k..], sep);
    }
    assert JoinWith(parts, sep) == u + v by {
      JoinAt(parts, r, sep);
      assert x == x[..k] + x[k..];
    }
    assert (u + v)[..|u|] == u && (u + v)[|u|..] == v;
  }

  // ---------------------------------------------------------------------------
  // lines

  /** `s` cut at every line feed. The pieces hold no line feed, there is always
      at least one, and joining them with line feeds gives back `s`. */
  function Split(s: String): (pieces: seq<String>)
    ensures |pieces| >= 1
    ensures forall i :: 0 <= i < |pieces| ==> '\n' !in pieces[i]
    ensures Join(pieces) == s
    decreases |s|
  {
    if s == [] then [[]]
    else
      var rest := Split(s[1..]);
      if s[0] == '\n' then
        assert ([[]] + rest)[1..] == rest;
        [[]] + rest
      else
        var first := [s[0]] + rest[0];
        assert ([first] + rest[1..])[1..] == rest[1..];
        assert s == [s[0]] + s[1..];
        [first] + rest[1..]
  }

  /** A line without its terminating carriage return, if it has one. */
  function StripCR(line: String): (r: String)
    ensures if line != [] && line[|line| - 1] == '\r' then line == r + ['\r'] else r == line
  {
    if |line| > 0 && line[|line| - 1] == '\r' then line[..|line| - 1] else line
  }

  /** `StripCR` undoes appending one carriage return. */
  lemma StripCRAppended(line: String)
    ensures StripCR(line + ['\r']) == line
  {
    var l := line + ['\r'];
    assert l[..|l| - 1] == line;
  }

  /** Rust's `str::lines`: the text split at line feeds, where a line ended by a
      line feed loses one carriage return before it, and a final empty piece
      (the text is empty or ends with a line feed) is not a line. */
  function Lines(s: String): (lines: seq<String>)
    ensures s != [] ==> |lines| >= 1
    ensures forall i :: 0 <= i < |lines| ==> '\n' !in lines[i]
  {
    var pieces := Split(s);
    var last := pieces[|pieces| - 1];
    assert s != [] && last == [] ==> |pieces| >= 2;
    StripEach(pieces[..|pieces| - 1]) + (if last == [] then [] else [last])
  }

  /** `StripCR` applied to every line. */
  function StripEach(lines: seq<String>): (r: seq<String>)
    ensures |r| == |lines|
    ensures forall i :: 0 <= i < |r| ==> r[i] == StripCR(lines[i])
  {
    seq(|lines|, i requires 0 <= i < |lines| => StripCR(lines[i]))
  }

  /** Where the first line feed of a join of line-feed-free lines is. */
  lemma FirstLine(p: seq<String>)
    requires |p| >= 1
    requires forall i :: 0 <= i < |p| ==> '\n' !in p[i]
    ensures var j := Join(p);
      |p[0]| <= |j| && j[..|p[0]|] == p[0] &&
      (|p| == 1 <==> '\n' !in j) &&
      (|p| > 1 ==> |p[0]| < |j| && j[|p[0]|] == '\n' && j[|p[0]| + 1..] == Join(p[1..]))
  {
    var j := Join(p);
    if |p| > 1 {
      assert j == p[0] + ['\n'] + Join(p[1..]);
      assert j[|p[0]|] == '\n';
    }
  }

  /** Two line-feed-free decompositions with the same join are equal, so
      `Split` is the only inverse of `Join`. */
  lemma {:induction false} JoinInjective(p: seq<String>, q: seq<String>)
    requires |p| >= 1 && |q| >= 1
    requires forall i :: 0 <= i < |p| ==> '\n' !in p[i]
    requires forall i :: 0 <= i < |q| ==> '\n' !in q[i]
    requires Join(p) == Join(q)
    ensures p == q
    decreases |p|
  {
    var j := Join(p);
    FirstLine(p);
    FirstLine(q);
    if |p| > 1 {
      assert forall k :: 0 <= k < |p[0]| ==> j[k] in p[0];
      assert forall k :: 0 <= k < |q[0]| ==> j[k] in q[0];
      assert |p[0]| == |q[0]|;
      JoinInjective(p[1..], q[1..]);
      assert p == [p[0]] + p[1..];
      assert q == [q[0]] + q[1..];
    }
  }

  /** Splitting the join of line-feed-free lines gives the lines back. */
  lemma SplitJoin(lines: seq<String>)
    requires |lines| >= 1
    requires forall i :: 0 <= i < |lines| ==> '\n' !in lines[i]
    ensures Split(Join(lines)) == lines
  {
    JoinInjective(Split(Join(lines)), lines);
  }

  /** The last piece of `Split(s)` is what comes after the last line feed; it is
      empty exactly when `s` is empty or ends with a line feed. */
  lemma SplitLast(s: String)
    ensures var pieces := Split(s);
      var last := pieces[|pieces| - 1];
      (|pieces| == 1 ==> last == s) &&
      (|pieces| >= 2 ==> s == Join(pieces[..|pieces| - 1]) + ['\n'] + last) &&
      (last == [] <==> s == [] || s[|s| - 1] == '\n')
  {
    var pieces := Split(s);
    var n := |pieces| - 1;
    var last := pieces[n];
    if |pieces| >= 2 {
      assert pieces == pieces[..n] + [last];
      JoinAppend(pieces[..n], [last], '\n');
    }
    if last != [] {
      assert s[|s| - 1] == last[|last| - 1];
      assert last[|last| - 1] in last;
    }
  }

  /** A non-empty sequence is its front followed by its last element. */
  lemma InitLast(p: seq<String>)
    requires |p| >= 1
    ensures p[..|p| - 1] + [p[|p| - 1]] == p
  {
  }

  /** Text without carriage returns has none in any piece. */
  lemma PiecesWithoutCR(s: String)
    requires '\r' !in s
    ensures forall i :: 0 <= i < |Split(s)| ==> '\r' !in Split(s)[i]
  {
    var pieces := Split(s);
    forall i | 0 <= i < |pieces| ensures '\r' !in pieces[i] {
      JoinAt(pieces, i, '\n');
    }
  }

  /** `StripCR` changes no line without carriage returns. */
  lemma StripEachWithoutCR(lines: seq<String>)
    requires forall i :: 0 <= i < |lines| ==> '\r' !in lines[i]
    ensures StripEach(lines) == lines
  {
    forall i | 0 <= i < |lines| ensures StripCR(lines[i]) == lines[i] {
      var l := lines[i];
      assert |l| > 0 ==> l[|l| - 1] in l;
    }
  }

  /** On text without carriage returns, `lines` keeps every piece but a final
      empty one. */
  lemma LinesWithoutCR(s: String)
    requires '\r' !in s
    ensures var pieces := Split(s);
      var n := |pieces| - 1;
      Lines(s) == if pieces[n] == [] then pieces[..n] else pieces
  {
    var pieces := Split(s);
    var n := |pieces| - 1;
    var init, last := pieces[..n], pieces[n];
    assert StripEach(init) == init by {
      PiecesWithoutCR(s);
      StripEachWithoutCR(init);
    }
    InitLast(pieces);
  }

  /** `lines` loses nothing on text that has no carriage return and does not end
      with a line feed: joining the lines gives the text back. */
  lemma LinesJoin(s: String)
    requires '\r' !in s
    requires s == [] || s[|s| - 1] != '\n'
    ensures Join(Lines(s)) == s
  {
    LinesWithoutCR(s);
    SplitLast(s);
  }

  /** A final line feed is the one thing `lines` drops from text without
      carriage returns: saving the lines loses it. */
  lemma LinesDropFinalNewline(s: String)
    requires '\r' !in s
    requires |s| > 0 && s[|s| - 1] == '\n'
    ensures Join(Lines(s)) + ['\n'] == s
  {
    LinesWithoutCR(s);
    SplitLast(s);
  }

  /** Every line with one carriage return appended: the lines of a file written
      with CRLF line endings. */
  function WithCR(lines: seq<String>): (r: seq<String>)
    ensures |r| == |lines|
    ensures forall i :: 0 <= i < |r| ==> r[i] == lines[i] + ['\r']
  {
    seq(|lines|, i requires 0 <= i < |lines| => lines[i] + ['\r'])
  }

  /** Text whose every piece ends with a line feed: `lines` strips each piece. */
  lemma LinesOfTerminated(pieces: seq<String>)
    requires |pieces| >= 1
    requires forall i :: 0 <= i < |pieces| ==> '\n' !in pieces[i]
    ensures Lines(Join(pieces) + ['\n']) == StripEach(pieces)
  {
    var all := pieces + [[]];
    assert Join(all) == Join(pieces) + ['\n'] by {
      JoinAppend(pieces, [[]], '\n');
    }
    assert forall i :: 0 <= i < |all| ==> '\n' !in all[i];
    SplitJoin(all);
    assert all[..|all| - 1] == pieces;
  }

  /** CRLF line endings open as the same lines: every line terminated by
      `\r\n` comes back without the carriage return. */
  lemma LinesCRLF(lines: seq<String>)
    requires |lines| >= 1
    requires forall i :: 0 <= i < |lines| ==> '\n' !in lines[i]
    ensures Lines(Join(WithCR(lines)) + ['\n']) == lines
  {
    var crlf := WithCR(lines);
    LinesOfTerminated(crlf);
    forall i | 0 <= i < |lines| ensures StripCR(crlf[i]) == lines[i] {
      StripCRAppended(lines[i]);
    }
  }

  /** CRLF line endings with no line break after the last line: the
      terminated lines lose their carriage returns and the last line is kept
      as it is. */
  lemma LinesCRLFUnterminated(lines: seq<String>, last: String)
    requires forall i :: 0 <= i < |lines| ==> '\n' !in lines[i]
    requires last != [] && '\n' !in last
    ensures Lines(Join(WithCR(lines) + [last])) == lines + [last]
  {
    var crlf := WithCR(lines);
    var all := crlf + [last];
    assert forall i :: 0 <= i < |all| ==> '\n' !in all[i];
    SplitJoin(all);
    assert all[..|all| - 1] == crlf;
    forall i | 0 <= i < |lines| ensures StripCR(crlf[i]) == lines[i] {
      StripCRAppended(lines[i]);
    }
    assert StripEach(crlf) == lines;
  }

  /** LF line endings open as the same lines, as long as no line ends with a
      carriage return of its own; with `LinesCRLF`, the CRLF and the LF form
      of a file open identically. */
  lemma LinesLF(lines: seq<String>)
    requires |lines| >= 1
    requires forall i :: 0 <= i < |lines| ==> '\n' !in lines[i]
    requires forall i :: 0 <= i < |lines| ==> lines[i] == [] || lines[i][|lines[i]| - 1] != '\r'
    ensures Lines(Join(lines) + ['\n']) == lines
  {
    LinesOfTerminated(lines);
  }

  /** `lines` treats CRLF as one line ending. */
  lemma LinesCRLFExample()
    ensures Lines("a\r\nb") == ["a", "b"]
  {
    assert Split("a\r\nb") == ["a\r", "b"] by {
      SplitJoin(["a\r", "b"]);
      assert Join(["a\r", "b"]) == "a\r\nb";
    }
    assert ["a\r", "b"][..1] == ["a\r"];
    StripCRAppended("a");
  }

  /** A bare carriage return at the very end of the text stays in the line. */
  lemma LinesBareCRExample()
    ensures Lines("a\r") == ["a\r"]
  {
    assert Split("a\r") == ["a\r"] by {
      SplitJoin(["a\r"]);
    }
  }

  /** A lone CRLF is one empty line. */
  lemma LinesLoneCRLFExample()
    ensures Lines("\r\n") == [""]
  {
    LinesCRLF([""]);
    assert Join(WithCR([""])) + ['\n'] == "\r\n";
  }

  // ---------------------------------------------------------------------------
  // split_whitespace

  /** Rust's `char::is_whitespace`: the Unicode White_Space property. */
  predicate IsWhitespace(c: char)
  {
    c == ' ' || ('\t' <= c <= '\r') || c == '\U{85}' || c == '\U{A0}' || c == '\U{1680}'
    || ('\U{2000}' <= c <= '\U{200A}') || c == '\U{2028}' || c == '\U{2029}'
    || c == '\U{202F}' || c == '\U{205F}' || c == '\U{3000}'
  }

  /** On ASCII, `char::is_whitespace` holds for exactly space, tab, line feed,
      vertical tab, form feed and carriage return; no-break space is one of the
      non-ASCII whitespace characters. */
  lemma WhitespaceAscii(c: char)
    ensures c <= '\U{7F}' ==> (IsWhitespace(c) <==> c in " \t\n\U{B}\U{C}\r")
    ensures IsWhitespace('\U{A0}')
  {
  }

  /** A non-empty run of non-whitespace characters. */
  predicate IsWord(w: String)
  {
    |w| > 0 && forall i :: 0 <= i < |w| ==> !IsWhitespace(w[i])
  }

  /** The longest prefix of `s` without whitespace, when `s` starts with a
      non-whitespace character. */
  function LeadingWord(s: String): (w: String)
    requires s != [] && !IsWhitespace(s[0])
    ensures IsWord(w) && w <= s
    ensures |w| == |s| || IsWhitespace(s[|w|])
    decreases |s|
  {
    if |s| == 1 || IsWhitespace(s[1]) then [s[0]]
    else [s[0]] + LeadingWord(s[1..])
  }

  /** Rust's `split_whitespace`: the maximal runs of non-whitespace, in order. */
  function Words(s: String): (words: seq<String>)
    ensures forall i :: 0 <= i < |words| ==> IsWord(words[i])
    decreases |s|
  {
    if s == [] then []
    else if IsWhitespace(s[0]) then Words(s[1..])
    else
      var w := LeadingWord(s);
      [w] + Words(s[|w|..])
  }

  /** The leading word of a word followed by a whitespace-led rest is that word. */
  lemma {:induction false} LeadingWordOf(w: String, rest: String)
    requires IsWord(w)
    requires rest == [] || IsWhitespace(rest[0])
    ensures LeadingWord(w + rest) == w
    decreases |w|
  {
    var s := w + rest;
    if |w| == 1 {
      assert |s| == 1 || s[1] == rest[0];
    } else {
      assert s[1] == w[1];
      assert s[1..] == w[1..] + rest;
      LeadingWordOf(w[1..], rest);
      assert w == [w[0]] + w[1..];
    }
  }

  /** A word followed by whitespace or nothing is the first of the words. */
  lemma WordsAfterWord(w: String, rest: String)
    requires IsWord(w)
    requires rest == [] || IsWhitespace(rest[0])
    ensures Words(w + rest) == [w] + Words(rest)
  {
    var s := w + rest;
    assert s[0] == w[0];
    LeadingWordOf(w, rest);
    assert s[|w|..] == rest;
  }

  /** A word put in front of joined words, with whitespace between, comes out
      first. */
  lemma WordsCons(w: String, tail: seq<String>, sep: char)
    requires IsWord(w) && IsWhitespace(sep) && |tail| >= 1
    ensures Words(JoinWith([w] + tail, sep)) == [w] + Words(JoinWith(tail, sep))
  {
    var rest := JoinWith(tail, sep);
    assert ([w] + tail)[1..] == tail;
    assert JoinWith([w] + tail, sep) == w + ([sep] + rest);
    WordsAfterWord(w, [sep] + rest);
    assert ([sep] + rest)[1..] == rest;
  }

  /** Words joined by whitespace split back into the same words. */
  lemma {:induction false} WordsJoin(words: seq<String>, sep: char)
    requires IsWhitespace(sep)
    requires forall i :: 0 <= i < |words| ==> IsWord(words[i])
    ensures Words(JoinWith(words, sep)) == words
    decreases |words|
  {
    if |words| == 1 {
      var w := words[0];
      WordsAfterWord(w, []);
      assert w + [] == w;
    } else if |words| > 1 {
      var w, tail := words[0], words[1..];
      WordsJoin(tail, sep);
      WordsCons(w, tail, sep);
      assert words == [w] + tail;
    }
  }

  /** A run of whitespace, possibly empty. */
  predicate IsSpace(w: String)
  {
    forall i :: 0 <= i < |w| ==> IsWhitespace(w[i])
  }

  /** `words` laid out with the whitespace runs `gaps` around them:
      `gaps[0] + words[0] + gaps[1] + ... + words[n - 1] + gaps[n]`. */
  function Spaced(words: seq<String>, gaps: seq<String>): String
    requires |gaps| == |words| + 1
    decreases |words|
  {
    if words == [] then gaps[0] else gaps[0] + (words[0] + Spaced(words[1..], gaps[1..]))
  }

  /** Leading whitespace contributes no word. */
  lemma {:induction false} WordsSkipSpace(ws: String, s: String)
    requires IsSpace(ws)
    ensures Words(ws + s) == Words(s)
    decreases |ws|
  {
    if ws == [] {
      assert ws + s == s;
    } else {
      assert (ws + s)[1..] == ws[1..] + s;
      WordsSkipSpace(ws[1..], s);
    }
  }

  /** `split_whitespace` splits at any amount of whitespace and ignores it at
      either end: words separated by non-empty whitespace runs, with any
      whitespace before and after, come out as exactly those words. */
  lemma {:induction false} WordsSpaced(words: seq<String>, gaps: seq<String>)
    requires |gaps| == |words| + 1
    requires forall i :: 0 <= i < |words| ==> IsWord(words[i])
    requires forall i :: 0 <= i < |gaps| ==> IsSpace(gaps[i])
    requires forall i :: 0 < i < |words| ==> gaps[i] != []
    ensures Words(Spaced(words, gaps)) == words
    decreases |words|
  {
    if words == [] {
      assert gaps[0] + [] == gaps[0];
      WordsSkipSpace(gaps[0], []);
    } else {
      var w, rest := words[0], Spaced(words[1..], gaps[1..]);
      WordsSkipSpace(gaps[0], w + rest);
      assert rest == [] || IsWhitespace(rest[0]) by {
        if |words| > 1 {
          assert gaps[1] != [] && IsWhitespace(gaps[1][0]);
          assert rest == gaps[1] + (words[1] + Spaced(words[2..], gaps[2..]));
        } else {
          assert rest == gaps[1];
        }
      }
      WordsAfterWord(w, rest);
      WordsSpaced(words[1..], gaps[1..]);
      assert words == [w] + words[1..];
    }
  }

  // ---------------------------------------------------------------------------
  // contains

  /** `pat` occurs in `s` starting at index `i`. */
  predicate OccursAt(s: String, pat: String, i: int)
  {
    0 <= i && i + |pat| <= |s| && s[i..i + |pat|] == pat
  }

  /** Rust's `str::contains` with a string pattern. */
  function Contains(s: String, pat: String): (b: bool)
    ensures b <==> exists i :: OccursAt(s, pat, i)
    decreases |s|
  {
    if pat <= s then
      assert OccursAt(s, pat, 0);
      true
    else if s == [] then
      assert forall i :: !OccursAt(s, pat, i);
      false
    else
      var b := Contains(s[1..], pat);
      assert b ==> exists i :: OccursAt(s, pat, i) by {
        if b {
          var i :| OccursAt(s[1..], pat, i);
          assert s[1..][i..i + |pat|] == s[i + 1..i + 1 + |pat|];
          assert OccursAt(s, pat, i + 1);
        }
      }
      assert (exists i :: OccursAt(s, pat, i)) ==> b by {
        if exists i :: OccursAt(s, pat, i) {
          var i :| OccursAt(s, pat, i);
          assert i != 0;
          assert s[1..][i - 1..i - 1 + |pat|] == s[i..i + |pat|];
          assert OccursAt(s[1..], pat, i - 1);
        }
      }
      b
  }
}
