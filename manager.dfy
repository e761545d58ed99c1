/** Two pieces of the dashboard around the editor: moving the selection in
    the profile list, and reading the active interfaces out of `wg show`. */
module Manager {

  import opened Wrappers
  import opened Text
  import opened Keys

  // ---------------------------------------------------------------------------
  // Profile-list selection

  /** The selection is an index into the list of profiles, or 0 when the list
      is empty. */
  predicate SelectionInRange(selected: nat, count: nat)
  {
    selected == 0 || selected < count
  }

  /** The selection after one key on the main screen: Up/`k` and Down/`j` move
      it by one and stop at either end; other keys leave it. */
  function Select(selected: nat, count: nat, key: Key): (r: nat)
    requires SelectionInRange(selected, count)
    ensures SelectionInRange(r, count)
    ensures r == selected || r + 1 == selected || r == selected + 1
  {
    match key
    case Up | Char('k', _) => if selected > 0 then selected - 1 else selected
    case Down | Char('j', _) => if selected + 1 < count then selected + 1 else selected
    case _ => selected
  }

  /** The selection after `n` presses of the same key. */
  function SelectRepeated(selected: nat, count: nat, key: Key, n: nat): (r: nat)
    requires SelectionInRange(selected, count)
    ensures SelectionInRange(r, count)
    decreases n
  {
    if n == 0 then selected else SelectRepeated(Select(selected, count, key), count, key, n - 1)
  }

  /** Pressing Down `n` times from the top selects entry `n`, or the last entry
      when there are fewer. */
  lemma {:induction false} DownClamps(selected: nat, count: nat, n: nat)
    requires selected < count
    ensures SelectRepeated(selected, count, Down, n) == if selected + n < count then selected + n else count - 1
    decreases n
  {
    if n > 0 {
      DownClamps(Select(selected, count, Down), count, n - 1);
    }
  }

  /** Pressing Up `n` times moves `n` entries up, or to the top. */
  lemma {:induction false} UpClamps(selected: nat, count: nat, n: nat)
    requires SelectionInRange(selected, count)
    ensures SelectRepeated(selected, count, Up, n) == if n <= selected then selected - n else 0
    decreases n
  {
    if n > 0 {
      UpClamps(Select(selected, count, Up), count, n - 1);
    }
  }

  // ---------------------------------------------------------------------------
  // Active interfaces

  /** The interface a line of `wg show` names: the second word of a line that
      contains `interface:`. */
  function InterfaceOf(line: String): (name: Option<String>)
    ensures name.Some? <==> Contains(line, "interface:") && |Words(line)| >= 2
    ensures name.Some? ==> IsWord(name.value) && name.value in Words(line)
  {
    if Contains(line, "interface:") then
      var words := Words(line);
      if |words| >= 2 then Some(words[1]) else None
    else None
  }

  /** The interfaces the given lines name, in order. */
  function Interfaces(lines: seq<String>): (names: seq<String>)
    ensures |names| <= |lines|
    ensures forall i :: 0 <= i < |names| ==> IsWord(names[i])
  {
    if lines == [] then []
    else
      var last := lines[|lines| - 1];
      Interfaces(lines[..|lines| - 1]) + match InterfaceOf(last) case Some(name) => [name] case None => []
  }

  /** Every line that names an interface contributes exactly that name, in
      line order. */
  lemma {:induction false} InterfacesAppend(a: seq<String>, b: seq<String>)
    ensures Interfaces(a + b) == Interfaces(a) + Interfaces(b)
    decreases |b|
  {
    if b == [] {
      assert a + b == a;
    } else {
      var n := |b| - 1;
      assert (a + b)[..|a + b| - 1] == a + b[..n];
      assert (a + b)[|a + b| - 1] == b[n];
      InterfacesAppend(a, b[..n]);
    }
  }

  /** Line `i` of `lines` names `name`. */
  predicate NamesAt(lines: seq<String>, i: int, name: String)
  {
    0 <= i < |lines| && InterfaceOf(lines[i]) == Some(name)
  }

  /** A name is listed exactly when some line names it. */
  lemma {:induction false} InterfacesListed(lines: seq<String>, name: String)
    ensures name in Interfaces(lines) <==> exists i :: NamesAt(lines, i, name)
    decreases |lines|
  {
    if lines != [] {
      var n := |lines| - 1;
      var init := lines[..n];
      InterfacesListed(init, name);
      assert name in Interfaces(lines) <==> name in Interfaces(init) || InterfaceOf(lines[n]) == Some(name);
      assert forall i :: NamesAt(init, i, name) ==> NamesAt(lines, i, name);
      assert forall i :: NamesAt(lines, i, name) ==> i == n || NamesAt(init, i, name);
      assert InterfaceOf(lines[n]) == Some(name) ==> NamesAt(lines, n, name);
    }
  }

  /** The header line `wg show` prints for an interface names it. */
  lemma HeaderNamesInterface(name: String)
    requires IsWord(name)
    ensures InterfaceOf("interface: " + name) == Some(name)
  {
    var line := "interface: " + name;
    assert line[0..|"interface:"|] == "interface:";
    assert OccursAt(line, "interface:", 0);
    assert IsWord("interface:");
    assert line == JoinWith(["interface:", name], ' ');
    WordsJoin(["interface:", name], ' ');
  }

  /** `get_active_vpns` on the captured output of `wg show`. */
  method ActiveVpns(output: String) returns (active: seq<String>)
    ensures active == Interfaces(Lines(output))
  {
    var lines := Lines(output);
    active := [];
    var i := 0;
    while i < |lines|
      invariant 0 <= i <= |lines|
      invariant active == Interfaces(lines[..i])
    {
      assert lines[..i + 1][..i] == lines[..i];
      match InterfaceOf(lines[i]) {
        case Some(name) =>
          active := active + [name];
        case None =>
      }
      i := i + 1;
    }
    assert lines[..|lines|] == lines;
  }
}
