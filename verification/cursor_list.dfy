/** A list of items with a cursor that moves with the arrow keys (or `k`
    and `j`) and selects with enter. */
module CursorList {
  import opened Tea

  /** An item: a value with its own view, or a value wrapped for display,
      kept here as its printed form. */
  datatype Item<V> = Viewer(v: V) | Printed(text: string)

  /** The list's items in display order, its cursor, and what selecting an
      item produces. */
  datatype List<!V> = List(items: seq<Item<V>>, cursor: int, selected: Item<V> -> Option<Cmd>)

  /** The outcome of an update: the next list and command, or the index
      panic that selecting at an out-of-range cursor raises. */
  datatype Step<!V> = Next(list: List<V>, cmd: Option<Cmd>) | IndexPanic

  const Enter: string := "enter"

  predicate IsQuit(msg: Msg) { msg == KeyPress(CtrlC) || msg == KeyPress("q") }
  predicate IsUp(msg: Msg) { msg == KeyPress("up") || msg == KeyPress("k") }
  predicate IsDown(msg: Msg) { msg == KeyPress("down") || msg == KeyPress("j") }

  /** How an item shows, given how values show. */
  function Text<V>(it: Item<V>, show: V -> string): string {
    match it
    case Viewer(v) => show(v)
    case Printed(t) => t
  }

  /** An empty list with the cursor on top and a selection that yields
      no command. */
  function NewList<V(!new)>(): (l: List<V>)
    ensures l.items == [] && l.cursor == 0
    ensures forall it :: l.selected(it) == None
  {
    List([], 0, _ => None)
  }

  /** Removes every item; the cursor is left where it was. */
  function Clear<V>(l: List<V>): (r: List<V>)
    ensures r.items == [] && r.cursor == l.cursor && r.selected == l.selected
  {
    l.(items := [])
  }

  function SetSelectedFunc<V>(l: List<V>, f: Item<V> -> Option<Cmd>): (r: List<V>)
    ensures r.selected == f && r.items == l.items && r.cursor == l.cursor
  {
    l.(selected := f)
  }

  /** Appends a value that has its own view. */
  function AddItem<V>(l: List<V>, v: V): (r: List<V>)
    ensures |r.items| == |l.items| + 1 && r.items[..|l.items|] == l.items
    ensures r.items[|l.items|] == Viewer(v)
    ensures r.cursor == l.cursor && r.selected == l.selected
  {
    l.(items := l.items + [Viewer(v)])
  }

  /** Appends a value shown by its printed form `text`. */
  function Add<V>(l: List<V>, text: string): (r: List<V>)
    ensures |r.items| == |l.items| + 1 && r.items[..|l.items|] == l.items
    ensures r.items[|l.items|] == Printed(text)
    ensures r.cursor == l.cursor && r.selected == l.selected
  {
    l.(items := l.items + [Printed(text)])
  }

  /** `CurrentItem`: the item under the cursor; `None` where indexing
      `items` at the cursor panics. */
  function CurrentItem<V>(l: List<V>): (r: Option<Item<V>>)
    ensures r.Some? <==> 0 <= l.cursor < |l.items|
    ensures r.Some? ==> r.value == l.items[l.cursor]
  {
    if 0 <= l.cursor < |l.items| then Some(l.items[l.cursor]) else None
  }

  /** The cursor after the reset every update starts with: a cursor beyond
      the end is moved to the top, one exactly at the end is kept. */
  function EntryCursor<V>(l: List<V>): int {
    if l.cursor > |l.items| then 0 else l.cursor
  }

  /** One message through the list. */
  function Update<V>(l: List<V>, msg: Msg): (r: Step<V>)
    ensures r.IndexPanic? <==> msg == KeyPress(Enter) && !(0 <= EntryCursor(l) < |l.items|)
    ensures r.Next? ==> r.list.items == l.items && r.list.selected == l.selected
    ensures r.Next? && msg == KeyPress(Enter) ==>
      r.list.cursor == EntryCursor(l) && r.cmd == l.selected(l.items[EntryCursor(l)])
    ensures IsQuit(msg) ==> r.Next? && r.list.cursor == EntryCursor(l) && r.cmd == Some(Quit)
    ensures IsUp(msg) ==>
      && r.Next? && r.cmd == None
      && r.list.cursor == (if EntryCursor(l) > 0 then EntryCursor(l) - 1 else EntryCursor(l))
    ensures IsDown(msg) ==>
      && r.Next? && r.cmd == None
      && r.list.cursor == (if EntryCursor(l) < |l.items| - 1 then EntryCursor(l) + 1 else EntryCursor(l))
    ensures msg != KeyPress(Enter) && !IsQuit(msg) && !IsUp(msg) && !IsDown(msg) ==>
      r == Next(l.(cursor := EntryCursor(l)), None)
  {
    var l0 := l.(cursor := EntryCursor(l));
    if msg == KeyPress(Enter) then
      match CurrentItem(l0)
      case None => IndexPanic
      case Some(it) => Next(l0, l0.selected(it))
    else if IsQuit(msg) then Next(l0, Some(Quit))
    else if IsUp(msg) then
      Next(if l0.cursor > 0 then l0.(cursor := l0.cursor - 1) else l0, None)
    else if IsDown(msg) then
      Next(if l0.cursor < |l0.items| - 1 then l0.(cursor := l0.cursor + 1) else l0, None)
    else Next(l0, None)
  }

  /** From a non-negative cursor, an update never makes it negative and
      never moves it past the end of the list. */
  lemma CursorStaysBounded<V>(l: List<V>, msg: Msg)
    requires 0 <= l.cursor
    ensures Update(l, msg).Next? ==> 0 <= Update(l, msg).list.cursor <= |l.items|
  {
  }

  /** A cursor on an item stays on an item, and nothing panics. */
  lemma CursorStaysOnItem<V>(l: List<V>, msg: Msg)
    requires 0 <= l.cursor < |l.items|
    ensures Update(l, msg).Next?
    ensures 0 <= Update(l, msg).list.cursor < |l.items|
  {
  }

  /** The list after a sequence of messages; `None` once one panics. */
  function Run<V>(l: List<V>, msgs: seq<Msg>): Option<List<V>>
    decreases |msgs|
  {
    if |msgs| == 0 then Some(l)
    else match Update(l, msgs[0])
      case IndexPanic => None
      case Next(l1, _) => Run(l1, msgs[1..])
  }

  /** Starting on an item, no message sequence panics, the items stay as
      they are and the cursor stays on an item. */
  lemma {:induction false} RunStaysOnItem<V>(l: List<V>, msgs: seq<Msg>)
    requires 0 <= l.cursor < |l.items|
    ensures Run(l, msgs).Some?
    ensures Run(l, msgs).value.items == l.items
    ensures 0 <= Run(l, msgs).value.cursor < |l.items|
    decreases |msgs|
  {
    if |msgs| > 0 {
      CursorStaysOnItem(l, msgs[0]);
      RunStaysOnItem(Update(l, msgs[0]).list, msgs[1..]);
    }
  }

  /** After `Clear`, selecting panics, and a cursor left behind the end is
      reset to the top by the next non-selecting update. */
  lemma ClearThenUpdate<V>(l: List<V>, msg: Msg)
    ensures Update(Clear(l), KeyPress(Enter)).IndexPanic?
    ensures msg != KeyPress(Enter) && l.cursor > 0 ==> Update(Clear(l), msg).list.cursor == 0
  {
  }

  /** The reset spares a cursor exactly at the end: a list cleared with its
      cursor on the second line and refilled with one item panics on enter. */
  lemma RefilledListPanicsOnEnter<V>(l: List<V>, text: string)
    requires l.cursor == 1
    ensures Update(Add(Clear(l), text), KeyPress(Enter)).IndexPanic?
    ensures Update(Add(Clear(l), text), KeyPress("up")).list.cursor == 0
  {
  }

  /** The marker in front of each line. */
  function Marker(atCursor: bool): string {
    if atCursor then "> " else "  "
  }

  /** The lines of the view, without their line ends. */
  function Lines<V>(l: List<V>, show: V -> string): seq<string> {
    seq(|l.items|, i requires 0 <= i < |l.items| => Marker(i == l.cursor) + Text(l.items[i], show))
  }

  /** Exactly the line at the cursor is marked; every other line is
      indented, and each line ends with its item's text. */
  lemma MarkerOnlyAtCursor<V>(l: List<V>, show: V -> string)
    ensures |Lines(l, show)| == |l.items|
    ensures forall i :: 0 <= i < |l.items| ==>
      && Lines(l, show)[i][2..] == Text(l.items[i], show)
      && (Lines(l, show)[i][..2] == "> " <==> i == l.cursor)
  {
    forall i | 0 <= i < |l.items|
      ensures Lines(l, show)[i][2..] == Text(l.items[i], show)
      ensures Lines(l, show)[i][..2] == "> " <==> i == l.cursor
    {
      var line := Lines(l, show)[i];
      assert line == Marker(i == l.cursor) + Text(l.items[i], show);
      assert line[..2] == Marker(i == l.cursor);
      assert "  " != "> " by { assert "  "[0] != "> "[0]; }
    }
  }

  /** Each string of `ss` followed by a line end, in order. */
  function Unlines(ss: seq<string>): string
    decreases |ss|
  {
    if |ss| == 0 then "" else Unlines(ss[..|ss| - 1]) + ss[|ss| - 1] + "\n"
  }

  lemma {:induction false} UnlinesCons(x: string, ss: seq<string>)
    ensures Unlines([x] + ss) == x + "\n" + Unlines(ss)
    decreases |ss|
  {
    if |ss| > 0 {
      var init := ss[..|ss| - 1];
      assert ([x] + ss)[..|[x] + ss| - 1] == [x] + init;
      UnlinesCons(x, init);
    } else {
      assert [x] + ss == [x];
      assert [x][..0] == [];
    }
  }

  /** The length of the first line of `s`: the index of its first line end,
      or `|s|` when there is none. */
  function LineEnd(s: string): (k: nat)
    ensures k <= |s|
    ensures forall j :: 0 <= j < k ==> s[j] != '\n'
    ensures k < |s| ==> s[k] == '\n'
    decreases |s|
  {
    if |s| == 0 || s[0] == '\n' then 0 else 1 + LineEnd(s[1..])
  }

  /** Splits text into its lines, each without its line end. */
  function SplitLines(s: string): seq<string>
    decreases |s|
  {
    if |s| == 0 then []
    else
      var k := LineEnd(s);
      [s[..k]] + (if k < |s| then SplitLines(s[k + 1..]) else [])
  }

  /** Splitting undoes joining, for lines that hold no line end. */
  lemma {:induction false} SplitUnlines(ss: seq<string>)
    requires forall i :: 0 <= i < |ss| ==> '\n' !in ss[i]
    ensures SplitLines(Unlines(ss)) == ss
    decreases |ss|
  {
    if |ss| > 0 {
      var rest := ss[1..];
      assert [ss[0]] + rest == ss;
      UnlinesCons(ss[0], rest);
      var s := Unlines(ss);
      assert s == ss[0] + "\n" + Unlines(rest);
      var k := LineEnd(s);
      assert s[|ss[0]|] == '\n';
      assert k == |ss[0]|;
      assert s[..k] == ss[0];
      assert s[k + 1..] == Unlines(rest);
      assert forall i :: 0 <= i < |rest| ==> '\n' !in rest[i] by {
        forall i | 0 <= i < |rest| ensures '\n' !in rest[i] {
          assert rest[i] == ss[i + 1];
        }
      }
      SplitUnlines(rest);
    }
  }

  /** Renders one line per item, the cursor's line marked with `"> "` and
      every other line indented by two spaces. When no item's text holds a
      line end, splitting the view into lines gives back exactly one line
      per item, in order. */
  method View<V>(l: List<V>, show: V -> string) returns (s: string)
    ensures s == Unlines(Lines(l, show))
    ensures (forall i :: 0 <= i < |l.items| ==> '\n' !in Text(l.items[i], show)) ==>
      SplitLines(s) == Lines(l, show)
  {
    var lines := Lines(l, show);
    s := "";
    var idx := 0;
    while idx < |l.items|
      invariant 0 <= idx <= |l.items|
      invariant s == Unlines(lines[..idx])
    {
      var marker := if idx == l.cursor then "> " else "  ";
      assert lines[..idx + 1][..idx] == lines[..idx];
      assert lines[idx] == marker + Text(l.items[idx], show);
      s := s + (marker + Text(l.items[idx], show)) + "\n";
      idx := idx + 1;
    }
    assert lines[..idx] == lines;
    if forall i :: 0 <= i < |l.items| ==> '\n' !in Text(l.items[i], show) {
      forall i | 0 <= i < |lines| ensures '\n' !in lines[i] {
        assert lines[i] == Marker(i == l.cursor) + Text(l.items[i], show);
      }
      SplitUnlines(lines);
    }
  }
}
