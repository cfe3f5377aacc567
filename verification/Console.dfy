/** The three terminals of drivers/keyboard.c as one state: what each screen shows, the line buffers in
    their one array, and what keys, terminal_read and terminal_write do to them. */
module Console {
  import opened Bytes
  import opened Screen
  import CStrings

  const NUM_TERMINALS := 3
  const MAX_CHARS_IN_BUF := 1023
  /** The cells of keyboard_buf and the one behind them. */
  const KEY_CELLS := 3070

  /** `lib` is the copy of the active terminal that lib/lib.c keeps: new_line, putc and del_last_char
      refresh it, clear_screen does not. `keys` holds the rows of keyboard_buf one after the other. */
  datatype Console = Console(
    views: seq<View>, active: nat, lib: nat, keys: seq<Byte>, num: seq<nat>, ready: seq<bool>)

  ghost predicate ValidConsole(c: Console) {
    && |c.views| == |c.num| == |c.ready| == NUM_TERMINALS && |c.keys| == KEY_CELLS
    && c.active < NUM_TERMINALS && c.lib < NUM_TERMINALS
    && (forall t :: 0 <= t < NUM_TERMINALS ==> ValidView(c.views[t]))
    && forall t :: 0 <= t < NUM_TERMINALS ==> c.num[t] <= MAX_CHARS_IN_BUF
  }

  /** Where the row of a terminal starts. */
  function RowAt(t: nat): nat {
    MAX_CHARS_IN_BUF * t
  }

  /** The line being edited on a terminal. */
  function Line(c: Console, t: nat): (r: seq<Byte>)
    requires ValidConsole(c) && t < NUM_TERMINALS
    ensures |r| == c.num[t]
  {
    c.keys[RowAt(t)..RowAt(t) + c.num[t]]
  }

  /** Output goes to the active terminal. */
  function OnActive(c: Console, v: View): (r: Console)
    requires ValidConsole(c) && ValidView(v)
    ensures ValidConsole(r)
  {
    c.(views := c.views[c.active := v], lib := c.active)
  }

  function LineBroken(c: Console): (r: Console)
    requires ValidConsole(c)
    ensures ValidConsole(r)
  {
    OnActive(c, NewLineView(c.views[c.active]))
  }

  /** add_char_to_buffer accepts anything until the row is full. */
  function AddChar(c: Console, ch: Byte, term: nat): (r: Console)
    requires ValidConsole(c) && term < NUM_TERMINALS
    ensures ValidConsole(r)
  {
    if c.num[term] >= MAX_CHARS_IN_BUF || ch == NUL then c
    else if ch == LF then LineBroken(c)
    else
      OnActive(c.(keys := c.keys[RowAt(term) + c.num[term] := ch], num := c.num[term := c.num[term] + 1]),
               PutcView(c.views[c.active], ch))
  }

  /** handle_backspace. */
  function Backspace(c: Console): (r: Console)
    requires ValidConsole(c) && c.num[c.active] <= Pos(c.views[c.active])
    ensures ValidConsole(r) && r.active == c.active && r.num[r.active] <= Pos(r.views[r.active])
  {
    var n := c.num[c.active];
    if n == 0 then c
    else OnActive(c.(keys := c.keys[RowAt(c.active) + n - 1 := NUL], num := c.num[c.active := n - 1]),
                  DelView(c.views[c.active]))
  }

  /** reset_curr_command: backspaces until the line is empty. */
  ghost function CommandErased(c: Console): (r: Console)
    requires ValidConsole(c) && c.num[c.active] <= Pos(c.views[c.active])
    ensures ValidConsole(r) && r.active == c.active
    decreases c.num[c.active]
  {
    if c.num[c.active] == 0 then c else CommandErased(Backspace(c))
  }

  /** handle_enter fills the row behind the line with NULs, and one cell more. */
  function Enter(c: Console): (r: Console)
    requires ValidConsole(c)
    ensures ValidConsole(r)
  {
    var n := c.num[c.active];
    c.(keys := Stored(c.keys, RowAt(c.active) + n, Repeat(NUL, MAX_CHARS_IN_BUF + 1 - n)), ready := c.ready[c.active := true])
  }

  /** terminal_read hands out nbytes + 1 cells of the row and clears them. */
  function CellsRead(nbytes: int): nat {
    if nbytes < 0 then 0 else nbytes + 1
  }

  predicate CanRead(c: Console, running: nat, nbytes: int) {
    running < NUM_TERMINALS && RowAt(running) + CellsRead(nbytes) <= KEY_CELLS
  }

  function Delivered(c: Console, running: nat, nbytes: int): seq<Byte>
    requires ValidConsole(c) && CanRead(c, running, nbytes)
  {
    c.keys[RowAt(running)..RowAt(running) + CellsRead(nbytes)]
  }

  function Read(c: Console, running: nat, nbytes: int): (r: Console)
    requires ValidConsole(c) && CanRead(c, running, nbytes)
    ensures ValidConsole(r)
  {
    var d := LineBroken(c);
    d.(keys := Stored(c.keys, RowAt(running), Repeat(NUL, CellsRead(nbytes))),
       num := c.num[running := 0], ready := c.ready[running := false])
  }

  /** The characters of a text one after the other. */
  ghost function AddText(c: Console, text: seq<Byte>, term: nat): (r: Console)
    requires ValidConsole(c) && term < NUM_TERMINALS
    ensures ValidConsole(r)
    decreases |text|
  {
    if text == [] then c else AddText(AddChar(c, text[0], term), text[1..], term)
  }

  /** terminal_write adds the text to the line of the running terminal and forgets the active line. */
  ghost function Write(c: Console, text: seq<Byte>, running: nat): (r: Console)
    requires ValidConsole(c) && running < NUM_TERMINALS
    ensures ValidConsole(r)
  {
    var d := AddText(c, text, running);
    d.(num := d.num[c.active := 0], ready := d.ready[c.active := false])
  }

  /** clear_screen blanks the video page, which shows the active terminal, but sends home the cursor of
      the terminal that lib/lib.c last printed on. */
  function ScreenCleared(c: Console): (r: Console)
    requires ValidConsole(c)
    ensures ValidConsole(r)
  {
    var blank := c.views[c.active := c.views[c.active].(cells := Repeat(SPACE, CELLS))];
    c.(views := blank[c.lib := blank[c.lib].(x := 0, y := 0)])
  }

  /** reset_term. */
  function TermReset(c: Console): (r: Console)
    requires ValidConsole(c)
    ensures ValidConsole(r)
  {
    ScreenCleared(c.(keys := Stored(c.keys, RowAt(c.active), Repeat(NUL, MAX_CHARS_IN_BUF)), num := c.num[c.active := 0]))
  }

  /** F1, F2 and F3: the screens stay what they are and another one is visible. */
  function FKey(c: Console, dest: nat): (r: Console)
    requires ValidConsole(c) && dest < NUM_TERMINALS
    ensures ValidConsole(r)
  {
    c.(active := dest)
  }

  // ------------------------------------------------------------------ what every edit keeps

  /** The n cells before a position spell the n keys of a row, none of them NUL. */
  ghost predicate Spells(cells: seq<Byte>, pos: nat, keys: seq<Byte>, at: nat, n: nat)
    requires pos <= |cells| && at + n <= |keys|
  {
    && n <= pos
    && forall i {:trigger cells[i]} :: pos - n <= i < pos ==> cells[i] == keys[at + n - pos + i] != NUL
  }

  /** The cells just before the cursor spell the line; there are enough of them. */
  ghost predicate Coherent(c: Console, t: nat)
    requires ValidConsole(c) && t < NUM_TERMINALS
  {
    Spells(c.views[t].cells, Pos(c.views[t]), c.keys, RowAt(t), c.num[t])
  }

  /** Once Enter was pressed the row behind the line is empty. */
  ghost predicate Terminal(c: Console, t: nat)
    requires ValidConsole(c) && t < NUM_TERMINALS
  {
    c.ready[t] ==> forall i {:trigger c.keys[i]} :: RowAt(t) + c.num[t] <= i < RowAt(t + 1) ==> c.keys[i] == NUL
  }

  ghost predicate Sound(c: Console, t: nat)
    requires ValidConsole(c) && t < NUM_TERMINALS
  {
    Coherent(c, t) && Terminal(c, t)
  }

  ghost predicate Inv(c: Console) {
    && ValidConsole(c)
    && forall t :: 0 <= t < NUM_TERMINALS ==> Sound(c, t)
  }

  /** A character that takes a cell. */
  predicate Printable(ch: Byte) {
    ch != LF && ch != CR
  }

  /** The terminal keeps its screen, its line and its row. */
  ghost predicate SameTerminal(c: Console, c': Console, t: nat)
    requires ValidConsole(c) && ValidConsole(c') && t < NUM_TERMINALS
  {
    && c'.views[t] == c.views[t] && c'.num[t] == c.num[t] && c'.ready[t] == c.ready[t]
    && forall i {:trigger c'.keys[i]} :: RowAt(t) <= i < RowAt(t + 1) ==> c'.keys[i] == c.keys[i]
  }

  lemma SameTerminalSound(c: Console, c': Console, t: nat)
    requires ValidConsole(c) && ValidConsole(c') && t < NUM_TERMINALS
    requires SameTerminal(c, c', t) && Sound(c, t)
    ensures Sound(c', t)
  {
  }

  /** A typed character lengthens the line and the screen together, also where the screen wraps or
      scrolls: 1023 characters fit in the 24 rows above the last. */
  lemma TypeSpells(v: View, keys: seq<Byte>, at: nat, n: nat, ch: Byte)
    requires ValidView(v) && n < MAX_CHARS_IN_BUF && at + n < |keys| && ch != NUL
    requires Spells(v.cells, Pos(v), keys, at, n)
    ensures Spells(PutView(v, ch).cells, Pos(PutView(v, ch)), keys[at + n := ch], at, n + 1)
  {
    var w, keys' := PutView(v, ch), keys[at + n := ch];
    var up := Pos(v) + 1 - Pos(w);
    forall i {:trigger w.cells[i]} | Pos(w) - (n + 1) <= i < Pos(w)
      ensures w.cells[i] == keys'[at + (n + 1) - Pos(w) + i] != NUL
    {
      var j, k := i + up, at + (n + 1) - Pos(w) + i;
      assert w.cells[i] == v.cells[Pos(v) := ch][j] && k == at + n - Pos(v) + j;
      if j < Pos(v) {
        assert v.cells[j] == keys[k] != NUL;
      }
    }
  }

  lemma EraseSpells(v: View, keys: seq<Byte>, at: nat, n: nat)
    requires ValidView(v) && 0 < n <= MAX_CHARS_IN_BUF && at + n <= |keys|
    requires Spells(v.cells, Pos(v), keys, at, n)
    ensures Spells(DelView(v).cells, Pos(DelView(v)), keys[at + n - 1 := NUL], at, n - 1)
  {
  }

  lemma TypeKeepsInv(c: Console, ch: Byte, c': Console)
    requires Inv(c) && Printable(ch) && c' == AddChar(c, ch, c.active)
    ensures Inv(c')
  {
    var t, n := c.active, c.num[c.active];
    if n < MAX_CHARS_IN_BUF && ch != NUL {
      assert Sound(c, t);
      TypeSpells(c.views[t], c.keys, RowAt(t), n, ch);
      forall u | 0 <= u < NUM_TERMINALS && u != t ensures Sound(c', u) {
        assert Sound(c, u);
        SameTerminalSound(c, c', u);
      }
    }
  }

  /** There is always a cell before the cursor for every character of the line: backspace never leaves the
      screen. */
  lemma BackspaceKeepsInv(c: Console)
    requires Inv(c)
    ensures c.num[c.active] <= Pos(c.views[c.active]) && Inv(Backspace(c))
  {
    var t, n := c.active, c.num[c.active];
    assert Sound(c, t);
    if n > 0 {
      var c' := Backspace(c);
      EraseSpells(c.views[t], c.keys, RowAt(t), n);
      forall u | 0 <= u < NUM_TERMINALS && u != t ensures Sound(c', u) {
        assert Sound(c, u);
        SameTerminalSound(c, c', u);
      }
    }
  }

  /** Enter keeps every terminal sound exactly when the next one, whose row begins behind this row, has
      no line yet. */
  lemma EnterKeepsInvExactlyWhen(c: Console, c': Console)
    requires Inv(c) && c' == Enter(c)
    ensures Inv(c') <==> c.active == 2 || c.num[c.active + 1] == 0
  {
    var t := c.active;
    assert Sound(c, t);
    assert Sound(c', t) by { EnterSound(c, c'); }
    forall u | 0 <= u < NUM_TERMINALS && u != t && u != t + 1 ensures Sound(c', u) {
      assert Sound(c, u);
      SameTerminalSound(c, c', u);
    }
    if t != 2 {
      assert Sound(c, t + 1);
      if c.num[t + 1] == 0 {
        assert Sound(c', t + 1);
      } else {
        EnterClobbers(c, c');
      }
    }
  }

  lemma EnterSound(c: Console, c': Console)
    requires Inv(c) && c' == Enter(c)
    ensures Sound(c', c.active)
  {
    assert Sound(c, c.active);
  }

  lemma EnterClobbers(c: Console, c': Console)
    requires Inv(c) && c' == Enter(c) && c.active < 2 && c.num[c.active + 1] > 0
    ensures !Sound(c', c.active + 1)
  {
    var t := c.active + 1;
    assert Sound(c, t);
    assert c'.keys[RowAt(t)] == NUL;
    var v := c'.views[t];
    assert v.cells[Pos(v) - c.num[t]] != NUL;
  }

  /** terminal_read on the active terminal keeps every terminal sound exactly when the cells it takes
      reach no other line. */
  lemma ReadKeepsInvExactlyWhen(c: Console, nbytes: int, c': Console)
    requires Inv(c) && CanRead(c, c.active, nbytes) && c' == Read(c, c.active, nbytes)
    ensures Inv(c') <==> forall u :: c.active < u < NUM_TERMINALS ==> c.num[u] == 0 || RowAt(c.active) + CellsRead(nbytes) <= RowAt(u)
  {
    var t, end := c.active, RowAt(c.active) + CellsRead(nbytes);
    assert Sound(c', t);
    forall u | 0 <= u < NUM_TERMINALS && u != t
      ensures Sound(c', u) <==> u < t || c.num[u] == 0 || end <= RowAt(u)
    {
      assert Sound(c, u);
      if u < t || end <= RowAt(u) {
        SameTerminalSound(c, c', u);
      } else if c.num[u] == 0 {
        assert Sound(c', u);
      } else {
        var v := c'.views[u];
        assert c'.keys[RowAt(u)] == NUL && v.cells[Pos(v) - c.num[u]] != NUL;
      }
    }
  }

  /** After Enter terminal_read hands out the line, cut or filled up with NULs to nbytes + 1 bytes, and
      leaves the line empty. */
  lemma ReadDelivers(c: Console, running: nat, nbytes: int)
    requires Inv(c) && running < NUM_TERMINALS && c.ready[running] && nbytes < MAX_CHARS_IN_BUF
    ensures CanRead(c, running, nbytes)
    ensures Delivered(c, running, nbytes) == CStrings.Padded(Line(c, running), if nbytes < 0 then 0 else nbytes + 1)
    ensures Line(Read(c, running, nbytes), running) == [] && !Read(c, running, nbytes).ready[running]
  {
    assert Sound(c, running);
  }

  lemma {:induction false} AddTextElsewhere(c: Console, text: seq<Byte>, u: nat)
    requires ValidConsole(c) && u < NUM_TERMINALS && u != c.active
    ensures SameTerminal(c, AddText(c, text, c.active), u) && AddText(c, text, c.active).active == c.active
    decreases |text|
  {
    if text != [] {
      var d := AddChar(c, text[0], c.active);
      assert SameTerminal(c, d, u);
      AddTextElsewhere(d, text[1..], u);
    }
  }

  lemma WriteKeepsInv(c: Console, text: seq<Byte>, c': Console)
    requires Inv(c) && c' == Write(c, text, c.active)
    ensures Inv(c') && c'.active == c.active
  {
    var d := AddText(c, text, c.active);
    AddTextElsewhere(c, text, (c.active + 1) % 3);
    forall u | 0 <= u < NUM_TERMINALS && u != c.active ensures Sound(c', u) {
      AddTextElsewhere(c, text, u);
      assert Sound(c, u) && SameTerminal(c, c', u);
      SameTerminalSound(c, c', u);
    }
    assert Sound(c', c.active);
  }

  /** clear_screen clears the active screen, and that only, exactly when lib/lib.c last printed on the
      active terminal or both cursors are at the top left anyway. */
  lemma ClearsExactlyWhen(c: Console)
    requires ValidConsole(c)
    ensures ScreenCleared(c).views == c.views[c.active := BLANK_VIEW]
       <==> c.lib == c.active || (Pos(c.views[c.active]) == 0 && Pos(c.views[c.lib]) == 0)
  {
    var v := ScreenCleared(c).views;
    assert c.views[c.active := BLANK_VIEW][c.active] == BLANK_VIEW;
    assert c.lib != c.active ==> c.views[c.active := BLANK_VIEW][c.lib] == c.views[c.lib];
    assert v[c.lib].x == 0 && v[c.lib].y == 0;
    assert forall u :: 0 <= u < NUM_TERMINALS && u != c.active && u != c.lib ==> v[u] == c.views[u];
  }

  predicate Blank(line: seq<Byte>) {
    forall k :: 0 <= k < |line| ==> line[k] == SPACE
  }

  lemma ClearKeepsInvExactlyWhen(c: Console, c': Console)
    requires Inv(c) && c' == ScreenCleared(c)
    ensures Inv(c') <==> if c.lib == c.active then c.num[c.active] == 0
                         else c.num[c.lib] == 0 && Blank(Line(c, c.active))
  {
    forall u | 0 <= u < NUM_TERMINALS && u != c.active && u != c.lib ensures Sound(c', u) {
      assert Sound(c, u);
      SameTerminalSound(c, c', u);
    }
    assert Sound(c, c.active) && Sound(c, c.lib);
    if c.lib == c.active {
      assert Sound(c', c.lib) <==> c.num[c.lib] == 0;
    } else {
      assert Sound(c', c.lib) <==> c.num[c.lib] == 0;
      BlankSpells(c, c');
    }
  }

  lemma BlankSpells(c: Console, c': Console)
    requires Inv(c) && c' == ScreenCleared(c) && c.lib != c.active
    ensures Sound(c', c.active) <==> Blank(Line(c, c.active))
  {
    var t := c.active;
    var n, v, line := c.num[t], c.views[t], Line(c, t);
    assert Sound(c, t);
    assert c'.views[t].cells == Repeat(SPACE, CELLS);
    if Sound(c', t) {
      forall k | 0 <= k < n ensures line[k] == SPACE {
        assert c'.views[t].cells[Pos(v) - n + k] == SPACE;
      }
    }
  }

  lemma ResetKeepsInvExactlyWhen(c: Console, c': Console)
    requires Inv(c) && c' == TermReset(c)
    ensures Inv(c') <==> c.lib == c.active || c.num[c.lib] == 0
  {
    assert Sound(c', c.active);
    forall u | 0 <= u < NUM_TERMINALS && u != c.active && u != c.lib ensures Sound(c', u) {
      assert Sound(c, u);
      SameTerminalSound(c, c', u);
    }
    assert Sound(c, c.lib);
    assert c.lib != c.active ==> (Sound(c', c.lib) <==> c.num[c.lib] == 0);
  }

  /** Erasing the command empties the line and takes exactly its characters off the log of the screen. */
  lemma {:induction false} CommandErasedIsGone(c: Console, l: Log)
    requires Inv(c) && ValidLog(l) && Shows(c.views[c.active], l)
    ensures c.num[c.active] <= Pos(c.views[c.active]) && c.num[c.active] <= |l.text|
    ensures var d := CommandErased(c);
            && Inv(d) && Line(d, d.active) == []
            && Shows(d.views[d.active], Log(l.text[..|l.text| - c.num[c.active]], l.top))
    decreases c.num[c.active]
  {
    var t, n := c.active, c.num[c.active];
    assert Sound(c, t);
    if n == 0 {
      assert l.text[..|l.text|] == l.text;
    } else {
      BackspaceKeepsInv(c);
      EraseShows(c.views[t], l);
      var m := LogAfter(l, Erase);
      CommandErasedIsGone(Backspace(c), m);
      assert m.text[..|m.text| - (n - 1)] == l.text[..|l.text| - n];
    }
  }
}
