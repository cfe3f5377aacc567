/** The screen routines of lib/lib.c and the line editor of drivers/keyboard.c over video memory and
    keyboard_buf. Each is proved to do what the console of three separate screens does. */
module Keyboard {
  import opened Bytes
  import opened Screen
  import opened Console
  import opened ConsoleWrite
  import opened VideoMemory

  /** The page a terminal's characters are in. */
  function PageOf(t: nat, active: nat): nat {
    if t == active then VIDEO else BackingPage(t)
  }

  /** Low memory holds the characters of every screen, the visible ones in the active terminal's colour. */
  ghost predicate PagesRep(m: seq<Byte>, color: Byte, c: Console)
    requires ValidConsole(c) && |m| == MEMORY
  {
    && color == ColorOf(c.active) && Coloured(m, color)
    && forall t :: 0 <= t < NUM_TERMINALS ==> ShowsPage(m, PageOf(t, c.active), c.views[t].cells)
  }

  /** The cursors of all screens, but for the column of the active one. */
  ghost predicate CursorsRep(screenX: seq<nat>, screenY: seq<nat>, c: Console)
    requires ValidConsole(c)
  {
    && |screenX| == |screenY| == NUM_TERMINALS
    && (forall t :: 0 <= t < NUM_TERMINALS ==> screenY[t] == c.views[t].y)
    && forall t :: 0 <= t < NUM_TERMINALS && t != c.active ==> screenX[t] == c.views[t].x
  }

  /** Only the visible page has changed. */
  lemma VisiblePageRep(now: seq<Byte>, was: seq<Byte>, color: Byte, c: Console, c': Console)
    requires ValidConsole(c) && ValidConsole(c') && |was| == MEMORY && PagesRep(was, color, c)
    requires SameOutside(now, was, VIDEO, VIDEO_END) && Coloured(now, color) && c'.active == c.active
    requires ShowsPage(now, VIDEO, c'.views[c.active].cells)
    requires forall t :: 0 <= t < NUM_TERMINALS && t != c.active ==> c'.views[t].cells == c.views[t].cells
    ensures PagesRep(now, color, c')
  {
    forall t | 0 <= t < NUM_TERMINALS ensures ShowsPage(now, PageOf(t, c.active), c'.views[t].cells) {
      if t != c.active {
        assert ShowsPage(was, PageOf(t, c.active), c.views[t].cells);
        PageStays(now, was, VIDEO, VIDEO_END, BackingPage(t), c.views[t].cells);
      }
    }
  }

  /** NULs in some cells. */
  method ClearCells(buf: array<Byte>, at: nat, n: nat)
    requires at + n <= buf.Length
    modifies buf
    ensures buf[..] == Stored(old(buf[..]), at, Repeat(NUL, n))
  {
    ghost var was := buf[..];
    for i := at to at + n
      invariant forall k {:trigger buf[k]} :: at <= k < i ==> buf[k] == NUL
      invariant forall k {:trigger buf[k]} :: 0 <= k < buf.Length && !(at <= k < i) ==> buf[k] == was[k]
    {
      buf[i] := NUL;
    }
  }

  /** The loop of terminal_read: cell by cell to the caller, then NUL. */
  method TakeCells(buf: array<Byte>, at: nat, n: nat, out: array<Byte>)
    requires at + n <= buf.Length && n <= out.Length && out != buf
    modifies buf, out
    ensures buf[..] == Stored(old(buf[..]), at, Repeat(NUL, n))
    ensures out[..] == Stored(old(out[..]), 0, old(buf[at..at + n]))
  {
    ghost var was, wasOut := buf[..], out[..];
    for i := 0 to n
      invariant forall k {:trigger buf[k]} :: at <= k < at + i ==> buf[k] == NUL
      invariant forall k {:trigger buf[k]} :: 0 <= k < buf.Length && !(at <= k < at + i) ==> buf[k] == was[k]
      invariant forall k {:trigger out[k]} :: 0 <= k < i ==> out[k] == was[at + k]
      invariant forall k {:trigger out[k]} :: i <= k < out.Length ==> out[k] == wasOut[k]
    {
      out[i] := buf[at + i];
      buf[at + i] := NUL;
    }
  }

  ghost function BootConsole(cells1: seq<Byte>, cells2: seq<Byte>, keys: seq<Byte>): (r: Console)
    requires |cells1| == |cells2| == CELLS && |keys| == KEY_CELLS
    ensures Inv(r)
  {
    Console([BLANK_VIEW, View(cells1, 0, 0), View(cells2, 0, 0)], 0, 0, keys, [0, 0, 0], [false, false, false])
  }

  class Terminals {
    /** Low memory. */
    const mem: array<Byte>
    /** keyboard_buf and the cell behind it. */
    const buf: array<Byte>
    var screenX: seq<nat>
    var screenY: seq<nat>
    /** text_color, and active_terminal of lib/lib.c. */
    var textColor: Byte
    var lib: nat
    /** active_terminal and prev_terminal of drivers/keyboard.c. */
    var active: nat
    var prevTerminal: nat
    var num: seq<nat>
    var ready: seq<bool>

    ghost var con: Console

    /** All is drawn, but the column of the active terminal is on its way. */
    ghost predicate Drawn()
      reads this, mem, buf
    {
      && mem != buf && mem.Length == MEMORY && ValidConsole(con)
      && lib == con.lib && active == con.active && num == con.num && ready == con.ready
      && CursorsRep(screenX, screenY, con) && PagesRep(mem[..], textColor, con) && buf[..] == con.keys
    }

    ghost predicate Valid()
      reads this, mem, buf
    {
      Drawn() && screenX[active] == con.views[active].x
    }

    /** Boot clears the visible page; what the other two hold stays. */
    constructor (mem: array<Byte>, buf: array<Byte>)
      requires mem != buf && mem.Length == MEMORY && buf.Length == KEY_CELLS
      modifies mem
      ensures Valid() && Inv(con) && con.active == con.lib == 0 && con.views[0] == BLANK_VIEW
      ensures this.mem == mem && this.buf == buf
    {
      this.mem, this.buf := mem, buf;
      screenX, screenY := [0, 0, 0], [0, 0, 0];
      textColor, lib, active, prevTerminal := RED, 0, 0, 0;
      num, ready := [0, 0, 0], [false, false, false];
      new;
      ghost var was := mem[..];
      BlankPage(mem, RED);
      con := BootConsole(CellsAt(was, BackingPage(1)), CellsAt(was, BackingPage(2)), buf[..]);
      PageStays(mem[..], was, VIDEO, VIDEO_END, BackingPage(1), con.views[1].cells);
      PageStays(mem[..], was, VIDEO, VIDEO_END, BackingPage(2), con.views[2].cells);
    }

    /** new_line: whatever the column is, it becomes 0. */
    method NewLine()
      requires Drawn()
      modifies this, mem
      ensures Valid() && con == LineBroken(old(con)) && prevTerminal == old(prevTerminal)
    {
      ghost var c, was := con, mem[..];
      lib := active;
      ghost var cells := con.views[active].cells;
      assert ShowsPage(mem[..], PageOf(active, active), cells);
      if screenY[lib] == NUM_ROWS - 1 {
        ScrollUp(mem, textColor, cells);
        screenY := screenY[lib := NUM_ROWS - 1];
        screenX := screenX[lib := 0];
      } else {
        screenY := screenY[lib := screenY[lib] + 1];
        screenX := screenX[lib := 0];
      }
      con := LineBroken(c);
      VisiblePageRep(mem[..], was, textColor, c, con);
    }

    /** The two bytes of the cursor's cell. */
    method WriteAtCursor(ch: Byte)
      requires Valid()
      modifies this`con, mem
      ensures Valid() && con == old(con).(views := old(con).views[active := ViewWith(old(con).views[active], ch)])
    {
      ghost var c, was := con, mem[..];
      ghost var v := con.views[active];
      assert ShowsPage(mem[..], PageOf(active, active), v.cells);
      var p := NUM_COLS * screenY[active] + screenX[active];
      WriteCell(mem, p, ch, textColor, v.cells);
      con := con.(views := con.views[active := ViewWith(v, ch)]);
      VisiblePageRep(mem[..], was, textColor, c, con);
    }

    /** The last lines of putc: nothing is left to wrap. */
    method WrapCursor()
      requires Valid() && lib == active
      modifies this`screenX, this`screenY
      ensures Valid()
    {
      var x, y := screenX[lib] % NUM_COLS, (screenY[lib] + screenX[lib] / NUM_COLS) % NUM_ROWS;
      screenX, screenY := screenX[lib := x], screenY[lib := y];
    }

    /** putc of a character that takes a cell. */
    method PutInCell(ch: Byte)
      requires Valid()
      modifies this, mem
      ensures Valid() && con == OnActive(old(con), PutView(old(con).views[old(active)], ch)) && lib == active
      ensures prevTerminal == old(prevTerminal)
    {
      ghost var c := con;
      WriteAtCursor(ch);
      lib := active;
      con := con.(lib := active);
      screenX := screenX[lib := screenX[lib] + 1];
      if screenX[lib] == NUM_COLS {
        NewLine();
      } else {
        con := con.(views := con.views[active := PutView(c.views[active], ch)]);
      }
      assert con.views == c.views[active := PutView(c.views[active], ch)];
    }

    /** putc. */
    method Putc(ch: Byte)
      requires Valid()
      modifies this, mem
      ensures Valid() && con == OnActive(old(con), PutcView(old(con).views[old(active)], ch))
      ensures prevTerminal == old(prevTerminal)
    {
      if Breaks(ch) {
        NewLine();
      } else {
        PutInCell(ch);
        WrapCursor();
      }
    }

    /** The cursor goes back by one cell, over the start of a row too. */
    method StepBack()
      requires Valid() && Pos(con.views[active]) > 0
      modifies this
      ensures Valid() && con == OnActive(old(con), SteppedBack(old(con).views[old(active)]))
      ensures active == old(active) && prevTerminal == old(prevTerminal)
    {
      lib := active;
      if screenX[lib] == 0 {
        screenX := screenX[lib := NUM_COLS - 1];
        screenY := screenY[lib := screenY[lib] - 1];
      } else {
        screenX := screenX[lib := screenX[lib] - 1];
      }
      con := OnActive(con, SteppedBack(con.views[active]));
    }

    /** del_last_char. */
    method DelLastChar()
      requires Valid() && Pos(con.views[active]) > 0
      modifies this, mem
      ensures Valid() && con == OnActive(old(con), DelView(old(con).views[old(active)]))
      ensures prevTerminal == old(prevTerminal)
    {
      ghost var c := con;
      StepBack();
      WriteAtCursor(SPACE);
      assert con.views == c.views[active := DelView(c.views[active])];
    }

    /** clear_screen. */
    method ClearScreen()
      requires Valid()
      modifies this, mem
      ensures Valid() && con == ScreenCleared(old(con)) && prevTerminal == old(prevTerminal)
    {
      ghost var c, was := con, mem[..];
      ghost var cells := con.views[active].cells;
      assert ShowsPage(mem[..], PageOf(active, active), cells);
      BlankPage(mem, textColor);
      screenX := screenX[lib := 0];
      screenY := screenY[lib := 0];
      con := ScreenCleared(c);
      VisiblePageRep(mem[..], was, textColor, c, con);
    }

    /** update_screen: the pages move and the new screen gets its colour. */
    method UpdateScreen(dest: nat, src: nat)
      requires Valid() && dest < NUM_TERMINALS && src == active
      modifies this`textColor, mem
      ensures PagesRep(mem[..], textColor, FKey(con, dest))
    {
      ghost var was, leaving := mem[..], con.views[src].cells;
      ghost var coming := con.views[dest].cells;
      assert ShowsPage(was, PageOf(src, src), leaving) && ShowsPage(was, PageOf(dest, src), coming);
      SwapPages(mem, dest, src, leaving, coming);
      ghost var swapped := mem[..];
      if dest == 0 {
        textColor := RED;
      } else if dest == 1 {
        textColor := GREEN;
      } else {
        textColor := YELLOW;
      }
      SetColor(mem, textColor, coming);
      SwitchedRep(was, swapped, mem[..], con, dest);
    }

    /** add_char_to_buffer. */
    method AddCharToBuffer(ch: Byte, term: nat) returns (added: bool)
      requires Valid() && term < NUM_TERMINALS
      modifies this, mem, buf
      ensures Valid() && con == AddChar(old(con), ch, term) && added == (old(con).num[term] < MAX_CHARS_IN_BUF)
    {
      if num[term] < MAX_CHARS_IN_BUF {
        if ch == LF {
          NewLine();
        } else if ch != NUL {
          StoreKey(ch, term);
          Putc(ch);
        }
        return true;
      }
      return false;
    }

    /** The character goes to the row. */
    method StoreKey(ch: Byte, term: nat)
      requires Valid() && term < NUM_TERMINALS && num[term] < MAX_CHARS_IN_BUF
      modifies this`num, this`con, buf
      ensures Valid()
      ensures con == old(con).(keys := old(con).keys[RowAt(term) + old(num)[term] := ch], num := old(num)[term := old(num)[term] + 1])
    {
      buf[RowAt(term) + num[term]] := ch;
      con := con.(keys := con.keys[RowAt(term) + num[term] := ch], num := num[term := num[term] + 1]);
      num := num[term := num[term] + 1];
    }

    /** The last character leaves the row. */
    method DropKey()
      requires Valid() && num[active] > 0
      modifies this`num, this`con, buf
      ensures Valid()
      ensures con == old(con).(keys := old(con).keys[RowAt(active) + old(num)[active] - 1 := NUL], num := old(num)[active := old(num)[active] - 1])
    {
      con := con.(keys := con.keys[RowAt(active) + num[active] - 1 := NUL], num := num[active := num[active] - 1]);
      num := num[active := num[active] - 1];
      buf[RowAt(active) + num[active]] := NUL;
    }

    /** handle_backspace. */
    method HandleBackspace()
      requires Valid() && con.num[con.active] <= Pos(con.views[con.active])
      modifies this, mem, buf
      ensures Valid() && con == Backspace(old(con))
    {
      if num[active] > 0 {
        DelLastChar();
        DropKey();
      }
    }

    /** reset_curr_command. */
    method ResetCurrCommand()
      requires Valid() && con.num[con.active] <= Pos(con.views[con.active])
      modifies this, mem, buf
      ensures Valid() && con == CommandErased(old(con))
    {
      while num[active] > 0
        invariant Valid() && con.num[con.active] <= Pos(con.views[con.active])
        invariant CommandErased(con) == CommandErased(old(con))
        decreases con.num[con.active]
      {
        HandleBackspace();
      }
    }

    /** handle_enter. The loop runs one cell past the row. */
    method HandleEnter()
      requires Valid()
      modifies this`ready, this`con, buf
      ensures Valid() && con == Enter(old(con))
    {
      ClearCells(buf, RowAt(active) + num[active], MAX_CHARS_IN_BUF + 1 - num[active]);
      ready := ready[active := true];
      con := Enter(con);
    }

    /** reset_term. */
    method ResetTerm()
      requires Valid()
      modifies this, mem, buf
      ensures Valid() && con == TermReset(old(con))
    {
      ClearCells(buf, RowAt(active), MAX_CHARS_IN_BUF);
      num := num[active := 0];
      con := con.(keys := Stored(con.keys, RowAt(active), Repeat(NUL, MAX_CHARS_IN_BUF)), num := con.num[active := 0]);
      ClearScreen();
    }

    /** terminal_read, once Enter was pressed on the running terminal. */
    method TerminalRead(running: nat, out: array<Byte>, nbytes: int) returns (bytesRead: nat)
      requires Valid() && CanRead(con, running, nbytes) && ready[running]
      requires out != mem && out != buf && CellsRead(nbytes) <= out.Length
      modifies this, mem, buf, out
      ensures Valid() && con == Read(old(con), running, nbytes) && bytesRead == if nbytes < 0 then 0 else nbytes + 1
      ensures out[..] == Stored(old(out[..]), 0, Delivered(old(con), running, nbytes))
    {
      bytesRead := CellsRead(nbytes);
      TakeLine(running, out, bytesRead);
      NewLine();
      EndLine(running);
    }

    /** The cells of a row go to the caller. */
    method TakeLine(running: nat, out: array<Byte>, n: nat)
      requires Valid() && running < NUM_TERMINALS && RowAt(running) + n <= KEY_CELLS
      requires out != mem && out != buf && n <= out.Length
      modifies this`con, buf, out
      ensures Valid() && con == old(con).(keys := Stored(old(con).keys, RowAt(running), Repeat(NUL, n)))
      ensures out[..] == Stored(old(out[..]), 0, old(con).keys[RowAt(running)..RowAt(running) + n])
    {
      ghost var keys := con.keys;
      assert buf[RowAt(running)..RowAt(running) + n] == keys[RowAt(running)..RowAt(running) + n];
      TakeCells(buf, RowAt(running), n, out);
      con := con.(keys := Stored(keys, RowAt(running), Repeat(NUL, n)));
    }

    /** The line of a terminal is done with. */
    method EndLine(t: nat)
      requires Valid() && t < NUM_TERMINALS
      modifies this`num, this`ready, this`con
      ensures Valid() && con == old(con).(num := old(con).num[t := 0], ready := old(con).ready[t := false])
    {
      num := num[t := 0];
      ready := ready[t := false];
      con := con.(num := num, ready := ready);
    }

    /** terminal_write: the number of characters printed comes back. */
    method TerminalWrite(running: nat, text: seq<Byte>) returns (numPrinted: nat)
      requires Valid() && running < NUM_TERMINALS
      modifies this, mem, buf
      ensures Valid() && con == Write(old(con), text, running) && numPrinted == Accepted(old(con).num[running], text)
    {
      ghost var c := con;
      numPrinted := 0;
      for i := 0 to |text|
        invariant Valid() && con.active == c.active && AddText(con, text[i..], running) == AddText(c, text, running)
        invariant numPrinted + Accepted(con.num[running], text[i..]) == Accepted(c.num[running], text)
      {
        assert text[i..][0] == text[i] && text[i..][1..] == text[i + 1..];
        var added := AddCharToBuffer(text[i], running);
        if added {
          numPrinted := numPrinted + 1;
        }
      }
      EndLine(active);
    }

    /** F1, F2 and F3 up to the context switch. */
    method FKeyPress(dest: nat)
      requires Valid() && dest < NUM_TERMINALS
      modifies this, mem
      ensures Valid() && con == FKey(old(con), dest) && prevTerminal == old(active)
    {
      UpdateScreen(dest, active);
      prevTerminal := active;
      active := dest;
      con := FKey(con, dest);
    }
  }

  /** All pages after a switch: the one that leaves, the one that comes, and the one that stays away. */
  lemma SwitchedRep(was: seq<Byte>, swapped: seq<Byte>, now: seq<Byte>, c: Console, dest: nat)
    requires ValidConsole(c) && dest < NUM_TERMINALS && |was| == |swapped| == MEMORY && SameOutside(now, swapped, VIDEO, VIDEO_END)
    requires forall t :: 0 <= t < NUM_TERMINALS ==> ShowsPage(was, PageOf(t, c.active), c.views[t].cells)
    requires ShowsPage(swapped, BackingPage(c.active), c.views[c.active].cells)
    requires forall t, cells {:trigger ShowsPage(swapped, BackingPage(t), cells)} ::
      (0 <= t < 3 && t != c.active && ShowsPage(was, BackingPage(t), cells)) ==> ShowsPage(swapped, BackingPage(t), cells)
    requires Coloured(now, ColorOf(dest)) && ShowsPage(now, VIDEO, c.views[dest].cells)
    ensures PagesRep(now, ColorOf(dest), FKey(c, dest))
  {
    forall t | 0 <= t < NUM_TERMINALS ensures ShowsPage(now, PageOf(t, dest), c.views[t].cells) {
      if t != dest {
        var cells := c.views[t].cells;
        assert ShowsPage(was, PageOf(t, c.active), cells);
        assert ShowsPage(swapped, BackingPage(t), cells);
        PageStays(now, swapped, VIDEO, VIDEO_END, BackingPage(t), cells);
      }
    }
  }

  function ViewWith(v: View, ch: Byte): (r: View)
    requires ValidView(v)
    ensures ValidView(r)
  {
    v.(cells := v.cells[Pos(v) := ch])
  }
}
