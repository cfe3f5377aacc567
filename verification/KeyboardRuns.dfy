/** Whole runs over video memory and keyboard_buf: they go where three separate screens and editors go. */
module KeyboardRuns {
  import opened Bytes
  import opened Screen
  import opened Console
  import opened VideoMemory
  import opened ConsoleRuns
  import opened Keyboard

  /** One key or one call; a read goes to `out`. */
  method Handle(k: Terminals, e: Event, out: array<Byte>)
    requires k.Valid() && CanStep(k.con, e) && out != k.mem && out != k.buf
    requires e.ReadCall? ==> CellsRead(e.nbytes) <= out.Length
    modifies k, k.mem, k.buf, out
    ensures k.Valid() && k.con == Step(old(k.con), e)
    ensures e.ReadCall? ==> out[..] == Stored(old(out[..]), 0, Delivered(old(k.con), old(k.con).active, e.nbytes))
  {
    match e
    case Key(ch) => var _ := k.AddCharToBuffer(ch, k.active);
    case BackspaceKey => k.HandleBackspace();
    case EnterKey => k.HandleEnter();
    case CtrlL => k.ResetTerm();
    case FunctionKey(dest) => k.FKeyPress(dest);
    case ReadCall(nbytes) => var _ := k.TerminalRead(k.active, out, nbytes);
    case WriteCall(text) => var _ := k.TerminalWrite(k.active, text);
    case ClearCommand => k.ClearScreen();
  }

  /** Any sequence of keys, switches and calls: the video page and the pages behind it hold exactly the
      three screens, and keyboard_buf the three lines. */
  method HandleAll(k: Terminals, es: seq<Event>, out: array<Byte>)
    requires k.Valid() && CanRun(k.con, es) && out != k.mem && out != k.buf
    requires forall e <- es :: e.ReadCall? ==> CellsRead(e.nbytes) <= out.Length
    modifies k, k.mem, k.buf, out
    ensures k.Valid() && k.con == Run(old(k.con), es)
  {
    for i := 0 to |es|
      invariant k.Valid() && CanRun(k.con, es[i..]) && Run(k.con, es[i..]) == Run(old(k.con), es)
    {
      assert es[i..][0] == es[i] && es[i..][1..] == es[i + 1..];
      assert es[i] in es;
      Handle(k, es[i], out);
    }
  }

  /** What the console is in memory: the characters of the active screen at 0xB8000, one every two bytes,
      between attribute bytes of red, green or yellow; those of the other screens in their own pages. */
  lemma WhatMemoryHolds(k: Terminals)
    requires k.Valid()
    ensures k.active == k.con.active < 3 && k.mem.Length == 0x10_0000
    ensures forall i :: 0 <= i < 2000 ==> k.mem[0xB_8000 + 2 * i] == k.con.views[k.active].cells[i]
    ensures forall a :: 0xB_8000 <= a < 0xB_8000 + 4000 && a % 2 == 1 ==> k.mem[a] == [0x04, 0x0A, 0x0E][k.active]
    ensures k.active != 0 ==> forall i :: 0 <= i < 2000 ==> k.mem[0xB_C000 + 2 * i] == k.con.views[0].cells[i]
    ensures k.active != 1 ==> forall i :: 0 <= i < 2000 ==> k.mem[0xD_C000 + 2 * i] == k.con.views[1].cells[i]
    ensures k.active != 2 ==> forall i :: 0 <= i < 2000 ==> k.mem[0xE_C000 + 2 * i] == k.con.views[2].cells[i]
    ensures forall t :: 0 <= t < 3 && t != k.active ==> k.screenX[t] == k.con.views[t].x && k.screenY[t] == k.con.views[t].y
    ensures k.screenX[k.active] == k.con.views[k.active].x && k.screenY[k.active] == k.con.views[k.active].y
    ensures k.buf[..] == k.con.keys && k.num == k.con.num && k.ready == k.con.ready
  {
    var m, a := k.mem[..], k.active;
    assert ShowsPage(m, PageOf(a, a), k.con.views[a].cells);
    assert ShowsPage(m, PageOf(0, a), k.con.views[0].cells);
    assert ShowsPage(m, PageOf(1, a), k.con.views[1].cells);
    assert ShowsPage(m, PageOf(2, a), k.con.views[2].cells);
  }

  /** A switch to another terminal, any run there, and a switch back: the visible page is byte for byte
      what it was, attributes included. */
  lemma SwitchBackShowsTheSame(c: Console, b: nat, es: seq<Event>, m: seq<Byte>, m': seq<Byte>, color: Byte, color': Byte)
    requires ValidConsole(c) && b < NUM_TERMINALS && CanRun(FKey(c, b), es) && NeverActive(FKey(c, b), es, c.active)
    requires |m| == |m'| == MEMORY && PagesRep(m, color, c)
    requires PagesRep(m', color', FKey(Run(FKey(c, b), es), c.active))
    ensures forall p :: VIDEO <= p < VIDEO_END ==> m'[p] == m[p]
  {
    var a, c' := c.active, FKey(Run(FKey(c, b), es), c.active);
    RunKeepsScreen(FKey(c, b), es, a);
    assert ShowsPage(m, PageOf(a, a), c.views[a].cells) && ShowsPage(m', PageOf(a, a), c'.views[a].cells);
    forall p | VIDEO <= p < VIDEO_END ensures m'[p] == m[p] {
      if p % 2 == 0 {
        var k := (p - VIDEO) / 2;
        assert c.views[a].cells[k] == c'.views[a].cells[k] && p == VIDEO + 2 * k;
      }
    }
  }

  /** The visible page is the 25-row window of a log: character i of it is character 80 * top + i of the
      text, blank behind its end. */
  ghost predicate PageIsWindow(m: seq<Byte>, l: Log)
    requires |m| == MEMORY
  {
    forall i {:trigger At(l.text, NUM_COLS * l.top + i)} :: 0 <= i < CELLS ==> m[VIDEO + 2 * i] == At(l.text, NUM_COLS * l.top + i)
  }

  lemma ShownPageIsWindow(m: seq<Byte>, v: View, l: Log)
    requires |m| == MEMORY && ValidView(v) && ShowsPage(m, VIDEO, v.cells) && Shows(v, l)
    ensures PageIsWindow(m, l)
  {
    forall i | 0 <= i < CELLS ensures m[VIDEO + 2 * i] == At(l.text, NUM_COLS * l.top + i) {
      assert v.cells[i] == At(l.text, NUM_COLS * l.top + i);
    }
  }

  /** putc, new_line or del_last_char. */
  method Print(k: Terminals, o: Output)
    requires k.Valid() && (o.Char? ==> !Breaks(o.c)) && (o.Erase? ==> Pos(k.con.views[k.con.active]) > 0)
    modifies k, k.mem
    ensures k.Valid() && k.con == OnActive(old(k.con), ViewAfter(old(k.con).views[old(k.con).active], o))
  {
    match o
    case Char(c) => k.Putc(c);
    case Break => k.NewLine();
    case Erase => k.DelLastChar();
  }

  /** Any sequence of them, on a screen that is the window of a log -- a cleared one is that of the empty
      log: video memory is the window of the log of everything printed. */
  method PrintAll(k: Terminals, os: seq<Output>, ghost l: Log)
    requires k.Valid() && (forall o <- os :: o.Char? ==> !Breaks(o.c))
    requires ValidLog(l) && Shows(k.con.views[k.con.active], l) && CanPrint(k.con.views[k.con.active], os)
    modifies k, k.mem
    ensures k.Valid() && k.con.active == old(k.con.active) && CanLog(l, os)
    ensures k.con.views[k.con.active] == Printed(old(k.con).views[old(k.con).active], os)
    ensures PageIsWindow(k.mem[..], Logged(l, os))
  {
    ghost var v0, a := k.con.views[k.con.active], k.con.active;
    for i := 0 to |os|
      invariant k.Valid() && k.con.active == a && CanPrint(k.con.views[a], os[i..])
      invariant Printed(k.con.views[a], os[i..]) == Printed(v0, os)
    {
      assert os[i..][0] == os[i] && os[i..][1..] == os[i + 1..];
      assert os[i] in os;
      Print(k, os[i]);
    }
    RunShows(v0, l, os);
    assert ShowsPage(k.mem[..], PageOf(a, a), k.con.views[a].cells);
    ShownPageIsWindow(k.mem[..], k.con.views[a], Logged(l, os));
  }
}
