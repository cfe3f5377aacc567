/** What keys, reads and writes show: the effect of every operation of the console on the log behind the
    active screen, and all that it leaves alone. */
module ScreenLaws {
  import opened Bytes
  import opened Screen
  import opened Console
  import opened ConsoleWrite

  function Max(a: int, b: int): int {
    if a >= b then a else b
  }

  // ------------------------------------------------------------------ the log

  /** The log with a line broken: blanks up to the next multiple of 80, and a whole row of them when the text
      ends at one. */
  ghost predicate BrokenLog(l: Log, l': Log) {
    && |l'.text| % 80 == 0 && |l.text| < |l'.text| <= |l.text| + 80 && l'.text[..|l.text|] == l.text
    && (forall i :: |l.text| <= i < |l'.text| ==> l'.text[i] == ' ' as int)
    && l'.top == Max(l.top, |l'.text| / 80 - 24)
  }

  /** The log with a character appended, and with the last one dropped. */
  ghost predicate ExtendedLog(l: Log, c: Byte, l': Log) {
    l'.text == l.text + [c] && l'.top == Max(l.top, |l'.text| / 80 - 24)
  }

  ghost predicate ShortenedLog(l: Log, l': Log) {
    |l.text| > 0 && l'.text == l.text[..|l.text| - 1] && l'.top == l.top
  }

  /** The window moves down only as far as the row of the text's end needs it. */
  lemma OutputIs(l: Log, o: Output)
    requires ValidLog(l) && (o.Erase? ==> |l.text| > NUM_COLS * l.top)
    ensures o.Char? ==> ExtendedLog(l, o.c, LogAfter(l, o))
    ensures o.Break? ==> BrokenLog(l, LogAfter(l, o))
    ensures o.Erase? ==> ShortenedLog(l, LogAfter(l, o))
  {
    if o.Break? {
      PaddingFills(|l.text|);
    }
  }

  lemma PaddingFills(n: nat)
    ensures (n + (NUM_COLS - n % NUM_COLS)) % 80 == 0
  {
  }

  /** The highest row that output reached. */
  ghost function Highest(l: Log, os: seq<Output>): nat
    requires ValidLog(l) && CanLog(l, os)
    decreases |os|
  {
    if os == [] then Row(l) else Max(Row(l), Highest(LogAfter(l, os[0]), os[1..]))
  }

  /** At any time the first visible row is 24 above the highest row ever reached, or where it started. */
  lemma {:induction false} TopFollowsTheHighestRow(l: Log, os: seq<Output>)
    requires ValidLog(l) && CanLog(l, os)
    ensures Logged(l, os).top == Max(l.top, Highest(l, os) - 24)
    decreases |os|
  {
    if os != [] {
      OutputIs(l, os[0]);
      TopFollowsTheHighestRow(LogAfter(l, os[0]), os[1..]);
    }
  }

  // ------------------------------------------------------------------ putc

  /** What a character prints: newline and carriage return break the line, every other byte takes a cell. */
  function CharLog(l: Log, ch: Byte): (r: Log)
    requires ValidLog(l)
    ensures ValidLog(r)
  {
    if ch == 10 || ch == 13 then LogAfter(l, Break) else LogAfter(l, Char(ch))
  }

  lemma PutcShows(v: View, l: Log, ch: Byte)
    requires ValidView(v) && ValidLog(l) && Shows(v, l)
    ensures Shows(PutcView(v, ch), CharLog(l, ch))
    ensures if ch == '\n' as int || ch == '\r' as int then BrokenLog(l, CharLog(l, ch)) else ExtendedLog(l, ch, CharLog(l, ch))
  {
    if ch == 10 || ch == 13 {
      BreakShows(v, l);
      OutputIs(l, Break);
    } else {
      CharShows(v, l, ch);
      OutputIs(l, Char(ch));
    }
  }

  /** A text, NULs passed over. */
  function TextLog(l: Log, text: seq<Byte>): (r: Log)
    requires ValidLog(l)
    ensures ValidLog(r)
    decreases |text|
  {
    if text == [] then l else TextLog(if text[0] == 0 then l else CharLog(l, text[0]), text[1..])
  }

  lemma {:induction false} TextShows(v: View, l: Log, text: seq<Byte>)
    requires ValidView(v) && ValidLog(l) && Shows(v, l)
    ensures Shows(ShowText(v, text), TextLog(l, text))
    decreases |text|
  {
    if text != [] {
      if text[0] == NUL {
        TextShows(v, l, text[1..]);
      } else {
        PutcShows(v, l, text[0]);
        TextShows(PutcView(v, text[0]), CharLog(l, text[0]), text[1..]);
      }
    }
  }

  // ------------------------------------------------------------------ the console

  /** Output to the active screen: only that screen has changed, and lib/lib.c has taken note of the active
      terminal. */
  ghost predicate OnlyActiveScreen(c: Console, c': Console)
    requires ValidConsole(c) && ValidConsole(c')
  {
    c'.active == c.active && c'.lib == c.active && c'.views == c.views[c.active := c'.views[c.active]]
  }

  /** A key with room in the row: it prints, and goes to the line unless it is a newline. */
  lemma KeyPrints(c: Console, ch: Byte, l: Log, c': Console)
    requires ValidConsole(c) && c.num[c.active] < 1023 && ch != 0 && c' == AddChar(c, ch, c.active)
    requires ValidLog(l) && Shows(c.views[c.active], l)
    ensures OnlyActiveScreen(c, c') && Shows(c'.views[c.active], CharLog(l, ch)) && c'.ready == c.ready
    ensures Line(c', c.active) == if ch == '\n' as int then Line(c, c.active) else Line(c, c.active) + [ch]
  {
    PutcShows(c.views[c.active], l, ch);
    if ch == 10 {
    } else {
      AddCharLine(c, ch, c.active);
    }
  }

  /** A key without room, and a NUL, do nothing. */
  lemma KeyIgnored(c: Console, ch: Byte)
    requires ValidConsole(c) && (c.num[c.active] >= 1023 || ch == 0)
    ensures AddChar(c, ch, c.active) == c
  {
  }

  /** Backspace takes the last character off the line and off the log; on an empty line it does nothing. */
  lemma BackspaceErases(c: Console, l: Log, c': Console)
    requires ValidConsole(c) && c.num[c.active] <= Pos(c.views[c.active]) && c' == Backspace(c)
    requires ValidLog(l) && Shows(c.views[c.active], l)
    ensures c.num[c.active] == 0 ==> c' == c
    ensures c.num[c.active] > 0 ==>
              && OnlyActiveScreen(c, c') && c'.ready == c.ready && |l.text| > 0
              && Shows(c'.views[c.active], Log(l.text[..|l.text| - 1], l.top))
              && Line(c', c.active) == Line(c, c.active)[..c.num[c.active] - 1]
  {
    if c.num[c.active] > 0 {
      EraseShows(c.views[c.active], l);
      var was, now := Line(c, c.active), Line(c', c.active);
      forall i | 0 <= i < |now| ensures now[i] == was[i] {
      }
    }
  }

  /** Enter prints nothing and lets the line be read. */
  lemma EnterReadies(c: Console, c': Console)
    requires ValidConsole(c) && c' == Enter(c)
    ensures c'.ready == c.ready[c.active := true] && Line(c', c.active) == Line(c, c.active)
    ensures (c'.views, c'.active, c'.lib, c'.num) == (c.views, c.active, c.lib, c.num)
    ensures var end := 1023 * c.active + c.num[c.active];
            forall i :: 0 <= i < |c.keys| ==> c'.keys[i] == if end <= i <= 1023 * c.active + 1023 then 0 else c.keys[i]
  {
    var was, now := Line(c, c.active), Line(c', c.active);
    forall i | 0 <= i < |now| ensures now[i] == was[i] {
    }
  }

  /** A read breaks the line on the active screen; the line of the reader is over. */
  lemma ReadBreaksTheLine(c: Console, running: nat, nbytes: int, l: Log, c': Console)
    requires ValidConsole(c) && CanRead(c, running, nbytes) && c' == Read(c, running, nbytes)
    requires ValidLog(l) && Shows(c.views[c.active], l)
    ensures OnlyActiveScreen(c, c') && Shows(c'.views[c.active], LogAfter(l, Break)) && BrokenLog(l, LogAfter(l, Break))
    ensures c'.num == c.num[running := 0] && c'.ready == c.ready[running := false]
    ensures forall i :: 0 <= i < |c.keys| ==>
              c'.keys[i] == if 1023 * running <= i <= 1023 * running + nbytes then 0 else c.keys[i]
  {
    BreakShows(c.views[c.active], l);
    OutputIs(l, Break);
  }

  lemma {:induction false} AddTextPrints(c: Console, text: seq<Byte>, running: nat)
    requires ValidConsole(c) && running < NUM_TERMINALS
    ensures var d, k := AddText(c, text, running), Accepted(c.num[running], text);
            d.lib == if exists i :: 0 <= i < k && text[i] != 0 then c.active else c.lib
    decreases |text|
  {
    var k := Accepted(c.num[running], text);
    if c.num[running] >= MAX_CHARS_IN_BUF {
      FullRowTakesNothing(c, text, running);
    } else if text != [] {
      var d, k1 := AddChar(c, text[0], running), k - 1;
      AddTextPrints(d, text[1..], running);
      assert forall i :: 0 <= i < k1 ==> text[1..][i] == text[i + 1];
      if i :| 0 <= i < k && text[i] != 0 {
        if i > 0 { assert text[1..][i - 1] != 0; }
      }
    }
  }

  /** A write prints the part of the text that found room on the active screen, and no more; it ends the line
      of the active terminal. The rest of the row of a writer elsewhere grows by what takes a cell. */
  lemma WritePrints(c: Console, text: seq<Byte>, running: nat, l: Log, c': Console)
    requires ValidConsole(c) && running < NUM_TERMINALS && c' == Write(c, text, running)
    requires ValidLog(l) && Shows(c.views[c.active], l)
    ensures c'.active == c.active && c'.views == c.views[c.active := c'.views[c.active]]
    ensures Shows(c'.views[c.active], TextLog(l, text[..Accepted(c.num[running], text)]))
    ensures c'.lib == if exists i :: 0 <= i < Accepted(c.num[running], text) && text[i] != 0 then c.active else c.lib
    ensures Line(c', c.active) == [] && c'.ready == c.ready[c.active := false]
    ensures running != c.active ==> Line(c', running) == Line(c, running) + Kept(text[..Accepted(c.num[running], text)])
  {
    AddTextOnlyAdds(c, text, running);
    AddTextPrints(c, text, running);
    WriteShowsTheAccepted(c, text, running);
    TextShows(c.views[c.active], l, text[..Accepted(c.num[running], text)]);
    AddTextLine(c, text, running);
    assert running != c.active ==> Line(c', running) == Line(AddText(c, text, running), running);
  }

  /** clear_screen blanks every cell of the active screen, moves one cursor home and touches no line. */
  lemma ClearBlanks(c: Console, c': Console)
    requires ValidConsole(c) && c' == ScreenCleared(c)
    ensures (c'.active, c'.lib, c'.keys, c'.num, c'.ready) == (c.active, c.lib, c.keys, c.num, c.ready)
    ensures forall i :: 0 <= i < 2000 ==> c'.views[c.active].cells[i] == ' ' as int
    ensures forall t :: 0 <= t < 3 && t != c.active ==> c'.views[t].cells == c.views[t].cells
    ensures forall t :: 0 <= t < 3 ==> Pos(c'.views[t]) == if t == c.lib then 0 else Pos(c.views[t])
  {
  }

  /** Ctrl-L clears the screen and empties the line and its row. */
  lemma ResetEmpties(c: Console, c': Console)
    requires ValidConsole(c) && c' == TermReset(c)
    ensures c'.views == ScreenCleared(c).views && (c'.active, c'.lib, c'.ready) == (c.active, c.lib, c.ready)
    ensures c'.num == c.num[c.active := 0]
    ensures forall i :: 0 <= i < |c.keys| ==> c'.keys[i] == if 1023 * c.active <= i < 1023 * c.active + 1023 then 0 else c.keys[i]
  {
  }

  /** A function key changes which terminal is active, and nothing else. */
  lemma FKeyActivates(c: Console, dest: nat, c': Console)
    requires ValidConsole(c) && dest < NUM_TERMINALS && c' == FKey(c, dest)
    ensures c'.active == dest && (c'.views, c'.lib, c'.keys, c'.num, c'.ready) == (c.views, c.lib, c.keys, c.num, c.ready)
  {
  }
}
