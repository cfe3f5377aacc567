/** How much of a text terminal_write prints: it shares the row of 1023 cells with the keyboard. */
module ConsoleWrite {
  import opened Bytes
  import opened Screen
  import opened Console

  /** Line breaks and NULs take no cell of the row. */
  predicate TakesCell(ch: Byte) {
    ch != LF && ch != NUL
  }

  /** The cells a text takes. */
  function Taken(text: seq<Byte>): nat
    decreases |text|
  {
    if text == [] then 0 else (if TakesCell(text[0]) then 1 else 0) + Taken(text[1..])
  }

  /** The characters accepted when n cells are in use: until the row is full, line breaks included. */
  function Accepted(n: nat, text: seq<Byte>): (k: nat)
    ensures k <= |text|
    decreases |text|
  {
    if text == [] || n >= MAX_CHARS_IN_BUF then 0
    else 1 + Accepted(n + if TakesCell(text[0]) then 1 else 0, text[1..])
  }

  /** The screen after a text is printed in full. */
  ghost function ShowText(v: View, text: seq<Byte>): (r: View)
    requires ValidView(v)
    ensures ValidView(r)
    decreases |text|
  {
    if text == [] then v else ShowText(if text[0] == NUL then v else PutcView(v, text[0]), text[1..])
  }

  /** A text is printed whole exactly when its last character still finds a free cell: from an empty line
      that is so for every text of at most 1023 bytes. */
  lemma {:induction false} AcceptsAllExactlyWhen(n: nat, text: seq<Byte>)
    ensures Accepted(n, text) == |text| <==> text == [] || n + Taken(text[..|text| - 1]) < MAX_CHARS_IN_BUF
    decreases |text|
  {
    if |text| == 1 {
      assert text[..0] == [];
    } else if text != [] {
      var m := n + if TakesCell(text[0]) then 1 else 0;
      AcceptsAllExactlyWhen(m, text[1..]);
      assert text[..|text| - 1][1..] == text[1..][..|text| - 2];
    }
  }

  lemma {:induction false} TakenAtMost(text: seq<Byte>)
    ensures Taken(text) <= |text|
    decreases |text|
  {
    if text != [] {
      TakenAtMost(text[1..]);
    }
  }

  lemma ShortTextIsPrinted(text: seq<Byte>)
    requires |text| <= MAX_CHARS_IN_BUF
    ensures Accepted(0, text) == |text|
  {
    AcceptsAllExactlyWhen(0, text);
    if text != [] {
      TakenAtMost(text[..|text| - 1]);
    }
  }

  lemma {:induction false} FullRowTakesNothing(c: Console, text: seq<Byte>, t: nat)
    requires ValidConsole(c) && t < NUM_TERMINALS && c.num[t] >= MAX_CHARS_IN_BUF
    ensures AddText(c, text, t) == c
    decreases |text|
  {
    if text != [] {
      FullRowTakesNothing(c, text[1..], t);
    }
  }

  /** terminal_write shows exactly the accepted part of the text on the active terminal, whichever terminal
      the writer runs on. */
  lemma {:induction false} WriteShowsTheAccepted(c: Console, text: seq<Byte>, running: nat)
    requires ValidConsole(c) && running < NUM_TERMINALS
    ensures AddText(c, text, running).views[c.active] == ShowText(c.views[c.active], text[..Accepted(c.num[running], text)])
    decreases |text|
  {
    var k := Accepted(c.num[running], text);
    if c.num[running] >= MAX_CHARS_IN_BUF {
      FullRowTakesNothing(c, text, running);
    } else if text != [] {
      var d := AddChar(c, text[0], running);
      assert text[..k][0] == text[0] && text[..k][1..] == text[1..][..k - 1];
      WriteShowsTheAccepted(d, text[1..], running);
    }
  }

  // ------------------------------------------------------------------ a writer on another terminal

  /** The characters of a text that take a cell. */
  function Kept(text: seq<Byte>): (r: seq<Byte>)
    ensures NUL !in r
    decreases |text|
  {
    if text == [] then [] else (if TakesCell(text[0]) then [text[0]] else []) + Kept(text[1..])
  }

  /** What adding a text leaves alone: the rows of other terminals, the cells behind the line, the screens
      that are not active. */
  ghost predicate OnlyAdds(c: Console, d: Console, term: nat)
    requires ValidConsole(c) && ValidConsole(d) && term < NUM_TERMINALS
  {
    && d.active == c.active && d.ready == c.ready && d.num[term] >= c.num[term]
    && (forall u :: 0 <= u < NUM_TERMINALS && u != c.active ==> d.views[u] == c.views[u])
    && (forall u :: 0 <= u < NUM_TERMINALS && u != term ==> d.num[u] == c.num[u])
    && forall i {:trigger d.keys[i]} :: 0 <= i < KEY_CELLS && !(RowAt(term) + c.num[term] <= i < RowAt(term) + d.num[term])
         ==> d.keys[i] == c.keys[i]
  }

  lemma {:induction false} AddTextOnlyAdds(c: Console, text: seq<Byte>, term: nat)
    requires ValidConsole(c) && term < NUM_TERMINALS
    ensures OnlyAdds(c, AddText(c, text, term), term)
    decreases |text|
  {
    if text != [] {
      AddTextOnlyAdds(AddChar(c, text[0], term), text[1..], term);
    }
  }

  lemma {:induction false} AddTextLine(c: Console, text: seq<Byte>, term: nat)
    requires ValidConsole(c) && term < NUM_TERMINALS
    ensures Line(AddText(c, text, term), term) == Line(c, term) + Kept(text[..Accepted(c.num[term], text)])
    decreases |text|
  {
    var k := Accepted(c.num[term], text);
    if c.num[term] >= MAX_CHARS_IN_BUF {
      FullRowTakesNothing(c, text, term);
    } else if text != [] {
      var d, more := AddChar(c, text[0], term), text[1..][..k - 1];
      AddTextLine(d, text[1..], term);
      AddCharLine(c, text[0], term);
      KeptFirst(text, k, Line(c, term), Line(d, term), more);
    }
  }

  lemma KeptFirst(text: seq<Byte>, k: nat, line: seq<Byte>, line': seq<Byte>, more: seq<Byte>)
    requires 0 < k <= |text| && more == text[1..][..k - 1]
    requires line' == line + if TakesCell(text[0]) then [text[0]] else []
    ensures line' + Kept(more) == line + Kept(text[..k])
  {
    assert text[..k][0] == text[0] && text[..k][1..] == more;
  }

  lemma AddCharLine(c: Console, ch: Byte, term: nat)
    requires ValidConsole(c) && term < NUM_TERMINALS && c.num[term] < MAX_CHARS_IN_BUF
    ensures Line(AddChar(c, ch, term), term) == Line(c, term) + if TakesCell(ch) then [ch] else []
  {
    var was, now := Line(c, term), Line(AddChar(c, ch, term), term);
    assert |now| == |was| + if TakesCell(ch) then 1 else 0;
    forall i | 0 <= i < |was| ensures now[i] == was[i] {
    }
  }

  predicate EndsWith(s: seq<Byte>, t: seq<Byte>) {
    |t| <= |s| && s[|s| - |t|..] == t
  }

  lemma SpellsIsEndsWith(cells: seq<Byte>, pos: nat, keys: seq<Byte>, at: nat, n: nat)
    requires pos <= |cells| && at + n <= |keys| && NUL !in keys[at..at + n]
    ensures Spells(cells, pos, keys, at, n) <==> EndsWith(cells[..pos], keys[at..at + n])
  {
    var line := keys[at..at + n];
    if n <= pos {
      forall k | 0 <= k < n ensures line[k] != NUL {
        assert line[k] in line;
      }
      if EndsWith(cells[..pos], line) {
        forall i | pos - n <= i < pos ensures cells[i] == line[i - (pos - n)] {
          assert cells[i] == cells[..pos][pos - n..][i - (pos - n)];
        }
      }
      if Spells(cells, pos, keys, at, n) {
        assert cells[..pos][pos - n..] == line;
      }
    }
  }

  /** terminal_write keeps lines and screens in agreement exactly when the writer runs on the active
      terminal, or the screen of its own terminal already shows before the cursor what the write adds to
      its line -- nothing, as a rule. */
  lemma WriteKeepsInvExactlyWhen(c: Console, text: seq<Byte>, running: nat, c': Console)
    requires Inv(c) && running < NUM_TERMINALS && c' == Write(c, text, running)
    ensures Inv(c') <==>
              || running == c.active
              || EndsWith(c.views[running].cells[..Pos(c.views[running])],
                          Line(c, running) + Kept(text[..Accepted(c.num[running], text)]))
  {
    var d := AddText(c, text, running);
    AddTextOnlyAdds(c, text, running);
    assert Sound(c', c.active);
    forall u | 0 <= u < NUM_TERMINALS && u != c.active && u != running ensures Sound(c', u) {
      assert Sound(c, u) && SameTerminal(c, c', u);
      SameTerminalSound(c, c', u);
    }
    if running != c.active {
      WriterSoundExactlyWhen(c, text, running, c');
    }
  }

  lemma WriterSoundExactlyWhen(c: Console, text: seq<Byte>, running: nat, c': Console)
    requires Inv(c) && running < NUM_TERMINALS && running != c.active && c' == Write(c, text, running)
    ensures Sound(c', running) <==>
              EndsWith(c.views[running].cells[..Pos(c.views[running])],
                       Line(c, running) + Kept(text[..Accepted(c.num[running], text)]))
  {
    var v, line := c.views[running], Line(c', running);
    WriterLine(c, text, running, c');
    SpellsIsEndsWith(v.cells, Pos(v), c'.keys, RowAt(running), c'.num[running]);
  }

  lemma WriterLine(c: Console, text: seq<Byte>, running: nat, c': Console)
    requires Inv(c) && running < NUM_TERMINALS && running != c.active && c' == Write(c, text, running)
    ensures c'.views[running] == c.views[running] && Terminal(c', running) && NUL !in Line(c', running)
    ensures Line(c', running) == Line(c, running) + Kept(text[..Accepted(c.num[running], text)])
  {
    AddTextOnlyAdds(c, text, running);
    AddTextLine(c, text, running);
    assert Sound(c, running);
    LineHasNoNul(c, running);
    assert Line(c', running) == Line(AddText(c, text, running), running);
  }

  lemma LineHasNoNul(c: Console, t: nat)
    requires ValidConsole(c) && t < NUM_TERMINALS && Sound(c, t)
    ensures NUL !in Line(c, t)
  {
    var v, line := c.views[t], Line(c, t);
    forall k | 0 <= k < |line| ensures line[k] != NUL {
      assert v.cells[Pos(v) - |line| + k] == c.keys[RowAt(t) + k];
    }
  }
}
