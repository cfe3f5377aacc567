/** Whole runs of the three terminals: keys, function keys, reads and writes in any order. */
module ConsoleRuns {
  import opened Bytes
  import opened Screen
  import opened Console
  import CStrings

  /** One key, or one call a program makes on the active terminal. */
  datatype Event =
    | Key(ch: Byte)
    | BackspaceKey
    | EnterKey
    | CtrlL
    | FunctionKey(dest: nat)
    | ReadCall(nbytes: int)
    | WriteCall(text: seq<Byte>)
    | ClearCommand

  /** A read waits for Enter. */
  predicate CanStep(c: Console, e: Event)
    requires ValidConsole(c)
  {
    match e
    case Key(ch) => Printable(ch)
    case BackspaceKey => c.num[c.active] <= Pos(c.views[c.active])
    case FunctionKey(dest) => dest < NUM_TERMINALS
    case ReadCall(nbytes) => c.ready[c.active] && CanRead(c, c.active, nbytes)
    case _ => true
  }

  ghost function Step(c: Console, e: Event): (r: Console)
    requires ValidConsole(c) && CanStep(c, e)
    ensures ValidConsole(r)
  {
    match e
    case Key(ch) => AddChar(c, ch, c.active)
    case BackspaceKey => Backspace(c)
    case EnterKey => Enter(c)
    case CtrlL => TermReset(c)
    case FunctionKey(dest) => FKey(c, dest)
    case ReadCall(nbytes) => Read(c, c.active, nbytes)
    case WriteCall(text) => Write(c, text, c.active)
    case ClearCommand => ScreenCleared(c)
  }

  /** The event leaves the lines and screens of the terminals in agreement. */
  ghost predicate Gentle(c: Console, e: Event)
    requires ValidConsole(c)
  {
    match e
    case EnterKey => c.active == 2 || c.num[c.active + 1] == 0
    case CtrlL => c.lib == c.active || c.num[c.lib] == 0
    case ReadCall(nbytes) =>
      forall u :: c.active < u < NUM_TERMINALS ==> c.num[u] == 0 || RowAt(c.active) + CellsRead(nbytes) <= RowAt(u)
    case ClearCommand => if c.lib == c.active then c.num[c.active] == 0 else c.num[c.lib] == 0 && Blank(Line(c, c.active))
    case _ => true
  }

  /** Backspace needs no condition of its own. */
  lemma BackspaceIsPossible(c: Console)
    requires Inv(c)
    ensures CanStep(c, BackspaceKey)
  {
    BackspaceKeepsInv(c);
  }

  /** On every terminal the cells before the cursor spell the line, with enough cells to erase it: a
      step keeps that exactly when it is gentle. */
  lemma StepKeepsInvExactlyWhen(c: Console, e: Event, c': Console)
    requires Inv(c) && CanStep(c, e) && c' == Step(c, e)
    ensures Inv(c') <==> Gentle(c, e)
  {
    match e
    case Key(ch) => TypeKeepsInv(c, ch, c');
    case BackspaceKey => BackspaceKeepsInv(c);
    case EnterKey => EnterKeepsInvExactlyWhen(c, c');
    case CtrlL => ResetKeepsInvExactlyWhen(c, c');
    case FunctionKey(dest) => FKeyKeepsInv(c, dest, c');
    case ReadCall(nbytes) => ReadKeepsInvExactlyWhen(c, nbytes, c');
    case WriteCall(text) => WriteKeepsInv(c, text, c');
    case ClearCommand => ClearKeepsInvExactlyWhen(c, c');
  }

  lemma FKeyKeepsInv(c: Console, dest: nat, c': Console)
    requires Inv(c) && dest < NUM_TERMINALS && c' == FKey(c, dest)
    ensures Inv(c')
  {
    forall u | 0 <= u < NUM_TERMINALS ensures Sound(c', u) {
      assert Sound(c, u);
    }
  }

  ghost predicate CanRun(c: Console, es: seq<Event>)
    requires ValidConsole(c)
    decreases |es|
  {
    es == [] || (CanStep(c, es[0]) && CanRun(Step(c, es[0]), es[1..]))
  }

  ghost function Run(c: Console, es: seq<Event>): (r: Console)
    requires ValidConsole(c) && CanRun(c, es)
    ensures ValidConsole(r)
    decreases |es|
  {
    if es == [] then c else Run(Step(c, es[0]), es[1..])
  }

  ghost predicate AllGentle(c: Console, es: seq<Event>)
    requires ValidConsole(c) && CanRun(c, es)
    decreases |es|
  {
    es == [] || (Gentle(c, es[0]) && AllGentle(Step(c, es[0]), es[1..]))
  }

  /** The first event of a run that is not gentle breaks the agreement. */
  lemma {:induction false} RunKeepsInvExactlyWhen(c: Console, es: seq<Event>)
    requires Inv(c) && CanRun(c, es)
    ensures AllGentle(c, es) <==> forall k :: 0 <= k <= |es| ==> CanRun(c, es[..k]) && Inv(Run(c, es[..k]))
    decreases |es|
  {
    assert es[..0] == [];
    if es != [] {
      var c', rest := Step(c, es[0]), es[1..];
      StepKeepsInvExactlyWhen(c, es[0], c');
      forall k | 0 <= k <= |es| && k > 0
        ensures CanRun(c, es[..k]) == CanRun(c', rest[..k - 1])
        ensures CanRun(c, es[..k]) ==> Run(c, es[..k]) == Run(c', rest[..k - 1])
      {
        assert es[..k][0] == es[0] && es[..k][1..] == rest[..k - 1];
      }
      if Gentle(c, es[0]) {
        RunKeepsInvExactlyWhen(c', rest);
        if AllGentle(c', rest) {
        } else {
          var k :| 0 <= k <= |rest| && !(CanRun(c', rest[..k]) && Inv(Run(c', rest[..k])));
          assert !(CanRun(c, es[..k + 1]) && Inv(Run(c, es[..k + 1])));
        }
      } else {
        assert rest[..0] == [] && Run(c', []) == c';
        assert Run(c, es[..1]) == c';
      }
    }
  }

  // ------------------------------------------------------------------ the editor as a fold

  datatype Edit = Push(ch: Byte) | Pop

  /** A line of at most 1023 characters: one is appended while there is room, one dropped if there is one. */
  function EditOne(line: seq<Byte>, e: Edit): seq<Byte> {
    match e
    case Push(ch) => if |line| < MAX_CHARS_IN_BUF && ch != NUL then line + [ch] else line
    case Pop => if line == [] then [] else line[..|line| - 1]
  }

  function Edited(line: seq<Byte>, es: seq<Edit>): seq<Byte>
    decreases |es|
  {
    if es == [] then line else Edited(EditOne(line, es[0]), es[1..])
  }

  /** The edit an event makes on terminal t: keys go to the active terminal. */
  function EditOf(c: Console, e: Event, t: nat): seq<Edit> {
    if c.active != t then [] else if e.Key? then [Push(e.ch)] else if e.BackspaceKey? then [Pop] else []
  }

  ghost function EditsFor(c: Console, es: seq<Event>, t: nat): seq<Edit>
    requires ValidConsole(c) && CanRun(c, es)
    decreases |es|
  {
    if es == [] then [] else EditOf(c, es[0], t) + EditsFor(Step(c, es[0]), es[1..], t)
  }

  /** The event does not take, reset or hit the line of terminal t. */
  predicate Spares(c: Console, e: Event, t: nat)
    requires ValidConsole(c) && t < NUM_TERMINALS
  {
    match e
    case EnterKey => c.active + 1 == t ==> c.num[t] == 0
    case CtrlL => c.active != t
    case WriteCall(_) => c.active != t
    case ReadCall(nbytes) => c.active > t || (c.active < t && (c.num[t] == 0 || RowAt(c.active) + CellsRead(nbytes) <= RowAt(t)))
    case _ => true
  }

  ghost predicate AllSpare(c: Console, es: seq<Event>, t: nat)
    requires ValidConsole(c) && CanRun(c, es) && t < NUM_TERMINALS
    decreases |es|
  {
    es == [] || (Spares(c, es[0], t) && AllSpare(Step(c, es[0]), es[1..], t))
  }

  /** Cells outside the line do not matter to it. */
  lemma SameLine(c: Console, c': Console, t: nat)
    requires ValidConsole(c) && ValidConsole(c') && t < NUM_TERMINALS && c'.num[t] == c.num[t]
    requires forall i {:trigger c'.keys[i]} :: RowAt(t) <= i < RowAt(t) + c.num[t] ==> c'.keys[i] == c.keys[i]
    ensures Line(c', t) == Line(c, t)
  {
  }

  lemma CellAdded(c: Console, c': Console, t: nat, ch: Byte)
    requires ValidConsole(c) && ValidConsole(c') && t < NUM_TERMINALS && c.num[t] < MAX_CHARS_IN_BUF
    requires c'.num[t] == c.num[t] + 1 && c'.keys == c.keys[RowAt(t) + c.num[t] := ch]
    ensures Line(c', t) == Line(c, t) + [ch]
  {
    var was, now := Line(c, t), Line(c', t);
    forall i | 0 <= i < c.num[t] ensures now[i] == was[i] {
      assert c'.keys[RowAt(t) + i] == c.keys[RowAt(t) + i];
    }
    assert now == was + [ch];
  }

  lemma KeyEdits(c: Console, ch: Byte, t: nat, c': Console)
    requires ValidConsole(c) && Printable(ch) && t < NUM_TERMINALS && c' == AddChar(c, ch, c.active)
    ensures Line(c', t) == Edited(Line(c, t), EditOf(c, Key(ch), t))
  {
    if c.active != t {
      SameLine(c, c', t);
    } else {
      var line := EditOne(Line(c, t), Push(ch));
      if c.num[t] < MAX_CHARS_IN_BUF && ch != NUL {
        CellAdded(c, c', t, ch);
      }
      assert Line(c', t) == line;
      assert Edited(Line(c, t), [Push(ch)]) == Edited(line, []);
    }
  }

  lemma BackspaceEdits(c: Console, t: nat, c': Console)
    requires ValidConsole(c) && CanStep(c, BackspaceKey) && t < NUM_TERMINALS && c' == Backspace(c)
    ensures Line(c', t) == Edited(Line(c, t), EditOf(c, BackspaceKey, t))
  {
    if c.active != t {
      SameLine(c, c', t);
    } else if c.num[t] > 0 {
      var line := EditOne(Line(c, t), Pop);
      LastCellDropped(c, c', t);
      assert Edited(Line(c, t), [Pop]) == Edited(line, []);
    }
  }

  lemma LastCellDropped(c: Console, c': Console, t: nat)
    requires ValidConsole(c) && ValidConsole(c') && t < NUM_TERMINALS && c.num[t] > 0 && c'.num[t] == c.num[t] - 1
    requires c'.keys == c.keys[RowAt(t) + c.num[t] - 1 := NUL]
    ensures Line(c', t) == Line(c, t)[..c.num[t] - 1]
  {
    var was, now := Line(c, t), Line(c', t);
    forall i | 0 <= i < c.num[t] - 1 ensures now[i] == was[i] {
      assert c'.keys[RowAt(t) + i] == c.keys[RowAt(t) + i];
    }
    assert now == was[..c.num[t] - 1];
  }

  lemma OtherStepsEdit(c: Console, e: Event, t: nat, c': Console)
    requires ValidConsole(c) && CanStep(c, e) && t < NUM_TERMINALS && Spares(c, e, t) && c' == Step(c, e)
    requires !e.Key? && !e.BackspaceKey? && !e.WriteCall?
    ensures Line(c', t) == Line(c, t)
  {
  }

  lemma StepEdits(c: Console, e: Event, t: nat, c': Console)
    requires ValidConsole(c) && CanStep(c, e) && t < NUM_TERMINALS && Spares(c, e, t) && c' == Step(c, e)
    ensures Line(c', t) == Edited(Line(c, t), EditOf(c, e, t))
  {
    if e.Key? {
      KeyEdits(c, e.ch, t, c');
    } else if e.BackspaceKey? {
      BackspaceEdits(c, t, c');
    } else if e.WriteCall? {
      AddTextElsewhere(c, e.text, t);
      SameLine(c, c', t);
    } else {
      OtherStepsEdit(c, e, t, c');
    }
  }

  lemma {:induction false} EditedInTwo(line: seq<Byte>, es: seq<Edit>, fs: seq<Edit>)
    ensures Edited(line, es + fs) == Edited(Edited(line, es), fs)
    decreases |es|
  {
    if es == [] {
      assert es + fs == fs;
    } else {
      assert (es + fs)[0] == es[0] && (es + fs)[1..] == es[1..] + fs;
      EditedInTwo(EditOne(line, es[0]), es[1..], fs);
    }
  }

  /** Whatever happens on the other terminals meanwhile, the line of a terminal is the fold of the keys
      pressed while that terminal was the active one. */
  lemma {:induction false} LineIsFold(c: Console, es: seq<Event>, t: nat)
    requires ValidConsole(c) && CanRun(c, es) && t < NUM_TERMINALS && AllSpare(c, es, t)
    ensures Line(Run(c, es), t) == Edited(Line(c, t), EditsFor(c, es, t))
    decreases |es|
  {
    if es != [] {
      var c' := Step(c, es[0]);
      StepEdits(c, es[0], t, c');
      LineIsFold(c', es[1..], t);
      EditedInTwo(Line(c, t), EditOf(c, es[0], t), EditsFor(c', es[1..], t));
    }
  }

  /** From an empty line: edits, Enter and more edits, interleaved with anything on other terminals; a
      read then returns the first nbytes + 1 bytes of the edited line, filled up with NULs, and the
      line is empty again. */
  lemma ReadReturnsTheEdits(c: Console, es: seq<Event>, nbytes: int)
    requires Inv(c) && CanRun(c, es) && AllGentle(c, es) && nbytes < MAX_CHARS_IN_BUF
    requires var t := Run(c, es).active; Line(c, t) == [] && AllSpare(c, es, t) && Run(c, es).ready[t]
    ensures var c', t := Run(c, es), Run(c, es).active;
            && CanStep(c', ReadCall(nbytes))
            && Delivered(c', t, nbytes) == CStrings.Padded(Edited([], EditsFor(c, es, t)), if nbytes < 0 then 0 else nbytes + 1)
            && Line(Step(c', ReadCall(nbytes)), t) == []
  {
    var c', t := Run(c, es), Run(c, es).active;
    RunKeepsInvExactlyWhen(c, es);
    assert es[..|es|] == es;
    LineIsFold(c, es, t);
    ReadDelivers(c', t, nbytes);
  }

  /** No line grows past the buffer, and what is typed past it is lost. */
  lemma {:induction false} TypingIsCut(line: seq<Byte>, text: seq<Byte>)
    requires |line| <= MAX_CHARS_IN_BUF && NUL !in text
    ensures Edited(line, seq(|text|, i requires 0 <= i < |text| => Push(text[i]))) == Take(line + text, MAX_CHARS_IN_BUF)
    decreases |text|
  {
    var es := seq(|text|, i requires 0 <= i < |text| => Push(text[i]));
    if text == [] {
      assert line + text == line;
    } else {
      var rest := text[1..];
      assert es[1..] == seq(|rest|, i requires 0 <= i < |rest| => Push(rest[i]));
      TypingIsCut(EditOne(line, es[0]), rest);
      assert (line + [text[0]]) + rest == line + text;
    }
  }

  // ------------------------------------------------------------------ separate screens

  /** A terminal that is not the active one keeps its characters, and its cursor too unless clear_screen
      still takes it for the active one. */
  lemma StepKeepsScreen(c: Console, e: Event, t: nat, c': Console)
    requires ValidConsole(c) && CanStep(c, e) && t < NUM_TERMINALS && t != c.active && c' == Step(c, e)
    ensures c'.views[t].cells == c.views[t].cells
    ensures c'.views[t] == c.views[t] || (c.lib == t && (e.ClearCommand? || e.CtrlL?))
  {
    if e.WriteCall? {
      AddTextElsewhere(c, e.text, t);
    }
  }

  ghost predicate NeverActive(c: Console, es: seq<Event>, t: nat)
    requires ValidConsole(c) && CanRun(c, es)
    decreases |es|
  {
    es == [] || (c.active != t && NeverActive(Step(c, es[0]), es[1..], t))
  }

  /** Away and back: whatever runs on the other terminals, the characters of a terminal are as left. */
  lemma {:induction false} RunKeepsScreen(c: Console, es: seq<Event>, t: nat)
    requires ValidConsole(c) && CanRun(c, es) && t < NUM_TERMINALS && NeverActive(c, es, t)
    ensures Run(c, es).views[t].cells == c.views[t].cells
    decreases |es|
  {
    if es != [] {
      StepKeepsScreen(c, es[0], t, Step(c, es[0]));
      RunKeepsScreen(Step(c, es[0]), es[1..], t);
    }
  }
}
