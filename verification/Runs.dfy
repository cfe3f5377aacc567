/** What holds over whole runs: sequences of events of any kind, on any terminal. */
module Runs {
  import opened Bytes
  import Command
  import CStrings
  import FileSystem
  import Paging
  import opened SlotMask
  import opened System
  import opened SystemInvariant

  /** Can these events happen one after the other? */
  ghost predicate CanRun(s: System, img: FileSystem.Image, sched: bool, es: seq<Event>)
    requires FileSystem.ValidImage(img) && Inv(s, sched)
    decreases es
  {
    es == [] ||
    (Enabled(s, img, sched, es[0]) &&
     (StepKeepsInv(s, img, sched, es[0]);
      CanRun(Step(s, img, sched, es[0]).0, img, sched, es[1..])))
  }

  /** The state after a run. Every run keeps the invariant. */
  function Run(s: System, img: FileSystem.Image, sched: bool, es: seq<Event>): (r: System)
    requires FileSystem.ValidImage(img) && Inv(s, sched) && CanRun(s, img, sched, es)
    ensures Inv(r, sched)
    decreases es
  {
    if es == [] then s
    else
      StepKeepsInv(s, img, sched, es[0]);
      Run(Step(s, img, sched, es[0]).0, img, sched, es[1..])
  }

  /** A run that starts with a given event. */
  lemma RunFromStep(s: System, img: FileSystem.Image, sched: bool, e: Event, s1: System, es: seq<Event>)
    requires FileSystem.ValidImage(img) && Inv(s, sched) && Enabled(s, img, sched, e)
    requires s1 == Step(s, img, sched, e).0 && Inv(s1, sched) && CanRun(s1, img, sched, es)
    ensures CanRun(s, img, sched, [e] + es) && Run(s, img, sched, [e] + es) == Run(s1, img, sched, es)
  {
    assert ([e] + es)[1..] == es;
  }

  // ---------------------------------------------------------------- which memory a step touches

  /** The events in which the running process, or the kernel for it, stores to its own page. */
  predicate Stores(e: Event) {
    e.Store? || e.ReadFd? || e.GetArgs?
  }

  /** A step changes no image but that of a free slot, which execute loads, and that of the running
      process, which stores to it. */
  ghost predicate OthersKeepMemory(s: System, s': System, e: Event) {
    |s.images| == |s'.images| == MAX_PROG_NUM &&
    forall i :: 0 <= i < MAX_PROG_NUM && s'.images[i] != s.images[i] ==>
      !InUse(s, i) || (Stores(e) && Nonempty(s, s.running) && i == Top(s, s.running).slot)
  }

  lemma ExecuteKeepsMemory(s: System, s0: System, img: FileSystem.Image, sched: bool, command: Option<seq<Byte>>,
                           frame: CallFrame, e: Event)
    requires FileSystem.ValidImage(img) && Inv(s, sched) && ExecuteEnabled(img, command, frame)
    requires s0.images == s.images && forall i :: InUse(s0, i) <==> InUse(s, i)
    ensures OthersKeepMemory(s0, ExecuteStep(s, img, command, frame).0, e)
  {
    ExecuteCases(s, img, command, frame);
  }

  lemma SwitchAndStartKeepsMemory(s: System, img: FileSystem.Image, sched: bool, old_: nat, dest: nat, ctx: Ctx,
                                  frame: CallFrame, e: Event)
    requires FileSystem.ValidImage(img) && Inv(s, sched) && Nonempty(s, old_) && old_ < TERMINALS && dest < TERMINALS
    requires ExecuteEnabled(img, Some(Command.SHELL), frame)
    requires !sched ==> (dest == 1 ==> s.second) && (dest == 2 ==> s.third)
    ensures OthersKeepMemory(s, SwitchAndStart(s, img, old_, dest, ctx, frame).0, e)
  {
    SaveKeepsInv(s, sched, old_, ctx);
    SaveKeepsUse(s, sched, old_, ctx);
    var s1 := SaveTop(s, old_, ctx);
    assert forall i :: InUse(s1.(running := dest), i) <==> InUse(s1, i);
    ExecuteKeepsMemory(s1.(running := dest), s, img, sched, Some(Command.SHELL), frame, e);
  }

  lemma SwitchesKeepMemory(s: System, img: FileSystem.Image, sched: bool, e: Event)
    requires FileSystem.ValidImage(img) && Inv(s, sched) && Enabled(s, img, sched, e) && (e.FKey? || e.Tick?)
    ensures OthersKeepMemory(s, Step(s, img, sched, e).0, e)
  {
    match e {
      case FKey(dest, ctx, frame) =>
        assert forall i :: InUse(MarkStarted(s, dest), i) <==> InUse(s, i);
        if !sched && FirstSwitch(s, dest) {
          SwitchAndStartKeepsMemory(MarkStarted(s, dest), img, sched, s.active, dest, ctx, frame, e);
        }
      case Tick(ctx, frame) =>
        var next := NextTerminal(s.running);
        assert forall i :: InUse(Activate(s, next), i) <==> InUse(s, i);
        if sched && Nonempty(s, s.running) && !Nonempty(s, next) {
          SwitchAndStartKeepsMemory(Activate(s, next), img, sched, s.running, next, ctx, frame, e);
        }
    }
  }

  lemma StoresKeepMemory(s: System, img: FileSystem.Image, sched: bool, e: Event)
    requires FileSystem.ValidImage(img) && Inv(s, sched) && Enabled(s, img, sched, e) && Stores(e)
    ensures OthersKeepMemory(s, Step(s, img, sched, e).0, e)
  {
    TopIsSound(s, sched, s.running);
  }

  /** The other events touch no memory at all. */
  lemma RestKeepsMemory(s: System, img: FileSystem.Image, sched: bool, e: Event)
    requires FileSystem.ValidImage(img) && Inv(s, sched) && Enabled(s, img, sched, e)
    requires e.Halt? || e.OpenFd? || e.CloseFd? || e.WriteFd?
    ensures Step(s, img, sched, e).0.images == s.images
  {
    TopIsSound(s, sched, s.running);
  }

  lemma StepKeepsMemory(s: System, img: FileSystem.Image, sched: bool, e: Event)
    requires FileSystem.ValidImage(img) && Inv(s, sched) && Enabled(s, img, sched, e)
    ensures OthersKeepMemory(s, Step(s, img, sched, e).0, e)
  {
    match e
    case Execute(command, frame) => ExecuteKeepsMemory(s, s, img, sched, command, frame, e);
    case FKey(_, _, _) => SwitchesKeepMemory(s, img, sched, e);
    case Tick(_, _) => SwitchesKeepMemory(s, img, sched, e);
    case Store(_, _) => StoresKeepMemory(s, img, sched, e);
    case ReadFd(_, _, _) => StoresKeepMemory(s, img, sched, e);
    case GetArgs(_, _) => StoresKeepMemory(s, img, sched, e);
    case _ => RestKeepsMemory(s, img, sched, e);
  }

  lemma SaveKeepsUse(s: System, sched: bool, t: nat, ctx: Ctx)
    requires Inv(s, sched) && Nonempty(s, t) && t < TERMINALS
    ensures forall i :: InUse(SaveTop(s, t, ctx), i) <==> InUse(s, i)
  {
    TopIsSound(s, sched, t);
    SetTopKeepsInv(s, sched, t, Top(s, t).(saved := ctx));
  }

  lemma LiveSlotIsInUse(s: System, t: nat, d: nat)
    requires t < |s.stacks| && d < |s.stacks[t]|
    ensures InUse(s, s.stacks[t][d].slot)
  {
    assert HasSlot(s.stacks[t], s.stacks[t][d].slot);
  }

  /** The memory of a process that is not the running one stays as it is. */
  lemma IdleProcessKeepsMemory(s: System, img: FileSystem.Image, sched: bool, e: Event, s': System, t: nat, d: nat)
    requires FileSystem.ValidImage(img) && Inv(s, sched) && Enabled(s, img, sched, e)
    requires s' == Step(s, img, sched, e).0
    requires t < TERMINALS && d < |s.stacks[t]|
    requires t != s.running || d < |s.stacks[t]| - 1
    ensures s.stacks[t][d].slot < |s.images| == |s'.images|
    ensures s'.images[s.stacks[t][d].slot] == s.images[s.stacks[t][d].slot]
  {
    StepKeepsMemory(s, img, sched, e);
    LiveSlotIsInUse(s, t, d);
    assert At(s.stacks, t, d);
    if Nonempty(s, s.running) {
      assert At(s.stacks, s.running, |s.stacks[s.running]| - 1);
    }
  }

  // ---------------------------------------------------------------- which stacks a step touches

  ghost predicate SameProcess(p: Process, q: Process) {
    p.slot == q.slot && p.caller == q.caller && p.args == q.args
  }

  ghost predicate Touched(a: seq<Process>, b: seq<Process>) {
    |a| == |b| > 0 && a[..|a| - 1] == b[..|b| - 1] && SameProcess(a[|a| - 1], b[|b| - 1])
  }

  ghost predicate Pushed(a: seq<Process>, b: seq<Process>) {
    |b| == |a| + 1 && b[..|a|] == a
  }

  /** A stack stays, or its top process changes files or saved stack, or one process comes or goes. */
  ghost predicate Moved(a: seq<Process>, b: seq<Process>) {
    a == b || Touched(a, b) || Pushed(a, b) || Pushed(b, a)
  }

  ghost predicate AllMoved(s: System, s': System) {
    |s.stacks| == |s'.stacks| == TERMINALS &&
    forall t :: 0 <= t < TERMINALS ==> Moved(s.stacks[t], s'.stacks[t])
  }

  /** Only the running terminal moved. */
  ghost predicate OthersStay(s: System, s': System) {
    |s.stacks| == |s'.stacks| == TERMINALS &&
    forall t :: 0 <= t < TERMINALS && t != s.running ==> s'.stacks[t] == s.stacks[t]
  }

  lemma SetTopMoves(s: System, t: nat, p: Process)
    requires |s.stacks| == TERMINALS && Nonempty(s, t) && SameProcess(Top(s, t), p)
    ensures AllMoved(s, SetTop(s, t, p))
    ensures forall u :: 0 <= u < TERMINALS && u != t ==> SetTop(s, t, p).stacks[u] == s.stacks[u]
  {
    var a, b := s.stacks[t], SetTop(s, t, p).stacks[t];
    assert a[..|a| - 1] == b[..|b| - 1];
    assert Touched(a, b);
  }

  lemma ExecuteMoves(s: System, img: FileSystem.Image, sched: bool, command: Option<seq<Byte>>, frame: CallFrame)
    requires FileSystem.ValidImage(img) && Inv(s, sched) && ExecuteEnabled(img, command, frame)
    ensures AllMoved(s, ExecuteStep(s, img, command, frame).0)
    ensures OthersStay(s, ExecuteStep(s, img, command, frame).0)
  {
    ExecuteCases(s, img, command, frame);
  }

  lemma SetFileMoves(s: System, sched: bool, fd: nat, f: Option<OpenFile>)
    requires Inv(s, sched) && HasFiles(s) && fd < MAX_FILES
    ensures AllMoved(s, SetFile(s, fd, f))
    ensures OthersStay(s, SetFile(s, fd, f))
  {
    var p := Top(s, s.running);
    SetTopMoves(s, s.running, p.(files := p.files[fd := f]));
  }

  lemma FilesMove(s: System, img: FileSystem.Image, sched: bool, e: Event)
    requires FileSystem.ValidImage(img) && Inv(s, sched) && Enabled(s, img, sched, e)
    requires e.OpenFd? || e.CloseFd? || e.ReadFd?
    ensures AllMoved(s, Step(s, img, sched, e).0)
    ensures OthersStay(s, Step(s, img, sched, e).0)
  {
    var files := Top(s, s.running).files;
    TopIsSound(s, sched, s.running);
    match e
    case OpenFd(filename) =>
      if OpenStep(s, img, filename).1 != Return(-1) {
        var i, fd := FileSystem.Lookup(img, filename.value).value, FreeFd(files, 2).value;
        SetFileMoves(s, sched, fd, Some(Opened(filename.value, img.dentries[i].fileType)));
      }
    case CloseFd(fd) =>
      if 2 <= fd <= 7 {
        SetFileMoves(s, sched, fd, None);
      }
    case ReadFd(fd, buf, nbytes) =>
      if !ReadRejected(s, fd, buf) && (files[fd].value.Directory? || files[fd].value.Regular?) {
        SetFileMoves(s, sched, fd, Some(ReadFile(img, files[fd].value, nbytes).0));
      }
  }

  lemma HaltMoves(s: System, img: FileSystem.Image, sched: bool, status: Byte, header: seq<Byte>)
    requires FileSystem.ValidImage(img) && Inv(s, sched) && Nonempty(s, s.running) && |header| == 32
    ensures AllMoved(s, HaltStep(s, img, status, header).0)
    ensures OthersStay(s, HaltStep(s, img, status, header).0)
  {
  }

  /** A switch saves the top process of the terminal it leaves. */
  lemma SwitchMoves(s: System, old_: nat, dest: nat, ctx: Ctx)
    requires |s.stacks| == TERMINALS && Nonempty(s, old_) && Nonempty(s, dest)
    ensures AllMoved(s, SwitchTo(s, old_, dest, ctx).0)
    ensures forall t :: 0 <= t < TERMINALS && t != old_ ==> SwitchTo(s, old_, dest, ctx).0.stacks[t] == s.stacks[t]
  {
    SetTopMoves(s, old_, Top(s, old_).(saved := ctx));
  }

  lemma SwitchAndStartMoves(s: System, img: FileSystem.Image, sched: bool, old_: nat, dest: nat, ctx: Ctx, frame: CallFrame)
    requires FileSystem.ValidImage(img) && Inv(s, sched) && Nonempty(s, old_) && old_ < TERMINALS
    requires dest < TERMINALS && s.stacks[dest] == []
    requires ExecuteEnabled(img, Some(Command.SHELL), frame)
    requires !sched ==> (dest == 1 ==> s.second) && (dest == 2 ==> s.third)
    ensures SwitchAndStart(s, img, old_, dest, ctx, frame).0.running == dest
    ensures AllMoved(s, SwitchAndStart(s, img, old_, dest, ctx, frame).0)
    ensures forall t :: 0 <= t < TERMINALS && t != dest ==>
              SwitchAndStart(s, img, old_, dest, ctx, frame).0.stacks[t] == SaveTop(s, old_, ctx).stacks[t]
  {
    var s1 := SaveTop(s, old_, ctx).(running := dest);
    SetTopMoves(s, old_, Top(s, old_).(saved := ctx));
    SaveKeepsInv(s, sched, old_, ctx);
    ExecuteMoves(s1, img, sched, Some(Command.SHELL), frame);
    ExecuteCases(s1, img, Some(Command.SHELL), frame);
  }

  lemma FKeyMoves(s: System, img: FileSystem.Image, sched: bool, dest: nat, ctx: Ctx, frame: CallFrame)
    requires FileSystem.ValidImage(img) && Inv(s, sched) && Enabled(s, img, sched, FKey(dest, ctx, frame))
    ensures AllMoved(s, FKeyStep(s, img, sched, dest, ctx, frame).0)
    ensures forall t :: 0 <= t < TERMINALS && t != s.active && s.stacks[t] != []
                        ==> FKeyStep(s, img, sched, dest, ctx, frame).0.stacks[t] == s.stacks[t]
  {
    if sched {
    } else if FirstSwitch(s, dest) {
      SwitchAndStartMoves(MarkStarted(s, dest), img, sched, s.active, dest, ctx, frame);
    } else if Nonempty(s, s.active) && Nonempty(s, dest) {
      SwitchMoves(Activate(s, dest), s.active, dest, ctx);
    }
  }

  lemma TickMoves(s: System, img: FileSystem.Image, sched: bool, ctx: Ctx, frame: CallFrame)
    requires FileSystem.ValidImage(img) && Inv(s, sched) && Enabled(s, img, sched, Tick(ctx, frame))
    ensures AllMoved(s, TickStep(s, img, sched, ctx, frame).0)
    ensures forall t :: 0 <= t < TERMINALS && t != s.running && s.stacks[t] != []
                        ==> TickStep(s, img, sched, ctx, frame).0.stacks[t] == s.stacks[t]
  {
    var next := NextTerminal(s.running);
    if !sched || !Nonempty(s, s.running) {
    } else if Nonempty(s, next) {
      SwitchMoves(s, s.running, next, ctx);
    } else {
      SwitchAndStartMoves(Activate(s, next), img, sched, s.running, next, ctx, frame);
    }
  }

  lemma StepMoves(s: System, img: FileSystem.Image, sched: bool, e: Event)
    requires FileSystem.ValidImage(img) && Inv(s, sched) && Enabled(s, img, sched, e)
    ensures AllMoved(s, Step(s, img, sched, e).0)
  {
    match e
    case Execute(command, frame) => ExecuteMoves(s, img, sched, command, frame);
    case Halt(status, header) => HaltMoves(s, img, sched, status, header);
    case FKey(dest, ctx, frame) => FKeyMoves(s, img, sched, dest, ctx, frame);
    case Tick(ctx, frame) => TickMoves(s, img, sched, ctx, frame);
    case WriteFd(_, _) =>
    case GetArgs(_, _) =>
    case Store(_, _) =>
    case _ => FilesMove(s, img, sched, e);
  }

  // ---------------------------------------------------------------- execute and halt bracket

  /** Everything under depth d of a stack is untouched, and so is what halt will need of depth d. */
  ghost predicate SameBelow(a: seq<Process>, b: seq<Process>, d: nat) {
    |a| > d && |b| > d && b[..d] == a[..d] && SameProcess(a[d], b[d])
  }

  lemma MovedKeepsBelow(a: seq<Process>, b: seq<Process>, d: nat)
    requires Moved(a, b) && |a| > d && |b| > d
    ensures SameBelow(a, b, d)
  {
    if Touched(a, b) {
      assert b[..d] == b[..|b| - 1][..d] && a[..d] == a[..|a| - 1][..d];
      if d < |a| - 1 {
        assert a[d] == a[..|a| - 1][d] && b[d] == b[..|b| - 1][d];
      }
    } else if Pushed(a, b) {
      assert b[..d] == b[..|a|][..d];
      assert b[d] == b[..|a|][d];
    } else if Pushed(b, a) {
      assert a[..d] == a[..|b|][..d];
      assert a[d] == a[..|b|][d];
    }
  }

  ghost predicate SameImages(s: System, s': System, t: nat, d: nat)
    requires t < |s.stacks| && d <= |s.stacks[t]|
  {
    forall k :: 0 <= k < d ==>
      s.stacks[t][k].slot < |s.images| == |s'.images| && s'.images[s.stacks[t][k].slot] == s.images[s.stacks[t][k].slot]
  }

  /** Depth d of terminal t never ends during the run. */
  ghost predicate StaysAbove(s: System, img: FileSystem.Image, sched: bool, es: seq<Event>, t: nat, d: nat)
    requires FileSystem.ValidImage(img) && Inv(s, sched) && CanRun(s, img, sched, es) && t < TERMINALS
    decreases es
  {
    |s.stacks[t]| > d &&
    (es == [] || (StepKeepsInv(s, img, sched, es[0]);
                  StaysAbove(Step(s, img, sched, es[0]).0, img, sched, es[1..], t, d)))
  }

  lemma StepKeepsBelow(s: System, img: FileSystem.Image, sched: bool, e: Event, s': System, t: nat, d: nat)
    requires FileSystem.ValidImage(img) && Inv(s, sched) && Enabled(s, img, sched, e)
    requires s' == Step(s, img, sched, e).0 && Inv(s', sched)
    requires t < TERMINALS && |s.stacks[t]| > d && |s'.stacks[t]| > d
    ensures SameBelow(s.stacks[t], s'.stacks[t], d)
    ensures SameImages(s, s', t, d)
  {
    StepMoves(s, img, sched, e);
    MovedKeepsBelow(s.stacks[t], s'.stacks[t], d);
    forall k | 0 <= k < d
      ensures s.stacks[t][k].slot < MAX_PROG_NUM && s'.images[s.stacks[t][k].slot] == s.images[s.stacks[t][k].slot]
    {
      IdleProcessKeepsMemory(s, img, sched, e, s', t, k);
    }
  }

  lemma BelowIsTransitive(s: System, s1: System, s2: System, t: nat, d: nat)
    requires |s.stacks| == |s1.stacks| == |s2.stacks| == TERMINALS && t < TERMINALS
    requires SameBelow(s.stacks[t], s1.stacks[t], d) && SameBelow(s1.stacks[t], s2.stacks[t], d)
    requires SameImages(s, s1, t, d) && SameImages(s1, s2, t, d)
    ensures SameBelow(s.stacks[t], s2.stacks[t], d) && SameImages(s, s2, t, d)
  {
    forall k | 0 <= k < d
      ensures s.stacks[t][k].slot < |s.images| == |s2.images|
      ensures s2.images[s.stacks[t][k].slot] == s.images[s.stacks[t][k].slot]
    {
      assert s1.stacks[t][k] == s1.stacks[t][..d][k] == s.stacks[t][..d][k];
    }
  }

  lemma {:induction false} RunKeepsBelow(s: System, img: FileSystem.Image, sched: bool, es: seq<Event>, t: nat, d: nat)
    requires FileSystem.ValidImage(img) && Inv(s, sched) && CanRun(s, img, sched, es) && t < TERMINALS
    requires StaysAbove(s, img, sched, es, t, d)
    ensures SameBelow(s.stacks[t], Run(s, img, sched, es).stacks[t], d)
    ensures SameImages(s, Run(s, img, sched, es), t, d)
    decreases es
  {
    if es == [] {
      forall k | 0 <= k < d ensures s.stacks[t][k].slot < MAX_PROG_NUM {
        assert At(s.stacks, t, k);
      }
    } else {
      StepKeepsInv(s, img, sched, es[0]);
      var s1 := Step(s, img, sched, es[0]).0;
      RunKeepsBelow(s1, img, sched, es[1..], t, d);
      StepKeepsBelow(s, img, sched, es[0], s1, t, d);
      BelowIsTransitive(s, s1, Run(s1, img, sched, es[1..]), t, d);
    }
  }

  /** Execute and halt are call and return. Whatever happens on any terminal between an execute that
      starts a program and the halt of that program, the halt resumes the stack that the execute saved,
      makes it return the status of the program, and leaves its terminal exactly as it was before the
      execute: every process below with its files, arguments, saved stacks and memory. */
  lemma HaltReturnsToExecute(s: System, img: FileSystem.Image, sched: bool, command: Option<seq<Byte>>, frame: CallFrame,
                             s1: System, es: seq<Event>, s2: System, status: Byte, header: seq<Byte>)
    requires FileSystem.ValidImage(img) && Inv(s, sched) && Inv(s1, sched) && Nonempty(s, s.running)
    requires ExecuteEnabled(img, command, frame) && Starts(s, img, command, frame) && |header| == 32
    requires s1 == ExecuteStep(s, img, command, frame).0
    requires CanRun(s1, img, sched, es) && StaysAbove(s1, img, sched, es, s.running, |s.stacks[s.running]|)
    requires s2 == Run(s1, img, sched, es)
    requires s2.running == s.running && |s2.stacks[s.running]| == |s.stacks[s.running]| + 1
    ensures HaltStep(s2, img, status, header).1 == ExecuteReturns(status, frame.ctx)
    ensures HaltStep(s2, img, status, header).0.stacks[s.running] == s.stacks[s.running]
    ensures SameImages(s, HaltStep(s2, img, status, header).0, s.running, |s.stacks[s.running]|)
  {
    var t, d := s.running, |s.stacks[s.running]|;
    StartAddsOne(s, img, sched, command, frame, s1);
    RunKeepsBelow(s1, img, sched, es, t, d);
    HaltTakesOne(s2, img, status, header);
    assert s2.stacks[t][..d] == s.stacks[t];
    forall k | 0 <= k < d
      ensures s2.images[s.stacks[t][k].slot] == s.images[s.stacks[t][k].slot]
    {
      assert s1.stacks[t][..d][k] == s.stacks[t][k];
    }
  }

  lemma StartAddsOne(s: System, img: FileSystem.Image, sched: bool, command: Option<seq<Byte>>, frame: CallFrame, s1: System)
    requires FileSystem.ValidImage(img) && Inv(s, sched)
    requires ExecuteEnabled(img, command, frame) && Starts(s, img, command, frame)
    requires s1 == ExecuteStep(s, img, command, frame).0
    ensures |s1.stacks| == TERMINALS && |s1.stacks[s.running]| == |s.stacks[s.running]| + 1
    ensures s1.stacks[s.running][..|s.stacks[s.running]|] == s.stacks[s.running]
    ensures s1.stacks[s.running][|s.stacks[s.running]|].caller == frame.ctx
    ensures s1.stacks[s.running][|s.stacks[s.running]|].args == Command.Args(command.value, frame.args, frame.cmdLen)
    ensures SameImages(s, s1, s.running, |s.stacks[s.running]|)
  {
    ExecuteCases(s, img, command, frame);
    forall k | 0 <= k < |s.stacks[s.running]|
      ensures s.stacks[s.running][k].slot < MAX_PROG_NUM && s.stacks[s.running][k].slot != FreeSlot(s).value
    {
      LiveSlotIsInUse(s, s.running, k);
      assert At(s.stacks, s.running, k);
    }
  }

  lemma HaltTakesOne(s: System, img: FileSystem.Image, status: Byte, header: seq<Byte>)
    requires FileSystem.ValidImage(img) && Nonempty(s, s.running) && |s.stacks[s.running]| > 1 && |header| == 32
    ensures var d := |s.stacks[s.running]| - 1;
            && HaltStep(s, img, status, header).1 == ExecuteReturns(status, s.stacks[s.running][d].caller)
            && HaltStep(s, img, status, header).0.stacks == s.stacks[s.running := s.stacks[s.running][..d]]
            && HaltStep(s, img, status, header).0.images == s.images
  {
  }

  /** The arguments typed after a program's name are what getargs delivers to that program, however many
      programs it has run in between and whatever other terminals did. */
  lemma ArgsReachTheProgram(s: System, img: FileSystem.Image, sched: bool, command: Option<seq<Byte>>, frame: CallFrame,
                            s1: System, es: seq<Event>, s2: System, buf: nat, n: nat, s3: System)
    requires FileSystem.ValidImage(img) && Inv(s, sched) && Inv(s1, sched)
    requires ExecuteEnabled(img, command, frame) && Starts(s, img, command, frame)
    requires s1 == ExecuteStep(s, img, command, frame).0
    requires CanRun(s1, img, sched, es) && StaysAbove(s1, img, sched, es, s.running, |s.stacks[s.running]|)
    requires s2 == Run(s1, img, sched, es)
    requires s2.running == s.running && |s2.stacks[s.running]| == |s.stacks[s.running]| + 1
    requires HasImage(s2) && InPage(buf, n) && s3 == GetArgsStep(s2, Some(buf), n).0
    ensures var args := Command.Args(command.value, frame.args, frame.cmdLen);
            var offset := buf - Paging.PROCESS_PAGE;
            && offset + n <= |s3.images[Top(s2, s.running).slot]|
            && s3.images[Top(s2, s.running).slot][offset..offset + n] == CStrings.Padded(args, n)
  {
    StartAddsOne(s, img, sched, command, frame, s1);
    RunKeepsBelow(s1, img, sched, es, s.running, |s.stacks[s.running]|);
    GetArgsStores(s2, buf, n);
  }

  lemma GetArgsStores(s: System, buf: nat, n: nat)
    requires HasImage(s) && InPage(buf, n)
    ensures var s' := GetArgsStep(s, Some(buf), n).0; var offset := buf - Paging.PROCESS_PAGE;
            && ValidImages(s')
            && s'.images[Top(s, s.running).slot][offset..offset + n] == CStrings.Padded(Top(s, s.running).args, n)
  {
  }
}
