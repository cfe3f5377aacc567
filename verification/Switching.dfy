/** Switching terminals over whole runs, with function keys or with the timer. */
module Switching {
  import opened Bytes
  import Command
  import FileSystem
  import opened SlotMask
  import opened System
  import opened SystemInvariant
  import opened Runs

  // ---------------------------------------------------------------- switching away and back

  /** Without the scheduler the keyboard and the CPU are on the same terminal. */
  predicate Together(s: System, sched: bool) {
    sched || s.active == s.running
  }

  /** The run stays off terminal t. */
  ghost predicate StaysAway(s: System, img: FileSystem.Image, sched: bool, es: seq<Event>, t: nat)
    requires FileSystem.ValidImage(img) && Inv(s, sched) && CanRun(s, img, sched, es)
    decreases es
  {
    s.running != t && Together(s, sched) &&
    (es == [] || (StepKeepsInv(s, img, sched, es[0]);
                  StaysAway(Step(s, img, sched, es[0]).0, img, sched, es[1..], t)))
  }

  lemma StepLeavesTerminal(s: System, img: FileSystem.Image, sched: bool, e: Event, s': System, t: nat)
    requires FileSystem.ValidImage(img) && Inv(s, sched) && Enabled(s, img, sched, e)
    requires s' == Step(s, img, sched, e).0 && Inv(s', sched)
    requires t < TERMINALS && t != s.running && s.stacks[t] != [] && Together(s, sched)
    ensures s'.stacks[t] == s.stacks[t]
    ensures SameImages(s, s', t, |s.stacks[t]|)
  {
    match e {
      case Execute(command, frame) => ExecuteMoves(s, img, sched, command, frame);
      case Halt(status, header) => HaltMoves(s, img, sched, status, header);
      case FKey(dest, ctx, frame) => FKeyMoves(s, img, sched, dest, ctx, frame);
      case Tick(ctx, frame) => TickMoves(s, img, sched, ctx, frame);
      case WriteFd(_, _) =>
      case GetArgs(_, _) =>
      case Store(_, _) =>
      case _ => FilesMove(s, img, sched, e);
    }
    forall k | 0 <= k < |s.stacks[t]|
      ensures s.stacks[t][k].slot < MAX_PROG_NUM && s'.images[s.stacks[t][k].slot] == s.images[s.stacks[t][k].slot]
    {
      IdleProcessKeepsMemory(s, img, sched, e, s', t, k);
    }
  }

  lemma {:induction false} RunLeavesTerminal(s: System, img: FileSystem.Image, sched: bool, es: seq<Event>, t: nat)
    requires FileSystem.ValidImage(img) && Inv(s, sched) && CanRun(s, img, sched, es)
    requires t < TERMINALS && s.stacks[t] != [] && StaysAway(s, img, sched, es, t)
    ensures Run(s, img, sched, es).stacks[t] == s.stacks[t]
    ensures SameImages(s, Run(s, img, sched, es), t, |s.stacks[t]|)
    decreases es
  {
    if es == [] {
      forall k | 0 <= k < |s.stacks[t]| ensures s.stacks[t][k].slot < MAX_PROG_NUM {
        assert At(s.stacks, t, k);
      }
    } else {
      StepKeepsInv(s, img, sched, es[0]);
      var s1 := Step(s, img, sched, es[0]).0;
      StepLeavesTerminal(s, img, sched, es[0], s1, t);
      RunLeavesTerminal(s1, img, sched, es[1..], t);
    }
  }

  /** Only F-keys and ticks move the CPU to another terminal. */
  lemma OnlySwitchesMove(s: System, img: FileSystem.Image, sched: bool, e: Event)
    requires FileSystem.ValidImage(img) && Inv(s, sched) && Enabled(s, img, sched, e) && !e.FKey? && !e.Tick?
    ensures Step(s, img, sched, e).0.running == s.running
  {
    match e
    case Execute(command, frame) => ExecuteCases(s, img, command, frame);
    case _ =>
  }

  lemma FKeyStart(s: System, img: FileSystem.Image, dest: nat, ctx: Ctx, frame: CallFrame, s': System)
    requires FileSystem.ValidImage(img) && Inv(s, false) && Enabled(s, img, false, FKey(dest, ctx, frame))
    requires s.active == s.running && Nonempty(s, s.running) && FirstSwitch(s, dest)
    requires s' == FKeyStep(s, img, false, dest, ctx, frame).0
    ensures dest != s.running && s.stacks[dest] == [] && s'.running == dest
    ensures |s'.stacks| == TERMINALS && s'.stacks[s.running] == SaveTop(s, s.running, ctx).stacks[s.running]
  {
    SwitchAndStartMoves(MarkStarted(s, dest), img, false, s.active, dest, ctx, frame);
  }

  lemma FKeySwitch(s: System, img: FileSystem.Image, dest: nat, ctx: Ctx, frame: CallFrame, s': System, out: Outcome)
    requires FileSystem.ValidImage(img) && Inv(s, false) && Enabled(s, img, false, FKey(dest, ctx, frame))
    requires s.active == s.running && Nonempty(s, s.running) && dest != s.running && s.stacks[dest] != []
    requires (s', out) == FKeyStep(s, img, false, dest, ctx, frame)
    ensures |s'.stacks| == TERMINALS && s'.stacks[s.running] == SaveTop(s, s.running, ctx).stacks[s.running]
    ensures s'.running == dest && out == Resume(Top(s, dest).saved)
  {
  }

  /** A switch between two terminals with processes. */
  lemma SwitchResumes(s: System, from: nat, to: nat, ctx: Ctx)
    requires |s.stacks| == TERMINALS && Nonempty(s, from) && Nonempty(s, to) && from != to
    ensures var (s', out) := SwitchTo(s, from, to, ctx);
            && |s'.stacks| == TERMINALS && s'.stacks[from] == SaveTop(s, from, ctx).stacks[from]
            && s'.running == to && out == Resume(Top(s, to).saved)
  {
  }

  lemma TickStart(s: System, img: FileSystem.Image, next: nat, ctx: Ctx, frame: CallFrame, s': System)
    requires FileSystem.ValidImage(img) && Inv(s, true) && Enabled(s, img, true, Tick(ctx, frame))
    requires Nonempty(s, s.running) && next == NextTerminal(s.running) && s.stacks[next] == []
    requires s' == TickStep(s, img, true, ctx, frame).0
    ensures |s'.stacks| == TERMINALS && s'.stacks[s.running] == SaveTop(s, s.running, ctx).stacks[s.running]
    ensures s'.running == next
  {
    StartSaves(Activate(s, next), img, true, s.running, next, ctx, frame);
  }

  lemma StartSaves(s: System, img: FileSystem.Image, sched: bool, old_: nat, dest: nat, ctx: Ctx, frame: CallFrame)
    requires FileSystem.ValidImage(img) && Inv(s, sched) && Nonempty(s, old_) && old_ < TERMINALS
    requires dest < TERMINALS && s.stacks[dest] == [] && ExecuteEnabled(img, Some(Command.SHELL), frame)
    requires !sched ==> (dest == 1 ==> s.second) && (dest == 2 ==> s.third)
    ensures var s' := SwitchAndStart(s, img, old_, dest, ctx, frame).0;
            s'.running == dest && |s'.stacks| == TERMINALS && s'.stacks[old_] == SaveTop(s, old_, ctx).stacks[old_]
  {
    SwitchAndStartMoves(s, img, sched, old_, dest, ctx, frame);
  }

  lemma TickSwitch(s: System, img: FileSystem.Image, ctx: Ctx, frame: CallFrame, s': System, out: Outcome)
    requires FileSystem.ValidImage(img) && Inv(s, true) && Enabled(s, img, true, Tick(ctx, frame))
    requires Nonempty(s, s.running)
    requires (s', out) == TickStep(s, img, true, ctx, frame)
    ensures |s'.stacks| == TERMINALS && s'.stacks[s.running] == SaveTop(s, s.running, ctx).stacks[s.running]
    ensures s'.running == NextTerminal(s.running)
    ensures s.stacks[s'.running] != [] ==> out == Resume(Top(s, s'.running).saved)
  {
    var next := NextTerminal(s.running);
    if Nonempty(s, next) {
      SwitchResumes(s, s.running, next, ctx);
    } else {
      TickStart(s, img, next, ctx, frame, s');
    }
  }

  lemma EmptyTerminalStays(s: System, img: FileSystem.Image, sched: bool, e: Event)
    requires FileSystem.ValidImage(img) && Inv(s, sched) && Enabled(s, img, sched, e) && Together(s, sched)
    requires !Nonempty(s, s.running)
    ensures Step(s, img, sched, e).0.running == s.running
  {
    if !e.FKey? && !e.Tick? {
      OnlySwitchesMove(s, img, sched, e);
    }
  }

  /** Leaving a terminal saves its running process where it stands; arriving on a terminal with
      processes resumes the one on top. No switch touches the memory of a live process. */
  lemma SwitchSavesAndResumes(s: System, img: FileSystem.Image, sched: bool, e: Event, s': System, out: Outcome)
    requires FileSystem.ValidImage(img) && Inv(s, sched) && Enabled(s, img, sched, e) && Together(s, sched)
    requires (s', out) == Step(s, img, sched, e) && s'.running != s.running && s'.running < TERMINALS
    ensures (e.FKey? || e.Tick?) && Nonempty(s, s.running)
    ensures |s'.stacks| == TERMINALS && s'.stacks[s.running] == SaveTop(s, s.running, e.ctx).stacks[s.running]
    ensures s.stacks[s'.running] != [] ==> out == Resume(Top(s, s'.running).saved)
    ensures forall t :: 0 <= t < TERMINALS ==> SameImages(s, s', t, |s.stacks[t]|)
  {
    if !Nonempty(s, s.running) {
      EmptyTerminalStays(s, img, sched, e);
    } else if !e.FKey? && !e.Tick? {
      OnlySwitchesMove(s, img, sched, e);
    } else {
      if e.FKey? {
        if FirstSwitch(s, e.dest) {
          FKeyStart(s, img, e.dest, e.ctx, e.frame, s');
        } else if e.dest != s.running && s.stacks[e.dest] != [] {
          FKeySwitch(s, img, e.dest, e.ctx, e.frame, s', out);
        }
      } else {
        TickSwitch(s, img, e.ctx, e.frame, s', out);
      }
      SwitchesKeepLiveMemory(s, img, sched, e, s');
    }
  }

  lemma SwitchesKeepLiveMemory(s: System, img: FileSystem.Image, sched: bool, e: Event, s': System)
    requires FileSystem.ValidImage(img) && Inv(s, sched) && Enabled(s, img, sched, e) && (e.FKey? || e.Tick?)
    requires s' == Step(s, img, sched, e).0
    ensures forall t :: 0 <= t < TERMINALS ==> SameImages(s, s', t, |s.stacks[t]|)
  {
    SwitchesKeepMemory(s, img, sched, e);
    forall t, k | 0 <= t < TERMINALS && 0 <= k < |s.stacks[t]|
      ensures s.stacks[t][k].slot < MAX_PROG_NUM && s'.images[s.stacks[t][k].slot] == s.images[s.stacks[t][k].slot]
    {
      LiveSlotIsInUse(s, t, k);
      assert At(s.stacks, t, k);
    }
  }

  ghost predicate SameSlots(a: seq<Process>, b: seq<Process>) {
    |a| == |b| && forall k :: 0 <= k < |a| ==> b[k].slot == a[k].slot
  }

  lemma SaveKeepsSlots(s: System, t: nat, ctx: Ctx)
    requires Nonempty(s, t)
    ensures SameSlots(s.stacks[t], SaveTop(s, t, ctx).stacks[t])
  {
  }

  lemma SameImagesCompose(s: System, s1: System, s2: System, t: nat)
    requires |s.stacks| == |s1.stacks| == TERMINALS && t < TERMINALS && SameSlots(s.stacks[t], s1.stacks[t])
    requires SameImages(s, s1, t, |s.stacks[t]|) && SameImages(s1, s2, t, |s1.stacks[t]|)
    ensures SameImages(s, s2, t, |s.stacks[t]|)
  {
    forall k | 0 <= k < |s.stacks[t]|
      ensures s.stacks[t][k].slot < |s.images| == |s2.images|
      ensures s2.images[s.stacks[t][k].slot] == s.images[s.stacks[t][k].slot]
    {
      assert s1.stacks[t][k].slot == s.stacks[t][k].slot;
    }
  }

  lemma LeaveAndStayAway(s: System, img: FileSystem.Image, sched: bool, away: Event, s1: System, es: seq<Event>, s2: System)
    requires FileSystem.ValidImage(img) && Inv(s, sched) && Together(s, sched)
    requires Enabled(s, img, sched, away) && s1 == Step(s, img, sched, away).0 && s1.running != s.running
    requires Inv(s1, sched) && CanRun(s1, img, sched, es) && StaysAway(s1, img, sched, es, s.running)
    requires s2 == Run(s1, img, sched, es)
    ensures (away.FKey? || away.Tick?) && Nonempty(s, s.running)
    ensures |s2.stacks| == TERMINALS && s2.stacks[s.running] == SaveTop(s, s.running, away.ctx).stacks[s.running]
    ensures SameImages(s, s2, s.running, |s.stacks[s.running]|)
  {
    SwitchSavesAndResumes(s, img, sched, away, s1, Step(s, img, sched, away).1);
    SaveKeepsSlots(s, s.running, away.ctx);
    RunLeavesTerminal(s1, img, sched, es, s.running);
    SameImagesCompose(s, s1, s2, s.running);
  }

  /** Whatever other terminals do in between, switching back to a terminal resumes the very stack it was
      left with, and finds all its processes -- files, arguments, callers and memory -- as they were. */
  lemma SwitchingBackResumes(s: System, img: FileSystem.Image, sched: bool, away: Event, s1: System, es: seq<Event>,
                             s2: System, back: Event, s3: System, out: Outcome)
    requires FileSystem.ValidImage(img) && Inv(s, sched) && Together(s, sched)
    requires Enabled(s, img, sched, away) && s1 == Step(s, img, sched, away).0 && s1.running != s.running
    requires Inv(s1, sched) && CanRun(s1, img, sched, es) && StaysAway(s1, img, sched, es, s.running)
    requires s2 == Run(s1, img, sched, es) && s2.running != s.running && Together(s2, sched)
    requires Enabled(s2, img, sched, back) && (s3, out) == Step(s2, img, sched, back)
    requires Inv(s3, sched) && s3.running == s.running
    ensures (away.FKey? || away.Tick?) && Nonempty(s, s.running)
    ensures out == Resume(away.ctx)
    ensures s3.stacks[s.running] == SaveTop(s, s.running, away.ctx).stacks[s.running]
    ensures SameImages(s, s3, s.running, |s.stacks[s.running]|)
  {
    LeaveAndStayAway(s, img, sched, away, s1, es, s2);
    SaveKeepsSlots(s, s.running, away.ctx);
    SwitchSavesAndResumes(s2, img, sched, back, s3, out);
    StepLeavesTerminal(s2, img, sched, back, s3, s.running);
    SameImagesCompose(s, s2, s3, s.running);
  }
}
