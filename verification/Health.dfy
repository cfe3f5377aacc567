/** When the running terminal has a process and the keyboard agrees with the CPU, and how the timer goes
    round. */
module Health {
  import opened Bytes
  import Command
  import FileSystem
  import opened SlotMask
  import opened System
  import opened SystemInvariant
  import opened Runs
  import opened Switching

  /** The terminal of the keyboard is the one that runs, and every terminal that counts as started has
      a process -- the first one always counts. */
  predicate Healthy(s: System) {
    && s.active == s.running && Nonempty(s, 0)
    && (s.second ==> Nonempty(s, 1)) && (s.third ==> Nonempty(s, 2))
  }

  /** A first switch whose shell cannot start: the shell is not a program, or no slot is free. */
  predicate FailedStart(s: System, img: FileSystem.Image, e: Event)
    requires FileSystem.ValidImage(img) && (e.FKey? ==> |e.frame.header| == 32)
  {
    e.FKey? && FirstSwitch(s, e.dest) && !(Loadable(img, Command.SHELL, e.frame.header) && FreeSlot(s).Some?)
  }

  ghost predicate ValidFrames(e: Event) {
    match e
    case FKey(_, _, frame) => ValidFrame(frame)
    case Tick(_, frame) => ValidFrame(frame)
    case _ => true
  }

  lemma SameUseSameFreeSlot(s: System, s': System, i: nat)
    requires i <= MAX_PROG_NUM
    requires forall j :: InUse(s', j) <==> InUse(s, j)
    ensures FreeSlotFrom(s', i) == FreeSlotFrom(s, i)
    decreases MAX_PROG_NUM - i
  {
    if i < MAX_PROG_NUM {
      SameUseSameFreeSlot(s, s', i + 1);
    }
  }

  lemma ShellCommandIsPlain()
    ensures !Command.NameTooLong(Command.SHELL) && Command.Name(Command.SHELL) == Command.SHELL
    ensures !IsClear(Command.SHELL)
  {
    var cmd := Command.SHELL;
    assert cmd[4] == 0x6C && cmd[3] == 0x6C && cmd[2] == 0x65 && cmd[1] == 0x68 && cmd[0] == 0x73;
    assert Command.WordFrom(cmd, 5) == 5;
    assert Command.WordFrom(cmd, 4) == 5;
    assert Command.WordFrom(cmd, 3) == 5;
    assert Command.WordFrom(cmd, 2) == 5;
    assert Command.WordFrom(cmd, 1) == 5;
    assert Command.WordFrom(cmd, 0) == 5;
    assert Take(cmd, 5)[0] != Command.CLEAR[0];
  }

  /** The switch that starts a shell leaves a process on the new terminal exactly when the shell is a
      program and a slot is free. */
  lemma StartedExactlyWhen(s: System, img: FileSystem.Image, sched: bool, old_: nat, dest: nat, ctx: Ctx, frame: CallFrame)
    requires FileSystem.ValidImage(img) && Inv(s, sched) && Nonempty(s, old_) && old_ < TERMINALS
    requires dest < TERMINALS && s.stacks[dest] == []
    requires ExecuteEnabled(img, Some(Command.SHELL), frame)
    ensures SwitchAndStart(s, img, old_, dest, ctx, frame).0.running == dest
    ensures SwitchAndStart(s, img, old_, dest, ctx, frame).0.active == s.active
    ensures Nonempty(SwitchAndStart(s, img, old_, dest, ctx, frame).0, dest)
       <==> Loadable(img, Command.SHELL, frame.header) && FreeSlot(s).Some?
  {
    var s1 := SaveTop(s, old_, ctx).(running := dest);
    SaveKeepsUse(s, sched, old_, ctx);
    assert forall i :: InUse(s1, i) <==> InUse(SaveTop(s, old_, ctx), i);
    SameUseSameFreeSlot(s, s1, 0);
    ShellCommandIsPlain();
    ExecuteCases(s1, img, Some(Command.SHELL), frame);
  }

  lemma HealthyHasProcess(s: System)
    requires Inv(s, false) && Healthy(s)
    ensures Nonempty(s, s.running)
  {
    assert s.running in {0, 1, 2};
  }

  lemma StartedLeavesOthers(s: System, img: FileSystem.Image, sched: bool, old_: nat, dest: nat, ctx: Ctx, frame: CallFrame)
    requires FileSystem.ValidImage(img) && Inv(s, sched) && Nonempty(s, old_) && old_ < TERMINALS
    requires dest < TERMINALS && s.stacks[dest] == []
    requires ExecuteEnabled(img, Some(Command.SHELL), frame)
    requires !sched ==> (dest == 1 ==> s.second) && (dest == 2 ==> s.third)
    ensures var r := SwitchAndStart(s, img, old_, dest, ctx, frame).0;
            && r.second == s.second && r.third == s.third
            && forall t :: 0 <= t < TERMINALS && t != dest ==> (Nonempty(r, t) <==> Nonempty(s, t))
  {
    SwitchAndStartMoves(s, img, sched, old_, dest, ctx, frame);
    var s1 := SaveTop(s, old_, ctx).(running := dest);
    ExecuteCases(s1, img, Some(Command.SHELL), frame);
  }

  lemma FirstSwitchHealthyExactlyWhen(s: System, img: FileSystem.Image, dest: nat, ctx: Ctx, frame: CallFrame, s': System)
    requires FileSystem.ValidImage(img) && Inv(s, false) && Healthy(s) && Nonempty(s, s.active)
    requires dest < TERMINALS && FirstSwitch(s, dest) && ExecuteEnabled(img, Some(Command.SHELL), frame)
    requires s' == SwitchAndStart(MarkStarted(s, dest), img, s.active, dest, ctx, frame).0
    ensures Healthy(s') <==> Loadable(img, Command.SHELL, frame.header) && FreeSlot(s).Some?
  {
    var m := MarkStarted(s, dest);
    StartedExactlyWhen(m, img, false, s.active, dest, ctx, frame);
    StartedLeavesOthers(m, img, false, s.active, dest, ctx, frame);
    assert forall i :: InUse(m, i) <==> InUse(s, i);
    SameUseSameFreeSlot(s, m, 0);
  }

  lemma FKeyHealthyExactlyWhen(s: System, img: FileSystem.Image, e: Event, s': System)
    requires FileSystem.ValidImage(img) && Inv(s, false) && Enabled(s, img, false, e) && ValidFrames(e)
    requires e.FKey? && s' == FKeyStep(s, img, false, e.dest, e.ctx, e.frame).0 && Healthy(s)
    ensures Healthy(s') <==> !FailedStart(s, img, e)
  {
    HealthyHasProcess(s);
    if FirstSwitch(s, e.dest) {
      FirstSwitchHealthyExactlyWhen(s, img, e.dest, e.ctx, e.frame, s');
    } else {
      assert Nonempty(s, e.dest);
    }
  }

  /** A step keeps a healthy system healthy exactly when it is not a failed start. */
  lemma HealthyExactlyWhen(s: System, img: FileSystem.Image, e: Event, s': System)
    requires FileSystem.ValidImage(img) && Inv(s, false) && Enabled(s, img, false, e) && ValidFrames(e)
    requires s' == Step(s, img, false, e).0 && Healthy(s)
    ensures Healthy(s') <==> !FailedStart(s, img, e)
  {
    match e
    case Execute(command, frame) => ExecuteCases(s, img, command, frame);
    case FKey(dest, ctx, frame) => FKeyHealthyExactlyWhen(s, img, e, s');
    case _ =>
  }

  /** Healthy in every state of a run. */
  ghost predicate AlwaysHealthy(s: System, img: FileSystem.Image, es: seq<Event>)
    requires FileSystem.ValidImage(img) && Inv(s, false) && CanRun(s, img, false, es)
    decreases es
  {
    Healthy(s) &&
    (es == [] || (StepKeepsInv(s, img, false, es[0]);
                  AlwaysHealthy(Step(s, img, false, es[0]).0, img, es[1..])))
  }

  ghost predicate NoFailedStart(s: System, img: FileSystem.Image, es: seq<Event>)
    requires FileSystem.ValidImage(img) && Inv(s, false) && CanRun(s, img, false, es)
    requires forall e <- es :: ValidFrames(e)
    decreases es
  {
    es == [] ||
    (assert ValidFrames(es[0]);
     !FailedStart(s, img, es[0]) &&
     (StepKeepsInv(s, img, false, es[0]);
      NoFailedStart(Step(s, img, false, es[0]).0, img, es[1..])))
  }

  /** From a healthy state, every state of a run is healthy exactly when no start in it fails. */
  lemma {:induction false} RunHealthyExactlyWhen(s: System, img: FileSystem.Image, es: seq<Event>)
    requires FileSystem.ValidImage(img) && Inv(s, false) && CanRun(s, img, false, es)
    requires forall e <- es :: ValidFrames(e)
    requires Healthy(s)
    ensures AlwaysHealthy(s, img, es) <==> NoFailedStart(s, img, es)
    decreases es
  {
    if es != [] {
      assert ValidFrames(es[0]);
      StepKeepsInv(s, img, false, es[0]);
      var s1 := Step(s, img, false, es[0]).0;
      HealthyExactlyWhen(s, img, es[0], s1);
      if Healthy(s1) {
        RunHealthyExactlyWhen(s1, img, es[1..]);
      }
    }
  }

  /** The CPU stays off terminal t. */
  ghost predicate StaysOff(s: System, img: FileSystem.Image, es: seq<Event>, t: nat)
    requires FileSystem.ValidImage(img) && Inv(s, false) && CanRun(s, img, false, es)
    decreases es
  {
    s.running != t &&
    (es == [] || (StepKeepsInv(s, img, false, es[0]);
                  StaysOff(Step(s, img, false, es[0]).0, img, es[1..], t)))
  }

  lemma {:induction false} HealthyStaysAway(s: System, img: FileSystem.Image, es: seq<Event>, t: nat)
    requires FileSystem.ValidImage(img) && Inv(s, false) && CanRun(s, img, false, es)
    requires AlwaysHealthy(s, img, es) && StaysOff(s, img, es, t)
    ensures StaysAway(s, img, false, es, t) && Run(s, img, false, es).running != t
    decreases es
  {
    if es != [] {
      StepKeepsInv(s, img, false, es[0]);
      HealthyStaysAway(Step(s, img, false, es[0]).0, img, es[1..], t);
    }
  }

  /** The CPU leaves its terminal, and not by a failed start. */
  ghost predicate Leaves(s: System, img: FileSystem.Image, away: Event, s1: System)
    requires FileSystem.ValidImage(img) && Inv(s, false)
  {
    Enabled(s, img, false, away) && ValidFrames(away) && !FailedStart(s, img, away)
    && s1 == Step(s, img, false, away).0 && s1.running != s.running
  }

  /** A run on other terminals in which no start fails. */
  ghost predicate RunsElsewhere(s: System, img: FileSystem.Image, es: seq<Event>, s': System, t: nat)
    requires FileSystem.ValidImage(img) && Inv(s, false)
  {
    CanRun(s, img, false, es) && (forall e <- es :: ValidFrames(e)) && NoFailedStart(s, img, es)
    && StaysOff(s, img, es, t) && s' == Run(s, img, false, es)
  }

  /** In a healthy system in which no start of a shell fails: away from a terminal, any run on the others,
      and back resumes the stack the terminal was left with, its processes and memory as they were. */
  lemma HealthySwitchingBackResumes(s: System, img: FileSystem.Image, away: Event, s1: System, es: seq<Event>,
                                    s2: System, back: Event, s3: System, out: Outcome)
    requires FileSystem.ValidImage(img) && Inv(s, false) && Healthy(s) && Leaves(s, img, away, s1)
    requires Inv(s1, false) && RunsElsewhere(s1, img, es, s2, s.running)
    requires Inv(s2, false) && Enabled(s2, img, false, back) && (s3, out) == Step(s2, img, false, back)
    requires Inv(s3, false) && s3.running == s.running
    ensures (away.FKey? || away.Tick?) && Nonempty(s, s.running)
    ensures out == Resume(away.ctx)
    ensures s3.stacks[s.running] == SaveTop(s, s.running, away.ctx).stacks[s.running]
    ensures SameImages(s, s3, s.running, |s.stacks[s.running]|)
  {
    HealthyExactlyWhen(s, img, away, s1);
    RunHealthyExactlyWhen(s1, img, es);
    HealthyStaysAway(s1, img, es, s.running);
    HealthyAtTheEnd(s1, img, es);
    SwitchingBackResumes(s, img, false, away, s1, es, s2, back, s3, out);
  }

  lemma {:induction false} HealthyAtTheEnd(s: System, img: FileSystem.Image, es: seq<Event>)
    requires FileSystem.ValidImage(img) && Inv(s, false) && CanRun(s, img, false, es) && AlwaysHealthy(s, img, es)
    ensures Healthy(Run(s, img, false, es))
    decreases es
  {
    if es != [] {
      StepKeepsInv(s, img, false, es[0]);
      HealthyAtTheEnd(Step(s, img, false, es[0]).0, img, es[1..]);
    }
  }

  /** A start that fails: every slot is taken by programs nested on the first terminal, and F2 leaves
      the CPU on a terminal where nothing runs. */
  lemma FullTableFailsToStart(s: System, img: FileSystem.Image, ctx: Ctx, frame: CallFrame)
    requires FileSystem.ValidImage(img) && ExecuteEnabled(img, Some(Command.SHELL), frame) && ValidImages(s)
    requires FullFirstTerminal(s)
    ensures Inv(s, false) && Healthy(s)
    ensures var s' := FKeyStep(s, img, false, 1, ctx, frame).0;
            s'.running == 1 && s'.stacks[1] == []
  {
    FullIsSound(s);
    StartedExactlyWhen(MarkStarted(s, 1), img, false, 0, 1, ctx, frame);
    assert forall i :: InUse(MarkStarted(s, 1), i) <==> InUse(s, i);
    SameUseSameFreeSlot(s, MarkStarted(s, 1), 0);
    SwitchAndStartMoves(MarkStarted(s, 1), img, false, 0, 1, ctx, frame);
  }

  /** Seven processes on the first terminal, none elsewhere. */
  ghost predicate FullFirstTerminal(s: System) {
    && |s.stacks| == TERMINALS && |s.stacks[0]| == MAX_PROG_NUM && s.stacks[1] == s.stacks[2] == []
    && (forall d :: 0 <= d < MAX_PROG_NUM ==> s.stacks[0][d].slot == d && ValidFiles(s.stacks[0][d].files))
    && s.active == s.running == 0 && !s.second && !s.third
  }

  lemma FullIsSound(s: System)
    requires FullFirstTerminal(s) && ValidImages(s)
    ensures Inv(s, false) && Healthy(s) && forall d :: 0 <= d < MAX_PROG_NUM ==> InUse(s, d)
  {
    forall d | 0 <= d < MAX_PROG_NUM ensures InUse(s, d) {
      assert s.stacks[0][d].slot == d && HasSlot(s.stacks[0], d);
    }
  }

  // ---------------------------------------------------------------- round robin

  function Ticks(es: seq<Event>): nat {
    if es == [] then 0 else (if es[0].Tick? then 1 else 0) + Ticks(es[1..])
  }

  /** The running terminal has a process in every state of the run. */
  ghost predicate AlwaysRuns(s: System, img: FileSystem.Image, es: seq<Event>)
    requires FileSystem.ValidImage(img) && Inv(s, true) && CanRun(s, img, true, es)
    decreases es
  {
    Nonempty(s, s.running) &&
    (es == [] || (StepKeepsInv(s, img, true, es[0]);
                  AlwaysRuns(Step(s, img, true, es[0]).0, img, es[1..])))
  }

  lemma OneTick(s: System, img: FileSystem.Image, e: Event, s1: System, out: Outcome)
    requires FileSystem.ValidImage(img) && Inv(s, true) && Enabled(s, img, true, e) && Nonempty(s, s.running)
    requires (s1, out) == Step(s, img, true, e)
    ensures s1.running == if e.Tick? then NextTerminal(s.running) else s.running
  {
    if e.Tick? {
      TickSwitch(s, img, e.ctx, e.frame, s1, out);
    } else if !e.FKey? {
      OnlySwitchesMove(s, img, true, e);
    }
  }

  lemma NextThenMore(t: nat, n: nat)
    ensures (NextTerminal(t) + n) % TERMINALS == (t + (1 + n)) % TERMINALS
  {
  }

  /** A tick onto an empty terminal whose shell cannot start. */
  predicate FailedTick(s: System, img: FileSystem.Image, e: Event)
    requires FileSystem.ValidImage(img) && (e.Tick? ==> |e.frame.header| == 32)
  {
    e.Tick? && !Nonempty(s, NextTerminal(s.running)) && !(Loadable(img, Command.SHELL, e.frame.header) && FreeSlot(s).Some?)
  }

  /** The running terminal keeps a process exactly when the step is not a failed tick. */
  lemma RunsExactlyWhen(s: System, img: FileSystem.Image, e: Event, s1: System)
    requires FileSystem.ValidImage(img) && Inv(s, true) && Enabled(s, img, true, e) && Nonempty(s, s.running)
    requires ValidFrames(e) && s1 == Step(s, img, true, e).0
    ensures Nonempty(s1, s1.running) <==> !FailedTick(s, img, e)
  {
    match e
    case Execute(command, frame) => ExecuteCases(s, img, command, frame);
    case Tick(ctx, frame) =>
      var next := NextTerminal(s.running);
      if !Nonempty(s, next) {
        StartedExactlyWhen(Activate(s, next), img, true, s.running, next, ctx, frame);
        assert forall i :: InUse(Activate(s, next), i) <==> InUse(s, i);
        SameUseSameFreeSlot(s, Activate(s, next), 0);
      }
    case _ =>
  }

  ghost predicate NoFailedTick(s: System, img: FileSystem.Image, es: seq<Event>)
    requires FileSystem.ValidImage(img) && Inv(s, true) && CanRun(s, img, true, es)
    requires forall e <- es :: ValidFrames(e)
    decreases es
  {
    es == [] ||
    (assert ValidFrames(es[0]);
     !FailedTick(s, img, es[0]) &&
     (StepKeepsInv(s, img, true, es[0]);
      NoFailedTick(Step(s, img, true, es[0]).0, img, es[1..])))
  }

  /** The running terminal has a process all along exactly when no start of a shell fails. */
  lemma {:induction false} AlwaysRunsExactlyWhen(s: System, img: FileSystem.Image, es: seq<Event>)
    requires FileSystem.ValidImage(img) && Inv(s, true) && CanRun(s, img, true, es)
    requires forall e <- es :: ValidFrames(e)
    requires Nonempty(s, s.running)
    ensures AlwaysRuns(s, img, es) <==> NoFailedTick(s, img, es)
    decreases es
  {
    if es != [] {
      assert ValidFrames(es[0]);
      StepKeepsInv(s, img, true, es[0]);
      var s1 := Step(s, img, true, es[0]).0;
      RunsExactlyWhen(s, img, es[0], s1);
      if Nonempty(s1, s1.running) {
        AlwaysRunsExactlyWhen(s1, img, es[1..]);
      }
    }
  }

  /** With the scheduler on and as long as no start of a shell fails, n ticks move the CPU n terminals on,
      whatever else happens in between; so any three states with one tick between them run three
      terminals, each with a process. */
  lemma RoundRobin(s: System, img: FileSystem.Image, es: seq<Event>)
    requires FileSystem.ValidImage(img) && Inv(s, true) && CanRun(s, img, true, es)
    requires forall e <- es :: ValidFrames(e)
    requires Nonempty(s, s.running) && NoFailedTick(s, img, es)
    ensures AlwaysRuns(s, img, es)
    ensures Run(s, img, true, es).running == (s.running + Ticks(es)) % TERMINALS
  {
    AlwaysRunsExactlyWhen(s, img, es);
    TicksGoRound(s, img, es);
  }

  lemma {:induction false} TicksGoRound(s: System, img: FileSystem.Image, es: seq<Event>)
    requires FileSystem.ValidImage(img) && Inv(s, true) && CanRun(s, img, true, es) && AlwaysRuns(s, img, es)
    ensures Run(s, img, true, es).running == (s.running + Ticks(es)) % TERMINALS
    decreases es
  {
    if es != [] {
      StepKeepsInv(s, img, true, es[0]);
      var (s1, out) := Step(s, img, true, es[0]);
      OneTick(s, img, es[0], s1, out);
      TicksGoRound(s1, img, es[1..]);
      NextThenMore(s.running, Ticks(es[1..]));
    }
  }
}
