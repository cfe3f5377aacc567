/** From boot on: the first shell, what the whole run after it keeps, and a system on which all of it
    happens. */
module Boot {
  import opened Bytes
  import Command
  import FileSystem
  import opened SlotMask
  import opened System
  import opened SystemInvariant
  import opened Runs
  import opened Switching
  import opened Health

  /** Before the first execute nothing runs anywhere. */
  function BootSystem(images: seq<seq<Byte>>): System {
    System([[], [], []], 0, 0, false, false, images)
  }

  ghost predicate FrameImages(images: seq<seq<Byte>>) {
    |images| == MAX_PROG_NUM && forall i :: 0 <= i < MAX_PROG_NUM ==> |images[i]| == FRAME_SIZE
  }

  lemma BootKeepsInv(images: seq<seq<Byte>>, sched: bool)
    requires FrameImages(images)
    ensures Inv(BootSystem(images), sched) && FreeSlot(BootSystem(images)) == Some(0)
  {
    var s := BootSystem(images);
    assert forall t: nat, d: nat :: !At(s.stacks, t, d);
    assert forall i :: !InUse(s, i);
  }

  /** The shell that boot executes. */
  function FirstShell(images: seq<seq<Byte>>, img: FileSystem.Image, frame: CallFrame): (r: System)
    requires FileSystem.ValidImage(img) && FrameImages(images) && ExecuteEnabled(img, Some(Command.SHELL), frame)
    ensures Inv(r, false) && Inv(r, true)
  {
    BootKeepsInv(images, false);
    BootKeepsInv(images, true);
    ExecuteKeepsInv(BootSystem(images), img, false, Some(Command.SHELL), frame);
    ExecuteKeepsInv(BootSystem(images), img, true, Some(Command.SHELL), frame);
    ExecuteStep(BootSystem(images), img, Some(Command.SHELL), frame).0
  }

  /** Boot ends with a shell in slot 0 on the first terminal exactly when the image holds a runnable one. */
  lemma BootIsHealthyExactlyWhen(images: seq<seq<Byte>>, img: FileSystem.Image, frame: CallFrame)
    requires FileSystem.ValidImage(img) && FrameImages(images) && ExecuteEnabled(img, Some(Command.SHELL), frame)
    ensures Healthy(FirstShell(images, img, frame)) <==> Loadable(img, Command.SHELL, frame.header)
    ensures Healthy(FirstShell(images, img, frame)) ==> Top(FirstShell(images, img, frame), 0).slot == 0
  {
    BootKeepsInv(images, false);
    ShellCommandIsPlain();
    ExecuteCases(BootSystem(images), img, Some(Command.SHELL), frame);
  }

  /** Every state after boot, in any run in which no start of a shell fails, has keyboard and CPU on one
      terminal with a process. */
  lemma PostBootIsHealthy(images: seq<seq<Byte>>, img: FileSystem.Image, frame: CallFrame, es: seq<Event>)
    requires FileSystem.ValidImage(img) && FrameImages(images) && ExecuteEnabled(img, Some(Command.SHELL), frame)
    requires Loadable(img, Command.SHELL, frame.header)
    requires CanRun(FirstShell(images, img, frame), img, false, es) && forall e <- es :: ValidFrames(e)
    ensures AlwaysHealthy(FirstShell(images, img, frame), img, es)
       <==> NoFailedStart(FirstShell(images, img, frame), img, es)
  {
    BootIsHealthyExactlyWhen(images, img, frame);
    RunHealthyExactlyWhen(FirstShell(images, img, frame), img, es);
  }

  // ------------------------------------------------------------------ a full table

  /** n shells, each run by the one before it, on the first terminal; nothing elsewhere. */
  ghost predicate Nested(s: System, n: nat) {
    && Inv(s, false) && |s.stacks| == TERMINALS && |s.stacks[0]| == n <= MAX_PROG_NUM && s.stacks[1] == s.stacks[2] == []
    && (forall d :: 0 <= d < n ==> s.stacks[0][d].slot == d)
    && s.active == s.running == 0 && !s.second && !s.third
  }

  lemma NestedFreeSlot(s: System, n: nat)
    requires Nested(s, n) && n < MAX_PROG_NUM
    ensures FreeSlot(s) == Some(n)
  {
    forall d | 0 <= d < n ensures InUse(s, d) {
      assert s.stacks[0][d].slot == d && HasSlot(s.stacks[0], d);
    }
    assert !InUse(s, n);
  }

  // `== true` in the lemmas below keeps a large predicate one fact, not proved conjunct by conjunct.

  lemma NestOne(s: System, img: FileSystem.Image, frame: CallFrame, n: nat, n1: nat, e: Event)
    requires Nested(s, n) && n1 == n + 1 <= MAX_PROG_NUM && FileSystem.ValidImage(img) && e == Execute(Some(Command.SHELL), frame)
    requires ExecuteEnabled(img, Some(Command.SHELL), frame) && Loadable(img, Command.SHELL, frame.header)
    ensures Inv(s, false) && Enabled(s, img, false, e) && Nested(Step(s, img, false, e).0, n1) == true
  {
    NestedFreeSlot(s, n);
    ShellCommandIsPlain();
    ExecuteKeepsInv(s, img, false, Some(Command.SHELL), frame);
    ExecuteCases(s, img, Some(Command.SHELL), frame);
  }

  function Executes(frame: CallFrame, k: nat): seq<Event> {
    if k == 0 then [] else [Execute(Some(Command.SHELL), frame)] + Executes(frame, k - 1)
  }

  /** The run is possible and ends with m nested shells. */
  ghost predicate Nests(s: System, img: FileSystem.Image, es: seq<Event>, m: nat) {
    FileSystem.ValidImage(img) && Inv(s, false) && CanRun(s, img, false, es) && Nested(Run(s, img, false, es), m)
  }

  lemma NestsFromStep(s: System, img: FileSystem.Image, e: Event, es: seq<Event>, m: nat)
    requires FileSystem.ValidImage(img) && Inv(s, false) && Enabled(s, img, false, e)
    requires Nests(Step(s, img, false, e).0, img, es, m) == true
    ensures Nests(s, img, [e] + es, m)
  {
    RunFromStep(s, img, false, e, Step(s, img, false, e).0, es);
  }

  /** k more shells. */
  lemma {:induction false} NestMany(s: System, img: FileSystem.Image, frame: CallFrame, n: nat, k: nat, m: nat)
    requires Nested(s, n) == true && n + k == m <= MAX_PROG_NUM && FileSystem.ValidImage(img)
    requires ExecuteEnabled(img, Some(Command.SHELL), frame) && Loadable(img, Command.SHELL, frame.header)
    ensures Nests(s, img, Executes(frame, k), m) == true
    decreases k
  {
    if k > 0 {
      var e, n1, k1 := Execute(Some(Command.SHELL), frame), n + 1, k - 1;
      NestOne(s, img, frame, n, n1, e);
      NestMany(Step(s, img, false, e).0, img, frame, n1, k1, m);
      NestsFromStep(s, img, e, Executes(frame, k1), m);
    }
  }

  /** The state in which a start fails is reachable: six more shells from the first one. */
  lemma FullTableIsReachable(images: seq<seq<Byte>>, img: FileSystem.Image, frame: CallFrame, s0: System, es: seq<Event>)
    requires FileSystem.ValidImage(img) && FrameImages(images) && ExecuteEnabled(img, Some(Command.SHELL), frame)
    requires Loadable(img, Command.SHELL, frame.header)
    requires s0 == FirstShell(images, img, frame) && es == Executes(frame, MAX_PROG_NUM - 1)
    ensures CanRun(s0, img, false, es) && FullFirstTerminal(Run(s0, img, false, es))
  {
    FirstShellIs(images, img, frame);
    NestMany(s0, img, frame, 1, MAX_PROG_NUM - 1, MAX_PROG_NUM);
    NestedIsFull(Run(s0, img, false, es));
  }

  lemma NestedIsFull(s: System)
    requires Nested(s, MAX_PROG_NUM)
    ensures FullFirstTerminal(s)
  {
    forall d | 0 <= d < MAX_PROG_NUM ensures ValidFiles(s.stacks[0][d].files) {
      assert At(s.stacks, 0, d);
    }
  }

  // ------------------------------------------------------------------ a system on which this happens

  /** An image with one file, a runnable shell of 100 bytes. */
  function SampleImage(): FileSystem.Image {
    FileSystem.Image([FileSystem.Dentry(Command.SHELL + Repeat(NUL, 27), FileSystem.FILE_TYPE, 0)],
                     [FileSystem.Inode(100, Repeat(0, FileSystem.BLOCKS_PER_INODE))], 1,
                     [0x7f, 0x45, 0x4c, 0x46] + Repeat(NUL, FileSystem.BLOCK_SIZE - 4))
  }

  lemma SampleImageIsValid()
    ensures FileSystem.ValidImage(SampleImage())
    ensures FileSystem.Lookup(SampleImage(), Command.SHELL) == Some(0)
  {
    var name := SampleImage().dentries[0].fileName;
    assert name[..5] == Command.SHELL && name[5] == NUL;
    CStrIs(name, 5);
  }

  lemma SampleShellIsLoadable(header: seq<Byte>)
    requires |header| == 32
    ensures FileSystem.ValidImage(SampleImage()) && Loadable(SampleImage(), Command.SHELL, header)
    ensures FitsFrame(SampleImage(), Command.SHELL)
  {
    SampleImageIsValid();
    var img := SampleImage();
    var flat := FileSystem.Flat(img, img.inodes[0]);
    var r := FileSystem.FsReadSpec(img, Command.SHELL, 0, 32).0;
    assert r.bytes == flat[..32];
    assert flat[0] == 0x7f && flat[1] == 0x45 && flat[2] == 0x4c && flat[3] == 0x46;
    assert (r.bytes + header[32..])[..4] == [0x7f, 0x45, 0x4c, 0x46];
  }

  /** A frame for the sample shell. */
  lemma SampleShellIsEnabled(frame: CallFrame)
    requires ValidFrame(frame)
    ensures FileSystem.ValidImage(SampleImage()) && Loadable(SampleImage(), Command.SHELL, frame.header)
    ensures ExecuteEnabled(SampleImage(), Some(Command.SHELL), frame)
  {
    SampleShellIsLoadable(frame.header);
    ShellCommandIsPlain();
    assert Command.SpaceFrom(Command.SHELL, 5) == 5;
    Command.ScansFindTheFirst(Command.SHELL, 0);
  }

  /** F2 starts a second shell, F1 goes back: the first shell resumes where F2 interrupted it. */
  lemma ThereAndBack(images: seq<seq<Byte>>, img: FileSystem.Image, frame: CallFrame, ctx: Ctx, ctx': Ctx)
    requires FrameImages(images) && FileSystem.ValidImage(img) && ExecuteEnabled(img, Some(Command.SHELL), frame)
    requires Loadable(img, Command.SHELL, frame.header)
    ensures var s1 := FirstShell(images, img, frame);
            && Inv(s1, false) && Enabled(s1, img, false, FKey(1, ctx, frame))
            && var s2 := Step(s1, img, false, FKey(1, ctx, frame)).0;
            && Inv(s2, false) && Enabled(s2, img, false, FKey(0, ctx', frame)) && Nonempty(s2, 1) && s2.running == 1
            && var (s3, out) := Step(s2, img, false, FKey(0, ctx', frame));
            && s3.running == 0 && out == Resume(ctx)
  {
    BootIsHealthyExactlyWhen(images, img, frame);
    FirstShellIs(images, img, frame);
    var s1 := FirstShell(images, img, frame);
    var e1, e2 := FKey(1, ctx, frame), FKey(0, ctx', frame);
    var s2 := Step(s1, img, false, e1).0;
    StepKeepsInv(s1, img, false, e1);
    HealthyExactlyWhen(s1, img, e1, s2);
    FKeyStart(s1, img, 1, ctx, frame, s2);
    var (s3, out) := Step(s2, img, false, e2);
    FKeySwitch(s2, img, 0, ctx', frame, s3, out);
  }

  /** The sample image is one on which that happens. */
  lemma SampleThereAndBack(images: seq<seq<Byte>>, frame: CallFrame, ctx: Ctx, ctx': Ctx)
    requires FrameImages(images) && ValidFrame(frame)
    ensures FileSystem.ValidImage(SampleImage()) && ExecuteEnabled(SampleImage(), Some(Command.SHELL), frame)
    ensures var s1 := FirstShell(images, SampleImage(), frame);
            && Inv(s1, false) && Enabled(s1, SampleImage(), false, FKey(1, ctx, frame))
            && var s2 := Step(s1, SampleImage(), false, FKey(1, ctx, frame)).0;
            && Inv(s2, false) && Enabled(s2, SampleImage(), false, FKey(0, ctx', frame))
            && Step(s2, SampleImage(), false, FKey(0, ctx', frame)).1 == Resume(ctx)
  {
    SampleShellIsEnabled(frame);
    ThereAndBack(images, SampleImage(), frame, ctx, ctx');
  }

  lemma FirstShellIs(images: seq<seq<Byte>>, img: FileSystem.Image, frame: CallFrame)
    requires FileSystem.ValidImage(img) && FrameImages(images) && ExecuteEnabled(img, Some(Command.SHELL), frame)
    requires Loadable(img, Command.SHELL, frame.header)
    ensures var s1 := FirstShell(images, img, frame);
            && Inv(s1, false) && |s1.stacks| == TERMINALS && |s1.stacks[0]| == 1 && s1.stacks[1] == s1.stacks[2] == []
            && !s1.second && !s1.third && s1.running == s1.active == 0 && s1.stacks[0][0].slot == 0
            && FreeSlot(s1) == Some(1)
  {
    BootIsHealthyExactlyWhen(images, img, frame);
    BootKeepsInv(images, false);
    ShellCommandIsPlain();
    ExecuteCases(BootSystem(images), img, Some(Command.SHELL), frame);
    var s1 := FirstShell(images, img, frame);
    assert s1.stacks[0][0].slot == 0;
    assert HasSlot(s1.stacks[0], 0);
    assert !InUse(s1, 1);
  }

  /** The first shell runs a second one, which halts: execute returns the status where it was called. */
  lemma CallAndReturn(images: seq<seq<Byte>>, img: FileSystem.Image, frame: CallFrame, call: CallFrame, status: Byte)
    requires FrameImages(images) && FileSystem.ValidImage(img)
    requires ExecuteEnabled(img, Some(Command.SHELL), frame) && Loadable(img, Command.SHELL, frame.header)
    requires ExecuteEnabled(img, Some(Command.SHELL), call) && Loadable(img, Command.SHELL, call.header)
    ensures var s := FirstShell(images, img, frame);
            && Inv(s, false) && Starts(s, img, Some(Command.SHELL), call)
            && var s1 := ExecuteStep(s, img, Some(Command.SHELL), call).0;
            && Inv(s1, false) && |s1.stacks[0]| == 2 && s1.running == 0
            && HaltStep(s1, img, status, call.header).1 == ExecuteReturns(status, call.ctx)
            && HaltStep(s1, img, status, call.header).0.stacks[0] == s.stacks[0]
  {
    FirstShellIs(images, img, frame);
    ShellCommandIsPlain();
    var s := FirstShell(images, img, frame);
    var s1 := ExecuteStep(s, img, Some(Command.SHELL), call).0;
    ExecuteKeepsInv(s, img, false, Some(Command.SHELL), call);
    ExecuteCases(s, img, Some(Command.SHELL), call);
    StartAddsOne(s, img, false, Some(Command.SHELL), call, s1);
    HaltReturnsToExecute(s, img, false, Some(Command.SHELL), call, s1, [], s1, status, call.header);
  }
}
