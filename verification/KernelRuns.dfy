/** Whole runs of the kernel: any sequence of events takes it where the abstract system goes. */
module KernelRuns {
  import opened Bytes
  import Command
  import FileSystem
  import opened SlotMask
  import opened System
  import opened SystemInvariant
  import opened Runs
  import opened Kernel
  import opened KernelMemory
  import opened KernelTables
  import opened Health
  import opened Boot
  import Paging

  function RawOf(chars: Option<seq<Byte>>): (r: Option<seq<Byte>>)
    requires chars.Some? ==> NUL !in chars.value
    ensures r.Some? ==> Terminated(r.value)
    ensures CommandOf(r) == chars
  {
    if chars.None? then None else Some(CopyOf(chars.value))
  }

  /** A file name handed to open holds no NUL. */
  ghost predicate PlainNames(e: Event) {
    e.OpenFd? && e.filename.Some? ==> NUL !in e.filename.value
  }

  /** One interrupt or system call. */
  method Handle(k: Kernel, e: Event) returns (out: Outcome)
    requires k.Valid() && Enabled(k.sys, k.img, k.sched, e) && PlainNames(e)
    modifies k, k.phys, k.paging.pageDirectory
    ensures k.Valid() && (k.sys, out) == Step(old(k.sys), k.img, k.sched, e)
  {
    assert Nonempty(k.sys, k.sys.running) ==> HasFiles(k.sys) && HasImage(k.sys) by {
      if Nonempty(k.sys, k.sys.running) { TopIsSound(k.sys, k.sched, k.sys.running); }
    }
    match e
    case Execute(command, frame) => out := k.Execute(RawOf(command), frame);
    case Halt(status, header) =>
      var called;
      out, called := k.Halt(status, header);
    case OpenFd(filename) => out := k.OpenFile(RawOf(filename));
    case CloseFd(fd) => out := k.CloseFile(fd);
    case ReadFd(fd, buf, nbytes) => out := k.ReadFd(fd, buf, nbytes);
    case GetArgs(buf, nbytes) => out := k.GetArgs(buf, nbytes);
    case WriteFd(fd, buf) => out := k.WriteFd(fd, buf);
    case Store(address, value) => out := k.UserStore(address, value);
    case FKey(dest, ctx, frame) => out := k.FKeyPress(dest, ctx, frame);
    case Tick(ctx, frame) => out := k.PitHandleInterrupt(ctx, frame);
  }

  /** A whole run. */
  method HandleAll(k: Kernel, es: seq<Event>)
    requires k.Valid() && CanRun(k.sys, k.img, k.sched, es) && forall e <- es :: PlainNames(e)
    modifies k, k.phys, k.paging.pageDirectory
    ensures k.Valid() && k.sys == Run(old(k.sys), k.img, k.sched, es)
  {
    for i := 0 to |es|
      invariant k.Valid() && CanRun(k.sys, k.img, k.sched, es[i..])
      invariant Run(k.sys, k.img, k.sched, es[i..]) == Run(old(k.sys), k.img, k.sched, es)
    {
      assert es[i..][0] == es[i] && es[i..][1..] == es[i + 1..];
      StepKeepsInv(k.sys, k.img, k.sched, es[i]);
      var _ := Handle(k, es[i]);
    }
  }

  /** The keyboard and the CPU are on one terminal, the process page shows the frame of the process there,
      and the task state holds the top of that process's own kernel stack. */
  ghost predicate Installed(k: Kernel)
    reads k, k.paging.pageDirectory
  {
    && k.active == k.running < |k.curr| && k.curr[k.running].Some? && k.paging.pageDirectory.Length == 1024
    && var slot := k.curr[k.running].value;
       && k.paging.pageDirectory[32] == Paging.Pde((0x80_0000 + slot * 0x40_0000) / 0x1000, true, true, true, true)
       && k.esp0 + 0x2000 * slot + 4 == 0x80_0000
  }

  lemma HealthyIsInstalled(k: Kernel)
    requires k.Valid() && !k.sched && Healthy(k.sys)
    ensures Installed(k)
  {
    HealthyHasProcess(k.sys);
    TopPcb(Live(k.mask), k.curr, k.prevProc, k.pcbs, k.sys, k.sched, k.running);
  }

  /** Boot, the first shell and any run after it, without the scheduler: if no start of a shell fails, the
      hardware is set up for the running process at the end -- and, a run being any prefix of another,
      after every event. */
  method BootAndRun(img: FileSystem.Image, paging: Paging.PageTables, phys: array<Byte>, stale: Pcb, frame: CallFrame, es: seq<Event>)
    returns (k: Kernel)
    requires FileSystem.ValidImage(img) && paging.Maps(None) && phys.Length == MEMORY_SIZE && |stale.fds| == MAX_FILES
    requires ExecuteEnabled(img, Some(Command.SHELL), frame) && Loadable(img, Command.SHELL, frame.header)
    requires CanRun(FirstShell(ImagesOf(phys[..]), img, frame), img, false, es)
    requires forall e <- es :: PlainNames(e) && ValidFrames(e)
    modifies phys, paging.pageDirectory
    ensures k.Valid() && k.sys == Run(FirstShell(old(ImagesOf(phys[..])), img, frame), img, false, es)
    ensures NoFailedStart(FirstShell(old(ImagesOf(phys[..])), img, frame), img, es) ==> Installed(k)
  {
    ghost var images := ImagesOf(phys[..]);
    ghost var first := FirstShell(images, img, frame);
    PostBootIsHealthy(images, img, frame, es);
    k := new Kernel(img, false, paging, phys, stale);
    CStrIs(Command.SHELL + [NUL], 5);
    var _ := k.Execute(Some(Command.SHELL + [NUL]), frame);
    HandleAll(k, es);
    if NoFailedStart(first, img, es) {
      HealthyAtTheEnd(first, img, es);
      HealthyIsInstalled(k);
    }
  }
}
