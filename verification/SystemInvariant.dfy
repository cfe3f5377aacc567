/** Every step of the system keeps its invariant. */
module SystemInvariant {
  import opened Bytes
  import Command
  import CStrings
  import FileSystem
  import Paging
  import opened SlotMask
  import opened System

  lemma SetTopKeepsDistinct(s: System, t: nat, p: Process)
    requires DistinctSlots(s.stacks) && Nonempty(s, t) && p.slot == Top(s, t).slot
    ensures DistinctSlots(SetTop(s, t, p).stacks)
  {
    var stacks' := SetTop(s, t, p).stacks;
    assert forall u: nat, d: nat :: At(stacks', u, d) ==> At(s.stacks, u, d) && stacks'[u][d].slot == s.stacks[u][d].slot;
  }

  /** A change at the top of one stack that keeps its slot. */
  lemma SetTopKeepsInv(s: System, sched: bool, t: nat, p: Process)
    requires Inv(s, sched) && Nonempty(s, t) && t < TERMINALS
    requires p.slot == Top(s, t).slot && ValidFiles(p.files)
    ensures Inv(SetTop(s, t, p), sched)
    ensures forall i :: InUse(SetTop(s, t, p), i) <==> InUse(s, i)
  {
    var s' := SetTop(s, t, p);
    SetTopKeepsDistinct(s, t, p);
    assert forall u: nat, d: nat :: At(s'.stacks, u, d) ==>
             At(s.stacks, u, d) && s'.stacks[u][d] == (if u == t && d == |s.stacks[t]| - 1 then p else s.stacks[u][d]);
    forall i ensures InUse(s', i) <==> InUse(s, i) {
      if InUse(s, i) { SameSlotsSameUse(s, s', i); }
      if InUse(s', i) { SameSlotsSameUse(s', s, i); }
    }
  }

  lemma SameSlotsSameUse(s: System, s': System, i: nat)
    requires |s.stacks| == |s'.stacks| == TERMINALS
    requires forall u :: 0 <= u < TERMINALS ==> |s'.stacks[u]| == |s.stacks[u]|
    requires forall u, d :: 0 <= u < TERMINALS && 0 <= d < |s.stacks[u]| ==> s'.stacks[u][d].slot == s.stacks[u][d].slot
    requires InUse(s, i)
    ensures InUse(s', i)
  {
    var t :| 0 <= t < |s.stacks| && HasSlot(s.stacks[t], i);
    var d :| 0 <= d < |s.stacks[t]| && s.stacks[t][d].slot == i;
    assert s'.stacks[t][d].slot == i;
    assert HasSlot(s'.stacks[t], i);
  }

  lemma PushKeepsDistinct(stacks: seq<seq<Process>>, t: nat, p: Process)
    requires DistinctSlots(stacks) && t < |stacks| && p.slot < MAX_PROG_NUM
    requires forall u :: 0 <= u < |stacks| ==> !HasSlot(stacks[u], p.slot)
    ensures DistinctSlots(stacks[t := stacks[t] + [p]])
  {
    var stacks' := stacks[t := stacks[t] + [p]];
    forall u: nat, d: nat | At(stacks', u, d)
      ensures if d < |stacks[u]| then stacks'[u][d] == stacks[u][d] && stacks[u][d].slot != p.slot && At(stacks, u, d)
              else stacks'[u][d] == p && u == t && d == |stacks[t]|
    {
      assert !HasSlot(stacks[u], p.slot);
    }
  }

  lemma PushKeepsInv(s: System, sched: bool, p: Process)
    requires Inv(s, sched) && p.slot < MAX_PROG_NUM && !InUse(s, p.slot) && ValidFiles(p.files)
    ensures Inv(Push(s, s.running, p), sched)
  {
    PushKeepsDistinct(s.stacks, s.running, p);
    var stacks' := Push(s, s.running, p).stacks;
    assert forall u: nat, d: nat :: At(stacks', u, d) ==>
             stacks'[u][d] == p || (At(s.stacks, u, d) && stacks'[u][d] == s.stacks[u][d]);
  }

  lemma PopKeepsInv(s: System, sched: bool)
    requires Inv(s, sched) && Nonempty(s, s.running)
    ensures Inv(Pop(s, s.running), sched)
  {
    var stacks' := Pop(s, s.running).stacks;
    assert forall u: nat, d: nat :: At(stacks', u, d) ==> At(s.stacks, u, d) && stacks'[u][d] == s.stacks[u][d];
  }

  lemma ImagesKeepInv(s: System, sched: bool, slot: nat, image: seq<Byte>)
    requires Inv(s, sched) && slot < MAX_PROG_NUM && |image| == FRAME_SIZE
    ensures Inv(s.(images := s.images[slot := image]), sched)
  {
  }

  lemma StartKeepsInv(s: System, img: FileSystem.Image, sched: bool, cmd: seq<Byte>, slot: nat, frame: CallFrame)
    requires FileSystem.ValidImage(img) && Inv(s, sched) && FitsFrame(img, Command.Name(cmd))
    requires slot < MAX_PROG_NUM && !InUse(s, slot)
    ensures Inv(StartProcess(s, img, cmd, slot, frame), sched)
  {
    var p := Process(slot, frame.ctx, frame.ctx, Command.Args(cmd, frame.args, frame.cmdLen), FRESH_FILES);
    PushKeepsInv(s, sched, p);
    ImagesKeepInv(Push(s, s.running, p), sched, slot,
                  Stored(s.images[slot], LOAD_OFFSET, FileContent(img, Command.Name(cmd))));
  }

  /** Execute either starts a program or changes nothing. */
  lemma ExecuteCases(s: System, img: FileSystem.Image, command: Option<seq<Byte>>, frame: CallFrame)
    requires FileSystem.ValidImage(img) && s.running < |s.stacks| && ValidImages(s)
    requires ExecuteEnabled(img, command, frame)
    ensures ExecuteStep(s, img, command, frame).1.EnterUser? <==> Starts(s, img, command, frame)
    ensures Starts(s, img, command, frame) ==>
              ExecuteStep(s, img, command, frame).0 == StartProcess(s, img, command.value, FreeSlot(s).value, frame)
    ensures !Starts(s, img, command, frame) ==>
              ExecuteStep(s, img, command, frame).0 == s && ExecuteStep(s, img, command, frame).1 in {Return(-1), Cleared}
  {
  }

  lemma ExecuteKeepsInv(s: System, img: FileSystem.Image, sched: bool, command: Option<seq<Byte>>, frame: CallFrame)
    requires FileSystem.ValidImage(img) && Inv(s, sched) && ExecuteEnabled(img, command, frame)
    ensures Inv(ExecuteStep(s, img, command, frame).0, sched)
  {
    ExecuteCases(s, img, command, frame);
    if Starts(s, img, command, frame) {
      StartKeepsInv(s, img, sched, command.value, FreeSlot(s).value, frame);
    }
  }

  lemma SetFileKeepsInv(s: System, sched: bool, fd: nat, f: Option<OpenFile>)
    requires Inv(s, sched) && Nonempty(s, s.running) && 2 <= fd < MAX_FILES
    requires f != Some(Stdin) && f != Some(Stdout)
    ensures HasFiles(s) && Inv(SetFile(s, fd, f), sched)
  {
    var p := Top(s, s.running);
    TopIsSound(s, sched, s.running);
    SetTopKeepsInv(s, sched, s.running, p.(files := p.files[fd := f]));
  }

  lemma SaveKeepsInv(s: System, sched: bool, t: nat, ctx: Ctx)
    requires Inv(s, sched) && Nonempty(s, t) && t < TERMINALS
    ensures Inv(SaveTop(s, t, ctx), sched)
  {
    TopIsSound(s, sched, t);
    SetTopKeepsInv(s, sched, t, Top(s, t).(saved := ctx));
  }

  lemma SwitchKeepsInv(s: System, sched: bool, old_: nat, dest: nat, ctx: Ctx)
    requires Inv(s, sched) && Nonempty(s, old_) && Nonempty(s, dest) && old_ < TERMINALS && dest < TERMINALS
    ensures Inv(SwitchTo(s, old_, dest, ctx).0, sched)
  {
    SaveKeepsInv(s, sched, old_, ctx);
  }

  lemma SwitchAndStartKeepsInv(s: System, img: FileSystem.Image, sched: bool, old_: nat, dest: nat, ctx: Ctx, frame: CallFrame)
    requires FileSystem.ValidImage(img) && Inv(s, sched) && Nonempty(s, old_) && old_ < TERMINALS && dest < TERMINALS
    requires ExecuteEnabled(img, Some(Command.SHELL), frame)
    requires !sched ==> (dest == 1 ==> s.second) && (dest == 2 ==> s.third)
    ensures Inv(SwitchAndStart(s, img, old_, dest, ctx, frame).0, sched)
  {
    SaveKeepsInv(s, sched, old_, ctx);
    ExecuteKeepsInv(SaveTop(s, old_, ctx).(running := dest), img, sched, Some(Command.SHELL), frame);
  }

  lemma FKeyKeepsInv(s: System, img: FileSystem.Image, sched: bool, dest: nat, ctx: Ctx, frame: CallFrame)
    requires FileSystem.ValidImage(img) && Inv(s, sched) && Enabled(s, img, sched, FKey(dest, ctx, frame))
    ensures Inv(FKeyStep(s, img, sched, dest, ctx, frame).0, sched)
  {
    if sched {
    } else if FirstSwitch(s, dest) {
      SwitchAndStartKeepsInv(MarkStarted(s, dest), img, sched, s.active, dest, ctx, frame);
    } else if Nonempty(s, s.active) && Nonempty(s, dest) {
      SwitchKeepsInv(Activate(s, dest), sched, s.active, dest, ctx);
    }
  }

  lemma TickKeepsInv(s: System, img: FileSystem.Image, sched: bool, ctx: Ctx, frame: CallFrame)
    requires FileSystem.ValidImage(img) && Inv(s, sched) && Enabled(s, img, sched, Tick(ctx, frame))
    ensures Inv(TickStep(s, img, sched, ctx, frame).0, sched)
  {
    var next := NextTerminal(s.running);
    if !sched || !Nonempty(s, s.running) {
    } else if Nonempty(s, next) {
      SwitchKeepsInv(s, sched, s.running, next, ctx);
    } else {
      SwitchAndStartKeepsInv(Activate(s, next), img, sched, s.running, next, ctx, frame);
    }
  }

  lemma FilesKeepInv(s: System, img: FileSystem.Image, sched: bool, e: Event)
    requires FileSystem.ValidImage(img) && Inv(s, sched) && Enabled(s, img, sched, e)
    requires e.OpenFd? || e.CloseFd? || e.ReadFd?
    ensures Inv(Step(s, img, sched, e).0, sched)
  {
    var files := Top(s, s.running).files;
    TopIsSound(s, sched, s.running);
    match e
    case OpenFd(filename) =>
      if OpenStep(s, img, filename).1 != Return(-1) {
        var i, fd := FileSystem.Lookup(img, filename.value).value, FreeFd(files, 2).value;
        SetFileKeepsInv(s, sched, fd, Some(Opened(filename.value, img.dentries[i].fileType)));
      }
    case CloseFd(fd) =>
      if 2 <= fd <= 7 {
        SetFileKeepsInv(s, sched, fd, None);
      }
    case ReadFd(fd, buf, nbytes) =>
      if !ReadRejected(s, fd, buf) && (files[fd].value.Directory? || files[fd].value.Regular?) {
        var f' := ReadFile(img, files[fd].value, nbytes).0;
        SetFileKeepsInv(s, sched, fd, Some(f'));
        StoreBytesKeepsInv(SetFile(s, fd, Some(f')), sched, Top(s, s.running).slot, buf.value,
                           ReadBytes(s, img, fd, buf, nbytes));
      }
  }

  lemma StoreBytesKeepsInv(s: System, sched: bool, slot: nat, v: nat, bytes: seq<Byte>)
    requires Inv(s, sched) && slot < MAX_PROG_NUM && InPage(v, |bytes|)
    ensures Inv(StoreBytes(s, slot, v, bytes), sched)
  {
    ImagesKeepInv(s, sched, slot, Stored(s.images[slot], v - Paging.PROCESS_PAGE, bytes));
  }

  lemma StoreKeepsInv(s: System, sched: bool, v: nat, b: Byte)
    requires Inv(s, sched) && Nonempty(s, s.running)
    ensures HasImage(s) && Inv(StoreStep(s, v, b).0, sched)
  {
    TopIsSound(s, sched, s.running);
    var slot := Top(s, s.running).slot;
    if Paging.AddressSpace(Some(slot), v, true).Some? && !Paging.IsVideoPage(v) {
      StoreBytesKeepsInv(s, sched, slot, v, [b]);
    }
  }

  lemma GetArgsKeepsInv(s: System, sched: bool, buf: Option<nat>, nbytes: int)
    requires Inv(s, sched) && Nonempty(s, s.running) && (buf.Some? && nbytes >= 0 ==> InPage(buf.value, nbytes))
    ensures HasImage(s) && Inv(GetArgsStep(s, buf, nbytes).0, sched)
  {
    TopIsSound(s, sched, s.running);
    if nbytes >= 0 && buf.Some? {
      StoreBytesKeepsInv(s, sched, Top(s, s.running).slot, buf.value, CStrings.Padded(Top(s, s.running).args, nbytes));
    }
  }

  /** The invariant over one step of any kind. */
  lemma StepKeepsInv(s: System, img: FileSystem.Image, sched: bool, e: Event)
    requires FileSystem.ValidImage(img) && Inv(s, sched) && Enabled(s, img, sched, e)
    ensures Inv(Step(s, img, sched, e).0, sched)
  {
    match e
    case Execute(command, frame) => ExecuteKeepsInv(s, img, sched, command, frame);
    case Halt(_, _) => PopKeepsInv(s, sched);
    case OpenFd(_) => FilesKeepInv(s, img, sched, e);
    case CloseFd(_) => FilesKeepInv(s, img, sched, e);
    case ReadFd(_, _, _) => FilesKeepInv(s, img, sched, e);
    case GetArgs(buf, nbytes) => GetArgsKeepsInv(s, sched, buf, nbytes);
    case WriteFd(_, _) =>
    case Store(v, b) => StoreKeepsInv(s, sched, v, b);
    case FKey(dest, ctx, frame) => FKeyKeepsInv(s, img, sched, dest, ctx, frame);
    case Tick(ctx, frame) => TickKeepsInv(s, img, sched, ctx, frame);
  }
}
