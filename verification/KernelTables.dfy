/** The tables of kernel/syscall.c as values, and how they represent the stacks of the abstract system:
    the slot mask, the current and previous process of each terminal, and the process control blocks
    with their prev links. */
module KernelTables {
  import opened Bytes
  import Command
  import FileSystem
  import opened SlotMask
  import Paging
  import opened System
  import opened SystemInvariant

  const MB8 := 0x80_0000
  const KB8 := 0x2000

  /** A control block: eight descriptors of 48 bytes, 64 bytes of arguments, and ten words. */
  const PCB_SIZE := 8 * 48 + 64 + 10 * 4

  const NOT_USE := 0
  const IN_USE := 1

  /** A pcb_t pointer: NULL or the block of a slot. */
  type PcbPtr = Option<nat>

  /** Where the block of a slot lies, and the top of the kernel stack that grows down to it. */
  function PcbAddress(slot: nat): int {
    MB8 - KB8 * (slot + 1)
  }

  function Esp0(slot: nat): int {
    MB8 - KB8 * slot - 4
  }

  datatype Ops = NoOps | StdinOps | StdoutOps | RtcOps | DirOps | FilesOps

  /** The static operations tables; OPEN, READ, WRITE and CLOSE are 0 to 3. */
  function OpsTable(ops: Ops): seq<Handler>
    requires !ops.NoOps?
    ensures |OpsTable(ops)| == 4
  {
    match ops
    case StdinOps => [NullEntry, TerminalRead, NullEntry, NullEntry]
    case StdoutOps => [NullEntry, NullEntry, TerminalWrite, NullEntry]
    case RtcOps => [RtcOpen, RtcRead, RtcWrite, RtcClose]
    case DirOps => [DirOpen, DirRead, DirWrite, DirClose]
    case FilesOps => [FsOpen, FsRead, FsWrite, FsClose]
  }

  const READ := 1
  const WRITE := 2
  const CLOSE := 3

  datatype FileArray = FileArray(operations: Ops, filePosition: nat, flags: nat, fileName: seq<Byte>)

  datatype Pcb = Pcb(fds: seq<FileArray>, args: seq<Byte>, procNum: nat, base: nat,
                     pKsp: nat, pKbp: nat, pSchedKsp: nat, pSchedKbp: nat, prev: PcbPtr)

  // ---------------------------------------------------------------- representation

  ghost predicate FdRep(fd: FileArray, f: Option<OpenFile>) {
    match f
    case None => fd.flags == NOT_USE
    case Some(Stdin) => fd.flags == IN_USE && fd.operations == StdinOps
    case Some(Stdout) => fd.flags == IN_USE && fd.operations == StdoutOps
    case Some(Rtc) => fd.flags == IN_USE && fd.operations == RtcOps
    case Some(Directory(position)) => fd.flags == IN_USE && fd.operations == DirOps && fd.filePosition == position
    case Some(Regular(name, position)) =>
      fd.flags == IN_USE && fd.operations == FilesOps && fd.filePosition == position
      && Terminated(fd.fileName) && CStr(fd.fileName) == name
  }

  /** The table of a descriptor in use is that of its kind of file. */
  lemma EntriesOfOps(fd: FileArray, f: OpenFile)
    requires FdRep(fd, Some(f))
    ensures !fd.operations.NoOps?
    ensures OpsTable(fd.operations)[READ] == Entries(f)[Read]
    ensures OpsTable(fd.operations)[WRITE] == Entries(f)[Write]
    ensures OpsTable(fd.operations)[CLOSE] == Entries(f)[Close]
  {
  }

  lemma MovedFd(fd: FileArray, name: seq<Byte>, position: nat, newPosition: nat)
    requires FdRep(fd, Some(Regular(name, position)))
    ensures FdRep(fd.(filePosition := newPosition), Some(Regular(name, newPosition)))
  {
  }

  /** No descriptor of a block is in use. */
  ghost predicate AllClosed(pcbs: seq<Pcb>, slot: nat) {
    slot < |pcbs| && |pcbs[slot].fds| == MAX_FILES && forall i :: 0 <= i < MAX_FILES ==> pcbs[slot].fds[i].flags != IN_USE
  }

  ghost predicate FilesRep(fds: seq<FileArray>, files: seq<Option<OpenFile>>) {
    |fds| == |files| == MAX_FILES && forall i :: 0 <= i < MAX_FILES ==> FdRep(fds[i], files[i])
  }

  /** The descriptors of a block below i are closed, the others and all other blocks as they were. */
  ghost predicate ClosedTo(pcbs: seq<Pcb>, was: seq<Pcb>, block: nat, i: nat) {
    && block < |was| && |was[block].fds| == MAX_FILES
    && |pcbs| == |was| && |pcbs[block].fds| == MAX_FILES
    && pcbs == was[block := was[block].(fds := pcbs[block].fds)]
    && (forall j :: 0 <= j < i && j < MAX_FILES ==> pcbs[block].fds[j].flags != IN_USE)
    && forall j :: i <= j < MAX_FILES ==> pcbs[block].fds[j] == was[block].fds[j]
  }

  lemma CloseMore(pcbs: seq<Pcb>, before: seq<Pcb>, was: seq<Pcb>, block: nat, i: nat)
    requires ClosedTo(before, was, block, i) && i < MAX_FILES
    requires before[block].fds[i].flags == IN_USE ==>
               pcbs == before[block := before[block].(fds := before[block].fds[i := before[block].fds[i].(flags := NOT_USE, filePosition := 0)])]
    requires before[block].fds[i].flags != IN_USE ==> pcbs == before
    ensures ClosedTo(pcbs, was, block, i + 1)
  {
    if before[block].fds[i].flags == IN_USE {
      assert pcbs == was[block := pcbs[block]];
    }
  }

  /** What close calls for a descriptor. */
  ghost predicate ClosesWith(files: seq<Option<OpenFile>>, i: nat, handler: Option<Handler>)
    requires i < |files|
  {
    handler == if files[i].Some? then Some(Entries(files[i].value)[Close]) else None
  }

  lemma CloseOfFd(fds: seq<FileArray>, files: seq<Option<OpenFile>>, i: nat)
    requires FilesRep(fds, files) && i < MAX_FILES
    ensures fds[i].flags == IN_USE ==> !fds[i].operations.NoOps?
    ensures ClosesWith(files, i, if fds[i].flags == IN_USE then Some(OpsTable(fds[i].operations)[CLOSE]) else None)
  {
    assert FdRep(fds[i], files[i]);
    if files[i].Some? { EntriesOfOps(fds[i], files[i].value); }
  }

  lemma CalledOne(called: seq<Handler>, files: seq<Option<OpenFile>>, i: nat, handler: Option<Handler>)
    requires |files| == MAX_FILES && i < MAX_FILES && ClosesWith(files, i, handler)
    ensures called + ClosesFrom(files, i) == called + (if handler.Some? then [handler.value] else []) + ClosesFrom(files, i + 1)
  {
  }

  ghost predicate PcbRep(pcb: Pcb, p: Process, prev: PcbPtr) {
    && pcb.procNum == p.slot && pcb.base == Paging.BaseOf(p.slot) && pcb.prev == prev
    && Ctx(pcb.pKsp, pcb.pKbp) == p.caller && Ctx(pcb.pSchedKsp, pcb.pSchedKbp) == p.saved
    && Terminated(pcb.args) && CStr(pcb.args) == p.args
    && FilesRep(pcb.fds, p.files)
  }

  /** The slot of the process k places under the top of a stack. */
  function PtrUnder(stack: seq<Process>, k: nat): PcbPtr {
    if |stack| > k then Some(stack[|stack| - 1 - k].slot) else None
  }

  /** The prev link of the process at depth d. */
  function PrevOf(stack: seq<Process>, d: nat): PcbPtr
    requires d < |stack|
  {
    if d == 0 then None else Some(stack[d - 1].slot)
  }

  /** Following prev from the current process of a terminal walks down its stack. */
  ghost predicate ChainsRep(pcbs: seq<Pcb>, stacks: seq<seq<Process>>) {
    |pcbs| == MAX_PROG_NUM &&
    forall t: nat, d: nat {:trigger At(stacks, t, d)} :: At(stacks, t, d) ==>
      stacks[t][d].slot < MAX_PROG_NUM && PcbRep(pcbs[stacks[t][d].slot], stacks[t][d], PrevOf(stacks[t], d))
  }

  ghost predicate PointersRep(curr: seq<PcbPtr>, prev: seq<PcbPtr>, stacks: seq<seq<Process>>) {
    |curr| == |prev| == |stacks| == TERMINALS &&
    forall t :: 0 <= t < TERMINALS ==> curr[t] == PtrUnder(stacks[t], 0) && prev[t] == PtrUnder(stacks[t], 1)
  }

  ghost predicate MaskRep(live: set<nat>, s: System) {
    forall i :: 0 <= i < MAX_PROG_NUM ==> (i in live <==> InUse(s, i))
  }

  // ---------------------------------------------------------------- the three moves

  /** The top process of a stack changes. */
  lemma SetTopRep(pcbs: seq<Pcb>, s: System, t: nat, pcb: Pcb, p: Process)
    requires ChainsRep(pcbs, s.stacks) && DistinctSlots(s.stacks) && Nonempty(s, t)
    requires p.slot == Top(s, t).slot < MAX_PROG_NUM
    requires PcbRep(pcb, p, PrevOf(s.stacks[t], |s.stacks[t]| - 1))
    ensures ChainsRep(pcbs[p.slot := pcb], SetTop(s, t, p).stacks)
  {
    var stacks' := SetTop(s, t, p).stacks;
    forall u: nat, d: nat | At(stacks', u, d)
      ensures stacks'[u][d].slot < MAX_PROG_NUM
      ensures PcbRep(pcbs[p.slot := pcb][stacks'[u][d].slot], stacks'[u][d], PrevOf(stacks'[u], d))
    {
      assert At(s.stacks, u, d) && At(s.stacks, t, |s.stacks[t]| - 1);
    }
  }

  lemma SetTopPointers(curr: seq<PcbPtr>, prev: seq<PcbPtr>, s: System, t: nat, p: Process)
    requires PointersRep(curr, prev, s.stacks) && Nonempty(s, t) && p.slot == Top(s, t).slot
    ensures PointersRep(curr, prev, SetTop(s, t, p).stacks)
  {
  }

  /** A process starts on a free slot. */
  lemma PushRep(pcbs: seq<Pcb>, s: System, t: nat, pcb: Pcb, p: Process)
    requires ChainsRep(pcbs, s.stacks) && t < |s.stacks| && p.slot < MAX_PROG_NUM && !InUse(s, p.slot)
    requires PcbRep(pcb, p, PtrUnder(s.stacks[t], 0))
    ensures ChainsRep(pcbs[p.slot := pcb], Push(s, t, p).stacks)
  {
    var stacks' := Push(s, t, p).stacks;
    forall u: nat, d: nat | At(stacks', u, d)
      ensures stacks'[u][d].slot < MAX_PROG_NUM
      ensures PcbRep(pcbs[p.slot := pcb][stacks'[u][d].slot], stacks'[u][d], PrevOf(stacks'[u], d))
    {
      if d < |s.stacks[u]| {
        assert At(s.stacks, u, d);
        assert HasSlot(s.stacks[u], s.stacks[u][d].slot);
      }
    }
  }

  lemma PushPointers(curr: seq<PcbPtr>, prev: seq<PcbPtr>, s: System, t: nat, p: Process)
    requires PointersRep(curr, prev, s.stacks) && t < TERMINALS
    ensures PointersRep(curr[t := Some(p.slot)], prev[t := curr[t]], Push(s, t, p).stacks)
  {
  }

  lemma PushMask(live: set<nat>, s: System, t: nat, p: Process)
    requires MaskRep(live, s) && t < |s.stacks| && p.slot < MAX_PROG_NUM
    ensures MaskRep(live + {p.slot}, Push(s, t, p))
  {
    forall i | 0 <= i < MAX_PROG_NUM
      ensures InUse(Push(s, t, p), i) <==> i == p.slot || InUse(s, i)
    {
      PushUse(s, t, p, i);
    }
  }

  lemma PushUse(s: System, t: nat, p: Process, i: nat)
    requires t < |s.stacks|
    ensures InUse(Push(s, t, p), i) <==> i == p.slot || InUse(s, i)
  {
    var s' := Push(s, t, p);
    assert s'.stacks[t][|s.stacks[t]|] == p;
    assert HasSlot(s'.stacks[t], p.slot);
    if InUse(s, i) {
      var u :| 0 <= u < |s.stacks| && HasSlot(s.stacks[u], i);
      var d :| 0 <= d < |s.stacks[u]| && s.stacks[u][d].slot == i;
      assert s'.stacks[u][d].slot == i;
      assert HasSlot(s'.stacks[u], i);
    }
    if InUse(s', i) && i != p.slot {
      var u :| 0 <= u < |s'.stacks| && HasSlot(s'.stacks[u], i);
      var d :| 0 <= d < |s'.stacks[u]| && s'.stacks[u][d].slot == i;
      assert s.stacks[u][d].slot == i;
      assert HasSlot(s.stacks[u], i);
    }
  }

  /** The top process of a stack ends. */
  lemma PopRep(pcbs: seq<Pcb>, s: System, t: nat, pcb: Pcb)
    requires ChainsRep(pcbs, s.stacks) && DistinctSlots(s.stacks) && Nonempty(s, t) && Top(s, t).slot < MAX_PROG_NUM
    ensures ChainsRep(pcbs[Top(s, t).slot := pcb], Pop(s, t).stacks)
  {
    var stacks' := Pop(s, t).stacks;
    forall u: nat, d: nat | At(stacks', u, d)
      ensures stacks'[u][d].slot < MAX_PROG_NUM
      ensures PcbRep(pcbs[Top(s, t).slot := pcb][stacks'[u][d].slot], stacks'[u][d], PrevOf(stacks'[u], d))
    {
      assert At(s.stacks, u, d) && At(s.stacks, t, |s.stacks[t]| - 1);
    }
  }

  lemma PopPointers(curr: seq<PcbPtr>, prev: seq<PcbPtr>, s: System, t: nat, next: PcbPtr)
    requires PointersRep(curr, prev, s.stacks) && t < TERMINALS && |s.stacks[t]| > 1
    requires next == PrevOf(s.stacks[t], |s.stacks[t]| - 2)
    ensures PointersRep(curr[t := prev[t]], prev[t := next], Pop(s, t).stacks)
  {
  }

  lemma PopMask(live: set<nat>, s: System, t: nat)
    requires MaskRep(live, s) && DistinctSlots(s.stacks) && Nonempty(s, t) && Top(s, t).slot < MAX_PROG_NUM
    ensures Top(s, t).slot in live && MaskRep(live - {Top(s, t).slot}, Pop(s, t))
  {
    var slot := Top(s, t).slot;
    forall i | 0 <= i < MAX_PROG_NUM ensures InUse(Pop(s, t), i) <==> i != slot && InUse(s, i) {
      PopUse(s, t, i);
    }
    assert HasSlot(s.stacks[t], slot);
  }

  lemma PopUse(s: System, t: nat, i: nat)
    requires DistinctSlots(s.stacks) && Nonempty(s, t)
    ensures InUse(Pop(s, t), i) <==> i != Top(s, t).slot && InUse(s, i)
  {
    var s' := Pop(s, t);
    assert At(s.stacks, t, |s.stacks[t]| - 1);
    if InUse(s', i) {
      var u :| 0 <= u < |s'.stacks| && HasSlot(s'.stacks[u], i);
      var d :| 0 <= d < |s'.stacks[u]| && s'.stacks[u][d].slot == i;
      assert At(s.stacks, u, d) && s.stacks[u][d].slot == i;
      assert HasSlot(s.stacks[u], i);
    }
    if InUse(s, i) && i != Top(s, t).slot {
      var u :| 0 <= u < |s.stacks| && HasSlot(s.stacks[u], i);
      var d :| 0 <= d < |s.stacks[u]| && s.stacks[u][d].slot == i;
      assert s'.stacks[u][d].slot == i;
      assert HasSlot(s'.stacks[u], i);
    }
  }

  // ---------------------------------------------------------------- all tables together

  ghost predicate TablesRep(live: set<nat>, curr: seq<PcbPtr>, prev: seq<PcbPtr>, pcbs: seq<Pcb>, s: System, sched: bool) {
    && Inv(s, sched)
    && PointersRep(curr, prev, s.stacks) && ChainsRep(pcbs, s.stacks) && MaskRep(live, s)
    && |pcbs| == MAX_PROG_NUM && forall i :: 0 <= i < MAX_PROG_NUM ==> |pcbs[i].fds| == MAX_FILES
  }

  lemma TopPcb(live: set<nat>, curr: seq<PcbPtr>, prev: seq<PcbPtr>, pcbs: seq<Pcb>, s: System, sched: bool, t: nat)
    requires TablesRep(live, curr, prev, pcbs, s, sched) && Nonempty(s, t) && t < TERMINALS
    ensures curr[t] == Some(Top(s, t).slot) && Top(s, t).slot < MAX_PROG_NUM && ValidFiles(Top(s, t).files)
    ensures PcbRep(pcbs[Top(s, t).slot], Top(s, t), PrevOf(s.stacks[t], |s.stacks[t]| - 1))
  {
    TopIsSound(s, sched, t);
    assert At(s.stacks, t, |s.stacks[t]| - 1);
  }

  lemma ParentPcb(live: set<nat>, curr: seq<PcbPtr>, prev: seq<PcbPtr>, pcbs: seq<Pcb>, s: System, sched: bool, t: nat)
    requires TablesRep(live, curr, prev, pcbs, s, sched) && t < TERMINALS && |s.stacks[t]| > 1
    ensures var p := s.stacks[t][|s.stacks[t]| - 2];
            && prev[t] == Some(p.slot) && p.slot < MAX_PROG_NUM && p.slot != Top(s, t).slot
            && PcbRep(pcbs[p.slot], p, PrevOf(s.stacks[t], |s.stacks[t]| - 2))
  {
    assert At(s.stacks, t, |s.stacks[t]| - 1) && At(s.stacks, t, |s.stacks[t]| - 2);
  }

  /** What halt finds behind the two pointers of a terminal whose process has a caller. */
  lemma HaltPointers(live: set<nat>, curr: seq<PcbPtr>, prev: seq<PcbPtr>, pcbs: seq<Pcb>, s: System, sched: bool, t: nat)
    requires TablesRep(live, curr, prev, pcbs, s, sched) && t < TERMINALS && |s.stacks[t]| > 1
    ensures var slot, parent := Top(s, t).slot, s.stacks[t][|s.stacks[t]| - 2].slot;
            && slot < MAX_PROG_NUM && parent < MAX_PROG_NUM && slot != parent
            && curr[t] == Some(slot) && prev[t] == Some(parent)
            && pcbs[slot].procNum == slot && Ctx(pcbs[slot].pKsp, pcbs[slot].pKbp) == Top(s, t).caller
            && pcbs[parent].procNum == parent && pcbs[parent].base == Paging.BaseOf(parent)
            && Top(Pop(s, t), t).slot == parent && slot in live
            && FilesRep(pcbs[slot].fds, Top(s, t).files)
  {
    TopPcb(live, curr, prev, pcbs, s, sched, t);
    ParentPcb(live, curr, prev, pcbs, s, sched, t);
    assert HasSlot(s.stacks[t], Top(s, t).slot);
  }

  lemma SetTopTables(live: set<nat>, curr: seq<PcbPtr>, prev: seq<PcbPtr>, pcbs: seq<Pcb>, s: System, sched: bool,
                     t: nat, pcb: Pcb, p: Process)
    requires TablesRep(live, curr, prev, pcbs, s, sched) && Nonempty(s, t) && t < TERMINALS
    requires p.slot == Top(s, t).slot < MAX_PROG_NUM && ValidFiles(p.files)
    requires PcbRep(pcb, p, PrevOf(s.stacks[t], |s.stacks[t]| - 1))
    ensures TablesRep(live, curr, prev, pcbs[p.slot := pcb], SetTop(s, t, p), sched)
  {
    SetTopRep(pcbs, s, t, pcb, p);
    SetTopPointers(curr, prev, s, t, p);
    SetTopKeepsInv(s, sched, t, p);
  }

  /** A descriptor of the running process changes. */
  lemma SetFdTables(live: set<nat>, curr: seq<PcbPtr>, prev: seq<PcbPtr>, pcbs: seq<Pcb>, s: System, sched: bool,
                    i: nat, fd: FileArray, f: Option<OpenFile>)
    requires TablesRep(live, curr, prev, pcbs, s, sched) && HasFiles(s) && Top(s, s.running).slot < MAX_PROG_NUM
    requires 2 <= i < MAX_FILES && FdRep(fd, f) && f != Some(Stdin) && f != Some(Stdout)
    ensures var slot := Top(s, s.running).slot;
            TablesRep(live, curr, prev, pcbs[slot := pcbs[slot].(fds := pcbs[slot].fds[i := fd])], SetFile(s, i, f), sched)
  {
    TopPcb(live, curr, prev, pcbs, s, sched, s.running);
    var p := Top(s, s.running);
    SetTopTables(live, curr, prev, pcbs, s, sched, s.running,
                 pcbs[p.slot].(fds := pcbs[p.slot].fds[i := fd]), p.(files := p.files[i := f]));
  }

  lemma FdOfTop(live: set<nat>, curr: seq<PcbPtr>, prev: seq<PcbPtr>, pcbs: seq<Pcb>, s: System, sched: bool, fd: nat)
    requires TablesRep(live, curr, prev, pcbs, s, sched) && Nonempty(s, s.running) && fd < MAX_FILES
    ensures HasFiles(s) && curr[s.running] == Some(Top(s, s.running).slot) && Top(s, s.running).slot < MAX_PROG_NUM
    ensures FdRep(pcbs[Top(s, s.running).slot].fds[fd], Top(s, s.running).files[fd])
  {
    TopPcb(live, curr, prev, pcbs, s, sched, s.running);
  }

  /** The saved stack of a terminal's current process changes. */
  lemma SaveTables(live: set<nat>, curr: seq<PcbPtr>, prev: seq<PcbPtr>, pcbs: seq<Pcb>, s: System, sched: bool,
                   t: nat, ctx: Ctx)
    requires TablesRep(live, curr, prev, pcbs, s, sched) && Nonempty(s, t) && t < TERMINALS
    ensures var slot := Top(s, t).slot;
            && slot < MAX_PROG_NUM
            && TablesRep(live, curr, prev, pcbs[slot := pcbs[slot].(pSchedKsp := ctx.esp, pSchedKbp := ctx.ebp)],
                         SaveTop(s, t, ctx), sched)
  {
    TopPcb(live, curr, prev, pcbs, s, sched, t);
    var p := Top(s, t);
    SetTopTables(live, curr, prev, pcbs, s, sched, t,
                 pcbs[p.slot].(pSchedKsp := ctx.esp, pSchedKbp := ctx.ebp), p.(saved := ctx));
  }

  lemma PushTables(live: set<nat>, curr: seq<PcbPtr>, prev: seq<PcbPtr>, pcbs: seq<Pcb>, s: System, sched: bool,
                   pcb: Pcb, p: Process)
    requires TablesRep(live, curr, prev, pcbs, s, sched)
    requires p.slot < MAX_PROG_NUM && p.slot !in live && ValidFiles(p.files)
    requires PcbRep(pcb, p, curr[s.running])
    ensures TablesRep(live + {p.slot}, curr[s.running := Some(p.slot)], prev[s.running := curr[s.running]],
                      pcbs[p.slot := pcb], Push(s, s.running, p), sched)
  {
    PushRep(pcbs, s, s.running, pcb, p);
    PushPointers(curr, prev, s, s.running, p);
    PushMask(live, s, s.running, p);
    PushKeepsInv(s, sched, p);
  }

  lemma PopTables(live: set<nat>, curr: seq<PcbPtr>, prev: seq<PcbPtr>, pcbs: seq<Pcb>, s: System, sched: bool,
                  live': set<nat>, curr': seq<PcbPtr>, prev': seq<PcbPtr>, pcbs': seq<Pcb>)
    requires TablesRep(live, curr, prev, pcbs, s, sched) && |s.stacks[s.running]| > 1
    requires var t := s.running; var slot := Top(s, t).slot;
             && slot < MAX_PROG_NUM && prev[t].Some? && prev[t].value < MAX_PROG_NUM && |pcbs'| == MAX_PROG_NUM
             && live' == live - {slot} && curr' == curr[t := prev[t]] && prev' == prev[t := pcbs[prev[t].value].prev]
             && pcbs' == pcbs[slot := pcbs'[slot]] && |pcbs'[slot].fds| == MAX_FILES
    ensures TablesRep(live', curr', prev', pcbs', Pop(s, s.running), sched)
  {
    var slot := Top(s, s.running).slot;
    ParentPcb(live, curr, prev, pcbs, s, sched, s.running);
    PopRep(pcbs, s, s.running, pcbs'[slot]);
    PopPointers(curr, prev, s, s.running, pcbs[prev[s.running].value].prev);
    PopMask(live, s, s.running);
    PopKeepsInv(s, sched);
  }

  /** The tables after execute has started a program. */
  lemma StartTables(live: set<nat>, curr: seq<PcbPtr>, prev: seq<PcbPtr>, pcbs: seq<Pcb>, s: System, sched: bool,
                    img: FileSystem.Image, cmd: seq<Byte>, slot: nat, frame: CallFrame, pcb: Pcb)
    requires TablesRep(live, curr, prev, pcbs, s, sched) && slot < MAX_PROG_NUM && slot !in live
    requires FileSystem.ValidImage(img) && FitsFrame(img, Command.Name(cmd))
    requires PcbRep(pcb, Process(slot, frame.ctx, frame.ctx, Command.Args(cmd, frame.args, frame.cmdLen), FRESH_FILES), curr[s.running])
    ensures TablesRep(live + {slot}, curr[s.running := Some(slot)], prev[s.running := curr[s.running]], pcbs[slot := pcb],
                      StartProcess(s, img, cmd, slot, frame), sched)
  {
    var p := Process(slot, frame.ctx, frame.ctx, Command.Args(cmd, frame.args, frame.cmdLen), FRESH_FILES);
    PushTables(live, curr, prev, pcbs, s, sched, pcb, p);
    StartKeepsInv(s, img, sched, cmd, slot, frame);
    OtherFieldsTables(live + {slot}, curr[s.running := Some(slot)], prev[s.running := curr[s.running]], pcbs[slot := pcb],
                      Push(s, s.running, p), StartProcess(s, img, cmd, slot, frame), sched);
  }

  /** The lowest slot whose bit is clear is the lowest free slot. */
  lemma FirstFree(live: set<nat>, s: System, slot: nat)
    requires MaskRep(live, s) && slot <= MAX_PROG_NUM
    requires forall j :: 0 <= j < slot ==> j in live
    requires slot < MAX_PROG_NUM ==> slot !in live
    ensures FreeSlot(s) == if slot < MAX_PROG_NUM then Some(slot) else None
  {
  }

  /** What else may change without the tables noticing. */
  lemma OtherFieldsTables(live: set<nat>, curr: seq<PcbPtr>, prev: seq<PcbPtr>, pcbs: seq<Pcb>, s: System, s': System, sched: bool)
    requires TablesRep(live, curr, prev, pcbs, s, sched) && s'.stacks == s.stacks && Inv(s', sched)
    ensures TablesRep(live, curr, prev, pcbs, s', sched)
  {
    assert forall i :: InUse(s', i) <==> InUse(s, i);
  }

  // ---------------------------------------------------------------- kernel stacks

  /** The kernel stack pointer of a slot points into the block of that slot, above its pcb, and into no
      other; all seven blocks lie in the 4 MB of the kernel. */
  lemma StacksAreDisjoint(i: nat, j: nat, address: int)
    requires i < MAX_PROG_NUM && j < MAX_PROG_NUM
    ensures PcbAddress(i) + PCB_SIZE < Esp0(i) < PcbAddress(i) + KB8
    ensures PcbAddress(i) <= address < PcbAddress(i) + KB8 && PcbAddress(j) <= address < PcbAddress(j) + KB8 ==> i == j
    ensures Paging.KERNEL_PHYS_ADDR <= PcbAddress(i) && Esp0(i) < Paging.KERNEL_END_ADDR
  {
  }
}
