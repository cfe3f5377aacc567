/** The process side of the kernel as an abstract machine: three stacks of processes, one per terminal,
    the terminal that runs, and the memory of every process slot. The class Kernel refines it. */
module System {
  import opened Bytes
  import Command
  import CStrings
  import FileSystem
  import Paging
  import opened SlotMask

  const TERMINALS := 3
  const MAX_FILES := 8
  const FRAME_SIZE := Paging.PAGE_SIZE_LARGE

  /** Where a program is loaded inside its 4 MB page, and the room from there to the end. */
  const LOAD_OFFSET := Paging.PROCESS_START_ADDR - Paging.PROCESS_PAGE
  const LOAD_ROOM := FRAME_SIZE - LOAD_OFFSET

  /** A saved kernel stack: the ESP and EBP the inline assembly stores and loads. */
  datatype Ctx = Ctx(esp: nat, ebp: nat)

  datatype OpenFile = Stdin | Stdout | Rtc | Directory(position: nat) | Regular(name: seq<Byte>, position: nat)

  /** `caller` is where the execute call that started the process waits; `saved` is where the process
      itself waits while another terminal runs. */
  datatype Process = Process(slot: nat, caller: Ctx, saved: Ctx, args: seq<Byte>, files: seq<Option<OpenFile>>)

  /** Each stack has the root shell of its terminal first and the process that runs there last.
      `active` is the terminal of the keyboard; `second` and `third` say which were ever started. */
  datatype System = System(stacks: seq<seq<Process>>, running: nat, active: nat, second: bool, third: bool,
                           images: seq<seq<Byte>>)

  /** The functions behind the operations tables. */
  datatype Handler =
    | NullEntry
    | TerminalRead | TerminalWrite
    | RtcOpen | RtcRead | RtcWrite | RtcClose
    | DirOpen | DirRead | DirWrite | DirClose
    | FsOpen | FsRead | FsWrite | FsClose

  /** How a handler gives up control. */
  datatype Outcome =
    | Return(value: int)
    | Done
    | Cleared
    | Dispatch(handler: Handler)
    | EnterUser(entry: nat)
    | ExecuteReturns(status: Byte, ctx: Ctx)
    | Resume(ctx: Ctx)
    | PageFault

  /** What an execute call finds on its stack: the registers it will save, the bytes in its header
      buffer, the string in its argument buffer and the byte where its command length will be. */
  datatype CallFrame = CallFrame(ctx: Ctx, header: seq<Byte>, args: seq<Byte>, cmdLen: Byte)

  // ---------------------------------------------------------------- stacks

  predicate Nonempty(s: System, t: nat) {
    t < |s.stacks| && s.stacks[t] != []
  }

  function Top(s: System, t: nat): Process
    requires Nonempty(s, t)
  {
    s.stacks[t][|s.stacks[t]| - 1]
  }

  function SetTop(s: System, t: nat, p: Process): System
    requires Nonempty(s, t)
  {
    s.(stacks := s.stacks[t := s.stacks[t][|s.stacks[t]| - 1 := p]])
  }

  function Push(s: System, t: nat, p: Process): System
    requires t < |s.stacks|
  {
    s.(stacks := s.stacks[t := s.stacks[t] + [p]])
  }

  function Pop(s: System, t: nat): System
    requires Nonempty(s, t)
  {
    s.(stacks := s.stacks[t := s.stacks[t][..|s.stacks[t]| - 1]])
  }

  predicate HasSlot(stack: seq<Process>, i: nat) {
    exists d :: 0 <= d < |stack| && stack[d].slot == i
  }

  predicate InUse(s: System, i: nat) {
    exists t :: 0 <= t < |s.stacks| && HasSlot(s.stacks[t], i)
  }

  /** The lowest free slot. */
  function FreeSlot(s: System): Option<nat> {
    FreeSlotFrom(s, 0)
  }

  function FreeSlotFrom(s: System, i: nat): (r: Option<nat>)
    requires i <= MAX_PROG_NUM
    ensures r.Some? ==> i <= r.value < MAX_PROG_NUM && !InUse(s, r.value)
    ensures forall j :: i <= j < (if r.Some? then r.value else MAX_PROG_NUM) ==> InUse(s, j)
    decreases MAX_PROG_NUM - i
  {
    if i == MAX_PROG_NUM then None else if !InUse(s, i) then Some(i) else FreeSlotFrom(s, i + 1)
  }

  // ---------------------------------------------------------------- execute and halt

  const FRESH_FILES: seq<Option<OpenFile>> := [Some(Stdin), Some(Stdout), None, None, None, None, None, None]

  /** The first 32 bytes of a program, read over what the buffer held; None when the read fails. */
  function Header(img: FileSystem.Image, name: seq<Byte>, buffer: seq<Byte>): (r: Option<seq<Byte>>)
    requires FileSystem.ValidImage(img) && |buffer| == 32
    ensures r.Some? ==> |r.value| == 32
  {
    var r := FileSystem.FsReadSpec(img, name, 0, 32).0;
    if r.ret == -1 then None else Some(r.bytes + buffer[|r.bytes|..])
  }

  predicate Runnable(header: seq<Byte>)
    requires |header| == 32
  {
    header[..4] == [0x7f, 0x45, 0x4c, 0x46]
  }

  function Entry(header: seq<Byte>): nat
    requires |header| == 32
  {
    (header[27] as int) * 0x100_0000 + (header[26] as int) * 0x1_0000 + (header[25] as int) * 0x100 + header[24]
  }

  /** Would execute get as far as looking for a slot? */
  predicate Loadable(img: FileSystem.Image, name: seq<Byte>, buffer: seq<Byte>)
    requires FileSystem.ValidImage(img) && |buffer| == 32
  {
    Header(img, name, buffer).Some? && Runnable(Header(img, name, buffer).value)
  }

  /** The bytes of a file that a directory entry names. */
  function FileContent(img: FileSystem.Image, name: seq<Byte>): seq<Byte>
    requires FileSystem.ValidImage(img)
  {
    match FileSystem.Lookup(img, name)
    case None => []
    case Some(i) =>
      if img.dentries[i].inode < |img.inodes| then FileSystem.Content(img, img.inodes[img.dentries[i].inode]) else []
  }

  /** A program whose header can be read has an inode. */
  lemma FoundProgram(img: FileSystem.Image, name: seq<Byte>, buffer: seq<Byte>)
    requires FileSystem.ValidImage(img) && |buffer| == 32 && Header(img, name, buffer).Some?
    ensures FileSystem.Lookup(img, name).Some?
    ensures img.dentries[FileSystem.Lookup(img, name).value].inode < |img.inodes|
  {
  }

  /** The source copies a program without looking at its size. */
  ghost predicate FitsFrame(img: FileSystem.Image, name: seq<Byte>)
    requires FileSystem.ValidImage(img)
  {
    |FileContent(img, name)| <= LOAD_ROOM
  }

  ghost predicate ValidFrame(frame: CallFrame) {
    |frame.header| == 32 && NUL !in frame.args && |frame.args| < Command.ARG_BUFFER
  }

  predicate ValidImages(s: System) {
    |s.images| == MAX_PROG_NUM && forall i :: 0 <= i < MAX_PROG_NUM ==> |s.images[i]| == FRAME_SIZE
  }

  /** Starts a program on the running terminal, on top of what runs there. */
  function StartProcess(s: System, img: FileSystem.Image, cmd: seq<Byte>, slot: nat, frame: CallFrame): System
    requires FileSystem.ValidImage(img) && FitsFrame(img, Command.Name(cmd))
    requires s.running < |s.stacks| && ValidImages(s) && slot < MAX_PROG_NUM
  {
    var p := Process(slot, frame.ctx, frame.ctx, Command.Args(cmd, frame.args, frame.cmdLen), FRESH_FILES);
    var image := Stored(s.images[slot], LOAD_OFFSET, FileContent(img, Command.Name(cmd)));
    Push(s, s.running, p).(images := s.images[slot := image])
  }

  /** What a start does to the fields of the system. */
  lemma StartFields(s: System, img: FileSystem.Image, cmd: seq<Byte>, slot: nat, frame: CallFrame)
    requires FileSystem.ValidImage(img) && FitsFrame(img, Command.Name(cmd))
    requires s.running < |s.stacks| && ValidImages(s) && slot < MAX_PROG_NUM
    ensures var s' := StartProcess(s, img, cmd, slot, frame);
            && s'.running == s.running && s'.active == s.active && s'.second == s.second && s'.third == s.third
            && Nonempty(s', s.running) && Top(s', s.running).slot == slot
            && s'.images == s.images[slot := Stored(s.images[slot], LOAD_OFFSET, FileContent(img, Command.Name(cmd)))]
  {
  }

  ghost predicate ExecuteEnabled(img: FileSystem.Image, command: Option<seq<Byte>>, frame: CallFrame)
    requires FileSystem.ValidImage(img)
  {
    && ValidFrame(frame)
    && (command.Some? ==> NUL !in command.value && Command.Fits(command.value) && FitsFrame(img, Command.Name(command.value)))
  }

  predicate IsClear(name: seq<Byte>) {
    Take(name, |Command.CLEAR|) == Command.CLEAR
  }

  /** How execute gives up before it looks for a slot, if it does. */
  function GivesUp(img: FileSystem.Image, command: Option<seq<Byte>>, frame: CallFrame): Option<Outcome>
    requires FileSystem.ValidImage(img) && |frame.header| == 32
  {
    if command.None? || command.value == [] || Command.NameTooLong(command.value) then Some(Return(-1))
    else if IsClear(Command.Name(command.value)) then Some(Cleared)
    else if !Loadable(img, Command.Name(command.value), frame.header) then Some(Return(-1))
    else None
  }

  function ExecuteStep(s: System, img: FileSystem.Image, command: Option<seq<Byte>>, frame: CallFrame): (System, Outcome)
    requires FileSystem.ValidImage(img) && s.running < |s.stacks| && ValidImages(s)
    requires ExecuteEnabled(img, command, frame)
  {
    match GivesUp(img, command, frame)
    case Some(out) => (s, out)
    case None =>
      var name := Command.Name(command.value);
      match FreeSlot(s)
      case None => (s, Return(-1))
      case Some(slot) =>
        (StartProcess(s, img, command.value, slot, frame), EnterUser(Entry(Header(img, name, frame.header).value)))
  }

  /** Does this execute call start a program? */
  predicate Starts(s: System, img: FileSystem.Image, command: Option<seq<Byte>>, frame: CallFrame)
    requires FileSystem.ValidImage(img) && |frame.header| == 32
  {
    GivesUp(img, command, frame).None? && FreeSlot(s).Some?
  }

  /** A process with a caller ends and its execute call returns; a root shell starts over instead. */
  function HaltStep(s: System, img: FileSystem.Image, status: Byte, header: seq<Byte>): (System, Outcome)
    requires FileSystem.ValidImage(img) && Nonempty(s, s.running) && |header| == 32
  {
    if |s.stacks[s.running]| == 1 then
      match Header(img, Command.SHELL, header)
      case None => (s, Return(-1))
      case Some(h) => (s, EnterUser(Entry(h)))
    else
      (Pop(s, s.running), ExecuteReturns(status, Top(s, s.running).caller))
  }

  // ---------------------------------------------------------------- memory

  /** The running process has a frame. */
  predicate HasImage(s: System) {
    Nonempty(s, s.running) && Top(s, s.running).slot < MAX_PROG_NUM && ValidImages(s)
  }

  /** A buffer of n bytes inside the process page. */
  predicate InPage(v: nat, n: nat) {
    Paging.PROCESS_PAGE <= v < Paging.PROCESS_PAGE + FRAME_SIZE && v + n <= Paging.PROCESS_PAGE + FRAME_SIZE
  }

  function StoreBytes(s: System, slot: nat, v: nat, bytes: seq<Byte>): System
    requires ValidImages(s) && slot < MAX_PROG_NUM && InPage(v, |bytes|)
  {
    s.(images := s.images[slot := Stored(s.images[slot], v - Paging.PROCESS_PAGE, bytes)])
  }

  /** A byte the running program stores at any address. Only its own page and the video pages are open
      to it. */
  function StoreStep(s: System, v: nat, b: Byte): (System, Outcome)
    requires HasImage(s)
  {
    var slot := Top(s, s.running).slot;
    if Paging.AddressSpace(Some(slot), v, true).None? then (s, PageFault)
    else if Paging.IsVideoPage(v) then (s, Done)
    else (StoreBytes(s, slot, v, [b]), Done)
  }

  // ---------------------------------------------------------------- files

  function SetFile(s: System, fd: nat, f: Option<OpenFile>): System
    requires Nonempty(s, s.running) && fd < |Top(s, s.running).files|
  {
    var p := Top(s, s.running);
    SetTop(s, s.running, p.(files := p.files[fd := f]))
  }

  /** The lowest closed descriptor from fd on. */
  function FreeFd(files: seq<Option<OpenFile>>, fd: nat): (r: Option<nat>)
    requires |files| == MAX_FILES && fd <= MAX_FILES
    ensures r.Some? ==> fd <= r.value < MAX_FILES && files[r.value].None?
    ensures forall j :: fd <= j < (if r.Some? then r.value else MAX_FILES) ==> files[j].Some?
    decreases MAX_FILES - fd
  {
    if fd == MAX_FILES then None else if files[fd].None? then Some(fd) else FreeFd(files, fd + 1)
  }

  function Opened(name: seq<Byte>, fileType: nat): OpenFile
    requires fileType <= FileSystem.FILE_TYPE
  {
    if fileType == FileSystem.RTC_TYPE then Rtc
    else if fileType == FileSystem.DIR_TYPE then Directory(0)
    else Regular(name, 0)
  }

  predicate HasFiles(s: System) {
    Nonempty(s, s.running) && |Top(s, s.running).files| == MAX_FILES
  }

  function OpenStep(s: System, img: FileSystem.Image, filename: Option<seq<Byte>>): (System, Outcome)
    requires FileSystem.ValidImage(img) && HasFiles(s)
  {
    if filename.None? || filename.value == [] then (s, Return(-1))
    else
      match FileSystem.Lookup(img, filename.value)
      case None => (s, Return(-1))
      case Some(i) =>
        match FreeFd(Top(s, s.running).files, 2)
        case None => (s, Return(-1))
        case Some(fd) => (SetFile(s, fd, Some(Opened(filename.value, img.dentries[i].fileType))), Return(fd))
  }

  datatype Operation = Open | Read | Write | Close

  /** The operations tables. */
  function Entries(f: OpenFile): map<Operation, Handler> {
    match f
    case Stdin => map[Open := NullEntry, Read := TerminalRead, Write := NullEntry, Close := NullEntry]
    case Stdout => map[Open := NullEntry, Read := NullEntry, Write := TerminalWrite, Close := NullEntry]
    case Rtc => map[Open := RtcOpen, Read := RtcRead, Write := RtcWrite, Close := RtcClose]
    case Directory(_) => map[Open := DirOpen, Read := DirRead, Write := DirWrite, Close := DirClose]
    case Regular(_, _) => map[Open := FsOpen, Read := FsRead, Write := FsWrite, Close := FsClose]
  }

  function CloseStep(s: System, fd: int): (System, Outcome)
    requires HasFiles(s)
  {
    if 2 <= fd <= 7 && Top(s, s.running).files[fd].Some? then
      (SetFile(s, fd, None), Dispatch(Entries(Top(s, s.running).files[fd].value)[Close]))
    else (s, Return(-1))
  }

  /** The close handlers of the open descriptors from fd on, in order. */
  function ClosesFrom(files: seq<Option<OpenFile>>, fd: nat): seq<Handler>
    requires |files| == MAX_FILES && fd <= MAX_FILES
    decreases MAX_FILES - fd
  {
    if fd == MAX_FILES then []
    else (if files[fd].Some? then [Entries(files[fd].value)[Close]] else []) + ClosesFrom(files, fd + 1)
  }

  /** The handlers that a halt calls before it gives up control. */
  function HaltCloses(s: System): seq<Handler>
    requires HasFiles(s)
  {
    if |s.stacks[s.running]| == 1 then [] else ClosesFrom(Top(s, s.running).files, 2)
  }

  /** What read does to a directory or a regular file: the file after it, the result and the bytes. */
  function ReadFile(img: FileSystem.Image, f: OpenFile, nbytes: int): (OpenFile, int, seq<Byte>)
    requires FileSystem.ValidImage(img) && (f.Directory? || f.Regular?)
  {
    match f
    case Directory(position) =>
      var (name, p) := FileSystem.DirReadSpec(img, position);
      (Directory(p), |name|, FileSystem.DirReadBytes(img, position))
    case Regular(name, position) =>
      var (r, p) := FileSystem.FsReadSpec(img, name, position, nbytes);
      (Regular(name, p), r.ret, r.bytes)
  }

  predicate ReadRejected(s: System, fd: int, buf: Option<nat>)
    requires HasFiles(s)
  {
    buf.None? || fd > 7 || fd < 0 || fd == 1 || Top(s, s.running).files[fd].None?
  }

  /** The bytes a read call stores from the start of its buffer. */
  function ReadBytes(s: System, img: FileSystem.Image, fd: int, buf: Option<nat>, nbytes: int): seq<Byte>
    requires FileSystem.ValidImage(img) && HasFiles(s)
  {
    if ReadRejected(s, fd, buf) then []
    else
      var f := Top(s, s.running).files[fd].value;
      if f.Directory? || f.Regular? then ReadFile(img, f, nbytes).2 else []
  }

  function ReadStep(s: System, img: FileSystem.Image, fd: int, buf: Option<nat>, nbytes: int): (System, Outcome)
    requires FileSystem.ValidImage(img) && HasFiles(s) && HasImage(s)
    requires buf.Some? ==> InPage(buf.value, |ReadBytes(s, img, fd, buf, nbytes)|)
  {
    if ReadRejected(s, fd, buf) then (s, Return(-1))
    else
      var f := Top(s, s.running).files[fd].value;
      if f.Directory? || f.Regular? then
        var (f', ret, bytes) := ReadFile(img, f, nbytes);
        (StoreBytes(SetFile(s, fd, Some(f')), Top(s, s.running).slot, buf.value, bytes), Return(ret))
      else (s, Dispatch(Entries(f)[Read]))
  }

  /** getargs: the argument string, cut or padded to the length the program asks for. */
  function GetArgsStep(s: System, buf: Option<nat>, nbytes: int): (System, Outcome)
    requires HasImage(s) && (buf.Some? && nbytes >= 0 ==> InPage(buf.value, nbytes))
  {
    if nbytes < 0 || buf.None? then (s, Return(-1))
    else
      (StoreBytes(s, Top(s, s.running).slot, buf.value, CStrings.Padded(Top(s, s.running).args, nbytes)), Return(0))
  }

  function WriteStep(s: System, fd: int, buf: Option<nat>): (System, Outcome)
    requires HasFiles(s)
  {
    if buf.None? || fd > 7 || fd <= 0 || Top(s, s.running).files[fd].None? then (s, Return(-1))
    else (s, Dispatch(Entries(Top(s, s.running).files[fd].value)[Write]))
  }

  // ---------------------------------------------------------------- switching

  function SaveTop(s: System, t: nat, ctx: Ctx): System
    requires Nonempty(s, t)
  {
    SetTop(s, t, Top(s, t).(saved := ctx))
  }

  /** Leaves terminal old_ for one that has processes. */
  function SwitchTo(s: System, old_: nat, dest: nat, ctx: Ctx): (System, Outcome)
    requires Nonempty(s, old_) && Nonempty(s, dest)
  {
    var s1 := SaveTop(s, old_, ctx).(running := dest);
    (s1, Resume(Top(s1, dest).saved))
  }

  /** Leaves terminal old_ for one where nothing runs, and starts a shell there. */
  function SwitchAndStart(s: System, img: FileSystem.Image, old_: nat, dest: nat, ctx: Ctx, frame: CallFrame): (System, Outcome)
    requires FileSystem.ValidImage(img) && ValidImages(s) && Nonempty(s, old_) && dest < |s.stacks|
    requires ExecuteEnabled(img, Some(Command.SHELL), frame)
  {
    ExecuteStep(SaveTop(s, old_, ctx).(running := dest), img, Some(Command.SHELL), frame)
  }

  predicate FirstSwitch(s: System, dest: nat) {
    (dest == 1 && !s.second) || (dest == 2 && !s.third)
  }

  /** The keyboard moves to a terminal. */
  function Activate(s: System, dest: nat): System {
    s.(active := dest)
  }

  /** The keyboard moves to a terminal, which now counts as started. */
  function MarkStarted(s: System, dest: nat): System {
    s.(active := dest, second := s.second || dest == 1, third := s.third || dest == 2)
  }

  /** context_switch, once the keyboard is on the new terminal. */
  function ContextSwitchStep(s: System, img: FileSystem.Image, sched: bool, from: nat, to: nat, ctx: Ctx,
                             frame: CallFrame): (System, Outcome)
    requires FileSystem.ValidImage(img) && |s.stacks| == TERMINALS && ValidImages(s) && from < TERMINALS && to < TERMINALS
    requires !sched && FirstSwitch(s, to) ==> Nonempty(s, from) && ExecuteEnabled(img, Some(Command.SHELL), frame)
  {
    if sched then (s, Done)
    else if FirstSwitch(s, to) then SwitchAndStart(MarkStarted(s, to), img, from, to, ctx, frame)
    else if Nonempty(s, from) && Nonempty(s, to) then SwitchTo(s, from, to, ctx)
    else (s, Done)
  }

  /** F1, F2 or F3: the keyboard moves to the terminal, and without a scheduler the CPU follows. The
      first switch to a terminal starts its shell. */
  function FKeyStep(s: System, img: FileSystem.Image, sched: bool, dest: nat, ctx: Ctx, frame: CallFrame): (System, Outcome)
    requires FileSystem.ValidImage(img) && |s.stacks| == TERMINALS && ValidImages(s)
    requires s.active < TERMINALS && dest < TERMINALS
    requires !sched && FirstSwitch(s, dest) ==> Nonempty(s, s.active) && ExecuteEnabled(img, Some(Command.SHELL), frame)
  {
    ContextSwitchStep(Activate(s, dest), img, sched, s.active, dest, ctx, frame)
  }

  function NextTerminal(t: nat): nat {
    (t + 1) % TERMINALS
  }

  /** A timer interrupt: with the scheduler on, the CPU moves to the next terminal. */
  function TickStep(s: System, img: FileSystem.Image, sched: bool, ctx: Ctx, frame: CallFrame): (System, Outcome)
    requires FileSystem.ValidImage(img) && |s.stacks| == TERMINALS && ValidImages(s) && s.running < TERMINALS
    requires sched ==> ExecuteEnabled(img, Some(Command.SHELL), frame)
  {
    var next := NextTerminal(s.running);
    if !sched || !Nonempty(s, s.running) then (s, Done)
    else if Nonempty(s, next) then SwitchTo(s, s.running, next, ctx)
    else SwitchAndStart(Activate(s, next), img, s.running, next, ctx, frame)
  }

  // ---------------------------------------------------------------- events

  datatype Event =
    | Execute(command: Option<seq<Byte>>, frame: CallFrame)
    | Halt(status: Byte, header: seq<Byte>)
    | OpenFd(filename: Option<seq<Byte>>)
    | CloseFd(fd: int)
    | ReadFd(fd: int, buf: Option<nat>, nbytes: int)
    | GetArgs(buf: Option<nat>, nbytes: int)
    | WriteFd(fd: int, buf: Option<nat>)
    | Store(address: nat, value: Byte)
    | FKey(dest: nat, ctx: Ctx, frame: CallFrame)
    | Tick(ctx: Ctx, frame: CallFrame)

  /** There is a process at depth d of terminal t. */
  ghost predicate At(stacks: seq<seq<Process>>, t: nat, d: nat) {
    t < |stacks| && d < |stacks[t]|
  }

  /** Slots are below 7 and no two processes share one. */
  ghost predicate DistinctSlots(stacks: seq<seq<Process>>) {
    && (forall t: nat, d: nat {:trigger At(stacks, t, d)} :: At(stacks, t, d) ==> stacks[t][d].slot < MAX_PROG_NUM)
    && (forall t: nat, d: nat, u: nat, e: nat {:trigger At(stacks, t, d), At(stacks, u, e)} ::
          At(stacks, t, d) && At(stacks, u, e) && stacks[t][d].slot == stacks[u][e].slot ==> t == u && d == e)
  }

  ghost predicate ValidFiles(files: seq<Option<OpenFile>>) {
    && |files| == MAX_FILES && files[0] == Some(Stdin) && files[1] == Some(Stdout)
    && forall fd :: 2 <= fd < MAX_FILES ==> files[fd] != Some(Stdin) && files[fd] != Some(Stdout)
  }

  ghost predicate Inv(s: System, sched: bool) {
    && |s.stacks| == TERMINALS && s.running < TERMINALS && s.active < TERMINALS && ValidImages(s)
    && DistinctSlots(s.stacks)
    && (forall t: nat, d: nat {:trigger At(s.stacks, t, d)} :: At(s.stacks, t, d) ==> ValidFiles(s.stacks[t][d].files))
    && (!sched && !s.second ==> s.running != 1 && s.stacks[1] == [])
    && (!sched && !s.third ==> s.running != 2 && s.stacks[2] == [])
  }

  lemma TopIsSound(s: System, sched: bool, t: nat)
    requires Inv(s, sched) && Nonempty(s, t)
    ensures Top(s, t).slot < MAX_PROG_NUM && ValidFiles(Top(s, t).files)
  {
    assert At(s.stacks, t, |s.stacks[t]| - 1);
  }

  /** Only descriptors 0 and 1 are the terminal. */
  lemma StdFilesAreFirst(s: System, sched: bool, fd: nat)
    requires Inv(s, sched) && HasFiles(s) && fd < MAX_FILES
    ensures Top(s, s.running).files[fd] == Some(Stdin) <==> fd == 0
    ensures Top(s, s.running).files[fd] == Some(Stdout) <==> fd == 1
  {
    TopIsSound(s, sched, s.running);
  }

  /** What the source takes for granted: a process to speak for, arguments that fit its buffers, a
      program that fits its page, user buffers that lie in the page of their process. */
  ghost predicate Enabled(s: System, img: FileSystem.Image, sched: bool, e: Event)
    requires FileSystem.ValidImage(img)
  {
    match e
    case Execute(command, frame) => ExecuteEnabled(img, command, frame)
    case Halt(_, header) => Nonempty(s, s.running) && |header| == 32
    case FKey(dest, _, frame) =>
      dest < TERMINALS &&
      (!sched && FirstSwitch(s, dest) ==> Nonempty(s, s.active) && ExecuteEnabled(img, Some(Command.SHELL), frame))
    case Tick(_, frame) => sched ==> ExecuteEnabled(img, Some(Command.SHELL), frame)
    case ReadFd(fd, buf, nbytes) =>
      HasFiles(s) && (buf.Some? ==> InPage(buf.value, |ReadBytes(s, img, fd, buf, nbytes)|))
    case Store(address, _) => Nonempty(s, s.running) && address < Paging.TWO32
    case GetArgs(buf, nbytes) => Nonempty(s, s.running) && (buf.Some? && nbytes >= 0 ==> InPage(buf.value, nbytes))
    case _ => Nonempty(s, s.running)
  }

  function Step(s: System, img: FileSystem.Image, sched: bool, e: Event): (System, Outcome)
    requires FileSystem.ValidImage(img) && Inv(s, sched) && Enabled(s, img, sched, e)
  {
    assert Nonempty(s, s.running) ==> At(s.stacks, s.running, |s.stacks[s.running]| - 1);
    match e
    case Execute(command, frame) => ExecuteStep(s, img, command, frame)
    case Halt(status, header) => HaltStep(s, img, status, header)
    case OpenFd(filename) => OpenStep(s, img, filename)
    case CloseFd(fd) => CloseStep(s, fd)
    case ReadFd(fd, buf, nbytes) => ReadStep(s, img, fd, buf, nbytes)
    case GetArgs(buf, nbytes) => GetArgsStep(s, buf, nbytes)
    case WriteFd(fd, buf) => WriteStep(s, fd, buf)
    case Store(address, value) => StoreStep(s, address, value)
    case FKey(dest, ctx, frame) => FKeyStep(s, img, sched, dest, ctx, frame)
    case Tick(ctx, frame) => TickStep(s, img, sched, ctx, frame)
  }
}
