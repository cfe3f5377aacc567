/** The process handlers of kernel/syscall.c and drivers/pit.c. Each runs as one step; each is proved to
    do to the tables, the page directory, the task state and the memory what the abstract system does. */
module Kernel {
  import opened Bytes
  import Command
  import CStrings
  import FileSystem
  import Paging
  import opened SlotMask
  import opened System
  import opened SystemInvariant
  import opened KernelMemory
  import opened KernelTables

  function CommandOf(s: Option<seq<Byte>>): Option<seq<Byte>>
    requires s.Some? ==> Terminated(s.value)
  {
    if s.None? then None else Some(CStr(s.value))
  }

  /** Reads the first 32 bytes of a program over what the buffer holds. */
  method ReadHeader(img: FileSystem.Image, fname: seq<Byte>, buffer: seq<Byte>) returns (header: Option<seq<Byte>>)
    requires FileSystem.ValidImage(img) && Terminated(fname) && |buffer| == 32
    ensures header == Header(img, CStr(fname), buffer)
  {
    var fInitData := new Byte[32](k requires 0 <= k < 32 => buffer[k]);
    assert fInitData[..] == buffer;
    var ret, _ := FileSystem.FsRead(img, fname, 0, fInitData, 0, 32);
    if ret == -1 { return None; }
    ghost var bytes := FileSystem.FsReadSpec(img, CStr(fname), 0, 32).0.bytes;
    assert Stored(buffer, 0, bytes) == bytes + buffer[|bytes|..];
    return Some(fInitData[..]);
  }

  /** A kernel copy of a string: its characters and their NUL. */
  function CopyOf(chars: seq<Byte>): (r: seq<Byte>)
    requires NUL !in chars
    ensures Terminated(r) && CStr(r) == chars
  {
    CStrIs(chars + [NUL], |chars|);
    chars + [NUL]
  }

  /** Closes all descriptors of a block. */
  method ClearFds(stale: seq<FileArray>) returns (fds: seq<FileArray>)
    requires |stale| == MAX_FILES
    ensures |fds| == MAX_FILES && forall i :: 0 <= i < MAX_FILES ==> fds[i].flags == NOT_USE
  {
    fds := stale;
    for i := 0 to MAX_FILES
      invariant |fds| == MAX_FILES && forall j :: 0 <= j < i ==> fds[j].flags == NOT_USE
    {
      fds := fds[i := fds[i].(operations := NoOps, filePosition := 0, flags := NOT_USE)];
    }
  }

  /** The block of a process that starts: its descriptors closed but for the first two. */
  method InitPcb(stale: Pcb, slot: nat, base: nat, tempArg: seq<Byte>, ctx: Ctx, prev: PcbPtr) returns (pcb: Pcb)
    requires |stale.fds| == MAX_FILES && base == Paging.BaseOf(slot) && Terminated(tempArg)
    ensures PcbRep(pcb, Process(slot, ctx, ctx, CStr(tempArg), FRESH_FILES), prev)
  {
    var fds := ClearFds(stale.fds);
    fds := fds[0 := fds[0].(operations := StdinOps, flags := IN_USE)];
    fds := fds[1 := fds[1].(operations := StdoutOps, flags := IN_USE)];
    pcb := Pcb(fds, CopyOf(CStr(tempArg)), slot, base, ctx.esp, ctx.ebp, ctx.esp, ctx.ebp, prev);
  }

  /** The switch on the file type in open. A type the switch does not know keeps the old table. */
  method AttachFile(fd: FileArray, fileType: nat, filename: seq<Byte>) returns (fd': FileArray)
    requires Terminated(filename) && fileType <= FileSystem.FILE_TYPE
    ensures FdRep(fd', Some(Opened(CStr(filename), fileType)))
  {
    fd' := fd;
    if fileType == FileSystem.RTC_TYPE {
      fd' := fd'.(operations := RtcOps, filePosition := 0, fileName := CopyOf(CStr(filename)));
    } else if fileType == FileSystem.DIR_TYPE {
      fd' := fd'.(operations := DirOps, filePosition := 0, fileName := CopyOf(CStr(filename)));
    } else if fileType == FileSystem.FILE_TYPE {
      fd' := fd'.(operations := FilesOps, filePosition := 0, fileName := CopyOf(CStr(filename)));
    }
    fd' := fd'.(flags := IN_USE);
  }

  /** Splits a command into the program name and the argument buffer; not ok when the name is too long. */
  method ParseCommand(command: seq<Byte>, args: seq<Byte>, cmdLen: Byte) returns (ok: bool, fName: seq<Byte>, tempArg: seq<Byte>)
    requires Terminated(command) && CStr(command) != [] && Command.Fits(CStr(command))
    requires NUL !in args && |args| < Command.ARG_BUFFER
    ensures ok == !Command.NameTooLong(CStr(command))
    ensures ok ==> Terminated(fName) && CStr(fName) == Command.Name(CStr(command))
    ensures ok ==> Terminated(tempArg) && CStr(tempArg) == Command.Args(CStr(command), args, cmdLen)
  {
    CStrings.PaddedReadsBack(args, Command.ARG_BUFFER);
    ok, tempArg := Command.SplitArgs(command, CStrings.Padded(args, Command.ARG_BUFFER), cmdLen);
    fName := [];
    if ok {
      var word := new Byte[34](_ => NUL);
      Command.Strtok(command, word);
      fName := word[..];
    }
  }

  /** The two tests execute makes of a name and of a header. */
  method NamesClear(fName: seq<Byte>) returns (r: bool)
    requires Terminated(fName)
    ensures r == IsClear(CStr(fName))
  {
    CStrIs(Command.CLEAR + [NUL], 5);
    var cmp := CStrings.Strncmp(fName, Command.CLEAR + [NUL], |Command.CLEAR|);
    return cmp == 0;
  }

  method HasMagic(header: seq<Byte>) returns (r: bool)
    requires |header| == 32
    ensures r == Runnable(header)
  {
    r := header[0] == 0x7f && header[1] == 0x45 && header[2] == 0x4c && header[3] == 0x46;
    assert r ==> header[..4] == [0x7f, 0x45, 0x4c, 0x46];
  }

  class Kernel {
    const img: FileSystem.Image
    /** SCHED_ENABLED. */
    const sched: bool
    const paging: Paging.PageTables
    /** Physical memory up to the end of the last frame. */
    const phys: array<Byte>

    var mask: bv8
    var curr: seq<PcbPtr>
    var prevProc: seq<PcbPtr>
    var pcbs: seq<Pcb>
    /** curr_active_term: the terminal whose process runs. */
    var running: nat
    var firstProgramRun: bool
    var gStatus: Byte
    /** tss.esp0. */
    var esp0: int
    /** active_terminal of the keyboard, and its two start flags. */
    var active: nat
    var second: bool
    var third: bool

    ghost var sys: System
    /** The slot whose frame the process page shows. */
    ghost var mapped: Option<nat>

    ghost predicate TablesValid()
      reads this
    {
      && running == sys.running && active == sys.active && second == sys.second && third == sys.third
      && TablesRep(Live(mask), curr, prevProc, pcbs, sys, sched)
    }

    /** The processor is set up for the running process: its frame is mapped, its kernel stack is in the
        task state. */
    ghost predicate HardwareValid()
      reads this
    {
      && (firstProgramRun || sys.stacks == [[], [], []])
      && (Nonempty(sys, sys.running) ==>
            mapped == Some(Top(sys, sys.running).slot) && esp0 == Esp0(Top(sys, sys.running).slot))
    }

    /** Memory holds these images. */
    ghost predicate MemoryValid(images: seq<seq<Byte>>)
      reads phys
    {
      ImagesRep(phys[..], images)
    }

    ghost predicate Valid()
      reads this, paging.pageDirectory, paging.pageTable1, phys
    {
      && FileSystem.ValidImage(img) && TablesValid() && HardwareValid()
      && MemoryValid(sys.images) && paging.Maps(mapped)
    }

    /** The state boot leaves before its first execute: nothing runs anywhere. */
    constructor (img: FileSystem.Image, sched: bool, paging: Paging.PageTables, phys: array<Byte>, stale: Pcb)
      requires FileSystem.ValidImage(img) && paging.Maps(None) && phys.Length == MEMORY_SIZE
      requires |stale.fds| == MAX_FILES
      ensures Valid() && sys == System([[], [], []], 0, 0, false, false, ImagesOf(phys[..]))
      ensures this.img == img && this.sched == sched && this.paging == paging && this.phys == phys
    {
      this.img, this.sched, this.paging, this.phys := img, sched, paging, phys;
      mask := 0;
      curr, prevProc := [None, None, None], [None, None, None];
      pcbs := seq(MAX_PROG_NUM, _ => stale);
      running, firstProgramRun, gStatus, esp0 := 0, false, 0, MB8;
      active, second, third := 0, false, false;
      mapped := None;
      sys := System([[], [], []], 0, 0, false, false, ImagesOf(phys[..]));
    }

    // -------------------------------------------------------------- files

    /** open. */
    method OpenFile(filename: Option<seq<Byte>>) returns (out: Outcome)
      requires Valid() && HasFiles(sys)
      requires filename.Some? ==> Terminated(filename.value)
      modifies this`pcbs, this`sys
      ensures Valid() && (sys, out) == OpenStep(old(sys), img, CommandOf(filename))
    {
      if filename.None? { return Return(-1); }
      var len := CStrings.Strlen(filename.value);
      if len == 0 { return Return(-1); }
      var check, fileType, _ := FileSystem.ReadDentryByName(img, filename.value);
      if check == -1 { return Return(-1); }
      assert fileType <= FileSystem.FILE_TYPE;
      var i := FirstClosedFd();
      if i == MAX_FILES { return Return(-1); }
      OpenAt(i, fileType, filename.value);
      return Return(i);
    }

    /** Opens a descriptor that is closed. */
    method OpenAt(i: nat, fileType: nat, filename: seq<Byte>)
      requires Valid() && HasFiles(sys) && 2 <= i < MAX_FILES && fileType <= FileSystem.FILE_TYPE && Terminated(filename)
      modifies this`pcbs, this`sys
      ensures Valid() && sys == SetFile(old(sys), i, Some(Opened(CStr(filename), fileType)))
    {
      TopPcb(Live(mask), curr, prevProc, pcbs, sys, sched, running);
      var fd := AttachFile(pcbs[curr[running].value].fds[i], fileType, filename);
      SetFd(i, fd, Some(Opened(CStr(filename), fileType)));
    }

    /** The search loop of open. */
    method FirstClosedFd() returns (i: nat)
      requires Valid() && HasFiles(sys)
      ensures 2 <= i <= MAX_FILES
      ensures FreeFd(Top(sys, running).files, 2) == if i == MAX_FILES then None else Some(i)
    {
      ghost var files := Top(sys, running).files;
      var block := curr[running].value;
      i := 2;
      while i < MAX_FILES
        invariant 2 <= i <= MAX_FILES
        invariant FreeFd(files, 2) == FreeFd(files, i)
      {
        FdOfTop(Live(mask), curr, prevProc, pcbs, sys, sched, i);
        if pcbs[block].fds[i].flags == NOT_USE {
          return i;
        }
        i := i + 1;
      }
    }

    /** The tables, the memory and the processor now represent another system. With `== true` a caller
        proves the two large predicates as they are, not conjunct by conjunct. */
    ghost method Represent(s': System)
      requires FileSystem.ValidImage(img) && paging.Maps(mapped)
      requires running == s'.running && active == s'.active && second == s'.second && third == s'.third
      requires TablesRep(Live(mask), curr, prevProc, pcbs, s', sched) == true
      requires MemoryValid(s'.images) == true
      requires firstProgramRun || s'.stacks == [[], [], []]
      requires Nonempty(s', running) ==> mapped == Some(Top(s', running).slot) && esp0 == Esp0(Top(s', running).slot)
      modifies this`sys
      ensures Valid() && sys == s'
    {
      sys := s';
    }

    /** Writes one descriptor of the running process. */
    method SetFd(i: nat, fd: FileArray, ghost f: Option<OpenFile>)
      requires Valid() && Nonempty(sys, running) && 2 <= i < MAX_FILES && FdRep(fd, f)
      requires f != Some(Stdin) && f != Some(Stdout)
      modifies this`pcbs, this`sys
      ensures Valid() && HasFiles(old(sys)) && sys == SetFile(old(sys), i, f)
    {
      TopPcb(Live(mask), curr, prevProc, pcbs, sys, sched, running);
      var block := curr[running].value;
      SetFdTables(Live(mask), curr, prevProc, pcbs, sys, sched, i, fd, f);
      pcbs := pcbs[block := pcbs[block].(fds := pcbs[block].fds[i := fd])];
      Represent(SetFile(sys, i, f));
    }

    /** The body of close, which halt also runs when the tables are half taken down. */
    method CloseBody(fd: int) returns (handler: Option<Handler>)
      requires running < |curr| && curr[running].Some? && curr[running].value < |pcbs|
      requires |pcbs[curr[running].value].fds| == MAX_FILES
      requires 2 <= fd < MAX_FILES && pcbs[curr[running].value].fds[fd].flags == IN_USE ==>
                 !pcbs[curr[running].value].fds[fd].operations.NoOps?
      modifies this`pcbs
      ensures 2 <= fd <= 7 && old(pcbs)[curr[running].value].fds[fd].flags == IN_USE ==>
                var block, was := curr[running].value, old(pcbs)[curr[running].value].fds[fd];
                && handler == Some(OpsTable(was.operations)[CLOSE])
                && pcbs == old(pcbs)[block := old(pcbs)[block].(fds := old(pcbs)[block].fds[fd :=
                             was.(flags := NOT_USE, filePosition := 0)])]
      ensures !(2 <= fd <= 7 && old(pcbs)[curr[running].value].fds[fd].flags == IN_USE) ==>
                handler == None && pcbs == old(pcbs)
    {
      var block := curr[running].value;
      if fd >= 2 && fd <= 7 && pcbs[block].fds[fd].flags == IN_USE {
        var closed := pcbs[block].fds[fd].(flags := NOT_USE, filePosition := 0);
        pcbs := pcbs[block := pcbs[block].(fds := pcbs[block].fds[fd := closed])];
        return Some(OpsTable(closed.operations)[CLOSE]);
      }
      return None;
    }

    /** close. */
    method CloseFile(fd: int) returns (out: Outcome)
      requires Valid() && HasFiles(sys)
      modifies this`pcbs, this`sys
      ensures Valid() && (sys, out) == CloseStep(old(sys), fd)
    {
      if fd < 2 || fd > 7 { return Return(-1); }
      var handler := HandlerOf(fd, CLOSE);
      if handler.None? { return Return(-1); }
      var closed := pcbs[curr[running].value].fds[fd].(flags := NOT_USE, filePosition := 0);
      SetFd(fd, closed, None);
      return Dispatch(handler.value);
    }

    /** Where the process page puts a user address. */
    method UserAddress(v: nat) returns (at: nat)
      requires paging.Maps(mapped) && mapped.Some? && InPage(v, 0)
      ensures at == Paging.FrameOf(mapped.value) + (v - Paging.PROCESS_PAGE)
    {
      paging.TranslationIs(mapped, v, false);
      var p := paging.Physical(v, false);
      at := p.value;
    }

    /** Everything of Valid but the images. */
    ghost predicate ValidButImages()
      reads this, paging.pageDirectory, paging.pageTable1
    {
      FileSystem.ValidImage(img) && TablesValid() && HardwareValid() && paging.Maps(mapped)
    }

    /** The descriptor of a read that has stored its bytes in the process page. */
    method FinishRead(fd: nat, f: FileArray, ghost g: OpenFile, ghost v: nat, ghost bytes: seq<Byte>)
      requires ValidButImages() && HasFiles(sys) && HasImage(sys) && InPage(v, |bytes|)
      requires 2 <= fd < MAX_FILES && FdRep(f, Some(g)) && g != Stdin && g != Stdout
      requires MemoryValid(StoreBytes(sys, Top(sys, running).slot, v, bytes).images)
      modifies this`pcbs, this`sys
      ensures Valid()
      ensures sys == StoreBytes(SetFile(old(sys), fd, Some(g)), Top(old(sys), running).slot, v, bytes)
    {
      TopPcb(Live(mask), curr, prevProc, pcbs, sys, sched, running);
      var block := curr[running].value;
      SetFdTables(Live(mask), curr, prevProc, pcbs, sys, sched, fd, f, Some(g));
      pcbs := pcbs[block := pcbs[block].(fds := pcbs[block].fds[fd := f])];
      ghost var s1 := SetFile(sys, fd, Some(g));
      StoreBytesKeepsInv(s1, sched, block, v, bytes);
      OtherFieldsTables(Live(mask), curr, prevProc, pcbs, s1, StoreBytes(s1, block, v, bytes), sched);
      Represent(StoreBytes(s1, block, v, bytes));
    }

    /** read from a directory: its handler is dir_read. */
    method ReadDirectory(fd: nat, v: nat, ghost position: nat) returns (ret: int)
      requires Valid() && HasFiles(sys) && HasImage(sys) && 2 <= fd < MAX_FILES
      requires Top(sys, running).files[fd] == Some(Directory(position))
      requires InPage(v, |FileSystem.DirReadBytes(img, position)|)
      modifies this`pcbs, this`sys, phys
      ensures Valid() && ret == |FileSystem.DirReadSpec(img, position).0|
      ensures sys == StoreBytes(SetFile(old(sys), fd, Some(Directory(FileSystem.DirReadSpec(img, position).1))),
                                Top(old(sys), old(running)).slot, v, FileSystem.DirReadBytes(img, position))
    {
      FdOfTop(Live(mask), curr, prevProc, pcbs, sys, sched, fd);
      var block := curr[running].value;
      var f := pcbs[block].fds[fd];
      var at := UserAddress(v);
      var newPosition;
      ret, newPosition := DirReadTo(img, f.filePosition, phys, at, block, v - Paging.PROCESS_PAGE, sys.images);
      FinishRead(fd, f.(filePosition := newPosition), Directory(newPosition), v, FileSystem.DirReadBytes(img, position));
    }

    /** read from a file: its handler is fs_read. */
    method ReadRegular(fd: nat, v: nat, nbytes: int, ghost name: seq<Byte>, ghost position: nat,
                       ghost r: FileSystem.ReadResult, ghost newPosition: nat) returns (ret: int)
      requires Valid() && HasFiles(sys) && HasImage(sys) && 2 <= fd < MAX_FILES
      requires Top(sys, running).files[fd] == Some(Regular(name, position))
      requires (r, newPosition) == FileSystem.FsReadSpec(img, name, position, nbytes) && InPage(v, |r.bytes|)
      modifies this`pcbs, this`sys, phys
      ensures Valid() && ret == r.ret
      ensures sys == StoreBytes(SetFile(old(sys), fd, Some(Regular(name, newPosition))),
                                Top(old(sys), old(running)).slot, v, r.bytes)
    {
      FdOfTop(Live(mask), curr, prevProc, pcbs, sys, sched, fd);
      var block := curr[running].value;
      var f := pcbs[block].fds[fd];
      var at := UserAddress(v);
      var p;
      ret, p := FsReadTo(img, f.fileName, f.filePosition, nbytes, phys, at,
                         block, v - Paging.PROCESS_PAGE, sys.images, name, r, newPosition);
      MovedFd(f, name, position, p);
      FinishRead(fd, f.(filePosition := p), Regular(name, newPosition), v, r.bytes);
    }

    /** The entry of its operations table that a call on a descriptor goes through; None when closed. */
    method HandlerOf(fd: nat, op: nat) returns (handler: Option<Handler>)
      requires Valid() && HasFiles(sys) && fd < MAX_FILES && op < 4
      ensures handler.None? <==> Top(sys, running).files[fd].None?
      ensures handler.Some? && op == READ ==> handler.value == Entries(Top(sys, running).files[fd].value)[Read]
      ensures curr[running].Some? && curr[running].value < |pcbs| && |pcbs[curr[running].value].fds| == MAX_FILES
      ensures handler.Some? && op == CLOSE ==> handler.value == Entries(Top(sys, running).files[fd].value)[Close]
      ensures handler.Some? && op == WRITE ==> handler.value == Entries(Top(sys, running).files[fd].value)[Write]
    {
      FdOfTop(Live(mask), curr, prevProc, pcbs, sys, sched, fd);
      var f := pcbs[curr[running].value].fds[fd];
      if f.flags != IN_USE { return None; }
      EntriesOfOps(f, Top(sys, running).files[fd].value);
      return Some(OpsTable(f.operations)[op]);
    }

    /** Only directories and files are read here. */
    static lemma ReadHandlers(f: OpenFile)
      ensures Entries(f)[Read] == DirRead <==> f.Directory?
      ensures Entries(f)[Read] == FsRead <==> f.Regular?
    {
    }

    /** read. The buffer is an address in the page of the process. */
    method ReadFd(fd: int, buf: Option<nat>, nbytes: int) returns (out: Outcome)
      requires Valid() && HasFiles(sys) && HasImage(sys)
      requires buf.Some? ==> InPage(buf.value, |ReadBytes(sys, img, fd, buf, nbytes)|)
      modifies this`pcbs, this`sys, phys
      ensures Valid() && (sys, out) == ReadStep(old(sys), img, fd, buf, nbytes)
    {
      if buf.None? || fd > 7 || fd < 0 || fd == 1 { return Return(-1); }
      var handler := HandlerOf(fd, READ);
      if handler.None? { return Return(-1); }
      ghost var f := Top(sys, running).files[fd].value;
      StdFilesAreFirst(sys, sched, fd);
      ReadHandlers(f);
      if handler.value == DirRead {
        var ret := ReadDirectory(fd, buf.value, f.position);
        return Return(ret);
      } else if handler.value == FsRead {
        ghost var (r, p) := FileSystem.FsReadSpec(img, f.name, f.position, nbytes);
        var ret := ReadRegular(fd, buf.value, nbytes, f.name, f.position, r, p);
        return Return(ret);
      }
      return Dispatch(handler.value);
    }

    /** write: the handler it calls. */
    method WriteFd(fd: int, buf: Option<nat>) returns (out: Outcome)
      requires Valid() && HasFiles(sys)
      ensures (sys, out) == WriteStep(sys, fd, buf)
    {
      if buf.None? || fd > 7 || fd <= 0 { return Return(-1); }
      var handler := HandlerOf(fd, WRITE);
      if handler.None? { return Return(-1); }
      return Dispatch(handler.value);
    }

    /** getargs. */
    method GetArgs(buf: Option<nat>, nbytes: int) returns (out: Outcome)
      requires Valid() && HasImage(sys) && (buf.Some? && nbytes >= 0 ==> InPage(buf.value, nbytes))
      modifies this`sys, phys
      ensures Valid() && (sys, out) == GetArgsStep(old(sys), buf, nbytes)
    {
      TopPcb(Live(mask), curr, prevProc, pcbs, sys, sched, running);
      if nbytes < 0 || buf.None? { return Return(-1); }
      var block := curr[running].value;
      var at := UserAddress(buf.value);
      ghost var bytes := CStrings.Padded(CStr(pcbs[block].args), nbytes);
      GetArgsKeepsInv(sys, sched, buf, nbytes);
      OtherFieldsTables(Live(mask), curr, prevProc, pcbs, sys, StoreBytes(sys, block, buf.value, bytes), sched);
      StrncpyTo(pcbs[block].args, nbytes, phys, at, block, buf.value - Paging.PROCESS_PAGE, sys.images, bytes);
      Represent(StoreBytes(sys, block, buf.value, bytes));
      return Return(0);
    }

    /** A store instruction of the running program. */
    method UserStore(v: nat, b: Byte) returns (out: Outcome)
      requires Valid() && HasImage(sys) && v < Paging.TWO32
      modifies this`sys, phys
      ensures Valid() && (sys, out) == StoreStep(old(sys), v, b)
    {
      paging.TranslationIs(mapped, v, true);
      var p := paging.Physical(v, true);
      if p.None? { return PageFault; }
      ghost var slot := Top(sys, running).slot;
      StoreKeepsInv(sys, sched, v, b);
      OtherFieldsTables(Live(mask), curr, prevProc, pcbs, sys, StoreStep(sys, v, b).0, sched);
      if p.value < Paging.KERNEL_END_ADDR {
        StoreVideoByte(phys, p.value, b, sys.images);
      } else {
        StoreByte(phys, p.value, b, slot, v - Paging.PROCESS_PAGE, sys.images);
      }
      Represent(StoreStep(sys, v, b).0);
      return Done;
    }

    // -------------------------------------------------------------- halt

    /** The first two descriptors of a process that halts. */
    method CloseStdFds(block: nat)
      requires block < |pcbs| && |pcbs[block].fds| == MAX_FILES
      modifies this`pcbs
      ensures |pcbs| == |old(pcbs)| && |pcbs[block].fds| == MAX_FILES
      ensures pcbs == old(pcbs)[block := old(pcbs)[block].(fds := pcbs[block].fds)]
      ensures pcbs[block].fds[0].flags == pcbs[block].fds[1].flags == NOT_USE
      ensures forall i :: 2 <= i < MAX_FILES ==> pcbs[block].fds[i] == old(pcbs)[block].fds[i]
    {
      var fds := pcbs[block].fds;
      fds := fds[0 := fds[0].(operations := NoOps, flags := NOT_USE)];
      fds := fds[1 := fds[1].(operations := NoOps, flags := NOT_USE)];
      pcbs := pcbs[block := pcbs[block].(fds := fds)];
    }

    /** Closes the descriptors of the process that halts: its first two by hand, the others by close, whose
        handlers are called one after the other. */
    method CloseAll(ghost files: seq<Option<OpenFile>>) returns (called: seq<Handler>)
      requires running < |curr| && curr[running].Some? && curr[running].value < |pcbs|
      requires FilesRep(pcbs[curr[running].value].fds, files)
      modifies this`pcbs
      ensures |pcbs| == |old(pcbs)| && AllClosed(pcbs, curr[running].value)
      ensures pcbs == old(pcbs)[curr[running].value := old(pcbs)[curr[running].value].(fds := pcbs[curr[running].value].fds)]
      ensures called == ClosesFrom(files, 2)
    {
      var block := curr[running].value;
      ghost var was := pcbs[block].fds;
      CloseStdFds(block);
      called := [];
      for i := 2 to MAX_FILES
        invariant ClosedTo(pcbs, old(pcbs), block, i)
        invariant called + ClosesFrom(files, i) == ClosesFrom(files, 2)
      {
        CloseOfFd(was, files, i);
        ghost var before := pcbs;
        var handler := CloseBody(i);
        CloseMore(pcbs, before, old(pcbs), block, i);
        CalledOne(called, files, i, handler);
        called := called + (if handler.Some? then [handler.value] else []);
      }
    }

    /** The running process has no caller. */
    method IsRoot() returns (root: bool)
      requires Valid() && Nonempty(sys, running)
      ensures running < |prevProc| && root == prevProc[running].None? && root == (|sys.stacks[running]| == 1)
    {
      TopPcb(Live(mask), curr, prevProc, pcbs, sys, sched, running);
      return prevProc[running].None?;
    }

    /** The part of halt that starts the shell over in the same process. */
    method RestartShell(stack: seq<Byte>) returns (out: Outcome)
      requires FileSystem.ValidImage(img) && |stack| == 32
      ensures out == match Header(img, Command.SHELL, stack) case None => Return(-1) case Some(h) => EnterUser(Entry(h))
    {
      CStrIs(Command.SHELL + [NUL], 5);
      var header := ReadHeader(img, Command.SHELL + [NUL], stack);
      if header.None? { return Return(-1); }
      return EnterUser(Entry(header.value));
    }

    /** halt. */
    method Halt(status: Byte, stack: seq<Byte>) returns (out: Outcome, called: seq<Handler>)
      requires Valid() && HasFiles(sys) && |stack| == 32
      modifies this, paging.pageDirectory
      ensures Valid() && (sys, out) == HaltStep(old(sys), img, status, stack) && called == HaltCloses(old(sys))
      ensures old(prevProc)[old(running)].Some? ==>
                AllClosed(pcbs, Top(old(sys), old(running)).slot)
    {
      var root := IsRoot();
      if root {
        out := RestartShell(stack);
        called := [];
        return;
      }
      gStatus := status;
      var ctx;
      ctx, called := EndTop();
      out := ExecuteReturns(gStatus, ctx);
    }

    /** The part of halt that ends a process with a caller. */
    method EndTop() returns (ctx: Ctx, called: seq<Handler>)
      requires Valid() && HasFiles(sys) && |sys.stacks[running]| > 1
      modifies this`mask, this`curr, this`prevProc, this`pcbs, this`esp0, this`sys, this`mapped, paging.pageDirectory
      ensures Valid() && sys == Pop(old(sys), old(running)) && ctx == Top(old(sys), old(running)).caller
      ensures AllClosed(pcbs, Top(old(sys), old(running)).slot) && called == HaltCloses(old(sys))
    {
      ctx, called := UnlinkTop();
      Represent(Pop(sys, running));
    }

    /** All of that but the abstract state; `== true` as in Represent. */
    method UnlinkTop() returns (ctx: Ctx, called: seq<Handler>)
      requires Valid() && HasFiles(sys) && |sys.stacks[running]| > 1
      modifies this`mask, this`curr, this`prevProc, this`pcbs, this`esp0, this`mapped, paging.pageDirectory
      ensures TablesRep(Live(mask), curr, prevProc, pcbs, Pop(sys, running), sched) == true
      ensures paging.Maps(mapped) && Nonempty(Pop(sys, running), running)
      ensures var slot := Top(Pop(sys, running), running).slot; mapped == Some(slot) && esp0 == Esp0(slot)
      ensures ctx == Top(sys, running).caller && AllClosed(pcbs, Top(sys, running).slot) && called == HaltCloses(sys)
    {
      HaltPointers(Live(mask), curr, prevProc, pcbs, sys, sched, running);
      var block := curr[running].value;
      ctx := Ctx(pcbs[block].pKsp, pcbs[block].pKbp);
      ghost var live, curr0, prev0, pcbs0 := Live(mask), curr, prevProc, pcbs;
      called := TakeDown(Top(sys, running).files);
      PopTables(live, curr0, prev0, pcbs0, sys, sched, Live(mask), curr, prevProc, pcbs);
    }

    /** Closes the descriptors and unlinks the process. */
    method TakeDown(ghost files: seq<Option<OpenFile>>) returns (called: seq<Handler>)
      requires running < |curr| == |prevProc| && curr[running].Some? && prevProc[running].Some? && curr[running] != prevProc[running]
      requires curr[running].value < MAX_PROG_NUM == |pcbs| && prevProc[running].value < MAX_PROG_NUM
      requires pcbs[curr[running].value].procNum == curr[running].value
      requires pcbs[prevProc[running].value].procNum == prevProc[running].value
      requires pcbs[prevProc[running].value].base == Paging.BaseOf(prevProc[running].value)
      requires FilesRep(pcbs[curr[running].value].fds, files) && curr[running].value in Live(mask) && paging.Maps(mapped)
      modifies this`pcbs, this`mask, this`curr, this`prevProc, this`esp0, this`mapped, paging.pageDirectory
      ensures var slot := old(curr)[running].value;
              && |pcbs| == MAX_PROG_NUM && pcbs == old(pcbs)[slot := pcbs[slot]] && AllClosed(pcbs, slot)
              && Live(mask) == Live(old(mask)) - {slot}
      ensures curr == old(curr)[running := old(prevProc)[running]]
      ensures prevProc == old(prevProc)[running := old(pcbs)[old(prevProc)[running].value].prev]
      ensures paging.Maps(mapped) && mapped == old(prevProc)[running] && esp0 == Esp0(old(prevProc)[running].value)
      ensures called == ClosesFrom(files, 2)
    {
      ghost var parent := prevProc[running].value;
      called := CloseAll(files);
      assert pcbs[parent] == old(pcbs)[parent];
      SetUpParent();
    }

    /** Frees the slot and moves the page, the task state and the pointers to the parent. */
    method SetUpParent()
      requires running < |curr| == |prevProc| && curr[running].Some? && prevProc[running].Some?
      requires curr[running].value < MAX_PROG_NUM == |pcbs| && prevProc[running].value < MAX_PROG_NUM
      requires pcbs[curr[running].value].procNum == curr[running].value
      requires pcbs[prevProc[running].value].procNum == prevProc[running].value
      requires pcbs[prevProc[running].value].base == Paging.BaseOf(prevProc[running].value)
      requires curr[running].value in Live(mask) && paging.Maps(mapped)
      modifies this`mask, this`curr, this`prevProc, this`esp0, this`mapped, paging.pageDirectory
      ensures Live(mask) == Live(old(mask)) - {old(curr)[running].value}
      ensures curr == old(curr)[running := old(prevProc)[running]]
      ensures prevProc == old(prevProc)[running := pcbs[old(prevProc)[running].value].prev]
      ensures paging.Maps(mapped) && mapped == old(prevProc)[running] && esp0 == Esp0(old(prevProc)[running].value)
    {
      var block, parent := curr[running].value, prevProc[running].value;
      mask := FlipSlot(mask, pcbs[block].procNum);
      paging.SwitchPd(pcbs[parent].procNum, pcbs[parent].base, mapped);
      mapped := prevProc[running];
      esp0 := MB8 - KB8 * pcbs[parent].procNum - 4;
      curr := curr[running := prevProc[running]];
      prevProc := prevProc[running := pcbs[parent].prev];
    }

    // -------------------------------------------------------------- execute

    /** Maps the frame of a free slot and loads a program there. */
    method Load(fName: seq<Byte>, slot: nat, ghost images: seq<seq<Byte>>) returns (base: nat)
      requires FileSystem.ValidImage(img) && paging.Maps(mapped) && MemoryValid(images)
      requires Terminated(fName) && FileSystem.Lookup(img, CStr(fName)).Some?
      requires img.dentries[FileSystem.Lookup(img, CStr(fName)).value].inode < |img.inodes|
      requires Room(images, slot, LOAD_OFFSET, FileContent(img, CStr(fName)))
      modifies this`mapped, paging.pageDirectory, phys
      ensures paging.Maps(mapped) && mapped == Some(slot) && base == Paging.BaseOf(slot)
      ensures MemoryValid(ImagesAfter(images, slot, LOAD_OFFSET, FileContent(img, CStr(fName))))
    {
      base := paging.InitNewProcess(slot, mapped);
      mapped := Some(slot);
      paging.TranslationIs(mapped, PROGRAM_EXEC_ADDR, false);
      var p := paging.Physical(PROGRAM_EXEC_ADDR, false);
      CopyProgramTo(img, fName, phys, p.value, slot, LOAD_OFFSET, images);
    }

    /** The part of execute that follows a successful slot search. */
    method StartOn(slot: nat, mask': bv8, fName: seq<Byte>, tempArg: seq<Byte>, ghost cmd: seq<Byte>, frame: CallFrame)
      requires Valid() && slot < MAX_PROG_NUM && slot !in Live(mask) && Live(mask') == Live(mask) + {slot}
      requires Terminated(fName) && CStr(fName) == Command.Name(cmd) && FitsFrame(img, CStr(fName))
      requires Terminated(tempArg) && CStr(tempArg) == Command.Args(cmd, frame.args, frame.cmdLen)
      requires FileSystem.Lookup(img, CStr(fName)).Some?
      requires img.dentries[FileSystem.Lookup(img, CStr(fName)).value].inode < |img.inodes|
      modifies this, phys, paging.pageDirectory
      ensures Valid() && sys == StartProcess(old(sys), img, cmd, slot, frame)
    {
      StartFields(sys, img, cmd, slot, frame);
      var base := Load(fName, slot, sys.images);
      var pcb := InitPcb(pcbs[slot], slot, base, tempArg, frame.ctx, curr[running]);
      StartTables(Live(mask), curr, prevProc, pcbs, sys, sched, img, cmd, slot, frame, pcb);
      Install(slot, mask', pcb, StartProcess(sys, img, cmd, slot, frame));
    }

    /** Puts the block of a loaded program on top of the running terminal. */
    method Install(slot: nat, mask': bv8, pcb: Pcb, ghost s': System)
      requires FileSystem.ValidImage(img) && paging.Maps(mapped) && mapped == Some(slot)
      requires running < |curr| == |prevProc| && slot < |pcbs|
      requires TablesRep(Live(mask'), curr[running := Some(slot)], prevProc[running := curr[running]], pcbs[slot := pcb],
                         s', sched) == true
      requires MemoryValid(s'.images) == true
      requires running == s'.running && active == s'.active && second == s'.second && third == s'.third
      requires Nonempty(s', running) && Top(s', running).slot == slot
      modifies this`mask, this`pcbs, this`esp0, this`prevProc, this`curr, this`firstProgramRun, this`sys
      ensures Valid() && sys == s'
    {
      mask := mask';
      pcbs := pcbs[slot := pcb];
      esp0 := MB8 - KB8 * slot - 4;
      prevProc := prevProc[running := curr[running]];
      curr := curr[running := Some(slot)];
      firstProgramRun := true;
      Represent(s');
    }

    /** The part of execute before the slot search. */
    method Examine(command: Option<seq<Byte>>, frame: CallFrame)
      returns (early: Option<Outcome>, fName: seq<Byte>, tempArg: seq<Byte>, entry: nat)
      requires FileSystem.ValidImage(img) && (command.Some? ==> Terminated(command.value))
      requires ExecuteEnabled(img, CommandOf(command), frame)
      ensures early == GivesUp(img, CommandOf(command), frame)
      ensures early.None? ==>
                var cmd := CStr(command.value);
                && Terminated(fName) && CStr(fName) == Command.Name(cmd)
                && Terminated(tempArg) && CStr(tempArg) == Command.Args(cmd, frame.args, frame.cmdLen)
                && Header(img, Command.Name(cmd), frame.header).Some?
                && entry == Entry(Header(img, Command.Name(cmd), frame.header).value)
    {
      fName, tempArg, entry := [], [], 0;
      if command.None? { return Some(Return(-1)), fName, tempArg, entry; }
      var len := CStrings.Strlen(command.value);
      if len == 0 { return Some(Return(-1)), fName, tempArg, entry; }
      var ok;
      ok, fName, tempArg := ParseCommand(command.value, frame.args, frame.cmdLen);
      if !ok { return Some(Return(-1)), fName, tempArg, entry; }
      var clear := NamesClear(fName);
      if clear { return Some(Cleared), fName, tempArg, entry; }
      var header := ReadHeader(img, fName, frame.header);
      if header.None? { return Some(Return(-1)), fName, tempArg, entry; }
      var magic := HasMagic(header.value);
      if !magic { return Some(Return(-1)), fName, tempArg, entry; }
      return None, fName, tempArg, Entry(header.value);
    }

    /** execute. */
    method Execute(command: Option<seq<Byte>>, frame: CallFrame) returns (out: Outcome)
      requires Valid() && (command.Some? ==> Terminated(command.value))
      requires ExecuteEnabled(img, CommandOf(command), frame)
      modifies this, phys, paging.pageDirectory
      ensures Valid() && (sys, out) == ExecuteStep(old(sys), img, CommandOf(command), frame)
    {
      var early, fName, tempArg, entry := Examine(command, frame);
      if early.Some? { return early.value; }
      var slot, mask' := TakeSlot(mask);
      FirstFree(Live(mask), sys, slot);
      if slot >= MAX_PROG_NUM { return Return(-1); }
      FoundProgram(img, CStr(fName), frame.header);
      StartOn(slot, mask', fName, tempArg, CStr(command.value), frame);
      return EnterUser(entry);
    }

    // -------------------------------------------------------------- switching

    /** Stores ESP and EBP in the block of a terminal's current process. */
    method SaveStack(t: nat, ctx: Ctx)
      requires Valid() && Nonempty(sys, t) && t < TERMINALS
      modifies this`pcbs, this`sys
      ensures Valid() && sys == SaveTop(old(sys), t, ctx)
    {
      TopPcb(Live(mask), curr, prevProc, pcbs, sys, sched, t);
      var block := curr[t].value;
      SaveTables(Live(mask), curr, prevProc, pcbs, sys, sched, t, ctx);
      pcbs := pcbs[block := pcbs[block].(pSchedKsp := ctx.esp, pSchedKbp := ctx.ebp)];
      Represent(SaveTop(sys, t, ctx));
    }

    /** The part of a switch that installs the process of the other terminal. */
    method InstallNext(dest: nat) returns (ctx: Ctx)
      requires Valid() && Nonempty(sys, dest) && dest < TERMINALS
      modifies this`running, this`esp0, this`mapped, this`sys, paging.pageDirectory
      ensures Valid() && sys == old(sys).(running := dest) && ctx == Top(sys, dest).saved
    {
      TopPcb(Live(mask), curr, prevProc, pcbs, sys, sched, dest);
      var next := pcbs[curr[dest].value];
      running := dest;
      paging.SwitchPd(next.procNum, next.base, mapped);
      mapped := Some(next.procNum);
      esp0 := MB8 - KB8 * next.procNum - 4;
      OtherFieldsTables(Live(mask), curr, prevProc, pcbs, sys, sys.(running := dest), sched);
      Represent(sys.(running := dest));
      return Ctx(next.pSchedKsp, next.pSchedKbp);
    }

    /** A switch between two terminals that both have processes. */
    method SwitchStacks(old_: nat, dest: nat, ctx: Ctx) returns (out: Outcome)
      requires Valid()
      requires Nonempty(sys, old_) && old_ < TERMINALS && Nonempty(sys, dest) && dest < TERMINALS
      modifies this`pcbs, this`running, this`esp0, this`mapped, this`sys, paging.pageDirectory
      ensures Valid() && (sys, out) == SwitchTo(old(sys), old_, dest, ctx)
    {
      SaveStack(old_, ctx);
      var saved := InstallNext(dest);
      return Resume(saved);
    }

    /** A switch to a terminal where nothing runs. */
    method SwitchAndExecute(old_: nat, dest: nat, ctx: Ctx, frame: CallFrame) returns (out: Outcome)
      requires Valid() && Nonempty(sys, old_) && old_ < TERMINALS && dest < TERMINALS && sys.stacks[dest] == []
      requires ExecuteEnabled(img, Some(Command.SHELL), frame) && old_ != dest
      requires !sched ==> (dest == 1 ==> second) && (dest == 2 ==> third)
      modifies this, phys, paging.pageDirectory
      ensures Valid() && (sys, out) == SwitchAndStart(old(sys), img, old_, dest, ctx, frame)
    {
      SaveStack(old_, ctx);
      running := dest;
      OtherFieldsTables(Live(mask), curr, prevProc, pcbs, sys, sys.(running := dest), sched);
      Represent(sys.(running := dest));
      CStrIs(Command.SHELL + [NUL], 5);
      out := Execute(Some(Command.SHELL + [NUL]), frame);
    }

    /** set_second_term_start and set_third_term_start. */
    method SetTermStart(t: nat)
      requires Valid() && active == t && (t == 1 || t == 2)
      modifies this`second, this`third, this`sys
      ensures Valid() && sys == MarkStarted(old(sys), t) && (t == 1 ==> second) && (t == 2 ==> third)
    {
      if t == 1 { second := true; } else { third := true; }
      OtherFieldsTables(Live(mask), curr, prevProc, pcbs, sys, MarkStarted(sys, t), sched);
      Represent(MarkStarted(sys, t));
    }

    /** context_switch. */
    method ContextSwitch(from: nat, to: nat, ctx: Ctx, frame: CallFrame) returns (out: Outcome)
      requires Valid() && from < TERMINALS && to < TERMINALS && active == to
      requires !sched && FirstSwitch(sys, to) ==> Nonempty(sys, from) && ExecuteEnabled(img, Some(Command.SHELL), frame)
      modifies this, phys, paging.pageDirectory
      ensures Valid() && (sys, out) == ContextSwitchStep(old(sys), img, sched, from, to, ctx, frame)
    {
      if sched { return Done; }
      if to == 1 && !second {
        SetTermStart(to);
        out := SwitchAndExecute(from, to, ctx, frame);
      } else if to == 2 && !third {
        SetTermStart(to);
        out := SwitchAndExecute(from, to, ctx, frame);
      } else {
        if curr[from].None? || curr[to].None? { return Done; }
        out := SwitchStacks(from, to, ctx);
      }
    }

    /** set_active_terminal. */
    method SetActiveTerminal(t: nat)
      requires Valid() && t < TERMINALS
      modifies this`active, this`sys
      ensures Valid() && sys == Activate(old(sys), t)
    {
      active := t;
      OtherFieldsTables(Live(mask), curr, prevProc, pcbs, sys, Activate(sys, t), sched);
      Represent(Activate(sys, t));
    }

    /** The F1, F2 and F3 branches of handle_keypress, without the screen. */
    method FKeyPress(dest: nat, ctx: Ctx, frame: CallFrame) returns (out: Outcome)
      requires Valid() && Enabled(sys, img, sched, FKey(dest, ctx, frame))
      modifies this, phys, paging.pageDirectory
      ensures Valid() && (sys, out) == FKeyStep(old(sys), img, sched, dest, ctx, frame)
    {
      var prevTerminal := active;
      SetActiveTerminal(dest);
      out := ContextSwitch(prevTerminal, dest, ctx, frame);
    }

    /** pit_handle_interrupt. */
    method PitHandleInterrupt(ctx: Ctx, frame: CallFrame) returns (out: Outcome)
      requires Valid() && Enabled(sys, img, sched, Tick(ctx, frame))
      modifies this, phys, paging.pageDirectory
      ensures Valid() && (sys, out) == TickStep(old(sys), img, sched, ctx, frame)
    {
      if !sched || !firstProgramRun { return Done; }
      var from, to := running, GetNextRunningTermProc();
      if curr[from].None? { return Done; }
      if curr[to].None? {
        SetActiveTerminal(to);
        out := SwitchAndExecute(from, to, ctx, frame);
      } else {
        out := SwitchStacks(from, to, ctx);
      }
    }

    /** get_next_running_term_proc. */
    function GetNextRunningTermProc(): (t: nat)
      requires running < TERMINALS
      reads this
      ensures t == NextTerminal(running)
    {
      match running
      case 0 => 1
      case 1 => 2
      case _ => 0
    }
  }
}
