/** What execute, halt, the function keys, the timer and a store of the running program do, in terms of the
    bytes of the file, the addresses of the machine and the stacks of processes. */
module ProcessLaws {
  import opened Bytes
  import Command
  import FileSystem
  import Paging
  import opened SlotMask
  import opened System
  import opened SystemInvariant

  /** The characters of a literal. */
  function Ascii(text: string): (r: seq<Byte>)
    requires forall k :: 0 <= k < |text| ==> text[k] < 128 as char
    ensures |r| == |text| && forall k :: 0 <= k < |text| ==> r[k] == text[k] as int
  {
    seq<Byte>(|text|, k requires 0 <= k < |text| => text[k] as int)
  }

  lemma WordsAre()
    ensures Command.SHELL == Ascii("shell") && Command.CLEAR == Ascii("clear")
    ensures Command.SPACE == ' ' as int && Command.NEWLINE == '\n' as int && NUL == 0
  {
    assert Ascii("shell") == Command.SHELL;
    assert Ascii("clear") == Command.CLEAR;
  }

  // ------------------------------------------------------------------ the header of a program

  /** The header is read exactly when the name has an entry with an inode. It holds the first bytes of the
      file, one byte behind a file shorter than 32 included, and what the buffer held after those. */
  lemma HeaderIs(img: FileSystem.Image, name: seq<Byte>, buffer: seq<Byte>)
    requires FileSystem.ValidImage(img) && |buffer| == 32
    ensures Header(img, name, buffer).Some? <==> FileSystem.NamesFile(img, name)
    ensures FileSystem.NamesFile(img, name) ==>
              var node, h := FileSystem.NodeOf(img, name), Header(img, name, buffer).value;
              |h| == 32 && forall k :: 0 <= k < 32 ==>
                h[k] == if 0 < node.fileSize && k <= node.fileSize then FileSystem.FileByte(img, node, k) else buffer[k]
  {
  }

  /** A number of four bytes. */
  function LowestFirst(a: int, b: int, c: int, d: int): int {
    a + 0x100 * (b + 0x100 * (c + 0x100 * d))
  }

  /** The number at bytes 24 to 27, lowest byte first, and the four magic bytes. */
  lemma EntryAndMagic(header: seq<Byte>)
    requires |header| == 32
    ensures Entry(header) == LowestFirst(header[24], header[25], header[26], header[27])
    ensures Runnable(header) <==> header[0] == 0x7f && header[1] == 'E' as int && header[2] == 'L' as int && header[3] == 'F' as int
  {
    assert header[..4] == [header[0], header[1], header[2], header[3]];
  }

  // ------------------------------------------------------------------ execute

  /** The bytes of the file are at the load address of the image, all other bytes are as they were. */
  ghost predicate Loaded(image: seq<Byte>, was: seq<Byte>, img: FileSystem.Image, node: FileSystem.Inode) {
    && |image| == |was| == 0x40_0000 && 0x4_8000 + node.fileSize <= 0x40_0000
    && forall i :: 0 <= i < 0x40_0000 ==>
         image[i] == if 0x4_8000 <= i < 0x4_8000 + node.fileSize then FileSystem.FileByte(img, node, i - 0x4_8000) else was[i]
  }

  /** An execute that enters a program has put one process on the stack of the running terminal: in the
      lowest free slot, with the stack pointers of the call, its arguments, and the terminal open for reading
      and writing. No other process has changed. */
  lemma ExecuteStartsTheProgram(s: System, img: FileSystem.Image, sched: bool, command: Option<seq<Byte>>, frame: CallFrame,
                                s': System, entry: nat)
    requires FileSystem.ValidImage(img) && Inv(s, sched) && ExecuteEnabled(img, command, frame)
    requires (s', EnterUser(entry)) == ExecuteStep(s, img, command, frame)
    ensures command.Some? && |s'.stacks| == TERMINALS && |s'.stacks[s.running]| == |s.stacks[s.running]| + 1
    ensures s'.stacks[s.running][..|s.stacks[s.running]|] == s.stacks[s.running]
    ensures forall t :: 0 <= t < TERMINALS && t != s.running ==> s'.stacks[t] == s.stacks[t]
    ensures (s'.running, s'.active, s'.second, s'.third) == (s.running, s.active, s.second, s.third)
    ensures var p := s'.stacks[s.running][|s.stacks[s.running]|];
            && p.slot < 7 && !InUse(s, p.slot) && (forall j :: 0 <= j < p.slot ==> InUse(s, j))
            && p.caller == p.saved == frame.ctx && p.args == Command.Args(command.value, frame.args, frame.cmdLen)
            && p.files == [Some(Stdin), Some(Stdout), None, None, None, None, None, None]
  {
    ExecuteCases(s, img, command, frame);
  }

  /** Its image holds every byte of the named file, at 0x08048000 of its page, and otherwise what the image
      of the slot held; the other images are as they were. */
  lemma ExecuteLoadsTheFile(s: System, img: FileSystem.Image, sched: bool, command: Option<seq<Byte>>, frame: CallFrame,
                            name: seq<Byte>, s': System, entry: nat, slot: nat)
    requires FileSystem.ValidImage(img) && Inv(s, sched) && ExecuteEnabled(img, command, frame)
    requires (s', EnterUser(entry)) == ExecuteStep(s, img, command, frame)
    requires command.Some? && name == Command.Name(command.value) && Nonempty(s', s'.running) && slot == Top(s', s'.running).slot
    ensures slot < 7 && |s'.images| == |s.images| == 7 && FileSystem.NamesFile(img, name)
    ensures forall i :: 0 <= i < 7 && i != slot ==> s'.images[i] == s.images[i]
    ensures Loaded(s'.images[slot], s.images[slot], img, FileSystem.NodeOf(img, name))
  {
    ExecuteCases(s, img, command, frame);
    HeaderIs(img, name, frame.header);
    StartLoads(s, img, command.value, FreeSlot(s).value, frame, name, s');
  }

  /** The images after a start. */
  lemma StartLoads(s: System, img: FileSystem.Image, cmd: seq<Byte>, slot: nat, frame: CallFrame, name: seq<Byte>, s': System)
    requires FileSystem.ValidImage(img) && name == Command.Name(cmd) && FitsFrame(img, name)
    requires s.running < |s.stacks| && ValidImages(s) && slot < MAX_PROG_NUM
    requires FileSystem.NamesFile(img, name) && s' == StartProcess(s, img, cmd, slot, frame)
    ensures Nonempty(s', s'.running) && Top(s', s'.running).slot == slot && |s'.images| == |s.images|
    ensures forall i :: 0 <= i < |s.images| && i != slot ==> s'.images[i] == s.images[i]
    ensures Loaded(s'.images[slot], s.images[slot], img, FileSystem.NodeOf(img, name))
  {
    StartFields(s, img, cmd, slot, frame);
    var node, content := FileSystem.NodeOf(img, name), FileContent(img, name);
    ContentFits(img, name, content);
    StoredContentIsLoaded(img, name, node, content, LOAD_OFFSET, s.images[slot], s'.images[slot]);
  }

  /** The program that is entered starts with the magic bytes, and is entered at the address that bytes 24 to
      27 of its file give -- of any file that has so many. */
  lemma ExecuteEntersAtTheEntryPoint(s: System, img: FileSystem.Image, sched: bool, command: Option<seq<Byte>>, frame: CallFrame,
                                     s': System, entry: nat)
    requires FileSystem.ValidImage(img) && Inv(s, sched) && ExecuteEnabled(img, command, frame)
    requires (s', EnterUser(entry)) == ExecuteStep(s, img, command, frame)
    ensures command.Some? && FileSystem.NamesFile(img, Command.Name(command.value))
    ensures var node := FileSystem.NodeOf(img, Command.Name(command.value));
            node.fileSize >= 28 ==>
              && (forall k :: 0 <= k < 4 ==> FileSystem.FileByte(img, node, k) == [0x7f, 0x45, 0x4c, 0x46][k])
              && entry == LowestFirst(FileSystem.FileByte(img, node, 24), FileSystem.FileByte(img, node, 25),
                                      FileSystem.FileByte(img, node, 26), FileSystem.FileByte(img, node, 27))
  {
    ExecuteCases(s, img, command, frame);
    var name := Command.Name(command.value);
    HeaderIs(img, name, frame.header);
    EntryAndMagic(Header(img, name, frame.header).value);
  }

  lemma ContentIs(img: FileSystem.Image, name: seq<Byte>, node: FileSystem.Inode, content: seq<Byte>)
    requires FileSystem.ValidImage(img) && FileSystem.NamesFile(img, name)
    requires node == FileSystem.NodeOf(img, name) && content == FileContent(img, name)
    ensures |content| == node.fileSize && forall k :: 0 <= k < node.fileSize ==> content[k] == FileSystem.FileByte(img, node, k)
  {
  }

  lemma ContentFits(img: FileSystem.Image, name: seq<Byte>, content: seq<Byte>)
    requires FileSystem.ValidImage(img) && FitsFrame(img, name) && content == FileContent(img, name)
    ensures LOAD_OFFSET == 0x4_8000 && FRAME_SIZE == 0x40_0000 && LOAD_OFFSET + |content| <= FRAME_SIZE
  {
  }

  lemma StoredContentIsLoaded(img: FileSystem.Image, name: seq<Byte>, node: FileSystem.Inode, content: seq<Byte>, at: nat,
                              was: seq<Byte>, image: seq<Byte>)
    requires FileSystem.ValidImage(img) && FileSystem.NamesFile(img, name)
    requires node == FileSystem.NodeOf(img, name) && content == FileContent(img, name)
    requires |was| == 0x40_0000 && at == 0x4_8000 && at + |content| <= |was| && image == Stored(was, at, content)
    ensures Loaded(image, was, img, node)
  {
    ContentIs(img, name, node, content);
    StoredIsLoaded(was, content, at, image, img, node);
  }

  lemma StoredIsLoaded(was: seq<Byte>, content: seq<Byte>, at: nat, image: seq<Byte>, img: FileSystem.Image, node: FileSystem.Inode)
    requires |was| == 0x40_0000 && |content| == node.fileSize && at == 0x4_8000 && at + node.fileSize <= 0x40_0000
    requires forall k :: 0 <= k < node.fileSize ==> content[k] == FileSystem.FileByte(img, node, k)
    requires image == Stored(was, at, content)
    ensures Loaded(image, was, img, node)
  {
  }

  /** Why an execute starts nothing: there is no name, it is too long, it asks to clear the screen, it names
      no runnable file, or all seven slots are in use. Then nothing changes. */
  lemma ExecuteStartsExactlyWhen(s: System, img: FileSystem.Image, sched: bool, command: Option<seq<Byte>>, frame: CallFrame,
                                 s': System, out: Outcome)
    requires FileSystem.ValidImage(img) && Inv(s, sched) && ExecuteEnabled(img, command, frame)
    requires (s', out) == ExecuteStep(s, img, command, frame)
    ensures out.EnterUser? || out == Cleared || out == Return(-1)
    ensures !out.EnterUser? ==> s' == s
    ensures out == Cleared <==>
              command.Some? && command.value != [] && Command.SpaceAt(command.value) <= 32
              && Ascii("clear") <= Command.Name(command.value)
    ensures out.EnterUser? <==>
              && command.Some? && command.value != [] && Command.SpaceAt(command.value) <= 32
              && !(Ascii("clear") <= Command.Name(command.value))
              && FileSystem.NamesFile(img, Command.Name(command.value))
              && Header(img, Command.Name(command.value), frame.header).Some?
              && Header(img, Command.Name(command.value), frame.header).value[..4] == [0x7f, 0x45, 0x4c, 0x46]
              && exists i :: 0 <= i < 7 && !InUse(s, i)
  {
    ExecuteCases(s, img, command, frame);
    if command.Some? {
      HeaderIs(img, Command.Name(command.value), frame.header);
      ClearIsPrefix(Command.Name(command.value));
    }
  }

  lemma ClearIsPrefix(name: seq<Byte>)
    ensures IsClear(name) <==> Ascii("clear") <= name
  {
    WordsAre();
  }

  // ------------------------------------------------------------------ halt

  /** The root shell of a terminal cannot end: it is entered again at the entry point of the shell file, with
      its descriptors as they are, and nothing changes. */
  lemma RootHaltRestarts(s: System, img: FileSystem.Image, status: Byte, header: seq<Byte>)
    requires FileSystem.ValidImage(img) && Nonempty(s, s.running) && |s.stacks[s.running]| == 1 && |header| == 32
    ensures HaltStep(s, img, status, header).0 == s
    ensures Header(img, Ascii("shell"), header).Some? <==> FileSystem.NamesFile(img, Ascii("shell"))
    ensures HaltStep(s, img, status, header).1 == match Header(img, Ascii("shell"), header)
                                                  case None => Return(-1)
                                                  case Some(h) => EnterUser(Entry(h))
  {
    WordsAre();
    HeaderIs(img, Command.SHELL, header);
  }

  /** Any other process is taken off the stack of its terminal; its caller gets the status. */
  lemma HaltEndsTheTop(s: System, img: FileSystem.Image, status: Byte, header: seq<Byte>, s': System, out: Outcome)
    requires FileSystem.ValidImage(img) && Nonempty(s, s.running) && |s.stacks[s.running]| > 1 && |header| == 32
    requires (s', out) == HaltStep(s, img, status, header)
    ensures var stack := s.stacks[s.running];
            && s'.stacks == s.stacks[s.running := stack[..|stack| - 1]]
            && out == ExecuteReturns(status, stack[|stack| - 1].caller)
    ensures (s'.running, s'.active, s'.second, s'.third, s'.images) == (s.running, s.active, s.second, s.third, s.images)
  {
  }

  // ------------------------------------------------------------------ switches

  /** Only the saved stack of the top process of terminal t has changed among all processes. */
  ghost predicate OnlySaved(s: System, s': System, t: nat, ctx: Ctx) {
    && |s'.stacks| == |s.stacks| && t < |s.stacks| && |s'.stacks[t]| == |s.stacks[t]| > 0
    && (forall u :: 0 <= u < |s.stacks| && u != t ==> s'.stacks[u] == s.stacks[u])
    && (forall d :: 0 <= d < |s.stacks[t]| - 1 ==> s'.stacks[t][d] == s.stacks[t][d])
    && var p, p' := s.stacks[t][|s.stacks[t]| - 1], s'.stacks[t][|s.stacks[t]| - 1];
       && p'.saved == ctx
       && (p'.slot, p'.caller, p'.args, p'.files) == (p.slot, p.caller, p.args, p.files)
  }

  lemma SaveIsOnlySaved(s: System, t: nat, ctx: Ctx)
    requires Nonempty(s, t)
    ensures OnlySaved(s, SaveTop(s, t, ctx), t, ctx) && SaveTop(s, t, ctx).images == s.images
  {
  }

  lemma SwitchToAnother(s: System, from: nat, dest: nat, ctx: Ctx, s': System, out: Outcome)
    requires Nonempty(s, from) && Nonempty(s, dest) && from != dest && (s', out) == SwitchTo(s, from, dest, ctx)
    ensures out == Resume(s.stacks[dest][|s.stacks[dest]| - 1].saved) && OnlySaved(s, s', from, ctx)
    ensures (s'.running, s'.active, s'.second, s'.third, s'.images) == (dest, s.active, s.second, s.third, s.images)
  {
    SaveIsOnlySaved(s, from, ctx);
  }

  /** Pressing the key of the terminal in use saves its stack and resumes that same stack at once. */
  lemma FKeyOnTheSameTerminal(s: System, img: FileSystem.Image, dest: nat, ctx: Ctx, frame: CallFrame, s': System, out: Outcome)
    requires FileSystem.ValidImage(img) && Inv(s, false) && s.active == s.running == dest && Nonempty(s, dest)
    requires (s', out) == FKeyStep(s, img, false, dest, ctx, frame)
    ensures out == Resume(ctx) && OnlySaved(s, s', dest, ctx)
    ensures (s'.running, s'.active, s'.second, s'.third, s'.images) == (s.running, dest, s.second, s.third, s.images)
  {
    SaveIsOnlySaved(s, dest, ctx);
  }

  /** Pressing the key of another started terminal saves the stack of the one the keyboard leaves and
      resumes what was saved on the other. */
  lemma FKeyToAStartedTerminal(s: System, img: FileSystem.Image, dest: nat, ctx: Ctx, frame: CallFrame, s': System, out: Outcome)
    requires FileSystem.ValidImage(img) && Inv(s, false) && dest < TERMINALS && s.active != dest
    requires Nonempty(s, s.active) && Nonempty(s, dest) && (dest == 1 ==> s.second) && (dest == 2 ==> s.third)
    requires (s', out) == FKeyStep(s, img, false, dest, ctx, frame)
    ensures out == Resume(s.stacks[dest][|s.stacks[dest]| - 1].saved) && OnlySaved(s, s', s.active, ctx)
    ensures (s'.running, s'.active, s'.second, s'.third, s'.images) == (dest, dest, s.second, s.third, s.images)
  {
    SaveIsOnlySaved(s, s.active, ctx);
  }

  /** The first press of F2 or F3 marks the terminal as started, saves the stack of the one it leaves and
      runs execute of the shell on the new terminal. */
  lemma FirstFKeyExecutesTheShell(s: System, img: FileSystem.Image, dest: nat, ctx: Ctx, frame: CallFrame, s1: System)
    requires FileSystem.ValidImage(img) && Inv(s, false) && Nonempty(s, s.active)
    requires (dest == 1 && !s.second) || (dest == 2 && !s.third)
    requires ExecuteEnabled(img, Some(Command.SHELL), frame)
    requires OnlySaved(s, s1, s.active, ctx) && s1.images == s.images && s1.running == s1.active == dest
    requires s1.second == (s.second || dest == 1) && s1.third == (s.third || dest == 2)
    ensures ValidImages(s1) && Command.SHELL == Ascii("shell")
    ensures FKeyStep(s, img, false, dest, ctx, frame) == ExecuteStep(s1, img, Some(Command.SHELL), frame)
  {
    WordsAre();
    var m := MarkStarted(s, dest);
    assert OnlySaved(m, s1, s.active, ctx);
    StartIsExecute(m, img, s.active, dest, ctx, frame, s1);
  }

  lemma StartIsExecute(m: System, img: FileSystem.Image, from: nat, dest: nat, ctx: Ctx, frame: CallFrame, s1: System)
    requires FileSystem.ValidImage(img) && ValidImages(m) && Nonempty(m, from) && dest < |m.stacks|
    requires ExecuteEnabled(img, Some(Command.SHELL), frame) && OnlySaved(m, s1, from, ctx) && s1.running == dest
    requires (s1.active, s1.second, s1.third, s1.images) == (m.active, m.second, m.third, m.images)
    ensures SwitchAndStart(m, img, from, dest, ctx, frame) == ExecuteStep(s1, img, Some(Command.SHELL), frame)
  {
    var r := SaveTop(m, from, ctx).(running := dest);
    SaveIsOnlySaved(m, from, ctx);
    SavedIsUnique(m, s1, r, from, ctx);
    assert s1 == r;
  }

  lemma SavedIsUnique(s: System, a: System, b: System, t: nat, ctx: Ctx)
    requires OnlySaved(s, a, t, ctx) && OnlySaved(s, b, t, ctx)
    ensures a.stacks == b.stacks
  {
    var n := |s.stacks[t]|;
    assert a.stacks[t][n - 1] == b.stacks[t][n - 1];
    assert a.stacks[t] == b.stacks[t];
  }

  /** With the scheduler on, or where one of the two terminals has no process, a function key moves the
      keyboard and nothing else. */
  lemma FKeyMovesOnlyTheKeyboard(s: System, img: FileSystem.Image, sched: bool, dest: nat, ctx: Ctx, frame: CallFrame)
    requires FileSystem.ValidImage(img) && Inv(s, sched) && Enabled(s, img, sched, FKey(dest, ctx, frame))
    requires sched || (s.stacks[s.active] == [] || s.stacks[dest] == [])
    requires !sched ==> (dest == 1 ==> s.second) && (dest == 2 ==> s.third)
    ensures FKeyStep(s, img, sched, dest, ctx, frame) == (s.(active := dest), Done)
  {
  }

  /** A timer interrupt does nothing without the scheduler, and nothing on a terminal without a process. */
  lemma IdleTick(s: System, img: FileSystem.Image, sched: bool, ctx: Ctx, frame: CallFrame)
    requires FileSystem.ValidImage(img) && Inv(s, sched) && Enabled(s, img, sched, Tick(ctx, frame))
    requires !sched || s.stacks[s.running] == []
    ensures TickStep(s, img, sched, ctx, frame) == (s, Done)
  {
  }

  lemma NextIs(t: nat)
    requires t < TERMINALS
    ensures NextTerminal(t) == if t == 2 then 0 else t + 1
  {
  }

  /** Otherwise it saves the running stack and resumes the one saved on the next terminal; the keyboard
      stays. */
  lemma TickToAProcess(s: System, img: FileSystem.Image, ctx: Ctx, frame: CallFrame, next: nat, s': System, out: Outcome)
    requires FileSystem.ValidImage(img) && Inv(s, true) && Enabled(s, img, true, Tick(ctx, frame)) && Nonempty(s, s.running)
    requires next == (if s.running == 2 then 0 else s.running + 1) && Nonempty(s, next)
    requires (s', out) == TickStep(s, img, true, ctx, frame)
    ensures |s.stacks| == TERMINALS && out == Resume(s.stacks[next][|s.stacks[next]| - 1].saved) && OnlySaved(s, s', s.running, ctx)
    ensures (s'.running, s'.active, s'.second, s'.third, s'.images) == (next, s.active, s.second, s.third, s.images)
  {
    NextIs(s.running);
    SwitchToAnother(s, s.running, next, ctx, s', out);
  }

  /** Where nothing runs on the next terminal the keyboard moves there too, and the shell is executed. */
  lemma TickToAnEmptyTerminal(s: System, img: FileSystem.Image, ctx: Ctx, frame: CallFrame, s1: System)
    requires FileSystem.ValidImage(img) && Inv(s, true) && Enabled(s, img, true, Tick(ctx, frame)) && Nonempty(s, s.running)
    requires OnlySaved(s, s1, s.running, ctx) && s1.images == s.images && (s1.second, s1.third) == (s.second, s.third)
    requires s1.running == s1.active == (if s.running == 2 then 0 else s.running + 1) && s.stacks[s1.running] == []
    ensures ValidImages(s1) && Command.SHELL == Ascii("shell")
    ensures TickStep(s, img, true, ctx, frame) == ExecuteStep(s1, img, Some(Command.SHELL), frame)
  {
    WordsAre();
    NextIs(s.running);
    var m := Activate(s, s1.running);
    assert OnlySaved(m, s1, s.running, ctx);
    StartIsExecute(m, img, s.running, s1.running, ctx, frame, s1);
  }

  // ------------------------------------------------------------------ addresses

  /** The four video pages. */
  predicate InVideo(v: nat) {
    0xB_8000 <= v < 0xB_9000 || 0xB_C000 <= v < 0xB_D000 || 0xD_C000 <= v < 0xD_D000 || 0xE_C000 <= v < 0xE_D000
  }

  /** A user program reaches the video pages and its own 4 MB, and no other address: none of the kernel's
      between 4 and 8 MB. The kernel reaches those too. */
  lemma AddressesReached(current: Option<nat>, v: nat, user: bool)
    requires v < Paging.TWO32
    ensures Paging.AddressSpace(current, v, user) ==
              if InVideo(v) then Some(v)
              else if 0x800_0000 <= v < 0x840_0000 && current.Some? then Some(0x80_0000 + 0x40_0000 * current.value + (v - 0x800_0000))
              else if 0x40_0000 <= v < 0x80_0000 && !user then Some(v)
              else None
    ensures Paging.IsVideoPage(v) <==> InVideo(v)
  {
    assert v / 0x1000 * 0x1000 <= v < v / 0x1000 * 0x1000 + 0x1000;
  }

  /** A byte stored by the running program changes that byte of its own image, or the video memory, or the
      store faults. */
  lemma StoreReaches(s: System, v: nat, b: Byte, s': System, out: Outcome)
    requires HasImage(s) && v < Paging.TWO32 && (s', out) == StoreStep(s, v, b)
    ensures out == if InVideo(v) || 0x800_0000 <= v < 0x840_0000 then Done else PageFault
    ensures var slot := Top(s, s.running).slot;
            var image: seq<Byte> := s.images[slot];
            s' == if 0x800_0000 <= v < 0x840_0000 then s.(images := s.images[slot := image[v - 0x800_0000 := b]]) else s
  {
    AddressesReached(Some(Top(s, s.running).slot), v, true);
    var image: seq<Byte> := s.images[Top(s, s.running).slot];
    if 0x800_0000 <= v < 0x840_0000 {
      assert Stored(image, v - 0x800_0000, [b]) == image[v - 0x800_0000 := b];
    }
  }
}
