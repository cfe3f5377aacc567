/** What a program gets from its descriptors: the bytes of files in order, the names of a directory in order,
    and for everything else the function behind the descriptor. */
module FileLaws {
  import opened Bytes
  import CStrings
  import FileSystem
  import opened System
  import opened SystemInvariant

  // `== true` in the contracts below keeps a large predicate one fact, not proved conjunct by conjunct.

  /** The descriptors of the running process. */
  function Files(s: System): seq<Option<OpenFile>>
    requires Nonempty(s, s.running)
  {
    Top(s, s.running).files
  }

  /** Only descriptor fd of the running process has changed among all stacks. */
  ghost predicate OnlyFd(s: System, s': System, fd: nat) {
    && HasFiles(s) && HasFiles(s') && fd < MAX_FILES
    && (s'.running, s'.active, s'.second, s'.third) == (s.running, s.active, s.second, s.third)
    && |s'.stacks| == |s.stacks| && |s'.stacks[s.running]| == |s.stacks[s.running]|
    && (forall u :: 0 <= u < |s.stacks| && u != s.running ==> s'.stacks[u] == s.stacks[u])
    && (forall d :: 0 <= d < |s.stacks[s.running]| - 1 ==> s'.stacks[s.running][d] == s.stacks[s.running][d])
    && Top(s', s.running) == Top(s, s.running).(files := Files(s)[fd := Files(s')[fd]])
  }

  /** The bytes are in the process page of the running process from this address on; all other memory is as it
      was. */
  ghost predicate Put(s: System, s': System, address: nat, bytes: seq<Byte>) {
    && HasImage(s) && ValidImages(s') && 0x800_0000 <= address && address + |bytes| <= 0x840_0000
    && var slot := Top(s, s.running).slot;
       && (forall i :: 0 <= i < 7 && i != slot ==> s'.images[i] == s.images[i])
       && forall a :: 0 <= a < 0x40_0000 ==>
            s'.images[slot][a] == if address - 0x800_0000 <= a < address - 0x800_0000 + |bytes|
                                  then bytes[a - (address - 0x800_0000)] else s.images[slot][a]
  }

  lemma SetFileIsOnlyFd(s: System, fd: nat, f: Option<OpenFile>)
    requires HasFiles(s) && fd < MAX_FILES
    ensures OnlyFd(s, SetFile(s, fd, f), fd) && Files(SetFile(s, fd, f))[fd] == f
  {
  }

  lemma StoreIsPut(s: System, s1: System, slot: nat, v: nat, bytes: seq<Byte>)
    requires HasImage(s) && slot == Top(s, s.running).slot && s1.images == s.images && InPage(v, |bytes|)
    ensures Put(s, StoreBytes(s1, slot, v, bytes), v, bytes)
  {
  }

  // ------------------------------------------------------------------ open

  /** Open makes the descriptor a file at position 0, the directory at position 0, or the clock, by the type
      of the entry: 2, 1 and 0. */
  lemma OpenByType(s: System, img: FileSystem.Image, filename: Option<seq<Byte>>, s': System, fd: int)
    requires FileSystem.ValidImage(img) && HasFiles(s)
    requires (s', Return(fd)) == OpenStep(s, img, filename) && fd != -1
    ensures filename.Some? && FileSystem.Lookup(img, filename.value).Some? && 0 <= fd < MAX_FILES && OnlyFd(s, s', fd)
    ensures s'.images == s.images
    ensures var t := img.dentries[FileSystem.Lookup(img, filename.value).value].fileType;
            && (t == 2 ==> Files(s')[fd] == Some(Regular(filename.value, 0)))
            && (t == 1 ==> Files(s')[fd] == Some(Directory(0)))
            && (t == 0 ==> Files(s')[fd] == Some(Rtc))
  {
    SetFileIsOnlyFd(s, fd, Files(s')[fd]);
  }

  // ------------------------------------------------------------------ read

  /** A read of a file at a position, inside the file: it returns the count, puts those bytes of the file
      into the buffer and moves the position on. */
  lemma FileReadGoesOn(s: System, img: FileSystem.Image, fd: nat, buf: nat, n: nat, name: seq<Byte>, p: nat, q: nat,
                       bytes: seq<Byte>, s': System, out: Outcome)
    requires FileSystem.ValidImage(img) && HasFiles(s) && HasImage(s) && FileSystem.NamesFile(img, name)
    requires 2 <= fd < MAX_FILES && Files(s)[fd] == Some(Regular(name, p))
    requires var node := FileSystem.NodeOf(img, name);
             && q == p + n <= node.fileSize && !(n > 0 && q == node.fileSize && FileSystem.EndsOnBadBlock(img, node))
             && bytes == FileSystem.Piece(img, node, p, n)
    requires InPage(buf, |ReadBytes(s, img, fd, Some(buf), n)|) && (s', out) == ReadStep(s, img, fd, Some(buf), n)
    ensures out == Return(n) && OnlyFd(s, s', fd) == true && Files(s')[fd] == Some(Regular(name, q))
    ensures Put(s, s', buf, bytes) == true
  {
    InsideRead(img, name, FileSystem.NodeOf(img, name), p, n, q, bytes);
    FileReadIs(s, img, fd, buf, n, name, p, q, n, bytes, s', out);
  }

  lemma InsideRead(img: FileSystem.Image, name: seq<Byte>, node: FileSystem.Inode, p: nat, n: nat, q: nat, bytes: seq<Byte>)
    requires FileSystem.ValidImage(img) && FileSystem.NamesFile(img, name) && node == FileSystem.NodeOf(img, name)
    requires q == p + n <= node.fileSize && !(n > 0 && q == node.fileSize && FileSystem.EndsOnBadBlock(img, node))
    requires bytes == FileSystem.Piece(img, node, p, n)
    ensures FileSystem.FsReadSpec(img, name, p, n) == (FileSystem.ReadResult(n, bytes), q)
  {
    FileSystem.FsReadOfFile(img, name, p, n);
    var flat := FileSystem.Flat(img, node);
    assert flat[p..q] == bytes;
  }

  /** The effect of a read by what fs_read does. */
  lemma FileReadIs(s: System, img: FileSystem.Image, fd: nat, buf: nat, n: nat, name: seq<Byte>, p: nat, p': nat, ret: int,
                   bytes: seq<Byte>, s': System, out: Outcome)
    requires FileSystem.ValidImage(img) && HasFiles(s) && HasImage(s)
    requires 2 <= fd < MAX_FILES && Files(s)[fd] == Some(Regular(name, p))
    requires FileSystem.FsReadSpec(img, name, p, n) == (FileSystem.ReadResult(ret, bytes), p')
    requires InPage(buf, |ReadBytes(s, img, fd, Some(buf), n)|) && (s', out) == ReadStep(s, img, fd, Some(buf), n)
    ensures out == Return(ret) && OnlyFd(s, s', fd) == true && Files(s')[fd] == Some(Regular(name, p'))
    ensures Put(s, s', buf, bytes) == true
  {
    var f := Some(Regular(name, p'));
    ReadStores(s, img, fd, buf, n, f, bytes, ret, s', out);
  }

  /** A read of a file or a directory is a new descriptor and some bytes. */
  lemma ReadStores(s: System, img: FileSystem.Image, fd: nat, buf: nat, n: int, f: Option<OpenFile>, bytes: seq<Byte>, ret: int,
                   s': System, out: Outcome)
    requires FileSystem.ValidImage(img) && HasFiles(s) && HasImage(s) && 2 <= fd < MAX_FILES && f.Some?
    requires Files(s)[fd].Some? && (Files(s)[fd].value.Regular? || Files(s)[fd].value.Directory?)
    requires ReadFile(img, Files(s)[fd].value, n) == (f.value, ret, bytes) && InPage(buf, |ReadBytes(s, img, fd, Some(buf), n)|)
    requires (s', out) == ReadStep(s, img, fd, Some(buf), n)
    ensures out == Return(ret) && OnlyFd(s, s', fd) == true && Files(s')[fd] == f && Put(s, s', buf, bytes) == true
  {
    SetFileIsOnlyFd(s, fd, f);
    StoreIsPut(s, SetFile(s, fd, f), Top(s, s.running).slot, buf, bytes);
  }

  /** A read of the directory at a position: the next name with its NUL goes into the buffer, its length
      comes back and the position moves on; behind the last name nothing comes and it starts over. */
  lemma DirectoryReadGoesOn(s: System, img: FileSystem.Image, fd: nat, buf: nat, n: int, p: nat, s': System, out: Outcome)
    requires FileSystem.ValidImage(img) && HasFiles(s) && HasImage(s)
    requires 2 <= fd < MAX_FILES && Files(s)[fd] == Some(Directory(p))
    requires InPage(buf, |ReadBytes(s, img, fd, Some(buf), n)|) && (s', out) == ReadStep(s, img, fd, Some(buf), n)
    ensures OnlyFd(s, s', fd)
    ensures p < |img.dentries| ==>
              var name := CStr(img.dentries[p].fileName);
              out == Return(|name|) && Files(s')[fd] == Some(Directory(p + 1)) && Put(s, s', buf, name + [0])
    ensures p >= |img.dentries| ==> out == Return(0) && Files(s')[fd] == Some(Directory(0)) && Put(s, s', buf, [])
  {
    var (name, p') := FileSystem.DirReadSpec(img, p);
    ReadStores(s, img, fd, buf, n, Some(Directory(p')), FileSystem.DirReadBytes(img, p), |name|, s', out);
  }

  /** Which read calls fail, and what those on a terminal or the clock call. */
  lemma OtherReads(s: System, img: FileSystem.Image, fd: int, buf: Option<nat>, n: int)
    requires FileSystem.ValidImage(img) && HasFiles(s) && HasImage(s)
    requires buf.Some? ==> InPage(buf.value, |ReadBytes(s, img, fd, buf, n)|)
    ensures var closed := fd < 0 || fd > 7 || fd == 1 || Files(s)[fd].None?;
            && (buf.None? || closed ==> ReadStep(s, img, fd, buf, n) == (s, Return(-1)))
            && (buf.Some? && !closed && Files(s)[fd] == Some(Stdin) ==> ReadStep(s, img, fd, buf, n) == (s, Dispatch(TerminalRead)))
            && (buf.Some? && !closed && Files(s)[fd] == Some(Rtc) ==> ReadStep(s, img, fd, buf, n) == (s, Dispatch(RtcRead)))
  {
  }

  // ------------------------------------------------------------------ a file read piece by piece

  function Total(rs: seq<(nat, nat)>): nat {
    if rs == [] then 0 else rs[0].1 + Total(rs[1..])
  }

  /** Reads with these buffers and counts on one descriptor lead from one state to the other. */
  ghost predicate ReadsLeadTo(s: System, img: FileSystem.Image, fd: nat, rs: seq<(nat, nat)>, s': System)
    requires FileSystem.ValidImage(img)
    decreases rs
  {
    if rs == [] then s' == s
    else
      && HasFiles(s) && HasImage(s) && InPage(rs[0].0, |ReadBytes(s, img, fd, Some(rs[0].0), rs[0].1)|)
      && ReadsLeadTo(ReadStep(s, img, fd, Some(rs[0].0), rs[0].1).0, img, fd, rs[1..], s')
  }

  lemma {:induction false} ReadsMoveThePosition(s: System, img: FileSystem.Image, fd: nat, rs: seq<(nat, nat)>, s': System,
                                                name: seq<Byte>, p: nat)
    requires FileSystem.ValidImage(img) && FileSystem.NamesFile(img, name) && HasFiles(s) && HasImage(s)
    requires 2 <= fd < MAX_FILES && Files(s)[fd] == Some(Regular(name, p)) && ReadsLeadTo(s, img, fd, rs, s')
    requires var node := FileSystem.NodeOf(img, name);
             p + Total(rs) <= node.fileSize && (FileSystem.EndsOnBadBlock(img, node) ==> p + Total(rs) < node.fileSize)
    ensures HasFiles(s') && HasImage(s') && Files(s')[fd] == Some(Regular(name, p + Total(rs)))
    decreases rs
  {
    if rs != [] {
      var (buf, n) := rs[0];
      var (s1, out) := ReadStep(s, img, fd, Some(buf), n);
      var q := p + n;
      FileReadGoesOn(s, img, fd, buf, n, name, p, q, FileSystem.Piece(img, FileSystem.NodeOf(img, name), p, n), s1, out);
      ReadsMoveThePosition(s1, img, fd, rs[1..], s', name, q);
    }
  }

  /** A file that is opened and read piece by piece: after any reads the next one goes on where the last
      ended, counted from the start of the file. */
  lemma OpenedFileReadsInOrder(s: System, img: FileSystem.Image, filename: seq<Byte>, s1: System, fd: int, rs: seq<(nat, nat)>,
                               s2: System, buf: nat, n: nat, p: nat, bytes: seq<Byte>, s3: System, out: Outcome)
    requires FileSystem.ValidImage(img) && HasFiles(s) && HasImage(s) && FileSystem.NamesFile(img, filename)
    requires img.dentries[FileSystem.Lookup(img, filename).value].fileType == 2
    requires (s1, Return(fd)) == OpenStep(s, img, Some(filename)) && fd >= 2
    requires ReadsLeadTo(s1, img, fd, rs, s2) && HasFiles(s2) && HasImage(s2) && p == Total(rs)
    requires var node := FileSystem.NodeOf(img, filename);
             && p + n <= node.fileSize && (FileSystem.EndsOnBadBlock(img, node) ==> p + n < node.fileSize)
             && bytes == FileSystem.Piece(img, node, p, n)
    requires InPage(buf, |ReadBytes(s2, img, fd, Some(buf), n)|) && (s3, out) == ReadStep(s2, img, fd, Some(buf), n)
    ensures out == Return(n) && Put(s2, s3, buf, bytes) == true
  {
    OpenByType(s, img, Some(filename), s1, fd);
    ReadsMoveThePosition(s1, img, fd, rs, s2, filename, 0);
    var q := p + n;
    FileReadGoesOn(s2, img, fd, buf, n, filename, p, q, bytes, s3, out);
  }

  lemma {:induction false} ReadsMoveThroughTheDirectory(s: System, img: FileSystem.Image, fd: nat, rs: seq<(nat, nat)>, s': System, p: nat)
    requires FileSystem.ValidImage(img) && HasFiles(s) && HasImage(s)
    requires 2 <= fd < MAX_FILES && Files(s)[fd] == Some(Directory(p)) && ReadsLeadTo(s, img, fd, rs, s')
    requires p + |rs| <= |img.dentries|
    ensures HasFiles(s') && HasImage(s') && Files(s')[fd] == Some(Directory(p + |rs|))
    decreases rs
  {
    if rs != [] {
      var (buf, n) := rs[0];
      var (s1, out) := ReadStep(s, img, fd, Some(buf), n);
      DirectoryReadGoesOn(s, img, fd, buf, n, p, s1, out);
      ReadsMoveThroughTheDirectory(s1, img, fd, rs[1..], s', p + 1);
    }
  }

  /** A directory that is opened and read: read number k puts the name of entry k and its NUL into the
      buffer and returns its length. */
  lemma OpenedDirectoryReadsInOrder(s: System, img: FileSystem.Image, filename: seq<Byte>, s1: System, fd: int, rs: seq<(nat, nat)>,
                                    s2: System, buf: nat, n: int, s3: System, out: Outcome)
    requires FileSystem.ValidImage(img) && HasFiles(s) && HasImage(s) && FileSystem.Lookup(img, filename).Some?
    requires img.dentries[FileSystem.Lookup(img, filename).value].fileType == 1
    requires (s1, Return(fd)) == OpenStep(s, img, Some(filename)) && fd >= 2
    requires ReadsLeadTo(s1, img, fd, rs, s2) && HasFiles(s2) && HasImage(s2) && |rs| < |img.dentries|
    requires InPage(buf, |ReadBytes(s2, img, fd, Some(buf), n)|) && (s3, out) == ReadStep(s2, img, fd, Some(buf), n)
    ensures var name := CStr(img.dentries[|rs|].fileName);
            out == Return(|name|) && Put(s2, s3, buf, name + [0]) == true
  {
    OpenByType(s, img, Some(filename), s1, fd);
    ReadsMoveThroughTheDirectory(s1, img, fd, rs, s2, 0);
    DirectoryReadGoesOn(s2, img, fd, buf, n, |rs|, s3, out);
  }

  // ------------------------------------------------------------------ write, close, getargs

  /** The function a write calls, by the kind of descriptor; it changes nothing here. */
  lemma WriteCalls(s: System, fd: int, buf: Option<nat>)
    requires HasFiles(s)
    ensures WriteStep(s, fd, buf).0 == s
    ensures WriteStep(s, fd, buf).1 ==
              if buf.None? || fd <= 0 || fd > 7 || Files(s)[fd].None? then Return(-1)
              else match Files(s)[fd].value
                   case Stdin => Dispatch(NullEntry)
                   case Stdout => Dispatch(TerminalWrite)
                   case Rtc => Dispatch(RtcWrite)
                   case Directory(_) => Dispatch(DirWrite)
                   case Regular(_, _) => Dispatch(FsWrite)
  {
  }

  /** Close closes the descriptor and calls the close function of its kind; it fails on the terminal's two and
      on closed ones. */
  lemma CloseCloses(s: System, sched: bool, fd: int, s': System, out: Outcome)
    requires Inv(s, sched) && HasFiles(s) && (s', out) == CloseStep(s, fd)
    ensures fd < 2 || fd > 7 || Files(s)[fd].None? ==> (s', out) == (s, Return(-1))
    ensures 2 <= fd <= 7 && Files(s)[fd].Some? ==>
              && OnlyFd(s, s', fd) && Files(s')[fd].None? && s'.images == s.images
              && out == match Files(s)[fd].value
                        case Rtc => Dispatch(RtcClose)
                        case Directory(_) => Dispatch(DirClose)
                        case Regular(_, _) => Dispatch(FsClose)
                        case _ => Dispatch(NullEntry)
  {
    if 2 <= fd <= 7 {
      SetFileIsOnlyFd(s, fd, None);
    }
  }

  /** What close would call for the descriptors from fd on, one after the other. */
  function ClosesOneByOne(s: System, fd: nat): seq<Handler>
    requires HasFiles(s) && fd <= MAX_FILES
    decreases MAX_FILES - fd
  {
    if fd == MAX_FILES then []
    else
      var out := CloseStep(s, fd).1;
      (if out.Dispatch? then [out.handler] else []) + ClosesOneByOne(s, fd + 1)
  }

  lemma {:induction false} ClosesAreOneByOne(s: System, fd: nat)
    requires HasFiles(s) && 2 <= fd <= MAX_FILES
    ensures ClosesFrom(Files(s), fd) == ClosesOneByOne(s, fd)
    decreases MAX_FILES - fd
  {
    if fd < MAX_FILES {
      ClosesAreOneByOne(s, fd + 1);
    }
  }

  /** A halt calls what a close of each descriptor would call; the halt of a root shell closes nothing. */
  lemma HaltClosesOneByOne(s: System)
    requires HasFiles(s)
    ensures HaltCloses(s) == if |s.stacks[s.running]| == 1 then [] else ClosesOneByOne(s, 2)
  {
    ClosesAreOneByOne(s, 2);
  }

  /** Getargs puts the argument string, cut or padded with NULs, into the buffer; without a buffer or with a
      negative count it fails. */
  lemma GetArgsPuts(s: System, buf: Option<nat>, n: int, s': System, out: Outcome)
    requires HasImage(s) && (buf.Some? && n >= 0 ==> InPage(buf.value, n))
    requires (s', out) == GetArgsStep(s, buf, n)
    ensures buf.None? || n < 0 ==> (s', out) == (s, Return(-1))
    ensures buf.Some? && n >= 0 ==>
              && out == Return(0) && s' == s.(images := s'.images)
              && Put(s, s', buf.value, CStrings.Padded(Top(s, s.running).args, n))
  {
    if buf.Some? && n >= 0 {
      StoreIsPut(s, s, Top(s, s.running).slot, buf.value, CStrings.Padded(Top(s, s.running).args, n));
    }
  }

  // ------------------------------------------------------------------ fs_read without a file

  /** A negative count is taken as the unsigned number of the same 32 bits. */
  lemma NegativeCounts(n: int)
    requires -0x8000_0000 <= n < 0x1_0000_0000
    ensures FileSystem.ToU32(n) == if n < 0 then n + 0x1_0000_0000 else n
  {
  }

  /** A name without an entry, and an entry with an inode number out of range: -1, which the second adds to
      the position. */
  lemma ReadOfNoFile(img: FileSystem.Image, name: seq<Byte>, position: nat, n: int)
    requires FileSystem.ValidImage(img) && !FileSystem.NamesFile(img, name)
    ensures FileSystem.FsReadSpec(img, name, position, n).0 == FileSystem.ReadResult(-1, [])
    ensures FileSystem.FsReadSpec(img, name, position, n).1 ==
              if FileSystem.Lookup(img, name).None? then position else FileSystem.ToU32(position - 1)
  {
  }
}
