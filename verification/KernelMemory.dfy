/** Physical memory up to the end of the last process frame, and the stores the kernel makes there. */
module KernelMemory {
  import opened Bytes
  import CStrings
  import FileSystem
  import Paging
  import opened SlotMask
  import opened System

  const PROGRAM_EXEC_ADDR := Paging.PROCESS_START_ADDR
  const MEMORY_SIZE := Paging.KERNEL_END_ADDR + MAX_PROG_NUM * FRAME_SIZE

  /** The image of a slot is what lies in its frame. */
  ghost predicate InFrame(mem: seq<Byte>, slot: nat, image: seq<Byte>)
    requires |mem| == MEMORY_SIZE && slot < MAX_PROG_NUM
  {
    image == mem[Paging.FrameOf(slot)..Paging.FrameOf(slot) + FRAME_SIZE]
  }

  ghost predicate ImagesRep(mem: seq<Byte>, images: seq<seq<Byte>>) {
    |mem| == MEMORY_SIZE && |images| == MAX_PROG_NUM &&
    forall i: nat {:trigger InFrame(mem, i, images[i])} :: i < MAX_PROG_NUM ==> InFrame(mem, i, images[i])
  }

  ghost predicate Room(images: seq<seq<Byte>>, slot: nat, offset: nat, bytes: seq<Byte>) {
    |images| == MAX_PROG_NUM && slot < MAX_PROG_NUM && |images[slot]| == FRAME_SIZE && offset + |bytes| <= FRAME_SIZE
  }

  lemma StoreInFrame(mem: seq<Byte>, images: seq<seq<Byte>>, slot: nat, offset: nat, bytes: seq<Byte>)
    requires ImagesRep(mem, images) && Room(images, slot, offset, bytes)
    ensures ImagesRep(Stored(mem, Paging.FrameOf(slot) + offset, bytes),
                      images[slot := Stored(images[slot], offset, bytes)])
  {
    var mem' := Stored(mem, Paging.FrameOf(slot) + offset, bytes);
    forall i: nat | i < MAX_PROG_NUM
      ensures InFrame(mem', i, if i == slot then Stored(images[slot], offset, bytes) else images[i])
    {
      assert InFrame(mem, i, images[i]);
    }
  }

  lemma StoreBelowFrames(mem: seq<Byte>, images: seq<seq<Byte>>, p: nat, bytes: seq<Byte>)
    requires ImagesRep(mem, images) && p + |bytes| <= Paging.KERNEL_END_ADDR
    ensures ImagesRep(Stored(mem, p, bytes), images)
  {
    var mem' := Stored(mem, p, bytes);
    forall i: nat | i < MAX_PROG_NUM
      ensures InFrame(mem', i, images[i])
    {
      assert InFrame(mem, i, images[i]);
    }
  }

  /** The frames of memory. */
  function ImagesOf(mem: seq<Byte>): (r: seq<seq<Byte>>)
    requires |mem| == MEMORY_SIZE
    ensures ImagesRep(mem, r) && forall i :: 0 <= i < MAX_PROG_NUM ==> |r[i]| == FRAME_SIZE
  {
    seq(MAX_PROG_NUM, i requires 0 <= i < MAX_PROG_NUM => mem[Paging.FrameOf(i)..Paging.FrameOf(i) + FRAME_SIZE])
  }

  /** The images after a store of some bytes at an offset of a frame. */
  ghost function ImagesAfter(images: seq<seq<Byte>>, slot: nat, offset: nat, bytes: seq<Byte>): seq<seq<Byte>>
    requires slot < |images| && offset + |bytes| <= |images[slot]|
  {
    images[slot := Stored(images[slot], offset, bytes)]
  }

  method StoreByte(phys: array<Byte>, p: nat, b: Byte, ghost slot: nat, ghost offset: nat, ghost images: seq<seq<Byte>>)
    requires ImagesRep(phys[..], images) && Room(images, slot, offset, [b]) && p == Paging.FrameOf(slot) + offset
    modifies phys
    ensures ImagesRep(phys[..], ImagesAfter(images, slot, offset, [b]))
  {
    StoreInFrame(phys[..], images, slot, offset, [b]);
    assert phys[..][p := b] == Stored(phys[..], p, [b]);
    phys[p] := b;
  }

  method StoreVideoByte(phys: array<Byte>, p: nat, b: Byte, ghost images: seq<seq<Byte>>)
    requires ImagesRep(phys[..], images) && p < Paging.KERNEL_END_ADDR
    modifies phys
    ensures ImagesRep(phys[..], images)
  {
    StoreBelowFrames(phys[..], images, p, [b]);
    assert phys[..][p := b] == Stored(phys[..], p, [b]);
    phys[p] := b;
  }

  method DirReadTo(img: FileSystem.Image, position: nat, phys: array<Byte>, at: nat,
                   ghost slot: nat, ghost offset: nat, ghost images: seq<seq<Byte>>) returns (ret: int, position': nat)
    requires FileSystem.ValidImage(img) && ImagesRep(phys[..], images) && at == Paging.FrameOf(slot) + offset
    requires Room(images, slot, offset, FileSystem.DirReadBytes(img, position))
    modifies phys
    ensures (ret, position') == (|FileSystem.DirReadSpec(img, position).0|, FileSystem.DirReadSpec(img, position).1)
    ensures ImagesRep(phys[..], ImagesAfter(images, slot, offset, FileSystem.DirReadBytes(img, position)))
  {
    StoreInFrame(phys[..], images, slot, offset, FileSystem.DirReadBytes(img, position));
    ret, position' := FileSystem.DirRead(img, position, phys, at);
  }

  method FsReadTo(img: FileSystem.Image, fileName: seq<Byte>, position: nat, nbytes: int, phys: array<Byte>, at: nat,
                  ghost slot: nat, ghost offset: nat, ghost images: seq<seq<Byte>>,
                  ghost name: seq<Byte>, ghost r: FileSystem.ReadResult, ghost p: nat)
    returns (ret: int, position': nat)
    requires FileSystem.ValidImage(img) && ImagesRep(phys[..], images) && at == Paging.FrameOf(slot) + offset
    requires Terminated(fileName) && CStr(fileName) == name
    requires (r, p) == FileSystem.FsReadSpec(img, name, position, nbytes) && Room(images, slot, offset, r.bytes)
    modifies phys
    ensures ret == r.ret && position' == p
    ensures ImagesRep(phys[..], ImagesAfter(images, slot, offset, r.bytes))
  {
    ghost var before := phys[..];
    StoreInFrame(before, images, slot, offset, r.bytes);
    ret, position' := FileSystem.FsRead(img, fileName, position, phys, at, nbytes);
    assert phys[..] == Stored(before, at, r.bytes);
  }

  method StrncpyTo(src: seq<Byte>, n: nat, phys: array<Byte>, at: nat,
                   ghost slot: nat, ghost offset: nat, ghost images: seq<seq<Byte>>, ghost bytes: seq<Byte>)
    requires ImagesRep(phys[..], images) && at == Paging.FrameOf(slot) + offset && Terminated(src)
    requires bytes == CStrings.Padded(CStr(src), n) && Room(images, slot, offset, bytes)
    modifies phys
    ensures ImagesRep(phys[..], ImagesAfter(images, slot, offset, bytes))
  {
    ghost var before := phys[..];
    StoreInFrame(before, images, slot, offset, bytes);
    CStrings.Strncpy(phys, at, src, n);
    assert phys[..] == Stored(before, at, bytes);
  }

  /** Loads a program. The result of the copy is not looked at, and the bytes arrive whatever it is. */
  method CopyProgramTo(img: FileSystem.Image, fname: seq<Byte>, phys: array<Byte>, at: nat,
                       ghost slot: nat, ghost offset: nat, ghost images: seq<seq<Byte>>)
    requires FileSystem.ValidImage(img) && ImagesRep(phys[..], images) && at == Paging.FrameOf(slot) + offset
    requires Terminated(fname) && Room(images, slot, offset, FileContent(img, CStr(fname)))
    requires var e := FileSystem.Lookup(img, CStr(fname)); e.Some? && img.dentries[e.value].inode < |img.inodes|
    modifies phys
    ensures ImagesRep(phys[..], ImagesAfter(images, slot, offset, FileContent(img, CStr(fname))))
  {
    ghost var before, bytes := phys[..], FileContent(img, CStr(fname));
    StoreInFrame(before, images, slot, offset, bytes);
    var _ := FileSystem.CopyFileToAddr(img, fname, phys, at);
    assert phys[..] == Stored(before, at, bytes);
  }
}
