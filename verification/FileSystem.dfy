/** The read-only file system of fs/files.c: a boot image whose inodes map file blocks to data blocks.
    The image never changes; the routines write only to the caller's memory. */
module FileSystem {
  import opened Bytes
  import CStrings

  const BLOCK_SIZE := 0x1000
  const MAX_FILENAME_LENGTH := 31
  const BLOCKS_PER_INODE := 1023

  const RTC_TYPE := 0
  const DIR_TYPE := 1
  const FILE_TYPE := 2

  datatype Inode = Inode(fileSize: nat, blocks: seq<nat>)
  datatype Dentry = Dentry(fileName: seq<Byte>, fileType: nat, inode: nat)
  datatype Image = Image(dentries: seq<Dentry>, inodes: seq<Inode>, nDataBlocks: nat, data: seq<Byte>)

  /** Every block that holds a byte of the file is a data block of the image, and the block list has
      an entry for the block after the last byte. Nothing is said about that entry. */
  ghost predicate ValidInode(img: Image, node: Inode) {
    && |node.blocks| == BLOCKS_PER_INODE
    && node.fileSize < BLOCKS_PER_INODE * BLOCK_SIZE
    && (forall k :: 0 <= k < |node.blocks| && k * BLOCK_SIZE < node.fileSize ==> node.blocks[k] < img.nDataBlocks)
  }

  ghost predicate ValidImage(img: Image) {
    && |img.data| == img.nDataBlocks * BLOCK_SIZE
    && (forall node <- img.inodes :: ValidInode(img, node))
    && (forall d <- img.dentries :: |d.fileName| == 32 && Terminated(d.fileName) && d.fileType <= FILE_TYPE)
  }

  // ---------------------------------------------------------------- flat files

  /** Byte k of a file, by its block number and place in the block. A place with no data block behind
      it counts as 0. */
  function FileByte(img: Image, node: Inode, k: nat): Byte {
    if && k / BLOCK_SIZE < |node.blocks|
       && node.blocks[k / BLOCK_SIZE] * BLOCK_SIZE + k % BLOCK_SIZE < |img.data|
    then img.data[node.blocks[k / BLOCK_SIZE] * BLOCK_SIZE + k % BLOCK_SIZE]
    else 0
  }

  /** The file as one run of bytes, followed by the byte after its last one. */
  function Flat(img: Image, node: Inode): (r: seq<Byte>)
    ensures |r| == node.fileSize + 1
    ensures forall k :: 0 <= k <= node.fileSize ==> r[k] == FileByte(img, node, k)
  {
    seq<Byte>(node.fileSize + 1, k requires 0 <= k => FileByte(img, node, k))
  }

  function Content(img: Image, node: Inode): seq<Byte> {
    Flat(img, node)[..node.fileSize]
  }

  /** The file ends exactly at a block boundary and the list names no data block after it. */
  predicate EndsOnBadBlock(img: Image, node: Inode)
    requires node.fileSize / BLOCK_SIZE < |node.blocks|
  {
    node.fileSize % BLOCK_SIZE == 0 && node.blocks[node.fileSize / BLOCK_SIZE] >= img.nDataBlocks
  }

  /** What a read leaves: the value it returns and the bytes it stored from the start of the buffer. */
  datatype ReadResult = ReadResult(ret: int, bytes: seq<Byte>)

  /** A read as one step over the flat file. A request that goes past the end of the file gets one byte
      too many, and one that reaches the end of a file whose next block is bad fails after storing
      everything. */
  function FlatRead(flat: seq<Byte>, bad: bool, offset: nat, length: nat): (r: ReadResult)
    requires |flat| > 0
    ensures |r.bytes| <= length
  {
    var size := |flat| - 1;
    if offset >= size then ReadResult(0, [])
    else if bad && length >= size - offset then ReadResult(-1, flat[offset..size])
    else
      var n := Min(length, size - offset + 1);
      ReadResult(n, flat[offset..offset + n])
  }

  function ReadSpec(img: Image, inode: nat, offset: nat, length: nat): (r: ReadResult)
    requires ValidImage(img)
    ensures |r.bytes| <= length
  {
    if inode >= |img.inodes| then ReadResult(-1, [])
    else
      var node := img.inodes[inode];
      assert ValidInode(img, node);
      FlatRead(Flat(img, node), EndsOnBadBlock(img, node), offset, length)
  }

  /** The first boundary from block k on, inside the file or at its end, where the list names no data block. */
  function BadFrom(img: Image, node: Inode, k: nat): (r: Option<nat>)
    requires |node.blocks| == BLOCKS_PER_INODE
    ensures r.Some? ==> k * BLOCK_SIZE <= r.value <= node.fileSize
    decreases BLOCKS_PER_INODE - k
  {
    if k >= BLOCKS_PER_INODE || k * BLOCK_SIZE > node.fileSize then None
    else if node.blocks[k] >= img.nDataBlocks then Some(k * BLOCK_SIZE)
    else BadFrom(img, node, k + 1)
  }

  /** When all blocks of the file are good the only bad boundary can be the end of the file. */
  lemma {:induction false} BadOnlyAtTheEnd(img: Image, node: Inode, k: nat)
    requires ValidInode(img, node) && k <= BLOCKS_PER_INODE
    ensures BadFrom(img, node, k) == if EndsOnBadBlock(img, node) && k * BLOCK_SIZE <= node.fileSize then Some(node.fileSize) else None
    decreases BLOCKS_PER_INODE - k
  {
    if k < BLOCKS_PER_INODE && k * BLOCK_SIZE <= node.fileSize && node.blocks[k] < img.nDataBlocks {
      BadOnlyAtTheEnd(img, node, k + 1);
    }
  }

  /** Where the loop of read_data meets a bad boundary when it starts at an offset. */
  function Stop(img: Image, node: Inode, offset: nat): (r: Option<nat>)
    requires |node.blocks| == BLOCKS_PER_INODE
    ensures r.Some? ==> offset < r.value <= node.fileSize
  {
    BadFrom(img, node, offset / BLOCK_SIZE + 1)
  }

  /** How many bytes a read that starts inside the file stores. */
  function ReadCount(img: Image, node: Inode, offset: nat, length: nat): nat
    requires |node.blocks| == BLOCKS_PER_INODE && offset < node.fileSize
  {
    match Stop(img, node, offset)
    case Some(stop) => Min(length, stop - offset)
    case None => Min(length, node.fileSize - offset + 1)
  }

  /** n bytes of a file from an offset on. */
  function Piece(img: Image, node: Inode, offset: nat, n: nat): (r: seq<Byte>)
    ensures |r| == n && forall k :: 0 <= k < n ==> r[k] == FileByte(img, node, offset + k)
  {
    seq<Byte>(n, k requires 0 <= k => FileByte(img, node, offset + k))
  }

  /** The variables of the loop of read_data agree on one place of the file, in a good block; the walk will
      meet its first bad boundary at `stop`. */
  ghost predicate Walking(img: Image, node: Inode, stop: Option<nat>, place: nat, block: nat, inBlock: nat, pos: nat) {
    && |img.data| == img.nDataBlocks * BLOCK_SIZE && |node.blocks| == BLOCKS_PER_INODE
    && node.fileSize < BLOCKS_PER_INODE * BLOCK_SIZE && place <= node.fileSize
    && place == block * BLOCK_SIZE + inBlock && inBlock < BLOCK_SIZE
    && block < BLOCKS_PER_INODE && node.blocks[block] < img.nDataBlocks
    && pos == node.blocks[block] * BLOCK_SIZE + inBlock
    && BadFrom(img, node, block + 1) == stop
  }

  /** The pointer is where division and remainder put the place, and inside the image. */
  lemma PlaceIsStored(img: Image, node: Inode, stop: Option<nat>, place: nat, block: nat, inBlock: nat, pos: nat)
    requires Walking(img, node, stop, place, block, inBlock, pos)
    ensures pos < |img.data| && img.data[pos] == FileByte(img, node, place)
    ensures stop.Some? ==> place < stop.value
  {
  }

  /** One byte on, inside a block. */
  lemma WalkOn(img: Image, node: Inode, stop: Option<nat>, place: nat, block: nat, inBlock: nat, pos: nat)
    requires Walking(img, node, stop, place, block, inBlock, pos)
    requires place + 1 <= node.fileSize && inBlock + 1 < BLOCK_SIZE
    ensures Walking(img, node, stop, place + 1, block, inBlock + 1, pos + 1)
  {
  }

  /** One byte on, over a block boundary. */
  lemma WalkOver(img: Image, node: Inode, stop: Option<nat>, place: nat, block: nat, inBlock: nat, pos: nat)
    requires Walking(img, node, stop, place, block, inBlock, pos)
    requires place + 1 <= node.fileSize && inBlock + 1 == BLOCK_SIZE
    ensures block + 1 < BLOCKS_PER_INODE
    ensures node.blocks[block + 1] >= img.nDataBlocks ==> stop == Some(place + 1)
    ensures node.blocks[block + 1] < img.nDataBlocks ==>
              Walking(img, node, stop, place + 1, block + 1, 0, node.blocks[block + 1] * BLOCK_SIZE)
  {
  }

  /** The first bytes of a buffer have arrived, and nothing else has changed. */
  ghost predicate Arrived(now: seq<Byte>, was: seq<Byte>, at: nat, bytes: seq<Byte>, n: nat)
    requires n <= |bytes| && at + |bytes| <= |was|
  {
    && |now| == |was|
    && (forall i {:trigger now[i]} :: at <= i < at + n ==> now[i] == bytes[i - at])
    && forall i {:trigger now[i]} :: 0 <= i < |now| && !(at <= i < at + n) ==> now[i] == was[i]
  }

  /** One byte more. */
  method StoreNext(mem: array<Byte>, i: nat, b: Byte, ghost was: seq<Byte>, ghost at: nat, ghost bytes: seq<Byte>, ghost n: nat)
    requires n < |bytes| && at + |bytes| <= |was| && i == at + n && b == bytes[n]
    requires Arrived(mem[..], was, at, bytes, n)
    modifies mem
    ensures Arrived(mem[..], was, at, bytes, n + 1)
  {
    mem[i] := b;
  }

  lemma AllArrived(now: seq<Byte>, was: seq<Byte>, at: nat, bytes: seq<Byte>)
    requires at + |bytes| <= |was| && Arrived(now, was, at, bytes, |bytes|)
    ensures now == Stored(was, at, bytes)
  {
  }

  /** The loop of read_data: the pointer walks through the current block and is recomputed at block
      boundaries. Only the first block has to be good; the first bad one after it ends the read. The
      buffer is the part of mem that starts at address `at`. */
  method ReadBlocks(img: Image, node: Inode, offset: nat, mem: array<Byte>, at: nat, length: nat) returns (ret: int)
    requires |img.data| == img.nDataBlocks * BLOCK_SIZE
    requires |node.blocks| == BLOCKS_PER_INODE && offset < node.fileSize < BLOCKS_PER_INODE * BLOCK_SIZE
    requires node.blocks[offset / BLOCK_SIZE] < img.nDataBlocks
    requires at + ReadCount(img, node, offset, length) <= mem.Length
    modifies mem
    ensures ret == if Stop(img, node, offset).Some? && length >= Stop(img, node, offset).value - offset then -1
                   else ReadCount(img, node, offset, length)
    ensures mem[..] == Stored(old(mem[..]), at, Piece(img, node, offset, ReadCount(img, node, offset, length)))
  {
    ghost var stop := Stop(img, node, offset);
    ghost var bytes := Piece(img, node, offset, ReadCount(img, node, offset, length));
    ret := WalkBlocks(img, node, offset, mem, at, length, stop, bytes);
  }

  method WalkBlocks(img: Image, node: Inode, offset: nat, mem: array<Byte>, at: nat, length: nat,
                    ghost stop: Option<nat>, ghost bytes: seq<Byte>) returns (ret: int)
    requires |img.data| == img.nDataBlocks * BLOCK_SIZE
    requires |node.blocks| == BLOCKS_PER_INODE && offset < node.fileSize < BLOCKS_PER_INODE * BLOCK_SIZE
    requires node.blocks[offset / BLOCK_SIZE] < img.nDataBlocks
    requires stop == BadFrom(img, node, offset / BLOCK_SIZE + 1) && at + |bytes| <= mem.Length
    requires |bytes| == Min(length, if stop.Some? then stop.value - offset else node.fileSize - offset + 1)
    requires forall k :: 0 <= k < |bytes| ==> bytes[k] == FileByte(img, node, offset + k)
    modifies mem
    ensures ret == if stop.Some? && length >= stop.value - offset then -1 else |bytes|
    ensures mem[..] == Stored(old(mem[..]), at, bytes)
  {
    var currBlock: nat, locationInBlock: nat := offset / BLOCK_SIZE, offset % BLOCK_SIZE;
    var currReadPos: nat := node.blocks[currBlock] * BLOCK_SIZE + locationInBlock;
    var numReads, bufPos := 0, at;
    ghost var was, place: nat := mem[..], offset;
    ret := -1;
    while numReads < length
      invariant 0 <= numReads <= |bytes| && bufPos == at + numReads && place == offset + numReads
      invariant Walking(img, node, stop, place, currBlock, locationInBlock, currReadPos)
      invariant Arrived(mem[..], was, at, bytes, numReads)
    {
      PlaceIsStored(img, node, stop, place, currBlock, locationInBlock, currReadPos);
      ghost var block, inBlock, pos := currBlock, locationInBlock, currReadPos;
      StoreNext(mem, bufPos, img.data[currReadPos], was, at, bytes, numReads);
      numReads, bufPos := numReads + 1, bufPos + 1;
      currReadPos := currReadPos + 1;
      locationInBlock := locationInBlock + 1;

      if offset + numReads > node.fileSize {
        break;
      }
      if locationInBlock >= BLOCK_SIZE {
        WalkOver(img, node, stop, place, block, inBlock, pos);
        locationInBlock := 0;
        currBlock := currBlock + 1;
        if node.blocks[currBlock] >= img.nDataBlocks {
          AllArrived(mem[..], was, at, bytes);
          return;
        }
        currReadPos := node.blocks[currBlock] * BLOCK_SIZE + locationInBlock;
      } else {
        WalkOn(img, node, stop, place, block, inBlock, pos);
      }
      place := place + 1;
    }
    ret := numReads;
    AllArrived(mem[..], was, at, bytes);
  }

  /** Over good blocks the walk is a read of the flat file. */
  lemma BlocksAreFlat(img: Image, node: Inode, offset: nat, length: nat)
    requires ValidInode(img, node) && offset < node.fileSize
    ensures var r := FlatRead(Flat(img, node), EndsOnBadBlock(img, node), offset, length);
            && r.bytes == Piece(img, node, offset, ReadCount(img, node, offset, length))
            && r.ret == if Stop(img, node, offset).Some? && length >= Stop(img, node, offset).value - offset then -1
                        else ReadCount(img, node, offset, length)
  {
    BadOnlyAtTheEnd(img, node, offset / BLOCK_SIZE + 1);
  }

  method ReadData(img: Image, inode: nat, offset: nat, mem: array<Byte>, at: nat, length: nat) returns (ret: int)
    requires ValidImage(img)
    requires at + |ReadSpec(img, inode, offset, length).bytes| <= mem.Length
    modifies mem
    ensures ret == ReadSpec(img, inode, offset, length).ret
    ensures mem[..] == Stored(old(mem[..]), at, ReadSpec(img, inode, offset, length).bytes)
  {
    if inode >= |img.inodes| { return -1; }
    assert ValidInode(img, img.inodes[inode]);
    if offset >= img.inodes[inode].fileSize { return 0; }
    var node := img.inodes[inode];
    BlocksAreFlat(img, node, offset, length);
    ret := ReadBlocks(img, node, offset, mem, at, length);
  }

  // ---------------------------------------------------------------- directory

  /** The first directory entry with this name. */
  function Lookup(img: Image, name: seq<Byte>): (r: Option<nat>)
    requires ValidImage(img)
    ensures r.Some? ==> r.value < |img.dentries| && CStr(img.dentries[r.value].fileName) == name
    ensures r.Some? ==> forall i :: 0 <= i < r.value ==> CStr(img.dentries[i].fileName) != name
    ensures r.None? ==> forall i :: 0 <= i < |img.dentries| ==> CStr(img.dentries[i].fileName) != name
  {
    LookupFrom(img, name, 0)
  }

  function LookupFrom(img: Image, name: seq<Byte>, start: nat): (r: Option<nat>)
    requires ValidImage(img) && start <= |img.dentries|
    ensures r.Some? ==> start <= r.value < |img.dentries| && CStr(img.dentries[r.value].fileName) == name
    ensures r.Some? ==> forall i :: start <= i < r.value ==> CStr(img.dentries[i].fileName) != name
    ensures r.None? ==> forall i :: start <= i < |img.dentries| ==> CStr(img.dentries[i].fileName) != name
    decreases |img.dentries| - start
  {
    if start == |img.dentries| then None
    else if CStr(img.dentries[start].fileName) == name then Some(start)
    else LookupFrom(img, name, start + 1)
  }

  /** The strings agree on their first n characters. */
  method Agree(s1: seq<Byte>, s2: seq<Byte>, n: nat) returns (same: bool)
    requires Terminated(s1) && Terminated(s2)
    ensures same <==> Take(CStr(s1), n) == Take(CStr(s2), n)
  {
    var order := CStrings.Strncmp(s1, s2, n);
    return order == 0;
  }

  method ReadDentryByName(img: Image, fname: seq<Byte>) returns (ret: int, fileType: nat, inode: nat)
    requires ValidImage(img) && Terminated(fname)
    ensures ret == 0 || ret == -1
    ensures ret == 0 <==> Lookup(img, CStr(fname)).Some?
    ensures ret == 0 ==> var i := Lookup(img, CStr(fname)).value;
                         fileType == img.dentries[i].fileType && inode == img.dentries[i].inode
  {
    var readBytes := CStrings.Strlen(fname);
    if readBytes > MAX_FILENAME_LENGTH {
      readBytes := MAX_FILENAME_LENGTH;
    }
    var i := 0;
    while i < |img.dentries|
      invariant 0 <= i <= |img.dentries|
      invariant Lookup(img, CStr(fname)) == LookupFrom(img, CStr(fname), i)
    {
      var entry := img.dentries[i];
      var len := CStrings.Strlen(fname);
      var entryLen := CStrings.Strlen(entry.fileName);
      if len == entryLen {
        var same := Agree(entry.fileName, fname, readBytes);
        assert Take(CStr(entry.fileName), readBytes) == CStr(entry.fileName);
        if same {
          return 0, entry.fileType, entry.inode;
        }
      }
      i := i + 1;
    }
    return -1, 0, 0;
  }

  /** autocomplete_command: the first entry whose name starts with the text; -1 when there is none. */
  method AutocompleteCommand(img: Image, currText: seq<Byte>) returns (r: int)
    requires ValidImage(img) && Terminated(currText)
    ensures -1 <= r < |img.dentries|
    ensures forall i :: 0 <= i < (if r == -1 then |img.dentries| else r) ==>
              !(CStr(currText) <= CStr(img.dentries[i].fileName))
    ensures r != -1 ==> CStr(currText) <= CStr(img.dentries[r].fileName)
  {
    var strLength := CStrings.Strlen(currText);
    var i := 0;
    while i < |img.dentries|
      invariant 0 <= i <= |img.dentries|
      invariant forall j :: 0 <= j < i ==> !(CStr(currText) <= CStr(img.dentries[j].fileName))
    {
      var same := Agree(img.dentries[i].fileName, currText, strLength);
      PrefixByTake(CStr(currText), CStr(img.dentries[i].fileName));
      if same {
        return i;
      }
      i := i + 1;
    }
    return -1;
  }

  lemma PrefixByTake(text: seq<Byte>, name: seq<Byte>)
    ensures Take(name, |text|) == Take(text, |text|) <==> text <= name
  {
    assert Take(text, |text|) == text;
  }

  // ---------------------------------------------------------------- open files

  const TWO32 := 0x1_0000_0000

  /** An int32 argument taken as uint32. */
  function ToU32(n: int): nat {
    if 0 <= n < TWO32 then n else n % TWO32
  }

  /** A read from an open file: what is stored and returned, and the new file position. */
  function FsReadSpec(img: Image, name: seq<Byte>, position: nat, nbytes: int): (r: (ReadResult, nat))
    requires ValidImage(img)
    ensures |r.0.bytes| <= ToU32(nbytes)
  {
    match Lookup(img, name)
    case None => (ReadResult(-1, []), position)
    case Some(i) =>
      var r := ReadSpec(img, img.dentries[i].inode, position, ToU32(nbytes));
      (r, ToU32(position + r.ret))
  }

  method FsRead(img: Image, fileName: seq<Byte>, position: nat, mem: array<Byte>, at: nat, nbytes: int)
    returns (ret: int, position': nat)
    requires ValidImage(img) && Terminated(fileName)
    requires at + |FsReadSpec(img, CStr(fileName), position, nbytes).0.bytes| <= mem.Length
    modifies mem
    ensures ret == FsReadSpec(img, CStr(fileName), position, nbytes).0.ret
    ensures position' == FsReadSpec(img, CStr(fileName), position, nbytes).1
    ensures mem[..] == Stored(old(mem[..]), at, FsReadSpec(img, CStr(fileName), position, nbytes).0.bytes)
  {
    var found, _, inode := ReadDentryByName(img, fileName);
    if found != 0 { return -1, position; }
    ret := ReadData(img, inode, position, mem, at, ToU32(nbytes));
    position' := ToU32(position + ret);
  }

  /** A directory entry has this name and its inode is in the image. */
  predicate NamesFile(img: Image, name: seq<Byte>)
    requires ValidImage(img)
  {
    Lookup(img, name).Some? && img.dentries[Lookup(img, name).value].inode < |img.inodes|
  }

  function NodeOf(img: Image, name: seq<Byte>): (node: Inode)
    requires ValidImage(img) && NamesFile(img, name)
    ensures ValidInode(img, node)
  {
    var node := img.inodes[img.dentries[Lookup(img, name).value].inode];
    assert node in img.inodes;
    node
  }

  /** Copies a whole file. The bytes always arrive; the result is -1 although they did when the file
      ends at a block boundary and names no block after it. */
  method CopyFileToAddr(img: Image, fname: seq<Byte>, mem: array<Byte>, at: nat) returns (ret: int)
    requires ValidImage(img) && Terminated(fname)
    requires at <= mem.Length
    requires NamesFile(img, CStr(fname)) ==> at + NodeOf(img, CStr(fname)).fileSize <= mem.Length
    modifies mem
    ensures !NamesFile(img, CStr(fname)) ==> ret == -1 && mem[..] == old(mem[..])
    ensures NamesFile(img, CStr(fname)) ==>
              var node := NodeOf(img, CStr(fname));
              && mem[..] == Stored(old(mem[..]), at, Content(img, node))
              && node.fileSize / BLOCK_SIZE < |node.blocks|
              && ret == if node.fileSize > 0 && EndsOnBadBlock(img, node) then -1 else 0
  {
    var found, _, inode := ReadDentryByName(img, fname);
    if found != 0 { return -1; }
    // Behind the inodes any size may lie; read_data rejects such a number before it looks at the size.
    var fileSize := if inode < |img.inodes| then img.inodes[inode].fileSize else 0;
    if inode < |img.inodes| { assert ValidInode(img, img.inodes[inode]); }
    var r := ReadData(img, inode, 0, mem, at, fileSize);
    if r == -1 { return -1; }
    return 0;
  }

  // ---------------------------------------------------------------- reads compose

  function Sum(ns: seq<nat>): nat {
    if ns == [] then 0 else ns[0] + Sum(ns[1..])
  }

  /** The outcome of a list of reads: everything stored, the sum of the results, the last position. */
  datatype Reads = Reads(bytes: seq<Byte>, total: int, position: nat)

  /** fs_read calls one after the other on one file. */
  function ReadMany(flat: seq<Byte>, bad: bool, position: nat, ns: seq<nat>): Reads
    requires |flat| > 0
    decreases ns
  {
    if ns == [] then Reads([], 0, position)
    else
      var r := FlatRead(flat, bad, position, ns[0]);
      var rest := ReadMany(flat, bad, ToU32(position + r.ret), ns[1..]);
      Reads(r.bytes + rest.bytes, r.ret + rest.total, rest.position)
  }

  /** A read of n bytes from here runs up to the end of a file that ends on a bad block. */
  predicate RunsIntoBadBlock(flat: seq<Byte>, bad: bool, position: nat, n: nat) {
    n > 0 && bad && position + n == |flat| - 1
  }

  lemma SliceSplit(s: seq<Byte>, a: nat, b: nat, c: nat)
    requires a <= b <= c <= |s|
    ensures s[a..b] + s[b..c] == s[a..c]
  {
  }

  lemma OneRead(flat: seq<Byte>, bad: bool, position: nat, n: nat)
    requires position + n < |flat|
    ensures FlatRead(flat, bad, position, n)
         == ReadResult(if RunsIntoBadBlock(flat, bad, position, n) then -1 else n, flat[position..position + n])
  {
  }

  lemma ReadThenMore(flat: seq<Byte>, bad: bool, position: nat, ns: seq<nat>)
    requires ns != [] && position + ns[0] < |flat| < TWO32
    requires !RunsIntoBadBlock(flat, bad, position, ns[0])
    ensures var rest := ReadMany(flat, bad, position + ns[0], ns[1..]);
            && ReadMany(flat, bad, position, ns).bytes == flat[position..position + ns[0]] + rest.bytes
            && ReadMany(flat, bad, position, ns).total == ns[0] + rest.total
            && ReadMany(flat, bad, position, ns).position == rest.position
  {
    OneRead(flat, bad, position, ns[0]);
  }

  lemma ReadThenNothing(flat: seq<Byte>, bad: bool, position: nat, ns: seq<nat>)
    requires ns != [] && position + ns[0] < |flat| < TWO32 && Sum(ns[1..]) == 0
    requires RunsIntoBadBlock(flat, bad, position, ns[0])
    ensures ReadMany(flat, bad, position, ns) == Reads(flat[position..position + ns[0]], -1, ToU32(position + -1))
  {
    OneRead(flat, bad, position, ns[0]);
    ReadNothing(flat, bad, ToU32(position + -1), ns[1..]);
  }

  lemma ReadThenRest(flat: seq<Byte>, bad: bool, position: nat, ns: seq<nat>, middle: nat)
    requires ns != [] && middle == position + ns[0] && position + Sum(ns) < |flat| < TWO32
    requires !RunsIntoBadBlock(flat, bad, position, ns[0])
    requires ReadMany(flat, bad, middle, ns[1..]).bytes == flat[middle..middle + Sum(ns[1..])]
    ensures ReadMany(flat, bad, position, ns).bytes == flat[position..position + Sum(ns)]
  {
    ReadThenMore(flat, bad, position, ns);
    SliceSplit(flat, position, middle, middle + Sum(ns[1..]));
  }

  lemma {:induction false} ReadsConcatenate(flat: seq<Byte>, bad: bool, position: nat, ns: seq<nat>)
    requires position + Sum(ns) < |flat| < TWO32
    ensures ReadMany(flat, bad, position, ns).bytes == flat[position..position + Sum(ns)]
    decreases ns
  {
    if ns == [] {
    } else if RunsIntoBadBlock(flat, bad, position, ns[0]) {
      ReadThenNothing(flat, bad, position, ns);
    } else {
      var middle := position + ns[0];
      ReadsConcatenate(flat, bad, middle, ns[1..]);
      ReadThenRest(flat, bad, position, ns, middle);
    }
  }

  lemma {:induction false} ReadsAddUp(flat: seq<Byte>, bad: bool, position: nat, ns: seq<nat>)
    requires position + Sum(ns) < |flat| < TWO32
    ensures if RunsIntoBadBlock(flat, bad, position, Sum(ns)) then ReadMany(flat, bad, position, ns).total < Sum(ns)
            else ReadMany(flat, bad, position, ns).total == Sum(ns)
                 && ReadMany(flat, bad, position, ns).position == position + Sum(ns)
    decreases ns
  {
    if ns == [] {
    } else if RunsIntoBadBlock(flat, bad, position, ns[0]) {
      ReadThenNothing(flat, bad, position, ns);
    } else {
      ReadThenMore(flat, bad, position, ns);
      ReadsAddUp(flat, bad, position + ns[0], ns[1..]);
    }
  }

  /** Reads that stay inside the file concatenate to one read, in bytes, result and position -- the
      last two exactly unless they run up to the end of a file that ends on a bad block. */
  lemma FlatReadsCompose(flat: seq<Byte>, bad: bool, position: nat, ns: seq<nat>)
    requires position + Sum(ns) < |flat| < TWO32
    ensures ReadMany(flat, bad, position, ns).bytes == flat[position..position + Sum(ns)]
    ensures (ReadMany(flat, bad, position, ns).total == Sum(ns)
             && ReadMany(flat, bad, position, ns).position == position + Sum(ns))
       <==> !RunsIntoBadBlock(flat, bad, position, Sum(ns))
  {
    ReadsConcatenate(flat, bad, position, ns);
    ReadsAddUp(flat, bad, position, ns);
  }

  lemma EmptyRead(flat: seq<Byte>, bad: bool, position: nat)
    requires |flat| > 0 && position < TWO32
    ensures FlatRead(flat, bad, position, 0) == ReadResult(0, []) && ToU32(position + 0) == position
  {
  }

  lemma {:induction false} ReadNothing(flat: seq<Byte>, bad: bool, position: nat, ns: seq<nat>)
    requires |flat| > 0 && Sum(ns) == 0 && position < TWO32
    ensures ReadMany(flat, bad, position, ns) == Reads([], 0, position)
    decreases ns
  {
    if ns != [] {
      EmptyRead(flat, bad, position);
      ReadNothing(flat, bad, position, ns[1..]);
    }
  }

  /** fs_read calls one after the other on an open file. */
  function FsReads(img: Image, name: seq<Byte>, position: nat, ns: seq<nat>): Reads
    requires ValidImage(img)
    decreases ns
  {
    if ns == [] then Reads([], 0, position)
    else
      var (r, p) := FsReadSpec(img, name, position, ns[0]);
      var rest := FsReads(img, name, p, ns[1..]);
      Reads(r.bytes + rest.bytes, r.ret + rest.total, rest.position)
  }

  lemma FsReadOfFile(img: Image, name: seq<Byte>, position: nat, n: nat)
    requires ValidImage(img) && NamesFile(img, name) && n < TWO32
    ensures var node := NodeOf(img, name);
            var r := FlatRead(Flat(img, node), EndsOnBadBlock(img, node), position, n);
            FsReadSpec(img, name, position, n) == (r, ToU32(position + r.ret))
  {
  }

  lemma FirstFsRead(img: Image, name: seq<Byte>, position: nat, ns: seq<nat>, r: ReadResult, p: nat, rest: Reads)
    requires ValidImage(img) && ns != [] && (r, p) == FsReadSpec(img, name, position, ns[0])
    requires rest == FsReads(img, name, p, ns[1..])
    ensures FsReads(img, name, position, ns) == Reads(r.bytes + rest.bytes, r.ret + rest.total, rest.position)
  {
  }

  lemma FirstRead(flat: seq<Byte>, bad: bool, position: nat, ns: seq<nat>, r: ReadResult, p: nat, rest: Reads)
    requires |flat| > 0 && ns != [] && r == FlatRead(flat, bad, position, ns[0]) && p == ToU32(position + r.ret)
    requires rest == ReadMany(flat, bad, p, ns[1..])
    ensures ReadMany(flat, bad, position, ns) == Reads(r.bytes + rest.bytes, r.ret + rest.total, rest.position)
  {
  }

  lemma {:induction false} FsReadsAreReadMany(img: Image, name: seq<Byte>, position: nat, ns: seq<nat>)
    requires ValidImage(img) && NamesFile(img, name) && Sum(ns) < TWO32
    ensures var node := NodeOf(img, name);
            FsReads(img, name, position, ns) == ReadMany(Flat(img, node), EndsOnBadBlock(img, node), position, ns)
    decreases ns
  {
    if ns != [] {
      var node := NodeOf(img, name);
      var r := FlatRead(Flat(img, node), EndsOnBadBlock(img, node), position, ns[0]);
      var p := ToU32(position + r.ret);
      FsReadOfFile(img, name, position, ns[0]);
      FsReadsAreReadMany(img, name, p, ns[1..]);
      var rest := FsReads(img, name, p, ns[1..]);
      FirstFsRead(img, name, position, ns, r, p, rest);
      FirstRead(Flat(img, node), EndsOnBadBlock(img, node), position, ns, r, p, rest);
    }
  }

  /** Successive fs_read calls whose total stays inside the file store the same bytes as one read. Their
      results add up to the total, and the position moves by it, exactly unless they run up to the end
      of a file that ends on a bad block. */
  lemma ReadsCompose(img: Image, name: seq<Byte>, position: nat, ns: seq<nat>)
    requires ValidImage(img) && NamesFile(img, name) && position + Sum(ns) <= NodeOf(img, name).fileSize
    ensures var node, r := NodeOf(img, name), FsReads(img, name, position, ns);
            && r.bytes == Content(img, node)[position..position + Sum(ns)]
            && (r.total == Sum(ns) && r.position == position + Sum(ns)
                <==> !(Sum(ns) > 0 && EndsOnBadBlock(img, node) && position + Sum(ns) == node.fileSize))
  {
    var node := NodeOf(img, name);
    var flat := Flat(img, node);
    FsReadsAreReadMany(img, name, position, ns);
    FlatReadsCompose(flat, EndsOnBadBlock(img, node), position, ns);
    assert flat[..node.fileSize][position..position + Sum(ns)] == flat[position..position + Sum(ns)];
  }

  // ---------------------------------------------------------------- draining a file

  /** What a program gets that reads chunks of one size while read returns a positive count, and takes
      that many bytes each time; and whether the last read returned 0 and not -1. */
  datatype Drained = Drained(bytes: seq<Byte>, ok: bool)

  function Drain(flat: seq<Byte>, bad: bool, position: nat, chunk: nat): Drained
    requires |flat| > 0 && chunk > 0
    decreases |flat| - position
  {
    var r := FlatRead(flat, bad, position, chunk);
    if r.ret <= 0 then Drained([], r.ret == 0)
    else
      var rest := Drain(flat, bad, position + r.ret, chunk);
      Drained(r.bytes + rest.bytes, rest.ok)
  }

  /** The same by fs_read calls on an open file. */
  function FsDrain(img: Image, name: seq<Byte>, position: nat, chunk: nat): Drained
    requires ValidImage(img) && 0 < chunk < TWO32
    decreases Remaining(img, name, position)
  {
    var (r, p) := FsReadSpec(img, name, position, chunk);
    if r.ret <= 0 then Drained([], r.ret == 0)
    else
      ReadMovesOn(img, name, position, chunk);
      var rest := FsDrain(img, name, p, chunk);
      Drained(r.bytes + rest.bytes, rest.ok)
  }

  function Remaining(img: Image, name: seq<Byte>, position: nat): nat
    requires ValidImage(img)
  {
    if NamesFile(img, name) && position < NodeOf(img, name).fileSize then NodeOf(img, name).fileSize - position else 0
  }

  lemma ReadMovesOn(img: Image, name: seq<Byte>, position: nat, chunk: nat)
    requires ValidImage(img) && chunk < TWO32 && FsReadSpec(img, name, position, chunk).0.ret > 0
    ensures NamesFile(img, name) && position < NodeOf(img, name).fileSize
    ensures FsReadSpec(img, name, position, chunk).1 == position + FsReadSpec(img, name, position, chunk).0.ret
  {
  }

  /** What is left of a total after taking whole chunks from it. */
  function Leftover(total: nat, chunk: nat): (r: nat)
    requires chunk > 0
    ensures r < chunk
  {
    if total < chunk then total else Leftover(total - chunk, chunk)
  }

  lemma {:induction false} LeftoverIsModulo(total: nat, chunk: nat)
    requires chunk > 0
    ensures Leftover(total, chunk) == total % chunk
  {
    if total < chunk {
      assert total / chunk == 0;
    } else {
      ModStep(total, chunk);
      LeftoverIsModulo(total - chunk, chunk);
    }
  }

  lemma ModStep(a: nat, n: nat)
    requires 0 < n <= a
    ensures (a - n) % n == a % n
  {
    var d := a / n - (a - n) / n;
    assert d * n == n + (a - n) % n - a % n by {
      assert a == (a / n) * n + a % n;
      assert a - n == ((a - n) / n) * n + (a - n) % n;
    }
    BetweenMultiples(d, n);
  }

  lemma BetweenMultiples(d: int, n: nat)
    requires 0 < d * n < 2 * n
    ensures d == 1
  {
  }

  /** Over a good file: all of it when the chunks divide what is left, else one byte more. */
  lemma {:induction false} DrainGood(flat: seq<Byte>, position: nat, chunk: nat)
    requires chunk > 0 && position < |flat|
    ensures Drain(flat, false, position, chunk) ==
              if position < |flat| - 1 && Leftover(|flat| - 1 - position, chunk) != 0 then Drained(flat[position..], true)
              else Drained(flat[position..|flat| - 1], true)
    decreases |flat| - position
  {
    if position + chunk < |flat| {
      OneRead(flat, false, position, chunk);
      DrainGood(flat, position + chunk, chunk);
    }
  }

  /** Over one that ends on a bad block the chunk that reaches the end is lost: -1 ends the loop. */
  lemma {:induction false} DrainBad(flat: seq<Byte>, position: nat, chunk: nat)
    requires chunk > 0 && position < |flat| - 1
    ensures Drain(flat, true, position, chunk)
         == Drained(flat[position..|flat| - 2 - Leftover(|flat| - 2 - position, chunk)], false)
    decreases |flat| - position
  {
    if position + chunk < |flat| - 1 {
      OneRead(flat, true, position, chunk);
      DrainBad(flat, position + chunk, chunk);
    }
  }

  lemma EmptyDrain(flat: seq<Byte>, bad: bool, chunk: nat)
    requires |flat| == 1 && chunk > 0
    ensures Drain(flat, bad, 0, chunk) == Drained([], true)
  {
  }

  lemma {:induction false} FsDrainIsDrain(img: Image, name: seq<Byte>, position: nat, chunk: nat)
    requires ValidImage(img) && NamesFile(img, name) && 0 < chunk < TWO32
    ensures var node := NodeOf(img, name);
            FsDrain(img, name, position, chunk) == Drain(Flat(img, node), EndsOnBadBlock(img, node), position, chunk)
    decreases Remaining(img, name, position)
  {
    var (r, p) := FsReadSpec(img, name, position, chunk);
    if r.ret > 0 {
      ReadMovesOn(img, name, position, chunk);
      FsDrainIsDrain(img, name, p, chunk);
    }
  }

  /** Reading a file from its start to its end gives the file, and ends with 0, exactly when the chunk
      size divides the file size and the file is empty or does not end on a bad block. */
  lemma DrainIsTheFileExactlyWhen(img: Image, name: seq<Byte>, chunk: nat)
    requires ValidImage(img) && NamesFile(img, name) && 0 < chunk < TWO32
    ensures var node := NodeOf(img, name);
            FsDrain(img, name, 0, chunk) == Drained(Content(img, node), true)
            <==> node.fileSize % chunk == 0 && !(node.fileSize > 0 && EndsOnBadBlock(img, node))
  {
    var node := NodeOf(img, name);
    FsDrainIsDrain(img, name, 0, chunk);
    if node.fileSize > 0 && EndsOnBadBlock(img, node) {
      DrainBad(Flat(img, node), 0, chunk);
    } else {
      DrainGood(Flat(img, node), 0, chunk);
      LeftoverIsModulo(node.fileSize, chunk);
      if node.fileSize == 0 { EmptyDrain(Flat(img, node), EndsOnBadBlock(img, node), chunk); }
    }
  }

  // ---------------------------------------------------------------- listing

  /** dir_read: the next name with its NUL, or the empty result that starts the listing over. */
  method DirRead(img: Image, position: nat, mem: array<Byte>, at: nat) returns (ret: int, position': nat)
    requires ValidImage(img) && at + |DirReadBytes(img, position)| <= mem.Length
    modifies mem
    ensures (ret, position') == (|DirReadSpec(img, position).0|, DirReadSpec(img, position).1)
    ensures mem[..] == Stored(old(mem[..]), at, DirReadBytes(img, position))
  {
    if position >= |img.dentries| { return 0, 0; }
    ghost var was, name := mem[..], CStr(img.dentries[position].fileName);
    CStrings.Strcpy(mem, at, img.dentries[position].fileName);
    var written := mem[..];
    StoredString(was, at, name, written);
    var bytesCopied := CStrings.Strlen(written[at..]);
    return bytesCopied, position + 1;
  }

  function DirReadBytes(img: Image, position: nat): seq<Byte>
    requires ValidImage(img)
  {
    if position >= |img.dentries| then [] else CStr(img.dentries[position].fileName) + [NUL]
  }

  function DirReadSpec(img: Image, position: nat): (seq<Byte>, nat)
    requires ValidImage(img)
  {
    if position >= |img.dentries| then ([], 0)
    else (CStr(img.dentries[position].fileName), position + 1)
  }

  function List(img: Image, position: nat, count: nat): (seq<seq<Byte>>, nat)
    requires ValidImage(img)
    decreases count
  {
    if count == 0 then ([], position)
    else
      var (name, p) := DirReadSpec(img, position);
      var (names, q) := List(img, p, count - 1);
      ([name] + names, q)
  }

  /** One read more than there are entries lists every name in order, then gives the empty result,
      and leaves the directory where it began. */
  lemma {:induction false} ListIsComplete(img: Image, position: nat)
    requires ValidImage(img) && position <= |img.dentries|
    ensures var (names, p) := List(img, position, |img.dentries| - position + 1);
            && p == 0
            && |names| == |img.dentries| - position + 1
            && names[|names| - 1] == []
            && forall k :: position <= k < |img.dentries| ==> names[k - position] == CStr(img.dentries[k].fileName)
    decreases |img.dentries| - position
  {
    if position < |img.dentries| {
      ListIsComplete(img, position + 1);
    }
  }
}
