/** Page directory and page table of mm/paging.c, and the addresses they map. */
module Paging {
  import opened Bytes

  const ENTRIES := 1024
  const PAGE_SIZE := 0x1000
  const PAGE_SIZE_LARGE := 0x40_0000
  const KERNEL_PHYS_ADDR := 0x40_0000
  const KERNEL_END_ADDR := 0x80_0000
  const PROCESS_START_ADDR := 0x0804_8000
  const VIDEO := 0xB_8000
  const VIDEO_PHYS_ADDR0 := 0xB_C000
  const VIDEO_PHYS_ADDR1 := 0xD_C000
  const VIDEO_PHYS_ADDR2 := 0xE_C000
  const TWO32 := 0x1_0000_0000

  /** The page directory entry of the process page, and the virtual range it covers. */
  const PROCESS_PDE := PROCESS_START_ADDR / PAGE_SIZE_LARGE
  const PROCESS_PAGE := PROCESS_PDE * PAGE_SIZE_LARGE

  /** The fields of an entry that the kernel gives a value other than 0. */
  datatype Pte = Pte(base: nat, present: bool, readWrite: bool, userSuper: bool)
  datatype Pde = Pde(base: nat, present: bool, readWrite: bool, userSuper: bool, pageSize: bool)

  /** Two-level translation with 4 MB pages: section 4.3 of the Intel SDM, Volume 3A. An absent page
      table is one this kernel never points to. */
  function Walk(pd: seq<Pde>, pt: seq<Pte>, ptFrame: nat, v: nat, user: bool): Option<nat>
    requires |pd| == |pt| == ENTRIES && v < TWO32
  {
    var pde := pd[v / PAGE_SIZE_LARGE];
    if !pde.present || (user && !pde.userSuper) then None
    else if pde.pageSize then Some(pde.base / ENTRIES * PAGE_SIZE_LARGE + v % PAGE_SIZE_LARGE)
    else if pde.base != ptFrame then None
    else
      var pte := pt[v / PAGE_SIZE % ENTRIES];
      if !pte.present || (user && !pte.userSuper) then None
      else Some(pte.base * PAGE_SIZE + v % PAGE_SIZE)
  }

  predicate IsVideoPage(v: nat) {
    v / PAGE_SIZE * PAGE_SIZE in {VIDEO, VIDEO_PHYS_ADDR0, VIDEO_PHYS_ADDR1, VIDEO_PHYS_ADDR2}
  }

  /** The 4 MB frame of a process slot. */
  function FrameOf(slot: nat): nat {
    KERNEL_END_ADDR + slot * PAGE_SIZE_LARGE
  }

  function BaseOf(slot: nat): nat {
    FrameOf(slot) / PAGE_SIZE
  }

  /** The whole address space in one line: the video pages and, for the kernel, 4 MB to 8 MB map to
      themselves; 128 MB to 132 MB is the frame of the current process; nothing else is mapped. */
  function AddressSpace(current: Option<nat>, v: nat, user: bool): Option<nat> {
    if IsVideoPage(v) then Some(v)
    else if KERNEL_PHYS_ADDR <= v < KERNEL_END_ADDR && !user then Some(v)
    else if PROCESS_PAGE <= v < PROCESS_PAGE + PAGE_SIZE_LARGE && current.Some?
    then Some(FrameOf(current.value) + (v - PROCESS_PAGE))
    else None
  }

  class PageTables {
    const pageDirectory: array<Pde>
    const pageTable1: array<Pte>
    /** The physical frame of pageTable1. */
    const ptFrame: nat

    /** What init_paging leaves, with the process entry for the slot that is current, if any. */
    ghost predicate Maps(current: Option<nat>)
      reads pageDirectory, pageTable1
    {
      && pageDirectory.Length == ENTRIES && pageTable1.Length == ENTRIES
      && (forall i :: 0 <= i < ENTRIES ==>
            && pageTable1[i].base == i
            && pageTable1[i].present == IsVideoPage(i * PAGE_SIZE)
            && (pageTable1[i].present ==> pageTable1[i].userSuper))
      && pageDirectory[0] == Pde(ptFrame, true, true, true, false)
      && pageDirectory[1] == Pde(KERNEL_PHYS_ADDR / PAGE_SIZE, true, true, false, true)
      && (current.Some? ==> pageDirectory[PROCESS_PDE] == Pde(BaseOf(current.value), true, true, true, true))
      && forall i :: 2 <= i < ENTRIES && (i == PROCESS_PDE ==> current.None?) ==> !pageDirectory[i].present
    }

    ghost function Translate(v: nat, user: bool): Option<nat>
      requires pageDirectory.Length == pageTable1.Length == ENTRIES && v < TWO32
      reads pageDirectory, pageTable1
    {
      Walk(pageDirectory[..], pageTable1[..], ptFrame, v, user)
    }

    /** The arrays before init_paging, with any contents. */
    constructor (ptFrame: nat, someEntry: Pde, someTableEntry: Pte)
      ensures pageDirectory.Length == pageTable1.Length == ENTRIES
      ensures fresh(pageDirectory) && fresh(pageTable1) && this.ptFrame == ptFrame
    {
      this.ptFrame := ptFrame;
      pageDirectory := new Pde[ENTRIES](_ => someEntry);
      pageTable1 := new Pte[ENTRIES](_ => someTableEntry);
    }

    method InitPaging()
      requires pageDirectory.Length == pageTable1.Length == ENTRIES
      modifies pageDirectory, pageTable1
      ensures Maps(None)
    {
      for i := 0 to ENTRIES
        modifies pageTable1
        invariant forall k :: 0 <= k < i ==> pageTable1[k] == Pte(k, false, false, false)
      {
        pageTable1[i] := Pte(i, false, false, false);
      }
      EnablePage(VIDEO);
      EnablePage(VIDEO_PHYS_ADDR0);
      EnablePage(VIDEO_PHYS_ADDR1);
      EnablePage(VIDEO_PHYS_ADDR2);
      forall i | 0 <= i < ENTRIES
        ensures IsVideoPage(i * PAGE_SIZE) == (i in {0xB8, 0xBC, 0xDC, 0xEC})
      {
        assert i * PAGE_SIZE / PAGE_SIZE == i;
      }

      for i := 0 to ENTRIES
        modifies pageDirectory
        invariant forall k :: 0 <= k < i ==> pageDirectory[k] == Pde(0, false, true, true, false)
      {
        pageDirectory[i] := Pde(0, false, true, true, false);
      }
      pageDirectory[0] := pageDirectory[0].(base := ptFrame, present := true, readWrite := true);
      pageDirectory[1] := pageDirectory[1].(userSuper := true);
      pageDirectory[0] := pageDirectory[0].(pageSize := false);

      pageDirectory[1] := pageDirectory[1].(base := KERNEL_PHYS_ADDR / PAGE_SIZE, pageSize := true);
      pageDirectory[1] := pageDirectory[1].(present := true, readWrite := true, userSuper := false);
    }

    method EnablePage(address: nat)
      requires pageTable1.Length == ENTRIES && address / PAGE_SIZE < ENTRIES
      modifies pageTable1
      ensures pageTable1[address / PAGE_SIZE] == Pte(old(pageTable1[address / PAGE_SIZE].base), true, true, true)
      ensures forall i :: 0 <= i < ENTRIES && i != address / PAGE_SIZE ==> pageTable1[i] == old(pageTable1[i])
    {
      var i := address / PAGE_SIZE;
      pageTable1[i] := pageTable1[i].(present := true, readWrite := true, userSuper := true);
    }

    method InitNewProcess(processNum: nat, ghost current: Option<nat>) returns (base: nat)
      requires Maps(current)
      modifies pageDirectory
      ensures Maps(Some(processNum)) && base == BaseOf(processNum)
    {
      var address := KERNEL_END_ADDR + processNum * PAGE_SIZE_LARGE;
      var idx := PROCESS_START_ADDR / PAGE_SIZE_LARGE;
      pageDirectory[idx] := Pde(address / PAGE_SIZE, true, true, true, true);
      return pageDirectory[idx].base;
    }

    method SwitchPd(processNum: nat, prevBase: nat, ghost current: Option<nat>)
      requires Maps(current) && prevBase == BaseOf(processNum)
      modifies pageDirectory
      ensures Maps(Some(processNum))
    {
      var idx := PROCESS_START_ADDR / PAGE_SIZE_LARGE;
      pageDirectory[idx] := Pde(prevBase, true, true, true, true);
    }

    /** What the processor does with an address. */
    method Physical(v: nat, user: bool) returns (p: Option<nat>)
      requires pageDirectory.Length == pageTable1.Length == ENTRIES && v < TWO32
      ensures p == Translate(v, user)
    {
      var pde := pageDirectory[v / PAGE_SIZE_LARGE];
      if !pde.present || (user && !pde.userSuper) { return None; }
      if pde.pageSize { return Some(pde.base / ENTRIES * PAGE_SIZE_LARGE + v % PAGE_SIZE_LARGE); }
      if pde.base != ptFrame { return None; }
      var pte := pageTable1[v / PAGE_SIZE % ENTRIES];
      if !pte.present || (user && !pte.userSuper) { return None; }
      return Some(pte.base * PAGE_SIZE + v % PAGE_SIZE);
    }

    /** Every 32-bit address, for the kernel and for user code. */
    lemma TranslationIs(current: Option<nat>, v: nat, user: bool)
      requires Maps(current) && v < TWO32
      ensures Translate(v, user) == AddressSpace(current, v, user)
    {
      BaseIsFrame(if current.Some? then current.value else 0);
      if v < PAGE_SIZE_LARGE {
        assert v / PAGE_SIZE % ENTRIES == v / PAGE_SIZE;
      }
    }
  }

  lemma BaseIsFrame(slot: nat)
    ensures BaseOf(slot) / ENTRIES * PAGE_SIZE_LARGE == FrameOf(slot)
  {
    assert BaseOf(slot) == 0x800 + slot * 0x400;
  }

  /** No two addresses share a byte of memory. */
  lemma AddressSpaceIsInjective(current: Option<nat>, v: nat, w: nat, user: bool)
    requires AddressSpace(current, v, user).Some?
    requires AddressSpace(current, v, user) == AddressSpace(current, w, user)
    ensures v == w
  {
  }

  /** The frames of two slots do not meet, and neither meets the pages that map to themselves. */
  lemma FramesAreDisjoint(a: nat, b: nat, i: nat, j: nat)
    requires a != b && i < PAGE_SIZE_LARGE && j < PAGE_SIZE_LARGE
    ensures FrameOf(a) + i != FrameOf(b) + j
    ensures FrameOf(a) + i >= KERNEL_END_ADDR
  {
  }
}
