/** The text pages in low memory: the visible page at 0xB8000, a character and an attribute byte for each
    cell, and the page behind each terminal that holds its screen while it is not visible. */
module VideoMemory {
  import opened Bytes
  import opened Screen
  import opened MemoryCopy
  import Paging

  const VIDEO: nat := Paging.VIDEO
  const MEMORY: nat := 0x10_0000
  const PAGE: nat := 0x1000
  /** Where the characters and attributes of a page end. */
  const VIDEO_END: nat := VIDEO + 2 * CELLS

  const RED: Byte := 0x04
  const GREEN: Byte := 0x0A
  const YELLOW: Byte := 0x0E

  function ColorOf(t: nat): Byte {
    if t == 0 then RED else if t == 1 then GREEN else YELLOW
  }

  /** term_vid_mem. */
  function BackingPage(t: nat): nat {
    if t == 0 then Paging.VIDEO_PHYS_ADDR0 else if t == 1 then Paging.VIDEO_PHYS_ADDR1 else Paging.VIDEO_PHYS_ADDR2
  }

  /** The page holds these characters. */
  ghost predicate ShowsPage(m: seq<Byte>, base: nat, cells: seq<Byte>)
    requires base + PAGE <= |m|
  {
    && |cells| == CELLS
    && forall k {:trigger cells[k]} :: 0 <= k < CELLS ==> m[base + 2 * k] == cells[k]
  }

  /** The characters a page holds. */
  ghost function CellsAt(m: seq<Byte>, base: nat): (cells: seq<Byte>)
    requires base + PAGE <= |m|
    ensures ShowsPage(m, base, cells)
  {
    seq(CELLS, k requires 0 <= k < CELLS => m[base + 2 * k])
  }

  /** Every visible attribute byte is this colour. */
  ghost predicate Coloured(m: seq<Byte>, color: Byte)
    requires |m| == MEMORY
  {
    forall a {:trigger m[a]} :: VIDEO <= a < VIDEO_END && a % 2 == 1 ==> m[a] == color
  }

  /** Only bytes from lo to hi may have changed. */
  ghost predicate SameOutside(now: seq<Byte>, was: seq<Byte>, lo: nat, hi: nat) {
    && |now| == |was|
    && forall a {:trigger now[a]} :: 0 <= a < |now| && !(lo <= a < hi) ==> now[a] == was[a]
  }

  /** A page elsewhere keeps its characters. */
  lemma PageStays(now: seq<Byte>, was: seq<Byte>, lo: nat, hi: nat, base: nat, cells: seq<Byte>)
    requires SameOutside(now, was, lo, hi) && base + PAGE <= |was| && (base + PAGE <= lo || hi <= base)
    requires ShowsPage(was, base, cells)
    ensures ShowsPage(now, base, cells)
  {
  }

  /** One cell of the visible page. */
  method WriteCell(mem: array<Byte>, p: nat, c: Byte, color: Byte, ghost cells: seq<Byte>)
    requires mem.Length == MEMORY && p < CELLS
    requires ShowsPage(mem[..], VIDEO, cells) && Coloured(mem[..], color)
    modifies mem
    ensures ShowsPage(mem[..], VIDEO, cells[p := c]) && Coloured(mem[..], color)
    ensures SameOutside(mem[..], old(mem[..]), VIDEO, VIDEO_END)
  {
    mem[VIDEO + 2 * p] := c;
    mem[VIDEO + 2 * p + 1] := color;
  }

  /** The scroll of new_line: rows 0 to 23 take the row below them, row 24 becomes blank. */
  method ScrollUp(mem: array<Byte>, color: Byte, ghost cells: seq<Byte>)
    requires mem.Length == MEMORY && ShowsPage(mem[..], VIDEO, cells) && Coloured(mem[..], color)
    modifies mem
    ensures ShowsPage(mem[..], VIDEO, Scrolled(cells)) && Coloured(mem[..], color)
    ensures SameOutside(mem[..], old(mem[..]), VIDEO, VIDEO_END)
  {
    ghost var was := mem[..];
    ghost var now: seq<Byte> := cells;
    for i := 0 to NUM_ROWS - 1
      invariant ShowsPage(mem[..], VIDEO, now) && Coloured(mem[..], color) && SameOutside(mem[..], was, VIDEO, VIDEO_END)
      invariant MovedUpTo(now, cells, NUM_COLS * i)
    {
      for j := 0 to NUM_COLS
        invariant ShowsPage(mem[..], VIDEO, now) && Coloured(mem[..], color) && SameOutside(mem[..], was, VIDEO, VIDEO_END)
        invariant MovedUpTo(now, cells, NUM_COLS * i + j)
      {
        var p := NUM_COLS * i + j;
        now := MoveCell(mem, p, color, now, cells);
      }
    }
    for j := 0 to NUM_COLS
      invariant ShowsPage(mem[..], VIDEO, now) && Coloured(mem[..], color) && SameOutside(mem[..], was, VIDEO, VIDEO_END)
      invariant MovedUpTo(now, cells, NUM_COLS * (NUM_ROWS - 1) + j)
    {
      var p := NUM_COLS * (NUM_ROWS - 1) + j;
      WriteCell(mem, p, SPACE, color, now);
      now := now[p := SPACE];
    }
    assert now == Scrolled(cells);
  }

  /** The first p cells have scrolled, the others wait. */
  ghost predicate MovedUpTo(now: seq<Byte>, cells: seq<Byte>, p: nat) {
    && |now| == |cells| == CELLS
    && forall k {:trigger now[k]} :: 0 <= k < CELLS ==> now[k] == if k < p then Scrolled(cells)[k] else cells[k]
  }

  method MoveCell(mem: array<Byte>, p: nat, color: Byte, ghost now: seq<Byte>, ghost cells: seq<Byte>)
    returns (ghost now': seq<Byte>)
    requires mem.Length == MEMORY && p + NUM_COLS < CELLS && MovedUpTo(now, cells, p)
    requires ShowsPage(mem[..], VIDEO, now) && Coloured(mem[..], color)
    modifies mem
    ensures MovedUpTo(now', cells, p + 1)
    ensures ShowsPage(mem[..], VIDEO, now') && Coloured(mem[..], color)
    ensures SameOutside(mem[..], old(mem[..]), VIDEO, VIDEO_END)
  {
    var c := mem[VIDEO + 2 * (p + NUM_COLS)];
    assert c == now[p + NUM_COLS];
    WriteCell(mem, p, c, color, now);
    now' := now[p := c];
  }

  /** The loop of clear_screen. It leaves nothing of what the page held. */
  method BlankPage(mem: array<Byte>, color: Byte)
    requires mem.Length == MEMORY
    modifies mem
    ensures ShowsPage(mem[..], VIDEO, Repeat(SPACE, CELLS)) && Coloured(mem[..], color)
    ensures SameOutside(mem[..], old(mem[..]), VIDEO, VIDEO_END)
  {
    ghost var was := mem[..];
    for i := 0 to NUM_ROWS * NUM_COLS
      invariant forall a {:trigger mem[a]} :: VIDEO <= a < VIDEO + 2 * i ==> mem[a] == if a % 2 == 0 then SPACE else color
      invariant SameOutside(mem[..], was, VIDEO, VIDEO_END)
    {
      mem[VIDEO + 2 * i] := SPACE;
      mem[VIDEO + 2 * i + 1] := color;
    }
  }

  /** set_color. */
  method SetColor(mem: array<Byte>, color: Byte, ghost cells: seq<Byte>)
    requires mem.Length == MEMORY && ShowsPage(mem[..], VIDEO, cells)
    modifies mem
    ensures ShowsPage(mem[..], VIDEO, cells) && Coloured(mem[..], color)
    ensures SameOutside(mem[..], old(mem[..]), VIDEO, VIDEO_END)
  {
    ghost var was := mem[..];
    for i := 0 to NUM_ROWS * NUM_COLS
      invariant forall a {:trigger mem[a]} :: VIDEO <= a < VIDEO + 2 * i && a % 2 == 1 ==> mem[a] == color
      invariant ShowsPage(mem[..], VIDEO, cells)
      invariant SameOutside(mem[..], was, VIDEO, VIDEO_END)
    {
      mem[VIDEO + 2 * i + 1] := color;
    }
  }

  /** The page arrives with its characters. */
  lemma PageArrives(now: seq<Byte>, was: seq<Byte>, dest: nat, src: nat, cells: seq<Byte>)
    requires dest + PAGE <= |was| && src + PAGE <= |was| && IsCopy(now, was, dest, src, PAGE) && ShowsPage(was, src, cells)
    ensures ShowsPage(now, dest, cells) && SameOutside(now, was, dest, dest + PAGE)
  {
  }

  /** The two memcpys of update_screen: the visible page goes to the page of the terminal that leaves and
      the page of the terminal that comes becomes visible. */
  method SwapPages(mem: array<Byte>, dest: nat, src: nat, ghost leaving: seq<Byte>, ghost coming: seq<Byte>)
    requires mem.Length == MEMORY && dest < 3 && src < 3
    requires ShowsPage(mem[..], VIDEO, leaving) && (dest != src ==> ShowsPage(mem[..], BackingPage(dest), coming))
    modifies mem
    ensures ShowsPage(mem[..], BackingPage(src), leaving)
    ensures ShowsPage(mem[..], VIDEO, if dest == src then leaving else coming)
    ensures forall t, cells {:trigger ShowsPage(mem[..], BackingPage(t), cells)} ::
              (0 <= t < 3 && t != src && ShowsPage(old(mem[..]), BackingPage(t), cells))
              ==> ShowsPage(mem[..], BackingPage(t), cells)
  {
    var away, back := BackingPage(src), BackingPage(dest);
    ghost var was := mem[..];
    Memcpy(mem, away, VIDEO, PAGE);
    ghost var half := mem[..];
    PageArrives(half, was, away, VIDEO, leaving);
    Memcpy(mem, VIDEO, back, PAGE);
    ghost var now := mem[..];
    if dest != src {
      PageStays(half, was, away, away + PAGE, back, coming);
    }
    PageArrives(now, half, VIDEO, back, if dest == src then leaving else coming);
    PageStays(now, half, VIDEO, VIDEO + PAGE, away, leaving);
    forall t, cells {:trigger ShowsPage(now, BackingPage(t), cells)} | 0 <= t < 3 && t != src && ShowsPage(was, BackingPage(t), cells)
      ensures ShowsPage(now, BackingPage(t), cells)
    {
      PageStays(half, was, away, away + PAGE, BackingPage(t), cells);
      PageStays(now, half, VIDEO, VIDEO + PAGE, BackingPage(t), cells);
    }
  }
}
