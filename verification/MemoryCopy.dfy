/** memcpy and memmove of lib/lib.c over one flat memory, where the two regions may overlap. */
module MemoryCopy {
  import opened Bytes

  /** The destination holds the source as it was before, and every other byte is as it was. */
  ghost predicate IsCopy(now: seq<Byte>, was: seq<Byte>, dest: nat, src: nat, n: nat)
    requires dest + n <= |was| && src + n <= |was|
  {
    && |now| == |was|
    && forall i {:trigger now[i]} :: 0 <= i < |now| ==> now[i] == if dest <= i < dest + n then was[i - dest + src] else was[i]
  }

  /** Copying upwards can stop anywhere and go on. */
  lemma CopiedInTwo(m: seq<Byte>, m1: seq<Byte>, m2: seq<Byte>, dest: nat, src: nat, k: nat, edi: nat, esi: nat, n: nat)
    requires edi == dest + k && esi == src + k && edi + n <= |m| && esi + n <= |m|
    requires dest <= src || esi + n <= dest
    requires IsCopy(m1, m, dest, src, k) && IsCopy(m2, m1, edi, esi, n)
    ensures IsCopy(m2, m, dest, src, k + n)
  {
  }

  /** A copy is determined: it puts the source's bytes at the destination. */
  lemma CopyIsStored(now: seq<Byte>, was: seq<Byte>, dest: nat, src: nat, n: nat)
    requires dest + n <= |was| && src + n <= |was|
    ensures IsCopy(now, was, dest, src, n) <==> now == Stored(was, dest, was[src..src + n])
  {
    if IsCopy(now, was, dest, src, n) {
      assert now == Stored(was, dest, was[src..src + n]);
    }
  }

  /** rep movsl with the direction flag clear. */
  method MoveDwords(mem: array<Byte>, dest: nat, src: nat, count: nat)
    requires dest + 4 * count <= mem.Length && src + 4 * count <= mem.Length
    requires dest <= src || src + 4 * count <= dest
    modifies mem
    ensures IsCopy(mem[..], old(mem[..]), dest, src, 4 * count)
  {
    ghost var was := mem[..];
    for j := 0 to count
      invariant forall i {:trigger mem[i]} :: dest <= i < dest + 4 * j ==> mem[i] == was[i - dest + src]
      invariant forall i {:trigger mem[i]} :: 0 <= i < mem.Length && !(dest <= i < dest + 4 * j) ==> mem[i] == was[i]
    {
      var edi, esi := dest + 4 * j, src + 4 * j;
      mem[edi], mem[edi + 1], mem[edi + 2], mem[edi + 3] := mem[esi], mem[esi + 1], mem[esi + 2], mem[esi + 3];
    }
  }

  /** Single bytes while the count lasts: the last phase of memcpy, and rep movsb. */
  method MoveBytes(mem: array<Byte>, dest: nat, src: nat, n: nat)
    requires dest + n <= mem.Length && src + n <= mem.Length
    requires dest <= src || src + n <= dest
    modifies mem
    ensures IsCopy(mem[..], old(mem[..]), dest, src, n)
  {
    ghost var was := mem[..];
    for k := 0 to n
      invariant forall i {:trigger mem[i]} :: dest <= i < dest + k ==> mem[i] == was[i - dest + src]
      invariant forall i {:trigger mem[i]} :: 0 <= i < mem.Length && !(dest <= i < dest + k) ==> mem[i] == was[i]
    {
      mem[dest + k] := mem[src + k];
    }
  }

  /** The first phase: single bytes until the destination is aligned or nothing is left. */
  method AlignDestination(mem: array<Byte>, dest: nat, src: nat, n: nat) returns (k: nat)
    requires dest + n <= mem.Length && src + n <= mem.Length
    requires dest <= src || src + n <= dest
    modifies mem
    ensures k <= n && (k == n || (dest + k) % 4 == 0)
    ensures IsCopy(mem[..], old(mem[..]), dest, src, k)
  {
    ghost var was := mem[..];
    k := 0;
    while k < n && (dest + k) % 4 != 0
      invariant k <= n
      invariant forall i {:trigger mem[i]} :: dest <= i < dest + k ==> mem[i] == was[i - dest + src]
      invariant forall i {:trigger mem[i]} :: 0 <= i < mem.Length && !(dest <= i < dest + k) ==> mem[i] == was[i]
    {
      mem[dest + k] := mem[src + k];
      k := k + 1;
    }
  }

  /** memcpy: single bytes up to an aligned destination, then dwords, then the rest. It copies exactly
      n bytes for every alignment, also between regions that overlap with the destination below. */
  method Memcpy(mem: array<Byte>, dest: nat, src: nat, n: nat)
    requires dest + n <= mem.Length && src + n <= mem.Length
    requires dest <= src || src + n <= dest
    modifies mem
    ensures IsCopy(mem[..], old(mem[..]), dest, src, n)
  {
    ghost var was := mem[..];
    var k := AlignDestination(mem, dest, src, n);
    ghost var head := mem[..];
    var edi, esi, ecx, edx := dest + k, src + k, (n - k) / 4, (n - k) % 4;
    MoveDwords(mem, edi, esi, ecx);
    CopiedInTwo(was, head, mem[..], dest, src, k, edi, esi, 4 * ecx);
    ghost var body := mem[..];
    edi, esi := edi + 4 * ecx, esi + 4 * ecx;
    MoveBytes(mem, edi, esi, edx);
    CopiedInTwo(was, body, mem[..], dest, src, k + 4 * ecx, edi, esi, edx);
  }

  /** memmove: upwards when the source is not below the destination, downwards otherwise. The
      destination ends up with the original source for every length and overlap. */
  method Memmove(mem: array<Byte>, dest: nat, src: nat, n: nat)
    requires dest + n <= mem.Length && src + n <= mem.Length
    modifies mem
    ensures IsCopy(mem[..], old(mem[..]), dest, src, n)
  {
    ghost var was := mem[..];
    if src >= dest {
      MoveBytes(mem, dest, src, n);
    } else {
      for k := n downto 0
        invariant forall i {:trigger mem[i]} :: dest + k <= i < dest + n ==> mem[i] == was[i - dest + src]
        invariant forall i {:trigger mem[i]} :: 0 <= i < mem.Length && !(dest + k <= i < dest + n) ==> mem[i] == was[i]
      {
        mem[dest + k] := mem[src + k];
      }
    }
  }
}
