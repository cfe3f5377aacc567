/** The bit mask of taken process slots: bit 0x80 >> i belongs to slot i. */
module SlotMask {
  const PROGRAM_LOCATION_MASK: bv8 := 0x80
  const MAX_PROG_NUM := 7

  function SlotBit(i: nat): bv8
    requires i <= MAX_PROG_NUM
  {
    if i == 0 then 0x80 else if i == 1 then 0x40 else if i == 2 then 0x20 else if i == 3 then 0x10
    else if i == 4 then 0x08 else if i == 5 then 0x04 else if i == 6 then 0x02 else 0x01
  }

  lemma SlotBitIs(i: nat)
    requires i <= MAX_PROG_NUM
    ensures SlotBit(i) == PROGRAM_LOCATION_MASK >> i
  {
  }

  predicate Taken(mask: bv8, i: nat)
    requires i < MAX_PROG_NUM
  {
    SlotBit(i) & mask != 0
  }

  /** The slots whose bit is set. */
  ghost function Live(mask: bv8): set<nat> {
    set i: nat | i < MAX_PROG_NUM && Taken(mask, i)
  }

  lemma SetBit(mask: bv8, i: nat, j: nat)
    requires i < MAX_PROG_NUM && j < MAX_PROG_NUM
    ensures Taken(mask | SlotBit(i), j) <==> j == i || Taken(mask, j)
  {
  }

  lemma FlipBit(mask: bv8, i: nat, j: nat)
    requires i < MAX_PROG_NUM && j < MAX_PROG_NUM && i != j
    ensures Taken(mask ^ SlotBit(i), j) <==> Taken(mask, j)
  {
  }

  lemma FlipOwnBit(mask: bv8, i: nat)
    requires i < MAX_PROG_NUM
    ensures Taken(mask ^ SlotBit(i), i) <==> !Taken(mask, i)
  {
  }

  /** The slot search of execute: the bit moves right until it meets a clear one. */
  method FindClear(mask: bv8) returns (i: nat, bit: bv8)
    ensures i <= MAX_PROG_NUM && bit == SlotBit(i)
    ensures forall j :: 0 <= j < i ==> j in Live(mask)
    ensures i < MAX_PROG_NUM ==> i !in Live(mask)
  {
    bit := PROGRAM_LOCATION_MASK;
    i := 0;
    ghost var live := Live(mask);
    while i < MAX_PROG_NUM
      invariant 0 <= i <= MAX_PROG_NUM
      invariant bit == SlotBit(i)
      invariant forall j :: 0 <= j < i ==> j in live
    {
      BitIsSlot(mask, i, live);
      if bit & mask == 0 { return; }
      bit := bit >> 1;
      i := i + 1;
    }
  }

  /** A slot is taken: the lowest free one. */
  method TakeSlot(mask: bv8) returns (i: nat, mask': bv8)
    ensures i <= MAX_PROG_NUM
    ensures forall j :: 0 <= j < i ==> j in Live(mask)
    ensures i == MAX_PROG_NUM ==> mask' == mask
    ensures i < MAX_PROG_NUM ==> i !in Live(mask) && Live(mask') == Live(mask) + {i}
  {
    var bit: bv8;
    i, bit := FindClear(mask);
    mask' := mask;
    if i < MAX_PROG_NUM {
      mask' := mask | bit;
      TakenSlotIsLive(mask, i);
    }
  }

  /** What one round of the search needs to know of the bit it looks at. */
  lemma BitIsSlot(mask: bv8, i: nat, live: set<nat>)
    requires i < MAX_PROG_NUM && live == Live(mask)
    ensures SlotBit(i) & mask == 0 <==> i !in live
    ensures SlotBit(i) >> 1 == SlotBit(i + 1)
  {
  }

  lemma TakenSlotIsLive(mask: bv8, i: nat)
    requires i < MAX_PROG_NUM
    ensures Live(mask | SlotBit(i)) == Live(mask) + {i}
  {
    forall j: nat | j < MAX_PROG_NUM ensures Taken(mask | SlotBit(i), j) <==> j == i || Taken(mask, j) {
      SetBit(mask, i, j);
    }
  }

  /** The exclusive or of halt frees a slot exactly when the slot was taken; a free one it would take. */
  method FlipSlot(mask: bv8, i: nat) returns (mask': bv8)
    requires i < MAX_PROG_NUM
    ensures Live(mask') == if i in Live(mask) then Live(mask) - {i} else Live(mask) + {i}
  {
    mask' := mask ^ (PROGRAM_LOCATION_MASK >> i);
    SlotBitIs(i);
    FlippedSlot(mask, i);
  }

  lemma FlippedSlot(mask: bv8, i: nat)
    requires i < MAX_PROG_NUM
    ensures Live(mask ^ SlotBit(i)) == if i in Live(mask) then Live(mask) - {i} else Live(mask) + {i}
  {
    forall j: nat | j < MAX_PROG_NUM
      ensures Taken(mask ^ SlotBit(i), j) <==> if j == i then !Taken(mask, i) else Taken(mask, j)
    {
      if j == i { FlipOwnBit(mask, i); } else { FlipBit(mask, i, j); }
    }
  }
}
