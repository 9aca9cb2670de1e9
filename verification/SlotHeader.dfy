/** One bucket's header, two bits a slot, as its two 32-bit lanes, and the per-slot lock that is
    taken with one fetch-or over both lanes and released with one fetch-xor over both lanes. */

module PowersOfTwo {

  function Pow2(exponent: nat): (r: nat)
    ensures r >= 1
  {
    if exponent == 0 then 1 else 2 * Pow2(exponent - 1)
  }

  lemma {:induction false} Pow2Adds(a: nat, b: nat)
    ensures Pow2(a + b) == Pow2(a) * Pow2(b)
  {
    if a > 0 {
      Pow2Adds(a - 1, b);
    }
  }

  lemma {:induction false} Pow2Grows(low: nat, high: nat)
    requires low <= high
    ensures Pow2(low) <= Pow2(high)
    ensures low < high ==> 2 * Pow2(low) <= Pow2(high)
    decreases high
  {
    if low < high {
      Pow2Grows(low, high - 1);
    }
  }
}

module SlotHeader {

  /** The four states, in the order of the two bits `populated * 2 + deleted`. */
  datatype SlotState = Free | Deleted | Populated | Locked

  const BUCKET_SLOTS: nat := 32

  /** The union's two lanes; an atomic on the 64-bit view acts on both at once. */
  datatype Head = Head(populations: bv32, deletions: bv32)

  function Bit(b: nat): bv32
    requires b < 32
  {
    if b == 0 then 1 else Bit(b - 1) << 1
  }

  /** `mask_in_bucket`: the bit a slot owns in each lane. */
  function Mask(slot: nat): bv32 {
    Bit(slot % BUCKET_SLOTS)
  }

  // The lane operations, each over plain words.

  predicate IsSet(lane: bv32, mask: bv32) {
    lane & mask != 0
  }

  predicate Apart(mask: bv32, other: bv32) {
    mask & other == 0
  }

  predicate Within(lane: bv32, mask: bv32) {
    lane & mask == lane
  }

  function Or(lane: bv32, mask: bv32): bv32 {
    lane | mask
  }

  function And(lane: bv32, mask: bv32): bv32 {
    lane & mask
  }

  function AndNot(lane: bv32, mask: bv32): bv32 {
    lane & !mask
  }

  function Xor(lane: bv32, mask: bv32): bv32 {
    lane ^ mask
  }

  function StateOf(head: Head, slot: nat): SlotState {
    if IsSet(head.populations, Mask(slot)) then
      if IsSet(head.deletions, Mask(slot)) then Locked else Populated
    else
      if IsSet(head.deletions, Mask(slot)) then Deleted else Free
  }

  /** Whether a staged header carries nothing outside the slot it was taken for. */
  predicate Confined(head: Head, slot: nat) {
    Within(head.populations, Mask(slot)) && Within(head.deletions, Mask(slot))
  }

  function MarkPopulated(head: Head, slot: nat): Head {
    Head(Or(head.populations, Mask(slot)), AndNot(head.deletions, Mask(slot)))
  }

  function MarkDeleted(head: Head, slot: nat): Head {
    Head(AndNot(head.populations, Mask(slot)), Or(head.deletions, Mask(slot)))
  }

  /** The shared header after the fetch-or of one lock iteration. */
  function FetchOr(head: Head, slot: nat): Head {
    Head(Or(head.populations, Mask(slot)), Or(head.deletions, Mask(slot)))
  }

  /** What that iteration leaves in the slot reference: the two bits the fetch-or observed. */
  function Observed(head: Head, slot: nat): Head {
    Head(And(head.populations, Mask(slot)), And(head.deletions, Mask(slot)))
  }

  /** The shared header after the release: one fetch-xor with "locked" xor "staged". */
  function FetchXor(head: Head, staged: Head, slot: nat): Head {
    Head(Xor(head.populations, Xor(Mask(slot), staged.populations)),
         Xor(head.deletions, Xor(Mask(slot), staged.deletions)))
  }

  // ---- Different slots of a bucket own different bits ---------------------------------------------

  lemma ShiftedApart(x: bv32, y: bv32)
    ensures Apart(x, y) ==> Apart(x << 1, y << 1)
    ensures Apart(x << 1, 1) && Apart(1, x << 1)
  {
  }

  lemma {:induction false} BitsDisjoint(b: nat, c: nat)
    requires b < 32 && c < 32 && b != c
    ensures Apart(Bit(b), Bit(c))
  {
    if b == 0 {
      ShiftedApart(Bit(c - 1), 0);
    } else if c == 0 {
      ShiftedApart(Bit(b - 1), 0);
    } else {
      BitsDisjoint(b - 1, c - 1);
      ShiftedApart(Bit(b - 1), Bit(c - 1));
    }
  }

  predicate SingleOn(word: bv32, mask: bv32) {
    word & mask == 0 || word & mask == mask
  }

  lemma LowestBit(word: bv32)
    ensures SingleOn(word, 1)
  {
  }

  lemma ShiftedBit(word: bv32, x: bv32)
    ensures word & (x << 1) == ((word >> 1) & x) << 1
  {
  }

  lemma {:induction false} OneBitIsAllOrNothing(b: nat, word: bv32)
    requires b < 32
    ensures SingleOn(word, Bit(b))
    decreases b
  {
    if b == 0 {
      LowestBit(word);
    } else {
      OneBitIsAllOrNothing(b - 1, word >> 1);
      ShiftedBit(word, Bit(b - 1));
    }
  }

  lemma NextBit(b: nat, x: bv32)
    requires b + 1 < 32 && Bit(b) == x
    ensures Bit(b + 1) == x << 1
  {
  }

  lemma TopBit()
    ensures Bit(31) == 0x8000_0000
  {
    NextBit(0, 0x1); NextBit(1, 0x2); NextBit(2, 0x4); NextBit(3, 0x8);
    NextBit(4, 0x10); NextBit(5, 0x20); NextBit(6, 0x40); NextBit(7, 0x80);
    NextBit(8, 0x100); NextBit(9, 0x200); NextBit(10, 0x400); NextBit(11, 0x800);
    NextBit(12, 0x1000); NextBit(13, 0x2000); NextBit(14, 0x4000); NextBit(15, 0x8000);
    NextBit(16, 0x10000); NextBit(17, 0x20000); NextBit(18, 0x40000); NextBit(19, 0x80000);
    NextBit(20, 0x100000); NextBit(21, 0x200000); NextBit(22, 0x400000); NextBit(23, 0x800000);
    NextBit(24, 0x1000000); NextBit(25, 0x2000000); NextBit(26, 0x4000000); NextBit(27, 0x8000000);
    NextBit(28, 0x10000000); NextBit(29, 0x20000000); NextBit(30, 0x40000000);
  }

  lemma ShiftKeepsNonZero(x: bv32)
    requires x != 0 && Apart(x, 0x8000_0000)
    ensures x << 1 != 0
  {
  }

  lemma {:induction false} BitIsSet(b: nat)
    requires b < 32
    ensures Bit(b) != 0
  {
    if b > 0 {
      BitIsSet(b - 1);
      BitsDisjoint(b - 1, 31);
      TopBit();
      ShiftKeepsNonZero(Bit(b - 1));
    }
  }

  // ---- One lane, one single-bit mask --------------------------------------------------------------

  lemma OrOnLane(lane: bv32, mask: bv32)
    requires mask != 0
    ensures IsSet(Or(lane, mask), mask)
    ensures And(lane, mask) == mask ==> Or(lane, mask) == lane
  {
  }

  lemma AndOnLane(lane: bv32, mask: bv32)
    ensures IsSet(And(lane, mask), mask) == IsSet(lane, mask)
    ensures Within(And(lane, mask), mask)
  {
  }

  lemma OrElsewhere(lane: bv32, mask: bv32, x: bv32)
    requires Apart(mask, x)
    ensures IsSet(Or(lane, mask), x) == IsSet(lane, x)
  {
  }

  lemma XorOnLane(lane: bv32, mask: bv32, staged: bv32)
    requires And(lane, mask) == mask && Within(staged, mask)
    ensures IsSet(Xor(lane, Xor(mask, staged)), mask) == IsSet(staged, mask)
  {
  }

  lemma XorElsewhere(lane: bv32, mask: bv32, staged: bv32, x: bv32)
    requires Apart(mask, x) && Within(staged, mask)
    ensures IsSet(Xor(lane, Xor(mask, staged)), x) == IsSet(lane, x)
  {
  }

  lemma MarksOnLane(staged: bv32, mask: bv32)
    requires mask != 0 && Within(staged, mask)
    ensures Or(staged, mask) == mask && AndNot(staged, mask) == 0
    ensures IsSet(mask, mask) && Within(mask, mask) && !IsSet(0, mask) && Within(0, mask)
  {
  }

  /** A single bit is either set in full or not at all. */
  lemma SetInFull(lane: bv32, b: nat)
    requires b < 32
    ensures IsSet(lane, Bit(b)) <==> And(lane, Bit(b)) == Bit(b)
  {
    OneBitIsAllOrNothing(b, lane);
    BitIsSet(b);
    AllOrNothing(lane, Bit(b));
  }

  lemma AllOrNothing(lane: bv32, mask: bv32)
    requires mask != 0 && SingleOn(lane, mask)
    ensures IsSet(lane, mask) <==> And(lane, mask) == mask
  {
  }

  // ---- What the two atomics do --------------------------------------------------------------------

  /** Taking a slot: the caller learns its state and the slot reads as locked. A caller that found it
      locked already, which is the caller that spins, has changed nothing. */
  lemma LockTakesSlot(head: Head, slot: nat)
    ensures StateOf(FetchOr(head, slot), slot) == Locked
    ensures StateOf(Observed(head, slot), slot) == StateOf(head, slot)
    ensures Confined(Observed(head, slot), slot)
    ensures Observed(head, slot) == Head(Mask(slot), Mask(slot)) <==> StateOf(head, slot) == Locked
    ensures StateOf(head, slot) == Locked ==> FetchOr(head, slot) == head
  {
    BitIsSet(slot % BUCKET_SLOTS);
    SetInFull(head.populations, slot % BUCKET_SLOTS);
    SetInFull(head.deletions, slot % BUCKET_SLOTS);
    OrOnLane(head.populations, Mask(slot));
    OrOnLane(head.deletions, Mask(slot));
    AndOnLane(head.populations, Mask(slot));
    AndOnLane(head.deletions, Mask(slot));
  }

  /** No other slot of the bucket notices. */
  lemma LockSparesOthers(head: Head, slot: nat, other: nat)
    requires slot % BUCKET_SLOTS != other % BUCKET_SLOTS
    ensures StateOf(FetchOr(head, slot), other) == StateOf(head, other)
  {
    BitsDisjoint(slot % BUCKET_SLOTS, other % BUCKET_SLOTS);
    OrElsewhere(head.populations, Mask(slot), Mask(other));
    OrElsewhere(head.deletions, Mask(slot), Mask(other));
  }

  /** Releasing a slot: its two bits become exactly the staged ones, whatever else has happened to the
      header since it was taken. */
  lemma UnlockPublishesStaged(head: Head, staged: Head, slot: nat)
    requires StateOf(head, slot) == Locked && Confined(staged, slot)
    ensures StateOf(FetchXor(head, staged, slot), slot) == StateOf(staged, slot)
  {
    SetInFull(head.populations, slot % BUCKET_SLOTS);
    SetInFull(head.deletions, slot % BUCKET_SLOTS);
    XorOnLane(head.populations, Mask(slot), staged.populations);
    XorOnLane(head.deletions, Mask(slot), staged.deletions);
  }

  lemma UnlockSparesOthers(head: Head, staged: Head, slot: nat, other: nat)
    requires slot % BUCKET_SLOTS != other % BUCKET_SLOTS && Confined(staged, slot)
    ensures StateOf(FetchXor(head, staged, slot), other) == StateOf(head, other)
  {
    BitsDisjoint(slot % BUCKET_SLOTS, other % BUCKET_SLOTS);
    XorElsewhere(head.populations, Mask(slot), staged.populations, Mask(other));
    XorElsewhere(head.deletions, Mask(slot), staged.deletions, Mask(other));
  }

  /** Marking a staged header moves the slot and stays within it. */
  lemma MarksStage(staged: Head, slot: nat)
    requires Confined(staged, slot)
    ensures StateOf(MarkPopulated(staged, slot), slot) == Populated && Confined(MarkPopulated(staged, slot), slot)
    ensures StateOf(MarkDeleted(staged, slot), slot) == Deleted && Confined(MarkDeleted(staged, slot), slot)
  {
    BitIsSet(slot % BUCKET_SLOTS);
    MarksOnLane(staged.populations, Mask(slot));
    MarksOnLane(staged.deletions, Mask(slot));
  }
}
