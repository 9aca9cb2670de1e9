/** Direct, unshared use of the bucket headers: marking one slot, and scanning a bucket for its live slots. */
module HeaderScan {
  import opened SlotHeader

  lemma MarksOnSharedLane(lane: bv32, mask: bv32)
    requires mask != 0
    ensures IsSet(Or(lane, mask), mask) && !IsSet(AndNot(lane, mask), mask)
  {
  }

  lemma AndNotElsewhere(lane: bv32, mask: bv32, x: bv32)
    requires Apart(mask, x)
    ensures And(AndNot(lane, mask), x) == And(lane, x)
  {
  }

  lemma MarksElsewhere(lane: bv32, mask: bv32, x: bv32)
    requires Apart(mask, x)
    ensures IsSet(Or(lane, mask), x) == IsSet(lane, x) && IsSet(AndNot(lane, mask), x) == IsSet(lane, x)
  {
    OrElsewhere(lane, mask, x);
    AndNotElsewhere(lane, mask, x);
    SameWhenMasked(AndNot(lane, mask), lane, x);
  }

  lemma SameWhenMasked(lane: bv32, other: bv32, x: bv32)
    requires And(lane, x) == And(other, x)
    ensures IsSet(lane, x) == IsSet(other, x)
  {
  }

  /** Marking a slot in place changes that slot alone. */
  lemma DirectMarkIsLocal(head: Head, slot: nat, other: nat)
    ensures StateOf(MarkPopulated(head, slot), slot) == Populated && StateOf(MarkDeleted(head, slot), slot) == Deleted
    ensures slot % BUCKET_SLOTS != other % BUCKET_SLOTS ==>
              StateOf(MarkPopulated(head, slot), other) == StateOf(head, other)
              && StateOf(MarkDeleted(head, slot), other) == StateOf(head, other)
  {
    BitIsSet(slot % BUCKET_SLOTS);
    MarksOnSharedLane(head.populations, Mask(slot));
    MarksOnSharedLane(head.deletions, Mask(slot));
    if slot % BUCKET_SLOTS != other % BUCKET_SLOTS {
      BitsDisjoint(slot % BUCKET_SLOTS, other % BUCKET_SLOTS);
      MarksElsewhere(head.populations, Mask(slot), Mask(other));
      MarksElsewhere(head.deletions, Mask(slot), Mask(other));
    }
  }

  // ---- Clearing the lowest set bit ----------------------------------------------------------------

  function Below(mask: bv32): bv32 {
    mask - 1
  }

  function DropLowest(word: bv32): bv32 {
    word & (word - 1)
  }

  predicate IsZero(word: bv32) {
    word == 0
  }

  lemma DoubledMask(x: bv32)
    requires x != 0 && Apart(x, 0x8000_0000) && Apart(x, Below(x))
    ensures Below(x << 1) == Or(x, Below(x)) && Apart(x << 1, Below(x << 1))
  {
  }

  lemma {:induction false} LowerBits(b: nat)
    requires b < 31
    ensures Below(Bit(b + 1)) == Or(Bit(b), Below(Bit(b))) && Apart(Bit(b), Below(Bit(b)))
    ensures Apart(Bit(b + 1), Below(Bit(b + 1)))
  {
    if b > 0 {
      LowerBits(b - 1);
    }
    BitIsSet(b);
    TopBit();
    BitsDisjoint(b, 31);
    DoubledMask(Bit(b));
  }

  lemma ClearOfBoth(word: bv32, x: bv32, y: bv32)
    requires Apart(word, x) && Apart(word, y)
    ensures Apart(word, Or(x, y))
  {
  }

  lemma NothingBelowOne(word: bv32)
    ensures Apart(word, Below(1))
  {
  }

  /** A word with none of its bits below `b` set is clear of everything below that bit. */
  lemma {:induction false} ClearBelow(word: bv32, b: nat)
    requires b < 32 && forall c: nat :: c < b ==> !IsSet(word, Bit(c))
    ensures Apart(word, Below(Bit(b)))
  {
    if b == 0 {
      NothingBelowOne(word);
    } else {
      ClearBelow(word, b - 1);
      LowerBits(b - 1);
      NotSetIsApart(word, Bit(b - 1));
      ClearOfBoth(word, Bit(b - 1), Below(Bit(b - 1)));
    }
  }

  lemma NotSetIsApart(word: bv32, mask: bv32)
    ensures IsSet(word, mask) <==> !Apart(word, mask)
  {
  }

  lemma OnlyTopLeft(word: bv32)
    requires Apart(word, Below(0x8000_0000)) && !IsSet(word, 0x8000_0000)
    ensures IsZero(word)
  {
  }

  lemma SomeBitIsSet(word: bv32)
    requires !IsZero(word)
    ensures exists b: nat :: b < 32 && IsSet(word, Bit(b))
  {
    if forall b: nat :: b < 32 ==> !IsSet(word, Bit(b)) {
      ClearBelow(word, 31);
      TopBit();
      OnlyTopLeft(word);
    }
  }

  lemma DroppingIsClearing(word: bv32, x: bv32)
    requires Apart(word, Below(x)) && And(word, x) == x && x != 0
    ensures DropLowest(word) == AndNot(word, x)
  {
  }

  ghost predicate IsLowest(word: bv32, b: nat) {
    b < 32 && IsSet(word, Bit(b)) && forall c: nat :: c < b ==> !IsSet(word, Bit(c))
  }

  function LowestFrom(word: bv32, b: nat): (r: nat)
    requires b < 32 && (exists c: nat :: b <= c < 32 && IsSet(word, Bit(c)))
    requires forall c: nat :: c < b ==> !IsSet(word, Bit(c))
    ensures IsLowest(word, r)
    decreases 32 - b
  {
    if IsSet(word, Bit(b)) then b else LowestFrom(word, b + 1)
  }

  /** `countr_zero`: the position of the lowest set bit. */
  function CountrZero(word: bv32): (r: nat)
    requires !IsZero(word)
    ensures IsLowest(word, r)
  {
    SomeBitIsSet(word);
    LowestFrom(word, 0)
  }

  lemma DropLowestDrops(word: bv32, b: nat)
    requires IsLowest(word, b)
    ensures forall c: nat :: c < 32 ==> (IsSet(DropLowest(word), Bit(c)) <==> c != b && IsSet(word, Bit(c)))
  {
    ClearBelow(word, b);
    SetInFull(word, b);
    BitIsSet(b);
    DroppingIsClearing(word, Bit(b));
    forall c: nat | c < 32
      ensures IsSet(AndNot(word, Bit(b)), Bit(c)) <==> c != b && IsSet(word, Bit(c))
    {
      if c == b {
        MarksOnSharedLane(word, Bit(b));
      } else {
        BitsDisjoint(b, c);
        MarksElsewhere(word, Bit(b), Bit(c));
      }
    }
  }

  // ---- Scanning a bucket --------------------------------------------------------------------------

  /** The live slots among the first `b` of a bucket, in order. */
  function LiveSlots(head: Head, start: nat, b: nat): seq<nat>
    requires b <= BUCKET_SLOTS
  {
    if b == 0 then []
    else LiveSlots(head, start, b - 1) + if StateOf(head, b - 1) == Populated then [start + b - 1] else []
  }

  lemma {:induction false} NoneLiveBetween(head: Head, start: nat, b: nat, c: nat)
    requires b <= c <= BUCKET_SLOTS && forall d: nat :: b <= d < c ==> StateOf(head, d) != Populated
    ensures LiveSlots(head, start, c) == LiveSlots(head, start, b)
    decreases c
  {
    if b < c {
      NoneLiveBetween(head, start, b, c - 1);
    }
  }

  lemma {:induction false} LiveSlotsGrow(head: Head, start: nat, b: nat, c: nat)
    requires b <= c <= BUCKET_SLOTS
    ensures LiveSlots(head, start, b) <= LiveSlots(head, start, c)
    decreases c
  {
    if b < c {
      LiveSlotsGrow(head, start, b, c - 1);
    }
  }

  lemma LiveLane(head: Head, b: nat)
    requires b < 32
    ensures IsSet(AndNot(head.populations, head.deletions), Bit(b)) <==> StateOf(head, b) == Populated
  {
    LaneDifference(head.populations, head.deletions, b);
    assert Mask(b) == Bit(b);
  }

  lemma LaneDifference(p: bv32, d: bv32, b: nat)
    requires b < 32
    ensures IsSet(AndNot(p, d), Bit(b)) <==> IsSet(p, Bit(b)) && !IsSet(d, Bit(b))
  {
    SetInFull(d, b);
    if IsSet(d, Bit(b)) {
      CoveredIsGone(p, d, Bit(b));
    } else {
      NotSetIsApart(d, Bit(b));
      UncoveredStays(p, d, Bit(b));
    }
  }

  lemma CoveredIsGone(p: bv32, d: bv32, x: bv32)
    requires And(d, x) == x
    ensures !IsSet(AndNot(p, d), x)
  {
  }

  lemma UncoveredStays(p: bv32, d: bv32, x: bv32)
    requires Apart(d, x)
    ensures IsSet(AndNot(p, d), x) == IsSet(p, x)
  {
    AndNotElsewhere(p, d, x);
    SameWhenMasked(AndNot(p, d), p, x);
  }

  /** What is left to visit after the first `b` slots: exactly the live ones from there on. */
  ghost predicate Remaining(head: Head, left: bv32, b: nat) {
    forall c: nat :: c < 32 ==> (IsSet(left, Bit(c)) <==> b <= c && StateOf(head, c) == Populated)
  }

  lemma AllRemain(head: Head)
    ensures Remaining(head, AndNot(head.populations, head.deletions), 0)
  {
    forall c: nat | c < 32
      ensures IsSet(AndNot(head.populations, head.deletions), Bit(c)) <==> StateOf(head, c) == Populated
    {
      LiveLane(head, c);
    }
  }

  lemma NoneRemain(head: Head, left: bv32, start: nat, b: nat)
    requires b <= BUCKET_SLOTS && IsZero(left) && Remaining(head, left, b)
    ensures LiveSlots(head, start, BUCKET_SLOTS) == LiveSlots(head, start, b)
  {
    forall c: nat | b <= c < BUCKET_SLOTS
      ensures StateOf(head, c) != Populated
    {
      ZeroHasNoBits(Bit(c));
    }
    NoneLiveBetween(head, start, b, BUCKET_SLOTS);
  }

  lemma NextRemains(head: Head, left: bv32, start: nat, b: nat, index: nat)
    requires b <= BUCKET_SLOTS && Remaining(head, left, b)
    requires IsLowest(left, index)
    ensures LiveSlots(head, start, index + 1) == LiveSlots(head, start, b) + [start + index]
    ensures LiveSlots(head, start, index + 1) <= LiveSlots(head, start, BUCKET_SLOTS)
    ensures b <= index && Remaining(head, DropLowest(left), index + 1)
  {
    forall d: nat | b <= d < index
      ensures StateOf(head, d) != Populated
    {
      assert !IsSet(left, Bit(d));
    }
    NoneLiveBetween(head, start, b, index);
    LiveSlotsGrow(head, start, index + 1, BUCKET_SLOTS);
    DropLowestDrops(left, index);
  }

  lemma ZeroHasNoBits(mask: bv32)
    ensures !IsSet(0, mask)
  {
  }

  /** The walk over one bucket hands out exactly its live slots, in order, until the visitor halts it. */
  method ForEachInBucket(head: Head, bucketStart: nat, patience: nat) returns (visited: seq<nat>, resumed: bool)
    requires patience > 0
    ensures resumed ==> visited == LiveSlots(head, bucketStart, BUCKET_SLOTS) && |visited| < patience
    ensures !resumed ==> |visited| == patience && visited <= LiveSlots(head, bucketStart, BUCKET_SLOTS)
  {
    var left := AndNot(head.populations, head.deletions);
    visited := [];
    ghost var b := 0;
    AllRemain(head);
    while !IsZero(left)
      invariant b <= BUCKET_SLOTS && visited == LiveSlots(head, bucketStart, b) && |visited| < patience
      invariant Remaining(head, left, b)
      decreases BUCKET_SLOTS - b
    {
      var index := CountrZero(left);
      NextRemains(head, left, bucketStart, b, index);
      visited := visited + [bucketStart + index];
      if |visited| == patience {
        return visited, false;
      }
      left := DropLowest(left);
      b := index + 1;
    }
    NoneRemain(head, left, bucketStart, b);
    resumed := true;
  }
}
