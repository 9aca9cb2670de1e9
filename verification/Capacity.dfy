/** The slot-count arithmetic both tables rest on, over 64-bit sizes. */
module BitArithmetic {
  import opened PowersOfTwo

  /** Bitwise conjunction of two unsigned numbers. */
  function BitAnd(x: nat, y: nat): (r: nat)
    ensures r <= x && r <= y
    decreases x
  {
    if x == 0 || y == 0 then 0 else (x % 2) * (y % 2) + 2 * BitAnd(x / 2, y / 2)
  }

  /** The least `e` with `x` below two to the `e`. */
  function BitsToHold(x: nat): nat {
    if x == 0 then 0 else 1 + BitsToHold(x / 2)
  }

  predicate IsPow2(x: nat) {
    x > 0 && (x == 1 || (x % 2 == 0 && IsPow2(x / 2)))
  }

  lemma {:induction false} IsPow2Means(x: nat)
    requires x > 0
    ensures IsPow2(x) <==> x == Pow2(BitsToHold(x) - 1)
    ensures Pow2(BitsToHold(x) - 1) <= x < Pow2(BitsToHold(x))
  {
    if x > 1 {
      IsPow2Means(x / 2);
    }
  }

  lemma {:induction false} Pow2IsPow2(e: nat)
    ensures IsPow2(Pow2(e)) && BitsToHold(Pow2(e)) == e + 1
  {
    if e > 0 {
      Pow2IsPow2(e - 1);
      assert Pow2(e) / 2 == Pow2(e - 1);
    }
  }

  /** Distinct powers of two are at least a factor of two apart. */
  lemma Pow2Gap(a: nat, b: nat)
    requires IsPow2(a) && IsPow2(b) && a < b
    ensures 2 * a <= b
  {
    IsPow2Means(a);
    IsPow2Means(b);
    if BitsToHold(b) <= BitsToHold(a) {
      Pow2Grows(BitsToHold(b) - 1, BitsToHold(a) - 1);
    }
    Pow2Grows(BitsToHold(a) - 1, BitsToHold(b) - 1);
  }

  /** Masking with one less than a power of two is the remainder, so every probe offset is in range. */
  lemma {:induction false} MaskIsRemainder(x: nat, e: nat)
    ensures BitAnd(x, Pow2(e) - 1) == x % Pow2(e)
  {
    if e > 0 {
      if x > 0 {
        MaskIsRemainder(x / 2, e - 1);
      }
      MaskStep(x, Pow2(e - 1));
    }
  }

  lemma MaskStep(x: nat, half: nat)
    requires half > 0 && (x > 0 ==> BitAnd(x / 2, half - 1) == (x / 2) % half)
    ensures BitAnd(x, 2 * half - 1) == x % (2 * half)
  {
    OddMask(x, half);
    RemainderByHalves(x, half);
  }

  lemma OddMask(x: nat, half: nat)
    requires half > 0
    ensures BitAnd(x, 2 * half - 1) == if x == 0 then 0 else x % 2 + 2 * BitAnd(x / 2, half - 1)
  {
    assert (2 * half - 1) % 2 == 1 && (2 * half - 1) / 2 == half - 1;
  }

  lemma RemainderByHalves(x: nat, h: nat)
    requires h > 0
    ensures x % (2 * h) == x % 2 + 2 * ((x / 2) % h)
  {
    var q, r := (x / 2) / h, (x / 2) % h;
    assert x / 2 == h * q + r;
    RemainderIsUnique(x, 2 * h, q, x % 2 + 2 * r);
  }

  lemma Multiples(d: nat, k: int)
    requires d > 0
    ensures k >= 1 ==> d * k >= d
    ensures k <= -1 ==> d * k + d <= 0
  {
  }

  lemma RemainderIsUnique(x: nat, d: nat, q: nat, r: nat)
    requires d > 0 && r < d && x == d * q + r
    ensures x % d == r
  {
    var p, s := x / d, x % d;
    assert x == d * p + s;
    assert d * (p - q) == d * p - d * q;
    Multiples(d, p - q);
  }

  /** `x & (x - 1)` clears the lowest set bit, so it is zero exactly for powers of two. */
  lemma {:induction false} ClearLowestIsZero(x: nat)
    requires x > 0
    ensures BitAnd(x, x - 1) == 0 <==> IsPow2(x)
  {
    if x > 1 {
      ClearLowestIsZero(x / 2);
      if x % 2 == 0 {
        assert (x - 1) / 2 == x / 2 - 1;
      } else {
        assert (x - 1) / 2 == x / 2;
        AndSelf(x / 2);
      }
    }
  }

  lemma {:induction false} AndSelf(x: nat)
    ensures BitAnd(x, x) == x
  {
    if x > 0 {
      AndSelf(x / 2);
    }
  }
}

module Capacity {
  import opened Basics
  import opened PowersOfTwo
  import opened BitArithmetic
  import opened SlotHeader

  const SIZE_BITS: nat := 64
  const SIZE_MODULUS: nat := 0x1_0000_0000_0000_0000
  const UNREPRESENTABLE: nat := SIZE_MODULUS - 1

  function RoundupToPow2(x: nat): nat {
    if x <= 1 then x
    else if BitsToHold(x - 1) >= SIZE_BITS then 0
    else Pow2(BitsToHold(x - 1))
  }

  /** The slots to allocate for a planned number of elements, at the 75% load factor. */
  function SlotsForElements(elements: nat): nat {
    if elements == 0 then 0
    else if elements > UNREPRESENTABLE / 4 then UNREPRESENTABLE
    else
      var rounded := RoundupToPow2((elements * 4) / 3);
      if rounded != 0 then Larger(rounded, BUCKET_SLOTS) else UNREPRESENTABLE
  }

  function SlotsFromSlots(slots: nat): nat {
    if slots == 0 then 0
    else
      var rounded := RoundupToPow2(slots);
      if rounded != 0 then Larger(rounded, BUCKET_SLOTS) else UNREPRESENTABLE
  }

  /** Whether masking a hash can reach every slot. */
  predicate IsAddressable(raw: nat) {
    raw == 0 || (raw >= BUCKET_SLOTS && BitAnd(raw, raw - 1) == 0)
  }

  /** The rehash trigger of a table of `slots` slots, multiplying before it divides in 64 bits. */
  function GrowthThreshold(slots: nat): nat {
    ((slots * 3) % SIZE_MODULUS) / 4
  }

  /** Whether `make` will ask the allocator at all; `bucketBytes` is what one bucket of 32 slots occupies. */
  predicate Allocatable(raw: nat, bucketBytes: nat)
    requires bucketBytes > 0
  {
    IsAddressable(raw) && raw / BUCKET_SLOTS <= UNREPRESENTABLE / bucketBytes && raw / BUCKET_SLOTS * bucketBytes > 0
  }

  lemma Squared(e: nat, value: nat, square: nat)
    requires Pow2(e) == value && value * value == square
    ensures Pow2(e + e) == square
  {
    Pow2Adds(e, e);
  }

  lemma Doubled(e: nat, value: nat)
    requires Pow2(e) == value
    ensures Pow2(e + 1) == 2 * value
    ensures e > 0 && value % 2 == 0 ==> Pow2(e - 1) == value / 2
  {
  }

  lemma TwoTo32()
    ensures Pow2(32) == 0x1_0000_0000
  {
    assert Pow2(4) == 16;
    Squared(4, 16, 256);
    Squared(8, 256, 0x1_0000);
    Squared(16, 0x1_0000, 0x1_0000_0000);
  }

  lemma TwoTo64()
    ensures Pow2(64) == SIZE_MODULUS && Pow2(63) == 0x8000_0000_0000_0000 && Pow2(62) == 0x4000_0000_0000_0000
  {
    TwoTo32();
    Squared(32, 0x1_0000_0000, SIZE_MODULUS);
    Doubled(64, SIZE_MODULUS);
    Doubled(63, 0x8000_0000_0000_0000);
  }

  /** The rounding is to the smallest power of two that is large enough, or zero when 64 bits hold none. */
  lemma RoundupIsLeast(x: nat)
    requires 0 < x < SIZE_MODULUS
    ensures RoundupToPow2(x) == 0 <==> x > Pow2(63)
    ensures RoundupToPow2(x) != 0 ==> IsPow2(RoundupToPow2(x)) && x <= RoundupToPow2(x) <= Pow2(63)
    ensures forall p: nat :: IsPow2(p) && x <= p && RoundupToPow2(x) != 0 ==> RoundupToPow2(x) <= p
  {
    if x > 1 {
      var shift := BitsToHold(x - 1);
      IsPow2Means(x - 1);
      Pow2IsPow2(shift);
      TwoTo64();
      if shift < 64 {
        Pow2Grows(shift, 63);
      } else {
        Pow2Grows(63, shift - 1);
      }
      forall p: nat | IsPow2(p) && x <= p && shift < 64
        ensures Pow2(shift) <= p
      {
        if p < Pow2(shift) {
          Pow2Gap(p, Pow2(shift));
        }
      }
    } else {
      Pow2Grows(0, 63);
    }
  }

  /** The mask test lets through exactly zero and the powers of two from one bucket on. */
  lemma AddressableMeansPow2(raw: nat)
    ensures IsAddressable(raw) <==> raw == 0 || (raw >= BUCKET_SLOTS && IsPow2(raw))
  {
    if raw > 0 {
      ClearLowestIsZero(raw);
    }
  }

  lemma Pow2Divides(raw: nat)
    requires IsPow2(raw) && raw >= 4
    ensures raw % 4 == 0
  {
    assert IsPow2(raw / 2);
  }

  lemma ProductGrows(p: nat, small: nat, large: nat)
    requires small <= large
    ensures small * p <= large * p
  {
    assert large * p - small * p == (large - small) * p;
  }

  lemma QuotientShrinks(x: nat, small: nat, large: nat)
    requires 0 < small <= large
    ensures x / large <= x / small
  {
    var p, q := x / large, x / small;
    assert x == large * p + x % large && x == small * q + x % small;
    ProductGrows(p, small, large);
    assert small * (p - q) == small * p - small * q;
    Multiples(small, p - q);
  }

  lemma FewBucketsFit(raw: nat, bucketBytes: nat)
    requires bucketBytes >= 72 && raw / BUCKET_SLOTS <= UNREPRESENTABLE / bucketBytes
    ensures raw < 0x8000_0000_0000_0000
  {
    QuotientShrinks(UNREPRESENTABLE, 72, bucketBytes);
  }

  lemma BelowTopPower(raw: nat)
    requires IsPow2(raw) && raw < 0x8000_0000_0000_0000
    ensures raw <= Pow2(62) == 0x4000_0000_0000_0000
  {
    TwoTo64();
    Pow2IsPow2(62);
    if raw > Pow2(62) {
      Pow2Gap(Pow2(62), raw);
    }
  }

  lemma ExactThreshold(raw: nat)
    requires IsPow2(raw) && 4 <= raw <= 0x4000_0000_0000_0000
    ensures GrowthThreshold(raw) * 4 == raw * 3
  {
    Pow2Divides(raw);
  }

  /** An addressable count that `make` accepts is far enough below the wrap for its threshold to be exact. */
  lemma AcceptedIsSmall(raw: nat, bucketBytes: nat)
    requires bucketBytes >= 72 && Allocatable(raw, bucketBytes)
    ensures IsPow2(raw) && BUCKET_SLOTS <= raw <= 0x4000_0000_0000_0000
    ensures GrowthThreshold(raw) * 4 == raw * 3
  {
    AddressableMeansPow2(raw);
    FewBucketsFit(raw, bucketBytes);
    BelowTopPower(raw);
    ExactThreshold(raw);
  }

  /** What a request is rounded to. */
  lemma RequestIsRounded(elements: nat)
    requires 0 < elements < SIZE_MODULUS
    ensures var raw := SlotsForElements(elements);
            raw == UNREPRESENTABLE || (IsPow2(raw) && BUCKET_SLOTS <= raw <= 0x8000_0000_0000_0000 && raw >= (elements * 4) / 3)
  {
    assert Pow2(63) == 0x8000_0000_0000_0000 by {
      TwoTo64();
    }
    assert IsPow2(BUCKET_SLOTS) by {
      Pow2IsPow2(5);
    }
    if elements <= UNREPRESENTABLE / 4 {
      RoundupIsLeast((elements * 4) / 3);
    }
  }

  lemma AllOnesIsNoPower()
    ensures !IsPow2(UNREPRESENTABLE)
  {
  }

  /** The most elements a table can be asked for, and the most it can be asked for before its threshold wraps. */
  const MOST_ELEMENTS: nat := 0x3FFF_FFFF_FFFF_FFFF
  const MOST_COVERED: nat := 0x3000_0000_0000_0000

  lemma CoveredRequest(elements: nat)
    requires 0 < elements <= MOST_COVERED
    ensures var raw := SlotsForElements(elements);
            IsPow2(raw) && BUCKET_SLOTS <= raw <= 0x4000_0000_0000_0000 && GrowthThreshold(raw) >= elements
  {
    RoundupIsLeast((elements * 4) / 3);
    RequestIsRounded(elements);
    TwoTo64();
    Pow2IsPow2(62);
    ExactThreshold(SlotsForElements(elements));
  }

  lemma UncoveredRequest(elements: nat)
    requires MOST_COVERED < elements <= MOST_ELEMENTS
    ensures SlotsForElements(elements) == 0x8000_0000_0000_0000 && IsPow2(SlotsForElements(elements))
    ensures GrowthThreshold(SlotsForElements(elements)) < elements
  {
    RoundupIsLeast((elements * 4) / 3);
    RequestIsRounded(elements);
    TwoTo64();
    if SlotsForElements(elements) < 0x8000_0000_0000_0000 {
      BelowTopPower(SlotsForElements(elements));
    }
  }

  /** Any request up to 2^62 - 1 is rounded to an addressable power of two, and a larger one to nothing that is.
      The 75% threshold of that many slots covers the request exactly up to three quarters of 2^62: beyond, the
      multiplication wraps, but such a table is never allocated. */
  lemma ThresholdCoversRequest(elements: nat)
    requires 0 < elements < SIZE_MODULUS
    ensures var raw := SlotsForElements(elements);
            if elements > MOST_ELEMENTS then raw == UNREPRESENTABLE && !IsAddressable(raw)
            else IsAddressable(raw) && raw >= BUCKET_SLOTS && (GrowthThreshold(raw) >= elements <==> elements <= MOST_COVERED)
    ensures SlotsForElements(elements) <= 0x4000_0000_0000_0000 <==> elements <= MOST_COVERED
  {
    AddressableMeansPow2(SlotsForElements(elements));
    if elements <= MOST_COVERED {
      CoveredRequest(elements);
    } else if elements <= MOST_ELEMENTS {
      UncoveredRequest(elements);
    } else {
      AllOnesIsNoPower();
    }
  }

  /** A table that must grow at least doubles. */
  lemma GrowthDoubles(slots: nat, planned: nat)
    requires IsPow2(slots) && BUCKET_SLOTS <= slots <= 0x4000_0000_0000_0000
    requires GrowthThreshold(slots) < planned < SIZE_MODULUS
    ensures SlotsForElements(planned) >= 2 * slots
  {
    ExactThreshold(slots);
    RequestIsRounded(planned);
    if SlotsForElements(planned) != UNREPRESENTABLE {
      assert (planned * 4) / 3 > slots;
      Pow2Gap(slots, SlotsForElements(planned));
    }
  }

  // ---- What the counts are, and which of them can be had ------------------------------------------

  lemma LeastOfBucketAndRounded(n: nat)
    requires 0 < n <= 0x8000_0000_0000_0000
    ensures RoundupToPow2(n) != 0
    ensures var raw := Larger(RoundupToPow2(n), BUCKET_SLOTS);
            && IsPow2(raw) && BUCKET_SLOTS <= raw && n <= raw
            && forall p: nat :: IsPow2(p) && BUCKET_SLOTS <= p && n <= p ==> raw <= p
  {
    assert Pow2(63) == 0x8000_0000_0000_0000 by {
      TwoTo64();
    }
    assert IsPow2(BUCKET_SLOTS) by {
      Pow2IsPow2(5);
    }
    RoundupIsLeast(n);
  }

  lemma NothingBeyondTopPower(n: nat)
    requires 0x8000_0000_0000_0000 < n < SIZE_MODULUS
    ensures RoundupToPow2(n) == 0
  {
    assert Pow2(63) == 0x8000_0000_0000_0000 by {
      TwoTo64();
    }
    RoundupIsLeast(n);
  }

  /** A request for slots gets the least power of two that is a bucket or more and covers it, as long as 64 bits hold
      one. */
  lemma SlotsFromSlotsIsLeast(n: nat)
    requires n < SIZE_MODULUS
    ensures var raw := SlotsFromSlots(n);
            if n == 0 then raw == 0
            else if n <= 0x8000_0000_0000_0000 then
              && IsPow2(raw) && 32 <= raw && n <= raw
              && forall p: nat :: IsPow2(p) && 32 <= p && n <= p ==> raw <= p
            else raw == SIZE_MODULUS - 1
  {
    if 0 < n <= 0x8000_0000_0000_0000 {
      LeastOfBucketAndRounded(n);
    } else if n > 0 {
      NothingBeyondTopPower(n);
    }
  }

  /** A request for elements gets the least power of two that is a bucket or more and covers four thirds of it, as
      long as four times the request does not wrap. */
  lemma SlotsForElementsIsLeast(elements: nat)
    requires elements < SIZE_MODULUS
    ensures var raw := SlotsForElements(elements);
            if elements == 0 then raw == 0
            else if elements <= MOST_ELEMENTS then
              && IsPow2(raw) && 32 <= raw && 4 * elements / 3 <= raw
              && forall p: nat :: IsPow2(p) && 32 <= p && 4 * elements / 3 <= p ==> raw <= p
            else raw == SIZE_MODULUS - 1
  {
    if 0 < elements <= MOST_ELEMENTS {
      LeastOfBucketAndRounded((elements * 4) / 3);
    }
  }

  lemma WithinQuotient(a: nat, limit: nat, b: nat)
    requires b > 0
    ensures a <= limit / b <==> a * b <= limit
  {
    var q := limit / b;
    assert limit == b * q + limit % b;
    if a <= q {
      ProductGrows(b, a, q);
    } else {
      ProductGrows(b, q + 1, a);
      assert (q + 1) * b == b * q + b;
    }
  }

  /** What can be allocated: a power of two of slots, a bucket or more, whose bytes 64 bits can count. */
  lemma AllocatableMeans(raw: nat, bucketBytes: nat)
    requires bucketBytes > 0
    ensures Allocatable(raw, bucketBytes) <==> IsPow2(raw) && 32 <= raw && raw / 32 * bucketBytes < SIZE_MODULUS
  {
    AddressableMeansPow2(raw);
    WithinQuotient(raw / BUCKET_SLOTS, UNREPRESENTABLE, bucketBytes);
    if raw >= 32 {
      ProductGrows(bucketBytes, 1, raw / 32);
    }
  }

  /** Some power of two of slots holds so many elements at the load factor in bytes that 64 bits can count. */
  ghost predicate RoomFor(elements: nat, bucketBytes: nat) {
    exists p: nat :: IsPow2(p) && 32 <= p && 4 * elements / 3 <= p && p / 32 * bucketBytes < SIZE_MODULUS
  }

  lemma LargeHasNoRoom(elements: nat, bucketBytes: nat, p: nat)
    requires MOST_ELEMENTS < elements && bucketBytes >= 72 && IsPow2(p) && 32 <= p && 4 * elements / 3 <= p
    ensures p / 32 * bucketBytes >= SIZE_MODULUS
  {
    if p < 0x8000_0000_0000_0000 {
      BelowTopPower(p);
    }
    ProductGrows(bucketBytes, 0x0400_0000_0000_0000, p / 32);
  }

  /** The count a growth asks for can be allocated exactly if any that would do can. */
  lemma RoomIsExactly(elements: nat, bucketBytes: nat)
    requires 0 < elements < SIZE_MODULUS && bucketBytes >= 72
    ensures Allocatable(SlotsForElements(elements), bucketBytes) <==> RoomFor(elements, bucketBytes)
  {
    var raw := SlotsForElements(elements);
    SlotsForElementsIsLeast(elements);
    AllocatableMeans(raw, bucketBytes);
    AllOnesIsNoPower();
    if p: nat :| IsPow2(p) && 32 <= p && 4 * elements / 3 <= p && p / 32 * bucketBytes < SIZE_MODULUS {
      if elements > MOST_ELEMENTS {
        LargeHasNoRoom(elements, bucketBytes, p);
      } else {
        ProductGrows(bucketBytes, raw / 32, p / 32);
      }
    }
  }
}
