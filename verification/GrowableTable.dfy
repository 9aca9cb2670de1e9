/** The growable, single-threaded hash table: tombstone reuse, load-factor growth, rehashing into a fresh
    buffer. Every call is proved against the finite map the table stands for. */
module GrowableTable {
  import opened Basics
  import opened SlotHeader
  import opened ProbeRuns
  import opened BitArithmetic
  import opened Capacity

  datatype UpsertResult = Inserted | Updated | NoSlot
  datatype ReserveResult = Unchanged | Reallocated | Failed
  datatype Status = Success | OutOfMemory | CapacityExhausted

  /** Where a buffer comes from: whether the allocator grants a request is up to the environment. */
  predicate Made(raw: nat, bucketBytes: nat, granted: bool) {
    bucketBytes > 0 && Allocatable(raw, bucketBytes) && granted
  }

  /** So many elements are past a threshold, and the buffer that would take them cannot be had. */
  predicate Starved(planned: nat, threshold: nat, bucketBytes: nat, granted: bool) {
    planned > threshold && !Made(SlotsForElements(planned), bucketBytes, granted)
  }

  /** A buffer is had exactly for a power of two of slots, a bucket or more, whose bytes 64 bits can count, if it is
      granted. */
  lemma MadeMeans(raw: nat, bucketBytes: nat, granted: bool)
    requires bucketBytes > 0
    ensures Made(raw, bucketBytes, granted)
       <==> granted && IsPow2(raw) && 32 <= raw && raw / 32 * bucketBytes < SIZE_MODULUS
  {
    AllocatableMeans(raw, bucketBytes);
  }

  /** A growth fails exactly past three quarters of the slots, if memory is refused or no count that would do fits. */
  lemma StarvedMeans(planned: nat, slots: nat, threshold: nat, bucketBytes: nat, granted: bool)
    requires bucketBytes >= 72 && 0 < planned < SIZE_MODULUS && threshold * 4 == slots * 3
    ensures Starved(planned, threshold, bucketBytes, granted)
       <==> 4 * planned > 3 * slots && !(granted && RoomFor(planned, bucketBytes))
  {
    RoomIsExactly(planned, bucketBytes);
  }

  // ---- Counting -----------------------------------------------------------------------------------

  lemma {:induction false} CountSplits(a: seq<SlotState>, b: seq<SlotState>, state: SlotState)
    ensures Count(a + b, state) == Count(a, state) + Count(b, state)
  {
    if a == [] {
      assert a + b == b;
    } else {
      assert (a + b)[1..] == a[1..] + b;
      CountSplits(a[1..], b, state);
    }
  }

  lemma CountNext(states: seq<SlotState>, i: nat, state: SlotState)
    requires i < |states|
    ensures Count(states[..i + 1], state) == Count(states[..i], state) + (if states[i] == state then 1 else 0)
    ensures Count(states[..i + 1], state) <= Count(states, state)
  {
    assert states[..i + 1] == states[..i] + [states[i]];
    CountSplits(states[..i], [states[i]], state);
    assert states == states[..i + 1] + states[i + 1..];
    CountSplits(states[..i + 1], states[i + 1..], state);
  }

  /** Where a probe builds a new key: the first slot from its home that holds no live one. */
  ghost predicate FirstUnused(states: seq<SlotState>, home: nat, i: nat)
    requires home < |states|
  {
    && i < |states| && states[i] != Populated
    && forall d: nat :: d < Dist(home, i, |states|) ==> states[At(home, d, |states|)] == Populated
  }

  lemma FirstUnusedIsOne(states: seq<SlotState>, home: nat, i: nat, j: nat)
    requires home < |states| && FirstUnused(states, home, i) && FirstUnused(states, home, j)
    ensures i == j
  {
    var near, far := Dist(home, i, |states|), Dist(home, j, |states|);
    assert states[At(home, near, |states|)] != Populated && states[At(home, far, |states|)] != Populated;
  }

  /** How many tombstones a new key takes the place of: one if its probe meets a tombstone before any free slot. */
  ghost function Reused(hash: Key -> nat, states: seq<SlotState>, k: Key): (r: nat)
    ensures r <= 1
  {
    if |states| > 0 && exists at: nat :: FirstUnused(states, Home(hash, k, |states|), at) && states[at] == Deleted then 1 else 0
  }

  lemma ReusedAt(hash: Key -> nat, states: seq<SlotState>, k: Key, at: nat)
    requires |states| > 0 && FirstUnused(states, Home(hash, k, |states|), at)
    ensures Reused(hash, states, k) == if states[at] == Deleted then 1 else 0
  {
    if other: nat :| FirstUnused(states, Home(hash, k, |states|), other) && states[other] == Deleted {
      FirstUnusedIsOne(states, Home(hash, k, |states|), at, other);
    }
  }

  /** What every call keeps: an intact layout and both counters exact. */
  ghost predicate Sound(hash: Key -> nat, states: seq<SlotState>, keys: seq<Key>, populated: int, deleted: int) {
    Intact(hash, states, keys) && populated == Count(states, Populated) && deleted == Count(states, Deleted)
  }

  lemma FillKeepsSound(hash: Key -> nat, states: seq<SlotState>, keys: seq<Key>, values: seq<Value>, k: Key, v: Value, at: nat)
    requires |keys| == |values| == |states| && Intact(hash, states, keys) && at < |states|
    requires k !in ProbeRuns.Contents(states, keys, values) && FirstUnused(states, Home(hash, k, |states|), at)
    ensures Sound(hash, states[at := Populated], keys[at := k], Count(states, Populated) + 1,
                  Count(states, Deleted) - if states[at] == Deleted then 1 else 0)
    ensures ProbeRuns.Contents(states[at := Populated], keys[at := k], values[at := v])
         == ProbeRuns.Contents(states, keys, values)[k := v]
  {
    HoldsIsMembership(states, keys, values, k);
    FillKeepsIntact(hash, states, keys, k, at);
    FillAdds(states, keys, values, k, v, at);
    CountUpdate(states, at, Populated, Populated);
    CountUpdate(states, at, Populated, Deleted);
  }

  lemma TombstoneKeepsSound(hash: Key -> nat, states: seq<SlotState>, keys: seq<Key>, values: seq<Value>, at: nat)
    requires |keys| == |values| == |states| && Intact(hash, states, keys) && at < |states| && states[at] == Populated
    ensures Sound(hash, states[at := Deleted], keys, Count(states, Populated) - 1, Count(states, Deleted) + 1)
    ensures ProbeRuns.Contents(states[at := Deleted], keys, values)
         == ProbeRuns.Contents(states, keys, values) - {keys[at]}
  {
    TombstoneKeepsIntact(hash, states, keys, at);
    TombstoneRemoves(states, keys, values, at);
    CountUpdate(states, at, Deleted, Populated);
    CountUpdate(states, at, Deleted, Deleted);
  }

  /** An inserting probe after some steps: nothing but other keys and tombstones behind it, the first
      tombstone remembered. */
  ghost predicate Seeking(hash: Key -> nat, states: seq<SlotState>, keys: seq<Key>, k: Key, probes: nat,
                          didFindDeleted: bool, reusable: nat)
    requires |keys| == |states| && 0 < |states| && probes <= |states|
  {
    var home := Home(hash, k, |states|);
    && Walked(hash, states, keys, k, probes)
    && if didFindDeleted then FirstUnused(states, home, reusable) && states[reusable] == Deleted
       else forall d: nat :: d < probes ==> states[At(home, d, |states|)] == Populated
  }

  lemma SeekOn(hash: Key -> nat, states: seq<SlotState>, keys: seq<Key>, k: Key, probes: nat,
               didFindDeleted: bool, reusable: nat)
    requires |keys| == |states| && probes < |states| && Seeking(hash, states, keys, k, probes, didFindDeleted, reusable)
    ensures var at := At(Home(hash, k, |states|), probes, |states|);
            && (states[at] == Populated && keys[at] != k ==>
                  Seeking(hash, states, keys, k, probes + 1, didFindDeleted, reusable))
            && (states[at] == Deleted ==>
                  Seeking(hash, states, keys, k, probes + 1, true, if didFindDeleted then reusable else at))
            && (states[at] == Free ==>
                  FirstUnused(states, Home(hash, k, |states|), if didFindDeleted then reusable else at))
  {
  }

  lemma UnusedMeansRoom(states: seq<SlotState>, home: nat, at: nat)
    requires home < |states| && FirstUnused(states, home, at)
    ensures Count(states, Populated) < |states|
  {
    CountUpdate(states, at, Populated, Populated);
  }

  lemma AllLive(states: seq<SlotState>, home: nat)
    requires home < |states| && Settled(states)
    requires forall d: nat :: d < |states| ==> states[At(home, d, |states|)] == Populated
    ensures Count(states, Populated) == |states| && Count(states, Deleted) == 0
    ensures forall i :: 0 <= i < |states| ==> states[i] == Populated
  {
    forall i: nat | i < |states|
      ensures states[i] == Populated
    {
      assert At(home, Dist(home, i, |states|), |states|) == i;
    }
    CountZero(states, Free);
    CountZero(states, Deleted);
    CountAll(states);
  }

  // ---- All the matches of one probe run ------------------------------------------------------------

  /** The matching live slots among the first `d` of a probe run, in the order they are met. */
  ghost function MatchesWithin(states: seq<SlotState>, keys: seq<Key>, matches: Key -> bool, home: nat, d: nat): (found: seq<nat>)
    requires |keys| == |states| && home < |states| && d <= |states|
    ensures forall a :: 0 <= a < |found| ==> found[a] < |states|
  {
    if d == 0 then []
    else
      var i := At(home, d - 1, |states|);
      MatchesWithin(states, keys, matches, home, d - 1) + if states[i] == Populated && matches(keys[i]) then [i] else []
  }

  /** What the next slot of a run adds. */
  lemma MatchesNext(states: seq<SlotState>, keys: seq<Key>, matches: Key -> bool, home: nat, d: nat)
    requires |keys| == |states| && home < |states| && d < |states|
    ensures MatchesWithin(states, keys, matches, home, d + 1) == MatchesWithin(states, keys, matches, home, d)
              + (var i := At(home, d, |states|); if states[i] == Populated && matches(keys[i]) then [i] else [])
    ensures var next := NextOffset(At(home, d, |states|), |states|);
            if d + 1 < |states| then next == At(home, d + 1, |states|) && next != home else next == home
  {
  }

  lemma {:induction false} MatchesGrow(states: seq<SlotState>, keys: seq<Key>, matches: Key -> bool, home: nat, d: nat, e: nat)
    requires |keys| == |states| && home < |states| && d <= e <= |states|
    ensures MatchesWithin(states, keys, matches, home, d) <= MatchesWithin(states, keys, matches, home, e)
    decreases e
  {
    if d < e {
      MatchesGrow(states, keys, matches, home, d, e - 1);
    }
  }

  lemma LiveMeansNoGap(hash: Key -> nat, states: seq<SlotState>, keys: seq<Key>, i: nat, d: nat)
    requires Intact(hash, states, keys) && i < |states| && states[i] == Populated
    requires d < Dist(Home(hash, keys[i], |states|), i, |states|)
    ensures states[At(Home(hash, keys[i], |states|), d, |states|)] != Free
  {
  }

  /** No match lies beyond a free slot, or anywhere in a table without live slots. */
  lemma {:induction false} NoneBeyond(hash: Key -> nat, states: seq<SlotState>, keys: seq<Key>, matches: Key -> bool,
                                      wanted: nat, d: nat, e: nat)
    requires Intact(hash, states, keys) && |states| > 0 && d <= e <= |states|
    requires forall k :: matches(k) ==> hash(k) == wanted
    requires (d < |states| && states[At(wanted % |states|, d, |states|)] == Free)
             || forall i :: 0 <= i < |states| ==> states[i] != Populated
    ensures MatchesWithin(states, keys, matches, wanted % |states|, e)
         == MatchesWithin(states, keys, matches, wanted % |states|, d)
    decreases e
  {
    if d < e {
      NoneBeyond(hash, states, keys, matches, wanted, d, e - 1);
      var i := At(wanted % |states|, e - 1, |states|);
      if states[i] == Populated && matches(keys[i]) {
        LiveMeansNoGap(hash, states, keys, i, d);
        assert false;
      }
    }
  }

  /** What one slot of the run makes of the matches met so far. */
  lemma VisitOn(hash: Key -> nat, states: seq<SlotState>, keys: seq<Key>, matches: Key -> bool, wanted: nat, d: nat,
                visited: seq<nat>)
    requires Intact(hash, states, keys) && d < |states|
    requires forall k :: matches(k) ==> hash(k) == wanted
    requires visited == MatchesWithin(states, keys, matches, wanted % |states|, d)
    ensures var home, n := wanted % |states|, |states|;
            var all, i, next := MatchesWithin(states, keys, matches, home, n), At(home, d, n), NextOffset(At(home, d, n), n);
            && (if states[i] == Populated && matches(keys[i])
                then visited + [i] == MatchesWithin(states, keys, matches, home, d + 1) && visited + [i] <= all
                else if states[i] == Free then visited == all
                else visited == MatchesWithin(states, keys, matches, home, d + 1))
            && (if d + 1 < n then next == At(home, d + 1, n) && next != home else next == home)
  {
    var home, n := wanted % |states|, |states|;
    MatchesNext(states, keys, matches, home, d);
    MatchesGrow(states, keys, matches, home, d + 1, n);
    if states[At(home, d, n)] == Free {
      NoneBeyond(hash, states, keys, matches, wanted, d, n);
    }
  }

  /** A full turn lists every matching live slot of the table, each once, by distance from home. */
  lemma {:induction false} FullTurnFindsAll(states: seq<SlotState>, keys: seq<Key>, matches: Key -> bool, home: nat, d: nat)
    requires |keys| == |states| && home < |states| && d <= |states|
    ensures var found := MatchesWithin(states, keys, matches, home, d);
            && (forall i :: i in found <==> 0 <= i < |states| && Dist(home, i, |states|) < d
                                            && states[i] == Populated && matches(keys[i]))
            && (forall a, b :: 0 <= a < b < |found| ==> Dist(home, found[a], |states|) < Dist(home, found[b], |states|))
  {
    if d > 0 {
      FullTurnFindsAll(states, keys, matches, home, d - 1);
      var before, found := MatchesWithin(states, keys, matches, home, d - 1), MatchesWithin(states, keys, matches, home, d);
      var last := At(home, d - 1, |states|);
      assert forall i: nat :: i < |states| && Dist(home, i, |states|) == d - 1 ==> i == last;
      forall a, b | 0 <= a < b < |found|
        ensures Dist(home, found[a], |states|) < Dist(home, found[b], |states|)
      {
        assert found[a] == before[a] && before[a] in before;
        if b < |before| {
          assert found[b] == before[b];
        }
      }
    }
  }

  // ---- Prefixes of a table being moved ------------------------------------------------------------

  ghost function ContentsUpTo(states: seq<SlotState>, keys: seq<Key>, values: seq<Value>, n: nat): map<Key, Value>
    requires |keys| == |values| == |states| && n <= |states| && Unique(states, keys)
  {
    map i | 0 <= i < n && states[i] == Populated :: keys[i] := values[i]
  }

  lemma ContentsUpToAll(states: seq<SlotState>, keys: seq<Key>, values: seq<Value>)
    requires |keys| == |values| == |states| && Unique(states, keys)
    ensures ContentsUpTo(states, keys, values, |states|) == ProbeRuns.Contents(states, keys, values)
    ensures ContentsUpTo(states, keys, values, 0) == map[]
    ensures states[..|states|] == states && states[..0] == []
  {
  }

  lemma ContentsNext(states: seq<SlotState>, keys: seq<Key>, values: seq<Value>, n: nat)
    requires |keys| == |values| == |states| && n < |states| && Unique(states, keys)
    ensures states[n] == Populated ==> keys[n] !in ContentsUpTo(states, keys, values, n)
    ensures ContentsUpTo(states, keys, values, n + 1)
         == if states[n] == Populated then ContentsUpTo(states, keys, values, n)[keys[n] := values[n]]
            else ContentsUpTo(states, keys, values, n)
  {
    var before, after := ContentsUpTo(states, keys, values, n), ContentsUpTo(states, keys, values, n + 1);
    forall x | x in before
      ensures x in after && after[x] == before[x]
    {
      var j :| 0 <= j < n && states[j] == Populated && keys[j] == x;
      assert j < n + 1;
    }
  }

  lemma CountsFit(states: seq<SlotState>)
    requires Settled(states)
    ensures Count(states, Populated) + Count(states, Deleted) <= |states|
  {
    CountAll(states);
  }

  lemma SlotsCoverRequest(slots: nat)
    requires slots < SIZE_MODULUS
    ensures SlotsFromSlots(slots) >= slots
  {
    if slots > 0 {
      RoundupIsLeast(slots);
    }
  }

  /** A growth that is granted covers the request and at least doubles the table. */
  lemma GrowthFits(slots: nat, threshold: nat, planned: nat, bucketBytes: nat)
    requires bucketBytes >= 72 && threshold < planned < SIZE_MODULUS && threshold == GrowthThreshold(slots)
    requires slots == 0 || (IsPow2(slots) && BUCKET_SLOTS <= slots <= 0x4000_0000_0000_0000)
    ensures var raw := SlotsForElements(planned);
            raw > 0 && raw >= 2 * slots && (Allocatable(raw, bucketBytes) ==> planned <= GrowthThreshold(raw))
  {
    var raw := SlotsForElements(planned);
    RequestIsRounded(planned);
    ThresholdCoversRequest(planned);
    if slots > 0 {
      GrowthDoubles(slots, planned);
    }
    if Allocatable(raw, bucketBytes) {
      AcceptedIsSmall(raw, bucketBytes);
    }
  }

  /** The slots a rehash asks for: what was asked of it in buckets, or what the live pairs call for if that is
      more. The product is taken in 64 bits. */
  function RehashTarget(countBuckets: nat, live: nat): nat {
    Larger(SlotsFromSlots(countBuckets * BUCKET_SLOTS % SIZE_MODULUS), SlotsForElements(live))
  }

  /** That is the least power of two that is a bucket or more and covers both. */
  lemma RehashTargetIsLeast(countBuckets: nat, live: nat)
    requires live <= MOST_ELEMENTS && countBuckets * 32 % SIZE_MODULUS <= 0x8000_0000_0000_0000
    ensures var asked, target := countBuckets * 32 % SIZE_MODULUS, RehashTarget(countBuckets, live);
            if asked == 0 && live == 0 then target == 0
            else && IsPow2(target) && 32 <= target && asked <= target && 4 * live / 3 <= target
                 && forall p: nat :: IsPow2(p) && 32 <= p && asked <= p && 4 * live / 3 <= p ==> target <= p
  {
    SlotsFromSlotsIsLeast(countBuckets * 32 % SIZE_MODULUS);
    SlotsForElementsIsLeast(live);
  }

  // ---- The table ----------------------------------------------------------------------------------

  class HashTable {
    const hash: Key -> nat
    /** What one bucket of 32 slots occupies: its keys, its values and its 8-byte header. */
    const bucketBytes: nat
    var states: array<SlotState>
    var keys: array<Key>
    var values: array<Value>
    var slotsCount: nat
    var growthThreshold: nat
    var populatedCount: nat
    var deletedCount: nat

    ghost predicate Valid()
      reads this, states, keys, values
    {
      && bucketBytes >= 72
      && {states as object} !! {keys as object} !! {values as object}
      && states.Length == keys.Length == values.Length == slotsCount
      && (slotsCount == 0 || (IsPow2(slotsCount) && BUCKET_SLOTS <= slotsCount <= 0x4000_0000_0000_0000))
      && growthThreshold == GrowthThreshold(slotsCount) && growthThreshold * 4 == slotsCount * 3
      && Sound(hash, states[..], keys[..], populatedCount, deletedCount)
    }

    /** The finite map the table stands for. */
    ghost function Contents(): map<Key, Value>
      requires Valid()
      reads this, states, keys, values
    {
      ProbeRuns.Contents(states[..], keys[..], values[..])
    }

    /** An empty table of `raw` slots, unallocated when the request is not addressable, its bytes overflow, or
        the allocator refuses. */
    constructor (raw: nat, hash: Key -> nat, bucketBytes: nat, granted: bool)
      requires bucketBytes >= 72
      ensures Valid() && Contents() == map[] && populatedCount == 0 && deletedCount == 0
      ensures this.hash == hash && this.bucketBytes == bucketBytes
      ensures slotsCount == if Made(raw, bucketBytes, granted) then raw else 0
      ensures slotsCount == raw || slotsCount == 0
      ensures slotsCount != 0 <==> granted && IsPow2(raw) && 32 <= raw && raw / 32 * bucketBytes < SIZE_MODULUS
      ensures fresh(states) && fresh(keys) && fresh(values)
    {
      MadeMeans(raw, bucketBytes, granted);
      this.hash, this.bucketBytes := hash, bucketBytes;
      var slots := if Made(raw, bucketBytes, granted) then raw else 0;
      if Made(raw, bucketBytes, granted) {
        AcceptedIsSmall(raw, bucketBytes);
      }
      var st := new SlotState[slots](_ => Free);
      var ks := new Key[slots];
      var vs := new Value[slots];
      states, keys, values := st, ks, vs;
      slotsCount, growthThreshold := slots, GrowthThreshold(slots);
      populatedCount, deletedCount := 0, 0;
      CountZero(st[..], Populated);
      CountZero(st[..], Deleted);
    }

    /** Takes ownership of a buffer another table built, with its counters. */
    constructor Adopt(states: array<SlotState>, keys: array<Key>, values: array<Value>,
                      populatedCount: nat, deletedCount: nat, hash: Key -> nat, bucketBytes: nat)
      requires bucketBytes >= 72 && {states as object} !! {keys as object} !! {values as object}
      requires keys.Length == values.Length == states.Length
      requires states.Length == 0 || Allocatable(states.Length, bucketBytes)
      requires Sound(hash, states[..], keys[..], populatedCount, deletedCount)
      ensures Valid() && Contents() == ProbeRuns.Contents(states[..], keys[..], values[..])
      ensures this.states == states && this.keys == keys && this.values == values
      ensures this.populatedCount == populatedCount && this.deletedCount == deletedCount && slotsCount == states.Length
      ensures this.hash == hash && this.bucketBytes == bucketBytes
    {
      if states.Length > 0 {
        AcceptedIsSmall(states.Length, bucketBytes);
      }
      this.hash, this.bucketBytes := hash, bucketBytes;
      this.states, this.keys, this.values := states, keys, values;
      slotsCount, growthThreshold := states.Length, GrowthThreshold(states.Length);
      this.populatedCount, this.deletedCount := populatedCount, deletedCount;
    }

    // ---- Probes -----------------------------------------------------------------------------------

    method ProbeToFind(k: Key) returns (found: bool, at: nat)
      requires Valid()
      ensures found <==> k in Contents()
      ensures found ==> at < slotsCount && states[at] == Populated && keys[at] == k
    {
      ghost var st, ks := states[..], keys[..];
      HoldsIsMembership(st, ks, values[..], k);
      if populatedCount == 0 {
        CountZero(st, Populated);
        return false, 0;
      }
      var initial := Home(hash, k, slotsCount);
      var offset := initial;
      ghost var d := 0;
      while true
        invariant d < slotsCount && offset == At(initial, d, slotsCount) && Walked(hash, st, ks, k, d)
        decreases slotsCount - d
      {
        if states[offset] == Populated {
          if keys[offset] == k {
            return true, offset;
          }
        } else if states[offset] != Deleted {
          AbsentAfterWalk(hash, st, ks, k, d);
          return false, 0;
        }
        assert Walked(hash, st, ks, k, d + 1);
        offset := NextOffset(offset, slotsCount);
        if offset == initial {
          AbsentAfterWalk(hash, st, ks, k, d + 1);
          return false, 0;
        }
        d := d + 1;
      }
    }

    /** Visits every live slot whose key matches, however the match is defined, in probe order, until the
        visitor has seen `patience` of them. All matching keys share the hash the probe starts from. */
    method ProbeToVisit(wanted: nat, matches: Key -> bool, patience: nat) returns (visited: seq<nat>)
      requires Valid() && patience > 0
      requires forall k :: matches(k) ==> hash(k) == wanted
      ensures slotsCount == 0 ==> visited == []
      ensures slotsCount > 0 ==>
                var all := MatchesWithin(states[..], keys[..], matches, wanted % slotsCount, slotsCount);
                visited <= all && |visited| <= patience && (|visited| < patience ==> visited == all)
    {
      ghost var st, ks := states[..], keys[..];
      visited := [];
      if populatedCount == 0 {
        if slotsCount > 0 {
          CountZero(st, Populated);
          NoneBeyond(hash, st, ks, matches, wanted, 0, slotsCount);
        }
        return;
      }
      visited := VisitRun(wanted, matches, patience);
    }

    /** The walk itself, in a table with something in it. */
    method VisitRun(wanted: nat, matches: Key -> bool, patience: nat) returns (visited: seq<nat>)
      requires Valid() && patience > 0 && slotsCount > 0
      requires forall k :: matches(k) ==> hash(k) == wanted
      ensures var all := MatchesWithin(states[..], keys[..], matches, wanted % slotsCount, slotsCount);
              visited <= all && |visited| <= patience && (|visited| < patience ==> visited == all)
    {
      ghost var st, ks := states[..], keys[..];
      visited := [];
      var initial := wanted % slotsCount;
      var offset := initial;
      ghost var d := 0;
      while true
        invariant d < slotsCount && offset == At(initial, d, slotsCount)
        invariant visited == MatchesWithin(st, ks, matches, initial, d) && |visited| < patience
        decreases slotsCount - d
      {
        VisitOn(hash, st, ks, matches, wanted, d, visited);
        if states[offset] == Populated {
          if matches(keys[offset]) {
            visited := visited + [offset];
            if |visited| == patience {
              return;
            }
          }
        } else if states[offset] != Deleted {
          return;
        }
        offset := NextOffset(offset, slotsCount);
        d := d + 1;
        if offset == initial {
          return;
        }
      }
    }

    /** Builds a key in an unused slot: the callback of both inserting probes, and their counter updates. */
    method Fill(k: Key, v: Value, at: nat)
      requires Valid() && at < slotsCount && k !in Contents()
      requires FirstUnused(states[..], Home(hash, k, slotsCount), at)
      modifies this`populatedCount, this`deletedCount, states, keys, values
      ensures Valid() && Contents() == old(Contents())[k := v]
      ensures states[..] == old(states[..])[at := Populated]
      ensures keys[..] == old(keys[..])[at := k] && values[..] == old(values[..])[at := v]
      ensures populatedCount == old(populatedCount) + 1
      ensures deletedCount == old(deletedCount) - if old(states[at]) == Deleted then 1 else 0
    {
      FillKeepsSound(hash, states[..], keys[..], values[..], k, v, at);
      var reusedTombstone := states[at] == Deleted;
      Write(k, v, at);
      populatedCount := populatedCount + 1;
      if reusedTombstone {
        deletedCount := deletedCount - 1;
      }
    }

    /** Assigns through to a live slot. */
    method Overwrite(v: Value, at: nat)
      requires Valid() && at < slotsCount && states[at] == Populated
      modifies values
      ensures Valid() && Contents() == old(Contents())[keys[at] := v]
      ensures values[..] == old(values[..])[at := v] && unchanged(states, keys)
    {
      OverwriteAssigns(states[..], keys[..], values[..], v, at);
      values[at] := v;
      assert values[..] == old(values[..])[at := v] && states[..] == old(states[..]) && keys[..] == old(keys[..]);
    }

    method Write(k: Key, v: Value, at: nat)
      requires states.Length == keys.Length == values.Length && at < states.Length
      requires {states as object} !! {keys as object} !! {values as object}
      modifies states, keys, values
      ensures states[..] == old(states[..])[at := Populated]
      ensures keys[..] == old(keys[..])[at := k] && values[..] == old(values[..])[at := v]
    {
      keys[at], values[at] := k, v;
      states[at] := Populated;
    }

    /** The insertion of a key the caller knows to be absent; it compares no keys. */
    method ProbeToInsert(k: Key, v: Value) returns (r: UpsertResult, at: nat)
      requires Valid() && k !in Contents()
      modifies this`populatedCount, this`deletedCount, states, keys, values
      ensures Valid()
      ensures r == NoSlot <==> old(populatedCount) == slotsCount
      ensures r == NoSlot ==> unchanged(this, states, keys, values)
      ensures r != NoSlot ==> r == Inserted && FirstUnused(old(states[..]), Home(hash, k, slotsCount), at)
                              && states[..] == old(states[..])[at := Populated]
      ensures r != NoSlot ==> Contents() == old(Contents())[k := v] && populatedCount == old(populatedCount) + 1
                              && deletedCount == old(deletedCount) - if old(states[..])[at] == Deleted then 1 else 0
    {
      if slotsCount == 0 {
        return NoSlot, 0;
      }
      var initial := Home(hash, k, slotsCount);
      var offset := initial;
      for probes := 0 to slotsCount
        invariant offset == if probes < slotsCount then At(initial, probes, slotsCount) else initial
        invariant forall d: nat :: d < probes ==> states[At(initial, d, slotsCount)] == Populated
      {
        if states[offset] == Free || states[offset] == Deleted {
          UnusedMeansRoom(states[..], initial, offset);
          Fill(k, v, offset);
          return Inserted, offset;
        }
        offset := NextOffset(offset, slotsCount);
      }
      AllLive(states[..], initial);
      return NoSlot, 0;
    }

    /** The walk of the inserting probe, and the slot it hands to the caller. */
    method Seek(k: Key) returns (r: UpsertResult, at: nat)
      requires Valid()
      ensures r == Updated <==> k in Contents()
      ensures r == Updated ==> at < slotsCount && states[at] == Populated && keys[at] == k
      ensures r == NoSlot <==> k !in Contents() && populatedCount == slotsCount
      ensures r == Inserted ==> slotsCount > 0 && FirstUnused(states[..], Home(hash, k, slotsCount), at)
    {
      ghost var st, ks := states[..], keys[..];
      HoldsIsMembership(st, ks, values[..], k);
      if slotsCount == 0 {
        return NoSlot, 0;
      }
      var initial := Home(hash, k, slotsCount);
      var offset := initial;
      var reusable, didFindDeleted := 0, false;
      for probes := 0 to slotsCount
        invariant offset == if probes < slotsCount then At(initial, probes, slotsCount) else initial
        invariant Seeking(hash, st, ks, k, probes, didFindDeleted, reusable)
      {
        SeekOn(hash, st, ks, k, probes, didFindDeleted, reusable);
        if states[offset] == Populated {
          if keys[offset] == k {
            return Updated, offset;
          }
          offset := NextOffset(offset, slotsCount);
        } else if states[offset] == Deleted {
          if !didFindDeleted {
            reusable, didFindDeleted := offset, true;
          }
          offset := NextOffset(offset, slotsCount);
        } else {
          AbsentAfterWalk(hash, st, ks, k, probes);
          at := if didFindDeleted then reusable else offset;
          UnusedMeansRoom(st, initial, at);
          return Inserted, at;
        }
      }
      AbsentAfterWalk(hash, st, ks, k, slotsCount);
      if !didFindDeleted {
        AllLive(st, initial);
        return NoSlot, 0;
      }
      UnusedMeansRoom(st, initial, reusable);
      return Inserted, reusable;
    }

    /** The insertion of a key that may be present; the first tombstone met is reused. */
    method ProbeToUpsert(k: Key, v: Value) returns (r: UpsertResult, at: nat)
      requires Valid()
      modifies this`populatedCount, this`deletedCount, states, keys, values
      ensures Valid()
      ensures r == Updated <==> k in old(Contents())
      ensures r == Updated ==> at < slotsCount && old(states[..])[at] == Populated && old(keys[..])[at] == k
                               && values[..] == old(values[..])[at := v] && unchanged(this, states, keys)
      ensures r == NoSlot <==> k !in old(Contents()) && old(populatedCount) == slotsCount
      ensures r == NoSlot ==> unchanged(this, states, keys, values)
      ensures r == Inserted ==> FirstUnused(old(states[..]), Home(hash, k, slotsCount), at)
                                && states[..] == old(states[..])[at := Populated]
      ensures r == Inserted ==> populatedCount == old(populatedCount) + 1
                                && deletedCount == old(deletedCount) - if old(states[..])[at] == Deleted then 1 else 0
      ensures r == Inserted ==> deletedCount == old(deletedCount) - Reused(hash, old(states[..]), k)
      ensures r != NoSlot ==> Contents() == old(Contents())[k := v]
    {
      r, at := Seek(k);
      if r == Updated {
        Overwrite(v, at);
      } else if r == Inserted {
        UnusedMeansRoom(states[..], Home(hash, k, slotsCount), at);
        ReusedAt(hash, states[..], k, at);
        Fill(k, v, at);
      }
    }

    /** Erasing leaves a tombstone, so the probe runs of every other key stay whole. */
    method Erase(k: Key) returns (found: bool)
      requires Valid()
      modifies this`populatedCount, this`deletedCount, states
      ensures Valid() && Contents() == old(Contents()) - {k}
      ensures found <==> k in old(Contents())
      ensures populatedCount + deletedCount == old(populatedCount + deletedCount)
      ensures populatedCount == old(populatedCount) - if found then 1 else 0
    {
      var at;
      found, at := ProbeToFind(k);
      if found {
        TombstoneKeepsSound(hash, states[..], keys[..], values[..], at);
        ghost var buried := states[..][at := Deleted];
        states[at] := Deleted;
        assert states[..] == buried;
        deletedCount := deletedCount + 1;
        populatedCount := populatedCount - 1;
      }
    }

    // ---- Memory management ------------------------------------------------------------------------

    /** Every slot is free again; the buffer stays. */
    method Clear()
      requires Valid()
      modifies this`populatedCount, this`deletedCount, states
      ensures Valid() && Contents() == map[] && populatedCount == 0 && deletedCount == 0
    {
      forall i | 0 <= i < states.Length {
        states[i] := Free;
      }
      populatedCount, deletedCount := 0, 0;
      CountZero(states[..], Populated);
      CountZero(states[..], Deleted);
    }

    method Deallocate()
      modifies this
      ensures slotsCount == growthThreshold == populatedCount == deletedCount == 0
      ensures states.Length == keys.Length == values.Length == 0
      ensures {states as object} !! {keys as object} !! {values as object}
      ensures fresh(states) && fresh(keys) && fresh(values)
    {
      states, keys, values := new SlotState[0], new Key[0], new Value[0];
      slotsCount, growthThreshold, populatedCount, deletedCount := 0, 0, 0, 0;
    }

    /** This table holds exactly the live pairs of the first `i` slots of another layout, and no tombstone. */
    ghost predicate Moved(st: seq<SlotState>, ks: seq<Key>, vs: seq<Value>, i: nat)
      requires |ks| == |vs| == |st| && i <= |st| && Unique(st, ks)
      reads this, states, keys, values
    {
      Valid() && deletedCount == 0 && populatedCount == Count(st[..i], Populated) && Contents() == ContentsUpTo(st, ks, vs, i)
    }

    /** One call of the visitor that moves a live pair over. */
    method EmplaceUnique(k: Key, v: Value, ghost st: seq<SlotState>, ghost ks: seq<Key>, ghost vs: seq<Value>, ghost i: nat)
      requires |ks| == |vs| == |st| && i < |st| && Unique(st, ks) && Moved(st, ks, vs, i)
      requires st[i] == Populated && ks[i] == k && vs[i] == v && Count(st, Populated) <= slotsCount
      modifies this`populatedCount, this`deletedCount, states, keys, values
      ensures Moved(st, ks, vs, i + 1)
    {
      CountNext(st, i, Populated);
      ContentsNext(st, ks, vs, i);
      var r, at := ProbeToInsert(k, v);
    }

    lemma SkipKeepsMoved(st: seq<SlotState>, ks: seq<Key>, vs: seq<Value>, i: nat)
      requires |ks| == |vs| == |st| && i < |st| && Unique(st, ks) && Moved(st, ks, vs, i) && st[i] != Populated
      ensures Moved(st, ks, vs, i + 1)
    {
      CountNext(st, i, Populated);
      ContentsNext(st, ks, vs, i);
    }

    /** Emplaces every live pair of another buffer, in slot order, into an empty table known to have room. */
    method EmplaceAll(fromStates: array<SlotState>, fromKeys: array<Key>, fromValues: array<Value>)
      requires Valid() && Contents() == map[] && populatedCount == deletedCount == 0
      requires {states as object, keys as object, values as object}
               !! {fromStates as object, fromKeys as object, fromValues as object}
      requires fromStates.Length == fromKeys.Length == fromValues.Length
      requires Unique(fromStates[..], fromKeys[..]) && Count(fromStates[..], Populated) <= slotsCount
      modifies this`populatedCount, this`deletedCount, states, keys, values
      ensures Valid() && Contents() == ProbeRuns.Contents(fromStates[..], fromKeys[..], fromValues[..])
      ensures populatedCount == Count(fromStates[..], Populated) && deletedCount == 0
    {
      ghost var st, ks, vs := fromStates[..], fromKeys[..], fromValues[..];
      ContentsUpToAll(st, ks, vs);
      for i := 0 to fromStates.Length
        invariant Moved(st, ks, vs, i)
      {
        if fromStates[i] == Populated {
          EmplaceUnique(fromKeys[i], fromValues[i], st, ks, vs, i);
        } else {
          SkipKeepsMoved(st, ks, vs, i);
        }
      }
    }

    /** Puts every live pair into a new table of exactly so many slots. If that table has none, because none were
        asked for or none were to be had, this one is as it was; if it has some, this one is left without any. */
    method MoveToNew(raw: nat, granted: bool) returns (target: HashTable)
      requires Valid() && (raw == 0 || populatedCount <= raw)
      modifies this
      ensures fresh(target) && target.Valid() && target.hash == hash && target.bucketBytes == bucketBytes
      ensures fresh(target.states) && fresh(target.keys) && fresh(target.values)
      ensures target.slotsCount == if Made(raw, bucketBytes, granted) then raw else 0
      ensures Made(raw, bucketBytes, granted) ==> target.Contents() == old(Contents()) && slotsCount == 0
      ensures Made(raw, bucketBytes, granted) ==> target.populatedCount == old(populatedCount)
      ensures !Made(raw, bucketBytes, granted) ==> target.Contents() == map[] && unchanged(this)
      ensures target.deletedCount == 0
    {
      target := new HashTable(raw, hash, bucketBytes, granted);
      if target.slotsCount == 0 {
        return;
      }
      target.EmplaceAll(states, keys, values);
      Deallocate();
    }

    method Swap(other: HashTable)
      requires hash == other.hash && bucketBytes == other.bucketBytes
      modifies this, other
      ensures states == old(other.states) && keys == old(other.keys) && values == old(other.values)
      ensures slotsCount == old(other.slotsCount) && growthThreshold == old(other.growthThreshold)
      ensures populatedCount == old(other.populatedCount) && deletedCount == old(other.deletedCount)
      ensures other.states == old(states) && other.keys == old(keys) && other.values == old(values)
      ensures other.slotsCount == old(slotsCount) && other.growthThreshold == old(growthThreshold)
      ensures other.populatedCount == old(populatedCount) && other.deletedCount == old(deletedCount)
    {
      states, other.states := other.states, states;
      keys, other.keys := other.keys, keys;
      values, other.values := other.values, values;
      slotsCount, other.slotsCount := other.slotsCount, slotsCount;
      growthThreshold, other.growthThreshold := other.growthThreshold, growthThreshold;
      populatedCount, other.populatedCount := other.populatedCount, populatedCount;
      deletedCount, other.deletedCount := other.deletedCount, deletedCount;
    }

    /** Swaps in a buffer of exactly `raw` slots with only the live pairs in it. Too few slots for those, or no
        buffer to be had, and the table is the one it was. */
    method ForceResize(raw: nat, granted: bool) returns (r: ReserveResult)
      requires Valid()
      modifies this
      ensures r == Reallocated <==> old(populatedCount) <= raw && (raw == 0 || Made(raw, bucketBytes, granted))
      ensures r != Reallocated ==> r == Failed && unchanged(this)
      ensures Valid() && Contents() == old(Contents()) && populatedCount == old(populatedCount)
      ensures r == Reallocated ==> slotsCount == raw && deletedCount == 0
                                   && fresh(states) && fresh(keys) && fresh(values)
    {
      if raw < populatedCount {
        return Failed;
      }
      var resized := MoveToNew(raw, granted);
      if raw != 0 && resized.slotsCount == 0 {
        return Failed;
      }
      if raw == 0 {
        CountZero(states[..], Populated);
      }
      Swap(resized);
      return Reallocated;
    }

    /** Growth to fit that many live slots and tombstones together, if the threshold is short. */
    method Reserve(plannedElements: nat, granted: bool) returns (r: ReserveResult)
      requires Valid() && plannedElements < SIZE_MODULUS
      modifies this
      ensures Valid() && Contents() == old(Contents()) && populatedCount == old(populatedCount)
      ensures r == Unchanged <==> plannedElements <= old(growthThreshold)
      ensures r != Reallocated ==> unchanged(this)
      ensures r == Reallocated ==> slotsCount == SlotsForElements(plannedElements) && deletedCount == 0
                                   && fresh(states) && fresh(keys) && fresh(values)
      ensures r == Reallocated ==> plannedElements <= growthThreshold && slotsCount >= 2 * old(slotsCount)
      ensures r == Failed <==> Starved(plannedElements, old(growthThreshold), bucketBytes, granted)
    {
      if plannedElements <= growthThreshold {
        return Unchanged;
      }
      var raw := SlotsForElements(plannedElements);
      CountsFit(states[..]);
      GrowthFits(slotsCount, growthThreshold, plannedElements, bucketBytes);
      r := ForceResize(raw, granted);
    }

    /** One more element is past the threshold, and the buffer that would take it cannot be had. */
    predicate NeedsMemory(granted: bool)
      reads this
    {
      Starved(1 + populatedCount + deletedCount, growthThreshold, bucketBytes, granted)
    }

    lemma OneMoreIsRepresentable()
      requires Valid()
      ensures 1 + populatedCount + deletedCount <= 1 + slotsCount < SIZE_MODULUS
    {
      CountsFit(states[..]);
    }

    /** Sees to it that one more key fits, which a key that is in the table already does. */
    method ReserveForAbsentKey(k: Key, granted: bool) returns (r: ReserveResult)
      requires Valid()
      modifies this
      ensures Valid() && Contents() == old(Contents()) && populatedCount == old(populatedCount)
      ensures r == Failed <==> k !in Contents() && old(NeedsMemory(granted))
      ensures r != Reallocated ==> unchanged(this)
      ensures r == Reallocated ==> slotsCount == SlotsForElements(old(1 + populatedCount + deletedCount))
                                   && deletedCount == 0 && fresh(states) && fresh(keys) && fresh(values)
      ensures r == Unchanged <==> k in Contents() || old(1 + populatedCount + deletedCount <= growthThreshold)
      ensures r != Failed ==> k in Contents() || 1 + populatedCount + deletedCount <= growthThreshold
    {
      OneMoreIsRepresentable();
      var planned := 1 + populatedCount + deletedCount;
      if planned <= growthThreshold {
        return Unchanged;
      }
      r := GrowForAbsentKey(k, planned, granted);
    }

    /** The same with the load known to be too high for a new key. */
    method GrowForAbsentKey(k: Key, planned: nat, granted: bool) returns (r: ReserveResult)
      requires Valid() && growthThreshold < planned < SIZE_MODULUS
      modifies this
      ensures Valid() && Contents() == old(Contents()) && populatedCount == old(populatedCount)
      ensures r == Unchanged <==> k in Contents()
      ensures r == Failed <==> k !in Contents() && Starved(planned, old(growthThreshold), bucketBytes, granted)
      ensures r != Reallocated ==> unchanged(this)
      ensures r == Reallocated ==> slotsCount == SlotsForElements(planned) && planned <= growthThreshold
                                   && deletedCount == 0 && fresh(states) && fresh(keys) && fresh(values)
    {
      var present, at := ProbeToFind(k);
      if present {
        return Unchanged;
      }
      r := Reserve(planned, granted);
    }

    /** Grows the table if it must, then stores the pair. */
    method UpsertUnlessStarved(k: Key, v: Value, granted: bool) returns (status: Status)
      requires Valid()
      modifies this, states, keys, values
      ensures Valid()
      ensures status == Success || status == OutOfMemory
      ensures status == Success ==> Contents() == old(Contents())[k := v]
      // A new key never takes the table past its load, however far past it the table was adopted.
      ensures status == Success && k !in old(Contents()) ==> populatedCount + deletedCount <= growthThreshold
      ensures status == OutOfMemory <==> k !in old(Contents()) && old(NeedsMemory(granted))
      ensures status == OutOfMemory ==> unchanged(this) && unchanged(old(states), old(keys), old(values))
      ensures k in old(Contents()) ==> unchanged(`slotsCount, `populatedCount, `deletedCount)
      ensures status == Success && k !in old(Contents()) ==> populatedCount == old(populatedCount) + 1
      ensures status == Success && k !in old(Contents()) ==>
                if old(1 + populatedCount + deletedCount <= growthThreshold)
                then slotsCount == old(slotsCount) && deletedCount == old(deletedCount) - old(Reused(hash, states[..], k))
                else slotsCount == SlotsForElements(old(1 + populatedCount + deletedCount)) && deletedCount == 0
      ensures states == old(states) || fresh(states)
      ensures keys == old(keys) || fresh(keys)
      ensures values == old(values) || fresh(values)
    {
      var reserved := ReserveForAbsentKey(k, granted);
      if reserved == Failed {
        return OutOfMemory;
      }
      var stored, at := ProbeToUpsert(k, v);
      status := if stored == NoSlot then CapacityExhausted else Success;
    }

    /** Files a pair under its key, replacing the pair stored there. Overwriting never asks for memory, a
        refused growth changes nothing, and the bounded probe always finds a slot. */
    method Upsert(k: Key, v: Value, granted: bool) returns (status: Status)
      requires Valid()
      modifies this, states, keys, values
      ensures Valid()
      ensures status == Success || status == OutOfMemory
      ensures status == Success ==> Contents() == old(Contents())[k := v]
      // A new key never takes the table past its load, however far past it the table was adopted.
      ensures status == Success && k !in old(Contents()) ==> populatedCount + deletedCount <= growthThreshold
      ensures status == OutOfMemory <==> k !in old(Contents()) && old(NeedsMemory(granted))
      // It is refused just if the key is new, one more element is past three quarters of the slots, and memory is
      // refused or no count of slots that would do fits.
      ensures status == OutOfMemory <==>
                && k !in old(Contents())
                && 4 * old(1 + populatedCount + deletedCount) > 3 * old(slotsCount)
                && !(granted && RoomFor(old(1 + populatedCount + deletedCount), bucketBytes))
      ensures status == OutOfMemory ==> unchanged(this) && unchanged(old(states), old(keys), old(values))
      ensures k in old(Contents()) ==> unchanged(`slotsCount, `populatedCount, `deletedCount)
      ensures status == Success && k !in old(Contents()) ==> populatedCount == old(populatedCount) + 1
      ensures status == Success && k !in old(Contents()) ==>
                if old(1 + populatedCount + deletedCount <= growthThreshold)
                then slotsCount == old(slotsCount) && deletedCount == old(deletedCount) - old(Reused(hash, states[..], k))
                else slotsCount == SlotsForElements(old(1 + populatedCount + deletedCount)) && deletedCount == 0
      ensures states == old(states) || fresh(states)
      ensures keys == old(keys) || fresh(keys)
      ensures values == old(values) || fresh(values)
    {
      ghost var planned := 1 + populatedCount + deletedCount;
      assert NeedsMemory(granted) <==> 4 * planned > 3 * slotsCount && !(granted && RoomFor(planned, bucketBytes)) by {
        OneMoreIsRepresentable();
        StarvedMeans(planned, slotsCount, growthThreshold, bucketBytes, granted);
      }
      status := UpsertUnlessStarved(k, v, granted);
    }

    /** Best effort: a refused allocation leaves every element reachable. */
    method ShrinkToFit(granted: bool)
      requires Valid()
      modifies this
      ensures Valid() && Contents() == old(Contents()) && populatedCount == old(populatedCount)
      ensures deletedCount == if slotsCount == old(slotsCount) then old(deletedCount) else 0
      ensures unchanged(this) || (slotsCount == SlotsForElements(populatedCount) && deletedCount == 0
                                  && fresh(states) && fresh(keys) && fresh(values))
      // It shrinks to what the elements need, unless a buffer is needed and cannot be had.
      ensures slotsCount == if populatedCount == 0 then 0
                            else if Made(SlotsForElements(populatedCount), bucketBytes, granted)
                            then SlotsForElements(populatedCount)
                            else old(slotsCount)
    {
      CountsFit(states[..]);
      if populatedCount > 0 {
        RequestIsRounded(populatedCount);
      }
      var newCapacity := SlotsForElements(populatedCount);
      if newCapacity == slotsCount {
        return;
      }
      if populatedCount != 0 {
        var resized := ForceResize(newCapacity, granted);
      } else {
        CountZero(states[..], Populated);
        Deallocate();
      }
    }

    /** Swaps in a fresh buffer of at least so many buckets, and never of fewer than the live pairs call for. */
    method Rehash(countBuckets: nat, granted: bool) returns (r: ReserveResult)
      requires Valid() && countBuckets < SIZE_MODULUS
      modifies this
      ensures Valid() && Contents() == old(Contents()) && populatedCount == old(populatedCount)
      ensures r != Reallocated ==> unchanged(this)
      // Everything hangs on a buffer for the larger of what was asked for and what is stored.
      ensures r != Unchanged
      ensures var target := RehashTarget(countBuckets, populatedCount);
              && (r == Reallocated <==> target == 0 || Made(target, bucketBytes, granted))
              && (r == Reallocated ==> slotsCount == target && deletedCount == 0)
      ensures r == Reallocated ==> slotsCount >= countBuckets * BUCKET_SLOTS % SIZE_MODULUS
                                   && fresh(states) && fresh(keys) && fresh(values)
    {
      var wanted := SlotsFromSlots(countBuckets * BUCKET_SLOTS % SIZE_MODULUS);
      var needed := SlotsForElements(populatedCount);
      CountsFit(states[..]);
      if populatedCount > 0 {
        RequestIsRounded(populatedCount);
      }
      SlotsCoverRequest(countBuckets * BUCKET_SLOTS % SIZE_MODULUS);
      r := ForceResize(if wanted >= needed then wanted else needed, granted);
    }
  }
}
