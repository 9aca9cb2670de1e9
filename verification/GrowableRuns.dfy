/** Whole runs of the growable table against a finite map, and its exchange of storage with the pinned one. */
module GrowableRuns {
  import opened ProbeRuns
  import opened Capacity
  import opened GrowableTable

  datatype Call =
    | CallUpsert(key: Key, value: Value)
    | CallErase(key: Key)
    | CallFind(key: Key)
    | CallReserve(elements: nat)
    | CallResize(slots: nat)
    | CallRehash(buckets: nat)
    | CallShrink
    | CallClear

  datatype Reply = Stored | Refused | Erased | Found(value: Value) | Absent | Sized(result: ReserveResult) | Done

  /** All that the replies depend on besides the map: live slots, tombstones, and slots in all. */
  datatype Load = Load(live: nat, dead: nat, slots: nat)

  function LoadOf(table: HashTable): Load
    reads table
  {
    Load(table.populatedCount, table.deletedCount, table.slotsCount)
  }

  /** What a call that wants a buffer of `target` slots, or none at all, answers and leaves. */
  predicate Moves(load: Load, target: nat, bucketBytes: nat, granted: bool, reply: Reply, next: Load) {
    if target == 0 || Made(target, bucketBytes, granted)
    then reply == Sized(Reallocated) && next == Load(load.live, 0, target)
    else reply == Sized(Failed) && next == load
  }

  /** What storing under a key does to the load. Only a new key past the load needs memory, and only that can be
      refused; a new key within the load may or may not reuse a tombstone. */
  predicate Stores(held: bool, load: Load, bucketBytes: nat, granted: bool, reply: Reply, next: Load) {
    var planned, threshold := 1 + load.live + load.dead, GrowthThreshold(load.slots);
    Files(held, planned <= threshold, Starved(planned, threshold, bucketBytes, granted), SlotsForElements(planned), load, reply, next)
  }

  predicate Files(held: bool, fits: bool, starved: bool, grown: nat, load: Load, reply: Reply, next: Load) {
    if held then reply == Stored && next == load
    else if fits then
      reply == Stored && next.live == load.live + 1 && next.slots == load.slots && load.dead - 1 <= next.dead <= load.dead
    else if starved then reply == Refused && next == load
    else reply == Stored && next == Load(load.live + 1, 0, grown)
  }

  /** What a finite map with a load answers to a call, given what the allocator would say, and the load it is left
      with. */
  predicate Answers(m: map<Key, Value>, load: Load, bucketBytes: nat, call: Call, granted: bool, reply: Reply, next: Load) {
    match call
    case CallUpsert(k, _) => Stores(k in m, load, bucketBytes, granted, reply, next)
    case CallErase(k) =>
      if k in m then reply == Erased && next.live == load.live - 1 && next.dead == load.dead + 1 && next.slots == load.slots
      else reply == Absent && next == load
    case CallFind(k) => reply == (if k in m then Found(m[k]) else Absent) && next == load
    case CallReserve(elements) =>
      if elements <= GrowthThreshold(load.slots) then reply == Sized(Unchanged) && next == load
      else Moves(load, SlotsForElements(elements), bucketBytes, granted, reply, next)
    case CallResize(slots) =>
      if slots < load.live then reply == Sized(Failed) && next == load
      else Moves(load, slots, bucketBytes, granted, reply, next)
    case CallRehash(buckets) =>
      Moves(load, RehashTarget(buckets, load.live), bucketBytes, granted, reply, next)
    case CallShrink =>
      var target := SlotsForElements(load.live);
      reply == Done && next == (if target != load.slots && (target == 0 || Made(target, bucketBytes, granted))
                                then Load(load.live, 0, target) else load)
    case CallClear => reply == Done && next == Load(0, 0, load.slots)
  }

  function After(m: map<Key, Value>, call: Call, reply: Reply): map<Key, Value> {
    match call
    case CallUpsert(k, v) => if reply == Stored then m[k := v] else m
    case CallErase(k) => m - {k}
    case CallClear => map[]
    case _ => m
  }

  /** Arguments that fit the table's 64-bit offset type. */
  predicate Representable(call: Call) {
    match call
    case CallReserve(elements) => elements < SIZE_MODULUS
    case CallResize(slots) => slots < SIZE_MODULUS
    case CallRehash(buckets) => buckets < SIZE_MODULUS
    case _ => true
  }

  /** The finite map after some calls and their replies. */
  function MapAfter(m: map<Key, Value>, calls: seq<Call>, replies: seq<Reply>): map<Key, Value>
    requires |calls| == |replies|
    decreases |calls|
  {
    if calls == [] then m
    else
      var last := |calls| - 1;
      After(MapAfter(m, calls[..last], replies[..last]), calls[last], replies[last])
  }

  /** Whether a finite map starting at `m`, with the loads in between, gives these replies to these calls when the
      allocator says what `grants` says. */
  predicate Explains(m: map<Key, Value>, loads: seq<Load>, bucketBytes: nat, calls: seq<Call>, grants: seq<bool>,
                     replies: seq<Reply>)
    requires |calls| == |grants| == |replies| && |loads| == |calls| + 1
  {
    forall i :: 0 <= i < |calls| ==>
      Answers(MapAfter(m, calls[..i], replies[..i]), loads[i], bucketBytes, calls[i], grants[i], replies[i], loads[i + 1])
  }

  lemma UpsertStores(held: bool, load: Load, threshold: nat, bucketBytes: nat, granted: bool, refused: bool, next: Load)
    requires threshold == GrowthThreshold(load.slots)
    requires refused <==> !held && Starved(1 + load.live + load.dead, threshold, bucketBytes, granted)
    requires held || refused ==> next == load
    requires !held && !refused ==> next.live == load.live + 1
    requires !held && !refused ==>
               if 1 + load.live + load.dead <= threshold
               then next.slots == load.slots && load.dead - 1 <= next.dead <= load.dead
               else next.slots == SlotsForElements(1 + load.live + load.dead) && next.dead == 0
    ensures Stores(held, load, bucketBytes, granted, if refused then Refused else Stored, next)
  {
  }

  method PerformUpsert(table: HashTable, k: Key, v: Value, granted: bool) returns (reply: Reply)
    requires table.Valid()
    modifies table, table.states, table.keys, table.values
    ensures table.Valid() && (reply == Stored || reply == Refused)
    ensures Stores(k in old(table.Contents()), old(LoadOf(table)), table.bucketBytes, granted, reply, LoadOf(table))
    ensures table.Contents() == if reply == Stored then old(table.Contents())[k := v] else old(table.Contents())
    ensures table.states == old(table.states) || fresh(table.states)
    ensures table.keys == old(table.keys) || fresh(table.keys)
    ensures table.values == old(table.values) || fresh(table.values)
  {
    ghost var held, load, threshold := k in table.Contents(), LoadOf(table), table.growthThreshold;
    ghost var starved := table.NeedsMemory(granted);
    assert starved == Starved(1 + load.live + load.dead, threshold, table.bucketBytes, granted);
    var status := table.Upsert(k, v, granted);
    reply := if status == Success then Stored else Refused;
    UpsertStores(held, load, threshold, table.bucketBytes, granted, reply == Refused, LoadOf(table));
  }

  method PerformRehash(table: HashTable, buckets: nat, granted: bool) returns (reply: Reply)
    requires table.Valid() && buckets < SIZE_MODULUS
    modifies table
    ensures table.Valid() && table.Contents() == old(table.Contents())
    ensures Moves(old(LoadOf(table)), RehashTarget(buckets, old(LoadOf(table)).live), table.bucketBytes, granted, reply, LoadOf(table))
    ensures table.states == old(table.states) || fresh(table.states)
    ensures table.keys == old(table.keys) || fresh(table.keys)
    ensures table.values == old(table.values) || fresh(table.values)
  {
    var rehashed := table.Rehash(buckets, granted);
    reply := Sized(rehashed);
  }

  method PerformFind(table: HashTable, k: Key) returns (reply: Reply)
    requires table.Valid()
    ensures reply == if k in table.Contents() then Found(table.Contents()[k]) else Absent
  {
    var found, at := table.ProbeToFind(k);
    if found {
      OverwriteAssigns(table.states[..], table.keys[..], table.values[..], table.values[at], at);
      reply := Found(table.values[at]);
    } else {
      reply := Absent;
    }
  }

  method PerformErase(table: HashTable, k: Key) returns (reply: Reply)
    requires table.Valid()
    modifies table`populatedCount, table`deletedCount, table.states
    ensures table.Valid() && table.Contents() == old(table.Contents()) - {k}
    ensures reply == if k in old(table.Contents()) then Erased else Absent
    ensures var gone := if reply == Erased then 1 else 0;
            && table.populatedCount == old(table.populatedCount) - gone
            && table.deletedCount == old(table.deletedCount) + gone
  {
    var found := table.Erase(k);
    reply := if found then Erased else Absent;
  }

  /** A call that only changes the buffer, or what is in all of it. */
  predicate Sizes(call: Call) {
    call.CallReserve? || call.CallResize? || call.CallRehash? || call.CallShrink? || call.CallClear?
  }

  method PerformSizing(table: HashTable, call: Call, granted: bool) returns (reply: Reply)
    requires table.Valid() && Representable(call) && Sizes(call)
    modifies table, table.states
    ensures table.Valid() && table.Contents() == After(old(table.Contents()), call, reply)
    ensures Answers(old(table.Contents()), old(LoadOf(table)), table.bucketBytes, call, granted, reply, LoadOf(table))
    ensures table.states == old(table.states) || fresh(table.states)
    ensures table.keys == old(table.keys) || fresh(table.keys)
    ensures table.values == old(table.values) || fresh(table.values)
  {
    reply := Done;
    match call
    case CallReserve(elements) =>
      var reserved := table.Reserve(elements, granted);
      reply := Sized(reserved);
    case CallResize(slots) =>
      var resized := table.ForceResize(slots, granted);
      reply := Sized(resized);
    case CallRehash(buckets) => reply := PerformRehash(table, buckets, granted);
    case CallShrink => table.ShrinkToFit(granted);
    case CallClear => table.Clear();
  }

  /** One call on the table, whatever the allocator does, is one call on the map. */
  method Perform(table: HashTable, call: Call, granted: bool) returns (reply: Reply)
    requires table.Valid() && Representable(call)
    modifies table, table.states, table.keys, table.values
    ensures table.Valid() && table.Contents() == After(old(table.Contents()), call, reply)
    ensures Answers(old(table.Contents()), old(LoadOf(table)), table.bucketBytes, call, granted, reply, LoadOf(table))
    ensures table.states == old(table.states) || fresh(table.states)
    ensures table.keys == old(table.keys) || fresh(table.keys)
    ensures table.values == old(table.values) || fresh(table.values)
  {
    match call
    case CallUpsert(k, v) => reply := PerformUpsert(table, k, v, granted);
    case CallErase(k) => reply := PerformErase(table, k);
    case CallFind(k) => reply := PerformFind(table, k);
    case _ => reply := PerformSizing(table, call, granted);
  }

  lemma TakesOneMore<T>(s: seq<T>, i: nat)
    requires i < |s|
    ensures s[..i + 1] == s[..i] + [s[i]]
  {
  }

  lemma TakesAll<T>(s: seq<T>)
    ensures s[..|s|] == s
  {
  }

  lemma ExplainsOneMore(m: map<Key, Value>, loads: seq<Load>, bucketBytes: nat, calls: seq<Call>, grants: seq<bool>,
                        replies: seq<Reply>, call: Call, granted: bool, reply: Reply, next: Load)
    requires |calls| == |grants| == |replies| && |loads| == |calls| + 1
    requires Explains(m, loads, bucketBytes, calls, grants, replies)
    requires Answers(MapAfter(m, calls, replies), loads[|calls|], bucketBytes, call, granted, reply, next)
    ensures Explains(m, loads + [next], bucketBytes, calls + [call], grants + [granted], replies + [reply])
    ensures MapAfter(m, calls + [call], replies + [reply]) == After(MapAfter(m, calls, replies), call, reply)
  {
    var cs, rs := calls + [call], replies + [reply];
    assert cs[..|calls|] == calls && rs[..|calls|] == replies;
    forall i | 0 <= i < |cs|
      ensures Answers(MapAfter(m, cs[..i], rs[..i]), (loads + [next])[i], bucketBytes, cs[i], (grants + [granted])[i],
                      rs[i], (loads + [next])[i + 1])
    {
      if i < |calls| {
        assert cs[..i] == calls[..i] && rs[..i] == replies[..i];
      }
    }
  }

  /** Replies and loads so far, and the table they led to. */
  ghost predicate Replayed(table: HashTable, m: map<Key, Value>, start: Load, calls: seq<Call>, grants: seq<bool>,
                           replies: seq<Reply>, loads: seq<Load>)
    reads table, table.states, table.keys, table.values
  {
    && table.Valid() && |replies| == |grants| == |calls| && |loads| == |calls| + 1
    && loads[0] == start && loads[|calls|] == LoadOf(table)
    && Explains(m, loads, table.bucketBytes, calls, grants, replies)
    && table.Contents() == MapAfter(m, calls, replies)
  }

  method PerformNext(table: HashTable, call: Call, granted: bool, ghost m: map<Key, Value>, ghost start: Load,
                     ghost calls: seq<Call>, ghost grants: seq<bool>, replies: seq<Reply>, loads: seq<Load>)
    returns (reply: Reply)
    requires Replayed(table, m, start, calls, grants, replies, loads) && Representable(call)
    modifies table, table.states, table.keys, table.values
    ensures Replayed(table, m, start, calls + [call], grants + [granted], replies + [reply], loads + [LoadOf(table)])
    ensures table.states == old(table.states) || fresh(table.states)
    ensures table.keys == old(table.keys) || fresh(table.keys)
    ensures table.values == old(table.values) || fresh(table.values)
  {
    reply := Perform(table, call, granted);
    ExplainsOneMore(m, loads, table.bucketBytes, calls, grants, replies, call, granted, reply, LoadOf(table));
  }

  /** Every run of the table is a run of a finite map with a load, and what the allocator says decides every
      refusal. */
  method Replay(table: HashTable, calls: seq<Call>, grants: seq<bool>) returns (replies: seq<Reply>, loads: seq<Load>)
    requires table.Valid() && |grants| == |calls| && forall i :: 0 <= i < |calls| ==> Representable(calls[i])
    modifies table, table.states, table.keys, table.values
    ensures Replayed(table, old(table.Contents()), old(LoadOf(table)), calls, grants, replies, loads)
  {
    replies, loads := [], [LoadOf(table)];
    for i := 0 to |calls|
      invariant table.states == old(table.states) || fresh(table.states)
      invariant table.keys == old(table.keys) || fresh(table.keys)
      invariant table.values == old(table.values) || fresh(table.values)
      invariant Replayed(table, old(table.Contents()), old(LoadOf(table)), calls[..i], grants[..i], replies, loads)
    {
      var reply := PerformNext(table, calls[i], grants[i], old(table.Contents()), old(LoadOf(table)), calls[..i], grants[..i],
                               replies, loads);
      TakesOneMore(calls, i);
      TakesOneMore(grants, i);
      replies, loads := replies + [reply], loads + [LoadOf(table)];
    }
    TakesAll(calls);
    TakesAll(grants);
  }

  // ---- The load over a run ------------------------------------------------------------------------

  predicate WithinLoad(load: Load) {
    load.live + load.dead <= GrowthThreshold(load.slots)
  }

  /** A buffer at least as large as some elements call for has a threshold that covers them. */
  lemma BufferCovers(elements: nat, target: nat, bucketBytes: nat)
    requires bucketBytes >= 72 && elements < SIZE_MODULUS && target >= SlotsForElements(elements)
    requires target == 0 || Allocatable(target, bucketBytes)
    ensures elements <= GrowthThreshold(target)
  {
    if elements > 0 {
      RequestIsRounded(elements);
      ThresholdCoversRequest(elements);
      AcceptedIsSmall(target, bucketBytes);
      ExactThreshold(SlotsForElements(elements));
    }
  }

  lemma GrownCovers(planned: nat, threshold: nat, bucketBytes: nat, granted: bool)
    requires bucketBytes >= 72 && planned < SIZE_MODULUS
    ensures !Starved(planned, threshold, bucketBytes, granted) && planned > threshold ==>
              planned <= GrowthThreshold(SlotsForElements(planned))
  {
    if !Starved(planned, threshold, bucketBytes, granted) && planned > threshold {
      BufferCovers(planned, SlotsForElements(planned), bucketBytes);
    }
  }

  lemma FilingKeepsLoad(held: bool, starved: bool, grown: nat, load: Load, reply: Reply, next: Load)
    requires WithinLoad(load)
    requires Files(held, 1 + load.live + load.dead <= GrowthThreshold(load.slots), starved, grown, load, reply, next)
    requires !starved && 1 + load.live + load.dead > GrowthThreshold(load.slots) ==>
               1 + load.live + load.dead <= GrowthThreshold(grown)
    ensures WithinLoad(next)
  {
  }

  lemma StoringKeepsLoad(held: bool, load: Load, bucketBytes: nat, granted: bool, reply: Reply, next: Load)
    requires bucketBytes >= 72 && WithinLoad(load) && load.live + load.dead < UNREPRESENTABLE
    requires Stores(held, load, bucketBytes, granted, reply, next)
    ensures WithinLoad(next)
  {
    var planned, threshold := 1 + load.live + load.dead, GrowthThreshold(load.slots);
    GrownCovers(planned, threshold, bucketBytes, granted);
    FilingKeepsLoad(held, Starved(planned, threshold, bucketBytes, granted), SlotsForElements(planned), load, reply, next);
  }

  lemma MovingKeepsLoad(load: Load, target: nat, bucketBytes: nat, granted: bool, reply: Reply, next: Load)
    requires bucketBytes >= 72 && WithinLoad(load) && load.live < SIZE_MODULUS && target >= SlotsForElements(load.live)
    requires Moves(load, target, bucketBytes, granted, reply, next)
    ensures WithinLoad(next)
  {
    if next != load {
      BufferCovers(load.live, target, bucketBytes);
    }
  }

  lemma SmallThreshold(slots: nat)
    ensures GrowthThreshold(slots) < UNREPRESENTABLE
  {
  }

  /** An explicit resize that goes through to slots whose threshold lies below the live pairs. Nothing else about
      a call can be too tight, and a caller can tell from the table's two numbers and the request. */
  predicate Overfills(load: Load, bucketBytes: nat, call: Call, granted: bool) {
    call.CallResize? && load.live <= call.slots && (call.slots == 0 || Made(call.slots, bucketBytes, granted))
    && GrowthThreshold(call.slots) < load.live
  }

  lemma ResizeKeepsLoadExactly(m: map<Key, Value>, load: Load, bucketBytes: nat, slots: nat, granted: bool, reply: Reply,
                               next: Load)
    requires WithinLoad(load) && Answers(m, load, bucketBytes, CallResize(slots), granted, reply, next)
    ensures WithinLoad(next) <==> !Overfills(load, bucketBytes, CallResize(slots), granted)
  {
  }

  /** A resize overfills exactly if the slots it gets hold the live pairs at more than the load factor. */
  lemma OverfillsMeans(load: Load, bucketBytes: nat, slots: nat, granted: bool)
    requires bucketBytes >= 72
    ensures Overfills(load, bucketBytes, CallResize(slots), granted)
       <==> Made(slots, bucketBytes, granted) && load.live <= slots && 3 * slots < 4 * load.live
  {
    if Made(slots, bucketBytes, granted) {
      AcceptedIsSmall(slots, bucketBytes);
    }
  }

  /** No call takes a table past its load, not the deepest fill nor the tightest shrink, but a resize that
      overfills it; and such a resize always does. */
  lemma AnswerKeepsLoad(m: map<Key, Value>, load: Load, bucketBytes: nat, call: Call, granted: bool, reply: Reply, next: Load)
    requires bucketBytes >= 72 && Representable(call) && WithinLoad(load)
    requires Answers(m, load, bucketBytes, call, granted, reply, next)
    ensures WithinLoad(next) <==> !Overfills(load, bucketBytes, call, granted)
  {
    SmallThreshold(load.slots);
    match call
    case CallUpsert(k, _) => StoringKeepsLoad(k in m, load, bucketBytes, granted, reply, next);
    case CallReserve(elements) =>
      if elements > GrowthThreshold(load.slots) && next != load {
        BufferCovers(elements, next.slots, bucketBytes);
      }
    case CallResize(slots) => ResizeKeepsLoadExactly(m, load, bucketBytes, slots, granted, reply, next);
    case CallRehash(buckets) => MovingKeepsLoad(load, RehashTarget(buckets, load.live), bucketBytes, granted, reply, next);
    case CallShrink =>
      if next != load {
        BufferCovers(load.live, next.slots, bucketBytes);
      }
    case _ =>
  }

  /** No call before the `n`-th of a run overfills the table it finds. */
  predicate NoneOverfills(loads: seq<Load>, bucketBytes: nat, calls: seq<Call>, grants: seq<bool>, n: nat)
    requires |calls| == |grants| && |loads| == |calls| + 1 && n <= |calls|
  {
    forall j :: 0 <= j < n ==> !Overfills(loads[j], bucketBytes, calls[j], grants[j])
  }

  /** So a run keeps at most three quarters of its slots in use throughout, tombstones counted, if and only if none
      of its resizes overfills. */
  lemma {:induction false} RunStaysWithinLoad(m: map<Key, Value>, loads: seq<Load>, bucketBytes: nat, calls: seq<Call>,
                                              grants: seq<bool>, replies: seq<Reply>, n: nat)
    requires |calls| == |grants| == |replies| && |loads| == |calls| + 1 && n <= |calls|
    requires bucketBytes >= 72 && Explains(m, loads, bucketBytes, calls, grants, replies) && WithinLoad(loads[0])
    requires forall j :: 0 <= j < |calls| ==> Representable(calls[j])
    ensures (forall i :: 0 <= i <= n ==> WithinLoad(loads[i])) <==> NoneOverfills(loads, bucketBytes, calls, grants, n)
  {
    if n > 0 {
      RunStaysWithinLoad(m, loads, bucketBytes, calls, grants, replies, n - 1);
      if WithinLoad(loads[n - 1]) {
        AnswerKeepsLoad(MapAfter(m, calls[..n - 1], replies[..n - 1]), loads[n - 1], bucketBytes, calls[n - 1], grants[n - 1],
                        replies[n - 1], loads[n]);
      }
    }
  }

  /** Some do: 32 slots for 32 elements. */
  lemma ResizeCanOverfill()
    ensures var load, next := Load(32, 0, 64), Load(32, 0, 32);
            && WithinLoad(load) && !WithinLoad(next) && Overfills(load, 72, CallResize(32), true)
            && forall m: map<Key, Value> :: Answers(m, load, 72, CallResize(32), true, Sized(Reallocated), next)
  {
    AddressableMeansPow2(32);
  }
}

/** Storage going back and forth between the two tables. */
module StorageExchange {
  import opened SlotHeader
  import opened HeaderScan
  import opened ProbeRuns
  import opened Capacity
  import opened GrowableTable
  import PinnedTable
  import opened PinnedInvariant
  import opened LinearRuns
  import opened PinnedLinearizability
  import opened PinnedRefinement
  import PinnedSafety

  /** The storage of a table, as the pinned table reads it. */
  ghost predicate SpellsOut(table: HashTable, w: PinnedTable.State)
    reads table, table.states, table.keys, table.values
  {
    && w.headers.Heads? && |w.headers.heads| * BUCKET_SLOTS == table.states.Length
    && Decode(w.headers.heads) == table.states[..] && w.keys == table.keys[..] && w.values == table.values[..]
    && w.populated == table.populatedCount && w.deleted == table.deletedCount
  }

  /** Any storage the growable table built may be adopted by the pinned one. */
  lemma ReleasedIsAdoptable(table: HashTable, w: PinnedTable.State)
    requires table.Valid() && SpellsOut(table, w) && |w.headers.staged| == |w.pcs|
    requires forall t :: 0 <= t < |w.pcs| ==> w.pcs[t] == PinnedTable.Idle
    ensures FreshlyAdopted(table.hash, w)
  {
  }

  /** Marking a slot of the headers in place is an assignment to one element of what they spell out, which is
      how the growable table's methods write it. */
  lemma MarkedInPlace(heads: seq<Head>, i: nat)
    requires i < |heads| * BUCKET_SLOTS
    ensures var b := i / BUCKET_SLOTS;
            && Decode(heads[b := MarkPopulated(heads[b], i)]) == Decode(heads)[i := Populated]
            && Decode(heads[b := MarkDeleted(heads[b], i)]) == Decode(heads)[i := Deleted]
  {
    var b := i / BUCKET_SLOTS;
    var filled, buried := heads[b := MarkPopulated(heads[b], i)], heads[b := MarkDeleted(heads[b], i)];
    forall j | 0 <= j < |heads| * BUCKET_SLOTS
      ensures Decode(filled)[j] == Decode(heads)[i := Populated][j]
      ensures Decode(buried)[j] == Decode(heads)[i := Deleted][j]
    {
      DirectMarkIsLocal(heads[b], i, j);
      if j != i && j / BUCKET_SLOTS == b && j % BUCKET_SLOTS == i % BUCKET_SLOTS {
        SameBucket(i, j);
      }
    }
  }

  /** After any interleaving of calls that all returned, the storage the pinned table gives up is one the
      growable table takes back. */
  lemma QuiescentIsSound(hash: Key -> nat, w: PinnedTable.State, labels: seq<PinnedTable.Label>)
    requires FreshlyAdopted(hash, w) && PinnedTable.Schedules(w, labels) && |w.keys| < PinnedTable.OFFSET_MODULUS
    requires forall t :: 0 <= t < |w.pcs| ==> PinnedTable.Run(hash, w, labels).pcs[t] == PinnedTable.Idle
    ensures var r := PinnedTable.Run(hash, w, labels);
            Sound(hash, Decode(r.headers.heads), r.keys, r.populated, r.deleted)
  {
    PinnedSafety.QuiescentIsAdoptable(hash, w, labels);
  }

  /** And the map it then stands for is where the sequential history of those calls ends. */
  lemma QuiescentContents(hash: Key -> nat, w: PinnedTable.State, labels: seq<PinnedTable.Label>)
    requires FreshlyAdopted(hash, w) && PinnedTable.Schedules(w, labels) && |w.keys| < PinnedTable.OFFSET_MODULUS
    requires forall t :: 0 <= t < |w.pcs| ==> PinnedTable.Run(hash, w, labels).pcs[t] == PinnedTable.Idle
    ensures Inv(hash, CellsOf(w)) && PinnedTable.Schedules(CellsOf(w), labels)
    ensures var r := PinnedTable.Run(hash, w, labels);
            var views := ViewsOf(hash, CellsOf(w), labels);
            && Sound(hash, Decode(r.headers.heads), r.keys, r.populated, r.deleted)
            && LinearRun(views, labels)
            && views[0].ledger.map_ == Contents(Decode(w.headers.heads), w.keys, w.values)
            && LinearRuns.Replays(views[0].ledger, History(views, labels, |labels|),
                                  Ledger(Contents(Decode(r.headers.heads), r.keys, r.values), Count(Decode(r.headers.heads), Free)))
  {
    QuiescentIsSound(hash, w, labels);
    EveryHeaderRunIsLinear(hash, w, labels);
    var views := ViewsOf(hash, CellsOf(w), labels);
    HistoryReplays(views, labels, |labels|);
    AdoptionMirrors(hash, w);
    RunMirrors(hash, w, CellsOf(w), labels);
    RunKeepsInv(hash, CellsOf(w), labels);
    PinnedSafety.IdleDecodes(hash, PinnedTable.Run(hash, w, labels), PinnedTable.Run(hash, CellsOf(w), labels));
    assert labels[..|labels|] == labels;
  }

  /** Taking the storage back and rehashing keeps every pair the concurrent phase left and drops every
      tombstone; a refused rehash still leaves every pair in place. */
  method Reclaim(w: PinnedTable.State, labels: seq<PinnedTable.Label>, hash: Key -> nat, bucketBytes: nat,
                 states: array<SlotState>, keys: array<Key>, values: array<Value>,
                 populated: nat, deleted: nat, granted: bool)
    returns (table: HashTable, r: ReserveResult)
    requires FreshlyAdopted(hash, w) && PinnedTable.Schedules(w, labels)
    requires forall t :: 0 <= t < |w.pcs| ==> PinnedTable.Run(hash, w, labels).pcs[t] == PinnedTable.Idle
    requires bucketBytes >= 72 && {states as object} !! {keys as object} !! {values as object}
    requires states.Length == 0 || Allocatable(states.Length, bucketBytes)
    requires var end := PinnedTable.Run(hash, w, labels);
             && Decode(end.headers.heads) == states[..] && end.keys == keys[..] && end.values == values[..]
             && end.populated == populated && end.deleted == deleted
    ensures table.Valid()
    ensures var end := PinnedTable.Run(hash, w, labels);
            Unique(Decode(end.headers.heads), end.keys)
            && table.Contents() == Contents(Decode(end.headers.heads), end.keys, end.values)
    ensures table.populatedCount == populated && (r == Reallocated || r == Failed)
    ensures var target := RehashTarget(0, populated);
            && (r == Reallocated <==> target == 0 || Made(target, bucketBytes, granted))
            && (r == Reallocated ==> table.deletedCount == 0 && table.slotsCount == target)
    ensures r == Failed ==> table.states == states && table.keys == keys && table.values == values && table.deletedCount == deleted
  {
    if states.Length > 0 {
      AcceptedIsSmall(states.Length, bucketBytes);
    }
    QuiescentIsSound(hash, w, labels);
    table := new HashTable.Adopt(states, keys, values, populated, deleted, hash, bucketBytes);
    r := table.Rehash(0, granted);
  }
}
