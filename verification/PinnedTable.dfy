/** The pinned hash table as a step system. Any number of threads run the probe loops of the table over
    shared memory, one atomic access a step, in whatever order a schedule picks.

    The header memory comes in two forms that run the same thread code: `Heads`, the real 64-bit headers
    with one staged header a thread, and `Cells`, which names the state of each slot and who holds it. The
    second is the one reasoned about; PinnedRefinement shows that the first behaves exactly like it. */
module PinnedTable {
  import opened SlotHeader
  import opened ProbeRuns

  const OFFSET_MODULUS: nat := 0x1_0000_0000_0000_0000

  /** A shared counter of the table's unsigned offset type, which wraps. */
  type Offset = x: nat | x < OFFSET_MODULUS

  function Increment(c: Offset): Offset {
    if c + 1 == OFFSET_MODULUS then 0 else c + 1
  }

  function Decrement(c: Offset): Offset {
    if c == 0 then OFFSET_MODULUS - 1 else c - 1
  }

  datatype Op =
    | Find(key: Key)
    | Emplace(key: Key, value: Value)
    | Update(key: Key, value: Value)
    | Erase(key: Key)

  datatype Answer = Found(value: Value) | Missing | Success | KeyNotFound | CapacityExhausted

  // ---- Header memory ------------------------------------------------------------------------------

  datatype Cell = Open(state: SlotState) | Held(owner: nat, state: SlotState)

  datatype Headers = Cells(cells: seq<Cell>) | Heads(heads: seq<Head>, staged: seq<Head>)

  predicate Covers(h: Headers, slots: nat, threads: nat) {
    match h
    case Cells(cells) => |cells| == slots
    case Heads(heads, staged) => |heads| * BUCKET_SLOTS == slots && |staged| == threads
  }

  /** One iteration of the lock loop: the new memory, and whether the slot was taken. */
  function TryLock(h: Headers, slots: nat, t: nat, threads: nat, slot: nat): (r: (Headers, bool))
    requires Covers(h, slots, threads) && t < threads && slot < slots
    ensures Covers(r.0, slots, threads) && r.0.Cells? == h.Cells?
  {
    match h
    case Cells(cells) =>
      if cells[slot].Held? then (h, false) else (Cells(cells[slot := Held(t, cells[slot].state)]), true)
    case Heads(heads, staged) =>
      var b := slot / BUCKET_SLOTS;
      var seen := Observed(heads[b], slot);
      (Heads(heads[b := FetchOr(heads[b], slot)], staged[t := seen]), seen != Head(Mask(slot), Mask(slot)))
  }

  /** The state a thread sees for the slot it holds: always its own staged copy. */
  function Staged(h: Headers, slots: nat, t: nat, threads: nat, slot: nat): SlotState
    requires Covers(h, slots, threads) && t < threads && slot < slots
  {
    match h
    case Cells(cells) => cells[slot].state
    case Heads(_, staged) => StateOf(staged[t], slot)
  }

  function Mark(h: Headers, slots: nat, t: nat, threads: nat, slot: nat, deleted: bool): (r: Headers)
    requires Covers(h, slots, threads) && t < threads && slot < slots
    ensures Covers(r, slots, threads) && r.Cells? == h.Cells?
  {
    match h
    case Cells(cells) => Cells(cells[slot := Held(t, if deleted then Deleted else Populated)])
    case Heads(heads, staged) =>
      Heads(heads, staged[t := if deleted then MarkDeleted(staged[t], slot) else MarkPopulated(staged[t], slot)])
  }

  function Unlock(h: Headers, slots: nat, t: nat, threads: nat, slot: nat): (r: Headers)
    requires Covers(h, slots, threads) && t < threads && slot < slots
    ensures Covers(r, slots, threads) && r.Cells? == h.Cells?
  {
    match h
    case Cells(cells) => Cells(cells[slot := Open(cells[slot].state)])
    case Heads(heads, staged) =>
      var b := slot / BUCKET_SLOTS;
      Heads(heads[b := FetchXor(heads[b], staged[t], slot)], staged)
  }

  // ---- Threads ------------------------------------------------------------------------------------

  /** What a thread does once it has let go of the slot it holds. */
  datatype Then = WalkOn | Finish(answer: Answer) | CountUp

  datatype Stage =
    | Locking            // about to fetch-or the slot
    | Inspecting         // holds the slot, about to look at its state and key
    | Reading            // found: about to hand the value to the callback
    | Assigning          // found: about to overwrite the value
    | Burying            // found: about to stage the tombstone
    | CountingTombstone  // tombstone staged, about to add to the deleted count
    | CountingRemoval    // about to subtract from the populated count
    | BuildingKey        // free: about to write the key
    | BuildingValue      // about to write the value
    | Marking            // about to stage the populated state
    | Releasing(then_: Then)  // about to fetch-xor the slot
    | CountingInsert     // slot released, about to add to the populated count
    | Answering(answer: Answer)

  datatype Pc = Idle | Busy(stage: Stage, op: Op, off: nat, probes: nat)

  predicate Holding(pc: Pc) {
    pc.Busy? && !pc.stage.Locking? && !pc.stage.CountingInsert? && !pc.stage.Answering?
  }

  predicate Probing(pc: Pc) {
    Holding(pc) || (pc.Busy? && pc.stage.Locking?)
  }

  datatype State = State(headers: Headers, keys: seq<Key>, values: seq<Value>,
                         populated: Offset, deleted: Offset, pcs: seq<Pc>)

  predicate Shaped(s: State) {
    && |s.values| == |s.keys|
    && Covers(s.headers, |s.keys|, |s.pcs|)
    && forall t :: 0 <= t < |s.pcs| && Probing(s.pcs[t]) ==> s.pcs[t].off < |s.keys|
  }

  /** The answer of a call whose probe ended without finding the key. */
  function GiveUp(op: Op): Answer {
    match op
    case Find(_) => Missing
    case Emplace(_, _) => CapacityExhausted
    case Update(_, _) => KeyNotFound
    case Erase(_) => KeyNotFound
  }

  /** Whether the probe loop ends after this slot: the find loop compares offsets, the upsert loop counts. */
  predicate LastProbe(hash: Key -> nat, op: Op, off: nat, probes: nat, slots: nat)
    requires off < slots
  {
    if op.Emplace? then probes + 1 == slots else NextOffset(off, slots) == Home(hash, op.key, slots)
  }

  function Inspect(s: State, t: nat, pc: Pc): Stage
    requires Shaped(s) && t < |s.pcs| && s.pcs[t] == pc && Holding(pc)
  {
    match Staged(s.headers, |s.keys|, t, |s.pcs|, pc.off)
    case Populated =>
      if s.keys[pc.off] == pc.op.key then
        match pc.op
        case Find(_) => Reading
        case Emplace(_, _) => Assigning
        case Update(_, _) => Assigning
        case Erase(_) => Burying
      else Releasing(WalkOn)
    case Deleted => Releasing(WalkOn)
    case _ => if pc.op.Emplace? then BuildingKey else Releasing(Finish(GiveUp(pc.op)))
  }

  function AfterRelease(hash: Key -> nat, pc: Pc, then_: Then, slots: nat): (r: Pc)
    requires pc.Busy? && pc.off < slots
    ensures Probing(r) ==> r.off < slots
  {
    match then_
    case WalkOn =>
      if LastProbe(hash, pc.op, pc.off, pc.probes, slots) then pc.(stage := Answering(GiveUp(pc.op)))
      else Busy(Locking, pc.op, NextOffset(pc.off, slots), pc.probes + 1)
    case Finish(answer) => pc.(stage := Answering(answer))
    case CountUp => pc.(stage := CountingInsert)
  }

  /** One step of thread `t`; `call` is what an idle thread calls next. */
  function Step(hash: Key -> nat, s: State, t: nat, call: Op): (r: State)
    requires Shaped(s) && t < |s.pcs|
    ensures Shaped(r) && |r.pcs| == |s.pcs| && |r.keys| == |s.keys| && r.headers.Cells? == s.headers.Cells?
    ensures forall u :: 0 <= u < |s.pcs| && u != t ==> r.pcs[u] == s.pcs[u]
  {
    var n, m := |s.keys|, |s.pcs|;
    match s.pcs[t]
    case Idle =>
      if n == 0 then s.(pcs := s.pcs[t := Busy(Answering(GiveUp(call)), call, 0, 0)])
      else s.(pcs := s.pcs[t := Busy(Locking, call, Home(hash, call.key, n), 0)])
    case Busy(stage, op, off, probes) =>
      var pc := s.pcs[t];
      match stage
      case Locking =>
        var (headers, taken) := TryLock(s.headers, n, t, m, off);
        s.(headers := headers, pcs := if taken then s.pcs[t := pc.(stage := Inspecting)] else s.pcs)
      case Inspecting => s.(pcs := s.pcs[t := pc.(stage := Inspect(s, t, pc))])
      case Reading => s.(pcs := s.pcs[t := pc.(stage := Releasing(Finish(Found(s.values[off]))))])
      case Assigning =>
        var value := if op.Emplace? || op.Update? then op.value else s.values[off];
        s.(values := s.values[off := value], pcs := s.pcs[t := pc.(stage := Releasing(Finish(Success)))])
      case Burying =>
        s.(headers := Mark(s.headers, n, t, m, off, true), pcs := s.pcs[t := pc.(stage := CountingTombstone)])
      case CountingTombstone =>
        s.(deleted := Increment(s.deleted), pcs := s.pcs[t := pc.(stage := CountingRemoval)])
      case CountingRemoval =>
        s.(populated := Decrement(s.populated),
           pcs := s.pcs[t := pc.(stage := Releasing(Finish(Success)))])
      case BuildingKey => s.(keys := s.keys[off := op.key], pcs := s.pcs[t := pc.(stage := BuildingValue)])
      case BuildingValue =>
        var value := if op.Emplace? then op.value else s.values[off];
        s.(values := s.values[off := value], pcs := s.pcs[t := pc.(stage := Marking)])
      case Marking =>
        s.(headers := Mark(s.headers, n, t, m, off, false), pcs := s.pcs[t := pc.(stage := Releasing(CountUp))])
      case Releasing(then_) =>
        s.(headers := Unlock(s.headers, n, t, m, off), pcs := s.pcs[t := AfterRelease(hash, pc, then_, n)])
      case CountingInsert =>
        s.(populated := Increment(s.populated), pcs := s.pcs[t := pc.(stage := Answering(Success))])
      case Answering(_) => s.(pcs := s.pcs[t := Idle])
  }

  datatype Label = Label(thread: nat, call: Op)

  predicate Schedules(s: State, labels: seq<Label>) {
    forall i :: 0 <= i < |labels| ==> labels[i].thread < |s.pcs|
  }

  /** The state a schedule leads to, one label a step. */
  function Run(hash: Key -> nat, s: State, labels: seq<Label>): (r: State)
    requires Shaped(s) && Schedules(s, labels)
    ensures Shaped(r) && |r.pcs| == |s.pcs| && |r.keys| == |s.keys| && r.headers.Cells? == s.headers.Cells?
  {
    if labels == [] then s
    else
      var before := Run(hash, s, labels[..|labels| - 1]);
      Step(hash, before, labels[|labels| - 1].thread, labels[|labels| - 1].call)
  }
}
