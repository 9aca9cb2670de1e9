/** What every step of every run of the pinned table keeps, over the named-cell form of the header memory. */
module PinnedInvariant {
  import opened SlotHeader
  import opened ProbeRuns
  import opened PinnedTable

  /** The state each slot logically has: a held slot counts as whatever its holder has staged. */
  ghost function Logical(s: State): (r: seq<SlotState>)
    requires s.headers.Cells?
    ensures |r| == |s.headers.cells|
    ensures forall i :: 0 <= i < |r| ==> r[i] == s.headers.cells[i].state
  {
    seq(|s.headers.cells|, i requires 0 <= i < |s.headers.cells| => s.headers.cells[i].state)
  }

  ghost predicate Owns(s: State, t: nat, off: nat)
    requires s.headers.Cells?
  {
    off < |s.headers.cells| && s.headers.cells[off].Held? && s.headers.cells[off].owner == t
  }

  /** The thread stands at the `probes`-th slot of its key's sequence and may forget the ones before it. */
  ghost predicate WalkedTo(hash: Key -> nat, s: State, op: Op, off: nat, probes: nat)
    requires Shaped(s) && s.headers.Cells?
  {
    var n := |s.keys|;
    probes < n && off == At(Home(hash, op.key, n), probes, n) && Walked(hash, Logical(s), s.keys, op.key, probes)
  }

  ghost predicate Matches(s: State, op: Op, off: nat)
    requires Shaped(s) && s.headers.Cells? && off < |s.keys|
  {
    Logical(s)[off] == Populated && s.keys[off] == op.key
  }

  /** What a thread may rely on at each point of its call, whatever the others do. */
  ghost predicate ThreadOk(hash: Key -> nat, s: State, t: nat)
    requires Shaped(s) && s.headers.Cells? && t < |s.pcs|
  {
    match s.pcs[t]
    case Idle => true
    case Busy(stage, op, off, probes) =>
      (Holding(s.pcs[t]) ==> Owns(s, t, off)) &&
      match stage
      case Locking => WalkedTo(hash, s, op, off, probes)
      case Inspecting => WalkedTo(hash, s, op, off, probes)
      case Reading => op.Find? && Matches(s, op, off)
      case Assigning => (op.Emplace? || op.Update?) && Matches(s, op, off)
      case Burying => op.Erase? && Matches(s, op, off)
      case CountingTombstone => op.Erase? && Logical(s)[off] == Deleted
      case CountingRemoval => op.Erase? && Logical(s)[off] == Deleted
      case BuildingKey => op.Emplace? && WalkedTo(hash, s, op, off, probes) && Logical(s)[off] == Free
      case BuildingValue =>
        op.Emplace? && WalkedTo(hash, s, op, off, probes) && Logical(s)[off] == Free && s.keys[off] == op.key
      case Marking =>
        op.Emplace? && WalkedTo(hash, s, op, off, probes) && Logical(s)[off] == Free && s.keys[off] == op.key
        && s.values[off] == op.value
      case Releasing(WalkOn) =>
        WalkedTo(hash, s, op, off, probes) && PassedOver(Logical(s), s.keys, op.key, off)
      case Releasing(CountUp) => op.Emplace?
      case Releasing(Finish(_)) => true
      case CountingInsert => op.Emplace?
      case Answering(_) => true
  }

  /** What a thread still owes to the shared counter of slots in `state`. */
  function Due(pc: Pc, state: SlotState): int {
    if pc.Idle? then 0
    else if pc.stage == CountingTombstone then (if state == Deleted then 1 else if state == Populated then -1 else 0)
    else if pc.stage == CountingRemoval then (if state == Populated then -1 else 0)
    else if pc.stage == Releasing(CountUp) || pc.stage == CountingInsert then (if state == Populated then 1 else 0)
    else 0
  }

  function AllDue(pcs: seq<Pc>, state: SlotState): int {
    if pcs == [] then 0 else Due(pcs[0], state) + AllDue(pcs[1..], state)
  }

  /** One counter against its true count, modulo the counter's width. */
  ghost predicate Balanced(counter: Offset, due: int, count: nat) {
    (counter + due) % OFFSET_MODULUS == count % OFFSET_MODULUS
  }

  /** Each counter plus the adjustments in flight is the true number of slots, modulo the counter's width. */
  ghost predicate CountersAgree(s: State)
    requires s.headers.Cells?
  {
    && Balanced(s.populated, AllDue(s.pcs, Populated), Count(Logical(s), Populated))
    && Balanced(s.deleted, AllDue(s.pcs, Deleted), Count(Logical(s), Deleted))
  }

  ghost predicate Owned(s: State)
    requires s.headers.Cells?
  {
    forall i :: 0 <= i < |s.headers.cells| && s.headers.cells[i].Held? ==>
      var t := s.headers.cells[i].owner;
      t < |s.pcs| && Holding(s.pcs[t]) && s.pcs[t].off == i
  }

  ghost predicate ThreadsOk(hash: Key -> nat, s: State)
    requires Shaped(s) && s.headers.Cells?
  {
    forall t :: 0 <= t < |s.pcs| ==> ThreadOk(hash, s, t)
  }

  ghost predicate Inv(hash: Key -> nat, s: State) {
    && Shaped(s) && s.headers.Cells?
    && Owned(s)
    && ThreadsOk(hash, s)
    && Intact(hash, Logical(s), s.keys)
    && CountersAgree(s)
  }

  /** The part of the invariant one thread's own step rests on. */
  ghost predicate Ready(hash: Key -> nat, s: State, t: nat) {
    Shaped(s) && s.headers.Cells? && t < |s.pcs| && ThreadOk(hash, s, t) && Intact(hash, Logical(s), s.keys)
  }

  /** An adopted storage: nobody is inside, nothing is locked, and both counters are exact. */
  ghost predicate Adopted(hash: Key -> nat, s: State) {
    && Shaped(s) && s.headers.Cells?
    && (forall i :: 0 <= i < |s.headers.cells| ==> s.headers.cells[i].Open?)
    && (forall t :: 0 <= t < |s.pcs| ==> s.pcs[t] == Idle)
    && Intact(hash, Logical(s), s.keys)
    && s.populated == Count(Logical(s), Populated) < OFFSET_MODULUS
    && s.deleted == Count(Logical(s), Deleted) < OFFSET_MODULUS
  }

  lemma {:induction false} NothingDueWhenIdle(pcs: seq<Pc>, state: SlotState)
    requires forall t :: 0 <= t < |pcs| ==> pcs[t] == Idle
    ensures AllDue(pcs, state) == 0
  {
    if pcs != [] {
      NothingDueWhenIdle(pcs[1..], state);
    }
  }

  lemma {:induction false} DueUpdate(pcs: seq<Pc>, t: nat, pc: Pc, state: SlotState)
    requires t < |pcs|
    ensures AllDue(pcs[t := pc], state) == AllDue(pcs, state) - Due(pcs[t], state) + Due(pc, state)
  {
    if t > 0 {
      assert pcs[t := pc][1..] == pcs[1..][t - 1 := pc];
      DueUpdate(pcs[1..], t - 1, pc, state);
    } else {
      assert pcs[t := pc][1..] == pcs[1..];
    }
  }

  lemma AdoptedIsInv(hash: Key -> nat, s: State)
    requires Adopted(hash, s)
    ensures Inv(hash, s)
  {
    NothingDueWhenIdle(s.pcs, Populated);
    NothingDueWhenIdle(s.pcs, Deleted);
  }

  // ---- How one thread's step may look to everybody else -------------------------------------------

  /** Slots only move free -> populated -> deleted, a slot in use keeps its key, and nobody touches a slot
      somebody else holds. */
  ghost predicate Evolves(s: State, r: State, t: nat)
    requires Shaped(s) && Shaped(r) && s.headers.Cells? && r.headers.Cells?
  {
    && |r.keys| == |s.keys|
    && (forall i :: 0 <= i < |s.keys| ==>
          || Logical(r)[i] == Logical(s)[i]
          || (Logical(s)[i] == Free && Logical(r)[i] == Populated)
          || (Logical(s)[i] == Populated && Logical(r)[i] == Deleted))
    && (forall i :: 0 <= i < |s.keys| && Logical(s)[i] != Free ==> r.keys[i] == s.keys[i])
    && (forall i :: 0 <= i < |s.keys| && s.headers.cells[i].Held? && s.headers.cells[i].owner != t ==>
          r.headers.cells[i] == s.headers.cells[i] && r.keys[i] == s.keys[i] && r.values[i] == s.values[i])
  }

  lemma WalkSurvives(hash: Key -> nat, s: State, r: State, t: nat, op: Op, off: nat, probes: nat)
    requires Shaped(s) && Shaped(r) && s.headers.Cells? && r.headers.Cells? && Evolves(s, r, t)
    requires WalkedTo(hash, s, op, off, probes)
    ensures WalkedTo(hash, r, op, off, probes)
  {
    forall d: nat | d < probes
      ensures PassedOver(Logical(r), r.keys, op.key, At(Home(hash, op.key, |r.keys|), d, |r.keys|))
    {
      assert PassedOver(Logical(s), s.keys, op.key, At(Home(hash, op.key, |s.keys|), d, |s.keys|));
    }
  }

  lemma OthersKeepGoing(hash: Key -> nat, s: State, r: State, t: nat, u: nat)
    requires Shaped(s) && Shaped(r) && s.headers.Cells? && r.headers.Cells? && Evolves(s, r, t)
    requires u < |s.pcs| && u != t && |r.pcs| == |s.pcs| && r.pcs[u] == s.pcs[u]
    requires ThreadOk(hash, s, u)
    ensures ThreadOk(hash, r, u)
  {
    var pc := s.pcs[u];
    if pc.Busy? && WalkedTo(hash, s, pc.op, pc.off, pc.probes) {
      WalkSurvives(hash, s, r, t, pc.op, pc.off, pc.probes);
    }
  }

  lemma StepEvolves(hash: Key -> nat, s: State, t: nat, call: Op)
    requires Inv(hash, s) && t < |s.pcs|
    ensures Step(hash, s, t, call).headers.Cells? && Evolves(s, Step(hash, s, t, call), t)
  {
    assert ThreadOk(hash, s, t);
  }

  // ---- The invariant is kept ----------------------------------------------------------------------

  lemma LastProbeIsFullTurn(hash: Key -> nat, s: State, op: Op, off: nat, probes: nat)
    requires Shaped(s) && s.headers.Cells? && WalkedTo(hash, s, op, off, probes) && off < |s.keys|
    ensures LastProbe(hash, op, off, probes, |s.keys|) <==> probes + 1 == |s.keys|
    ensures probes + 1 < |s.keys| ==> NextOffset(off, |s.keys|) == At(Home(hash, op.key, |s.keys|), probes + 1, |s.keys|)
  {
  }

  /** One more slot has been walked past. */
  lemma WalkExtends(hash: Key -> nat, s: State, op: Op, off: nat, probes: nat)
    requires Shaped(s) && s.headers.Cells? && WalkedTo(hash, s, op, off, probes) && off < |s.keys|
    requires PassedOver(Logical(s), s.keys, op.key, off)
    ensures Walked(hash, Logical(s), s.keys, op.key, probes + 1)
  {
  }

  lemma StepKeepsOwned(hash: Key -> nat, s: State, t: nat, call: Op)
    requires Inv(hash, s) && t < |s.pcs|
    ensures Owned(Step(hash, s, t, call))
  {
    assert ThreadOk(hash, s, t);
  }

  lemma StepWhileProbing(hash: Key -> nat, s: State, t: nat, call: Op)
    requires Inv(hash, s) && t < |s.pcs| && s.pcs[t].Busy? && Probing(s.pcs[t])
    requires WalkedTo(hash, s, s.pcs[t].op, s.pcs[t].off, s.pcs[t].probes)
    requires !s.pcs[t].stage.Releasing?
    ensures ThreadOk(hash, Step(hash, s, t, call), t)
  {
    assert ThreadOk(hash, s, t);
    StepEvolves(hash, s, t, call);
    WalkSurvives(hash, s, Step(hash, s, t, call), t, s.pcs[t].op, s.pcs[t].off, s.pcs[t].probes);
  }

  lemma StepWhileReleasing(hash: Key -> nat, s: State, t: nat, call: Op)
    requires Inv(hash, s) && t < |s.pcs| && s.pcs[t].Busy? && s.pcs[t].stage.Releasing?
    ensures ThreadOk(hash, Step(hash, s, t, call), t)
  {
    assert ThreadOk(hash, s, t);
    var pc, r := s.pcs[t], Step(hash, s, t, call);
    if pc.stage == Releasing(WalkOn) {
      LastProbeIsFullTurn(hash, s, pc.op, pc.off, pc.probes);
      WalkExtends(hash, s, pc.op, pc.off, pc.probes);
      assert Logical(r) == Logical(s);
    }
  }

  lemma StepKeepsOwnThread(hash: Key -> nat, s: State, t: nat, call: Op)
    requires Inv(hash, s) && t < |s.pcs|
    ensures ThreadOk(hash, Step(hash, s, t, call), t)
  {
    assert ThreadOk(hash, s, t);
    var pc := s.pcs[t];
    if pc.Busy? && pc.stage.Releasing? {
      StepWhileReleasing(hash, s, t, call);
    } else if pc.Busy? && Probing(pc) && WalkedTo(hash, s, pc.op, pc.off, pc.probes) {
      StepWhileProbing(hash, s, t, call);
    }
  }

  /** A thread that reached a free slot knows its key is nowhere, and fills a slot its probes lead to. */
  lemma FreeSlotMeansAbsent(hash: Key -> nat, s: State, t: nat)
    requires Ready(hash, s, t) && Holding(s.pcs[t])
    requires WalkedTo(hash, s, s.pcs[t].op, s.pcs[t].off, s.pcs[t].probes) && Logical(s)[s.pcs[t].off] == Free
    ensures !Holds(Logical(s), s.keys, s.pcs[t].op.key)
    ensures forall d: nat :: d < Dist(Home(hash, s.pcs[t].op.key, |s.keys|), s.pcs[t].off, |s.keys|) ==>
              Logical(s)[At(Home(hash, s.pcs[t].op.key, |s.keys|), d, |s.keys|)] != Free
  {
    var pc := s.pcs[t];
    var home := Home(hash, pc.op.key, |s.keys|);
    AbsentAfterWalk(hash, Logical(s), s.keys, pc.op.key, pc.probes);
    assert Dist(home, pc.off, |s.keys|) == pc.probes;
    forall d: nat | d < pc.probes
      ensures Logical(s)[At(home, d, |s.keys|)] != Free
    {
      assert PassedOver(Logical(s), s.keys, pc.op.key, At(home, d, |s.keys|));
    }
  }

  lemma KeyIntoFreeSlot(hash: Key -> nat, states: seq<SlotState>, keys: seq<Key>, i: nat, k: Key)
    requires Intact(hash, states, keys) && i < |states| && states[i] == Free
    ensures Intact(hash, states, keys[i := k])
  {
    var ks := keys[i := k];
    forall a, d: nat | 0 <= a < |states| && states[a] == Populated && d < Dist(Home(hash, ks[a], |states|), a, |states|)
      ensures states[At(Home(hash, ks[a], |states|), d, |states|)] != Free
    {
      assert ks[a] == keys[a];
    }
  }

  lemma StepKeepsIntact(hash: Key -> nat, s: State, t: nat, call: Op)
    requires Inv(hash, s) && t < |s.pcs|
    ensures Intact(hash, Logical(Step(hash, s, t, call)), Step(hash, s, t, call).keys)
  {
    assert ThreadOk(hash, s, t);
    var pc, r := s.pcs[t], Step(hash, s, t, call);
    if pc.Busy? && pc.stage == Marking {
      FreeSlotMeansAbsent(hash, s, t);
      FillKeepsIntact(hash, Logical(s), s.keys, pc.op.key, pc.off);
      assert Logical(r) == Logical(s)[pc.off := Populated] && r.keys == s.keys[pc.off := pc.op.key];
    } else if pc.Busy? && pc.stage == Burying {
      TombstoneKeepsIntact(hash, Logical(s), s.keys, pc.off);
      assert Logical(r) == Logical(s)[pc.off := Deleted];
    } else if pc.Busy? && pc.stage == BuildingKey {
      KeyIntoFreeSlot(hash, Logical(s), s.keys, pc.off, pc.op.key);
      assert Logical(r) == Logical(s);
    } else {
      assert Logical(r) == Logical(s) && r.keys == s.keys;
    }
  }

  lemma WholeTurns(x: int, turns: int)
    ensures (x + turns * OFFSET_MODULUS) % OFFSET_MODULUS == x % OFFSET_MODULUS
  {
  }

  lemma ModuloShift(a: int, b: int, by_: int)
    requires a % OFFSET_MODULUS == b % OFFSET_MODULUS
    ensures (a + by_) % OFFSET_MODULUS == (b + by_) % OFFSET_MODULUS
  {
    var turns := a / OFFSET_MODULUS - b / OFFSET_MODULUS;
    assert a + by_ == b + by_ + turns * OFFSET_MODULUS;
    WholeTurns(b + by_, turns);
  }

  lemma AddSettles(counter: Offset, due: int, count: nat)
    requires Balanced(counter, due, count)
    ensures Balanced(Increment(counter), due - 1, count)
    ensures Balanced(Decrement(counter), due + 1, count)
  {
  }

  /** What a thread's next step does to what it owes, to the true count, and to the shared counter. */
  function DueChange(pc: Pc, state: SlotState): int {
    if pc.Idle? then 0
    else match pc.stage
      case Burying => if state == Deleted then 1 else if state == Populated then -1 else 0
      case CountingTombstone => if state == Deleted then -1 else 0
      case CountingRemoval => if state == Populated then 1 else 0
      case Marking => if state == Populated then 1 else 0
      case CountingInsert => if state == Populated then -1 else 0
      case _ => 0
  }

  function CountChange(pc: Pc, state: SlotState): int {
    if pc.Busy? && pc.stage == Marking then (if state == Populated then 1 else if state == Free then -1 else 0)
    else if pc.Busy? && pc.stage == Burying then (if state == Populated then -1 else if state == Deleted then 1 else 0)
    else 0
  }

  function Counter(s: State, state: SlotState): Offset {
    if state == Populated then s.populated else s.deleted
  }

  function Recount(c: Offset, pc: Pc, state: SlotState): Offset {
    if pc.Busy? && pc.stage == CountingTombstone && state == Deleted then Increment(c)
    else if pc.Busy? && pc.stage == CountingRemoval && state == Populated then Decrement(c)
    else if pc.Busy? && pc.stage == CountingInsert && state == Populated then Increment(c)
    else c
  }

  lemma StepOnOwnDue(hash: Key -> nat, s: State, t: nat, call: Op, state: SlotState)
    requires Shaped(s) && t < |s.pcs|
    ensures Due(Step(hash, s, t, call).pcs[t], state) == Due(s.pcs[t], state) + DueChange(s.pcs[t], state)
  {
    if s.pcs[t].Busy? {
      if s.pcs[t].stage.Releasing? {
        assert Due(AfterRelease(hash, s.pcs[t], s.pcs[t].stage.then_, |s.keys|), state) == Due(s.pcs[t], state);
      } else if s.pcs[t].stage.Inspecting? {
        assert Due(s.pcs[t].(stage := Inspect(s, t, s.pcs[t])), state) == 0;
      }
    }
  }

  lemma StepOnDues(hash: Key -> nat, s: State, t: nat, call: Op, state: SlotState)
    requires Shaped(s) && t < |s.pcs|
    ensures AllDue(Step(hash, s, t, call).pcs, state) == AllDue(s.pcs, state) + DueChange(s.pcs[t], state)
  {
    var r := Step(hash, s, t, call);
    StepOnOwnDue(hash, s, t, call, state);
    assert r.pcs == s.pcs[t := r.pcs[t]];
    DueUpdate(s.pcs, t, r.pcs[t], state);
  }

  lemma StepOnCounts(hash: Key -> nat, s: State, t: nat, call: Op, state: SlotState)
    requires Ready(hash, s, t)
    ensures Count(Logical(Step(hash, s, t, call)), state) == Count(Logical(s), state) + CountChange(s.pcs[t], state)
  {
    var pc, r := s.pcs[t], Step(hash, s, t, call);
    if pc.Busy? && pc.stage == Marking {
      assert Logical(r) == Logical(s)[pc.off := Populated];
      CountUpdate(Logical(s), pc.off, Populated, state);
    } else if pc.Busy? && pc.stage == Burying {
      assert Logical(r) == Logical(s)[pc.off := Deleted];
      CountUpdate(Logical(s), pc.off, Deleted, state);
    } else {
      assert Logical(r) == Logical(s);
    }
  }

  lemma StepOnCounter(hash: Key -> nat, s: State, t: nat, call: Op, state: SlotState)
    requires Shaped(s) && t < |s.pcs| && (state == Populated || state == Deleted)
    ensures Counter(Step(hash, s, t, call), state) == Recount(Counter(s, state), s.pcs[t], state)
  {
  }

  lemma BalanceIsKept(c: Offset, due: int, count: nat, pc: Pc, state: SlotState, c': Offset, due': int, count': nat)
    requires Balanced(c, due, count) && (state == Populated || state == Deleted)
    requires c' == Recount(c, pc, state) && due' == due + DueChange(pc, state)
    requires count' == count + CountChange(pc, state)
    ensures Balanced(c', due', count')
  {
    AddSettles(c, due, count);
    ModuloShift(c + due, count, CountChange(pc, state));
  }

  lemma StepKeepsCounter(hash: Key -> nat, s: State, t: nat, call: Op, state: SlotState)
    requires Ready(hash, s, t) && (state == Populated || state == Deleted)
    requires Balanced(Counter(s, state), AllDue(s.pcs, state), Count(Logical(s), state))
    ensures var r := Step(hash, s, t, call);
            Balanced(Counter(r, state), AllDue(r.pcs, state), Count(Logical(r), state))
  {
    var r := Step(hash, s, t, call);
    StepOnDues(hash, s, t, call, state);
    StepOnCounts(hash, s, t, call, state);
    StepOnCounter(hash, s, t, call, state);
    BalanceIsKept(Counter(s, state), AllDue(s.pcs, state), Count(Logical(s), state), s.pcs[t], state,
                  Counter(r, state), AllDue(r.pcs, state), Count(Logical(r), state));
  }

  /** Every step settles with its counter exactly what it owes. */
  lemma StepKeepsCounters(hash: Key -> nat, s: State, t: nat, call: Op)
    requires Inv(hash, s) && t < |s.pcs|
    ensures CountersAgree(Step(hash, s, t, call))
  {
    assert Ready(hash, s, t);
    StepKeepsCounter(hash, s, t, call, Populated);
    StepKeepsCounter(hash, s, t, call, Deleted);
  }

  lemma StepKeepsInv(hash: Key -> nat, s: State, t: nat, call: Op)
    requires Inv(hash, s) && t < |s.pcs|
    ensures Inv(hash, Step(hash, s, t, call))
  {
    var r := Step(hash, s, t, call);
    StepEvolves(hash, s, t, call);
    StepKeepsOwned(hash, s, t, call);
    StepKeepsOwnThread(hash, s, t, call);
    StepKeepsIntact(hash, s, t, call);
    StepKeepsCounters(hash, s, t, call);
    forall u | 0 <= u < |s.pcs|
      ensures ThreadOk(hash, r, u)
    {
      if u != t {
        OthersKeepGoing(hash, s, r, t, u);
      }
    }
  }

  lemma {:induction false} RunKeepsInv(hash: Key -> nat, s: State, labels: seq<Label>)
    requires Inv(hash, s) && Schedules(s, labels)
    ensures Inv(hash, Run(hash, s, labels))
  {
    if labels != [] {
      var shorter := labels[..|labels| - 1];
      RunKeepsInv(hash, s, shorter);
      StepKeepsInv(hash, Run(hash, s, shorter), labels[|labels| - 1].thread, labels[|labels| - 1].call);
    }
  }
}
