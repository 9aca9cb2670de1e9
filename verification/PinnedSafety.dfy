/** Safety and progress of the pinned table over whole runs: slots never go back, holders exclude each other,
    nobody waits for somebody who waits, and a table left alone can be adopted by a growable one. */
module PinnedSafety {
  import opened Basics
  import opened SlotHeader
  import opened ProbeRuns
  import opened PinnedTable
  import opened PinnedInvariant
  import opened PinnedRefinement

  // ---- Slots never go back ------------------------------------------------------------------------

  /** Free may become populated, populated may become deleted, and a slot once used keeps its first key. */
  ghost predicate OnlyForward(s: State, r: State)
    requires Shaped(s) && Shaped(r) && s.headers.Cells? && r.headers.Cells?
  {
    && |r.keys| == |s.keys|
    && forall i :: 0 <= i < |s.keys| && Logical(s)[i] != Free ==>
         r.keys[i] == s.keys[i] && (Logical(r)[i] == Logical(s)[i] || Logical(r)[i] == Deleted)
  }

  /** Over any stretch of any run no slot becomes free again, no tombstone is reused, no live slot changes
      its key, and throughout no key is live twice and every live key can be reached by its probe. */
  lemma {:induction false} SlotsOnlyMoveForward(hash: Key -> nat, s: State, labels: seq<Label>)
    requires Inv(hash, s) && Schedules(s, labels)
    ensures OnlyForward(s, Run(hash, s, labels))
    ensures Intact(hash, Logical(Run(hash, s, labels)), Run(hash, s, labels).keys)
  {
    RunKeepsInv(hash, s, labels);
    if labels != [] {
      var shorter := labels[..|labels| - 1];
      SlotsOnlyMoveForward(hash, s, shorter);
      RunKeepsInv(hash, s, shorter);
      var middle, last := Run(hash, s, shorter), labels[|labels| - 1];
      StepEvolves(hash, middle, last.thread, last.call);
      ForwardComposes(s, middle, Run(hash, s, labels), last.thread);
    }
  }

  lemma ForwardComposes(s: State, m: State, r: State, t: nat)
    requires Shaped(s) && Shaped(m) && Shaped(r) && s.headers.Cells? && m.headers.Cells? && r.headers.Cells?
    requires OnlyForward(s, m) && Evolves(m, r, t)
    requires Settled(Logical(s))
    ensures OnlyForward(s, r)
  {
  }

  // ---- One owner a slot ---------------------------------------------------------------------------

  /** The slot whose key or value a thread's next step reads or writes. */
  function Touches(pc: Pc): Option<nat> {
    if pc.Busy? && pc.stage in {Inspecting, Reading, Assigning, BuildingKey, BuildingValue} then Some(pc.off) else None
  }

  /** Two threads never hold the same slot, so no two of them are ever about to touch the same payload. */
  lemma HoldersExclude(hash: Key -> nat, s: State, t: nat, u: nat)
    requires Inv(hash, s) && t < |s.pcs| && u < |s.pcs| && t != u
    ensures Holding(s.pcs[t]) && Holding(s.pcs[u]) ==> s.pcs[t].off != s.pcs[u].off
    ensures Touches(s.pcs[t]).Some? ==> Touches(s.pcs[t]) != Touches(s.pcs[u])
  {
    assert ThreadOk(hash, s, t) && ThreadOk(hash, s, u);
  }

  // ---- Spinning and progress ----------------------------------------------------------------------

  /** Whether the thread's next step is one more turn of the lock loop on a slot somebody else holds. */
  predicate Spins(s: State, t: nat)
    requires Shaped(s) && t < |s.pcs|
  {
    s.pcs[t].Busy? && s.pcs[t].stage == Locking && !TryLock(s.headers, |s.keys|, t, |s.pcs|, s.pcs[t].off).1
  }

  /** A spinning turn leaves the shared headers, the payloads and the counters exactly as they were. */
  lemma SpinningChangesNothing(hash: Key -> nat, w: State, t: nat, call: Op)
    requires Shaped(w) && w.headers.Heads? && t < |w.pcs| && Spins(w, t)
    ensures var r := Step(hash, w, t, call);
            r.headers.heads == w.headers.heads && r.(headers := w.headers) == w
  {
    LockTakesSlot(w.headers.heads[w.pcs[t].off / BUCKET_SLOTS], w.pcs[t].off);
  }

  /** Nobody waits while holding: whoever a spinning thread waits for can itself take a step. */
  lemma HolderCanStep(hash: Key -> nat, s: State, t: nat) returns (u: nat)
    requires Inv(hash, s) && t < |s.pcs| && Spins(s, t)
    ensures u < |s.pcs| && u != t && Holding(s.pcs[u]) && s.pcs[u].off == s.pcs[t].off && !Spins(s, u)
  {
    u := s.headers.cells[s.pcs[t].off].owner;
  }

  function StageWork(stage: Stage): nat {
    match stage
    case Locking => 12
    case Inspecting => 11
    case BuildingKey => 10
    case BuildingValue => 9
    case Marking => 8
    case Burying => 8
    case CountingTombstone => 7
    case CountingRemoval => 6
    case Reading => 6
    case Assigning => 6
    case Releasing(_) => 5
    case CountingInsert => 2
    case Answering(_) => 1
  }

  /** How much a thread still has to do, not counting the turns it spins. */
  function Work(pc: Pc, slots: nat): nat {
    if pc.Idle? then 0
    else StageWork(pc.stage) + (if pc.probes < slots then 12 * (slots - pc.probes) else 0)
  }

  lemma ReleasingIsProgress(hash: Key -> nat, s: State, t: nat, call: Op)
    requires Ready(hash, s, t) && s.pcs[t].Busy? && s.pcs[t].stage.Releasing?
    ensures Work(Step(hash, s, t, call).pcs[t], |s.keys|) < Work(s.pcs[t], |s.keys|)
  {
    var pc := s.pcs[t];
    assert Step(hash, s, t, call).pcs[t] == AfterRelease(hash, pc, pc.stage.then_, |s.keys|);
    if pc.stage == Releasing(WalkOn) {
      LastProbeIsFullTurn(hash, s, pc.op, pc.off, pc.probes);
    }
  }

  lemma OtherStepsAreProgress(hash: Key -> nat, s: State, t: nat, call: Op)
    requires Ready(hash, s, t) && s.pcs[t].Busy? && !s.pcs[t].stage.Releasing? && !Spins(s, t)
    ensures Work(Step(hash, s, t, call).pcs[t], |s.keys|) < Work(s.pcs[t], |s.keys|)
  {
    var pc := s.pcs[t];
    if pc.stage.Inspecting? {
      assert Step(hash, s, t, call).pcs[t] == pc.(stage := Inspect(s, t, pc));
    } else if !pc.stage.Answering? {
      assert Step(hash, s, t, call).pcs[t].probes == pc.probes;
    }
  }

  /** Every step of a call but a spinning one brings it nearer its end, whatever the other threads do, so a
      call over `n` slots takes at most 12 * n + 12 such steps after it was entered. */
  lemma StepsAreBounded(hash: Key -> nat, s: State, t: nat, call: Op)
    requires Inv(hash, s) && t < |s.pcs|
    ensures s.pcs[t].Busy? && !Spins(s, t) ==>
              Work(Step(hash, s, t, call).pcs[t], |s.keys|) < Work(s.pcs[t], |s.keys|)
    ensures s.pcs[t].Busy? && Spins(s, t) ==> Step(hash, s, t, call) == s
    ensures s.pcs[t].Idle? ==> Work(Step(hash, s, t, call).pcs[t], |s.keys|) <= 12 * |s.keys| + 12
  {
    assert Ready(hash, s, t);
    if s.pcs[t].Busy? {
      if s.pcs[t].stage.Releasing? {
        ReleasingIsProgress(hash, s, t, call);
      } else if !Spins(s, t) {
        OtherStepsAreProgress(hash, s, t, call);
      }
    }
  }

  // ---- Every call can return ----------------------------------------------------------------------

  /** What all threads together still have to do. */
  function TotalWork(pcs: seq<Pc>, slots: nat): nat {
    if pcs == [] then 0 else TotalWork(pcs[..|pcs| - 1], slots) + Work(pcs[|pcs| - 1], slots)
  }

  lemma {:induction false} TotalDrops(pcs: seq<Pc>, t: nat, pc: Pc, slots: nat)
    requires t < |pcs| && Work(pc, slots) < Work(pcs[t], slots)
    ensures TotalWork(pcs[t := pc], slots) < TotalWork(pcs, slots)
  {
    var n := |pcs| - 1;
    if t < n {
      assert pcs[t := pc][..n] == pcs[..n][t := pc];
      TotalDrops(pcs[..n], t, pc, slots);
    } else {
      assert pcs[t := pc][..n] == pcs[..n];
    }
  }

  lemma {:induction false} TotalIsBounded(pcs: seq<Pc>, slots: nat)
    ensures TotalWork(pcs, slots) <= |pcs| * (12 * slots + 12)
  {
    if pcs != [] {
      TotalIsBounded(pcs[..|pcs| - 1], slots);
      WorkIsBounded(pcs[|pcs| - 1], slots);
      OneMore(|pcs|, 12 * slots + 12);
    }
  }

  lemma WorkIsBounded(pc: Pc, slots: nat)
    ensures Work(pc, slots) <= 12 * slots + 12
  {
  }

  lemma OneMore(n: nat, k: nat)
    requires n > 0
    ensures n * k == (n - 1) * k + k
  {
  }

  /** A run that starts with one more step. */
  lemma {:induction false} RunFrom(hash: Key -> nat, s: State, first: Label, rest: seq<Label>)
    requires Shaped(s) && first.thread < |s.pcs| && Schedules(s, rest)
    ensures Schedules(s, [first] + rest)
    ensures Run(hash, s, [first] + rest) == Run(hash, Step(hash, s, first.thread, first.call), rest)
  {
    var all := [first] + rest;
    if rest == [] {
      assert all[..0] == [];
    } else {
      RunFrom(hash, s, first, rest[..|rest| - 1]);
      assert all[..|all| - 1] == [first] + rest[..|rest| - 1];
    }
  }

  /** Whoever is in a call, somebody in a call can take a step that is no spinning turn. */
  lemma SomebodyCanStep(hash: Key -> nat, s: State, t: nat) returns (u: nat)
    requires Inv(hash, s) && t < |s.pcs| && s.pcs[t].Busy?
    ensures u < |s.pcs| && s.pcs[u].Busy? && !Spins(s, u)
  {
    u := t;
    if Spins(s, t) {
      u := HolderCanStep(hash, s, t);
    }
  }

  ghost predicate AllReturned(s: State) {
    forall t :: 0 <= t < |s.pcs| ==> s.pcs[t] == Idle
  }

  /** No step of a schedule begins a call. */
  ghost predicate BeginsNothing(hash: Key -> nat, s: State, labels: seq<Label>)
    requires Shaped(s) && Schedules(s, labels)
  {
    forall i :: 0 <= i < |labels| ==> Run(hash, s, labels[..i]).pcs[labels[i].thread].Busy?
  }

  lemma BeginsNothingFrom(hash: Key -> nat, s: State, first: Label, rest: seq<Label>)
    requires Shaped(s) && first.thread < |s.pcs| && Schedules(s, rest) && s.pcs[first.thread].Busy?
    requires BeginsNothing(hash, Step(hash, s, first.thread, first.call), rest)
    ensures Schedules(s, [first] + rest) && BeginsNothing(hash, s, [first] + rest)
  {
    var all := [first] + rest;
    assert Schedules(s, all);
    forall i | 0 <= i < |all|
      ensures Run(hash, s, all[..i]).pcs[all[i].thread].Busy?
    {
      if i == 0 {
        assert all[..0] == [];
      } else {
        RunFrom(hash, s, first, rest[..i - 1]);
        PrefixOf(first, rest, i - 1);
      }
    }
  }

  lemma PrefixOf<T>(first: T, rest: seq<T>, i: nat)
    requires i <= |rest|
    ensures ([first] + rest)[..i + 1] == [first] + rest[..i]
  {
  }

  /** From every state that satisfies the invariant, some schedule of no more steps than there is work left brings
      every call to its return and begins none: nobody is ever stuck. */
  lemma {:induction false} EveryCallCanReturn(hash: Key -> nat, s: State, call: Op) returns (labels: seq<Label>)
    requires Inv(hash, s)
    ensures Schedules(s, labels) && BeginsNothing(hash, s, labels) && AllReturned(Run(hash, s, labels))
    ensures |labels| <= TotalWork(s.pcs, |s.keys|) <= |s.pcs| * (12 * |s.keys| + 12)
    decreases TotalWork(s.pcs, |s.keys|)
  {
    TotalIsBounded(s.pcs, |s.keys|);
    if AllReturned(s) {
      return [];
    }
    var t: nat :| t < |s.pcs| && s.pcs[t] != Idle;
    var u := SomebodyCanStep(hash, s, t);
    var r := Step(hash, s, u, call);
    StepKeepsInv(hash, s, u, call);
    StepsAreBounded(hash, s, u, call);
    TotalDrops(s.pcs, u, r.pcs[u], |s.keys|);
    assert r.pcs == s.pcs[u := r.pcs[u]];
    var rest := EveryCallCanReturn(hash, r, call);
    labels := [Label(u, call)] + rest;
    RunFrom(hash, s, Label(u, call), rest);
    BeginsNothingFrom(hash, s, Label(u, call), rest);
  }

  lemma {:induction false} RunOn(hash: Key -> nat, s: State, labels: seq<Label>, more: seq<Label>)
    requires Shaped(s) && Schedules(s, labels) && Schedules(s, more)
    ensures Schedules(s, labels + more) && Run(hash, s, labels + more) == Run(hash, Run(hash, s, labels), more)
  {
    var all := labels + more;
    if more == [] {
      assert all == labels;
    } else {
      RunOn(hash, s, labels, more[..|more| - 1]);
      assert all[..|all| - 1] == labels + more[..|more| - 1];
    }
  }

  // ---- Handing the storage back -------------------------------------------------------------------

  lemma IdleMeansOpen(hash: Key -> nat, c: State)
    requires Inv(hash, c) && forall t :: 0 <= t < |c.pcs| ==> c.pcs[t] == Idle
    ensures forall i :: 0 <= i < |c.headers.cells| ==> c.headers.cells[i].Open?
  {
  }

  lemma IdleDecodes(hash: Key -> nat, r: State, c: State)
    requires Inv(hash, c) && Mirrors(r, c) && forall t :: 0 <= t < |c.pcs| ==> c.pcs[t] == Idle
    ensures Decode(r.headers.heads) == Logical(c)
  {
    IdleMeansOpen(hash, c);
    forall i | 0 <= i < |Logical(c)|
      ensures Decode(r.headers.heads)[i] == Logical(c)[i]
    {
      assert CellMirrored(r.headers.heads, r.headers.staged, c.headers.cells[i], i);
    }
  }

  lemma IdleCountersAreExact(hash: Key -> nat, c: State)
    requires Inv(hash, c) && |c.keys| < OFFSET_MODULUS && forall t :: 0 <= t < |c.pcs| ==> c.pcs[t] == Idle
    ensures c.populated == Count(Logical(c), Populated) && c.deleted == Count(Logical(c), Deleted)
  {
    NothingDueWhenIdle(c.pcs, Populated);
    NothingDueWhenIdle(c.pcs, Deleted);
  }

  /** Once every thread is outside, no slot is locked, both counters are exact however often they wrapped,
      and the storage is again one that either table may adopt. */
  lemma QuiescentIsAdoptable(hash: Key -> nat, w: State, labels: seq<Label>)
    requires FreshlyAdopted(hash, w) && Schedules(w, labels) && |w.keys| < OFFSET_MODULUS
    requires forall t :: 0 <= t < |w.pcs| ==> Run(hash, w, labels).pcs[t] == Idle
    ensures FreshlyAdopted(hash, Run(hash, w, labels))
  {
    AdoptionMirrors(hash, w);
    RunMirrors(hash, w, CellsOf(w), labels);
    RunKeepsInv(hash, CellsOf(w), labels);
    IdleDecodes(hash, Run(hash, w, labels), Run(hash, CellsOf(w), labels));
    IdleCountersAreExact(hash, Run(hash, CellsOf(w), labels));
  }

  lemma CallsReturnAfter(hash: Key -> nat, c: State, labels: seq<Label>, call: Op) returns (more: seq<Label>)
    requires Inv(hash, c) && Schedules(c, labels)
    ensures Schedules(c, labels + more) && AllReturned(Run(hash, c, labels + more))
    ensures |more| <= |c.pcs| * (12 * |c.keys| + 12)
  {
    RunKeepsInv(hash, c, labels);
    more := EveryCallCanReturn(hash, Run(hash, c, labels), call);
    RunOn(hash, c, labels, more);
  }

  lemma MirrorsReturn(w: State, c: State)
    requires Mirrors(w, c) && AllReturned(c)
    ensures AllReturned(w)
  {
  }

  lemma MirrorsMatch(w: State, c: State)
    requires Mirrors(w, c)
    ensures |w.pcs| == |c.pcs| && |w.keys| == |c.keys|
  {
  }

  /** So at any moment of any run over the real headers there is a way on to a storage that either table may adopt,
      by letting the calls under way return. */
  lemma EveryRunCanBeHandedBack(hash: Key -> nat, w: State, labels: seq<Label>, call: Op) returns (more: seq<Label>)
    requires FreshlyAdopted(hash, w) && Schedules(w, labels) && |w.keys| < OFFSET_MODULUS
    ensures Schedules(w, labels + more) && |more| <= |w.pcs| * (12 * |w.keys| + 12)
    ensures FreshlyAdopted(hash, Run(hash, w, labels + more))
  {
    var c := CellsOf(w);
    AdoptionMirrors(hash, w);
    MirrorsMatch(w, c);
    more := CallsReturnAfter(hash, c, labels, call);
    RunMirrors(hash, w, c, labels + more);
    MirrorsReturn(Run(hash, w, labels + more), Run(hash, c, labels + more));
    QuiescentIsAdoptable(hash, w, labels + more);
  }
}
