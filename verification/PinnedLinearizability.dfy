/** Linearizability over observed runs: what outsiders see of each thread, and the ledger it acts on. */
module LinearRuns {
  import opened Basics
  import opened ProbeRuns
  import opened PinnedTable

  /** A map that can take only so many more new keys: erasing one does not give its room back. */
  datatype Ledger = Ledger(map_: map<Key, Value>, room: nat)

  /** The sequential object every interleaving is measured against. */
  function Apply(a: Ledger, op: Op): (Ledger, Answer) {
    match op
    case Find(k) => (a, if k in a.map_ then Found(a.map_[k]) else Missing)
    case Emplace(k, v) =>
      if k in a.map_ then (a.(map_ := a.map_[k := v]), Success)
      else if a.room > 0 then (Ledger(a.map_[k := v], a.room - 1), Success)
      else (a, CapacityExhausted)
    case Update(k, v) => if k in a.map_ then (a.(map_ := a.map_[k := v]), Success) else (a, KeyNotFound)
    case Erase(k) => if k in a.map_ then (a.(map_ := a.map_ - {k}), Success) else (a, KeyNotFound)
  }

  /** A thread is outside, or inside a call whose answer is not yet, or already, fixed. */
  datatype Phase = Out | In(op: Op, decided: Option<Answer>)

  datatype View = View(ledger: Ledger, phases: seq<Phase>)

  predicate TakesEffect(p: Phase, q: Phase) {
    (p.Out? || p.decided.None?) && q.In? && q.decided.Some?
  }

  /** One step of one thread: it takes effect exactly as the sequential object would, or it is invisible. */
  predicate PhaseStep(call: Op, p: Phase, a: Ledger, q: Phase, b: Ledger) {
    && (p.Out? ==> q.In? && q.op == call)
    && (p.In? && p.decided.None? ==> q.In? && q.op == p.op)
    && (p.In? && p.decided.Some? ==> q == p || q.Out?)
    && (if TakesEffect(p, q) then Apply(a, q.op) == (b, q.decided.value) else b == a)
  }

  ghost predicate LinearRun(views: seq<View>, labels: seq<Label>) {
    && |views| == |labels| + 1
    && (forall i :: 0 <= i < |views| ==> |views[i].phases| == |views[0].phases|)
    && forall i :: 0 <= i < |labels| ==> ViewStep(views[i], labels[i], views[i + 1])
  }

  predicate ViewStep(v: View, move: Label, w: View) {
    && move.thread < |v.phases| == |w.phases|
    && PhaseStep(move.call, v.phases[move.thread], v.ledger, w.phases[move.thread], w.ledger)
    && w.phases == v.phases[move.thread := w.phases[move.thread]]
  }

  predicate EffectAt(views: seq<View>, labels: seq<Label>, i: nat) {
    i < |labels| && i + 1 < |views| && labels[i].thread < |views[i].phases| && labels[i].thread < |views[i + 1].phases|
    && TakesEffect(views[i].phases[labels[i].thread], views[i + 1].phases[labels[i].thread])
  }

  /** One entry of the sequential history: at which step, whose call, and what it was told. */
  datatype Event = Event(at: nat, thread: nat, op: Op, answer: Answer)

  function EventAt(views: seq<View>, labels: seq<Label>, i: nat): Event
    requires EffectAt(views, labels, i)
  {
    var q := views[i + 1].phases[labels[i].thread];
    Event(i, labels[i].thread, q.op, q.decided.value)
  }

  /** The calls in the order they took effect during the first `n` steps. */
  function History(views: seq<View>, labels: seq<Label>, n: nat): seq<Event> {
    if n == 0 then []
    else if EffectAt(views, labels, n - 1) then History(views, labels, n - 1) + [EventAt(views, labels, n - 1)]
    else History(views, labels, n - 1)
  }

  /** Whether a sequential map starting at `a` gives every recorded answer and ends at `b`. */
  predicate Replays(a: Ledger, history: seq<Event>, b: Ledger)
    decreases |history|
  {
    if history == [] then a == b
    else
      var (next, answer) := Apply(a, history[0].op);
      answer == history[0].answer && Replays(next, history[1..], b)
  }

  lemma {:induction false} ReplayOneMore(a: Ledger, history: seq<Event>, b: Ledger, e: Event, c: Ledger)
    requires Replays(a, history, b) && Apply(b, e.op) == (c, e.answer)
    ensures Replays(a, history + [e], c)
    decreases |history|
  {
    if history == [] {
      assert ([e])[1..] == [];
    } else {
      assert (history + [e])[1..] == history[1..] + [e];
      ReplayOneMore(Apply(a, history[0].op).0, history[1..], b, e, c);
    }
  }

  /** The history of a run is one the sequential map could have produced, and ends where the run ends. */
  lemma {:induction false} HistoryReplays(views: seq<View>, labels: seq<Label>, n: nat)
    requires LinearRun(views, labels) && n <= |labels|
    ensures Replays(views[0].ledger, History(views, labels, n), views[n].ledger)
  {
    if n > 0 {
      HistoryReplays(views, labels, n - 1);
      assert ViewStep(views[n - 1], labels[n - 1], views[n]);
      if EffectAt(views, labels, n - 1) {
        ReplayOneMore(views[0].ledger, History(views, labels, n - 1), views[n - 1].ledger,
                      EventAt(views, labels, n - 1), views[n].ledger);
      }
    }
  }

  // ---- What the answers say -----------------------------------------------------------------------

  /** A call that was granted its wish, and so says what its key holds until the next that is. */
  predicate Decides(e: Event, k: Key) {
    e.op.key == k && !e.op.Find? && e.answer == Success
  }

  function Lookup(m: map<Key, Value>, k: Key): Option<Value> {
    if k in m then Some(m[k]) else None
  }

  /** What the last call to decide a key left under it, or what was there to begin with. */
  function LastHeld(start: map<Key, Value>, history: seq<Event>, k: Key): Option<Value>
    decreases |history|
  {
    if history == [] then Lookup(start, k)
    else
      var before, last := history[..|history| - 1], history[|history| - 1];
      if !Decides(last, k) then LastHeld(start, before, k)
      else if last.op.Erase? then None else Some(last.op.value)
  }

  /** How many keys have come in, one that comes back after its erasure counted again. */
  function CameIn(start: map<Key, Value>, history: seq<Event>): nat
    decreases |history|
  {
    if history == [] then 0
    else
      var before, last := history[..|history| - 1], history[|history| - 1];
      CameIn(start, before)
      + if last.op.Emplace? && last.answer == Success && LastHeld(start, before, last.op.key).None? then 1 else 0
  }

  lemma EventOnKey(start: map<Key, Value>, before: seq<Event>, a: Ledger, e: Event, b: Ledger, k: Key)
    requires Apply(a, e.op) == (b, e.answer)
    requires LastHeld(start, before, k) == Lookup(a.map_, k)
    ensures LastHeld(start, before + [e], k) == Lookup(b.map_, k)
    ensures k == e.op.key ==> CameIn(start, before + [e]) + b.room == CameIn(start, before) + a.room
  {
    assert (before + [e])[..|before|] == before;
  }

  lemma OneMoreEvent(start: map<Key, Value>, before: seq<Event>, a: Ledger, e: Event, b: Ledger)
    requires Apply(a, e.op) == (b, e.answer)
    requires forall k :: LastHeld(start, before, k) == Lookup(a.map_, k)
    ensures forall k :: LastHeld(start, before + [e], k) == Lookup(b.map_, k)
    ensures CameIn(start, before + [e]) + b.room == CameIn(start, before) + a.room
  {
    EventOnKey(start, before, a, e, b, e.op.key);
    forall k
      ensures LastHeld(start, before + [e], k) == Lookup(b.map_, k)
    {
      EventOnKey(start, before, a, e, b, k);
    }
  }

  /** At every instant the map holds what was last written, and the room left is what the keys that came in have not
      taken. */
  lemma {:induction false} LedgerIsLastWritten(views: seq<View>, labels: seq<Label>, n: nat)
    requires LinearRun(views, labels) && n <= |labels|
    ensures forall k :: LastHeld(views[0].ledger.map_, History(views, labels, n), k) == Lookup(views[n].ledger.map_, k)
    ensures views[n].ledger.room + CameIn(views[0].ledger.map_, History(views, labels, n)) == views[0].ledger.room
  {
    if n > 0 {
      LedgerIsLastWritten(views, labels, n - 1);
      assert ViewStep(views[n - 1], labels[n - 1], views[n]);
      if EffectAt(views, labels, n - 1) {
        OneMoreEvent(views[0].ledger.map_, History(views, labels, n - 1), views[n - 1].ledger,
                     EventAt(views, labels, n - 1), views[n].ledger);
      }
    }
  }

  /** Every answer is about the last call, by whichever thread, that decided the key: a find is told what that wrote,
      an update and an erasure succeed just if it did not erase, and an insertion is refused just if the key is not
      there and as many keys have come in as there was room for. */
  lemma AnswersAreOfLastWrites(views: seq<View>, labels: seq<Label>, i: nat)
    requires LinearRun(views, labels) && EffectAt(views, labels, i)
    ensures var e, start, before := EventAt(views, labels, i), views[0].ledger, History(views, labels, i);
            var held := LastHeld(start.map_, before, e.op.key);
            match e.op
            case Find(_) => e.answer == if held.Some? then Found(held.value) else Missing
            case Emplace(_, _) =>
              e.answer == if held.None? && CameIn(start.map_, before) == start.room then CapacityExhausted else Success
            case _ => e.answer == if held.Some? then Success else KeyNotFound
    ensures CameIn(views[0].ledger.map_, History(views, labels, i)) <= views[0].ledger.room
  {
    LedgerIsLastWritten(views, labels, i);
    assert ViewStep(views[i], labels[i], views[i + 1]);
  }

  // ---- When each call took effect -----------------------------------------------------------------

  ghost predicate Recorded(views: seq<View>, labels: seq<Label>, n: nat, e: Event) {
    e.at < n && EffectAt(views, labels, e.at) && e == EventAt(views, labels, e.at)
  }

  /** Events are recorded in order of time, and exactly at the steps that take effect. */
  lemma {:induction false} HistoryIsOrdered(views: seq<View>, labels: seq<Label>, n: nat)
    ensures forall i, j :: 0 <= i < j < |History(views, labels, n)| ==>
              History(views, labels, n)[i].at < History(views, labels, n)[j].at
    ensures forall e :: e in History(views, labels, n) ==> Recorded(views, labels, n, e)
  {
    if n > 0 {
      HistoryIsOrdered(views, labels, n - 1);
      var before := History(views, labels, n - 1);
      assert forall e :: e in before ==> Recorded(views, labels, n, e) by {
        assert forall e :: e in before ==> Recorded(views, labels, n - 1, e);
      }
      assert forall i :: 0 <= i < |before| ==> before[i] in before && Recorded(views, labels, n - 1, before[i]);
    }
  }

  lemma {:induction false} EffectsAreRecorded(views: seq<View>, labels: seq<Label>, n: nat, p: nat)
    requires p < n && EffectAt(views, labels, p)
    ensures EventAt(views, labels, p) in History(views, labels, n)
  {
    if p < n - 1 {
      EffectsAreRecorded(views, labels, n - 1, p);
    }
  }

  /** Thread `t` enters a call at step `i` and is handed `answer` at step `j`. */
  ghost predicate CompletedCall(views: seq<View>, labels: seq<Label>, t: nat, i: nat, j: nat, op: Op, answer: Answer) {
    && LinearRun(views, labels) && t < |views[0].phases|
    && i < j < |labels| && labels[i] == Label(t, op) && labels[j].thread == t
    && views[i].phases[t].Out? && views[j + 1].phases[t].Out?
    && (forall m :: i < m <= j ==> views[m].phases[t].In?)
    && views[j].phases[t] == In(views[j].phases[t].op, Some(answer))
  }

  /** In the middle of a call: it has taken effect exactly once if its answer is fixed, and otherwise never. */
  lemma {:induction false} CallSoFar(views: seq<View>, labels: seq<Label>, t: nat, i: nat, m: nat, op: Op)
    returns (p: nat)
    requires LinearRun(views, labels) && t < |views[0].phases| && i < m < |labels| && labels[i] == Label(t, op)
    requires views[i].phases[t].Out? && forall k :: i < k <= m ==> views[k].phases[t].In?
    ensures views[m].phases[t].op == op
    ensures views[m].phases[t].decided.None? ==>
              forall q :: i <= q < m && labels[q].thread == t ==> !EffectAt(views, labels, q)
    ensures views[m].phases[t].decided.Some? ==>
              && i <= p < m && labels[p].thread == t && EffectAt(views, labels, p)
              && views[p + 1].phases[t] == views[m].phases[t]
              && forall q :: i <= q < m && labels[q].thread == t && EffectAt(views, labels, q) ==> q == p
    decreases m
  {
    p := i;
    assert ViewStep(views[m - 1], labels[m - 1], views[m]);
    if m - 1 > i {
      p := CallSoFar(views, labels, t, i, m - 1, op);
      if labels[m - 1].thread == t && EffectAt(views, labels, m - 1) {
        p := m - 1;
      }
    }
  }

  /** A completed call has exactly one instant between its start and its return at which it took effect;
      there the sequential map goes from one ledger to the next giving exactly the answer returned. */
  lemma CallIsLinearizable(views: seq<View>, labels: seq<Label>, t: nat, i: nat, j: nat, op: Op, answer: Answer)
    returns (p: nat)
    requires CompletedCall(views, labels, t, i, j, op, answer)
    ensures i <= p < j && labels[p].thread == t && EffectAt(views, labels, p)
    ensures forall q :: i <= q <= j && labels[q].thread == t && EffectAt(views, labels, q) ==> q == p
    ensures Apply(views[p].ledger, op) == (views[p + 1].ledger, answer)
    ensures EventAt(views, labels, p) == Event(p, t, op, answer)
    ensures Event(p, t, op, answer) in History(views, labels, |labels|)
  {
    p := CallSoFar(views, labels, t, i, j, op);
    assert ViewStep(views[p], labels[p], views[p + 1]);
    assert !EffectAt(views, labels, j);
    EffectsAreRecorded(views, labels, |labels|, p);
  }

  /** A call that returned before another began also comes first in the sequential history. */
  lemma RealTimeOrderIsKept(views: seq<View>, labels: seq<Label>,
                            t: nat, i: nat, j: nat, op: Op, answer: Answer,
                            t': nat, i': nat, j': nat, op': Op, answer': Answer)
    returns (first: nat, second: nat)
    requires CompletedCall(views, labels, t, i, j, op, answer) && CompletedCall(views, labels, t', i', j', op', answer')
    requires j < i'
    ensures first < second < |History(views, labels, |labels|)|
    ensures History(views, labels, |labels|)[first].thread == t && History(views, labels, |labels|)[first].op == op
    ensures History(views, labels, |labels|)[first].answer == answer
    ensures History(views, labels, |labels|)[second].thread == t' && History(views, labels, |labels|)[second].op == op'
    ensures History(views, labels, |labels|)[second].answer == answer'
  {
    var h := History(views, labels, |labels|);
    var p := CallIsLinearizable(views, labels, t, i, j, op, answer);
    var p' := CallIsLinearizable(views, labels, t', i', j', op', answer');
    first :| 0 <= first < |h| && h[first] == Event(p, t, op, answer);
    second :| 0 <= second < |h| && h[second] == Event(p', t', op', answer');
    HistoryIsOrdered(views, labels, |labels|);
  }
}

/** Every run of the pinned table is such a run. */
module PinnedLinearizability {
  import opened Basics
  import opened SlotHeader
  import opened ProbeRuns
  import opened PinnedTable
  import opened PinnedInvariant
  import opened LinearRuns

  /** The map the slots stand for, and how many slots were never used. */
  ghost function Abs(s: State): Ledger
    requires Shaped(s) && s.headers.Cells? && Unique(Logical(s), s.keys)
  {
    Ledger(Contents(Logical(s), s.keys, s.values), Count(Logical(s), Free))
  }

  /** The answer a call can no longer change its mind about. */
  function Decided(pc: Pc, slots: nat): Option<Answer>
    requires pc.Busy?
  {
    match pc.stage
    case CountingTombstone => Some(Success)
    case CountingRemoval => Some(Success)
    case Releasing(Finish(answer)) => Some(answer)
    case Releasing(CountUp) => Some(Success)
    case Releasing(WalkOn) => if pc.probes + 1 == slots then Some(GiveUp(pc.op)) else None
    case CountingInsert => Some(Success)
    case Answering(answer) => Some(answer)
    case _ => None
  }

  function PhaseOf(pc: Pc, slots: nat): Phase {
    if pc.Idle? then Out else In(pc.op, Decided(pc, slots))
  }

  // ---- The instants at which a call takes effect --------------------------------------------------

  lemma FullTurnMeansFull(hash: Key -> nat, states: seq<SlotState>, keys: seq<Key>, k: Key)
    requires |keys| == |states| && RunsIntact(hash, states, keys) && Walked(hash, states, keys, k, |states|)
    ensures !Holds(states, keys, k) && Count(states, Free) == 0
  {
    AbsentAfterWalk(hash, states, keys, k, |states|);
    forall i | 0 <= i < |states|
      ensures states[i] != Free
    {
      var home := Home(hash, k, |states|);
      assert PassedOver(states, keys, k, At(home, Dist(home, i, |states|), |states|));
    }
    CountZero(states, Free);
  }

  lemma WritingFreeKey(states: seq<SlotState>, keys: seq<Key>, values: seq<Value>, i: nat, k: Key)
    requires |keys| == |values| == |states| && Unique(states, keys) && i < |states| && states[i] == Free
    ensures Unique(states, keys[i := k])
    ensures Contents(states, keys[i := k], values) == Contents(states, keys, values)
  {
    var a, b := Contents(states, keys, values), Contents(states, keys[i := k], values);
    assert forall j :: 0 <= j < |states| && states[j] == Populated ==> keys[i := k][j] == keys[j];
    assert forall x :: x in b ==> x in a;
    assert forall x :: x in a ==> x in b;
  }

  lemma WritingFreeValue(states: seq<SlotState>, keys: seq<Key>, values: seq<Value>, i: nat, v: Value)
    requires |keys| == |values| == |states| && Unique(states, keys) && i < |states| && states[i] == Free
    ensures Contents(states, keys, values[i := v]) == Contents(states, keys, values)
  {
    var a, c := Contents(states, keys, values), Contents(states, keys, values[i := v]);
    assert forall x :: x in c <==> x in a;
  }

  lemma GivesUpOnFree(hash: Key -> nat, s: State, t: nat)
    requires Ready(hash, s, t) && s.pcs[t].Busy? && s.pcs[t].stage == Inspecting
    requires s.pcs[t].off < |s.keys| && Logical(s)[s.pcs[t].off] == Free && !s.pcs[t].op.Emplace?
    ensures Apply(Abs(s), s.pcs[t].op) == (Abs(s), GiveUp(s.pcs[t].op))
  {
    FreeSlotMeansAbsent(hash, s, t);
    HoldsIsMembership(Logical(s), s.keys, s.values, s.pcs[t].op.key);
  }

  lemma GivesUpAfterFullTurn(hash: Key -> nat, s: State, t: nat)
    requires Ready(hash, s, t) && s.pcs[t].Busy? && s.pcs[t].stage == Inspecting
    requires s.pcs[t].off < |s.keys| && PassedOver(Logical(s), s.keys, s.pcs[t].op.key, s.pcs[t].off)
    requires s.pcs[t].probes + 1 == |s.keys|
    ensures Apply(Abs(s), s.pcs[t].op) == (Abs(s), GiveUp(s.pcs[t].op))
  {
    var pc := s.pcs[t];
    WalkExtends(hash, s, pc.op, pc.off, pc.probes);
    FullTurnMeansFull(hash, Logical(s), s.keys, pc.op.key);
    HoldsIsMembership(Logical(s), s.keys, s.values, pc.op.key);
  }

  lemma StepAtInspecting(hash: Key -> nat, s: State, t: nat, call: Op, r: State)
    requires Ready(hash, s, t) && r == Step(hash, s, t, call) && Unique(Logical(r), r.keys)
    requires s.pcs[t].Busy? && s.pcs[t].stage == Inspecting
    ensures PhaseStep(call, PhaseOf(s.pcs[t], |s.keys|), Abs(s), PhaseOf(r.pcs[t], |s.keys|), Abs(r))
  {
    assert Logical(r) == Logical(s);
    var pc := s.pcs[t];
    if Logical(s)[pc.off] == Free && !pc.op.Emplace? {
      GivesUpOnFree(hash, s, t);
    } else if PassedOver(Logical(s), s.keys, pc.op.key, pc.off) && pc.probes + 1 == |s.keys| {
      GivesUpAfterFullTurn(hash, s, t);
    }
  }

  lemma MarkingAdds(hash: Key -> nat, s: State, t: nat)
    requires Ready(hash, s, t) && s.pcs[t].Busy? && s.pcs[t].stage == Marking
    requires s.pcs[t].op.Emplace? && s.pcs[t].off < |s.keys|
    ensures Unique(Logical(s)[s.pcs[t].off := Populated], s.keys)
    ensures Apply(Abs(s), s.pcs[t].op)
         == (Ledger(Contents(Logical(s)[s.pcs[t].off := Populated], s.keys, s.values),
                    Count(Logical(s)[s.pcs[t].off := Populated], Free)), Success)
  {
    var pc := s.pcs[t];
    FreeSlotMeansAbsent(hash, s, t);
    FillAdds(Logical(s), s.keys, s.values, pc.op.key, pc.op.value, pc.off);
    CountUpdate(Logical(s), pc.off, Populated, Free);
    assert s.keys == s.keys[pc.off := pc.op.key] && s.values == s.values[pc.off := pc.op.value];
  }

  lemma MarkingDecides(pc: Pc, slots: nat)
    requires pc.Busy? && pc.stage == Marking && pc.op.Emplace?
    ensures PhaseOf(pc, slots) == In(pc.op, None)
    ensures PhaseOf(pc.(stage := Releasing(CountUp)), slots) == In(pc.op, Some(Success))
  {
  }

  lemma StepOfMarking(hash: Key -> nat, s: State, t: nat, call: Op, pc: Pc)
    requires Ready(hash, s, t) && s.pcs[t] == pc && pc.Busy? && pc.stage == Marking
    ensures pc.off < |s.keys| && pc.op.Emplace?
    ensures var r := Step(hash, s, t, call);
            && r.pcs == s.pcs[t := pc.(stage := Releasing(CountUp))] && r.keys == s.keys && r.values == s.values
            && Logical(r) == Logical(s)[pc.off := Populated]
  {
    assert Logical(Step(hash, s, t, call)) == Logical(s)[pc.off := Populated];
  }

  lemma StepAtMarking(hash: Key -> nat, s: State, t: nat, call: Op, r: State)
    requires Ready(hash, s, t) && r == Step(hash, s, t, call) && Unique(Logical(r), r.keys)
    requires s.pcs[t].Busy? && s.pcs[t].stage == Marking
    ensures PhaseStep(call, PhaseOf(s.pcs[t], |s.keys|), Abs(s), PhaseOf(r.pcs[t], |s.keys|), Abs(r))
  {
    var pc := s.pcs[t];
    StepOfMarking(hash, s, t, call, pc);
    MarkingDecides(pc, |s.keys|);
    MarkingAdds(hash, s, t);
    Fixing(call, pc.op, Abs(s), Abs(r), Success);
  }

  lemma BuryingDecides(pc: Pc, slots: nat)
    requires pc.Busy? && pc.stage == Burying && pc.op.Erase?
    ensures PhaseOf(pc, slots) == In(pc.op, None)
    ensures PhaseOf(pc.(stage := CountingTombstone), slots) == In(pc.op, Some(Success))
  {
  }

  lemma StepOfBurying(hash: Key -> nat, s: State, t: nat, call: Op, pc: Pc)
    requires Ready(hash, s, t) && s.pcs[t] == pc && pc.Busy? && pc.stage == Burying
    ensures pc.off < |s.keys| && pc.op.Erase? && Matches(s, pc.op, pc.off)
    ensures var r := Step(hash, s, t, call);
            && r.pcs == s.pcs[t := pc.(stage := CountingTombstone)] && r.keys == s.keys && r.values == s.values
            && Logical(r) == Logical(s)[pc.off := Deleted]
  {
    assert Logical(Step(hash, s, t, call)) == Logical(s)[pc.off := Deleted];
  }

  lemma BuryingRemoves(s: State, pc: Pc, r: State)
    requires Shaped(s) && s.headers.Cells? && Unique(Logical(s), s.keys) && pc.Busy? && pc.off < |s.keys|
    requires pc.op.Erase? && Matches(s, pc.op, pc.off)
    requires Shaped(r) && r.headers.Cells? && Unique(Logical(r), r.keys) && r.keys == s.keys && r.values == s.values
    requires Logical(r) == Logical(s)[pc.off := Deleted]
    ensures Apply(Abs(s), pc.op) == (Abs(r), Success)
  {
    TombstoneRemoves(Logical(s), s.keys, s.values, pc.off);
    CountUpdate(Logical(s), pc.off, Deleted, Free);
  }

  lemma StepAtBurying(hash: Key -> nat, s: State, t: nat, call: Op, r: State)
    requires Ready(hash, s, t) && r == Step(hash, s, t, call) && Unique(Logical(r), r.keys)
    requires s.pcs[t].Busy? && s.pcs[t].stage == Burying
    ensures PhaseStep(call, PhaseOf(s.pcs[t], |s.keys|), Abs(s), PhaseOf(r.pcs[t], |s.keys|), Abs(r))
  {
    var pc := s.pcs[t];
    StepOfBurying(hash, s, t, call, pc);
    BuryingDecides(pc, |s.keys|);
    BuryingRemoves(s, pc, r);
    Fixing(call, pc.op, Abs(s), Abs(r), Success);
  }

  /** A step that fixes its call's answer as the sequential map would. */
  lemma Fixing(call: Op, op: Op, a: Ledger, b: Ledger, answer: Answer)
    requires Apply(a, op) == (b, answer)
    ensures PhaseStep(call, In(op, None), a, In(op, Some(answer)), b)
  {
  }

  lemma AssigningAssigns(s: State, op: Op, off: nat)
    requires Shaped(s) && s.headers.Cells? && off < |s.keys| && Unique(Logical(s), s.keys)
    requires (op.Emplace? || op.Update?) && Matches(s, op, off)
    ensures Apply(Abs(s), op)
         == (Ledger(Contents(Logical(s), s.keys, s.values[off := op.value]), Count(Logical(s), Free)), Success)
  {
    OverwriteAssigns(Logical(s), s.keys, s.values, op.value, off);
  }

  lemma StepOfAssigning(hash: Key -> nat, s: State, t: nat, call: Op, pc: Pc)
    requires Shaped(s) && t < |s.pcs| && s.pcs[t] == pc && pc.Busy? && pc.stage == Assigning
    requires pc.op.Emplace? || pc.op.Update?
    ensures pc.off < |s.keys|
    ensures Step(hash, s, t, call)
         == s.(values := s.values[pc.off := pc.op.value], pcs := s.pcs[t := pc.(stage := Releasing(Finish(Success)))])
  {
  }

  lemma AssignedAbs(s: State, pc: Pc, r: State)
    requires Shaped(s) && s.headers.Cells? && Unique(Logical(s), s.keys) && pc.Busy? && pc.off < |s.keys|
    requires (pc.op.Emplace? || pc.op.Update?) && Matches(s, pc.op, pc.off)
    requires Shaped(r) && r.headers == s.headers && r.keys == s.keys && r.values == s.values[pc.off := pc.op.value]
    ensures Apply(Abs(s), pc.op) == (Abs(r), Success)
  {
    AssigningAssigns(s, pc.op, pc.off);
  }

  lemma AssigningDecides(pc: Pc, slots: nat)
    requires pc.Busy? && pc.stage == Assigning
    ensures PhaseOf(pc, slots) == In(pc.op, None)
    ensures PhaseOf(pc.(stage := Releasing(Finish(Success))), slots) == In(pc.op, Some(Success))
  {
  }

  lemma StepAtAssigning(hash: Key -> nat, s: State, t: nat, call: Op, r: State)
    requires Ready(hash, s, t) && r == Step(hash, s, t, call) && Unique(Logical(r), r.keys)
    requires s.pcs[t].Busy? && s.pcs[t].stage == Assigning
    ensures PhaseStep(call, PhaseOf(s.pcs[t], |s.keys|), Abs(s), PhaseOf(r.pcs[t], |s.keys|), Abs(r))
  {
    var pc := s.pcs[t];
    StepOfAssigning(hash, s, t, call, pc);
    AssigningDecides(pc, |s.keys|);
    AssignedAbs(s, pc, r);
    Fixing(call, pc.op, Abs(s), Abs(r), Success);
  }

  lemma ReadingFinds(s: State, op: Op, off: nat)
    requires Shaped(s) && s.headers.Cells? && off < |s.keys| && Unique(Logical(s), s.keys)
    requires op.Find? && Matches(s, op, off)
    ensures Apply(Abs(s), op) == (Abs(s), Found(s.values[off]))
  {
    OverwriteAssigns(Logical(s), s.keys, s.values, s.values[off], off);
  }

  lemma StepOfReading(hash: Key -> nat, s: State, t: nat, call: Op, pc: Pc)
    requires Shaped(s) && t < |s.pcs| && s.pcs[t] == pc && pc.Busy? && pc.stage == Reading
    ensures pc.off < |s.keys|
    ensures Step(hash, s, t, call) == s.(pcs := s.pcs[t := pc.(stage := Releasing(Finish(Found(s.values[pc.off]))))])
  {
  }

  lemma StepAtReading(hash: Key -> nat, s: State, t: nat, call: Op, r: State)
    requires Ready(hash, s, t) && r == Step(hash, s, t, call) && Unique(Logical(r), r.keys)
    requires s.pcs[t].Busy? && s.pcs[t].stage == Reading
    ensures PhaseStep(call, PhaseOf(s.pcs[t], |s.keys|), Abs(s), PhaseOf(r.pcs[t], |s.keys|), Abs(r))
  {
    var pc := s.pcs[t];
    StepOfReading(hash, s, t, call, pc);
    ReadingFinds(s, pc.op, pc.off);
    Fixing(call, pc.op, Abs(s), Abs(r), Found(s.values[pc.off]));
  }

  lemma StepAtBuilding(hash: Key -> nat, s: State, t: nat, call: Op, r: State)
    requires Ready(hash, s, t) && r == Step(hash, s, t, call) && Unique(Logical(r), r.keys)
    requires s.pcs[t].Busy? && (s.pcs[t].stage == BuildingKey || s.pcs[t].stage == BuildingValue)
    ensures PhaseStep(call, PhaseOf(s.pcs[t], |s.keys|), Abs(s), PhaseOf(r.pcs[t], |s.keys|), Abs(r))
  {
    var pc := s.pcs[t];
    assert Logical(r) == Logical(s);
    if pc.stage == BuildingKey {
      WritingFreeKey(Logical(s), s.keys, s.values, pc.off, pc.op.key);
    } else {
      WritingFreeValue(Logical(s), s.keys, s.values, pc.off, pc.op.value);
    }
  }

  lemma StepAtReleasing(hash: Key -> nat, s: State, t: nat, call: Op, r: State)
    requires Ready(hash, s, t) && r == Step(hash, s, t, call) && Unique(Logical(r), r.keys)
    requires s.pcs[t].Busy? && s.pcs[t].stage.Releasing?
    ensures PhaseStep(call, PhaseOf(s.pcs[t], |s.keys|), Abs(s), PhaseOf(r.pcs[t], |s.keys|), Abs(r))
  {
    var pc := s.pcs[t];
    assert Logical(r) == Logical(s);
    if pc.stage == Releasing(WalkOn) {
      LastProbeIsFullTurn(hash, s, pc.op, pc.off, pc.probes);
    }
  }

  lemma StepElsewhere(hash: Key -> nat, s: State, t: nat, call: Op, r: State)
    requires Ready(hash, s, t) && r == Step(hash, s, t, call) && Unique(Logical(r), r.keys)
    requires s.pcs[t].Idle? || s.pcs[t].stage.Locking? || s.pcs[t].stage.CountingTombstone? || s.pcs[t].stage.CountingRemoval?
             || s.pcs[t].stage.CountingInsert? || s.pcs[t].stage.Answering?
    ensures PhaseStep(call, PhaseOf(s.pcs[t], |s.keys|), Abs(s), PhaseOf(r.pcs[t], |s.keys|), Abs(r))
  {
    assert Logical(r) == Logical(s);
  }

  /** A step either is the instant its call takes effect, moving the ledger exactly as the sequential map
      would and fixing exactly the answer that map gives, or it changes nothing anybody can see. */
  lemma StepLinearizes(hash: Key -> nat, s: State, t: nat, call: Op, r: State)
    requires Inv(hash, s) && t < |s.pcs| && r == Step(hash, s, t, call)
    ensures Inv(hash, r)
    ensures PhaseStep(call, PhaseOf(s.pcs[t], |s.keys|), Abs(s), PhaseOf(r.pcs[t], |s.keys|), Abs(r))
  {
    StepKeepsInv(hash, s, t, call);
    assert Ready(hash, s, t);
    if s.pcs[t].Busy? {
      match s.pcs[t].stage
      case Inspecting => StepAtInspecting(hash, s, t, call, r);
      case Marking => StepAtMarking(hash, s, t, call, r);
      case Burying => StepAtBurying(hash, s, t, call, r);
      case Assigning => StepAtAssigning(hash, s, t, call, r);
      case Reading => StepAtReading(hash, s, t, call, r);
      case BuildingKey => StepAtBuilding(hash, s, t, call, r);
      case BuildingValue => StepAtBuilding(hash, s, t, call, r);
      case Releasing(_) => StepAtReleasing(hash, s, t, call, r);
      case _ => StepElsewhere(hash, s, t, call, r);
    } else {
      StepElsewhere(hash, s, t, call, r);
    }
  }

  // ---- Whole runs ---------------------------------------------------------------------------------

  ghost function ViewOf(s: State): View
    requires Shaped(s) && s.headers.Cells? && Unique(Logical(s), s.keys)
  {
    View(Abs(s), seq(|s.pcs|, t requires 0 <= t < |s.pcs| => PhaseOf(s.pcs[t], |s.keys|)))
  }

  /** What outsiders see of a run, before its first step and after each one. */
  ghost function ViewsOf(hash: Key -> nat, s: State, labels: seq<Label>): seq<View>
    requires Inv(hash, s) && Schedules(s, labels)
  {
    seq(|labels| + 1, i requires 0 <= i <= |labels| =>
      RunKeepsInv(hash, s, labels[..i]);
      ViewOf(Run(hash, s, labels[..i])))
  }

  lemma StepOfViews(hash: Key -> nat, s: State, move: Label, r: State)
    requires Inv(hash, s) && move.thread < |s.pcs| && r == Step(hash, s, move.thread, move.call) && Inv(hash, r)
    ensures ViewStep(ViewOf(s), move, ViewOf(r))
  {
    StepLinearizes(hash, s, move.thread, move.call, r);
  }

  /** Every interleaving of any number of threads is a linear run of the sequential map. */
  lemma EveryRunIsLinear(hash: Key -> nat, s: State, labels: seq<Label>)
    requires Inv(hash, s) && Schedules(s, labels)
    ensures LinearRun(ViewsOf(hash, s, labels), labels)
  {
    var views := ViewsOf(hash, s, labels);
    forall i | 0 <= i <= |labels|
      ensures Inv(hash, Run(hash, s, labels[..i])) && views[i] == ViewOf(Run(hash, s, labels[..i]))
    {
      RunKeepsInv(hash, s, labels[..i]);
    }
    forall i | 0 <= i < |labels|
      ensures ViewStep(views[i], labels[i], views[i + 1])
    {
      assert labels[..i + 1][..i] == labels[..i];
      StepOfViews(hash, Run(hash, s, labels[..i]), labels[i], Run(hash, s, labels[..i + 1]));
    }
  }
}
