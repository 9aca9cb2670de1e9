/** The real 64-bit headers behave exactly like the named cells, and what follows for the shipped table. */
module PinnedRefinement {
  import opened SlotHeader
  import opened ProbeRuns
  import opened PinnedTable
  import opened PinnedInvariant
  import opened LinearRuns
  import opened PinnedLinearizability

  /** What a cell says about the two bits of its slot, and about the header its holder has staged. */
  ghost predicate CellMirrored(heads: seq<Head>, staged: seq<Head>, cell: Cell, i: nat)
    requires i / BUCKET_SLOTS < |heads|
  {
    match cell
    case Open(state) => state != Locked && StateOf(heads[i / BUCKET_SLOTS], i) == state
    case Held(owner, state) =>
      && StateOf(heads[i / BUCKET_SLOTS], i) == Locked
      && owner < |staged| && Confined(staged[owner], i) && StateOf(staged[owner], i) == state
  }

  ghost predicate Mirrors(w: State, c: State) {
    && Shaped(w) && Shaped(c) && w.headers.Heads? && c.headers.Cells?
    && w.keys == c.keys && w.values == c.values && w.pcs == c.pcs
    && w.populated == c.populated && w.deleted == c.deleted
    && forall i :: 0 <= i < |c.headers.cells| ==> CellMirrored(w.headers.heads, w.headers.staged, c.headers.cells[i], i)
  }

  lemma SameBucket(i: nat, j: nat)
    requires i / BUCKET_SLOTS == j / BUCKET_SLOTS && i % BUCKET_SLOTS == j % BUCKET_SLOTS
    ensures i == j
  {
  }

  lemma LockMirrors(w: State, c: State, t: nat, off: nat)
    requires Mirrors(w, c) && t < |w.pcs| && off < |w.keys|
    requires c.headers.cells[off].Held? ==> c.headers.cells[off].owner != t
    requires forall i :: 0 <= i < |c.headers.cells| && c.headers.cells[i].Held? ==> c.headers.cells[i].owner != t
    ensures var (hw, takenW) := TryLock(w.headers, |w.keys|, t, |w.pcs|, off);
            var (hc, takenC) := TryLock(c.headers, |c.keys|, t, |c.pcs|, off);
            takenW == takenC && forall i :: 0 <= i < |hc.cells| ==> CellMirrored(hw.heads, hw.staged, hc.cells[i], i)
  {
    var heads, cells := w.headers.heads, c.headers.cells;
    var (hw, takenW) := TryLock(w.headers, |w.keys|, t, |w.pcs|, off);
    var (hc, takenC) := TryLock(c.headers, |c.keys|, t, |c.pcs|, off);
    assert CellMirrored(heads, w.headers.staged, cells[off], off);
    LockTakesSlot(heads[off / BUCKET_SLOTS], off);
    forall i | 0 <= i < |hc.cells|
      ensures CellMirrored(hw.heads, hw.staged, hc.cells[i], i)
    {
      assert CellMirrored(heads, w.headers.staged, cells[i], i);
      if i != off && i / BUCKET_SLOTS == off / BUCKET_SLOTS {
        if i % BUCKET_SLOTS == off % BUCKET_SLOTS {
          SameBucket(i, off);
        }
        LockSparesOthers(heads[off / BUCKET_SLOTS], off, i);
      }
    }
  }

  lemma UnlockMirrors(w: State, c: State, t: nat, off: nat)
    requires Mirrors(w, c) && t < |w.pcs| && off < |w.keys|
    requires c.headers.cells[off].Held? && c.headers.cells[off].owner == t && c.headers.cells[off].state != Locked
    ensures var hw := Unlock(w.headers, |w.keys|, t, |w.pcs|, off);
            var hc := Unlock(c.headers, |c.keys|, t, |c.pcs|, off);
            forall i :: 0 <= i < |hc.cells| ==> CellMirrored(hw.heads, hw.staged, hc.cells[i], i)
  {
    var heads, staged, cells := w.headers.heads, w.headers.staged, c.headers.cells;
    var hw := Unlock(w.headers, |w.keys|, t, |w.pcs|, off);
    var hc := Unlock(c.headers, |c.keys|, t, |c.pcs|, off);
    assert CellMirrored(heads, staged, cells[off], off);
    UnlockPublishesStaged(heads[off / BUCKET_SLOTS], staged[t], off);
    forall i | 0 <= i < |hc.cells|
      ensures CellMirrored(hw.heads, hw.staged, hc.cells[i], i)
    {
      assert CellMirrored(heads, staged, cells[i], i);
      if i != off && i / BUCKET_SLOTS == off / BUCKET_SLOTS {
        if i % BUCKET_SLOTS == off % BUCKET_SLOTS {
          SameBucket(i, off);
        }
        UnlockSparesOthers(heads[off / BUCKET_SLOTS], staged[t], off, i);
      }
    }
  }

  lemma MarkMirrors(w: State, c: State, t: nat, off: nat, deleted: bool)
    requires Mirrors(w, c) && t < |w.pcs| && off < |w.keys|
    requires c.headers.cells[off].Held? && c.headers.cells[off].owner == t
    requires forall i :: 0 <= i < |c.headers.cells| && i != off && c.headers.cells[i].Held? ==> c.headers.cells[i].owner != t
    ensures var hw := Mark(w.headers, |w.keys|, t, |w.pcs|, off, deleted);
            var hc := Mark(c.headers, |c.keys|, t, |c.pcs|, off, deleted);
            forall i :: 0 <= i < |hc.cells| ==> CellMirrored(hw.heads, hw.staged, hc.cells[i], i)
  {
    var hw := Mark(w.headers, |w.keys|, t, |w.pcs|, off, deleted);
    var hc := Mark(c.headers, |c.keys|, t, |c.pcs|, off, deleted);
    assert CellMirrored(w.headers.heads, w.headers.staged, c.headers.cells[off], off);
    MarksStage(w.headers.staged[t], off);
    forall i | 0 <= i < |hc.cells|
      ensures CellMirrored(hw.heads, hw.staged, hc.cells[i], i)
    {
      assert CellMirrored(w.headers.heads, w.headers.staged, c.headers.cells[i], i);
    }
  }

  lemma OneSlotEach(hash: Key -> nat, c: State, t: nat)
    requires Inv(hash, c) && t < |c.pcs|
    ensures forall i :: 0 <= i < |c.headers.cells| && c.headers.cells[i].Held? && c.headers.cells[i].owner == t ==>
              Holding(c.pcs[t]) && i == c.pcs[t].off
    ensures Holding(c.pcs[t]) ==> Owns(c, t, c.pcs[t].off) && c.headers.cells[c.pcs[t].off].state != Locked
  {
    assert ThreadOk(hash, c, t);
    if Holding(c.pcs[t]) {
      assert Logical(c)[c.pcs[t].off] != Locked;
    }
  }

  /** One step on the real headers is one step on the named cells. */
  lemma StepMirrors(hash: Key -> nat, w: State, c: State, t: nat, call: Op)
    requires Mirrors(w, c) && Inv(hash, c) && t < |w.pcs|
    ensures Mirrors(Step(hash, w, t, call), Step(hash, c, t, call))
  {
    OneSlotEach(hash, c, t);
    var pc := w.pcs[t];
    if pc.Busy? && pc.stage == Locking {
      LockMirrors(w, c, t, pc.off);
    } else if pc.Busy? && pc.stage.Releasing? {
      UnlockMirrors(w, c, t, pc.off);
    } else if pc.Busy? && (pc.stage == Burying || pc.stage == Marking) {
      MarkMirrors(w, c, t, pc.off, pc.stage == Burying);
    } else {
      QuietStepMirrors(hash, w, c, t, call);
    }
  }

  /** A step that leaves the headers alone. */
  lemma QuietStepMirrors(hash: Key -> nat, w: State, c: State, t: nat, call: Op)
    requires Mirrors(w, c) && t < |w.pcs|
    requires Holding(c.pcs[t]) ==> Owns(c, t, c.pcs[t].off) && c.headers.cells[c.pcs[t].off].state != Locked
    requires w.pcs[t].Busy? ==> !w.pcs[t].stage.Locking? && !w.pcs[t].stage.Releasing?
                                && !w.pcs[t].stage.Burying? && !w.pcs[t].stage.Marking?
    ensures Mirrors(Step(hash, w, t, call), Step(hash, c, t, call))
  {
    var pc := w.pcs[t];
    if pc.Busy? && pc.stage == Inspecting {
      assert CellMirrored(w.headers.heads, w.headers.staged, c.headers.cells[pc.off], pc.off);
    }
  }

  lemma {:induction false} RunMirrors(hash: Key -> nat, w: State, c: State, labels: seq<Label>)
    requires Mirrors(w, c) && Inv(hash, c) && Schedules(w, labels)
    ensures Mirrors(Run(hash, w, labels), Run(hash, c, labels))
  {
    if labels != [] {
      var shorter := labels[..|labels| - 1];
      RunMirrors(hash, w, c, shorter);
      RunKeepsInv(hash, c, shorter);
      StepMirrors(hash, Run(hash, w, shorter), Run(hash, c, shorter), labels[|labels| - 1].thread, labels[|labels| - 1].call);
    }
  }

  // ---- The shipped table --------------------------------------------------------------------------

  /** The slot states the headers of a storage spell out. */
  function Decode(heads: seq<Head>): (r: seq<SlotState>)
    ensures |r| == |heads| * BUCKET_SLOTS
    ensures forall i :: 0 <= i < |r| ==> i / BUCKET_SLOTS < |heads| && r[i] == StateOf(heads[i / BUCKET_SLOTS], i)
  {
    seq(|heads| * BUCKET_SLOTS, i requires 0 <= i < |heads| * BUCKET_SLOTS => StateOf(heads[i / BUCKET_SLOTS], i))
  }

  /** A table that has just adopted a storage: intact, exactly counted, and with every thread outside. */
  ghost predicate FreshlyAdopted(hash: Key -> nat, w: State) {
    && Shaped(w) && w.headers.Heads?
    && (forall t :: 0 <= t < |w.pcs| ==> w.pcs[t] == Idle)
    && Intact(hash, Decode(w.headers.heads), w.keys)
    && w.populated == Count(Decode(w.headers.heads), Populated)
    && w.deleted == Count(Decode(w.headers.heads), Deleted)
  }

  function CellsOf(w: State): (c: State)
    requires w.headers.Heads?
    ensures c.headers.Cells? && |c.headers.cells| == |w.headers.heads| * BUCKET_SLOTS
  {
    var states := Decode(w.headers.heads);
    w.(headers := Cells(seq(|states|, i requires 0 <= i < |states| => Open(states[i]))))
  }

  lemma AdoptionMirrors(hash: Key -> nat, w: State)
    requires FreshlyAdopted(hash, w)
    ensures Mirrors(w, CellsOf(w)) && Adopted(hash, CellsOf(w)) && Inv(hash, CellsOf(w))
  {
    var c := CellsOf(w);
    assert Logical(c) == Decode(w.headers.heads);
    AdoptedIsInv(hash, c);
  }

  lemma PhasesAreTheThreads(hash: Key -> nat, w: State, c: State, labels: seq<Label>, i: nat, t: nat)
    requires Mirrors(w, c) && Inv(hash, c) && Schedules(w, labels) && Schedules(c, labels)
    requires i <= |labels| && t < |w.pcs|
    ensures ViewsOf(hash, c, labels)[i].phases[t] == PhaseOf(Run(hash, w, labels[..i]).pcs[t], |w.keys|)
  {
    RunMirrors(hash, w, c, labels[..i]);
    RunKeepsInv(hash, c, labels[..i]);
  }

  /** Every run of the shipped table, from any adopted storage and under any schedule, is a linear run of
      the sequential map, seen through phases computed from the threads' own program counters. */
  lemma EveryHeaderRunIsLinear(hash: Key -> nat, w: State, labels: seq<Label>)
    requires FreshlyAdopted(hash, w) && Schedules(w, labels)
    ensures Inv(hash, CellsOf(w)) && Schedules(CellsOf(w), labels)
    ensures LinearRun(ViewsOf(hash, CellsOf(w), labels), labels)
    ensures ViewsOf(hash, CellsOf(w), labels)[0].ledger
         == Ledger(Contents(Decode(w.headers.heads), w.keys, w.values), Count(Decode(w.headers.heads), Free))
    ensures forall i, t :: 0 <= i <= |labels| && 0 <= t < |w.pcs| ==>
              ViewsOf(hash, CellsOf(w), labels)[i].phases[t] == PhaseOf(Run(hash, w, labels[..i]).pcs[t], |w.keys|)
  {
    AdoptionMirrors(hash, w);
    var c := CellsOf(w);
    EveryRunIsLinear(hash, c, labels);
    assert Logical(c) == Decode(w.headers.heads);
    assert labels[..0] == [];
    forall i, t | 0 <= i <= |labels| && 0 <= t < |w.pcs|
      ensures ViewsOf(hash, c, labels)[i].phases[t] == PhaseOf(Run(hash, w, labels[..i]).pcs[t], |w.keys|)
    {
      PhasesAreTheThreads(hash, w, c, labels, i, t);
    }
  }
}
