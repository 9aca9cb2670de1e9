/**
  * Leaving a `with` block while other threads run passes of their own on the same handle: what they cannot disturb,
  * what they can, and exactly when writes are left behind that nobody will ever publish (python/transactions.cpp,
  * `Transaction_exit`).
  */
module TransactionExits {
  import opened TransactionGroups
  import opened TransactionRuns

  /** The passes a staged group takes notice of. */
  predicate Unstages(span: Span) {
    span.Commit? || span.Rollback? || span.Reset? || span.Finish?
  }

  predicate NoneUnstages(spans: seq<Span>) {
    forall k :: 0 <= k < |spans| ==> !Unstages(spans[k])
  }

  lemma StagedStandsStill(g: Group, span: Span)
    requires g.state.Staged? && CutAt(g, 0) && Fits(g, span) && !Unstages(span)
    ensures After(g, span) == g.(lifetime := if span.Close? then Finished else g.lifetime)
  {
  }

  // Reads, writes, stages and closes from other threads leave a staged group exactly as it is.
  lemma {:induction false} StagedWaits(g: Group, spans: seq<Span>)
    requires g.state.Staged? && CutAt(g, 0) && AllFit(g, spans) && NoneUnstages(spans)
    ensures Run(g, spans).parts == g.parts && Run(g, spans).state.Staged?
    ensures g.lifetime.Finished? ==> Run(g, spans) == g
    decreases spans
  {
    if spans != [] {
      StagedStandsStill(g, spans[0]);
      StagedWaits(After(g, spans[0]), spans[1..]);
    }
  }

  lemma OwnStageIsWhole(g: Group, stages: nat -> bool, recovers: nat -> Recovery)
    requires Whole(g) && g.lifetime.Usable? && !Refuses(g, stages)
    ensures var r := AfterStage(g, stages, recovers);
            r.state.Staged? && CutAt(r, 0)
  {
    if g.state.Pending? {
      var r := AfterStage(g, stages, recovers);
      assert forall i :: 0 <= i < |g.parts| ==> r.parts[i] == g.parts[i].(staged := true);
    }
  }

  // A block that nobody unstages leaves as if it had been alone: its commit finds what its stage left.
  lemma UndisturbedExit(g: Group, stages: nat -> bool, recovers: nat -> Recovery, between: seq<Span>, later: seq<Span>)
    requires Whole(g) && g.lifetime.Usable? && !Refuses(g, stages) && AllFit(g, between) && AllFit(g, later)
    requires NoneUnstages(between) && NoneUnstages(later)
    ensures BeforeCommit(g, stages, recovers, between, later) == BeforeCommit(g, stages, recovers, [], [])
         == AfterStage(g, stages, recovers).(lifetime := Finished)
  {
    var r := AfterStage(g, stages, recovers);
    OwnStageIsWhole(g, stages, recovers);
    StagedWaits(r, between);
    StagedWaits(r.(lifetime := Finished), later);
  }

  predicate HoldsWrites(g: Group) {
    exists i :: 0 <= i < |g.parts| && g.parts[i].writes != []
  }

  /** Pending writes behind a handle through which nothing can be staged any more. */
  predicate Stranded(g: Group) {
    g.lifetime.Finished? && g.state.Pending? && HoldsWrites(g)
  }

  lemma FrozenStep(g: Group, span: Span)
    requires g.lifetime.Finished? && g.state.Pending? && Fits(g, span)
    ensures After(g, span) == if span.Finish? then After(g, Span.Finish) else g
  {
  }

  // Stranded is for good: no run of passes from any threads moves such a group, but one that discards it.
  lemma {:induction false} StrandedForGood(g: Group, spans: seq<Span>)
    requires g.lifetime.Finished? && g.state.Pending? && AllFit(g, spans)
    ensures Run(g, spans) == if exists k :: 0 <= k < |spans| && spans[k].Finish? then After(g, Span.Finish) else g
    decreases spans
  {
    if spans != [] {
      FrozenStep(g, spans[0]);
      StrandedForGood(After(g, spans[0]), spans[1..]);
      FinishTwice(g);
      if k :| 0 <= k < |spans| && spans[k].Finish? && k > 0 {
        assert spans[1..][k - 1].Finish?;
      }
    }
  }

  lemma FinishTwice(g: Group)
    ensures After(After(g, Span.Finish), Span.Finish) == After(g, Span.Finish)
  {
  }

  /** A commit that publishes the first participant's writes and, being refused, not those of one further on. */
  ghost predicate Tears(g: Group, commits: nat -> bool)
    requires |g.parts| > 0
  {
    && (exists k :: 0 <= k < |g.parts| && !g.parts[k].splits)
    && g.parts[0].staged && commits(0)
    && exists i, j :: 0 <= j <= i < |g.parts| && (!g.parts[j].staged || !commits(j)) && g.parts[i].writes != []
  }

  lemma LeavesTears(g: Group, r: Group, commits: nat -> bool, i: nat)
    requires i < |r.parts| == |g.parts| && (|g.parts| == 1 || exists k :: 0 <= k < |g.parts| && !g.parts[k].splits)
    requires g.parts[0].staged && commits(0)
    requires r.parts[i].writes == if forall j :: 0 <= j <= i ==> g.parts[j].staged && commits(j) then [] else g.parts[i].writes
    ensures r.parts[i].writes != [] ==> Tears(g, commits)
  {
  }

  lemma TearsLeaves(g: Group, r: Group, commits: nat -> bool, i: nat, j: nat)
    requires j <= i < |r.parts| == |g.parts| && (!g.parts[j].staged || !commits(j)) && g.parts[i].writes != []
    requires r.parts[i].writes == if forall j :: 0 <= j <= i ==> g.parts[j].staged && commits(j) then [] else g.parts[i].writes
    ensures HoldsWrites(r)
  {
    assert r.parts[i].writes != [];
  }

  lemma InTurnLeavesExactly(g: Group, commits: nat -> bool)
    requires g.state.Staged? && (|g.parts| == 1 || exists i :: 0 <= i < |g.parts| && !g.parts[i].splits)
    ensures var r := After(g, Span.Commit(commits));
            r.state.Pending? && HoldsWrites(r) <==> Tears(g, commits)
  {
    var r := After(g, Span.Commit(commits));
    CommitInTurnStays(g, commits);
    if r.state.Pending? && HoldsWrites(r) {
      var i :| 0 <= i < |r.parts| && r.parts[i].writes != [];
      CommitInTurnAt(g, commits, i);
      LeavesTears(g, r, commits, i);
    }
    if Tears(g, commits) {
      var i, j :| 0 <= j <= i < |g.parts| && (!g.parts[j].staged || !commits(j)) && g.parts[i].writes != [];
      CommitInTurnAt(g, commits, i);
      TearsLeaves(g, r, commits, i, j);
    }
  }

  lemma CommitLeavesWritesExactly(g: Group, commits: nat -> bool)
    requires g.state.Staged? && |g.parts| > 0
    ensures var r := After(g, Span.Commit(commits));
            r.state.Pending? && HoldsWrites(r) <==> Tears(g, commits)
  {
    if |g.parts| >= 2 && forall i :: 0 <= i < |g.parts| ==> g.parts[i].splits {
      CommitIsAllOrNothing(g, commits);
    } else {
      InTurnLeavesExactly(g, commits);
    }
  }

  // A block's exit strands writes if and only if its commit finds them unstaged, or tears them off: that is, somebody
  // unstaged the group and left writes in it, or a container that cannot be asked first made the commit go in turn and
  // it was refused past the first participant.
  lemma ExitStrandsExactly(b: Group, commits: nat -> bool)
    requires b.lifetime.Finished? && |b.parts| > 0
    ensures Stranded(After(b, Span.Commit(commits))) <==> if b.state.Pending? then HoldsWrites(b) else Tears(b, commits)
  {
    if b.state.Staged? {
      CommitLeavesWritesExactly(b, commits);
    }
  }

  // Undisturbed, a block over one container, or over any that can all be asked first, strands nothing.
  lemma UndisturbedExitStrandsNothing(g: Group, stages: nat -> bool, recovers: nat -> Recovery, commits: nat -> bool,
                                      between: seq<Span>, later: seq<Span>)
    requires Whole(g) && g.lifetime.Usable? && !Refuses(g, stages) && AllFit(g, between) && AllFit(g, later)
    requires NoneUnstages(between) && NoneUnstages(later)
    requires |g.parts| == 1 || forall i :: 0 <= i < |g.parts| ==> g.parts[i].splits
    ensures !Stranded(After(BeforeCommit(g, stages, recovers, between, later), Span.Commit(commits)))
  {
    var b := BeforeCommit(g, stages, recovers, between, later);
    UndisturbedExit(g, stages, recovers, between, later);
    OwnStageIsWhole(g, stages, recovers);
    SplittingStays(g, Span.Stage(stages, recovers));
    ExitStrandsExactly(b, commits);
  }

  // One pass of another thread after the stage: what it must be to leave writes behind the closing handle.
  lemma OnePassStrandsExactly(g: Group, span: Span)
    requires Whole(g) && g.state.Staged? && Fits(g, span) && Sound(span)
    ensures Stranded(After(After(g, span), Span.Close)) <==>
              (span.Rollback? && HoldsWrites(g)) || (span.Commit? && Tears(g, span.accepts))
  {
    var r := After(g, span);
    match span
    case Commit(accepts) => CommitLeavesWritesExactly(g, accepts);
    case Rollback(recovers) =>
      RollbackMeans(g, recovers);
      if i :| 0 <= i < |g.parts| && g.parts[i].writes != [] {
        assert r.parts[i].writes != [];
      }
    case _ =>
      if !Unstages(span) {
        StagedStandsStill(g, span);
      }
  }

  // An input: between a block's stage and its close another thread rolls back and writes. The close takes a group that
  // is open, the commit answers that nothing is staged, and neither the block's write nor the other is ever published.
  lemma RollbackCanStrand(stages: nat -> bool, recovers: nat -> Recovery, commits: nat -> bool)
    requires stages(0) && recovers(0).Intact?
    ensures var g := Group([Participant(0, true, false, [7], [])], Pending, Usable);
            var between := [Span.Rollback(recovers), Span.Write(0, 9, true)];
            && !Refuses(g, stages) && AllFit(g, between)
            && var b := BeforeCommit(g, stages, recovers, between, []);
               b == Group([Participant(0, true, false, [7, 9], [])], Pending, Finished) && Stranded(After(b, Span.Commit(commits)))
  {
    var p := Participant(0, true, false, [7], []);
    var g := Group([p], Pending, Usable);
    var between := [Span.Rollback(recovers), Span.Write(0, 9, true)];
    ReachIs(g.parts, false, stages, 1);
    var staged := Group([p.(staged := true)], Staged, Usable);
    assert AfterStage(g, stages, recovers) == staged;
    ReachIs(staged.parts, true, Recovers(recovers), 1);
    assert AfterRollback(staged, recovers).parts[0] == p;
    assert After(staged, between[0]) == g;
    assert [7] + [9] == [7, 9];
    var open := Group([p.(writes := [7, 9])], Pending, Usable);
    assert After(g, between[1]) == open;
    assert between[1..] == [Span.Write(0, 9, true)] && between[1..][1..] == [];
    assert Run(g, between[1..]) == Run(open, []) == open;
    assert Run(staged, between) == open;
    assert open.(lifetime := Finished).parts[0].writes != [];
  }
}
