/**
  * What whole runs of a transaction group keep, whatever the participants' stores answer and whichever
  * threads the spans come from (python/transactions.cpp).
  */
module TransactionRuns {
  import opened TransactionGroups

  /** Which participants are staged */

  // Staged participants always form a tail: passes walk the group in order and stop at a refusal.
  ghost predicate CutAt(g: Group, c: nat) {
    && c <= |g.parts|
    && (forall i :: 0 <= i < c ==> !g.parts[i].staged)
    && (forall i :: c <= i < |g.parts| ==> g.parts[i].staged)
  }

  ghost predicate Valid(g: Group) {
    |g.parts| > 0 && exists c :: CutAt(g, c) && (g.state.Pending? ==> c > 0)
  }

  // Every store finds all it staged when asked to give it back.
  ghost predicate Sound(span: Span) {
    match span
    case Stage(_, recovers) => forall i: nat :: recovers(i).Intact?
    case Rollback(recovers) => forall i: nat :: recovers(i).Intact?
    case _ => true
  }

  // With sound stores, a group calling itself staged is staged throughout.
  ghost predicate Whole(g: Group) {
    Valid(g) && (g.state.Staged? ==> CutAt(g, 0))
  }

  // A group a commit has torn: some of it is published and some still staged.
  ghost predicate Torn(g: Group) {
    g.state.Pending? && exists i :: 0 <= i < |g.parts| && g.parts[i].staged
  }

  predicate Discards(span: Span) {
    span.Reset? || span.Finish?
  }

  /** One span, one participant */

  // A refused stage that unwinds soundly has done nothing; an accepted one marks everybody.
  lemma StageIsAllOrNothing(g: Group, accepts: nat -> bool, recovers: nat -> Recovery)
    requires g.lifetime.Usable? && g.state.Pending?
    requires forall i: nat :: recovers(i).Intact?
    ensures var r := AfterStage(g, accepts, recovers);
            if forall i :: 0 <= i < |g.parts| ==> !g.parts[i].staged && accepts(i) then
              && r.state.Staged?
              && forall i :: 0 <= i < |g.parts| ==> r.parts[i] == g.parts[i].(staged := true)
            else r == g
  {
    var stop := Reach(g.parts, false, accepts, 0);
    if stop < |g.parts| {
      assert AfterStage(g, accepts, recovers).parts == g.parts;
    }
  }

  // How many participants one span publishes.
  function Publishing(g: Group, span: Span): nat {
    if span.Commit? then Publishes(g, span.accepts) else 0
  }

  // A span publishes at most one round of each participant, and then exactly what it had pending.
  lemma StepPublishes(g: Group, span: Span, i: nat)
    requires Fits(g, span) && i < |g.parts|
    ensures var q := After(g, span).parts[i];
            && q.splits == g.parts[i].splits
            && q.published == g.parts[i].published + if i < Publishing(g, span) then [g.parts[i].writes] else []
  {
    var r := After(g, span);
    match span
    case Stage(accepts, recovers) =>
      if g.lifetime.Usable? && g.state.Pending? {
        var stop := Reach(g.parts, false, accepts, 0);
        if stop == |g.parts| {
          assert r.parts[i] == g.parts[i].(staged := true);
        } else if i < stop {
          assert r.parts[i] == g.parts[i].(staged := true).Rollback(recovers(i)).0;
        }
      }
    case Rollback(recovers) =>
      if g.state.Staged? {
        var stop := Reach(g.parts, true, Recovers(recovers), 0);
        assert r.parts[i] == if i <= stop then g.parts[i].Rollback(recovers(i)).0 else g.parts[i];
      }
    case _ =>
  }

  // Exactly how one participant's staging and pending writes move.
  lemma StepStaging(g: Group, span: Span, i: nat)
    requires Fits(g, span) && i < |g.parts| && Whole(g) && Sound(span) && !Discards(span)
    ensures var p := g.parts[i];
            var r := After(g, span);
            var q := r.parts[i];
            && (i < Publishing(g, span) ==> p.staged && !q.staged && q.writes == [])
            && (i >= Publishing(g, span) ==>
                  if span.Write? && span.index == i && span.accepted && !p.staged && g.lifetime.Usable?
                  then q == p.(writes := p.writes + [span.payload])
                  else q.writes == p.writes)
  {
    var r := After(g, span);
    match span
    case Stage(accepts, recovers) =>
      if g.lifetime.Usable? && g.state.Pending? {
        StageIsAllOrNothing(g, accepts, recovers);
      }
    case Rollback(recovers) =>
      if g.state.Staged? {
        var stop := Reach(g.parts, true, Recovers(recovers), 0);
        assert r.parts[i] == if i <= stop then g.parts[i].Rollback(recovers(i)).0 else g.parts[i];
      }
    case Commit(accepts) =>
      if g.state.Staged? {
        var count := Publishes(g, accepts);
        assert r.parts[i] == if i < count then g.parts[i].Publish() else g.parts[i];
      }
    case _ =>
  }

  /** The shape every run keeps */

  lemma StageKeepsCut(g: Group, accepts: nat -> bool, recovers: nat -> Recovery, c: nat)
    requires |g.parts| > 0 && CutAt(g, c) && c > 0 && g.state.Pending? && g.lifetime.Usable?
    ensures Valid(AfterStage(g, accepts, recovers))
  {
    var r := AfterStage(g, accepts, recovers);
    var stop := Reach(g.parts, false, accepts, 0);
    forall i | 0 <= i < |g.parts|
      ensures r.parts[i].staged == (stop == |g.parts| || g.parts[i].staged)
    {
      assert r.parts[i] == if stop == |g.parts| then g.parts[i].(staged := true)
                           else if i < stop then g.parts[i].(staged := true).Rollback(recovers(i)).0
                           else g.parts[i];
    }
    assert CutAt(r, if stop == |g.parts| then 0 else c);
  }

  lemma RollbackKeepsCut(g: Group, recovers: nat -> Recovery, c: nat)
    requires |g.parts| > 0 && CutAt(g, c) && g.state.Staged?
    ensures Valid(AfterRollback(g, recovers))
  {
    var r := AfterRollback(g, recovers);
    var stop := Reach(g.parts, true, Recovers(recovers), 0);
    forall i | 0 <= i < |g.parts|
      ensures r.parts[i].staged == (i > stop && g.parts[i].staged)
    {
      assert r.parts[i] == if i <= stop then g.parts[i].Rollback(recovers(i)).0 else g.parts[i];
    }
    assert CutAt(r, if c > 0 then c else if stop < |g.parts| then stop + 1 else stop);
  }

  lemma StepKeepsCut(g: Group, span: Span)
    requires Valid(g) && Fits(g, span)
    ensures Valid(After(g, span))
  {
    var r := After(g, span);
    var c: nat :| CutAt(g, c) && (g.state.Pending? ==> c > 0);
    match span
    case Stage(accepts, recovers) =>
      if g.lifetime.Usable? && g.state.Pending? {
        StageKeepsCut(g, accepts, recovers, c);
      }
    case Commit(accepts) =>
      if g.state.Staged? {
        var count := Publishes(g, accepts);
        assert CutAt(r, if count == 0 then c else count);
      }
    case Rollback(recovers) =>
      if g.state.Staged? {
        RollbackKeepsCut(g, recovers, c);
      }
    case Write(_, _, _) =>
      assert CutAt(r, c);
    case Close =>
      assert CutAt(r, c);
    case Reset =>
      if g.lifetime.Usable? {
        assert CutAt(r, |g.parts|);
      }
    case Finish =>
      assert CutAt(r, |g.parts|);
  }

  lemma StepKeepsWhole(g: Group, span: Span)
    requires Whole(g) && Fits(g, span) && Sound(span)
    ensures Whole(After(g, span))
  {
    StepKeepsCut(g, span);
    var r := After(g, span);
    match span
    case Stage(accepts, recovers) =>
      if g.lifetime.Usable? && g.state.Pending? {
        StageIsAllOrNothing(g, accepts, recovers);
      }
    case Commit(accepts) =>
      if g.state.Staged? && r.state.Staged? {
        assert r.parts == g.parts;
      }
    case Rollback(recovers) =>
      if g.state.Staged? {
        var stop := Reach(g.parts, true, Recovers(recovers), 0);
        assert stop == |g.parts|;
      }
    case _ =>
  }

  // The only way to tear a group, both ways round: a commit of a staged group with a container that cannot be asked
  // before anything is written, which the first participant accepts and another refuses.
  lemma TornExactly(g: Group, span: Span)
    requires Whole(g) && !Torn(g) && Fits(g, span) && Sound(span)
    ensures Torn(After(g, span)) <==>
            && span.Commit? && g.state.Staged? && span.accepts(0)
            && (exists i :: 0 <= i < |g.parts| && !g.parts[i].splits)
            && (exists j :: 0 <= j < |g.parts| && !span.accepts(j))
  {
    var r := After(g, span);
    match span
    case Write(index, _, _) =>
      assert forall i :: 0 <= i < |g.parts| ==> r.parts[i].staged == g.parts[i].staged;
    case Stage(accepts, recovers) =>
      if g.lifetime.Usable? && g.state.Pending? {
        StageIsAllOrNothing(g, accepts, recovers);
      }
    case Commit(accepts) =>
      if g.state.Staged? {
        CommitTearsExactly(g, accepts);
      }
    case Rollback(recovers) =>
      if g.state.Staged? {
        var stop := Reach(g.parts, true, Recovers(recovers), 0);
        assert stop == |g.parts|;
      }
    case _ =>
  }

  lemma CommitTearsExactly(g: Group, accepts: nat -> bool)
    requires Whole(g) && g.state.Staged?
    ensures Torn(After(g, Span.Commit(accepts))) <==>
            && accepts(0) && (exists i :: 0 <= i < |g.parts| && !g.parts[i].splits)
            && (exists j :: 0 <= j < |g.parts| && !accepts(j))
  {
    var r := After(g, Span.Commit(accepts));
    if |g.parts| >= 2 && forall i :: 0 <= i < |g.parts| ==> g.parts[i].splits {
      CommitIsAllOrNothing(g, accepts);
    } else {
      CommitIsInTurn(g, accepts);
      if j :| 0 <= j < |g.parts| && !accepts(j) {
        assert r.parts[j] == g.parts[j];
      }
    }
  }

  ghost predicate AllSound(spans: seq<Span>) {
    forall k :: 0 <= k < |spans| ==> Sound(spans[k])
  }

  lemma {:induction false} RunKeepsWhole(g: Group, spans: seq<Span>)
    requires Whole(g) && AllFit(g, spans) && AllSound(spans)
    ensures Whole(Run(g, spans))
    decreases spans
  {
    if spans != [] {
      StepKeepsWhole(g, spans[0]);
      RunKeepsWhole(After(g, spans[0]), spans[1..]);
    }
  }

  // A lone container, or any number that can all be asked before anything is written, is never torn by any run.
  lemma {:induction false} NeverTorn(g: Group, spans: seq<Span>)
    requires Whole(g) && !Torn(g) && AllFit(g, spans) && AllSound(spans)
    requires |g.parts| == 1 || forall i :: 0 <= i < |g.parts| ==> g.parts[i].splits
    ensures !Torn(Run(g, spans))
    decreases spans
  {
    if spans != [] {
      var r := After(g, spans[0]);
      StepKeepsWhole(g, spans[0]);
      TornExactly(g, spans[0]);
      SplittingStays(g, spans[0]);
      NeverTorn(r, spans[1..]);
    }
  }

  lemma SplittingStays(g: Group, span: Span)
    requires Fits(g, span)
    ensures forall i :: 0 <= i < |g.parts| ==> After(g, span).parts[i].splits == g.parts[i].splits
  {
    forall i: nat | i < |g.parts|
      ensures After(g, span).parts[i].splits == g.parts[i].splits
    {
      StepPublishes(g, span, i);
    }
  }

  /** Publication over whole runs */

  // The rounds of a run that got past participant `i`, oldest first.
  function Rounds(g: Group, spans: seq<Span>, i: nat): (r: seq<seq<int>>)
    requires AllFit(g, spans) && i < |g.parts|
    decreases spans
  {
    if spans == [] then []
    else (if i < Publishing(g, spans[0]) then [g.parts[i].writes] else [])
         + Rounds(After(g, spans[0]), spans[1..], i)
  }

  // What is published stays published, and a run adds exactly the rounds that got past it.
  lemma {:induction false} RunPublishesRounds(g: Group, spans: seq<Span>, i: nat)
    requires AllFit(g, spans) && i < |g.parts|
    ensures Run(g, spans).parts[i].published == g.parts[i].published + Rounds(g, spans, i)
    decreases spans
  {
    if spans != [] {
      StepPublishes(g, spans[0], i);
      RunPublishesRounds(After(g, spans[0]), spans[1..], i);
    }
  }

  lemma {:induction false} FewerRoundsFurtherOn(g: Group, spans: seq<Span>, i: nat, j: nat)
    requires AllFit(g, spans) && i <= j < |g.parts|
    ensures |Rounds(g, spans, i)| >= |Rounds(g, spans, j)|
    decreases spans
  {
    if spans != [] {
      FewerRoundsFurtherOn(After(g, spans[0]), spans[1..], i, j);
    }
  }

  // Over any run nobody later in the staging order publishes more often than somebody earlier.
  lemma EarlierIsNeverBehind(g: Group, spans: seq<Span>, i: nat, j: nat)
    requires AllFit(g, spans) && i <= j < |g.parts|
    ensures |Run(g, spans).parts[i].published| - |g.parts[i].published|
         >= |Run(g, spans).parts[j].published| - |g.parts[j].published|
  {
    FewerRoundsFurtherOn(g, spans, i, j);
    RunPublishesRounds(g, spans, i);
    RunPublishesRounds(g, spans, j);
  }

  lemma OneSpanPublishesTogether(g: Group, span: Span, i: nat, j: nat)
    requires Fits(g, span) && i < |g.parts| && j < |g.parts|
    requires |g.parts| == 1 || forall k :: 0 <= k < |g.parts| ==> g.parts[k].splits
    ensures |After(g, span).parts[i].published| - |g.parts[i].published|
         == |After(g, span).parts[j].published| - |g.parts[j].published|
  {
    StepPublishes(g, span, i);
    StepPublishes(g, span, j);
    if span.Commit? && g.state.Staged? && |g.parts| >= 2 {
      CommitIsAllOrNothing(g, span.accepts);
    }
  }

  // All or none, over any run: such participants have always published the same number of rounds.
  lemma {:induction false} PublishTogether(g: Group, spans: seq<Span>, i: nat, j: nat)
    requires AllFit(g, spans) && i < |g.parts| && j < |g.parts|
    requires |g.parts| == 1 || forall k :: 0 <= k < |g.parts| ==> g.parts[k].splits
    ensures |Run(g, spans).parts[i].published| - |g.parts[i].published|
         == |Run(g, spans).parts[j].published| - |g.parts[j].published|
    decreases spans
  {
    if spans != [] {
      SplittingStays(g, spans[0]);
      OneSpanPublishesTogether(g, spans[0], i, j);
      PublishTogether(After(g, spans[0]), spans[1..], i, j);
    }
  }

  /** Nothing is lost and nothing is published twice */

  function Flat(rounds: seq<seq<int>>): (r: seq<int>)
  {
    if rounds == [] then [] else Flat(rounds[..|rounds| - 1]) + rounds[|rounds| - 1]
  }

  // Everything a participant has taken and not discarded, in the order it took it.
  function Ledger(p: Participant): seq<int> {
    Flat(p.published) + p.writes
  }

  // The writes of a run that participant `i` took.
  function Taken(g: Group, spans: seq<Span>, i: nat): (r: seq<int>)
    requires AllFit(g, spans) && i < |g.parts|
    decreases spans
  {
    if spans == [] then [] else
    var s := spans[0];
    (if s.Write? && s.index == i && s.accepted && !g.parts[i].staged && g.lifetime.Usable? then [s.payload] else [])
    + Taken(After(g, s), spans[1..], i)
  }

  lemma StepConserves(g: Group, span: Span, i: nat)
    requires Fits(g, span) && i < |g.parts| && Whole(g) && Sound(span) && !Discards(span)
    ensures Ledger(After(g, span).parts[i]) ==
            Ledger(g.parts[i]) + Taken(g, [span], i)
  {
    var p, q := g.parts[i], After(g, span).parts[i];
    StepPublishes(g, span, i);
    StepStaging(g, span, i);
    assert Taken(After(g, span), [span][1..], i) == [];
    if i < Publishing(g, span) {
      assert q.published[..|q.published| - 1] == p.published;
    }
  }

  lemma TakenFirst(g: Group, spans: seq<Span>, i: nat)
    requires AllFit(g, spans) && i < |g.parts| && spans != []
    ensures Taken(g, spans, i) == Taken(g, [spans[0]], i) + Taken(After(g, spans[0]), spans[1..], i)
  {
    assert Taken(After(g, spans[0]), [spans[0]][1..], i) == [];
  }

  // However often a group is staged, refused, committed and rolled back, each write it took is either
  // still pending or was published exactly once, in order, until somebody discards.
  lemma {:induction false} RunConserves(g: Group, spans: seq<Span>, i: nat)
    requires AllFit(g, spans) && i < |g.parts| && Whole(g) && AllSound(spans)
    requires forall k :: 0 <= k < |spans| ==> !Discards(spans[k])
    ensures Ledger(Run(g, spans).parts[i]) == Ledger(g.parts[i]) + Taken(g, spans, i)
    decreases spans
  {
    if spans != [] {
      var r := After(g, spans[0]);
      StepConserves(g, spans[0], i);
      StepKeepsWhole(g, spans[0]);
      RunConserves(r, spans[1..], i);
      TakenFirst(g, spans, i);
    }
  }

  /** After a tear, and after the handle closes */

  lemma TornStepKeeps(g: Group, span: Span, i: nat)
    requires Valid(g) && Torn(g) && Fits(g, span) && Sound(span) && !Discards(span) && i < |g.parts|
    ensures Torn(After(g, span))
    ensures After(g, span).parts[i].published == g.parts[i].published
    ensures g.parts[i].staged ==> After(g, span).parts[i] == g.parts[i]
  {
    var j :| 0 <= j < |g.parts| && g.parts[j].staged;
    if span.Stage? && g.lifetime.Usable? {
      StageIsAllOrNothing(g, span.accepts, span.recovers);
    }
    assert After(g, span).parts[j].staged;
  }

  // A torn group neither publishes nor releases anything more until somebody discards.
  lemma {:induction false} TornWaitsForReset(g: Group, spans: seq<Span>, i: nat)
    requires Valid(g) && Torn(g) && AllFit(g, spans) && AllSound(spans) && i < |g.parts|
    requires forall k :: 0 <= k < |spans| ==> !Discards(spans[k])
    ensures Torn(Run(g, spans))
    ensures Run(g, spans).parts[i].published == g.parts[i].published
    ensures g.parts[i].staged ==> Run(g, spans).parts[i] == g.parts[i]
    decreases spans
  {
    if spans != [] {
      TornStepKeeps(g, spans[0], i);
      StepKeepsCut(g, spans[0]);
      TornWaitsForReset(After(g, spans[0]), spans[1..], i);
    }
  }

  // What a participant may have become since its handle closed on `p`.
  predicate Settled(p: Participant, q: Participant, state: Staging) {
    || (q.published == p.published && (q.writes == p.writes || (q.writes == [] && state.Pending?)))
    || (q.published == p.published + [p.writes] && q.writes == [] && !q.staged && state.Pending?)
  }

  lemma ClosedStep(p: Participant, g: Group, span: Span, i: nat)
    requires Whole(g) && g.lifetime.Finished? && Fits(g, span) && Sound(span) && i < |g.parts|
    requires Settled(p, g.parts[i], g.state)
    ensures After(g, span).lifetime.Finished?
    ensures Settled(p, After(g, span).parts[i], After(g, span).state)
    ensures g.state.Pending? ==> After(g, span).state.Pending? && After(g, span).parts[i].published == g.parts[i].published
  {
    StepPublishes(g, span, i);
    if Discards(span) {
    } else {
      StepStaging(g, span, i);
    }
  }

  // A closed handle takes no write and stages nothing; if it closed on a staged group, what was staged
  // can still be published, once and whole, and if it closed on a pending one nothing ever is.
  lemma {:induction false} ClosedHandlePublishesAtMostOnce(p: Participant, g: Group, spans: seq<Span>, i: nat)
    requires Whole(g) && g.lifetime.Finished? && AllFit(g, spans) && AllSound(spans) && i < |g.parts|
    requires Settled(p, g.parts[i], g.state)
    ensures Run(g, spans).lifetime.Finished?
    ensures Settled(p, Run(g, spans).parts[i], Run(g, spans).state)
    ensures g.state.Pending? ==> Run(g, spans).parts[i].published == g.parts[i].published
    decreases spans
  {
    if spans != [] {
      ClosedStep(p, g, spans[0], i);
      StepKeepsWhole(g, spans[0]);
      ClosedHandlePublishesAtMostOnce(p, After(g, spans[0]), spans[1..], i);
    }
  }
}
