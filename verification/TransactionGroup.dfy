/**
  * A transaction spanning several containers: one participant per container, staged, committed,
  * rolled back and reset in turn under one lock (python/transactions.cpp).
  *
  * Every pass over the participants is one locked span, so a run of the group - by any number of
  * threads - is a sequence of spans. `After` says what one span does to the whole group; the class
  * below runs the passes as loops and is proved to do exactly that; the lemmas are about runs.
  *
  * What a container's store answers is not decided here: each span carries the store's verdicts, one
  * for every participant it may ask, so a statement over all spans is one over all verdicts.
  */
module TransactionGroups {

  /** What a store gives back when asked to unstage: everything, or only what it could still find. */
  datatype Recovery = Intact | Broken(survivors: seq<int>)

  /**
    * One container's open transaction, over the container of that ordinal. `writes` are its pending changes, wherever they are kept, and
    * `published` the rounds of changes it has made visible, oldest first. `splits` says whether the
    * store can be asked to validate without writing.
    */
  datatype Participant =
    Participant(container: nat, splits: bool, staged: bool, writes: seq<int>, published: seq<seq<int>>)
  {
    function Stage(accepts: bool): (Participant, bool) {
      if staged || !accepts then (this, false) else (this.(staged := true), true)
    }

    predicate Validate(accepts: bool) {
      staged && accepts
    }

    function Publish(): Participant {
      this.(staged := false, writes := [], published := published + [writes])
    }

    function Commit(accepts: bool): (Participant, bool) {
      if Validate(accepts) then (Publish(), true) else (this, false)
    }

    function Rollback(recovery: Recovery): (Participant, bool) {
      if !staged then (this, false)
      else (this.(staged := false, writes := if recovery.Intact? then writes else recovery.survivors),
            recovery.Intact?)
    }

    function Reset(): Participant {
      this.(staged := false, writes := [])
    }

    function Write(payload: int, accepts: bool): (Participant, bool) {
      if staged || !accepts then (this, false) else (this.(writes := writes + [payload]), true)
    }
  }

  datatype Staging = Pending | Staged

  datatype Lifetime = Usable | Finished

  datatype Group = Group(parts: seq<Participant>, state: Staging, lifetime: Lifetime)

  /** One pass under the group's lock, with the answers the participants' stores would give to it. */
  datatype Span =
    | Write(index: nat, payload: int, accepted: bool)
    | Stage(accepts: nat -> bool, recovers: nat -> Recovery)
    | Commit(accepts: nat -> bool)
    | Rollback(recovers: nat -> Recovery)
    | Reset
    | Finish
    | Close

  // A stage partway: everybody before `n` has taken it, and nobody from there on has been asked.
  predicate StagedUpTo(was: seq<Participant>, now: seq<Participant>, n: nat) {
    && n <= |was| == |now|
    && (forall i :: 0 <= i < n ==> !was[i].staged && now[i] == was[i].(staged := true))
    && (forall i :: n <= i < |was| ==> now[i] == was[i])
  }

  /** What one span does */

  // The first position from `k` on whose participant is not staged as wanted or whose store refuses.
  function Reach(parts: seq<Participant>, wanted: bool, accepts: nat -> bool, k: nat): (r: nat)
    requires k <= |parts|
    ensures k <= r <= |parts|
    ensures forall i :: k <= i < r ==> parts[i].staged == wanted && accepts(i)
    ensures r < |parts| ==> parts[r].staged != wanted || !accepts(r)
    decreases |parts| - k
  {
    if k < |parts| && parts[k].staged == wanted && accepts(k) then Reach(parts, wanted, accepts, k + 1) else k
  }

  // The only position there can be with nothing refused before it and a refusal at it.
  lemma ReachIs(parts: seq<Participant>, wanted: bool, accepts: nat -> bool, r: nat)
    requires r <= |parts|
    requires forall i :: 0 <= i < r ==> parts[i].staged == wanted && accepts(i)
    requires r < |parts| ==> parts[r].staged != wanted || !accepts(r)
    ensures Reach(parts, wanted, accepts, 0) == r
  {
    var found := Reach(parts, wanted, accepts, 0);
    if found < r {
      assert false;
    }
  }

  function Recovers(recovers: nat -> Recovery): nat -> bool {
    (i: nat) => recovers(i).Intact?
  }

  // Validating everybody before anybody publishes is only for two or more who can all be asked.
  predicate AsksFirst(parts: seq<Participant>) {
    |parts| > 1 && forall i :: 0 <= i < |parts| ==> parts[i].splits
  }

  function AfterStage(g: Group, accepts: nat -> bool, recovers: nat -> Recovery): (r: Group)
    ensures |r.parts| == |g.parts|
  {
    if g.lifetime.Finished? || g.state.Staged? then g else
    var stop := Reach(g.parts, false, accepts, 0);
    if stop == |g.parts| then
      g.(parts := seq(|g.parts|, i requires 0 <= i < |g.parts| => g.parts[i].(staged := true)), state := Staged)
    else
      g.(parts := seq(|g.parts|, i requires 0 <= i < |g.parts| =>
        if i < stop then g.parts[i].(staged := true).Rollback(recovers(i)).0 else g.parts[i]))
  }

  // How many participants a commit publishes.
  function Publishes(g: Group, accepts: nat -> bool): (r: nat)
    ensures r <= |g.parts|
  {
    if g.state.Pending? then 0 else
    var stop := Reach(g.parts, true, accepts, 0);
    if AsksFirst(g.parts) && stop < |g.parts| then 0 else stop
  }

  function AfterCommit(g: Group, accepts: nat -> bool): (r: Group)
    ensures |r.parts| == |g.parts|
  {
    if g.state.Pending? then g else
    var count := Publishes(g, accepts);
    g.(parts := seq(|g.parts|, i requires 0 <= i < |g.parts| =>
         if i < count then g.parts[i].Publish() else g.parts[i]),
       state := if count == 0 && |g.parts| > 0 then Staged else Pending)
  }

  function AfterRollback(g: Group, recovers: nat -> Recovery): (r: Group)
    ensures |r.parts| == |g.parts|
  {
    if g.state.Pending? then g else
    var stop := Reach(g.parts, true, Recovers(recovers), 0);
    g.(parts := seq(|g.parts|, i requires 0 <= i < |g.parts| =>
         if i <= stop then g.parts[i].Rollback(recovers(i)).0 else g.parts[i]),
       state := if stop == |g.parts| then Pending else Staged)
  }

  function Discarded(parts: seq<Participant>): (r: seq<Participant>)
    ensures |r| == |parts|
  {
    seq(|parts|, i requires 0 <= i < |parts| => parts[i].Reset())
  }

  predicate Fits(g: Group, span: Span) {
    span.Write? ==> span.index < |g.parts|
  }

  function After(g: Group, span: Span): (r: Group)
    requires Fits(g, span)
    ensures |r.parts| == |g.parts|
  {
    match span
    case Write(index, payload, accepted) =>
      if g.lifetime.Finished? then g
      else g.(parts := g.parts[index := g.parts[index].Write(payload, accepted).0])
    case Stage(accepts, recovers) => AfterStage(g, accepts, recovers)
    case Commit(accepts) => AfterCommit(g, accepts)
    case Rollback(recovers) => AfterRollback(g, recovers)
    case Reset => if g.lifetime.Finished? then g else g.(parts := Discarded(g.parts), state := Pending)
    case Finish => Group(Discarded(g.parts), Pending, Finished)
    case Close => g.(lifetime := Finished)
  }

  predicate AllFit(g: Group, spans: seq<Span>) {
    forall k :: 0 <= k < |spans| ==> Fits(g, spans[k])
  }

  function Run(g: Group, spans: seq<Span>): (r: Group)
    requires AllFit(g, spans)
    ensures |r.parts| == |g.parts|
    decreases spans
  {
    if spans == [] then g else Run(After(g, spans[0]), spans[1..])
  }

  /** What each pass means, participant by participant */

  // What comes before the first refusal is what nobody up to it refuses.
  lemma ReachSplits(parts: seq<Participant>, wanted: bool, accepts: nat -> bool, i: nat)
    requires i < |parts|
    ensures i < Reach(parts, wanted, accepts, 0) <==> forall j :: 0 <= j <= i ==> parts[j].staged == wanted && accepts(j)
    ensures i <= Reach(parts, wanted, accepts, 0) <==> forall j :: 0 <= j < i ==> parts[j].staged == wanted && accepts(j)
  {
    var stop := Reach(parts, wanted, accepts, 0);
    if stop <= i {
      assert !(parts[stop].staged == wanted && accepts(stop));
    }
  }

  lemma StageMarksAll(g: Group, accepts: nat -> bool, recovers: nat -> Recovery)
    requires g.lifetime.Usable? && g.state.Pending?
    ensures After(g, Span.Stage(accepts, recovers)).state.Staged?
       <==> forall i :: 0 <= i < |g.parts| ==> !g.parts[i].staged && accepts(i)
  {
    var stop := Reach(g.parts, false, accepts, 0);
    if stop < |g.parts| {
      assert g.parts[stop].staged || !accepts(stop);
    }
  }

  lemma StageAt(g: Group, accepts: nat -> bool, recovers: nat -> Recovery, i: nat)
    requires g.lifetime.Usable? && g.state.Pending? && i < |g.parts|
    ensures var r, p := After(g, Span.Stage(accepts, recovers)), g.parts[i];
            r.parts[i] == if r.state.Staged? then Participant(p.container, p.splits, true, p.writes, p.published)
                          else if forall j :: 0 <= j <= i ==> !g.parts[j].staged && accepts(j)
                          then Participant(p.container, p.splits, false,
                                           if recovers(i).Intact? then p.writes else recovers(i).survivors, p.published)
                          else p
  {
    var stop := Reach(g.parts, false, accepts, 0);
    ReachSplits(g.parts, false, accepts, i);
    if stop < |g.parts| {
      assert After(g, Span.Stage(accepts, recovers)).parts[i]
          == if i < stop then g.parts[i].(staged := true).Rollback(recovers(i)).0 else g.parts[i];
    }
  }

  // A stage marks everybody if nobody is staged and nobody refuses; otherwise whoever was marked before the first
  // refusal gets back what its store could still find, and nobody else is touched.
  lemma StageMeans(g: Group, accepts: nat -> bool, recovers: nat -> Recovery)
    requires g.lifetime.Usable? && g.state.Pending?
    ensures var r := After(g, Span.Stage(accepts, recovers));
            && r.lifetime.Usable? && |r.parts| == |g.parts|
            && (r.state.Staged? <==> forall i :: 0 <= i < |g.parts| ==> !g.parts[i].staged && accepts(i))
            && forall i :: 0 <= i < |g.parts| ==>
                 var p := g.parts[i];
                 r.parts[i] == if r.state.Staged? then Participant(p.container, p.splits, true, p.writes, p.published)
                               else if forall j :: 0 <= j <= i ==> !g.parts[j].staged && accepts(j)
                               then Participant(p.container, p.splits, false,
                                                if recovers(i).Intact? then p.writes else recovers(i).survivors, p.published)
                               else p
  {
    StageMarksAll(g, accepts, recovers);
    forall i | 0 <= i < |g.parts|
      ensures var r, p := After(g, Span.Stage(accepts, recovers)), g.parts[i];
              r.parts[i] == if r.state.Staged? then Participant(p.container, p.splits, true, p.writes, p.published)
                            else if forall j :: 0 <= j <= i ==> !g.parts[j].staged && accepts(j)
                            then Participant(p.container, p.splits, false,
                                             if recovers(i).Intact? then p.writes else recovers(i).survivors, p.published)
                            else p
    {
      StageAt(g, accepts, recovers, i);
    }
  }

  // With two or more containers that can all be asked before any is written, a commit publishes every participant's
  // writes, or, if one is not staged or refuses, leaves the group exactly as it was.
  lemma CommitIsAllOrNothing(g: Group, accepts: nat -> bool)
    requires g.state.Staged? && |g.parts| >= 2 && forall i :: 0 <= i < |g.parts| ==> g.parts[i].splits
    ensures var r := After(g, Span.Commit(accepts));
            if exists i :: 0 <= i < |g.parts| && (!g.parts[i].staged || !accepts(i)) then r == g
            else && r.state.Pending? && r.lifetime == g.lifetime && |r.parts| == |g.parts|
                 && forall i :: 0 <= i < |g.parts| ==>
                      var p := g.parts[i];
                      r.parts[i] == Participant(p.container, p.splits, false, [], p.published + [p.writes])
  {
    var stop := Reach(g.parts, true, accepts, 0);
    var r := AfterCommit(g, accepts);
    if stop < |g.parts| {
      assert !g.parts[stop].staged || !accepts(stop);
      assert r.parts == g.parts;
    } else {
      assert forall i :: 0 <= i < |g.parts| ==> r.parts[i] == g.parts[i].Publish();
    }
  }

  lemma CommitInTurnAt(g: Group, accepts: nat -> bool, i: nat)
    requires g.state.Staged? && (|g.parts| == 1 || exists i :: 0 <= i < |g.parts| && !g.parts[i].splits) && i < |g.parts|
    ensures var p := g.parts[i];
            After(g, Span.Commit(accepts)).parts[i] ==
              if forall j :: 0 <= j <= i ==> g.parts[j].staged && accepts(j)
              then Participant(p.container, p.splits, false, [], p.published + [p.writes]) else p
  {
    var stop := Reach(g.parts, true, accepts, 0);
    ReachSplits(g.parts, true, accepts, i);
    assert After(g, Span.Commit(accepts)).parts[i] == if i < stop then g.parts[i].Publish() else g.parts[i];
  }

  lemma CommitInTurnStays(g: Group, accepts: nat -> bool)
    requires g.state.Staged? && (|g.parts| == 1 || exists i :: 0 <= i < |g.parts| && !g.parts[i].splits)
    ensures After(g, Span.Commit(accepts)).state.Staged? <==> !g.parts[0].staged || !accepts(0)
  {
    ReachSplits(g.parts, true, accepts, 0);
  }

  // A lone container, or any group with one that cannot be asked, publishes in turn up to the first refusal, and stays
  // staged only if that is the very first.
  lemma CommitIsInTurn(g: Group, accepts: nat -> bool)
    requires g.state.Staged? && (|g.parts| == 1 || exists i :: 0 <= i < |g.parts| && !g.parts[i].splits)
    ensures var r := After(g, Span.Commit(accepts));
            && (r.state.Staged? <==> !g.parts[0].staged || !accepts(0)) && r.lifetime == g.lifetime && |r.parts| == |g.parts|
            && forall i :: 0 <= i < |g.parts| ==>
                 var p := g.parts[i];
                 r.parts[i] == if forall j :: 0 <= j <= i ==> g.parts[j].staged && accepts(j)
                               then Participant(p.container, p.splits, false, [], p.published + [p.writes]) else p
  {
    CommitInTurnStays(g, accepts);
    forall i | 0 <= i < |g.parts|
      ensures var r, p := After(g, Span.Commit(accepts)), g.parts[i];
              r.parts[i] == if forall j :: 0 <= j <= i ==> g.parts[j].staged && accepts(j)
                            then Participant(p.container, p.splits, false, [], p.published + [p.writes]) else p
    {
      CommitInTurnAt(g, accepts, i);
    }
  }

  lemma RollbackAt(g: Group, recovers: nat -> Recovery, i: nat)
    requires g.state.Staged? && i < |g.parts|
    ensures var p := g.parts[i];
            After(g, Span.Rollback(recovers)).parts[i] ==
              if p.staged && forall j :: 0 <= j < i ==> g.parts[j].staged && recovers(j).Intact?
              then Participant(p.container, p.splits, false,
                               if recovers(i).Intact? then p.writes else recovers(i).survivors, p.published)
              else p
  {
    var stop := Reach(g.parts, true, Recovers(recovers), 0);
    ReachSplits(g.parts, true, Recovers(recovers), i);
    assert After(g, Span.Rollback(recovers)).parts[i]
        == if i <= stop then g.parts[i].Rollback(recovers(i)).0 else g.parts[i];
  }

  lemma RollbackReopens(g: Group, recovers: nat -> Recovery)
    requires g.state.Staged?
    ensures After(g, Span.Rollback(recovers)).state.Pending?
       <==> forall i :: 0 <= i < |g.parts| ==> g.parts[i].staged && recovers(i).Intact?
  {
    var stop := Reach(g.parts, true, Recovers(recovers), 0);
    if stop < |g.parts| {
      assert !g.parts[stop].staged || !recovers(stop).Intact?;
    }
  }

  // A rollback reopens the group if and only if every participant was staged and got all its writes back; past the
  // first that did not, nobody is touched.
  lemma RollbackMeans(g: Group, recovers: nat -> Recovery)
    requires g.state.Staged?
    ensures var r := After(g, Span.Rollback(recovers));
            && (r.state.Pending? <==> forall i :: 0 <= i < |g.parts| ==> g.parts[i].staged && recovers(i).Intact?)
            && r.lifetime == g.lifetime && |r.parts| == |g.parts|
            && forall i :: 0 <= i < |g.parts| ==>
                 var p := g.parts[i];
                 r.parts[i] == if p.staged && forall j :: 0 <= j < i ==> g.parts[j].staged && recovers(j).Intact?
                               then Participant(p.container, p.splits, false,
                                                if recovers(i).Intact? then p.writes else recovers(i).survivors, p.published)
                               else p
  {
    RollbackReopens(g, recovers);
    forall i | 0 <= i < |g.parts|
      ensures var r, p := After(g, Span.Rollback(recovers)), g.parts[i];
              r.parts[i] == if p.staged && forall j :: 0 <= j < i ==> g.parts[j].staged && recovers(j).Intact?
                            then Participant(p.container, p.splits, false,
                                             if recovers(i).Intact? then p.writes else recovers(i).survivors, p.published)
                            else p
    {
      RollbackAt(g, recovers, i);
    }
  }

  // A reset of a usable group, whatever its state, and the end of any group, discard everything pending, and only that.
  lemma DiscardingMeans(g: Group)
    ensures var r := After(g, Span.Reset);
            g.lifetime.Usable? ==>
              && r.state.Pending? && r.lifetime.Usable? && |r.parts| == |g.parts|
              && forall i :: 0 <= i < |g.parts| ==>
                   var p := g.parts[i];
                   r.parts[i] == Participant(p.container, p.splits, false, [], p.published)
    ensures var r := After(g, Span.Finish);
            && r.state.Pending? && r.lifetime.Finished? && |r.parts| == |g.parts|
            && forall i :: 0 <= i < |g.parts| ==>
                 var p := g.parts[i];
                 r.parts[i] == Participant(p.container, p.splits, false, [], p.published)
  {
  }

  // A write lands with the one participant it is for, and only while that is open; a close touches no participant.
  lemma WriteMeans(g: Group, index: nat, payload: int, accepted: bool)
    requires index < |g.parts|
    ensures var r, p := After(g, Span.Write(index, payload, accepted)), g.parts[index];
            if g.lifetime.Usable? && !p.staged && accepted
            then r == Group(g.parts[index := Participant(p.container, p.splits, false, p.writes + [payload], p.published)],
                            g.state, Usable)
            else r == g
    ensures After(g, Span.Close) == Group(g.parts, g.state, Finished)
  {
  }

  // Passes that find the group in the wrong state do nothing.
  lemma IdlePassesMean(g: Group, accepts: nat -> bool, recovers: nat -> Recovery)
    ensures g.lifetime.Finished? || g.state.Staged? ==> After(g, Span.Stage(accepts, recovers)) == g
    ensures g.state.Pending? ==> After(g, Span.Commit(accepts)) == g && After(g, Span.Rollback(recovers)) == g
    ensures g.lifetime.Finished? ==> After(g, Span.Reset) == g
  {
  }

  /** The group that does it */

  datatype StageEntry = StagedHere | AlreadyStaged | AlreadyFinished

  /** `Refused` names the participant whose store turned the span away. */
  datatype Reply = Done | Refused(at: nat) | StateError

  class TransactionGroup {
    var parts: seq<Participant>
    var state: Staging
    var lifetime: Lifetime

    function Now(): Group
      reads this
    {
      Group(parts, state, lifetime)
    }

    constructor (participants: seq<Participant>)
      ensures Now() == Group(participants, Pending, Usable)
    {
      parts, state, lifetime := participants, Pending, Usable;
    }

    method Write(index: nat, payload: int, accepts: bool) returns (reply: Reply)
      requires index < |parts|
      modifies this`parts
      ensures Now() == After(old(Now()), Span.Write(index, payload, accepts))
      ensures reply == if lifetime.Finished? then StateError
                       else if old(parts[index]).staged || !accepts then Refused(index) else Done
    {
      if lifetime.Finished? {
        return StateError;
      }
      var (part, ok) := parts[index].Write(payload, accepts);
      parts := parts[index := part];
      reply := if ok then Done else Refused(index);
    }

    // The pass itself, up to the first refusal.
    method StageInTurn(accepts: nat -> bool) returns (staged: nat, reply: Reply)
      modifies this`parts
      ensures StagedUpTo(old(parts), parts, staged) && staged == Reach(old(parts), false, accepts, 0)
      ensures reply == if staged == |parts| then Done else Refused(staged)
    {
      reply, staged := Done, 0;
      while staged < |parts| && reply.Done?
        invariant StagedUpTo(old(parts), parts, staged)
        invariant forall i :: 0 <= i < staged ==> accepts(i)
        invariant !reply.Done? ==> reply == Refused(staged) && staged < |parts|
        invariant !reply.Done? ==> old(parts)[staged].staged || !accepts(staged)
        decreases |parts| - staged, reply.Done?
      {
        var (part, ok) := parts[staged].Stage(accepts(staged));
        if !ok {
          reply := Refused(staged);
        } else {
          parts := parts[staged := part];
          staged := staged + 1;
        }
      }
      ReachIs(old(parts), false, accepts, staged);
    }

    // Gives the participants before a refusal their writes back, last first.
    method Unwind(stop: nat, recovers: nat -> Recovery)
      requires stop <= |parts|
      modifies this`parts
      ensures |parts| == |old(parts)|
      ensures forall i :: 0 <= i < stop ==> parts[i] == old(parts)[i].Rollback(recovers(i)).0
      ensures forall i :: stop <= i < |parts| ==> parts[i] == old(parts)[i]
    {
      var staged := stop;
      while staged != 0
        invariant 0 <= staged <= stop <= |parts| == |old(parts)|
        invariant forall i :: 0 <= i < staged ==> parts[i] == old(parts)[i]
        invariant forall i :: staged <= i < stop ==> parts[i] == old(parts)[i].Rollback(recovers(i)).0
        invariant forall i :: stop <= i < |parts| ==> parts[i] == old(parts)[i]
      {
        staged := staged - 1;
        parts := parts[staged := parts[staged].Rollback(recovers(staged)).0];
      }
    }

    method StageIfOpen(accepts: nat -> bool, recovers: nat -> Recovery) returns (entry: StageEntry, reply: Reply)
      modifies this`parts, this`state
      ensures Now() == After(old(Now()), Span.Stage(accepts, recovers))
      ensures entry == if lifetime.Finished? then AlreadyFinished
                       else if old(state).Staged? then AlreadyStaged else StagedHere
      ensures entry.StagedHere? ==>
        var stop := Reach(old(parts), false, accepts, 0);
        reply == if stop == |parts| then Done else Refused(stop)
      ensures !entry.StagedHere? ==> reply == Done
    {
      reply := Done;
      if lifetime.Finished? {
        return AlreadyFinished, reply;
      }
      if state.Staged? {
        return AlreadyStaged, reply;
      }
      entry := StagedHere;
      var staged;
      staged, reply := StageInTurn(accepts);
      if reply.Refused? {
        Unwind(staged, recovers);
      }
      state := if reply.Done? then Staged else Pending;
      assert parts == After(old(Now()), Span.Stage(accepts, recovers)).parts;
    }

    // Whether every participant can be asked to validate on its own.
    method AllSplit() returns (all: bool)
      ensures all <==> forall i :: 0 <= i < |parts| ==> parts[i].splits
    {
      all := true;
      var k := 0;
      while k < |parts| && all
        invariant k <= |parts|
        invariant all ==> forall i :: 0 <= i < k ==> parts[i].splits
        invariant !all ==> exists i :: 0 <= i < |parts| && !parts[i].splits
        decreases |parts| - k, all
      {
        if parts[k].splits {
          k := k + 1;
        } else {
          all := false;
        }
      }
    }

    // Everybody is asked before anybody writes.
    method ValidateAll(accepts: nat -> bool) returns (reply: Reply)
      ensures var stop := Reach(parts, true, accepts, 0);
              reply == if stop == |parts| then Done else Refused(stop)
    {
      var position := 0;
      while position != |parts|
        invariant position <= |parts|
        invariant forall i :: 0 <= i < position ==> parts[i].Validate(accepts(i))
      {
        if !parts[position].Validate(accepts(position)) {
          ReachIs(parts, true, accepts, position);
          return Refused(position);
        }
        position := position + 1;
      }
      ReachIs(parts, true, accepts, position);
      reply := Done;
    }

    method PublishAll()
      modifies this`parts
      ensures |parts| == |old(parts)|
      ensures forall i :: 0 <= i < |parts| ==> parts[i] == old(parts)[i].Publish()
    {
      var position := 0;
      while position != |parts|
        invariant position <= |parts| == |old(parts)|
        invariant forall i :: 0 <= i < position ==> parts[i] == old(parts)[i].Publish()
        invariant forall i :: position <= i < |parts| ==> parts[i] == old(parts)[i]
      {
        parts := parts[position := parts[position].Publish()];
        position := position + 1;
      }
    }

    // One participant after another, each in a single call, so that a refusal may find some published already.
    method CommitInTurn(accepts: nat -> bool) returns (reply: Reply)
      modifies this`parts, this`state
      ensures |parts| == |old(parts)|
      ensures var stop := Reach(old(parts), true, accepts, 0);
              && reply == (if stop == |parts| then Done else Refused(stop))
              && state == (if 0 < stop < |parts| then Pending else old(state))
              && forall i :: 0 <= i < |parts| ==>
                   parts[i] == if i < stop then old(parts)[i].Publish() else old(parts)[i]
    {
      var position := 0;
      while position != |parts|
        invariant position <= |parts| == |old(parts)|
        invariant forall i :: 0 <= i < position ==> old(parts)[i].Validate(accepts(i))
        invariant forall i :: 0 <= i < position ==> parts[i] == old(parts)[i].Publish()
        invariant forall i :: position <= i < |parts| ==> parts[i] == old(parts)[i]
        invariant state == old(state)
      {
        var (part, ok) := parts[position].Commit(accepts(position));
        if !ok {
          ReachIs(old(parts), true, accepts, position);
          if position != 0 {
            state := Pending;
          }
          return Refused(position);
        }
        parts := parts[position := part];
        position := position + 1;
      }
      ReachIs(old(parts), true, accepts, position);
      reply := Done;
    }

    method CommitUnderLock(accepts: nat -> bool) returns (reply: Reply)
      requires |parts| > 0
      modifies this`parts, this`state
      ensures Now() == After(old(Now()), Span.Commit(accepts))
      ensures reply == if old(state).Pending? then StateError
                       else var stop := Reach(old(parts), true, accepts, 0);
                            if stop == |parts| then Done else Refused(stop)
    {
      if !state.Staged? {
        return StateError;
      }
      var splits := AllSplit();
      if |parts| > 1 && splits {
        reply := ValidateAll(accepts);
        if reply.Done? {
          PublishAll();
          state := Pending;
        }
      } else {
        reply := CommitInTurn(accepts);
        if reply.Done? {
          state := Pending;
        }
      }
      assert parts == After(old(Now()), Span.Commit(accepts)).parts;
    }

    method Commit(accepts: nat -> bool) returns (reply: Reply)
      requires |parts| > 0
      modifies this`parts, this`state
      ensures Now() == After(old(Now()), Span.Commit(accepts))
      ensures reply == if old(state).Pending? then StateError
                       else var stop := Reach(old(parts), true, accepts, 0);
                            if stop == |parts| then Done else Refused(stop)
      // Two or more who can all be asked first: everybody publishes, or nobody does and the group is as it was.
      ensures old(state).Staged? && |parts| >= 2 && (forall i :: 0 <= i < |parts| ==> old(parts)[i].splits) ==>
        if reply.Done? then
          state.Pending? && forall i :: 0 <= i < |parts| ==>
            var p := old(parts)[i];
            parts[i] == Participant(p.container, p.splits, false, [], p.published + [p.writes])
        else Now() == old(Now())
    {
      ghost var was := Now();
      if was.state.Staged? && |parts| >= 2 && forall i :: 0 <= i < |parts| ==> parts[i].splits {
        CommitIsAllOrNothing(was, accepts);
      }
      reply := CommitUnderLock(accepts);
    }

    method RollbackUnderLock(recovers: nat -> Recovery) returns (reply: Reply)
      modifies this`parts, this`state
      ensures Now() == After(old(Now()), Span.Rollback(recovers))
      ensures reply == if old(state).Pending? then StateError
                       else var stop := Reach(old(parts), true, Recovers(recovers), 0);
                            if stop == |parts| then Done else Refused(stop)
    {
      if !state.Staged? {
        return StateError;
      }
      reply := Done;
      var position := 0;
      while position < |parts| && reply.Done?
        invariant position <= |parts| == |old(parts)|
        invariant state == old(state)
        invariant forall i :: 0 <= i < position ==> old(parts)[i].staged && recovers(i).Intact?
        invariant forall i :: 0 <= i < position ==> parts[i] == old(parts)[i].Rollback(recovers(i)).0
        invariant forall i :: position < i < |parts| ==> parts[i] == old(parts)[i]
        invariant reply.Done? && position < |parts| ==> parts[position] == old(parts)[position]
        invariant !reply.Done? ==> reply == Refused(position) && position < |parts|
        invariant !reply.Done? ==> parts[position] == old(parts)[position].Rollback(recovers(position)).0
        invariant !reply.Done? ==> !old(parts)[position].staged || !recovers(position).Intact?
        decreases |parts| - position, reply.Done?
      {
        var (part, ok) := parts[position].Rollback(recovers(position));
        parts := parts[position := part];
        if ok {
          position := position + 1;
        } else {
          reply := Refused(position);
        }
      }
      ReachIs(old(parts), true, Recovers(recovers), position);
      if reply.Done? {
        state := Pending;
      }
      assert parts == After(old(Now()), Span.Rollback(recovers)).parts;
    }

    method Rollback(recovers: nat -> Recovery) returns (reply: Reply)
      modifies this`parts, this`state
      ensures Now() == After(old(Now()), Span.Rollback(recovers))
      ensures reply == if old(state).Pending? then StateError
                       else var stop := Reach(old(parts), true, Recovers(recovers), 0);
                            if stop == |parts| then Done else Refused(stop)
      // The group reopens just if everybody was staged and whole; past the first who was not, nobody is touched.
      ensures old(state).Staged? ==>
        && (state.Pending? <==> reply.Done?)
        && (reply.Done? <==> forall i :: 0 <= i < |parts| ==> old(parts)[i].staged && recovers(i).Intact?)
        && (reply.Refused? ==> forall i :: reply.at < i < |parts| ==> parts[i] == old(parts)[i])
    {
      if state.Staged? {
        RollbackMeans(Now(), recovers);
      }
      reply := RollbackUnderLock(recovers);
    }

    method ResetAll()
      modifies this`parts
      ensures parts == Discarded(old(parts))
    {
      var position := 0;
      while position != |parts|
        invariant position <= |parts| == |old(parts)|
        invariant forall i :: 0 <= i < position ==> parts[i] == old(parts)[i].Reset()
        invariant forall i :: position <= i < |parts| ==> parts[i] == old(parts)[i]
      {
        parts := parts[position := parts[position].Reset()];
        position := position + 1;
      }
    }

    method Reset() returns (reply: Reply)
      modifies this`parts, this`state
      ensures Now() == After(old(Now()), Span.Reset)
      ensures reply == if lifetime.Finished? then StateError else Done
      ensures reply.Done? ==>
        && state.Pending? && |parts| == |old(parts)|
        && forall i :: 0 <= i < |parts| ==>
             var p := old(parts)[i];
             parts[i] == Participant(p.container, p.splits, false, [], p.published)
    {
      DiscardingMeans(Now());
      if lifetime.Finished? {
        return StateError;
      }
      ResetAll();
      state := Pending;
      reply := Done;
    }

    method Finish()
      modifies this
      ensures Now() == After(old(Now()), Span.Finish)
      ensures state.Pending? && lifetime.Finished? && |parts| == |old(parts)|
      ensures forall i :: 0 <= i < |parts| ==>
        var p := old(parts)[i];
        parts[i] == Participant(p.container, p.splits, false, [], p.published)
    {
      DiscardingMeans(Now());
      ResetAll();
      state, lifetime := Pending, Finished;
    }

    // One pass of whichever thread it is.
    method Perform(span: Span)
      requires |parts| > 0 && Fits(Now(), span)
      modifies this
      ensures Now() == After(old(Now()), span)
    {
      match span
      case Write(index, payload, accepted) => var reply := Write(index, payload, accepted);
      case Stage(accepts, recovers) => var entry, reply := StageIfOpen(accepts, recovers);
      case Commit(accepts) => var reply := Commit(accepts);
      case Rollback(recovers) => var reply := Rollback(recovers);
      case Reset => var reply := Reset();
      case Finish => Finish();
      case Close => lifetime := Finished;
    }

    // The passes other threads get in while this one does not have the lock.
    method Yield(spans: seq<Span>)
      requires |parts| > 0 && AllFit(Now(), spans)
      modifies this
      ensures Now() == Run(old(Now()), spans)
    {
      for i := 0 to |spans|
        invariant |parts| > 0 && AllFit(Now(), spans[i..])
        invariant Run(Now(), spans[i..]) == Run(old(Now()), spans)
      {
        assert spans[i..][0] == spans[i] && spans[i..][1..] == spans[i + 1..];
        Perform(spans[i]);
      }
    }

    // Leaving a `with` block. The lock is dropped after the stage and after the close, and other threads run
    // `between` and `later` then.
    method Exit(bodyRaised: bool, stages: nat -> bool, recovers: nat -> Recovery, commits: nat -> bool,
                between: seq<Span>, later: seq<Span>)
      returns (reply: Reply)
      requires |parts| > 0 && AllFit(Now(), between) && AllFit(Now(), later)
      modifies this
      ensures lifetime.Finished?
      ensures bodyRaised ==> reply == Done && Now() == After(old(Now()), Span.Finish)
      ensures !bodyRaised && old(lifetime).Finished? ==> reply == StateError && Now() == old(Now())
      // A block whose changes were refused before any commit discards whatever is there when it gets the lock again.
      ensures !bodyRaised && old(lifetime).Usable? && Refuses(old(Now()), stages) ==>
        && reply == Refused(Reach(old(parts), false, stages, 0))
        && Now() == After(Run(AfterStage(old(Now()), stages, recovers), between), Span.Finish)
        && (between == [] ==> Now() == After(old(Now()), Span.Finish))
      // Past that, the handle is closed first, and the commit's refusal discards nothing.
      ensures !bodyRaised && old(lifetime).Usable? && !Refuses(old(Now()), stages) ==>
        Now() == AfterCommit(BeforeCommit(old(Now()), stages, recovers, between, later), commits)
      // What comes back is the commit's own answer: there is nothing staged, or nobody refuses, or whoever was first
      // to.
      ensures !bodyRaised && old(lifetime).Usable? && !Refuses(old(Now()), stages) ==>
        var staged := BeforeCommit(old(Now()), stages, recovers, between, later);
        var stop := Reach(staged.parts, true, commits, 0);
        reply == if staged.state.Pending? then StateError else if stop == |staged.parts| then Done else Refused(stop)
    {
      if bodyRaised {
        Finish();
        return Done;
      }
      ghost var before := Now();
      var entry, staged := StageIfOpen(stages, recovers);
      if entry.AlreadyFinished? {
        return StateError;
      }
      Yield(between);
      if staged.Refused? {
        Finish();
        DiscardingForgetsStaging(before, stages, recovers);
        return staged;
      }
      lifetime := Finished;
      ClosedStaysClosed(Now(), later);
      Yield(later);
      reply := Commit(commits);
    }
  }

  lemma {:induction false} ClosedStaysClosed(g: Group, spans: seq<Span>)
    requires g.lifetime.Finished? && AllFit(g, spans)
    ensures Run(g, spans).lifetime.Finished?
    decreases spans
  {
    if spans != [] {
      ClosedStaysClosed(After(g, spans[0]), spans[1..]);
    }
  }

  // Whether a block's own stage is turned away.
  predicate Refuses(g: Group, stages: nat -> bool) {
    g.state.Pending? && Reach(g.parts, false, stages, 0) < |g.parts|
  }

  // What a block's commit finds.
  function BeforeCommit(g: Group, stages: nat -> bool, recovers: nat -> Recovery, between: seq<Span>, later: seq<Span>): Group
    requires AllFit(g, between) && AllFit(g, later)
  {
    Run(After(Run(AfterStage(g, stages, recovers), between), Span.Close), later)
  }

  // Whatever a stage did, discarding afterwards leaves what discarding at once would have left.
  lemma DiscardingForgetsStaging(g: Group, accepts: nat -> bool, recovers: nat -> Recovery)
    ensures Discarded(AfterStage(g, accepts, recovers).parts) == Discarded(g.parts)
  {
    var r := AfterStage(g, accepts, recovers);
    forall i | 0 <= i < |g.parts|
      ensures r.parts[i].Reset() == g.parts[i].Reset()
    {
      if g.lifetime.Usable? && g.state.Pending? {
        var stop := Reach(g.parts, false, accepts, 0);
        if stop == |g.parts| {
          assert r.parts[i] == g.parts[i].(staged := true);
        } else if i < stop {
          assert r.parts[i] == g.parts[i].(staged := true).Rollback(recovers(i)).0;
        } else {
          assert r.parts[i] == g.parts[i];
        }
      } else {
        assert r == g;
      }
    }
  }
}
