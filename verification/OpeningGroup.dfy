/**
  * Opening a transaction group: which containers are refused, the canonical order the participants are
  * kept in, which view each argument position gets, and why two groups over shared containers
  * cannot wait for each other for ever (python/transactions.cpp, `make_transaction`).
  */
module OpeningGroup {
  import opened TransactionGroups

  /** A container is known by its ordinal, drawn from one process-wide counter when it was made. */
  datatype Container = Container(ordinal: nat, splits: bool)

  datatype Opening =
    | Opened(group: TransactionGroup, views: seq<nat>, order: seq<nat>)
    | SameContainerTwice
    | OutOfMemory

  predicate Distinct(containers: seq<Container>) {
    forall i, j :: 0 <= i < j < |containers| ==> containers[i] != containers[j]
  }

  // Containers are the same object exactly when their ordinals are.
  predicate OrdinalsIdentify(containers: seq<Container>) {
    forall i, j :: 0 <= i < j < |containers| && containers[i].ordinal == containers[j].ordinal ==>
      containers[i] == containers[j]
  }

  predicate IsPermutation(order: seq<nat>, n: nat) {
    && |order| == n
    && (forall i :: 0 <= i < n ==> order[i] < n)
    && (forall i, j :: 0 <= i < j < n ==> order[i] != order[j])
  }

  // What sorting the argument positions by ordinal may leave: any order nobody is out of.
  predicate IsSortedOrder(order: seq<nat>, containers: seq<Container>) {
    && IsPermutation(order, |containers|)
    && forall i, j :: 0 <= i < j < |order| ==> containers[order[i]].ordinal <= containers[order[j]].ordinal
  }

  // Distinct containers leave no choice: the ordinals strictly rise along the staging order.
  lemma SortedOrderRises(order: seq<nat>, containers: seq<Container>)
    requires IsSortedOrder(order, containers) && Distinct(containers) && OrdinalsIdentify(containers)
    ensures forall i, j :: 0 <= i < j < |order| ==> containers[order[i]].ordinal < containers[order[j]].ordinal
  {
    forall i, j | 0 <= i < j < |order|
      ensures containers[order[i]].ordinal < containers[order[j]].ordinal
    {
      var a, b := order[i], order[j];
      assert a != b;
      assert if a < b then containers[a] != containers[b] else containers[b] != containers[a];
    }
  }

  function Below(n: nat): (r: set<nat>)
    ensures |r| == n
    ensures forall k: nat :: k in r <==> k < n
  {
    if n == 0 then {} else Below(n - 1) + {n - 1}
  }

  // A permutation of the positions misses none of them.
  lemma PermutationCovers(order: seq<nat>, n: nat, index: nat)
    requires IsPermutation(order, n) && index < n
    ensures index in order
  {
    if index !in order {
      var values := set i | 0 <= i < n :: order[i];
      Injects(order, n);
      SubsetSize(values, Below(n) - {index});
    }
  }

  lemma {:induction false} Injects(order: seq<nat>, k: nat)
    requires k <= |order|
    requires forall i, j :: 0 <= i < j < |order| ==> order[i] != order[j]
    ensures |set i | 0 <= i < k :: order[i]| == k
  {
    var all := set i | 0 <= i < k :: order[i];
    if k == 0 {
      assert all == {};
    } else {
      Injects(order, k - 1);
      var fewer := set i | 0 <= i < k - 1 :: order[i];
      assert all == fewer + {order[k - 1]};
    }
  }

  lemma {:induction false} SubsetSize<T>(a: set<T>, b: set<T>)
    requires a <= b
    ensures |a| <= |b|
    decreases a
  {
    if a != {} {
      var x :| x in a;
      SubsetSize(a - {x}, b - {x});
    }
  }

  // The same container twice would give two participants who each believe they own its staged state.
  method NamesTwice(containers: seq<Container>) returns (twice: bool)
    ensures twice <==> !Distinct(containers)
  {
    twice := false;
    var index := 0;
    while index != |containers|
      invariant index <= |containers|
      invariant Distinct(containers[..index])
    {
      var earlier := 0;
      while earlier != index
        invariant earlier <= index
        invariant forall k :: 0 <= k < earlier ==> containers[k] != containers[index]
      {
        if containers[earlier] == containers[index] {
          return true;
        }
        earlier := earlier + 1;
      }
      index := index + 1;
      assert Distinct(containers[..index]);
    }
    assert containers[..index] == containers;
  }

  // A transaction just opened over a container.
  function Fresh(container: Container): Participant {
    Participant(container.ordinal, container.splits, false, [], [])
  }

  // What each caller may rely on: the view at its container's argument position speaks for the
  // participant opened over that very container.
  predicate ViewsReachTheirOwn(views: seq<nat>, order: seq<nat>, n: nat) {
    && |views| == |order| == n
    && forall k :: 0 <= k < n ==> views[k] < n && order[views[k]] == k
  }

  /**
    * `order` is what the library's sort left, and `opens(k)` whether opening a transaction over the
    * container at argument position `k` got the memory it needs.
    */
  method MakeTransaction(containers: seq<Container>, order: seq<nat>, opens: nat -> bool) returns (r: Opening)
    requires |containers| > 0
    requires IsSortedOrder(order, containers) && OrdinalsIdentify(containers)
    ensures r.SameContainerTwice? <==> !Distinct(containers)
    ensures r.OutOfMemory? <==> Distinct(containers) && exists k: nat :: k < |containers| && !opens(k)
    ensures r.Opened? ==> fresh(r.group) && r.order == order
    ensures r.Opened? ==> ViewsReachTheirOwn(r.views, order, |containers|)
    ensures r.Opened? ==> r.group.state.Pending? && r.group.lifetime.Usable? && |r.group.parts| == |containers|
    // Every participant is open over its own container, with nothing pending and nothing published.
    ensures r.Opened? ==> forall p :: 0 <= p < |containers| ==>
              var container := containers[order[p]];
              r.group.parts[p] == Participant(container.ordinal, container.splits, false, [], [])
    // The caller's k-th view and the caller's k-th container belong together.
    ensures r.Opened? ==> forall k :: 0 <= k < |containers| ==>
              r.group.parts[r.views[k]] == Participant(containers[k].ordinal, containers[k].splits, false, [], [])
  {
    var twice := NamesTwice(containers);
    if twice {
      return SameContainerTwice;
    }
    var parts: seq<Participant> := [];
    var position := 0;
    while position != |containers|
      invariant position <= |containers| && |parts| == position
      invariant forall p :: 0 <= p < position ==>
        opens(order[p]) && parts[p] == Fresh(containers[order[p]])
    {
      if !opens(order[position]) {
        return OutOfMemory;
      }
      parts := parts + [Fresh(containers[order[position]])];
      position := position + 1;
    }
    forall k: nat | k < |containers|
      ensures opens(k)
    {
      PermutationCovers(order, |containers|, k);
      var p :| 0 <= p < |order| && order[p] == k;
    }
    var group := new TransactionGroup(parts);
    var views := InvertOrder(order, |containers|);
    r := Opened(group, views, order);
  }

  // Writing each position into the slot its order names turns the order inside out without a search.
  method InvertOrder(order: seq<nat>, n: nat) returns (views: seq<nat>)
    requires IsPermutation(order, n)
    ensures ViewsReachTheirOwn(views, order, n)
  {
    views := seq(n, _ => 0);
    var position := 0;
    while position != n
      invariant position <= n && |views| == n
      invariant forall k :: 0 <= k < n ==> views[k] < n
      invariant forall p :: 0 <= p < position ==> views[order[p]] == p
    {
      views := views[order[position] := position];
      position := position + 1;
    }
    forall k | 0 <= k < n
      ensures order[views[k]] == k
    {
      PermutationCovers(order, n, k);
      var p :| 0 <= p < n && order[p] == k;
    }
  }

  /** Why the canonical order cannot deadlock */

  /** A group partway through its staging loop, at the participant whose container it waits for. */
  datatype Stager = Stager(was: seq<Participant>, now: seq<Participant>, at: nat)

  // It has staged exactly the participants before that one, and their containers' ordinals rise.
  predicate Partway(s: Stager) {
    && StagedUpTo(s.was, s.now, s.at) && s.at < |s.was|
    && (forall i :: 0 <= i < |s.was| ==> !s.was[i].staged)
    && forall i, j :: 0 <= i < j < |s.was| ==> s.was[i].container < s.was[j].container
  }

  function Wanted(s: Stager): nat
    requires s.at < |s.now|
  {
    s.now[s.at].container
  }

  // The most a group can keep locked then: the containers it has staged, down to every part of them. A container that
  // lets go of some of its locks while it is staged only waits for less.
  function MayHold(s: Stager): set<nat> {
    set i | 0 <= i < |s.now| && s.now[i].staged :: s.now[i].container
  }

  predicate WaitsFor(a: Stager, b: Stager) {
    a.at < |a.now| && Wanted(a) in MayHold(b)
  }

  lemma HeldIsEarlier(s: Stager, container: nat)
    requires Partway(s) && container in MayHold(s)
    ensures container < Wanted(s)
  {
    var i :| 0 <= i < |s.now| && s.now[i].staged && s.now[i].container == container;
    assert i < s.at;
  }

  // Along a chain of groups each waiting for the next, what is wanted only gets later in the order.
  lemma {:induction false} WantsRise(chain: seq<Stager>, k: nat)
    requires k < |chain|
    requires forall i :: 0 <= i < |chain| ==> Partway(chain[i])
    requires forall i :: 0 <= i < |chain| - 1 ==> WaitsFor(chain[i], chain[i + 1])
    ensures Partway(chain[0]) && Partway(chain[k])
    ensures Wanted(chain[0]) + k <= Wanted(chain[k])
  {
    if k > 0 {
      WantsRise(chain, k - 1);
      assert WaitsFor(chain[k - 1], chain[(k - 1) + 1]);
      HeldIsEarlier(chain[k], Wanted(chain[k - 1]));
    }
  }

  // So no chain of waiting groups, of any length, closes into a cycle.
  lemma NoCycleOfWaiters(chain: seq<Stager>)
    requires |chain| > 0
    requires forall i :: 0 <= i < |chain| ==> Partway(chain[i])
    requires forall i :: 0 <= i < |chain| - 1 ==> WaitsFor(chain[i], chain[i + 1])
    ensures !WaitsFor(chain[|chain| - 1], chain[0])
  {
    WantsRise(chain, |chain| - 1);
    if WaitsFor(chain[|chain| - 1], chain[0]) {
      HeldIsEarlier(chain[0], Wanted(chain[|chain| - 1]));
    }
  }

  // Every moment of an opened group's staging loop is one of these, whatever order its containers were named in and
  // whatever was written before.
  lemma OpenedGroupsStageCanonically(order: seq<nat>, containers: seq<Container>, was: seq<Participant>,
                                     now: seq<Participant>, at: nat)
    requires IsSortedOrder(order, containers) && Distinct(containers) && OrdinalsIdentify(containers)
    requires |was| == |containers| && forall p :: 0 <= p < |was| ==>
               was[p].container == containers[order[p]].ordinal && !was[p].staged
    requires StagedUpTo(was, now, at) && at < |was|
    ensures Partway(Stager(was, now, at))
  {
    SortedOrderRises(order, containers);
  }
}
