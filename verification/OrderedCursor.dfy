/**
  * The ordered cursor (include/smashtable/locked_store.hpp): each step looks keys up anew, with no lock kept from
  * the last, so the store may be anything at all at each of them.
  *
  * A store is the set of keys it holds at the moment of a lookup. A lookup may also be refused by the
  * store; the cursor discards that status, so a refusal reads as there being no such key.
  */
module OrderedCursors {
  import opened Basics

  datatype Seed = TheSmallest | TheGivenBound | PastTheLast

  datatype Limit = TheWholeKeyspace | UpToTheBound

  datatype Position = Position(seed: Seed, position: int, drained: bool)

  /** What a walk covers; it never changes. */
  datatype Window = Window(from: Option<int>, upper: Option<int>)

  predicate Inside(w: Window, key: int) {
    (w.from.Some? ==> w.from.value <= key) && (w.upper.Some? ==> key < w.upper.value)
  }

  /** One lookup as the store saw it: its keys then, and whether it refused to answer. */
  datatype Moment = Moment(keys: set<int>, refused: bool)

  // Whether the walk, standing where it does, still has `key` ahead of it.
  predicate Ahead(p: Position, key: int) {
    match p.seed
    case TheSmallest => true
    case TheGivenBound => p.position <= key
    case PastTheLast => p.position < key
  }

  predicate IsLeast(keys: set<int>, key: int) {
    key in keys && forall other :: other in keys ==> key <= other
  }

  lemma Member<T>(keys: set<T>) returns (one: T)
    requires keys != {}
    ensures one in keys
  {
    one :| one in keys;
  }

  lemma {:induction false} HasLeast(keys: set<int>)
    requires keys != {}
    ensures exists key :: IsLeast(keys, key)
    decreases keys
  {
    var one := Member(keys);
    var rest := keys - {one};
    if rest == {} {
      assert keys == {one};
      assert IsLeast(keys, one);
    } else {
      HasLeast(rest);
      var least :| IsLeast(rest, least);
      assert keys == rest + {one};
      assert IsLeast(keys, if least < one then least else one);
    }
  }

  function Candidates(keys: set<int>, p: Position): set<int> {
    set key | key in keys && Ahead(p, key)
  }

  /** The store's three lookups: `smallest`, `lower_bound` and `upper_bound`. */
  method Lookup(at: Moment, p: Position) returns (found: Option<int>)
    ensures at.refused ==> found.None?
    ensures found.Some? ==> IsLeast(Candidates(at.keys, p), found.value)
    ensures found.None? && !at.refused ==> Candidates(at.keys, p) == {}
  {
    var candidates := Candidates(at.keys, p);
    if at.refused || candidates == {} {
      return None;
    }
    HasLeast(candidates);
    var least :| least in candidates && forall other :: other in candidates ==> least <= other;
    found := Some(least);
  }

  class OrderedCursor {
    var position: int
    var bound: int
    var seed: Seed
    var limit: Limit
    var drained: bool

    // The window this cursor was made for, for the contracts only.
    ghost const window: Window
    // The keys handed over so far, first to last.
    ghost var handed: seq<int>

    function Standing(): Position
      reads this
    {
      Position(seed, position, drained)
    }

    ghost predicate Valid()
      reads this
    {
      && (limit.UpToTheBound? ==> window.upper == Some(bound))
      && (limit.TheWholeKeyspace? ==> window.upper == None)
      && (seed.TheSmallest? ==> window.from == None && handed == [])
      && (seed.TheGivenBound? ==> window.from == Some(position) && handed == [])
      && (seed.PastTheLast? ==> handed != [] && handed[|handed| - 1] == position)
      && Ascending(handed)
      && (forall k :: 0 <= k < |handed| ==> Inside(window, handed[k]))
    }

    // No key is out of bounds.
    constructor Everything()
      ensures Valid() && !drained && handed == [] && window == Window(None, None)
    {
      position, bound, drained := 0, 0, false;
      seed, limit := TheSmallest, TheWholeKeyspace;
      window, handed := Window(None, None), [];
    }

    // Only keys from `from` on, itself included.
    constructor From(from: int)
      ensures Valid() && !drained && handed == [] && window == Window(Some(from), None)
    {
      position, bound, drained := from, 0, false;
      seed, limit := TheGivenBound, TheWholeKeyspace;
      window, handed := Window(Some(from), None), [];
    }

    // Only keys short of `upper`.
    constructor UpTo(upper: int)
      ensures Valid() && !drained && handed == [] && window == Window(None, Some(upper))
    {
      position, bound, drained := 0, upper, false;
      seed, limit := TheSmallest, UpToTheBound;
      window, handed := Window(None, Some(upper)), [];
    }

    // Only keys that are both.
    constructor Range(from: int, upper: int)
      ensures Valid() && !drained && handed == [] && window == Window(Some(from), Some(upper))
    {
      position, bound, drained := from, upper, false;
      seed, limit := TheGivenBound, UpToTheBound;
      window, handed := Window(Some(from), Some(upper)), [];
    }

    // What one step may do, given the store at that moment: hand over the least key of the window that
    // is still ahead, or end the walk for good.
    method Next(at: Moment) returns (got: Option<int>)
      requires Valid()
      modifies this
      ensures Valid()
      ensures old(drained) ==> got.None? && drained && handed == old(handed)
      ensures got.Some? ==> !drained && handed == old(handed) + [got.value]
      ensures got.Some? ==> IsLeast(Offered(window, old(handed), at.keys), got.value)
      ensures got.None? ==> drained && handed == old(handed)
      ensures at.refused ==> got.None?
      ensures got.None? && !old(drained) && !at.refused ==> Offered(window, handed, at.keys) == {}
      // Spelled out: the least key there that is not before the window, short of its end, and past the last one.
      ensures got.Some? ==>
        && got.value in at.keys && (window.from.Some? ==> window.from.value <= got.value)
        && (window.upper.Some? ==> got.value < window.upper.value)
        && (old(handed) != [] ==> old(handed)[|old(handed)| - 1] < got.value)
      ensures !at.refused && !old(drained) ==>
        forall key :: key in at.keys && (window.from.Some? ==> window.from.value <= key)
                      && (window.upper.Some? ==> key < window.upper.value)
                      && (old(handed) != [] ==> old(handed)[|old(handed)| - 1] < key) ==>
          got.Some? && got.value <= key
    {
      if drained {
        return None;
      }
      AheadIsOffered(at.keys);
      ghost var offered := Offered(window, handed, at.keys);
      got := None;
      var found := Lookup(at, Standing());
      assert offered <= Candidates(at.keys, Standing());
      if found.Some? && !(limit.UpToTheBound? && bound <= found.value) {
        assert IsLeast(offered, found.value);
        got := found;
        position := found.value;
        handed := handed + [found.value];
      }
      if got.None? {
        assert !at.refused ==> offered == {};
        drained := true;
        return;
      }
      seed := PastTheLast;
    }

    // Standing where it does, the cursor has ahead of it the keys of its window past those handed over.
    lemma AheadIsOffered(keys: set<int>)
      requires Valid()
      ensures forall key :: key in Offered(window, handed, keys) <==>
                key in keys && Ahead(Standing(), key) && (limit.UpToTheBound? ==> key < bound)
    {
      if handed != [] {
        assert Inside(window, handed[|handed| - 1]);
      }
    }
  }

  predicate Ascending(keys: seq<int>) {
    forall i, j :: 0 <= i < j < |keys| ==> keys[i] < keys[j]
  }

  // The keys a walk over `w` that has handed over `handed` may still hand over, out of `keys`.
  function Offered(w: Window, handed: seq<int>, keys: set<int>): set<int> {
    set key | key in keys && Inside(w, key) && (handed != [] ==> handed[|handed| - 1] < key)
  }

  /** Whole walks */

  // What the store held at each of the first `n` lookups.
  predicate ThereThroughout(moments: seq<Moment>, n: nat, key: int) {
    n <= |moments| && forall k :: 0 <= k < n ==> key in moments[k].keys
  }

  // Nothing of the window that stayed put lies before the last key handed over without having been it.
  ghost predicate NothingPassedOver(w: Window, handed: seq<int>, moments: seq<Moment>) {
    handed != [] ==>
      forall key :: Inside(w, key) && ThereThroughout(moments, |handed|, key) && key <= handed[|handed| - 1] ==>
        key in handed
  }

  // What the replies to the first steps of a walk tell, of the moments those steps looked at.
  ghost predicate Tells(w: Window, handed: seq<int>, drained: bool, replies: seq<Option<int>>, moments: seq<Moment>) {
    && |handed| <= |replies| <= |moments|
    && (drained <==> |handed| < |replies|)
    // Keys first, each out of the store as it was at that step, then nothing for ever.
    && (forall k :: 0 <= k < |handed| ==> replies[k] == Some(handed[k]) && handed[k] in moments[k].keys)
    && (forall k :: |handed| <= k < |replies| ==> replies[k].None?)
    // A refused lookup ends the walk where it stands.
    && (forall k :: 0 <= k < |handed| ==> !moments[k].refused)
    // However it ends, nothing that stayed put is passed over on the way.
    && NothingPassedOver(w, handed, moments)
    // It ends for want of keys, unless the store refused to answer.
    && (drained && !moments[|handed|].refused ==> Offered(w, handed, moments[|handed|].keys) == {})
  }

  lemma StepTells(w: Window, handed: seq<int>, drained: bool, replies: seq<Option<int>>, moments: seq<Moment>,
                  got: Option<int>)
    requires Tells(w, handed, drained, replies, moments) && |replies| < |moments|
    requires drained ==> got.None?
    requires moments[|replies|].refused ==> got.None?
    requires got.Some? ==> IsLeast(Offered(w, handed, moments[|replies|].keys), got.value)
    requires got.None? && !drained && !moments[|replies|].refused ==>
               Offered(w, handed, moments[|replies|].keys) == {}
    ensures var after := if got.Some? then handed + [got.value] else handed;
            Tells(w, after, got.None?, replies + [got], moments)
  {
    if got.Some? {
      HandingOverPassesNothing(w, handed, moments, got.value);
    }
  }

  // Steps the cursor once at every moment, whatever was written in between.
  method Walk(cursor: OrderedCursor, moments: seq<Moment>) returns (replies: seq<Option<int>>)
    requires cursor.Valid() && cursor.handed == [] && !cursor.drained
    modifies cursor
    ensures cursor.Valid() && |replies| == |moments|
    // A walk hands over a rising run of the window's keys.
    ensures Ascending(cursor.handed)
    ensures forall k :: 0 <= k < |cursor.handed| ==> Inside(cursor.window, cursor.handed[k])
    ensures Tells(cursor.window, cursor.handed, cursor.drained, replies, moments)
    // One that ended has missed nothing that stayed put exactly if the store answered it to the last, or refused
    // where nothing that stayed put was left ahead.
    ensures cursor.drained ==>
              (MissesNothing(cursor.window, cursor.handed, moments) <==>
               !moments[|cursor.handed|].refused || NothingLeftAhead(cursor.window, cursor.handed, moments))
    // So over a store that never refuses a lookup every walk that ended has missed nothing.
    ensures cursor.drained && (forall k :: 0 <= k < |moments| ==> !moments[k].refused) ==>
              MissesNothing(cursor.window, cursor.handed, moments)
  {
    replies := [];
    var step := 0;
    while step < |moments|
      invariant step <= |moments| && |replies| == step
      invariant cursor.Valid()
      invariant Tells(cursor.window, cursor.handed, cursor.drained, replies, moments)
    {
      ghost var before, ended := cursor.handed, cursor.drained;
      var got := cursor.Next(moments[step]);
      StepTells(cursor.window, before, ended, replies, moments, got);
      replies := replies + [got];
      step := step + 1;
    }
    if cursor.drained {
      MissesNothingExactly(cursor.window, cursor.handed, moments);
    }
  }

  lemma HandingOverPassesNothing(w: Window, handed: seq<int>, moments: seq<Moment>, next: int)
    requires |handed| < |moments| && NothingPassedOver(w, handed, moments)
    requires IsLeast(Offered(w, handed, moments[|handed|].keys), next)
    ensures NothingPassedOver(w, handed + [next], moments)
  {
    forall key | Inside(w, key) && ThereThroughout(moments, |handed| + 1, key) && key <= next
      ensures key in handed + [next]
    {
      assert key in moments[|handed|].keys;
      if key < next {
        assert key !in Offered(w, handed, moments[|handed|].keys);
        assert handed != [] && key <= handed[|handed| - 1];
        assert key in handed;
      }
    }
  }

  // Everything of the window that was there at every lookup has been handed over.
  ghost predicate MissesNothing(w: Window, handed: seq<int>, moments: seq<Moment>) {
    forall key :: Inside(w, key) && ThereThroughout(moments, |handed| + 1, key) ==> key in handed
  }

  // Nothing that was there at every lookup is still to come.
  ghost predicate NothingLeftAhead(w: Window, handed: seq<int>, moments: seq<Moment>)
    requires |handed| < |moments|
  {
    forall key :: ThereThroughout(moments, |handed| + 1, key) ==> key !in Offered(w, handed, moments[|handed|].keys)
  }

  lemma MissesNothingExactly(w: Window, handed: seq<int>, moments: seq<Moment>)
    requires NothingPassedOver(w, handed, moments) && Ascending(handed) && |handed| < |moments|
    ensures MissesNothing(w, handed, moments) <==> NothingLeftAhead(w, handed, moments)
  {
    if NothingLeftAhead(w, handed, moments) {
      forall key | Inside(w, key) && ThereThroughout(moments, |handed| + 1, key)
        ensures key in handed
      {
        assert key in moments[|handed|].keys && key !in Offered(w, handed, moments[|handed|].keys);
        assert ThereThroughout(moments, |handed|, key);
      }
    }
  }

  // A refused lookup can lose a key: over a store that holds 1 and refuses at once, every walk of the whole
  // keyspace ends without it.
  lemma RefusalCanMiss(handed: seq<int>, drained: bool, replies: seq<Option<int>>)
    requires |replies| == 1 && Tells(Window(None, None), handed, drained, replies, [Moment({1}, true)])
    ensures handed == [] && drained && replies == [None]
    ensures ThereThroughout([Moment({1}, true)], 1, 1) && !MissesNothing(Window(None, None), handed, [Moment({1}, true)])
  {
    var moments := [Moment({1}, true)];
    assert moments[0].refused;
    assert Inside(Window(None, None), 1) && ThereThroughout(moments, 1, 1);
  }
}
