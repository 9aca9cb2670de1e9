/** What both hash tables agree on: where a key may live, what the probe sequences rely on, and the map a
    layout of slots stands for. */
module ProbeRuns {
  import opened SlotHeader

  /** Any key and value; equal keys hash equally because the hash is a function of the key. */
  type Key(==, 0, !new)
  type Value(==, 0, !new)

  /** The slot reached after `d` steps from `home`, wrapping at the end of the table. */
  function At(home: nat, d: nat, n: nat): (i: nat)
    requires home < n && d < n
    ensures i < n
  {
    if home + d < n then home + d else home + d - n
  }

  /** How many steps separate `home` from slot `i`. */
  function Dist(home: nat, i: nat, n: nat): (d: nat)
    requires home < n && i < n
    ensures d < n && At(home, d, n) == i
  {
    if home <= i then i - home else i + n - home
  }

  /** The next slot of a probe, `(off + 1) & mask`. */
  function NextOffset(off: nat, slots: nat): (r: nat)
    requires off < slots
    ensures r < slots
  {
    if off + 1 == slots then 0 else off + 1
  }

  function Home(hash: Key -> nat, k: Key, n: nat): (h: nat)
    requires n > 0
    ensures h < n
  {
    hash(k) % n
  }

  ghost predicate Unique(states: seq<SlotState>, keys: seq<Key>)
    requires |keys| == |states|
  {
    forall i, j | 0 <= i < |states| && 0 <= j < |states| && states[i] == Populated && states[j] == Populated ::
      keys[i] == keys[j] ==> i == j
  }

  /** Every slot between a live key's home and its slot is in use, so a probe never stops short of it. */
  ghost predicate RunsIntact(hash: Key -> nat, states: seq<SlotState>, keys: seq<Key>)
    requires |keys| == |states|
  {
    forall i, d: nat | 0 <= i < |states| && states[i] == Populated && d < Dist(Home(hash, keys[i], |states|), i, |states|) ::
      states[At(Home(hash, keys[i], |states|), d, |states|)] != Free
  }

  ghost predicate Settled(states: seq<SlotState>) {
    forall i :: 0 <= i < |states| ==> states[i] != Locked
  }

  ghost predicate Intact(hash: Key -> nat, states: seq<SlotState>, keys: seq<Key>) {
    |keys| == |states| && Settled(states) && Unique(states, keys) && RunsIntact(hash, states, keys)
  }

  /** The finite map a layout stands for. */
  ghost function Contents(states: seq<SlotState>, keys: seq<Key>, values: seq<Value>): map<Key, Value>
    requires |keys| == |values| == |states| && Unique(states, keys)
  {
    map i | 0 <= i < |states| && states[i] == Populated :: keys[i] := values[i]
  }

  ghost function Count(states: seq<SlotState>, state: SlotState): (c: nat)
    ensures c <= |states|
  {
    if states == [] then 0 else (if states[0] == state then 1 else 0) + Count(states[1..], state)
  }

  lemma {:induction false} CountUpdate(states: seq<SlotState>, i: nat, new_: SlotState, state: SlotState)
    requires i < |states|
    ensures Count(states[i := new_], state)
         == Count(states, state) - (if states[i] == state then 1 else 0) + (if new_ == state then 1 else 0)
  {
    if i > 0 {
      assert states[i := new_][1..] == states[1..][i - 1 := new_];
      CountUpdate(states[1..], i - 1, new_, state);
    } else {
      assert states[i := new_][1..] == states[1..];
    }
  }

  lemma {:induction false} CountZero(states: seq<SlotState>, state: SlotState)
    ensures Count(states, state) == 0 <==> forall i :: 0 <= i < |states| ==> states[i] != state
  {
    if states != [] {
      CountZero(states[1..], state);
      assert forall i :: 0 < i < |states| ==> states[i] == states[1..][i - 1];
      assert Count(states, state) == 0 ==> forall i :: 0 <= i < |states[1..]| ==> states[1..][i] != state;
    }
  }

  lemma {:induction false} CountAll(states: seq<SlotState>)
    requires Settled(states)
    ensures Count(states, Free) + Count(states, Deleted) + Count(states, Populated) == |states|
  {
    if states != [] {
      CountAll(states[1..]);
    }
  }

  /** A slot a probe for `k` may walk past: in use, and not by `k`. */
  ghost predicate PassedOver(states: seq<SlotState>, keys: seq<Key>, k: Key, i: nat)
    requires |keys| == |states| && i < |states|
  {
    states[i] != Free && !(states[i] == Populated && keys[i] == k)
  }

  /** The first `steps` slots of the probe sequence of `k` may all be walked past. */
  ghost predicate Walked(hash: Key -> nat, states: seq<SlotState>, keys: seq<Key>, k: Key, steps: nat)
    requires |keys| == |states| && steps <= |states|
  {
    forall d: nat :: d < steps ==> PassedOver(states, keys, k, At(Home(hash, k, |states|), d, |states|))
  }

  ghost predicate Holds(states: seq<SlotState>, keys: seq<Key>, k: Key)
    requires |keys| == |states|
  {
    exists i :: 0 <= i < |states| && states[i] == Populated && keys[i] == k
  }

  /** A probe that met a free slot, or came all the way round, has proved the key absent. */
  lemma AbsentAfterWalk(hash: Key -> nat, states: seq<SlotState>, keys: seq<Key>, k: Key, steps: nat)
    requires |keys| == |states| && RunsIntact(hash, states, keys) && steps <= |states|
    requires Walked(hash, states, keys, k, steps)
    requires steps == |states| || states[At(Home(hash, k, |states|), steps, |states|)] == Free
    ensures !Holds(states, keys, k)
  {
    if i :| 0 <= i < |states| && states[i] == Populated && keys[i] == k {
      var home := Home(hash, k, |states|);
      var d := Dist(home, i, |states|);
      assert false;
    }
  }

  /** Filling a slot with a key whose probe led there keeps the layout intact. */
  lemma FillKeepsIntact(hash: Key -> nat, states: seq<SlotState>, keys: seq<Key>, k: Key, i: nat)
    requires Intact(hash, states, keys) && i < |states|
    requires states[i] != Populated && !Holds(states, keys, k)
    requires forall d: nat :: d < Dist(Home(hash, k, |states|), i, |states|) ==>
               states[At(Home(hash, k, |states|), d, |states|)] != Free
    ensures Intact(hash, states[i := Populated], keys[i := k])
  {
    var st, ks := states[i := Populated], keys[i := k];
    forall a, d: nat | 0 <= a < |st| && st[a] == Populated && d < Dist(Home(hash, ks[a], |st|), a, |st|)
      ensures st[At(Home(hash, ks[a], |st|), d, |st|)] != Free
    {
      if a != i {
        assert states[At(Home(hash, keys[a], |states|), d, |states|)] != Free;
      }
    }
  }

  lemma TombstoneKeepsIntact(hash: Key -> nat, states: seq<SlotState>, keys: seq<Key>, i: nat)
    requires Intact(hash, states, keys) && i < |states|
    requires states[i] == Populated
    ensures Intact(hash, states[i := Deleted], keys)
  {
    var st := states[i := Deleted];
    forall a, d: nat | 0 <= a < |st| && st[a] == Populated && d < Dist(Home(hash, keys[a], |st|), a, |st|)
      ensures st[At(Home(hash, keys[a], |st|), d, |st|)] != Free
    {
      assert states[At(Home(hash, keys[a], |states|), d, |states|)] != Free;
    }
  }

  // ---- What the three slot changes do to the map --------------------------------------------------

  lemma FillAdds(states: seq<SlotState>, keys: seq<Key>, values: seq<Value>, k: Key, v: Value, i: nat)
    requires |keys| == |values| == |states| && i < |states|
    requires Unique(states, keys) && states[i] != Populated && !Holds(states, keys, k)
    ensures Unique(states[i := Populated], keys[i := k])
    ensures k !in Contents(states, keys, values)
    ensures Contents(states[i := Populated], keys[i := k], values[i := v]) == Contents(states, keys, values)[k := v]
  {
    var old_, new_ := Contents(states, keys, values), Contents(states[i := Populated], keys[i := k], values[i := v]);
    forall x | x in old_
      ensures x in new_ && new_[x] == old_[x] && x != k
    {
      var j :| 0 <= j < |states| && states[j] == Populated && keys[j] == x;
      assert states[i := Populated][j] == Populated && keys[i := k][j] == x;
    }
    assert states[i := Populated][i] == Populated && keys[i := k][i] == k;
    forall x | x in new_ && x != k
      ensures x in old_
    {
      var j :| 0 <= j < |states| && states[i := Populated][j] == Populated && keys[i := k][j] == x;
      assert states[j] == Populated && keys[j] == x;
    }
  }

  lemma OverwriteAssigns(states: seq<SlotState>, keys: seq<Key>, values: seq<Value>, v: Value, i: nat)
    requires |keys| == |values| == |states| && i < |states|
    requires Unique(states, keys) && states[i] == Populated
    ensures keys[i] in Contents(states, keys, values) && Contents(states, keys, values)[keys[i]] == values[i]
    ensures Contents(states, keys, values[i := v]) == Contents(states, keys, values)[keys[i] := v]
  {
    var old_, new_ := Contents(states, keys, values), Contents(states, keys, values[i := v]);
    assert forall x :: x in old_ <==> x in new_;
  }

  lemma TombstoneRemoves(states: seq<SlotState>, keys: seq<Key>, values: seq<Value>, i: nat)
    requires |keys| == |values| == |states| && i < |states|
    requires Unique(states, keys) && states[i] == Populated
    ensures Unique(states[i := Deleted], keys)
    ensures keys[i] in Contents(states, keys, values)
    ensures Contents(states[i := Deleted], keys, values) == Contents(states, keys, values) - {keys[i]}
  {
    var old_, new_ := Contents(states, keys, values), Contents(states[i := Deleted], keys, values);
    forall x | x in old_ && x != keys[i]
      ensures x in new_ && new_[x] == old_[x]
    {
      var j :| 0 <= j < |states| && states[j] == Populated && keys[j] == x;
      assert states[i := Deleted][j] == Populated;
    }
    forall x | x in new_
      ensures x in old_ && x != keys[i]
    {
      var j :| 0 <= j < |states| && states[i := Deleted][j] == Populated && keys[j] == x;
      assert states[j] == Populated;
    }
  }

  lemma HoldsIsMembership(states: seq<SlotState>, keys: seq<Key>, values: seq<Value>, k: Key)
    requires |keys| == |values| == |states| && Unique(states, keys)
    ensures Holds(states, keys, k) <==> k in Contents(states, keys, values)
  {
  }
}
