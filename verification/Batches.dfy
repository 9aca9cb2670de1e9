/** What a batch of entries amounts to once it is staged in a tree of its own: as a map, as a shape, and whether an
    allocation stops it. */
module Batches {
  import opened OrderedTrees
  import H = HeightBalance
  import R = InsertionRuns

  /** A batch as a map: the first of several entries with one key wins. */
  function FirstWins(batch: seq<(int, int)>): map<int, int> {
    if batch == [] then map[]
    else
      var before := FirstWins(batch[..|batch| - 1]);
      var (key, payload) := batch[|batch| - 1];
      if key in before then before else before[key := payload]
  }

  /** What applying its entries one after another would come to. */
  function LastWins(batch: seq<(int, int)>): map<int, int> {
    if batch == [] then map[]
    else
      var (key, payload) := batch[|batch| - 1];
      LastWins(batch[..|batch| - 1])[key := payload]
  }

  ghost predicate Mentions(batch: seq<(int, int)>, k: int) {
    exists i :: 0 <= i < |batch| && batch[i].0 == k
  }

  ghost predicate FirstOf(batch: seq<(int, int)>, i: nat) {
    i < |batch| && forall j :: 0 <= j < i ==> batch[j].0 != batch[i].0
  }

  ghost predicate LastOf(batch: seq<(int, int)>, i: nat) {
    i < |batch| && forall j :: i < j < |batch| ==> batch[j].0 != batch[i].0
  }

  lemma {:induction false} KeysAreMentioned(batch: seq<(int, int)>, k: int)
    ensures k in FirstWins(batch) <==> Mentions(batch, k)
    ensures k in LastWins(batch) <==> Mentions(batch, k)
  {
    if batch != [] {
      var n := |batch| - 1;
      KeysAreMentioned(batch[..n], k);
      if Mentions(batch[..n], k) {
        var i :| 0 <= i < n && batch[..n][i].0 == k;
        assert batch[i].0 == k;
      }
      if i :| 0 <= i < |batch| && batch[i].0 == k && i < n {
        assert batch[..n][i].0 == k;
      }
    }
  }

  lemma {:induction false} FirstWinsAt(batch: seq<(int, int)>, i: nat)
    requires FirstOf(batch, i)
    ensures batch[i].0 in FirstWins(batch) && FirstWins(batch)[batch[i].0] == batch[i].1
  {
    var n := |batch| - 1;
    KeysAreMentioned(batch[..n], batch[i].0);
    if i < n {
      assert FirstOf(batch[..n], i);
      FirstWinsAt(batch[..n], i);
    }
  }

  lemma {:induction false} LastWinsAt(batch: seq<(int, int)>, i: nat)
    requires LastOf(batch, i)
    ensures batch[i].0 in LastWins(batch) && LastWins(batch)[batch[i].0] == batch[i].1
  {
    var n := |batch| - 1;
    if i < n {
      assert LastOf(batch[..n], i);
      LastWinsAt(batch[..n], i);
    }
  }

  lemma {:induction false} FirstAndLast(batch: seq<(int, int)>, k: int) returns (i: nat, j: nat)
    requires Mentions(batch, k)
    ensures FirstOf(batch, i) && LastOf(batch, j) && batch[i].0 == batch[j].0 == k
  {
    var n := |batch| - 1;
    if Mentions(batch[..n], k) {
      i, j := FirstAndLast(batch[..n], k);
      assert FirstOf(batch, i);
      if batch[n].0 == k {
        j := n;
      }
    } else {
      forall x | 0 <= x < n
        ensures batch[x].0 != k
      {
        assert batch[..n][x].0 != k;
      }
      var at :| 0 <= at < |batch| && batch[at].0 == k;
      i, j := at, n;
    }
  }

  /** Staging first agrees with applying in turn exactly if the first and the last entry of each key do. */
  lemma FirstWinsIsLastWins(batch: seq<(int, int)>)
    ensures FirstWins(batch) == LastWins(batch) <==>
              forall i: nat, j: nat :: FirstOf(batch, i) && LastOf(batch, j) && batch[i].0 == batch[j].0 ==> batch[i].1 == batch[j].1
  {
    if FirstWins(batch) == LastWins(batch) {
      forall i: nat, j: nat | FirstOf(batch, i) && LastOf(batch, j) && batch[i].0 == batch[j].0
        ensures batch[i].1 == batch[j].1
      {
        FirstWinsAt(batch, i);
        LastWinsAt(batch, j);
      }
    } else {
      if forall k :: k in FirstWins(batch) ==> k in LastWins(batch) && FirstWins(batch)[k] == LastWins(batch)[k] {
        forall k
          ensures k in FirstWins(batch) <==> k in LastWins(batch)
        {
          KeysAreMentioned(batch, k);
        }
        assert false;
      }
      var k :| k in FirstWins(batch) && !(k in LastWins(batch) && FirstWins(batch)[k] == LastWins(batch)[k]);
      KeysAreMentioned(batch, k);
      var i, j := FirstAndLast(batch, k);
      FirstWinsAt(batch, i);
      LastWinsAt(batch, j);
    }
  }

  /** Two entries of one key on which they part. */
  lemma FirstWinsCanDiffer()
    ensures var batch := [(1, 10), (1, 20)];
            FirstWins(batch) == map[1 := 10] && LastWins(batch) == map[1 := 20]
  {
    var batch := [(1, 10), (1, 20)];
    assert batch[..1] == [(1, 10)] && [(1, 10)][..0] == [];
  }

  // ---- Staging ------------------------------------------------------------------------------------

  /** Whether an allocation is refused while staging: only a key's first entry asks for a node. */
  ghost predicate RunsOut(batch: seq<(int, int)>, grants: seq<bool>)
    requires |grants| == |batch|
  {
    exists i: nat :: FirstOf(batch, i) && !grants[i]
  }

  lemma FirstIsNew(batch: seq<(int, int)>, i: nat)
    requires i < |batch|
    ensures FirstOf(batch, i) <==> batch[i].0 !in FirstWins(batch[..i])
  {
    KeysAreMentioned(batch[..i], batch[i].0);
    forall j | 0 <= j < i
      ensures batch[..i][j] == batch[j]
    {
    }
  }

  /** The keys of the staged tree: each batch entry inserted in turn. */
  function StagedShape(batch: seq<(int, int)>): (t: Tree<()>)
    ensures H.Avl(t)
  {
    if batch == [] then Nil
    else
      var before := StagedShape(batch[..|batch| - 1]);
      H.InsertKeepsBalance(before, R.Key(batch[|batch| - 1].0));
      H.Insert(before, R.Key(batch[|batch| - 1].0))
  }
}
