/** What erasing by predicate leaves of the AVL tree's balance: exactly when it survives, how tall the rest can
    be, and how an insertion may fare afterwards. */
module ErasedBalance {
  import opened Basics
  import opened OrderedTrees
  import opened HeightBalance
  import opened PowersOfTwo

  predicate Close(a: nat, b: nat) {
    -1 <= a - b <= 1
  }

  // ---- Nothing gets taller ------------------------------------------------------------------------

  lemma RebalanceNotTaller<T>(s: Tree<T>)
    requires s.Bin?
    ensures Height(RebalanceAfterExtract(s)) <= Height(s)
  {
    if Lean(s) > 1 && Lean(s.left) < 0 {
      var inner := s.left.right;
      assert RebalanceAfterExtract(s)
          == Bin(Bin(s.left.left, s.left.entry, inner.left), inner.entry, Bin(inner.right, s.entry, s.right));
    } else if Lean(s) < -1 && Lean(s.right) > 0 {
      var inner := s.right.left;
      assert RebalanceAfterExtract(s)
          == Bin(Bin(s.left, s.entry, inner.left), inner.entry, Bin(inner.right, s.right.entry, s.right.right));
    }
  }

  /** Removal from any tree, balanced or not, never makes it taller. */
  lemma {:induction false} ExtractNotTaller<T>(s: Tree<T>, k: int)
    ensures Height(Extract(s, k)) <= Height(s)
    decreases s, 1
  {
    if s.Bin? && Has(s, k) {
      if k < s.entry.key {
        ExtractNotTaller(s.left, k);
        RebalanceNotTaller(Bin(Extract(s.left, k), s.entry, s.right));
      } else if s.entry.key < k {
        ExtractNotTaller(s.right, k);
        RebalanceNotTaller(Bin(s.left, s.entry, Extract(s.right, k)));
      } else {
        ExtractRootNotTaller(s);
      }
    }
  }

  lemma {:induction false} ExtractRootNotTaller<T>(s: Tree<T>)
    requires s.Bin?
    ensures Height(ExtractRoot(s)) <= Height(s)
    decreases s, 0
  {
    if s.left.Bin? && s.right.Bin? {
      ExtractNotTaller(s.right, Least(s.right).key);
      RebalanceNotTaller(Bin(s.left, Least(s.right), Extract(s.right, Least(s.right).key)));
    }
  }

  /** Whatever is erased from whatever tree, the rest is no taller than the tree was: lookups stay as short as
      the balance before the erasure made them. */
  lemma {:induction false} EraseIfNotTaller<T>(s: Tree<T>, doomed: set<int>)
    ensures Height(EraseIf(s, doomed)) <= Height(s)
  {
    if s.Bin? {
      EraseIfNotTaller(s.left, doomed);
      EraseIfNotTaller(s.right, doomed);
      if s.entry.key in doomed {
        ExtractRootNotTaller(Bin(EraseIf(s.left, doomed), s.entry, EraseIf(s.right, doomed)));
      }
    }
  }

  lemma {:induction false} FibKeepsOrder(a: nat, b: nat)
    requires a <= b
    ensures Fib(a) <= Fib(b)
  {
    if a < b {
      FibKeepsOrder(a, b - 1);
      FibGrows(b - 1);
    }
  }

  /** A height logarithmic in the size before the erasure. */
  lemma ErasedIsShallow<T>(s: Tree<T>, doomed: set<int>)
    requires Avl(s)
    ensures Fib(Height(EraseIf(s, doomed)) + 2) - 1 <= Size(s)
  {
    ManyEnough(s);
    EraseIfNotTaller(s, doomed);
    var h := Height(EraseIf(s, doomed));
    FibKeepsOrder(h + 2, Height(s) + 2);
  }

  /** A full tree of `h` levels over the keys from `low` on. */
  function Full(h: nat, low: int): Tree<int> {
    if h == 0 then Nil
    else
      var middle := low + Pow2(h - 1) - 1;
      Bin(Full(h - 1, low), Entry(middle, middle), Full(h - 1, middle + 1))
  }

  lemma {:induction false} FullIsBalanced(h: nat, low: int)
    ensures Avl(Full(h, low)) && Height(Full(h, low)) == h
  {
    if h > 0 {
      var middle := low + Pow2(h - 1) - 1;
      FullIsBalanced(h - 1, low);
      FullIsBalanced(h - 1, middle + 1);
      OneNode(Full(h - 1, low), Entry(middle, middle), Full(h - 1, middle + 1));
    }
  }

  lemma {:induction false} FullIsOrdered(h: nat, low: int)
    ensures Ordered(Full(h, low))
    ensures From(Entries(Full(h, low)), low) && Before(Entries(Full(h, low)), low + Pow2(h) - 1)
  {
    if h > 0 {
      var middle := low + Pow2(h - 1) - 1;
      var l, e, r := Full(h - 1, low), Entry(middle, middle), Full(h - 1, middle + 1);
      FullIsOrdered(h - 1, low);
      FullIsOrdered(h - 1, middle + 1);
      PartsOrdered(l, e, r);
      FromAround(Entries(l), e, Entries(r), low);
      BeforeWider(Entries(l), middle, low + Pow2(h) - 1);
      BeforeAround(Entries(l), e, Entries(r), low + Pow2(h) - 1);
    }
  }

  lemma BeforeWider<T>(es: seq<Entry<T>>, k: int, wider: int)
    requires Before(es, k) && k <= wider
    ensures Before(es, wider)
  {
  }

  /** All keys to the right of the way down to the least one. */
  function RightOfLeftmost(h: nat): set<int> {
    if h == 0 then {} else RightOfLeftmost(h - 1) + KeysIn(Pow2(h - 1), Pow2(h) - 1)
  }

  lemma {:induction false} RightOfLeftmostBelow(h: nat)
    ensures forall k :: k in RightOfLeftmost(h) ==> k < Pow2(h) - 1
  {
    if h > 0 {
      RightOfLeftmostBelow(h - 1);
    }
  }

  lemma RightOfLeftmostSplits(h: nat)
    requires h > 0
    ensures Pow2(h - 1) - 1 !in RightOfLeftmost(h)
    ensures forall k :: k < Pow2(h - 1) - 1 ==> (k in RightOfLeftmost(h - 1) <==> k in RightOfLeftmost(h))
    ensures forall k :: Pow2(h - 1) <= k < Pow2(h) - 1 ==> k in RightOfLeftmost(h)
  {
    RightOfLeftmostBelow(h - 1);
  }

  lemma {:induction false} AllDoomed<T>(s: Tree<T>, doomed: set<int>)
    requires forall i :: 0 <= i < Size(s) ==> Entries(s)[i].key in doomed
    ensures EraseIf(s, doomed) == Nil
  {
    if s.Bin? {
      forall i | 0 <= i < Size(s.left)
        ensures Entries(s.left)[i].key in doomed
      {
        EntryAt(s, i);
      }
      forall i | 0 <= i < Size(s.right)
        ensures Entries(s.right)[i].key in doomed
      {
        EntryAt(s, Size(s.left) + 1 + i);
      }
      EntryAt(s, Size(s.left));
      AllDoomed(s.left, doomed);
      AllDoomed(s.right, doomed);
    }
  }

  lemma {:induction false} OnlyItsKeysMatter<T>(s: Tree<T>, k: int, doomed: set<int>, more: set<int>)
    requires Before(Entries(s), k) && forall x :: x < k ==> (x in doomed <==> x in more)
    ensures EraseIf(s, doomed) == EraseIf(s, more)
  {
    if s.Bin? {
      forall i | 0 <= i < Size(s.left)
        ensures Entries(s.left)[i].key < k
      {
        EntryAt(s, i);
      }
      forall i | 0 <= i < Size(s.right)
        ensures Entries(s.right)[i].key < k
      {
        EntryAt(s, Size(s.left) + 1 + i);
      }
      EntryAt(s, Size(s.left));
      OnlyItsKeysMatter(s.left, k, doomed, more);
      OnlyItsKeysMatter(s.right, k, doomed, more);
    }
  }

  function LeftOf(h: nat): Tree<int> {
    EraseIf(Full(h, 0), RightOfLeftmost(h))
  }

  lemma {:induction false} LeftOfIsChain(h: nat)
    ensures Height(LeftOf(h)) == h && Size(LeftOf(h)) == h
  {
    if h > 0 {
      LeftOfIsChain(h - 1);
      ChainGrows(h, Pow2(h - 1));
      OneLonger(LeftOf(h - 1), Entry(Pow2(h - 1) - 1, Pow2(h - 1) - 1));
    } else {
      assert Full(0, 0) == Nil;
    }
  }

  lemma OneLonger<T>(t: Tree<T>, e: Entry<T>)
    ensures Height(Bin(t, e, Nil)) == Height(t) + 1 && Size(Bin(t, e, Nil)) == Size(t) + 1
  {
  }

  /** Not in the size after it: of a full tree of any height erasing can leave a chain as tall as the tree was. */
  lemma ErasureCanLeaveChain(h: nat)
    ensures var s, doomed := Full(h, 0), RightOfLeftmost(h);
            && Avl(s) && Ordered(s) && Height(s) == h
            && Height(EraseIf(s, doomed)) == h && Size(EraseIf(s, doomed)) == h
  {
    FullIsBalanced(h, 0);
    FullIsOrdered(h, 0);
    LeftOfIsChain(h);
  }

  lemma ChainGrows(h: nat, half: nat)
    requires h > 0 && half == Pow2(h - 1)
    ensures LeftOf(h) == Bin(LeftOf(h - 1), Entry(half - 1, half - 1), Nil)
  {
    var below, right := Full(h - 1, 0), Full(h - 1, half);
    FullIsOrdered(h - 1, 0);
    FullIsOrdered(h - 1, half);
    RightOfLeftmostSplits(h);
    OnlyItsKeysMatter(below, half - 1, RightOfLeftmost(h - 1), RightOfLeftmost(h));
    AllDoomed(right, RightOfLeftmost(h));
    RightGone(below, Entry(half - 1, half - 1), right, RightOfLeftmost(h));
  }

  lemma RightGone<T>(l: Tree<T>, e: Entry<T>, r: Tree<T>, doomed: set<int>)
    requires e.key !in doomed && EraseIf(r, doomed) == Nil
    ensures EraseIf(Bin(l, e, r), doomed) == Bin(EraseIf(l, doomed), e, Nil)
  {
  }

  // ---- Exactly when balance survives --------------------------------------------------------------

  /** Whether one rebalance leaves a tree balanced, read off the pieces it puts together. */
  predicate Evens<T>(s: Tree<T>)
    requires s.Bin?
  {
    var l, r := s.left, s.right;
    if Lean(s) > 1 && Lean(l) >= 0 then
      Avl(l.left) && Avl(l.right) && Avl(r) && Close(Height(l.right), Height(r))
      && Close(Height(l.left), 1 + Larger(Height(l.right), Height(r)))
    else if Lean(s) > 1 then
      var inner := l.right;
      Avl(l.left) && Avl(inner.left) && Avl(inner.right) && Avl(r)
      && Close(Height(l.left), Height(inner.left)) && Close(Height(inner.right), Height(r))
      && Close(Larger(Height(l.left), Height(inner.left)), Larger(Height(inner.right), Height(r)))
    else if Lean(s) < -1 && Lean(r) <= 0 then
      Avl(l) && Avl(r.left) && Avl(r.right) && Close(Height(l), Height(r.left))
      && Close(1 + Larger(Height(l), Height(r.left)), Height(r.right))
    else if Lean(s) < -1 then
      var inner := r.left;
      Avl(l) && Avl(inner.left) && Avl(inner.right) && Avl(r.right)
      && Close(Height(l), Height(inner.left)) && Close(Height(inner.right), Height(r.right))
      && Close(Larger(Height(l), Height(inner.left)), Larger(Height(inner.right), Height(r.right)))
    else Avl(l) && Avl(r)
  }

  lemma RebalanceEvensExactly<T>(s: Tree<T>)
    requires s.Bin?
    ensures Avl(RebalanceAfterExtract(s)) <==> Evens(s)
  {
    var l, r := s.left, s.right;
    if Lean(s) > 1 && Lean(l) >= 0 {
      OneNode(l.right, s.entry, r);
      OneNode(l.left, l.entry, Bin(l.right, s.entry, r));
    } else if Lean(s) > 1 {
      var inner := l.right;
      OneNode(l.left, l.entry, inner.left);
      OneNode(inner.right, s.entry, r);
      OneNode(Bin(l.left, l.entry, inner.left), inner.entry, Bin(inner.right, s.entry, r));
    } else if Lean(s) < -1 && Lean(r) <= 0 {
      OneNode(l, s.entry, r.left);
      OneNode(Bin(l, s.entry, r.left), r.entry, r.right);
    } else if Lean(s) < -1 {
      var inner := r.left;
      OneNode(l, s.entry, inner.left);
      OneNode(inner.right, r.entry, r.right);
      OneNode(Bin(l, s.entry, inner.left), inner.entry, Bin(inner.right, r.entry, r.right));
    }
  }

  lemma OneNode<T>(l: Tree<T>, e: Entry<T>, r: Tree<T>)
    ensures Avl(Bin(l, e, r)) <==> Avl(l) && Avl(r) && Close(Height(l), Height(r))
    ensures Height(Bin(l, e, r)) == 1 + Larger(Height(l), Height(r))
  {
  }

  /** How tall the survivors of a branch stand, which can be told before any of them is moved. */
  function SurvivorHeight<T>(s: Tree<T>, doomed: set<int>): nat {
    Height(EraseIf(s, doomed))
  }

  /** The pieces a doomed root with survivors on both sides is replaced by. */
  function Succeeded<T>(l: Tree<T>, r: Tree<T>): (t: Tree<T>)
    requires r.Bin?
    ensures t.Bin?
  {
    Bin(l, Least(r), Extract(r, Least(r).key))
  }

  /** Node by node, on the heights of the survivors: around a survivor those of the branches must stay close; a
      doomed root with survivors on one side needs that side even; with some on both, its successor's rebalance must
      even out what it finds. */
  predicate ErasesEvenly<T>(s: Tree<T>, doomed: set<int>) {
    match s
    case Nil => true
    case Bin(l, e, r) =>
      var left, right := SurvivorHeight(l, doomed), SurvivorHeight(r, doomed);
      if e.key !in doomed then ErasesEvenly(l, doomed) && ErasesEvenly(r, doomed) && Close(left, right)
      else if left == 0 then ErasesEvenly(r, doomed)
      else if right == 0 then ErasesEvenly(l, doomed)
      else Evens(Succeeded(EraseIf(l, doomed), EraseIf(r, doomed)))
  }

  /** Erasing leaves a balanced tree if and only if it is even at every node that decides. */
  lemma {:induction false} EraseIfBalancedExactly<T>(s: Tree<T>, doomed: set<int>)
    ensures Avl(EraseIf(s, doomed)) <==> ErasesEvenly(s, doomed)
  {
    if s.Bin? {
      var left, right := EraseIf(s.left, doomed), EraseIf(s.right, doomed);
      EraseIfBalancedExactly(s.left, doomed);
      EraseIfBalancedExactly(s.right, doomed);
      if s.entry.key !in doomed {
        OneNode(left, s.entry, right);
      } else if left.Bin? && right.Bin? {
        RebalanceEvensExactly(Succeeded(left, right));
      }
    }
  }

  /** Branches that stay close at every node, doomed or not. */
  predicate Even<T>(s: Tree<T>, doomed: set<int>) {
    s.Bin? ==>
      && Even(s.left, doomed) && Even(s.right, doomed)
      && Close(SurvivorHeight(s.left, doomed), SurvivorHeight(s.right, doomed))
  }

  /** A condition on the heights of what is left alone, which is enough but not needed. */
  lemma {:induction false} EvenIsEnough<T>(s: Tree<T>, doomed: set<int>)
    requires Even(s, doomed)
    ensures Avl(EraseIf(s, doomed))
  {
    if s.Bin? {
      EvenIsEnough(s.left, doomed);
      EvenIsEnough(s.right, doomed);
      var t := Bin(EraseIf(s.left, doomed), s.entry, EraseIf(s.right, doomed));
      OneNode(t.left, s.entry, t.right);
      if s.entry.key in doomed {
        ExtractRootKeepsBalance(t);
      }
    }
  }

  function Leaf(k: int): Tree<int> {
    Bin(Nil, Entry(k, k), Nil)
  }

  /** An input on which the survivors end up out of balance: dropping one end of a tree that leans away. */
  lemma EraseIfCanUnbalance()
    ensures var s := Bin(Leaf(1), Entry(2, 2), Bin(Nil, Entry(3, 3), Leaf(4)));
            Avl(s) && Ordered(s) && !Avl(EraseIf(s, {1}))
  {
    var right := Bin(Nil, Entry(3, 3), Leaf(4));
    var s := Bin(Leaf(1), Entry(2, 2), right);
    assert Entries(Leaf(1)) == [Entry(1, 1)] && Entries(Leaf(4)) == [Entry(4, 4)];
    assert Entries(right) == [Entry(3, 3), Entry(4, 4)];
    assert Entries(s) == [Entry(1, 1), Entry(2, 2), Entry(3, 3), Entry(4, 4)];
    assert Height(Leaf(1)) == 1 && Height(Leaf(4)) == 1 && Height(right) == 2;
    assert EraseIf(Leaf(1), {1}) == Nil && EraseIf(Leaf(4), {1}) == Leaf(4);
    assert EraseIf(right, {1}) == right;
    assert EraseIf(s, {1}) == Bin(Nil, Entry(2, 2), right);
  }

  /** A tree whose doomed root mends what its doomed leaves upset: the left branch of the rest leans by two until
      the root's successor is put in its place. */
  function Mending(): Tree<int> {
    Bin(Bin(Bin(Leaf(1), Entry(2, 2), Nil), Entry(3, 3), Leaf(4)), Entry(5, 5), Bin(Nil, Entry(6, 6), Leaf(7)))
  }

  lemma MendingIsBalanced()
    ensures Avl(Mending()) && Ordered(Mending())
  {
    MendingHeights();
    OneNode(Mending().left, Entry(5, 5), Mending().right);
    MendingEntries();
    assert forall i :: 0 <= i < 7 ==> Entries(Mending())[i].key == i + 1;
  }

  lemma MendingHeights()
    ensures Avl(Mending().left) && Height(Mending().left) == 3
    ensures Avl(Mending().right) && Height(Mending().right) == 2
  {
    OneNode<int>(Nil, Entry(1, 1), Nil);
    OneNode<int>(Nil, Entry(4, 4), Nil);
    OneNode<int>(Nil, Entry(7, 7), Nil);
    OneNode(Leaf(1), Entry(2, 2), Nil);
    OneNode(Mending().left.left, Entry(3, 3), Leaf(4));
    OneNode(Nil, Entry(6, 6), Leaf(7));
  }

  lemma MendingEntries()
    ensures Entries(Mending()) == [Entry(1, 1), Entry(2, 2), Entry(3, 3), Entry(4, 4), Entry(5, 5), Entry(6, 6), Entry(7, 7)]
  {
    LeafEntries(1);
    LeafEntries(4);
    LeafEntries(7);
    assert Entries(Mending().left.left) == [Entry(1, 1), Entry(2, 2)];
    assert Entries(Mending().left) == [Entry(1, 1), Entry(2, 2), Entry(3, 3), Entry(4, 4)];
    assert Entries(Mending().right) == [Entry(6, 6), Entry(7, 7)];
  }

  lemma LeafEntries(k: int)
    ensures Entries(Leaf(k)) == [Entry(k, k)]
  {
  }

  /** The chain its left branch loses its fork to. */
  function Chain(): Tree<int> {
    Bin(Bin(Leaf(1), Entry(2, 2), Nil), Entry(3, 3), Nil)
  }

  lemma MendingRemains(doomed: set<int>)
    requires 1 !in doomed && 2 !in doomed && 3 !in doomed && 4 in doomed && 7 in doomed
    ensures EraseIf(Mending().left, doomed) == Chain() && Height(Chain()) == 3
    ensures EraseIf(Mending().right, doomed) == if 6 in doomed then Nil else Leaf(6)
  {
    ErasedLeaf(1, doomed);
    ErasedLeaf(4, doomed);
    ErasedLeaf(7, doomed);
    assert EraseIf(Mending().left.left, doomed) == Mending().left.left;
  }

  lemma ErasedLeaf(k: int, doomed: set<int>)
    ensures EraseIf(Leaf(k), doomed) == if k in doomed then Nil else Leaf(k)
  {
  }

  lemma ChainIsMended()
    ensures ExtractRoot(Bin(Chain(), Entry(5, 5), Leaf(6))) == Bin(Chain().left, Entry(3, 3), Leaf(6))
  {
    assert Least(Leaf(6)) == Entry(6, 6) && Extract(Leaf(6), 6) == Nil;
    var t := Bin(Chain(), Entry(6, 6), Nil);
    assert Lean(Chain()) == 2 && Lean(t) == 3;
  }

  lemma DoomedRootCanMend()
    ensures var s, doomed := Mending(), {4, 5, 7};
            && Avl(s) && Ordered(s)
            && !Avl(EraseIf(s.left, doomed)) && !Even(s, doomed) && Avl(EraseIf(s, doomed))
  {
    MendingIsBalanced();
    MendingRemains({4, 5, 7});
    ChainIsMended();
    assert Lean(Chain()) == 2;
    if Even(Mending().left, {4, 5, 7}) {
      EvenIsEnough(Mending().left, {4, 5, 7});
    }
  }

  // ---- The next insertion -------------------------------------------------------------------------

  /** A chain on the left and nothing on the right: a key beyond the root has nothing to turn. */
  lemma ChainStrands<T>(l: Tree<T>, m: Entry<T>, e: Entry<T>)
    requires l.Bin? && l.right.Nil? && Height(l) > 2 && l.entry.key < m.key < e.key
    ensures !InsertRuns(Bin(l, m, Nil), e)
  {
    var t := Bin(l, m, Bin(Nil, e, Nil));
    assert Insert(Nil, e) == t.right && Height(t.right) == 1;
    assert !PivotExists(t, e.key);
  }

  /** An input on which an insertion after an erasure meets a missing child: what is left of the left branch is a
      chain of three, nothing is left on the right, and the new largest key would turn the chain's root about an
      inner child it does not have. */
  lemma ErasureCanStrandInsert()
    ensures var s, doomed := Mending(), {4, 6, 7};
            Avl(s) && Ordered(s) && !InsertRuns(EraseIf(s, doomed), Entry(9, 9))
  {
    MendingIsBalanced();
    MendingRemains({4, 6, 7});
    assert EraseIf(Mending(), {4, 6, 7}) == Bin(Chain(), Entry(5, 5), Nil);
    ChainStrands(Chain(), Entry(5, 5), Entry(9, 9));
  }
}
