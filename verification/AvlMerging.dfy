/** Merging two AVL trees without common keys: in order, by splitting, or through sorted spines. All three
    give a balanced tree over the same sequence, so which one is picked cannot be observed. */
module AvlMerging {
  import opened Basics
  import opened OrderedTrees
  import opened HeightBalance

  /** The merge of two sorted sequences, as the two spines are merged. */
  function Merged<T>(a: seq<Entry<T>>, b: seq<Entry<T>>): seq<Entry<T>>
    decreases |a| + |b|
  {
    if a == [] then b
    else if b == [] then a
    else if a[0].key < b[0].key then [a[0]] + Merged(a[1..], b)
    else [b[0]] + Merged(a, b[1..])
  }

  ghost predicate Apart<T>(a: seq<Entry<T>>, b: seq<Entry<T>>) {
    forall i, j :: 0 <= i < |a| && 0 <= j < |b| ==> a[i].key != b[j].key
  }

  lemma {:induction false} MergedFrom<T>(a: seq<Entry<T>>, b: seq<Entry<T>>, k: int)
    requires From(a, k) && From(b, k)
    ensures From(Merged(a, b), k) && |Merged(a, b)| == |a| + |b|
    decreases |a| + |b|
  {
    if a != [] && b != [] {
      if a[0].key < b[0].key {
        MergedFrom(a[1..], b, k);
      } else {
        MergedFrom(a, b[1..], k);
      }
    }
  }

  lemma {:induction false} MergedAscends<T>(a: seq<Entry<T>>, b: seq<Entry<T>>)
    requires Ascending(a) && Ascending(b) && Apart(a, b)
    ensures Ascending(Merged(a, b)) && |Merged(a, b)| == |a| + |b|
    decreases |a| + |b|
  {
    if a != [] && b != [] {
      if a[0].key < b[0].key {
        MergedAscends(a[1..], b);
        MergedFrom(a[1..], b, a[0].key + 1);
      } else {
        MergedAscends(a, b[1..]);
        MergedFrom(a, b[1..], b[0].key + 1);
      }
    }
  }

  /** Nothing is lost, and nothing is taken twice. */
  lemma {:induction false} MergedKeepsAll<T>(a: seq<Entry<T>>, b: seq<Entry<T>>)
    ensures multiset(Merged(a, b)) == multiset(a) + multiset(b)
    decreases |a| + |b|
  {
    if a != [] && b != [] {
      if a[0].key < b[0].key {
        MergedKeepsAll(a[1..], b);
        assert a == [a[0]] + a[1..];
      } else {
        MergedKeepsAll(a, b[1..]);
        assert b == [b[0]] + b[1..];
      }
    }
  }

  lemma {:induction false} MergedSymmetric<T>(a: seq<Entry<T>>, b: seq<Entry<T>>)
    requires Apart(a, b)
    ensures Merged(a, b) == Merged(b, a)
    decreases |a| + |b|
  {
    if a != [] && b != [] {
      if a[0].key < b[0].key {
        MergedSymmetric(a[1..], b);
      } else {
        MergedSymmetric(a, b[1..]);
      }
    }
  }

  lemma {:induction false} MergedInOrder<T>(a: seq<Entry<T>>, b: seq<Entry<T>>)
    requires forall i, j :: 0 <= i < |a| && 0 <= j < |b| ==> a[i].key < b[j].key
    ensures Merged(a, b) == a + b
  {
    if a != [] && b != [] {
      MergedInOrder(a[1..], b);
      assert a == [a[0]] + a[1..];
    } else if a == [] {
      assert a + b == b;
    } else {
      assert a + b == a;
    }
  }

  /** A merge can be cut at any key one of the two holds. */
  lemma {:induction false} MergedAround<T>(a: seq<Entry<T>>, p: Entry<T>, b: seq<Entry<T>>, c: seq<Entry<T>>, d: seq<Entry<T>>)
    requires Before(a, p.key) && After(b, p.key) && Before(c, p.key) && After(d, p.key)
    ensures Merged(a + [p] + b, c + d) == Merged(a, c) + [p] + Merged(b, d)
    decreases |a| + |c|
  {
    var x, y := a + [p] + b, c + d;
    if a == [] && c == [] {
      assert x == [p] + b && y == d && x[1..] == b;
      MergedHeadLeft(x, y);
    } else if c == [] || (a != [] && a[0].key < c[0].key) {
      MergedAround(a[1..], p, b, c, d);
      assert x[0] == a[0] && x[1..] == a[1..] + [p] + b;
      MergedHeadLeft(a, c);
      MergedHeadLeft(x, y);
      Regrouped(a[0], Merged(a[1..], c), p, Merged(b, d));
    } else {
      MergedAround(a, p, b, c[1..], d);
      assert y[0] == c[0] && y[1..] == c[1..] + d;
      MergedHeadRight(a, c);
      MergedHeadRight(x, y);
      Regrouped(c[0], Merged(a, c[1..]), p, Merged(b, d));
    }
  }

  lemma Regrouped<T>(first: Entry<T>, a: seq<Entry<T>>, p: Entry<T>, b: seq<Entry<T>>)
    ensures [first] + (a + [p] + b) == [first] + a + [p] + b
  {
  }

  lemma MergedHeadLeft<T>(a: seq<Entry<T>>, c: seq<Entry<T>>)
    requires a != [] && (c == [] || a[0].key < c[0].key)
    ensures Merged(a, c) == [a[0]] + Merged(a[1..], c)
  {
    if c == [] {
      assert a == [a[0]] + a[1..];
      assert Merged(a[1..], c) == a[1..];
    }
  }

  lemma MergedHeadRight<T>(a: seq<Entry<T>>, c: seq<Entry<T>>)
    requires c != [] && (a == [] || !(a[0].key < c[0].key))
    ensures Merged(a, c) == [c[0]] + Merged(a, c[1..])
  {
    if a == [] {
      assert c == [c[0]] + c[1..];
      assert Merged(a, c[1..]) == c[1..];
    }
  }

  // ---- By splitting -------------------------------------------------------------------------------

  function SplitBased<T>(small: Tree<T>, large: Tree<T>): Tree<T>
    decreases small
  {
    if small.Nil? then large
    else if large.Nil? then small
    else
      var (below, above) := Split(large, small.entry.key);
      JoinWithRoot(SplitBased(small.left, below), small.entry, SplitBased(small.right, above))
  }

  lemma {:induction false} SplitBasedBalances<T>(small: Tree<T>, large: Tree<T>)
    requires Avl(small) && Avl(large)
    ensures Avl(SplitBased(small, large))
    decreases small
  {
    if small.Bin? && large.Bin? {
      var (below, above) := Split(large, small.entry.key);
      SplitBalances(large, small.entry.key);
      SplitBasedBalances(small.left, below);
      SplitBasedBalances(small.right, above);
      JoinWithRootBalances(SplitBased(small.left, below), small.entry, SplitBased(small.right, above));
    }
  }

  lemma {:induction false} SplitBasedMerges<T>(small: Tree<T>, large: Tree<T>)
    requires Ordered(small) && Ordered(large) && Apart(Entries(small), Entries(large))
    ensures Entries(SplitBased(small, large)) == Merged(Entries(small), Entries(large))
    decreases small
  {
    if small.Bin? && large.Bin? {
      var l, p, r := small.left, small.entry, small.right;
      var (below, above) := Split(large, p.key);
      PartsStayApart(small, large);
      SplitBasedMerges(l, below);
      SplitBasedMerges(r, above);
      MergedAround(Entries(l), p, Entries(r), Entries(below), Entries(above));
    }
  }

  lemma PartsStayApart<T>(small: Tree<T>, large: Tree<T>)
    requires small.Bin? && Ordered(small) && Ordered(large) && Apart(Entries(small), Entries(large))
    ensures var (below, above) := Split(large, small.entry.key);
            && Entries(large) == Entries(below) + Entries(above)
            && Ordered(small.left) && Ordered(small.right) && Ordered(below) && Ordered(above)
            && Apart(Entries(small.left), Entries(below)) && Apart(Entries(small.right), Entries(above))
            && Before(Entries(small.left), small.entry.key) && After(Entries(small.right), small.entry.key)
            && Before(Entries(below), small.entry.key) && After(Entries(above), small.entry.key)
  {
    var (below, above) := Split(large, small.entry.key);
    OrderedParts(small);
    SplitCuts(large, small.entry.key);
    SplitSeparates(large, small.entry.key);
    SliceAscends(Entries(below), Entries(above));
    ApartParts(Entries(small.left), small.entry, Entries(small.right), Entries(below), Entries(above));
  }

  lemma ApartParts<T>(l: seq<Entry<T>>, p: Entry<T>, r: seq<Entry<T>>, b: seq<Entry<T>>, a: seq<Entry<T>>)
    requires Apart(l + [p] + r, b + a) && From(a, p.key)
    ensures Apart(l, b) && Apart(r, a) && After(a, p.key)
  {
    var x, y := l + [p] + r, b + a;
    assert forall i :: 0 <= i < |l| ==> x[i] == l[i];
    assert x[|l|] == p;
    assert forall i :: 0 <= i < |r| ==> x[|l| + 1 + i] == r[i];
    assert forall i :: 0 <= i < |b| ==> y[i] == b[i];
    assert forall i :: 0 <= i < |a| ==> y[|b| + i] == a[i];
  }

  // ---- Through spines -----------------------------------------------------------------------------

  /** Rebuilding a sorted spine: half of it on the left, its middle at the root, the rest on the right. */
  function Built<T>(es: seq<Entry<T>>): (t: Tree<T>)
    ensures Entries(t) == es
    decreases |es|
  {
    if es == [] then Nil
    else
      var mid := |es| / 2;
      assert es == es[..mid] + [es[mid]] + es[mid + 1..];
      Bin(Built(es[..mid]), es[mid], Built(es[mid + 1..]))
  }

  function BuiltHeight(n: nat): nat {
    if n == 0 then 0 else 1 + BuiltHeight(n / 2)
  }

  lemma {:induction false} BuiltHeightGrows(n: nat)
    ensures BuiltHeight(n) <= BuiltHeight(n + 1) <= BuiltHeight(n) + 1
  {
    if n > 0 {
      BuiltHeightGrows(n / 2);
      assert (n + 1) / 2 == n / 2 || (n + 1) / 2 == n / 2 + 1;
    }
  }

  /** Sizes within one of each other at every node, and so heights too: the rebuilt tree is an AVL tree. */
  lemma {:induction false} BuiltIsBalanced<T>(es: seq<Entry<T>>)
    ensures Avl(Built(es)) && Height(Built(es)) == BuiltHeight(|es|)
    decreases |es|
  {
    if es != [] {
      var mid := |es| / 2;
      var left, right := Built(es[..mid]), Built(es[mid + 1..]);
      BuiltIsBalanced(es[..mid]);
      BuiltIsBalanced(es[mid + 1..]);
      HalvesMatch(|es|, |es[..mid]|, |es[mid + 1..]|);
      HalvesBalance(left, es[mid], right);
      assert Built(es) == Bin(left, es[mid], right);
    }
  }

  lemma HalvesBalance<T>(left: Tree<T>, e: Entry<T>, right: Tree<T>)
    requires Avl(left) && Avl(right) && Height(right) <= Height(left) <= Height(right) + 1
    ensures Avl(Bin(left, e, right)) && Height(Bin(left, e, right)) == 1 + Height(left)
  {
  }

  lemma HalvesMatch(n: nat, left: nat, right: nat)
    requires n > 0 && left == n / 2 && left + 1 + right == n
    ensures BuiltHeight(right) <= BuiltHeight(left) <= BuiltHeight(right) + 1
  {
    assert left == right || left == right + 1;
    BuiltHeightGrows(right);
  }

  function MergedDsw<T>(first: Tree<T>, second: Tree<T>): Tree<T> {
    Built(Merged(Entries(first), Entries(second)))
  }

  // ---- The choice ---------------------------------------------------------------------------------

  const DSW_THRESHOLD: nat := 10000
  const SIZE_RATIO_THRESHOLD: nat := 3

  function Greatest<T>(s: Tree<T>): (e: Entry<T>)
    requires s.Bin?
    ensures e == Entries(s)[Size(s) - 1]
  {
    if s.right.Nil? then s.entry else Greatest(s.right)
  }

  /** What merging two trees without common keys builds, by size and by whether one lies before the other. */
  function MergedUnique<T>(mine: Tree<T>, other: Tree<T>): Tree<T> {
    if other.Nil? then mine
    else if mine.Nil? then other
    else if Greatest(mine).key < Least(other).key then Join(mine, other)
    else if Greatest(other).key < Least(mine).key then Join(other, mine)
    else
      var smaller := if Size(mine) < Size(other) then Size(mine) else Size(other);
      var larger := Larger(Size(mine), Size(other));
      if smaller > DSW_THRESHOLD && larger < smaller * SIZE_RATIO_THRESHOLD then MergedDsw(mine, other)
      else if Size(mine) < Size(other) then SplitBased(mine, other)
      else SplitBased(other, mine)
  }

  lemma WholeBefore<T>(a: Tree<T>, b: Tree<T>)
    requires a.Bin? && b.Bin? && Ordered(a) && Ordered(b) && Greatest(a).key < Least(b).key
    ensures Entries(a) + Entries(b) == Merged(Entries(a), Entries(b))
  {
    var es, fs := Entries(a), Entries(b);
    forall i, j | 0 <= i < |es| && 0 <= j < |fs|
      ensures es[i].key < fs[j].key
    {
      assert i < |es| - 1 ==> es[i].key < es[|es| - 1].key;
      assert 0 < j ==> fs[0].key < fs[j].key;
    }
    MergedInOrder(es, fs);
  }

  /** Whichever way is picked, the result is a tree over exactly the union, in order; and it is balanced if the two
      are. */
  lemma ChoiceIsUnobservable<T>(mine: Tree<T>, other: Tree<T>)
    requires Ordered(mine) && Ordered(other) && Apart(Entries(mine), Entries(other))
    ensures Entries(MergedUnique(mine, other)) == Merged(Entries(mine), Entries(other))
    ensures Ordered(MergedUnique(mine, other)) && Size(MergedUnique(mine, other)) == Size(mine) + Size(other)
    ensures Avl(mine) && Avl(other) ==> Avl(MergedUnique(mine, other))
  {
    MergedAscends(Entries(mine), Entries(other));
    if other.Bin? && mine.Bin? {
      MergedSymmetric(Entries(mine), Entries(other));
      if Greatest(mine).key < Least(other).key {
        WholeBefore(mine, other);
        JoinConcatenates(mine, other);
      } else if Greatest(other).key < Least(mine).key {
        WholeBefore(other, mine);
        JoinConcatenates(other, mine);
      } else {
        EveryWayMerges(mine, other);
      }
    }
    if Avl(mine) && Avl(other) {
      EveryWayBalances(mine, other);
    }
  }

  lemma EveryWayMerges<T>(mine: Tree<T>, other: Tree<T>)
    requires Ordered(mine) && Ordered(other) && Apart(Entries(mine), Entries(other))
    ensures Entries(SplitBased(mine, other)) == Merged(Entries(mine), Entries(other))
    ensures Entries(SplitBased(other, mine)) == Merged(Entries(mine), Entries(other))
    ensures Entries(MergedDsw(mine, other)) == Merged(Entries(mine), Entries(other))
  {
    MergedSymmetric(Entries(mine), Entries(other));
    SplitBasedMerges(mine, other);
    ApartSymmetric(Entries(mine), Entries(other));
    SplitBasedMerges(other, mine);
  }

  lemma EveryWayBalances<T>(mine: Tree<T>, other: Tree<T>)
    requires Avl(mine) && Avl(other)
    ensures Avl(MergedUnique(mine, other))
  {
    if other.Bin? && mine.Bin? {
      JoinBalances(mine, other);
      JoinBalances(other, mine);
      SplitBasedBalances(mine, other);
      SplitBasedBalances(other, mine);
      BuiltIsBalanced(Merged(Entries(mine), Entries(other)));
    }
  }

  lemma ApartSymmetric<T>(a: seq<Entry<T>>, b: seq<Entry<T>>)
    requires Apart(a, b)
    ensures Apart(b, a)
  {
  }
}
