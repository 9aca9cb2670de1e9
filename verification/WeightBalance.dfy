/** The weight-balanced tree on values: what every operation does to the in-order sequence, and that the
    invariant weight(left) <= 3 * weight(right), weight(right) <= 3 * weight(left) survives it. */
module WeightBalance {
  import opened OrderedTrees

  const DELTA: nat := 3
  const GAMMA: nat := 2

  function Weight<T>(s: Tree<T>): nat {
    Size(s) + 1
  }

  predicate RootBalanced(left: nat, right: nat) {
    left <= DELTA * right && right <= DELTA * left
  }

  predicate Balanced<T>(s: Tree<T>) {
    s.Nil? || (RootBalanced(Weight(s.left), Weight(s.right)) && Balanced(s.left) && Balanced(s.right))
  }

  /** One single or double rotation when a side is more than three times as heavy as the other. A pivot's
      child is never missing, because an empty side still weighs one. */
  function Rebalance<T>(s: Tree<T>): (r: Tree<T>)
    ensures Entries(r) == Entries(s)
  {
    if s.Nil? then s
    else if Weight(s.left) > DELTA * Weight(s.right) then
      if Weight(s.left.right) < GAMMA * Weight(s.left.left) then RotatedRight(s)
      else RotatedRight(Bin(RotatedLeft(s.left), s.entry, s.right))
    else if Weight(s.right) > DELTA * Weight(s.left) then
      if Weight(s.right.left) < GAMMA * Weight(s.right.right) then RotatedLeft(s)
      else RotatedLeft(Bin(s.left, s.entry, RotatedRight(s.right)))
    else s
  }

  /** How far out of balance a node can be when it is rebalanced: one insertion or removal away, or the seam
      of a join. */
  predicate Mendable(heavy: nat, light: nat) {
    heavy <= 3 * light + 3 || 3 * heavy < 13 * light
  }

  /** The arithmetic of both rotations: a heavy side split as `inner` and `outer` against a light side. */
  lemma SingleSuffices(inner: nat, outer: nat, light: nat)
    requires inner > 0 && outer > 0 && light > 0 && RootBalanced(inner, outer)
    requires inner + outer > DELTA * light && Mendable(inner + outer, light) && inner < GAMMA * outer
    ensures RootBalanced(light, inner) && RootBalanced(light + inner, outer)
  {
  }

  lemma DoubleSuffices(a: nat, b: nat, outer: nat, light: nat)
    requires a > 0 && b > 0 && outer > 0 && light > 0 && RootBalanced(a, b) && RootBalanced(a + b, outer)
    requires a + b + outer > DELTA * light && Mendable(a + b + outer, light) && a + b >= GAMMA * outer
    ensures RootBalanced(light, a) && RootBalanced(b, outer) && RootBalanced(light + a, b + outer)
  {
  }

  lemma Assembled<T>(a: Tree<T>, x: Entry<T>, b: Tree<T>, y: Entry<T>, c: Tree<T>, z: Entry<T>, d: Tree<T>)
    requires Balanced(a) && Balanced(b) && Balanced(c) && Balanced(d)
    requires RootBalanced(Weight(a), Weight(b)) && RootBalanced(Weight(c), Weight(d))
    requires RootBalanced(Weight(a) + Weight(b), Weight(c) + Weight(d))
    ensures Balanced(Bin(Bin(a, x, b), y, Bin(c, z, d)))
  {
    assert Balanced(Bin(a, x, b)) && Balanced(Bin(c, z, d));
  }

  lemma MendedLeftHeavy<T>(s: Tree<T>)
    requires s.Bin? && Balanced(s.left) && Balanced(s.right)
    requires Mendable(Weight(s.left), Weight(s.right)) && Weight(s.left) > DELTA * Weight(s.right)
    ensures Balanced(Rebalance(s))
  {
    var inner, outer := s.left.right, s.left.left;
    if Weight(inner) < GAMMA * Weight(outer) {
      SingleSuffices(Weight(inner), Weight(outer), Weight(s.right));
    } else {
      DoubleSuffices(Weight(inner.right), Weight(inner.left), Weight(outer), Weight(s.right));
      Assembled(outer, s.left.entry, inner.left, inner.entry, inner.right, s.entry, s.right);
      assert Rebalance(s) == Bin(Bin(outer, s.left.entry, inner.left), inner.entry, Bin(inner.right, s.entry, s.right));
    }
  }

  lemma MendedRightHeavy<T>(s: Tree<T>)
    requires s.Bin? && Balanced(s.left) && Balanced(s.right)
    requires Mendable(Weight(s.right), Weight(s.left)) && Weight(s.right) > DELTA * Weight(s.left)
    ensures Balanced(Rebalance(s))
  {
    var inner, outer := s.right.left, s.right.right;
    if Weight(inner) < GAMMA * Weight(outer) {
      SingleSuffices(Weight(inner), Weight(outer), Weight(s.left));
    } else {
      DoubleSuffices(Weight(inner.left), Weight(inner.right), Weight(outer), Weight(s.left));
      Assembled(s.left, s.entry, inner.left, inner.entry, inner.right, s.right.entry, outer);
      assert Rebalance(s) == Bin(Bin(s.left, s.entry, inner.left), inner.entry, Bin(inner.right, s.right.entry, outer));
    }
  }

  /** One rotation per level is enough, whichever way the node got out of balance. */
  lemma RebalanceRestores<T>(s: Tree<T>)
    requires s.Bin? && Balanced(s.left) && Balanced(s.right)
    requires Mendable(Weight(s.left), Weight(s.right)) && Mendable(Weight(s.right), Weight(s.left))
    ensures Balanced(Rebalance(s))
  {
    if Weight(s.left) > DELTA * Weight(s.right) {
      MendedLeftHeavy(s);
    } else if Weight(s.right) > DELTA * Weight(s.left) {
      MendedRightHeavy(s);
    }
  }

  // ---- Insertion ----------------------------------------------------------------------------------

  function Insert<T>(s: Tree<T>, e: Entry<T>): Tree<T> {
    match s
    case Nil => Bin(Nil, e, Nil)
    case Bin(l, m, r) =>
      if e.key < m.key then (if Has(l, e.key) then s else Rebalance(Bin(Insert(l, e), m, r)))
      else if m.key < e.key then (if Has(r, e.key) then s else Rebalance(Bin(l, m, Insert(r, e))))
      else s
  }

  lemma {:induction false} InsertSplices<T>(s: Tree<T>, e: Entry<T>)
    ensures Has(s, e.key) ==> Insert(s, e) == s
    ensures Rank(s, e.key) <= Size(s)
    ensures !Has(s, e.key) ==> Entries(Insert(s, e)) == With(Entries(s), Rank(s, e.key), e)
  {
    RankInRange(s, e.key);
    if s.Nil? {
      assert Entries(Insert(s, e)) == [e] == With(Entries(s), 0, e);
    } else if e.key < s.entry.key && !Has(s.left, e.key) {
      InsertSplices(s.left, e);
      SpliceOnLeft(s, e);
    } else if s.entry.key < e.key && !Has(s.right, e.key) {
      InsertSplices(s.right, e);
      SpliceOnRight(s, e);
    }
  }

  lemma SpliceOnLeft<T>(s: Tree<T>, e: Entry<T>)
    requires s.Bin? && e.key < s.entry.key && !Has(s.left, e.key) && Rank(s.left, e.key) <= Size(s.left)
    requires Entries(Insert(s.left, e)) == With(Entries(s.left), Rank(s.left, e.key), e)
    ensures Entries(Insert(s, e)) == With(Entries(s), Rank(s, e.key), e)
  {
    WithInLeft(Entries(s.left), s.entry, Entries(s.right), Rank(s.left, e.key), e);
    assert Insert(s, e) == Rebalance(Bin(Insert(s.left, e), s.entry, s.right));
  }

  lemma SpliceOnRight<T>(s: Tree<T>, e: Entry<T>)
    requires s.Bin? && s.entry.key < e.key && !Has(s.right, e.key) && Rank(s.right, e.key) <= Size(s.right)
    requires Entries(Insert(s.right, e)) == With(Entries(s.right), Rank(s.right, e.key), e)
    ensures Entries(Insert(s, e)) == With(Entries(s), Rank(s, e.key), e)
  {
    InsertedOnRight(s, e);
    SpliceRight(s, e, Entries(Insert(s.right, e)));
  }

  lemma InsertedOnRight<T>(s: Tree<T>, e: Entry<T>)
    requires s.Bin? && s.entry.key < e.key && !Has(s.right, e.key)
    ensures Entries(Insert(s, e)) == Entries(s.left) + [s.entry] + Entries(Insert(s.right, e))
  {
    var t := Bin(s.left, s.entry, Insert(s.right, e));
    assert Insert(s, e) == Rebalance(t);
    assert Entries(Rebalance(t)) == Entries(t);
  }

  lemma InsertKeepsOrder<T>(s: Tree<T>, e: Entry<T>)
    requires Ordered(s)
    ensures Ordered(Insert(s, e))
  {
    InsertSplices(s, e);
    RankSplits(s, e.key);
    if !Has(s, e.key) {
      WithStaysAscending(Entries(s), Rank(s, e.key), e);
    }
  }

  lemma {:induction false} InsertKeepsBalance<T>(s: Tree<T>, e: Entry<T>)
    requires Balanced(s)
    ensures Balanced(Insert(s, e))
    ensures Size(Insert(s, e)) == Size(s) + if Has(s, e.key) then 0 else 1
  {
    InsertSplices(s, e);
    if s.Bin? {
      if e.key < s.entry.key && !Has(s.left, e.key) {
        InsertKeepsBalance(s.left, e);
        RebalanceRestores(Bin(Insert(s.left, e), s.entry, s.right));
      } else if s.entry.key < e.key && !Has(s.right, e.key) {
        InsertKeepsBalance(s.right, e);
        RebalanceRestores(Bin(s.left, s.entry, Insert(s.right, e)));
      }
    }
  }

  // ---- Removal ------------------------------------------------------------------------------------

  /** Pops the root: the least entry of the right branch takes its place. */
  function ExtractRoot<T>(s: Tree<T>): Tree<T>
    requires s.Bin?
    decreases s, 0
  {
    if s.left.Bin? && s.right.Bin? then Rebalance(Bin(s.left, Least(s.right), Extract(s.right, Least(s.right).key)))
    else if s.left.Bin? then s.left
    else s.right
  }

  function Extract<T>(s: Tree<T>, k: int): Tree<T>
    decreases s, 1
  {
    match s
    case Nil => Nil
    case Bin(l, e, r) =>
      if k < e.key then (if Has(l, k) then Rebalance(Bin(Extract(l, k), e, r)) else s)
      else if e.key < k then (if Has(r, k) then Rebalance(Bin(l, e, Extract(r, k))) else s)
      else ExtractRoot(s)
  }

  /** Removal takes out exactly the entry with that key. */
  lemma {:induction false} ExtractCutsOut<T>(s: Tree<T>, k: int)
    requires Ordered(s)
    ensures !Has(s, k) ==> Extract(s, k) == s
    ensures Has(s, k) ==> Rank(s, k) < Size(s) && Entries(Extract(s, k)) == Without(Entries(s), Rank(s, k))
    decreases s, 1
  {
    RankInRange(s, k);
    if s.Bin? && Has(s, k) {
      OrderedParts(s);
      if k < s.entry.key {
        ExtractCutsOut(s.left, k);
        CutOnLeft(s, k);
      } else if s.entry.key < k {
        ExtractCutsOut(s.right, k);
        CutOnRight(s, k);
      } else {
        ExtractRootCutsOut(s);
      }
    }
  }

  lemma ExtractKeepsOrder<T>(s: Tree<T>, k: int)
    requires Ordered(s)
    ensures Ordered(Extract(s, k))
  {
    ExtractCutsOut(s, k);
    if Has(s, k) {
      WithoutStaysAscending(Entries(s), Rank(s, k));
    }
  }

  lemma CutOnLeft<T>(s: Tree<T>, k: int)
    requires s.Bin? && k < s.entry.key && Has(s.left, k) && Rank(s.left, k) < Size(s.left)
    requires Entries(Extract(s.left, k)) == Without(Entries(s.left), Rank(s.left, k))
    ensures Entries(Extract(s, k)) == Without(Entries(s), Rank(s, k))
  {
    WithoutInLeft(Entries(s.left), s.entry, Entries(s.right), Rank(s.left, k));
    assert Extract(s, k) == Rebalance(Bin(Extract(s.left, k), s.entry, s.right));
  }

  lemma CutOnRight<T>(s: Tree<T>, k: int)
    requires s.Bin? && s.entry.key < k && Has(s.right, k) && Rank(s.right, k) < Size(s.right)
    requires Entries(Extract(s.right, k)) == Without(Entries(s.right), Rank(s.right, k))
    ensures Entries(Extract(s, k)) == Without(Entries(s), Rank(s, k))
  {
    WithoutInRight(Entries(s.left), s.entry, Entries(s.right), Rank(s.right, k));
    assert Extract(s, k) == Rebalance(Bin(s.left, s.entry, Extract(s.right, k)));
  }

  lemma {:induction false} ExtractRootCutsOut<T>(s: Tree<T>)
    requires s.Bin? && Ordered(s)
    ensures Entries(ExtractRoot(s)) == Without(Entries(s), Size(s.left))
    decreases s, 0
  {
    var l, r := Entries(s.left), Entries(s.right);
    WithoutMiddle(l, s.entry, r);
    if s.left.Bin? && s.right.Bin? {
      OrderedParts(s);
      LeastIsHeld(s.right);
      ExtractCutsOut(s.right, Least(s.right).key);
    } else if s.left.Bin? {
      assert l + r == l;
    } else {
      assert l + r == r;
    }
  }

  lemma {:induction false} ExtractKeepsBalance<T>(s: Tree<T>, k: int)
    requires Ordered(s) && Balanced(s)
    ensures Balanced(Extract(s, k))
    ensures Size(Extract(s, k)) == Size(s) - if Has(s, k) then 1 else 0
    decreases s, 1
  {
    ExtractCutsOut(s, k);
    if s.Bin? && Has(s, k) {
      OrderedParts(s);
      if k < s.entry.key {
        ExtractKeepsBalance(s.left, k);
        RebalanceRestores(Bin(Extract(s.left, k), s.entry, s.right));
      } else if s.entry.key < k {
        ExtractKeepsBalance(s.right, k);
        RebalanceRestores(Bin(s.left, s.entry, Extract(s.right, k)));
      } else if s.left.Bin? && s.right.Bin? {
        LeastIsHeld(s.right);
        ExtractKeepsBalance(s.right, Least(s.right).key);
        RebalanceRestores(Bin(s.left, Least(s.right), Extract(s.right, Least(s.right).key)));
      }
    }
  }

  // ---- Joining ------------------------------------------------------------------------------------

  /** Joins around a middle entry: the lighter tree meets the heavier one where they are alike enough, and each
      level above that point is rebalanced once. */
  function JoinWithRoot<T>(l: Tree<T>, e: Entry<T>, r: Tree<T>): (t: Tree<T>)
    ensures Entries(t) == Entries(l) + [e] + Entries(r)
    decreases Weight(l) + Weight(r)
  {
    if Weight(l) > DELTA * Weight(r) then
      var t := Bin(l.left, l.entry, JoinWithRoot(l.right, e, r));
      Reassociates(Entries(l.left), l.entry, Entries(l.right), e, Entries(r));
      Rebalance(t)
    else if Weight(r) > DELTA * Weight(l) then
      var t := Bin(JoinWithRoot(l, e, r.left), r.entry, r.right);
      Reassociates(Entries(l), e, Entries(r.left), r.entry, Entries(r.right));
      Rebalance(t)
    else Bin(l, e, r)
  }

  /** However far apart in weight the two sides are, the result is balanced. */
  lemma {:induction false} JoinWithRootBalances<T>(l: Tree<T>, e: Entry<T>, r: Tree<T>)
    requires Balanced(l) && Balanced(r)
    ensures Balanced(JoinWithRoot(l, e, r))
    ensures Size(JoinWithRoot(l, e, r)) == Size(l) + 1 + Size(r)
    decreases Weight(l) + Weight(r)
  {
    if Weight(l) > DELTA * Weight(r) {
      JoinWithRootBalances(l.right, e, r);
      RebalanceRestores(Bin(l.left, l.entry, JoinWithRoot(l.right, e, r)));
    } else if Weight(r) > DELTA * Weight(l) {
      JoinWithRootBalances(l, e, r.left);
      RebalanceRestores(Bin(JoinWithRoot(l, e, r.left), r.entry, r.right));
    }
  }

  function Join<T>(l: Tree<T>, r: Tree<T>): Tree<T> {
    if l.Nil? then r
    else if r.Nil? then l
    else JoinWithRoot(l, Least(r), Extract(r, Least(r).key))
  }

  lemma JoinConcatenates<T>(l: Tree<T>, r: Tree<T>)
    requires Ordered(r)
    ensures Entries(Join(l, r)) == Entries(l) + Entries(r)
  {
    if l.Nil? {
      assert Entries(l) + Entries(r) == Entries(r);
    } else if r.Nil? {
      assert Entries(l) + Entries(r) == Entries(l);
    } else {
      LeastIsHeld(r);
      ExtractCutsOut(r, Least(r).key);
      WithoutMiddle(Entries(l), Least(r), Entries(r));
    }
  }

  lemma JoinBalances<T>(l: Tree<T>, r: Tree<T>)
    requires Balanced(l) && Balanced(r) && Ordered(r)
    ensures Balanced(Join(l, r)) && Size(Join(l, r)) == Size(l) + Size(r)
  {
    if l.Bin? && r.Bin? {
      LeastIsHeld(r);
      ExtractKeepsBalance(r, Least(r).key);
      JoinWithRootBalances(l, Least(r), Extract(r, Least(r).key));
    }
  }

  // ---- Splitting ----------------------------------------------------------------------------------

  function Split<T>(s: Tree<T>, k: int): (Tree<T>, Tree<T>) {
    match s
    case Nil => (Nil, Nil)
    case Bin(l, e, r) =>
      if e.key < k then
        var (below, above) := Split(r, k);
        (JoinWithRoot(l, e, below), above)
      else
        var (below, above) := Split(l, k);
        (below, JoinWithRoot(above, e, r))
  }

  /** A split cuts the in-order sequence in two. */
  lemma {:induction false} SplitCuts<T>(s: Tree<T>, k: int)
    ensures Entries(Split(s, k).0) + Entries(Split(s, k).1) == Entries(s)
  {
    if s.Bin? {
      if s.entry.key < k {
        SplitCuts(s.right, k);
        var (below, above) := Split(s.right, k);
        AppendedOnRight(Entries(s.left), s.entry, Entries(below), Entries(above), Entries(s.right));
      } else {
        SplitCuts(s.left, k);
        var (below, above) := Split(s.left, k);
        AppendedOnLeft(Entries(below), Entries(above), s.entry, Entries(s.right), Entries(s.left));
      }
    }
  }

  /** Both halves are balanced, however many levels the cut went through. */
  lemma {:induction false} SplitBalances<T>(s: Tree<T>, k: int)
    requires Balanced(s)
    ensures Balanced(Split(s, k).0) && Balanced(Split(s, k).1)
  {
    if s.Bin? {
      if s.entry.key < k {
        SplitBalances(s.right, k);
        JoinWithRootBalances(s.left, s.entry, Split(s.right, k).0);
      } else {
        SplitBalances(s.left, k);
        JoinWithRootBalances(Split(s.left, k).1, s.entry, s.right);
      }
    }
  }

  /** The cut is at the key. */
  lemma {:induction false} SplitSeparates<T>(s: Tree<T>, k: int)
    requires Ordered(s)
    ensures Before(Entries(Split(s, k).0), k) && From(Entries(Split(s, k).1), k)
  {
    if s.Bin? {
      OrderedParts(s);
      if s.entry.key < k {
        SplitSeparates(s.right, k);
        BeforeAround(Entries(s.left), s.entry, Entries(Split(s.right, k).0), k);
      } else {
        SplitSeparates(s.left, k);
        FromAround(Entries(Split(s.left, k).1), s.entry, Entries(s.right), k);
      }
    }
  }

  // ---- Erasing many -------------------------------------------------------------------------------

  /** Drops every entry whose key is doomed; each level joins what survives on its two sides. */
  function EraseIf<T>(s: Tree<T>, doomed: set<int>): Tree<T> {
    match s
    case Nil => Nil
    case Bin(l, e, r) =>
      if e.key in doomed then Join(EraseIf(l, doomed), EraseIf(r, doomed))
      else JoinWithRoot(EraseIf(l, doomed), e, EraseIf(r, doomed))
  }

  lemma {:induction false} EraseIfKeepsRest<T>(s: Tree<T>, doomed: set<int>)
    requires Ordered(s)
    ensures Entries(EraseIf(s, doomed)) == Kept(Entries(s), doomed)
    ensures Ordered(EraseIf(s, doomed))
    ensures Balanced(s) ==> Balanced(EraseIf(s, doomed))
  {
    KeptStaysAscending(Entries(s), doomed);
    if s.Bin? {
      OrderedParts(s);
      EraseIfKeepsRest(s.left, doomed);
      EraseIfKeepsRest(s.right, doomed);
      KeptAround(Entries(s.left), s.entry, Entries(s.right), doomed);
      var l, r := EraseIf(s.left, doomed), EraseIf(s.right, doomed);
      if s.entry.key in doomed {
        JoinConcatenates(l, r);
        if Balanced(s) {
          JoinBalances(l, r);
        }
      } else if Balanced(s) {
        JoinWithRootBalances(l, s.entry, r);
      }
    }
  }

  /** `erase_range`: split twice, drop the middle, join the rest. */
  function EraseRange<T>(s: Tree<T>, lower: int, upper: int): (Tree<T>, Tree<T>) {
    var (below, rest) := Split(s, lower);
    var (within, above) := Split(rest, upper);
    (Join(below, above), within)
  }

  /** What is dropped is exactly the keys in [lower, upper), and the rest stays in order and balanced. */
  lemma EraseRangeIsExact<T>(s: Tree<T>, lower: int, upper: int)
    requires Ordered(s)
    ensures var (rest, gone) := EraseRange(s, lower, upper);
            && Entries(rest) == Kept(Entries(s), KeysIn(lower, upper)) && Ordered(rest)
            && From(Entries(gone), lower) && Before(Entries(gone), upper) && Size(rest) + Size(gone) == Size(s)
            && (Balanced(s) ==> Balanced(rest))
  {
    var (below, notBelow) := Split(s, lower);
    var (within, above) := Split(notBelow, upper);
    SplitCuts(s, lower);
    SplitSeparates(s, lower);
    SliceAscends(Entries(below), Entries(notBelow));
    SplitCuts(notBelow, upper);
    SplitSeparates(notBelow, upper);
    SliceAscends(Entries(within), Entries(above));
    JoinConcatenates(below, above);
    if Balanced(s) {
      SplitBalances(s, lower);
      SplitBalances(notBelow, upper);
      JoinBalances(below, above);
    }
    KeptOutside(Entries(below), Entries(notBelow), Entries(within), Entries(above), lower, upper);
    KeptStaysAscending(Entries(s), KeysIn(lower, upper));
  }

  // ---- Height -------------------------------------------------------------------------------------

  function Power(base: nat, exponent: nat): nat {
    if exponent == 0 then 1 else base * Power(base, exponent - 1)
  }

  lemma PowerStep(h: nat, child: nat, parent: nat)
    requires Power(4, h) <= Power(3, h) * child && 4 * child <= 3 * parent
    ensures Power(4, h + 1) <= Power(3, h + 1) * parent
  {
    var q := Power(3, h);
    assert q * (4 * child) <= q * (3 * parent);
    assert q * (4 * child) == 4 * (q * child) && q * (3 * parent) == 3 * q * parent;
  }

  /** A balanced tree of n entries is no higher than log n to the base 4/3. */
  lemma {:induction false} BalancedIsShallow<T>(s: Tree<T>)
    requires Balanced(s)
    ensures Power(4, Height(s)) <= Power(3, Height(s)) * Weight(s)
  {
    if s.Bin? {
      BalancedIsShallow(s.left);
      BalancedIsShallow(s.right);
      if Height(s.left) > Height(s.right) {
        PowerStep(Height(s.left), Weight(s.left), Weight(s));
      } else {
        PowerStep(Height(s.right), Weight(s.right), Weight(s));
      }
    }
  }
}
