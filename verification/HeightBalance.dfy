/** The AVL tree on values: key-directed rebalancing on insertion, balance-directed rebalancing elsewhere,
    joins, splits and three ways of merging. */
module HeightBalance {
  import opened Basics
  import opened OrderedTrees
  import opened PowersOfTwo

  /** Height of the left branch minus height of the right one. */
  function Lean<T>(s: Tree<T>): int {
    if s.Nil? then 0 else Height(s.left) - Height(s.right)
  }

  predicate Avl<T>(s: Tree<T>) {
    s.Nil? || (-1 <= Lean(s) <= 1 && Avl(s.left) && Avl(s.right))
  }

  // ---- Insertion ----------------------------------------------------------------------------------

  /** What a key-directed rotation relies on: where the new key went deep enough to upset the balance, the
      child on that side leans towards the key too. */
  predicate LeansToKey<T>(s: Tree<T>, k: int) {
    && s.Bin?
    && (Lean(s) > 1 ==>
          (k < s.left.entry.key && Lean(s.left) == 1) || (s.left.entry.key < k && Lean(s.left) == -1))
    && (Lean(s) < -1 ==>
          (s.right.entry.key < k && Lean(s.right) == -1) || (k < s.right.entry.key && Lean(s.right) == 1))
  }

  /** Whether the rotation that comparing keys picks has all the nodes it turns: a double one needs the taller
      child's inner child. */
  predicate PivotExists<T>(s: Tree<T>, k: int) {
    && s.Bin?
    && (Lean(s) > 1 && s.left.entry.key < k ==> s.left.right.Bin?)
    && (Lean(s) < -1 && k < s.right.entry.key ==> s.right.left.Bin?)
  }

  /** Picks its rotation by comparing the inserted key with the child's, never by the child's balance. */
  function RebalanceOnInsert<T>(s: Tree<T>, k: int): (t: Tree<T>)
    requires PivotExists(s, k)
    ensures Entries(t) == Entries(s)
  {
    if Lean(s) > 1 && k < s.left.entry.key then RotatedRight(s)
    else if Lean(s) < -1 && s.right.entry.key < k then RotatedLeft(s)
    else if Lean(s) > 1 && s.left.entry.key < k then RotatedRight(Bin(RotatedLeft(s.left), s.entry, s.right))
    else if Lean(s) < -1 && k < s.right.entry.key then RotatedLeft(Bin(s.left, s.entry, RotatedRight(s.right)))
    else s
  }

  /** A tree that an insertion made taller leans towards the new key, which is not its root. */
  predicate Grew<T>(t: Tree<T>, k: int) {
    && t.Bin? && t.entry.key != k
    && (k < t.entry.key ==> Lean(t) == 1)
    && (t.entry.key < k ==> Lean(t) == -1)
  }

  lemma RebalancedOnLeft<T>(s: Tree<T>, was: nat, k: int)
    requires s.Bin? && k < s.entry.key && Avl(s.left) && Avl(s.right)
    requires Height(s.left) == was || Height(s.left) == was + 1
    requires -1 <= was - Height(s.right) <= 1
    requires Height(s.left) == was + 1 && was > 0 ==> Grew(s.left, k)
    ensures LeansToKey(s, k)
    ensures var t := RebalanceOnInsert(s, k);
            var before := 1 + Larger(was, Height(s.right));
            Avl(t) && (Height(t) == before || (Height(t) == before + 1 && Grew(t, k)))
  {
    if Lean(s) > 1 {
      if k < s.left.entry.key {
        var below := Bin(s.left.right, s.entry, s.right);
        assert Avl(below);
        assert RebalanceOnInsert(s, k) == Bin(s.left.left, s.left.entry, below);
      } else {
        var inner := s.left.right;
        var l, r := Bin(s.left.left, s.left.entry, inner.left), Bin(inner.right, s.entry, s.right);
        assert Avl(l) && Avl(r);
        assert RebalanceOnInsert(s, k) == Bin(l, inner.entry, r);
      }
    }
  }

  lemma RebalancedOnRight<T>(s: Tree<T>, was: nat, k: int)
    requires s.Bin? && s.entry.key < k && Avl(s.left) && Avl(s.right)
    requires Height(s.right) == was || Height(s.right) == was + 1
    requires -1 <= Height(s.left) - was <= 1
    requires Height(s.right) == was + 1 && was > 0 ==> Grew(s.right, k)
    ensures LeansToKey(s, k)
    ensures var t := RebalanceOnInsert(s, k);
            var before := 1 + Larger(Height(s.left), was);
            Avl(t) && (Height(t) == before || (Height(t) == before + 1 && Grew(t, k)))
  {
    if Lean(s) < -1 {
      if s.right.entry.key < k {
        var below := Bin(s.left, s.entry, s.right.left);
        assert Avl(below);
        assert RebalanceOnInsert(s, k) == Bin(below, s.right.entry, s.right.right);
      } else {
        var inner := s.right.left;
        var l, r := Bin(s.left, s.entry, inner.left), Bin(inner.right, s.right.entry, s.right.right);
        assert Avl(l) && Avl(r);
        assert RebalanceOnInsert(s, k) == Bin(l, inner.entry, r);
      }
    }
  }

  /** Whether an insertion finds every node its rotations turn, at each level on its way back up. */
  predicate InsertRuns<T>(s: Tree<T>, e: Entry<T>)
    decreases s, 0
  {
    match s
    case Nil => true
    case Bin(l, m, r) =>
      if e.key < m.key then Has(l, e.key) || (InsertRuns(l, e) && PivotExists(Bin(Insert(l, e), m, r), e.key))
      else if m.key < e.key then Has(r, e.key) || (InsertRuns(r, e) && PivotExists(Bin(l, m, Insert(r, e)), e.key))
      else true
  }

  /** Insertion into any tree, balanced or not, on which it runs at all. */
  function Insert<T>(s: Tree<T>, e: Entry<T>): (t: Tree<T>)
    requires InsertRuns(s, e)
    decreases s, 1
  {
    match s
    case Nil => Bin(Nil, e, Nil)
    case Bin(l, m, r) =>
      if e.key < m.key then
        if Has(l, e.key) then s else RebalanceOnInsert(Bin(Insert(l, e), m, r), e.key)
      else if m.key < e.key then
        if Has(r, e.key) then s else RebalanceOnInsert(Bin(l, m, Insert(r, e)), e.key)
      else s
  }

  /** Into a balanced tree every insertion runs, and keeps it balanced: the rotation picked by comparing keys
      always matches the taller side. */
  lemma {:induction false} InsertKeepsBalance<T>(s: Tree<T>, e: Entry<T>)
    requires Avl(s)
    ensures InsertRuns(s, e) && Avl(Insert(s, e))
    ensures Height(Insert(s, e)) == Height(s) || Height(Insert(s, e)) == Height(s) + 1
    ensures Height(Insert(s, e)) == Height(s) + 1 && s.Bin? ==> Grew(Insert(s, e), e.key)
  {
    if s.Bin? {
      if e.key < s.entry.key && !Has(s.left, e.key) {
        InsertKeepsBalance(s.left, e);
        RebalancedOnLeft(Bin(Insert(s.left, e), s.entry, s.right), Height(s.left), e.key);
      } else if s.entry.key < e.key && !Has(s.right, e.key) {
        InsertKeepsBalance(s.right, e);
        RebalancedOnRight(Bin(s.left, s.entry, Insert(s.right, e)), Height(s.right), e.key);
      }
    }
  }

  /** Nothing is turned for a key already there, so that always runs; and what runs, runs in the branch below. */
  lemma InsertRunsBelow<T>(s: Tree<T>, e: Entry<T>)
    ensures Has(s, e.key) ==> InsertRuns(s, e)
    ensures s.Bin? && InsertRuns(s, e) && e.key < s.entry.key ==> InsertRuns(s.left, e)
    ensures s.Bin? && InsertRuns(s, e) && s.entry.key < e.key ==> InsertRuns(s.right, e)
  {
  }

  /** What the insertion into one branch leaves one level up. */
  lemma InsertsThrough<T>(s: Tree<T>, e: Entry<T>)
    requires s.Bin? && InsertRuns(s, e)
    ensures e.key < s.entry.key && !Has(s.left, e.key) ==>
              var t := Bin(Insert(s.left, e), s.entry, s.right);
              PivotExists(t, e.key) && Insert(s, e) == RebalanceOnInsert(t, e.key)
    ensures s.entry.key < e.key && !Has(s.right, e.key) ==>
              var t := Bin(s.left, s.entry, Insert(s.right, e));
              PivotExists(t, e.key) && Insert(s, e) == RebalanceOnInsert(t, e.key)
  {
  }

  lemma {:induction false} InsertSplices<T>(s: Tree<T>, e: Entry<T>)
    requires InsertRuns(s, e)
    ensures Has(s, e.key) ==> Insert(s, e) == s
    ensures Rank(s, e.key) <= Size(s)
    ensures !Has(s, e.key) ==> Entries(Insert(s, e)) == With(Entries(s), Rank(s, e.key), e)
  {
    RankInRange(s, e.key);
    if s.Nil? {
      assert Entries(Insert(s, e)) == [e] == With(Entries(s), 0, e);
    } else if e.key < s.entry.key && !Has(s.left, e.key) {
      InsertSplices(s.left, e);
      SpliceOnLeft(s, e);
    } else if s.entry.key < e.key && !Has(s.right, e.key) {
      InsertSplices(s.right, e);
      SpliceOnRight(s, e);
    }
  }

  lemma SpliceOnLeft<T>(s: Tree<T>, e: Entry<T>)
    requires s.Bin? && InsertRuns(s, e) && e.key < s.entry.key && !Has(s.left, e.key) && Rank(s.left, e.key) <= Size(s.left)
    requires Entries(Insert(s.left, e)) == With(Entries(s.left), Rank(s.left, e.key), e)
    ensures Entries(Insert(s, e)) == With(Entries(s), Rank(s, e.key), e)
  {
    WithInLeft(Entries(s.left), s.entry, Entries(s.right), Rank(s.left, e.key), e);
    InsertedOnLeft(s, e);
  }

  lemma InsertedOnLeft<T>(s: Tree<T>, e: Entry<T>)
    requires s.Bin? && InsertRuns(s, e) && e.key < s.entry.key && !Has(s.left, e.key)
    ensures Entries(Insert(s, e)) == Entries(Insert(s.left, e)) + [s.entry] + Entries(s.right)
  {
    InsertsThrough(s, e);
    var t := Bin(Insert(s.left, e), s.entry, s.right);
    assert Entries(RebalanceOnInsert(t, e.key)) == Entries(t);
  }

  lemma SpliceOnRight<T>(s: Tree<T>, e: Entry<T>)
    requires s.Bin? && InsertRuns(s, e) && s.entry.key < e.key && !Has(s.right, e.key) && Rank(s.right, e.key) <= Size(s.right)
    requires Entries(Insert(s.right, e)) == With(Entries(s.right), Rank(s.right, e.key), e)
    ensures Entries(Insert(s, e)) == With(Entries(s), Rank(s, e.key), e)
  {
    InsertedOnRight(s, e);
    SpliceRight(s, e, Entries(Insert(s.right, e)));
  }

  lemma InsertedOnRight<T>(s: Tree<T>, e: Entry<T>)
    requires s.Bin? && InsertRuns(s, e) && s.entry.key < e.key && !Has(s.right, e.key)
    ensures Entries(Insert(s, e)) == Entries(s.left) + [s.entry] + Entries(Insert(s.right, e))
  {
    InsertsThrough(s, e);
    var t := Bin(s.left, s.entry, Insert(s.right, e));
    assert Entries(RebalanceOnInsert(t, e.key)) == Entries(t);
  }

  lemma InsertKeepsOrder<T>(s: Tree<T>, e: Entry<T>)
    requires InsertRuns(s, e) && Ordered(s)
    ensures Ordered(Insert(s, e))
  {
    InsertSplices(s, e);
    RankSplits(s, e.key);
    if !Has(s, e.key) {
      WithStaysAscending(Entries(s), Rank(s, e.key), e);
    }
  }

  // ---- Removal ------------------------------------------------------------------------------------

  /** Picks its rotation by the child's balance, so it is safe on any tree at all. */
  function RebalanceAfterExtract<T>(s: Tree<T>): (t: Tree<T>)
    requires s.Bin?
    ensures Entries(t) == Entries(s)
  {
    if Lean(s) > 1 && Lean(s.left) >= 0 then RotatedRight(s)
    else if Lean(s) > 1 && Lean(s.left) < 0 then RotatedRight(Bin(RotatedLeft(s.left), s.entry, s.right))
    else if Lean(s) < -1 && Lean(s.right) <= 0 then RotatedLeft(s)
    else if Lean(s) < -1 && Lean(s.right) > 0 then RotatedLeft(Bin(s.left, s.entry, RotatedRight(s.right)))
    else s
  }

  /** Two branches whose heights differ by at most two are mended, at the cost of at most one level. */
  lemma RebalanceRestores<T>(s: Tree<T>)
    requires s.Bin? && Avl(s.left) && Avl(s.right) && -2 <= Lean(s) <= 2
    ensures Avl(RebalanceAfterExtract(s))
    ensures Height(RebalanceAfterExtract(s)) == Height(s)
            || (Height(RebalanceAfterExtract(s)) == Height(s) - 1 && (Lean(s) == 2 || Lean(s) == -2))
  {
    if Lean(s) > 1 {
      MendedLeft(s);
    } else if Lean(s) < -1 {
      MendedRight(s);
    }
  }

  lemma MendedLeft<T>(s: Tree<T>)
    requires s.Bin? && Avl(s.left) && Avl(s.right) && Lean(s) == 2
    ensures Avl(RebalanceAfterExtract(s)) && Height(s) - 1 <= Height(RebalanceAfterExtract(s)) <= Height(s)
  {
    if Lean(s.left) >= 0 {
      var below := Bin(s.left.right, s.entry, s.right);
      assert Avl(below);
      assert RebalanceAfterExtract(s) == Bin(s.left.left, s.left.entry, below);
    } else {
      var inner := s.left.right;
      var l, r := Bin(s.left.left, s.left.entry, inner.left), Bin(inner.right, s.entry, s.right);
      assert Avl(l) && Avl(r);
      assert RebalanceAfterExtract(s) == Bin(l, inner.entry, r);
    }
  }

  lemma MendedRight<T>(s: Tree<T>)
    requires s.Bin? && Avl(s.left) && Avl(s.right) && Lean(s) == -2
    ensures Avl(RebalanceAfterExtract(s)) && Height(s) - 1 <= Height(RebalanceAfterExtract(s)) <= Height(s)
  {
    if Lean(s.right) <= 0 {
      var below := Bin(s.left, s.entry, s.right.left);
      assert Avl(below);
      assert RebalanceAfterExtract(s) == Bin(below, s.right.entry, s.right.right);
    } else {
      var inner := s.right.left;
      var l, r := Bin(s.left, s.entry, inner.left), Bin(inner.right, s.right.entry, s.right.right);
      assert Avl(l) && Avl(r);
      assert RebalanceAfterExtract(s) == Bin(l, inner.entry, r);
    }
  }

  function ExtractRoot<T>(s: Tree<T>): Tree<T>
    requires s.Bin?
    decreases s, 0
  {
    if s.left.Bin? && s.right.Bin? then
      RebalanceAfterExtract(Bin(s.left, Least(s.right), Extract(s.right, Least(s.right).key)))
    else if s.left.Bin? then s.left
    else s.right
  }

  function Extract<T>(s: Tree<T>, k: int): Tree<T>
    decreases s, 1
  {
    match s
    case Nil => Nil
    case Bin(l, e, r) =>
      if k < e.key then (if Has(l, k) then RebalanceAfterExtract(Bin(Extract(l, k), e, r)) else s)
      else if e.key < k then (if Has(r, k) then RebalanceAfterExtract(Bin(l, e, Extract(r, k))) else s)
      else ExtractRoot(s)
  }

  /** Removal takes out exactly the entry with that key. */
  lemma {:induction false} ExtractCutsOut<T>(s: Tree<T>, k: int)
    requires Ordered(s)
    ensures !Has(s, k) ==> Extract(s, k) == s
    ensures Has(s, k) ==> Rank(s, k) < Size(s) && Entries(Extract(s, k)) == Without(Entries(s), Rank(s, k))
    decreases s, 1
  {
    RankInRange(s, k);
    if s.Bin? && Has(s, k) {
      OrderedParts(s);
      if k < s.entry.key {
        ExtractCutsOut(s.left, k);
        CutOnLeft(s, k);
      } else if s.entry.key < k {
        ExtractCutsOut(s.right, k);
        CutOnRight(s, k);
      } else {
        ExtractRootCutsOut(s);
      }
    }
  }

  lemma CutOnLeft<T>(s: Tree<T>, k: int)
    requires s.Bin? && k < s.entry.key && Has(s.left, k) && Rank(s.left, k) < Size(s.left)
    requires Entries(Extract(s.left, k)) == Without(Entries(s.left), Rank(s.left, k))
    ensures Entries(Extract(s, k)) == Without(Entries(s), Rank(s, k))
  {
    WithoutInLeft(Entries(s.left), s.entry, Entries(s.right), Rank(s.left, k));
    assert Extract(s, k) == RebalanceAfterExtract(Bin(Extract(s.left, k), s.entry, s.right));
  }

  lemma CutOnRight<T>(s: Tree<T>, k: int)
    requires s.Bin? && s.entry.key < k && Has(s.right, k) && Rank(s.right, k) < Size(s.right)
    requires Entries(Extract(s.right, k)) == Without(Entries(s.right), Rank(s.right, k))
    ensures Entries(Extract(s, k)) == Without(Entries(s), Rank(s, k))
  {
    WithoutInRight(Entries(s.left), s.entry, Entries(s.right), Rank(s.right, k));
    assert Extract(s, k) == RebalanceAfterExtract(Bin(s.left, s.entry, Extract(s.right, k)));
  }

  lemma {:induction false} ExtractRootCutsOut<T>(s: Tree<T>)
    requires s.Bin? && Ordered(s)
    ensures Entries(ExtractRoot(s)) == Without(Entries(s), Size(s.left))
    decreases s, 0
  {
    var l, r := Entries(s.left), Entries(s.right);
    WithoutMiddle(l, s.entry, r);
    if s.left.Bin? && s.right.Bin? {
      OrderedParts(s);
      LeastIsHeld(s.right);
      ExtractCutsOut(s.right, Least(s.right).key);
    } else if s.left.Bin? {
      assert l + r == l;
    } else {
      assert l + r == r;
    }
  }

  lemma ExtractKeepsOrder<T>(s: Tree<T>, k: int)
    requires Ordered(s)
    ensures Ordered(Extract(s, k))
  {
    ExtractCutsOut(s, k);
    if Has(s, k) {
      WithoutStaysAscending(Entries(s), Rank(s, k));
    }
  }

  /** Removal keeps the tree balanced and costs at most one level. */
  lemma {:induction false} ExtractKeepsBalance<T>(s: Tree<T>, k: int)
    requires Avl(s)
    ensures Avl(Extract(s, k)) && Height(s) - 1 <= Height(Extract(s, k)) <= Height(s)
    decreases s, 1
  {
    if s.Bin? && Has(s, k) {
      if k < s.entry.key {
        ExtractKeepsBalance(s.left, k);
        RebalanceRestores(Bin(Extract(s.left, k), s.entry, s.right));
      } else if s.entry.key < k {
        ExtractKeepsBalance(s.right, k);
        RebalanceRestores(Bin(s.left, s.entry, Extract(s.right, k)));
      } else {
        ExtractRootKeepsBalance(s);
      }
    }
  }

  lemma {:induction false} ExtractRootKeepsBalance<T>(s: Tree<T>)
    requires Avl(s) && s.Bin?
    ensures Avl(ExtractRoot(s)) && Height(s) - 1 <= Height(ExtractRoot(s)) <= Height(s)
    decreases s, 0
  {
    if s.left.Bin? && s.right.Bin? {
      ExtractKeepsBalance(s.right, Least(s.right).key);
      RebalanceRestores(Bin(s.left, Least(s.right), Extract(s.right, Least(s.right).key)));
    }
  }

  // ---- Erasing many -------------------------------------------------------------------------------

  /** Drops every doomed entry. Survivors stay where they are; only a node that goes is rebalanced. */
  function EraseIf<T>(s: Tree<T>, doomed: set<int>): Tree<T> {
    match s
    case Nil => Nil
    case Bin(l, e, r) =>
      var t := Bin(EraseIf(l, doomed), e, EraseIf(r, doomed));
      if e.key in doomed then ExtractRoot(t) else t
  }

  /** Contents and order survive; balance is not promised. */
  lemma {:induction false} EraseIfKeepsRest<T>(s: Tree<T>, doomed: set<int>)
    requires Ordered(s)
    ensures Entries(EraseIf(s, doomed)) == Kept(Entries(s), doomed) && Ordered(EraseIf(s, doomed))
  {
    KeptStaysAscending(Entries(s), doomed);
    if s.Bin? {
      OrderedParts(s);
      EraseIfKeepsRest(s.left, doomed);
      EraseIfKeepsRest(s.right, doomed);
      KeptAround(Entries(s.left), s.entry, Entries(s.right), doomed);
      if s.entry.key in doomed {
        var t := Bin(EraseIf(s.left, doomed), s.entry, EraseIf(s.right, doomed));
        KeptStaysBefore(Entries(s.left), s.entry.key, doomed);
        KeptStaysAfter(Entries(s.right), s.entry.key + 1, doomed);
        PartsOrdered(t.left, s.entry, t.right);
        ExtractRootCutsOut(t);
        WithoutMiddle(Entries(t.left), s.entry, Entries(t.right));
      }
    }
  }

  // ---- Joining and splitting ----------------------------------------------------------------------

  function JoinWithRoot<T>(l: Tree<T>, e: Entry<T>, r: Tree<T>): (t: Tree<T>)
    ensures t.Bin? && Entries(t) == Entries(l) + [e] + Entries(r)
    decreases Height(l) + Height(r)
  {
    if Height(l) > Height(r) + 1 then
      Reassociates(Entries(l.left), l.entry, Entries(l.right), e, Entries(r));
      RebalanceAfterExtract(Bin(l.left, l.entry, JoinWithRoot(l.right, e, r)))
    else if Height(r) > Height(l) + 1 then
      Reassociates(Entries(l), e, Entries(r.left), r.entry, Entries(r.right));
      RebalanceAfterExtract(Bin(JoinWithRoot(l, e, r.left), r.entry, r.right))
    else Bin(l, e, r)
  }

  /** The joined tree is balanced and at most one level higher than the higher of the two. */
  lemma {:induction false} JoinWithRootBalances<T>(l: Tree<T>, e: Entry<T>, r: Tree<T>)
    requires Avl(l) && Avl(r)
    ensures Avl(JoinWithRoot(l, e, r))
    ensures Larger(Height(l), Height(r)) <= Height(JoinWithRoot(l, e, r)) <= Larger(Height(l), Height(r)) + 1
    decreases Height(l) + Height(r)
  {
    if Height(l) > Height(r) + 1 {
      JoinWithRootBalances(l.right, e, r);
      JoinedDownLeft(l, e, r);
    } else if Height(r) > Height(l) + 1 {
      JoinWithRootBalances(l, e, r.left);
      JoinedDownRight(l, e, r);
    }
  }

  lemma JoinedDownLeft<T>(l: Tree<T>, e: Entry<T>, r: Tree<T>)
    requires Avl(l) && Height(l) > Height(r) + 1 && Avl(JoinWithRoot(l.right, e, r))
    requires Height(l.right) <= Height(JoinWithRoot(l.right, e, r)) <= Height(l.right) + 1
    ensures Avl(JoinWithRoot(l, e, r)) && Height(l) <= Height(JoinWithRoot(l, e, r)) <= Height(l) + 1
  {
    DeepJoin(l.left, l.entry, l.right, JoinWithRoot(l.right, e, r));
    RebalanceRestores(Bin(l.left, l.entry, JoinWithRoot(l.right, e, r)));
  }

  lemma JoinedDownRight<T>(l: Tree<T>, e: Entry<T>, r: Tree<T>)
    requires Avl(r) && Height(r) > Height(l) + 1 && Avl(JoinWithRoot(l, e, r.left))
    requires Height(r.left) <= Height(JoinWithRoot(l, e, r.left)) <= Height(r.left) + 1
    ensures Avl(JoinWithRoot(l, e, r)) && Height(r) <= Height(JoinWithRoot(l, e, r)) <= Height(r) + 1
  {
    DeepJoin(r.right, r.entry, r.left, JoinWithRoot(l, e, r.left));
    RebalanceRestores(Bin(JoinWithRoot(l, e, r.left), r.entry, r.right));
  }

  /** A branch that grew by at most a level leans by at most two. */
  lemma DeepJoin<T>(other: Tree<T>, e: Entry<T>, was: Tree<T>, now: Tree<T>)
    requires -1 <= Height(other) - Height(was) <= 1 && Height(was) <= Height(now) <= Height(was) + 1
    ensures -2 <= Lean(Bin(other, e, now)) <= 2 && -2 <= Lean(Bin(now, e, other)) <= 2
    ensures 1 + Larger(Height(other), Height(was)) <= Height(Bin(other, e, now))
                                                 <= 2 + Larger(Height(other), Height(was))
  {
  }

  function Join<T>(l: Tree<T>, r: Tree<T>): Tree<T>
    decreases Height(l) + Height(r)
  {
    if l.Nil? then r
    else if r.Nil? then l
    else if Height(l) > Height(r) + 1 then RebalanceAfterExtract(Bin(l.left, l.entry, Join(l.right, r)))
    else if Height(r) > Height(l) + 1 then RebalanceAfterExtract(Bin(Join(l, r.left), r.entry, r.right))
    else JoinWithRoot(l, Least(r), Extract(r, Least(r).key))
  }

  lemma {:induction false} JoinConcatenates<T>(l: Tree<T>, r: Tree<T>)
    requires Ordered(r)
    ensures Entries(Join(l, r)) == Entries(l) + Entries(r)
    decreases Height(l) + Height(r)
  {
    if l.Nil? {
      assert Entries(l) + Entries(r) == Entries(r);
    } else if r.Nil? {
      assert Entries(l) + Entries(r) == Entries(l);
    } else if Height(l) > Height(r) + 1 {
      JoinConcatenates(l.right, r);
      ConcatRegroups(Entries(l.left), l.entry, Entries(l.right), Entries(r));
    } else if Height(r) > Height(l) + 1 {
      OrderedParts(r);
      JoinConcatenates(l, r.left);
      ConcatRegroupsRight(Entries(l), Entries(r.left), r.entry, Entries(r.right));
    } else {
      LeastIsHeld(r);
      ExtractCutsOut(r, Least(r).key);
      WithoutMiddle(Entries(l), Least(r), Entries(r));
    }
  }

  lemma ConcatRegroups<T>(a: seq<T>, x: T, b: seq<T>, c: seq<T>)
    ensures a + [x] + (b + c) == a + [x] + b + c
  {
  }

  lemma ConcatRegroupsRight<T>(a: seq<T>, b: seq<T>, x: T, c: seq<T>)
    ensures a + b + [x] + c == a + (b + [x] + c)
  {
  }

  lemma {:induction false} JoinBalances<T>(l: Tree<T>, r: Tree<T>)
    requires Avl(l) && Avl(r)
    ensures Avl(Join(l, r))
    ensures Larger(Height(l), Height(r)) <= Height(Join(l, r)) <= Larger(Height(l), Height(r)) + 1
    decreases Height(l) + Height(r)
  {
    if l.Bin? && r.Bin? {
      if Height(l) > Height(r) + 1 {
        JoinBalances(l.right, r);
        DeepJoin(l.left, l.entry, l.right, Join(l.right, r));
        RebalanceRestores(Bin(l.left, l.entry, Join(l.right, r)));
      } else if Height(r) > Height(l) + 1 {
        JoinBalances(l, r.left);
        DeepJoin(r.right, r.entry, r.left, Join(l, r.left));
        RebalanceRestores(Bin(Join(l, r.left), r.entry, r.right));
      } else {
        JoinOnLeastBalances(l, r);
      }
    }
  }

  lemma JoinOnLeastBalances<T>(l: Tree<T>, r: Tree<T>)
    requires Avl(l) && Avl(r) && r.Bin? && -1 <= Height(l) - Height(r) <= 1
    ensures var t := JoinWithRoot(l, Least(r), Extract(r, Least(r).key));
            Avl(t) && Larger(Height(l), Height(r)) <= Height(t) <= Larger(Height(l), Height(r)) + 1
  {
    ExtractKeepsBalance(r, Least(r).key);
    JoinWithRootBalances(l, Least(r), Extract(r, Least(r).key));
    JoinAtLevel(l, Least(r), Extract(r, Least(r).key));
  }

  /** Two trees no more than a level apart meet right at the root. */
  lemma JoinAtLevel<T>(l: Tree<T>, e: Entry<T>, r: Tree<T>)
    ensures -1 <= Height(l) - Height(r) <= 1 ==> Height(JoinWithRoot(l, e, r)) == 1 + Larger(Height(l), Height(r))
  {
  }

  function Split<T>(s: Tree<T>, k: int): (Tree<T>, Tree<T>) {
    match s
    case Nil => (Nil, Nil)
    case Bin(l, e, r) =>
      if e.key < k then
        var (below, above) := Split(r, k);
        (JoinWithRoot(l, e, below), above)
      else
        var (below, above) := Split(l, k);
        (below, JoinWithRoot(above, e, r))
  }

  /** A split cuts the in-order sequence in two, and both halves are balanced. */
  lemma {:induction false} SplitCuts<T>(s: Tree<T>, k: int)
    ensures Entries(Split(s, k).0) + Entries(Split(s, k).1) == Entries(s)
  {
    if s.Bin? {
      if s.entry.key < k {
        SplitCuts(s.right, k);
        var (below, above) := Split(s.right, k);
        AppendedOnRight(Entries(s.left), s.entry, Entries(below), Entries(above), Entries(s.right));
      } else {
        SplitCuts(s.left, k);
        var (below, above) := Split(s.left, k);
        AppendedOnLeft(Entries(below), Entries(above), s.entry, Entries(s.right), Entries(s.left));
      }
    }
  }

  lemma {:induction false} SplitSeparates<T>(s: Tree<T>, k: int)
    requires Ordered(s)
    ensures Before(Entries(Split(s, k).0), k) && From(Entries(Split(s, k).1), k)
  {
    if s.Bin? {
      OrderedParts(s);
      if s.entry.key < k {
        SplitSeparates(s.right, k);
        BeforeAround(Entries(s.left), s.entry, Entries(Split(s.right, k).0), k);
      } else {
        SplitSeparates(s.left, k);
        FromAround(Entries(Split(s.left, k).1), s.entry, Entries(s.right), k);
      }
    }
  }

  lemma {:induction false} SplitBalances<T>(s: Tree<T>, k: int)
    requires Avl(s)
    ensures Avl(Split(s, k).0) && Avl(Split(s, k).1)
  {
    if s.Bin? {
      if s.entry.key < k {
        SplitBalances(s.right, k);
        JoinWithRootBalances(s.left, s.entry, Split(s.right, k).0);
      } else {
        SplitBalances(s.left, k);
        JoinWithRootBalances(Split(s.left, k).1, s.entry, s.right);
      }
    }
  }

  function EraseRange<T>(s: Tree<T>, lower: int, upper: int): (Tree<T>, Tree<T>) {
    var (below, rest) := Split(s, lower);
    var (within, above) := Split(rest, upper);
    (Join(below, above), within)
  }

  /** What is dropped is exactly the keys in [lower, upper), and the rest stays in order and balanced. */
  lemma EraseRangeIsExact<T>(s: Tree<T>, lower: int, upper: int)
    requires Ordered(s)
    ensures var (rest, gone) := EraseRange(s, lower, upper);
            && Entries(rest) == Kept(Entries(s), KeysIn(lower, upper)) && Ordered(rest)
            && From(Entries(gone), lower) && Before(Entries(gone), upper) && Size(rest) + Size(gone) == Size(s)
            && (Avl(s) ==> Avl(rest))
  {
    var (below, notBelow) := Split(s, lower);
    var (within, above) := Split(notBelow, upper);
    SplitCuts(s, lower);
    SplitSeparates(s, lower);
    SliceAscends(Entries(below), Entries(notBelow));
    SplitCuts(notBelow, upper);
    SplitSeparates(notBelow, upper);
    SliceAscends(Entries(within), Entries(above));
    JoinConcatenates(below, above);
    if Avl(s) {
      SplitBalances(s, lower);
      SplitBalances(notBelow, upper);
      JoinBalances(below, above);
    }
    KeptOutside(Entries(below), Entries(notBelow), Entries(within), Entries(above), lower, upper);
    KeptStaysAscending(Entries(s), KeysIn(lower, upper));
  }

  // ---- Height -------------------------------------------------------------------------------------

  function Fib(n: nat): nat {
    if n < 2 then n else Fib(n - 1) + Fib(n - 2)
  }

  lemma {:induction false} FibGrows(n: nat)
    ensures Fib(n) <= Fib(n + 1)
  {
    if n > 1 {
      FibGrows(n - 1);
    }
  }

  lemma {:induction false} FewEnough<T>(s: Tree<T>)
    ensures Size(s) < Pow2(Height(s))
  {
    if s.Bin? {
      FewEnough(s.left);
      FewEnough(s.right);
      Pow2Grows(Height(s.left), Height(s) - 1);
      Pow2Grows(Height(s.right), Height(s) - 1);
    }
  }

  lemma {:induction false} ManyEnough<T>(s: Tree<T>)
    requires Avl(s)
    ensures Fib(Height(s) + 2) <= Size(s) + 1
  {
    if s.Bin? {
      ManyEnough(s.left);
      ManyEnough(s.right);
      FibStep(Height(s.left), Height(s.right), Height(s));
    }
  }

  lemma FibStep(left: nat, right: nat, h: nat)
    requires h == 1 + Larger(left, right) && -1 <= left - right <= 1
    ensures Fib(h + 2) <= Fib(left + 2) + Fib(right + 2)
  {
    FibGrows(h);
    FibGrows(h + 1);
  }

  /** Fib(h + 2) - 1 <= n < 2^h for an AVL tree of n entries and height h. */
  lemma AvlIsShallow<T>(s: Tree<T>)
    requires Avl(s)
    ensures Fib(Height(s) + 2) - 1 <= Size(s) < Pow2(Height(s))
  {
    FewEnough(s);
    ManyEnough(s);
  }
}
