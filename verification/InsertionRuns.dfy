/** Exactly when an insertion into an AVL tree finds every node its rotations turn. On a balanced tree it always
    does; after an erasure by predicate it may not. */
module InsertionRuns {
  import opened OrderedTrees
  import opened HeightBalance

  // ---- One level up -------------------------------------------------------------------------------

  lemma HeldAt<T>(s: Tree<T>, i: nat)
    requires Ordered(s) && i < Size(s)
    ensures Has(s, Entries(s)[i].key)
  {
    RankUndoesSelect(s, i);
    SelectIsIndex(s, i);
    RankSplits(s, Entries(s)[i].key);
  }

  lemma InsertedIsHeld<T>(s: Tree<T>, e: Entry<T>)
    requires Ordered(s) && InsertRuns(s, e) && !Has(s, e.key)
    ensures Has(Insert(s, e), e.key)
  {
    InsertSplices(s, e);
    InsertKeepsOrder(s, e);
    WithIsSplice(Entries(s), Rank(s, e.key), e);
    HeldAt(Insert(s, e), Rank(s, e.key));
  }

  /** What a key just put into a branch leaves to be decided: the node is there wherever the tree leans towards the
      key, and where it leans away the other branch must have its inner child. */
  lemma PivotBeside<T>(t: Tree<T>, k: int)
    requires t.Bin? && (t.left.Bin? ==> t.left.entry.key < t.entry.key) && (t.right.Bin? ==> t.entry.key < t.right.entry.key)
    ensures k < t.entry.key && Has(t.left, k) ==>
              (PivotExists(t, k) <==> (Height(t.right) > Height(t.left) + 1 ==> t.right.left.Bin?))
    ensures t.entry.key < k && Has(t.right, k) ==>
              (PivotExists(t, k) <==> (Height(t.left) > Height(t.right) + 1 ==> t.left.right.Bin?))
  {
    if Has(t.left, k) {
      HeldBelow(t.left, k);
    }
    if Has(t.right, k) {
      HeldBelow(t.right, k);
    }
  }

  lemma HeldBelow<T>(s: Tree<T>, k: int)
    requires Has(s, k)
    ensures s.Bin? && (k < s.entry.key ==> s.left.Bin?) && (s.entry.key < k ==> s.right.Bin?)
  {
  }

  /** One level of an insertion into the left branch of an ordered tree: it runs unless it leaves the right branch
      taller by two or more and without the inner child that the double rotation turns. On the new key's own side
      that node is never missing, however the tree leans. */
  lemma InsertRunsOnLeft<T>(s: Tree<T>, e: Entry<T>)
    requires Ordered(s) && s.Bin? && e.key < s.entry.key && !Has(s.left, e.key)
    ensures InsertRuns(s, e) <==>
              InsertRuns(s.left, e)
              && (Height(s.right) > Height(Insert(s.left, e)) + 1 ==> s.right.left.Bin?)
  {
    if InsertRuns(s.left, e) {
      InsertedOnLeftSide(s, e);
      PivotBeside(Bin(Insert(s.left, e), s.entry, s.right), e.key);
    }
  }

  lemma InsertRunsOnRight<T>(s: Tree<T>, e: Entry<T>)
    requires Ordered(s) && s.Bin? && s.entry.key < e.key && !Has(s.right, e.key)
    ensures InsertRuns(s, e) <==>
              InsertRuns(s.right, e)
              && (Height(s.left) > Height(Insert(s.right, e)) + 1 ==> s.left.right.Bin?)
  {
    if InsertRuns(s.right, e) {
      InsertedOnRightSide(s, e);
      PivotBeside(Bin(s.left, s.entry, Insert(s.right, e)), e.key);
    }
  }

  lemma RootIsAnEntry<T>(s: Tree<T>, k: int)
    requires s.Bin?
    ensures Before(Entries(s), k) ==> s.entry.key < k
    ensures After(Entries(s), k) ==> k < s.entry.key
  {
    EntryAt(s, Size(s.left));
  }

  lemma WithStaysBefore<T>(es: seq<Entry<T>>, at: nat, e: Entry<T>, k: int)
    requires at <= |es| && Before(es, k) && e.key < k
    ensures Before(With(es, at, e), k)
  {
    WithIsSplice(es, at, e);
  }

  lemma WithStaysFrom<T>(es: seq<Entry<T>>, at: nat, e: Entry<T>, k: int)
    requires at <= |es| && From(es, k) && k <= e.key
    ensures From(With(es, at, e), k)
  {
    WithIsSplice(es, at, e);
  }

  lemma InsertedOnLeftSide<T>(s: Tree<T>, e: Entry<T>)
    requires Ordered(s) && s.Bin? && e.key < s.entry.key && !Has(s.left, e.key) && InsertRuns(s.left, e)
    ensures var l := Insert(s.left, e);
            Has(l, e.key) && (l.Bin? ==> l.entry.key < s.entry.key) && (s.right.Bin? ==> s.entry.key < s.right.entry.key)
  {
    OrderedParts(s);
    InsertedIsHeld(s.left, e);
    InsertSplices(s.left, e);
    WithStaysBefore(Entries(s.left), Rank(s.left, e.key), e, s.entry.key);
    if Insert(s.left, e).Bin? {
      RootIsAnEntry(Insert(s.left, e), s.entry.key);
    }
    if s.right.Bin? {
      RootIsAnEntry(s.right, s.entry.key);
    }
  }

  lemma InsertedOnRightSide<T>(s: Tree<T>, e: Entry<T>)
    requires Ordered(s) && s.Bin? && s.entry.key < e.key && !Has(s.right, e.key) && InsertRuns(s.right, e)
    ensures var r := Insert(s.right, e);
            Has(r, e.key) && (r.Bin? ==> s.entry.key < r.entry.key) && (s.left.Bin? ==> s.left.entry.key < s.entry.key)
  {
    OrderedParts(s);
    InsertedIsHeld(s.right, e);
    InsertSplices(s.right, e);
    WithStaysFrom(Entries(s.right), Rank(s.right, e.key), e, s.entry.key + 1);
    if Insert(s.right, e).Bin? {
      RootIsAnEntry(Insert(s.right, e), s.entry.key);
    }
    if s.left.Bin? {
      RootIsAnEntry(s.left, s.entry.key);
    }
  }

  /** No branch beside the way to a key is three or more levels tall without a child on the inner side. */
  predicate NoSpurs<T>(s: Tree<T>, k: int) {
    match s
    case Nil => true
    case Bin(l, e, r) =>
      if k < e.key then NoSpurs(l, k) && (Height(r) > 2 ==> r.left.Bin?)
      else if e.key < k then NoSpurs(r, k) && (Height(l) > 2 ==> l.right.Bin?)
      else true
  }

  /** That is enough for an insertion to run, and balanced trees have no such branch. */
  lemma {:induction false} InsertRunsWithoutSpurs<T>(s: Tree<T>, e: Entry<T>)
    requires Ordered(s) && NoSpurs(s, e.key)
    ensures InsertRuns(s, e)
  {
    if s.Bin? {
      OrderedParts(s);
      if e.key < s.entry.key && !Has(s.left, e.key) {
        InsertRunsWithoutSpurs(s.left, e);
        InsertedIsHeld(s.left, e);
        InsertRunsOnLeft(s, e);
      } else if s.entry.key < e.key && !Has(s.right, e.key) {
        InsertRunsWithoutSpurs(s.right, e);
        InsertedIsHeld(s.right, e);
        InsertRunsOnRight(s, e);
      }
    }
  }

  lemma {:induction false} BalancedHasNoSpurs<T>(s: Tree<T>, k: int)
    requires Avl(s)
    ensures NoSpurs(s, k)
  {
    if s.Bin? {
      BalancedHasNoSpurs(s.left, k);
      BalancedHasNoSpurs(s.right, k);
    }
  }

  // ---- Runs by key alone --------------------------------------------------------------------------

  /** A shape with nothing but its keys, which is all that an insertion's rotations look at. */
  function Bare<T>(s: Tree<T>): Tree<()> {
    match s
    case Nil => Nil
    case Bin(l, e, r) => Bin(Bare(l), Key(e.key), Bare(r))
  }

  function Key(k: int): Entry<()> {
    Entry(k, ())
  }

  lemma {:induction false} BareHas<T>(s: Tree<T>, k: int)
    ensures Has(Bare(s), k) <==> Has(s, k)
  {
    if s.Bin? {
      BareHas(s.left, k);
      BareHas(s.right, k);
    }
  }

  lemma {:induction false} BareHeight<T>(s: Tree<T>)
    ensures Height(Bare(s)) == Height(s)
    ensures Avl(Bare(s)) <==> Avl(s)
  {
    if s.Bin? {
      BareHeight(s.left);
      BareHeight(s.right);
    }
  }

  lemma BareRebalance<T>(s: Tree<T>, k: int)
    ensures PivotExists(Bare(s), k) <==> PivotExists(s, k)
    ensures PivotExists(s, k) ==> Bare(RebalanceOnInsert(s, k)) == RebalanceOnInsert(Bare(s), k)
  {
    if s.Bin? {
      BareHeight(s.left);
      BareHeight(s.right);
    }
  }

  /** Whether the container can insert a key. */
  predicate Admits<T>(s: Tree<T>, k: int) {
    InsertRuns(Bare(s), Key(k))
  }

  /** Whether an insertion runs, and the shape it leaves, depend on keys alone. */
  lemma {:induction false} InsertLooksAtKeys<T>(s: Tree<T>, e: Entry<T>)
    ensures Admits(s, e.key) <==> InsertRuns(s, e)
    ensures InsertRuns(s, e) ==> Bare(Insert(s, e)) == Insert(Bare(s), Key(e.key))
  {
    if s.Bin? {
      if e.key < s.entry.key {
        BareHas(s.left, e.key);
        InsertLooksAtKeys(s.left, e);
        if InsertRuns(s.left, e) {
          BareRebalance(Bin(Insert(s.left, e), s.entry, s.right), e.key);
        }
      } else if s.entry.key < e.key {
        BareHas(s.right, e.key);
        InsertLooksAtKeys(s.right, e);
        if InsertRuns(s.right, e) {
          BareRebalance(Bin(s.left, s.entry, Insert(s.right, e)), e.key);
        }
      }
    }
  }

  /** What an admitted insertion leaves. */
  lemma InsertedShape<T>(s: Tree<T>, e: Entry<T>)
    requires Admits(s, e.key)
    ensures InsertRuns(s, e) && Bare(Insert(s, e)) == Insert(Bare(s), Key(e.key))
    ensures Has(s, e.key) ==> Insert(s, e) == s
    ensures Avl(s) ==> Avl(Insert(s, e))
  {
    InsertLooksAtKeys(s, e);
    InsertSplices(s, e);
    if Avl(s) {
      InsertKeepsBalance(s, e);
    }
  }

  lemma BalancedAdmits<T>(s: Tree<T>, k: int)
    requires Avl(s)
    ensures Admits(s, k)
  {
    BareHeight(s);
    InsertKeepsBalance(Bare(s), Key(k));
  }

  lemma HeldIsAdmitted<T>(s: Tree<T>, k: int)
    requires Has(s, k)
    ensures Admits(s, k)
  {
    BareHas(s, k);
    InsertRunsBelow(Bare(s), Key(k));
  }

  /** A key already there adds nothing. */
  lemma HeldAddsNothing<T>(s: Tree<T>, k: int)
    ensures Has(s, k) ==> Admits(s, k) && Insert(Bare(s), Key(k)) == Bare(s)
  {
    if Has(s, k) {
      HeldIsAdmitted(s, k);
      BareHas(s, k);
      InsertSplices(Bare(s), Key(k));
    }
  }

  // ---- Taking in a whole tree ---------------------------------------------------------------------

  /** Whether a tree can take in another one's keys one by one: each node after the two branches below it. */
  predicate TakeInRuns(s: Tree<()>, t: Tree<()>)
    decreases t, 0
  {
    t.Bin? ==>
      && TakeInRuns(s, t.left)
      && TakeInRuns(TakenIn(s, t.left), t.right)
      && InsertRuns(TakenIn(TakenIn(s, t.left), t.right), t.entry)
  }

  function TakenIn(s: Tree<()>, t: Tree<()>): Tree<()>
    requires TakeInRuns(s, t)
    decreases t, 1
  {
    if t.Nil? then s else Insert(TakenIn(TakenIn(s, t.left), t.right), t.entry)
  }

  /** A balanced tree takes in any other, and stays balanced. */
  lemma {:induction false} BalancedTakesIn(s: Tree<()>, t: Tree<()>)
    requires Avl(s)
    ensures TakeInRuns(s, t) && Avl(TakenIn(s, t))
    decreases t
  {
    if t.Bin? {
      BalancedTakesIn(s, t.left);
      BalancedTakesIn(TakenIn(s, t.left), t.right);
      InsertKeepsBalance(TakenIn(TakenIn(s, t.left), t.right), t.entry);
    }
  }

  lemma TakenInBalance<T>(s: Tree<T>, t: Tree<T>, u: Tree<T>)
    requires Avl(s)
    ensures TakeInRuns(Bare(s), Bare(t))
    ensures Bare(u) == TakenIn(Bare(s), Bare(t)) ==> Avl(u)
  {
    BareHeight(s);
    BareHeight(u);
    BalancedTakesIn(Bare(s), Bare(t));
  }

  /** Every key of the second tree is one of the first. */
  predicate HoldsAll<T>(s: Tree<T>, t: Tree<T>) {
    t.Bin? ==> Has(s, t.entry.key) && HoldsAll(s, t.left) && HoldsAll(s, t.right)
  }

  /** Taking in nothing new turns nothing. */
  lemma {:induction false} HeldAreTakenIn(s: Tree<()>, t: Tree<()>)
    requires HoldsAll(s, t)
    ensures TakeInRuns(s, t) && TakenIn(s, t) == s
  {
    if t.Bin? {
      HeldAreTakenIn(s, t.left);
      HeldAreTakenIn(s, t.right);
      InsertRunsBelow(s, t.entry);
      InsertSplices(s, t.entry);
    }
  }

  lemma {:induction false} BareHoldsAll<T>(s: Tree<T>, t: Tree<T>)
    ensures HoldsAll(Bare(s), Bare(t)) <==> HoldsAll(s, t)
  {
    if t.Bin? {
      BareHas(s, t.entry.key);
      BareHoldsAll(s, t.left);
      BareHoldsAll(s, t.right);
    }
  }
}
