/** The AVL container: what its calls, its merges and its all-or-nothing batches do to the finite map it
    stands for. */
module AvlContainer {
  import opened OrderedTrees
  import H = HeightBalance
  import M = AvlMerging
  import R = InsertionRuns
  import B = ErasedBalance
  import opened Batches
  import opened AvlTree
  import opened AvlMergeInPlace
  import opened AvlSpines
  import opened AvlWalk
  import AvlErasing

  lemma ItemsTail(es: seq<Entry<Node>>)
    requires es != []
    ensures Items(es) == {es[0].item} + Items(es[1..])
  {
    assert es == [es[0]] + es[1..];
    ItemsOfOne(es[0]);
    ItemsConcat([es[0]], es[1..]);
  }

  /** The finite map an in-order sequence stands for, with what its nodes store now. */
  ghost function ContentsOf(es: seq<Entry<Node>>): map<int, int>
    reads Items(es)`payload
  {
    if es == [] then map[]
    else
      ItemsTail(es);
      ContentsOf(es[1..])[es[0].key := es[0].item.payload]
  }

  lemma {:induction false} ContentsFrom(es: seq<Entry<Node>>, k: int)
    requires From(es, k)
    ensures forall x :: x in ContentsOf(es) ==> k <= x
  {
    if es != [] {
      ContentsFrom(es[1..], k);
    }
  }

  lemma {:induction false} ContentsKept(es: seq<Entry<Node>>, doomed: set<int>)
    ensures ContentsOf(Kept(es, doomed)) == ContentsOf(es) - doomed
  {
    if es != [] {
      ContentsKept(es[1..], doomed);
      var e, rest := es[0], Kept(es[1..], doomed);
      assert ([e] + rest)[1..] == rest;
      assert Kept(es, doomed) == if e.key in doomed then rest else [e] + rest;
    }
  }

  lemma {:induction false} ContentsWith(es: seq<Entry<Node>>, at: nat, e: Entry<Node>)
    requires at <= |es| && forall i :: 0 <= i < |es| ==> es[i].key != e.key
    ensures ContentsOf(With(es, at, e)) == ContentsOf(es)[e.key := e.item.payload]
  {
    if at == 0 {
      assert ([e] + es)[1..] == es;
    } else {
      ContentsWith(es[1..], at - 1, e);
      assert ([es[0]] + With(es[1..], at - 1, e))[1..] == With(es[1..], at - 1, e);
    }
  }

  lemma {:induction false} ContentsConcat(a: seq<Entry<Node>>, b: seq<Entry<Node>>)
    ensures ContentsOf(a + b) == ContentsOf(b) + ContentsOf(a)
  {
    if a == [] {
      assert a + b == b;
    } else {
      assert (a + b)[1..] == a[1..] + b;
      ContentsConcat(a[1..], b);
    }
  }

  lemma ContentsAround(a: seq<Entry<Node>>, n: Node, b: seq<Entry<Node>>)
    ensures ContentsOf(a + [Of(n)] + b) == ContentsOf(b) + (map[n.key := n.payload] + ContentsOf(a))
  {
    ContentsConcat(a + [Of(n)], b);
    ContentsConcat(a, [Of(n)]);
    assert [Of(n)][1..] == [];
    assert ContentsOf([Of(n)]) == map[n.key := n.payload];
  }

  lemma ContentsSides(a: seq<Entry<Node>>, k: int, b: seq<Entry<Node>>)
    requires Before(a, k) && After(b, k)
    ensures ContentsOf(a).Keys !! ContentsOf(b).Keys && k !in ContentsOf(a) && k !in ContentsOf(b)
  {
    forall x | x in ContentsOf(a)
      ensures x < k
    {
      ContentsHave(a, x);
    }
    ContentsFrom(b, k + 1);
  }

  lemma MapsMeet(m: map<int, int>, k: int, v: int)
    ensures map[k := v] + m == if k in m then m else m[k := v]
    ensures m + map[k := v] == m[k := v]
  {
  }

  lemma MapsAround(a: map<int, int>, k: int, v: int, b: map<int, int>)
    requires a.Keys !! b.Keys && k !in a && k !in b
    ensures b + (map[k := v] + a) == (a + b)[k := v]
  {
  }

  /** Two maps in one; where both have a key, the second wins if it overwrites and the first otherwise. */
  function Blend(mine: map<int, int>, theirs: map<int, int>, overwrite: bool): map<int, int> {
    if overwrite then mine + theirs else theirs + mine
  }

  /** Blending in branch, branch and root one after another is blending in the whole tree. */
  lemma BlendsInParts(m: map<int, int>, a: map<int, int>, b: map<int, int>, k: int, v: int, overwrite: bool)
    requires a.Keys !! b.Keys && k !in a && k !in b
    ensures Blend(Blend(Blend(m, a, overwrite), b, overwrite), map[k := v], overwrite)
         == Blend(m, (a + b)[k := v], overwrite)
  {
  }

  /** The map of a node's tree is that of its branches and its own entry. */
  lemma ContentsOfNode(l: Tree<Node>, n: Node, r: Tree<Node>)
    requires Ordered(Bin(l, Of(n), r))
    ensures n.key !in ContentsOf(Entries(l)) && n.key !in ContentsOf(Entries(r))
    ensures ContentsOf(Entries(l)).Keys !! ContentsOf(Entries(r)).Keys
    ensures ContentsOf(Entries(Bin(l, Of(n), r)))
         == (ContentsOf(Entries(l)) + ContentsOf(Entries(r)))[n.key := n.payload]
  {
    OrderedParts(Bin(l, Of(n), r));
    ContentsAround(Entries(l), n, Entries(r));
    ContentsSides(Entries(l), n.key, Entries(r));
    MapsAround(ContentsOf(Entries(l)), n.key, n.payload, ContentsOf(Entries(r)));
  }

  lemma {:induction false} ContentsHave(es: seq<Entry<Node>>, k: int)
    ensures k in ContentsOf(es) <==> exists i :: 0 <= i < |es| && es[i].key == k
  {
    if es != [] {
      ContentsHave(es[1..], k);
      if k in ContentsOf(es[1..]) {
        var i :| 0 <= i < |es[1..]| && es[1..][i].key == k;
        assert es[i + 1].key == k;
      }
      if i :| 0 <= i < |es| && es[i].key == k && i > 0 {
        assert es[1..][i - 1].key == k;
      }
    }
  }

  /** The union of two maps without common keys. */
  lemma {:induction false} ContentsMerged(a: seq<Entry<Node>>, b: seq<Entry<Node>>)
    requires M.Apart(a, b)
    ensures ContentsOf(M.Merged(a, b)) == ContentsOf(a) + ContentsOf(b)
    decreases |a| + |b|
  {
    if a != [] && b != [] {
      if a[0].key < b[0].key {
        ContentsMerged(a[1..], b);
        ContentsHave(b, a[0].key);
        assert ([a[0]] + M.Merged(a[1..], b))[1..] == M.Merged(a[1..], b);
      } else {
        ContentsMerged(a, b[1..]);
        assert ([b[0]] + M.Merged(a, b[1..]))[1..] == M.Merged(a, b[1..]);
      }
    }
  }

  /** A map that agrees with every entry agrees with the contents. */
  lemma {:induction false} ContentsAgree(es: seq<Entry<Node>>, m: map<int, int>)
    requires forall i :: 0 <= i < |es| ==> es[i].key in m && m[es[i].key] == es[i].item.payload
    ensures forall k :: k in ContentsOf(es) ==> k in m && m[k] == ContentsOf(es)[k]
  {
    if es != [] {
      forall i | 0 <= i < |es[1..]|
        ensures es[1..][i].key in m && m[es[1..][i].key] == es[1..][i].item.payload
      {
        assert es[1..][i] == es[i + 1];
      }
      ContentsAgree(es[1..], m);
    }
  }

  /** Every entry of an ascending sequence is in its contents with its own payload. */
  lemma {:induction false} ContentsAt(es: seq<Entry<Node>>, i: nat)
    requires Ascending(es) && i < |es|
    ensures es[i].key in ContentsOf(es) && ContentsOf(es)[es[i].key] == es[i].item.payload
  {
    if i > 0 {
      ContentsAt(es[1..], i - 1);
      assert es[0].key < es[i].key;
    }
  }

  /** One node of a sequence stores something else; the rest of the map is as it was. */
  lemma ContentsAssigned(es: seq<Entry<Node>>, was: map<int, int>, n: Node)
    requires Ascending(es) && was.Keys == ContentsOf(es).Keys && n.key in was
    requires forall i :: 0 <= i < |es| ==> es[i].key in was && (es[i].item == n <==> es[i].key == n.key)
    requires forall i :: 0 <= i < |es| && es[i].item != n ==> was[es[i].key] == es[i].item.payload
    ensures ContentsOf(es) == was[n.key := n.payload]
  {
    var m := was[n.key := n.payload];
    ContentsAgree(es, m);
    assert m.Keys == was.Keys;
    forall k | k in ContentsOf(es)
      ensures k in m && m[k] == ContentsOf(es)[k]
    {
    }
  }

  lemma HasIsContents(s: Tree<Node>, k: int)
    requires Ordered(s)
    ensures Has(s, k) <==> k in ContentsOf(Entries(s))
  {
    RankSplits(s, k);
    ContentsHave(Entries(s), k);
  }

  // ---- Whole trees --------------------------------------------------------------------------------

  /** A search tree with exact links and heights, balanced or not. */
  ghost predicate Threaded(p: Node?, s: Tree<Node>)
    reads Nodes(s), Spare(p)
  {
    Linked(p, s) && NoParent(p) && Ordered(s) && Distinct(s)
  }

  method Find(root: Node?, key: int, ghost s: Tree<Node>) returns (found: Node?)
    requires Linked(root, s)
    ensures found != null <==> Has(s, key)
    ensures found != null ==> found.key == key && found in Nodes(s)
  {
    found := root;
    ghost var t := s;
    while found != null
      invariant Linked(found, t) && Nodes(t) <= Nodes(s) && (Has(t, key) <==> Has(s, key))
      decreases t
    {
      if key < found.key {
        found, t := found.left, t.left;
      } else if found.key < key {
        found, t := found.right, t.right;
      } else {
        break;
      }
    }
  }

  lemma InsertMeans(s: Tree<Node>, n: Node)
    requires Ordered(s) && Distinct(s) && H.InsertRuns(s, Of(n)) && !Has(s, n.key) && n !in Nodes(s)
    ensures var t := H.Insert(s, Of(n));
            && Ordered(t) && Distinct(t) && Size(t) == Size(s) + 1 && Nodes(t) == Nodes(s) + {n}
            && ContentsOf(Entries(t)) == ContentsOf(Entries(s))[n.key := n.payload]
  {
    H.InsertKeepsOrder(s, Of(n));
    InsertAddsNode(s, Of(n));
    H.InsertSplices(s, Of(n));
    RankSplits(s, n.key);
    NoneHas(s, n.key);
    WithLonger(Entries(s), Rank(s, n.key), Of(n));
    ContentsWith(Entries(s), Rank(s, n.key), Of(n));
  }

  lemma NoneHas(s: Tree<Node>, k: int)
    requires Ordered(s) && !Has(s, k)
    ensures forall i :: 0 <= i < Size(s) ==> Entries(s)[i].key != k
  {
    HasIsContents(s, k);
    ContentsHave(Entries(s), k);
  }

  lemma WithLonger(es: seq<Entry<Node>>, at: nat, e: Entry<Node>)
    requires at <= |es|
    ensures |With(es, at, e)| == |es| + 1
  {
    WithIsSplice(es, at, e);
  }

  /** Links a node in, or finds the one that has its key already. */
  method Place(p: Node?, n: Node, ghost s: Tree<Node>) returns (root: Node, found: Node, placement: Placement)
    requires Threaded(p, s) && n !in Nodes(s) && H.InsertRuns(s, Of(n))
    modifies (Nodes(s) + {n})`left, (Nodes(s) + {n})`right, (Nodes(s) + {n})`parent, (Nodes(s) + {n})`height
    ensures placement == if Has(s, n.key) then Matched else Made
    ensures placement == Matched ==> Threaded(root, s) && found in Nodes(s) && found.key == n.key
    ensures placement == Made ==> found == n && Threaded(root, H.Insert(s, Of(n)))
    ensures placement == Made ==> Nodes(H.Insert(s, Of(n))) == Nodes(s) + {n} && Size(H.Insert(s, Of(n))) == Size(s) + 1
    ensures placement == Made ==>
              ContentsOf(Entries(H.Insert(s, Of(n)))) == old(ContentsOf(Entries(s)))[n.key := n.payload]
  {
    ghost var t := if Has(s, n.key) then s else H.Insert(s, Of(n));
    if !Has(s, n.key) {
      InsertMeans(s, n);
    }
    NodesAreItems(s);
    NodesAreItems(t);
    AllocatedItems(Entries(t));
    root, found, placement := LinkIn(p, n, s);
  }

  method LinkIn(p: Node?, n: Node, ghost s: Tree<Node>) returns (root: Node, found: Node, placement: Placement)
    requires Linked(p, s) && NoParent(p) && Distinct(s) && H.InsertRuns(s, Of(n)) && n !in Nodes(s)
    requires !Has(s, n.key) ==> Distinct(H.Insert(s, Of(n))) && Nodes(H.Insert(s, Of(n))) == Nodes(s) + {n}
    modifies (Nodes(s) + {n})`left, (Nodes(s) + {n})`right, (Nodes(s) + {n})`parent, (Nodes(s) + {n})`height
    ensures placement == if Has(s, n.key) then Matched else Made
    ensures placement == Matched ==> Linked(root, s) && found in Nodes(s) && found.key == n.key
    ensures placement == Made ==> found == n && Linked(root, H.Insert(s, Of(n)))
    ensures root.parent == null
  {
    var top, at, how := FindOrMake(p, n.key, n, s);
    root, found, placement := top, at, how;
    Unparent(root, if how == Made then H.Insert(s, Of(n)) else s);
  }

  lemma ExtractMeans(s: Tree<Node>, k: int)
    requires Ordered(s) && Distinct(s)
    ensures var t := H.Extract(s, k);
            && Ordered(t) && Distinct(t) && Nodes(t) <= Nodes(s)
            && Size(t) == Size(s) - (if Has(s, k) then 1 else 0)
            && ContentsOf(Entries(t)) == ContentsOf(Entries(s)) - {k}
  {
    ExtractShape(s, k);
    ExtractDrops(s, k);
  }

  lemma ExtractShape(s: Tree<Node>, k: int)
    requires Ordered(s) && Distinct(s)
    ensures var t := H.Extract(s, k);
            Ordered(t) && Distinct(t) && Nodes(t) <= Nodes(s)
  {
    H.ExtractKeepsOrder(s, k);
    ExtractNodes(s, k);
  }

  lemma ExtractDrops(s: Tree<Node>, k: int)
    requires Ordered(s)
    ensures var t := H.Extract(s, k);
            && Size(t) == Size(s) - (if Has(s, k) then 1 else 0)
            && ContentsOf(Entries(t)) == ContentsOf(Entries(s)) - {k}
  {
    H.ExtractCutsOut(s, k);
    if !Has(s, k) {
      HasIsContents(s, k);
    } else {
      RankSplits(s, k);
      WithoutIsKept(Entries(s), Rank(s, k));
      WithoutIsCut(Entries(s), Rank(s, k));
      ContentsKept(Entries(s), {k});
    }
  }

  method Remove(p: Node?, key: int, ghost s: Tree<Node>) returns (root: Node?, extracted: Node?)
    requires Threaded(p, s)
    modifies Nodes(s)`left, Nodes(s)`right, Nodes(s)`parent, Nodes(s)`height
    ensures Threaded(root, H.Extract(s, key)) && Nodes(H.Extract(s, key)) <= Nodes(s)
    ensures Size(H.Extract(s, key)) == Size(s) - if extracted != null then 1 else 0
    ensures extracted != null <==> key in old(ContentsOf(Entries(s)))
    ensures extracted != null ==> extracted.key == key && Alone(extracted)
    ensures extracted != null ==> extracted in Nodes(s) && extracted !in Nodes(H.Extract(s, key))
    ensures ContentsOf(Entries(H.Extract(s, key))) == old(ContentsOf(Entries(s))) - {key}
  {
    ExtractMeans(s, key);
    HasIsContents(s, key);
    NodesAreItems(s);
    NodesAreItems(H.Extract(s, key));
    AllocatedItems(Entries(H.Extract(s, key)));
    root, extracted := Extract(p, key, s);
    if extracted != null {
      HeldIsNode(s, key, extracted);
    }
    Unparent(root, H.Extract(s, key));
  }

  method DropRange(p: Node?, lower: int, upper: int, ghost s: Tree<Node>) returns (rest: Node?, erased: seq<Node>)
    requires Threaded(p, s)
    modifies Nodes(s)`left, Nodes(s)`right, Nodes(s)`parent, Nodes(s)`height
    ensures Threaded(rest, H.EraseRange(s, lower, upper).0) && Nodes(H.EraseRange(s, lower, upper).0) <= Nodes(s)
    ensures |erased| == Size(s) - Size(H.EraseRange(s, lower, upper).0) && AreInRange(erased, s, lower, upper)
    ensures ContentsOf(Entries(H.EraseRange(s, lower, upper).0)) == old(ContentsOf(Entries(s))) - KeysIn(lower, upper)
  {
    RangeNodes(p, s, lower, upper);
    EraseRangeMeans(s, lower, upper);
    AllocatedItems(Entries(H.EraseRange(s, lower, upper).0));
    rest, erased := EraseRange(p, lower, upper, s);
  }

  /** The nodes handed over are exactly those with keys in the range. */
  ghost predicate AreInRange(erased: seq<Node>, s: Tree<Node>, lower: int, upper: int) {
    (set n | n in erased) == (set n | n in Nodes(s) && lower <= n.key < upper)
  }

  ghost predicate KeyedEntries(es: seq<Entry<Node>>) {
    forall i :: 0 <= i < |es| ==> es[i] == Of(es[i].item)
  }

  lemma KeyedSlices(a: seq<Entry<Node>>, b: seq<Entry<Node>>)
    requires KeyedEntries(a + b)
    ensures KeyedEntries(a) && KeyedEntries(b)
  {
    assert forall i :: 0 <= i < |a| ==> (a + b)[i] == a[i];
    assert forall i :: 0 <= i < |b| ==> (a + b)[|a| + i] == b[i];
  }

  lemma KeyedItems(es: seq<Entry<Node>>, n: Node)
    requires KeyedEntries(es) && n in Items(es)
    ensures forall k :: Before(es, k) ==> n.key < k
    ensures forall k :: From(es, k) ==> k <= n.key
  {
    var i :| 0 <= i < |es| && es[i].item == n;
    assert es[i].key == n.key;
  }

  /** A split sorts the nodes by their own keys. */
  lemma SplitSorts(s: Tree<Node>, k: int)
    requires Ordered(s) && Distinct(s) && KeyedEntries(Entries(s))
    ensures var (below, above) := H.Split(s, k);
            && Ordered(above) && Distinct(above) && KeyedEntries(Entries(above))
            && Nodes(below) == (set n | n in Nodes(s) && n.key < k)
            && Nodes(above) == (set n | n in Nodes(s) && k <= n.key)
  {
    var (below, above) := H.Split(s, k);
    SplitNodes(s, k);
    H.SplitCuts(s, k);
    H.SplitSeparates(s, k);
    SliceAscends(Entries(below), Entries(above));
    KeyedSlices(Entries(below), Entries(above));
    forall n | n in Nodes(below)
      ensures n.key < k
    {
      NodesAreItems(below);
      KeyedItems(Entries(below), n);
    }
    forall n | n in Nodes(above)
      ensures k <= n.key
    {
      NodesAreItems(above);
      KeyedItems(Entries(above), n);
    }
  }

  lemma RangeNodes(p: Node?, s: Tree<Node>, lower: int, upper: int)
    requires Linked(p, s) && Ordered(s) && Distinct(s)
    ensures Nodes(H.EraseRange(s, lower, upper).1) == set n | n in Nodes(s) && lower <= n.key < upper
  {
    EntriesKeyed(p, s);
    SplitSorts(s, lower);
    SplitSorts(H.Split(s, lower).1, upper);
  }

  lemma EraseRangeMeans(s: Tree<Node>, lower: int, upper: int)
    requires Ordered(s) && Distinct(s)
    ensures var (rest, gone) := H.EraseRange(s, lower, upper);
            && Ordered(rest) && Distinct(rest) && Nodes(rest) <= Nodes(s)
            && Size(rest) + Size(gone) == Size(s)
            && ContentsOf(Entries(rest)) == ContentsOf(Entries(s)) - KeysIn(lower, upper)
  {
    var (rest, gone) := H.EraseRange(s, lower, upper);
    H.EraseRangeIsExact(s, lower, upper);
    ContentsKept(Entries(s), KeysIn(lower, upper));
    NodesAreItems(s);
    NodesAreItems(rest);
    DistinctMeans(s);
    DistinctMeans(rest);
    KeptItems(Entries(s), KeysIn(lower, upper));
  }

  // ---- Erasing by predicate -----------------------------------------------------------------------

  ghost function Picked(predicate_: (int, int) -> bool, m: map<int, int>): set<int> {
    set k | k in m && predicate_(k, m[k])
  }

  lemma DoomedMeans(p: Node?, s: Tree<Node>, predicate_: (int, int) -> bool)
    requires Threaded(p, s)
    ensures AvlErasing.Dooms(predicate_, Nodes(s), Picked(predicate_, ContentsOf(Entries(s))))
  {
    NodesAreItems(s);
    EntriesKeyed(p, s);
    forall n | n in Nodes(s)
      ensures n.key in Picked(predicate_, ContentsOf(Entries(s))) <==> predicate_(n.key, n.payload)
    {
      var i :| 0 <= i < Size(s) && Entries(s)[i].item == n;
      ContentsAt(Entries(s), i);
    }
  }

  lemma EraseIfMeans(s: Tree<Node>, doomed: set<int>)
    requires Ordered(s) && Distinct(s)
    ensures var t := H.EraseIf(s, doomed);
            Ordered(t) && Distinct(t) && Nodes(t) <= Nodes(s) && ContentsOf(Entries(t)) == ContentsOf(Entries(s)) - doomed
  {
    H.EraseIfKeepsRest(s, doomed);
    AvlErasing.SurvivorsStayDistinct(s, doomed);
    ContentsKept(Entries(s), doomed);
  }

  method Drop(p: Node?, predicate_: (int, int) -> bool, ghost s: Tree<Node>, ghost doomed: set<int>)
    returns (root: Node?, count: nat)
    requires Threaded(p, s) && AvlErasing.Dooms(predicate_, Nodes(s), doomed)
    modifies Nodes(s)`left, Nodes(s)`right, Nodes(s)`parent, Nodes(s)`height
    ensures Threaded(root, H.EraseIf(s, doomed)) && count == Size(H.EraseIf(s, doomed))
    ensures ContentsOf(Entries(H.EraseIf(s, doomed))) == old(ContentsOf(Entries(s))) - doomed
  {
    EraseIfMeans(s, doomed);
    NodesAreItems(s);
    NodesAreItems(H.EraseIf(s, doomed));
    AllocatedItems(Entries(H.EraseIf(s, doomed)));
    root, count := AvlErasing.EraseIf(p, predicate_, s, doomed);
    Unparent(root, H.EraseIf(s, doomed));
  }

  // ---- Merging ------------------------------------------------------------------------------------

  /** The last node in order. */
  method FindMax(node: Node, ghost s: Tree<Node>) returns (greatest: Node)
    requires s.Bin? && Linked(node, s)
    ensures M.Greatest(s) == Of(greatest)
  {
    greatest := node;
    ghost var t := s;
    while greatest.right != null
      invariant t.Bin? && Linked(greatest, t) && M.Greatest(t) == M.Greatest(s)
      decreases t
    {
      greatest, t := greatest.right, t.right;
    }
  }

  /** Which of two trees lies wholly before the other, if either does. */
  datatype Placed = FirstBefore | SecondBefore | Interleaved

  method Compare(first: Node, second: Node, ghost s: Tree<Node>, ghost t: Tree<Node>) returns (placed: Placed)
    requires s.Bin? && t.Bin? && Linked(first, s) && Linked(second, t)
    ensures placed == FirstBefore <==> M.Greatest(s).key < Least(t).key
    ensures placed == SecondBefore <==> !(M.Greatest(s).key < Least(t).key) && M.Greatest(t).key < Least(s).key
  {
    Allocated(s);
    Allocated(t);
    var firstMax := FindMax(first, s);
    var firstMin := FindMin(first, s);
    var secondMax := FindMax(second, t);
    var secondMin := FindMin(second, t);
    placed :=
      if firstMax.key < secondMin.key then FirstBefore
      else if secondMax.key < firstMin.key then SecondBefore
      else Interleaved;
  }

  /** Merges two trees without common keys, the way their sizes and ranges suggest. */
  method MergeRoots(mine: Node?, other: Node?, mySize: nat, otherSize: nat, ghost s: Tree<Node>, ghost t: Tree<Node>)
    returns (root: Node?)
    requires Linked(mine, s) && Linked(other, t) && NoParent(mine) && NoParent(other) && Ordered(s) && Ordered(t)
    requires Distinct(s) && Distinct(t) && Nodes(s) !! Nodes(t) && mySize == Size(s) && otherSize == Size(t)
    modifies (Nodes(s) + Nodes(t))`left, (Nodes(s) + Nodes(t))`right
    modifies (Nodes(s) + Nodes(t))`parent, (Nodes(s) + Nodes(t))`height
    ensures Linked(root, M.MergedUnique(s, t)) && NoParent(root)
  {
    if other == null {
      return mine;
    }
    if mine == null {
      return other;
    }
    Allocated(s);
    Allocated(t);
    var placed := Compare(mine, other, s, t);
    if placed == FirstBefore {
      root := Join(mine, other, s, t);
    } else if placed == SecondBefore {
      root := Join(other, mine, t, s);
    } else {
      root := MergeInterleaved(mine, other, mySize, otherSize, s, t);
    }
  }

  method MergeInterleaved(mine: Node, other: Node, mySize: nat, otherSize: nat, ghost s: Tree<Node>, ghost t: Tree<Node>)
    returns (root: Node?)
    requires Linked(mine, s) && Linked(other, t) && mine.parent == null && other.parent == null
    requires Distinct(s) && Distinct(t) && Nodes(s) !! Nodes(t) && mySize == Size(s) && otherSize == Size(t)
    requires !(M.Greatest(s).key < Least(t).key) && !(M.Greatest(t).key < Least(s).key)
    modifies (Nodes(s) + Nodes(t))`left, (Nodes(s) + Nodes(t))`right
    modifies (Nodes(s) + Nodes(t))`parent, (Nodes(s) + Nodes(t))`height
    ensures Linked(root, M.MergedUnique(s, t)) && NoParent(root)
  {
    var smaller, larger := if mySize < otherSize then mySize else otherSize, if mySize > otherSize then mySize else otherSize;
    if smaller > M.DSW_THRESHOLD && larger < smaller * M.SIZE_RATIO_THRESHOLD {
      var size;
      root, size := MergeDsw(mine, other, s, t);
    } else if mySize < otherSize {
      root := MergeSplitBased(mine, other, s, t);
    } else {
      root := MergeSplitBased(other, mine, t, s);
    }
  }

  // ---- Common keys --------------------------------------------------------------------------------

  /** What two cursors that always advance the smaller side have ruled out. */
  ghost predicate RuledOut(a: seq<Entry<Node>>, b: seq<Entry<Node>>, i: nat, j: nat) {
    forall x, y :: 0 <= x < |a| && 0 <= y < |b| && (x < i || y < j) ==> a[x].key != b[y].key
  }

  lemma RuleOutFirst(a: seq<Entry<Node>>, b: seq<Entry<Node>>, i: nat, j: nat)
    requires Ascending(a) && Ascending(b) && i < |a| && j < |b| && RuledOut(a, b, i, j) && a[i].key < b[j].key
    ensures RuledOut(a, b, i + 1, j)
  {
  }

  /** The first node in order. */
  method Begin(root: Node?, ghost s: Tree<Node>) returns (first: Node?, ghost path: seq<Turn>)
    requires Threaded(root, s)
    ensures StandsAt(root, s, first, path, 0)
  {
    first, path := null, [];
    if root != null {
      LinkedRoot(root, s);
      first, path := LeftmostFrom(root, root, s, []);
      PositionIsIndex(s, path);
    }
  }

  /** A cursor moved on by one. */
  method Advance(root: Node?, node: Node, ghost s: Tree<Node>, ghost path: seq<Turn>, ghost i: nat)
    returns (next: Node?, ghost nextPath: seq<Turn>)
    requires StandsAt(root, s, node, path, i)
    ensures StandsAt(root, s, next, nextPath, i + 1) && i < Size(s)
  {
    PositionIsIndex(s, path);
    next, nextPath := FindSuccessor(root, node, s, path);
  }

  /** Two cursors over two trees, at positions `i` and `j`, that have met no common key. */
  ghost predicate Sweeping(first: Node?, s: Tree<Node>, p: Node?, at: seq<Turn>, i: nat,
                           second: Node?, t: Tree<Node>, q: Node?, bt: seq<Turn>, j: nat)
    reads Nodes(s), Spare(first), Nodes(t), Spare(second)
  {
    StandsAt(first, s, p, at, i) && StandsAt(second, t, q, bt, j) && RuledOut(Entries(s), Entries(t), i, j)
  }

  lemma SweepingSwaps(first: Node?, s: Tree<Node>, p: Node?, at: seq<Turn>, i: nat,
                      second: Node?, t: Tree<Node>, q: Node?, bt: seq<Turn>, j: nat)
    requires Sweeping(first, s, p, at, i, second, t, q, bt, j)
    ensures Sweeping(second, t, q, bt, j, first, s, p, at, i)
  {
  }

  /** Moves the cursor on the smaller key. */
  method SweepOn(first: Node?, second: Node?, p: Node, q: Node, ghost s: Tree<Node>, ghost at: seq<Turn>, ghost i: nat,
                 ghost t: Tree<Node>, ghost bt: seq<Turn>, ghost j: nat)
    returns (next: Node?, ghost nextAt: seq<Turn>)
    requires Sweeping(first, s, p, at, i, second, t, q, bt, j) && Ordered(s) && Ordered(t) && p.key < q.key
    ensures Sweeping(first, s, next, nextAt, i + 1, second, t, q, bt, j) && i < Size(s)
  {
    StoodOn(first, s, p, at, i);
    StoodOn(second, t, q, bt, j);
    RuleOutFirst(Entries(s), Entries(t), i, j);
    Allocated(t);
    next, nextAt := Advance(first, p, s, at, i);
  }

  /** Whether two trees share a key, by walking both at once. */
  method HasAnyKey(first: Node?, second: Node?, ghost s: Tree<Node>, ghost t: Tree<Node>) returns (shared: bool)
    requires Threaded(first, s) && Threaded(second, t)
    ensures shared <==> !M.Apart(Entries(s), Entries(t))
  {
    Allocated(s);
    Allocated(t);
    var p, q; ghost var at, bt;
    p, at := Begin(first, s);
    q, bt := Begin(second, t);
    ghost var i: nat, j: nat := 0, 0;
    while p != null && q != null
      invariant Sweeping(first, s, p, at, i, second, t, q, bt, j)
      decreases Size(s) - i + Size(t) - j
    {
      if p.key < q.key {
        p, at := SweepOn(first, second, p, q, s, at, i, t, bt, j);
        i := i + 1;
      } else if q.key < p.key {
        SweepingSwaps(first, s, p, at, i, second, t, q, bt, j);
        q, bt := SweepOn(second, first, q, p, t, bt, j, s, at, i);
        j := j + 1;
        SweepingSwaps(second, t, q, bt, j, first, s, p, at, i);
      } else {
        StoodOn(first, s, p, at, i);
        StoodOn(second, t, q, bt, j);
        return true;
      }
    }
    shared := false;
  }

  lemma ApartMeans(a: seq<Entry<Node>>, b: seq<Entry<Node>>)
    ensures M.Apart(a, b) <==> ContentsOf(a).Keys !! ContentsOf(b).Keys
  {
    if M.Apart(a, b) {
      forall k | k in ContentsOf(a)
        ensures k !in ContentsOf(b)
      {
        ContentsHave(a, k);
        ContentsHave(b, k);
      }
    }
    if ContentsOf(a).Keys !! ContentsOf(b).Keys {
      forall i, j | 0 <= i < |a| && 0 <= j < |b|
        ensures a[i].key != b[j].key
      {
        ContentsHave(a, a[i].key);
        ContentsHave(b, b[j].key);
      }
    }
  }

  ghost predicate HasKey(es: seq<Entry<Node>>, k: int) {
    exists x :: 0 <= x < |es| && es[x].key == k
  }

  /** Every key of the second sequence is one of the first. */
  ghost predicate Covers(a: seq<Entry<Node>>, b: seq<Entry<Node>>) {
    forall y :: 0 <= y < |b| ==> HasKey(a, b[y].key)
  }

  /** What two cursors have settled about the second sequence's keys all being in the first. */
  ghost predicate Covering(a: seq<Entry<Node>>, b: seq<Entry<Node>>, i: nat, j: nat) {
    && i <= |a| && j <= |b|
    && (forall y :: 0 <= y < j ==> HasKey(a, b[y].key))
    && (j < |b| ==> forall x :: 0 <= x < i ==> a[x].key < b[j].key)
  }

  lemma CoverOn(a: seq<Entry<Node>>, b: seq<Entry<Node>>, i: nat, j: nat)
    requires Ascending(a) && Ascending(b) && Covering(a, b, i, j) && j < |b|
    ensures i == |a| || b[j].key < a[i].key ==> !HasKey(a, b[j].key)
    ensures i < |a| && a[i].key < b[j].key ==> Covering(a, b, i + 1, j)
    ensures i < |a| && a[i].key == b[j].key ==> Covering(a, b, i + 1, j + 1)
  {
    if i < |a| && a[i].key == b[j].key {
      assert HasKey(a, b[j].key);
    }
  }

  lemma CoveredMeans(a: seq<Entry<Node>>, b: seq<Entry<Node>>)
    ensures Covers(a, b) <==> ContentsOf(b).Keys <= ContentsOf(a).Keys
  {
    if Covers(a, b) {
      forall k | k in ContentsOf(b)
        ensures k in ContentsOf(a)
      {
        ContentsHave(b, k);
        ContentsHave(a, k);
      }
    }
    if ContentsOf(b).Keys <= ContentsOf(a).Keys {
      forall y | 0 <= y < |b|
        ensures HasKey(a, b[y].key)
      {
        ContentsHave(b, b[y].key);
        ContentsHave(a, b[y].key);
      }
    }
  }

  /** Two cursors over two trees, at positions `i` and `j`, that have found every key the second has passed. */
  ghost predicate Pairing(first: Node?, s: Tree<Node>, p: Node?, at: seq<Turn>, i: nat,
                          second: Node?, t: Tree<Node>, q: Node?, bt: seq<Turn>, j: nat)
    reads Nodes(s), Spare(first), Nodes(t), Spare(second)
  {
    && StandsAt(first, s, p, at, i) && StandsAt(second, t, q, bt, j) && Covering(Entries(s), Entries(t), i, j)
    && Ordered(s) && Ordered(t)
  }

  /** Leaves behind a key only the first tree has. */
  method PassFirst(first: Node?, second: Node?, p: Node, q: Node, ghost s: Tree<Node>, ghost at: seq<Turn>, ghost i: nat,
                   ghost t: Tree<Node>, ghost bt: seq<Turn>, ghost j: nat)
    returns (next: Node?, ghost nextAt: seq<Turn>)
    requires Pairing(first, s, p, at, i, second, t, q, bt, j) && p.key < q.key
    ensures Pairing(first, s, next, nextAt, i + 1, second, t, q, bt, j) && i < Size(s)
  {
    StoodOn(first, s, p, at, i);
    StoodOn(second, t, q, bt, j);
    CoverOn(Entries(s), Entries(t), i, j);
    Allocated(t);
    next, nextAt := Advance(first, p, s, at, i);
  }

  /** Leaves behind a key both trees have. */
  method PassBoth(first: Node?, second: Node?, p: Node, q: Node, ghost s: Tree<Node>, ghost at: seq<Turn>, ghost i: nat,
                  ghost t: Tree<Node>, ghost bt: seq<Turn>, ghost j: nat)
    returns (nextP: Node?, ghost nextAt: seq<Turn>, nextQ: Node?, ghost nextBt: seq<Turn>)
    requires Pairing(first, s, p, at, i, second, t, q, bt, j) && p.key == q.key
    ensures Pairing(first, s, nextP, nextAt, i + 1, second, t, nextQ, nextBt, j + 1) && i < Size(s)
  {
    StoodOn(first, s, p, at, i);
    StoodOn(second, t, q, bt, j);
    CoverOn(Entries(s), Entries(t), i, j);
    Allocated(s);
    Allocated(t);
    nextP, nextAt := Advance(first, p, s, at, i);
    nextQ, nextBt := Advance(second, q, t, bt, j);
  }

  lemma NotCovered(first: Node?, s: Tree<Node>, p: Node?, at: seq<Turn>, i: nat,
                   second: Node?, t: Tree<Node>, q: Node, bt: seq<Turn>, j: nat)
    requires Pairing(first, s, p, at, i, second, t, q, bt, j) && (p == null || q.key < p.key)
    ensures !Covers(Entries(s), Entries(t))
  {
    if p != null {
      StoodOn(first, s, p, at, i);
    }
    StoodOn(second, t, q, bt, j);
    CoverOn(Entries(s), Entries(t), i, j);
  }

  lemma AllCovered(first: Node?, s: Tree<Node>, p: Node?, at: seq<Turn>, i: nat,
                   second: Node?, t: Tree<Node>, bt: seq<Turn>, j: nat)
    requires Pairing(first, s, p, at, i, second, t, null, bt, j)
    ensures Covers(Entries(s), Entries(t))
  {
  }

  method BeginPairing(first: Node?, second: Node?, ghost s: Tree<Node>, ghost t: Tree<Node>)
    returns (p: Node?, ghost at: seq<Turn>, q: Node?, ghost bt: seq<Turn>)
    requires Threaded(first, s) && Threaded(second, t)
    ensures Pairing(first, s, p, at, 0, second, t, q, bt, 0)
  {
    Allocated(s);
    Allocated(t);
    p, at := Begin(first, s);
    q, bt := Begin(second, t);
  }

  /** Whether the first tree holds every key of the second, by walking both at once. */
  method HasAllKeys(first: Node?, second: Node?, ghost s: Tree<Node>, ghost t: Tree<Node>) returns (all: bool)
    requires Threaded(first, s) && Threaded(second, t)
    ensures all <==> Covers(Entries(s), Entries(t))
  {
    var p, q; ghost var at, bt;
    p, at, q, bt := BeginPairing(first, second, s, t);
    ghost var i: nat, j: nat := 0, 0;
    while p != null && q != null
      invariant Pairing(first, s, p, at, i, second, t, q, bt, j)
      decreases Size(s) - i
    {
      if p.key < q.key {
        p, at := PassFirst(first, second, p, q, s, at, i, t, bt, j);
        i := i + 1;
      } else if q.key < p.key {
        NotCovered(first, s, p, at, i, second, t, q, bt, j);
        return false;
      } else {
        p, at, q, bt := PassBoth(first, second, p, q, s, at, i, t, bt, j);
        i, j := i + 1, j + 1;
      }
    }
    if q == null {
      AllCovered(first, s, p, at, i, second, t, bt, j);
      all := true;
    } else {
      NotCovered(first, s, p, at, i, second, t, q, bt, j);
      all := false;
    }
  }

  // ---- The container ------------------------------------------------------------------------------

  lemma MergedMeans(s: Tree<Node>, t: Tree<Node>)
    requires Ordered(s) && Ordered(t) && Distinct(s) && Distinct(t)
    requires Nodes(s) !! Nodes(t) && M.Apart(Entries(s), Entries(t))
    ensures var u := M.MergedUnique(s, t);
            && Ordered(u) && Distinct(u) && Size(u) == Size(s) + Size(t) && Nodes(u) == Nodes(s) + Nodes(t)
            && ContentsOf(Entries(u)) == ContentsOf(Entries(s)) + ContentsOf(Entries(t))
  {
    var u := M.MergedUnique(s, t);
    M.ChoiceIsUnobservable(s, t);
    ContentsMerged(Entries(s), Entries(t));
    NodesAreItems(s);
    NodesAreItems(t);
    NodesAreItems(u);
    DistinctMeans(s);
    DistinctMeans(t);
    DistinctMeans(u);
    MergedItems(Entries(s), Entries(t));
  }

  method MergeWhole(mine: Node?, other: Node?, mySize: nat, otherSize: nat, ghost s: Tree<Node>, ghost t: Tree<Node>)
    returns (root: Node?)
    requires Threaded(mine, s) && Threaded(other, t) && Nodes(s) !! Nodes(t) && M.Apart(Entries(s), Entries(t))
    requires mySize == Size(s) && otherSize == Size(t)
    modifies (Nodes(s) + Nodes(t))`left, (Nodes(s) + Nodes(t))`right
    modifies (Nodes(s) + Nodes(t))`parent, (Nodes(s) + Nodes(t))`height
    ensures Threaded(root, M.MergedUnique(s, t)) && Nodes(M.MergedUnique(s, t)) == Nodes(s) + Nodes(t)
    ensures Size(M.MergedUnique(s, t)) == Size(s) + Size(t)
    ensures ContentsOf(Entries(M.MergedUnique(s, t))) == old(ContentsOf(Entries(s))) + old(ContentsOf(Entries(t)))
  {
    MergedMeans(s, t);
    NodesAreItems(s);
    NodesAreItems(t);
    NodesAreItems(M.MergedUnique(s, t));
    AllocatedItems(Entries(M.MergedUnique(s, t)));
    root := MergeRoots(mine, other, mySize, otherSize, s, t);
  }

  lemma Incumbent(p: Node?, s: Tree<Node>, n: Node)
    requires Threaded(p, s) && n in Nodes(s)
    ensures n.key in ContentsOf(Entries(s))
  {
    NodesAreItems(s);
    EntriesKeyed(p, s);
    var i :| 0 <= i < Size(s) && Entries(s)[i].item == n;
    ContentsAt(Entries(s), i);
  }

  /** Assigns through to a node of the tree. */
  method Assign(root: Node?, n: Node, payload: int, ghost s: Tree<Node>)
    requires Threaded(root, s) && n in Nodes(s)
    modifies n`payload
    ensures ContentsOf(Entries(s)) == old(ContentsOf(Entries(s)))[n.key := payload]
  {
    ghost var es, was := Entries(s), ContentsOf(Entries(s));
    NodesAreItems(s);
    DistinctMeans(s);
    EntriesKeyed(root, s);
    forall i | 0 <= i < |es|
      ensures es[i].key in was && was[es[i].key] == es[i].item.payload
    {
      ContentsAt(es, i);
    }
    AllocatedItems(es);
    KeysAreKeys(es);
    ghost var at: nat :| at < |es| && es[at].item == n;
    n.payload := payload;
    assert forall i :: 0 <= i < |es| ==> (es[i].item == n <==> i == at);
    SameKeys(es, was);
    ContentsAssigned(es, was, n);
  }

  lemma SameKeys(es: seq<Entry<Node>>, was: map<int, int>)
    requires was.Keys == Keys(es)
    ensures ContentsOf(es).Keys == was.Keys
  {
    KeysAreKeys(es);
  }

  ghost function Keys(es: seq<Entry<Node>>): set<int> {
    set i | 0 <= i < |es| :: es[i].key
  }

  lemma KeysAreKeys(es: seq<Entry<Node>>)
    ensures ContentsOf(es).Keys == Keys(es)
  {
    forall k
      ensures k in ContentsOf(es) <==> k in Keys(es)
    {
      ContentsHave(es, k);
    }
  }

  lemma {:induction false} EntriesKeyed(p: Node?, s: Tree<Node>)
    requires Linked(p, s)
    ensures forall i :: 0 <= i < Size(s) ==> Entries(s)[i] == Of(Entries(s)[i].item)
    decreases s
  {
    if s.Bin? {
      EntriesKeyed(p.left, s.left);
      EntriesKeyed(p.right, s.right);
      forall i | 0 <= i < Size(s)
        ensures Entries(s)[i] == Of(Entries(s)[i].item)
      {
        EntryAt(s, i);
      }
    }
  }

  lemma CoversHolds(s: Tree<Node>, t: Tree<Node>)
    requires Ordered(s) && Covers(Entries(s), Entries(t))
    ensures R.HoldsAll(s, t)
  {
    if t.Bin? {
      CoversParts(Entries(s), Entries(t.left), t.entry, Entries(t.right));
      ContentsHave(Entries(s), t.entry.key);
      HasIsContents(s, t.entry.key);
      CoversHolds(s, t.left);
      CoversHolds(s, t.right);
    }
  }

  lemma CoversParts(a: seq<Entry<Node>>, l: seq<Entry<Node>>, e: Entry<Node>, r: seq<Entry<Node>>)
    requires Covers(a, l + [e] + r)
    ensures Covers(a, l) && HasKey(a, e.key) && Covers(a, r)
  {
    var b := l + [e] + r;
    assert forall y :: 0 <= y < |l| ==> b[y] == l[y];
    assert b[|l|] == e;
    assert forall y :: 0 <= y < |r| ==> b[|l| + 1 + y] == r[y];
  }

  lemma CoveredTakesIn(s: Tree<Node>, t: Tree<Node>)
    requires Ordered(s) && Covers(Entries(s), Entries(t))
    ensures R.TakeInRuns(R.Bare(s), R.Bare(t)) && R.TakenIn(R.Bare(s), R.Bare(t)) == R.Bare(s)
  {
    CoversHolds(s, t);
    R.BareHoldsAll(s, t);
    R.HeldAreTakenIn(R.Bare(s), R.Bare(t));
  }

  datatype Status = Success | OutOfMemory | KeyAlreadyExists | KeyNotFound

  class AvlTreeMap {
    var root: Node?
    var size: nat
    ghost var shape: Tree<Node>

    /** A search tree with exact links, heights and size, of whatever balance. */
    ghost predicate Valid()
      reads this, Nodes(shape), Spare(root)
    {
      Threaded(root, shape) && size == Size(shape)
    }

    /** What every call but an erasure by predicate keeps on top of that. */
    ghost predicate Balanced()
      reads this
    {
      H.Avl(shape)
    }

    /** The finite map the container stands for. */
    ghost function Contents(): map<int, int>
      reads this, Items(Entries(shape))
    {
      ContentsOf(Entries(shape))
    }

    constructor ()
      ensures Valid() && Balanced() && Contents() == map[] && shape == Nil
    {
      root, size, shape := null, 0, Nil;
    }

    /** Takes over a tree that is already threaded. */
    method Replace(newRoot: Node?, newSize: int, ghost newShape: Tree<Node>)
      requires Threaded(newRoot, newShape) && newSize == Size(newShape)
      modifies this
      ensures Valid() && shape == newShape && Contents() == old(ContentsOf(Entries(newShape)))
    {
      Allocated(newShape);
      AllocatedItems(Entries(newShape));
      LinkedRoot(newRoot, newShape);
      root, size, shape := newRoot, newSize, newShape;
    }

    /** Files an entry under a new key; a key already here keeps what it has. A balanced tree admits every key. */
    method InsertIfMissing(key: int, payload: int, granted: bool) returns (found: Node?, placement: Placement)
      requires Valid() && (granted ==> R.Admits(shape, key))
      modifies this, Nodes(shape)`left, Nodes(shape)`right, Nodes(shape)`parent, Nodes(shape)`height
      ensures Valid() && (old(Balanced()) ==> Balanced())
      ensures Nodes(shape) == old(Nodes(shape)) + (if placement == Made then Spare(found) else {})
      ensures placement == Made ==> fresh(found)
      ensures placement == Matched <==> key in old(Contents())
      ensures placement == Refused <==> key !in old(Contents()) && !granted
      ensures Contents() == if placement == Made then old(Contents())[key := payload] else old(Contents())
      ensures placement != Made ==> shape == old(shape)
      ensures placement == Made ==> R.Bare(shape) == H.Insert(R.Bare(old(shape)), R.Key(key))
      ensures found != null <==> placement != Refused
      ensures found != null ==> found in Nodes(shape) && found.key == key
    {
      HasIsContents(shape, key);
      Allocated(shape);
      AllocatedItems(Entries(shape));
      found := Find(root, key, shape);
      if found != null {
        return found, Matched;
      }
      if !granted {
        return null, Refused;
      }
      found := new Node(key, payload);
      R.InsertedShape(shape, Of(found));
      var newRoot, _, _ := Place(root, found, shape);
      Replace(newRoot, size + 1, H.Insert(shape, Of(found)));
      placement := Made;
    }

    /** Files an entry under its key; only a new key can be refused, and then nothing changes. */
    method Upsert(key: int, payload: int, granted: bool) returns (found: Node?, placement: Placement)
      requires Valid() && (granted ==> R.Admits(shape, key))
      modifies this, Nodes(shape)
      ensures Valid() && (old(Balanced()) ==> Balanced())
      ensures Nodes(shape) == old(Nodes(shape)) + (if placement == Made then Spare(found) else {})
      ensures placement == Made ==> fresh(found)
      ensures placement == Matched <==> key in old(Contents())
      ensures placement == Refused <==> key !in old(Contents()) && !granted
      ensures Contents() == if placement == Refused then old(Contents()) else old(Contents())[key := payload]
      ensures placement != Made ==> shape == old(shape)
      ensures placement == Made ==> R.Bare(shape) == H.Insert(R.Bare(old(shape)), R.Key(key))
      ensures found != null <==> placement != Refused
      ensures found != null ==> found in Nodes(shape) && found.key == key
    {
      HasIsContents(shape, key);
      Allocated(shape);
      AllocatedItems(Entries(shape));
      found := Find(root, key, shape);
      if found != null {
        Assign(root, found, payload, shape);
        return found, Matched;
      }
      if !granted {
        return null, Refused;
      }
      found := new Node(key, payload);
      R.InsertedShape(shape, Of(found));
      var newRoot, _, _ := Place(root, found, shape);
      Replace(newRoot, size + 1, H.Insert(shape, Of(found)));
      placement := Made;
    }

    /** Removes the entry with a key, if there is one, and hands its node out. */
    method Extract(key: int) returns (extracted: Node?)
      requires Valid()
      modifies this, Nodes(shape)`left, Nodes(shape)`right, Nodes(shape)`parent, Nodes(shape)`height
      ensures Valid() && Nodes(shape) <= old(Nodes(shape)) && Contents() == old(Contents()) - {key}
      ensures shape == H.Extract(old(shape), key) && (old(Balanced()) ==> Balanced())
      ensures extracted != null <==> key in old(Contents())
      ensures extracted != null ==> extracted.key == key && Alone(extracted)
      ensures extracted != null ==> extracted in old(Nodes(shape)) && extracted !in Nodes(shape)
    {
      if Balanced() {
        H.ExtractKeepsBalance(shape, key);
      }
      var rest;
      rest, extracted := Remove(root, key, shape);
      Replace(rest, size - if extracted != null then 1 else 0, H.Extract(shape, key));
    }

    /** Erases the keys in [lower, upper), handing each node over first, and no others. */
    method EraseRange(lower: int, upper: int) returns (erased: seq<Node>)
      requires Valid()
      modifies this, Nodes(shape)`left, Nodes(shape)`right, Nodes(shape)`parent, Nodes(shape)`height
      ensures Valid() && Nodes(shape) <= old(Nodes(shape)) && Contents() == old(Contents()) - KeysIn(lower, upper)
      ensures shape == H.EraseRange(old(shape), lower, upper).0 && (old(Balanced()) ==> Balanced())
      ensures |erased| == old(size) - size && AreInRange(erased, old(shape), lower, upper)
    {
      H.EraseRangeIsExact(shape, lower, upper);
      var rest;
      rest, erased := DropRange(root, lower, upper, shape);
      Replace(rest, size - |erased|, H.EraseRange(shape, lower, upper).0);
    }

    /** Keeps what the predicate does not pick, and counts the others. The rest is balanced exactly if it comes out
        even where that is decided. */
    method EraseIf(predicate_: (int, int) -> bool) returns (removed: int)
      requires Valid()
      modifies this, Nodes(shape)`left, Nodes(shape)`right, Nodes(shape)`parent, Nodes(shape)`height
      ensures Valid() && Contents() == old(Contents()) - Picked(predicate_, old(Contents()))
      ensures forall k :: k in Contents() <==> k in old(Contents()) && !predicate_(k, old(Contents())[k])
      ensures shape == H.EraseIf(old(shape), Picked(predicate_, old(Contents())))
      ensures Balanced() <==> B.ErasesEvenly(old(shape), Picked(predicate_, old(Contents())))
      ensures removed == old(size) - size
    {
      DoomedMeans(root, shape, predicate_);
      B.EraseIfBalancedExactly(shape, Picked(predicate_, Contents()));
      var rest, count := Drop(root, predicate_, shape, Picked(predicate_, Contents()));
      removed := size - count;
      Replace(rest, count, H.EraseIf(shape, old(Picked(predicate_, Contents()))));
    }

    /** Takes over every node of a tree without common keys, leaving that one empty. */
    method MergeUnique(other: AvlTreeMap)
      requires Valid() && other.Valid() && other != this && Nodes(shape) !! Nodes(other.shape)
      requires Contents().Keys !! other.Contents().Keys
      modifies this, Nodes(shape)`left, Nodes(shape)`right, Nodes(shape)`parent, Nodes(shape)`height
      modifies other, Nodes(other.shape)`left, Nodes(other.shape)`right, Nodes(other.shape)`parent, Nodes(other.shape)`height
      ensures Valid() && Contents() == old(Contents()) + old(other.Contents()) && size == old(size) + old(other.size)
      ensures shape == M.MergedUnique(old(shape), old(other.shape))
      ensures old(Balanced() && other.Balanced()) ==> Balanced()
      ensures other.Valid() && other.Contents() == map[] && other.root == null
    {
      ApartMeans(Entries(shape), Entries(other.shape));
      M.ChoiceIsUnobservable(shape, other.shape);
      ghost var newShape := M.MergedUnique(shape, other.shape);
      var newSize := size + other.size;
      var newRoot := MergeWhole(root, other.root, size, other.size, shape, other.shape);
      AllocatedItems(Entries(newShape));
      Allocated(newShape);
      LinkedRoot(newRoot, newShape);
      other.Forget();
      Replace(newRoot, newSize, newShape);
    }

    /** Links a travelling node in, unless its key is here already; then the incumbent stays, and takes over
        what the traveller stores if it is to be overwritten. */
    method Welcome(node: Node, overwrite: bool)
      requires Valid() && node !in Nodes(shape) && R.Admits(shape, node.key)
      modifies this, Nodes(shape), node
      ensures Valid() && Nodes(shape) <= old(Nodes(shape)) + {node}
      ensures R.Bare(shape) == H.Insert(R.Bare(old(shape)), R.Key(node.key))
      ensures Contents() == Blend(old(Contents()), map[node.key := old(node.payload)], overwrite)
    {
      HasIsContents(shape, node.key);
      Allocated(shape);
      AllocatedItems(Entries(shape));
      NodesAreItems(shape);
      MapsMeet(Contents(), node.key, node.payload);
      R.InsertedShape(shape, Of(node));
      var newRoot, found, placement := Place(root, node, shape);
      if placement == Made {
        Replace(newRoot, size + 1, H.Insert(shape, Of(node)));
      } else {
        Replace(newRoot, size, shape);
        Settle(found, node.payload, overwrite);
      }
    }

    /** Welcomes every node of another tree, each after the two branches below it. */
    method TakeIn(node: Node?, overwrite: bool, ghost t: Tree<Node>)
      requires Valid() && Linked(node, t) && Ordered(t) && Distinct(t) && Nodes(t) !! Nodes(shape)
      requires R.TakeInRuns(R.Bare(shape), R.Bare(t))
      modifies this, Nodes(shape), Nodes(t)
      ensures Valid() && Nodes(shape) <= old(Nodes(shape)) + Nodes(t)
      ensures R.Bare(shape) == R.TakenIn(R.Bare(old(shape)), R.Bare(t))
      ensures Contents() == Blend(old(Contents()), old(ContentsOf(Entries(t))), overwrite)
      decreases t, 1
    {
      if node != null {
        OrderedParts(t);
        PiecesOfNode(t.left, node, t.right);
        ContentsOfNode(t.left, node, t.right);
        BlendsInParts(Contents(), ContentsOf(Entries(t.left)), ContentsOf(Entries(t.right)), node.key, node.payload, overwrite);
        TakeInBranches(node, overwrite, t.left, t.right);
        Welcome(node, overwrite);
      }
    }

    method TakeInBranches(node: Node, overwrite: bool, ghost l: Tree<Node>, ghost r: Tree<Node>)
      requires Valid() && Linked(node.left, l) && Linked(node.right, r) && Ordered(l) && Ordered(r)
      requires Distinct(l) && Distinct(r) && ThreePieces(l, node, r)
      requires Nodes(l) !! Nodes(shape) && Nodes(r) !! Nodes(shape) && node !in Nodes(shape)
      requires R.TakeInRuns(R.Bare(shape), R.Bare(l)) && R.TakeInRuns(R.TakenIn(R.Bare(shape), R.Bare(l)), R.Bare(r))
      modifies this, Nodes(shape), Nodes(l), Nodes(r)
      ensures Valid() && Nodes(shape) <= old(Nodes(shape)) + Nodes(l) + Nodes(r)
      ensures R.Bare(shape) == R.TakenIn(R.TakenIn(R.Bare(old(shape)), R.Bare(l)), R.Bare(r))
      ensures Contents() == Blend(Blend(old(Contents()), old(ContentsOf(Entries(l))), overwrite),
                                  old(ContentsOf(Entries(r))), overwrite)
      decreases Bin(l, Of(node), r), 0
    {
      Allocated(l);
      Allocated(r);
      AllocatedItems(Entries(r));
      NodesAreItems(r);
      TakeIn(node.left, overwrite, l);
      TakeIn(node.right, overwrite, r);
    }

    /** What an incumbent takes over from a traveller with its key. */
    method Settle(found: Node, payload: int, overwrite: bool)
      requires Valid() && found in Nodes(shape)
      modifies found`payload
      ensures Valid() && found.key in old(Contents())
      ensures Contents() == if overwrite then old(Contents())[found.key := payload] else old(Contents())
    {
      Allocated(shape);
      NodesAreItems(shape);
      AllocatedItems(Entries(shape));
      Incumbent(root, shape, found);
      if overwrite {
        Assign(root, found, payload, shape);
      }
    }

    /** Takes in another tree's nodes and leaves that one empty. */
    method TakeOver(other: AvlTreeMap, overwrite: bool)
      requires Valid() && other.Valid() && other != this && Nodes(shape) !! Nodes(other.shape)
      requires R.TakeInRuns(R.Bare(shape), R.Bare(other.shape))
      modifies this, Nodes(shape), other, Nodes(other.shape)
      ensures Valid() && Contents() == Blend(old(Contents()), old(other.Contents()), overwrite)
      ensures R.Bare(shape) == R.TakenIn(R.Bare(old(shape)), R.Bare(old(other.shape)))
      ensures old(Balanced()) ==> Balanced()
      ensures other.Valid() && other.Contents() == map[] && other.root == null
    {
      ghost var s, t := shape, other.shape;
      Allocated(shape);
      Allocated(other.shape);
      TakeIn(other.root, overwrite, other.shape);
      Part(other);
      if H.Avl(s) {
        R.TakenInBalance(s, t, shape);
      }
    }

    /** Takes over another tree's nodes, keeping its own where both have a key. */
    method Merge(other: AvlTreeMap)
      requires Valid() && other.Valid() && other != this && Nodes(shape) !! Nodes(other.shape)
      requires R.TakeInRuns(R.Bare(shape), R.Bare(other.shape))
      modifies this, Nodes(shape), other, Nodes(other.shape)
      ensures Valid() && Contents() == old(other.Contents()) + old(Contents())
      ensures R.Bare(shape) == R.TakenIn(R.Bare(old(shape)), R.Bare(old(other.shape)))
      ensures old(Balanced()) ==> Balanced()
      ensures other.Valid() && other.Contents() == map[] && other.root == null
    {
      TakeOver(other, false);
    }

    /** The same with the other tree's entries written over its own. */
    method MergeWithUpsert(other: AvlTreeMap)
      requires Valid() && other.Valid() && other != this && Nodes(shape) !! Nodes(other.shape)
      requires root != null ==> R.TakeInRuns(R.Bare(shape), R.Bare(other.shape))
      modifies this, Nodes(shape), other, Nodes(other.shape)
      ensures Valid() && Contents() == old(Contents()) + old(other.Contents())
      ensures R.Bare(shape) == if old(root) == null then R.Bare(old(other.shape))
                               else R.TakenIn(R.Bare(old(shape)), R.Bare(old(other.shape)))
      ensures old(Balanced() && other.Balanced()) ==> Balanced()
      ensures other.Valid() && other.Contents() == map[] && other.root == null
    {
      if other.root == null {
        return;
      }
      if root == null {
        Adopt(other);
      } else {
        TakeOver(other, true);
      }
    }

    /** An empty tree takes another one's place. */
    method Adopt(other: AvlTreeMap)
      requires Valid() && other.Valid() && other != this && root == null
      modifies this, other
      ensures Valid() && Contents() == old(other.Contents()) && shape == old(other.shape) && old(Contents()) == map[]
      ensures other.Valid() && other.Contents() == map[] && other.root == null
    {
      Replace(other.root, other.size, other.shape);
      Part(other);
    }

    /** Empties another tree without touching its nodes, which are this one's now. */
    method Part(other: AvlTreeMap)
      requires Valid() && other != this
      modifies other
      ensures Valid() && Contents() == old(Contents()) && other.Valid() && other.Contents() == map[] && other.root == null
    {
      Allocated(shape);
      AllocatedItems(Entries(shape));
      other.Forget();
    }

    /** Lets go of every node. */
    method Forget()
      modifies this
      ensures Valid() && Contents() == map[] && root == null && shape == Nil
    {
      root, size, shape := null, 0, Nil;
    }

    /** Inserts a whole batch or nothing: it is staged in a tree of its own, checked against this one, and only
        then merged in one step that cannot fail. */
    method InsertBatch(batch: seq<(int, int)>, grants: seq<bool>) returns (status: Status)
      requires Valid() && |grants| == |batch|
      modifies this, Nodes(shape)`left, Nodes(shape)`right, Nodes(shape)`parent, Nodes(shape)`height
      ensures Valid() && (old(Balanced()) ==> Balanced())
      ensures status == if RunsOut(batch, grants) then OutOfMemory
                        else if old(Contents()).Keys !! FirstWins(batch).Keys then Success
                        else KeyAlreadyExists
      ensures status == Success ==> Contents() == old(Contents()) + FirstWins(batch)
      ensures status != Success ==> Contents() == old(Contents()) && shape == old(shape)
    {
      AllocatedItems(Entries(shape));
      Allocated(shape);
      var temp := new AvlTreeMap();
      var staged := temp.StageBatch(batch, grants);
      if !staged {
        return OutOfMemory;
      }
      var absorbed := Absorb(temp);
      status := if absorbed then Success else KeyAlreadyExists;
    }

    /** Upserts a whole batch or nothing: every refusal comes while the batch is staged. Within the batch the
        first of equal keys wins, and then it overwrites. */
    method UpsertBatch(batch: seq<(int, int)>, grants: seq<bool>) returns (status: Status)
      requires Valid() && |grants| == |batch|
      requires root != null && !RunsOut(batch, grants) ==> R.TakeInRuns(R.Bare(shape), StagedShape(batch))
      modifies this, Nodes(shape)
      ensures Valid() && (old(Balanced()) ==> Balanced())
      ensures status == if RunsOut(batch, grants) then OutOfMemory else Success
      ensures status == Success ==> Contents() == old(Contents()) + FirstWins(batch)
      ensures status != Success ==> Contents() == old(Contents()) && shape == old(shape)
    {
      AllocatedItems(Entries(shape));
      Allocated(shape);
      var temp := new AvlTreeMap();
      var staged := temp.StageBatch(batch, grants);
      if !staged {
        return OutOfMemory;
      }
      MergeWithUpsert(temp);
      status := Success;
    }

    /** Overwrites a whole batch of existing entries or nothing. */
    method UpdateBatch(batch: seq<(int, int)>, grants: seq<bool>) returns (status: Status)
      requires Valid() && |grants| == |batch|
      modifies this, Nodes(shape)
      ensures Valid() && (old(Balanced()) ==> Balanced())
      ensures status == if RunsOut(batch, grants) then OutOfMemory
                        else if FirstWins(batch).Keys <= old(Contents()).Keys then Success
                        else KeyNotFound
      ensures status == Success ==> Contents() == old(Contents()) + FirstWins(batch)
      ensures status == Success ==> Contents().Keys == old(Contents()).Keys
      ensures status != Success ==> Contents() == old(Contents()) && shape == old(shape)
    {
      AllocatedItems(Entries(shape));
      Allocated(shape);
      var temp := new AvlTreeMap();
      var staged := temp.StageBatch(batch, grants);
      if !staged {
        return OutOfMemory;
      }
      var overwritten := Overwrite(temp);
      status := if overwritten then Success else KeyNotFound;
    }

    /** Writes a staged tree over this one, unless a key of it is missing here. Nothing new comes in, so nothing is
        turned. */
    method Overwrite(temp: AvlTreeMap) returns (overwritten: bool)
      requires Valid() && temp.Valid() && temp != this && Nodes(shape) !! Nodes(temp.shape)
      modifies this, Nodes(shape), temp, Nodes(temp.shape)
      ensures Valid() && (overwritten <==> old(temp.Contents()).Keys <= old(Contents()).Keys)
      ensures old(Balanced() && temp.Balanced()) ==> Balanced()
      ensures overwritten ==> Contents() == old(Contents()) + old(temp.Contents())
      ensures !overwritten ==> Contents() == old(Contents()) && shape == old(shape)
    {
      AllocatedItems(Entries(shape));
      AllocatedItems(Entries(temp.shape));
      Allocated(shape);
      Allocated(temp.shape);
      CoveredMeans(Entries(shape), Entries(temp.shape));
      overwritten := HasAllKeys(root, temp.root, shape, temp.shape);
      if overwritten {
        CoveredTakesIn(shape, temp.shape);
        MergeWithUpsert(temp);
      }
    }

    /** Takes over a staged tree unless a key of it is already here. */
    method Absorb(temp: AvlTreeMap) returns (absorbed: bool)
      requires Valid() && temp.Valid() && temp != this && Nodes(shape) !! Nodes(temp.shape)
      modifies this, Nodes(shape)`left, Nodes(shape)`right, Nodes(shape)`parent, Nodes(shape)`height
      modifies temp, Nodes(temp.shape)`left, Nodes(temp.shape)`right, Nodes(temp.shape)`parent, Nodes(temp.shape)`height
      ensures Valid() && (absorbed <==> old(Contents()).Keys !! old(temp.Contents()).Keys)
      ensures old(Balanced() && temp.Balanced()) ==> Balanced()
      ensures absorbed ==> Contents() == old(Contents()) + old(temp.Contents())
      ensures !absorbed ==> Contents() == old(Contents()) && shape == old(shape)
    {
      AllocatedItems(Entries(shape));
      AllocatedItems(Entries(temp.shape));
      Allocated(shape);
      Allocated(temp.shape);
      ApartMeans(Entries(shape), Entries(temp.shape));
      var shared := HasAnyKey(root, temp.root, shape, temp.shape);
      absorbed := !shared;
      if absorbed {
        MergeUnique(temp);
      }
    }

    /** A tree staged from a batch, in contents and in shape. */
    ghost predicate Stages(batch: seq<(int, int)>)
      reads this, Nodes(shape), Spare(root), Items(Entries(shape))
    {
      Valid() && Balanced() && Contents() == FirstWins(batch) && R.Bare(shape) == StagedShape(batch)
    }

    method StageNext(entry: (int, int), granted: bool, ghost before: seq<(int, int)>) returns (placed: bool)
      requires Stages(before)
      modifies this, Nodes(shape)`left, Nodes(shape)`right, Nodes(shape)`parent, Nodes(shape)`height
      ensures placed <==> granted || entry.0 in FirstWins(before)
      ensures placed ==> Stages(before + [entry])
      ensures Valid() && Balanced()
      ensures forall n :: n in Nodes(shape) ==> n in old(Nodes(shape)) || fresh(n)
    {
      assert (before + [entry])[..|before|] == before;
      R.BalancedAdmits(shape, entry.0);
      HasIsContents(shape, entry.0);
      R.HeldAddsNothing(shape, entry.0);
      var found, placement := InsertIfMissing(entry.0, entry.1, granted);
      placed := placement != Refused;
    }

    /** Builds a tree from a batch, keeping the first of equal keys; a refused allocation stops it. */
    method StageBatch(batch: seq<(int, int)>, grants: seq<bool>) returns (complete: bool)
      requires Valid() && shape == Nil && |grants| == |batch|
      modifies this
      ensures Valid() && Balanced() && fresh(Nodes(shape))
      ensures complete <==> !RunsOut(batch, grants)
      ensures complete ==> Contents() == FirstWins(batch) && R.Bare(shape) == StagedShape(batch)
    {
      for i := 0 to |batch|
        invariant Stages(batch[..i])
        invariant forall n :: n in Nodes(shape) ==> fresh(n)
        invariant forall j: nat :: j < i && FirstOf(batch, j) ==> grants[j]
      {
        assert batch[..i + 1] == batch[..i] + [batch[i]];
        FirstIsNew(batch, i);
        var placed := StageNext(batch[i], grants[i], batch[..i]);
        if !placed {
          return false;
        }
      }
      assert batch[..|batch|] == batch;
      complete := true;
    }
  }
}
