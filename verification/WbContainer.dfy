/** The weight-balanced container: what its calls do to the finite map it stands for. */
module WbContainer {
  import opened OrderedTrees
  import W = WeightBalance
  import opened WbTree

  lemma KeysApart(s: Tree<Node>, n: Node, m: Node)
    requires Ordered(s) && Keyed(s) && n in Nodes(s) && m in Nodes(s) && n.key == m.key
    ensures n == m
  {
    NodesAreItems(s);
    KeyedMeans(s);
  }

  /** The map a shape stands for, with what its nodes store now. */
  ghost function ContentsOf(s: Tree<Node>): map<int, Fruit>
    requires Ordered(s) && Keyed(s)
    reads Nodes(s)`fruit
  {
    assert forall n, m :: n in Nodes(s) && m in Nodes(s) && n.key == m.key ==> n == m by {
      forall n, m | n in Nodes(s) && m in Nodes(s) && n.key == m.key
        ensures n == m
      {
        KeysApart(s, n, m);
      }
    }
    map n | n in Nodes(s) :: n.key := n.fruit
  }

  lemma ContentsWith(s: Tree<Node>, n: Node)
    requires Ordered(s) && Keyed(s) && n in Nodes(s)
    ensures n.key in ContentsOf(s) && ContentsOf(s)[n.key] == n.fruit
  {
    forall m | m in Nodes(s) && m.key == n.key
      ensures m == n
    {
      KeysApart(s, n, m);
    }
  }

  /** Two shapes over the same nodes, but for the doomed keys. */
  lemma ContentsKept(s: Tree<Node>, t: Tree<Node>, doomed: set<int>)
    requires Ordered(s) && Keyed(s) && Ordered(t) && Keyed(t)
    requires Nodes(t) == set n | n in Nodes(s) && n.key !in doomed
    ensures ContentsOf(t) == ContentsOf(s) - doomed
  {
    forall n | n in Nodes(t)
      ensures n.key in ContentsOf(t) && ContentsOf(t)[n.key] == n.fruit && ContentsOf(s)[n.key] == n.fruit
    {
      ContentsWith(s, n);
      ContentsWith(t, n);
    }
    forall k | k in ContentsOf(s) && k !in doomed
      ensures k in ContentsOf(t)
    {
      var n :| n in Nodes(s) && n.key == k;
      ContentsWith(t, n);
    }
  }

  lemma ExtractNodesExact(s: Tree<Node>, k: int)
    requires Ordered(s) && Keyed(s)
    ensures Ordered(W.Extract(s, k)) && Keyed(W.Extract(s, k))
    ensures Nodes(W.Extract(s, k)) == set n | n in Nodes(s) && n.key !in {k}
  {
    ExtractDropsNode(s, k);
    W.ExtractKeepsOrder(s, k);
    W.ExtractCutsOut(s, k);
    RankSplits(s, k);
    NodesAreItems(s);
    NodesAreItems(W.Extract(s, k));
    KeyedMeans(s);
    if Has(s, k) {
      WithoutIsKept(Entries(s), Rank(s, k));
      KeptNodes(Entries(s), {k});
    } else {
      forall n | n in Nodes(s)
        ensures n.key != k
      {
        NodesHaveKeys(s, n);
      }
    }
  }

  lemma KeptNodesExact(s: Tree<Node>, t: Tree<Node>, doomed: set<int>)
    requires Ordered(s) && Keyed(s) && Entries(t) == Kept(Entries(s), doomed)
    ensures Ordered(t) && Keyed(t) && Nodes(t) == set n | n in Nodes(s) && n.key !in doomed
  {
    KeptStaysAscending(Entries(s), doomed);
    KeyedMeans(s);
    KeyedMeans(t);
    NodesAreItems(s);
    NodesAreItems(t);
    KeptNodes(Entries(s), doomed);
  }

  lemma HasIsContents(s: Tree<Node>, k: int)
    requires Ordered(s) && Keyed(s)
    ensures Has(s, k) <==> k in ContentsOf(s)
  {
    var es := Entries(s);
    RankSplits(s, k);
    NodesAreItems(s);
    KeyedMeans(s);
    if Has(s, k) {
      var n := es[Rank(s, k)].item;
      assert n in Items(es) && n.key == k;
      ContentsWith(s, n);
    }
    if k in ContentsOf(s) {
      var n :| n in Nodes(s) && n.key == k;
      var i :| 0 <= i < |es| && es[i].item == n;
      assert es[i].key == k && i >= Rank(s, k);
      assert i == Rank(s, k);
    }
  }

  /** Everything a removal means for the container. */
  lemma ExtractMeans(s: Tree<Node>, k: int)
    requires Ordered(s) && Keyed(s) && W.Balanced(s)
    ensures var t := W.Extract(s, k);
            && Ordered(t) && Keyed(t) && W.Balanced(t) && ContentsOf(t) == ContentsOf(s) - {k}
            && Size(t) == Size(s) - (if Has(s, k) then 1 else 0)
            && Nodes(t) <= Nodes(s)
    ensures Has(s, k) <==> k in ContentsOf(s)
  {
    ExtractNodesExact(s, k);
    W.ExtractKeepsBalance(s, k);
    ContentsKept(s, W.Extract(s, k), {k});
    HasIsContents(s, k);
  }

  lemma HeldContents(s: Tree<Node>, k: int, n: Node)
    requires Ordered(s) && Keyed(s) && Held(s, k, n)
    ensures n.key == k && k in ContentsOf(s) && ContentsOf(s)[k] == n.fruit
  {
    HeldIsNode(s, k, n);
    ContentsWith(s, n);
  }

  /** A tree as its container keeps it. */
  ghost predicate Whole(p: Node?, s: Tree<Node>)
    reads Nodes(s)
  {
    Linked(p, s) && Ordered(s) && Keyed(s) && W.Balanced(s)
  }

  method Remove(p: Node?, key: int, ghost s: Tree<Node>) returns (root: Node?, extracted: Node?)
    requires Whole(p, s)
    modifies Nodes(s)`left, Nodes(s)`right, Nodes(s)`size, Nodes(s)`augmentedSize
    ensures Whole(root, W.Extract(s, key))
    ensures ContentsOf(W.Extract(s, key)) == old(ContentsOf(s)) - {key}
    ensures Size(W.Extract(s, key)) == Size(s) - if extracted != null then 1 else 0
    ensures extracted != null <==> key in old(ContentsOf(s))
    ensures extracted != null ==> extracted.key == key && extracted.fruit == old(ContentsOf(s))[key] && Alone(extracted)
  {
    ExtractMeans(s, key);
    Allocated(s);
    root, extracted := WbTree.Extract(p, key, s);
    if extracted != null {
      HeldContents(s, key, extracted);
    }
  }

  lemma ContentsAdded(s: Tree<Node>, t: Tree<Node>, n: Node)
    requires Ordered(s) && Keyed(s) && Ordered(t) && Keyed(t) && Nodes(t) == Nodes(s) + {n}
    ensures ContentsOf(t) == ContentsOf(s)[n.key := n.fruit]
  {
    forall m | m in Nodes(t)
      ensures m.key in ContentsOf(t) && ContentsOf(t)[m.key] == m.fruit
      ensures m in Nodes(s) ==> m.key in ContentsOf(s) && ContentsOf(s)[m.key] == m.fruit
    {
      ContentsWith(t, m);
      if m in Nodes(s) {
        ContentsWith(s, m);
      }
    }
  }

  /** What an upsert leaves, given the map as it was and that only the found node's fruit may differ. */
  lemma UpsertMeans(s: Tree<Node>, found: Node?, placement: Placement)
    requires Ordered(s) && Keyed(s) && W.Balanced(s)
    requires placement == Made ==> found != null && !Has(s, found.key)
    ensures var t := Upserted(s, found, placement);
            && Ordered(t) && Keyed(t) && W.Balanced(t)
            && Size(t) == Size(s) + (if placement == Made then 1 else 0)
            && Nodes(t) == Nodes(s) + (if placement == Made then {found} else {})
  {
    if placement == Made {
      W.InsertKeepsOrder(s, Of(found));
      W.InsertKeepsBalance(s, Of(found));
      InsertAddsNode(s, Of(found));
      InsertIsKeyed(s, found);
    }
  }

  lemma InsertIsKeyed(s: Tree<Node>, n: Node)
    requires Keyed(s)
    ensures Keyed(W.Insert(s, Of(n)))
  {
    W.InsertSplices(s, Of(n));
    KeyedMeans(s);
    KeyedMeans(W.Insert(s, Of(n)));
    if !Has(s, n.key) {
      KeyedWith(Entries(s), Rank(s, n.key), Of(n));
    }
  }

  lemma {:induction false} KeyedWith(es: seq<Entry<Node>>, at: nat, e: Entry<Node>)
    requires KeyedEntries(es) && at <= |es| && e == Of(e.item)
    ensures KeyedEntries(With(es, at, e))
  {
    if at > 0 {
      KeyedWith(es[1..], at - 1, e);
    }
  }

  /** The map of the same nodes once one of them stores something else. */
  lemma ContentsAssigned(s: Tree<Node>, was: map<int, Fruit>, found: Node)
    requires Ordered(s) && Keyed(s) && found in Nodes(s) && was.Keys == ContentsOf(s).Keys
    requires forall n :: n in Nodes(s) && n != found ==> n.key in was && was[n.key] == n.fruit
    ensures ContentsOf(s) == was[found.key := found.fruit]
  {
    ContentsWith(s, found);
    forall k | k in ContentsOf(s) && k != found.key
      ensures ContentsOf(s)[k] == was[k]
    {
      var n :| n in Nodes(s) && n.key == k;
      ContentsWith(s, n);
    }
  }

  method Find(root: Node?, key: int, ghost s: Tree<Node>) returns (found: Node?)
    requires Linked(root, s)
    ensures found != null <==> Has(s, key)
    ensures found != null ==> found.key == key && found in Nodes(s)
  {
    found := root;
    ghost var t := s;
    while found != null
      invariant Linked(found, t) && Nodes(t) <= Nodes(s) && (Has(t, key) <==> Has(s, key))
      decreases t
    {
      if key < found.key {
        found, t := found.left, t.left;
      } else if found.key < key {
        found, t := found.right, t.right;
      } else {
        break;
      }
    }
  }

  method Put(p: Node?, key: int, fruit: Fruit, granted: bool, ghost s: Tree<Node>)
    returns (root: Node?, found: Node?, placement: Placement)
    requires Whole(p, s)
    modifies Nodes(s)
    ensures Whole(root, Upserted(s, found, placement))
    ensures Size(Upserted(s, found, placement)) == Size(s) + if placement == Made then 1 else 0
    ensures placement == Matched <==> key in old(ContentsOf(s))
    ensures placement == Refused <==> key !in old(ContentsOf(s)) && !granted
    ensures ContentsOf(Upserted(s, found, placement))
         == if placement == Refused then old(ContentsOf(s)) else old(ContentsOf(s))[key := fruit]
    ensures found != null <==> placement != Refused
    ensures found != null ==> found.key == key && found.fruit == fruit && found in Nodes(Upserted(s, found, placement))
  {
    ghost var was := ContentsOf(s);
    HasIsContents(s, key);
    forall n | n in Nodes(s)
      ensures n.key in was && was[n.key] == n.fruit
    {
      ContentsWith(s, n);
    }
    Allocated(s);
    root, found, placement := WbTree.Upsert(p, key, fruit, granted, s);
    UpsertMeans(s, found, placement);
    PutContents(s, was, found, placement, key);
  }

  lemma PutContents(s: Tree<Node>, was: map<int, Fruit>, found: Node?, placement: Placement, key: int)
    requires Ordered(s) && Keyed(s) && was.Keys == ContentsOf(s).Keys
    requires found != null <==> placement != Refused
    requires found != null ==> found.key == key
    requires placement == Matched ==> found in Nodes(s)
    requires placement == Made ==> !Has(s, key)
    requires forall n :: n in Nodes(s) && n != found ==> n.key in was && was[n.key] == n.fruit
    requires var t := Upserted(s, found, placement);
             Ordered(t) && Keyed(t) && Nodes(t) == Nodes(s) + (if placement == Made then {found} else {})
    ensures ContentsOf(Upserted(s, found, placement))
         == if placement == Refused then was else was[key := found.fruit]
  {
    var t := Upserted(s, found, placement);
    if placement == Matched {
      ContentsAssigned(s, was, found);
    } else {
      SameContents(s, was, found);
      if placement == Made {
        ContentsAdded(s, t, found);
      }
    }
  }

  lemma SameContents(s: Tree<Node>, was: map<int, Fruit>, found: Node?)
    requires Ordered(s) && Keyed(s) && was.Keys == ContentsOf(s).Keys
    requires forall n :: n in Nodes(s) && n != found ==> n.key in was && was[n.key] == n.fruit
    requires found != null ==> !Has(s, found.key)
    ensures ContentsOf(s) == was
  {
    forall k | k in ContentsOf(s)
      ensures ContentsOf(s)[k] == was[k]
    {
      var n :| n in Nodes(s) && n.key == k;
      ContentsWith(s, n);
      HasIsContents(s, k);
    }
  }

  // ---- Erasing many -------------------------------------------------------------------------------

  ghost function Picked(predicate_: (int, Fruit) -> bool, m: map<int, Fruit>): set<int> {
    set k | k in m && predicate_(k, m[k])
  }

  lemma DoomedMeans(s: Tree<Node>, predicate_: (int, Fruit) -> bool)
    requires Ordered(s) && Keyed(s)
    ensures Dooms(predicate_, Nodes(s), Picked(predicate_, ContentsOf(s)))
  {
    forall n | n in Nodes(s)
      ensures n.key in Picked(predicate_, ContentsOf(s)) <==> predicate_(n.key, n.fruit)
    {
      ContentsWith(s, n);
    }
  }

  /** What keeping only some keys means for the container. */
  lemma KeptMeans(s: Tree<Node>, t: Tree<Node>, doomed: set<int>)
    requires Ordered(s) && Keyed(s) && Entries(t) == Kept(Entries(s), doomed)
    ensures Ordered(t) && Keyed(t) && ContentsOf(t) == ContentsOf(s) - doomed
    ensures Nodes(t) == set n | n in Nodes(s) && n.key !in doomed
  {
    KeptNodesExact(s, t, doomed);
    ContentsKept(s, t, doomed);
  }

  lemma EraseIfMeans(s: Tree<Node>, doomed: set<int>)
    requires Ordered(s) && Keyed(s) && W.Balanced(s)
    ensures var t := W.EraseIf(s, doomed);
            && Ordered(t) && Keyed(t) && W.Balanced(t) && Nodes(t) <= Nodes(s)
            && ContentsOf(t) == ContentsOf(s) - doomed
  {
    W.EraseIfKeepsRest(s, doomed);
    KeptMeans(s, W.EraseIf(s, doomed), doomed);
  }

  method Drop(p: Node?, predicate_: (int, Fruit) -> bool, ghost s: Tree<Node>, ghost doomed: set<int>)
    returns (root: Node?, count: nat)
    requires Whole(p, s) && Dooms(predicate_, Nodes(s), doomed)
    modifies Nodes(s)`left, Nodes(s)`right, Nodes(s)`size, Nodes(s)`augmentedSize
    ensures Whole(root, W.EraseIf(s, doomed)) && count == Size(W.EraseIf(s, doomed))
    ensures ContentsOf(W.EraseIf(s, doomed)) == old(ContentsOf(s)) - doomed
  {
    EraseIfMeans(s, doomed);
    Allocated(s);
    root, count := WbTree.EraseIf(p, predicate_, s, doomed);
  }

  /** Visits every node bottom-up. */
  method ForEachBottomUp(node: Node?, ghost s: Tree<Node>) returns (visited: seq<Node>)
    requires Linked(node, s)
    ensures |visited| == Size(s) && (set n | n in visited) == Nodes(s)
    decreases s
  {
    if node == null {
      return [];
    }
    Allocated(s);
    var left := ForEachBottomUp(node.left, s.left);
    var right := ForEachBottomUp(node.right, s.right);
    visited := left + right + [node];
  }

  /** The three pieces of a range erasure lie apart and in order. */
  lemma RangeParts(s: Tree<Node>, lower: int, upper: int)
    requires Ordered(s) && Keyed(s)
    ensures var (below, notBelow) := W.Split(s, lower);
            var (within, above) := W.Split(notBelow, upper);
            && Ordered(notBelow) && Ordered(above) && Ascending(Entries(below) + Entries(above))
            && Nodes(below) !! Nodes(notBelow) && Nodes(within) !! Nodes(above)
            && Nodes(below) + Nodes(notBelow) == Nodes(s) && Nodes(within) + Nodes(above) == Nodes(notBelow)
  {
    var (below, notBelow) := W.Split(s, lower);
    SplitApart(s, lower);
    SliceAscends(Entries(below), Entries(notBelow));
    SplitApart(notBelow, upper);
    var (within, above) := W.Split(notBelow, upper);
    W.SplitCuts(notBelow, upper);
    W.SplitSeparates(s, lower);
    SlicesFrom(Entries(within), Entries(above), lower);
    SliceAscends(Entries(within), Entries(above));
    ConcatAscends(Entries(below), lower, Entries(above));
  }

  /** The nodes handed over are exactly those with keys in the range. */
  ghost predicate AreInRange(erased: seq<Node>, s: Tree<Node>, lower: int, upper: int) {
    (set n | n in erased) == (set n | n in Nodes(s) && lower <= n.key < upper)
  }

  method DropRange(p: Node?, lower: int, upper: int, ghost s: Tree<Node>) returns (rest: Node?, erased: seq<Node>)
    requires Whole(p, s)
    modifies Nodes(s)`left, Nodes(s)`right, Nodes(s)`size, Nodes(s)`augmentedSize
    ensures Whole(rest, W.EraseRange(s, lower, upper).0)
    ensures ContentsOf(W.EraseRange(s, lower, upper).0) == old(ContentsOf(s)) - KeysIn(lower, upper)
    ensures |erased| == Size(s) - Size(W.EraseRange(s, lower, upper).0)
    ensures AreInRange(erased, s, lower, upper)
  {
    W.EraseRangeIsExact(s, lower, upper);
    KeptMeans(s, W.EraseRange(s, lower, upper).0, KeysIn(lower, upper));
    RangeParts(s, lower, upper);
    RangeNodes(s, lower, upper);
    Allocated(s);
    rest, erased := CutRange(p, lower, upper, s);
  }

  /** Splits twice, hands over the middle, and joins what is left. */
  method CutRange(p: Node?, lower: int, upper: int, ghost s: Tree<Node>) returns (rest: Node?, erased: seq<Node>)
    requires Linked(p, s) && Ordered(s)
    requires var (below, notBelow) := W.Split(s, lower);
             var (within, above) := W.Split(notBelow, upper);
             && Ordered(notBelow) && Ascending(Entries(below) + Entries(above))
             && Nodes(below) !! Nodes(notBelow) && Nodes(within) !! Nodes(above)
             && Nodes(below) + Nodes(notBelow) == Nodes(s) && Nodes(within) + Nodes(above) == Nodes(notBelow)
    modifies Nodes(s)`left, Nodes(s)`right, Nodes(s)`size, Nodes(s)`augmentedSize
    ensures Linked(rest, W.EraseRange(s, lower, upper).0)
    ensures |erased| == Size(W.EraseRange(s, lower, upper).1)
    ensures (set n | n in erased) == Nodes(W.EraseRange(s, lower, upper).1)
  {
    ghost var below, notBelow := W.Split(s, lower).0, W.Split(s, lower).1;
    ghost var within, above := W.Split(notBelow, upper).0, W.Split(notBelow, upper).1;
    Allocated(below);
    Allocated(within);
    Allocated(above);
    var low, middle := Split(p, lower, s);
    var high;
    middle, high := Split(middle, upper, notBelow);
    erased := ForEachBottomUp(middle, within);
    rest := Join(low, high, below, above);
  }

  lemma RangeNodes(s: Tree<Node>, lower: int, upper: int)
    requires Ordered(s) && Keyed(s)
    ensures Nodes(W.EraseRange(s, lower, upper).1) == set n | n in Nodes(s) && lower <= n.key < upper
  {
    W.EraseRangeIsExact(s, lower, upper);
    RangeParts(s, lower, upper);
    KeptMeans(s, W.EraseRange(s, lower, upper).0, KeysIn(lower, upper));
    JoinNodes(W.Split(s, lower).0, W.Split(W.Split(s, lower).1, upper).1);
  }

  lemma JoinNodes(l: Tree<Node>, r: Tree<Node>)
    requires Ordered(r)
    ensures Nodes(W.Join(l, r)) == Nodes(l) + Nodes(r)
  {
    W.JoinConcatenates(l, r);
    NodesAreItems(l);
    NodesAreItems(r);
    NodesAreItems(W.Join(l, r));
    ItemsConcat(Entries(l), Entries(r));
  }

  class WbTreeMap {
    var root: Node?
    var size: nat
    ghost var shape: Tree<Node>

    ghost predicate Valid()
      reads this, Nodes(shape)
    {
      Whole(root, shape) && size == Size(shape)
    }

    /** The finite map the container stands for. */
    ghost function Contents(): map<int, Fruit>
      requires Valid()
      reads this, Nodes(shape)
    {
      ContentsOf(shape)
    }

    constructor ()
      ensures Valid() && Contents() == map[]
    {
      root, size, shape := null, 0, Nil;
    }

    /** Takes over a tree that is already whole. */
    method Replace(newRoot: Node?, newSize: int, ghost newShape: Tree<Node>)
      requires Whole(newRoot, newShape) && newSize == Size(newShape)
      modifies this
      ensures Valid() && shape == newShape && Contents() == old(ContentsOf(newShape))
    {
      Allocated(newShape);
      root, size, shape := newRoot, newSize, newShape;
    }

    /** Removes the entry with a key, if there is one, and hands its node out. */
    method Extract(key: int) returns (extracted: Node?)
      requires Valid()
      modifies this, Nodes(shape)`left, Nodes(shape)`right, Nodes(shape)`size, Nodes(shape)`augmentedSize
      ensures Valid() && Contents() == old(Contents()) - {key}
      ensures extracted != null <==> key in old(Contents())
      ensures extracted != null ==> extracted.key == key && extracted.fruit == old(Contents())[key] && Alone(extracted)
    {
      var rest;
      rest, extracted := Remove(root, key, shape);
      Replace(rest, size - if extracted != null then 1 else 0, W.Extract(shape, key));
    }

    /** Files an entry under its key; only a new key can be refused, and then nothing changes. */
    method Upsert(key: int, fruit: Fruit, granted: bool) returns (found: Node?, placement: Placement)
      requires Valid()
      modifies this, Nodes(shape)
      ensures Valid()
      ensures placement == Matched <==> key in old(Contents())
      ensures placement == Refused <==> key !in old(Contents()) && !granted
      ensures Contents() == if placement == Refused then old(Contents()) else old(Contents())[key := fruit]
      ensures found != null <==> placement != Refused
      ensures found != null ==> found.key == key && found.fruit == fruit && found in Nodes(shape)
    {
      var newRoot;
      newRoot, found, placement := Put(root, key, fruit, granted, shape);
      Replace(newRoot, size + if placement == Made then 1 else 0, Upserted(shape, found, placement));
    }

    /** Files an entry under a new key; a key already here keeps what it has. */
    method Insert(key: int, fruit: Fruit, granted: bool) returns (found: Node?, placement: Placement)
      requires Valid()
      modifies this, Nodes(shape)
      ensures Valid()
      ensures placement == Matched <==> key in old(Contents())
      ensures placement == Refused <==> key !in old(Contents()) && !granted
      ensures Contents() == if placement == Made then old(Contents())[key := fruit] else old(Contents())
      ensures found != null <==> placement != Refused
      ensures found != null ==> found.key == key && found in Nodes(shape)
    {
      HasIsContents(shape, key);
      Allocated(shape);
      found := Find(root, key, shape);
      if found != null {
        return found, Matched;
      }
      found, placement := Upsert(key, fruit, granted);
    }

    /** Keeps what the predicate does not pick, and counts the others. */
    method EraseIf(predicate_: (int, Fruit) -> bool) returns (removed: int)
      requires Valid()
      modifies this, Nodes(shape)`left, Nodes(shape)`right, Nodes(shape)`size, Nodes(shape)`augmentedSize
      ensures Valid() && Contents() == old(Contents()) - Picked(predicate_, old(Contents()))
      ensures forall k :: k in Contents() <==> k in old(Contents()) && !predicate_(k, old(Contents())[k])
      ensures removed == old(size) - size
    {
      DoomedMeans(shape, predicate_);
      var rest, count := Drop(root, predicate_, shape, Picked(predicate_, ContentsOf(shape)));
      removed := size - count;
      Replace(rest, count, W.EraseIf(shape, old(Picked(predicate_, ContentsOf(shape)))));
    }

    /** Erases the keys in [lower, upper), handing each node over first, and no others. */
    method EraseRange(lower: int, upper: int) returns (erased: seq<Node>)
      requires Valid()
      modifies this, Nodes(shape)`left, Nodes(shape)`right, Nodes(shape)`size, Nodes(shape)`augmentedSize
      ensures Valid() && Contents() == old(Contents()) - KeysIn(lower, upper)
      ensures |erased| == old(size) - size
      ensures AreInRange(erased, old(shape), lower, upper)
    {
      var rest;
      rest, erased := DropRange(root, lower, upper, shape);
      Replace(rest, size - |erased|, W.EraseRange(shape, lower, upper).0);
    }
  }
}
