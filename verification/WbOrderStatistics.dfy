/** Positions of the nodes in memory: among all entries, and among the counted ones. */
module WbOrderStatistics {
  import opened OrderedTrees
  import opened WbTree

  /** The k-th node in order, read off the stored sizes. */
  function SelectNode(p: Node?, k: nat, ghost s: Tree<Node>): (found: Node?)
    requires Linked(p, s)
    reads Nodes(s)
    ensures found == if k < Size(s) then Entries(s)[k].item else null
    decreases s
  {
    if p == null then null
    else
      LinkedRoot(p.left, s.left);
      EntryAt(s, if k < Size(s) then k else 0);
      var leftSize := GetSize(p.left);
      if k < leftSize then SelectNode(p.left, k, s.left)
      else if k == leftSize then p
      else SelectNode(p.right, k - leftSize - 1, s.right)
  }

  /** The number of smaller keys, which is the position of the key when it is there. */
  function RankNode(p: Node?, key: int, ghost s: Tree<Node>): (rank: nat)
    requires Linked(p, s)
    reads Nodes(s)
    ensures rank == Rank(s, key)
    decreases s
  {
    if p == null then 0
    else
      LinkedRoot(p.left, s.left);
      if key < p.key then RankNode(p.left, key, s.left)
      else if p.key < key then GetSize(p.left) + 1 + RankNode(p.right, key, s.right)
      else GetSize(p.left)
  }

  // ---- Counted entries ----------------------------------------------------------------------------

  ghost function OwnCounted(n: Node): seq<Node>
    reads n`fruit
  {
    if n.fruit.counted then [n] else []
  }

  /** The nodes the policy counts, in order. */
  ghost function Counted(s: Tree<Node>): (ns: seq<Node>)
    reads Nodes(s)`fruit
    ensures |ns| == Tally(s)
  {
    match s
    case Nil => []
    case Bin(l, e, r) => Counted(l) + OwnCounted(e.item) + Counted(r)
  }

  /** The same, as a filter of the in-order sequence. */
  ghost function CountedAmong(es: seq<Entry<Node>>): seq<Node>
    reads Items(es)`fruit
  {
    if es == [] then [] else OwnCounted(es[0].item) + CountedAmong(es[1..])
  }

  lemma {:induction false} CountedConcat(a: seq<Entry<Node>>, b: seq<Entry<Node>>)
    ensures CountedAmong(a + b) == CountedAmong(a) + CountedAmong(b)
  {
    if a == [] {
      assert a + b == b;
    } else {
      assert (a + b)[1..] == a[1..] + b;
      CountedConcat(a[1..], b);
    }
  }

  lemma {:induction false} CountedIsFilter(s: Tree<Node>)
    ensures Counted(s) == CountedAmong(Entries(s))
  {
    if s.Bin? {
      CountedIsFilter(s.left);
      CountedIsFilter(s.right);
      CountedConcat(Entries(s.left) + [s.entry], Entries(s.right));
      CountedConcat(Entries(s.left), [s.entry]);
      assert [s.entry][1..] == [];
      assert CountedAmong([s.entry]) == OwnCounted(s.entry.item);
    }
  }

  lemma {:induction false} CountedAreNodes(s: Tree<Node>)
    ensures forall i :: 0 <= i < |Counted(s)| ==> Counted(s)[i] in Nodes(s)
  {
    if s.Bin? {
      CountedAreNodes(s.left);
      CountedAreNodes(s.right);
    }
  }

  /** They are exactly the nodes whose entries say so. */
  lemma {:induction false} CountedExactly(s: Tree<Node>)
    requires Distinct(s)
    ensures forall n :: n in Nodes(s) ==> (n in Counted(s) <==> n.fruit.counted)
  {
    if s.Bin? {
      CountedExactly(s.left);
      CountedExactly(s.right);
      CountedAreNodes(s.left);
      CountedAreNodes(s.right);
      forall n | n in Nodes(s)
        ensures n in Counted(s) <==> n.fruit.counted
      {
        CountedInParts(s, n);
      }
    }
  }

  lemma CountedInParts(s: Tree<Node>, n: Node)
    requires s.Bin?
    ensures n in Counted(s) <==> n in Counted(s.left) || n in OwnCounted(s.entry.item) || n in Counted(s.right)
  {
  }

  ghost function CountedAt(s: Tree<Node>, k: int): Node?
    reads Nodes(s)`fruit
  {
    if 0 <= k < |Counted(s)| then Counted(s)[k] else null
  }

  /** Where a position among a tree's counted nodes is one level down. */
  lemma CountedDown(s: Tree<Node>, k: nat)
    requires s.Bin?
    ensures k < Tally(s.left) ==> CountedAt(s, k) == CountedAt(s.left, k)
    ensures k == Tally(s.left) && s.entry.item.fruit.counted ==> CountedAt(s, k) == s.entry.item
    ensures k >= Tally(s.left) + Own(s.entry.item.fruit) ==>
              CountedAt(s, k) == CountedAt(s.right, k - Tally(s.left) - Own(s.entry.item.fruit))
  {
  }

  /** The counted node at a position, found going down once by what the nodes store. */
  method SelectAugmented(root: Node?, index: nat, ghost s: Tree<Node>) returns (found: Node?)
    requires Linked(root, s)
    ensures found == if index < |Counted(s)| then Counted(s)[index] else null
    ensures Distinct(s) && found != null ==> found in Nodes(s) && found.fruit.counted
  {
    if Distinct(s) {
      CountedExactly(s);
      CountedAreNodes(s);
    }
    var node: Node?, k: nat := root, index;
    ghost var t := s;
    ghost var wanted := CountedAt(s, index);
    while node != null
      invariant Linked(node, t) && CountedAt(t, k) == wanted == CountedAt(s, index)
      decreases t
    {
      LinkedRoot(node.left, t.left);
      LinkedRoot(node.right, t.right);
      CountedDown(t, k);
      var leftCount := GetAugmentedSize(node.left);
      if k < leftCount {
        node, t := node.left, t.left;
        continue;
      }
      k := k - leftCount;
      var ownCount := Own(node.fruit);
      if ownCount != 0 && k == 0 {
        return node;
      }
      k := k - ownCount;
      node, t := node.right, t.right;
    }
    found := null;
  }

  /** Where a key falls among the counted nodes. */
  ghost predicate SplitsCounted(s: Tree<Node>, key: int, rank: nat)
    reads Nodes(s)`fruit
  {
    && rank <= |Counted(s)|
    && forall i :: 0 <= i < |Counted(s)| ==> (i < rank <==> Counted(s)[i].key < key)
  }

  lemma AllCountedBefore(s: Tree<Node>, key: int)
    requires Keyed(s) && Before(Entries(s), key)
    ensures forall i :: 0 <= i < |Counted(s)| ==> Counted(s)[i].key < key
  {
    CountedAreNodes(s);
    forall n | n in Nodes(s)
      ensures n.key < key
    {
      NodesHaveKeys(s, n);
    }
  }

  lemma AllCountedFrom(s: Tree<Node>, key: int)
    requires Keyed(s) && From(Entries(s), key)
    ensures forall i :: 0 <= i < |Counted(s)| ==> key <= Counted(s)[i].key
  {
    CountedAreNodes(s);
    forall n | n in Nodes(s)
      ensures key <= n.key
    {
      NodesHaveKeys(s, n);
    }
  }

  /** One step of the descent: what the branch not taken contributes to the rank. */
  lemma RankOneDown(p: Node?, s: Tree<Node>, key: int, below: nat)
    requires s.Bin? && Linked(p, s) && Ordered(s)
    requires key < s.entry.key ==> SplitsCounted(s.left, key, below)
    requires s.entry.key < key ==> SplitsCounted(s.right, key, below)
    ensures key < s.entry.key ==> SplitsCounted(s, key, below)
    ensures s.entry.key < key ==> SplitsCounted(s, key, Tally(s.left) + Own(s.entry.item.fruit) + below)
    ensures s.entry.key == key ==> SplitsCounted(s, key, Tally(s.left))
  {
    LinkedIsKeyed(p, s);
    OrderedParts(s);
    AllCountedBefore(s.left, s.entry.key);
    AllCountedFrom(s.right, s.entry.key + 1);
  }

  /** The rank the descent adds up. */
  ghost function CountedRank(s: Tree<Node>, key: int): nat
    reads Nodes(s)`fruit
  {
    match s
    case Nil => 0
    case Bin(l, e, r) =>
      if key < e.key then CountedRank(l, key)
      else if e.key < key then Tally(l) + Own(e.item.fruit) + CountedRank(r, key)
      else Tally(l)
  }

  lemma {:induction false} CountedRankSplits(p: Node?, s: Tree<Node>, key: int)
    requires Linked(p, s) && Ordered(s)
    ensures SplitsCounted(s, key, CountedRank(s, key))
    decreases s
  {
    if s.Bin? {
      OrderedParts(s);
      if key < s.entry.key {
        CountedRankSplits(p.left, s.left, key);
        RankOneDown(p, s, key, CountedRank(s.left, key));
      } else if s.entry.key < key {
        CountedRankSplits(p.right, s.right, key);
        RankOneDown(p, s, key, CountedRank(s.right, key));
      } else {
        RankOneDown(p, s, key, 0);
      }
    }
  }

  /** The number of counted nodes with smaller keys: the key falls exactly there among them. */
  method RankAugmented(root: Node?, key: int, ghost s: Tree<Node>) returns (counted: nat)
    requires Linked(root, s) && Ordered(s)
    ensures SplitsCounted(s, key, counted)
  {
    CountedRankSplits(root, s, key);
    ghost var rank := CountedRank(s, key);
    var node := root;
    counted := 0;
    ghost var t := s;
    while node != null
      invariant Linked(node, t) && SplitsCounted(s, key, rank)
      invariant rank == counted + CountedRank(t, key)
      decreases t
    {
      LinkedRoot(node.left, t.left);
      if key < node.key {
        node, t := node.left, t.left;
      } else if node.key < key {
        counted := counted + GetAugmentedSize(node.left) + Own(node.fruit);
        node, t := node.right, t.right;
      } else {
        return counted + GetAugmentedSize(node.left);
      }
    }
  }

  lemma {:induction false} CountedRise(p: Node?, s: Tree<Node>)
    requires Linked(p, s) && Ordered(s)
    ensures forall i, j :: 0 <= i < j < |Counted(s)| ==> Counted(s)[i].key < Counted(s)[j].key
    decreases s
  {
    if s.Bin? {
      LinkedIsKeyed(p, s);
      OrderedParts(s);
      CountedRise(p.left, s.left);
      CountedRise(p.right, s.right);
      AllCountedBefore(s.left, s.entry.key);
      AllCountedFrom(s.right, s.entry.key + 1);
    }
  }

  /** Ranking what was selected gives its position back: whatever splits the counted nodes at the key of the
      `index`-th of them is `index`. */
  lemma RankUndoesSelectAugmented(p: Node?, s: Tree<Node>, index: nat, rank: nat)
    requires Linked(p, s) && Ordered(s) && index < |Counted(s)|
    ensures SplitsCounted(s, Counted(s)[index].key, rank) <==> rank == index
  {
    CountedRise(p, s);
    if rank < index {
      assert Counted(s)[rank].key < Counted(s)[index].key;
    }
  }

  /** Selecting at the rank of a key gives the counted node with that key, if there is one and only then. */
  lemma SelectUndoesRankAugmented(p: Node?, s: Tree<Node>, key: int, rank: nat)
    requires Linked(p, s) && Ordered(s) && SplitsCounted(s, key, rank)
    ensures (exists n :: n in Counted(s) && n.key == key) <==> rank < |Counted(s)| && Counted(s)[rank].key == key
  {
    CountedRise(p, s);
    if n :| n in Counted(s) && n.key == key {
      var i :| 0 <= i < |Counted(s)| && Counted(s)[i] == n;
      assert rank <= i && !(rank < i && Counted(s)[rank].key < key);
    }
  }

  // ---- Repairing counts ---------------------------------------------------------------------------

  ghost predicate Touches(s: Tree<Node>, stale: set<int>) {
    exists n :: n in Nodes(s) && n.key in stale
  }

  /** Linked, except that the augmented counts above nodes with stale keys need not be exact. It does not
      depend on what those nodes store. */
  ghost predicate LinkedBut(p: Node?, s: Tree<Node>, stale: set<int>)
    reads Nodes(s)`left, Nodes(s)`right, Nodes(s)`size, Nodes(s)`augmentedSize
    reads (set n | n in Nodes(s) && n.key !in stale)`fruit
    decreases s
  {
    match s
    case Nil => p == null
    case Bin(l, e, r) =>
      && p == e.item && p.key == e.key && p.size == Size(s)
      && (Touches(s, stale) || p.augmentedSize == Tally(s))
      && LinkedBut(p.left, l, stale) && LinkedBut(p.right, r, stale)
  }

  lemma {:induction false} NothingStale(p: Node?, s: Tree<Node>)
    ensures LinkedBut(p, s, {}) <==> Linked(p, s)
    decreases s
  {
    if s.Bin? && p == s.entry.item {
      NothingStale(p.left, s.left);
      NothingStale(p.right, s.right);
    }
  }

  lemma {:induction false} MoreMayBeStale(p: Node?, s: Tree<Node>, stale: set<int>, more: set<int>)
    requires LinkedBut(p, s, stale) && stale <= more
    ensures LinkedBut(p, s, more)
    decreases s
  {
    if s.Bin? {
      MoreMayBeStale(p.left, s.left, stale, more);
      MoreMayBeStale(p.right, s.right, stale, more);
    }
  }

  lemma {:induction false} LinkedButIsKeyed(p: Node?, s: Tree<Node>, stale: set<int>)
    requires LinkedBut(p, s, stale)
    ensures Keyed(s)
    decreases s
  {
    if s.Bin? {
      LinkedButIsKeyed(p.left, s.left, stale);
      LinkedButIsKeyed(p.right, s.right, stale);
    }
  }

  /** An entry that is changed in place makes the counts above it wait for a refresh, and no others. */
  method Retag(n: Node, fruit: Fruit, root: Node?, ghost s: Tree<Node>, ghost stale: set<int>)
    requires LinkedBut(root, s, stale)
    modifies n`fruit
    ensures n.fruit == fruit && LinkedBut(root, s, stale + {n.key})
  {
    MoreMayBeStale(root, s, stale, stale + {n.key});
    Allocated(s);
    n.fruit := fruit;
  }

  /** A key that is not in a tree is not what any of its counts is waiting for. */
  lemma {:induction false} StaleElsewhere(p: Node?, s: Tree<Node>, stale: set<int>, key: int)
    requires LinkedBut(p, s, stale) && forall n :: n in Nodes(s) ==> n.key != key
    ensures LinkedBut(p, s, stale - {key})
    decreases s
  {
    if s.Bin? {
      StaleElsewhere(p.left, s.left, stale, key);
      StaleElsewhere(p.right, s.right, stale, key);
    }
  }

  /** Where the nodes with a key can be: on the side the descent takes. */
  lemma OneSideOnly(s: Tree<Node>, key: int)
    requires s.Bin? && Ordered(s) && Keyed(s)
    ensures Distinct(s) && Ordered(s.left) && Ordered(s.right)
    ensures key <= s.entry.key ==> forall n :: n in Nodes(s.right) ==> n.key != key
    ensures s.entry.key <= key ==> forall n :: n in Nodes(s.left) ==> n.key != key
  {
    OrderedIsDistinct(s);
    OrderedParts(s);
    forall n | n in Nodes(s.left)
      ensures n.key < s.entry.key
    {
      NodesHaveKeys(s.left, n);
    }
    forall n | n in Nodes(s.right)
      ensures s.entry.key < n.key
    {
      NodesHaveKeys(s.right, n);
    }
  }

  /** A node above two branches that wait for nothing new is exact once recomputed. */
  method RefreshNode(node: Node, ghost s: Tree<Node>, ghost stale: set<int>)
    requires s.Bin? && s.entry == Of(node) && node.size == Size(s) && Distinct(s)
    requires LinkedBut(node.left, s.left, stale) && LinkedBut(node.right, s.right, stale)
    modifies node`augmentedSize
    ensures LinkedBut(node, s, stale)
  {
    node.augmentedSize := Own(node.fruit) + GetAugmentedSize(node.left) + GetAugmentedSize(node.right);
  }

  /** Rewalks the path to a key whose entry changed its count; any number of other entries may still be
      waiting for theirs. Once the last one is refreshed every count is exact again. */
  method RefreshAugmentation(node: Node?, key: int, ghost s: Tree<Node>, ghost stale: set<int>) returns (found: bool)
    requires LinkedBut(node, s, stale) && Ordered(s)
    modifies Nodes(s)`augmentedSize
    ensures found <==> Has(s, key)
    ensures LinkedBut(node, s, if found then stale - {key} else stale)
    decreases s
  {
    if node == null {
      return false;
    }
    LinkedButIsKeyed(node, s, stale);
    OneSideOnly(s, key);
    Allocated(s.left);
    Allocated(s.right);
    if key < node.key {
      StaleElsewhere(node.right, s.right, stale, key);
      found := RefreshAugmentation(node.left, key, s.left, stale);
    } else if node.key < key {
      StaleElsewhere(node.left, s.left, stale, key);
      found := RefreshAugmentation(node.right, key, s.right, stale);
    } else {
      StaleElsewhere(node.left, s.left, stale, key);
      StaleElsewhere(node.right, s.right, stale, key);
      found := true;
    }
    if found {
      RefreshNode(node, s, stale - {key});
    }
  }
}
