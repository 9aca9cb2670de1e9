/** The weight-balanced tree in memory: nodes relinked in place, each method proved to leave exactly the shape
    its value-level counterpart in WeightBalance computes, with both subtree counts exact at every node. */
module WbTree {
  import opened OrderedTrees
  import W = WeightBalance

  /** A stored entry's payload, and whether the augmentation policy counts it. */
  datatype Fruit = Fruit(payload: int, counted: bool)

  class Node {
    const key: int
    var fruit: Fruit
    var left: Node?
    var right: Node?
    var size: nat
    var augmentedSize: nat

    constructor (key: int, fruit: Fruit)
      ensures this.key == key && this.fruit == fruit && left == null && right == null
      ensures size == 1 && augmentedSize == Own(fruit)
    {
      this.key, this.fruit, left, right := key, fruit, null, null;
      size, augmentedSize := 1, Own(fruit);
    }
  }

  function Own(fruit: Fruit): nat {
    if fruit.counted then 1 else 0
  }

  function GetSize(n: Node?): nat
    reads n
  {
    if n == null then 0 else n.size
  }

  function GetAugmentedSize(n: Node?): nat
    reads n
  {
    if n == null then 0 else n.augmentedSize
  }

  function GetWeight(n: Node?): nat
    reads n
  {
    GetSize(n) + 1
  }

  // ---- Shapes of linked nodes ---------------------------------------------------------------------

  /** How many entries of a shape the policy counts right now. */
  ghost function Tally(s: Tree<Node>): nat
    reads Nodes(s)`fruit
  {
    match s
    case Nil => 0
    case Bin(l, e, r) => Tally(l) + Own(e.item.fruit) + Tally(r)
  }

  /** The nodes reachable from `p` have exactly this shape, and both counts are exact at each of them. */
  ghost predicate Linked(p: Node?, s: Tree<Node>)
    reads Nodes(s)
    decreases s
  {
    match s
    case Nil => p == null
    case Bin(l, e, r) =>
      && p == e.item && p.key == e.key
      && p.size == Size(s) && p.augmentedSize == Tally(s)
      && Linked(p.left, l) && Linked(p.right, r)
  }

  lemma LinkedRoot(p: Node?, s: Tree<Node>)
    requires Linked(p, s)
    ensures p == null <==> s.Nil?
    ensures GetSize(p) == Size(s) && GetAugmentedSize(p) == Tally(s)
    ensures p != null ==> p in Nodes(s)
  {
  }

  ghost function Of(n: Node): Entry<Node> {
    Entry(n.key, n)
  }

  /** A node with no children, counting for itself alone. */
  ghost predicate Alone(n: Node)
    reads n
  {
    n.left == null && n.right == null && n.size == 1 && n.augmentedSize == Own(n.fruit)
  }

  /** Recomputing both counts of a node whose children are exact makes the node exact. */
  method UpdateSize(n: Node, ghost l: Tree<Node>, ghost r: Tree<Node>)
    requires Linked(n.left, l) && Linked(n.right, r) && n !in Nodes(l) && n !in Nodes(r)
    modifies n`size, n`augmentedSize
    ensures Linked(n, Bin(l, Of(n), r))
  {
    LinkedRoot(n.left, l);
    LinkedRoot(n.right, r);
    n.size := 1 + GetSize(n.left) + GetSize(n.right);
    n.augmentedSize := Own(n.fruit) + GetAugmentedSize(n.left) + GetAugmentedSize(n.right);
  }

  /** Every node of a shape is allocated, so a call that may not touch it leaves it alone. */
  lemma Allocated(s: Tree<Node>)
    ensures allocated(Nodes(s))
  {
  }

  method RotateRight(y: Node, ghost s: Tree<Node>) returns (x: Node)
    requires s.Bin? && s.left.Bin? && Distinct(s)
    requires s.entry == Of(y) && Linked(y.left, s.left) && Linked(y.right, s.right)
    modifies Nodes(s)`left, Nodes(s)`right, Nodes(s)`size, Nodes(s)`augmentedSize
    ensures Linked(x, RotatedRight(s))
  {
    ghost var a, b, c := s.left.left, s.left.right, s.right;
    x := y.left;
    var inner := x.right;
    x.right := y;
    y.left := inner;
    Allocated(a);
    Allocated(b);
    Allocated(c);
    UpdateSize(y, b, c);
    UpdateSize(x, a, Bin(b, Of(y), c));
  }

  method RotateLeft(x: Node, ghost s: Tree<Node>) returns (y: Node)
    requires s.Bin? && s.right.Bin? && Distinct(s)
    requires s.entry == Of(x) && Linked(x.left, s.left) && Linked(x.right, s.right)
    modifies Nodes(s)`left, Nodes(s)`right, Nodes(s)`size, Nodes(s)`augmentedSize
    ensures Linked(y, RotatedLeft(s))
  {
    ghost var a, b, c := s.left, s.right.left, s.right.right;
    y := x.right;
    var inner := y.left;
    y.left := x;
    x.right := inner;
    Allocated(a);
    Allocated(b);
    Allocated(c);
    UpdateSize(x, a, b);
    UpdateSize(y, Bin(a, Of(x), b), c);
  }

  method RotateInnerThenRight(node: Node, ghost s: Tree<Node>) returns (root: Node)
    requires s.Bin? && s.left.Bin? && s.left.right.Bin? && Linked(node, s) && Distinct(s)
    modifies Nodes(s)`left, Nodes(s)`right, Nodes(s)`size, Nodes(s)`augmentedSize
    ensures Linked(root, RotatedRight(Bin(RotatedLeft(s.left), s.entry, s.right)))
  {
    RotationKeepsNodes(s.left);
    Allocated(s.right);
    node.left := RotateLeft(node.left, s.left);
    root := RotateRight(node, Bin(RotatedLeft(s.left), s.entry, s.right));
  }

  method RotateInnerThenLeft(node: Node, ghost s: Tree<Node>) returns (root: Node)
    requires s.Bin? && s.right.Bin? && s.right.left.Bin? && Linked(node, s) && Distinct(s)
    modifies Nodes(s)`left, Nodes(s)`right, Nodes(s)`size, Nodes(s)`augmentedSize
    ensures Linked(root, RotatedLeft(Bin(s.left, s.entry, RotatedRight(s.right))))
  {
    RotationKeepsNodes(s.right);
    Allocated(s.left);
    node.right := RotateRight(node.right, s.right);
    root := RotateLeft(node, Bin(s.left, s.entry, RotatedRight(s.right)));
  }

  method Rebalance(node: Node, ghost s: Tree<Node>) returns (root: Node)
    requires s.Bin? && Linked(node, s) && Distinct(s)
    modifies Nodes(s)`left, Nodes(s)`right, Nodes(s)`size, Nodes(s)`augmentedSize
    ensures Linked(root, W.Rebalance(s))
  {
    LinkedRoot(node.left, s.left);
    LinkedRoot(node.right, s.right);
    var leftWeight, rightWeight := GetWeight(node.left), GetWeight(node.right);
    if leftWeight > W.DELTA * rightWeight {
      var left := node.left;
      LinkedRoot(left.left, s.left.left);
      LinkedRoot(left.right, s.left.right);
      if GetWeight(left.right) < W.GAMMA * GetWeight(left.left) {
        root := RotateRight(node, s);
        return;
      }
      root := RotateInnerThenRight(node, s);
      return;
    }
    if rightWeight > W.DELTA * leftWeight {
      var right := node.right;
      LinkedRoot(right.left, s.right.left);
      LinkedRoot(right.right, s.right.right);
      if GetWeight(right.left) < W.GAMMA * GetWeight(right.right) {
        root := RotateLeft(node, s);
        return;
      }
      root := RotateInnerThenLeft(node, s);
      return;
    }
    root := node;
  }

  // ---- Distinct keys keep nodes apart -------------------------------------------------------------

  ghost predicate Keyed(s: Tree<Node>) {
    s.Nil? || (s.entry == Of(s.entry.item) && Keyed(s.left) && Keyed(s.right))
  }

  lemma {:induction false} LinkedIsKeyed(p: Node?, s: Tree<Node>)
    requires Linked(p, s)
    ensures Keyed(s)
    decreases s
  {
    if s.Bin? {
      LinkedIsKeyed(p.left, s.left);
      LinkedIsKeyed(p.right, s.right);
    }
  }

  lemma {:induction false} NodesHaveKeys(s: Tree<Node>, n: Node)
    requires Keyed(s) && n in Nodes(s)
    ensures exists i :: 0 <= i < Size(s) && Entries(s)[i].key == n.key
  {
    if n in Nodes(s.left) {
      NodesHaveKeys(s.left, n);
      var i :| 0 <= i < Size(s.left) && Entries(s.left)[i].key == n.key;
      EntryAt(s, i);
    } else if n in Nodes(s.right) {
      NodesHaveKeys(s.right, n);
      var i :| 0 <= i < Size(s.right) && Entries(s.right)[i].key == n.key;
      EntryAt(s, Size(s.left) + 1 + i);
    } else {
      EntryAt(s, Size(s.left));
    }
  }

  lemma {:induction false} OrderedIsDistinct(s: Tree<Node>)
    requires Ordered(s) && Keyed(s)
    ensures Distinct(s)
  {
    if s.Bin? {
      OrderedParts(s);
      OrderedIsDistinct(s.left);
      OrderedIsDistinct(s.right);
      forall n | n in Nodes(s.left)
        ensures n.key < s.entry.key
      {
        NodesHaveKeys(s.left, n);
      }
      forall n | n in Nodes(s.right)
        ensures s.entry.key < n.key
      {
        NodesHaveKeys(s.right, n);
      }
    }
  }

  lemma LinkedDistinct(p: Node?, s: Tree<Node>)
    requires Linked(p, s) && Ordered(s)
    ensures Distinct(s) && allocated(Nodes(s))
    ensures s.Bin? ==> Ordered(s.left) && Ordered(s.right) && Distinct(s.left) && Distinct(s.right)
    ensures s.Bin? ==> allocated(Nodes(s.left)) && allocated(Nodes(s.right))
  {
    LinkedIsKeyed(p, s);
    OrderedIsDistinct(s);
    if s.Bin? {
      OrderedParts(s);
    }
  }

  /** Hangs a new left branch under a node, in order around it, and mends the node. */
  method MendLeft(node: Node, below: Node?, ghost l: Tree<Node>, ghost r: Tree<Node>) returns (root: Node)
    requires Linked(below, l) && Linked(node.right, r) && Ordered(Bin(l, Of(node), r))
    modifies ({node} + Nodes(l) + Nodes(r))`left, ({node} + Nodes(l) + Nodes(r))`right
    modifies ({node} + Nodes(l) + Nodes(r))`size, ({node} + Nodes(l) + Nodes(r))`augmentedSize
    ensures Linked(root, W.Rebalance(Bin(l, Of(node), r)))
  {
    LinkedIsKeyed(below, l);
    LinkedIsKeyed(node.right, r);
    OrderedIsDistinct(Bin(l, Of(node), r));
    node.left := below;
    UpdateSize(node, l, r);
    root := Rebalance(node, Bin(l, Of(node), r));
  }

  method MendRight(node: Node, below: Node?, ghost l: Tree<Node>, ghost r: Tree<Node>) returns (root: Node)
    requires Linked(node.left, l) && Linked(below, r) && Ordered(Bin(l, Of(node), r))
    modifies ({node} + Nodes(l) + Nodes(r))`left, ({node} + Nodes(l) + Nodes(r))`right
    modifies ({node} + Nodes(l) + Nodes(r))`size, ({node} + Nodes(l) + Nodes(r))`augmentedSize
    ensures Linked(root, W.Rebalance(Bin(l, Of(node), r)))
  {
    LinkedIsKeyed(node.left, l);
    LinkedIsKeyed(below, r);
    OrderedIsDistinct(Bin(l, Of(node), r));
    node.right := below;
    UpdateSize(node, l, r);
    root := Rebalance(node, Bin(l, Of(node), r));
  }

  /** Hangs a branch back that has not changed. */
  method KeepLeft(node: Node, below: Node?, ghost s: Tree<Node>)
    requires s.Bin? && s.entry == Of(node) && Distinct(s) && Linked(below, s.left) && Linked(node.right, s.right)
    requires node.size == Size(s) && node.augmentedSize == Tally(s)
    modifies node`left
    ensures Linked(node, s)
  {
    node.left := below;
  }

  method KeepRight(node: Node, below: Node?, ghost s: Tree<Node>)
    requires s.Bin? && s.entry == Of(node) && Distinct(s) && Linked(node.left, s.left) && Linked(below, s.right)
    requires node.size == Size(s) && node.augmentedSize == Tally(s)
    modifies node`right
    ensures Linked(node, s)
  {
    node.right := below;
  }

  // ---- Insertion ----------------------------------------------------------------------------------

  lemma InsertBelow(s: Tree<Node>, e: Entry<Node>)
    requires s.Bin? && Ordered(s) && !Has(s, e.key)
    ensures e.key != s.entry.key
    ensures e.key < s.entry.key ==> Ordered(Bin(W.Insert(s.left, e), s.entry, s.right))
    ensures s.entry.key < e.key ==> Ordered(Bin(s.left, s.entry, W.Insert(s.right, e)))
  {
    W.InsertKeepsOrder(s, e);
    if e.key < s.entry.key {
      assert Entries(W.Insert(s, e)) == Entries(Bin(W.Insert(s.left, e), s.entry, s.right));
    } else {
      assert Entries(W.Insert(s, e)) == Entries(Bin(s.left, s.entry, W.Insert(s.right, e)));
    }
  }

  lemma {:induction false} InsertAddsNode(s: Tree<Node>, e: Entry<Node>)
    ensures Nodes(W.Insert(s, e)) == if Has(s, e.key) then Nodes(s) else Nodes(s) + {e.item}
  {
    if s.Bin? {
      InsertAddsNode(s.left, e);
      InsertAddsNode(s.right, e);
      RebalanceKeepsNodes(Bin(W.Insert(s.left, e), s.entry, s.right));
      RebalanceKeepsNodes(Bin(s.left, s.entry, W.Insert(s.right, e)));
    }
  }

  lemma RebalanceKeepsNodes(s: Tree<Node>)
    ensures Nodes(W.Rebalance(s)) == Nodes(s)
  {
    NodesAreItems(s);
    NodesAreItems(W.Rebalance(s));
  }

  /** Links an existing node in where its key belongs, unless the key is taken. */
  method Insert(node: Node?, newChild: Node, ghost s: Tree<Node>) returns (root: Node, found: Node, made: bool)
    requires Linked(node, s) && Ordered(s) && newChild !in Nodes(s)
    requires Alone(newChild)
    modifies (Nodes(s) + {newChild})`left, (Nodes(s) + {newChild})`right
    modifies (Nodes(s) + {newChild})`size, (Nodes(s) + {newChild})`augmentedSize
    ensures made <==> !Has(s, newChild.key)
    ensures made ==> found == newChild
    ensures !made ==> found in Nodes(s) && found.key == newChild.key
    ensures Linked(root, W.Insert(s, Of(newChild)))
    decreases s, 1
  {
    if node == null {
      return newChild, newChild, true;
    }
    if newChild.key < node.key {
      root, found, made := InsertLeft(node, newChild, s);
    } else if node.key < newChild.key {
      root, found, made := InsertRight(node, newChild, s);
    } else {
      return node, node, false;
    }
  }

  /** What one level up needs to know about a node put into a branch. */
  lemma InsertOnLeft(s: Tree<Node>, e: Entry<Node>)
    requires s.Bin? && Ordered(s) && e.key < s.entry.key && !Has(s.left, e.key)
    ensures Ordered(Bin(W.Insert(s.left, e), s.entry, s.right)) && Nodes(W.Insert(s.left, e)) == Nodes(s.left) + {e.item}
    ensures W.Insert(s, e) == W.Rebalance(Bin(W.Insert(s.left, e), s.entry, s.right))
  {
    InsertBelow(s, e);
    InsertAddsNode(s.left, e);
  }

  lemma InsertOnRight(s: Tree<Node>, e: Entry<Node>)
    requires s.Bin? && Ordered(s) && s.entry.key < e.key && !Has(s.right, e.key)
    ensures Ordered(Bin(s.left, s.entry, W.Insert(s.right, e))) && Nodes(W.Insert(s.right, e)) == Nodes(s.right) + {e.item}
    ensures W.Insert(s, e) == W.Rebalance(Bin(s.left, s.entry, W.Insert(s.right, e)))
  {
    InsertBelow(s, e);
    InsertAddsNode(s.right, e);
  }

  /** Hangs a left branch with the new node in it. */
  method GraftLeft(node: Node, below: Node?, newChild: Node, ghost s: Tree<Node>) returns (root: Node)
    requires s.Bin? && s.entry == Of(node) && Ordered(s) && newChild.key < node.key && !Has(s.left, newChild.key)
    requires Linked(below, W.Insert(s.left, Of(newChild))) && Linked(node.right, s.right)
    modifies (Nodes(s) + {newChild})`left, (Nodes(s) + {newChild})`right
    modifies (Nodes(s) + {newChild})`size, (Nodes(s) + {newChild})`augmentedSize
    ensures Linked(root, W.Insert(s, Of(newChild)))
  {
    InsertOnLeft(s, Of(newChild));
    root := MendLeft(node, below, W.Insert(s.left, Of(newChild)), s.right);
  }

  method InsertLeft(node: Node, newChild: Node, ghost s: Tree<Node>) returns (root: Node, found: Node, made: bool)
    requires Linked(node, s) && Ordered(s) && newChild !in Nodes(s)
    requires Alone(newChild)
    requires newChild.key < node.key
    modifies (Nodes(s) + {newChild})`left, (Nodes(s) + {newChild})`right
    modifies (Nodes(s) + {newChild})`size, (Nodes(s) + {newChild})`augmentedSize
    ensures made <==> !Has(s, newChild.key)
    ensures made ==> found == newChild
    ensures !made ==> found in Nodes(s) && found.key == newChild.key
    ensures Linked(root, W.Insert(s, Of(newChild)))
    decreases s, 0
  {
    LinkedDistinct(node, s);
    var below;
    below, found, made := Insert(node.left, newChild, s.left);
    if made {
      root := GraftLeft(node, below, newChild, s);
    } else {
      KeepLeft(node, below, s);
      root := node;
    }
  }

  /** Hangs a right branch with the new node in it. */
  method GraftRight(node: Node, below: Node?, newChild: Node, ghost s: Tree<Node>) returns (root: Node)
    requires s.Bin? && s.entry == Of(node) && Ordered(s) && node.key < newChild.key && !Has(s.right, newChild.key)
    requires Linked(below, W.Insert(s.right, Of(newChild))) && Linked(node.left, s.left)
    modifies (Nodes(s) + {newChild})`left, (Nodes(s) + {newChild})`right
    modifies (Nodes(s) + {newChild})`size, (Nodes(s) + {newChild})`augmentedSize
    ensures Linked(root, W.Insert(s, Of(newChild)))
  {
    InsertOnRight(s, Of(newChild));
    root := MendRight(node, below, s.left, W.Insert(s.right, Of(newChild)));
  }

  method InsertRight(node: Node, newChild: Node, ghost s: Tree<Node>) returns (root: Node, found: Node, made: bool)
    requires Linked(node, s) && Ordered(s) && newChild !in Nodes(s)
    requires Alone(newChild)
    requires node.key < newChild.key
    modifies (Nodes(s) + {newChild})`left, (Nodes(s) + {newChild})`right
    modifies (Nodes(s) + {newChild})`size, (Nodes(s) + {newChild})`augmentedSize
    ensures made <==> !Has(s, newChild.key)
    ensures made ==> found == newChild
    ensures !made ==> found in Nodes(s) && found.key == newChild.key
    ensures Linked(root, W.Insert(s, Of(newChild)))
    decreases s, 0
  {
    LinkedDistinct(node, s);
    var below;
    below, found, made := Insert(node.right, newChild, s.right);
    if made {
      root := GraftRight(node, below, newChild, s);
    } else {
      KeepRight(node, below, s);
      root := node;
    }
  }

  datatype Placement = Refused | Matched | Made

  /** Makes one stale augmented count exact, given that both branches' counts and the sizes are. */
  method UpdateAugmentedSize(node: Node, ghost s: Tree<Node>)
    requires s.Bin? && s.entry == Of(node) && Distinct(s) && node.size == Size(s)
    requires Linked(node.left, s.left) && Linked(node.right, s.right)
    modifies node`augmentedSize
    ensures Linked(node, s)
  {
    LinkedRoot(node.left, s.left);
    LinkedRoot(node.right, s.right);
    node.augmentedSize := Own(node.fruit) + GetAugmentedSize(node.left) + GetAugmentedSize(node.right);
  }

  method RefreshLeft(node: Node, below: Node?, ghost s: Tree<Node>)
    requires s.Bin? && s.entry == Of(node) && Distinct(s) && node.size == Size(s)
    requires Linked(below, s.left) && Linked(node.right, s.right)
    modifies node`left, node`augmentedSize
    ensures Linked(node, s)
  {
    node.left := below;
    UpdateAugmentedSize(node, s);
  }

  method RefreshRight(node: Node, below: Node?, ghost s: Tree<Node>)
    requires s.Bin? && s.entry == Of(node) && Distinct(s) && node.size == Size(s)
    requires Linked(node.left, s.left) && Linked(below, s.right)
    modifies node`right, node`augmentedSize
    ensures Linked(node, s)
  {
    node.right := below;
    UpdateAugmentedSize(node, s);
  }

  /** The shape an upsert leaves, given where it put the entry. */
  ghost function Upserted(s: Tree<Node>, found: Node?, placement: Placement): Tree<Node> {
    if placement == Made && found != null then W.Insert(s, Of(found)) else s
  }

  /** Files a fruit under a key: in place when the key is there, in a new node when one can be had. */
  method Upsert(node: Node?, key: int, fruit: Fruit, granted: bool, ghost s: Tree<Node>)
    returns (root: Node?, found: Node?, placement: Placement)
    requires Linked(node, s) && Ordered(s)
    modifies Nodes(s)
    ensures placement == Matched <==> Has(s, key)
    ensures placement == Refused <==> !Has(s, key) && !granted
    ensures placement == Refused <==> found == null
    ensures placement == Matched ==> found in Nodes(s)
    ensures placement == Made ==> fresh(found)
    ensures found != null ==> found.key == key && found.fruit == fruit
    ensures Linked(root, Upserted(s, found, placement))
    ensures forall n :: n in Nodes(s) && n != found && old(allocated(n)) ==> n.fruit == old(n.fruit)
    decreases s, 1
  {
    if node == null {
      if !granted {
        return null, null, Refused;
      }
      found := new Node(key, fruit);
      return found, found, Made;
    }
    LinkedDistinct(node, s);
    if key < node.key {
      root, found, placement := UpsertLeft(node, key, fruit, granted, s);
    } else if node.key < key {
      root, found, placement := UpsertRight(node, key, fruit, granted, s);
    } else {
      node.fruit := fruit;
      UpdateAugmentedSize(node, s);
      return node, node, Matched;
    }
  }

  method UpsertLeft(node: Node, key: int, fruit: Fruit, granted: bool, ghost s: Tree<Node>)
    returns (root: Node?, found: Node?, placement: Placement)
    requires Linked(node, s) && Ordered(s) && key < node.key
    modifies Nodes(s)
    ensures placement == Matched <==> Has(s, key)
    ensures placement == Refused <==> !Has(s, key) && !granted
    ensures placement == Refused <==> found == null
    ensures placement == Matched ==> found in Nodes(s)
    ensures placement == Made ==> fresh(found)
    ensures found != null ==> found.key == key && found.fruit == fruit
    ensures Linked(root, Upserted(s, found, placement))
    ensures forall n :: n in Nodes(s) && n != found && old(allocated(n)) ==> n.fruit == old(n.fruit)
    decreases s, 0
  {
    LinkedDistinct(node, s);
    var below;
    below, found, placement := Upsert(node.left, key, fruit, granted, s.left);
    if placement == Made {
      InsertBelow(s, Of(found));
      InsertAddsNode(s.left, Of(found));
      root := MendLeft(node, below, W.Insert(s.left, Of(found)), s.right);
    } else {
      RefreshLeft(node, below, s);
      root := node;
    }
  }

  method UpsertRight(node: Node, key: int, fruit: Fruit, granted: bool, ghost s: Tree<Node>)
    returns (root: Node?, found: Node?, placement: Placement)
    requires Linked(node, s) && Ordered(s) && node.key < key
    modifies Nodes(s)
    ensures placement == Matched <==> Has(s, key)
    ensures placement == Refused <==> !Has(s, key) && !granted
    ensures placement == Refused <==> found == null
    ensures placement == Matched ==> found in Nodes(s)
    ensures placement == Made ==> fresh(found)
    ensures found != null ==> found.key == key && found.fruit == fruit
    ensures Linked(root, Upserted(s, found, placement))
    ensures forall n :: n in Nodes(s) && n != found && old(allocated(n)) ==> n.fruit == old(n.fruit)
    decreases s, 0
  {
    LinkedDistinct(node, s);
    var below;
    below, found, placement := Upsert(node.right, key, fruit, granted, s.right);
    if placement == Made {
      InsertBelow(s, Of(found));
      InsertAddsNode(s.right, Of(found));
      root := MendRight(node, below, s.left, W.Insert(s.right, Of(found)));
    } else {
      RefreshRight(node, below, s);
      root := node;
    }
  }

  // ---- Removal ------------------------------------------------------------------------------------

  /** The node a tree holds key `k` in. */
  ghost predicate Held(s: Tree<Node>, k: int, n: Node) {
    Has(s, k) && Rank(s, k) < Size(s) && Entries(s)[Rank(s, k)] == Of(n)
  }

  /** Keyed, entry by entry. */
  ghost predicate KeyedEntries(es: seq<Entry<Node>>) {
    forall i :: 0 <= i < |es| ==> es[i] == Of(es[i].item)
  }

  lemma {:induction false} KeyedMeans(s: Tree<Node>)
    ensures Keyed(s) <==> KeyedEntries(Entries(s))
  {
    if s.Bin? {
      KeyedMeans(s.left);
      KeyedMeans(s.right);
      var l, r, es := Entries(s.left), Entries(s.right), Entries(s);
      assert es[|l|] == s.entry;
      assert forall i :: 0 <= i < |l| ==> es[i] == l[i];
      assert forall i :: 0 <= i < |r| ==> es[|l| + 1 + i] == r[i];
    }
  }

  lemma WithoutDrops(es: seq<Entry<Node>>, at: nat)
    requires Ascending(es) && at < |es| && KeyedEntries(es)
    ensures KeyedEntries(Without(es, at)) && Items(Without(es, at)) <= Items(es)
    ensures forall n :: n in Items(Without(es, at)) ==> n.key != es[at].key
  {
    WithoutIsCut(es, at);
    CutDrops(es, at, es[..at] + es[at + 1..]);
  }

  lemma CutDrops(es: seq<Entry<Node>>, at: nat, rest: seq<Entry<Node>>)
    requires Ascending(es) && at < |es| && KeyedEntries(es) && rest == es[..at] + es[at + 1..]
    ensures KeyedEntries(rest) && Items(rest) <= Items(es)
    ensures forall n :: n in Items(rest) ==> n.key != es[at].key
  {
    forall i | 0 <= i < |rest|
      ensures rest[i] == Of(rest[i].item) && rest[i].item in Items(es) && rest[i].key != es[at].key
    {
      var j := if i < at then i else i + 1;
      assert rest[i] == es[j] && es[j] == Of(es[j].item);
      assert if i < at then es[j].key < es[at].key else es[at].key < es[j].key;
    }
  }

  /** The nodes left after a removal, and the one that is not among them. */
  lemma ExtractDropsNode(s: Tree<Node>, k: int)
    requires Ordered(s) && Keyed(s)
    ensures Keyed(W.Extract(s, k)) && Nodes(W.Extract(s, k)) <= Nodes(s)
    ensures forall n :: n in Nodes(W.Extract(s, k)) ==> n.key != k
  {
    W.ExtractCutsOut(s, k);
    RankSplits(s, k);
    NodesAreItems(s);
    NodesAreItems(W.Extract(s, k));
    KeyedMeans(s);
    KeyedMeans(W.Extract(s, k));
    if Has(s, k) {
      WithoutDrops(Entries(s), Rank(s, k));
    } else {
      forall n | n in Nodes(s)
        ensures n.key != k
      {
        NodesHaveKeys(s, n);
      }
    }
  }

  lemma HeldIsNode(s: Tree<Node>, k: int, n: Node)
    requires Ordered(s) && Keyed(s) && Held(s, k, n)
    ensures n in Nodes(s) && n.key == k && n !in Nodes(W.Extract(s, k))
  {
    NodesAreItems(s);
    RankSplits(s, k);
    KeyedMeans(s);
    ExtractDropsNode(s, k);
  }

  /** What the caller one level up needs to know about a removal from its left branch, and from its right. */
  lemma ExtractFromLeft(s: Tree<Node>, k: int, n: Node)
    requires s.Bin? && Ordered(s) && Keyed(s) && k < s.entry.key && Held(s.left, k, n)
    ensures Held(s, k, n) && n != s.entry.item && n !in Nodes(s.right) && n !in Nodes(W.Extract(s.left, k))
    ensures Ordered(Bin(W.Extract(s.left, k), s.entry, s.right)) && Nodes(W.Extract(s.left, k)) <= Nodes(s.left)
    ensures W.Extract(s, k) == W.Rebalance(Bin(W.Extract(s.left, k), s.entry, s.right))
  {
    OrderedParts(s);
    OrderedIsDistinct(s);
    HeldIsNode(s.left, k, n);
    ExtractDropsNode(s.left, k);
    EntryAt(s, Rank(s, k));
    W.ExtractKeepsOrder(s, k);
    assert Entries(W.Extract(s, k)) == Entries(Bin(W.Extract(s.left, k), s.entry, s.right));
  }

  lemma ExtractFromRight(s: Tree<Node>, k: int, n: Node)
    requires s.Bin? && Ordered(s) && Keyed(s) && s.entry.key < k && Held(s.right, k, n)
    ensures Held(s, k, n) && n != s.entry.item && n !in Nodes(s.left) && n !in Nodes(W.Extract(s.right, k))
    ensures Ordered(Bin(s.left, s.entry, W.Extract(s.right, k))) && Nodes(W.Extract(s.right, k)) <= Nodes(s.right)
    ensures W.Extract(s, k) == W.Rebalance(Bin(s.left, s.entry, W.Extract(s.right, k)))
  {
    OrderedParts(s);
    OrderedIsDistinct(s);
    HeldIsNode(s.right, k, n);
    ExtractDropsNode(s.right, k);
    EntryAt(s, Rank(s, k));
    W.ExtractKeepsOrder(s, k);
    assert Entries(W.Extract(s, k)) == Entries(Bin(s.left, s.entry, W.Extract(s.right, k)));
  }

  method FindMin(node: Node, ghost s: Tree<Node>) returns (least: Node)
    requires s.Bin? && Linked(node, s)
    ensures Least(s) == Of(least)
  {
    least := node;
    ghost var t := s;
    while least.left != null
      invariant t.Bin? && Linked(least, t) && Least(t) == Least(s)
      decreases t
    {
      least, t := least.left, t.left;
    }
  }

  /** Detaches a node from its children. */
  method Detach(node: Node)
    modifies node`left, node`right, node`size, node`augmentedSize
    ensures Alone(node)
  {
    node.left, node.right := null, null;
    node.size := 1;
    node.augmentedSize := Own(node.fruit);
  }

  /** Takes the node with a key out of the tree; nothing happens when there is none. */
  method Extract(node: Node?, k: int, ghost s: Tree<Node>) returns (root: Node?, extracted: Node?)
    requires Linked(node, s) && Ordered(s)
    modifies Nodes(s)`left, Nodes(s)`right, Nodes(s)`size, Nodes(s)`augmentedSize
    ensures extracted != null <==> Has(s, k)
    ensures extracted != null ==> Held(s, k, extracted) && Alone(extracted)
    ensures Linked(root, W.Extract(s, k))
    decreases s, 3
  {
    if node == null {
      return null, null;
    }
    if k < node.key {
      root, extracted := ExtractLeft(node, k, s);
    } else if node.key < k {
      root, extracted := ExtractRight(node, k, s);
    } else {
      LinkedDistinct(node, s);
      root := ExtractRoot(node, s);
      extracted := node;
      LinkedIsKeyed(root, W.Extract(s, k));
    }
  }

  method ExtractLeft(node: Node, k: int, ghost s: Tree<Node>) returns (root: Node?, extracted: Node?)
    requires Linked(node, s) && Ordered(s) && k < node.key
    modifies Nodes(s)`left, Nodes(s)`right, Nodes(s)`size, Nodes(s)`augmentedSize
    ensures extracted != null <==> Has(s, k)
    ensures extracted != null ==> Held(s, k, extracted) && Alone(extracted)
    ensures Linked(root, W.Extract(s, k))
    decreases s, 2
  {
    LinkedDistinct(node, s);
    LinkedIsKeyed(node, s);
    var below;
    below, extracted := Extract(node.left, k, s.left);
    if extracted != null {
      ExtractFromLeft(s, k, extracted);
      root := MendLeft(node, below, W.Extract(s.left, k), s.right);
    } else {
      KeepLeft(node, below, s);
      root := node;
    }
  }

  method ExtractRight(node: Node, k: int, ghost s: Tree<Node>) returns (root: Node?, extracted: Node?)
    requires Linked(node, s) && Ordered(s) && node.key < k
    modifies Nodes(s)`left, Nodes(s)`right, Nodes(s)`size, Nodes(s)`augmentedSize
    ensures extracted != null <==> Has(s, k)
    ensures extracted != null ==> Held(s, k, extracted) && Alone(extracted)
    ensures Linked(root, W.Extract(s, k))
    decreases s, 2
  {
    LinkedDistinct(node, s);
    LinkedIsKeyed(node, s);
    var below;
    below, extracted := Extract(node.right, k, s.right);
    if extracted != null {
      ExtractFromRight(s, k, extracted);
      root := MendRight(node, below, s.left, W.Extract(s.right, k));
    } else {
      KeepRight(node, below, s);
      root := node;
    }
  }

  /** The least node of the right branch fits between the left branch and the rest of the right one. */
  lemma PromotedFits(s: Tree<Node>, n: Node)
    requires s.Bin? && s.left.Bin? && s.right.Bin? && Ordered(s) && Keyed(s) && Least(s.right) == Of(n)
    ensures Has(s.right, n.key) && Held(s.right, n.key, n)
    ensures Ordered(Bin(s.left, Of(n), W.Extract(s.right, n.key)))
    ensures Nodes(W.Extract(s.right, n.key)) <= Nodes(s.right)
    ensures n in Nodes(s.right) && n !in Nodes(W.Extract(s.right, n.key))
    ensures W.ExtractRoot(s) == W.Rebalance(Bin(s.left, Of(n), W.Extract(s.right, n.key)))
  {
    OrderedParts(s);
    LeastIsHeld(s.right);
    W.ExtractKeepsOrder(s, s.entry.key);
    ExtractDropsNode(s.right, n.key);
    HeldIsNode(s.right, n.key, n);
    assert Entries(W.ExtractRoot(s)) == Entries(Bin(s.left, Of(n), W.Extract(s.right, n.key)));
  }

  /** Pops the root; with two children, the least node of the right branch takes its place. */
  method ExtractRoot(node: Node, ghost s: Tree<Node>) returns (root: Node?)
    requires s.Bin? && Linked(node, s) && Ordered(s)
    modifies Nodes(s)`left, Nodes(s)`right, Nodes(s)`size, Nodes(s)`augmentedSize
    ensures Linked(root, W.ExtractRoot(s)) && Alone(node)
    decreases s, 1
  {
    LinkedDistinct(node, s);
    LinkedIsKeyed(node, s);
    if node.left != null && node.right != null {
      root := Promote(node, s);
    } else {
      root := if node.left != null then node.left else node.right;
    }
    ExtractedRootApart(node, s);
    Allocated(W.ExtractRoot(s));
    Detach(node);
  }

  lemma ExtractedRootApart(node: Node, s: Tree<Node>)
    requires s.Bin? && Ordered(s) && s.entry == Of(node) && Distinct(s)
    requires Keyed(s)
    ensures node !in Nodes(W.ExtractRoot(s))
  {
    ExtractDropsNode(s, node.key);
  }

  method Promote(node: Node, ghost s: Tree<Node>) returns (root: Node?)
    requires s.Bin? && s.left.Bin? && s.right.Bin? && Linked(node, s) && Ordered(s)
    modifies Nodes(s)`left, Nodes(s)`right, Nodes(s)`size, Nodes(s)`augmentedSize
    ensures Linked(root, W.ExtractRoot(s))
    decreases s, 0
  {
    LinkedDistinct(node, s);
    LinkedIsKeyed(node, s);
    var midpoint := FindMin(node.right, s.right);
    PromotedFits(s, midpoint);
    var below, promoted := Extract(node.right, midpoint.key, s.right);
    root := TakePlace(promoted, node.left, below, s.left, W.Extract(s.right, midpoint.key));
  }

  /** Puts a detached node between two trees and mends it. */
  method TakePlace(node: Node, left: Node?, right: Node?, ghost l: Tree<Node>, ghost r: Tree<Node>) returns (root: Node)
    requires Linked(left, l) && Linked(right, r) && Ordered(Bin(l, Of(node), r)) && node !in Nodes(l) && node !in Nodes(r)
    modifies ({node} + Nodes(l) + Nodes(r))`left, ({node} + Nodes(l) + Nodes(r))`right
    modifies ({node} + Nodes(l) + Nodes(r))`size, ({node} + Nodes(l) + Nodes(r))`augmentedSize
    ensures Linked(root, W.Rebalance(Bin(l, Of(node), r)))
  {
    Allocated(l);
    Allocated(r);
    node.left := left;
    root := MendRight(node, right, l, r);
  }

  // ---- Joining and splitting ----------------------------------------------------------------------

  lemma SeparateParts(left: Node?, l: Tree<Node>, root: Node, right: Node?, r: Tree<Node>)
    requires Linked(left, l) && Linked(right, r) && Ordered(Bin(l, Of(root), r))
    ensures Distinct(Bin(l, Of(root), r)) && allocated(Nodes(l)) && allocated(Nodes(r))
  {
    LinkedIsKeyed(left, l);
    LinkedIsKeyed(right, r);
    OrderedIsDistinct(Bin(l, Of(root), r));
  }

  lemma Regroups<T>(a: seq<T>, x: T, b: seq<T>, y: T, c: seq<T>)
    ensures a + [x] + b + [y] + c == (a + [x]) + (b + [y] + c)
    ensures a + [x] + (b + [y] + c) == (a + [x] + b) + ([y] + c)
  {
  }

  lemma SeamOnLeft(l: Tree<Node>, e: Entry<Node>, r: Tree<Node>)
    requires l.Bin? && Ordered(Bin(l, e, r))
    ensures Ordered(Bin(l.right, e, r))
    ensures Ordered(Bin(l.left, l.entry, W.JoinWithRoot(l.right, e, r)))
    ensures Nodes(W.JoinWithRoot(l.right, e, r)) == Nodes(l.right) + {e.item} + Nodes(r)
  {
    Reassociates(Entries(l.left), l.entry, Entries(l.right), e, Entries(r));
    Regroups(Entries(l.left), l.entry, Entries(l.right), e, Entries(r));
    assert Entries(Bin(l, e, r)) == (Entries(l.left) + [l.entry]) + (Entries(l.right) + [e] + Entries(r));
    SliceAscends(Entries(l.left) + [l.entry], Entries(l.right) + [e] + Entries(r));
    NodesAreItems(W.JoinWithRoot(l.right, e, r));
    NodesAreItems(Bin(l.right, e, r));
  }

  lemma SeamOnRight(l: Tree<Node>, e: Entry<Node>, r: Tree<Node>)
    requires r.Bin? && Ordered(Bin(l, e, r))
    ensures Ordered(Bin(l, e, r.left))
    ensures Ordered(Bin(W.JoinWithRoot(l, e, r.left), r.entry, r.right))
    ensures Nodes(W.JoinWithRoot(l, e, r.left)) == Nodes(l) + {e.item} + Nodes(r.left)
  {
    Reassociates(Entries(l), e, Entries(r.left), r.entry, Entries(r.right));
    Regroups(Entries(l), e, Entries(r.left), r.entry, Entries(r.right));
    assert Entries(Bin(l, e, r)) == (Entries(l) + [e] + Entries(r.left)) + ([r.entry] + Entries(r.right));
    SliceAscends(Entries(l) + [e] + Entries(r.left), [r.entry] + Entries(r.right));
    NodesAreItems(W.JoinWithRoot(l, e, r.left));
    NodesAreItems(Bin(l, e, r.left));
  }

  /** Joins two trees around a node between them. */
  method JoinWithRoot(left: Node?, root: Node, right: Node?, ghost l: Tree<Node>, ghost r: Tree<Node>)
    returns (joined: Node)
    requires Linked(left, l) && Linked(right, r) && Ordered(Bin(l, Of(root), r))
    modifies ({root} + Nodes(l) + Nodes(r))`left, ({root} + Nodes(l) + Nodes(r))`right
    modifies ({root} + Nodes(l) + Nodes(r))`size, ({root} + Nodes(l) + Nodes(r))`augmentedSize
    ensures Linked(joined, W.JoinWithRoot(l, Of(root), r))
    decreases W.Weight(l) + W.Weight(r), 1
  {
    LinkedRoot(left, l);
    LinkedRoot(right, r);
    if GetWeight(left) > W.DELTA * GetWeight(right) {
      joined := JoinDownLeft(left, root, right, l, r);
    } else if GetWeight(right) > W.DELTA * GetWeight(left) {
      joined := JoinDownRight(left, root, right, l, r);
    } else {
      SeparateParts(left, l, root, right, r);
      root.left, root.right := left, right;
      UpdateSize(root, l, r);
      joined := root;
    }
  }

  method JoinDownLeft(left: Node, root: Node, right: Node?, ghost l: Tree<Node>, ghost r: Tree<Node>)
    returns (joined: Node)
    requires Linked(left, l) && Linked(right, r) && Ordered(Bin(l, Of(root), r))
    requires W.Weight(l) > W.DELTA * W.Weight(r)
    modifies ({root} + Nodes(l) + Nodes(r))`left, ({root} + Nodes(l) + Nodes(r))`right
    modifies ({root} + Nodes(l) + Nodes(r))`size, ({root} + Nodes(l) + Nodes(r))`augmentedSize
    ensures Linked(joined, W.JoinWithRoot(l, Of(root), r))
    decreases W.Weight(l) + W.Weight(r), 0
  {
    SeparateParts(left, l, root, right, r);
    SeamOnLeft(l, Of(root), r);
    Allocated(l.left);
    var below := JoinWithRoot(left.right, root, right, l.right, r);
    joined := MendRight(left, below, l.left, W.JoinWithRoot(l.right, Of(root), r));
  }

  method JoinDownRight(left: Node?, root: Node, right: Node, ghost l: Tree<Node>, ghost r: Tree<Node>)
    returns (joined: Node)
    requires Linked(left, l) && Linked(right, r) && Ordered(Bin(l, Of(root), r))
    requires W.Weight(r) > W.DELTA * W.Weight(l)
    modifies ({root} + Nodes(l) + Nodes(r))`left, ({root} + Nodes(l) + Nodes(r))`right
    modifies ({root} + Nodes(l) + Nodes(r))`size, ({root} + Nodes(l) + Nodes(r))`augmentedSize
    ensures Linked(joined, W.JoinWithRoot(l, Of(root), r))
    decreases W.Weight(l) + W.Weight(r), 0
  {
    SeparateParts(left, l, root, right, r);
    SeamOnRight(l, Of(root), r);
    Allocated(r.right);
    var below := JoinWithRoot(left, root, right.left, l, r.left);
    joined := MendLeft(right, below, W.JoinWithRoot(l, Of(root), r.left), r.right);
  }

  /** Two trees one before the other share no node. */
  lemma SidesApart(l: Tree<Node>, r: Tree<Node>)
    requires Keyed(l) && Keyed(r) && Ascending(Entries(l) + Entries(r))
    ensures Ordered(l) && Ordered(r) && Nodes(l) !! Nodes(r)
  {
    SliceAscends(Entries(l), Entries(r));
    SidesInOrder(Entries(l), Entries(r));
    forall n | n in Nodes(l)
      ensures n !in Nodes(r)
    {
      NodesHaveKeys(l, n);
      if n in Nodes(r) {
        NodesHaveKeys(r, n);
        assert false;
      }
    }
  }

  lemma SidesInOrder(a: seq<Entry<Node>>, b: seq<Entry<Node>>)
    requires Ascending(a + b)
    ensures forall i, j :: 0 <= i < |a| && 0 <= j < |b| ==> a[i].key < b[j].key
  {
    forall i, j | 0 <= i < |a| && 0 <= j < |b|
      ensures a[i].key < b[j].key
    {
      assert (a + b)[i] == a[i] && (a + b)[|a| + j] == b[j];
    }
  }

  lemma SeamIsOrdered(l: Tree<Node>, r: Tree<Node>, least: Node)
    requires r.Bin? && Ordered(r) && Ascending(Entries(l) + Entries(r)) && Least(r) == Of(least)
    requires Has(r, least.key) && Rank(r, least.key) == 0
    ensures Ordered(Bin(l, Of(least), W.Extract(r, least.key)))
  {
    W.ExtractCutsOut(r, least.key);
    WithoutMiddle(Entries(l), Of(least), Entries(r));
  }

  lemma JoinSeam(l: Tree<Node>, r: Tree<Node>, least: Node)
    requires r.Bin? && Keyed(l) && Keyed(r) && Ascending(Entries(l) + Entries(r)) && Least(r) == Of(least)
    ensures Ordered(r) && Has(r, least.key) && Held(r, least.key, least)
    ensures Ordered(Bin(l, Of(least), W.Extract(r, least.key)))
    ensures Nodes(W.Extract(r, least.key)) + {least} <= Nodes(r) && Nodes(l) !! Nodes(r)
  {
    SidesApart(l, r);
    LeastIsHeld(r);
    ExtractDropsNode(r, least.key);
    HeldIsNode(r, least.key, least);
    SeamIsOrdered(l, r, least);
  }

  method Join(left: Node?, right: Node?, ghost l: Tree<Node>, ghost r: Tree<Node>) returns (joined: Node?)
    requires Linked(left, l) && Linked(right, r) && Ascending(Entries(l) + Entries(r))
    modifies (Nodes(l) + Nodes(r))`left, (Nodes(l) + Nodes(r))`right
    modifies (Nodes(l) + Nodes(r))`size, (Nodes(l) + Nodes(r))`augmentedSize
    ensures Linked(joined, W.Join(l, r))
  {
    if left == null {
      return right;
    }
    if right == null {
      return left;
    }
    LinkedIsKeyed(left, l);
    LinkedIsKeyed(right, r);
    Allocated(l);
    Allocated(r);
    var least := FindMin(right, r);
    JoinSeam(l, r, least);
    var rest, extracted := Extract(right, least.key, r);
    joined := JoinWithRoot(left, extracted, rest, l, W.Extract(r, least.key));
  }

  lemma KeyedConcat(a: seq<Entry<Node>>, b: seq<Entry<Node>>)
    requires KeyedEntries(a + b)
    ensures KeyedEntries(a) && KeyedEntries(b)
  {
    assert forall i :: 0 <= i < |a| ==> (a + b)[i] == a[i];
    assert forall i :: 0 <= i < |b| ==> (a + b)[|a| + i] == b[i];
  }

  lemma SplitApart(s: Tree<Node>, k: int)
    requires Ordered(s) && Keyed(s)
    ensures Keyed(W.Split(s, k).0) && Keyed(W.Split(s, k).1)
    ensures Ascending(Entries(W.Split(s, k).0) + Entries(W.Split(s, k).1))
    ensures Nodes(W.Split(s, k).0) + Nodes(W.Split(s, k).1) == Nodes(s)
    ensures Nodes(W.Split(s, k).0) !! Nodes(W.Split(s, k).1)
  {
    var (a, b) := W.Split(s, k);
    W.SplitCuts(s, k);
    KeyedMeans(s);
    KeyedMeans(a);
    KeyedMeans(b);
    KeyedConcat(Entries(a), Entries(b));
    NodesAreItems(s);
    NodesAreItems(a);
    NodesAreItems(b);
    ItemsConcat(Entries(a), Entries(b));
    SidesApart(a, b);
  }

  /** What the two sides of a cut have in common with the tree it was made in. */
  lemma SplitOnRight(s: Tree<Node>, k: int)
    requires s.Bin? && Ordered(s) && Keyed(s) && s.entry.key < k
    ensures Ordered(s.right) && Ordered(Bin(s.left, s.entry, W.Split(s.right, k).0))
    ensures Nodes(W.Split(s.right, k).0) + Nodes(W.Split(s.right, k).1) == Nodes(s.right)
    ensures Nodes(W.Split(s.right, k).0) !! Nodes(W.Split(s.right, k).1)
  {
    OrderedParts(s);
    SplitApart(s, k);
    SplitApart(s.right, k);
    SliceAscends(Entries(W.Split(s, k).0), Entries(W.Split(s, k).1));
    assert Entries(W.Split(s, k).0) == Entries(Bin(s.left, s.entry, W.Split(s.right, k).0));
  }

  lemma SplitOnLeft(s: Tree<Node>, k: int)
    requires s.Bin? && Ordered(s) && Keyed(s) && k <= s.entry.key
    ensures Ordered(s.left) && Ordered(Bin(W.Split(s.left, k).1, s.entry, s.right))
    ensures Nodes(W.Split(s.left, k).0) + Nodes(W.Split(s.left, k).1) == Nodes(s.left)
    ensures Nodes(W.Split(s.left, k).0) !! Nodes(W.Split(s.left, k).1)
  {
    OrderedParts(s);
    SplitApart(s, k);
    SplitApart(s.left, k);
    SliceAscends(Entries(W.Split(s, k).0), Entries(W.Split(s, k).1));
    assert Entries(W.Split(s, k).1) == Entries(Bin(W.Split(s.left, k).1, s.entry, s.right));
  }

  /** Splits a tree into what is before a key and what is not. */
  method Split(node: Node?, k: int, ghost s: Tree<Node>) returns (below: Node?, above: Node?)
    requires Linked(node, s) && Ordered(s)
    modifies Nodes(s)`left, Nodes(s)`right, Nodes(s)`size, Nodes(s)`augmentedSize
    ensures Linked(below, W.Split(s, k).0) && Linked(above, W.Split(s, k).1)
    decreases s, 1
  {
    if node == null {
      return null, null;
    }
    if node.key < k {
      below, above := SplitRight(node, k, s);
    } else {
      below, above := SplitLeft(node, k, s);
    }
  }

  method SplitRight(node: Node, k: int, ghost s: Tree<Node>) returns (below: Node?, above: Node?)
    requires Linked(node, s) && Ordered(s) && node.key < k
    modifies Nodes(s)`left, Nodes(s)`right, Nodes(s)`size, Nodes(s)`augmentedSize
    ensures Linked(below, W.Split(s, k).0) && Linked(above, W.Split(s, k).1)
    decreases s, 0
  {
    LinkedDistinct(node, s);
    LinkedIsKeyed(node, s);
    SplitOnRight(s, k);
    below, above := Split(node.right, k, s.right);
    Allocated(W.Split(s.right, k).1);
    below := JoinWithRoot(node.left, node, below, s.left, W.Split(s.right, k).0);
  }

  method SplitLeft(node: Node, k: int, ghost s: Tree<Node>) returns (below: Node?, above: Node?)
    requires Linked(node, s) && Ordered(s) && k <= node.key
    modifies Nodes(s)`left, Nodes(s)`right, Nodes(s)`size, Nodes(s)`augmentedSize
    ensures Linked(below, W.Split(s, k).0) && Linked(above, W.Split(s, k).1)
    decreases s, 0
  {
    LinkedDistinct(node, s);
    LinkedIsKeyed(node, s);
    SplitOnLeft(s, k);
    below, above := Split(node.left, k, s.left);
    Allocated(W.Split(s.left, k).0);
    above := JoinWithRoot(above, node, node.right, W.Split(s.left, k).1, s.right);
  }

  // ---- Erasing many -------------------------------------------------------------------------------

  lemma {:induction false} KeptNodes(es: seq<Entry<Node>>, doomed: set<int>)
    requires KeyedEntries(es)
    ensures KeyedEntries(Kept(es, doomed))
    ensures Items(Kept(es, doomed)) == set n | n in Items(es) && n.key !in doomed
  {
    if es != [] {
      var rest := Kept(es[1..], doomed);
      KeptNodes(es[1..], doomed);
      ItemsConcat([es[0]], es[1..]);
      ItemsConcat([es[0]], rest);
      assert es == [es[0]] + es[1..];
      assert Items([es[0]]) == {es[0].item};
      assert Kept(es, doomed) == if es[0].key in doomed then rest else [es[0]] + rest;
    }
  }

  lemma EraseIfNodes(s: Tree<Node>, doomed: set<int>)
    requires Ordered(s) && Keyed(s)
    ensures Ordered(W.EraseIf(s, doomed)) && Keyed(W.EraseIf(s, doomed))
    ensures Nodes(W.EraseIf(s, doomed)) <= Nodes(s)
  {
    W.EraseIfKeepsRest(s, doomed);
    KeyedMeans(s);
    KeyedMeans(W.EraseIf(s, doomed));
    NodesAreItems(s);
    NodesAreItems(W.EraseIf(s, doomed));
    KeptNodes(Entries(s), doomed);
  }

  /** What survives on the two sides of a node is still in order around it. */
  lemma SurvivorsFit(s: Tree<Node>, doomed: set<int>)
    requires s.Bin? && Ordered(s) && Keyed(s)
    ensures Ordered(s.left) && Ordered(s.right)
    ensures Ascending(Entries(W.EraseIf(s.left, doomed)) + Entries(W.EraseIf(s.right, doomed)))
    ensures s.entry.key !in doomed ==>
              Ordered(Bin(W.EraseIf(s.left, doomed), s.entry, W.EraseIf(s.right, doomed)))
    ensures Nodes(W.EraseIf(s.left, doomed)) <= Nodes(s.left)
    ensures Nodes(W.EraseIf(s.right, doomed)) <= Nodes(s.right)
  {
    OrderedParts(s);
    EraseIfNodes(s.left, doomed);
    EraseIfNodes(s.right, doomed);
    W.EraseIfKeepsRest(s.left, doomed);
    W.EraseIfKeepsRest(s.right, doomed);
    KeptStaysBefore(Entries(s.left), s.entry.key, doomed);
    KeptStaysAfter(Entries(s.right), s.entry.key + 1, doomed);
    ConcatAscends(Entries(W.EraseIf(s.left, doomed)), s.entry.key, Entries(W.EraseIf(s.right, doomed)));
    AscendingAround(Entries(W.EraseIf(s.left, doomed)), s.entry, Entries(W.EraseIf(s.right, doomed)));
  }

  lemma ConcatAscends(a: seq<Entry<Node>>, k: int, b: seq<Entry<Node>>)
    requires Ascending(a) && Ascending(b) && Before(a, k) && From(b, k)
    ensures Ascending(a + b)
  {
  }

  /** The doomed keys are those of the nodes the predicate picks. */
  ghost predicate Dooms(predicate_: (int, Fruit) -> bool, nodes: set<Node>, doomed: set<int>)
    reads nodes`fruit
  {
    forall n :: n in nodes ==> (n.key in doomed <==> predicate_(n.key, n.fruit))
  }

  lemma BranchesApart(node: Node, s: Tree<Node>, doomed: set<int>)
    requires s.Bin? && Linked(node, s) && Ordered(s)
    ensures Nodes(s.left) !! {node} !! Nodes(s.right) && Ordered(s.left) && Ordered(s.right)
    ensures Nodes(W.EraseIf(s.left, doomed)) <= Nodes(s.left)
    ensures Nodes(W.EraseIf(s.right, doomed)) <= Nodes(s.right)
    ensures allocated(Nodes(s.left)) && allocated(Nodes(s.right))
  {
    LinkedDistinct(node, s);
    LinkedIsKeyed(node, s);
    SurvivorsFit(s, doomed);
  }

  /** Drops every node its predicate dooms, and counts the survivors. */
  method EraseIf(node: Node?, predicate_: (int, Fruit) -> bool, ghost s: Tree<Node>, ghost doomed: set<int>)
    returns (root: Node?, count: nat)
    requires Linked(node, s) && Ordered(s)
    requires Dooms(predicate_, Nodes(s), doomed)
    modifies Nodes(s)`left, Nodes(s)`right, Nodes(s)`size, Nodes(s)`augmentedSize
    ensures Linked(root, W.EraseIf(s, doomed)) && count == Size(W.EraseIf(s, doomed))
    decreases s, 1
  {
    if node == null {
      return null, 0;
    }
    BranchesApart(node, s, doomed);
    LinkedIsKeyed(node, s);
    SurvivorsFit(s, doomed);
    EraseIfCounts(s, doomed);
    var leftRoot, leftCount, rightRoot, rightCount := EraseBelow(node, predicate_, s, doomed);
    var dead := predicate_(node.key, node.fruit);
    root := Rejoin(node, leftRoot, rightRoot, dead, W.EraseIf(s.left, doomed), W.EraseIf(s.right, doomed));
    count := leftCount + rightCount + if dead then 0 else 1;
  }

  /** Joins what survived on the two sides of a node, around the node if it survives too. */
  method Rejoin(node: Node, left: Node?, right: Node?, dead: bool, ghost l: Tree<Node>, ghost r: Tree<Node>)
    returns (root: Node?)
    requires Linked(left, l) && Linked(right, r) && node !in Nodes(l) + Nodes(r)
    requires Ascending(Entries(l) + Entries(r)) && (!dead ==> Ordered(Bin(l, Of(node), r)))
    modifies ({node} + Nodes(l) + Nodes(r))`left, ({node} + Nodes(l) + Nodes(r))`right
    modifies ({node} + Nodes(l) + Nodes(r))`size, ({node} + Nodes(l) + Nodes(r))`augmentedSize
    ensures Linked(root, if dead then W.Join(l, r) else W.JoinWithRoot(l, Of(node), r))
  {
    Allocated(l);
    Allocated(r);
    Detach(node);
    if dead {
      root := Join(left, right, l, r);
    } else {
      root := JoinWithRoot(left, node, right, l, r);
    }
  }

  method EraseBelow(node: Node, predicate_: (int, Fruit) -> bool, ghost s: Tree<Node>, ghost doomed: set<int>)
    returns (leftRoot: Node?, leftCount: nat, rightRoot: Node?, rightCount: nat)
    requires Linked(node, s) && Ordered(s)
    requires Dooms(predicate_, Nodes(s), doomed)
    modifies Nodes(s)`left, Nodes(s)`right, Nodes(s)`size, Nodes(s)`augmentedSize
    ensures Linked(leftRoot, W.EraseIf(s.left, doomed)) && leftCount == Size(W.EraseIf(s.left, doomed))
    ensures Linked(rightRoot, W.EraseIf(s.right, doomed)) && rightCount == Size(W.EraseIf(s.right, doomed))
    decreases s, 0
  {
    BranchesApart(node, s, doomed);
    leftRoot, leftCount := EraseIf(node.left, predicate_, s.left, doomed);
    Allocated(W.EraseIf(s.left, doomed));
    rightRoot, rightCount := EraseIf(node.right, predicate_, s.right, doomed);
  }

  lemma EraseIfCounts(s: Tree<Node>, doomed: set<int>)
    requires s.Bin? && Ordered(s)
    ensures Size(W.EraseIf(s, doomed)) == Size(W.EraseIf(s.left, doomed)) + Size(W.EraseIf(s.right, doomed))
                                          + if s.entry.key in doomed then 0 else 1
  {
    OrderedParts(s);
    W.EraseIfKeepsRest(s, doomed);
    W.EraseIfKeepsRest(s.left, doomed);
    W.EraseIfKeepsRest(s.right, doomed);
    KeptAround(Entries(s.left), s.entry, Entries(s.right), doomed);
  }
}
