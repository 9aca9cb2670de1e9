/** The AVL tree in memory: nodes relinked in place, with parent links and heights exact at every node, each
    method proved to leave exactly the shape its value-level counterpart in HeightBalance computes. */
module AvlTree {
  import opened OrderedTrees
  import H = HeightBalance

  class Node {
    const key: int
    var payload: int
    var left: Node?
    var right: Node?
    var parent: Node?
    var height: nat

    constructor (key: int, payload: int)
      ensures this.key == key && this.payload == payload
      ensures left == null && right == null && parent == null && height == 1
    {
      this.key, this.payload, left, right, parent, height := key, payload, null, null, null, 1;
    }
  }

  function GetHeight(n: Node?): nat
    reads n
  {
    if n == null then 0 else n.height
  }

  function GetBalance(n: Node?): int
    reads n, if n == null then {} else {n.left, n.right}
  {
    if n == null then 0 else GetHeight(n.left) - GetHeight(n.right)
  }

  ghost function Of(n: Node): Entry<Node> {
    Entry(n.key, n)
  }

  /** The nodes strictly below the root of a shape. */
  ghost function Below(s: Tree<Node>): set<Node> {
    if s.Nil? then {} else Nodes(s.left) + Nodes(s.right)
  }

  ghost predicate ChildOf(s: Tree<Node>, p: Node)
    reads (if s.Nil? then {} else {s.entry.item})`parent
  {
    s.Bin? ==> s.entry.item.parent == p
  }

  /** The nodes reachable from `p` have exactly this shape, heights are exact, and every link down is matched
      by a link up. What the root's own parent is, is its caller's business. */
  ghost predicate Linked(p: Node?, s: Tree<Node>)
    reads Nodes(s)`left, Nodes(s)`right, Nodes(s)`height, Below(s)`parent
    decreases s
  {
    match s
    case Nil => p == null
    case Bin(l, e, r) =>
      && p == e.item && p.key == e.key && p.height == Height(s)
      && Linked(p.left, l) && Linked(p.right, r) && ChildOf(l, p) && ChildOf(r, p)
  }

  lemma LinkedRoot(p: Node?, s: Tree<Node>)
    requires Linked(p, s)
    ensures p == null <==> s.Nil?
    ensures GetHeight(p) == Height(s)
    ensures p != null ==> p in Nodes(s) && s.entry == Of(p) && GetBalance(p) == H.Lean(s)
  {
    if s.Bin? {
      assert GetHeight(p.left) == Height(s.left) && GetHeight(p.right) == Height(s.right);
    }
  }

  lemma Allocated(s: Tree<Node>)
    ensures allocated(Nodes(s)) && allocated(Below(s)) && Below(s) <= Nodes(s)
  {
  }

  /** Recomputing the height of a node whose branches hang from it properly makes the node exact. */
  method UpdateHeight(n: Node, ghost l: Tree<Node>, ghost r: Tree<Node>)
    requires Linked(n.left, l) && Linked(n.right, r) && ChildOf(l, n) && ChildOf(r, n)
    requires n !in Nodes(l) && n !in Nodes(r)
    modifies n`height
    ensures Linked(n, Bin(l, Of(n), r))
  {
    LinkedRoot(n.left, l);
    LinkedRoot(n.right, r);
    n.height := (if GetHeight(n.left) > GetHeight(n.right) then GetHeight(n.left) else GetHeight(n.right)) + 1;
  }

  ghost predicate RootAbove(s: Tree<Node>) {
    s.Bin? ==> s.entry.item !in Below(s)
  }

  /** The pieces a rotation moves about share no node. */
  ghost predicate FivePieces(a: Tree<Node>, x: Node, b: Tree<Node>, y: Node, c: Tree<Node>) {
    && Nodes(a) !! Nodes(b) && Nodes(a) !! Nodes(c) && Nodes(b) !! Nodes(c) && x != y
    && x !in Nodes(a) && x !in Nodes(b) && x !in Nodes(c) && y !in Nodes(a) && y !in Nodes(b) && y !in Nodes(c)
    && RootAbove(a) && RootAbove(b) && RootAbove(c)
  }

  /** A node and its two branches. */
  ghost predicate ThreePieces(l: Tree<Node>, n: Node, r: Tree<Node>) {
    && Nodes(l) !! Nodes(r) && n !in Nodes(l) && n !in Nodes(r)
    && RootAbove(l) && RootAbove(r) && Below(l) <= Nodes(l) && Below(r) <= Nodes(r)
  }

  lemma PiecesOfNode(l: Tree<Node>, n: Node, r: Tree<Node>)
    requires Distinct(Bin(l, Of(n), r))
    ensures ThreePieces(l, n, r)
  {
    assert Distinct(l) && Distinct(r);
  }

  lemma PiecesOfRight(s: Tree<Node>)
    requires s.Bin? && s.left.Bin? && Distinct(s)
    ensures FivePieces(s.left.left, s.left.entry.item, s.left.right, s.entry.item, s.right)
    ensures Nodes(s) == Nodes(s.left.left) + Nodes(s.left.right) + Nodes(s.right) + {s.left.entry.item, s.entry.item}
  {
    assert Distinct(s.left) && Distinct(s.left.left) && Distinct(s.left.right);
  }

  lemma PiecesOfLeft(s: Tree<Node>)
    requires s.Bin? && s.right.Bin? && Distinct(s)
    ensures FivePieces(s.left, s.entry.item, s.right.left, s.right.entry.item, s.right.right)
    ensures Nodes(s) == Nodes(s.left) + Nodes(s.right.left) + Nodes(s.right.right) + {s.right.entry.item, s.entry.item}
  {
    assert Distinct(s.right) && Distinct(s.right.left) && Distinct(s.right.right);
  }

  /** A node whose links and branches are right, but perhaps not its height. */
  ghost predicate Hung(n: Node, l: Tree<Node>, r: Tree<Node>)
    reads n`left, n`right, Nodes(l), Nodes(r)
  {
    Linked(n.left, l) && Linked(n.right, r) && ChildOf(l, n) && ChildOf(r, n)
  }

  method RotateRight(y: Node, ghost s: Tree<Node>) returns (x: Node)
    requires s.Bin? && s.left.Bin? && Distinct(s) && s.entry == Of(y)
    requires Linked(y.left, s.left) && Linked(y.right, s.right) && ChildOf(s.right, y)
    modifies Nodes(s)`left, Nodes(s)`right, Nodes(s)`parent, Nodes(s)`height
    ensures Linked(x, RotatedRight(s)) && x.parent == old(y.parent)
  {
    PiecesOfRight(s);
    ghost var a, b, c := s.left.left, s.left.right, s.right;
    x := RelinkRight(y, a, b, c);
    Allocated(a);
    Allocated(b);
    Allocated(c);
    UpdateHeight(y, b, c);
    UpdateHeight(x, a, Bin(b, Of(y), c));
  }

  method RelinkRight(y: Node, ghost a: Tree<Node>, ghost b: Tree<Node>, ghost c: Tree<Node>) returns (x: Node)
    requires y.left != null && FivePieces(a, y.left, b, y, c) && Hung(y.left, a, b)
    requires Linked(y.right, c) && ChildOf(c, y)
    modifies y`left, y`parent, y.left`right, y.left`parent, Nodes(b)`parent
    ensures x == old(y.left) && Linked(x.left, a) && ChildOf(a, x) && x.right == y && y.parent == x
    ensures Hung(y, b, c) && x.parent == old(y.parent)
  {
    x := y.left;
    CrossRight(y, x, a, b, c);
    TradeParents(y, x, x.left, a, b, c);
  }

  method CrossRight(y: Node, x: Node, ghost a: Tree<Node>, ghost b: Tree<Node>, ghost c: Tree<Node>)
    requires FivePieces(a, x, b, y, c) && Hung(x, a, b) && Linked(y.right, c) && ChildOf(c, y)
    modifies y`left, x`right, Nodes(b)`parent
    ensures Linked(x.left, a) && ChildOf(a, x) && x.right == y && Hung(y, b, c)
  {
    Allocated(a);
    Allocated(b);
    Allocated(c);
    var inner := x.right;
    x.right := y;
    HangLeft(y, inner, b, c);
  }

  ghost predicate Clear(t: Tree<Node>, n: Node, m: Node) {
    n !in Nodes(t) && m !in Nodes(t) && Below(t) <= Nodes(t)
  }

  /** The node that moved up takes over the parent of the one that moved down, and becomes its parent. */
  method TradeParents(down: Node, up: Node, ghost far: Node?, ghost a: Tree<Node>, ghost b: Tree<Node>, ghost c: Tree<Node>)
    requires down != up && Clear(a, down, up) && Clear(b, down, up) && Clear(c, down, up)
    requires Linked(far, a) && ChildOf(a, up) && Hung(down, b, c)
    modifies down`parent, up`parent
    ensures Linked(far, a) && ChildOf(a, up) && Hung(down, b, c)
    ensures down.parent == up && up.parent == old(down.parent)
  {
    Allocated(a);
    Allocated(b);
    Allocated(c);
    up.parent := down.parent;
    down.parent := up;
  }

  method RotateLeft(x: Node, ghost s: Tree<Node>) returns (y: Node)
    requires s.Bin? && s.right.Bin? && Distinct(s) && s.entry == Of(x)
    requires Linked(x.left, s.left) && Linked(x.right, s.right) && ChildOf(s.left, x)
    modifies Nodes(s)`left, Nodes(s)`right, Nodes(s)`parent, Nodes(s)`height
    ensures Linked(y, RotatedLeft(s)) && y.parent == old(x.parent)
  {
    PiecesOfLeft(s);
    ghost var a, b, c := s.left, s.right.left, s.right.right;
    y := RelinkLeft(x, a, b, c);
    Allocated(a);
    Allocated(b);
    Allocated(c);
    UpdateHeight(x, a, b);
    UpdateHeight(y, Bin(a, Of(x), b), c);
  }

  method RelinkLeft(x: Node, ghost a: Tree<Node>, ghost b: Tree<Node>, ghost c: Tree<Node>) returns (y: Node)
    requires x.right != null && FivePieces(a, x, b, x.right, c) && Hung(x.right, b, c)
    requires Linked(x.left, a) && ChildOf(a, x)
    modifies x`right, x`parent, x.right`left, x.right`parent, Nodes(b)`parent
    ensures y == old(x.right) && Linked(y.right, c) && ChildOf(c, y) && y.left == x && x.parent == y
    ensures Hung(x, a, b) && y.parent == old(x.parent)
  {
    y := x.right;
    CrossLeft(x, y, a, b, c);
    TradeParents(x, y, y.right, c, a, b);
  }

  method CrossLeft(x: Node, y: Node, ghost a: Tree<Node>, ghost b: Tree<Node>, ghost c: Tree<Node>)
    requires FivePieces(a, x, b, y, c) && Hung(y, b, c) && Linked(x.left, a) && ChildOf(a, x)
    modifies x`right, y`left, Nodes(b)`parent
    ensures Linked(y.right, c) && ChildOf(c, y) && y.left == x && Hung(x, a, b)
  {
    Allocated(a);
    Allocated(b);
    Allocated(c);
    var inner := y.left;
    y.left := x;
    HangRight(x, inner, a, b);
  }

  method RotateInnerThenRight(node: Node, ghost s: Tree<Node>) returns (root: Node)
    requires s.Bin? && s.left.Bin? && s.left.right.Bin? && s.entry == Of(node) && Hung(node, s.left, s.right) && Distinct(s)
    modifies Nodes(s)`left, Nodes(s)`right, Nodes(s)`parent, Nodes(s)`height
    ensures Linked(root, RotatedRight(Bin(RotatedLeft(s.left), s.entry, s.right))) && root.parent == old(node.parent)
  {
    RotationKeepsNodes(s.left);
    Allocated(s.right);
    node.left := RotateLeft(node.left, s.left);
    root := RotateRight(node, Bin(RotatedLeft(s.left), s.entry, s.right));
  }

  method RotateInnerThenLeft(node: Node, ghost s: Tree<Node>) returns (root: Node)
    requires s.Bin? && s.right.Bin? && s.right.left.Bin? && s.entry == Of(node) && Hung(node, s.left, s.right) && Distinct(s)
    modifies Nodes(s)`left, Nodes(s)`right, Nodes(s)`parent, Nodes(s)`height
    ensures Linked(root, RotatedLeft(Bin(s.left, s.entry, RotatedRight(s.right)))) && root.parent == old(node.parent)
  {
    RotationKeepsNodes(s.right);
    Allocated(s.left);
    node.right := RotateRight(node.right, s.right);
    root := RotateLeft(node, Bin(s.left, s.entry, RotatedRight(s.right)));
  }

  /** Recomputes a height and rotates if the insertion below upset the balance, picking the rotation by key. */
  method RebalanceOnInsert(node: Node, k: int, ghost s: Tree<Node>) returns (root: Node)
    requires H.PivotExists(s, k) && s.entry == Of(node) && Hung(node, s.left, s.right) && Distinct(s)
    modifies Nodes(s)`left, Nodes(s)`right, Nodes(s)`parent, Nodes(s)`height
    ensures Linked(root, H.RebalanceOnInsert(s, k)) && root.parent == old(node.parent)
  {
    UpdateHeight(node, s.left, s.right);
    LinkedRoot(node, s);
    LinkedRoot(node.left, s.left);
    LinkedRoot(node.right, s.right);
    var balance := GetBalance(node);
    if balance > 1 && k < node.left.key {
      root := RotateRight(node, s);
    } else if balance < -1 && node.right.key < k {
      root := RotateLeft(node, s);
    } else if balance > 1 && node.left.key < k {
      root := RotateInnerThenRight(node, s);
    } else if balance < -1 && k < node.right.key {
      root := RotateInnerThenLeft(node, s);
    } else {
      root := node;
    }
  }

  /** The same with the rotation picked by the child's balance. */
  method RebalanceAfterExtract(node: Node, ghost s: Tree<Node>) returns (root: Node)
    requires s.Bin? && s.entry == Of(node) && Hung(node, s.left, s.right) && Distinct(s)
    modifies Nodes(s)`left, Nodes(s)`right, Nodes(s)`parent, Nodes(s)`height
    ensures Linked(root, H.RebalanceAfterExtract(s)) && root.parent == old(node.parent)
  {
    UpdateHeight(node, s.left, s.right);
    LinkedRoot(node, s);
    LinkedRoot(node.left, s.left);
    LinkedRoot(node.right, s.right);
    var balance := GetBalance(node);
    if balance > 1 && GetBalance(node.left) >= 0 {
      root := RotateRight(node, s);
    } else if balance > 1 && GetBalance(node.left) < 0 {
      root := RotateInnerThenRight(node, s);
    } else if balance < -1 && GetBalance(node.right) <= 0 {
      root := RotateLeft(node, s);
    } else if balance < -1 && GetBalance(node.right) > 0 {
      root := RotateInnerThenLeft(node, s);
    } else {
      root := node;
    }
  }

  // ---- Insertion ----------------------------------------------------------------------------------

  lemma InsertAddsNode(s: Tree<Node>, e: Entry<Node>)
    requires H.InsertRuns(s, e) && Distinct(s) && !Has(s, e.key) && e.item !in Nodes(s)
    ensures Nodes(H.Insert(s, e)) == Nodes(s) + {e.item} && Distinct(H.Insert(s, e))
  {
    H.InsertSplices(s, e);
    NodesAreItems(s);
    NodesAreItems(H.Insert(s, e));
    DistinctMeans(s);
    DistinctMeans(H.Insert(s, e));
    WithItems(Entries(s), Rank(s, e.key), e);
  }

  lemma DistinctWithNew(l: Tree<Node>, e: Entry<Node>, r: Tree<Node>, t: Tree<Node>, n: Node)
    requires Distinct(Bin(l, e, r)) && n !in Nodes(Bin(l, e, r)) && Distinct(t)
    ensures Nodes(t) == Nodes(l) + {n} ==> Distinct(Bin(t, e, r))
    ensures Nodes(t) == Nodes(r) + {n} ==> Distinct(Bin(l, e, t))
  {
  }

  lemma RunsBelow(s: Tree<Node>, n: Node?)
    requires s.Bin? && (n != null ==> H.InsertRuns(s, Of(n)))
    ensures n != null && n.key < s.entry.key ==> H.InsertRuns(s.left, Of(n))
    ensures n != null && s.entry.key < n.key ==> H.InsertRuns(s.right, Of(n))
  {
    if n != null {
      H.InsertRunsBelow(s, Of(n));
    }
  }

  /** What one level up needs to know about an insertion below it. */
  lemma InsertIntoLeft(s: Tree<Node>, e: Entry<Node>)
    requires s.Bin? && H.InsertRuns(s, e) && Distinct(s) && e.item !in Nodes(s) && e.key < s.entry.key && !Has(s.left, e.key)
    ensures Distinct(Bin(H.Insert(s.left, e), s.entry, s.right))
    ensures H.PivotExists(Bin(H.Insert(s.left, e), s.entry, s.right), e.key)
    ensures H.Insert(s, e) == H.RebalanceOnInsert(Bin(H.Insert(s.left, e), s.entry, s.right), e.key)
    ensures Nodes(H.Insert(s.left, e)) == Nodes(s.left) + {e.item}
  {
    var below := H.Insert(s.left, e);
    assert Distinct(s.left);
    InsertAddsNode(s.left, e);
    DistinctWithNew(s.left, s.entry, s.right, below, e.item);
    H.InsertsThrough(s, e);
  }

  lemma InsertIntoRight(s: Tree<Node>, e: Entry<Node>)
    requires s.Bin? && H.InsertRuns(s, e) && Distinct(s) && e.item !in Nodes(s) && s.entry.key < e.key && !Has(s.right, e.key)
    ensures Distinct(Bin(s.left, s.entry, H.Insert(s.right, e)))
    ensures H.PivotExists(Bin(s.left, s.entry, H.Insert(s.right, e)), e.key)
    ensures H.Insert(s, e) == H.RebalanceOnInsert(Bin(s.left, s.entry, H.Insert(s.right, e)), e.key)
    ensures Nodes(H.Insert(s.right, e)) == Nodes(s.right) + {e.item}
  {
    var below := H.Insert(s.right, e);
    assert Distinct(s.right);
    InsertAddsNode(s.right, e);
    DistinctWithNew(s.left, s.entry, s.right, below, e.item);
    H.InsertsThrough(s, e);
  }

  /** Hangs a branch under a node, both ways. */
  method HangLeft(node: Node, below: Node?, ghost l: Tree<Node>, ghost r: Tree<Node>)
    requires Linked(below, l) && Linked(node.right, r) && ChildOf(r, node) && ThreePieces(l, node, r)
    modifies node`left, Nodes(l)`parent
    ensures Hung(node, l, r)
  {
    node.left := below;
    if below != null {
      below.parent := node;
    }
  }

  method HangRight(node: Node, below: Node?, ghost l: Tree<Node>, ghost r: Tree<Node>)
    requires Linked(node.left, l) && Linked(below, r) && ChildOf(l, node) && ThreePieces(l, node, r)
    modifies node`right, Nodes(r)`parent
    ensures Hung(node, l, r)
  {
    node.right := below;
    if below != null {
      below.parent := node;
    }
  }

  method HangBoth(node: Node, left: Node?, right: Node?, ghost l: Tree<Node>, ghost r: Tree<Node>)
    requires Linked(left, l) && Linked(right, r) && ThreePieces(l, node, r)
    modifies node`left, node`right, Nodes(l)`parent, Nodes(r)`parent
    ensures Hung(node, l, r)
  {
    node.left := left;
    if left != null {
      left.parent := node;
    }
    node.right := right;
    if right != null {
      right.parent := node;
    }
  }

  datatype Placement = Refused | Matched | Made

  ghost function Spare(n: Node?): set<Node> {
    if n == null then {} else {n}
  }

  ghost function Placed(s: Tree<Node>, newNode: Node?, placement: Placement): Tree<Node>
    requires newNode != null ==> H.InsertRuns(s, Of(newNode))
  {
    if placement == Made && newNode != null then H.Insert(s, Of(newNode)) else s
  }

  /** Finds the node with a key, or links the spare node in where it belongs. */
  method FindOrMake(node: Node?, key: int, newNode: Node?, ghost s: Tree<Node>)
    returns (root: Node?, found: Node?, placement: Placement)
    requires Linked(node, s) && Distinct(s)
    requires newNode != null ==> newNode.key == key && newNode !in Nodes(s) && H.InsertRuns(s, Of(newNode))
    modifies (Nodes(s) + Spare(newNode))`left, (Nodes(s) + Spare(newNode))`right
    modifies (Nodes(s) + Spare(newNode))`parent, (Nodes(s) + Spare(newNode))`height
    ensures placement == Matched <==> Has(s, key)
    ensures placement == Refused <==> !Has(s, key) && newNode == null
    ensures placement == Matched ==> found != null && found in Nodes(s) && found.key == key
    ensures placement != Matched ==> found == newNode
    ensures Linked(root, Placed(s, newNode, placement))
    ensures node != null ==> root != null && root.parent == old(node.parent)
    ensures node == null && root != null ==> root.parent == null
    decreases s, 1
  {
    if node == null {
      if newNode != null {
        newNode.left, newNode.right, newNode.parent := null, null, null;
        newNode.height := 1;
      }
      return newNode, newNode, if newNode != null then Made else Refused;
    }
    if key < node.key {
      root, found, placement := FindOrMakeLeft(node, key, newNode, s);
    } else if node.key < key {
      root, found, placement := FindOrMakeRight(node, key, newNode, s);
    } else {
      return node, node, Matched;
    }
  }

  method FindOrMakeLeft(node: Node, key: int, newNode: Node?, ghost s: Tree<Node>)
    returns (root: Node?, found: Node?, placement: Placement)
    requires Linked(node, s) && Distinct(s) && key < node.key
    requires newNode != null ==> newNode.key == key && newNode !in Nodes(s) && H.InsertRuns(s, Of(newNode))
    modifies (Nodes(s) + Spare(newNode))`left, (Nodes(s) + Spare(newNode))`right
    modifies (Nodes(s) + Spare(newNode))`parent, (Nodes(s) + Spare(newNode))`height
    ensures placement == Matched <==> Has(s, key)
    ensures placement == Refused <==> !Has(s, key) && newNode == null
    ensures placement == Matched ==> found != null && found in Nodes(s) && found.key == key
    ensures placement != Matched ==> found == newNode
    ensures Linked(root, Placed(s, newNode, placement))
    ensures root != null && root.parent == old(node.parent)
    decreases s, 0
  {
    PiecesOfNode(s.left, node, s.right);
    Allocated(s.right);
    RunsBelow(s, newNode);
    var below;
    below, found, placement := FindOrMake(node.left, key, newNode, s.left);
    if placement == Made {
      InsertIntoLeft(s, Of(newNode));
      PiecesOfNode(H.Insert(s.left, Of(newNode)), node, s.right);
      HangLeft(node, below, H.Insert(s.left, Of(newNode)), s.right);
      root := RebalanceOnInsert(node, key, Bin(H.Insert(s.left, Of(newNode)), s.entry, s.right));
    } else {
      HangLeft(node, below, s.left, s.right);
      root := node;
    }
  }

  method FindOrMakeRight(node: Node, key: int, newNode: Node?, ghost s: Tree<Node>)
    returns (root: Node?, found: Node?, placement: Placement)
    requires Linked(node, s) && Distinct(s) && node.key < key
    requires newNode != null ==> newNode.key == key && newNode !in Nodes(s) && H.InsertRuns(s, Of(newNode))
    modifies (Nodes(s) + Spare(newNode))`left, (Nodes(s) + Spare(newNode))`right
    modifies (Nodes(s) + Spare(newNode))`parent, (Nodes(s) + Spare(newNode))`height
    ensures placement == Matched <==> Has(s, key)
    ensures placement == Refused <==> !Has(s, key) && newNode == null
    ensures placement == Matched ==> found != null && found in Nodes(s) && found.key == key
    ensures placement != Matched ==> found == newNode
    ensures Linked(root, Placed(s, newNode, placement))
    ensures root != null && root.parent == old(node.parent)
    decreases s, 0
  {
    PiecesOfNode(s.left, node, s.right);
    Allocated(s.left);
    RunsBelow(s, newNode);
    var below;
    below, found, placement := FindOrMake(node.right, key, newNode, s.right);
    if placement == Made {
      InsertIntoRight(s, Of(newNode));
      PiecesOfNode(s.left, node, H.Insert(s.right, Of(newNode)));
      HangRight(node, below, s.left, H.Insert(s.right, Of(newNode)));
      root := RebalanceOnInsert(node, key, Bin(s.left, s.entry, H.Insert(s.right, Of(newNode))));
    } else {
      HangRight(node, below, s.left, s.right);
      root := node;
    }
  }

  // ---- Removal ------------------------------------------------------------------------------------

  /** A detached node. */
  ghost predicate Alone(n: Node)
    reads n
  {
    n.left == null && n.right == null && n.parent == null && n.height == 1
  }

  /** The node a tree holds key `k` in. */
  ghost predicate Held(s: Tree<Node>, k: int, n: Node) {
    Has(s, k) && Rank(s, k) < Size(s) && Entries(s)[Rank(s, k)] == Of(n)
  }

  lemma ExtractNodes(s: Tree<Node>, k: int)
    requires Ordered(s) && Distinct(s)
    ensures Distinct(H.Extract(s, k)) && Nodes(H.Extract(s, k)) <= Nodes(s)
    ensures Has(s, k) ==> Rank(s, k) < Size(s) && Entries(s)[Rank(s, k)].key == k
                          && Nodes(H.Extract(s, k)) == Nodes(s) - {Entries(s)[Rank(s, k)].item}
  {
    H.ExtractCutsOut(s, k);
    RankSplits(s, k);
    NodesAreItems(s);
    NodesAreItems(H.Extract(s, k));
    DistinctMeans(s);
    DistinctMeans(H.Extract(s, k));
    if Has(s, k) {
      WithoutItems(Entries(s), Rank(s, k));
    }
  }

  lemma HeldIsNode(s: Tree<Node>, k: int, n: Node)
    requires Ordered(s) && Distinct(s) && Held(s, k, n)
    ensures n.key == k && n in Nodes(s) && Nodes(H.Extract(s, k)) == Nodes(s) - {n} && Distinct(H.Extract(s, k))
  {
    ExtractNodes(s, k);
    NodesAreItems(s);
  }

  lemma DistinctWithFewer(l: Tree<Node>, e: Entry<Node>, r: Tree<Node>, t: Tree<Node>)
    requires Distinct(Bin(l, e, r)) && Distinct(t)
    ensures Nodes(t) <= Nodes(l) ==> Distinct(Bin(t, e, r))
    ensures Nodes(t) <= Nodes(r) ==> Distinct(Bin(l, e, t))
  {
  }

  /** What the caller one level up needs to know about a removal from its left branch, and from its right. */
  lemma ExtractFromLeft(s: Tree<Node>, k: int, n: Node)
    requires s.Bin? && Ordered(s) && Distinct(s) && k < s.entry.key && Held(s.left, k, n)
    ensures Held(s, k, n) && n in Nodes(s.left) && n !in Nodes(Bin(H.Extract(s.left, k), s.entry, s.right))
    ensures Distinct(Bin(H.Extract(s.left, k), s.entry, s.right)) && Nodes(H.Extract(s.left, k)) <= Nodes(s.left)
    ensures H.Extract(s, k) == H.RebalanceAfterExtract(Bin(H.Extract(s.left, k), s.entry, s.right))
  {
    OrderedParts(s);
    HeldIsNode(s.left, k, n);
    DistinctWithFewer(s.left, s.entry, s.right, H.Extract(s.left, k));
    EntryAt(s, Rank(s, k));
  }

  lemma ExtractFromRight(s: Tree<Node>, k: int, n: Node)
    requires s.Bin? && Ordered(s) && Distinct(s) && s.entry.key < k && Held(s.right, k, n)
    ensures Held(s, k, n) && n in Nodes(s.right) && n !in Nodes(Bin(s.left, s.entry, H.Extract(s.right, k)))
    ensures Distinct(Bin(s.left, s.entry, H.Extract(s.right, k))) && Nodes(H.Extract(s.right, k)) <= Nodes(s.right)
    ensures H.Extract(s, k) == H.RebalanceAfterExtract(Bin(s.left, s.entry, H.Extract(s.right, k)))
  {
    OrderedParts(s);
    HeldIsNode(s.right, k, n);
    DistinctWithFewer(s.left, s.entry, s.right, H.Extract(s.right, k));
    EntryAt(s, Rank(s, k));
  }

  method FindMin(node: Node, ghost s: Tree<Node>) returns (least: Node)
    requires s.Bin? && Linked(node, s)
    ensures Least(s) == Of(least)
  {
    least := node;
    ghost var t := s;
    while least.left != null
      invariant t.Bin? && Linked(least, t) && Least(t) == Least(s)
      decreases t
    {
      least, t := least.left, t.left;
    }
  }

  method Detach(node: Node)
    modifies node`left, node`right, node`parent, node`height
    ensures Alone(node)
  {
    node.left, node.right, node.parent := null, null, null;
    node.height := 1;
  }

  /** Takes the node with a key out of the tree; nothing happens when there is none. */
  method Extract(node: Node?, k: int, ghost s: Tree<Node>) returns (root: Node?, extracted: Node?)
    requires Linked(node, s) && Ordered(s) && Distinct(s)
    modifies Nodes(s)`left, Nodes(s)`right, Nodes(s)`parent, Nodes(s)`height
    ensures extracted != null <==> Has(s, k)
    ensures extracted != null ==> Held(s, k, extracted) && Alone(extracted)
    ensures Linked(root, H.Extract(s, k))
    ensures node != null && root != null ==> root.parent == old(node.parent)
    decreases s, 3
  {
    if node == null {
      return null, null;
    }
    if k < node.key {
      root, extracted := ExtractLeft(node, k, s);
    } else if node.key < k {
      root, extracted := ExtractRight(node, k, s);
    } else {
      EntryAt(s, Size(s.left));
      root := ExtractRoot(node, s);
      extracted := node;
    }
  }

  method ExtractLeft(node: Node, k: int, ghost s: Tree<Node>) returns (root: Node?, extracted: Node?)
    requires Linked(node, s) && Ordered(s) && Distinct(s) && k < node.key
    modifies Nodes(s)`left, Nodes(s)`right, Nodes(s)`parent, Nodes(s)`height
    ensures extracted != null <==> Has(s, k)
    ensures extracted != null ==> Held(s, k, extracted) && Alone(extracted)
    ensures Linked(root, H.Extract(s, k))
    ensures root != null ==> root.parent == old(node.parent)
    decreases s, 2
  {
    OrderedParts(s);
    PiecesOfNode(s.left, node, s.right);
    Allocated(s.right);
    var below;
    below, extracted := Extract(node.left, k, s.left);
    if extracted != null {
      ExtractFromLeft(s, k, extracted);
      PiecesOfNode(H.Extract(s.left, k), node, s.right);
      HangLeft(node, below, H.Extract(s.left, k), s.right);
      root := RebalanceAfterExtract(node, Bin(H.Extract(s.left, k), s.entry, s.right));
    } else {
      HangLeft(node, below, s.left, s.right);
      root := node;
    }
  }

  method ExtractRight(node: Node, k: int, ghost s: Tree<Node>) returns (root: Node?, extracted: Node?)
    requires Linked(node, s) && Ordered(s) && Distinct(s) && node.key < k
    modifies Nodes(s)`left, Nodes(s)`right, Nodes(s)`parent, Nodes(s)`height
    ensures extracted != null <==> Has(s, k)
    ensures extracted != null ==> Held(s, k, extracted) && Alone(extracted)
    ensures Linked(root, H.Extract(s, k))
    ensures root != null ==> root.parent == old(node.parent)
    decreases s, 2
  {
    OrderedParts(s);
    PiecesOfNode(s.left, node, s.right);
    Allocated(s.left);
    var below;
    below, extracted := Extract(node.right, k, s.right);
    if extracted != null {
      ExtractFromRight(s, k, extracted);
      PiecesOfNode(s.left, node, H.Extract(s.right, k));
      HangRight(node, below, s.left, H.Extract(s.right, k));
      root := RebalanceAfterExtract(node, Bin(s.left, s.entry, H.Extract(s.right, k)));
    } else {
      HangRight(node, below, s.left, s.right);
      root := node;
    }
  }

  /** The least node of the right branch fits between the left branch and the rest of the right one. */
  lemma PromotedFits(s: Tree<Node>, n: Node)
    requires s.Bin? && s.left.Bin? && s.right.Bin? && Ordered(s) && Distinct(s) && Least(s.right) == Of(n)
    ensures Ordered(s.right) && Has(s.right, n.key) && Held(s.right, n.key, n) && n in Nodes(s.right)
    ensures Distinct(Bin(s.left, Of(n), H.Extract(s.right, n.key))) && Nodes(H.Extract(s.right, n.key)) <= Nodes(s.right)
    ensures H.ExtractRoot(s) == H.RebalanceAfterExtract(Bin(s.left, Of(n), H.Extract(s.right, n.key)))
  {
    OrderedParts(s);
    LeastIsHeld(s.right);
    HeldIsNode(s.right, n.key, n);
  }

  /** Pops the root, whose own height nobody looks at; with two children, the least node of the right branch
      takes its place. */
  method ExtractRoot(node: Node, ghost s: Tree<Node>) returns (root: Node?)
    requires s.Bin? && s.entry == Of(node) && Hung(node, s.left, s.right) && Ordered(s) && Distinct(s)
    modifies Nodes(s)`left, Nodes(s)`right, Nodes(s)`parent, Nodes(s)`height
    ensures Linked(root, H.ExtractRoot(s)) && Alone(node)
    ensures root != null ==> root.parent == old(node.parent)
    decreases s, 1
  {
    PiecesOfNode(s.left, node, s.right);
    if node.left != null && node.right != null {
      root := Promote(node, s);
    } else {
      root := if node.left != null then node.left else node.right;
      if root != null {
        root.parent := node.parent;
      }
    }
    RootIsOut(s);
    Allocated(H.ExtractRoot(s));
    Detach(node);
  }

  lemma RootIsOut(s: Tree<Node>)
    requires s.Bin? && Ordered(s) && Distinct(s)
    ensures s.entry.item !in Nodes(H.ExtractRoot(s))
  {
    ExtractNodes(s, s.entry.key);
    EntryAt(s, Size(s.left));
  }

  method Promote(node: Node, ghost s: Tree<Node>) returns (root: Node?)
    requires s.Bin? && s.left.Bin? && s.right.Bin? && s.entry == Of(node) && Hung(node, s.left, s.right)
    requires Ordered(s) && Distinct(s)
    modifies Nodes(s)`left, Nodes(s)`right, Nodes(s)`parent, Nodes(s)`height
    ensures Linked(root, H.ExtractRoot(s)) && root != null && root.parent == old(node.parent)
    decreases s, 0
  {
    PiecesOfNode(s.left, node, s.right);
    Allocated(s.left);
    Allocated(s.right);
    var midpoint := FindMin(node.right, s.right);
    PromotedFits(s, midpoint);
    var below, promoted := Extract(node.right, midpoint.key, s.right);
    PiecesOfNode(s.left, promoted, H.Extract(s.right, midpoint.key));
    HangBoth(promoted, node.left, below, s.left, H.Extract(s.right, midpoint.key));
    promoted.parent := node.parent;
    root := RebalanceAfterExtract(promoted, Bin(s.left, Of(promoted), H.Extract(s.right, midpoint.key)));
  }

  // ---- Joining and splitting ----------------------------------------------------------------------

  lemma SeamOnLeft(l: Tree<Node>, e: Entry<Node>, r: Tree<Node>)
    requires l.Bin? && Distinct(Bin(l, e, r))
    ensures Distinct(Bin(l.right, e, r)) && Distinct(Bin(l.left, l.entry, Bin(l.right, e, r)))
  {
    Reassociates(Entries(l.left), l.entry, Entries(l.right), e, Entries(r));
    SameSequence(Bin(l, e, r), Bin(l.left, l.entry, Bin(l.right, e, r)));
  }

  lemma SeamOnRight(l: Tree<Node>, e: Entry<Node>, r: Tree<Node>)
    requires r.Bin? && Distinct(Bin(l, e, r))
    ensures Distinct(Bin(l, e, r.left)) && Distinct(Bin(Bin(l, e, r.left), r.entry, r.right))
  {
    Reassociates(Entries(l), e, Entries(r.left), r.entry, Entries(r.right));
    SameSequence(Bin(l, e, r), Bin(Bin(l, e, r.left), r.entry, r.right));
  }

  lemma JoinedNodes(l: Tree<Node>, e: Entry<Node>, r: Tree<Node>)
    requires Distinct(Bin(l, e, r))
    ensures Nodes(H.JoinWithRoot(l, e, r)) == Nodes(l) + {e.item} + Nodes(r) && Distinct(H.JoinWithRoot(l, e, r))
  {
    SameSequence(H.JoinWithRoot(l, e, r), Bin(l, e, r));
  }

  /** A branch may be swapped for another shape over the same nodes. */
  lemma DistinctSwap(l: Tree<Node>, e: Entry<Node>, r: Tree<Node>, t: Tree<Node>)
    requires Distinct(Bin(l, e, r)) && Distinct(t)
    ensures Nodes(t) == Nodes(l) ==> Distinct(Bin(t, e, r))
    ensures Nodes(t) == Nodes(r) ==> Distinct(Bin(l, e, t))
  {
  }

  /** Joins two trees around a node; the new root's parent is left for the caller to set. */
  method JoinAround(left: Node?, root: Node, right: Node?, ghost l: Tree<Node>, ghost r: Tree<Node>)
    returns (joined: Node)
    requires Linked(left, l) && Linked(right, r) && Distinct(Bin(l, Of(root), r))
    modifies ({root} + Nodes(l) + Nodes(r))`left, ({root} + Nodes(l) + Nodes(r))`right
    modifies ({root} + Nodes(l) + Nodes(r))`parent, ({root} + Nodes(l) + Nodes(r))`height
    ensures Linked(joined, H.JoinWithRoot(l, Of(root), r))
    decreases Height(l) + Height(r), 1
  {
    LinkedRoot(left, l);
    LinkedRoot(right, r);
    if GetHeight(left) > GetHeight(right) + 1 {
      joined := JoinDownLeft(left, root, right, l, r);
    } else if GetHeight(right) > GetHeight(left) + 1 {
      joined := JoinDownRight(left, root, right, l, r);
    } else {
      PiecesOfNode(l, root, r);
      HangBoth(root, left, right, l, r);
      UpdateHeight(root, l, r);
      joined := root;
    }
  }

  method JoinDownLeft(left: Node, root: Node, right: Node?, ghost l: Tree<Node>, ghost r: Tree<Node>)
    returns (joined: Node)
    requires Linked(left, l) && Linked(right, r) && Distinct(Bin(l, Of(root), r)) && Height(l) > Height(r) + 1
    modifies ({root} + Nodes(l) + Nodes(r))`left, ({root} + Nodes(l) + Nodes(r))`right
    modifies ({root} + Nodes(l) + Nodes(r))`parent, ({root} + Nodes(l) + Nodes(r))`height
    ensures Linked(joined, H.JoinWithRoot(l, Of(root), r))
    decreases Height(l) + Height(r), 0
  {
    SeamOnLeft(l, Of(root), r);
    PiecesOfNode(l.left, left, Bin(l.right, Of(root), r));
    JoinedNodes(l.right, Of(root), r);
    DistinctSwap(l.left, l.entry, Bin(l.right, Of(root), r), H.JoinWithRoot(l.right, Of(root), r));
    Allocated(l.left);
    var below := JoinAround(left.right, root, right, l.right, r);
    PiecesOfNode(l.left, left, H.JoinWithRoot(l.right, Of(root), r));
    HangRight(left, below, l.left, H.JoinWithRoot(l.right, Of(root), r));
    joined := RebalanceAfterExtract(left, Bin(l.left, l.entry, H.JoinWithRoot(l.right, Of(root), r)));
  }

  method JoinDownRight(left: Node?, root: Node, right: Node, ghost l: Tree<Node>, ghost r: Tree<Node>)
    returns (joined: Node)
    requires Linked(left, l) && Linked(right, r) && Distinct(Bin(l, Of(root), r)) && Height(r) > Height(l) + 1
    modifies ({root} + Nodes(l) + Nodes(r))`left, ({root} + Nodes(l) + Nodes(r))`right
    modifies ({root} + Nodes(l) + Nodes(r))`parent, ({root} + Nodes(l) + Nodes(r))`height
    ensures Linked(joined, H.JoinWithRoot(l, Of(root), r))
    decreases Height(l) + Height(r), 0
  {
    SeamOnRight(l, Of(root), r);
    PiecesOfNode(Bin(l, Of(root), r.left), right, r.right);
    JoinedNodes(l, Of(root), r.left);
    DistinctSwap(Bin(l, Of(root), r.left), r.entry, r.right, H.JoinWithRoot(l, Of(root), r.left));
    Allocated(r.right);
    var below := JoinAround(left, root, right.left, l, r.left);
    PiecesOfNode(H.JoinWithRoot(l, Of(root), r.left), right, r.right);
    HangLeft(right, below, H.JoinWithRoot(l, Of(root), r.left), r.right);
    joined := RebalanceAfterExtract(right, Bin(H.JoinWithRoot(l, Of(root), r.left), r.entry, r.right));
  }

  /** Joins two trees around a node into one whose root has no parent. */
  method JoinWithRoot(left: Node?, root: Node, right: Node?, ghost l: Tree<Node>, ghost r: Tree<Node>)
    returns (joined: Node)
    requires Linked(left, l) && Linked(right, r) && Distinct(Bin(l, Of(root), r))
    modifies ({root} + Nodes(l) + Nodes(r))`left, ({root} + Nodes(l) + Nodes(r))`right
    modifies ({root} + Nodes(l) + Nodes(r))`parent, ({root} + Nodes(l) + Nodes(r))`height
    ensures Linked(joined, H.JoinWithRoot(l, Of(root), r)) && joined.parent == null
  {
    JoinedNodes(l, Of(root), r);
    joined := JoinAround(left, root, right, l, r);
    LinkedRoot(joined, H.JoinWithRoot(l, Of(root), r));
    RootIsAbove(H.JoinWithRoot(l, Of(root), r));
    joined.parent := null;
  }

  lemma RootIsAbove(s: Tree<Node>)
    requires Distinct(s)
    ensures RootAbove(s) && Below(s) <= Nodes(s)
  {
  }

  ghost predicate NoParent(n: Node?)
    reads n
  {
    n != null ==> n.parent == null
  }

  lemma JoinNodes(l: Tree<Node>, r: Tree<Node>)
    requires Ordered(r) && Distinct(l) && Distinct(r) && Nodes(l) !! Nodes(r)
    ensures Nodes(H.Join(l, r)) == Nodes(l) + Nodes(r) && Distinct(H.Join(l, r))
  {
    H.JoinConcatenates(l, r);
    NodesAreItems(l);
    NodesAreItems(r);
    NodesAreItems(H.Join(l, r));
    ItemsConcat(Entries(l), Entries(r));
    DistinctMeans(l);
    DistinctMeans(r);
    DistinctMeans(H.Join(l, r));
    NoDupConcat(Entries(l), Entries(r));
  }

  lemma DistinctGraft(l: Tree<Node>, e: Entry<Node>, r: Tree<Node>, more: set<Node>, t: Tree<Node>)
    requires Distinct(Bin(l, e, r)) && Nodes(Bin(l, e, r)) !! more && Distinct(t)
    ensures Nodes(t) == Nodes(r) + more ==> Distinct(Bin(l, e, t))
    ensures Nodes(t) == Nodes(l) + more ==> Distinct(Bin(t, e, r))
  {
  }

  lemma LeastFits(l: Tree<Node>, r: Tree<Node>, least: Node)
    requires r.Bin? && Ordered(r) && Distinct(l) && Distinct(r) && Nodes(l) !! Nodes(r) && Least(r) == Of(least)
    ensures Has(r, least.key) && Held(r, least.key, least) && least in Nodes(r)
    ensures Nodes(H.Extract(r, least.key)) <= Nodes(r) && Distinct(Bin(l, Of(least), H.Extract(r, least.key)))
  {
    LeastIsHeld(r);
    HeldIsNode(r, least.key, least);
  }

  /** Joins two trees, all of the first before all of the second. */
  method Join(left: Node?, right: Node?, ghost l: Tree<Node>, ghost r: Tree<Node>) returns (joined: Node?)
    requires Linked(left, l) && Linked(right, r) && Ordered(r) && Distinct(l) && Distinct(r) && Nodes(l) !! Nodes(r)
    modifies (Nodes(l) + Nodes(r))`left, (Nodes(l) + Nodes(r))`right
    modifies (Nodes(l) + Nodes(r))`parent, (Nodes(l) + Nodes(r))`height
    ensures Linked(joined, H.Join(l, r))
    ensures old(NoParent(left)) && old(NoParent(right)) ==> NoParent(joined)
    decreases Height(l) + Height(r), 1
  {
    if left == null {
      return right;
    }
    if right == null {
      return left;
    }
    LinkedRoot(left, l);
    LinkedRoot(right, r);
    if GetHeight(left) > GetHeight(right) + 1 {
      joined := JoinBelowLeft(left, right, l, r);
    } else if GetHeight(right) > GetHeight(left) + 1 {
      joined := JoinBelowRight(left, right, l, r);
    } else {
      Allocated(l);
      Allocated(r);
      var least := FindMin(right, r);
      LeastFits(l, r, least);
      var rest, extracted := Extract(right, least.key, r);
      joined := JoinWithRoot(left, extracted, rest, l, H.Extract(r, least.key));
    }
  }

  method JoinBelowLeft(left: Node, right: Node, ghost l: Tree<Node>, ghost r: Tree<Node>) returns (joined: Node)
    requires Linked(left, l) && Linked(right, r) && Ordered(r) && Distinct(l) && Distinct(r) && Nodes(l) !! Nodes(r)
    requires Height(l) > Height(r) + 1
    modifies (Nodes(l) + Nodes(r))`left, (Nodes(l) + Nodes(r))`right
    modifies (Nodes(l) + Nodes(r))`parent, (Nodes(l) + Nodes(r))`height
    ensures Linked(joined, H.Join(l, r))
    ensures joined.parent == old(left.parent)
    decreases Height(l) + Height(r), 0
  {
    PiecesOfNode(l.left, left, l.right);
    JoinNodes(l.right, r);
    DistinctGraft(l.left, l.entry, l.right, Nodes(r), H.Join(l.right, r));
    Allocated(l.left);
    var below := Join(left.right, right, l.right, r);
    PiecesOfNode(l.left, left, H.Join(l.right, r));
    HangRight(left, below, l.left, H.Join(l.right, r));
    joined := RebalanceAfterExtract(left, Bin(l.left, l.entry, H.Join(l.right, r)));
  }

  method JoinBelowRight(left: Node, right: Node, ghost l: Tree<Node>, ghost r: Tree<Node>) returns (joined: Node)
    requires Linked(left, l) && Linked(right, r) && Ordered(r) && Distinct(l) && Distinct(r) && Nodes(l) !! Nodes(r)
    requires Height(r) > Height(l) + 1
    modifies (Nodes(l) + Nodes(r))`left, (Nodes(l) + Nodes(r))`right
    modifies (Nodes(l) + Nodes(r))`parent, (Nodes(l) + Nodes(r))`height
    ensures Linked(joined, H.Join(l, r))
    ensures joined.parent == old(right.parent)
    decreases Height(l) + Height(r), 0
  {
    OrderedParts(r);
    PiecesOfNode(r.left, right, r.right);
    JoinNodes(l, r.left);
    DistinctGraft(r.left, r.entry, r.right, Nodes(l), H.Join(l, r.left));
    Allocated(r.right);
    var below := Join(left, right.left, l, r.left);
    PiecesOfNode(H.Join(l, r.left), right, r.right);
    HangLeft(right, below, H.Join(l, r.left), r.right);
    joined := RebalanceAfterExtract(right, Bin(H.Join(l, r.left), r.entry, r.right));
  }

  lemma SplitNodes(s: Tree<Node>, k: int)
    requires Distinct(s)
    ensures Distinct(H.Split(s, k).0) && Distinct(H.Split(s, k).1)
    ensures Nodes(H.Split(s, k).0) !! Nodes(H.Split(s, k).1)
    ensures Nodes(H.Split(s, k).0) + Nodes(H.Split(s, k).1) == Nodes(s)
  {
    var (a, b) := H.Split(s, k);
    H.SplitCuts(s, k);
    NodesAreItems(s);
    NodesAreItems(a);
    NodesAreItems(b);
    ItemsConcat(Entries(a), Entries(b));
    DistinctMeans(s);
    DistinctMeans(a);
    DistinctMeans(b);
    NoDupConcat(Entries(a), Entries(b));
  }

  /** Clears the parent link of a root. */
  method Unparent(node: Node?, ghost s: Tree<Node>)
    requires Linked(node, s) && Distinct(s)
    modifies Nodes(s)`parent
    ensures Linked(node, s) && NoParent(node)
  {
    RootIsAbove(s);
    if node != null {
      node.parent := null;
    }
  }

  /** Splits a tree into what is before a key and what is not, each with a root of its own. */
  method Split(node: Node?, k: int, ghost s: Tree<Node>) returns (below: Node?, above: Node?)
    requires Linked(node, s) && Distinct(s)
    modifies Nodes(s)`left, Nodes(s)`right, Nodes(s)`parent, Nodes(s)`height
    ensures Linked(below, H.Split(s, k).0) && Linked(above, H.Split(s, k).1)
    ensures NoParent(below) && NoParent(above)
    decreases s, 1
  {
    if node == null {
      return null, null;
    }
    if node.key < k {
      below, above := SplitRight(node, k, s);
    } else {
      below, above := SplitLeft(node, k, s);
    }
  }

  method SplitRight(node: Node, k: int, ghost s: Tree<Node>) returns (below: Node?, above: Node?)
    requires Linked(node, s) && Distinct(s) && node.key < k
    modifies Nodes(s)`left, Nodes(s)`right, Nodes(s)`parent, Nodes(s)`height
    ensures Linked(below, H.Split(s, k).0) && Linked(above, H.Split(s, k).1)
    ensures NoParent(below) && NoParent(above)
    decreases s, 0
  {
    PiecesOfNode(s.left, node, s.right);
    SplitNodes(s.right, k);
    DistinctWithFewer(s.left, s.entry, s.right, H.Split(s.right, k).0);
    Allocated(s.left);
    below, above := Split(node.right, k, s.right);
    Allocated(H.Split(s.right, k).1);
    below := JoinWithRoot(node.left, node, below, s.left, H.Split(s.right, k).0);
  }

  method SplitLeft(node: Node, k: int, ghost s: Tree<Node>) returns (below: Node?, above: Node?)
    requires Linked(node, s) && Distinct(s) && k <= node.key
    modifies Nodes(s)`left, Nodes(s)`right, Nodes(s)`parent, Nodes(s)`height
    ensures Linked(below, H.Split(s, k).0) && Linked(above, H.Split(s, k).1)
    ensures NoParent(below) && NoParent(above)
    decreases s, 0
  {
    PiecesOfNode(s.left, node, s.right);
    SplitNodes(s.left, k);
    DistinctWithFewer(s.left, s.entry, s.right, H.Split(s.left, k).1);
    Allocated(s.right);
    below, above := Split(node.left, k, s.left);
    Allocated(H.Split(s.left, k).0);
    above := JoinWithRoot(above, node, node.right, H.Split(s.left, k).1, s.right);
  }

  // ---- Erasing many -------------------------------------------------------------------------------

  /** Visits every node bottom-up. */
  method ForEachBottomUp(node: Node?, ghost s: Tree<Node>) returns (visited: seq<Node>)
    requires Linked(node, s)
    ensures |visited| == Size(s) && (set n | n in visited) == Nodes(s)
    decreases s
  {
    if node == null {
      return [];
    }
    Allocated(s.left);
    Allocated(s.right);
    var left := ForEachBottomUp(node.left, s.left);
    var right := ForEachBottomUp(node.right, s.right);
    visited := left + right + [node];
  }

  /** The three pieces of a range erasure lie apart and in order. */
  lemma RangeParts(s: Tree<Node>, lower: int, upper: int)
    requires Ordered(s) && Distinct(s)
    ensures var (below, notBelow) := H.Split(s, lower);
            var (within, above) := H.Split(notBelow, upper);
            && Ordered(above) && Distinct(below) && Distinct(notBelow) && Distinct(within) && Distinct(above)
            && Nodes(below) !! Nodes(notBelow) && Nodes(within) !! Nodes(above)
            && Nodes(below) + Nodes(notBelow) == Nodes(s) && Nodes(within) + Nodes(above) == Nodes(notBelow)
  {
    var (below, notBelow) := H.Split(s, lower);
    SplitNodes(s, lower);
    H.SplitCuts(s, lower);
    SliceAscends(Entries(below), Entries(notBelow));
    SplitNodes(notBelow, upper);
    var (within, above) := H.Split(notBelow, upper);
    H.SplitCuts(notBelow, upper);
    SliceAscends(Entries(within), Entries(above));
  }

  /** Splits twice, hands over the middle, and joins what is left. */
  method EraseRange(root: Node?, lower: int, upper: int, ghost s: Tree<Node>) returns (rest: Node?, erased: seq<Node>)
    requires Linked(root, s) && Ordered(s) && Distinct(s)
    modifies Nodes(s)`left, Nodes(s)`right, Nodes(s)`parent, Nodes(s)`height
    ensures Linked(rest, H.EraseRange(s, lower, upper).0) && NoParent(rest)
    ensures |erased| == Size(H.EraseRange(s, lower, upper).1)
    ensures (set n | n in erased) == Nodes(H.EraseRange(s, lower, upper).1)
  {
    RangeParts(s, lower, upper);
    ghost var below, notBelow := H.Split(s, lower).0, H.Split(s, lower).1;
    ghost var within, above := H.Split(notBelow, upper).0, H.Split(notBelow, upper).1;
    Allocated(below);
    Allocated(within);
    Allocated(above);
    var low, middle := Split(root, lower, s);
    var high;
    middle, high := Split(middle, upper, notBelow);
    erased := ForEachBottomUp(middle, within);
    rest := Join(low, high, below, above);
    JoinNodes(below, above);
    Unparent(rest, H.Join(below, above));
  }
}
