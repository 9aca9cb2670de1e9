/** Walking an AVL tree in order by its parent links, and the range scans built on that. */
module AvlWalk {
  import opened OrderedTrees
  import opened AvlTree

  datatype Turn = ToLeft | ToRight

  /** Whether a path from the root leads to a node, and the branch it leads to. */
  ghost predicate Reaches(s: Tree<Node>, path: seq<Turn>)
    decreases |path|
  {
    s.Bin? && (path == [] || Reaches(if path[0] == ToLeft then s.left else s.right, path[1..]))
  }

  ghost function At(s: Tree<Node>, path: seq<Turn>): (t: Tree<Node>)
    requires Reaches(s, path)
    ensures t.Bin?
    decreases |path|
  {
    if path == [] then s else At(if path[0] == ToLeft then s.left else s.right, path[1..])
  }

  /** How many entries come before the branch a path leads to. */
  ghost function Start(s: Tree<Node>, path: seq<Turn>): nat
    requires Reaches(s, path)
    decreases |path|
  {
    if path == [] then 0
    else if path[0] == ToLeft then Start(s.left, path[1..])
    else Size(s.left) + 1 + Start(s.right, path[1..])
  }

  /** The position of the node a path leads to. */
  ghost function Position(s: Tree<Node>, path: seq<Turn>): nat
    requires Reaches(s, path)
  {
    Start(s, path) + Size(At(s, path).left)
  }

  lemma {:induction false} PositionIsIndex(s: Tree<Node>, path: seq<Turn>)
    requires Reaches(s, path)
    ensures Start(s, path) + Size(At(s, path)) <= Size(s)
    ensures Position(s, path) < Size(s) && Entries(s)[Position(s, path)] == At(s, path).entry
    decreases |path|
  {
    if path == [] {
      EntryAt(s, Size(s.left));
    } else if path[0] == ToLeft {
      PositionIsIndex(s.left, path[1..]);
      EntryAt(s, Position(s.left, path[1..]));
    } else {
      PositionIsIndex(s.right, path[1..]);
      EntryAt(s, Size(s.left) + 1 + Position(s.right, path[1..]));
    }
  }

  /** One turn further down. */
  lemma {:induction false} StepDown(s: Tree<Node>, path: seq<Turn>, turn: Turn)
    requires Reaches(s, path)
    requires turn == ToLeft ==> At(s, path).left.Bin?
    requires turn == ToRight ==> At(s, path).right.Bin?
    ensures Reaches(s, path + [turn])
    ensures At(s, path + [turn]) == if turn == ToLeft then At(s, path).left else At(s, path).right
    ensures Start(s, path + [turn])
         == if turn == ToLeft then Start(s, path) else Start(s, path) + Size(At(s, path).left) + 1
    decreases |path|
  {
    if path != [] {
      assert (path + [turn])[1..] == path[1..] + [turn];
      StepDown(if path[0] == ToLeft then s.left else s.right, path[1..], turn);
    } else {
      assert ([turn])[1..] == [];
    }
  }

  /** One turn back up: the node's parent, which is where its parent link points. */
  lemma {:induction false} StepUp(root: Node?, s: Tree<Node>, path: seq<Turn>)
    requires Linked(root, s) && Reaches(s, path) && path != []
    ensures var up := path[..|path| - 1];
            && Reaches(s, up) && At(s, path) == (if path[|path| - 1] == ToLeft then At(s, up).left else At(s, up).right)
            && At(s, path).entry.item.parent == At(s, up).entry.item
            && Start(s, path) == (if path[|path| - 1] == ToLeft then Start(s, up) else Start(s, up) + Size(At(s, up).left) + 1)
    decreases |path|
  {
    var up := path[..|path| - 1];
    if |path| > 1 {
      var child := if path[0] == ToLeft then s.left else s.right;
      assert path[1..][..|path[1..]| - 1] == up[1..];
      StepUp(if path[0] == ToLeft then root.left else root.right, child, path[1..]);
    } else {
      assert path[1..] == [] && up == [];
    }
  }

  lemma {:induction false} LinkedAt(root: Node?, s: Tree<Node>, path: seq<Turn>)
    requires Linked(root, s) && Reaches(s, path)
    ensures Linked(At(s, path).entry.item, At(s, path)) && At(s, path).entry == Of(At(s, path).entry.item)
    decreases |path|
  {
    if path != [] {
      LinkedAt(if path[0] == ToLeft then root.left else root.right, if path[0] == ToLeft then s.left else s.right, path[1..]);
    }
  }

  lemma {:induction false} DistinctAt(s: Tree<Node>, path: seq<Turn>)
    requires Distinct(s) && Reaches(s, path)
    ensures Distinct(At(s, path))
    decreases |path|
  {
    if path != [] {
      DistinctAt(if path[0] == ToLeft then s.left else s.right, path[1..]);
    }
  }

  /** Standing on the node a path leads to, in a tree whose root has no parent. */
  ghost predicate Standing(root: Node?, s: Tree<Node>, node: Node?, path: seq<Turn>)
    reads Nodes(s), Spare(root)
  {
    Linked(root, s) && NoParent(root) && Distinct(s) && Reaches(s, path) && node == At(s, path).entry.item
  }

  /** What the links of the node and its parent say about where one stands. */
  lemma LookAround(root: Node?, s: Tree<Node>, node: Node, path: seq<Turn>)
    requires Standing(root, s, node, path)
    ensures node.right == null <==> At(s, path).right.Nil?
    ensures node.left == null <==> At(s, path).left.Nil?
    ensures node.left != null ==> node.left == At(s, path).left.entry.item
    ensures node.right != null ==> node.right == At(s, path).right.entry.item
    ensures node.parent == null <==> path == []
    ensures path != [] ==> Standing(root, s, node.parent, path[..|path| - 1])
    ensures path != [] ==> (node == node.parent.right <==> path[|path| - 1] == ToRight)
  {
    LinkedAt(root, s, path);
    LinkedRoot(node.left, At(s, path).left);
    LinkedRoot(node.right, At(s, path).right);
    if path != [] {
      var up := path[..|path| - 1];
      StepUp(root, s, path);
      LinkedAt(root, s, up);
      DistinctAt(s, up);
      LinkedRoot(node.parent.right, At(s, up).right);
      LinkedRoot(node.parent.left, At(s, up).left);
    }
  }

  /** The next node in order: down the right branch if there is one, else the first ancestor reached from the
      left. */
  method FindSuccessor(root: Node?, node: Node, ghost s: Tree<Node>, ghost path: seq<Turn>)
    returns (next: Node?, ghost nextPath: seq<Turn>)
    requires Standing(root, s, node, path)
    ensures next == null <==> Position(s, path) + 1 == Size(s)
    ensures next != null ==> Standing(root, s, next, nextPath) && Position(s, nextPath) == Position(s, path) + 1
    ensures next != null ==> Position(s, path) + 1 < Size(s) && Entries(s)[Position(s, path) + 1].item == next
  {
    PositionIsIndex(s, path);
    LookAround(root, s, node, path);
    if node.right != null {
      StepDown(s, path, ToRight);
      nextPath := path + [ToRight];
      next, nextPath := LeftmostFrom(root, node.right, s, nextPath);
      PositionIsIndex(s, nextPath);
      return;
    }
    next, nextPath := ClimbFromRight(root, node, s, path);
    if next != null {
      PositionIsIndex(s, nextPath);
    }
  }

  method LeftmostFrom(root: Node?, node: Node, ghost s: Tree<Node>, ghost path: seq<Turn>)
    returns (least: Node, ghost leastPath: seq<Turn>)
    requires Standing(root, s, node, path)
    ensures Standing(root, s, least, leastPath) && Position(s, leastPath) == Start(s, path)
  {
    least, leastPath := node, path;
    LookAround(root, s, least, leastPath);
    while least.left != null
      invariant Standing(root, s, least, leastPath) && Start(s, leastPath) == Start(s, path)
      invariant least.left == null ==> At(s, leastPath).left.Nil?
      invariant least.left != null ==> At(s, leastPath).left.Bin? && least.left == At(s, leastPath).left.entry.item
      decreases Size(At(s, leastPath))
    {
      StepDown(s, leastPath, ToLeft);
      least, leastPath := least.left, leastPath + [ToLeft];
      LookAround(root, s, least, leastPath);
    }
  }

  method ClimbFromRight(root: Node?, node: Node, ghost s: Tree<Node>, ghost path: seq<Turn>)
    returns (next: Node?, ghost nextPath: seq<Turn>)
    requires Standing(root, s, node, path) && At(s, path).right.Nil?
    ensures next == null <==> Position(s, path) + 1 == Size(s)
    ensures next != null ==> Standing(root, s, next, nextPath) && Position(s, nextPath) == Position(s, path) + 1
  {
    var current := node;
    nextPath := path;
    next := node.parent;
    LookAround(root, s, current, nextPath);
    while next != null && current == next.right
      invariant Standing(root, s, current, nextPath) && next == current.parent
      invariant Start(s, nextPath) + Size(At(s, nextPath)) == Position(s, path) + 1
      decreases |nextPath|
    {
      LookAround(root, s, current, nextPath);
      StepUp(root, s, nextPath);
      current := next;
      next := next.parent;
      nextPath := nextPath[..|nextPath| - 1];
    }
    LookAround(root, s, current, nextPath);
    if next != null {
      StepUp(root, s, nextPath);
      nextPath := nextPath[..|nextPath| - 1];
      PositionIsIndex(s, nextPath);
    }
  }

  // ---- Ranges -------------------------------------------------------------------------------------

  /** The node at a position of the in-order sequence, or none past its end. */
  ghost predicate StandsAt(root: Node?, s: Tree<Node>, node: Node?, path: seq<Turn>, i: nat)
    reads Nodes(s), Spare(root)
  {
    && i <= Size(s) && (node == null <==> i == Size(s))
    && (node != null ==> Standing(root, s, node, path) && Position(s, path) == i)
  }

  lemma StoodOn(root: Node?, s: Tree<Node>, node: Node, path: seq<Turn>, i: nat)
    requires StandsAt(root, s, node, path, i)
    ensures i < Size(s) && Entries(s)[i] == Of(node)
  {
    PositionIsIndex(s, path);
    LinkedAt(root, s, path);
  }

  /** Going left when the key is not below `low`, and right otherwise, keeps the rank in sight. */
  lemma RankDescends(t: Tree<Node>, low: int)
    requires t.Bin? && Ordered(t)
    ensures Ordered(t.left) && Ordered(t.right)
    ensures Rank(t, low) == if t.entry.key < low then Size(t.left) + 1 + Rank(t.right, low) else Rank(t.left, low)
  {
    OrderedParts(t);
    if low == t.entry.key {
      AllSmaller(t.left, low);
    }
  }

  lemma {:induction false} AllSmaller(t: Tree<Node>, low: int)
    requires Before(Entries(t), low)
    ensures Rank(t, low) == Size(t)
  {
    if t.Bin? {
      EntryAt(t, Size(t.left));
      SlicesBefore(Entries(t.left), t.entry, Entries(t.right), low);
      AllSmaller(t.right, low);
    }
  }

  lemma SlicesBefore(a: seq<Entry<Node>>, e: Entry<Node>, b: seq<Entry<Node>>, k: int)
    requires Before(a + [e] + b, k)
    ensures Before(b, k)
  {
    assert forall i :: 0 <= i < |b| ==> (a + [e] + b)[|a| + 1 + i] == b[i];
  }

  /** Where the descent for a lower bound is: on the branch that holds it, or just past it. */
  ghost predicate Narrowing(root: Node?, s: Tree<Node>, low: int, node: Node?, at: seq<Turn>, t: Tree<Node>, first: nat)
    reads Nodes(s), Spare(root)
  {
    && Ordered(t) && first + Size(t) <= Size(s) && Rank(s, low) == first + Rank(t, low)
    && (node == null <==> t.Nil?)
    && (node != null ==> Standing(root, s, node, at) && At(s, at) == t && Start(s, at) == first)
  }

  /** One step of the descent. */
  method Narrow(root: Node?, low: int, node: Node, ghost s: Tree<Node>, ghost at: seq<Turn>, ghost t: Tree<Node>, ghost first: nat)
    returns (below: Node?, ghost belowAt: seq<Turn>, ghost branch: Tree<Node>, ghost start: nat)
    requires Narrowing(root, s, low, node, at, t, first)
    ensures Narrowing(root, s, low, below, belowAt, branch, start) && Size(branch) < Size(t)
    ensures if node.key < low then start + Size(branch) == first + Size(t) else start + Size(branch) == Position(s, at)
  {
    LookAround(root, s, node, at);
    LinkedAt(root, s, at);
    RankDescends(t, low);
    if node.key < low {
      below, belowAt, branch, start := node.right, at + [ToRight], t.right, first + Size(t.left) + 1;
      if below != null {
        StepDown(s, at, ToRight);
      }
    } else {
      below, belowAt, branch, start := node.left, at + [ToLeft], t.left, first;
      if below != null {
        StepDown(s, at, ToLeft);
      }
    }
  }

  /** The first node whose key is not below `low`. */
  method LowerBound(root: Node?, low: int, ghost s: Tree<Node>) returns (found: Node?, ghost path: seq<Turn>)
    requires Linked(root, s) && NoParent(root) && Ordered(s) && Distinct(s)
    ensures StandsAt(root, s, found, path, Rank(s, low))
    ensures found == null <==> Rank(s, low) == Size(s)
    ensures found != null ==> Rank(s, low) < Size(s) && Entries(s)[Rank(s, low)].item == found
  {
    var node := root;
    found, path := null, [];
    ghost var at: seq<Turn>, t: Tree<Node>, first: nat := [], s, 0;
    Allocated(s);
    while node != null
      invariant Narrowing(root, s, low, node, at, t, first) && StandsAt(root, s, found, path, first + Size(t))
      decreases Size(t)
    {
      var was := node;
      ghost var wasAt := at;
      PositionIsIndex(s, at);
      node, at, t, first := Narrow(root, low, node, s, at, t, first);
      if was.key >= low {
        found, path := was, wasAt;
      }
    }
    if found != null {
      PositionIsIndex(s, path);
    }
  }

  /** The nodes handed over so far: the in-order run from position `first`, all below `high`. */
  ghost predicate HandedOver(s: Tree<Node>, first: nat, high: int, visited: seq<Node>) {
    && first + |visited| <= Size(s)
    && forall i :: 0 <= i < |visited| ==> visited[i] == Entries(s)[first + i].item && visited[i].key < high
  }

  /** A walk over a range, at the node after those it has handed over. */
  ghost predicate Handing(root: Node?, s: Tree<Node>, current: Node?, path: seq<Turn>, first: nat, high: int,
                          visited: seq<Node>)
    reads Nodes(s), Spare(root)
  {
    StandsAt(root, s, current, path, first + |visited|) && HandedOver(s, first, high, visited)
  }

  /** Hands one more node over and moves on. */
  method HandOn(root: Node?, current: Node, high: int, visited: seq<Node>, ghost s: Tree<Node>, ghost path: seq<Turn>,
                ghost first: nat)
    returns (next: Node?, ghost nextPath: seq<Turn>, handed: seq<Node>)
    requires Handing(root, s, current, path, first, high, visited) && current.key < high
    ensures Handing(root, s, next, nextPath, first, high, handed) && |handed| == |visited| + 1
  {
    StoodOn(root, s, current, path, first + |visited|);
    next, nextPath := FindSuccessor(root, current, s, path);
    handed := visited + [current];
  }

  /** Hands over the nodes with keys in [low, high) in order, until the visitor halts. */
  method Range(root: Node?, low: int, high: int, patience: nat, ghost s: Tree<Node>) returns (visited: seq<Node>, resumed: bool)
    requires Linked(root, s) && NoParent(root) && Ordered(s) && Distinct(s) && patience > 0
    ensures HandedOver(s, Rank(s, low), high, visited)
    ensures resumed ==> |visited| < patience
                        && (Rank(s, low) + |visited| < Size(s) ==> high <= Entries(s)[Rank(s, low) + |visited|].key)
    ensures !resumed ==> |visited| == patience
  {
    var current; ghost var path;
    current, path := LowerBound(root, low, s);
    visited := [];
    while current != null && current.key < high
      invariant |visited| < patience && Handing(root, s, current, path, Rank(s, low), high, visited)
      decreases Size(s) - |visited|
    {
      current, path, visited := HandOn(root, current, high, visited, s, path, Rank(s, low));
      if |visited| == patience {
        return visited, false;
      }
    }
    if current != null {
      StoodOn(root, s, current, path, Rank(s, low) + |visited|);
    }
    resumed := true;
  }
}
