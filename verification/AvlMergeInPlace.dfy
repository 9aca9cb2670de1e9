/** The three merges of AVL trees in memory. */
module AvlMergeInPlace {
  import opened OrderedTrees
  import H = HeightBalance
  import M = AvlMerging
  import opened AvlTree

  // ---- By splitting -------------------------------------------------------------------------------

  lemma {:induction false} SplitBasedNodes(small: Tree<Node>, large: Tree<Node>)
    requires Distinct(small) && Distinct(large) && Nodes(small) !! Nodes(large)
    ensures Distinct(M.SplitBased(small, large)) && Nodes(M.SplitBased(small, large)) == Nodes(small) + Nodes(large)
    decreases small
  {
    if small.Bin? && large.Bin? {
      var (below, above) := H.Split(large, small.entry.key);
      SplitNodes(large, small.entry.key);
      SplitBasedNodes(small.left, below);
      SplitBasedNodes(small.right, above);
      var l, r := M.SplitBased(small.left, below), M.SplitBased(small.right, above);
      MergedFits(small, below, above, l, r);
      JoinedNodes(l, small.entry, r);
    }
  }

  lemma MergedFits(small: Tree<Node>, below: Tree<Node>, above: Tree<Node>, l: Tree<Node>, r: Tree<Node>)
    requires small.Bin? && Distinct(small) && Nodes(below) !! Nodes(above)
    requires Nodes(small) !! Nodes(below) + Nodes(above) && Distinct(l) && Distinct(r)
    requires Nodes(l) == Nodes(small.left) + Nodes(below) && Nodes(r) == Nodes(small.right) + Nodes(above)
    ensures Distinct(Bin(l, small.entry, r))
    ensures Nodes(Bin(l, small.entry, r)) == Nodes(small) + Nodes(below) + Nodes(above)
  {
  }

  /** Takes the smaller tree's root as pivot, splits the larger around it, merges the halves, joins. */
  method MergeSplitBased(small: Node?, large: Node?, ghost s: Tree<Node>, ghost t: Tree<Node>) returns (root: Node?)
    requires Linked(small, s) && Linked(large, t) && Distinct(s) && Distinct(t) && Nodes(s) !! Nodes(t)
    modifies (Nodes(s) + Nodes(t))`left, (Nodes(s) + Nodes(t))`right
    modifies (Nodes(s) + Nodes(t))`parent, (Nodes(s) + Nodes(t))`height
    ensures Linked(root, M.SplitBased(s, t))
    ensures old(NoParent(small)) && old(NoParent(large)) ==> NoParent(root)
    decreases s, 3
  {
    if small == null {
      return large;
    }
    if large == null {
      return small;
    }
    root := MergeAroundPivot(small, large, s, t);
  }

  /** What splitting one tree around the root of another leaves apart, before the halves are merged and after. */
  lemma PivotPieces(pivot: Node, s: Tree<Node>, t: Tree<Node>)
    requires s.Bin? && s.entry == Of(pivot) && Distinct(s) && Distinct(t) && Nodes(s) !! Nodes(t)
    ensures var (below, above) := H.Split(t, pivot.key);
            && ThreePieces(s.left, pivot, s.right) && Distinct(s.left) && Distinct(s.right)
            && Distinct(below) && Distinct(above) && Nodes(below) + Nodes(above) == Nodes(t)
            && Nodes(s.left) + Nodes(below) !! Nodes(s.right) + Nodes(above)
            && Distinct(Bin(M.SplitBased(s.left, below), s.entry, M.SplitBased(s.right, above)))
            && Nodes(M.SplitBased(s.left, below)) == Nodes(s.left) + Nodes(below)
            && Nodes(M.SplitBased(s.right, above)) == Nodes(s.right) + Nodes(above)
    ensures var (below, above) := H.Split(t, pivot.key);
            t.Bin? ==>
              M.SplitBased(s, t) == H.JoinWithRoot(M.SplitBased(s.left, below), s.entry, M.SplitBased(s.right, above))
  {
    var (below, above) := H.Split(t, pivot.key);
    PiecesOfNode(s.left, pivot, s.right);
    SplitNodes(t, pivot.key);
    SplitBasedNodes(s.left, below);
    SplitBasedNodes(s.right, above);
    MergedFits(s, below, above, M.SplitBased(s.left, below), M.SplitBased(s.right, above));
  }

  method MergeAroundPivot(pivot: Node, large: Node, ghost s: Tree<Node>, ghost t: Tree<Node>) returns (root: Node)
    requires Linked(pivot, s) && Linked(large, t) && Distinct(s) && Distinct(t) && Nodes(s) !! Nodes(t)
    modifies (Nodes(s) + Nodes(t))`left, (Nodes(s) + Nodes(t))`right
    modifies (Nodes(s) + Nodes(t))`parent, (Nodes(s) + Nodes(t))`height
    ensures Linked(root, M.SplitBased(s, t)) && root.parent == null
    decreases s, 2
  {
    ghost var below, above := H.Split(t, pivot.key).0, H.Split(t, pivot.key).1;
    PivotPieces(pivot, s, t);
    var smallLeft, smallRight := pivot.left, pivot.right;
    var low, high := SplitBeside(large, pivot.key, t, smallLeft, s.left, smallRight, s.right);
    root := MergeAndJoin(pivot, smallLeft, smallRight, low, high, s.left, s.right, below, above);
  }

  /** Splits one tree without disturbing two others. */
  method SplitBeside(large: Node, key: int, ghost t: Tree<Node>, ghost left: Node?, ghost l: Tree<Node>,
                     ghost right: Node?, ghost r: Tree<Node>)
    returns (low: Node?, high: Node?)
    requires Linked(large, t) && Distinct(t) && Linked(left, l) && Linked(right, r)
    requires Nodes(t) !! Nodes(l) && Nodes(t) !! Nodes(r)
    modifies Nodes(t)`left, Nodes(t)`right, Nodes(t)`parent, Nodes(t)`height
    ensures Linked(low, H.Split(t, key).0) && Linked(high, H.Split(t, key).1) && Linked(left, l) && Linked(right, r)
  {
    Allocated(l);
    Allocated(r);
    low, high := Split(large, key, t);
  }

  method MergeAndJoin(pivot: Node, smallLeft: Node?, smallRight: Node?, low: Node?, high: Node?,
                      ghost l: Tree<Node>, ghost r: Tree<Node>, ghost below: Tree<Node>, ghost above: Tree<Node>)
    returns (root: Node)
    requires Distinct(l) && Distinct(r) && Distinct(below) && Distinct(above)
    requires Linked(smallLeft, l) && Linked(smallRight, r) && Linked(low, below) && Linked(high, above)
    requires Nodes(l) + Nodes(below) !! Nodes(r) + Nodes(above) && Nodes(l) !! Nodes(below) && Nodes(r) !! Nodes(above)
    requires Distinct(Bin(M.SplitBased(l, below), Of(pivot), M.SplitBased(r, above)))
    requires Nodes(M.SplitBased(l, below)) == Nodes(l) + Nodes(below)
    requires Nodes(M.SplitBased(r, above)) == Nodes(r) + Nodes(above)
    modifies ({pivot} + Nodes(l) + Nodes(r) + Nodes(below) + Nodes(above))`left
    modifies ({pivot} + Nodes(l) + Nodes(r) + Nodes(below) + Nodes(above))`right
    modifies ({pivot} + Nodes(l) + Nodes(r) + Nodes(below) + Nodes(above))`parent
    modifies ({pivot} + Nodes(l) + Nodes(r) + Nodes(below) + Nodes(above))`height
    ensures Linked(root, H.JoinWithRoot(M.SplitBased(l, below), Of(pivot), M.SplitBased(r, above)))
    ensures root.parent == null
    decreases Bin(l, Of(pivot), r), 1
  {
    var left, right := MergeHalves(smallLeft, smallRight, low, high, Of(pivot), l, r, below, above);
    root := JoinWithRoot(left, pivot, right, M.SplitBased(l, below), M.SplitBased(r, above));
  }

  method MergeHalves(smallLeft: Node?, smallRight: Node?, low: Node?, high: Node?, ghost e: Entry<Node>,
                     ghost l: Tree<Node>, ghost r: Tree<Node>, ghost below: Tree<Node>, ghost above: Tree<Node>)
    returns (left: Node?, right: Node?)
    requires Distinct(l) && Distinct(r) && Distinct(below) && Distinct(above)
    requires Linked(smallLeft, l) && Linked(smallRight, r) && Linked(low, below) && Linked(high, above)
    requires Nodes(l) + Nodes(below) !! Nodes(r) + Nodes(above) && Nodes(l) !! Nodes(below) && Nodes(r) !! Nodes(above)
    requires Nodes(M.SplitBased(l, below)) == Nodes(l) + Nodes(below)
    modifies (Nodes(l) + Nodes(r) + Nodes(below) + Nodes(above))`left
    modifies (Nodes(l) + Nodes(r) + Nodes(below) + Nodes(above))`right
    modifies (Nodes(l) + Nodes(r) + Nodes(below) + Nodes(above))`parent
    modifies (Nodes(l) + Nodes(r) + Nodes(below) + Nodes(above))`height
    ensures Linked(left, M.SplitBased(l, below)) && Linked(right, M.SplitBased(r, above))
    decreases Bin(l, e, r), 0
  {
    left := MergeBeside(smallLeft, low, l, below, smallRight, r, high, above);
    right := MergeBeside(smallRight, high, r, above, left, M.SplitBased(l, below), null, Nil);
  }

  /** Merges two trees without disturbing two others. */
  method MergeBeside(small: Node?, large: Node?, ghost s: Tree<Node>, ghost t: Tree<Node>,
                     ghost left: Node?, ghost l: Tree<Node>, ghost right: Node?, ghost r: Tree<Node>)
    returns (root: Node?)
    requires Linked(small, s) && Linked(large, t) && Distinct(s) && Distinct(t) && Nodes(s) !! Nodes(t)
    requires Linked(left, l) && Linked(right, r) && Nodes(s) + Nodes(t) !! Nodes(l) && Nodes(s) + Nodes(t) !! Nodes(r)
    modifies (Nodes(s) + Nodes(t))`left, (Nodes(s) + Nodes(t))`right
    modifies (Nodes(s) + Nodes(t))`parent, (Nodes(s) + Nodes(t))`height
    ensures Linked(root, M.SplitBased(s, t)) && Linked(left, l) && Linked(right, r)
    decreases s, 4
  {
    Allocated(l);
    Allocated(r);
    root := MergeSplitBased(small, large, s, t);
  }
}
