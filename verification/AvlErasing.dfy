/** Erasing by predicate from the AVL tree in memory. Only a node that goes is rebalanced around: contents,
    order, links and heights come out exact, balance does not. */
module AvlErasing {
  import opened OrderedTrees
  import H = HeightBalance
  import opened AvlTree

  /** The doomed keys are those of the nodes the predicate picks. */
  ghost predicate Dooms(predicate_: (int, int) -> bool, nodes: set<Node>, doomed: set<int>)
    reads nodes`payload
  {
    forall n :: n in nodes ==> (n.key in doomed <==> predicate_(n.key, n.payload))
  }

  lemma SurvivorsStayDistinct(s: Tree<Node>, doomed: set<int>)
    requires Ordered(s) && Distinct(s)
    ensures Distinct(H.EraseIf(s, doomed)) && Nodes(H.EraseIf(s, doomed)) <= Nodes(s)
  {
    H.EraseIfKeepsRest(s, doomed);
    NodesAreItems(s);
    NodesAreItems(H.EraseIf(s, doomed));
    DistinctMeans(s);
    DistinctMeans(H.EraseIf(s, doomed));
    KeptItems(Entries(s), doomed);
  }

  /** What survives on the two sides of a node still fits around it. */
  lemma SurvivorsFit(s: Tree<Node>, doomed: set<int>)
    requires s.Bin? && Ordered(s) && Distinct(s)
    ensures Ordered(s.left) && Ordered(s.right) && Distinct(s.left) && Distinct(s.right)
    ensures var t := Bin(H.EraseIf(s.left, doomed), s.entry, H.EraseIf(s.right, doomed));
            Ordered(t) && Distinct(t)
    ensures Nodes(H.EraseIf(s.left, doomed)) <= Nodes(s.left) && Nodes(H.EraseIf(s.right, doomed)) <= Nodes(s.right)
    ensures Size(H.EraseIf(s, doomed)) == Size(H.EraseIf(s.left, doomed)) + Size(H.EraseIf(s.right, doomed))
                                          + if s.entry.key in doomed then 0 else 1
  {
    OrderedParts(s);
    SurvivorsStayDistinct(s.left, doomed);
    SurvivorsStayDistinct(s.right, doomed);
    H.EraseIfKeepsRest(s, doomed);
    H.EraseIfKeepsRest(s.left, doomed);
    H.EraseIfKeepsRest(s.right, doomed);
    KeptStaysBefore(Entries(s.left), s.entry.key, doomed);
    KeptStaysAfter(Entries(s.right), s.entry.key + 1, doomed);
    KeptAround(Entries(s.left), s.entry, Entries(s.right), doomed);
    PartsOrdered(H.EraseIf(s.left, doomed), s.entry, H.EraseIf(s.right, doomed));
  }

  /** The nodes a pass over one branch touches are none of the others, before it and after it. */
  ghost predicate BranchesApart(l: Tree<Node>, node: Node, r: Tree<Node>, doomed: set<int>) {
    && ThreePieces(l, node, r)
    && ThreePieces(H.EraseIf(l, doomed), node, r)
    && ThreePieces(H.EraseIf(l, doomed), node, H.EraseIf(r, doomed))
    && Nodes(H.EraseIf(l, doomed)) <= Nodes(l) && Nodes(H.EraseIf(r, doomed)) <= Nodes(r)
  }

  lemma BranchesAreApart(node: Node, s: Tree<Node>, doomed: set<int>)
    requires s.Bin? && s.entry == Of(node) && Ordered(s) && Distinct(s)
    ensures BranchesApart(s.left, node, s.right, doomed)
  {
    SurvivorsFit(s, doomed);
    PiecesOfNode(s.left, node, s.right);
    PiecesOfNode(H.EraseIf(s.left, doomed), node, H.EraseIf(s.right, doomed));
  }

  /** Drops every node its predicate dooms, bottom-up, and counts the survivors. */
  method EraseIf(node: Node?, predicate_: (int, int) -> bool, ghost s: Tree<Node>, ghost doomed: set<int>)
    returns (root: Node?, count: nat)
    requires Linked(node, s) && Ordered(s) && Distinct(s) && Dooms(predicate_, Nodes(s), doomed)
    modifies Nodes(s)`left, Nodes(s)`right, Nodes(s)`parent, Nodes(s)`height
    ensures Linked(root, H.EraseIf(s, doomed)) && count == Size(H.EraseIf(s, doomed))
    ensures node != null && root != null ==> root.parent == old(node.parent)
    decreases s, 1
  {
    if node == null {
      return null, 0;
    }
    SurvivorsFit(s, doomed);
    BranchesAreApart(node, s, doomed);
    var below := EraseBelow(node, predicate_, s.left, s.right, doomed);
    ghost var t := Bin(H.EraseIf(s.left, doomed), s.entry, H.EraseIf(s.right, doomed));
    if predicate_(node.key, node.payload) {
      root := ExtractRoot(node, t);
      count := below;
    } else {
      UpdateHeight(node, t.left, t.right);
      root := node;
      count := below + 1;
    }
  }

  /** Both branches of a node erased and hung back on it. */
  method EraseBelow(node: Node, predicate_: (int, int) -> bool, ghost l: Tree<Node>, ghost r: Tree<Node>,
                    ghost doomed: set<int>)
    returns (count: nat)
    requires Hung(node, l, r) && Ordered(l) && Ordered(r) && Distinct(l) && Distinct(r)
    requires BranchesApart(l, node, r, doomed)
    requires Dooms(predicate_, Nodes(l), doomed) && Dooms(predicate_, Nodes(r), doomed)
    modifies node`left, Nodes(l)`left, Nodes(l)`right, Nodes(l)`parent, Nodes(l)`height
    modifies node`right, Nodes(r)`left, Nodes(r)`right, Nodes(r)`parent, Nodes(r)`height
    ensures Hung(node, H.EraseIf(l, doomed), H.EraseIf(r, doomed))
    ensures count == Size(H.EraseIf(l, doomed)) + Size(H.EraseIf(r, doomed))
    decreases Bin(l, Of(node), r), 0
  {
    Allocated(r);
    var leftCount := EraseLeft(node, predicate_, l, r, doomed);
    var rightCount := EraseRight(node, predicate_, H.EraseIf(l, doomed), r, doomed);
    count := leftCount + rightCount;
  }

  method EraseLeft(node: Node, predicate_: (int, int) -> bool, ghost l: Tree<Node>, ghost r: Tree<Node>,
                   ghost doomed: set<int>)
    returns (count: nat)
    requires Hung(node, l, r) && Ordered(l) && Distinct(l) && Dooms(predicate_, Nodes(l), doomed)
    requires ThreePieces(l, node, r) && ThreePieces(H.EraseIf(l, doomed), node, r) && Nodes(H.EraseIf(l, doomed)) <= Nodes(l)
    modifies node`left, Nodes(l)`left, Nodes(l)`right, Nodes(l)`parent, Nodes(l)`height
    ensures Hung(node, H.EraseIf(l, doomed), r) && count == Size(H.EraseIf(l, doomed))
    decreases l, 2
  {
    Allocated(r);
    var below;
    below, count := EraseIf(node.left, predicate_, l, doomed);
    Allocated(H.EraseIf(l, doomed));
    HangLeft(node, below, H.EraseIf(l, doomed), r);
  }

  method EraseRight(node: Node, predicate_: (int, int) -> bool, ghost l: Tree<Node>, ghost r: Tree<Node>,
                    ghost doomed: set<int>)
    returns (count: nat)
    requires Hung(node, l, r) && Ordered(r) && Distinct(r) && Dooms(predicate_, Nodes(r), doomed)
    requires ThreePieces(l, node, r) && ThreePieces(l, node, H.EraseIf(r, doomed)) && Nodes(H.EraseIf(r, doomed)) <= Nodes(r)
    modifies node`right, Nodes(r)`left, Nodes(r)`right, Nodes(r)`parent, Nodes(r)`height
    ensures Hung(node, l, H.EraseIf(r, doomed)) && count == Size(H.EraseIf(r, doomed))
    decreases r, 2
  {
    Allocated(l);
    var below;
    below, count := EraseIf(node.right, predicate_, r, doomed);
    Allocated(H.EraseIf(r, doomed));
    HangRight(node, below, l, H.EraseIf(r, doomed));
  }
}
