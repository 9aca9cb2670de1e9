/** Flattening a tree into a sorted spine, merging two spines, and rebuilding a balanced tree, all in place. */
module AvlSpines {
  import opened OrderedTrees
  import M = AvlMerging
  import opened AvlTree

  // ---- Branches and chains ------------------------------------------------------------------------

  /** The downward links only: while a tree is being flattened its heights and parents mean nothing. */
  ghost predicate Branched(p: Node?, s: Tree<Node>)
    reads Nodes(s)`left, Nodes(s)`right
    decreases s
  {
    match s
    case Nil => p == null
    case Bin(l, e, r) => p == e.item && p.key == e.key && Branched(p.left, l) && Branched(p.right, r)
  }

  lemma {:induction false} LinkedIsBranched(p: Node?, s: Tree<Node>)
    requires Linked(p, s)
    ensures Branched(p, s)
    decreases s
  {
    if s.Bin? {
      LinkedIsBranched(p.left, s.left);
      LinkedIsBranched(p.right, s.right);
    }
  }

  lemma BranchedRoot(p: Node?, s: Tree<Node>)
    requires Branched(p, s)
    ensures p == null <==> s.Nil?
    ensures p != null ==> p in Nodes(s) && Branched(p.left, s.left) && Branched(p.right, s.right)
  {
  }

  ghost function Head(es: seq<Entry<Node>>): Node? {
    if es == [] then null else es[0].item
  }

  ghost function Tail(es: seq<Entry<Node>>): Node? {
    if es == [] then null else es[|es| - 1].item
  }

  /** Nodes chained through their right links, with nothing on the left. */
  ghost predicate Chain(es: seq<Entry<Node>>)
    reads Items(es)`left, Items(es)`right
  {
    forall i :: 0 <= i < |es| ==>
      es[i] == Of(es[i].item) && es[i].item in Items(es) && es[i].item.left == null
      && (i + 1 < |es| ==> es[i].item.right == es[i + 1].item)
  }

  ghost predicate Spine(p: Node?, es: seq<Entry<Node>>)
    reads Items(es)`left, Items(es)`right
  {
    Chain(es) && p == Head(es) && (es != [] ==> Tail(es) in Items(es) && Tail(es).right == null)
  }

  lemma AllocatedItems(es: seq<Entry<Node>>)
    ensures allocated(Items(es))
  {
  }

  // ---- From a tree to a spine ---------------------------------------------------------------------

  /** One rotation of the flattening: the left child comes up. */
  method BringUp(root: Node, ghost t: Tree<Node>) returns (up: Node)
    requires t.Bin? && t.left.Bin? && Branched(root, t) && Distinct(t)
    modifies Nodes(t)`left, Nodes(t)`right, Nodes(t)`parent
    ensures Branched(up, RotatedRight(t))
  {
    PiecesOfRight(t);
    up := root.left;
    var inner := up.right;
    BranchedRoot(up, t.left);
    BranchedRoot(inner, t.left.right);
    root.left := inner;
    if inner != null {
      inner.parent := root;
    }
    up.right := root;
    root.parent := up;
  }

  /** Links the next node to the end of the spine. */
  method Link(root: Node, tail: Node?, ghost done: seq<Entry<Node>>, ghost t: Tree<Node>)
    requires t.Bin? && t.left.Nil? && Branched(root, t) && Distinct(t) && Nodes(t) !! Items(done)
    requires Chain(done) && tail == Tail(done) && NoDup(done)
    modifies Items(done)`right, root`left
    ensures Chain(done + [t.entry]) && Branched(root.right, t.right)
  {
    if tail != null {
      tail.right := root;
    }
    root.left := null;
    ChainGrows(done, t.entry);
  }

  lemma ChainGrows(done: seq<Entry<Node>>, e: Entry<Node>)
    requires Chain(done) && e == Of(e.item) && e.item.left == null
    requires done != [] ==> Tail(done).right == e.item
    ensures Chain(done + [e])
  {
    var es := done + [e];
    forall i | 0 <= i < |es|
      ensures es[i] == Of(es[i].item) && es[i].item in Items(es) && es[i].item.left == null
      ensures i + 1 < |es| ==> es[i].item.right == es[i + 1].item
    {
      if i < |done| {
        assert es[i] == done[i];
        assert i + 1 < |done| ==> es[i + 1] == done[i + 1];
      }
    }
  }

  lemma MovedOver(done: seq<Entry<Node>>, t: Tree<Node>, es: seq<Entry<Node>>)
    requires t.Bin? && t.left.Nil? && done + Entries(t) == es && NoDup(es)
    ensures (done + [t.entry]) + Entries(t.right) == es
  {
    assert Entries(t) == [t.entry] + Entries(t.right);
  }

  lemma EndsGrow(done: seq<Entry<Node>>, e: Entry<Node>)
    ensures Tail(done + [e]) == e.item && Head(done + [e]) == if done == [] then e.item else Head(done)
    ensures Head(done) == null <==> done == []
  {
  }

  /** Flattening keeps the in-order sequence apart: what is chained, and what is still a tree. */
  lemma SpineSplit(done: seq<Entry<Node>>, t: Tree<Node>, es: seq<Entry<Node>>)
    requires done + Entries(t) == es && NoDup(es)
    ensures NoDup(done) && Distinct(t) && Nodes(t) !! Items(done) && Nodes(t) + Items(done) == Items(es)
  {
    NoDupConcat(done, Entries(t));
    ItemsConcat(done, Entries(t));
    DistinctMeans(t);
    NodesAreItems(t);
  }

  /** Part of the tree is already a chain, the rest still hangs from `root`. */
  ghost predicate Flattening(root: Node?, t: Tree<Node>, done: seq<Entry<Node>>, es: seq<Entry<Node>>)
    reads Nodes(t)`left, Nodes(t)`right, Items(done)`left, Items(done)`right
  {
    Branched(root, t) && Chain(done) && done + Entries(t) == es
  }

  method UpStep(root: Node, ghost t: Tree<Node>, ghost done: seq<Entry<Node>>, ghost es: seq<Entry<Node>>)
    returns (up: Node)
    requires Flattening(root, t, done, es) && NoDup(es) && t.Bin? && t.left.Bin?
    modifies Nodes(t)`left, Nodes(t)`right, Nodes(t)`parent
    ensures Flattening(up, RotatedRight(t), done, es)
  {
    SpineSplit(done, t, es);
    AllocatedItems(done);
    root.parent := null;
    up := BringUp(root, t);
  }

  /** How far a flattening has come: what hangs from `root`, and the ends and the length of the chain. */
  ghost predicate Progress(root: Node?, head: Node?, tail: Node?, count: nat,
                           t: Tree<Node>, done: seq<Entry<Node>>, es: seq<Entry<Node>>)
    reads Nodes(t)`left, Nodes(t)`right, Items(done)`left, Items(done)`right
  {
    Flattening(root, t, done, es) && head == Head(done) && tail == Tail(done) && count == |done|
  }

  method LinkStep(root: Node, head: Node?, tail: Node?, count: nat, ghost t: Tree<Node>, ghost done: seq<Entry<Node>>,
                  ghost es: seq<Entry<Node>>)
    returns (next: Node?, newHead: Node)
    requires Progress(root, head, tail, count, t, done, es) && NoDup(es) && t.Bin? && t.left.Nil?
    modifies Items(done)`right, root`left, root`parent
    ensures Progress(next, newHead, root, count + 1, t.right, done + [t.entry], es)
  {
    SpineSplit(done, t, es);
    MovedOver(done, t, es);
    EndsGrow(done, t.entry);
    root.parent := null;
    Link(root, tail, done, t);
    next := root.right;
    newHead := if head == null then root else head;
  }

  /** Converts a tree to a right-leaning spine of the same in-order sequence. Each turn either moves a node to
      the spine, or keeps the number of nodes left and shrinks the left branch. */
  method TreeToSpine(tree: Node?, ghost s: Tree<Node>) returns (head: Node?, count: nat)
    requires Branched(tree, s) && Distinct(s)
    modifies Nodes(s)`left, Nodes(s)`right, Nodes(s)`parent
    ensures Spine(head, Entries(s)) && count == Size(s)
  {
    var root := tree;
    var tail: Node? := null;
    head, count := null, 0;
    ghost var es := Entries(s);
    ghost var t, done := s, [];
    DistinctMeans(s);
    NodesAreItems(s);
    while root != null
      invariant Progress(root, head, tail, count, t, done, es)
      decreases Size(t), if t.Bin? then Size(t.left) else 0
    {
      SpineSplit(done, t, es);
      BranchedRoot(root, t);
      BranchedRoot(root.left, t.left);
      if root.left != null {
        root := UpStep(root, t, done, es);
        t := RotatedRight(t);
      } else {
        var next;
        next, head := LinkStep(root, head, tail, count, t, done, es);
        tail, count := root, count + 1;
        done, t := done + [t.entry], t.right;
        root := next;
      }
    }
    SpineSplit(done, t, es);
    EndChain(tail, done, t, es);
  }

  method EndChain(tail: Node?, ghost done: seq<Entry<Node>>, ghost t: Tree<Node>, ghost es: seq<Entry<Node>>)
    requires Chain(done) && NoDup(done) && tail == Tail(done) && t.Nil? && done + Entries(t) == es
    modifies Items(done)`right
    ensures Spine(Head(done), es) && done == es
  {
    assert done == es;
    if tail != null {
      tail.right := null;
    }
  }

  // ---- Merging spines -----------------------------------------------------------------------------

  /** Three chains over distinct nodes: what is merged, and what is left of either spine. */
  ghost predicate AllApart(done: seq<Entry<Node>>, x: seq<Entry<Node>>, y: seq<Entry<Node>>) {
    NoDup(done) && NoDup(x) && NoDup(y) && Items(done) !! Items(x) && Items(done) !! Items(y) && Items(x) !! Items(y)
  }

  ghost predicate Zipping(p: Node?, q: Node?, done: seq<Entry<Node>>, x: seq<Entry<Node>>, y: seq<Entry<Node>>)
    reads Items(done)`left, Items(done)`right, Items(x)`left, Items(x)`right, Items(y)`left, Items(y)`right
  {
    Chain(done) && Spine(p, x) && Spine(q, y) && AllApart(done, x, y)
  }

  lemma SpineRest(p: Node?, x: seq<Entry<Node>>)
    requires Spine(p, x) && x != []
    ensures p != null && x[0] == Of(p) && p.left == null && Spine(p.right, x[1..])
  {
    assert Items(x[1..]) <= Items(x) by {
      assert x == [x[0]] + x[1..];
      ItemsConcat([x[0]], x[1..]);
    }
    forall i | 0 <= i < |x[1..]|
      ensures x[1..][i] == x[i + 1] && x[1..][i].item in Items(x[1..])
    {
    }
    assert |x| > 1 ==> x[1..][|x| - 2] == x[|x| - 1];
  }

  lemma TakenApart(done: seq<Entry<Node>>, x: seq<Entry<Node>>, y: seq<Entry<Node>>)
    requires AllApart(done, x, y) && x != []
    ensures AllApart(done + [x[0]], x[1..], y) && x[0].item !in Items(done) && x[0].item !in Items(y)
    ensures Items(done + [x[0]]) == Items(done) + {x[0].item} && Items(x) == Items(x[1..]) + {x[0].item}
    ensures x[0].item !in Items(x[1..])
  {
    assert x == [x[0]] + x[1..];
    ItemsOfOne(x[0]);
    ItemsConcat([x[0]], x[1..]);
    NoDupConcat([x[0]], x[1..]);
    ItemsConcat(done, [x[0]]);
    NoDupConcat(done, [x[0]]);
  }

  /** Moves the head of one spine to the end of the merged chain. */
  method TakeHead(p: Node, q: Node?, tail: Node?, ghost done: seq<Entry<Node>>,
                  ghost x: seq<Entry<Node>>, ghost y: seq<Entry<Node>>)
    returns (rest: Node?)
    requires Zipping(p, q, done, x, y) && x != [] && tail == Tail(done)
    modifies Items(done)`right
    ensures Zipping(rest, q, done + [x[0]], x[1..], y)
  {
    SpineRest(p, x);
    TakenApart(done, x, y);
    rest := p.right;
    AllocatedItems(x);
    AllocatedItems(y);
    Append(tail, p, done);
  }

  method Append(tail: Node?, p: Node, ghost done: seq<Entry<Node>>)
    requires Chain(done) && NoDup(done) && tail == Tail(done) && p !in Items(done) && p.left == null
    modifies Items(done)`right
    ensures Chain(done + [Of(p)])
  {
    if tail != null {
      tail.right := p;
    }
    ChainGrows(done, Of(p));
  }

  lemma ZippingSwaps(p: Node?, q: Node?, done: seq<Entry<Node>>, x: seq<Entry<Node>>, y: seq<Entry<Node>>)
    requires Zipping(p, q, done, x, y)
    ensures Zipping(q, p, done, y, x)
  {
  }

  /** The merge of what is left goes on after what is merged. */
  lemma MergedStep(done: seq<Entry<Node>>, x: seq<Entry<Node>>, y: seq<Entry<Node>>)
    requires x != [] && y != []
    ensures x[0].key < y[0].key ==> done + M.Merged(x, y) == done + [x[0]] + M.Merged(x[1..], y)
    ensures !(x[0].key < y[0].key) ==> done + M.Merged(x, y) == done + [y[0]] + M.Merged(x, y[1..])
  {
  }

  lemma ChainJoins(done: seq<Entry<Node>>, x: seq<Entry<Node>>)
    requires Chain(done) && Spine(Head(x), x) && done != [] && Tail(done).right == Head(x)
    ensures Spine(Head(done), done + x)
  {
    var es := done + x;
    ItemsConcat(done, x);
    forall i | 0 <= i < |es|
      ensures es[i] == Of(es[i].item) && es[i].item in Items(es) && es[i].item.left == null
      ensures i + 1 < |es| ==> es[i].item.right == es[i + 1].item
    {
      if i < |done| {
        assert es[i] == done[i];
        assert i + 1 < |done| ==> es[i + 1] == done[i + 1];
        assert i + 1 == |done| < |es| ==> es[i + 1] == x[0];
      } else {
        assert es[i] == x[i - |done|];
        assert i + 1 < |es| ==> es[i + 1] == x[i + 1 - |done|];
      }
    }
    assert es[|es| - 1] == if x == [] then done[|done| - 1] else x[|x| - 1];
  }

  /** Hangs what is left of either spine behind the merged chain. */
  method AppendRest(tail: Node, rest: Node?, ghost done: seq<Entry<Node>>, ghost x: seq<Entry<Node>>)
    requires Chain(done) && NoDup(done) && done != [] && tail == Tail(done) && Spine(rest, x) && Items(done) !! Items(x)
    modifies Items(done)`right
    ensures Spine(Head(done), done + x)
  {
    tail.right := rest;
    ChainJoins(done, x);
  }

  /** One turn of the merge on the side whose head is smaller. */
  method ZipStep(p: Node, q: Node, head: Node?, tail: Node?, ghost done: seq<Entry<Node>>,
                 ghost x: seq<Entry<Node>>, ghost y: seq<Entry<Node>>)
    returns (rest: Node?, newHead: Node, newTail: Node)
    requires Zipping(p, q, done, x, y) && x != [] && head == Head(done) && tail == Tail(done)
    modifies Items(done)`right
    ensures Zipping(rest, q, done + [x[0]], x[1..], y)
    ensures newHead == Head(done + [x[0]]) && newTail == Tail(done + [x[0]])
    ensures Items(done + [x[0]]) + Items(x[1..]) + Items(y) == Items(done) + Items(x) + Items(y)
  {
    TakenApart(done, x, y);
    rest := TakeHead(p, q, tail, done, x, y);
    newHead := if head == null then p else head;
    newTail := p;
  }

  /** How far a merge of the spines `a` and `b` has come. */
  ghost predicate Merging(p: Node?, q: Node?, head: Node?, tail: Node?, done: seq<Entry<Node>>,
                          x: seq<Entry<Node>>, y: seq<Entry<Node>>, a: seq<Entry<Node>>, b: seq<Entry<Node>>)
    reads Items(done)`left, Items(done)`right, Items(x)`left, Items(x)`right, Items(y)`left, Items(y)`right
  {
    && Zipping(p, q, done, x, y) && M.Merged(a, b) == done + M.Merged(x, y)
    && head == Head(done) && tail == Tail(done)
    && Items(done) + Items(x) + Items(y) == Items(a) + Items(b)
  }

  method TakeFirst(p: Node, q: Node, head: Node?, tail: Node?, ghost done: seq<Entry<Node>>, ghost x: seq<Entry<Node>>,
                   ghost y: seq<Entry<Node>>, ghost a: seq<Entry<Node>>, ghost b: seq<Entry<Node>>)
    returns (rest: Node?, newHead: Node, newTail: Node)
    requires Merging(p, q, head, tail, done, x, y, a, b) && x != [] && y != [] && x[0].key < y[0].key
    modifies Items(done)`right
    ensures Merging(rest, q, newHead, newTail, done + [x[0]], x[1..], y, a, b)
  {
    MergedStep(done, x, y);
    rest, newHead, newTail := ZipStep(p, q, head, tail, done, x, y);
  }

  method TakeSecond(p: Node, q: Node, head: Node?, tail: Node?, ghost done: seq<Entry<Node>>, ghost x: seq<Entry<Node>>,
                    ghost y: seq<Entry<Node>>, ghost a: seq<Entry<Node>>, ghost b: seq<Entry<Node>>)
    returns (rest: Node?, newHead: Node, newTail: Node)
    requires Merging(p, q, head, tail, done, x, y, a, b) && x != [] && y != [] && y[0].key <= x[0].key
    modifies Items(done)`right
    ensures Merging(p, rest, newHead, newTail, done + [y[0]], x, y[1..], a, b)
  {
    MergedStep(done, x, y);
    ZippingSwaps(p, q, done, x, y);
    rest, newHead, newTail := ZipStep(q, p, head, tail, done, y, x);
    ZippingSwaps(rest, p, done + [y[0]], y[1..], x);
  }

  /** Chains two sorted spines together, the smaller of the two heads first. */
  method MergeSpines(first: Node?, second: Node?, ghost a: seq<Entry<Node>>, ghost b: seq<Entry<Node>>)
    returns (head: Node?)
    requires Spine(first, a) && Spine(second, b) && NoDup(a) && NoDup(b) && Items(a) !! Items(b)
    modifies (Items(a) + Items(b))`right
    ensures Spine(head, M.Merged(a, b))
  {
    if first == null {
      return second;
    }
    if second == null {
      return first;
    }
    var p: Node?, q: Node?, tail: Node? := first, second, null;
    head := null;
    ghost var done, x, y := [], a, b;
    while p != null && q != null
      invariant Merging(p, q, head, tail, done, x, y, a, b)
      invariant done == [] ==> p != null && q != null
      decreases |x| + |y|
    {
      if p.key < q.key {
        p, head, tail := TakeFirst(p, q, head, tail, done, x, y, a, b);
        done, x := done + [x[0]], x[1..];
      } else {
        q, head, tail := TakeSecond(p, q, head, tail, done, x, y, a, b);
        done, y := done + [y[0]], y[1..];
      }
    }
    var remaining := if p != null then p else q;
    AppendRest(tail, remaining, done, if p != null then x else y);
  }

  // ---- From a spine to a tree ---------------------------------------------------------------------

  /** What a rebuild puts left of the middle, the middle, what it puts right of it, and what stays a spine. */
  ghost predicate Sliced(front: seq<Entry<Node>>, a: seq<Entry<Node>>, e: Entry<Node>, b: seq<Entry<Node>>,
                         rest: seq<Entry<Node>>) {
    && front == a + [e] + b && front + rest == a + ([e] + (b + rest)) && |a| == |front| / 2
    && NoDup(a + ([e] + (b + rest))) && NoDup(b + rest) && NoDup(a + [e] + b)
    && Items(a) !! Items(b) && Items(a) !! Items(rest) && Items(b) !! Items(rest)
    && e.item !in Items(a) && e.item !in Items(b) && e.item !in Items(rest)
    && Items(front) == Items(a) + {e.item} + Items(b)
    && Items([e] + (b + rest)) == {e.item} + Items(b) + Items(rest) && Items(b + rest) == Items(b) + Items(rest)
  }

  lemma Slices(front: seq<Entry<Node>>, rest: seq<Entry<Node>>)
    requires front != [] && NoDup(front + rest)
    ensures Sliced(front, front[..|front| / 2], front[|front| / 2], front[|front| / 2 + 1..], rest)
  {
    var a, e, b := front[..|front| / 2], front[|front| / 2], front[|front| / 2 + 1..];
    assert front == a + [e] + b && front + rest == a + ([e] + (b + rest)) && front + rest == a + [e] + (b + rest);
    NoDupAround(a, e, b + rest);
    NoDupAround(a, e, b);
    NoDupConcat(front, rest);
    NoDupConcat(b, rest);
    ItemsConcat(b, rest);
    ItemsConcat([e], b + rest);
    ItemsOfOne(e);
    ItemsAround(a, e, b);
  }

  lemma BuiltAround(a: seq<Entry<Node>>, e: Entry<Node>, b: seq<Entry<Node>>)
    requires NoDup(a + [e] + b) && |a| == (|a| + 1 + |b|) / 2
    ensures M.Built(a + [e] + b) == Bin(M.Built(a), e, M.Built(b)) && Distinct(M.Built(a + [e] + b))
    ensures Nodes(M.Built(a)) == Items(a) && Nodes(M.Built(b)) == Items(b)
  {
    var es := a + [e] + b;
    assert es[..|a|] == a && es[|a|] == e && es[|a| + 1..] == b;
    DistinctMeans(M.Built(es));
    NodesAreItems(M.Built(a));
    NodesAreItems(M.Built(b));
  }

  lemma SpineTail(p: Node?, e: Entry<Node>, more: seq<Entry<Node>>)
    requires Spine(p, [e] + more)
    ensures e == Of(e.item) && p == e.item && Spine(e.item.right, more)
  {
    SpineRest(p, [e] + more);
    assert ([e] + more)[1..] == more;
  }

  /** Builds a tree from the first `n` nodes of a spine and returns what is left of it. */
  method Build(current: Node?, n: nat, ghost front: seq<Entry<Node>>, ghost rest: seq<Entry<Node>>)
    returns (root: Node?, next: Node?)
    requires Spine(current, front + rest) && NoDup(front + rest) && n == |front|
    modifies Items(front)`left, Items(front)`right, Items(front)`parent, Items(front)`height
    ensures Linked(root, M.Built(front)) && Spine(next, rest)
    decreases n, 2
  {
    if n == 0 {
      assert front + rest == rest;
      return null, current;
    }
    Slices(front, rest);
    ghost var a, e, b := front[..n / 2], front[n / 2], front[n / 2 + 1..];
    var left, right;
    left, root, right, next := BuildBranches(current, n, a, e, b, rest);
    Assemble(root, left, right, next, a, b, rest);
  }

  /** Hangs two rebuilt branches under the node between them. */
  method Assemble(here: Node, left: Node?, right: Node?, next: Node?,
                  ghost a: seq<Entry<Node>>, ghost b: seq<Entry<Node>>, ghost rest: seq<Entry<Node>>)
    requires Linked(left, M.Built(a)) && Linked(right, M.Built(b)) && Spine(next, rest)
    requires NoDup(a + [Of(here)] + b) && |a| == (|a| + 1 + |b|) / 2
    requires here !in Items(rest) && Items(a) !! Items(rest) && Items(b) !! Items(rest)
    modifies here`left, here`right, here`height, Items(a)`parent, Items(b)`parent
    ensures Linked(here, M.Built(a + [Of(here)] + b)) && Spine(next, rest)
  {
    BuiltAround(a, Of(here), b);
    PiecesOfNode(M.Built(a), here, M.Built(b));
    AllocatedItems(rest);
    HangBoth(here, left, right, M.Built(a), M.Built(b));
    UpdateHeight(here, M.Built(a), M.Built(b));
  }

  method BuildBranches(current: Node?, n: nat, ghost a: seq<Entry<Node>>, ghost e: Entry<Node>,
                       ghost b: seq<Entry<Node>>, ghost rest: seq<Entry<Node>>)
    returns (left: Node?, here: Node, right: Node?, next: Node?)
    requires 0 < n && |a| == n / 2 && |b| == n - n / 2 - 1 && Items(a) !! Items(b)
    requires Spine(current, a + ([e] + (b + rest))) && NoDup(a + ([e] + (b + rest))) && NoDup(b + rest)
    modifies Items(a)`left, Items(a)`right, Items(a)`parent, Items(a)`height
    modifies Items(b)`left, Items(b)`right, Items(b)`parent, Items(b)`height
    ensures Linked(left, M.Built(a)) && e == Of(here) && Linked(right, M.Built(b)) && Spine(next, rest)
    decreases n, 1
  {
    left, here := BuildLeft(current, n, a, e, b + rest);
    NodesAreItems(M.Built(a));
    Allocated(M.Built(a));
    right, next := Build(here.right, n - n / 2 - 1, b, rest);
  }

  method BuildLeft(current: Node?, n: nat, ghost a: seq<Entry<Node>>, ghost e: Entry<Node>, ghost behind: seq<Entry<Node>>)
    returns (left: Node?, here: Node)
    requires 0 < n && |a| == n / 2 && Spine(current, a + ([e] + behind)) && NoDup(a + ([e] + behind))
    modifies Items(a)`left, Items(a)`right, Items(a)`parent, Items(a)`height
    ensures Linked(left, M.Built(a)) && e == Of(here) && Spine(here.right, behind)
    decreases n, 0
  {
    var middle;
    left, middle := Build(current, n / 2, a, [e] + behind);
    SpineTail(middle, e, behind);
    here := middle;
  }

  /** Rebuilds a sorted spine as a tree over the same sequence. */
  method SpineToBalanced(spine: Node?, count: nat, ghost es: seq<Entry<Node>>) returns (root: Node?)
    requires Spine(spine, es) && NoDup(es) && count == |es|
    modifies Items(es)`left, Items(es)`right, Items(es)`parent, Items(es)`height
    ensures Linked(root, M.Built(es)) && NoParent(root)
  {
    if count == 0 {
      return null;
    }
    DistinctMeans(M.Built(es));
    NodesAreItems(M.Built(es));
    assert es + [] == es;
    var rest;
    root, rest := Build(spine, count, es, []);
    Unparent(root, M.Built(es));
  }

  /** Flattens both trees, merges the spines, rebuilds. */
  method MergeDsw(first: Node?, second: Node?, ghost s: Tree<Node>, ghost t: Tree<Node>)
    returns (root: Node?, size: nat)
    requires Linked(first, s) && Linked(second, t) && Distinct(s) && Distinct(t) && Nodes(s) !! Nodes(t)
    modifies (Nodes(s) + Nodes(t))`left, (Nodes(s) + Nodes(t))`right
    modifies (Nodes(s) + Nodes(t))`parent, (Nodes(s) + Nodes(t))`height
    ensures Linked(root, M.MergedDsw(s, t)) && NoParent(root) && size == Size(s) + Size(t)
  {
    LinkedIsBranched(first, s);
    LinkedIsBranched(second, t);
    NodesAreItems(s);
    NodesAreItems(t);
    DistinctMeans(s);
    DistinctMeans(t);
    MergedItems(Entries(s), Entries(t));
    Allocated(t);
    var firstSpine, firstCount := TreeToSpine(first, s);
    AllocatedItems(Entries(s));
    var secondSpine, secondCount := TreeToSpine(second, t);
    var merged := MergeSpines(firstSpine, secondSpine, Entries(s), Entries(t));
    size := firstCount + secondCount;
    root := SpineToBalanced(merged, size, M.Merged(Entries(s), Entries(t)));
  }

  lemma {:induction false} MergedItems(a: seq<Entry<Node>>, b: seq<Entry<Node>>)
    requires NoDup(a) && NoDup(b) && Items(a) !! Items(b)
    ensures NoDup(M.Merged(a, b)) && Items(M.Merged(a, b)) == Items(a) + Items(b) && |M.Merged(a, b)| == |a| + |b|
    decreases |a| + |b|
  {
    if a != [] && b != [] {
      if a[0].key < b[0].key {
        MergedOne(a[0], a[1..], b);
        assert a == [a[0]] + a[1..];
        MergedItems(a[1..], b);
        NoDupConcat([a[0]], M.Merged(a[1..], b));
        ItemsConcat([a[0]], M.Merged(a[1..], b));
      } else {
        MergedOne(b[0], b[1..], a);
        assert b == [b[0]] + b[1..];
        MergedItems(a, b[1..]);
        NoDupConcat([b[0]], M.Merged(a, b[1..]));
        ItemsConcat([b[0]], M.Merged(a, b[1..]));
      }
    }
  }

  lemma MergedOne(e: Entry<Node>, more: seq<Entry<Node>>, other: seq<Entry<Node>>)
    ensures NoDup([e] + more) && Items([e] + more) !! Items(other) ==>
              NoDup(more) && Items(more) !! Items(other) && e.item !in Items(more) && e.item !in Items(other)
    ensures Items([e] + more) == {e.item} + Items(more) && Items([e]) == {e.item}
  {
    ItemsOfOne(e);
    ItemsConcat([e], more);
    NoDupConcat([e], more);
  }
}
