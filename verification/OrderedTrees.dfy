/** Binary search trees as values: the shape both balanced trees give to their nodes. Keys are integers, as
    any strict total order on the finitely many keys of a run can be numbered. */
module OrderedTrees {
  import opened Basics

  datatype Entry<T> = Entry(key: int, item: T)

  datatype Tree<T> = Nil | Bin(left: Tree<T>, entry: Entry<T>, right: Tree<T>)

  function Size<T>(s: Tree<T>): nat {
    match s
    case Nil => 0
    case Bin(l, _, r) => Size(l) + 1 + Size(r)
  }

  function Height<T>(s: Tree<T>): nat {
    match s
    case Nil => 0
    case Bin(l, _, r) => 1 + Larger(Height(l), Height(r))
  }

  /** The in-order sequence. */
  function Entries<T>(s: Tree<T>): (es: seq<Entry<T>>)
    ensures |es| == Size(s)
  {
    match s
    case Nil => []
    case Bin(l, e, r) => Entries(l) + [e] + Entries(r)
  }

  ghost predicate Ascending<T>(es: seq<Entry<T>>) {
    forall i, j :: 0 <= i < j < |es| ==> es[i].key < es[j].key
  }

  ghost predicate Ordered<T>(s: Tree<T>) {
    Ascending(Entries(s))
  }

  /** All keys before `k`, or all keys from `k` on. */
  ghost predicate Before<T>(es: seq<Entry<T>>, k: int) {
    forall i :: 0 <= i < |es| ==> es[i].key < k
  }

  ghost predicate From<T>(es: seq<Entry<T>>, k: int) {
    forall i :: 0 <= i < |es| ==> k <= es[i].key
  }

  ghost predicate After<T>(es: seq<Entry<T>>, k: int) {
    From(es, k + 1)
  }

  /** What ordering a tree means one level down. */
  lemma OrderedParts<T>(s: Tree<T>)
    requires s.Bin? && Ordered(s)
    ensures Ordered(s.left) && Ordered(s.right)
    ensures Before(Entries(s.left), s.entry.key) && After(Entries(s.right), s.entry.key)
  {
    var l, r := Entries(s.left), Entries(s.right);
    var es := Entries(s);
    assert forall i :: 0 <= i < |l| ==> es[i] == l[i];
    assert es[|l|] == s.entry;
    assert forall i :: 0 <= i < |r| ==> es[|l| + 1 + i] == r[i];
  }

  lemma PartsOrdered<T>(l: Tree<T>, e: Entry<T>, r: Tree<T>)
    requires Ordered(l) && Ordered(r) && Before(Entries(l), e.key) && After(Entries(r), e.key)
    ensures Ordered(Bin(l, e, r))
  {
  }

  /** The descent of `find`. */
  predicate Has<T>(s: Tree<T>, k: int) {
    match s
    case Nil => false
    case Bin(l, e, r) => if k < e.key then Has(l, k) else if e.key < k then Has(r, k) else true
  }

  function Rank<T>(s: Tree<T>, k: int): nat {
    match s
    case Nil => 0
    case Bin(l, e, r) =>
      if k < e.key then Rank(l, k) else if e.key < k then Size(l) + 1 + Rank(r, k) else Size(l)
  }

  /** The rank of a key is where it is, or would be, in the in-order sequence. */
  lemma {:induction false} RankSplits<T>(s: Tree<T>, k: int)
    requires Ordered(s)
    ensures Rank(s, k) <= Size(s)
    ensures forall i :: 0 <= i < Size(s) ==> (i < Rank(s, k) <==> Entries(s)[i].key < k)
    ensures Has(s, k) <==> Rank(s, k) < Size(s) && Entries(s)[Rank(s, k)].key == k
  {
    if s.Bin? {
      OrderedParts(s);
      if k < s.entry.key {
        RankSplits(s.left, k);
      } else if s.entry.key < k {
        RankSplits(s.right, k);
      }
      forall i | 0 <= i < Size(s)
        ensures i < Rank(s, k) <==> Entries(s)[i].key < k
      {
        EntryAt(s, i);
      }
    }
  }

  lemma EntryAt<T>(s: Tree<T>, i: nat)
    requires s.Bin? && i < Size(s)
    ensures i < Size(s.left) ==> Entries(s)[i] == Entries(s.left)[i]
    ensures i == Size(s.left) ==> Entries(s)[i] == s.entry
    ensures i > Size(s.left) ==> Entries(s)[i] == Entries(s.right)[i - Size(s.left) - 1]
  {
  }

  function Select<T>(s: Tree<T>, k: nat): Option<Entry<T>> {
    match s
    case Nil => None
    case Bin(l, e, r) =>
      if k < Size(l) then Select(l, k) else if k == Size(l) then Some(e) else Select(r, k - Size(l) - 1)
  }

  lemma {:induction false} SelectIsIndex<T>(s: Tree<T>, k: nat)
    ensures Select(s, k) == if k < Size(s) then Some(Entries(s)[k]) else None
  {
    if s.Bin? {
      if k < Size(s.left) {
        SelectIsIndex(s.left, k);
      } else if k > Size(s.left) {
        SelectIsIndex(s.right, k - Size(s.left) - 1);
      }
    }
  }

  /** Selection and ranking undo each other. */
  lemma SelectUndoesRank<T>(s: Tree<T>, k: int)
    requires Ordered(s)
    ensures Has(s, k) <==> Select(s, Rank(s, k)).Some? && Select(s, Rank(s, k)).value.key == k
  {
    RankSplits(s, k);
    SelectIsIndex(s, Rank(s, k));
  }

  lemma RankUndoesSelect<T>(s: Tree<T>, k: nat)
    requires Ordered(s) && k < Size(s)
    ensures Select(s, k).Some? && Rank(s, Select(s, k).value.key) == k
  {
    SelectIsIndex(s, k);
    RankSplits(s, Entries(s)[k].key);
  }

  function Least<T>(s: Tree<T>): (e: Entry<T>)
    requires s.Bin?
    ensures e == Entries(s)[0]
  {
    if s.left.Nil? then s.entry else Least(s.left)
  }

  lemma {:induction false} LeastIsHeld<T>(s: Tree<T>)
    requires s.Bin? && Ordered(s)
    ensures Has(s, Least(s).key) && Rank(s, Least(s).key) == 0
  {
    RankUndoesSelect(s, 0);
    SelectIsIndex(s, 0);
    RankSplits(s, Least(s).key);
  }

  // ---- Editing an in-order sequence ---------------------------------------------------------------

  /** Splicing an entry in at a position, and taking one out. */
  function With<T>(es: seq<Entry<T>>, at: nat, e: Entry<T>): seq<Entry<T>>
    requires at <= |es|
  {
    if at == 0 then [e] + es else [es[0]] + With(es[1..], at - 1, e)
  }

  function Without<T>(es: seq<Entry<T>>, at: nat): seq<Entry<T>>
    requires at < |es|
  {
    if at == 0 then es[1..] else [es[0]] + Without(es[1..], at - 1)
  }

  lemma {:induction false} WithIsSplice<T>(es: seq<Entry<T>>, at: nat, e: Entry<T>)
    requires at <= |es|
    ensures With(es, at, e) == es[..at] + [e] + es[at..]
  {
    if at > 0 {
      WithIsSplice(es[1..], at - 1, e);
      assert es[..at] == [es[0]] + es[1..][..at - 1];
    }
  }

  lemma {:induction false} WithoutIsCut<T>(es: seq<Entry<T>>, at: nat)
    requires at < |es|
    ensures Without(es, at) == es[..at] + es[at + 1..]
  {
    if at > 0 {
      WithoutIsCut(es[1..], at - 1);
      assert es[..at] == [es[0]] + es[1..][..at - 1];
    }
  }

  lemma AscendingAround<T>(a: seq<Entry<T>>, e: Entry<T>, b: seq<Entry<T>>)
    requires Ascending(a) && Ascending(b) && Before(a, e.key) && After(b, e.key)
    ensures Ascending(a + [e] + b)
  {
  }

  lemma WithStaysAscending<T>(es: seq<Entry<T>>, at: nat, e: Entry<T>)
    requires Ascending(es) && at <= |es| && Before(es[..at], e.key) && After(es[at..], e.key)
    ensures Ascending(With(es, at, e))
  {
    WithIsSplice(es, at, e);
    AscendingAround(es[..at], e, es[at..]);
  }

  lemma WithoutStaysAscending<T>(es: seq<Entry<T>>, at: nat)
    requires Ascending(es) && at < |es|
    ensures Ascending(Without(es, at))
  {
    WithoutIsCut(es, at);
  }

  /** The entries a predicate on keys keeps. */
  function Kept<T>(es: seq<Entry<T>>, doomed: set<int>): seq<Entry<T>> {
    if es == [] then []
    else (if es[0].key in doomed then [] else [es[0]]) + Kept(es[1..], doomed)
  }

  lemma {:induction false} KeptSplits<T>(a: seq<Entry<T>>, b: seq<Entry<T>>, doomed: set<int>)
    ensures Kept(a + b, doomed) == Kept(a, doomed) + Kept(b, doomed)
  {
    if a == [] {
      assert a + b == b;
    } else {
      assert (a + b)[1..] == a[1..] + b;
      KeptSplits(a[1..], b, doomed);
    }
  }

  lemma {:induction false} KeptIsFilter<T>(es: seq<Entry<T>>, doomed: set<int>)
    ensures forall e :: e in Kept(es, doomed) <==> e in es && e.key !in doomed
  {
    if es != [] {
      KeptIsFilter(es[1..], doomed);
      assert es == [es[0]] + es[1..];
    }
  }

  lemma {:induction false} KeptStaysAfter<T>(es: seq<Entry<T>>, k: int, doomed: set<int>)
    requires From(es, k)
    ensures From(Kept(es, doomed), k)
  {
    if es != [] {
      KeptStaysAfter(es[1..], k, doomed);
    }
  }

  lemma {:induction false} KeptStaysBefore<T>(es: seq<Entry<T>>, k: int, doomed: set<int>)
    requires Before(es, k)
    ensures Before(Kept(es, doomed), k)
  {
    if es != [] {
      KeptStaysBefore(es[1..], k, doomed);
    }
  }

  lemma {:induction false} KeptStaysAscending<T>(es: seq<Entry<T>>, doomed: set<int>)
    requires Ascending(es)
    ensures Ascending(Kept(es, doomed))
  {
    if es != [] {
      KeptStaysAscending(es[1..], doomed);
      KeptStaysAfter(es[1..], es[0].key + 1, doomed);
    }
  }

  /** How many keys are smaller, read off the shape alone. */
  lemma {:induction false} RankInRange<T>(s: Tree<T>, k: int)
    ensures Rank(s, k) <= Size(s)
    ensures Has(s, k) ==> Rank(s, k) < Size(s)
  {
    if s.Bin? {
      RankInRange(s.left, k);
      RankInRange(s.right, k);
    }
  }

  // ---- Rotations ----------------------------------------------------------------------------------

  lemma Reassociates<T>(a: seq<T>, x: T, b: seq<T>, y: T, c: seq<T>)
    ensures a + [x] + (b + [y] + c) == (a + [x] + b) + [y] + c
  {
  }

  function RotatedRight<T>(y: Tree<T>): (x: Tree<T>)
    requires y.Bin? && y.left.Bin?
    ensures Entries(x) == Entries(y)
  {
    Reassociates(Entries(y.left.left), y.left.entry, Entries(y.left.right), y.entry, Entries(y.right));
    Bin(y.left.left, y.left.entry, Bin(y.left.right, y.entry, y.right))
  }

  function RotatedLeft<T>(x: Tree<T>): (y: Tree<T>)
    requires x.Bin? && x.right.Bin?
    ensures Entries(y) == Entries(x)
  {
    Reassociates(Entries(x.left), x.entry, Entries(x.right.left), x.right.entry, Entries(x.right.right));
    Bin(Bin(x.left, x.entry, x.right.left), x.right.entry, x.right.right)
  }

  // ---- Editing on one side of a node --------------------------------------------------------------

  lemma WithInLeft<T>(l: seq<Entry<T>>, m: Entry<T>, r: seq<Entry<T>>, at: nat, e: Entry<T>)
    requires at <= |l|
    ensures With(l, at, e) + [m] + r == With(l + [m] + r, at, e)
  {
    WithIsSplice(l, at, e);
    WithIsSplice(l + [m] + r, at, e);
    assert (l + [m] + r)[..at] == l[..at];
    assert (l + [m] + r)[at..] == l[at..] + [m] + r;
  }

  lemma WithInRight<T>(l: seq<Entry<T>>, m: Entry<T>, r: seq<Entry<T>>, at: nat, e: Entry<T>)
    requires at <= |r|
    ensures l + [m] + With(r, at, e) == With(l + [m] + r, |l| + 1 + at, e)
  {
    WithIsSplice(r, at, e);
    WithIsSplice(l + [m] + r, |l| + 1 + at, e);
    assert (l + [m] + r)[..|l| + 1 + at] == l + [m] + r[..at];
    assert (l + [m] + r)[|l| + 1 + at..] == r[at..];
  }

  /** Splicing into the right branch is splicing into the whole sequence. */
  lemma SpliceRight<T>(s: Tree<T>, e: Entry<T>, es: seq<Entry<T>>)
    requires s.Bin? && s.entry.key < e.key && Rank(s.right, e.key) <= Size(s.right)
    requires es == With(Entries(s.right), Rank(s.right, e.key), e)
    ensures Rank(s, e.key) <= Size(s)
    ensures Entries(s.left) + [s.entry] + es == With(Entries(s), Rank(s, e.key), e)
  {
    WithInRight(Entries(s.left), s.entry, Entries(s.right), Rank(s.right, e.key), e);
  }

  lemma WithoutInLeft<T>(l: seq<Entry<T>>, m: Entry<T>, r: seq<Entry<T>>, at: nat)
    requires at < |l|
    ensures Without(l, at) + [m] + r == Without(l + [m] + r, at)
  {
    WithoutIsCut(l, at);
    WithoutIsCut(l + [m] + r, at);
    assert (l + [m] + r)[..at] == l[..at];
    assert (l + [m] + r)[at + 1..] == l[at + 1..] + [m] + r;
  }

  lemma WithoutInRight<T>(l: seq<Entry<T>>, m: Entry<T>, r: seq<Entry<T>>, at: nat)
    requires at < |r|
    ensures l + [m] + Without(r, at) == Without(l + [m] + r, |l| + 1 + at)
  {
    WithoutIsCut(r, at);
    WithoutIsCut(l + [m] + r, |l| + 1 + at);
    assert (l + [m] + r)[..|l| + 1 + at] == l + [m] + r[..at];
    assert (l + [m] + r)[|l| + 1 + at + 1..] == r[at + 1..];
  }

  lemma WithoutMiddle<T>(l: seq<Entry<T>>, m: Entry<T>, r: seq<Entry<T>>)
    ensures Without(l + [m] + r, |l|) == l + r
    ensures r != [] ==> l + [r[0]] + Without(r, 0) == l + r
  {
    WithoutIsCut(l + [m] + r, |l|);
    assert (l + [m] + r)[..|l|] == l;
    assert (l + [m] + r)[|l| + 1..] == r;
    if r != [] {
      assert r == [r[0]] + r[1..];
    }
  }

  lemma AppendedOnRight<T>(l: seq<T>, e: T, a: seq<T>, b: seq<T>, r: seq<T>)
    requires a + b == r
    ensures l + [e] + a + b == l + [e] + r
  {
  }

  lemma AppendedOnLeft<T>(a: seq<T>, b: seq<T>, e: T, r: seq<T>, l: seq<T>)
    requires a + b == l
    ensures a + (b + [e] + r) == l + [e] + r
  {
  }

  lemma BeforeAround<T>(a: seq<Entry<T>>, e: Entry<T>, b: seq<Entry<T>>, k: int)
    requires Before(a, e.key) && e.key < k && Before(b, k)
    ensures Before(a + [e] + b, k)
  {
  }

  lemma FromAround<T>(a: seq<Entry<T>>, e: Entry<T>, b: seq<Entry<T>>, k: int)
    requires From(a, k) && k <= e.key && After(b, e.key)
    ensures From(a + [e] + b, k)
  {
  }

  lemma SliceAscends<T>(a: seq<Entry<T>>, b: seq<Entry<T>>)
    requires Ascending(a + b)
    ensures Ascending(a) && Ascending(b)
  {
    assert forall i :: 0 <= i < |a| ==> (a + b)[i] == a[i];
    assert forall i :: 0 <= i < |b| ==> (a + b)[|a| + i] == b[i];
  }

  lemma SlicesFrom<T>(a: seq<Entry<T>>, b: seq<Entry<T>>, k: int)
    requires From(a + b, k)
    ensures From(a, k) && From(b, k)
  {
    assert forall i :: 0 <= i < |a| ==> (a + b)[i] == a[i];
    assert forall i :: 0 <= i < |b| ==> (a + b)[|a| + i] == b[i];
  }

  lemma KeptAround<T>(a: seq<Entry<T>>, e: Entry<T>, b: seq<Entry<T>>, doomed: set<int>)
    ensures Kept(a + [e] + b, doomed)
         == if e.key in doomed then Kept(a, doomed) + Kept(b, doomed) else Kept(a, doomed) + [e] + Kept(b, doomed)
  {
    KeptSplits(a + [e], b, doomed);
    KeptSplits(a, [e], doomed);
    KeptOne(e, doomed);
  }

  lemma KeptOne<T>(e: Entry<T>, doomed: set<int>)
    ensures Kept([e], doomed) == if e.key in doomed then [] else [e]
  {
    assert [e][1..] == [];
  }

  lemma {:induction false} KeptWhole<T>(es: seq<Entry<T>>, doomed: set<int>)
    requires forall i :: 0 <= i < |es| ==> es[i].key !in doomed
    ensures Kept(es, doomed) == es
  {
    if es != [] {
      KeptWhole(es[1..], doomed);
    }
  }

  lemma {:induction false} KeptNone<T>(es: seq<Entry<T>>, doomed: set<int>)
    requires forall i :: 0 <= i < |es| ==> es[i].key in doomed
    ensures Kept(es, doomed) == []
  {
    if es != [] {
      KeptNone(es[1..], doomed);
    }
  }

  function KeysIn(lower: int, upper: int): (ks: set<int>)
    ensures forall k :: k in ks <==> lower <= k < upper
    decreases upper - lower
  {
    if lower >= upper then {} else {lower} + KeysIn(lower + 1, upper)
  }

  lemma KeptBelow<T>(below: seq<Entry<T>>, lower: int, upper: int)
    requires Before(below, lower)
    ensures Kept(below, KeysIn(lower, upper)) == below
  {
    KeptWhole(below, KeysIn(lower, upper));
  }

  lemma KeptAbove<T>(within: seq<Entry<T>>, above: seq<Entry<T>>, lower: int, upper: int)
    requires From(within + above, lower) && Before(within, upper) && From(above, upper)
    ensures Kept(within + above, KeysIn(lower, upper)) == above && From(within, lower)
  {
    SlicesFrom(within, above, lower);
    KeptSplits(within, above, KeysIn(lower, upper));
    KeptWhole(above, KeysIn(lower, upper));
    KeptNone(within, KeysIn(lower, upper));
  }

  lemma KeptOutside<T>(below: seq<Entry<T>>, notBelow: seq<Entry<T>>, within: seq<Entry<T>>, above: seq<Entry<T>>,
                       lower: int, upper: int)
    requires notBelow == within + above
    requires Before(below, lower) && From(notBelow, lower) && Before(within, upper) && From(above, upper)
    ensures Kept(below + notBelow, KeysIn(lower, upper)) == below + above && From(within, lower)
  {
    KeptSplits(below, notBelow, KeysIn(lower, upper));
    KeptBelow(below, lower, upper);
    KeptAbove(within, above, lower, upper);
  }

  /** Taking one entry out of an ascending sequence is dropping its key. */
  lemma {:induction false} WithoutIsKept<T>(es: seq<Entry<T>>, at: nat)
    requires Ascending(es) && at < |es|
    ensures Without(es, at) == Kept(es, {es[at].key})
  {
    if at == 0 {
      KeptWhole(es[1..], {es[0].key});
    } else {
      WithoutIsKept(es[1..], at - 1);
      assert es[0].key < es[at].key;
    }
  }

  // ---- The items a shape is made of ---------------------------------------------------------------

  ghost function Nodes<T>(s: Tree<T>): set<T> {
    match s
    case Nil => {}
    case Bin(l, e, r) => Nodes(l) + {e.item} + Nodes(r)
  }

  ghost predicate Distinct<T>(s: Tree<T>) {
    s.Nil? || (Nodes(s.left) !! {s.entry.item} !! Nodes(s.right) && Distinct(s.left) && Distinct(s.right))
  }

  lemma RotationKeepsNodes<T>(s: Tree<T>)
    requires s.Bin? && Distinct(s)
    ensures s.left.Bin? ==> Nodes(RotatedRight(s)) == Nodes(s) && Distinct(RotatedRight(s))
    ensures s.right.Bin? ==> Nodes(RotatedLeft(s)) == Nodes(s) && Distinct(RotatedLeft(s))
  {
  }

  ghost function Items<T>(es: seq<Entry<T>>): set<T> {
    set i | 0 <= i < |es| :: es[i].item
  }

  lemma {:induction false} NodesAreItems<T>(s: Tree<T>)
    ensures Nodes(s) == Items(Entries(s))
  {
    if s.Bin? {
      NodesAreItems(s.left);
      NodesAreItems(s.right);
      ItemsAround(Entries(s.left), s.entry, Entries(s.right));
    }
  }

  lemma ItemsAround<T>(a: seq<Entry<T>>, e: Entry<T>, b: seq<Entry<T>>)
    ensures Items(a + [e] + b) == Items(a) + {e.item} + Items(b)
  {
    var es := a + [e] + b;
    assert forall i :: 0 <= i < |a| ==> es[i] == a[i];
    assert es[|a|] == e;
    assert forall i :: 0 <= i < |b| ==> es[|a| + 1 + i] == b[i];
    assert Items(es) <= Items(a) + {e.item} + Items(b) by {
      forall n | n in Items(es)
        ensures n in Items(a) + {e.item} + Items(b)
      {
        var i :| 0 <= i < |es| && es[i].item == n;
        if i > |a| {
          assert es[i] == b[i - |a| - 1];
        }
      }
    }
  }

  lemma ItemsConcat<T>(a: seq<Entry<T>>, b: seq<Entry<T>>)
    ensures Items(a + b) == Items(a) + Items(b)
  {
    var es := a + b;
    assert forall i :: 0 <= i < |a| ==> es[i] == a[i];
    assert forall i :: 0 <= i < |b| ==> es[|a| + i] == b[i];
    forall n | n in Items(es)
      ensures n in Items(a) + Items(b)
    {
      var i :| 0 <= i < |es| && es[i].item == n;
      if i >= |a| {
        assert es[i] == b[i - |a|];
      }
    }
  }

  ghost predicate NoDup<T>(es: seq<Entry<T>>) {
    forall i, j :: 0 <= i < j < |es| ==> es[i].item != es[j].item
  }

  lemma NoDupConcat<T>(a: seq<Entry<T>>, b: seq<Entry<T>>)
    ensures NoDup(a + b) <==> NoDup(a) && NoDup(b) && Items(a) !! Items(b)
  {
    var es := a + b;
    assert forall i :: 0 <= i < |a| ==> es[i] == a[i];
    assert forall i :: 0 <= i < |b| ==> es[|a| + i] == b[i];
    if NoDup(es) {
      forall i, j | 0 <= i < |a| && 0 <= j < |b|
        ensures a[i].item != b[j].item
      {
        assert es[i].item != es[|a| + j].item;
      }
    }
    if Items(a) !! Items(b) {
      forall i, j | 0 <= i < |a| && 0 <= j < |b|
        ensures a[i].item != b[j].item
      {
        assert a[i].item in Items(a) && b[j].item in Items(b);
      }
    }
  }

  lemma NoDupAround<T>(a: seq<Entry<T>>, e: Entry<T>, b: seq<Entry<T>>)
    ensures NoDup(a + [e] + b) <==>
            NoDup(a) && NoDup(b) && e.item !in Items(a) && e.item !in Items(b) && Items(a) !! Items(b)
  {
    NoDupConcat(a + [e], b);
    NoDupConcat(a, [e]);
    ItemsConcat(a, [e]);
    ItemsOfOne(e);
  }

  lemma ItemsOfOne<T>(e: Entry<T>)
    ensures Items([e]) == {e.item}
  {
    assert [e][0] == e;
  }

  /** A shape is over distinct nodes exactly when its in-order sequence repeats none. */
  lemma {:induction false} DistinctMeans<T>(s: Tree<T>)
    ensures Distinct(s) <==> NoDup(Entries(s))
  {
    if s.Bin? {
      DistinctMeans(s.left);
      DistinctMeans(s.right);
      NodesAreItems(s.left);
      NodesAreItems(s.right);
      NoDupAround(Entries(s.left), s.entry, Entries(s.right));
    }
  }

  lemma WithItems<T>(es: seq<Entry<T>>, at: nat, e: Entry<T>)
    requires at <= |es|
    ensures Items(With(es, at, e)) == Items(es) + {e.item}
    ensures NoDup(es) && e.item !in Items(es) ==> NoDup(With(es, at, e))
  {
    WithIsSplice(es, at, e);
    assert es == es[..at] + es[at..];
    ItemsAround(es[..at], e, es[at..]);
    ItemsConcat(es[..at], es[at..]);
    NoDupConcat(es[..at], es[at..]);
    NoDupAround(es[..at], e, es[at..]);
  }

  lemma WithoutItems<T>(es: seq<Entry<T>>, at: nat)
    requires at < |es| && NoDup(es)
    ensures NoDup(Without(es, at)) && Items(Without(es, at)) == Items(es) - {es[at].item}
  {
    var a, e, b := es[..at], es[at], es[at + 1..];
    WithoutIsCut(es, at);
    assert es == a + [e] + b;
    DroppedMiddle(a, e, b);
  }

  lemma DroppedMiddle<T>(a: seq<Entry<T>>, e: Entry<T>, b: seq<Entry<T>>)
    requires NoDup(a + [e] + b)
    ensures NoDup(a + b) && Items(a + b) == Items(a + [e] + b) - {e.item}
  {
    NoDupAround(a, e, b);
    NoDupConcat(a, b);
    ItemsAround(a, e, b);
    ItemsConcat(a, b);
  }

  lemma {:induction false} KeptItems<T>(es: seq<Entry<T>>, doomed: set<int>)
    ensures Items(Kept(es, doomed)) <= Items(es)
    ensures NoDup(es) ==> NoDup(Kept(es, doomed))
  {
    if es != [] {
      var rest := Kept(es[1..], doomed);
      KeptItems(es[1..], doomed);
      assert es == [es[0]] + es[1..];
      ItemsOfOne(es[0]);
      ItemsConcat([es[0]], es[1..]);
      ItemsConcat([es[0]], rest);
      NoDupConcat([es[0]], es[1..]);
      NoDupConcat([es[0]], rest);
      assert Kept(es, doomed) == if es[0].key in doomed then rest else [es[0]] + rest;
    }
  }

  /** The same in-order sequence is over the same nodes. */
  lemma SameSequence<T>(s: Tree<T>, t: Tree<T>)
    requires Entries(s) == Entries(t)
    ensures Nodes(s) == Nodes(t) && (Distinct(s) <==> Distinct(t))
  {
    NodesAreItems(s);
    NodesAreItems(t);
    DistinctMeans(s);
    DistinctMeans(t);
  }
}
