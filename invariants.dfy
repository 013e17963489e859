/** `checkInvariances`: the executable definition of a valid tree.

    The checker runs three groups of checks in order and reports the first
    group that fails:
      1. the in-order items are strictly ascending (no duplicate, no descent);
      2. the root holds at most `2t-1` items, and every node below the root
         holds between `t-1` and `2t-1`;
      3. every leaf lies at the same level, the root being level 1.
    It only reads the tree.  Failures are reported as a `Fault` value that
    carries the numbers the source puts into its error message.
 */
module Invariants {
  import opened Items
  import opened BTree
  import opened Traversal

  datatype Fault =
    | Duplicate(prev: int, next: int)      // two adjacent in-order items compare equal
    | Unsorted(prev: int, next: int)       // `next` follows `prev` but is below it
    | RootOverflow(count: int)             // the root holds more than 2t-1 items
    | NodeOccupancy(count: int)            // a node below the root holds a count outside [t-1, 2t-1]
    | LeafHeight(height: int, expected: int) // a leaf level differs from the first leaf's

  datatype Verdict = Pass | Fail(fault: Fault)

  // ---------------------------------------------------------------------
  // group 1: order of the in-order items

  /** The ordering loop from position `i` on: compare each item with the one
      before it and stop at the first pair that is equal or descending. */
  function OrderFault(s: seq<int>, i: nat): Option<Fault>
    requires i >= 1
    decreases |s| - i
  {
    if i >= |s| then None
    else
      match Compare(s[i], s[i - 1])
      case Equal => Some(Duplicate(s[i - 1], s[i]))
      case LessThan => Some(Unsorted(s[i - 1], s[i]))
      case GreaterThan => OrderFault(s, i + 1)
  }

  /** A reported fault names a pair of adjacent items at or after position
      `i`: a duplicate when they are equal, unsorted when the later is smaller. */
  lemma {:induction false} OrderFaultMeaning(s: seq<int>, i: nat)
    requires i >= 1
    ensures var r := OrderFault(s, i);
            r.Some? ==>
              && ((r.value.Duplicate? && r.value.prev == r.value.next)
                  || (r.value.Unsorted? && r.value.next < r.value.prev))
              && exists k :: i <= k < |s| && s[k - 1] == r.value.prev && s[k] == r.value.next
    decreases |s| - i
  {
    if i < |s| && Compare(s[i], s[i - 1]) == GreaterThan {
      OrderFaultMeaning(s, i + 1);
    }
  }

  /** The ordering loop finds nothing exactly when the sequence is strictly
      ascending. */
  lemma {:induction false} OrderFaultNone(s: seq<int>)
    ensures OrderFault(s, 1) == None <==> StrictlyAscending(s)
  {
    if |s| > 0 {
      OrderFaultFrom(s, 1);
      assert s[0..] == s;
    }
  }

  lemma {:induction false} OrderFaultFrom(s: seq<int>, i: nat)
    requires 1 <= i <= |s|
    ensures OrderFault(s, i) == None <==> StrictlyAscending(s[i - 1..])
    decreases |s| - i
  {
    if i < |s| {
      OrderFaultFrom(s, i + 1);
      var tail, from := s[i..], s[i - 1..];
      assert from == [s[i - 1]] + tail;
      if s[i - 1] < s[i] && StrictlyAscending(tail) {
        forall a, b | 0 <= a < b < |from| ensures from[a] < from[b] {
          if a > 0 {
            assert from[a] == tail[a - 1] && from[b] == tail[b - 1];
          } else if b > 1 {
            assert from[b] == tail[b - 1] && tail[0] == s[i];
          }
        }
      }
      if StrictlyAscending(from) {
        assert from[0] == s[i - 1] && from[1] == s[i];
        forall a, b | 0 <= a < b < |tail| ensures tail[a] < tail[b] {
          assert tail[a] == from[a + 1] && tail[b] == from[b + 1];
        }
      }
    }
  }

  // ---------------------------------------------------------------------
  // group 2: occupancy

  /** The occupancy closure applied to counts `cs` in turn: each count outside
      `[lo, hi]` replaces the recorded error, so the last offender wins. */
  function Overwrite(err: Option<int>, cs: seq<int>, lo: int, hi: int): Option<int>
    decreases |cs|
  {
    if cs == [] then err
    else Overwrite(if cs[0] < lo || hi < cs[0] then Some(cs[0]) else err, cs[1..], lo, hi)
  }

  /** The recorded error changes only to a visited count outside `[lo, hi]`;
      it stays put when there is none and is out of range when there is one. */
  lemma {:induction false} OverwriteMeaning(err: Option<int>, cs: seq<int>, lo: int, hi: int)
    ensures var r := Overwrite(err, cs, lo, hi);
            && (r != err ==> r.Some? && r.value in cs && (r.value < lo || hi < r.value))
            && (AllWithin(cs, lo, hi) ==> r == err)
            && (!AllWithin(cs, lo, hi) ==> r.Some? && (r.value < lo || hi < r.value))
    decreases |cs|
  {
    if cs != [] {
      var rest := cs[1..];
      assert cs == [cs[0]] + rest;
      AllWithinConcat([cs[0]], rest, lo, hi);
      OverwriteMeaning(if cs[0] < lo || hi < cs[0] then Some(cs[0]) else err, rest, lo, hi);
    }
  }

  lemma {:induction false} OverwriteConcat(err: Option<int>, a: seq<int>, b: seq<int>, lo: int, hi: int)
    ensures Overwrite(err, a + b, lo, hi) == Overwrite(Overwrite(err, a, lo, hi), b, lo, hi)
    decreases |a|
  {
    if a != [] {
      assert (a + b)[0] == a[0] && (a + b)[1..] == a[1..] + b;
      OverwriteConcat(if a[0] < lo || hi < a[0] then Some(a[0]) else err, a[1..], b, lo, hi);
    } else {
      assert a + b == b;
    }
  }

  /** Every count of `cs` lies in `[lo, hi]`. */
  ghost predicate AllWithin(cs: seq<int>, lo: int, hi: int) {
    forall c :: c in cs ==> lo <= c <= hi
  }

  lemma AllWithinConcat(a: seq<int>, b: seq<int>, lo: int, hi: int)
    ensures AllWithin(a + b, lo, hi) <==> AllWithin(a, lo, hi) && AllWithin(b, lo, hi)
  {
    forall c | c in a ensures c in a + b {}
    forall c | c in b ensures c in a + b {}
  }

  /** Every node of the subtree holds between `lo` and `hi` items. */
  ghost predicate Fits(n: Node, lo: int, hi: int)
    requires Traversable(n)
    decreases n
  {
    && lo <= |n.items| <= hi
    && (!n.isLeaf ==> forall i :: 0 <= i <= |n.items| ==> Fits(n.children[i], lo, hi))
  }

  /** The counts of the nodes below the root, in the order they are visited. */
  ghost function BelowRoot(root: Node): seq<int>
    requires Traversable(root)
  {
    if root.isLeaf then [] else CountsOfKids(root, |root.items| + 1)
  }

  lemma {:induction false} CountsFit(n: Node, lo: int, hi: int)
    requires Traversable(n)
    ensures AllWithin(Counts(n), lo, hi) <==> Fits(n, lo, hi)
    decreases n, 1, 0
  {
    var own := [|n.items|];
    assert |n.items| in own;
    if !n.isLeaf {
      CountsOfKidsFit(n, |n.items| + 1, lo, hi);
      AllWithinConcat(own, CountsOfKids(n, |n.items| + 1), lo, hi);
    } else {
      assert Counts(n) == own;
    }
  }

  lemma {:induction false} CountsOfKidsFit(n: Node, k: nat, lo: int, hi: int)
    requires Traversable(n) && !n.isLeaf && k <= |n.items| + 1
    ensures AllWithin(CountsOfKids(n, k), lo, hi)
            <==> (forall i :: 0 <= i < k ==> Fits(n.children[i], lo, hi))
    decreases n, 0, k
  {
    if k > 0 {
      CountsOfKidsFit(n, k - 1, lo, hi);
      CountsFit(n.children[k - 1], lo, hi);
      AllWithinConcat(CountsOfKids(n, k - 1), Counts(n.children[k - 1]), lo, hi);
    }
  }

  /** `traverseNode` with the occupancy closure, threading the recorded error
      through a preorder visit of the subtree. */
  method VisitOccupancy(n: Node, lo: int, hi: int, err: Option<int>) returns (e: Option<int>)
    requires Traversable(n)
    ensures e == Overwrite(err, Counts(n), lo, hi)
    decreases n
  {
    ghost var own := [|n.items|];
    e := if |n.items| < lo || hi < |n.items| then Some(|n.items|) else err;
    assert e == Overwrite(err, own, lo, hi) by {
      assert own[1..] == [];
    }
    if !n.isLeaf {
      var i := 0;
      while i < |n.items| + 1
        invariant 0 <= i <= |n.items| + 1
        invariant e == Overwrite(err, own + CountsOfKids(n, i), lo, hi)
      {
        ghost var visited := own + CountsOfKids(n, i);
        ghost var sub := Counts(n.children[i]);
        OverwriteConcat(err, visited, sub, lo, hi);
        e := VisitOccupancy(n.children[i], lo, hi, e);
        assert own + CountsOfKids(n, i + 1) == visited + sub;
        i := i + 1;
      }
    } else {
      assert Counts(n) == own;
    }
  }

  // ---------------------------------------------------------------------
  // group 3: leaf levels

  /** The height loop: the first leaf level that differs from `height`. */
  function FirstOff(hs: seq<int>, height: int): (r: Option<int>)
    ensures r.Some? ==> r.value in hs && r.value != height
    ensures r.None? <==> forall h :: h in hs ==> h == height
    decreases |hs|
  {
    if hs == [] then None
    else if hs[0] != height then Some(hs[0])
    else
      var rest := hs[1..];
      assert hs == [hs[0]] + rest;
      FirstOff(rest, height)
  }

  /** Every level in `hs` is `d`. */
  ghost predicate AllAt(hs: seq<int>, d: int) {
    forall h :: h in hs ==> h == d
  }

  lemma AllAtConcat(a: seq<int>, b: seq<int>, d: int)
    ensures AllAt(a + b, d) <==> AllAt(a, d) && AllAt(b, d)
  {
    forall h | h in a ensures h in a + b {}
    forall h | h in b ensures h in a + b {}
  }

  /** Every leaf of the subtree rooted at `level` lies at level `d`. */
  ghost predicate LeavesAt(n: Node, level: int, d: int)
    requires Traversable(n)
    decreases n
  {
    if n.isLeaf then level == d
    else forall i :: 0 <= i <= |n.items| ==> LeavesAt(n.children[i], level + 1, d)
  }

  lemma {:induction false} LevelsAt(n: Node, level: int, d: int)
    requires Traversable(n)
    ensures AllAt(LeafLevels(n, level), d) <==> LeavesAt(n, level, d)
    decreases n, 1, 0
  {
    if n.isLeaf {
      assert level in LeafLevels(n, level);
    } else {
      LevelsOfKidsAt(n, level, |n.items| + 1, d);
    }
  }

  lemma {:induction false} LevelsOfKidsAt(n: Node, level: int, k: nat, d: int)
    requires Traversable(n) && !n.isLeaf && k <= |n.items| + 1
    ensures AllAt(LevelsOfKids(n, level, k), d)
            <==> (forall i :: 0 <= i < k ==> LeavesAt(n.children[i], level + 1, d))
    decreases n, 0, k
  {
    if k > 0 {
      LevelsOfKidsAt(n, level, k - 1, d);
      LevelsAt(n.children[k - 1], level + 1, d);
      AllAtConcat(LevelsOfKids(n, level, k - 1), LeafLevels(n.children[k - 1], level + 1), d);
    }
  }

  // ---------------------------------------------------------------------
  // the checker

  /** What `checkInvariances` reports for tree `b`. */
  ghost function Check(b: Tree): (r: Verdict)
    requires Traversable(b.root)
    ensures r == Fail(RootOverflow(|b.root.items|)) <==>
              OrderFault(InOrder(b.root), 1) == None && |b.root.items| > 2 * b.t - 1
    ensures r.Fail? && r.fault.Duplicate? ==> r.fault.prev == r.fault.next && r.fault.prev in InOrder(b.root)
    ensures r.Fail? && r.fault.Unsorted? ==> r.fault.next < r.fault.prev
    ensures r.Fail? && r.fault.NodeOccupancy? ==>
              r.fault.count in BelowRoot(b.root) && (r.fault.count < b.t - 1 || 2 * b.t - 1 < r.fault.count)
    ensures r.Fail? && r.fault.LeafHeight? ==>
              r.fault.height != r.fault.expected
              && r.fault.height in LeafLevels(b.root, 1) && r.fault.expected in LeafLevels(b.root, 1)
  {
    var order := OrderFault(InOrder(b.root), 1);
    OrderFaultMeaning(InOrder(b.root), 1);
    if order.Some? then Fail(order.value)
    else if |b.root.items| > 2 * b.t - 1 then Fail(RootOverflow(|b.root.items|))
    else
      var occupancy := Overwrite(None, BelowRoot(b.root), b.t - 1, 2 * b.t - 1);
      OverwriteMeaning(None, BelowRoot(b.root), b.t - 1, 2 * b.t - 1);
      if occupancy.Some? then Fail(NodeOccupancy(occupancy.value))
      else
        var hs := LeafLevels(b.root, 1);
        LeafLevelsNonEmpty(b.root, 1);
        var off := FirstOff(hs, hs[0]);
        if off.Some? then Fail(LeafHeight(off.value, hs[0])) else Pass
  }

  /** A valid tree, stated directly: ordered, occupancy-bounded, balanced. */
  ghost predicate Valid(b: Tree) {
    && Traversable(b.root)
    && StrictlyAscending(InOrder(b.root))
    && |b.root.items| <= 2 * b.t - 1
    && (!b.root.isLeaf ==>
          forall i :: 0 <= i <= |b.root.items| ==> Fits(b.root.children[i], b.t - 1, 2 * b.t - 1))
    && exists d :: LeavesAt(b.root, 1, d)
  }

  /** The checker passes exactly the valid trees. */
  lemma CheckPassIffValid(b: Tree)
    requires Traversable(b.root)
    ensures Check(b) == Pass <==> Valid(b)
  {
    var root, lo, hi := b.root, b.t - 1, 2 * b.t - 1;
    OrderFaultNone(InOrder(root));
    var fits := !root.isLeaf ==> forall i :: 0 <= i <= |root.items| ==> Fits(root.children[i], lo, hi);
    assert Overwrite(None, BelowRoot(root), lo, hi) == None <==> fits by {
      OverwriteMeaning(None, BelowRoot(root), lo, hi);
      if !root.isLeaf {
        CountsOfKidsFit(root, |root.items| + 1, lo, hi);
      }
    }
    var hs := LeafLevels(root, 1);
    LeafLevelsNonEmpty(root, 1);
    LevelsAt(root, 1, hs[0]);
    if d :| LeavesAt(root, 1, d) {
      LevelsAt(root, 1, d);
    }
  }

  /** The groups run in order: a fault of a later group means every earlier
      group passed. */
  lemma CheckGroupOrder(b: Tree)
    requires Traversable(b.root)
    requires Check(b).Fail?
    ensures !Check(b).fault.Duplicate? && !Check(b).fault.Unsorted? ==> StrictlyAscending(InOrder(b.root))
    ensures Check(b).fault.NodeOccupancy? || Check(b).fault.LeafHeight? ==> |b.root.items| <= 2 * b.t - 1
    ensures Check(b).fault.LeafHeight? ==>
              !b.root.isLeaf ==>
                forall i :: 0 <= i <= |b.root.items| ==> Fits(b.root.children[i], b.t - 1, 2 * b.t - 1)
  {
    OrderFaultNone(InOrder(b.root));
    OrderFaultMeaning(InOrder(b.root), 1);
    OverwriteMeaning(None, BelowRoot(b.root), b.t - 1, 2 * b.t - 1);
    if !b.root.isLeaf {
      CountsOfKidsFit(b.root, |b.root.items| + 1, b.t - 1, 2 * b.t - 1);
    }
  }

  /** The ordering loop over the collected in-order items. */
  method CheckOrder(items: seq<int>) returns (r: Option<Fault>)
    ensures r == OrderFault(items, 1)
  {
    var i := 1;
    while i < |items|
      invariant 1 <= i
      invariant OrderFault(items, 1) == OrderFault(items, i)
      decreases |items| - i
    {
      match Compare(items[i], items[i - 1]) {
        case Equal =>
          return Some(Duplicate(items[i - 1], items[i]));
        case LessThan =>
          return Some(Unsorted(items[i - 1], items[i]));
        case GreaterThan =>
      }
      i := i + 1;
    }
    return None;
  }

  /** The occupancy closure run over every subtree of the root's children. */
  method CheckBelowRoot(root: Node, lo: int, hi: int) returns (err: Option<int>)
    requires Traversable(root)
    ensures err == Overwrite(None, BelowRoot(root), lo, hi)
  {
    err := None;
    if !root.isLeaf {
      var k := 0;
      while k < |root.items| + 1
        invariant 0 <= k <= |root.items| + 1
        invariant err == Overwrite(None, CountsOfKids(root, k), lo, hi)
      {
        ghost var visited, sub := CountsOfKids(root, k), Counts(root.children[k]);
        OverwriteConcat(None, visited, sub, lo, hi);
        err := VisitOccupancy(root.children[k], lo, hi, err);
        assert CountsOfKids(root, k + 1) == visited + sub;
        k := k + 1;
      }
    }
  }

  /** The height loop: compare every leaf level with the first one. */
  method CheckHeights(leafHeights: seq<int>, height: int) returns (r: Option<int>)
    ensures r == FirstOff(leafHeights, height)
  {
    var j := 0;
    while j < |leafHeights|
      invariant 0 <= j <= |leafHeights|
      invariant FirstOff(leafHeights, height) == FirstOff(leafHeights[j..], height)
    {
      assert leafHeights[j..][1..] == leafHeights[j + 1..];
      if leafHeights[j] != height {
        return Some(leafHeights[j]);
      }
      j := j + 1;
    }
    return None;
  }

  /** `checkInvariances`: collect the in-order items and scan adjacent pairs,
      bound the root, visit every node below the root, then collect the leaf
      levels and compare each with the first. */
  method CheckInvariances(b: Tree) returns (r: Verdict)
    requires Traversable(b.root)
    ensures r == Check(b)
  {
    var items := TraverseItems(b.root);
    var order := CheckOrder(items);
    if order.Some? {
      return Fail(order.value);
    }
    if |b.root.items| > 2 * b.t - 1 {
      return Fail(RootOverflow(|b.root.items|));
    }
    var err := CheckBelowRoot(b.root, b.t - 1, 2 * b.t - 1);
    if err.Some? {
      return Fail(NodeOccupancy(err.value));
    }
    var leafHeights := TraverseHeight(b.root, 1);
    LeafLevelsNonEmpty(b.root, 1);
    var off := CheckHeights(leafHeights, leafHeights[0]);
    if off.Some? {
      return Fail(LeafHeight(off.value, leafHeights[0]));
    }
    return Pass;
  }

  /** A freshly constructed tree is valid, passes the checker, and is empty. */
  lemma NewTreePasses(t: int)
    requires t >= 2
    ensures Check(NewBTree(t)) == Pass && Valid(NewBTree(t))
    ensures NewBTree(t).len == 0 && InOrder(NewBTree(t).root) == []
  {
    var b := NewBTree(t);
    assert InOrder(b.root) == [];
    assert LeafLevels(b.root, 1) == [1];
    assert LeavesAt(b.root, 1, 1);
  }
}
