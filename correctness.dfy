/** What search promises on a tree the checker accepts: every item of the
    in-order sequence is found, and nothing else is.
 */
module SearchCorrectness {
  import opened Items
  import opened BTree
  import opened Traversal
  import opened Invariants

  /** An item of a leaf, or an item or child subsequence of an internal node,
      occurs in the node's in-order sequence. */
  lemma ItemInOrder(n: Node, i: nat)
    requires Traversable(n) && i < |n.items|
    ensures n.items[i] in InOrder(n)
  {
    if n.isLeaf {
      LeafInOrder(n, |n.items|);
      assert n.items[..|n.items|] == n.items;
    } else {
      InOrderAround(n, i);
      assert ItemsAfter(n, i)[0] == n.items[i];
    }
  }

  lemma ChildInOrder(n: Node, i: nat, x: int)
    requires Traversable(n) && !n.isLeaf && i <= |n.items| && x in InOrder(n.children[i])
    ensures x in InOrder(n)
  {
    InOrderAround(n, i);
  }

  /** Soundness: search returns only the target itself, and only when the
      target is an item of the tree. */
  lemma {:induction false} SearchSound(n: Node, x: int)
    requires WellShaped(n)
    ensures Search(n, x).Some? ==> Search(n, x).value == x && x in InOrder(n)
    decreases n, 1, 0
  {
    ScanSound(n, x, 0);
  }

  lemma {:induction false} ScanSound(n: Node, x: int, i: nat)
    requires WellShaped(n) && i <= |n.items|
    ensures Scan(n, x, i).Some? ==> Scan(n, x, i).value == x && x in InOrder(n)
    decreases n, 0, |n.items| - i
  {
    if i == |n.items| {
      if !n.isLeaf {
        var last := |n.children| - 1;
        assert last == |n.items|;
        SearchSound(n.children[last], x);
        if Search(n.children[last], x).Some? {
          ChildInOrder(n, last, x);
        }
      }
    } else {
      match Compare(x, n.items[i])
      case GreaterThan => ScanSound(n, x, i + 1);
      case Equal => ItemInOrder(n, i);
      case LessThan =>
        if i < |n.children| {
          SearchSound(n.children[i], x);
          if Search(n.children[i], x).Some? {
            ChildInOrder(n, i, x);
          }
        }
    }
  }

  /** Completeness: on a well-shaped node whose in-order sequence is strictly
      ascending, every item of that sequence is found. */
  lemma {:induction false} SearchComplete(n: Node, x: int)
    requires WellShaped(n) && StrictlyAscending(InOrder(n)) && x in InOrder(n)
    ensures Search(n, x) == Some(x)
    decreases n, 1, 0
  {
    ScanComplete(n, x, 0);
  }

  lemma {:induction false} ScanComplete(n: Node, x: int, i: nat)
    requires WellShaped(n) && StrictlyAscending(InOrder(n)) && x in InOrder(n)
    requires i <= |n.items| && (i > 0 ==> n.items[i - 1] < x)
    ensures Scan(n, x, i) == Some(x)
    decreases n, 0, |n.items| - i
  {
    if i < |n.items| && Compare(x, n.items[i]) == GreaterThan {
      ScanComplete(n, x, i + 1);
    } else if i < |n.items| && Compare(x, n.items[i]) == Equal {
    } else if n.isLeaf {
      // The target lies strictly between items[i-1] and items[i] (or past
      // the last item), so it cannot be an item of the leaf.
      LeafMissing(n, x, i);
      assert false;
    } else {
      // The target lies in the subtree of children[i].
      InOrderAround(n, i);
      var before, here, after := ItemsBefore(n, i), InOrder(n.children[i]), ItemsAfter(n, i);
      AscendingSplit(before + here, after);
      AscendingSplit(before, here);
      if x in before {
        AscendingLast(before, x);
        assert false;
      }
      if x in after {
        AscendingFirst(after, x);
        assert false;
      }
      assert i == |n.items| ==> i == |n.children| - 1;
      SearchComplete(n.children[i], x);
    }
  }

  /** A value strictly between two adjacent items of a strictly ascending
      leaf (or below the first, or above the last) is not one of its items. */
  lemma LeafMissing(n: Node, x: int, i: nat)
    requires n.isLeaf && StrictlyAscending(InOrder(n)) && i <= |n.items|
    requires i > 0 ==> n.items[i - 1] < x
    requires i < |n.items| ==> x < n.items[i]
    ensures x !in InOrder(n)
  {
    LeafInOrder(n, |n.items|);
    assert n.items[..|n.items|] == n.items;
    assert InOrder(n) == n.items;
    forall j | 0 <= j < |n.items| ensures n.items[j] != x {
      if j < i - 1 {
        assert n.items[j] < n.items[i - 1];
      } else if j > i {
        assert n.items[i] < n.items[j];
      }
    }
  }

  /** Search on a well-shaped node with a strictly ascending in-order
      sequence finds exactly the items of that sequence. */
  lemma SearchExact(n: Node, x: int)
    requires WellShaped(n) && StrictlyAscending(InOrder(n))
    ensures Search(n, x) == if x in InOrder(n) then Some(x) else None
  {
    SearchSound(n, x);
    if x in InOrder(n) {
      SearchComplete(n, x);
    }
  }

  /** The source's own search never faults on an item that is present: the
      faulting case needs a target missing from a leaf. */
  lemma AsWrittenFindsPresent(n: Node, x: int)
    requires WellShaped(n) && StrictlyAscending(InOrder(n)) && x in InOrder(n)
    ensures SearchAsWritten(n, x) == Found(x)
  {
    SearchComplete(n, x);
    SearchIsAsWrittenWithoutFaults(n, x);
  }

  /** On a well-shaped tree that passes the checker, searching any value
      returns it exactly when it is one of the tree's items. */
  lemma TreeSearchExact(b: Tree, x: int)
    requires WellShaped(b.root) && Check(b) == Pass
    ensures Search(b.root, x) == if x in InOrder(b.root) then Some(x) else None
  {
    CheckPassIffValid(b);
    SearchExact(b.root, x);
  }

  /** The checker never looks at children beyond `children[n]`, so it passes
      a tree with a stray extra child in the root; search then descends into
      the stray child and misses an item of the in-order sequence. */
  lemma CheckerIgnoresExtraChildren()
    ensures var b := Tree(2, Node(false, [5], [Node(true, [1], []), Node(true, [7], []), Node(true, [9], [])]), 3);
            && Check(b) == Pass
            && 7 in InOrder(b.root)
            && Search(b.root, 7) == None
            && SearchAsWritten(b.root, 7) == IndexPanic
  {
  }
}
