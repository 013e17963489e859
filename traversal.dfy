/** The three traversals the invariant checker makes of a tree.

    Each traversal only ever visits `children[0..n]` of an internal node,
    where `n` is the node's item count, and no children of a leaf; it faults
    when an internal node has fewer than `n+1` children.  The functions here
    say what each traversal produces; the methods compute the same with the
    checker's loops.
 */
module Traversal {
  import opened Items
  import opened BTree

  // ---------------------------------------------------------------------
  // in-order items: children[0], items[0], children[1], ..., items[n-1], children[n]

  ghost function InOrder(n: Node): seq<int>
    requires Traversable(n)
    decreases n, 1, 0
  {
    ItemsBefore(n, |n.items|) + (if n.isLeaf then [] else InOrder(n.children[|n.items|]))
  }

  /** What the in-order traversal emits before reaching `children[i]`. */
  ghost function ItemsBefore(n: Node, i: nat): seq<int>
    requires Traversable(n) && i <= |n.items|
    decreases n, 0, i
  {
    if i == 0 then []
    else ItemsBefore(n, i - 1) + (if n.isLeaf then [] else InOrder(n.children[i - 1])) + [n.items[i - 1]]
  }

  /** `traverseItems` collecting every item it visits, in visiting order. */
  method TraverseItems(n: Node) returns (s: seq<int>)
    requires Traversable(n)
    ensures s == InOrder(n)
    decreases n
  {
    s := [];
    var i := 0;
    while i < |n.items|
      invariant 0 <= i <= |n.items|
      invariant s == ItemsBefore(n, i)
    {
      if !n.isLeaf {
        var sub := TraverseItems(n.children[i]);
        s := s + sub;
      }
      s := s + [n.items[i]];
      i := i + 1;
    }
    if !n.isLeaf {
      var sub := TraverseItems(n.children[i]);
      s := s + sub;
    }
  }

  /** A leaf emits exactly its items. */
  lemma {:induction false} LeafInOrder(n: Node, i: nat)
    requires n.isLeaf && i <= |n.items|
    ensures ItemsBefore(n, i) == n.items[..i]
  {
    if i > 0 {
      LeafInOrder(n, i - 1);
      assert n.items[..i] == n.items[..i - 1] + [n.items[i - 1]];
    }
  }

  /** What the in-order traversal emits after leaving `children[i]`. */
  ghost function ItemsAfter(n: Node, i: nat): seq<int>
    requires Traversable(n) && !n.isLeaf && i <= |n.items|
    decreases |n.items| - i
  {
    if i == |n.items| then []
    else [n.items[i]] + InOrder(n.children[i + 1]) + ItemsAfter(n, i + 1)
  }

  /** The in-order sequence of an internal node splits around any child. */
  lemma {:induction false} InOrderAround(n: Node, i: nat)
    requires Traversable(n) && !n.isLeaf && i <= |n.items|
    ensures InOrder(n) == ItemsBefore(n, i) + InOrder(n.children[i]) + ItemsAfter(n, i)
    decreases |n.items| - i
  {
    if i < |n.items| {
      InOrderAround(n, i + 1);
      var before, here, next, after := ItemsBefore(n, i), InOrder(n.children[i]),
                                        InOrder(n.children[i + 1]), ItemsAfter(n, i + 1);
      assert ItemsBefore(n, i + 1) == before + here + [n.items[i]];
      assert ItemsAfter(n, i) == [n.items[i]] + next + after;
      calc {
        InOrder(n);
        (before + here + [n.items[i]]) + next + after;
        before + here + ([n.items[i]] + next + after);
      }
    }
  }

  // ---------------------------------------------------------------------
  // item counts in preorder: the node, then children[0..n] in turn

  ghost function Counts(n: Node): seq<int>
    requires Traversable(n)
    decreases n, 1, 0
  {
    [|n.items|] + (if n.isLeaf then [] else CountsOfKids(n, |n.items| + 1))
  }

  /** The preorder counts of `children[0..k-1]`. */
  ghost function CountsOfKids(n: Node, k: nat): seq<int>
    requires Traversable(n) && !n.isLeaf && k <= |n.items| + 1
    decreases n, 0, k
  {
    if k == 0 then [] else CountsOfKids(n, k - 1) + Counts(n.children[k - 1])
  }

  // ---------------------------------------------------------------------
  // leaf levels, the root at level `level`

  ghost function LeafLevels(n: Node, level: int): seq<int>
    requires Traversable(n)
    decreases n, 1, 0
  {
    if n.isLeaf then [level] else LevelsOfKids(n, level, |n.items| + 1)
  }

  /** The leaf levels under `children[0..k-1]` of a node at `level`. */
  ghost function LevelsOfKids(n: Node, level: int, k: nat): seq<int>
    requires Traversable(n) && !n.isLeaf && k <= |n.items| + 1
    decreases n, 0, k
  {
    if k == 0 then [] else LevelsOfKids(n, level, k - 1) + LeafLevels(n.children[k - 1], level + 1)
  }

  /** Every traversal meets at least one leaf, so the list of leaf levels is
      never empty and its first entry is the level of the leftmost leaf. */
  lemma {:induction false} LeafLevelsNonEmpty(n: Node, level: int)
    requires Traversable(n)
    ensures |LeafLevels(n, level)| > 0
    decreases n, 1, 0
  {
    if !n.isLeaf {
      LevelsOfKidsNonEmpty(n, level, |n.items| + 1);
    }
  }

  lemma {:induction false} LevelsOfKidsNonEmpty(n: Node, level: int, k: nat)
    requires Traversable(n) && !n.isLeaf && 0 < k <= |n.items| + 1
    ensures |LevelsOfKids(n, level, k)| > 0
    decreases n, 0, k
  {
    LeafLevelsNonEmpty(n.children[k - 1], level + 1);
  }

  /** `traverseHeight`: the levels of the leaves, left to right. */
  method TraverseHeight(n: Node, level: int) returns (hs: seq<int>)
    requires Traversable(n)
    ensures hs == LeafLevels(n, level)
    decreases n
  {
    if n.isLeaf {
      return [level];
    }
    hs := [];
    var i := 0;
    while i <= |n.items|
      invariant 0 <= i <= |n.items| + 1
      invariant hs == LevelsOfKids(n, level, i)
    {
      var sub := TraverseHeight(n.children[i], level + 1);
      hs := hs + sub;
      i := i + 1;
    }
  }
}
