/** Nodes, the tree handle, their constructors and node search.

    A node owns an ordered sequence of items and, when internal, a sequence
    of children; its item count is `|items|`.  Each child is owned by exactly
    one parent, so nodes are values here: nothing in the modelled operations
    changes a node once it has been built.
 */
module BTree {
  import opened Items

  datatype Option<T> = None | Some(value: T)

  datatype Node = Node(isLeaf: bool, items: seq<int>, children: seq<Node>)

  /** The tree handle: minimum degree `t`, the root, and the item count `len`. */
  datatype Tree = Tree(t: int, root: Node, len: int)

  /** The trees on which the invariant checker's traversals do not fault:
      they visit `children[0..n]` of every internal node with `n` items and
      no children of a leaf. */
  ghost predicate Traversable(n: Node)
    decreases n
  {
    !n.isLeaf ==>
      && |n.children| > |n.items|
      && forall i :: 0 <= i <= |n.items| ==> Traversable(n.children[i])
  }

  /** The shape every node of a B-tree has: a leaf owns no children, an
      internal node owns exactly one more child than it has items. */
  ghost predicate WellShaped(n: Node)
    ensures WellShaped(n) ==> Traversable(n)
    decreases n
  {
    if n.isLeaf then n.children == []
    else
      && |n.children| == |n.items| + 1
      && forall i :: 0 <= i < |n.children| ==> WellShaped(n.children[i])
  }

  /** `newNode`: a node with no items; a leaf has no children sequence and an
      internal node an empty one.  The item buffer is allocated with capacity
      `2t-1`, which must not be negative, hence `t >= 1`. */
  function NewNode(t: int, isLeaf: bool): (r: Node)
    requires t >= 1
    ensures r.isLeaf == isLeaf
    ensures |r.items| == 0 && |r.children| == 0
    ensures isLeaf ==> WellShaped(r)
  {
    Node(isLeaf, [], [])
  }

  /** `newBTree`: a tree of minimum degree `t` whose root is an empty leaf.
      The source halts for `t < 2`. */
  function NewBTree(t: int): (r: Tree)
    requires t >= 2
    ensures r.t == t && r.len == 0
    ensures r.root.isLeaf && |r.root.items| == 0
    ensures WellShaped(r.root)
  {
    Tree(t, NewNode(t, true), 0)
  }

  // ---------------------------------------------------------------------
  // search, as written

  /** What `search` does on a node: return an item, return nil, or fault on
      a child index outside `children`. */
  datatype Outcome = Found(item: int) | Nil | IndexPanic

  /** `node.search` exactly as written: the `lessThan` case indexes
      `children[i]` without asking whether the node is a leaf, and the
      fall-through case indexes `children[len(children)-1]`. */
  function SearchAsWritten(n: Node, x: int): Outcome
    decreases n, 1, 0
  {
    ScanAsWritten(n, x, 0)
  }

  /** The scan loop of `search` from position `i` on. */
  function ScanAsWritten(n: Node, x: int, i: nat): Outcome
    requires i <= |n.items|
    decreases n, 0, |n.items| - i
  {
    if i == |n.items| then
      if n.isLeaf then Nil
      else if |n.children| == 0 then IndexPanic
      else SearchAsWritten(n.children[|n.children| - 1], x)
    else
      match Compare(x, n.items[i])
      case GreaterThan => ScanAsWritten(n, x, i + 1)
      case Equal => Found(n.items[i])
      case LessThan =>
        if i < |n.children| then SearchAsWritten(n.children[i], x) else IndexPanic
  }

  /** In a leaf without children, a target that is missing but smaller than
      some item makes the scan stop at a `lessThan` and index the missing
      children: the as-written search faults instead of returning nil. */
  lemma {:induction false} AsWrittenFaultsOnLeaf(n: Node, x: int, k: nat)
    requires n.isLeaf && n.children == []
    requires k < |n.items| && x < n.items[k] && x !in n.items
    ensures SearchAsWritten(n, x) == IndexPanic
  {
    ScanFaults(n, x, k, 0);
  }

  lemma {:induction false} ScanFaults(n: Node, x: int, k: nat, i: nat)
    requires n.isLeaf && n.children == []
    requires i <= k < |n.items| && x < n.items[k] && x !in n.items
    ensures ScanAsWritten(n, x, i) == IndexPanic
    decreases k - i
  {
    if Compare(x, n.items[i]) == GreaterThan {
      ScanFaults(n, x, k, i + 1);
    }
  }

  /** A concrete instance: searching 3 in the leaf holding 5. */
  lemma AsWrittenFaultExample()
    ensures SearchAsWritten(Node(true, [5], []), 3) == IndexPanic
    ensures Search(Node(true, [5], []), 3) == None
  {
  }

  // ---------------------------------------------------------------------
  // search, corrected

  /** `node.search` with the intended behaviour where the source faults: a
      child index outside `children` (on a leaf, every index) yields absent. */
  function Search(n: Node, x: int): Option<int>
    decreases n, 1, 0
  {
    Scan(n, x, 0)
  }

  function Scan(n: Node, x: int, i: nat): Option<int>
    requires i <= |n.items|
    decreases n, 0, |n.items| - i
  {
    if i == |n.items| then
      if n.isLeaf || |n.children| == 0 then None
      else Search(n.children[|n.children| - 1], x)
    else
      match Compare(x, n.items[i])
      case GreaterThan => Scan(n, x, i + 1)
      case Equal => Some(n.items[i])
      case LessThan =>
        if i < |n.children| then Search(n.children[i], x) else None
  }

  /** The as-written result read as an optional item, a fault as absent. */
  function AsOption(o: Outcome): Option<int> {
    match o
    case Found(v) => Some(v)
    case Nil => None
    case IndexPanic => None
  }

  /** The corrected search differs from the source only where the source
      faults: every recursive call of `search` is its last action, so a fault
      anywhere below becomes the overall absent result. */
  lemma {:induction false} SearchIsAsWrittenWithoutFaults(n: Node, x: int)
    ensures Search(n, x) == AsOption(SearchAsWritten(n, x))
    decreases n, 1, 0
  {
    ScanIsAsWrittenWithoutFaults(n, x, 0);
  }

  lemma {:induction false} ScanIsAsWrittenWithoutFaults(n: Node, x: int, i: nat)
    requires i <= |n.items|
    ensures Scan(n, x, i) == AsOption(ScanAsWritten(n, x, i))
    decreases n, 0, |n.items| - i
  {
    if i == |n.items| {
      if !n.isLeaf && |n.children| != 0 {
        SearchIsAsWrittenWithoutFaults(n.children[|n.children| - 1], x);
      }
    } else {
      match Compare(x, n.items[i])
      case GreaterThan => ScanIsAsWrittenWithoutFaults(n, x, i + 1);
      case Equal =>
      case LessThan =>
        if i < |n.children| {
          SearchIsAsWrittenWithoutFaults(n.children[i], x);
        }
    }
  }

  /** Whatever search returns compares equal to the target. */
  lemma {:induction false} SearchReturnsEqual(n: Node, x: int)
    ensures Search(n, x).Some? ==> Compare(Search(n, x).value, x) == Equal
    decreases n, 1, 0
  {
    ScanReturnsEqual(n, x, 0);
  }

  lemma {:induction false} ScanReturnsEqual(n: Node, x: int, i: nat)
    requires i <= |n.items|
    ensures Scan(n, x, i).Some? ==> Compare(Scan(n, x, i).value, x) == Equal
    decreases n, 0, |n.items| - i
  {
    if i == |n.items| {
      if !n.isLeaf && |n.children| != 0 {
        SearchReturnsEqual(n.children[|n.children| - 1], x);
      }
    } else {
      match Compare(x, n.items[i])
      case GreaterThan => ScanReturnsEqual(n, x, i + 1);
      case Equal =>
      case LessThan =>
        if i < |n.children| {
          SearchReturnsEqual(n.children[i], x);
        }
    }
  }

  /** Where search goes from a node: it stops at the first item not below the
      target; an equal item is the answer, a greater one sends it into the
      child at the same index; past the last item it enters the last child. */
  lemma {:induction false} SearchDescent(n: Node, x: int, i: nat)
    requires i <= |n.items|
    requires forall j :: 0 <= j < i ==> n.items[j] < x
    ensures i < |n.items| && x == n.items[i] ==> Search(n, x) == Some(x)
    ensures i < |n.items| && x < n.items[i] && !n.isLeaf && i < |n.children| ==>
              Search(n, x) == Search(n.children[i], x)
    ensures i == |n.items| && !n.isLeaf && |n.children| > 0 ==>
              Search(n, x) == Search(n.children[|n.children| - 1], x)
    ensures i == |n.items| && n.isLeaf ==> Search(n, x) == None
  {
    var j := 0;
    while j < i
      invariant 0 <= j <= i
      invariant Search(n, x) == Scan(n, x, j)
    {
      assert Compare(x, n.items[j]) == GreaterThan;
      j := j + 1;
    }
  }

  /** The search loop of `node.search`, scanning the items with an index and
      recursing into a child. */
  method SearchNode(n: Node, x: int) returns (r: Option<int>)
    ensures r == Search(n, x)
    decreases n
  {
    var i := 0;
    while i < |n.items|
      invariant 0 <= i <= |n.items|
      invariant Search(n, x) == Scan(n, x, i)
      decreases |n.items| - i
    {
      match Compare(x, n.items[i]) {
        case GreaterThan =>
        case Equal =>
          return Some(n.items[i]);
        case LessThan =>
          if i < |n.children| {
            r := SearchNode(n.children[i], x);
          } else {
            r := None;
          }
          return;
      }
      i := i + 1;
    }
    if n.isLeaf || |n.children| == 0 {
      return None;
    }
    r := SearchNode(n.children[|n.children| - 1], x);
  }
}
