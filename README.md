# CLRS B-tree: read side

This project models the read side of a CLRS-style B-tree over integer items:

- the node and tree shapes and their constructors (`newNode`, `newBTree`);
- node search, both as written and with its one faulting case corrected;
- the invariant checker `checkInvariances`, which is the repository's
  executable definition of a valid tree;
- the item comparison `numItem.compare`.

It proves the following about these:

- search returns only items equal to the target;
- on a well-shaped tree whose in-order sequence is strictly ascending, search
  finds exactly the items of that sequence;
- the checker passes exactly the trees that are ordered, occupancy-bounded
  and balanced;
- a fresh tree passes the checker.

Modules, one per concern:

- `Items` (`items.dfy`): the comparison result `Cmp` and the source's integer
  codes for it. It also holds `Compare` (`numItem.compare`) and the
  strictly-ascending predicate, with lemmas on splitting ascending sequences.
- `BTree` (`btree.dfy`): `Node`, `Tree`, `NewNode`, `NewBTree`, and two
  shape predicates. `Traversable` holds when the checker can walk the tree
  without faulting. `WellShaped` holds when a leaf has no children and an
  internal node has exactly `n+1` of them. It also holds `SearchAsWritten`
  (the Go `search` with its index faults), the corrected `Search`, and its
  loop form `SearchNode`.
- `Traversal` (`traversal.dfy`): the checker's three tree walks as functions
  (`InOrder`, `Counts`, `LeafLevels`). `TraverseItems` and `TraverseHeight`
  are the same walks written with the checker's loops.
- `Invariants` (`invariants.dfy`): the fault kinds and the three check groups.
  `Check` is the verdict. `Valid` states validity directly, and
  `CheckPassIffValid` relates the two. `CheckInvariances` is the checker
  written with loops.
- `SearchCorrectness` (`correctness.dfy`): soundness and completeness of
  search, and what the checker does not guarantee.

A node's item count `n` is `|items|`. The checker's revision of the node
reads a count field `n.n`; the revision in `cmd/main.go` has none and uses
`len(n.items)`. The model uses one node shape for both.

Nodes are immutable values: nothing in this core changes a node after it is
built, and every node owns its children. The checker only reads the tree. Its
result is a `Verdict`: either `Pass`, or a `Fault` that carries the numbers
the source prints in its error message.

The checker visits only `children[0..n]` of an internal node and no children
of a leaf. So it never checks that an internal node has exactly `n+1`
children. `SearchCorrectness.CheckerIgnoresExtraChildren` shows a tree that
the checker passes where search misses one of the in-order items. For that
reason the search theorems also assume `WellShaped`.

## Model

| member | source | states |
|---|---|---|
| `Items.Code` | cmd/main.go:5-7 | the three comparison results map to the codes 1, 0, -1, one code each |
| `Items.Compare` | pkg/stdbtree/btree_test.go:99-110 | the result is `LessThan` iff `n < other`, `Equal` iff they are equal, and `GreaterThan` iff `other < n` |
| `Items.CompareAntisymmetric` | pkg/stdbtree/btree_test.go:104-109 | swapping the operands flips the result, so the comparison is an antisymmetric three-way order |
| `Items.CompareTransitive` | pkg/stdbtree/btree_test.go:104-109 | `LessThan` is transitive |
| `BTree.NewNode` | cmd/main.go:19-30 | a new node has no items and no children and keeps the requested leaf flag; a new leaf is well-shaped; `t >= 1` because the item buffer's capacity `2t-1` must not be negative |
| `BTree.NewBTree` | cmd/main.go:61-70 | only `t >= 2` is accepted (the source halts otherwise; the test expects this for `t = 1`); the tree keeps `t`, `len` is 0, and the root is an empty, well-shaped leaf |
| `BTree.AsWrittenFaultsOnLeaf` | cmd/main.go:39-40 | on a leaf with no children, a missing target below some item makes the as-written search fault on `children[i]` |
| `BTree.AsWrittenFaultExample` | cmd/main.go:39-40 | searching 3 in the leaf holding 5 faults as written; the corrected search returns absent |
| `BTree.SearchIsAsWrittenWithoutFaults` | cmd/main.go:32-48 | for every node and target, the corrected search equals the as-written search with a fault read as absent |
| `BTree.SearchReturnsEqual` | cmd/main.go:37-38 | whatever search returns compares `Equal` to the target |
| `BTree.SearchDescent` | cmd/main.go:33-47 | when every item before position `i` is below the target: an equal `items[i]` is returned; a greater `items[i]` sends search into `children[i]`; past the last item an internal node searches its last child and a leaf returns absent |
| `BTree.SearchNode` | cmd/main.go:32-48 | the loop-and-recursion form of search computes `Search` |
| `Traversal.TraverseItems` | pkg/stdbtree/btree_test.go:14-36 | the in-order walk collects `InOrder`: `children[0], items[0], …, items[n-1], children[n]`, with children visited only in internal nodes |
| `Traversal.LeafInOrder` | pkg/stdbtree/btree_test.go:17-23 | a leaf's in-order sequence is its item sequence |
| `Traversal.InOrderAround` | pkg/stdbtree/btree_test.go:14-28 | an internal node's in-order sequence is the part before `children[i]`, then `children[i]`'s sequence, then the rest |
| `Traversal.LeafLevelsNonEmpty` | pkg/stdbtree/btree_test.go:77-88 | every walk reaches a leaf, so `leafHeights[0]` exists |
| `Traversal.TraverseHeight` | pkg/stdbtree/btree_test.go:77-87 | the height walk collects `LeafLevels`, the level of every leaf from left to right |
| `Invariants.OrderFaultMeaning` | pkg/stdbtree/btree_test.go:37-44 | a reported fault is a pair of adjacent items: `Duplicate` when they are equal, `Unsorted` when the later one is smaller |
| `Invariants.OrderFaultNone` | pkg/stdbtree/btree_test.go:30-44 | the ordering loop reports nothing iff the sequence is strictly ascending |
| `Invariants.CheckOrder` | pkg/stdbtree/btree_test.go:37-44 | the ordering loop computes `OrderFault` |
| `Invariants.OverwriteMeaning` | pkg/stdbtree/btree_test.go:61-70 | the recorded error changes only to a count outside `[lo, hi]` that was visited; with no such count it is unchanged; with one it is an out-of-range count |
| `Invariants.VisitOccupancy` | pkg/stdbtree/btree_test.go:47-55 | the preorder walk with the occupancy closure leaves the error `Overwrite` gives for the subtree's counts in preorder |
| `Invariants.CheckBelowRoot` | pkg/stdbtree/btree_test.go:61-70 | the loop over the root's children computes the occupancy error of every node below the root |
| `Invariants.CountsFit` | pkg/stdbtree/btree_test.go:47-70 | every visited count lies in `[lo, hi]` iff every node of the subtree holds between `lo` and `hi` items |
| `Invariants.FirstOff` | pkg/stdbtree/btree_test.go:88-93 | a reported level is a leaf level that differs from the expected one; nothing is reported iff all levels equal it |
| `Invariants.CheckHeights` | pkg/stdbtree/btree_test.go:88-93 | the height loop computes `FirstOff` |
| `Invariants.LevelsAt` | pkg/stdbtree/btree_test.go:76-93 | every collected leaf level equals `d` iff every leaf of the subtree lies at level `d` |
| `Invariants.Check` | pkg/stdbtree/btree_test.go:13-95 | the root-overflow fault is reported iff ordering passed and the root holds more than `2t-1` items; each fault carries what it names: an equal pair that occurs in the tree, a descending pair, an out-of-range count of a node below the root, or two different leaf levels |
| `Invariants.CheckPassIffValid` | pkg/stdbtree/btree_test.go:13-95 | the checker passes iff the in-order items are strictly ascending, the root holds at most `2t-1` items, every node below the root holds between `t-1` and `2t-1`, and all leaves lie at one level |
| `Invariants.CheckGroupOrder` | pkg/stdbtree/btree_test.go:37-93 | the groups are checked in order and the first failure is reported: an occupancy or height fault means ordering passed, and a height fault means occupancy passed too |
| `Invariants.CheckInvariances` | pkg/stdbtree/btree_test.go:13-95 | the checker with its loops computes `Check` without changing the tree |
| `Invariants.NewTreePasses` | pkg/stdbtree/btree_test.go:133-137 | a fresh tree is valid, passes the checker, has `len` 0 and holds no items |
| `SearchCorrectness.SearchSound` | cmd/main.go:32-48 | on a well-shaped node, a found item is the target and is in the in-order sequence |
| `SearchCorrectness.SearchComplete` | cmd/main.go:32-48 | on a well-shaped node with a strictly ascending in-order sequence, every item of that sequence is found |
| `SearchCorrectness.SearchExact` | cmd/main.go:32-48 | on such a node, search returns the target iff it is in the in-order sequence, and absent otherwise |
| `SearchCorrectness.AsWrittenFindsPresent` | cmd/main.go:32-48 | on such a node, the as-written search finds every present item without faulting |
| `SearchCorrectness.TreeSearchExact` | pkg/stdbtree/btree_test.go:158-162 | on a well-shaped tree the checker passes, searching any value returns it iff it is one of the tree's items |
| `SearchCorrectness.CheckerIgnoresExtraChildren` | pkg/stdbtree/btree_test.go:17-26 | a root with one item and three children passes the checker, yet search misses the in-order item 7 (the as-written search faults) |

## Findings

| source | as written | input that shows it | evidently intended | confidence | as-written member | corrected member |
|---|---|---|---|---|---|---|
| cmd/main.go:39-40 | in the `lessThan` case, `search` returns `n.children[i].search(item)` without checking `isLeaf`; a leaf's `children` is nil, so the index is out of range | a leaf holding only 5 (the root of a tree whose only item is 5), searched for 3 | a leaf has no child to descend into, so the target is absent and search returns nil, as line 43-44 already does for a target above every item | high; not executed | `BTree.AsWrittenFaultsOnLeaf` | `BTree.Search` (its intended property is proved as `SearchCorrectness.SearchExact`) |

The test searches only for items that are present, which never reach the
faulting case (`SearchCorrectness.AsWrittenFindsPresent`). That is why the
test does not show the fault.

## Left out

- Insert, `insertLeaf`, `splitChild` and the upkeep of `len`: the
  implementation is not among the files modelled. The test's expectations
  about insert (a fresh insert returns nil; a reinsert returns an equal item
  and leaves `len` unchanged) have no code to model.
- `btree.search`, which the test calls, is not part of this model. The model
  calls node search on the root instead (`TreeSearchExact`).
- `main()`: it only prints.
- Error message text: the checker's result is a `Fault` value carrying the
  numbers the message would show.
- The type-assertion panic in `numItem.compare`: items are `int`, so
  operands of a different type cannot occur.
- A comparison code other than 1, 0 or -1: in Go, `search`'s `switch` would
  simply go on scanning. `Cmp` has exactly three values, and `numItem`
  produces no other code.
- Nil child pointers: children are values, so a nil entry in `children` (on
  which Go would fault) cannot be represented.
- `Invariants.CheckInvariances`: requires `Traversable`, because the Go
  checker faults on an internal node with fewer than `n+1` children. It does
  not model that fault.
- Slice capacities from `make(..., 0, 2*t-1)` and `make(..., 0, 2*t)`: an
  allocation detail. Only the sign condition that makes `make` succeed is
  kept, as `NewNode`'s `t >= 1`.
- Test harness machinery (clock seeding, `rand.Shuffle`, testify `require`):
  only the assertions it makes are modelled.
