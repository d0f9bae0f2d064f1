# 2-4 tree dictionary (termproject.TwoFourTree)

A Dafny model of the 2-4 tree in `TwoFourTree.java` and of the ordering adapter
`IntegerComparator.java` it is built with. The tree is a dictionary: it maps keys
to elements and keeps its items in nodes of one to three items. A node that is not
a leaf has one more child than it has items.

The model covers these operations:

- **Search.** `findFirstGreaterThanOrEqualTo` scans one node. `FFGTENode` descends
  from a node to the node holding the key. `findElement` runs that descent from the
  root.
- **Insertion.** `insertElement` descends to a leaf, following equal keys
  downwards, and places the new item there.
- **Overflow repair.** `fixOverflow` splits a node that has reached four items.
  The median moves up into the parent, or into a new root. The largest item and the
  last two children move into a new sibling. The repair repeats on the parent when
  the parent fills up.
- **Queries.** `root`/`setRoot`, `size` and `isEmpty`.

Modules:

- **`Objects`**: the boxed objects the tree stores. `IntObj` is a
  `java.lang.Integer` with a 32-bit value; `Other` is any other object. The module
  also holds the two exceptions, as `Result`/`Outcome` values.
- **`IntegerComparator`**: `isLessThan` and the predicates derived from it. Each
  throws `InvalidObjectException` when an operand is not an `Integer`.
- **`TFNodes`**: the node record (items, child slots, parent link) and the node
  operations the tree calls (`insertItem`, `removeItem`, `setChild`, `setParent`).
  `TFNode.java` is not part of this model. These operations are modelled from how
  the tree uses them:
  - `insertItem(i, x)` shifts the items and the child slots at and after `i` one
    place right, and leaves child slot `i` empty;
  - `removeItem(i)` drops item `i` and child slot `i`.
- **`TreeShape`**: the tree's invariant over an arena of nodes (a sequence of
  nodes, where a node reference is an index and `null` is `None`). Each node carries
  ghost annotations: its height above the leaves and the key bounds its parent
  imposes. The invariant requires:
  - 1–3 sorted items per node;
  - one more child slot than items;
  - children one level down, with parent links pointing back;
  - keys within the parent's bounds;
  - the root at the top level.
- **`TreeSearch`**: the node scan, `FFGTENode`, the descent `insertElement` makes,
  and search correctness.
- **`TreeSplit`**: one split as a relation `IsSplit` between arenas. It also holds
  the statements of `fixOverflow` as value-level steps, and the proof that one split
  restores the invariant everywhere except, possibly, at the receiving parent.
- **`TreeInsert`**: the descent loop of `insertElement` and the leaf insertion.
- **`TwoFourTrees`**: the `TwoFourTree` class. Its fields `treeRoot`, `size` and
  the node arena are updated in place. It also holds the demonstration driver's
  first insertions.

Keys are compared only through `IntegerComparator`, so the tree sees one linear
order on `Integer` keys. A key that is not an `Integer` is accepted by an insertion
into an empty tree, because no comparison happens there. Any later comparison
throws. The model states both.

Equal keys are not merged. `insertElement` descends past an equal key into the
child on its left and stores a second item. The invariant therefore uses
non-strict key bounds.

`findElement` returns the `Item` whose key matches, not its element. This is what
the code does, although the `Dictionary` contract in its comment speaks of the
element. The model follows the code.

## Model

| member | source | states |
|---|---|---|
| IntegerComparator.IsLessThan | src/main/java/termproject/IntegerComparator.java:17-25 | throws `InvalidObject` exactly when an operand is not an `Integer`; otherwise the result is integer `<` on the values |
| IntegerComparator.IsLessThanOrEqualTo | src/main/java/termproject/IntegerComparator.java:27-29 | throws on a non-`Integer` operand, otherwise is integer `<=` |
| IntegerComparator.IsGreaterThan | src/main/java/termproject/IntegerComparator.java:31-33 | throws on a non-`Integer` operand, otherwise is integer `>` |
| IntegerComparator.IsGreaterThanOrEqualTo | src/main/java/termproject/IntegerComparator.java:35-37 | throws on a non-`Integer` operand, otherwise is integer `>=` |
| IntegerComparator.IsEqual | src/main/java/termproject/IntegerComparator.java:39-41 | throws on a non-`Integer` operand, otherwise is equality of the two objects |
| IntegerComparator.DerivedPredicatesAgree | src/main/java/termproject/IntegerComparator.java:27-41 | `<=` is `<` or equal; `>` and `>=` are `<` and `<=` with the operands swapped; `isEqual` is symmetric |
| IntegerComparator.IsComparable | src/main/java/termproject/IntegerComparator.java:43-45 | `obj instanceof Integer`: true exactly for a boxed `Integer` |
| IntegerComparator.ComparableGuardsComparisons | src/main/java/termproject/IntegerComparator.java:17-45 | each of the five comparison predicates throws exactly when `isComparable` fails for one of its operands |
| IntegerComparator.LessThanIsStrictTotalOrder | src/main/java/termproject/IntegerComparator.java:17-24 | on `Integer`s, `isLessThan` is irreflexive, transitive and total |
| TFNodes.NewNode | src/main/java/termproject/TwoFourTree.java:89 | a new node has no items, one empty child slot and no parent |
| TFNodes.InsertItem | src/main/java/termproject/TwoFourTree.java:94 | one more item; `x` is at `i` with an empty child slot there; the items and slots before `i` are kept and those after it are shifted one right |
| TFNodes.RemoveItem | src/main/java/termproject/TwoFourTree.java:116-117 | one item fewer; item and slot `i` are dropped; the rest is kept, shifted one left |
| TFNodes.SetChild | src/main/java/termproject/TwoFourTree.java:100-101 | only child slot `i` changes |
| TFNodes.SetParent | src/main/java/termproject/TwoFourTree.java:103-104 | only the parent link changes |
| TFNodes.RemoveUndoesInsert | src/main/java/termproject/TwoFourTree.java:116-117 | removing at `i` undoes inserting at `i` |
| TFNodes.InsertThenLink | src/main/java/termproject/TwoFourTree.java:94-101 | inserting the median and filling slots `i` and `i + 1` puts the two halves on either side of it |
| TFNodes.KeepLowerHalf | src/main/java/termproject/TwoFourTree.java:115-119 | two `removeItem(2)` calls followed by `setChild(2, thirdChild)` leave items 0-1 and children 0-2 |
| TFNodes.InsertIntoChildless | src/main/java/termproject/TwoFourTree.java:150 | an insertion into a node with only empty child slots keeps every slot empty |
| TreeShape.LeafIffLevelZero | src/main/java/termproject/TwoFourTree.java:143-147 | a node has only empty child slots exactly when it is at level 0 |
| TreeShape.LeavesAtEqualDepth | src/main/java/termproject/TwoFourTree.java:85-125 | every leaf is at the same depth, the height of the tree |
| TreeShape.AncestorIsRoot | src/main/java/termproject/TwoFourTree.java:87-92 | following parent links from any node reaches the root |
| TreeShape.ParentBounds | src/main/java/termproject/TwoFourTree.java:179-192 | a key that a child's bounds admit is admitted by the parent's bounds |
| TreeShape.AncestorStep | src/main/java/termproject/TwoFourTree.java:179-192 | the parent of the ancestor at level `l` is the ancestor at level `l + 1` |
| TreeShape.WithinAncestorBounds | src/main/java/termproject/TwoFourTree.java:179-192 | a key within a node's bounds is within the bounds of each of its ancestors |
| TreeShape.SortedPairsAreInt | src/main/java/termproject/TwoFourTree.java:163-172 | in a node holding two or more sorted items, every key is an `Integer` |
| TreeShape.ChildHasBound | src/main/java/termproject/TwoFourTree.java:100-101 | every non-root node takes a key bound from an item of its parent |
| TreeShape.NonIntOnlyInSingleLeaf | src/main/java/termproject/TwoFourTree.java:137-141 | a non-`Integer` key can only be stored in a tree that is one leaf holding one item |
| TreeShape.AllItemsMembers | src/main/java/termproject/TwoFourTree.java:71-79 | an item is among all the items exactly when some node holds it |
| TreeShape.EmptyIffNoItems | src/main/java/termproject/TwoFourTree.java:55-64 | a valid tree has no root exactly when it holds no item |
| TreeSearch.FirstGEFrom | src/main/java/termproject/TwoFourTree.java:163-172 | result in range; every key skipped is below `key`; the key at the result is at least `key`; throws only on a non-`Integer` key, and does throw on one |
| TreeSearch.FindFirstGreaterThanOrEqualTo | src/main/java/termproject/TwoFourTree.java:163-172 | the loop returns the scan `FirstGE` of the node's items, throwing where it throws |
| TreeSearch.FirstGEOnSorted | src/main/java/termproject/TwoFourTree.java:163-172 | on sorted keys, the scan stops at or before any item equal to `key`, and on an item equal to it |
| TreeSearch.FFGTENode | src/main/java/termproject/TwoFourTree.java:179-192 | `null` gives `null`; a node it returns holds an item whose key equals `key` at the scanned index; it throws only `InvalidObject` |
| TreeSearch.FFGTENodeFinds | src/main/java/termproject/TwoFourTree.java:179-192 | a key stored below a node is found by the descent from it |
| TreeSearch.SearchFindsStoredKeys | src/main/java/termproject/TwoFourTree.java:179-192 | on `Integer` keys, the descent from the root does not throw, and finds a node exactly when the key is stored |
| TreeSearch.NoFailureOnIntegers | src/main/java/termproject/TwoFourTree.java:179-192 | on `Integer` keys no comparison of the descent throws |
| TreeSearch.RootComparisonFails | src/main/java/termproject/TwoFourTree.java:163-172 | with a non-`Integer` key stored or searched, the first scan, at the root, throws |
| TreeSearch.SearchOutcome | src/main/java/termproject/TwoFourTree.java:179-192 | the descent throws at once on non-`Integer` keys, and otherwise finds a node exactly when the key is stored |
| TreeSearch.DescendLeaf | src/main/java/termproject/TwoFourTree.java:143-147 | the descent ends at a leaf, whose bounds admit `key` when the start node's do |
| TreeSplit.SplitContext | src/main/java/termproject/TwoFourTree.java:85-93 | an overflowing node has four `Integer` keys, five children and a median within its bounds; it is the root, or its parent has room for the median |
| TreeSplit.SplitFacts | src/main/java/termproject/TwoFourTree.java:93-114 | the node holds four items and five child slots; the receiving node has room; the scan at line 93 succeeds with an index inside it; the children that move are distinct, in the arena, and neither the node nor its parent |
| TreeSplit.SplitBasics | src/main/java/termproject/TwoFourTree.java:88-119 | after a split the node's upper bound is the median; the sibling takes its level and its bounds above the median; the receiving node is one level up |
| TreeSplit.SplitKeepsNode | src/main/java/termproject/TwoFourTree.java:115-119 | the split node, with items 0-1 and children 0-2, is well placed |
| TreeSplit.SplitKeepsSibling | src/main/java/termproject/TwoFourTree.java:97-114 | the sibling, with item 3 and children 3-4, is well placed |
| TreeSplit.InsertKeepsSorted | src/main/java/termproject/TwoFourTree.java:93-94 | inserting an item between its key-order neighbours keeps the keys sorted |
| TreeSplit.SplitKeepsNewRoot | src/main/java/termproject/TwoFourTree.java:88-101 | a new root holds only the median, with the node and the sibling as its two children |
| TreeSplit.SplitUnchanged | src/main/java/termproject/TwoFourTree.java:85-125 | a node that is neither split, receiving, nor one level below the split node is unchanged |
| TreeSplit.SplitOldParentChildKept | src/main/java/termproject/TwoFourTree.java:93-101 | a child of the existing parent other than the split node keeps its node and its bounds |
| TreeSplit.SplitOldParentOldSlot | src/main/java/termproject/TwoFourTree.java:93-101 | the parent's slots away from the median still hold well-placed children |
| TreeSplit.SplitOldParentNewSlots | src/main/java/termproject/TwoFourTree.java:100-101 | the slots either side of the median hold the node and the sibling |
| TreeSplit.SplitOldParentSlot | src/main/java/termproject/TwoFourTree.java:93-101 | every slot of the existing parent holds a well-placed child |
| TreeSplit.SplitOldParentItems | src/main/java/termproject/TwoFourTree.java:93-94 | the parent's items stay sorted and within its bounds after the median enters |
| TreeSplit.SplitOldParentDistinct | src/main/java/termproject/TwoFourTree.java:100-101 | the parent's children stay distinct |
| TreeSplit.SplitOldParentUp | src/main/java/termproject/TwoFourTree.java:87 | the parent keeps its own parent, which still lists it |
| TreeSplit.SplitKeepsOldParent | src/main/java/termproject/TwoFourTree.java:93-104 | the existing parent is well placed, with at most four items |
| TreeSplit.SplitLinks | src/main/java/termproject/TwoFourTree.java:103-114 | only the split node, the receiving node and the moved children change their links |
| TreeSplit.SplitOtherChild | src/main/java/termproject/TwoFourTree.java:85-125 | a child slot of a node the split does not touch still holds a well-placed child |
| TreeSplit.SplitOtherInReceiver | src/main/java/termproject/TwoFourTree.java:100-101 | a child of the parent that the split does not touch is still listed there |
| TreeSplit.SplitOtherParent | src/main/java/termproject/TwoFourTree.java:103-113 | an untouched node keeps its parent link, and that parent still lists it |
| TreeSplit.SplitKeepsOther | src/main/java/termproject/TwoFourTree.java:85-125 | a node that is neither split, receiving nor moved stays well placed |
| TreeSplit.SplitKeepsMoved | src/main/java/termproject/TwoFourTree.java:107-114 | a child moved to the sibling stays well placed, with its parent link on the sibling |
| TreeSplit.SplitItemsNewRoot | src/main/java/termproject/TwoFourTree.java:88-119 | splitting the root keeps the multiset of items |
| TreeSplit.SplitItemsOldParent | src/main/java/termproject/TwoFourTree.java:93-119 | splitting below the root keeps the multiset of items |
| TreeSplit.SplitKeepsItems | src/main/java/termproject/TwoFourTree.java:85-119 | a split neither adds nor drops an item |
| TreeSplit.SplitEachNodeOk | src/main/java/termproject/TwoFourTree.java:85-119 | every node of the new arena is well placed; only the receiving node may hold four items |
| TreeSplit.SplitRoot | src/main/java/termproject/TwoFourTree.java:88-92 | the root after a split is parentless and at the top level; the height grows by one exactly when a new root was made |
| TreeSplit.SplitKeepsInv | src/main/java/termproject/TwoFourTree.java:85-119 | one split restores the invariant, except that the receiving node may hold four items; it keeps the items; the receiving node gains exactly one item; the height grows only at a new root |
| TreeSplit.PromoteMedian | src/main/java/termproject/TwoFourTree.java:93-104 | the median enters the parent at the scanned index, with the node and a new one-item sibling in the slots around it; both link to the parent; no other node changes |
| TreeSplit.MoveUpperChildren | src/main/java/termproject/TwoFourTree.java:106-114 | children 3-4 of the node become the sibling's children and point back at it; no other node changes |
| TreeSplit.KeepLowerHalfOf | src/main/java/termproject/TwoFourTree.java:115-119 | the node is left with items 0-1 and children 0-2; nothing else changes |
| TreeSplit.StepsMakeSplit | src/main/java/termproject/TwoFourTree.java:87-119 | the statements of `fixOverflow` up to its recursive call produce the split `IsSplit` describes |
| TreeSplit.SplitArena | src/main/java/termproject/TwoFourTree.java:87-119 | the arena those statements build is the split of the node, with the parent, or a new root, receiving the median |
| TreeInsert.FirstLeaf | src/main/java/termproject/TwoFourTree.java:138-150 | an insertion into an empty tree builds a parentless leaf holding just the new item, with both child slots empty |
| TreeInsert.FirstLeafIsTree | src/main/java/termproject/TwoFourTree.java:138-150 | that one-leaf tree is valid, whatever the key, and holds only the new item |
| TreeInsert.LeafItemsAfterInsert | src/main/java/termproject/TwoFourTree.java:150 | inserting at the scanned index keeps the leaf's keys sorted and within its bounds |
| TreeInsert.LeafInsertLeafOk | src/main/java/termproject/TwoFourTree.java:150 | the leaf stays well placed, and may hold four items |
| TreeInsert.LeafInsertOthersOk | src/main/java/termproject/TwoFourTree.java:150 | every other node stays well placed |
| TreeInsert.LeafInsertKeepsInv | src/main/java/termproject/TwoFourTree.java:150 | inserting into the leaf the descent reached keeps the invariant, with only that leaf possibly holding four items, and adds exactly the new item |
| TreeInsert.InsertAddsItem | src/main/java/termproject/TwoFourTree.java:150 | inserting into one node adds exactly that item to the tree's items |
| TreeInsert.DescendForInsert | src/main/java/termproject/TwoFourTree.java:143-147 | the loop throws exactly when a key is not an `Integer` and the tree was not empty; otherwise it stops at the leaf `DescendLeaf` names, at the scanned index |
| TreeInsert.LeafStep | src/main/java/termproject/TwoFourTree.java:150 | inserting where the descent stopped keeps the invariant, with only that leaf possibly holding four items, and adds exactly the new item |
| TreeInsert.InsertIntoLoneLeaf | src/main/java/termproject/TwoFourTree.java:143-150 | in a one-leaf tree the descent stops at that leaf, and the item goes into it |
| TwoFourTrees.TwoFourTree.constructor | src/main/java/termproject/TwoFourTree.java:34-36 | a new tree is valid and empty, with a zero counter |
| TwoFourTrees.TwoFourTree.Root | src/main/java/termproject/TwoFourTree.java:41-43 | the root is `null` exactly when the tree has no node; otherwise it is a parentless node |
| TwoFourTrees.TwoFourTree.SetRoot | src/main/java/termproject/TwoFourTree.java:48-50 | only the root reference changes |
| TwoFourTrees.TwoFourTree.Size | src/main/java/termproject/TwoFourTree.java:55-57 | with the counter kept in step, the number of items stored |
| TwoFourTrees.TwoFourTree.IsEmpty | src/main/java/termproject/TwoFourTree.java:62-64 | `size == 0`; with the counter kept in step, this holds exactly when the tree has no root |
| TwoFourTrees.TwoFourTree.FindElement | src/main/java/termproject/TwoFourTree.java:71-79 | empty tree gives `ElementNotFound`; a non-`Integer` key throws `InvalidObject`; on `Integer` keys an item is returned exactly when the key is stored, and `ElementNotFound` otherwise; a returned item has the key and is stored |
| TwoFourTrees.TwoFourTree.FixOverflow | src/main/java/termproject/TwoFourTree.java:85-125 | from a tree whose only fault is one node with four items, the result is a valid tree with the same items; the height grows by one exactly when the root changed; with room in the parent it is the single split `IsSplit` |
| TwoFourTrees.TwoFourTree.InsertIntoLeaf | src/main/java/termproject/TwoFourTree.java:150-153 | after the item enters the leaf, and a split if the leaf reached four items, the tree is valid and holds exactly one more item |
| TwoFourTrees.TwoFourTree.InsertElement | src/main/java/termproject/TwoFourTree.java:132-154 | it throws exactly when the tree is non-empty and a key is not an `Integer`, and then changes nothing; otherwise the tree is valid and holds the old items plus the new one; an empty tree becomes one leaf; the item goes into the descent's leaf, which is split if full; the counter does not change |
| TwoFourTrees.TwoFourTree.InsertElementCounted | src/main/java/termproject/TwoFourTree.java:132-154 | corrected counter: one more on each successful insertion, so `size` stays the number of items stored |
| TwoFourTrees.TwoFourTree.InsertThenFind | src/main/java/termproject/TwoFourTree.java:132-154 | on `Integer` keys, an insertion succeeds and `findElement` then finds an item with that key |
| TwoFourTrees.EmptyAfterInsertAsWritten | src/main/java/termproject/TwoFourTree.java:62-64 | as written, after one insertion `isEmpty()` is true while `findElement` returns the item |
| TwoFourTrees.CountedAfterInsert | src/main/java/termproject/TwoFourTree.java:62-64 | with the corrected counter, one insertion leaves `isEmpty()` false and `size()` one |
| TwoFourTrees.InsertIntoRootLeaf | src/main/java/termproject/TwoFourTree.java:143-153 | in a one-leaf tree with room, the item goes into the leaf at its sorted place, and nothing else changes |
| TwoFourTrees.LoneLeafSplit | src/main/java/termproject/TwoFourTree.java:88-119 | filling a one-leaf tree splits it into the two smallest items and the largest item, under a new root holding the median |
| TwoFourTrees.SplitOfLoneLeaf | src/main/java/termproject/TwoFourTree.java:88-119 | the split of a lone overflowing root leaf is that three-node tree |
| TwoFourTrees.InsertIntoFullRootLeaf | src/main/java/termproject/TwoFourTree.java:151-153 | inserting into a full one-leaf tree gives that three-node tree |
| TwoFourTrees.FirstThreeInsertions | src/main/java/termproject/TwoFourTree.java:226-231 | inserting 47, 83 and 22 gives one leaf `[22, 47, 83]` |
| TwoFourTrees.FirstFourInsertions | src/main/java/termproject/TwoFourTree.java:226-234 | inserting 16 next gives root `[47]` with children `[16, 22]` and `[83]` |

## Left out

- Printing and diagnostics (`printAllElements`, `printTree`, `printTFNode`, `checkTree`, `checkTreeFromNode`): console output only.
- `main`: a demonstration driver. Only its first four insertions are modelled, as `FirstFourInsertions`.
- `removeElement`: a stub that returns `null`. No deletion is modelled.
- `whatChildIsThis`: unused by the core.
- The comparator is fixed to `IntegerComparator`. The constructor's `Comparator` parameter and other comparators are not modelled.
- `TFNode.java` is not part of this model. Its operations are modelled from their use in the tree, and `getNumItems`/`getItem`/`getChild` are plain reads of the node record.
- Object identity is not modelled. Nodes are arena indices, and `new TFNode()` appends to the arena. `fixOverflow` calls `setRoot` before it rebuilds the nodes; the model does the arena rebuild first. Nothing in between reads the root, so the order has no effect.
- The in-order key sequence being sorted is stated through per-node key bounds that each parent imposes, not as a flattened sequence.
- TwoFourTree.InsertElementCounted: the counter is an unbounded integer. A Java `int` would wrap after 2^31 - 1 insertions.
- TwoFourTree.FixOverflow: the single-split form (`IsSplit`) is stated only when the parent has room. A cascading repair is described by its invariant, its items and its height, not node by node.

## Findings

| source | as written | input that shows it | evidently intended | confidence | as-written member | corrected member |
|---|---|---|---|---|---|---|
| src/main/java/termproject/TwoFourTree.java:132-154 | `insertElement` never increments `size`, so `size()` stays 0 and `isEmpty()` stays true | a new tree, then `insertElement(7, 70)`: `isEmpty()` is true while `findElement(7)` returns the item | `size` counts the items: one more per successful insertion | not executed | TwoFourTrees.EmptyAfterInsertAsWritten | TwoFourTrees.TwoFourTree.InsertElementCounted |
