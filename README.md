# LinkedBST, modelled in Dafny

This project models `LinkedBST`, a linked binary search tree that works as an
ordered multiset of items, and proves properties of the model. The tree's state
is a root link and the size counter `_size`. Its operations are:

- insertion: the recursive `add` and the loop-based `add_no_recursion`;
- lookup: `find`, `find_no_rec` and `__contains__`;
- deletion: `remove`, with its helper `liftMaxInLeftSubtreeToTop`;
- in-place update: `replace`;
- structure measures: `height` and `is_balanced`;
- rebuilding: `rebalance`, with its helper `small_rebalance`;
- neighbour queries: `successor` and `predecessor`;
- traversals: the pre-order `__iter__` and the in-order `inorder`;
- slicing: `range_find`.

The files:

- `trees.dfy` (module `Trees`): the node structure as a value, `Tree = Nil | Node(left, data, right)`. It has the views every contract uses: the element multiset, the in-order and pre-order sequences, and the node count. It also has the weak search-tree ordering: left subtree ≤ node ≤ right subtree.
- `treeops.dfy` (module `TreeOps`): the operations as functions on tree values. These are the recursive search and insertion, and the tree that `remove` and `replace` leave behind. It also holds the descents of `successor` and `predecessor`, with lemmas about each.
- `balance.dfy` (module `Balance`): `height1`, an integer form of `ceil(log2(n + 1)) - 1`, and `small_rebalance`.
- `zipper.dfy` (module `Zipper`): the path a descent loop has walked. The loops that relink a child (`add_no_recursion`, `remove`, `liftMaxInLeftSubtreeToTop`) write the new subtree into the link at the end of this path. `replace` relinks nothing: it overwrites `probe.data` (line 260), and the model writes that one changed node back along the path. The empty path plays the part of `remove`'s pre-root sentinel.
- `linkedbst.dfy` (module `LinkedBst`): the class `LinkedBST` with fields `root` and `size`. The source's loops stay loops here. Each method is proved against the functions of `TreeOps` and `Balance`, against the traversals `InOrder` and `PreOrder` of `Trees`, or against `FirstIndex` and `PySlice`, the module's own forms of Python's `list.index` and slicing.

The class invariant `Valid()` says that the counter is at least zero, never exceeds the node count, and is zero only for the empty tree. Every operation keeps it. The ordering is not part of `Valid()`, because `replace` can break it. Each property that needs the ordering is stated as "if the tree was ordered, then …".

## Model

| member | source | states |
|---|---|---|
| LinkedBst.LinkedBST.constructor | linkedbst1.py:19-23 | a new tree has no root and a zero counter |
| LinkedBst.LinkedBST.Find | linkedbst1.py:96-110 | the answer is `None` or the item itself; on an ordered tree it is the item exactly when the item occurs |
| TreeOps.FindIn | linkedbst1.py:100-108 | the recursive search returns `None` or the item, and returns the item only if it occurs |
| TreeOps.FindComplete | linkedbst1.py:100-108 | on an ordered tree the search finds the item if and only if it occurs |
| LinkedBst.LinkedBST.Contains | linkedbst1.py:79-81 | `True` only for an item that occurs; on an ordered tree, exactly for the items that occur |
| LinkedBst.LinkedBST.FindNoRec | linkedbst1.py:84-94 | the loop gives the same answer as `find`, with `False` for a miss; on an ordered tree it hits exactly the items that occur |
| LinkedBst.LinkedBST.Clear | linkedbst1.py:113-116 | the tree becomes empty with a zero counter |
| TreeOps.Insert | linkedbst1.py:144-156 | insertion adds exactly one occurrence of the item and one node |
| TreeOps.InsertOrdered | linkedbst1.py:144-156 | insertion (smaller left, greater or equal right) keeps the ordering |
| LinkedBst.LinkedBST.Add | linkedbst1.py:140-165 | the new tree is the insertion into the old one, the counter goes up by one, the items gain one occurrence, and the ordering is kept |
| LinkedBst.LinkedBST.AddNoRecursion | linkedbst1.py:118-137 | the loop builds the same tree as `add`; the counter goes from 0 to 1 on an empty tree and otherwise stays put |
| LinkedBst.HangBelow | linkedbst1.py:125-137 | the `while True` walk hangs a new leaf exactly where the recursive insertion puts it |
| LinkedBst.LinkedBST.AddNoRecursionCounted | linkedbst1.py:118-137 | corrected `add_no_recursion`: the same tree, with the counter up by one on every call, so a counter equal to the node count stays equal |
| LinkedBst.LinkedBST.Remove | linkedbst1.py:167-250 | `KeyError` changes nothing when the descent misses. On a hit, it returns the item, the counter goes down by one, and the root becomes the deletion's tree, or nothing once the counter hits zero. The ordering is kept. On ordered trees, failure happens exactly for absent items. With a counter equal to the node count, one occurrence is removed and the counter stays equal |
| LinkedBst.Unlink | linkedbst1.py:196-240 | the descent with parent and direction, the splice and the relink give exactly the deletion's tree, and the removed item equals the one sought |
| LinkedBst.LiftMaxInLeftSubtreeToTop | linkedbst1.py:175-190 | the node takes the rightmost item of its left subtree, and that rightmost node is replaced by its left child |
| TreeOps.Rightmost | linkedbst1.py:181-186 | the walk down the right links ends at an item of the tree; `RightmostIsMax` proves it is a maximum on an ordered tree |
| TreeOps.RemoveRightmost | linkedbst1.py:181-190 | splicing out the rightmost node removes exactly its item and one node |
| TreeOps.RightmostIsMax | linkedbst1.py:175-190 | on an ordered tree the rightmost item is a maximum, and splicing it out keeps the ordering |
| TreeOps.DeleteAt | linkedbst1.py:196-240 | the tree that `remove` leaves behind never has more nodes; `DeleteElements`, `DeleteCount`, `DeleteMissing` and `DeleteOrdered` prove what it holds |
| TreeOps.DeleteElements | linkedbst1.py:196-240 | deleting an item the descent finds removes exactly one occurrence of it |
| TreeOps.DeleteCount | linkedbst1.py:196-240 | deleting a found item removes exactly one node |
| TreeOps.DeleteMissing | linkedbst1.py:202-215 | when the descent misses, the tree is unchanged |
| TreeOps.DeleteOrdered | linkedbst1.py:219-240 | deletion, in all three cases, keeps the ordering |
| TreeOps.LiftOrdered | linkedbst1.py:223-225 | lifting the left subtree's maximum into a two-child node keeps the ordering |
| LinkedBst.LinkedBST.Replace | linkedbst1.py:252-266 | returns the found data or `None`. The root becomes the replacement's tree with the same shape and the same counter. The items trade one `item` for one `newItem`. A miss changes nothing. On an ordered tree, a hit happens exactly for items that occur |
| TreeOps.ReplaceAt | linkedbst1.py:256-266 | the tree that `replace` leaves behind has the same node count; `ReplaceShape`, `ReplaceElements` and `ReplaceMissing` prove what it holds |
| TreeOps.ReplaceShape | linkedbst1.py:256-266 | replacing data never changes a link |
| TreeOps.ReplaceElements | linkedbst1.py:258-261 | a hit trades exactly one occurrence of `item` for one of `newItem` |
| TreeOps.ReplaceMissing | linkedbst1.py:256-266 | a miss leaves the tree unchanged |
| Balance.TreeHeight | linkedbst1.py:274-286 | the height is at least -1 and below the node count |
| Balance.CountBound | linkedbst1.py:274-286 | a tree lower than `k` has fewer than `2^k` nodes |
| Balance.MinHeightIsLeast | linkedbst1.py:268-288 | no tree is lower than `ceil(log2(n + 1)) - 1` for its node count `n` |
| LinkedBst.LinkedBST.Height | linkedbst1.py:268-288 | `height` is between the least possible height for the node count and the node count minus one |
| Balance.CeilLog2 | linkedbst1.py:295 | `ceil(log2 m)` as the least `k` with `m ≤ 2^k` |
| Balance.CeilLog2Unique | linkedbst1.py:295 | the two bounds determine `ceil(log2 m)` |
| Balance.MinHeight | linkedbst1.py:295 | `ceil(log2(n + 1)) - 1` is at least -1, and at least 0 exactly when `n > 0`; `MinHeightMeaning` gives its exact bounds |
| Balance.MinHeightMeaning | linkedbst1.py:295 | `h == ceil(log2(n + 1)) - 1` exactly when `n == 0` and `h == -1`, or `2^h ≤ n < 2^(h+1)` |
| Balance.MinHeightHalf | linkedbst1.py:295 | halving a positive count lowers the least height by exactly one |
| Balance.MinHeightMonotone | linkedbst1.py:295 | the least height grows with the count |
| LinkedBst.LinkedBST.IsBalanced | linkedbst1.py:290-295 | `is_balanced` holds exactly when the height is -1 with a zero counter, or when `2^height ≤ _size < 2^(height+1)` |
| Balance.Rebuild | linkedbst1.py:317-326 | `small_rebalance` builds a tree whose in-order sequence is its input list |
| Balance.RebuildHeight | linkedbst1.py:317-326 | that tree has the least possible height for its length |
| Balance.RebuildKeeps | linkedbst1.py:312-330 | rebuilding from the in-order list keeps the items, the in-order sequence, the node count and the ordering, and gives the least height |
| LinkedBst.LinkedBST.Rebalance | linkedbst1.py:312-330 | the new root is exactly `small_rebalance`'s tree built from the old in-order list, so its shape, and the pre-order that `__iter__` yields, are determined. The in-order sequence, the items and the counter stay. The height becomes the least possible and the ordering is kept. The tree is balanced whenever the counter equals the node count |
| LinkedBst.LinkedBST.InOrderItems | linkedbst1.py:58-69 | `inorder` lists the in-order sequence, with exactly the tree's items; the tree is ordered exactly when that list is sorted |
| LinkedBst.CollectInOrder | linkedbst1.py:62-66 | the recursive helper appends the subtree's in-order sequence to the list |
| Trees.InOrderElements | linkedbst1.py:58-69 | the in-order sequence holds exactly the tree's items |
| Trees.OrderedIffSorted | linkedbst1.py:58-69 | a tree is ordered if and only if its in-order sequence is sorted |
| LinkedBst.LinkedBST.Iterate | linkedbst1.py:41-52 | the stack loop yields the pre-order sequence (root, left subtree, right subtree), which holds exactly the tree's items |
| LinkedBst.StackPop | linkedbst1.py:46-52 | popping a node and pushing its present children (right first) yields its item first, then the rest of the order, from a smaller stack of nodes |
| Trees.PreOrderElements | linkedbst1.py:41-52 | the pre-order sequence holds exactly the tree's items |
| LinkedBst.LinkedBST.RangeFind | linkedbst1.py:297-309 | `ValueError` exactly when a bound does not occur. Otherwise the pre-order list is sliced from the first `low` up to the first `high`, which is never included. The slice is empty when `low` comes later, starts with `low` otherwise, and holds only the tree's items |
| LinkedBst.FirstIndex | linkedbst1.py:307-308 | `list.index`: no index exactly when the value is absent; otherwise the first position holding it |
| LinkedBst.PySlice | linkedbst1.py:309 | Python's `s[i:j]`: the elements from `i` up to `j`, empty when `j ≤ i` |
| LinkedBst.SliceBetween | linkedbst1.py:307-309 | the slice between the first `low` and the first `high` never holds `high`, starts with `low` when not empty, and is a sub-multiset of the list |
| TreeOps.SuccessorFrom | linkedbst1.py:342-349 | the descent's answer is the candidate it started with, or an item of the tree greater than `item` |
| TreeOps.SuccessorFromCorrect | linkedbst1.py:342-357 | on an ordered tree, the descent from an admissible candidate gives the least item above `item` among the tree and that candidate |
| TreeOps.SuccessorCorrect | linkedbst1.py:333-357 | on an ordered tree, `successor` gives the least item greater than `item`, or `None` when no item is greater |
| LinkedBst.LinkedBST.Successor | linkedbst1.py:333-357 | the loop gives the descent's answer: an item of the tree greater than `item`, and on an ordered tree the least one |
| TreeOps.PredecessorFrom | linkedbst1.py:368-375 | the mirror of `SuccessorFrom`: the candidate started with, or an item of the tree smaller than `item` |
| TreeOps.PredecessorFromCorrect | linkedbst1.py:368-383 | on an ordered tree, the descent gives the greatest item below `item` among the tree and the candidate |
| TreeOps.PredecessorCorrect | linkedbst1.py:359-383 | on an ordered tree, `predecessor` gives the greatest item smaller than `item`, or `None` when no item is smaller |
| LinkedBst.LinkedBST.Predecessor | linkedbst1.py:359-383 | the loop gives the descent's answer: an item of the tree smaller than `item`, and on an ordered tree the greatest one |

Where the docstrings and the code disagree, the model follows the code:

- `range_find`'s docstring promises the items with `low <= item <= high`. The code slices the pre-order list that `__iter__` yields, and leaves `high` out.
- `add` sends equal items right, but `small_rebalance` may put equal items to the left of the middle one. The ordering is therefore weak on both sides, not strict.
- `remove` tests `isEmpty()` (line 193) and `itemRemoved == None` (line 215) after the `in` test at line 171. Both tests are dead:
  - under `Valid()` a zero counter means an empty tree, which the `in` test has already rejected;
  - `in` runs the same descent as `remove`'s loop, so that loop always finds the item.

  That is why these two branches have no counterpart in the model.
- `AddNoRecursion` is modelled as written: `add_no_recursion` moves the counter only when the tree was empty (lines 120-123); see Findings.

## Left out

- `__str__` (lines 26-39) is left out: it is a display-only rendering that depends on Python's `str()` of the items.
- `preorder`, `postorder` and `levelorder` (lines 54-56, 71-77) are left out: they only return `None`.
- `demo_bst` and the `__main__` block (lines 385-456) are left out: they are file reading, random choices, timing and printing.
- `AbstractCollection`, `BSTNode`, `LinkedStack` and `LinkedQueue` are not part of this model, because their source is not available:
  - a node is the `Node` value;
  - the stack of `__iter__` is a sequence with its top first;
  - `isEmpty()` is `size == 0`;
  - `len` is the `size` field.
- LinkedBst.LinkedBST.constructor: loading a `sourceCollection` through the base class is left out, because that code is not available. The constructor always starts empty.
- Items are mathematical integers. Python's ordering of other comparable types and `None` items are left out.
- The source rewrites child links and node data in place. The model rebuilds the same tree value along the walked path instead. Node identity and aliasing are therefore not modelled: no other reference to a node can see a change.
- `__iter__` is a lazy generator. LinkedBst.LinkedBST.Iterate returns the whole sequence it would yield, and does not model a tree mutated during iteration.
- LinkedBst.LinkedBST.IsBalanced uses an integer `ceil(log2(n + 1)) - 1` where the source uses floating-point `log2`. These agree for the counts where `log2` is exact, and floating-point rounding for very large counts is not modelled.
- LinkedBst.LinkedBST.FindNoRec returns `False` on a miss. Python's `False == 0` is not modelled: a found item `0` and a miss are distinct answers here.
- The `UnboundLocalError` fallback of `successor` and `predecessor` is modelled as the starting candidate `None`.
- Python's recursion limit is not modelled. Four helpers recurse on Python's call stack: `find`'s `recurse` (lines 100-108), `add`'s `recurse` (144-156), `inorder`'s `recurse` (62-66) and `height1` (274-286). On a tree deeper than the interpreter's limit, such as the degenerate tree that sorted insertion builds, these raise `RecursionError`. That affects `find`, `__contains__`, `remove` (its `in` test at line 171), `add`, `inorder`, `rebalance` (line 328), `height` and `is_balanced`. In the model, `LinkedBst.LinkedBST.Find`, `Contains`, `Remove`, `Add`, `InOrderItems`, `Rebalance`, `Height` and `IsBalanced` are total and always return a result.

## Findings

| source | as written | input that shows it | evidently intended | confidence | as-written member | corrected member |
|---|---|---|---|---|---|---|
| linkedbst1.py:118-137 | `add_no_recursion` raises `_size` only when the tree was empty; it attaches a node to a non-empty tree without counting it | `add_no_recursion(1)`, then `add_no_recursion(2)`: two nodes, `len` 1. Then `remove(1)` drops the counter to 0, and lines 246-247 clear the root, so `2` is lost | count every insertion, as `add` does at line 165 | high (not executed) | LinkedBst.LinkedBST.AddNoRecursion, exhibited by LinkedBst.CounterLagExample | LinkedBst.LinkedBST.AddNoRecursionCounted |
