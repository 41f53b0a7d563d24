# Left-leaning red-black tree with order statistics

This project models `redblack-tree/include/RedBlackTree.h`. That header implements a sorted set of unique
items as a left-leaning red-black tree, following Sedgewick's design. Each node also counts the items in its
left subtree (`LeftSize`). That counter answers two queries in logarithmic time: "which item is at
position i" (`At`) and "where is item x" (`Find`).

The model is split into these modules:

- `RedBlackNode` (`node.dfy`): the node as a value.
  - `Tree` is `Leaf | Node(colour, leftSize, left, item, right)`. `Leaf` stands for a null
    `unique_ptr`.
  - The colour tests, the in-order items and the item set.
  - The invariants the operations keep:
    - `SizesOk`: every `LeftSize` is exact.
    - `Ordered`: the items are strictly increasing in order.
    - `Balanced`: every path has the same number of black links.
    - `Llrb`: no red right link and no two reds in a row.
    - `RootShape`: the looser shape allowed at the top, whose colour the source never resets.
- `Balancing` (`balancing.dfy`): `SwitchColours`, `MoveRedUp`, `RotateLeft`, `RotateRight`,
  `Fixup`, `MoveRedLeft`, `MoveRedRight`.
  - Each is a function from the subtree in a slot to the subtree the slot holds afterwards.
  - The functions' contracts state that items and counters are kept.
  - Lemmas state what each does to colours and black heights where `Insert` and `Delete` apply it.
- `Mutation` (`mutation.dfy`): `Node::Insert`, `Node::Delete` and `Node::DeleteMin` as recursive
  methods.
  - Each returns the new subtree and the success flag.
  - `Delete` keeps the source's loop to the successor (the leftmost node of the right subtree).
  - Its in-place write of the successor's item is the function `SetMin`.
  - Each method is proved against a predicate (`Inserted`, `Deleted`, `MinDeleted`). The predicate states:
    - the item set after the call;
    - the success flag, in both directions;
    - the size;
    - all the invariants;
    - the black height seen from the parent.
- `Queries` (`queries.dfy`): `Node::Find`, `Node::At` and `Node::Contains` as functions over the tree.
  - They are related to the sorted sequence of items.
  - `Find`'s rank is computed exactly as the source computes it. That includes the `(size_t)-1` sentinel
    and the 64-bit wrap-around of `size_t` arithmetic.
  - A corrected rank is also given (see Findings).
- `Invariants` (`invariants.dfy`): `RedBlackTree::CheckInvariants` as predicates following its walk. It
  is proved to hold on every tree the operations produce.
- `Container` (`container.dfy`): `class RedBlackTree`, with the fields `root` (`m_root`) and
  `treeSize` (`m_treeSize`).
  - Its mutators modify the object.
  - Its queries leave it unchanged and state their result in terms of `Items()`, the sorted sequence of
    the tree's items.

Items are modelled as `int` with the usual order, and the shared default item is `0`.

## Model

| member | source | states |
|---|---|---|
| Balancing.SwitchColours | redblack-tree/include/RedBlackTree.h:86-99 | the top colour is flipped; a child turns red exactly when it exists and was black; items and LeftSize counters are unchanged |
| Balancing.SwitchColoursTwice | redblack-tree/include/RedBlackTree.h:86-99 | switching colours twice restores the subtree |
| Balancing.MoveRedUp | redblack-tree/include/RedBlackTree.h:78-84 | afterwards the two children are not both red; items and counters are unchanged |
| Balancing.RotateLeft | redblack-tree/include/RedBlackTree.h:171-192 | same in-order items; the two nodes swap colours; the new top's LeftSize is the old right child's LeftSize plus the old top's plus one; counters stay exact |
| Balancing.RotateRight | redblack-tree/include/RedBlackTree.h:194-214 | same in-order items; colours swap; the demoted node's LeftSize loses the new top's LeftSize plus one; counters stay exact |
| Balancing.RotateRightUndoesRotateLeft | redblack-tree/include/RedBlackTree.h:171-214 | a right rotation undoes a left rotation |
| Balancing.Fixup | redblack-tree/include/RedBlackTree.h:155-169 | items and counters are kept |
| Balancing.MoveRedLeft | redblack-tree/include/RedBlackTree.h:216-226 | items and counters are kept |
| Balancing.MoveRedRight | redblack-tree/include/RedBlackTree.h:228-237 | items and counters are kept |
| Balancing.RotateLeftKeepsBalance | redblack-tree/include/RedBlackTree.h:171-192 | rotating over a red right link keeps every path's black count and the black height |
| Balancing.RotateRightKeepsBalance | redblack-tree/include/RedBlackTree.h:194-214 | rotating over a red left link keeps every path's black count and the black height |
| Balancing.SwitchColoursKeepsBalance | redblack-tree/include/RedBlackTree.h:86-99 | splitting a node with two red children keeps the balance and raises its black height by one |
| Balancing.FixupBalance | redblack-tree/include/RedBlackTree.h:155-169 | where Insert and Delete apply it, Fixup returns a balanced subtree with no red right link and no red pair below the top; the top's colour and the parent's view of the black height change exactly when a 4-node is split |
| Balancing.RotateRightBalance | redblack-tree/include/RedBlackTree.h:298-301 | Delete's right rotation of a red left child gives a left-leaning left side and a red right child, with the same black height |
| Balancing.MoveRedLeftBalance | redblack-tree/include/RedBlackTree.h:216-226 | on a 2-node left child, MoveRedLeft leaves a left child that is red or has a red left child; it gives the colours and black height of both of its cases |
| Balancing.MoveRedRightBalance | redblack-tree/include/RedBlackTree.h:228-237 | on a 2-node right child, MoveRedRight leaves a red right child or a right child with a red right child; it gives the colours, black height and top item of both cases |
| Mutation.InsertIntoLeaf | redblack-tree/include/RedBlackTree.h:250-254 | a new red node with LeftSize 0 is a valid one-item tree that adds the item |
| Mutation.InsertPresent | redblack-tree/include/RedBlackTree.h:242-245 | inserting an item already at the node reports failure and changes nothing |
| Mutation.AddedLeft | redblack-tree/include/RedBlackTree.h:248-259 | inserting into the left child adds the item to the subtree; LeftSize grows by one exactly when it was new; order and counters stay exact |
| Mutation.AddedRight | redblack-tree/include/RedBlackTree.h:261-271 | inserting into the right child adds the item to the subtree, with LeftSize unchanged |
| Mutation.InsertLeftShape | redblack-tree/include/RedBlackTree.h:248-273 | after inserting on the left, Fixup restores the shape and keeps the parent's black height |
| Mutation.InsertRightShape | redblack-tree/include/RedBlackTree.h:261-273 | after inserting on the right, Fixup restores the shape and keeps the parent's black height |
| Mutation.InsertLeftStep | redblack-tree/include/RedBlackTree.h:248-274 | the left branch of Insert meets Insert's postcondition when the recursive call met it |
| Mutation.InsertRightStep | redblack-tree/include/RedBlackTree.h:261-274 | the right branch of Insert meets Insert's postcondition when the recursive call met it |
| Mutation.Insert | redblack-tree/include/RedBlackTree.h:239-275 | the result is a valid tree holding the old items plus x; it reports insertion exactly when x was absent; the size grows by that; the black height and the left-leaning shape are kept as the parent needs |
| Mutation.SetMin | redblack-tree/include/RedBlackTree.h:320-321 | overwriting the leftmost item replaces the first in-order item and nothing else; colours, counters and shape are unchanged |
| Mutation.PrepareLeft | redblack-tree/include/RedBlackTree.h:337-340 | borrowing a red link for a 2-node left child keeps items and counters |
| Mutation.DeleteMinPrepared | redblack-tree/include/RedBlackTree.h:337-345 | after MoveRedLeft, a node without a left child is a red leaf whose removal meets DeleteMin's postcondition; otherwise the left child may recurse |
| Mutation.MinRemovedLeft | redblack-tree/include/RedBlackTree.h:349-352 | removing the first item on the left and decrementing LeftSize removes the subtree's first item, with counters exact |
| Mutation.DeleteMinStepShape | redblack-tree/include/RedBlackTree.h:349-354 | after DeleteMin's recursion, Fixup gives a left-leaning subtree with the parent's black height, not red if the input was not |
| Mutation.DeleteMinStep | redblack-tree/include/RedBlackTree.h:347-354 | the recursive branch of DeleteMin meets DeleteMin's postcondition |
| Mutation.DeleteMin | redblack-tree/include/RedBlackTree.h:334-355 | always succeeds; removes exactly the first in-order item; keeps counters, balance, left-leaning shape and black height |
| Mutation.SuccessorSwap | redblack-tree/include/RedBlackTree.h:314-323 | replacing an item by its successor and dropping the successor keeps the items sorted and removes exactly that item |
| Mutation.MoveRedLeftTop | redblack-tree/include/RedBlackTree.h:286-291 | MoveRedLeft never brings a smaller item to the top, so an item below the top stays on the left |
| Mutation.DeleteLeftPrepared | redblack-tree/include/RedBlackTree.h:286-293 | after the left-side preparation, the item is still below the top and the left child is ready for the recursion |
| Mutation.RemovedLeft | redblack-tree/include/RedBlackTree.h:293-294 | deleting from the left child removes the item from the subtree; LeftSize drops by one exactly when it was present |
| Mutation.RemovedRight | redblack-tree/include/RedBlackTree.h:325-327 | deleting from the right child removes the item from the subtree, with LeftSize unchanged |
| Mutation.DeleteLeftShape | redblack-tree/include/RedBlackTree.h:286-331 | after deleting on the left, Fixup restores the shape and black height the parent needs |
| Mutation.DeleteLeftStep | redblack-tree/include/RedBlackTree.h:286-331 | the left branch of Delete meets Delete's postcondition when the recursive call met it |
| Mutation.LeanRight | redblack-tree/include/RedBlackTree.h:298-301 | turning a red left link right keeps items and counters |
| Mutation.LeanRightShape | redblack-tree/include/RedBlackTree.h:298-301 | after LeanRight, the children are left-leaning and a red right child sits under a black top |
| Mutation.DeleteFound | redblack-tree/include/RedBlackTree.h:303-307 | a matching node with no right child is a red leaf; dropping it meets Delete's postcondition |
| Mutation.PrepareRight | redblack-tree/include/RedBlackTree.h:309-312 | borrowing a red link for a 2-node right child keeps items and counters |
| Mutation.DeleteRightPrepared | redblack-tree/include/RedBlackTree.h:309-326 | after MoveRedRight, either the top holds the item and has a right child to take the successor from, or the right child is ready for the recursion |
| Mutation.DeleteRightShape | redblack-tree/include/RedBlackTree.h:314-331 | after deleting on the right or taking the successor, Fixup restores the shape and black height |
| Mutation.DeleteRightStep | redblack-tree/include/RedBlackTree.h:325-331 | the right recursion of Delete meets Delete's postcondition |
| Mutation.DeleteSuccessorStep | redblack-tree/include/RedBlackTree.h:314-331 | replacing the top's item by its successor and deleting the right subtree's minimum meets Delete's postcondition, with success |
| Mutation.Delete | redblack-tree/include/RedBlackTree.h:277-332 | the result holds the old items minus x; it reports deletion exactly when x was present; counters, order and balance are exact; the shape and black height are kept for every subtree the descent enters |
| Queries.SizeT | redblack-tree/include/RedBlackTree.h:376-377 | size_t arithmetic: a value below 2^64, equal to its argument when that fits |
| Queries.Find | redblack-tree/include/RedBlackTree.h:357-380 | as written: the rank is a size_t; the item is x or the default item |
| Queries.FindWraps | redblack-tree/include/RedBlackTree.h:360-378 | Find's rank is the unbounded rank sum reduced modulo 2^64 |
| Queries.FindItem | redblack-tree/include/RedBlackTree.h:357-380 | Find returns x itself when x is in the tree and the default item otherwise |
| Queries.UnwrappedRank | redblack-tree/include/RedBlackTree.h:357-380 | the unbounded rank sum is the number of items below x minus the number of right turns on the search path, starting from (size_t)-1 when x is absent |
| Queries.FindRank | redblack-tree/include/RedBlackTree.h:357-380 | Find's rank is that difference taken modulo 2^64 |
| Queries.FindPresent | redblack-tree/include/RedBlackTree.h:365-377 | for an item in the tree, Find returns the item and a rank that is not the sentinel; rank plus right turns is the item's in-order index |
| Queries.FindCorrected | redblack-tree/include/RedBlackTree.h:357-380 | corrected Find: the sentinel passes up unchanged, and a right turn adds LeftSize + 1 |
| Queries.FindCorrectedSpec | redblack-tree/include/RedBlackTree.h:357-380 | a present item gets its in-order index and itself; an absent one gets (size_t)-1 and the default item |
| Queries.At | redblack-tree/include/RedBlackTree.h:382-403 | the result is an item of the tree or the default item |
| Queries.AtIsIndex | redblack-tree/include/RedBlackTree.h:382-403 | At returns the item at in-order position index, or the default item past the end |
| Queries.FindCorrectedInvertsAt | redblack-tree/include/RedBlackTree.h:357-403 | corrected Find and At are inverse: At returns a present item from its corrected rank, and corrected Find returns index i for the item At gives at every index i in range |
| Queries.Contains | redblack-tree/include/RedBlackTree.h:405-426 | a positive answer names an item of the tree |
| Queries.ContainsIsMembership | redblack-tree/include/RedBlackTree.h:405-426 | Contains is true exactly when the item is in the tree |
| Queries.FindRankOffByOne | redblack-tree/include/RedBlackTree.h:376-377 | as written, Find gives the largest of three items rank 1 while its index is 2; the corrected Find gives 2 |
| Queries.FindSentinelWraps | redblack-tree/include/RedBlackTree.h:360-378 | as written, an item above all three items gets rank 0 because the sentinel wraps around; the corrected Find returns the sentinel |
| Invariants.LlrbPassesRedRules | redblack-tree/include/RedBlackTree.h:587-616 | a left-leaning subtree has no red node with a red child and no lone red right child |
| Invariants.BalancedLeafDepths | redblack-tree/include/RedBlackTree.h:594-628 | in a balanced subtree, every childless node, including the first one the walk meets, has the same black depth |
| Invariants.ValidPassesCheck | redblack-tree/include/RedBlackTree.h:562-632 | every valid tree passes the check's walk, which the predicate `Invariants.CheckInvariants` restates as recursion over the tree |
| Invariants.CheckAcceptsFourNode | redblack-tree/include/RedBlackTree.h:562-632 | CheckInvariants is weaker than the shape the operations keep: a black node with two red children passes it |
| Container.RedBlackTree.constructor | redblack-tree/include/RedBlackTree.h:432-435 | an empty, valid tree of size 0 |
| Container.RedBlackTree.Insert | redblack-tree/include/RedBlackTree.h:437-467 | the tree stays valid and passes CheckInvariants; x is added; the result says whether x was new; the size grows by one exactly then |
| Container.RedBlackTree.Delete | redblack-tree/include/RedBlackTree.h:469-484 | the tree stays valid and passes CheckInvariants; x is removed; the result says whether x was present; the size drops by one exactly then |
| Container.RedBlackTree.DeleteAt | redblack-tree/include/RedBlackTree.h:486-490 | removes the item at the index, or the default item when the index is past the end; the result says whether an item was removed and the size drops by one exactly then; always succeeds for an index in range; the tree stays valid and passes CheckInvariants |
| Container.RedBlackTree.Clear | redblack-tree/include/RedBlackTree.h:492-501 | the tree is empty and valid |
| Container.RedBlackTree.Find | redblack-tree/include/RedBlackTree.h:504-508 | uses the corrected rank: a present item's in-order index and the item; the sentinel and the default item otherwise |
| Container.RedBlackTree.At | redblack-tree/include/RedBlackTree.h:510-514 | the item at the index, or the default item past the end |
| Container.RedBlackTree.Contains | redblack-tree/include/RedBlackTree.h:516-520 | true exactly when the item is in the tree |
| Container.RedBlackTree.Empty | redblack-tree/include/RedBlackTree.h:522-526 | true exactly when the tree has no items |
| Container.RedBlackTree.Size | redblack-tree/include/RedBlackTree.h:528-532 | the number of items |
| Container.RedBlackTree.CheckInvariants | redblack-tree/include/RedBlackTree.h:562-632 | returns the verdict of the predicate `Invariants.CheckInvariants`, which carries the walk; proved always true |

## Left out

- Ownership and in-place update: the `unique_ptr` slots and their in-place rewriting are modelled on values.
  - Each Node operation returns the subtree its slot holds afterwards.
  - The one write through a raw pointer (`rightMin->Item = item`) is `Mutation.SetMin`.
  - Aliasing between slots is not modelled because the source has none.
  - `DeleteAt` hands `Delete` a reference to the found node's own item rather than a copy.
    - When the found node takes its successor's item (line 320), the reference then reads the successor, so
      line 321 writes the successor into `rightMin` instead of the removed item.
    - When the found node is removed directly (line 305), the referent is freed and not read again.
    - The model passes the item by value. The resulting tree is the same, because `rightMin` is the node that
      `DeleteMin` removes next.
- Integer width: `size_t` width is modelled only in `Find`'s rank, where wrap-around changes the answer. Elsewhere, counters and sizes are unbounded, because no tree can hold 2^64 items.
- Items are `int` rather than any `Comparable` type, and the shared default item is `0`.
  - The default is one shared object in the source. Its sharing does not matter to the model, because no operation writes to it.
- `CheckContent`, the `m_reference` sorted vector, `DumpTreeToFile`, `printf` diagnostics and the compile-time switches are not modelled. They are debugging aids over I/O and a second copy of the contents. The contents are stated directly by `Items()` instead.
- The tests, fuzzer and benchmark programs are not part of this model.
- Container.RedBlackTree.Find: its postcondition is stated only for trees with fewer than 2^64 - 1 items. With that many items, a genuine rank could coincide with the sentinel.
- Container.RedBlackTree.Find: it returns the corrected rank (see Findings), not the rank `Node::Find` computes. `Queries.Find` models that computation as written.
- Container.RedBlackTree.DeleteAt: an index past the end is modelled as the source behaves. `At` yields the default item, which is then deleted if the tree holds it.
- Container.RedBlackTree.Insert: `treeSize` is `nat`; the `size_t` counter cannot overflow for a tree that fits in memory.
- The root's colour is left unconstrained, as in the source, which never makes the root black.

## Findings

| source | as written | input that shows it | evidently intended | confidence | as-written member | corrected member |
|---|---|---|---|---|---|---|
| redblack-tree/include/RedBlackTree.h:376-377 | on a right turn the rank grows by the node's LeftSize only, missing the node itself, so a rank is the in-order index minus the number of right turns | valid tree with root b (LeftSize 1), left child a, right child c, for a < b < c: `Find(c)` gives rank 1, but c is at index 2 | a right turn adds LeftSize + 1, so that `Find(At(i)).rank == i` | high; not executed | Queries.FindRankOffByOne | Queries.FindCorrected |
| redblack-tree/include/RedBlackTree.h:360-378 | the (size_t)-1 sentinel of an absent item is added to on the way back up, so it wraps around to a small rank | the same tree and any d > c: `Find(d)` gives rank 0 and the default item, as if d were at index 0 | an absent item reports (size_t)-1 whatever path it took | high; not executed | Queries.FindSentinelWraps | Queries.FindCorrected |
