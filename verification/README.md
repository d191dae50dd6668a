# TreeNode, modelled in Dafny

`TreeNode<T>` is an intrusive n-ary tree node: an object joins a tree by
inheriting from it, and each node carries three links, to its parent, to its
first child and to its next sibling. Constructing a node under a parent
appends it to the end of the parent's sibling chain. Destroying a childless
node unlinks it. `isRoot` tells whether the parent link is null. `size`
counts the nodes of the node's subtree by running the depth-first iterator
`depthFirstIt` from `begin()` to `end()`. That iterator is a cursor of three
fields: the current node, the origin of the walk and a finished flag.

The model works over handles instead of pointers:

- `Links` holds the data model. An arena snapshot maps each live handle to
  its three links. It also carries the child lists that the sibling chains
  encode, as a ghost abstraction, and the next handle to hand out.
  - `Valid` ties each chain to its child list and each child back to its
    parent. Handles are handed out in construction order, so a parent's
    handle is always smaller than its child's; that is what rules out cycles.
  - `PreOrder` is the reference order: a node, then each child's pre-order in
    chain order.
- `DepthFirst` holds the iterator's state and `Step`, one `operator++` as
  written, as a function. It proves that walking from `begin()` yields the
  pre-order and then reaches `end()`.
- `Lifecycle` holds `Attach` and `Detach`, what the constructor and the
  destructor do to a snapshot, and the invariants they keep or break.
- `TreeNode` is the imperative model:
  - class `Forest` owns the nodes, with `AddNode` (the constructor, including
    its walk to the last sibling), `RemoveNode` (the destructor, including
    its walk to the left sibling), `IsRoot`, `Begin`, `End` and `Size`;
  - class `DepthFirstIt` moves the cursor in place, including the climb loop.
  
  Each method is proved against the matching function of `Lifecycle` or
  `DepthFirst`.
- `Scenarios` rebuilds the two trees of the repository's unit tests and the
  two inputs listed under Findings.

The destructor re-links the remaining nodes only when the destroyed node has
a next sibling (include/TreeNode/TreeNode.h:187-189). Destroying a last child
that is not also the first therefore leaves its left sibling linked to it.
`Lifecycle.Detach` follows the code; `Lifecycle.DetachSpliced` is the
corrected version (see the first finding).

## Model

| member | source | states |
|---|---|---|
| Links.ChainLive | include/TreeNode/TreeNode.h:169-171 | every node reached by following a parent's child link and then sibling links is a live node |
| Links.IndexOf | include/TreeNode/TreeNode.h:192-196 | the position the left-sibling scan stops before: the entry there is the node and no earlier entry is |
| Links.PreOrderMembers | include/TreeNode/TreeNode.h:64-66 | a node occurs in the pre-order of n exactly when following parent links from it reaches n |
| Links.PreOrderDistinct | include/TreeNode/TreeNode.h:77-79 | no node occurs twice in a pre-order |
| Links.SubtreeSize | include/TreeNode/TreeNode.h:64-66 | the pre-order of a node has as many entries as its subtree has nodes |
| Links.RootsDisjoint | include/TreeNode/TreeNode.h:15-16 | two different roots share no node of their subtrees |
| DepthFirst.Equal | include/TreeNode/TreeNode.h:138-143 | two cursors are equal exactly when current node, origin and finished flag all agree |
| DepthFirst.Begin | include/TreeNode/TreeNode.h:161 | begin() is a cursor on the node with the node as origin, and differs from end() of the same node |
| DepthFirst.End | include/TreeNode/TreeNode.h:166 | end() is finished and sits on its origin, the node itself |
| DepthFirst.Step | include/TreeNode/TreeNode.h:95-129 | an increment that does not fault lands on a live node, keeps the origin, sets the finished flag only on the origin, and never clears it |
| DepthFirst.Climb | include/TreeNode/TreeNode.h:115-128 | the climb lands on a live node with the origin kept, and finishes only on the origin |
| DepthFirst.StepChecked | include/TreeNode/TreeNode.h:95-129 | the same guarantees for the increment that tests for the origin before the sibling |
| DepthFirst.Next | include/TreeNode/TreeNode.h:95-129 | one increment, as written or with the origin tested first; when it does not fault it lands on a live node, keeps the origin, sets the finished flag only on the origin and never clears it |
| DepthFirst.AdvanceN | include/TreeNode/TreeNode.h:70-73 | k increments that do not fault keep the origin and land on a live node |
| DepthFirst.SiblingIsLive | include/TreeNode/TreeNode.h:102-105 | a sibling link of a live node leads to a live node with the same parent |
| DepthFirst.ClimbFollowsRest | include/TreeNode/TreeNode.h:115-128 | from a node inside the origin's subtree, the climb reaches the next node of the pre-order, or end() when none is left |
| DepthFirst.StepFollowsPreOrder | include/TreeNode/TreeNode.h:95-129 | on an origin with a child or without a next sibling, one increment moves from a pre-order node to its successor, or to end() after the last |
| DepthFirst.StepCheckedFollowsPreOrder | include/TreeNode/TreeNode.h:95-129 | the checked increment moves to the pre-order successor for every origin |
| DepthFirst.LeafOriginEscapes | include/TreeNode/TreeNode.h:102-111 | from a childless origin with a next sibling, the first increment lands on that sibling, which is outside the origin's subtree |
| DepthFirst.IterateFrom | include/TreeNode/TreeNode.h:95-129 | k increments from a pre-order node reach the node k places later, or end() |
| DepthFirst.IterationIsPreOrder | include/TreeNode/TreeNode.h:161-166 | after k increments from begin() the cursor is on the k-th pre-order node and not finished; after as many increments as the subtree has nodes it equals end() |
| DepthFirst.WalkContinues | include/TreeNode/TreeNode.h:70-73 | a walk from begin() that has not reached end() is inside the pre-order, and its next increment does not fault |
| Lifecycle.Attach | include/TreeNode/TreeNode.h:31-52 | the snapshot after construction: the next handle with null child and sibling links, set as the parent's first child when it had none and otherwise as the sibling of its last child; its properties are stated by the Attach lemmas below |
| Lifecycle.Detach | include/TreeNode/TreeNode.h:174-199 | the snapshot after the destructor as written: a root only goes away, a first child hands over the head, a later child with a next sibling is spliced out, a later last child is left linked; its properties are stated by the Detach lemmas below |
| Lifecycle.DetachSpliced | include/TreeNode/TreeNode.h:174-199 | the destructor with the left sibling re-pointed in every non-first case; its properties are stated by the Spliced lemmas below |
| Lifecycle.AttachKeeps | include/TreeNode/TreeNode.h:31-52 | construction adds one node with null child and sibling; it changes no other parent link, only the parent's child link, and only sibling links among the parent's children |
| Lifecycle.AttachLists | include/TreeNode/TreeNode.h:38-50 | construction appends the new node to the end of its parent's child list and leaves every other list as it was |
| Lifecycle.AttachListsNew | include/TreeNode/TreeNode.h:31-36 | the new node is in exactly its parent's child list, so a node built without a parent is in none |
| Lifecycle.AttachChains | include/TreeNode/TreeNode.h:38-50 | after construction every sibling chain still lists its parent's children in order |
| Lifecycle.AttachValid | include/TreeNode/TreeNode.h:31-52 | construction keeps the links consistent |
| Lifecycle.AttachSubtree | include/TreeNode/TreeNode.h:31-52 | construction under p adds the new node to the subtree of p and its ancestors and of no other node |
| Lifecycle.SplicedKeeps | include/TreeNode/TreeNode.h:174-199 | destruction removes only the node; it changes no parent link, only the parent's child link, and only sibling links among the parent's children |
| Lifecycle.SplicedLists | include/TreeNode/TreeNode.h:183-198 | destruction takes the node out of its parent's child list and changes no other membership |
| Lifecycle.SplicedChains | include/TreeNode/TreeNode.h:183-198 | after a splicing destruction every sibling chain lists its parent's remaining children |
| Lifecycle.DetachSplicedValid | include/TreeNode/TreeNode.h:174-199 | destruction that always re-points the left sibling keeps the links consistent |
| Lifecycle.DetachAgrees | include/TreeNode/TreeNode.h:177-189 | outside the skipped case (last child that is not the first), the destructor as written splices |
| Lifecycle.DetachValid | include/TreeNode/TreeNode.h:174-199 | outside the skipped case, the destructor as written keeps the links consistent |
| Lifecycle.DetachDangles | include/TreeNode/TreeNode.h:187-198 | in the skipped case the left sibling still links to the destroyed node, so the links are inconsistent |
| Lifecycle.DetachKeepsParents | include/TreeNode/TreeNode.h:169 | destruction changes no surviving node's parent link, so isRoot of a node never changes |
| Lifecycle.DetachSubtree | include/TreeNode/TreeNode.h:174-199 | destruction removes the node from the subtree of every other node and changes nothing else there |
| TreeNode.Forest.constructor | include/TreeNode/TreeNode.h:169-171 | an empty forest is consistent |
| TreeNode.Forest.AddNode | include/TreeNode/TreeNode.h:31-52 | the new node gets a fresh handle; the forest becomes the snapshot that construction specifies and stays consistent |
| TreeNode.Forest.LastChild | include/TreeNode/TreeNode.h:45-49 | the walk stops on the last entry of the parent's child list, whose sibling link is null |
| TreeNode.Forest.RemoveNode | include/TreeNode/TreeNode.h:174-199 | the forest becomes the snapshot the destructor as written specifies; it stays consistent outside the skipped case |
| TreeNode.Forest.RemoveNodeSpliced | include/TreeNode/TreeNode.h:174-199 | the forest becomes the spliced snapshot and stays consistent |
| TreeNode.Forest.LeftSibling | include/TreeNode/TreeNode.h:192-196 | the scan stops on the entry just before the node in the child list, whose sibling link is the node |
| TreeNode.Forest.IsRoot | include/TreeNode/TreeNode.h:62 | a node is a root exactly when it is in no child list |
| TreeNode.Forest.Begin | include/TreeNode/TreeNode.h:161 | a new cursor on the node, with the node as origin and not finished |
| TreeNode.Forest.End | include/TreeNode/TreeNode.h:166 | a new cursor on the node, with the node as origin and finished |
| TreeNode.Forest.Size | include/TreeNode/TreeNode.h:67-75 | on an origin with a child or without a next sibling, the count is the number of nodes in the subtree |
| TreeNode.Forest.SizeChecked | include/TreeNode/TreeNode.h:67-75 | with the checked increment, the count is the number of nodes in the subtree, for every node |
| TreeNode.Forest.Count | include/TreeNode/TreeNode.h:69-74 | the loop that increments until equal to end() counts the subtree's nodes |
| TreeNode.Forest.Visit | include/TreeNode/TreeNode.h:70-73 | the nodes an iteration yields, in order, are the pre-order of the subtree |
| TreeNode.DepthFirstIt.constructor | include/TreeNode/TreeNode.h:151 | the cursor starts on the node, with the node as origin |
| TreeNode.DepthFirstIt.Equals | include/TreeNode/TreeNode.h:138-147 | two cursors compare equal exactly when current node, origin and finished flag agree |
| TreeNode.DepthFirstIt.Increment | include/TreeNode/TreeNode.h:95-129 | the cursor moves exactly as one increment specifies; `fault` is the climb reaching a null parent |
| TreeNode.DepthFirstIt.PostIncrement | include/TreeNode/TreeNode.h:131-136 | returns a new cursor equal to the one before the increment, and increments this one |
| Scenarios.BuildFirstTree | tests/TreeNodeTest.cpp:14-17 | root, child1, subChild1 under child1 and child2 give root the child list child1, child2 |
| Scenarios.FirstTreeOrder | tests/TreeNodeTest.cpp:23-25 | in that tree the pre-order of root is root, child1, subChild1, child2, that of child1 is child1, subChild1, and that of subChild1 is itself |
| Scenarios.Instantiation | tests/TreeNodeTest.cpp:12-26 | root.size() is 4, child1.size() is 2, subChild1.size() is 1; only root is a root |
| Scenarios.BuildSecondTree | tests/TreeNodeTest.cpp:30-35 | the six constructions give the child lists the test expects |
| Scenarios.SecondTreeOrder | tests/TreeNodeTest.cpp:37-52 | the pre-order from root is root, child1, subChild1, subChild2, child2, subChild3, and from child1 it is child1, subChild1, subChild2 |
| Scenarios.Iterator | tests/TreeNodeTest.cpp:28-59 | iterating from root and from child1 visits exactly those nodes, each once, in that order |
| Scenarios.DanglingSibling | include/TreeNode/TreeNode.h:187-198 | destroying child2, a last child that is not the first, leaves child1's sibling link on it |
| Scenarios.SplicedSibling | include/TreeNode/TreeNode.h:183-198 | with the splice, child1's sibling link becomes null |
| Scenarios.LeafWithSibling | include/TreeNode/TreeNode.h:102-111 | with root's children a and b, the first increment from a lands on b and the second faults at root's null parent; the checked count of a is 1 |

## Left out

- src/TreeNode.cpp is not part of this model. It is an older, non-template revision that prepends children and only handles the first-child case in its destructor.
- `operator*`, `operator->`, the iterator typedefs, `swap`, the deleted copy and move constructors, and the pure virtual destructor declaration are C++ type mechanics. The model's iterator yields handles, and a node's identity is its handle.
- Memory lifetime: destroying a node removes its handle from the forest. A pointer left on a destroyed node is a link to a handle that is no longer live.
- Handles are handed out in construction order, so a parent's handle is smaller than its child's. Constructing under a parent that does not exist yet is a caller error in the code and is excluded by `AddNode`'s precondition.
- Destroying a node that still has children: `RemoveNode` requires an empty child list, as the header comment at lines 17-19 demands.
- TreeNode.Forest.RemoveNode: requires consistent links, so a second destruction after the skipped case (the rest of the test teardown order) is not modelled.
- TreeNode.Forest.Size: requires an origin with a child or without a next sibling. On any other origin the code walks out of the subtree and dereferences a null parent. `DepthFirst.LeafOriginEscapes` and `Scenarios.LeafWithSibling` show this case.
- The null-parent dereference is undefined behaviour in the code. The model reports it as the `NullParent` outcome, or as `fault` in `DepthFirstIt.Increment`.
- `operator!=` is modelled as the negation of `DepthFirstIt.Equals` in the loop conditions.
- `std::size_t` wrap-around in `size`: the count is an unbounded natural number.
- The tests' gmock expectations (`toCall` counted once per node) are modelled as the sequence of visited nodes.
- Incrementing a finished cursor is a caller error in the code. The model computes what the code does: the flag stays set while the node moves.
- Concurrency is not modelled: the code has none.

## Findings

| source | as written | input that shows it | evidently intended | confidence | as-written member | corrected member |
|---|---|---|---|---|---|---|
| include/TreeNode/TreeNode.h:183-198 | the destructor re-points the left sibling only when the destroyed node has a next sibling | root with children child1, child2 (built in that order); destroy child2, which the Instantiation test does first on teardown | re-point the left sibling to the node's next sibling, null included, whenever the node is not the first child | high (not executed) | Lifecycle.DetachDangles | Lifecycle.DetachSplicedValid |
| include/TreeNode/TreeNode.h:102-111 | `++` tests for a next sibling before testing whether the cursor is the origin | root with children a, b; `a.size()` steps to b, climbs to root and dereferences root's null parent | a childless origin finishes at once, so `a.size()` is 1 | high (not executed) | DepthFirst.LeafOriginEscapes | TreeNode.Forest.SizeChecked |
