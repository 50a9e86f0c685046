# Conjoined twin tree, modelled in Dafny

A conjoined twin tree is two rooted hierarchies over one set of leaves. Root 1 heads the
row axis and root 2 the column axis. Branches hang under a root or under another branch of
the same axis. Every leaf has one parent branch in each axis, and both parents list it
among their children. Each branch caches "accumulated values": the visible leaves beneath
it, grouped by their parent in the other axis and folded by a caller-supplied accumulator.
A `updated` (dirty) flag tells a branch to recompute that cache.

The model covers both source directories. The variant directory stores one `value` per
node; the original directory splits it into a branch value and a leaf value, with
`getBranchValue`/`getLeafValue` returning null for the wrong kind. Both run the same
algorithms, so one model serves both. The table cites the variant. The original directory's counterparts
are `AbstractNode.java` lines 69-213, `BranchNode.java` lines 55-209 and `LeafNode.java` lines
50-195 under `java/conjoined-twin-tree`. Their method bodies differ from the variant's only in generic typing,
which the model abstracts away. The two value getters are the exception, and they have rows of
their own. That directory's `ConjoinedTwinTree.java` is not part of this model.

- `nodes.dfy` (`TreeNodes`): node records in an arena `map<NodeId, Node>`. A node id stands
  for a Java object identity. `Wf` is the well-formedness invariant: every node in a
  children list names the list's owner as its parent (a leaf, as one of its two parents); a
  branch's parent is a root or a branch with a smaller id; a leaf's two parents are branches
  of different axes that list it both or neither; children lists are duplicate-free and of
  one kind; ids grow downwards, which gives acyclicity and every termination measure. A
  branch's parent need not list it: delete takes nodes out of the lists and leaves them in
  the arena, detached, as the Java objects outlive it.
- `delete_marks.dfy` (`DeleteMarks`): the `updated` flags delete sets, node by node outside
  the subtree of the deleted node.
- `arena.dfy` (`Arena`): class `NodeArena` holds `nodes` and `next`. Its methods are the
  node operations of `AbstractNode`, `BranchNode` and `LeafNode`: addBranch ×2, addLeaf ×2,
  delete, sort, setVisible, setUpdated, getParents, getParents1/2 and getAccumulatedValues.
  A Java method called on node `p` becomes a method taking `p`. An exception becomes an
  `Err` result.
- `dirty.dfy`, `pruning.dfy`, `accumulation.dfy`, `lineage.dfy`: the specifications those
  methods are proved against. They cover what setUpdated marks, what delete removes, what
  the cache holds, and what the ancestry lists are.
- `facade.dfy` (`Facade`): class `ConjoinedTwinTree`, the façade over one arena. It has
  search, filter (with its cascading hide), the level-indexed sort, and
  sortLeafsAndTraverse.
- Specifications behind the façade:
  - `search.dfy`, `filtering.dfy`, `filter_laws.dfy`: search and filter;
  - `level_sort.dfy`, `stable_sort.dfy`: sorting;
  - `traversal.dfy`, `linked_maps.dfy`: traverseBranches, traverseLeafs and
    getSortedBranches.

Where the prose description of the library and the code disagree, the model follows the
code:
- Deleting a root is not an error. A root is invisible and is never in a children list, so
  `delete` returns it unchanged.
- Setting the visibility of a branch (as a branch filter does) marks nothing dirty. Only a
  leaf's `setVisible` calls setUpdated.

## Model

| member | source | states |
|---|---|---|
| Arena.NodeArena.constructor | java/conjoined-twin-tree-variant/src/main/java/com/workday/collections/BranchNode.java:53-55 | the two roots: no value, invisible, no parent, no children, ids 0 and 1 |
| Facade.ConjoinedTwinTree.constructor | java/conjoined-twin-tree-variant/src/main/java/com/workday/collections/ConjoinedTwinTree.java:93-96 | a new tree is exactly the two invisible, childless roots over a fresh arena |
| Arena.NodeArena.AddBranch | java/conjoined-twin-tree-variant/src/main/java/com/workday/collections/AbstractNode.java:83-88 | a leaf `p` refuses (Unsupported, nothing changes); otherwise the one new node is a visible childless branch whose parent is `p`, appended to `p`'s children, with ancestry `p`'s plus itself |
| Arena.NodeArena.AddBranchAt | java/conjoined-twin-tree-variant/src/main/java/com/workday/collections/AbstractNode.java:91-96 | as AddBranch but placed at `index`; an index outside 0..size is IndexOutOfBounds with nothing changed |
| Arena.SproutShape | java/conjoined-twin-tree-variant/src/main/java/com/workday/collections/AbstractNode.java:83-96 | addBranch adds exactly one node, `NewBranch(value, p)`, and changes no node but `p` |
| Arena.SproutOrder | java/conjoined-twin-tree-variant/src/main/java/com/workday/collections/AbstractNode.java:91-96 | the new branch sits at the index and the other children keep their relative order |
| Arena.SproutWf | java/conjoined-twin-tree-variant/src/main/java/com/workday/collections/AbstractNode.java:83-96 | adding a branch where branches may go keeps the arena well-formed |
| Arena.NodeArena.AddLeaf | java/conjoined-twin-tree-variant/src/main/java/com/workday/collections/AbstractNode.java:99-109 | a leaf `p` refuses; otherwise a visible leaf with parent1 `p` and parent2 `other` is appended to both lists, and with `updated` both parents' top-level subtrees are marked, else no flag changes |
| Arena.NodeArena.AddLeafAt | java/conjoined-twin-tree-variant/src/main/java/com/workday/collections/AbstractNode.java:112-125 | as AddLeaf, placed at `index` in `p`'s list and appended in `other`'s; a bad index is IndexOutOfBounds with nothing changed |
| Arena.NodeArena.MarkIfUpdated | java/conjoined-twin-tree-variant/src/main/java/com/workday/collections/AbstractNode.java:103-106 | the two setUpdated calls happen exactly when `updated` is set |
| Arena.AttachShape | java/conjoined-twin-tree-variant/src/main/java/com/workday/collections/AbstractNode.java:99-125 | addLeaf adds exactly one node, `NewLeaf(value, p, other)`, appended to `other`'s children; no other node changes |
| Arena.AttachOrder | java/conjoined-twin-tree-variant/src/main/java/com/workday/collections/AbstractNode.java:112-125 | the new leaf sits at the index of `p`'s list and the other children keep their order |
| Arena.AttachWf | java/conjoined-twin-tree-variant/src/main/java/com/workday/collections/AbstractNode.java:99-125 | adding a leaf under two leaf-holding branches of different axes keeps the arena well-formed |
| Arena.NodeArena.SetVisible | java/conjoined-twin-tree-variant/src/main/java/com/workday/collections/AbstractNode.java:74-80 | a branch only changes its visibility; a leaf first marks what setUpdated marks for both parents |
| Arena.NodeArena.SetUpdated | java/conjoined-twin-tree-variant/src/main/java/com/workday/collections/AbstractNode.java:197-212 | the arena becomes the old one with exactly `DirtySet(b)` flagged |
| Arena.NodeArena.SetUpdatedBoth | java/conjoined-twin-tree-variant/src/main/java/com/workday/collections/AbstractNode.java:76-77 | two setUpdated calls flag the union of the two dirty sets |
| Arena.MarkFrom | java/conjoined-twin-tree-variant/src/main/java/com/workday/collections/AbstractNode.java:202-211 | the breadth-first loop flags exactly the nodes reachable from `top` when expanding only nodes whose first child is a branch |
| Dirtying.DirtySetIsSubtree | java/conjoined-twin-tree-variant/src/main/java/com/workday/collections/AbstractNode.java:197-212 | setUpdated(b) marks a node iff it lies in the top-level subtree above `b`, reached through children lists |
| Dirtying.MarkUpdatedStructure | java/conjoined-twin-tree-variant/src/main/java/com/workday/collections/BranchNode.java:112-114 | setting flags changes no structure: same ids, values, parents and children |
| Dirtying.MarkUpdatedTwice | java/conjoined-twin-tree-variant/src/main/java/com/workday/collections/AbstractNode.java:103-106 | flagging one set and then another is flagging their union |
| Dirtying.DirtySetSameStructure | java/conjoined-twin-tree-variant/src/main/java/com/workday/collections/AbstractNode.java:197-212 | what setUpdated marks depends only on structure, not on flags or visibility |
| Lineage.TopOfIsFirst | java/conjoined-twin-tree-variant/src/main/java/com/workday/collections/AbstractNode.java:198-200 | the top-level branch setUpdated starts from is the first element of `b`'s ancestry, sits directly under a root, and is its own whole ancestry |
| Arena.NodeArena.GetParents | java/conjoined-twin-tree-variant/src/main/java/com/workday/collections/BranchNode.java:189-199 | the ancestry of `b`'s parent: empty iff the parent is a root, else a parent chain from a top-level branch down to the parent |
| Arena.NodeArena.GetParents1 | java/conjoined-twin-tree-variant/src/main/java/com/workday/collections/LeafNode.java:118-128 | the parent chain from a top-level branch down to parent1 inclusive |
| Arena.NodeArena.GetParents2 | java/conjoined-twin-tree-variant/src/main/java/com/workday/collections/LeafNode.java:135-145 | the same for parent2 |
| Arena.NodeArena.ParentsFrom | java/conjoined-twin-tree-variant/src/main/java/com/workday/collections/BranchNode.java:190-198 | the backtracking loop returns the ancestry |
| Lineage.AncestryIsChain | java/conjoined-twin-tree-variant/src/main/java/com/workday/collections/BranchNode.java:189-199 | an ancestry starts at a top-level branch and each element is the parent of the next |
| Lineage.ChainIsAncestry | java/conjoined-twin-tree-variant/src/main/java/com/workday/collections/BranchNode.java:189-199 | any such chain ending at `x` is the ancestry of `x` (uniqueness) |
| Arena.NodeArena.AccumulatedValues | java/conjoined-twin-tree-variant/src/main/java/com/workday/collections/BranchNode.java:135-182 | a stale branch (updated, or empty cache) gets its cache recomputed as `Accumulate` and the flag cleared; otherwise nothing changes; the answer is the cached value for `o`, or none |
| Accumulation.Collect | java/conjoined-twin-tree-variant/src/main/java/com/workday/collections/BranchNode.java:158-175 | the queue loop builds exactly the groups `GroupsOf(b)` |
| Accumulation.GatherMembers | java/conjoined-twin-tree-variant/src/main/java/com/workday/collections/BranchNode.java:161-175 | the loop neither misses nor invents a leaf: `l` ends in group `o` iff it was there or a queued pair yields it |
| Accumulation.GatherNonEmpty | java/conjoined-twin-tree-variant/src/main/java/com/workday/collections/BranchNode.java:147-155 | no group the loop creates is empty |
| Accumulation.YieldsFromBranch | java/conjoined-twin-tree-variant/src/main/java/com/workday/collections/BranchNode.java:164-173 | what the children of `b` yield is exactly what `Grouped` describes: visible leaves under visible non-leaves reached from `b` |
| Accumulation.GroupsOfMembers | java/conjoined-twin-tree-variant/src/main/java/com/workday/collections/BranchNode.java:142-175 | group `o` holds exactly the grouped leaves, and exists iff some leaf is grouped under `o` |
| Accumulation.AccumulateMeaning | java/conjoined-twin-tree-variant/src/main/java/com/workday/collections/BranchNode.java:176-181 | the cache has a key `o` iff a visible reachable leaf has `o` as its other parent, and its value is the accumulator applied to that group and `o`; the group lists each leaf grouped under `o` exactly once; absence means an empty intersection |
| Accumulation.AccumulateAgain | java/conjoined-twin-tree-variant/src/main/java/com/workday/collections/BranchNode.java:137-141 | a second call right after a recompute answers from the cache and changes nothing |
| Accumulation.GatherNoDup | java/conjoined-twin-tree-variant/src/main/java/com/workday/collections/BranchNode.java:158-175 | from pairwise unrelated queued nodes, the loop adds no leaf to a group twice |
| Accumulation.GroupsOfNoDup | java/conjoined-twin-tree-variant/src/main/java/com/workday/collections/BranchNode.java:142-175 | no group lists a leaf twice, although a leaf can be reached by more than one path |
| Accumulation.GatherSameView | java/conjoined-twin-tree-variant/src/main/java/com/workday/collections/BranchNode.java:161-175 | the walk depends only on structure and visibility, not on flags or caches |
| Accumulation.FedLeafDirties | java/conjoined-twin-tree-variant/src/main/java/com/workday/collections/AbstractNode.java:74-80 | when a leaf a branch's walk may meet changes, setUpdated on its parents flags that branch, so its cache is recomputed on the next read |
| Accumulation.FeedsSameTop | java/conjoined-twin-tree-variant/src/main/java/com/workday/collections/AbstractNode.java:197-212 | the walk from a branch stays in its top-level subtree |
| Accumulation.Group | java/conjoined-twin-tree-variant/src/main/java/com/workday/collections/BranchNode.java:147-155 | `compute` adds leaf `l` at the end of group `o` and touches no other group |
| Accumulation.Fold | java/conjoined-twin-tree-variant/src/main/java/com/workday/collections/BranchNode.java:176-177 | one cached value per group key |
| Arena.NodeArena.SortChildren | java/conjoined-twin-tree-variant/src/main/java/com/workday/collections/AbstractNode.java:173-175 | a leaf `p` refuses; otherwise only `p`'s list changes, to the stable sort of it by the comparator |
| Arena.SortedChildren | java/conjoined-twin-tree-variant/src/main/java/com/workday/collections/AbstractNode.java:173-175 | with a comparator obeying its contract the list ends sorted, is a permutation, and keeps the order of equivalent children |
| Arena.SortChildrenWf | java/conjoined-twin-tree-variant/src/main/java/com/workday/collections/AbstractNode.java:173-175 | replacing a list by a permutation of it keeps the arena well-formed |
| Arena.ByItemPreorder | java/conjoined-twin-tree-variant/src/main/java/com/workday/collections/AbstractNode.java:173-175 | a comparator that is a total preorder on items orders node ids by a total preorder |
| StableSort.Sort | java/conjoined-twin-tree-variant/src/main/java/com/workday/collections/AbstractNode.java:174 | the sort returns a permutation of its input |
| StableSort.SortSorted | java/conjoined-twin-tree-variant/src/main/java/com/workday/collections/AbstractNode.java:174 | the result is in non-decreasing order |
| StableSort.SortStable | java/conjoined-twin-tree-variant/src/main/java/com/workday/collections/AbstractNode.java:174 | elements equivalent to any `x` keep their relative order |
| StableSort.SortOfSorted | java/conjoined-twin-tree-variant/src/main/java/com/workday/collections/AbstractNode.java:174 | a sorted list is left unchanged |
| StableSort.SortIdempotent | java/conjoined-twin-tree-variant/src/main/java/com/workday/collections/AbstractNode.java:174 | sorting twice equals sorting once |
| StableSort.SortCongruent | java/conjoined-twin-tree-variant/src/main/java/com/workday/collections/AbstractNode.java:174 | two orders that agree on every pair sort alike |
| Arena.NodeArena.Delete | java/conjoined-twin-tree-variant/src/main/java/com/workday/collections/AbstractNode.java:128-130 | a leaf `p` refuses; otherwise the result is `d`; nothing changes unless `d` is visible and listed under `p`; then `Doomed(d)` leaves every list, every node not beneath `d` ends exactly as in `AfterDelete`: pruned, and flagged iff setUpdated of a parent of a removed leaf marks it; beneath `d` flags are only set; a leaf `d` gives exactly its two parents' marks and leaves both lists |
| Arena.NodeArena.DeleteFrom | java/conjoined-twin-tree-variant/src/main/java/com/workday/collections/AbstractNode.java:140-170 | the same for the protected delete(parent, node) |
| Arena.NodeArena.DeleteBranch | java/conjoined-twin-tree-variant/src/main/java/com/workday/collections/AbstractNode.java:143-151 | a visible branch listed under `p`: the arena pruned of `Doomed(d)` with only flags added, and exactly `AfterDelete(Doomed(d))` at every node not beneath `d` |
| Arena.NodeArena.DeleteChildren | java/conjoined-twin-tree-variant/src/main/java/com/workday/collections/AbstractNode.java:145-150 | the loop over a copy of the children removes what deleting each child removes, and is exact outside the subtree of `d` |
| Arena.NodeArena.DeleteNth | java/conjoined-twin-tree-variant/src/main/java/com/workday/collections/AbstractNode.java:148 | one round extends the removed set by what deleting that child removes, keeping the arena exact outside the subtree of `d` |
| Arena.NodeArena.DeleteLeaf | java/conjoined-twin-tree-variant/src/main/java/com/workday/collections/AbstractNode.java:153-163 | the arena is marked for the leaf's two parents, then the leaf leaves both lists; that is `AfterDelete` of the leaf |
| DeleteMarks.LeafMarks | java/conjoined-twin-tree-variant/src/main/java/com/workday/collections/AbstractNode.java:158-159 | removing a leaf marks what setUpdated marks for its two parents |
| DeleteMarks.NoLeafNoMarks | java/conjoined-twin-tree-variant/src/main/java/com/workday/collections/AbstractNode.java:143-151 | removing a branch from its parent's list marks nothing |
| DeleteMarks.LeafExact | java/conjoined-twin-tree-variant/src/main/java/com/workday/collections/AbstractNode.java:153-163 | marking both parents and then removing the leaf from every list is `AfterDelete` of the leaf, at every node |
| DeleteMarks.ExactCompose | java/conjoined-twin-tree-variant/src/main/java/com/workday/collections/AbstractNode.java:145-150 | pruning one more set and marking what its leaves mark, on an arena exact at `x`, is exact at `x` for the union |
| DeleteMarks.DirtyOutside | java/conjoined-twin-tree-variant/src/main/java/com/workday/collections/AbstractNode.java:197-211 | after nodes beneath `d` leave their lists, setUpdated marks a node outside the subtree of `d` iff it did before |
| DeleteMarks.SubtreeOutside | java/conjoined-twin-tree-variant/src/main/java/com/workday/collections/AbstractNode.java:197-211 | a node outside the subtree of `d` keeps or lacks a linked chain of branches from the top-level branch, as before the removal |
| DeleteMarks.MarksOutside | java/conjoined-twin-tree-variant/src/main/java/com/workday/collections/AbstractNode.java:158-159 | the leaves of any removed set mark a node outside the subtree of `d` in the current arena iff they do in the arena on entry |
| DeleteMarks.GoneBelow | java/conjoined-twin-tree-variant/src/main/java/com/workday/collections/AbstractNode.java:145-150 | what the loop over the children of `d` removes lies beneath `d` |
| DeleteMarks.OutsideStep | java/conjoined-twin-tree-variant/src/main/java/com/workday/collections/AbstractNode.java:148 | a node outside the subtree of `d` is outside the subtree of each child of `d`, however many nodes were removed |
| DeleteMarks.ExactStep | java/conjoined-twin-tree-variant/src/main/java/com/workday/collections/AbstractNode.java:145-150 | a round that is exact outside the deleted child's subtree keeps the loop exact outside the subtree of `d` |
| DeleteMarks.BranchExact | java/conjoined-twin-tree-variant/src/main/java/com/workday/collections/AbstractNode.java:151 | taking `d` out of `p`'s list after its children completes `AfterDelete(Doomed(d))` outside the subtree of `d` |
| Pruning.DoomedSplit | java/conjoined-twin-tree-variant/src/main/java/com/workday/collections/AbstractNode.java:142-151 | deleting a visible node removes it and what deleting each child removes; an invisible node removes nothing |
| Pruning.LeafSides | java/conjoined-twin-tree-variant/src/main/java/com/workday/collections/AbstractNode.java:155-157 | a leaf under `p` has `p` and one other branch as parents, and no other list holds it |
| Pruning.LeafDeleted | java/conjoined-twin-tree-variant/src/main/java/com/workday/collections/AbstractNode.java:153-163 | deleting a leaf is marking both parents' subtrees and removing it from exactly those two lists, keeping the arena well-formed |
| Pruning.LeafDoomed | java/conjoined-twin-tree-variant/src/main/java/com/workday/collections/AbstractNode.java:153-163 | a leaf's delete removes just the leaf |
| Pruning.BranchDeleted | java/conjoined-twin-tree-variant/src/main/java/com/workday/collections/AbstractNode.java:143-151 | once the children are dealt with, removing `d` from `p` completes the removal of `Doomed(d)` |
| Pruning.PruneWf | java/conjoined-twin-tree-variant/src/main/java/com/workday/collections/AbstractNode.java:151 | removing any set of nodes from every list keeps the arena well-formed |
| Pruning.PruneOneAt | java/conjoined-twin-tree-variant/src/main/java/com/workday/collections/AbstractNode.java:151 | removing one node is `List.remove` of it in each list that holds it |
| Pruning.PruneTwice | java/conjoined-twin-tree-variant/src/main/java/com/workday/collections/AbstractNode.java:147-151 | removing in two steps is removing the union |
| Pruning.StillUnder | java/conjoined-twin-tree-variant/src/main/java/com/workday/collections/AbstractNode.java:145-151 | deleting the children of `d` leaves `d` listed under `p` and nowhere else |
| TreeNodes.EqualsByValues | java/conjoined-twin-tree-variant/src/main/java/com/workday/collections/BranchNode.java:202-211 | two nodes are equal iff same class and same value, read off the two value getters |
| TreeNodes.BranchValue | java/conjoined-twin-tree/src/main/java/com/workday/collections/AbstractNode.java:174-176 | a value exactly for a branch, none for another node |
| TreeNodes.LeafValue | java/conjoined-twin-tree/src/main/java/com/workday/collections/AbstractNode.java:179-181 | a value exactly for a leaf, none for another node |
| Searching.SearchFrom | java/conjoined-twin-tree-variant/src/main/java/com/workday/collections/ConjoinedTwinTree.java:148-178 | the result holds exactly the visible accepted nodes the walk pops that were not visited before; it repeats nothing, with or without a visited set, and the visited set gains every popped node |
| Searching.WalkFinish | java/conjoined-twin-tree-variant/src/main/java/com/workday/collections/ConjoinedTwinTree.java:155-175 | when the queue empties, the popped set is exactly what the expansion rule reaches |
| Searching.SpacedStep | java/conjoined-twin-tree-variant/src/main/java/com/workday/collections/ConjoinedTwinTree.java:153-173 | the queue never holds a node twice nor a node below another queued or popped one, so no node is popped twice |
| Searching.BranchWalksApart | java/conjoined-twin-tree-variant/src/main/java/com/workday/collections/ConjoinedTwinTree.java:125-135 | the branch searches from the two roots meet no common node |
| Searching.WalkedTwice | java/conjoined-twin-tree-variant/src/main/java/com/workday/collections/ConjoinedTwinTree.java:125-135 | the two roots' walks share only leaves |
| Searching.BranchWalkOnlyBranches | java/conjoined-twin-tree-variant/src/main/java/com/workday/collections/ConjoinedTwinTree.java:167-171 | a branch search from a root meets only branches |
| Searching.FoundBranch | java/conjoined-twin-tree-variant/src/main/java/com/workday/collections/ConjoinedTwinTree.java:167-171 | a branch search returns only branches |
| Searching.WalkedThroughVisible | java/conjoined-twin-tree-variant/src/main/java/com/workday/collections/ConjoinedTwinTree.java:161-173 | every node above a node the walk meets is met and visible: an invisible node hides its subtree |
| Searching.FoundBeneathVisible | java/conjoined-twin-tree-variant/src/main/java/com/workday/collections/ConjoinedTwinTree.java:161-173 | every node of the axis above a found node is visible, and so is the found node |
| Searching.SecondSearchReady | java/conjoined-twin-tree-variant/src/main/java/com/workday/collections/ConjoinedTwinTree.java:125-135 | the second walk of an all-nodes search may skip what the first met: only childless leaves |
| Facade.ConjoinedTwinTree.Search | java/conjoined-twin-tree-variant/src/main/java/com/workday/collections/ConjoinedTwinTree.java:124-136 | the result holds exactly the visible accepted nodes the walks from root 1 and (except for a leaf search) root 2 meet; it repeats nothing in any mode; a branch search returns only branches |
| Facade.ConjoinedTwinTree.Filter | java/conjoined-twin-tree-variant/src/main/java/com/workday/collections/ConjoinedTwinTree.java:187-198 | after both runs (one for a leaf filter) judged nodes show the verdict, buried nodes are hidden, the dirtied branches are flagged and nothing else changes |
| Facade.ConjoinedTwinTree.FilterFrom | java/conjoined-twin-tree-variant/src/main/java/com/workday/collections/ConjoinedTwinTree.java:209-235 | one run: judged nodes show the verdict, what lies beneath rejected ones is hidden, and the visited set gains what was popped and hidden |
| Facade.ConjoinedTwinTree.Visit | java/conjoined-twin-tree-variant/src/main/java/com/workday/collections/ConjoinedTwinTree.java:217-232 | one unvisited node: its verdict is the predicate, a rejected node buries its subtree, and the visited set follows |
| Facade.ConjoinedTwinTree.JudgeOne | java/conjoined-twin-tree-variant/src/main/java/com/workday/collections/ConjoinedTwinTree.java:219 | setVisible(test(x)) adds `x` to the judged nodes |
| Facade.ConjoinedTwinTree.HideOne | java/conjoined-twin-tree-variant/src/main/java/com/workday/collections/ConjoinedTwinTree.java:242 | setVisible(false) adds `c` to the hidden nodes |
| Facade.ConjoinedTwinTree.HideUnder | java/conjoined-twin-tree-variant/src/main/java/com/workday/collections/ConjoinedTwinTree.java:238-247 | everything beneath `x` ends up hidden and visited |
| Facade.ConjoinedTwinTree.HideChild | java/conjoined-twin-tree-variant/src/main/java/com/workday/collections/ConjoinedTwinTree.java:240-246 | a child and everything beneath it end up hidden and visited |
| Filtering.FilterFinish | java/conjoined-twin-tree-variant/src/main/java/com/workday/collections/ConjoinedTwinTree.java:215-234 | after the loop the arena is the start arena with the judged and buried sets applied |
| Filtering.SweptNotBuried | java/conjoined-twin-tree-variant/src/main/java/com/workday/collections/ConjoinedTwinTree.java:222-232 | every node the run passes on the way to another popped node was accepted: a rejected node's subtree is never queued |
| Filtering.SweptOutsideBuried | java/conjoined-twin-tree-variant/src/main/java/com/workday/collections/ConjoinedTwinTree.java:222-232 | no node the run pops lies beneath a node it rejected |
| Filtering.SecondRunReady | java/conjoined-twin-tree-variant/src/main/java/com/workday/collections/ConjoinedTwinTree.java:188-196 | the second run judges the same nodes as on the original arena and never a node the first run buried |
| Filtering.StyledStructure | java/conjoined-twin-tree-variant/src/main/java/com/workday/collections/ConjoinedTwinTree.java:209-247 | filtering changes visibility and flags only |
| FilterLaws.FilterHidesBeneath | java/conjoined-twin-tree-variant/src/main/java/com/workday/collections/ConjoinedTwinTree.java:230-231 | a judged rejected node is hidden and so is every node beneath it |
| FilterLaws.FilterKeepsShape | java/conjoined-twin-tree-variant/src/main/java/com/workday/collections/ConjoinedTwinTree.java:209-247 | no children list, value or kind changes |
| FilterLaws.FilterBranchVisibility | java/conjoined-twin-tree-variant/src/main/java/com/workday/collections/ConjoinedTwinTree.java:209-235 | a branch ends visible iff the predicate accepts every node of the path from its root's children down to it |
| FilterLaws.PathVisAfter | java/conjoined-twin-tree-variant/src/main/java/com/workday/collections/ConjoinedTwinTree.java:209-235 | the same, stated on the filter's specification |
| FilterLaws.AllKeptShows | java/conjoined-twin-tree-variant/src/main/java/com/workday/collections/ConjoinedTwinTree.java:222-228 | a path all accepted ends visible |
| FilterLaws.FirstRejectedHides | java/conjoined-twin-tree-variant/src/main/java/com/workday/collections/ConjoinedTwinTree.java:230-231 | a path with a rejected node ends hidden |
| FilterLaws.AxisRunJudged | java/conjoined-twin-tree-variant/src/main/java/com/workday/collections/ConjoinedTwinTree.java:215-228 | every branch the run from a root pops is judged and not hidden as lying beneath a rejected node |
| FilterLaws.LeafFilterSparesSecondAxis | java/conjoined-twin-tree-variant/src/main/java/com/workday/collections/ConjoinedTwinTree.java:191-192 | a leaf filter leaves every second-axis branch's visibility as it was |
| LevelSorting.LevelSort | java/conjoined-twin-tree-variant/src/main/java/com/workday/collections/ConjoinedTwinTree.java:263-268 | the recursive sort keeps the set of nodes |
| LevelSorting.LevelSortSortsLevels | java/conjoined-twin-tree-variant/src/main/java/com/workday/collections/ConjoinedTwinTree.java:263-268 | a branch `d` levels below the start has its children sorted by comparator `i + d`, as a one-list sort of its old children |
| LevelSorting.LevelSortOrdersLevel | java/conjoined-twin-tree-variant/src/main/java/com/workday/collections/AbstractNode.java:173-175 | with lawful comparators each such level ends sorted, as a permutation, stably |
| LevelSorting.LevelSortFrame | java/conjoined-twin-tree-variant/src/main/java/com/workday/collections/ConjoinedTwinTree.java:264 | only children lists change, only in order, and a node at a depth beyond the last comparator keeps its record |
| Facade.ConjoinedTwinTree.SortLevels | java/conjoined-twin-tree-variant/src/main/java/com/workday/collections/ConjoinedTwinTree.java:263-268 | the arena becomes `LevelSort` of the old one |
| Facade.ConjoinedTwinTree.SortEachChild | java/conjoined-twin-tree-variant/src/main/java/com/workday/collections/ConjoinedTwinTree.java:266 | the forEach over the sorted children sorts each from the next level |
| Facade.ConjoinedTwinTree.Sort | java/conjoined-twin-tree-variant/src/main/java/com/workday/collections/ConjoinedTwinTree.java:256-260 | null comparators change nothing; otherwise the arena becomes `LevelSort` from level 0 |
| Traversal.TraverseBranches | java/conjoined-twin-tree-variant/src/main/java/com/workday/collections/ConjoinedTwinTree.java:277-289 | the rows are exactly the paths from a visible child of `s` through visible branches down to a node whose first child is not a branch, none repeated, in depth-first children order; no rows unless `s`'s first child is a branch |
| Traversal.TraverseFrom | java/conjoined-twin-tree-variant/src/main/java/com/workday/collections/ConjoinedTwinTree.java:292-310 | the helper appends the rows from `x`, each behind the hierarchy above |
| Traversal.TraverseKids | java/conjoined-twin-tree-variant/src/main/java/com/workday/collections/ConjoinedTwinTree.java:299-304 | the loop appends the rows of the visible children, in order |
| Traversal.RowsFromMeaning | java/conjoined-twin-tree-variant/src/main/java/com/workday/collections/ConjoinedTwinTree.java:292-310 | the rows from `x` are exactly the paths `IsRowFrom` describes |
| Traversal.RowsUpToMeaning | java/conjoined-twin-tree-variant/src/main/java/com/workday/collections/ConjoinedTwinTree.java:299-304 | the rows under the first `j` children start at one of them that is visible |
| Traversal.RowsFromNoDup | java/conjoined-twin-tree-variant/src/main/java/com/workday/collections/ConjoinedTwinTree.java:292-310 | no row is produced twice |
| Traversal.RowShape | java/conjoined-twin-tree-variant/src/main/java/com/workday/collections/ConjoinedTwinTree.java:295-308 | every node of a row is a visible branch and the last has only leaves as children |
| Traversal.TraversedRowsAreLeafRows | java/conjoined-twin-tree-variant/src/main/java/com/workday/collections/ConjoinedTwinTree.java:321-325 | traverseBranches' rows are what traverseLeafs accepts |
| Traversal.TraverseLeafsGet | java/conjoined-twin-tree-variant/src/main/java/com/workday/collections/ConjoinedTwinTree.java:321-338 | each row maps to the leaf map of its last branch |
| Traversal.RowMaps | java/conjoined-twin-tree-variant/src/main/java/com/workday/collections/ConjoinedTwinTree.java:323-335 | one (row, leaf map) pair per row, in row order |
| Traversal.LeafMapMeaning | java/conjoined-twin-tree-variant/src/main/java/com/workday/collections/ConjoinedTwinTree.java:327-334 | the leaf map has a key per other-axis ancestry of a visible leaf child, mapped to the last such leaf |
| Traversal.LeafMapUpToKeys | java/conjoined-twin-tree-variant/src/main/java/com/workday/collections/ConjoinedTwinTree.java:327-334 | the keys after `j` children are those of the visible ones among them |
| Traversal.LeafMapKeyOrder | java/conjoined-twin-tree-variant/src/main/java/com/workday/collections/ConjoinedTwinTree.java:327-334 | the leaf map's keys are the visible children's keys, each once, in order of first occurrence: a key ahead of another is carried by a child before every child carrying the other |
| Traversal.LeafMapUpToOrder | java/conjoined-twin-tree-variant/src/main/java/com/workday/collections/ConjoinedTwinTree.java:327-334 | after `j` children the keys are the visible ones' keys without repeats, in order of first occurrence |
| Traversal.LeafMapUpToGet | java/conjoined-twin-tree-variant/src/main/java/com/workday/collections/ConjoinedTwinTree.java:327-334 | the value of a key is the last visible child with that key |
| Traversal.LeafKeyMeaning | java/conjoined-twin-tree-variant/src/main/java/com/workday/collections/ConjoinedTwinTree.java:332 | a leaf's key is the parent chain of its other parent |
| Traversal.OtherAncestries | java/conjoined-twin-tree-variant/src/main/java/com/workday/collections/ConjoinedTwinTree.java:368-371 | one other-axis ancestry per leaf child, in children order, visible or not |
| Traversal.SortedBranches | java/conjoined-twin-tree-variant/src/main/java/com/workday/collections/ConjoinedTwinTree.java:365-379 | the other-axis ancestries of `p`'s leaves end the result; when there are fewer of them than unsorted rows, the unsorted rows not among them go first in their order, and the caller's list (second component, mutated by removeAll) keeps only those; otherwise the ancestries alone, the list untouched |
| Traversal.SortedBranchesPermutes | java/conjoined-twin-tree-variant/src/main/java/com/workday/collections/ConjoinedTwinTree.java:365-379 | with distinct rows, fewer ancestries, all among the unsorted rows, the result is a permutation of them |
| Facade.ConjoinedTwinTree.SortLeafsAndTraverse | java/conjoined-twin-tree-variant/src/main/java/com/workday/collections/ConjoinedTwinTree.java:350-355 | a leaf `p` refuses; otherwise `p`'s leaves are stably sorted and the result is getSortedBranches of the sorted arena |
| LinkedMaps.Put | java/conjoined-twin-tree-variant/src/main/java/com/workday/collections/ConjoinedTwinTree.java:334 | an existing key keeps its place, a new key goes last |
| LinkedMaps.GetPut | java/conjoined-twin-tree-variant/src/main/java/com/workday/collections/ConjoinedTwinTree.java:334 | get after put returns the new value for that key and the old one for others |
| LinkedMaps.FromPairsUnique | java/conjoined-twin-tree-variant/src/main/java/com/workday/collections/ConjoinedTwinTree.java:333-334 | the collected map holds each key once |
| LinkedMaps.FromPairsKeys | java/conjoined-twin-tree-variant/src/main/java/com/workday/collections/ConjoinedTwinTree.java:333-334 | its keys are those of the pairs |
| LinkedMaps.FromPairsOrder | java/conjoined-twin-tree-variant/src/main/java/com/workday/collections/ConjoinedTwinTree.java:336-337 | with no repeated key the keys keep the pairs' order |
| LinkedMaps.FromPairsOfKey | java/conjoined-twin-tree-variant/src/main/java/com/workday/collections/ConjoinedTwinTree.java:336-337 | a key whose pairs all carry `w` maps to `w` |

## Left out

- Parallel streams and synchronized sets in search and filter: the model runs root 1, then root 2, sharing the visited set.
- Searching.SearchFrom: the result's breadth-first order is not stated; the contract gives its members and that none repeats.
- Facade.ConjoinedTwinTree.Search: the same, for the concatenation of the two walks.
- Accumulation.AccumulateMeaning: the order of the leaves within a group is the breadth-first order of the walk as `Gather` defines it; no independent description of that order is stated.
- Node identity versus equality: ids stand for object identity, and the model compares nodes by id throughout. Java's `equals` compares class and value (`TreeNodes.Equals`), and several operations rely on it. The model agrees with Java only when no two distinct branches carry equal values, whichever axes they are in, and no two distinct leaves carry equal values. Roots never meet these comparisons. When the condition fails, Java differs from the model in:
  - search and filter with location ALL: the visited `HashSet` skips a node equal to one already visited, for example a column branch with the value of a row branch (ConjoinedTwinTree.java:158, 217);
  - delete: `contains` and `List.remove` can find an equal sibling instead of the node itself (AbstractNode.java:142, 151, 160, 162);
  - getAccumulatedValues: `parent.equals(child.getParent1())` takes the wrong other parent when a leaf's two parents are equal, and the `HashMap` merges the groups of equal branches (BranchNode.java:142-144);
  - traverseLeafs: the same parent test, and map keys that are lists of nodes compared by equality (ConjoinedTwinTree.java:321-337);
  - getSortedBranches: the same parent test, and `removeAll` by equality (ConjoinedTwinTree.java:370-375).
- Arena.NodeArena.Delete: beneath a deleted branch `d`, the flags of the nodes it detaches are stated only as "some flags set". Which of them get marked depends on the order the children are removed in, as each removed leaf marks only the branches still listed at that moment. Every node not beneath `d`, including `d` itself, is stated exactly.
- Arena.NodeArena.DeleteFrom: the same.
- Arena.NodeArena.DeleteBranch: the same.
- Arena.NodeArena.DeleteChildren: the same, beneath the children of `d`.
- Arena.NodeArena.DeleteNth: the same, beneath the child it deletes.
- Failing casts and null dereferences become preconditions:
  - the leaf traversals require that every child of the row's last branch is a leaf (`LeavesOnly`);
  - leaves directly under a root are excluded, since setUpdated on a root fails;
  - children lists are of one kind (`Wf`, and the requires of AddBranch and AddLeaf).
- StableSort.Sort: a stable insertion sort stands in for `List.sort` (TimSort). The two agree for comparators that obey their contract; for comparators that do not, TimSort may throw or order differently, and the model does not capture this.
- Caller-supplied code (predicates, comparators, the accumulator) becomes function parameters that see only a node's class and value.
- Comparator results are plain ints compared with `<= 0`; overflow in a comparator is not modelled.
- LevelSorting.SortEach: its `x < child < bound` guard exists only for termination. Every well-formed arena satisfies it.
- FilterLaws.FilterBranchVisibility: characterizes branches only. For a leaf, `Styled` gives its visibility as the verdict of the last run that judged it; no path statement is made about it.
- hashCode, toString, Pair, HashMap iteration order and the interface-only files (TreeNode, BranchAccumulator) are not part of this model.
- setParent, setParent1 and setParent2, which the tests use to rewire a tree outside the API, are not modelled. Every arena is built through the modelled operations' invariant `Wf`.
