# sqlamp materialized-path engine in Dafny

sqlamp keeps trees in a relational table. Every node carries, besides its
primary key and its adjacency link `parent_id`, the materialized-path triple
`(tree_id, path, depth)`. A `path` is a string of fixed-width `steplen`
segments over the 36-symbol alphabet `0-9A-Z`; a child's path is its
parent's path followed by one segment, and `depth` is the number of
segments. This project models the algorithmic core of `sqlamp/__init__.py`
with the SQL replaced by operations on an in-memory table:

- **Path codec** (`PathOrder`, `PathCodec`): the alphabet, the SQL string
  order on paths (defined lexicographically), and `inc_path`, the base-36
  successor of the last segment that reports overflow instead of carrying
  into the parent's part. Slot `k` of a parent is the parent path followed by
  the `steplen`-digit numeral of `k`.
- **Limits and filters** (`Limits`, `Rows`, `Filters`): `max_children`,
  `max_depth`, and the `filter_descendants` / `filter_children` /
  `filter_ancestors` / `filter_parent` predicates, plus the sibling filter of
  `_pull_nodes`.
- **Insertion planner** (`Planner`): `_InsertionsParamsSelector`, which
  chooses the triple of a new root or a new child. It is a class whose
  memoised `query_result` field is set at most once.
- **Mutation engine** (`Updates`, `Pulls`, `Moves`, `Rebuild`, `Engine`):
  `MPClassManager`'s detach, delete, the four moves, `_prepare_to_move_subtree`,
  `_reparent`, `_update_subtree`, `_pull_nodes`, `rebuild_all_trees` and
  `_do_rebuild_subtree`. `Engine.Table` is a class that holds the table as a
  `seq<Row>` field. Its methods update that field statement by statement,
  as the source's `session.execute` calls do. `_pull_nodes`,
  `_do_rebuild_subtree` and `rebuild_all_trees` keep their loops, and the
  rebuild keeps its recursion. Each method is proved against a specification
  function, and lemmas prove that function's properties.
- **Tree reconstructor** (`Reconstructor`): `_iter_current_next`,
  `_recursive_iterator` and `tree_recursive_iterator` as a pure function
  from a flat sequence and a child relation to the forest a depth-first
  consumer observes.

Errors (`PathOverflowError`, `TooManyChildrenError`, `PathTooDeepError`,
`MovingToDescendantError`) are values of `Wrappers.Error`. Pure code
returns them in a `Result`; the engine's methods return them in an
`Outcome`. The table is a sequence in primary-key order. The source's
default `ORDER BY pk` is therefore sequence order, and a select by key
is `Rows.Find`. Every operation requires `steplen > 0`: the option
computations divide by it.

## Model

| member | source | states |
|---|---|---|
| PathOrder.Index | sqlamp/__init__.py:99 | a symbol's position in ALPHABET is below 36 and the alphabet holds that symbol there |
| PathOrder.IndexMonotone | sqlamp/__init__.py:99 | on symbols, character comparison (what SQL compares) agrees with digit order in ALPHABET, both for `<` and `==` |
| PathOrder.LexLessTotal | sqlamp/__init__.py:324-336 | the path order used by the `>`/`<` filters is total on distinct paths |
| PathOrder.LexLessTransitive | sqlamp/__init__.py:324-336 | the path order is transitive |
| PathOrder.LexLessAsymmetric | sqlamp/__init__.py:324-336 | the path order is asymmetric, hence strict |
| PathOrder.PrefixLess | sqlamp/__init__.py:320-336 | a proper prefix (an ancestor's path) sorts before the longer path |
| PathCodec.StripMax | sqlamp/__init__.py:158 | `rstrip('Z')` yields a prefix of the window with only 'Z's after it and not itself ending in 'Z' |
| PathCodec.Succ | sqlamp/__init__.py:163 | `ALPHABET[index + 1]` is the symbol one digit higher, and it sorts after |
| PathCodec.IncPathShape | sqlamp/__init__.py:157-165 | on success the part before the last segment is kept, one digit is raised, the 'Z's after it become '0', and the length is unchanged for paths of at least one segment |
| PathCodec.IncPathOverflowIff | sqlamp/__init__.py:157-160 | inc_path fails exactly when every character of the last segment is 'Z' |
| PathCodec.IncPathValue | sqlamp/__init__.py:130-165 | the last segment read as a base-36 numeral goes up by exactly one; inc_path succeeds if and only if value + 1 < 36^steplen |
| PathCodec.IncPathGreater | sqlamp/__init__.py:139-140 | the incremented path sorts strictly after the original |
| PathCodec.IncPathNext | sqlamp/__init__.py:157-165 | no path of the same length lies strictly between a path and its inc_path |
| PathCodec.EncodeValue | sqlamp/__init__.py:130-165 | the steplen-digit numeral of k reads back as k (k < 36^steplen) |
| PathCodec.EncodeOrder | sqlamp/__init__.py:130-165 | numerals of equal width sort as their numbers do |
| PathCodec.SlotOrder | sqlamp/__init__.py:428-437 | a parent's slots sort in slot-number order |
| PathCodec.SlotSucc | sqlamp/__init__.py:157-165 | inc_path of slot k is slot k + 1 below the same parent while k + 1 < 36^steplen |
| PathCodec.SlotLast | sqlamp/__init__.py:157-160 | inc_path of the last slot (all 'Z') fails |
| PathCodec.FirstSlot | sqlamp/__init__.py:430 | `parent_path + ALPHABET[0] * steplen` is slot 0 |
| PathCodec.IncPathExampleNoCarry | sqlamp/__init__.py:145-148 | `'0000',4 -> '0001'` and `'3GZU',4 -> '3GZV'` |
| PathCodec.IncPathExampleCarry | sqlamp/__init__.py:149-150 | `'337Z',2 -> '3380'` |
| PathCodec.IncPathExampleLongCarry | sqlamp/__init__.py:151-152 | `'GWZZZ',5 -> 'GX000'` |
| PathCodec.IncPathExampleOverflow | sqlamp/__init__.py:153-155 | `'ABZZ',2` raises PathOverflowError |
| Limits.DepthFits | sqlamp/__init__.py:232-233 | a chain of d segments fits in pathlen if and only if d < max_depth = pathlen div steplen + 1 |
| Limits.LimitsExamples | sqlamp/__init__.py:232-233 | steplen 2 / pathlen 255 gives 1296 children and depth 128; the defaults (3, 255) give 46656 and 86 |
| Rows.Find | sqlamp/__init__.py:425 | the select by primary key returns a row with that key, and none exactly when no row has it |
| Rows.MaxTreeId | sqlamp/__init__.py:400-402 | `max(tree_id)`: absent exactly on an empty table, otherwise some row's tree_id and no smaller than any |
| Filters.BoundCutBound | sqlamp/__init__.py:320-326 | the descendants filter's upper bound is inc_path of the longest prefix that can be incremented, and exists exactly when such a prefix is non-empty |
| Filters.DescendantsIffPrefix | sqlamp/__init__.py:308-336 | on aligned paths the corrected descendants filter matches exactly the rows of the tree whose path extends `path` (strictly unless and_self) |
| Filters.DescendantsAgreeWhenIncrementable | sqlamp/__init__.py:320-336 | when inc_path(path) succeeds, the filter as written and the corrected filter select the same rows |
| Filters.DescendantsAsWrittenOvermatches | sqlamp/__init__.py:320-336 | as written, with no upper bound after an overflow, `'0Z'` (steplen 1) matches the row at `'1'`, which is not a descendant |
| Filters.ChildrenAsWrittenOvermatches | sqlamp/__init__.py:338-350 | as written, the children filter of `'0Z'` at depth 2 (steplen 1) matches the row at `'100'`, which is not below `'0Z'` |
| Filters.ChildrenIffSegment | sqlamp/__init__.py:338-350 | the children filter, built on the corrected descendants filter, matches exactly the rows of the tree whose path is the node's path plus one segment |
| Filters.AncestorsDescendantsDual | sqlamp/__init__.py:352-363 | a is selected by b's ancestors filter if and only if b is selected by a's descendants filter, with the same and_self |
| Filters.ParentPath | sqlamp/__init__.py:842 | `from_path[:-steplen]` is a prefix of from_path |
| Filters.SiblingBoundAgrees | sqlamp/__init__.py:839-844 | when the bound computation as written succeeds, it equals the corrected bound |
| Filters.SiblingsFromIff | sqlamp/__init__.py:839-844 | the corrected sibling filter matches exactly the rows at the node's depth sharing its parent path from the node's path onwards |
| Filters.SiblingBoundAsWrittenOverflows | sqlamp/__init__.py:842-844 | as written, `inc_path(parent_path)` raises for the all-'Z' parent `'Z'` (steplen 1), where the corrected filter needs no bound |
| Updates.ParentSelects | sqlamp/__init__.py:365-370 | filter_parent selects exactly the row named by the parent key, and nothing when that key is None |
| Updates.FindUnique | sqlamp/__init__.py:425 | in a table with distinct keys the select by key returns the one row holding it |
| Updates.Filter | sqlamp/__init__.py:846-849 | a `WHERE f` select keeps exactly the rows satisfying f |
| Updates.SortByPathSpec | sqlamp/__init__.py:846-849 | `ORDER BY path` gives a path-sorted permutation of the selection |
| Updates.RewriteRowSpec | sqlamp/__init__.py:803-820 | over the corrected descendants filter, a row of the moved subtree gets new_tree_id, `new_path + path[steplen*old_depth..]` and depth shifted by new_depth - old_depth; every other row is unchanged; key, parent and shape are kept |
| Updates.RewriteSubtreeSpec | sqlamp/__init__.py:793-820 | the UPDATE keeps the table well formed, keys and parents, levels for a move within a tree, and rows of other trees |
| Updates.ApplyMovesSpec | sqlamp/__init__.py:866-871 | a sequence of subtree moves keeps the table well formed, keys and parents, and for moves within one tree the levels and every row of the other trees |
| Pulls.SiblingsSpec | sqlamp/__init__.py:839-849 | the corrected sibling selection, which needs no bound for an all-'Z' parent path, is path-sorted and is exactly the table rows of the node's tree and depth under its parent path from its path on |
| Pulls.ReverseSpec | sqlamp/__init__.py:856 | `reversed(...)` keeps the same rows, as a multiset, and reversing twice gives the selection back |
| Pulls.PullDownSpec | sqlamp/__init__.py:853-864 | pulling down fails with TooManyChildren exactly when the last sibling cannot be incremented; otherwise it moves the siblings, last first, each one slot further out |
| Pulls.PullPlanSpec | sqlamp/__init__.py:832-871 | with the corrected sibling selection, the plan fails only for a pull down at depth > 0 whose last sibling has no successor, with TooManyChildren; every planned move stays in the tree and level |
| Pulls.PullPlanChain | sqlamp/__init__.py:853-871 | each move's destination is the previous move's source; up starts at from_path and moves every node towards the front; down starts at inc_path(last sibling) and moves every node further out |
| Shifts.PulledUp | sqlamp/__init__.py:846-871 | with unique (tree_id, path), a pull up succeeds; in the table it produces, each selected sibling's subtree is re-rooted at the path of the sibling before it, the first at from_path, and every other row is unchanged |
| Shifts.PulledDown | sqlamp/__init__.py:846-871 | with unique (tree_id, path), after a successful pull down each selected sibling's subtree is re-rooted at the path of the sibling after it, the last at inc_path of its path, a later slot under the same parent; every other row is unchanged |
| Shifts.UpShift | sqlamp/__init__.py:822-871 | a pull up from a vacant from_path moves whole sibling subtrees within one level: sources and destinations in the same increasing order, the siblings that stay before them, nothing else at a destination |
| Shifts.DownShift | sqlamp/__init__.py:822-871 | in a closed table with unique (tree_id, path), a successful pull down is such a level shift and leaves nothing at or below from_path, the place it frees |
| Shifts.LevelShiftRelabels | sqlamp/__init__.py:866-871 | a level shift keeps every row's key, parent, tree and depth, and for every pair of rows whether one is below the other, whether they are siblings and which sibling comes first; (tree_id, path) stays unique |
| Places.PullUpCloses | sqlamp/__init__.py:822-871 | the pull up after a subtree left from_path moves each later sibling into the place of the one before it and fills from_path if a sibling followed, keeping links, sibling order and the unique index; at the root level nothing moves |
| Moves.SetParentSpec | sqlamp/__init__.py:785-788 | the parent_id UPDATE changes only the parent of the named row |
| Moves.ReparentedSpec | sqlamp/__init__.py:777-791 | `_reparent` gives the node its new parent, re-roots its subtree at the new tree and depth (paths too when the tree changes), and leaves keys, other parents and other trees unchanged |
| Places.ReparentedCloses | sqlamp/__init__.py:777-791 | when the target place is clear and (tree_id, path) unique, the node lands exactly on the new path in the new tree, and the pull up closes the old gap, keeping the index unique |
| Moves.DetachedSpec | sqlamp/__init__.py:553-583 | detach makes the node a root of a fresh tree `max(tree_id) + 1` at path '' and depth 0, cuts its subtree's paths and depths accordingly, and leaves other trees unchanged |
| Places.DetachedCloses | sqlamp/__init__.py:553-583 | with unique (tree_id, path), the new tree is clear, the node lands at its root path '', and the gap in the old tree is closed |
| Moves.KeptIff | sqlamp/__init__.py:622-623 | the DELETE over the corrected descendants filter keeps exactly the rows outside the subtree |
| Moves.DeletedSpec | sqlamp/__init__.py:585-624 | after delete every surviving row is an original row outside the subtree with its key, parent, tree and depth; every row outside the subtree survives; rows of other trees are untouched |
| Places.DeletedCloses | sqlamp/__init__.py:585-624 | with unique (tree_id, path), the rows left by the DELETE are pulled up: each following sibling takes the place of the one before it, the first the deleted node's path; links, order and the unique index are kept |
| Moves.LandedSpec | sqlamp/__init__.py:675-687 | freeing the target place and reparenting fails exactly when the pull down fails (TooManyChildren); on success the node has the new parent, tree and depth and the keys and other parents are kept |
| Places.LandedCore | sqlamp/__init__.py:675-687 | in a closed table with unique (tree_id, path), the pull down shifts the target's level and frees the target; the node lands exactly on it, every other row of that length keeps the place the pull down gave it, and the old gap is closed |
| Moves.IntoOwnSubtreeIff | sqlamp/__init__.py:772-773 | the `startswith` test refuses a move exactly when the anchor is the node or one of its descendants |
| Moves.SiblingTargetShape | sqlamp/__init__.py:670-673 | 'before' targets the anchor's path; 'after' targets inc_path of it, which fails with PathOverflow exactly when the anchor's last segment is all 'Z' |
| Moves.MovedBySiblingSpec | sqlamp/__init__.py:626-687 | move before/after fails with MovingToDescendant exactly for its own subtree, with PathOverflow exactly when 'after' has no successor slot, with TooManyChildren exactly when the pull down fails; otherwise the node gets the anchor's parent, tree and depth |
| Places.MovedBySiblingPlaces | sqlamp/__init__.py:626-687 | for an anchor below a root in a closed table with unique (tree_id, path), a successful move keeps the index unique and makes the node the sibling immediately before (or after) the anchor |
| Moves.FirstChildPath | sqlamp/__init__.py:710 | the first child path is one segment longer than the parent's |
| Moves.TopSlot | sqlamp/__init__.py:708-710 | the top slot is a well-shaped place |
| Moves.TopSlotFirst | sqlamp/__init__.py:708-710 | the top slot is in the parent's tree one level down and sorts before or at every child's path |
| Moves.MovedToTopSpec | sqlamp/__init__.py:689-718 | to_top fails with MovingToDescendant exactly for its own subtree, with TooManyChildren exactly when the pull down fails; otherwise the node gets the parent as parent, its tree and depth + 1 |
| Places.MovedToTopPlaces | sqlamp/__init__.py:689-718 | in a closed table with unique (tree_id, path), a successful to_top keeps the index unique and makes the node the parent's first child in path order |
| Moves.LastChildSpec | sqlamp/__init__.py:731-738 | the last child found by the corrected children filter ordered by path descending: none exactly when there is no child, otherwise a child path no smaller than any child's |
| Moves.BottomSlot | sqlamp/__init__.py:739-749 | a successful bottom slot is a well-shaped place |
| Moves.BottomSlotSpec | sqlamp/__init__.py:739-749 | the bottom slot fails with TooManyChildren exactly when the last child is all 'Z'; otherwise it is one level down and after every child |
| Moves.MovedToBottomSpec | sqlamp/__init__.py:720-751 | to_bottom fails with MovingToDescendant exactly for its own subtree, with TooManyChildren exactly when the parent is full; otherwise the node gets the parent as parent, its tree and depth + 1 |
| Places.MovedToBottomPlaces | sqlamp/__init__.py:720-751 | in a closed table with unique (tree_id, path), a successful to_bottom keeps the index unique and makes the node the parent's last child in path order |
| Planner.ChildPaths | sqlamp/__init__.py:420-423 | the paths of exactly the rows whose parent is the given key |
| Planner.MaxPath | sqlamp/__init__.py:420-423 | `max(path)` is absent exactly for no children, otherwise one of them |
| Planner.MaxPathIsMax | sqlamp/__init__.py:420-423 | `max(path)` is no smaller than any child path |
| Planner.NextChildPathSpec | sqlamp/__init__.py:428-437 | the next child path fails exactly when the last child's segment is all 'Z'; otherwise it is one segment under the parent and after the last child |
| Planner.PlanRoot | sqlamp/__init__.py:395-407 | a root always gets path '' and depth 0, tree 1 on an empty table, and a tree id above every existing one |
| Planner.PlanChild | sqlamp/__init__.py:408-442 | a child fails with TooManyChildren exactly when the last child is all 'Z', else with PathTooDeep exactly when it would exceed max depth; otherwise it gets the parent's tree, depth + 1 and a path one segment under the parent after every sibling |
| Planner.PlanFirstChild | sqlamp/__init__.py:428-430 | the first child of a parent gets slot 0 |
| Planner.PlanAfterSlots | sqlamp/__init__.py:428-439 | after k children in slots 0..k-1 the next child gets slot k, and fails with TooManyChildren when k = max_children |
| Planner.PlanChildLimitExample | sqlamp/__init__.py:232 | with steplen 2 and 1296 children in place, the next child fails with TooManyChildren |
| Planner.PlanDepthLimitExample | sqlamp/__init__.py:438-439 | with steplen 2 and pathlen 255, a first child is refused with PathTooDeep exactly from parent depth 127 on |
| Planner.InsertionParams.constructor | sqlamp/__init__.py:383-387 | a selector starts with no memoised result |
| Planner.InsertionParams.QueryResult | sqlamp/__init__.py:444-452 | the first call computes the plan and memoises a success; a later call returns the memoised value without recomputing |
| Engine.Table.constructor | sqlamp/__init__.py:540-542 | the manager starts on a well-formed table |
| Engine.Table.UpdateSubtree | sqlamp/__init__.py:793-820 | the table becomes the subtree rewrite of the old table and stays well formed |
| Engine.Table.PullNodes | sqlamp/__init__.py:822-871 | the table becomes the corrected pull plan applied to the old one, and a failing pull down changes nothing and returns TooManyChildren; with unique (tree_id, path), each selected sibling's subtree ends at its destination and every other row is unchanged |
| Engine.Table.ShiftAlong | sqlamp/__init__.py:866-871 | the loop carrying prev_path applies the shift plan move by move |
| Engine.Table.Reparent | sqlamp/__init__.py:777-791 | the parent update, subtree move and pull up give the reparented table; for a clear target with unique (tree_id, path), the old gap is closed |
| Engine.Table.DetachSubtree | sqlamp/__init__.py:553-583 | the table becomes the detached table; with unique (tree_id, path), the gap in the old tree is closed |
| Engine.Table.DeleteSubtree | sqlamp/__init__.py:585-624 | the table becomes the delete-then-pull-up table; with unique (tree_id, path), the following siblings close the gap |
| Engine.Table.Land | sqlamp/__init__.py:675-687 | pull down then reparent; a failing pull changes nothing |
| Engine.Table.MoveSubtreeBySibling | sqlamp/__init__.py:626-687 | move before/after: the table becomes the specified result and every error leaves it unchanged; on success in a closed table with unique (tree_id, path) and an anchor below a root, the index stays unique and the node is the sibling immediately before (or after) the anchor |
| Engine.Table.MoveSubtreeToTop | sqlamp/__init__.py:689-718 | to_top: the table becomes the specified result and every error leaves it unchanged; on success in a closed table with unique (tree_id, path) the index stays unique and the node is the parent's first child |
| Engine.Table.MoveSubtreeToBottom | sqlamp/__init__.py:720-751 | to_bottom: the table becomes the specified result and every error leaves it unchanged; on success in a closed table with unique (tree_id, path) the index stays unique and the node is the parent's last child |
| Engine.Table.DoRebuildSubtree | sqlamp/__init__.py:873-909 | with the corrected loop, which increments only between children, the children of the root in key order end at consecutive slots 0, 1, ... of root_path at root_depth + 1 in tree tree_id; only rows below the root change; the only error is PathOverflow, raised when there are more children than slots |
| Engine.Table.RebuildChild | sqlamp/__init__.py:899-908 | one loop body: the child is placed, then its own subtree is rebuilt; only the child and rows below it change |
| Engine.Table.RebuildAllTrees | sqlamp/__init__.py:945-989 | the k-th root in key order gets tree k + 1, path '' and depth 0, and its children get consecutive slots at depth 1; keys and parents never change; the only error is PathOverflow |
| Rebuild.WithParent | sqlamp/__init__.py:894-897 | the `parent_id ==` select in key order lists exactly the positions of the rows with that parent, increasing |
| Rebuild.RelocateAt | sqlamp/__init__.py:901-906 | the UPDATE by key sets one row's triple and leaves the rest of the table, keys and parents unchanged |
| Rebuild.RebuildPathsSlots | sqlamp/__init__.py:892-909 | the corrected run of n child paths from slot k is slots k..k+n-1 and succeeds exactly when k + n <= 36^steplen |
| Rebuild.RebuildPathsAsWrittenSlots | sqlamp/__init__.py:898-909 | as written, the loop increments after every child and succeeds only when k + n < 36^steplen |
| Rebuild.AsWrittenNeedsOneMore | sqlamp/__init__.py:898-909 | the loop as written for n children succeeds exactly when the corrected one would for n + 1 |
| Rebuild.RebuildFullNodeExample | sqlamp/__init__.py:898-909 | with steplen 1, a parent with 36 children fails as written though all 36 fit (the last at 'Z'); 37 children fail in both |
| Rebuild.IncSlot | sqlamp/__init__.py:909 | inc_path of slot k is slot k + 1 while one exists, and PathOverflow otherwise |
| Reconstructor.CurrentNext | sqlamp/__init__.py:1325-1348 | pairs every item with its successor, the last one with none, one pair per item |
| Reconstructor.StepSpec | sqlamp/__init__.py:1379-1384 | a step consumes a contiguous run whose preorder is the node and its subtree; the node has children exactly when the next item is its child, the first being that next item |
| Reconstructor.ChildrenSpec | sqlamp/__init__.py:1386-1390 | the children generator consumes a contiguous run whose preorder is the run, every child it yields is a child of the parent, and it stops at the end of the input or at the first item that is not a child of the parent |
| Reconstructor.TopSpec | sqlamp/__init__.py:1392-1393 | the top-level loop consumes the rest of the input with the same preorder |
| Reconstructor.RecursiveIteratorSpec | sqlamp/__init__.py:1350-1393 | the forest's preorder is exactly the input, every nesting satisfies is_child, and the subtree of item k ends at an item that is not its child and has item k + 1 as its first child exactly when is_child(item k, item k + 1) |
| Reconstructor.RecursiveIteratorFirst | sqlamp/__init__.py:1379-1384 | the first tree holds the first item, and it has children exactly when the second item is its child |
| Reconstructor.RecursiveIteratorExample | sqlamp/__init__.py:1361-1369 | `'ABCABB'` gives `[A[B[C]], A[B, B]]`, `''` gives nothing and `'A'` a leaf |
| Reconstructor.TreeRecursiveIteratorSpec | sqlamp/__init__.py:1396-1441 | on flat rows, every row occurs once and in order, every nesting links a row to one of the same tree one level deeper, and row k + 1 is the first child of row k exactly when it is one level deeper in the same tree |

## Left out

- The SQLAlchemy and ORM glue is not modelled: the field type decorators, the mapper extension's insert hooks, `MPManager`, `MPInstanceManager`, `DeclarativeMeta`, schema checks, DDL and indices. Statements become operations on the table value.
- `session.commit()` at the end of `rebuild_all_trees` and all transaction handling are left out. So is rollback: when a method returns `Fail` after it has written (`DoRebuildSubtree`, `RebuildAllTrees`), the model only promises that keys and parents are kept, not that the table is restored.
- Concurrency is not modelled, including the read-then-write races on `max(tree_id)` and on the last child's path.
- The `order_by` parameter of `rebuild_all_trees` is not modelled: roots and children are taken in primary-key order, the source's default.
- `_InsertionsParamsSelector` reads the table passed to `QueryResult` instead of querying a session.
- The reconstructor's generators, shared `item` dict and laziness are modelled as the full depth-first consumption that the source documents as the only correct use. `Items` and the `Paired` sequence stand for the `(current, next)` stream.
- Engine.Table.RebuildAllTrees: the contract states the placement of each root and of each root's children. Each deeper level is placed by the recursive `DoRebuildSubtree` contract, one call at a time, not stated as a single theorem over the whole forest.
- Engine.Table.RebuildAllTrees: "on a consistent forest it restores the original triples" is not proved.
- UniquePaths and Closed are hypotheses, not invariants of Engine.Table: the position and gap-closure results (the `Places` lemmas and the conditional ensures of the engine's methods) assume that `(tree_id, path)` is unique, which the unique index of `MPOptions` (sqlamp/__init__.py:240-250) enforces in the database, and, for the moves, that every row below a root has a row at its parent path. That each operation keeps UniquePaths is proved; that it keeps Closed is not.
- Places.MovedBySiblingPlaces: stated for an anchor of depth at least 1, the source's assertion (sqlamp/__init__.py:667-668) read on the triple; an anchor with a parent but at depth 0 is not covered.
- Reparent: the gap closure is stated for a clear target place (nothing of the new tree at or below the new path, and the new path not inside the subtree), which Places.DetachedCloses and Places.LandedCore show that detach and the moves provide in a closed table; the source's `_reparent` does not check it.
- Land: the method's contract is the `Landed` table; where the node ends up and which slot the pull down frees is stated by Places.LandedCore, not by the method's own ensures, and only while the node is not above the target's parent path.
- LandedSpec: states parents, trees, depths and errors only; the freed slot and the node's place are in Places.LandedCore.
- ReparentedSpec: states parents, trees, depths and keys only; the landing place and the gap closure are in Places.ReparentedCloses.
- DeletedSpec: states which rows survive only; the gap closure is in Places.DeletedCloses.
- MovedBySiblingSpec, MovedToTopSpec, MovedToBottomSpec: state errors, parent, tree and depth only; the node's position among its siblings is in Places.MovedBySiblingPlaces, Places.MovedToTopPlaces and Places.MovedToBottomPlaces, under the hypotheses above.
- The engine runs the corrected definitions of the three rows under "## Findings", not the code as written. The following lines give, for steplen 1, what the source does where the model parts from it.
- RewriteRowSpec: the source's UPDATE selects the subtree with `filter_descendants` as written; moving the subtree at `'0Z'` also rewrites the row at `'1'` and the rows below it, which the model leaves in place (Filters.DescendantsAsWrittenOvermatches).
- KeptIff: the source's DELETE of the node at `'0Z'` also deletes the row at `'1'` and its subtree; the model keeps them.
- DeletedSpec, DeleteSubtree: inherit KeptIff's divergence at `'0Z'`; and deleting the node at `'Z0'` makes the source raise PathOverflowError at line 844, after the DELETE has run, where the model returns normally with the gap closed (Filters.SiblingBoundAsWrittenOverflows).
- SiblingsSpec: for from_path `'Z0'` the source raises PathOverflowError at line 844 before selecting; the model selects the siblings with no upper bound.
- PullPlanSpec, PullNodes: inherit SiblingsSpec's divergence: a pull from `'Z0'` raises PathOverflowError in the source, so TooManyChildren is not its only failure there; the model pulls.
- Reparent, DetachSubtree, MoveSubtreeBySibling, MoveSubtreeToTop, MoveSubtreeToBottom: moving the node at `'Z0'` anywhere makes the source raise PathOverflowError at line 844 in the final pull up, after the UPDATE has run; the model closes the gap and returns normally. The UPDATE of a subtree rooted at `'0Z'` inherits RewriteRowSpec's divergence.
- Land, MoveSubtreeBySibling, MoveSubtreeToTop: moving a node before or after a child of `'Z'`, or to the top of `'Z'`, makes the source raise PathOverflowError at line 844 in the pull down, before anything is written; the model frees the slot and moves the node.
- LastChildSpec: the source's children filter of the parent `'0Z'` at depth 2 also matches the depth-3 row `'100'` (Filters.ChildrenAsWrittenOvermatches), so the source can take `'100'` for the last child.
- MoveSubtreeToBottom, MovedToBottomSpec: inherit LastChildSpec's divergence: with a row at `'100'`, to_bottom under `'0Z'` places the node at `'101'` in the source, where the model places it after the last real child of `'0Z'`.
- DoRebuildSubtree, RebuildAllTrees: the source increments the path after the last child too, so a parent with exactly 36 children raises PathOverflowError at line 909; the model places all 36 (Rebuild.RebuildPathsAsWrittenSlots, Rebuild.AsWrittenNeedsOneMore).
- Paths longer than `pathlen` are not refused by `rebuild_all_trees` or by the moves; the source does not check them either.
- `_prepare_to_move_subtree`'s tuple of seven values is not a separate member: each move reads the node and anchor with `Find`, and the `MovingToDescendant` test is `Moves.IntoOwnSubtree`.
- Python's `assert`s (detach of a root, move before/after a root) are preconditions, not modelled errors. Detach also requires the parent key to be non-zero, because the source's `assert old_parent_id` rejects 0 as well.
- SiblingTargetShape: moving after an anchor whose last segment is all 'Z' raises the plain PathOverflowError from `inc_path` at line 671, not TooManyChildrenError. TooManyChildrenError is a subclass of PathOverflowError (line 116), so a caller catching PathOverflowError sees both; the model keeps the two apart.

## Findings

| source | as written | input that shows it | evidently intended | confidence | as-written member | corrected member |
|---|---|---|---|---|---|---|
| sqlamp/__init__.py:320-336 | when `inc_path(path)` overflows, `filter_descendants` drops its upper bound, so it also matches later subtrees of the node's ancestors | steplen 1, node at `'0Z'`: the row at `'1'` matches | match exactly the rows whose path extends `path`, bounding by the next incrementable ancestor prefix | not executed | Filters.DescendantsAsWrittenOvermatches | Filters.DescendantsIffPrefix |
| sqlamp/__init__.py:842-844 | the sibling filter of `_pull_nodes` calls `inc_path(parent_path)` unguarded, so it raises when the parent's last segment is all 'Z' | steplen 1, any child of the node at `'Z'` (from_path `'Z0'`) | bound the siblings by the parent's descendant range, with no bound when none exists | not executed | Filters.SiblingBoundAsWrittenOverflows | Filters.SiblingsFromIff |
| sqlamp/__init__.py:898-909 | `_do_rebuild_subtree` increments the path after every child, including the last, so a parent with exactly `max_children` children overflows | steplen 1, a parent with 36 children | increment only between children, so that all `max_children` slots can be used | not executed | Rebuild.RebuildPathsAsWrittenSlots | Rebuild.RebuildPathsSlots |
