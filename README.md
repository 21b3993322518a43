# PostgresTree, modelled in Dafny

`PostgresTree` keeps a forest in one PostgreSQL table
`(id PRIMARY KEY, parent_id REFERENCES id, name, ofset)`. Each query and each
mutation is one SQL statement; `createView` issues a `CREATE` followed by a
`SELECT`, and `removeSubtree` calls `createView` before its `DELETE`. It offers:

- queries: descendants and ancestors through recursive CTEs, leaves and roots;
- a recursive ancestor-closure view;
- mutations: insert, move, splice and delete, each of which rewrites rows in place.

The engine exists twice. `lib/index.js` is the built copy that the example
imports, and `src/index.js` is its source. The two differ in three places:

- the seed depth of `getDescendants`;
- whether the closure depth adds `ofset`;
- which view columns are read back.

The model carries a `Variant` (`Lib | Src`) for these differences.

The model is organised like this:

- **`Sql`** (`sql.dfy`) holds the SQL-level values: NULL as `Option`, the three
  error conditions the model covers, and a statement reply as `Result`.
- **`Forest`** (`forest.dfy`) defines the table and its invariants.
  - A table is `map<int, Node>`, so the primary key holds by construction.
    `Valid` is the foreign key.
  - `Up(t, n, k)` is the k-th ancestor.
  - `Rooted` means a row's parent chain ends on a root. `IsForest` means every row is `Rooted`.
  - `InSubtree` and `IsProperAncestor` give the subtree relation.
  - It also holds the chain lemmas everything else uses, including a ranking
    criterion for proving that a table is a forest.
- **`Traversal`** (`traversal.dfy`) holds `getAncestors`, `getDescendants`,
  `getLeaves` and `getRoots`.
  - Each recursive CTE is its `UNION` iteration, with `|t|` rounds.
  - The iteration is proved equal to the level sets "k links below `id`", so the results are
    characterised exactly: the ancestors are the parent chain, and the descendants are the
    proper descendants, with their offset-weighted depths.
- **`ClosureView`** (`closure.dfy`) holds the `<table>_view` view of `createView`/`view`.
  - It is written as its `UNION ALL` iteration from the root rows.
  - It is proved to hold exactly the rows whose chain reaches a root, with their
    root-to-parent ancestor list.
  - `SubtreeIds` is the set of rows that `removeSubtree` deletes.
- **`Mutations`** (`mutations.dfy`) has one function per mutating statement,
  `AddNodeStmt` … `ReplacingInsertNodeStmt`, from the table before the statement
  to an `Outcome`: the new table and the returned rows, or the error that aborted it.
  - Data-modifying CTEs read the snapshot from before the statement.
  - The foreign key (`NO ACTION`) is checked when the statement ends.
  - So an insert whose parent is its own id commits, while one that leaves a
    dangling `parent_id` aborts and changes nothing.
- **`Preservation`** (`preservation.dfy`) proves what each mutation does to
  the forest:
  - when it keeps every row rooted, and when it creates a cycle;
  - that `removeNode` keeps all ancestry among the survivors;
  - that `removeSubtree` deletes exactly the subtree;
  - that `insertNode` splices a node between a row and its parent.
- **`PostgresTreeModule`** (`postgres_tree.dfy`) holds the class `PostgresTree`.
  - Its `table` field is updated in place by one method per mutation.
  - Each mutation method is specified by the matching statement function and
    states the forest fact from `Preservation`.
  - The query methods read the table. `viewDefined` records whether `createView` has run.
- **`ExampleTrace`** (`example_trace.dfy`) runs the scenario of `examples/example.js`
  on a fresh `PostgresTree`. It computes the leaves and roots printed along the way, and
  ends with exactly rows 1 and 4, with 4 under 1.

Two behaviours of the code that are easy to misread:

- **Ancestor depths.** The `getAncestors` CTE gives the seed row depth 0, and
  `slice(1)` drops that row, so the direct parent is at `-1 - parent.ofset`.
- **The view after later mutations.** `createView` issues a plain
  `CREATE OR REPLACE RECURSIVE VIEW`, so `view()` re-evaluates it on the current table.

## Model

| member | source | states |
|---|---|---|
| Forest.Valid | lib/index.js:77 | the foreign key of `build`: every non-null parent is a key of the table (the primary key is the map key) |
| Forest.RootDistanceUnique | lib/index.js:118-126 | a parent chain reaches a root after at most one number of links |
| Forest.NoSelfAncestor | lib/index.js:118-126 | a row whose chain reaches a root is never its own proper ancestor |
| Forest.RootDistanceBound | lib/index.js:118-126 | a chain that reaches a root has fewer links than the table has rows, so `|t|` rounds of the ancestors CTE suffice |
| Forest.AncestorDistanceBound | lib/index.js:98-106 | a chain of k links into a row that is not its own proper ancestor has k < `|t|`, so `|t|` rounds of the descendants CTE suffice |
| Forest.RootedNotOwnAncestor | lib/index.js:98-106 | a row whose chain reaches a root is not its own proper ancestor, so getDescendants is defined on every row of a forest |
| Forest.RepeatMakesCycle | lib/index.js:98-106 | a chain that comes back to its start row and goes on to `a` puts `a` on a cycle |
| Forest.CycleNotRooted | lib/index.js:118-126 | a row lying on a parent cycle never reaches a root |
| Forest.RankedIsForest | lib/index.js:77 | proof infrastructure for the forest lemmas, not a statement of one source line: a table where every parent ranks lower than its child is a forest |
| Forest.ProperAncestorHasChild | lib/index.js:98-106 | a row with a proper descendant has a direct child |
| Forest.ParentInSubtree | lib/index.js:214-220 | a non-top member of a subtree has its parent in the subtree |
| Forest.ChildInSubtree | lib/index.js:214-220 | the child of a subtree member is in the subtree |
| Forest.RootDistanceStep | lib/index.js:118-126 | a row's parent is one link closer to the root |
| Forest.NotInSubtreeWithin | lib/index.js:214-220 | a row whose whole chain to the root avoids `a` is outside the subtree of `a` |
| Traversal.ClimbFrom | lib/index.js:118-126 | each round of the ancestors CTE adds at most one row, and the climb is empty exactly when no row matches the working row's parent_id |
| Traversal.ClimbFollowsParents | lib/index.js:118-126 | from a row `h` links below a root, the climb yields exactly `h` rows: the ancestors in order, with their table columns and each depth the previous one minus 1 minus the ancestor's ofset |
| Traversal.GetAncestors | lib/index.js:117-133 | getAncestors of an absent id is empty |
| Traversal.AncestorsAreParentChain | lib/index.js:117-133 | the i-th row of getAncestors is the (i+1)-th ancestor with its parent and name, the list ends at the root, and each depth is the previous one minus 1 minus that ancestor's ofset (starting from 0) |
| Traversal.AncestorDepthsDecrease | lib/index.js:117-133 | with non-negative offsets the ancestor depths strictly decrease and the last row is a root |
| Traversal.RootIffNoAncestors | src/index.js:59-75 | a row is a root exactly when getAncestors returns nothing |
| Traversal.ChildRowsAreChildren | lib/index.js:102-105 | each row of the join is a table row with its own columns whose parent is a working row, one step deeper by 1 plus its ofset; every child of a working row comes out of it |
| Traversal.UnionRounds | lib/index.js:98-106 | the UNION iteration only adds rows, and every row it adds carries the columns of a table row |
| Traversal.GetDescendants | lib/index.js:97-113 | getDescendants of an absent id is empty; it is defined whenever the start row is not its own proper ancestor |
| Traversal.DescendantsAreLevels | lib/index.js:97-113 | the UNION iteration returns exactly the rows of levels 1, 2, … below the start row |
| Traversal.DescendantsAreProperDescendants | lib/index.js:97-113 | the ids returned are exactly the rows that have the start row as proper ancestor (the seed row is dropped) |
| Traversal.DescendantRowsMatchTable | lib/index.js:97-113 | every descendant row carries its table row's columns, and each id appears once |
| Traversal.DescendantDepths | lib/index.js:98-101 | a direct child's depth is seed + 1 + its ofset; any other row's is its parent row's depth + 1 + its ofset (seed is the start row's ofset in lib/, 1 in src/) |
| Traversal.DescendantsMirrorAncestors | src/index.js:41-75 | when both queries are defined (id not its own ancestor, n's chain reaching a root, as in a forest), n is a descendant of id exactly when id is among n's ancestors |
| Traversal.ChildIsDescendant | src/index.js:41-57 | every direct child is returned by getDescendants |
| Traversal.LeafIffNoDescendants | src/index.js:41-57 | a row is a leaf exactly when getDescendants returns nothing for it |
| Traversal.GetLeaves | lib/index.js:295-304 | a row is returned iff it is in the table and no row names it as parent, so an isolated root is a leaf |
| Traversal.GetRoots | lib/index.js:308-318 | a row is returned iff its parent is NULL, with its name and ofset |
| ClosureView.Closure | lib/index.js:323-336 | every record of the view names a row of the table |
| ClosureView.RootsSeedView | lib/index.js:326-330 | every root seeds the view with the record (id, `{}`, 0, false) |
| ClosureView.ViewRows | lib/index.js:339-347 | lib/ reads back `id, ancestors, depth` (no cycle column); src/ reads every column including `cycle` |
| ClosureView.ExpandStep | lib/index.js:330-335 | one recursive round maps the records k links below a root to those k+1 links below |
| ClosureView.ClosureIsLevels | lib/index.js:323-336 | the view is the union of all levels below the roots |
| ClosureView.ViewHoldsRootedRows | lib/index.js:323-336 | the view holds exactly the rows whose chain reaches a root; rows on or under a cycle never appear |
| ClosureView.ViewRecordsAreChains | src/index.js:200-213 | each record's ancestor list is the chain from its root down to its parent, its cycle flag is false, and each id has one record |
| ClosureView.ViewAncestorsAreProperAncestors | src/index.js:208 | x is in a record's ancestor list exactly when x is a proper ancestor of the row |
| ClosureView.ViewDepths | lib/index.js:326-330 | roots have `([], 0)`; a child's depth is its parent record's depth + 1 (+ ofset in lib/); in src/ the depth is the length of the ancestor list |
| ClosureView.SrcDepthIsLinks | src/index.js:208 | without ofset the depth is the number of links below the root |
| ClosureView.ViewAncestorsReverseGetAncestors | src/index.js:59-75 | a record's ancestor list is the reverse of the ids getAncestors returns |
| ClosureView.ChainReversesAncestors | src/index.js:59-75 | the chain from a row's root down to its parent, read backwards, is the list of ids getAncestors returns |
| ClosureView.SubtreeIds | lib/index.js:216-220 | the rows removeSubtree targets always include `id`, and otherwise only rows of the table |
| ClosureView.SubtreeIdsAreDescendants | lib/index.js:214-220 | removeSubtree targets `id` plus exactly the rooted proper descendants of `id` |
| ClosureView.SubtreeIdsInForest | lib/index.js:214-220 | in a forest, removeSubtree targets `id` plus what getDescendants(id) returns |
| Mutations.Repoint | lib/index.js:172-174 | `SET parent_id = to WHERE parent_id = from` rewrites exactly the rows whose parent is `from`, and none when `from` is NULL |
| Mutations.RepointValid | lib/index.js:172-174 | re-pointing keeps the foreign key iff the new parent exists or no row matched |
| Mutations.AddNodeStmt | lib/index.js:137-152 | INSERT commits iff the id is new and the parent is NULL, existing or the row itself; a duplicate id is a unique violation, a dangling parent a foreign-key violation; the returned row is the new row and nothing else changes |
| Mutations.MoveSubtreeStmt | lib/index.js:156-167 | only the parent of `nodeId` changes; an absent `nodeId` changes nothing; aborts iff the new parent is dangling and the row exists; returns true |
| Mutations.MoveDescendantsStmt | lib/index.js:171-182 | every row whose parent was `nodeId` gets the new parent and all others are unchanged; `nodeId`'s own row changes only when it is its own parent; a NULL `nodeId` matches nothing; unless the new parent is `nodeId`, afterwards no row points to `nodeId` |
| Mutations.RemoveNodeStmt | src/index.js:105-121 | the row is deleted, its children take its former parent (NULL for a root), nothing else changes, no row points to it, and the rows returned are exactly the promoted children; an absent id changes nothing and returns none |
| Mutations.Promote | lib/index.js:194-203 | the deleted row is gone; names and offsets are kept; only the children of `id` change parent, and they take `id`'s parent; unless `id` was its own parent, no row points to it and the foreign key is kept |
| Mutations.RemoveNodeRowsAsWritten | lib/index.js:194-203 | every row removeNode returns as written carries the deleted row's id and parent_id, with the name and ofset of one of its children |
| Mutations.RemoveNodeRowsLoseChildIds | lib/index.js:193-210 | as written, every returned row carries the deleted row's id, so the promoted children's ids are lost |
| Mutations.RemoveNodeRowsCounterexample | lib/index.js:193-210 | on `{1: root a, 2: b under 1}`, removeNode(1) as written returns `{(1, NULL, b, 0)}` where the promoted row is `(2, NULL, b, 0)` |
| Mutations.RemoveSubtreeStmt | lib/index.js:214-226 | the rows the view places under `id`, and `id` itself, are deleted and no others, and the statement commits iff no surviving row points into the deleted set |
| Mutations.RemoveSubtreeValid | src/index.js:125-131 | deleting a set of rows keeps the foreign key iff no survivor points into it |
| Mutations.InsertNodeStmt | lib/index.js:239-259 | the new row gets parent `x`, only row `y` is re-pointed to it (without checking that y's parent was x), an absent `y` means insert only; aborts as addNode does |
| Mutations.ReplacingInsertNodeStmt | lib/index.js:270-291 | the new row gets parent `parent` and every earlier row whose parent was `parent` now hangs under it, so it is the sole child of `parent`; a NULL parent re-points nothing |
| Preservation.AddNodeForestIff | src/index.js:77-82 | in a forest, a committed addNode leaves a forest iff the new row is not its own parent |
| Preservation.MoveSubtreeUnderDescendantMakesCycle | lib/index.js:156-167 | moving a row under one of its own descendants commits and the row no longer reaches a root |
| Preservation.MoveSubtreeForestIff | lib/index.js:156-167 | in a forest, after moveSubtree the table is a forest iff the statement aborted, the new parent is NULL, or the new parent lies outside the moved subtree |
| Preservation.MoveSubtreeCarriesSubtree | src/index.js:84-89 | every path up to the moved row survives and continues to the new parent |
| Preservation.MoveSubtreeKeepsOtherChains | src/index.js:84-89 | rows outside the moved subtree keep their entire ancestor chain |
| Preservation.MoveDescendantsKeepsForest | lib/index.js:171-182 | in a forest, moveDescendants leaves a forest when the new parent is NULL, the row itself, or outside its subtree |
| Preservation.ChildrenUnderDescendantMakeCycle | lib/index.js:171-182 | repointing the children of `a` at a row of `a`'s own subtree, with nothing else changed, leaves that row unable to reach a root |
| Preservation.MoveDescendantsUnderDescendantMakesCycle | lib/index.js:171-182 | moving the children of `a` under a row of `a`'s own subtree commits and that row no longer reaches a root |
| Preservation.MoveDescendantsForestIff | lib/index.js:171-182 | in a forest, after moveDescendants the table is a forest iff `nodeId` is NULL, the new parent is NULL, `nodeId` itself or outside `nodeId`'s subtree, or `nodeId` has no children |
| Preservation.RemoveNodeKeepsForest | lib/index.js:193-210 | in a forest, removeNode of a present row always commits and leaves a forest |
| Preservation.RemoveNodeKeepsAncestry | src/index.js:106-120 | among the surviving rows, a is an ancestor of n after removeNode iff it was before |
| Preservation.SubtreeIdsAreSubtree | lib/index.js:214-220 | in a forest, the rows removeSubtree targets are exactly the subtree of `id` |
| Preservation.RestrictionKeepsForest | lib/index.js:214-226 | deleting rows from a forest without breaking the foreign key leaves a forest |
| Preservation.RemoveSubtreeCommits | src/index.js:123-133 | in a forest, removeSubtree never violates the foreign key |
| Preservation.RemoveSubtreeInForest | lib/index.js:214-226 | in a forest, removeSubtree commits, the survivors are exactly the rows outside the subtree, and they form a forest |
| Preservation.RemoveSubtreeDeletesDescendants | lib/index.js:214-226 | in a forest, removeSubtree deletes exactly `id` and what getDescendants(id) returns |
| Preservation.RemoveSubtreeOnCycleAborts | lib/index.js:214-226 | a row caught in a cycle is absent from the view, so deleting it while it has children aborts with a foreign-key violation |
| Preservation.InsertAboveKeepsForest | src/index.js:144-181 | adding a row under `x` and re-pointing rows from `x` to it keeps a forest |
| Preservation.InsertNodeSpliceKeepsForest | lib/index.js:239-259 | inserting between y and y's parent commits, keeps a forest, and the new row becomes y's parent with y's old parent above it |
| Preservation.NewRowSubtree | lib/index.js:239-259 | after a row `id` is added under `x`, a row `y` of the table lies above `id` exactly when it lies above `x` |
| Preservation.InsertNodeAsMove | lib/index.js:239-259 | insertNode with an existing `y` commits and leaves the same table as adding `id` under `x` and then moving `y` under `id` |
| Preservation.InsertNodeAboveRowForestIff | lib/index.js:239-259 | in a forest, insertNode with an existing `y` and `x` other than the new row leaves a forest iff `x` is NULL or `y` does not lie above `x` |
| Preservation.InsertNodeForestIff | lib/index.js:239-259 | in a forest, a committed insertNode leaves a forest iff the new row is not its own parent and `y`, when it names a row, does not lie above `x` |
| Preservation.InsertNodeUnderOwnTargetMakesCycle | lib/index.js:239-259 | inserting with `x` inside y's subtree commits and y no longer reaches a root |
| Preservation.ReplacingInsertForestIff | lib/index.js:270-291 | in a forest, a committed replacingInsertNode leaves a forest iff the new row is not its own parent |
| PostgresTreeModule.PostgresTree.constructor | lib/index.js:72-82 | a fresh tree has the empty table `build` creates and no view |
| PostgresTreeModule.PostgresTree.AddNode | lib/index.js:137-152 | the table becomes AddNodeStmt's outcome (unchanged on error), the reply is its row or error, and a forest stays a forest unless the row is its own parent |
| PostgresTreeModule.PostgresTree.MoveSubtree | lib/index.js:156-167 | the table becomes MoveSubtreeStmt's outcome, and a forest stays one iff the new parent is outside the moved subtree |
| PostgresTreeModule.PostgresTree.MoveDescendants | lib/index.js:171-182 | the table becomes MoveDescendantsStmt's outcome, and a forest stays one iff `nodeId` is NULL or childless, or the new parent is NULL, `nodeId` itself or not below `nodeId` |
| PostgresTreeModule.PostgresTree.RemoveNode | lib/index.js:193-210 | the table becomes RemoveNodeStmt's outcome, and on a forest it always succeeds and keeps a forest |
| PostgresTreeModule.PostgresTree.RemoveSubtree | lib/index.js:214-226 | the view is (re)defined, the table becomes RemoveSubtreeStmt's outcome, and on a forest it succeeds, deletes exactly the subtree and keeps a forest |
| PostgresTreeModule.PostgresTree.InsertNode | lib/index.js:239-259 | the table becomes InsertNodeStmt's outcome; a splice between y and its parent succeeds and keeps a forest; and on a forest a successful insert keeps a forest iff the new row is not its own parent and `y` does not lie above `x` |
| PostgresTreeModule.PostgresTree.ReplacingInsertNode | lib/index.js:270-291 | the table becomes ReplacingInsertNodeStmt's outcome, and a forest stays a forest unless the row is its own parent |
| PostgresTreeModule.PostgresTree.GetDescendants | lib/index.js:97-113 | for a start row that is not its own proper ancestor, returns the descendant rows, whose ids are exactly the proper descendants of `id` (none for an absent id) |
| PostgresTreeModule.PostgresTree.GetAncestors | lib/index.js:117-133 | returns the ancestor rows, the i-th being the (i+1)-th ancestor, ending at the root |
| PostgresTreeModule.PostgresTree.GetLeaves | lib/index.js:295-304 | returns exactly the rows no row names as parent |
| PostgresTreeModule.PostgresTree.GetRoots | lib/index.js:308-318 | returns exactly the rows with NULL parent |
| PostgresTreeModule.PostgresTree.CreateView | lib/index.js:322-348 | defines the view without touching the table and returns the view's rows |
| PostgresTreeModule.PostgresTree.View | lib/index.js:352-362 | reading the view before createView fails with an undefined-table error; afterwards it returns the view evaluated on the current table |
| ExampleTrace.AddSteps | examples/example.js:9-26 | the three addNode calls commit and build 1 with children 2 and 3 |
| ExampleTrace.ReplacingStep4 | examples/example.js:29-34 | replacingInsertNode 4 under 1 moves 2 and 3 under 4 |
| ExampleTrace.ReplacingStep5 | examples/example.js:36-41 | replacingInsertNode 5 under 4 gives the chain 1, 4, 5 above 2 and 3 |
| ExampleTrace.T5IsForest | examples/example.js:9-41 | the built table is a forest |
| ExampleTrace.LeavesAndRootsOfT5 | examples/example.js:44-49 | the leaves are 2 and 3 and the only root is 1 |
| ExampleTrace.DescendantsOfT5 | examples/example.js:52-53 | getDescendants(1) returns exactly the rows 4 (depth 1), 5 (depth 2), 2 and 3 (depth 3), each with its parent_id, name and ofset |
| ExampleTrace.AncestorsOfT5 | examples/example.js:56-57 | getAncestors(3) returns 5, 4, 1 at depths -1, -2, -3 |
| ExampleTrace.MoveSteps | examples/example.js:67-70 | moveSubtree(3, 2) puts 3 under 2, then moveDescendants(2, 4) moves it on to 4 |
| ExampleTrace.RemoveNodeStep | examples/example.js:73 | removeNode(3) deletes the childless row 3 |
| ExampleTrace.T8Subtree | examples/example.js:76 | before removeSubtree(5), the subtree of 5 is {5, 2} |
| ExampleTrace.RemoveSubtreeLeaves | lib/index.js:214-226 | in a forest, the table after removeSubtree is exactly the rows outside the subtree, unchanged |
| ExampleTrace.RemoveSubtreeStep | examples/example.js:76 | removeSubtree(5) leaves rows 1 and 4 |
| ExampleTrace.BuildExample | examples/example.js:7-41 | the build phase of the example yields the chain 1, 4, 5 above 2 and 3 |
| ExampleTrace.ReshapeExample | examples/example.js:67-76 | the reshape phase turns that table into {1, 4 under 1} |
| ExampleTrace.RunExample | examples/example.js:7-79 | the example prints leaves {2, 3} and roots {1}; getDescendants(1) returns the rows of DescendantsOfT5 (for the lib/ copy); getAncestors(3) returns 5, 4, 1 at depths -1, -2, -3; the first view() returns the view of the built table; the run ends with rows 1 and 4, 4 under 1, and its last view() returns the view of that table |

## Left out

- The `pg` connection pool, `dotenv` and the credentials in the environment (`lib/index.js:42-59`, `src/index.js:1-12`) are I/O and configuration. `client()` is an accessor of that pool, and the constructor's own `client` field shadows it, so `tree.client` is the pool and not the method.
- `build` and `destroy` are not modelled beyond what they declare. The model starts from the empty table that `build` creates, with its primary and foreign keys. It does not model `serial` id generation, dropping the table, or `name NOT NULL`: a `name` is always a string here.
- The transpiler helpers at the top of `lib/index.js` (lines 8-40) are left out.
- `async`/`await` is left out. So is the un-awaited `this.createView()` in `removeSubtree`, which races with the `DELETE`. The model evaluates the view on the current table, as a plain view is.
- The table name and the `id` in `removeSubtree` are pasted into the SQL text, which allows SQL injection. The model takes both as values.
- Row order is left out: query results are sets, except `getAncestors`, whose rows come in link order. The model assumes the seed row is the one that `slice(1)` drops.
- An undefined `offset` would store NULL and not the column default 0. `ofset` is a plain integer here.
- Traversal.GetDescendants: requires the start row not to be its own proper ancestor (then no row below it lies on a cycle). Traversal.GetAncestors: requires the start row's chain to reach a root. On a parent cycle each lap changes the depth by the cycle's length plus the sum of its offsets. Unless that sum is exactly minus the length, PostgreSQL's `UNION` never reaches a fixpoint and the query does not terminate. When it is, the rows repeat and the query ends; the model does not cover that case.
- Traversal.GetDescendants, Traversal.GetAncestors, ClosureView.Closure: `id`, `parent_id` and `ofset` are 32-bit `integer` columns (`lib/index.js:77`). The depth sums in the CTEs and the view (`lib/index.js:101`, `:121`, `:330`) can leave that range, and PostgreSQL then aborts the query with error 22003 "integer out of range". The model computes depths as unbounded integers and has no such error.
- Traversal.GetDescendants: the `UNION` iteration is modelled as set union. Rows that differ only in depth would both be kept, as in SQL; in a forest no such rows arise.
- ClosureView.Closure: `UNION ALL` is modelled as a set. Each id has exactly one record (`ViewRecordsAreChains`), so no duplicates are lost.
- ClosureView.ViewRows: the cycle flag can never become true when ids are unique. A row on a cycle is never reached from a root, so it simply does not appear in the view.
- PostgresTreeModule.PostgresTree.MoveSubtree: a NULL `nodeId` is not modelled, because `id = NULL` matches no row and the statement would be a no-op. The method takes an `int`.
- Mutations.RemoveNodeStmt: a row that is its own parent is deleted and is not also updated. PostgreSQL does not define the outcome of a row that the CTE deletes while the outer `UPDATE` matches it.
- Mutations.RemoveNodeStmt: models the evidently intended returned rows. The rows as written are in `Mutations.RemoveNodeRowsAsWritten`; see Findings.
- Preservation.MoveSubtreeForestIff, Preservation.MoveDescendantsForestIff, Preservation.RemoveNodeKeepsForest: their forest facts are stated for tables that are forests beforehand. On a table that already holds a cycle, the model states only the foreign key.
- Errors the model does not raise: 23502 (NOT NULL) for a null `id` or `name`, 22003 for a depth out of the 32-bit range (see above), and 42P01 for any method called before `build` creates the table.
- The SQL error `UndefinedTable` covers only reading the view before it exists. The `removeSubtree` `DELETE`, which races with view creation, is modelled as if the view already exists.

## Findings

| source | as written | input that shows it | evidently intended | confidence | as-written member | corrected member |
|---|---|---|---|---|---|---|
| lib/index.js:194-203 | `UPDATE … FROM deleted … RETURNING *` returns the columns of both the updated row and `deleted`. Both have an `id` and a `parent_id`, and node-postgres keeps the last column of a given name, so every returned row carries the deleted row's `id` | table `{1: (NULL, "a", 0), 2: (1, "b", 0)}`, `removeNode(1)`: returns `{id: 1, parent_id: NULL, name: "b", ofset: 0}` | the promoted child rows, here `{id: 2, parent_id: NULL, name: "b", ofset: 0}` (the method's comment promises `{ id, parent_id, name, offset }` of the rows) | medium, not executed | Mutations.RemoveNodeRowsCounterexample | Mutations.RemoveNodeStmt |
