# Page-tree model of a client-side wiki

This project is a Dafny model of the data core of a small browser wiki.
It covers three parts:

- **The page store** (`src/store.ts`). This is a flat, ordered list of pages. Each page has an `id`, a `title`, a `content` and a `parentId`, which is a page id or null. The store has four list transforms: `addPage`, `updatePage`, `deletePage` and `movePage`.
- **The sidebar page tree** (`src/components/PageTree.tsx`). `buildTree` derives a recursive view from the parent ids, and `toggleNode` flips the set of expanded nodes. The module also covers the tree's buttons: "Add subpage", "Delete page" (not shown for the root) and the top-level "New Page".
- **The table-size picker** (`src/components/TableInsert.tsx`). This is a 6 x 6 grid that opens from a toolbar button. Hovering a cell selects a rectangle, and a click emits its size and closes the grid.

Modules:

- `Seqs` (`seqs.dfy`) holds the `filter`/`map` the store and tree are written with. They are stated by what they keep: order, multiplicities and positions.
- `Store` (`store.dfy`) holds `Page`, the initial store and the four transforms. It also holds the store invariants: unique ids, acyclic parent graph, and a top-level root page.
- `Tree` (`tree.dfy`) holds `TreeNode`, `Children`, `BuildTree` and the predicate `Appears`. `Appears(forest, p)` means some node anywhere in the forest shows page `p`.
- `Wiki` (`wiki.dfy`) holds the expansion set, the chevron click, the title label and selection lookup. It also holds the user actions and the invariant every reachable store keeps.
- `TablePicker` (`table_picker.dfy`) holds the picker state machine.

A few points need explanation:

- **Ids from `uuidv4()`.** The caller passes the new id as a parameter. Properties that need it to be new assume `Fresh`: no page has the id and no page names it as its parent.
- **Zustand's `set`.** Each transform is a pure function from the old list to the new one.
- **`null`** is `None` in an `Option`.
- **`Partial<Page>`** is a `PageUpdate` with one optional value per field.
- **`BuildTree` termination.** The source recursion has no guard. `BuildTree` requires `Acyclic`: there is a rank on ids that strictly decreases from a parent id to each child's id. `Wiki.SessionKeepsHealthy` shows that every store the UI can reach meets this requirement. The reason is that the UI never calls `movePage`.
- **Single-level delete.** `deletePage` removes the target and its direct children only. Grandchildren stay in the store with a parent id that names no page. `Tree.OrphanNotShown` shows that such pages never appear in the tree.

## Model

| member | source | states |
|---|---|---|
| `Seqs.Filter` | src/store.ts:43-45 | the result is no longer than the input and holds only elements that pass the test |
| `Seqs.FilterCounts` | src/store.ts:43-45 | every kept element keeps its full multiplicity and every other element is dropped |
| `Seqs.FilterIsSubseq` | src/store.ts:43-45 | the result is a subsequence of the input, in the original order |
| `Seqs.Map` | src/store.ts:37-39 | the result has the same length and holds the transformed element at every position |
| `Seqs.FilterAppend` | src/components/PageTree.tsx:20-21 | filtering a list with one element appended equals the filtered list, plus that element if it is kept |
| `Store.InitialStore` | src/store.ts:20-25 | the initial store holds exactly one page: id "root", parent null, non-empty welcome content; it has unique ids, is acyclic and has a top-level root |
| `Store.AddPage` | src/store.ts:27-34 | the result is one longer, the old list is an unchanged prefix, and the last page has the given id, title and parent and empty content |
| `Store.AddPageKeepsIdsUnique` | src/store.ts:27-34 | appending with an id no page has keeps all ids distinct |
| `Store.AddPageKeepsAcyclic` | src/store.ts:27-34 | appending a fresh id whose page is not its own parent keeps the parent graph acyclic |
| `Store.AddPageKeepsRoot` | src/store.ts:27-34 | a top-level root page stays present after any append |
| `Store.UpdatePage` | src/store.ts:36-40 | length is kept; pages with another id are unchanged; a matching page takes each supplied field and keeps each absent one |
| `Store.UpdateMissingIsNoOp` | src/store.ts:36-40 | updating an id no page has returns the store unchanged |
| `Store.UpdateTitleOnly` | src/store.ts:36-40 | a title-only update changes the title of the matching pages and nothing else |
| `Store.UpdateKeepsStructure` | src/store.ts:36-40 | an update without id or parent fields keeps every id and every parent link in place |
| `Store.UpdateKeepsInvariants` | src/store.ts:36-40 | such an update keeps ids unique, the graph acyclic and the root present |
| `Store.DeletePage` | src/store.ts:42-46 | no page in the result is the target or its direct child; every other page keeps its multiplicity; the result is a subsequence of the store |
| `Store.DeleteMembership` | src/store.ts:42-46 | a page is in the result if and only if it is in the store and is neither the target nor a direct child of it |
| `Store.DeleteMissingIsNoOp` | src/store.ts:42-46 | deleting an id that no page has or points to returns the store unchanged |
| `Store.DeleteIdempotent` | src/store.ts:42-46 | deleting the same id twice gives the same store as deleting it once |
| `Store.DeleteOrphansGrandchildren` | src/store.ts:42-46 | a grandchild of the target survives, and its parent id then names no page |
| `Store.SubseqKeepsIdsUnique` | src/store.ts:43-45 | any subsequence of a store with unique ids has unique ids |
| `Store.DeleteKeepsInvariants` | src/store.ts:42-46 | deletion keeps ids unique and the graph acyclic, and keeps the root page unless the root is the target |
| `Store.MovePage` | src/store.ts:48-52 | length, order and every id, title and content are kept; only matching pages take the new parent |
| `Store.MoveRoundTrip` | src/store.ts:48-52 | with unique ids, moving a page back to its old parent restores the store |
| `Store.MoveMissingIsNoOp` | src/store.ts:48-52 | moving an id that no page has returns the store unchanged |
| `Store.MoveToTopKeepsAcyclic` | src/store.ts:48-52 | moving a page to the top level cannot create a cycle |
| `Store.MoveUnderChildIsCyclic` | src/store.ts:48-52 | in any store, moving a page under one of its own children makes the store cyclic, because no check is made |
| `Store.MoveCanCreateCycle` | src/store.ts:48-52 | on one three-page store (root, a, b under a), the store is acyclic before a is moved under b and cyclic after |
| `Store.MutualParentsAreCyclic` | src/store.ts:48-52 | two pages that are each other's parent make the store cyclic |
| `Tree.Children` | src/components/PageTree.tsx:20-21 | the pages with the given parent id, each with its full multiplicity, in store order |
| `Tree.ChildMembership` | src/components/PageTree.tsx:20-21 | a page is listed under a parent if and only if it is in the store with that parent id |
| `Tree.BuildTree` | src/components/PageTree.tsx:19-27 | on an acyclic store, the recursion ends and yields one node per child page, in store order |
| `Tree.NodeChildren` | src/components/PageTree.tsx:22-25 | each node's page is a store page with the requested parent, and its children are the tree built under that page's id |
| `Tree.AppearsSound` | src/components/PageTree.tsx:19-27 | any page shown in the tree is in the store, and is either directly under the requested parent or a child of another shown page |
| `Tree.TopLevelAppears` | src/components/PageTree.tsx:19-27 | every store page directly under the requested parent is shown |
| `Tree.ChildOfShownAppears` | src/components/PageTree.tsx:22-25 | every store child of a shown page is shown |
| `Tree.OrphanNotShown` | src/components/PageTree.tsx:19-27 | a page whose parent id names no page never appears in the tree rooted at the top level |
| `Tree.DeletedGrandchildHidden` | src/store.ts:42-46 | after a delete, a grandchild of the target stays in the store but is no longer shown in the tree |
| `Tree.AddedPageListedLast` | src/store.ts:27-34 | a new page is listed last under its parent, and every other parent's child list is unchanged |
| `Wiki.Toggle` | src/components/PageTree.tsx:29-39 | membership of the toggled id flips and every other id keeps its membership |
| `Wiki.ToggleTwice` | src/components/PageTree.tsx:29-39 | toggling the same id twice restores the expanded set |
| `Wiki.ChevronClick` | src/components/PageTree.tsx:56 | the expanded set changes only for a node with children; then that node's membership flips and nothing else changes |
| `Wiki.DisplayTitle` | src/components/PageTree.tsx:72 | an empty title is shown as "Untitled" and a non-empty title as is, so the label is never empty |
| `Wiki.FindPage` | src/App.tsx:9 | the result is empty if and only if no page has the id; otherwise it is the first page with that id |
| `Wiki.FindPageStep` | src/App.tsx:9 | if the first page does not match, searching the whole list gives the same result as searching the rest |
| `Wiki.DeletedSelectionDangles` | src/App.tsx:7-9 | after the selected page is deleted, looking up the selection finds nothing |
| `Wiki.AddSubpageButton` | src/components/PageTree.tsx:77-80 | on every store, the button's action appends one page with the new id, title "New Page", empty content and the node's id as parent, and changes nothing else |
| `Wiki.DeleteButton` | src/components/PageTree.tsx:85-96 | a delete action is offered if and only if the node is not the root, and it deletes that node's id |
| `Wiki.AddSubpageListedLast` | src/components/PageTree.tsx:79 | "Add subpage" appends a "New Page" with empty content, listed last among the node's children |
| `Wiki.AddTopLevelListedLast` | src/components/PageTree.tsx:115 | the top-level button appends a "New Page" with empty content, listed last among the top-level pages |
| `Wiki.InitialView` | src/components/PageTree.tsx:17 | the initial tree is the root page alone with no children; the expanded set is exactly the root, and the root is selected |
| `Wiki.Apply` | src/App.tsx:25 | the title field rewrites only the title of the page with the selected id, an editor change (src/components/Editor.tsx:129) only its content, and every other page stays as it was |
| `Wiki.EditorShowsNewContent` | src/components/Editor.tsx:127-131 | after an editor change, looking the page up by id finds a page exactly when one existed, and the page found has the new content |
| `Wiki.ActionKeepsHealthy` | src/components/PageTree.tsx:77-115 | any action the UI can issue, with fresh ids and never deleting the root, keeps ids unique, the graph acyclic and the root present |
| `Wiki.SessionKeepsHealthy` | src/components/PageTree.tsx:77-115 | any sequence of such actions from a healthy store leaves it healthy |
| `Wiki.ReachableTreeShowsRoot` | src/components/PageTree.tsx:108 | from the initial store, after any allowed session, the tree can be built and shows the root page |
| `TablePicker.ToggleGrid` | src/components/TableInsert.tsx:28 | the toolbar button flips whether the grid is shown and keeps the hovered size |
| `TablePicker.ToggleTwice` | src/components/TableInsert.tsx:28 | pressing the button twice restores the picker state |
| `TablePicker.InitialState` | src/components/TableInsert.tsx:9-12 | the picker starts closed with 0 x 0 hovered, which is a well-formed state, on a 6 x 6 grid |
| `TablePicker.MouseEnter` | src/components/TableInsert.tsx:14-16 | after hovering grid cell (row, col), rows and cols lie in [1, 6], and a grid cell is highlighted if and only if it is at or above-left of the hovered cell |
| `TablePicker.Click` | src/components/TableInsert.tsx:18-21 | a click emits the hovered rows and cols, closes the grid and keeps the hovered size |
| `TablePicker.EventsKeepWellFormed` | src/components/TableInsert.tsx:14-28 | toggle, hover and click keep the hovered size at 0 x 0 or within 1..6 x 1..6 |
| `TablePicker.HoverThenClick` | src/components/TableInsert.tsx:49-50 | hovering cell (row, col) and then clicking emits a (row+1) x (col+1) table and closes the grid |
| `TablePicker.CountHighlighted` | src/components/TableInsert.tsx:40-45 | scanning the 6 x 6 grid row by row finds exactly rows * cols highlighted cells |

## Left out

- Tree.BuildTree: requires the whole store to be acyclic. This is stronger than necessary: the source recursion also ends when a cycle exists but cannot be reached from the requested parent. Every store the UI can reach is acyclic (`Wiki.SessionKeepsHealthy`).
- Store.UpdatePage: JavaScript's spread also copies a field that is present but explicitly `undefined`. The model treats such a field as absent. No caller in the application passes one.
- Store.AddPage: the default `parentId = null` for an omitted argument is not a separate function. Every caller passes the parent explicitly, and `None` stands for null.
- `uuidv4` randomness is not modelled. Ids are a parameter, and freshness is a stated assumption (`Fresh`), not a guarantee.
- React rendering is not modelled: indentation by level, icons, hover styling, and the rule that only expanded nodes render their children. These affect display only; the tree data they render is modelled.
- The title and content edits from the editor are modelled as `Wiki.Action` values that call `updatePage`. The rich-text editor, image upload, diagram rendering, resizable sidebar and the unused `Sidebar`/`types` store interface are not part of this model. They are foreign library calls, floating-point layout, or code that no other file uses.
- The editor-side table insertion that consumes the emitted size is not modelled. It is a call into the rich-text library.
