# my-blocks block store, in Dafny

This project models the block store of my-blocks, a notes and outliner
application (`src-tauri/src/blocks/mod.rs`). It covers:

- the `Block` and `BlockContent` values and their constructors;
- the single SQLite table `blocks` as the field `rows: seq<Row>` of a class
  `BlockStore`, in insertion order;
- the store's operations as methods over that field: `save`, the loaders,
  the recursive hydration of `from_row`, `change_block_order`, the
  workspace bootstrap, and the commands built on them.

Each method's loop is proved against a specification function over the rows,
and the properties are proved about those functions.

Modules:

- `Wrappers` (`wrappers.dfy`): `Option`.
- `Blocks` (`block.dfy`): the in-memory block, the row the table stores for it,
  and the pure constructors.
- `Table` (`table.dfy`): the table as a sequence of rows, with these queries as
  functions:
  - the `WHERE parent_id` and `WHERE id` filters;
  - `ORDER BY block_order` as a stable insertion sort;
  - the greatest sibling order that `save` reads;
  - the recursive hydration of children.

  It also holds the table's invariants:
  - `id` is a primary key (`UniqueIds`);
  - parent links form no cycle (`Acyclic`, witnessed by a rank map).
    Without this, the source's recursion would not terminate.

  `Dense` (a parent's children carry exactly the orders 0..k-1) is the
  intended ordering per parent, not an invariant the table keeps. `save` keeps
  it (`SaveKeepsDense`); `change_block_order` as written does not.
- `Reorder` (`reorder.dfy`): `change_block_order` as UPDATE passes, exactly as
  written. It includes concrete inputs on which these passes break `Dense`, and
  a corrected move that keeps it.
- `Store` (`store.dfy`): the class `BlockStore` and its methods.

The table's invariant `Valid()` is `UniqueIds(rows) && Acyclic(rows)`. Every
method that changes the table keeps it.

Inputs that the source takes from outside are parameters here:

- each fresh id (`Uuid::now_v7`);
- each clock reading (`Utc::now`);
- the configured workspace id.

A fresh id is modelled by `Fresh`: it is neither stored nor named as a parent.

Sibling orders are meant to stay 0..k-1 under each parent, which is what the
greatest-plus-one rule of `save` keeps. The reorder of `change_block_order` does
not keep them so. This model follows the code, and the difference is recorded
under Findings, together with a corrected move.

## Model

| member | source | states |
|---|---|---|
| Blocks.BlockTypeFromContentType | src-tauri/src/blocks/mod.rs:49-55 | the block type is "page" exactly when the content type is "page", and "text" otherwise; it is never "workspace" |
| Blocks.NewBlockContent | src-tauri/src/blocks/mod.rs:27-33 | the payload carries the content type and the raw data as contents, and no title |
| Blocks.NewBlock | src-tauri/src/blocks/mod.rs:58-74 | a new block is unsaved (no order, not a favourite, no children); it has the given id, parent and clock readings, a type derived from the content type, and the content built by `BlockContent::new` |
| Blocks.BlockRoundTrip | src-tauri/src/blocks/mod.rs:127-145 | decoding the row that `save` writes for a block, with the block's own children, gives the block back with the stored order |
| Blocks.RowRoundTrip | src-tauri/src/blocks/mod.rs:127-145 | decoding a row and encoding the result with the row's own order gives the row back: `from_row` loses no column |
| Table.ChildRows | src-tauri/src/blocks/mod.rs:151 | `WHERE parent_id = ?1` selects exactly the stored rows whose parent is the given id |
| Table.RowsWithId | src-tauri/src/blocks/mod.rs:230 | `WHERE id = ?1` selects exactly the stored rows with the given id |
| Table.SortByOrderPermutes | src-tauri/src/blocks/mod.rs:151 | `ORDER BY block_order ASC` returns the same rows, as a multiset |
| Table.SortByOrderSorted | src-tauri/src/blocks/mod.rs:151 | `ORDER BY block_order ASC` returns rows in ascending order |
| Table.UniqueIdsDistinct | src-tauri/src/storage/mod.rs:43 | the primary-key invariant (no row repeats an earlier id) is equivalent to every two positions holding different ids |
| Table.FindRow | src-tauri/src/blocks/mod.rs:230-240 | the row `load_by_id` ends with is absent exactly when the id is not stored; otherwise it is a stored row with that id |
| Table.LoadedByIdSpec | src-tauri/src/blocks/mod.rs:223-241 | under the primary key, `load_by_id` is `None` exactly when the id is not stored; otherwise it is the one row with that id, decoded, with its children loaded |
| Table.ChildrenSorted | src-tauri/src/blocks/mod.rs:147-162 | the loaded children are one per child row; each names the parent and has an order; they come in ascending order |
| Table.ChildrenExact | src-tauri/src/blocks/mod.rs:147-162 | every child row is among the loaded children, hydrated, and every loaded child is such a hydrated row |
| Table.LastSiblingOrderSpec | src-tauri/src/blocks/mod.rs:104-121 | the greatest sibling order is absent exactly when no row has the parent; otherwise it is the order of one child and at least the order of every child |
| Table.NextOrderBounds | src-tauri/src/blocks/mod.rs:92-95 | `save` computes 0 for a parent without children; otherwise it computes one more than the greatest sibling order, which is above every sibling's order |
| Table.GreatestSibling | src-tauri/src/blocks/mod.rs:110 | a child whose order is at least every sibling's has order exactly one below what `save` computes next |
| Table.NextOrderOfDense | src-tauri/src/blocks/mod.rs:92-95 | when a parent's children carry 0..k-1, `save` gives the next child order k |
| Table.SaveKeepsDense | src-tauri/src/blocks/mod.rs:76-102 | inserting a child with the order `save` computes turns children numbered 0..k-1 into 0..k |
| Table.SaveKeepsOtherParents | src-tauri/src/blocks/mod.rs:85-99 | an insert changes the children of no other parent, and keeps or breaks the density of no other parent |
| Table.SuccessiveSaves | src-tauri/src/blocks/mod.rs:76-102 | successive saves under a parent without children give the orders 0, 1, 2, … in the order saved |
| Table.InsertKeepsUniqueIds | src-tauri/src/storage/mod.rs:43 | inserting a row whose id is not stored keeps `id` a primary key |
| Table.InsertKeepsAcyclic | src-tauri/src/blocks/mod.rs:85-99 | inserting a fresh leaf, or a row whose parent is not stored, closes no cycle of parents |
| Table.SaveLoadRoundTrip | src-tauri/src/blocks/mod.rs:76-102 | after a fresh block is saved, `load_by_id` of its id gives the block back with the stored order and no children |
| Reorder.ReorderedEffect | src-tauri/src/blocks/mod.rs:243-269 | row by row, `change_block_order`: the moved row gets the new order. Moving forward, each other sibling below the old order or at/after the new one drops by one. Otherwise each other sibling below the old order rises by one. Every other row and every other column is unchanged |
| Reorder.MapOrdersKeepsLinks | src-tauri/src/blocks/mod.rs:249-269 | an UPDATE of `block_order` keeps the primary key, the absence of cycles, the set of ids and the set of parents |
| Reorder.ReorderedKeepsLinks | src-tauri/src/blocks/mod.rs:243-269 | the whole reorder keeps the primary key, the absence of cycles, the ids and the parent links |
| Reorder.FindRowAfterSet | src-tauri/src/blocks/mod.rs:266-271 | after `SET block_order = ?1 WHERE id = ?2`, the block reloaded by id is present and has the new order |
| Reorder.BackwardMoveDuplicatesOrder | src-tauri/src/blocks/mod.rs:258-264 | the dense siblings A0 B1 C2 D3, with D moved to 1 as written, get orders [1, 2, 3, 1], which are not dense |
| Reorder.ForwardMoveMakesNegativeOrder | src-tauri/src/blocks/mod.rs:247-256 | the dense siblings A0 B1 C2, with B moved to 2 as written, get orders [-1, 2, 1], which are not dense |
| Reorder.MoveInPlaceChangesOrders | src-tauri/src/blocks/mod.rs:247-264 | the dense siblings A0 B1 C2, with B moved to its own order 1 as written, get orders [1, 1, 2], which are not dense |
| Reorder.FindRowAfterDenseMove | src-tauri/src/blocks/mod.rs:266-271 | after the corrected move, the block reloaded by id is present and has the new order |
| Reorder.DenseMoveKeepsDense | src-tauri/src/blocks/mod.rs:243-269 | the corrected move takes a child at its old order to any new order in 0..k-1 and keeps the parent's orders exactly 0..k-1 |
| Reorder.DenseMoveExample | src-tauri/src/blocks/mod.rs:243-269 | with A0 B1 C2 D3, moving D to 1 under the corrected move gives A0 B2 C3 D1 |
| Store.HomePage | src-tauri/src/blocks/mod.rs:199-209 | the home page is a favourite "page" block under the workspace with contents "Home", unsaved and without children |
| Store.WorkspaceBlock | src-tauri/src/blocks/mod.rs:187-214 | the workspace block is a non-favourite "workspace" block whose contents name the home page's id and whose only child is the home page |
| Store.BootstrapInserts | src-tauri/src/blocks/mod.rs:211-215 | both bootstrap inserts are allowed. The home page is a fresh child of the workspace; after it, the workspace is a new root and `save` gives it order 0 |
| Store.BlockStore.constructor | src-tauri/src/storage/mod.rs:42-50 | a freshly created `blocks` table is empty and well formed |
| Store.BlockStore.FromRow | src-tauri/src/blocks/mod.rs:127-145 | the block is the row's columns, with the children loaded recursively; it keeps the row's id, parent and order |
| Store.BlockStore.LoadBlockChildrenForId | src-tauri/src/blocks/mod.rs:147-162 | the loop's result is the parent's child rows in ascending order, each hydrated |
| Store.BlockStore.LoadForParent | src-tauri/src/blocks/mod.rs:164-181 | the result has one block per child row. Each names the parent and has an order; they are in ascending order; every child row appears hydrated |
| Store.BlockStore.LoadById | src-tauri/src/blocks/mod.rs:223-241 | the result is `None` exactly when the id is not stored; otherwise it is the block with that id and its children loaded |
| Store.BlockStore.LoadLastBlockInSamePage | src-tauri/src/blocks/mod.rs:104-121 | the result is `None` exactly when the parent has no children; otherwise it is a hydrated child whose order is the greatest among its siblings |
| Store.BlockStore.Save | src-tauri/src/blocks/mod.rs:76-102 | the table gains exactly the block's row, with the order one past the last sibling's or 0, and stays well formed |
| Store.BlockStore.CreateBlock | src-tauri/src/blocks/mod.rs:276-290 | the new block is appended with its computed order. Loading its id returns the block with that order |
| Store.BlockStore.UpdateOrders | src-tauri/src/blocks/mod.rs:249-269 | an UPDATE pass rewrites each row's order by the rule and changes nothing else. Ids, keys and acyclicity are kept |
| Store.BlockStore.ChangeBlockOrder | src-tauri/src/blocks/mod.rs:243-272 | the table becomes the as-written reorder of the old table and stays well formed. The block is reloaded, with its new order |
| Store.BlockStore.ChangeBlockOrderDense | src-tauri/src/blocks/mod.rs:243-272 | the corrected reorder: the table becomes the dense move of the old table. A dense parent stays dense, and the block is reloaded with its new order |
| Store.BlockStore.ChangeBlockOrderCommand | src-tauri/src/blocks/mod.rs:327-345 | the stored block with the given id is loaded, then moved as written to the new order. The result is the moved block as `load_by_id` reloads it, children included, with its new order |
| Store.BlockStore.FindOrCreateWorkspaceBlock | src-tauri/src/blocks/mod.rs:183-220 | afterwards the workspace is stored. If it already was, nothing changes and the stored block is returned. Otherwise the home page and then the workspace are inserted, so a second call changes nothing |
| Store.BlockStore.CreateWorkspaceBlock | src-tauri/src/blocks/mod.rs:186-218 | the home page row, then the workspace row at order 0, are appended. The returned workspace holds the home page as its only child and names it in its contents |
| Store.BlockStore.FindOrCreateWorkspaceBlockReloaded | src-tauri/src/blocks/mod.rs:183-220 | the corrected bootstrap: the table changes as in `FindOrCreateWorkspaceBlock`, and the result is always the workspace as `load_by_id` loads it from the table |
| Store.BlockStore.BootstrapTwice | src-tauri/src/blocks/mod.rs:183-220 | two calls as written on a table without the workspace: the table changes only in the first call, yet the first returns a block with no order and the second the stored block with order 0, so the results differ |
| Store.BlockStore.BootstrapTwiceReloaded | src-tauri/src/blocks/mod.rs:183-220 | two calls of the corrected bootstrap return the same block, the stored workspace. If it was stored before, the table is unchanged; otherwise exactly the home row and then the workspace row at order 0 are appended, and the workspace has order 0 |
| Store.BlockStore.LoadHomePage | src-tauri/src/blocks/mod.rs:347-368 | without children, a new unsaved "Home" page block is returned and stored at order 0. Otherwise nothing changes and the child with the greatest order is returned |

## Left out

- `BlockContent::to_json` and `from_json_string`: serde JSON encoding is taken
  to be lossless. The `data` column holds the `BlockContent` value itself.
- `Uuid::parse_str` and `to_string`, and the RFC 3339 timestamp text: ids are
  their text form and instants are integers. Decode errors from malformed
  stored text cannot happen in the model.
- Fresh ids and clock readings (`Uuid::now_v7`, `Utc::now`) are parameters.
  `Fresh` stands for the uniqueness a v7 UUID is relied on for.
- Store.BlockStore.Save: requires `FreshInsert`. The source relies on the
  primary key to reject a duplicate id and panics on the `unwrap` if it does.
  The model also asks that the insert close no cycle of parents, which the
  source never checks.
- Store.BlockStore.ChangeBlockOrder: requires the block to be stored, because
  the source's reload (`load_by_id(...).unwrap().unwrap()`, mod.rs:271) panics
  otherwise.
- Store.BlockStore.ChangeBlockOrderCommand: requires the id to be stored,
  because the source unwraps the lookup at mod.rs:337.
- Store.BlockStore.FindOrCreateWorkspaceBlock: takes the random workspace
  parent and the home page id as parameters. They must be fresh
  (`BootstrapIds`) only when the workspace is not stored, because the source
  generates them only then.
- Store.BlockStore.LoadHomePage: takes the new home page id as a parameter,
  required fresh only when the workspace has no children.
- Store.BlockStore.Save: states the inserted row and the order but not
  density. Density is stated by `Table.SaveKeepsDense` and
  `Table.SuccessiveSaves`, because the table may already hold non-dense
  orders from a reorder.
- The `i32` width of `block_order`: orders are unbounded integers. The
  overflow of `unwrap_or_default() + 1` and `block_order - 1` at the `i32`
  bounds is not modelled.
- Rows with equal `block_order`: SQL leaves their order under `ORDER BY`
  unspecified. The model keeps them in table order, with a stable insertion
  sort.
- Store.BlockStore.LoadLastBlockInSamePage: the model's loop picks the first
  stored row among those with the greatest order; SQL's `ORDER BY block_order
  DESC LIMIT 1` (mod.rs:110) leaves that choice open. The contract says only
  that the result has the greatest order.
- The `is_stored` branch of `save` (mod.rs:79-83): `is_stored` always
  returns false, so the branch is dead and `Save` always inserts.
- `get_block_command` and `load_blocks_for_page_command` only parse an id
  and serialize the result of `load_by_id` and `load_for_parent`. The
  commands' JSON output is not modelled.
- Storage failures: the connection pool, `prepare` and `execute` errors, and
  the panics of their `unwrap`s. The table in the model cannot fail.
- Concurrency and transactions: every operation runs alone and completes. Two
  concurrent saves that read the same last order are not modelled.
- Logging, the Tauri command registration and `State`, `main.rs`, the
  configuration, and the TypeScript front end.
- `src-tauri/src/blocks/block.rs` is not part of this model.

## Findings

| source | as written | input that shows it | evidently intended | confidence | as-written member | corrected member |
|---|---|---|---|---|---|---|
| src-tauri/src/blocks/mod.rs:258-264 | moving backward adds one to every sibling below the old order, including those before the new slot | siblings A0 B1 C2 D3, move D to 1: orders [1, 2, 3, 1] | only the siblings from the new slot up to the old one move on by one: A0 B2 C3 D1 | not executed | Reorder.BackwardMoveDuplicatesOrder | Reorder.DenseMoveKeepsDense |
| src-tauri/src/blocks/mod.rs:247-256 | moving forward subtracts one from the siblings below the old order and those at or after the new order | siblings A0 B1 C2, move B to 2: orders [-1, 2, 1] | only the siblings after the old slot up to the new one move back by one: A0 B2 C1 | not executed | Reorder.ForwardMoveMakesNegativeOrder | Store.BlockStore.ChangeBlockOrderDense |
| src-tauri/src/blocks/mod.rs:217 | the creating call returns the block built in memory: no order, with the unsaved home page as child. Every later call returns the stored block | empty table, two bootstrap calls with the same workspace id: the first result has order `None`, the second `Some(0)`, although the second call changes nothing | every call returns the stored workspace block, reloaded after creation | not executed | Store.BlockStore.BootstrapTwice | Store.BlockStore.BootstrapTwiceReloaded |
| src-tauri/src/blocks/mod.rs:247 | a move to the block's own order takes the backward branch and shifts the siblings before it | siblings A0 B1 C2, move B to 1: orders [1, 1, 2] | nothing moves | not executed | Reorder.MoveInPlaceChangesOrders | Reorder.DenseMoveKeepsDense |
