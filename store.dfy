/**
 * The `blocks` table behind the application's database connection, and the
 * operations `src-tauri/src/blocks/mod.rs` runs against it. The table is the
 * field `rows`, in insertion order; every SQL statement becomes a method that
 * reads or reassigns it, and each method is proved against the functions of
 * the `Table` and `Reorder` modules.
 */
module Store {
  import opened Wrappers
  import opened Blocks
  import opened Table
  import opened Reorder

  /** The home page the workspace bootstrap creates under the workspace block. */
  function HomePage(homeId: Uuid, workspaceId: Uuid, createdAt: Timestamp, updatedAt: Timestamp): (b: Block)
    ensures b.id == homeId && b.parentId == workspaceId
    ensures b.blockType == "page" && b.favorite && b.children == [] && b.blockOrder.None?
    ensures b.blockContents == BlockContent("page", Some("Home"), None)
  {
    Block(homeId, workspaceId, "page", NewBlockContent("page", "Home"), None, true, [], createdAt, updatedAt)
  }

  /** The workspace block the bootstrap creates: it points at, and holds, its home page. */
  function WorkspaceBlock(workspaceId: Uuid, parentId: Uuid, home: Block,
                          createdAt: Timestamp, updatedAt: Timestamp): (b: Block)
    ensures b.id == workspaceId && b.parentId == parentId
    ensures b.blockType == "workspace" && !b.favorite && b.blockOrder.None?
    ensures b.blockContents == BlockContent("workspace", Some(home.id), None)
    ensures b.children == [home]
  {
    Block(workspaceId, parentId, "workspace", BlockContent("workspace", Some(home.id), None),
          None, false, [home], createdAt, updatedAt)
  }

  /**
   * The two inserts of the workspace bootstrap are allowed: the home page is a
   * fresh leaf under the workspace, and the workspace row is a new root whose
   * parent is stored nowhere and has no other children.
   */
  lemma BootstrapInserts(rows: seq<Row>, home: Block, workspace: Block)
    requires Fresh(rows, home.id) && Fresh(rows, workspace.parentId) && workspace.id !in IdsOf(rows)
    requires home.parentId == workspace.id
    requires home.id != workspace.id && workspace.parentId != workspace.id && workspace.parentId != home.id
    ensures FreshInsert(rows, home.id, home.parentId)
    ensures var withHome := rows + [ToRow(home, NextOrder(rows, workspace.id))];
            && FreshInsert(withHome, workspace.id, workspace.parentId)
            && NextOrder(withHome, workspace.parentId) == 0
  {
    var withHome := rows + [ToRow(home, NextOrder(rows, workspace.id))];
    KeysAppend(rows, ToRow(home, NextOrder(rows, workspace.id)));
    NoChildRows(withHome, workspace.parentId);
    NextOrderBounds(withHome, workspace.parentId);
  }

  /**
   * The identifiers the workspace bootstrap generates are fresh: the home page's
   * id and the workspace's parent are stored and named nowhere, and all three
   * ids differ.
   */
  predicate BootstrapIds(rows: seq<Row>, workspaceId: Uuid, workspaceParentId: Uuid, homeId: Uuid)
  {
    Fresh(rows, homeId) && Fresh(rows, workspaceParentId) &&
    homeId != workspaceId && workspaceParentId != workspaceId && workspaceParentId != homeId
  }

  class BlockStore {
    var rows: seq<Row>

    /** Ids are a primary key and parent links never form a cycle. */
    ghost predicate Valid()
      reads this
    {
      UniqueIds(rows) && Acyclic(rows)
    }

    /** A database in which the `blocks` table has just been created. */
    constructor ()
      ensures Valid() && rows == []
    {
      rows := [];
      assert Ranked([], map[]);
    }

    /** `from_row`: decode one row and load its children, recursively. */
    method FromRow(r: Row) returns (b: Block)
      requires Acyclic(rows) && r in rows
      ensures b == Hydrate(rows, r)
      ensures b.id == r.id && b.parentId == r.parentId && b.blockOrder == Some(r.blockOrder)
      decreases Height(rows, r.id), 1
    {
      var children := LoadBlockChildrenForId(r.id);
      b := FromRowWith(r, children);
    }

    /**
     * `load_block_children_for_id`: `SELECT * FROM blocks WHERE parent_id = ?1
     * ORDER BY block_order ASC`, each row hydrated by `FromRow`.
     */
    method LoadBlockChildrenForId(id: Uuid) returns (blocks: seq<Block>)
      requires Acyclic(rows)
      ensures blocks == Children(rows, id)
      decreases Height(rows, id), 0
    {
      var selected := SortByOrder(ChildRows(rows, id));
      ChildRowsSorted(rows, id, selected);
      blocks := [];
      var i := 0;
      while i < |selected|
        invariant 0 <= i <= |selected|
        invariant blocks == HydrateEach(rows, selected[..i])
      {
        var b := FromRow(selected[i]);
        HydrateEachStep(rows, selected, i);
        blocks := blocks + [b];
        i := i + 1;
      }
      assert selected[..i] == selected;
      ChildrenFold(rows, id);
    }

    /**
     * `load_for_parent`: every child of `parentId`, hydrated, in ascending
     * `block_order`, and nothing else.
     */
    method LoadForParent(parentId: Uuid) returns (blocks: seq<Block>)
      requires Valid()
      ensures blocks == Children(rows, parentId)
      ensures |blocks| == |ChildRows(rows, parentId)|
      ensures forall i :: 0 <= i < |blocks| ==> blocks[i].parentId == parentId && blocks[i].blockOrder.Some?
      ensures forall i, j :: 0 <= i < j < |blocks| ==> blocks[i].blockOrder.GetOr(0) <= blocks[j].blockOrder.GetOr(0)
      ensures forall x :: x in rows && x.parentId == parentId ==> Hydrate(rows, x) in blocks
    {
      blocks := LoadBlockChildrenForId(parentId);
      ChildrenSorted(rows, parentId);
      ChildrenExact(rows, parentId);
    }

    /**
     * `load_by_id`: `SELECT * FROM blocks WHERE id = ?1`, every row hydrated,
     * and the last one returned.
     */
    method LoadById(id: Uuid) returns (found: Option<Block>)
      requires Valid()
      ensures found == LoadedById(rows, id)
      ensures found.None? <==> id !in IdsOf(rows)
      ensures found.Some? ==> found.value.id == id && found.value.children == Children(rows, id)
    {
      var selected := RowsWithId(rows, id);
      var blocks: seq<Block> := [];
      var i := 0;
      while i < |selected|
        invariant 0 <= i <= |selected|
        invariant |blocks| == i
        invariant forall k :: 0 <= k < i ==> blocks[k] == Hydrate(rows, selected[k])
      {
        var b := FromRow(selected[i]);
        blocks := blocks + [b];
        i := i + 1;
      }
      found := if blocks == [] then None else Some(blocks[|blocks| - 1]);
      LoadedByIdSpec(rows, id);
    }

    /**
     * `load_last_block_in_same_page`: the child of `parentId` with the greatest
     * `block_order` (`ORDER BY block_order DESC LIMIT 1`), hydrated, or nothing
     * when `parentId` has no children.
     */
    method LoadLastBlockInSamePage(parentId: Uuid) returns (last: Option<Block>)
      requires Valid()
      ensures last.None? <==> ChildRows(rows, parentId) == []
      ensures last.Some? ==> last.value.blockOrder == Some(NextOrder(rows, parentId) - 1)
      ensures last.Some? ==> exists r :: r in rows && r.parentId == parentId && last.value == Hydrate(rows, r)
    {
      var best: Option<Row> := None;
      var i := 0;
      while i < |rows|
        invariant 0 <= i <= |rows|
        invariant best.None? <==> forall k :: 0 <= k < i ==> rows[k].parentId != parentId
        invariant best.Some? ==> best.value in rows && best.value.parentId == parentId
        invariant best.Some? ==> forall k :: 0 <= k < i && rows[k].parentId == parentId ==>
                                   rows[k].blockOrder <= best.value.blockOrder
      {
        if rows[i].parentId == parentId && (best.None? || rows[i].blockOrder > best.value.blockOrder) {
          best := Some(rows[i]);
        }
        i := i + 1;
      }
      match best
      case None =>
        NoSiblings(rows, parentId);
        last := None;
      case Some(r) =>
        GreatestSibling(rows, parentId, r);
        var b := FromRow(r);
        last := Some(b);
    }

    /**
     * `save` of a block that is not stored yet (`is_stored` is always false):
     * the row is appended with the order after its last sibling's, or 0 when it
     * has none.
     */
    method Save(b: Block)
      requires Valid() && FreshInsert(rows, b.id, b.parentId)
      modifies this
      ensures Valid()
      ensures rows == old(rows) + [ToRow(b, NextOrder(old(rows), b.parentId))]
    {
      var last := LoadLastBlockInSamePage(b.parentId);
      NextOrderBounds(rows, b.parentId);
      var order := match last
        case Some(l) => l.blockOrder.GetOr(0) + 1
        case None => 0;
      var row := ToRow(b, order);
      InsertKeepsUniqueIds(rows, row);
      InsertKeepsAcyclic(rows, row);
      rows := rows + [row];
    }

    /**
     * `create_block_command`: build a new block and save it; loading its id
     * afterwards gives the block back with the order it was stored with.
     */
    method CreateBlock(rawData: string, contentType: string, parentId: Uuid, id: Uuid,
                       createdAt: Timestamp, updatedAt: Timestamp) returns (b: Block)
      requires Valid() && Fresh(rows, id) && id != parentId
      modifies this
      ensures Valid()
      ensures b == NewBlock(id, parentId, contentType, rawData, createdAt, updatedAt)
      ensures rows == old(rows) + [ToRow(b, NextOrder(old(rows), parentId))]
      ensures LoadedById(rows, id) == Some(b.(blockOrder := Some(NextOrder(old(rows), parentId))))
    {
      b := NewBlock(id, parentId, contentType, rawData, createdAt, updatedAt);
      Save(b);
      SaveLoadRoundTrip(old(rows), b, NextOrder(old(rows), parentId));
    }

    /** One `UPDATE blocks SET block_order = f(row)` over the whole table. */
    method UpdateOrders(f: Row -> int)
      requires Valid()
      modifies this
      ensures Valid()
      ensures rows == MapOrders(old(rows), f)
      ensures IdsOf(rows) == IdsOf(old(rows))
    {
      var i := 0;
      while i < |rows|
        invariant 0 <= i <= |rows| && |rows| == |old(rows)|
        invariant forall k :: 0 <= k < i ==> rows[k] == old(rows)[k].(blockOrder := f(old(rows)[k]))
        invariant forall k :: i <= k < |rows| ==> rows[k] == old(rows)[k]
      {
        rows := rows[i := rows[i].(blockOrder := f(rows[i]))];
        i := i + 1;
      }
      assert rows == MapOrders(old(rows), f);
      MapOrdersKeepsLinks(old(rows), f);
    }

    /**
     * `change_block_order`, as written: shift the siblings of `b`, set the order
     * of `b` to `newOrder`, and load it again.
     */
    method ChangeBlockOrder(b: Block, newOrder: int) returns (moved: Block)
      requires Valid() && b.id in IdsOf(rows)
      modifies this
      ensures Valid()
      ensures rows == Reordered(old(rows), b.id, b.parentId, b.blockOrder.GetOr(0), newOrder)
      ensures Some(moved) == LoadedById(rows, b.id)
      ensures moved.id == b.id && moved.blockOrder == Some(newOrder)
    {
      var oldOrder := b.blockOrder.GetOr(0);
      if newOrder > oldOrder {
        UpdateOrders(DecrementRule(b.parentId, oldOrder, newOrder));
      } else {
        UpdateOrders(IncrementRule(b.parentId, oldOrder));
      }
      FindRowAfterSet(rows, b.id, newOrder);
      UpdateOrders(SetRule(b.id, newOrder));
      var reloaded := LoadById(b.id);
      moved := reloaded.value;
    }

    /**
     * `change_block_order` corrected: one UPDATE moves the block to `newOrder`
     * and shifts by one only the siblings between its old and its new slot, so
     * a parent whose children carry 0..k-1 still does afterwards.
     */
    method ChangeBlockOrderDense(b: Block, newOrder: int) returns (moved: Block)
      requires Valid()
      requires exists i :: 0 <= i < |rows| && rows[i].id == b.id && rows[i].parentId == b.parentId &&
                           rows[i].blockOrder == b.blockOrder.GetOr(0)
      requires 0 <= newOrder < |ChildRows(rows, b.parentId)|
      modifies this
      ensures Valid()
      ensures rows == DenseReordered(old(rows), b.id, b.parentId, b.blockOrder.GetOr(0), newOrder)
      ensures Dense(old(rows), b.parentId) ==> Dense(rows, b.parentId)
      ensures Some(moved) == LoadedById(rows, b.id)
      ensures moved.id == b.id && moved.blockOrder == Some(newOrder)
    {
      var oldOrder := b.blockOrder.GetOr(0);
      if Dense(rows, b.parentId) {
        DenseMoveKeepsDense(rows, b.id, b.parentId, oldOrder, newOrder);
      }
      FindRowAfterDenseMove(rows, b.id, b.parentId, oldOrder, newOrder);
      UpdateOrders(DenseRule(b.id, b.parentId, oldOrder, newOrder));
      var reloaded := LoadById(b.id);
      moved := reloaded.value;
    }

    /**
     * `change_block_order_command`: load the block by id (the source unwraps the
     * result, so the id must be stored) and move it.
     */
    method ChangeBlockOrderCommand(blockId: Uuid, newOrder: int) returns (moved: Block)
      requires Valid() && blockId in IdsOf(rows)
      modifies this
      ensures Valid()
      ensures var r := FindRow(old(rows), blockId).value;
              rows == Reordered(old(rows), blockId, r.parentId, r.blockOrder, newOrder)
      ensures Some(moved) == LoadedById(rows, blockId)
      ensures moved.id == blockId && moved.blockOrder == Some(newOrder)
    {
      var block := LoadById(blockId);
      moved := ChangeBlockOrder(block.value, newOrder);
    }

    /**
     * `find_or_create_workspace_block`: return the stored workspace block, or
     * create it together with its home page. Afterwards the workspace is always
     * stored, so a second call changes nothing.
     */
    method FindOrCreateWorkspaceBlock(workspaceId: Uuid, workspaceParentId: Uuid, homeId: Uuid,
                                      workspaceCreatedAt: Timestamp, workspaceUpdatedAt: Timestamp,
                                      homeCreatedAt: Timestamp, homeUpdatedAt: Timestamp)
      returns (workspace: Block)
      requires Valid()
      requires workspaceId !in IdsOf(rows) ==> BootstrapIds(rows, workspaceId, workspaceParentId, homeId)
      modifies this
      ensures Valid()
      ensures workspaceId in IdsOf(rows)
      ensures workspaceId in old(IdsOf(rows)) ==>
                rows == old(rows) && Some(workspace) == old(LoadedById(rows, workspaceId))
      ensures workspaceId !in old(IdsOf(rows)) ==>
                var home := HomePage(homeId, workspaceId, homeCreatedAt, homeUpdatedAt);
                && workspace == WorkspaceBlock(workspaceId, workspaceParentId, home, workspaceCreatedAt, workspaceUpdatedAt)
                && rows == old(rows) + [ToRow(home, NextOrder(old(rows), workspaceId)), ToRow(workspace, 0)]
    {
      var existing := LoadById(workspaceId);
      if existing.Some? {
        workspace := existing.value;
        return;
      }
      workspace := CreateWorkspaceBlock(workspaceId, workspaceParentId, homeId, workspaceCreatedAt,
                                        workspaceUpdatedAt, homeCreatedAt, homeUpdatedAt);
    }

    /**
     * The creating branch of `find_or_create_workspace_block`: save the home
     * page under the workspace id, point the workspace's contents at it, adopt
     * it as the only child, and save the workspace as a new root.
     */
    method CreateWorkspaceBlock(workspaceId: Uuid, workspaceParentId: Uuid, homeId: Uuid,
                                workspaceCreatedAt: Timestamp, workspaceUpdatedAt: Timestamp,
                                homeCreatedAt: Timestamp, homeUpdatedAt: Timestamp)
      returns (workspace: Block)
      requires Valid() && workspaceId !in IdsOf(rows)
      requires BootstrapIds(rows, workspaceId, workspaceParentId, homeId)
      modifies this
      ensures Valid()
      ensures workspaceId in IdsOf(rows)
      ensures var home := HomePage(homeId, workspaceId, homeCreatedAt, homeUpdatedAt);
              && workspace == WorkspaceBlock(workspaceId, workspaceParentId, home, workspaceCreatedAt, workspaceUpdatedAt)
              && rows == old(rows) + [ToRow(home, NextOrder(old(rows), workspaceId)), ToRow(workspace, 0)]
    {
      workspace := Block(workspaceId, workspaceParentId, "workspace", NewBlockContent("workspace", ""),
                         None, false, [], workspaceCreatedAt, workspaceUpdatedAt);
      var homepage := Block(homeId, workspaceId, "page", NewBlockContent("page", "Home"),
                            None, true, [], homeCreatedAt, homeUpdatedAt);
      assert homepage == HomePage(homeId, workspaceId, homeCreatedAt, homeUpdatedAt);
      BootstrapInserts(rows, homepage, workspace);
      ghost var homeRow := ToRow(homepage, NextOrder(rows, workspaceId));
      Save(homepage);
      ghost var withHome := rows;
      workspace := workspace.(blockContents := workspace.blockContents.(contents := Some(homeId)));
      workspace := workspace.(children := workspace.children + [homepage]);
      assert workspace == WorkspaceBlock(workspaceId, workspaceParentId, homepage, workspaceCreatedAt, workspaceUpdatedAt);
      Save(workspace);
      KeysAppend(withHome, ToRow(workspace, 0));
      AppendPair(old(rows), homeRow, ToRow(workspace, 0));
    }

    /**
     * `find_or_create_workspace_block` corrected: after creating the workspace
     * and its home page, load the workspace back from the table, so that every
     * call returns the stored block.
     */
    method FindOrCreateWorkspaceBlockReloaded(workspaceId: Uuid, workspaceParentId: Uuid, homeId: Uuid,
                                              workspaceCreatedAt: Timestamp, workspaceUpdatedAt: Timestamp,
                                              homeCreatedAt: Timestamp, homeUpdatedAt: Timestamp)
      returns (workspace: Block)
      requires Valid()
      requires workspaceId !in IdsOf(rows) ==> BootstrapIds(rows, workspaceId, workspaceParentId, homeId)
      modifies this
      ensures Valid()
      ensures workspaceId in IdsOf(rows)
      ensures Some(workspace) == LoadedById(rows, workspaceId)
      ensures workspaceId in old(IdsOf(rows)) ==> rows == old(rows)
      ensures workspaceId !in old(IdsOf(rows)) ==>
                var home := HomePage(homeId, workspaceId, homeCreatedAt, homeUpdatedAt);
                var created := WorkspaceBlock(workspaceId, workspaceParentId, home, workspaceCreatedAt, workspaceUpdatedAt);
                rows == old(rows) + [ToRow(home, NextOrder(old(rows), workspaceId)), ToRow(created, 0)]
    {
      var existing := LoadById(workspaceId);
      if existing.Some? {
        workspace := existing.value;
        return;
      }
      var created := CreateWorkspaceBlock(workspaceId, workspaceParentId, homeId, workspaceCreatedAt,
                                          workspaceUpdatedAt, homeCreatedAt, homeUpdatedAt);
      var reloaded := LoadById(workspaceId);
      workspace := reloaded.value;
    }

    /**
     * Two calls of `find_or_create_workspace_block` on a table without the
     * workspace: the second changes nothing, yet the two calls return different
     * blocks. The first returns the block built in memory, with no order; the
     * second returns the stored block, with order 0.
     */
    method BootstrapTwice(workspaceId: Uuid, workspaceParentId: Uuid, homeId: Uuid,
                          workspaceCreatedAt: Timestamp, workspaceUpdatedAt: Timestamp,
                          homeCreatedAt: Timestamp, homeUpdatedAt: Timestamp)
      returns (first: Block, second: Block)
      requires Valid() && workspaceId !in IdsOf(rows)
      requires BootstrapIds(rows, workspaceId, workspaceParentId, homeId)
      modifies this
      ensures Valid()
      ensures rows == old(rows) + [ToRow(HomePage(homeId, workspaceId, homeCreatedAt, homeUpdatedAt),
                                         NextOrder(old(rows), workspaceId)),
                                   ToRow(first, 0)]
      ensures first.blockOrder == None && second.blockOrder == Some(0)
      ensures first != second
    {
      first := FindOrCreateWorkspaceBlock(workspaceId, workspaceParentId, homeId, workspaceCreatedAt,
                                          workspaceUpdatedAt, homeCreatedAt, homeUpdatedAt);
      second := FindOrCreateWorkspaceBlock(workspaceId, workspaceParentId, homeId, workspaceCreatedAt,
                                           workspaceUpdatedAt, homeCreatedAt, homeUpdatedAt);
      LoadedByIdSpec(rows, workspaceId);
      assert rows[|rows| - 1].id == workspaceId;
    }

    /**
     * Two calls of the corrected bootstrap return the same block, the one
     * stored for the workspace; on a table without the workspace it has order 0.
     */
    method BootstrapTwiceReloaded(workspaceId: Uuid, workspaceParentId: Uuid, homeId: Uuid,
                                  workspaceCreatedAt: Timestamp, workspaceUpdatedAt: Timestamp,
                                  homeCreatedAt: Timestamp, homeUpdatedAt: Timestamp)
      returns (first: Block, second: Block)
      requires Valid()
      requires workspaceId !in IdsOf(rows) ==> BootstrapIds(rows, workspaceId, workspaceParentId, homeId)
      modifies this
      ensures Valid()
      ensures first == second
      ensures Some(first) == LoadedById(rows, workspaceId)
      ensures workspaceId !in old(IdsOf(rows)) ==> first.blockOrder == Some(0)
      ensures workspaceId in old(IdsOf(rows)) ==> rows == old(rows)
      ensures workspaceId !in old(IdsOf(rows)) ==>
                var home := HomePage(homeId, workspaceId, homeCreatedAt, homeUpdatedAt);
                var created := WorkspaceBlock(workspaceId, workspaceParentId, home, workspaceCreatedAt, workspaceUpdatedAt);
                rows == old(rows) + [ToRow(home, NextOrder(old(rows), workspaceId)), ToRow(created, 0)]
    {
      first := FindOrCreateWorkspaceBlockReloaded(workspaceId, workspaceParentId, homeId, workspaceCreatedAt,
                                                  workspaceUpdatedAt, homeCreatedAt, homeUpdatedAt);
      second := FindOrCreateWorkspaceBlockReloaded(workspaceId, workspaceParentId, homeId, workspaceCreatedAt,
                                                   workspaceUpdatedAt, homeCreatedAt, homeUpdatedAt);
      if workspaceId !in old(IdsOf(rows)) {
        LoadedByIdSpec(rows, workspaceId);
        assert rows[|rows| - 1].id == workspaceId;
      }
    }

    /**
     * `load_home_page_command`: the workspace's last child, or, when the
     * workspace has none, a new "Home" page saved under it.
     */
    method LoadHomePage(workspaceId: Uuid, homeId: Uuid, createdAt: Timestamp, updatedAt: Timestamp)
      returns (home: Block)
      requires Valid()
      requires ChildRows(rows, workspaceId) == [] ==> Fresh(rows, homeId) && homeId != workspaceId
      modifies this
      ensures Valid()
      ensures home.parentId == workspaceId
      ensures old(ChildRows(rows, workspaceId)) == [] ==>
                home == NewBlock(homeId, workspaceId, "page", "Home", createdAt, updatedAt) &&
                rows == old(rows) + [ToRow(home, 0)]
      ensures old(ChildRows(rows, workspaceId)) != [] ==>
                rows == old(rows) && home in old(Children(rows, workspaceId)) &&
                forall c :: c in old(Children(rows, workspaceId)) ==> c.blockOrder.GetOr(0) <= home.blockOrder.GetOr(0)
    {
      var blocks := LoadForParent(workspaceId);
      if |blocks| == 0 {
        home := NewBlock(homeId, workspaceId, "page", "Home", createdAt, updatedAt);
        NextOrderBounds(rows, workspaceId);
        Save(home);
        return;
      }
      home := blocks[|blocks| - 1];
    }
  }
}
