/**
 * The `blocks` table as a sequence of rows, in insertion order, and the
 * queries of src-tauri/src/blocks/mod.rs stated as functions over it: the
 * `WHERE` filters, `ORDER BY block_order`, the greatest sibling order that
 * `save` reads, and the recursive hydration of `from_row`.
 */
module Table {
  import opened Wrappers
  import opened Blocks

  // ---------------------------------------------------------------------------
  // Filters and keys

  /** A `WHERE` clause: the rows that satisfy `keep`, in table order. */
  function Select(rows: seq<Row>, keep: Row -> bool): (r: seq<Row>)
    ensures |r| <= |rows|
  {
    if rows == [] then []
    else
      var last := rows[|rows| - 1];
      Select(rows[..|rows| - 1], keep) + (if keep(last) then [last] else [])
  }

  /** A row is selected exactly when it is in the table and satisfies `keep`. */
  lemma {:induction false} SelectMembers(rows: seq<Row>, keep: Row -> bool)
    ensures forall x :: x in Select(rows, keep) <==> x in rows && keep(x)
    decreases |rows|
  {
    if rows != [] {
      var init := rows[..|rows| - 1];
      SelectMembers(init, keep);
      assert rows == init + [rows[|rows| - 1]];
    }
  }

  /** `WHERE parent_id = ?1`: the direct children of `parentId`. */
  function ChildRows(rows: seq<Row>, parentId: Uuid): (r: seq<Row>)
    ensures forall x :: x in r <==> x in rows && x.parentId == parentId
  {
    var keep := (x: Row) => x.parentId == parentId;
    SelectMembers(rows, keep);
    Select(rows, keep)
  }

  /** `WHERE id = ?1`. */
  function RowsWithId(rows: seq<Row>, id: Uuid): (r: seq<Row>)
    ensures forall x :: x in r <==> x in rows && x.id == id
  {
    var keep := (x: Row) => x.id == id;
    SelectMembers(rows, keep);
    Select(rows, keep)
  }

  function IdsOf(rows: seq<Row>): set<Uuid>
  {
    set i | 0 <= i < |rows| :: rows[i].id
  }

  function ParentIdsOf(rows: seq<Row>): set<Uuid>
  {
    set i | 0 <= i < |rows| :: rows[i].parentId
  }

  /** `id` is the table's primary key: no row repeats an id stored before it. */
  predicate UniqueIds(rows: seq<Row>)
    decreases |rows|
  {
    rows == [] || (UniqueIds(rows[..|rows| - 1]) && rows[|rows| - 1].id !in IdsOf(rows[..|rows| - 1]))
  }

  /** The primary key, pairwise: two positions never hold the same id. */
  predicate DistinctIds(rows: seq<Row>)
  {
    forall i, j :: 0 <= i < j < |rows| ==> rows[i].id != rows[j].id
  }

  lemma {:induction false} UniqueIdsDistinct(rows: seq<Row>)
    ensures UniqueIds(rows) <==> DistinctIds(rows)
  {
    if rows != [] {
      var init := rows[..|rows| - 1];
      var last := rows[|rows| - 1];
      UniqueIdsDistinct(init);
      if UniqueIds(rows) {
        forall i, j | 0 <= i < j < |rows| ensures rows[i].id != rows[j].id {
          assert init[i] == rows[i];
          if j == |rows| - 1 {
            assert rows[i].id in IdsOf(init);
          } else {
            assert init[j] == rows[j];
          }
        }
      }
      if DistinctIds(rows) {
        assert DistinctIds(init) by {
          forall i, j | 0 <= i < j < |init| ensures init[i].id != init[j].id {
            assert init[i] == rows[i] && init[j] == rows[j];
          }
        }
        forall k | 0 <= k < |init| ensures init[k].id != last.id {
          assert init[k] == rows[k];
        }
      }
    }
  }

  /** A freshly generated identifier: neither stored nor referenced as a parent. */
  predicate Fresh(rows: seq<Row>, id: Uuid)
  {
    id !in IdsOf(rows) && id !in ParentIdsOf(rows)
  }

  /**
   * What an insert of (`id`, `parentId`) needs: the primary key is new, the row is
   * not its own parent, and it does not close a chain of parents — either nothing
   * stored names `id` as its parent, or its own parent is not stored.
   */
  predicate FreshInsert(rows: seq<Row>, id: Uuid, parentId: Uuid)
  {
    id !in IdsOf(rows) && id != parentId && (id !in ParentIdsOf(rows) || parentId !in IdsOf(rows))
  }

  /** Two appends in a row add both rows, in order. */
  lemma AppendPair(rows: seq<Row>, a: Row, b: Row)
    ensures rows + [a] + [b] == rows + [a, b]
  {
  }

  lemma KeysAppend(rows: seq<Row>, row: Row)
    ensures IdsOf(rows + [row]) == IdsOf(rows) + {row.id}
    ensures ParentIdsOf(rows + [row]) == ParentIdsOf(rows) + {row.parentId}
  {
    var rows' := rows + [row];
    assert rows'[|rows|] == row;
    forall x | x in IdsOf(rows) ensures x in IdsOf(rows') {
      var i :| 0 <= i < |rows| && rows[i].id == x;
      assert rows'[i].id == x;
    }
    forall x | x in ParentIdsOf(rows) ensures x in ParentIdsOf(rows') {
      var i :| 0 <= i < |rows| && rows[i].parentId == x;
      assert rows'[i].parentId == x;
    }
  }

  /** The row at position `m` is the only one with its id. */
  lemma UniqueIdAt(rows: seq<Row>, m: int)
    requires UniqueIds(rows) && 0 <= m < |rows|
    ensures forall j :: 0 <= j < |rows| && j != m ==> rows[j].id != rows[m].id
  {
    UniqueIdsDistinct(rows);
  }

  /** A table with the same ids, position by position, keeps the primary key. */
  lemma {:induction false} SameIdsKeepUnique(rows: seq<Row>, r: seq<Row>)
    requires UniqueIds(rows) && |r| == |rows|
    requires forall i :: 0 <= i < |rows| ==> r[i].id == rows[i].id
    ensures UniqueIds(r)
  {
    if rows != [] {
      var n := |rows| - 1;
      SameIdsKeepUnique(rows[..n], r[..n]);
      KeysSame(rows[..n], r[..n]);
    }
  }

  lemma KeysSame(rows: seq<Row>, r: seq<Row>)
    requires |r| == |rows|
    requires forall i :: 0 <= i < |rows| ==> r[i].id == rows[i].id
    ensures IdsOf(r) == IdsOf(rows)
  {
    forall x | x in IdsOf(r) ensures x in IdsOf(rows) {
      var i :| 0 <= i < |r| && r[i].id == x;
      assert rows[i].id == x;
    }
  }

  lemma {:induction false} SelectKeepsUniqueIds(rows: seq<Row>, keep: Row -> bool)
    requires UniqueIds(rows)
    ensures UniqueIds(Select(rows, keep))
  {
    if rows != [] {
      var init := rows[..|rows| - 1];
      var last := rows[|rows| - 1];
      SelectKeepsUniqueIds(init, keep);
      if keep(last) {
        var s := Select(init, keep);
        SelectMembers(init, keep);
        forall k | 0 <= k < |s| ensures s[k].id != last.id {
          assert s[k] in init;
          var m :| 0 <= m < |init| && init[m] == s[k];
          assert init[m].id in IdsOf(init);
        }
        InsertKeepsUniqueIds(s, last);
      } else {
        assert Select(rows, keep) == Select(init, keep);
      }
    }
  }

  // ---------------------------------------------------------------------------
  // ORDER BY block_order

  predicate SortedByOrder(s: seq<Row>)
  {
    forall i, j :: 0 <= i < j < |s| ==> s[i].blockOrder <= s[j].blockOrder
  }

  function InsertByOrder(x: Row, s: seq<Row>): (r: seq<Row>)
    ensures |r| == |s| + 1
  {
    if s == [] then [x]
    else if x.blockOrder <= s[0].blockOrder then [x] + s
    else [s[0]] + InsertByOrder(x, s[1..])
  }

  /** Inserting adds exactly `x`. */
  lemma {:induction false} InsertByOrderAdds(x: Row, s: seq<Row>)
    ensures multiset(InsertByOrder(x, s)) == multiset(s) + multiset{x}
    ensures forall y :: y in InsertByOrder(x, s) <==> y == x || y in s
    decreases |s|
  {
    if s != [] && x.blockOrder > s[0].blockOrder {
      InsertByOrderAdds(x, s[1..]);
      assert s == [s[0]] + s[1..];
    }
  }

  /** Inserting into a sorted sequence keeps it sorted. */
  /** A lower bound of `x` and of every row of `s` bounds every row of the insert. */
  lemma {:induction false} InsertByOrderAbove(x: Row, s: seq<Row>, lo: int)
    requires lo <= x.blockOrder
    requires forall k :: 0 <= k < |s| ==> lo <= s[k].blockOrder
    ensures forall k :: 0 <= k < |InsertByOrder(x, s)| ==> lo <= InsertByOrder(x, s)[k].blockOrder
    decreases |s|
  {
    if s != [] && s[0].blockOrder < x.blockOrder {
      InsertByOrderAbove(x, s[1..], lo);
      var tail := InsertByOrder(x, s[1..]);
      assert InsertByOrder(x, s) == [s[0]] + tail;
      forall k | 0 <= k < |InsertByOrder(x, s)| ensures lo <= InsertByOrder(x, s)[k].blockOrder {
        if k > 0 {
          assert InsertByOrder(x, s)[k] == tail[k - 1];
        }
      }
    }
  }

  lemma {:induction false} InsertByOrderSorted(x: Row, s: seq<Row>)
    requires SortedByOrder(s)
    ensures SortedByOrder(InsertByOrder(x, s))
    decreases |s|
  {
    if s == [] {
    } else if x.blockOrder <= s[0].blockOrder {
      var r := [x] + s;
      forall i, j | 0 <= i < j < |r|
        ensures r[i].blockOrder <= r[j].blockOrder
      {
        if i == 0 {
          assert r[j] == s[j - 1];
        } else {
          assert r[i] == s[i - 1] && r[j] == s[j - 1];
        }
      }
    } else {
      var tail := InsertByOrder(x, s[1..]);
      InsertByOrderSorted(x, s[1..]);
      InsertByOrderAbove(x, s[1..], s[0].blockOrder);
      var r := [s[0]] + tail;
      assert InsertByOrder(x, s) == r;
      forall i, j | 0 <= i < j < |r|
        ensures r[i].blockOrder <= r[j].blockOrder
      {
        if i == 0 {
          assert r[j] == tail[j - 1];
        } else {
          assert r[i] == tail[i - 1] && r[j] == tail[j - 1];
        }
      }
    }
  }

  /**
   * `ORDER BY block_order ASC`: rows with equal orders keep their table order
   * (SQL leaves that choice open); `SortByOrderPermutes` and `SortByOrderSorted`
   * state that the result is a sorted permutation.
   */
  function SortByOrder(s: seq<Row>): (r: seq<Row>)
    ensures |r| == |s|
  {
    if s == [] then [] else InsertByOrder(s[0], SortByOrder(s[1..]))
  }

  /** `ORDER BY block_order ASC` yields a permutation of its input ... */
  lemma {:induction false} SortByOrderPermutes(s: seq<Row>)
    ensures multiset(SortByOrder(s)) == multiset(s)
    ensures forall x :: x in SortByOrder(s) <==> x in s
    decreases |s|
  {
    if s != [] {
      SortByOrderPermutes(s[1..]);
      InsertByOrderAdds(s[0], SortByOrder(s[1..]));
      assert s == [s[0]] + s[1..];
    }
  }

  /** ... in ascending `block_order`. */
  lemma {:induction false} SortByOrderSorted(s: seq<Row>)
    ensures SortedByOrder(SortByOrder(s))
    decreases |s|
  {
    if s != [] {
      SortByOrderSorted(s[1..]);
      InsertByOrderSorted(s[0], SortByOrder(s[1..]));
    }
  }

  /** Membership only, for the callers that need no more. */
  lemma SortByOrderMembers(s: seq<Row>)
    ensures forall x :: x in SortByOrder(s) <==> x in s
  {
    SortByOrderPermutes(s);
  }

  // ---------------------------------------------------------------------------
  // Acyclic parent links: what makes the recursive loaders terminate

  /**
   * Every row has a rank below the number of rows, and a rank strictly below its
   * parent's whenever the parent has one. A stored parent always has one, so
   * following parent links strictly raises the rank and cannot return to a row.
   */
  ghost predicate Ranked(rows: seq<Row>, rank: map<Uuid, nat>)
  {
    forall i :: 0 <= i < |rows| ==>
      && rows[i].id in rank
      && rank[rows[i].id] < |rows|
      && (rows[i].parentId in rank ==> rank[rows[i].id] < rank[rows[i].parentId])
  }

  /** No chain of stored parents runs in a cycle. */
  ghost predicate Acyclic(rows: seq<Row>)
  {
    exists rank :: Ranked(rows, rank)
  }

  ghost function SomeRank(rows: seq<Row>): (rank: map<Uuid, nat>)
    requires Acyclic(rows)
    ensures Ranked(rows, rank)
  {
    var rank :| Ranked(rows, rank); rank
  }

  /** The termination measure of hydration: an id without a rank sits above every row. */
  ghost function Height(rows: seq<Row>, id: Uuid): nat
    requires Acyclic(rows)
  {
    var rank := SomeRank(rows);
    if id in rank then rank[id] else |rows|
  }

  lemma ChildRowsBelow(rows: seq<Row>, parentId: Uuid, kids: seq<Row>)
    requires Acyclic(rows)
    requires forall x :: x in kids ==> x in rows && x.parentId == parentId
    ensures forall x :: x in kids ==> Height(rows, x.id) < Height(rows, parentId)
  {
    forall x | x in kids
      ensures Height(rows, x.id) < Height(rows, parentId)
    {
      var i :| 0 <= i < |rows| && rows[i] == x;
    }
  }

  /** The sorted child rows are stored children of `parentId`, each below it in height. */
  lemma ChildRowsSorted(rows: seq<Row>, parentId: Uuid, kids: seq<Row>)
    requires Acyclic(rows) && kids == SortByOrder(ChildRows(rows, parentId))
    ensures forall k :: 0 <= k < |kids| ==>
              kids[k] in rows && kids[k].parentId == parentId && Height(rows, kids[k].id) < Height(rows, parentId)
  {
    SortByOrderMembers(ChildRows(rows, parentId));
    ChildRowsBelow(rows, parentId, kids);
    forall k | 0 <= k < |kids|
      ensures kids[k] in rows && kids[k].parentId == parentId && Height(rows, kids[k].id) < Height(rows, parentId)
    {
      assert kids[k] in kids;
    }
  }

  // ---------------------------------------------------------------------------
  // Hydration (from_row / load_block_children_for_id / load_for_parent / load_by_id)

  /** The children `from_row` loads for `parentId`: its child rows in ascending order, each hydrated. */
  function Children(rows: seq<Row>, parentId: Uuid): seq<Block>
    requires Acyclic(rows)
    decreases Height(rows, parentId), 0
  {
    var kids := SortByOrder(ChildRows(rows, parentId));
    ChildRowsSorted(rows, parentId, kids);
    seq(|kids|, i requires 0 <= i < |kids| => Hydrate(rows, kids[i]))
  }

  /** `from_row`: the row's columns, with its children loaded recursively. */
  function Hydrate(rows: seq<Row>, r: Row): Block
    requires Acyclic(rows) && r in rows
    decreases Height(rows, r.id), 1
  {
    FromRowWith(r, Children(rows, r.id))
  }

  /** The row `SELECT * FROM blocks WHERE id = ?1` yields last (`blocks.pop()`), if any. */
  function FindRow(rows: seq<Row>, id: Uuid): (r: Option<Row>)
    ensures r.None? <==> id !in IdsOf(rows)
    ensures r.Some? ==> r.value in rows && r.value.id == id
  {
    var matching := RowsWithId(rows, id);
    if matching == [] then
      assert forall i :: 0 <= i < |rows| ==> rows[i] !in matching;
      None
    else
      assert matching[|matching| - 1] in matching;
      Some(matching[|matching| - 1])
  }

  /** `load_by_id`. */
  function LoadedById(rows: seq<Row>, id: Uuid): Option<Block>
    requires Acyclic(rows)
  {
    match FindRow(rows, id)
    case None => None
    case Some(r) => Some(Hydrate(rows, r))
  }

  /** The rows of `s`, each hydrated, in order: what the loaders' loops build. */
  function HydrateEach(rows: seq<Row>, s: seq<Row>): (r: seq<Block>)
    requires Acyclic(rows) && forall k :: 0 <= k < |s| ==> s[k] in rows
    ensures |r| == |s|
  {
    if s == [] then [] else HydrateEach(rows, s[..|s| - 1]) + [Hydrate(rows, s[|s| - 1])]
  }

  /** One step of the loaders' loops: hydrating one more row of `s` appends it. */
  lemma HydrateEachStep(rows: seq<Row>, s: seq<Row>, i: int)
    requires Acyclic(rows) && (forall k :: 0 <= k < |s| ==> s[k] in rows) && 0 <= i < |s|
    ensures HydrateEach(rows, s[..i + 1]) == HydrateEach(rows, s[..i]) + [Hydrate(rows, s[i])]
  {
    assert s[..i + 1][..i] == s[..i];
  }

  /** `HydrateEach` hydrates exactly the `i`th row at position `i`. */
  lemma {:induction false} HydrateEachIndex(rows: seq<Row>, s: seq<Row>)
    requires Acyclic(rows) && forall k :: 0 <= k < |s| ==> s[k] in rows
    ensures forall i :: 0 <= i < |s| ==> HydrateEach(rows, s)[i] == Hydrate(rows, s[i])
    decreases |s|
  {
    if s != [] {
      var init := s[..|s| - 1];
      HydrateEachIndex(rows, init);
      forall i | 0 <= i < |s|
        ensures HydrateEach(rows, s)[i] == Hydrate(rows, s[i])
      {
        if i < |s| - 1 {
          assert HydrateEach(rows, s)[i] == HydrateEach(rows, init)[i];
          assert init[i] == s[i];
        }
      }
    }
  }

  /** Hydrating the sorted child rows one by one gives `Children`. */
  lemma ChildrenFold(rows: seq<Row>, parentId: Uuid)
    requires Acyclic(rows)
    ensures var kids := SortByOrder(ChildRows(rows, parentId));
            && (forall k :: 0 <= k < |kids| ==> kids[k] in rows)
            && HydrateEach(rows, kids) == Children(rows, parentId)
  {
    var kids := SortByOrder(ChildRows(rows, parentId));
    ChildRowsSorted(rows, parentId, kids);
    ChildrenUnfold(rows, parentId);
    HydrateEachIndex(rows, kids);
  }

  /**
   * `load_by_id` finds nothing exactly when no row has the id; otherwise it
   * yields that (single) row's columns, with its children hydrated.
   */
  lemma LoadedByIdSpec(rows: seq<Row>, id: Uuid)
    requires UniqueIds(rows) && Acyclic(rows)
    ensures LoadedById(rows, id).None? <==> id !in IdsOf(rows)
    ensures forall i :: 0 <= i < |rows| && rows[i].id == id ==>
              LoadedById(rows, id) == Some(FromRowWith(rows[i], Children(rows, id)))
  {
    forall i | 0 <= i < |rows| && rows[i].id == id
      ensures LoadedById(rows, id) == Some(FromRowWith(rows[i], Children(rows, id)))
    {
      UniqueIdAt(rows, i);
      var r := FindRow(rows, id).value;
      var k :| 0 <= k < |rows| && rows[k] == r;
      assert k == i;
    }
  }

  /** Unfolds `Children` to the sorted child rows it hydrates. */
  lemma ChildrenUnfold(rows: seq<Row>, parentId: Uuid)
    requires Acyclic(rows)
    ensures var kids := SortByOrder(ChildRows(rows, parentId));
            && |Children(rows, parentId)| == |kids|
            && forall i :: 0 <= i < |kids| ==>
                 kids[i] in rows && Children(rows, parentId)[i] == Hydrate(rows, kids[i])
  {
    SortByOrderMembers(ChildRows(rows, parentId));
  }

  /**
   * The children of `parentId` come in ascending `block_order`, one per child
   * row, and each of them names `parentId` as its parent.
   */
  lemma ChildrenSorted(rows: seq<Row>, parentId: Uuid)
    requires Acyclic(rows)
    ensures |Children(rows, parentId)| == |ChildRows(rows, parentId)|
    ensures forall i :: 0 <= i < |Children(rows, parentId)| ==>
              Children(rows, parentId)[i].parentId == parentId && Children(rows, parentId)[i].blockOrder.Some?
    ensures forall i, j :: 0 <= i < j < |Children(rows, parentId)| ==>
              Children(rows, parentId)[i].blockOrder.GetOr(0) <= Children(rows, parentId)[j].blockOrder.GetOr(0)
  {
    var cs := Children(rows, parentId);
    var kids := SortByOrder(ChildRows(rows, parentId));
    SortByOrderMembers(ChildRows(rows, parentId));
    SortByOrderSorted(ChildRows(rows, parentId));
    ChildrenUnfold(rows, parentId);
    forall i | 0 <= i < |cs|
      ensures cs[i].parentId == parentId && cs[i].blockOrder == Some(kids[i].blockOrder)
    {
      assert kids[i] in kids;
    }
  }

  lemma ChildRowHydrated(rows: seq<Row>, parentId: Uuid, x: Row)
    requires Acyclic(rows)
    requires x in rows && x.parentId == parentId
    ensures exists i :: 0 <= i < |Children(rows, parentId)| && Children(rows, parentId)[i] == Hydrate(rows, x)
  {
    var kids := SortByOrder(ChildRows(rows, parentId));
    SortByOrderMembers(ChildRows(rows, parentId));
    ChildrenUnfold(rows, parentId);
    assert x in ChildRows(rows, parentId);
    var i :| 0 <= i < |kids| && kids[i] == x;
    assert Children(rows, parentId)[i] == Hydrate(rows, kids[i]);
  }

  /**
   * Every child row of `parentId` is hydrated among its children, and every child
   * is such a hydrated row.
   */
  lemma ChildrenExact(rows: seq<Row>, parentId: Uuid)
    requires Acyclic(rows)
    ensures forall i :: 0 <= i < |Children(rows, parentId)| ==>
              exists x :: x in rows && x.parentId == parentId && Children(rows, parentId)[i] == Hydrate(rows, x)
    ensures forall x :: x in rows && x.parentId == parentId ==>
              exists i :: 0 <= i < |Children(rows, parentId)| && Children(rows, parentId)[i] == Hydrate(rows, x)
  {
    var cs := Children(rows, parentId);
    var kids := SortByOrder(ChildRows(rows, parentId));
    SortByOrderMembers(ChildRows(rows, parentId));
    ChildrenUnfold(rows, parentId);
    forall x | x in rows && x.parentId == parentId
      ensures exists i :: 0 <= i < |cs| && cs[i] == Hydrate(rows, x)
    {
      ChildRowHydrated(rows, parentId, x);
    }
    forall i | 0 <= i < |cs|
      ensures exists x :: x in rows && x.parentId == parentId && cs[i] == Hydrate(rows, x)
    {
      assert kids[i] in kids;
    }
  }

  // ---------------------------------------------------------------------------
  // The next sibling order computed by `save`

  function Orders(s: seq<Row>): (os: seq<int>)
    ensures |os| == |s|
  {
    seq(|s|, i requires 0 <= i < |s| => s[i].blockOrder)
  }

  /** The `block_order` values of the children of `parentId`, in table order. */
  function SiblingOrders(rows: seq<Row>, parentId: Uuid): seq<int>
  {
    Orders(ChildRows(rows, parentId))
  }

  /**
   * The order `load_last_block_in_same_page` reads (`ORDER BY block_order DESC
   * LIMIT 1`): the greatest order among the children of `parentId`, or nothing
   * when it has none.
   */
  function LastSiblingOrder(rows: seq<Row>, parentId: Uuid): Option<int>
    decreases |rows|
  {
    if rows == [] then None
    else
      var last := rows[|rows| - 1];
      var m := LastSiblingOrder(rows[..|rows| - 1], parentId);
      if last.parentId == parentId && (m.None? || m.value < last.blockOrder) then Some(last.blockOrder) else m
  }

  /**
   * The order `save` gives a new child of `parentId`: one past the greatest
   * sibling order, or 0 when the parent has no children yet.
   */
  function NextOrder(rows: seq<Row>, parentId: Uuid): int
  {
    match LastSiblingOrder(rows, parentId)
    case None => 0
    case Some(m) => m + 1
  }

  /** `LastSiblingOrder` is absent exactly without children, else the order of one child and at least every other's. */
  lemma {:induction false} LastSiblingOrderSpec(rows: seq<Row>, parentId: Uuid)
    decreases |rows|
    ensures LastSiblingOrder(rows, parentId).None? <==> forall k :: 0 <= k < |rows| ==> rows[k].parentId != parentId
    ensures LastSiblingOrder(rows, parentId).Some? ==>
              (exists k :: 0 <= k < |rows| && rows[k].parentId == parentId &&
                           rows[k].blockOrder == LastSiblingOrder(rows, parentId).value) &&
              forall k :: 0 <= k < |rows| && rows[k].parentId == parentId ==>
                            rows[k].blockOrder <= LastSiblingOrder(rows, parentId).value
  {
    if rows != [] {
      var init := rows[..|rows| - 1];
      var n := |rows| - 1;
      LastSiblingOrderSpec(init, parentId);
      assert forall k :: 0 <= k < n ==> init[k] == rows[k];
      var m := LastSiblingOrder(rows, parentId);
      if m.Some? {
        if m == LastSiblingOrder(init, parentId) {
          var k :| 0 <= k < n && init[k].parentId == parentId && init[k].blockOrder == m.value;
          assert rows[k].parentId == parentId && rows[k].blockOrder == m.value;
        } else {
          assert rows[n].parentId == parentId && rows[n].blockOrder == m.value;
        }
      }
    }
  }

  /** `NextOrder` is 0 for a parent without children, else one past every sibling's order and just above one of them. */
  lemma NextOrderBounds(rows: seq<Row>, parentId: Uuid)
    ensures LastSiblingOrder(rows, parentId).None? <==> ChildRows(rows, parentId) == []
    ensures ChildRows(rows, parentId) == [] ==> NextOrder(rows, parentId) == 0
    ensures ChildRows(rows, parentId) != [] ==>
              (NextOrder(rows, parentId) - 1) in SiblingOrders(rows, parentId) &&
              forall x :: x in ChildRows(rows, parentId) ==> x.blockOrder < NextOrder(rows, parentId)
  {
    var cs := ChildRows(rows, parentId);
    var os := SiblingOrders(rows, parentId);
    LastSiblingOrderSpec(rows, parentId);
    var m := LastSiblingOrder(rows, parentId);
    if m.Some? {
      var k :| 0 <= k < |rows| && rows[k].parentId == parentId && rows[k].blockOrder == m.value;
      assert rows[k] in cs;
      var j :| 0 <= j < |cs| && cs[j] == rows[k];
      assert os[j] == m.value;
      forall x | x in cs ensures x.blockOrder < m.value + 1 {
        var i :| 0 <= i < |rows| && rows[i] == x;
      }
    } else {
      NoSiblings(rows, parentId);
    }
  }

  // ---------------------------------------------------------------------------
  // Dense sibling orders

  function Range(lo: int, hi: int): (s: seq<int>)
    requires lo <= hi
    ensures |s| == hi - lo
  {
    seq(hi - lo, i requires 0 <= i < hi - lo => lo + i)
  }

  /** The children of `parentId` carry exactly the orders 0, 1, …, k-1, each once. */
  ghost predicate Dense(rows: seq<Row>, parentId: Uuid)
  {
    multiset(SiblingOrders(rows, parentId)) == multiset(Range(0, |ChildRows(rows, parentId)|))
  }

  lemma EmptyParentIsDense(rows: seq<Row>, parentId: Uuid)
    requires ChildRows(rows, parentId) == []
    ensures Dense(rows, parentId)
  {
  }

  /** With dense orders 0..k-1, the next order `save` computes is k. */
  lemma NextOrderOfDense(rows: seq<Row>, parentId: Uuid)
    requires Dense(rows, parentId)
    ensures NextOrder(rows, parentId) == |ChildRows(rows, parentId)|
  {
    var k := |ChildRows(rows, parentId)|;
    var os := SiblingOrders(rows, parentId);
    NextOrderBounds(rows, parentId);
    if k > 0 {
      var m := NextOrder(rows, parentId) - 1;
      assert Range(0, k)[k - 1] == k - 1;
      assert k - 1 in multiset(os);
      assert m in multiset(Range(0, k));
      var i :| 0 <= i < k && Range(0, k)[i] == m;
      var j :| 0 <= j < k && os[j] == k - 1;
      assert ChildRows(rows, parentId)[j].blockOrder == k - 1;
    }
  }

  /** The children of `parentId` after appending `row`. */
  lemma ChildRowsAppend(rows: seq<Row>, row: Row, parentId: Uuid)
    ensures ChildRows(rows + [row], parentId) ==
              ChildRows(rows, parentId) + (if row.parentId == parentId then [row] else [])
  {
    assert (rows + [row])[..|rows|] == rows;
  }

  lemma OrdersAppend(s: seq<Row>, x: Row)
    ensures Orders(s + [x]) == Orders(s) + [x.blockOrder]
  {
  }

  lemma RangeAppend(lo: int, hi: int)
    requires lo <= hi
    ensures Range(lo, hi + 1) == Range(lo, hi) + [hi]
  {
  }

  /** Appending a child whose order is the number of its siblings keeps a dense parent dense. */
  lemma AppendNextKeepsDense(rows: seq<Row>, row: Row)
    requires Dense(rows, row.parentId) && row.blockOrder == |ChildRows(rows, row.parentId)|
    ensures Dense(rows + [row], row.parentId)
    ensures |ChildRows(rows + [row], row.parentId)| == |ChildRows(rows, row.parentId)| + 1
  {
    var p := row.parentId;
    var k := |ChildRows(rows, p)|;
    ChildRowsAppend(rows, row, p);
    OrdersAppend(ChildRows(rows, p), row);
    RangeAppend(0, k);
  }

  /**
   * Appending a child with the order `save` computes keeps a dense parent dense:
   * orders 0..k-1 become 0..k.
   */
  lemma SaveKeepsDense(rows: seq<Row>, row: Row)
    requires Dense(rows, row.parentId)
    requires row.blockOrder == NextOrder(rows, row.parentId)
    ensures Dense(rows + [row], row.parentId)
    ensures |ChildRows(rows + [row], row.parentId)| == |ChildRows(rows, row.parentId)| + 1
  {
    NextOrderOfDense(rows, row.parentId);
    AppendNextKeepsDense(rows, row);
  }

  /** Appending a row leaves the children of every other parent as they were. */
  lemma SaveKeepsOtherParents(rows: seq<Row>, row: Row, parentId: Uuid)
    requires parentId != row.parentId
    ensures ChildRows(rows + [row], parentId) == ChildRows(rows, parentId)
    ensures Dense(rows, parentId) <==> Dense(rows + [row], parentId)
  {
    ChildRowsAppend(rows, row, parentId);
  }

  /** The table after `save` of each block of `bs` in turn: each row appended with the order `save` computes. */
  function SaveAll(rows: seq<Row>, bs: seq<Block>): (r: seq<Row>)
    ensures |r| == |rows| + |bs|
    decreases |bs|
  {
    if bs == [] then rows
    else
      var t := SaveAll(rows, bs[..|bs| - 1]);
      var b := bs[|bs| - 1];
      t + [ToRow(b, NextOrder(t, b.parentId))]
  }

  /** Children numbered 0..n-1 make `save` pick n. */
  lemma NextOrderOfCounted(rows: seq<Row>, parentId: Uuid, n: int)
    requires 0 <= n && SiblingOrders(rows, parentId) == Range(0, n)
    ensures NextOrder(rows, parentId) == n
  {
    assert |ChildRows(rows, parentId)| == n;
    NextOrderOfDense(rows, parentId);
  }

  /** Appending child number n after children numbered 0..n-1 numbers them 0..n. */
  lemma AppendCounted(rows: seq<Row>, row: Row, n: int)
    requires 0 <= n && SiblingOrders(rows, row.parentId) == Range(0, n) && row.blockOrder == n
    ensures SiblingOrders(rows + [row], row.parentId) == Range(0, n + 1)
  {
    var p := row.parentId;
    ChildRowsAppend(rows, row, p);
    OrdersAppend(ChildRows(rows, p), row);
    RangeAppend(0, n);
  }

  /** Successive saves into a parent without children number them 0, 1, 2, … in the order saved. */
  lemma {:induction false} SuccessiveSaves(rows: seq<Row>, bs: seq<Block>, parentId: Uuid)
    requires ChildRows(rows, parentId) == []
    requires forall i :: 0 <= i < |bs| ==> bs[i].parentId == parentId
    ensures SiblingOrders(SaveAll(rows, bs), parentId) == Range(0, |bs|)
    decreases |bs|
  {
    if bs == [] {
      assert SiblingOrders(rows, parentId) == [];
    } else {
      var n := |bs| - 1;
      var t := SaveAll(rows, bs[..n]);
      SuccessiveSaves(rows, bs[..n], parentId);
      NextOrderOfCounted(t, parentId, n);
      assert SaveAll(rows, bs) == t + [ToRow(bs[n], n)];
      AppendCounted(t, ToRow(bs[n], n), n);
    }
  }

  // ---------------------------------------------------------------------------
  // Inserting keeps the table well formed

  lemma InsertKeepsUniqueIds(rows: seq<Row>, row: Row)
    requires UniqueIds(rows) && row.id !in IdsOf(rows)
    ensures UniqueIds(rows + [row])
  {
    assert (rows + [row])[..|rows|] == rows;
  }

  /** A leaf insert: lift every rank by one and put the new row at 0. */
  lemma InsertLeafKeepsRanked(rows: seq<Row>, rank: map<Uuid, nat>, row: Row)
    requires Ranked(rows, rank)
    requires row.id !in IdsOf(rows) && row.id !in ParentIdsOf(rows) && row.id != row.parentId
    ensures Ranked(rows + [row], (map x | x in rank :: rank[x] + 1)[row.id := 0])
  {
    var rank' := (map x | x in rank :: rank[x] + 1)[row.id := 0];
    var rows' := rows + [row];
    forall i | 0 <= i < |rows|
      ensures rows[i].id != row.id && rows[i].parentId != row.id
    {
      assert rows[i].id in IdsOf(rows);
      assert rows[i].parentId in ParentIdsOf(rows);
    }
    assert rows'[|rows|] == row;
  }

  /** A root insert (its parent is not stored): put the new row above every row. */
  lemma InsertRootKeepsRanked(rows: seq<Row>, rank: map<Uuid, nat>, row: Row)
    requires Ranked(rows, rank)
    requires row.id !in IdsOf(rows) && row.parentId !in IdsOf(rows) && row.id != row.parentId
    ensures Ranked(rows + [row], (rank - {row.parentId})[row.id := |rows|])
  {
    var rows' := rows + [row];
    forall i | 0 <= i < |rows|
      ensures rows[i].id != row.id && rows[i].id != row.parentId
    {
      assert rows[i].id in IdsOf(rows);
    }
    assert rows'[|rows|] == row;
  }

  /** An insert that meets `FreshInsert` closes no cycle of parents. */
  lemma InsertKeepsAcyclic(rows: seq<Row>, row: Row)
    requires Acyclic(rows) && FreshInsert(rows, row.id, row.parentId)
    ensures Acyclic(rows + [row])
  {
    var rank := SomeRank(rows);
    if row.id !in ParentIdsOf(rows) {
      InsertLeafKeepsRanked(rows, rank, row);
    } else {
      InsertRootKeepsRanked(rows, rank, row);
    }
  }

  lemma {:induction false} SelectNone(rows: seq<Row>, keep: Row -> bool)
    requires forall x :: x in rows ==> !keep(x)
    ensures Select(rows, keep) == []
  {
    if rows != [] {
      SelectNone(rows[..|rows| - 1], keep);
    }
  }

  /** Where a child row of `parentId` sits among the children. */
  lemma ChildRowIndex(rows: seq<Row>, parentId: Uuid, i: int) returns (m: int)
    requires 0 <= i < |rows| && rows[i].parentId == parentId
    ensures 0 <= m < |ChildRows(rows, parentId)| && ChildRows(rows, parentId)[m] == rows[i]
  {
    var cs := ChildRows(rows, parentId);
    assert rows[i] in cs;
    m :| 0 <= m < |cs| && cs[m] == rows[i];
  }

  /** A parent nobody names has no children. */
  lemma NoChildRows(rows: seq<Row>, parentId: Uuid)
    requires parentId !in ParentIdsOf(rows)
    ensures ChildRows(rows, parentId) == []
  {
    forall x | x in rows ensures x.parentId != parentId {
      var i :| 0 <= i < |rows| && rows[i] == x;
      assert rows[i].parentId in ParentIdsOf(rows);
    }
    SelectNone(rows, (x: Row) => x.parentId == parentId);
  }

  /** A table none of whose rows has parent `parentId` has no children for it. */
  lemma NoSiblings(rows: seq<Row>, parentId: Uuid)
    requires forall k :: 0 <= k < |rows| ==> rows[k].parentId != parentId
    ensures ChildRows(rows, parentId) == []
  {
    SelectNone(rows, (x: Row) => x.parentId == parentId);
  }

  /** The sibling with the greatest order has the order just below `NextOrder`. */
  lemma GreatestSibling(rows: seq<Row>, parentId: Uuid, r: Row)
    requires r in rows && r.parentId == parentId
    requires forall k :: 0 <= k < |rows| && rows[k].parentId == parentId ==> rows[k].blockOrder <= r.blockOrder
    ensures ChildRows(rows, parentId) != []
    ensures r.blockOrder == NextOrder(rows, parentId) - 1
  {
    var cs := ChildRows(rows, parentId);
    assert r in cs;
    var n := NextOrder(rows, parentId);
    NextOrderBounds(rows, parentId);
    var j :| 0 <= j < |cs| && Orders(cs)[j] == n - 1;
    assert cs[j] in cs;
    var k :| 0 <= k < |rows| && rows[k] == cs[j];
  }

  /** After `save`, `load_by_id` of the new id yields the saved block, with its order and no children. */
  lemma SaveLoadRoundTrip(rows: seq<Row>, b: Block, order: int)
    requires UniqueIds(rows) && Acyclic(rows)
    requires Fresh(rows, b.id) && b.id != b.parentId
    ensures UniqueIds(rows + [ToRow(b, order)]) && Acyclic(rows + [ToRow(b, order)])
    ensures LoadedById(rows + [ToRow(b, order)], b.id) == Some(b.(blockOrder := Some(order), children := []))
  {
    var row := ToRow(b, order);
    var rows' := rows + [row];
    InsertKeepsUniqueIds(rows, row);
    InsertKeepsAcyclic(rows, row);
    NoChildRows(rows, b.id);
    ChildRowsAppend(rows, row, b.id);
    LoadedByIdSpec(rows', b.id);
    assert rows'[|rows|].id == b.id;
  }
}
