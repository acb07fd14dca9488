/**
 * The sibling reordering of `change_block_order` (src-tauri/src/blocks/mod.rs),
 * as UPDATE passes over the table: the rules exactly as written, examples of
 * where they break the dense 0..k-1 ordering, and a corrected move that keeps it.
 */
module Reorder {
  import opened Wrappers
  import opened Blocks
  import opened Table

  /** An UPDATE of the `block_order` column of every row, by the rule `f`. */
  function MapOrders(rows: seq<Row>, f: Row -> int): seq<Row>
  {
    seq(|rows|, i requires 0 <= i < |rows| => rows[i].(blockOrder := f(rows[i])))
  }

  // ---------------------------------------------------------------------------
  // The rules as written

  /**
   * Moving forward: `UPDATE blocks SET block_order = (block_order - 1) WHERE
   * parent_id = ?1 AND (block_order < ?2 OR block_order >= ?3)`.
   */
  function DecrementRule(parentId: Uuid, oldOrder: int, newOrder: int): Row -> int
  {
    (r: Row) =>
      if r.parentId == parentId && (r.blockOrder < oldOrder || r.blockOrder >= newOrder)
      then r.blockOrder - 1 else r.blockOrder
  }

  /**
   * Moving backward or in place: `UPDATE blocks SET block_order = block_order + 1
   * WHERE parent_id = ?1 AND block_order < ?2`.
   */
  function IncrementRule(parentId: Uuid, oldOrder: int): Row -> int
  {
    (r: Row) => if r.parentId == parentId && r.blockOrder < oldOrder then r.blockOrder + 1 else r.blockOrder
  }

  /** `UPDATE blocks SET block_order = ?1 WHERE id = ?2`. */
  function SetRule(id: Uuid, newOrder: int): Row -> int
  {
    (r: Row) => if r.id == id then newOrder else r.blockOrder
  }

  /** The sibling shift `change_block_order` runs before it moves the block. */
  function ShiftSiblings(rows: seq<Row>, parentId: Uuid, oldOrder: int, newOrder: int): seq<Row>
  {
    if newOrder > oldOrder then MapOrders(rows, DecrementRule(parentId, oldOrder, newOrder))
    else MapOrders(rows, IncrementRule(parentId, oldOrder))
  }

  /**
   * The table after `change_block_order` moves block `id` (whose parent and
   * current order the caller holds) to `newOrder`: the shift, then the move.
   */
  function Reordered(rows: seq<Row>, id: Uuid, parentId: Uuid, oldOrder: int, newOrder: int): seq<Row>
  {
    MapOrders(ShiftSiblings(rows, parentId, oldOrder, newOrder), SetRule(id, newOrder))
  }

  /** After the move, the row `load_by_id` finds for `id` holds the new order. */
  lemma FindRowAfterSet(rows: seq<Row>, id: Uuid, newOrder: int)
    requires id in IdsOf(rows)
    ensures FindRow(MapOrders(rows, SetRule(id, newOrder)), id).Some?
    ensures FindRow(MapOrders(rows, SetRule(id, newOrder)), id).value.blockOrder == newOrder
  {
    var moved := MapOrders(rows, SetRule(id, newOrder));
    var i :| 0 <= i < |rows| && rows[i].id == id;
    assert moved[i].id == id;
    var r := FindRow(moved, id).value;
    var k :| 0 <= k < |moved| && moved[k] == r;
  }

  /**
   * What `change_block_order` does to each row: the moved row lands on
   * `newOrder`; moving forward, exactly the other siblings with order below the
   * old one or at least the new one drop by one; otherwise exactly the other
   * siblings below the old order rise by one; every other row, and every column
   * but `block_order`, is untouched.
   */
  lemma ReorderedEffect(rows: seq<Row>, id: Uuid, parentId: Uuid, oldOrder: int, newOrder: int)
    ensures var r := Reordered(rows, id, parentId, oldOrder, newOrder);
      && |r| == |rows|
      && (forall i :: 0 <= i < |rows| ==> r[i] == rows[i].(blockOrder := r[i].blockOrder))
      && (forall i :: 0 <= i < |rows| && rows[i].id == id ==> r[i].blockOrder == newOrder)
      && (forall i :: 0 <= i < |rows| && rows[i].id != id && rows[i].parentId != parentId ==>
            r[i].blockOrder == rows[i].blockOrder)
      && (forall i :: 0 <= i < |rows| && rows[i].id != id && rows[i].parentId == parentId && newOrder > oldOrder ==>
            r[i].blockOrder == if rows[i].blockOrder < oldOrder || rows[i].blockOrder >= newOrder
                               then rows[i].blockOrder - 1 else rows[i].blockOrder)
      && (forall i :: 0 <= i < |rows| && rows[i].id != id && rows[i].parentId == parentId && newOrder <= oldOrder ==>
            r[i].blockOrder == if rows[i].blockOrder < oldOrder then rows[i].blockOrder + 1 else rows[i].blockOrder)
  {
  }

  /** Rewriting orders keeps every id and parent link, so the table stays well formed. */
  lemma MapOrdersKeepsLinks(rows: seq<Row>, f: Row -> int)
    requires UniqueIds(rows) && Acyclic(rows)
    ensures UniqueIds(MapOrders(rows, f)) && Acyclic(MapOrders(rows, f))
    ensures IdsOf(MapOrders(rows, f)) == IdsOf(rows)
    ensures ParentIdsOf(MapOrders(rows, f)) == ParentIdsOf(rows)
  {
    var r := MapOrders(rows, f);
    var rank := SomeRank(rows);
    assert forall i :: 0 <= i < |rows| ==> r[i].id == rows[i].id && r[i].parentId == rows[i].parentId;
    assert Ranked(r, rank);
    SameIdsKeepUnique(rows, r);
  }

  lemma ReorderedKeepsLinks(rows: seq<Row>, id: Uuid, parentId: Uuid, oldOrder: int, newOrder: int)
    requires UniqueIds(rows) && Acyclic(rows)
    ensures var r := Reordered(rows, id, parentId, oldOrder, newOrder);
      UniqueIds(r) && Acyclic(r) && IdsOf(r) == IdsOf(rows) && ParentIdsOf(r) == ParentIdsOf(rows)
  {
    if newOrder > oldOrder {
      MapOrdersKeepsLinks(rows, DecrementRule(parentId, oldOrder, newOrder));
    } else {
      MapOrdersKeepsLinks(rows, IncrementRule(parentId, oldOrder));
    }
    MapOrdersKeepsLinks(ShiftSiblings(rows, parentId, oldOrder, newOrder), SetRule(id, newOrder));
  }

  // ---------------------------------------------------------------------------
  // Where the rules as written lose density

  /** A sibling under parent "P" with the given id and order. */
  function Sibling(id: Uuid, order: int): Row
  {
    Row(id, "P", "text", BlockContent("paragraph", Some(id), None), order, false, 0, 0)
  }

  lemma {:induction false} SelectAll(rows: seq<Row>, keep: Row -> bool)
    requires forall i :: 0 <= i < |rows| ==> keep(rows[i])
    ensures Select(rows, keep) == rows
  {
    if rows != [] {
      SelectAll(rows[..|rows| - 1], keep);
      assert rows == rows[..|rows| - 1] + [rows[|rows| - 1]];
    }
  }

  /** When every row is a child of "P", its sibling orders are the orders of the whole table. */
  lemma AllUnderP(rows: seq<Row>)
    requires forall i :: 0 <= i < |rows| ==> rows[i].parentId == "P"
    ensures ChildRows(rows, "P") == rows
    ensures SiblingOrders(rows, "P") == Orders(rows)
  {
    SelectAll(rows, (x: Row) => x.parentId == "P");
  }

  /** Children whose orders miss 0 are not dense. */
  lemma MissingZeroNotDense(rows: seq<Row>, parentId: Uuid)
    requires ChildRows(rows, parentId) != []
    requires 0 !in SiblingOrders(rows, parentId)
    ensures !Dense(rows, parentId)
  {
    var k := |ChildRows(rows, parentId)|;
    assert Range(0, k)[0] == 0;
    assert 0 in multiset(Range(0, k));
  }

  /** Children of "P" with the given ids, numbered 0, 1, 2, … in table order. */
  function Siblings(ids: seq<Uuid>): (rows: seq<Row>)
    ensures |rows| == |ids|
  {
    seq(|ids|, i requires 0 <= i < |ids| => Sibling(ids[i], i))
  }

  /** Siblings A0 B1 C2 D3 under "P". */
  function FourSiblings(): seq<Row>
  {
    Siblings(["A", "B", "C", "D"])
  }

  /** Siblings A0 B1 C2 under "P". */
  function ThreeSiblings(): seq<Row>
  {
    Siblings(["A", "B", "C"])
  }

  /** Children of one parent numbered 0, 1, …, k-1 in table order are dense. */
  lemma {:induction false} CountingOrdersDense(rows: seq<Row>, parentId: Uuid)
    requires forall i :: 0 <= i < |rows| ==> rows[i].parentId == parentId && rows[i].blockOrder == i
    ensures Dense(rows, parentId) && |ChildRows(rows, parentId)| == |rows|
    decreases |rows|
  {
    if rows == [] {
      NoSiblings(rows, parentId);
      EmptyParentIsDense(rows, parentId);
    } else {
      var init := rows[..|rows| - 1];
      CountingOrdersDense(init, parentId);
      AppendNextKeepsDense(init, rows[|rows| - 1]);
      assert init + [rows[|rows| - 1]] == rows;
    }
  }

  /** The starting siblings A0 B1 C2 are dense. */
  lemma ThreeSiblingsDense()
    ensures Dense(ThreeSiblings(), "P")
  {
    CountingOrdersDense(ThreeSiblings(), "P");
  }

  /** The starting siblings A0 B1 C2 D3 are dense. */
  lemma FourSiblingsDense()
    ensures Dense(FourSiblings(), "P")
  {
    CountingOrdersDense(FourSiblings(), "P");
  }

  /** Siblings under "P" none of whose orders is 0 are not dense. */
  lemma NotDenseWithoutZero(moved: seq<Row>)
    requires moved != []
    requires forall i :: 0 <= i < |moved| ==> moved[i].parentId == "P" && moved[i].blockOrder != 0
    ensures !Dense(moved, "P")
  {
    AllUnderP(moved);
    forall j | 0 <= j < |moved| ensures Orders(moved)[j] != 0 {
    }
    MissingZeroNotDense(moved, "P");
  }

  /**
   * Siblings A0 B1 C2 D3; moving D back to 1 increments every sibling below 3,
   * A included: A1 B2 C3 D1, with 1 twice and no 0.
   */
  lemma BackwardMoveDuplicatesOrder()
    ensures Dense(FourSiblings(), "P")
    ensures Orders(Reordered(FourSiblings(), "D", "P", 3, 1)) == [1, 2, 3, 1]
    ensures !Dense(Reordered(FourSiblings(), "D", "P", 3, 1), "P")
  {
    var moved := Reordered(FourSiblings(), "D", "P", 3, 1);
    assert moved[0].blockOrder == 1 && moved[1].blockOrder == 2;
    assert moved[2].blockOrder == 3 && moved[3].blockOrder == 1;
    assert Orders(moved) == [1, 2, 3, 1];
    assert forall i :: 0 <= i < 4 ==> moved[i].parentId == "P";
    NotDenseWithoutZero(moved);
    FourSiblingsDense();
  }

  /**
   * Siblings A0 B1 C2; moving B forward to 2 decrements A (below the old order)
   * and C (at the new order): A-1 B2 C1.
   */
  lemma ForwardMoveMakesNegativeOrder()
    ensures Dense(ThreeSiblings(), "P")
    ensures Orders(Reordered(ThreeSiblings(), "B", "P", 1, 2)) == [-1, 2, 1]
    ensures !Dense(Reordered(ThreeSiblings(), "B", "P", 1, 2), "P")
  {
    var moved := Reordered(ThreeSiblings(), "B", "P", 1, 2);
    var os := Orders(moved);
    assert os[0] == -1 && os[1] == 2 && os[2] == 1;
    assert os == [-1, 2, 1];
    NotDenseWithoutZero(moved);
    ThreeSiblingsDense();
  }

  /**
   * Siblings A0 B1 C2; "moving" B to its own position 1 still increments A:
   * A1 B1 C2.
   */
  lemma MoveInPlaceChangesOrders()
    ensures Dense(ThreeSiblings(), "P")
    ensures Orders(Reordered(ThreeSiblings(), "B", "P", 1, 1)) == [1, 1, 2]
    ensures !Dense(Reordered(ThreeSiblings(), "B", "P", 1, 1), "P")
  {
    var moved := Reordered(ThreeSiblings(), "B", "P", 1, 1);
    var os := Orders(moved);
    assert os[0] == 1 && os[1] == 1 && os[2] == 2;
    assert os == [1, 1, 2];
    NotDenseWithoutZero(moved);
    ThreeSiblingsDense();
  }

  // ---------------------------------------------------------------------------
  // A move that keeps the orders dense

  /** Where a dense move sends a sibling at order `x` other than the moved one. */
  function Shift(oldOrder: int, newOrder: int, x: int): int
  {
    if oldOrder < x <= newOrder then x - 1
    else if newOrder <= x < oldOrder then x + 1
    else x
  }

  /**
   * The corrected rule for one row: the moved row takes `newOrder`; moving
   * forward, the siblings strictly after the old slot up to the new one move
   * back by one; moving backward, the siblings from the new slot up to the old
   * one move on by one.
   */
  function DenseOrder(r: Row, id: Uuid, parentId: Uuid, oldOrder: int, newOrder: int): int
  {
    if r.id == id then newOrder
    else if r.parentId != parentId then r.blockOrder
    else Shift(oldOrder, newOrder, r.blockOrder)
  }

  function DenseRule(id: Uuid, parentId: Uuid, oldOrder: int, newOrder: int): Row -> int
  {
    (r: Row) => DenseOrder(r, id, parentId, oldOrder, newOrder)
  }

  function DenseReordered(rows: seq<Row>, id: Uuid, parentId: Uuid, oldOrder: int, newOrder: int): seq<Row>
  {
    MapOrders(rows, DenseRule(id, parentId, oldOrder, newOrder))
  }

  function MapShift(oldOrder: int, newOrder: int, s: seq<int>): (r: seq<int>)
    ensures |r| == |s|
  {
    seq(|s|, i requires 0 <= i < |s| => Shift(oldOrder, newOrder, s[i]))
  }

  lemma MapShiftConcat(oldOrder: int, newOrder: int, a: seq<int>, b: seq<int>)
    ensures MapShift(oldOrder, newOrder, a + b) == MapShift(oldOrder, newOrder, a) + MapShift(oldOrder, newOrder, b)
  {
  }

  lemma MultisetCancel(a: multiset<int>, b: multiset<int>, x: int)
    requires a + multiset{x} == b + multiset{x}
    ensures a == b
  {
    forall y ensures a[y] == b[y] {
      assert (a + multiset{x})[y] == (b + multiset{x})[y];
    }
  }

  /** Shifting two sequences with the same elements gives sequences with the same elements. */
  lemma {:induction false} MapShiftMultiset(oldOrder: int, newOrder: int, s: seq<int>, t: seq<int>)
    requires multiset(s) == multiset(t)
    ensures multiset(MapShift(oldOrder, newOrder, s)) == multiset(MapShift(oldOrder, newOrder, t))
    decreases |s|
  {
    if s == [] {
      assert |t| == |multiset(t)| == 0;
    } else {
      var a := s[|s| - 1];
      var s' := s[..|s| - 1];
      assert s == s' + [a];
      assert a in multiset(t);
      var j :| 0 <= j < |t| && t[j] == a;
      var t' := t[..j] + t[j + 1..];
      assert t == t[..j] + [a] + t[j + 1..];
      assert multiset(t) == multiset(t[..j]) + multiset{a} + multiset(t[j + 1..]);
      assert multiset(t') == multiset(t[..j]) + multiset(t[j + 1..]);
      assert multiset(s) == multiset(s') + multiset{a};
      MultisetCancel(multiset(s'), multiset(t'), a);
      MapShiftMultiset(oldOrder, newOrder, s', t');
      MapShiftConcat(oldOrder, newOrder, s', [a]);
      MapShiftConcat(oldOrder, newOrder, t[..j], t[j + 1..]);
      MapShiftConcat(oldOrder, newOrder, t[..j] + [a], t[j + 1..]);
      MapShiftConcat(oldOrder, newOrder, t[..j], [a]);
    }
  }

  lemma RangeConcat(a: int, b: int, c: int)
    requires a <= b <= c
    ensures Range(a, b) + Range(b, c) == Range(a, c)
  {
  }

  lemma MapShiftRange(oldOrder: int, newOrder: int, lo: int, hi: int, d: int)
    requires lo <= hi
    requires forall x :: lo <= x < hi ==> Shift(oldOrder, newOrder, x) == x + d
    ensures MapShift(oldOrder, newOrder, Range(lo, hi)) == Range(lo + d, hi + d)
  {
  }

  lemma ShiftForwardRanges(o: int, n: int, k: int)
    requires 0 <= o < n < k
    ensures MapShift(o, n, Range(0, o) + Range(o + 1, k)) == Range(0, o) + Range(o, n) + Range(n + 1, k)
  {
    RangeConcat(o + 1, n + 1, k);
    MapShiftRange(o, n, 0, o, 0);
    MapShiftRange(o, n, o + 1, n + 1, -1);
    MapShiftRange(o, n, n + 1, k, 0);
    MapShiftConcat(o, n, Range(o + 1, n + 1), Range(n + 1, k));
    MapShiftConcat(o, n, Range(0, o), Range(o + 1, n + 1) + Range(n + 1, k));
  }

  lemma ShiftBackwardRanges(o: int, n: int, k: int)
    requires 0 <= n < o < k
    ensures MapShift(o, n, Range(0, o) + Range(o + 1, k)) == Range(0, n) + Range(n + 1, o + 1) + Range(o + 1, k)
  {
    RangeConcat(0, n, o);
    MapShiftRange(o, n, 0, n, 0);
    MapShiftRange(o, n, n, o, 1);
    MapShiftRange(o, n, o + 1, k, 0);
    MapShiftConcat(o, n, Range(0, n), Range(n, o));
    MapShiftConcat(o, n, Range(0, n) + Range(n, o), Range(o + 1, k));
  }

  lemma ShiftInPlaceRanges(o: int, k: int)
    requires 0 <= o < k
    ensures MapShift(o, o, Range(0, o) + Range(o + 1, k)) == Range(0, o) + Range(o + 1, k)
  {
    MapShiftRange(o, o, 0, o, 0);
    MapShiftRange(o, o, o + 1, k, 0);
    MapShiftConcat(o, o, Range(0, o), Range(o + 1, k));
  }

  /** 0..k-1 split around `x`. */
  lemma RangeAround(x: int, k: int)
    requires 0 <= x < k
    ensures multiset(Range(0, x)) + multiset{x} + multiset(Range(x + 1, k)) == multiset(Range(0, k))
  {
    RangeConcat(0, x, x + 1);
    RangeConcat(0, x + 1, k);
    assert Range(x, x + 1) == [x];
    assert Range(0, k) == Range(0, x) + [x] + Range(x + 1, k);
  }

  /** Taking `oldOrder` out of 0..k-1 and shifting the rest leaves exactly the slot `newOrder` free. */
  lemma ShiftedRanges(oldOrder: int, newOrder: int, k: int)
    requires 0 <= oldOrder < k && 0 <= newOrder < k
    ensures MapShift(oldOrder, newOrder, Range(0, oldOrder) + Range(oldOrder + 1, k))
            == Range(0, newOrder) + Range(newOrder + 1, k)
  {
    var o, n := oldOrder, newOrder;
    if o < n {
      ShiftForwardRanges(o, n, k);
      RangeConcat(0, o, n);
    } else if n < o {
      ShiftBackwardRanges(o, n, k);
      RangeConcat(n + 1, o + 1, k);
      assert Range(0, n) + Range(n + 1, o + 1) + Range(o + 1, k) == Range(0, n) + (Range(n + 1, o + 1) + Range(o + 1, k));
    } else {
      ShiftInPlaceRanges(o, k);
    }
  }

  /**
   * Taking `oldOrder` out of 0..k-1, shifting the rest and adding `newOrder`
   * gives 0..k-1 again.
   */
  lemma ShiftedRangesDense(oldOrder: int, newOrder: int, k: int)
    requires 0 <= oldOrder < k && 0 <= newOrder < k
    ensures multiset(MapShift(oldOrder, newOrder, Range(0, oldOrder) + Range(oldOrder + 1, k))) + multiset{newOrder}
            == multiset(Range(0, k))
  {
    ShiftedRanges(oldOrder, newOrder, k);
    RangeAround(newOrder, k);
  }

  /**
   * Orders 0..k-1 with `oldOrder` at position m: the moved one replaced by
   * `newOrder` and the others shifted are 0..k-1 again.
   */
  lemma DenseOrdersAfterMove(os: seq<int>, m: int, oldOrder: int, newOrder: int)
    requires multiset(os) == multiset(Range(0, |os|))
    requires 0 <= m < |os| && os[m] == oldOrder && 0 <= newOrder < |os|
    ensures multiset(MapShift(oldOrder, newOrder, os[..m]) + [newOrder] + MapShift(oldOrder, newOrder, os[m + 1..]))
            == multiset(Range(0, |os|))
  {
    var o, n, k := oldOrder, newOrder, |os|;
    assert o in multiset(Range(0, k));
    var r :| 0 <= r < k && Range(0, k)[r] == o;
    var rest := os[..m] + os[m + 1..];
    assert os == os[..m] + [o] + os[m + 1..];
    assert multiset(os) == multiset(rest) + multiset{o};
    RangeAround(o, k);
    MultisetCancel(multiset(rest), multiset(Range(0, o) + Range(o + 1, k)), o);
    MapShiftMultiset(o, n, rest, Range(0, o) + Range(o + 1, k));
    MapShiftConcat(o, n, os[..m], os[m + 1..]);
    ShiftedRangesDense(o, n, k);
  }

  lemma MapOrdersConcat(a: seq<Row>, b: seq<Row>, f: Row -> int)
    ensures MapOrders(a + b, f) == MapOrders(a, f) + MapOrders(b, f)
  {
  }

  /** Rewriting orders commutes with selecting the children of a parent. */
  lemma {:induction false} ChildRowsMapOrders(rows: seq<Row>, f: Row -> int, parentId: Uuid)
    ensures ChildRows(MapOrders(rows, f), parentId) == MapOrders(ChildRows(rows, parentId), f)
  {
    if rows != [] {
      var n := |rows|;
      var init, last := rows[..n - 1], rows[n - 1];
      ChildRowsMapOrders(init, f, parentId);
      var mr := MapOrders(rows, f);
      assert rows == init + [last];
      assert mr == MapOrders(init, f) + [last.(blockOrder := f(last))];
      ChildRowsAppend(init, last, parentId);
      ChildRowsAppend(MapOrders(init, f), last.(blockOrder := f(last)), parentId);
      MapOrdersConcat(ChildRows(init, parentId), [last], f);
    }
  }

  /** The orders of siblings after the corrected move, position by position. */
  lemma DenseMoveSiblingOrders(cs: seq<Row>, m: int, id: Uuid, parentId: Uuid, oldOrder: int, newOrder: int)
    requires 0 <= m < |cs| && cs[m].id == id
    requires forall j :: 0 <= j < |cs| && j != m ==> cs[j].id != id
    requires forall x :: x in cs ==> x.parentId == parentId
    ensures Orders(MapOrders(cs, DenseRule(id, parentId, oldOrder, newOrder))) ==
              MapShift(oldOrder, newOrder, Orders(cs)[..m]) + [newOrder] + MapShift(oldOrder, newOrder, Orders(cs)[m + 1..])
  {
    var os := Orders(cs);
    var os' := Orders(MapOrders(cs, DenseRule(id, parentId, oldOrder, newOrder)));
    var before := MapShift(oldOrder, newOrder, os[..m]);
    var after := MapShift(oldOrder, newOrder, os[m + 1..]);
    var rhs := before + [newOrder] + after;
    forall j | 0 <= j < |cs|
      ensures os'[j] == rhs[j]
    {
      assert cs[j] in cs;
      if j < m {
        assert rhs[j] == before[j];
      } else if j > m {
        assert rhs[j] == after[j - m - 1];
      }
    }
    assert os' == rhs;
  }

  /**
   * The corrected move keeps a dense parent dense: when block `id`, a child of
   * `parentId` at `oldOrder`, moves to any `newOrder` in 0..k-1, the children
   * still carry exactly 0..k-1.
   */
  lemma DenseMoveKeepsDense(rows: seq<Row>, id: Uuid, parentId: Uuid, oldOrder: int, newOrder: int)
    requires UniqueIds(rows) && Dense(rows, parentId)
    requires exists i :: 0 <= i < |rows| && rows[i].id == id && rows[i].parentId == parentId && rows[i].blockOrder == oldOrder
    requires 0 <= newOrder < |ChildRows(rows, parentId)|
    ensures Dense(DenseReordered(rows, id, parentId, oldOrder, newOrder), parentId)
  {
    var cs := ChildRows(rows, parentId);
    ChildRowsMapOrders(rows, DenseRule(id, parentId, oldOrder, newOrder), parentId);
    SelectKeepsUniqueIds(rows, (x: Row) => x.parentId == parentId);
    var i :| 0 <= i < |rows| && rows[i].id == id && rows[i].parentId == parentId && rows[i].blockOrder == oldOrder;
    var m := ChildRowIndex(rows, parentId, i);
    UniqueIdAt(cs, m);
    DenseMoveSiblingOrders(cs, m, id, parentId, oldOrder, newOrder);
    DenseOrdersAfterMove(Orders(cs), m, oldOrder, newOrder);
  }

  /** After the corrected move, the row `load_by_id` finds for `id` holds the new order. */
  lemma FindRowAfterDenseMove(rows: seq<Row>, id: Uuid, parentId: Uuid, oldOrder: int, newOrder: int)
    requires id in IdsOf(rows)
    ensures FindRow(DenseReordered(rows, id, parentId, oldOrder, newOrder), id).Some?
    ensures FindRow(DenseReordered(rows, id, parentId, oldOrder, newOrder), id).value.blockOrder == newOrder
  {
    var moved := DenseReordered(rows, id, parentId, oldOrder, newOrder);
    var i :| 0 <= i < |rows| && rows[i].id == id;
    assert moved[i].id == id;
    var r := FindRow(moved, id).value;
    var k :| 0 <= k < |moved| && moved[k] == r;
  }

  /** With the corrected move, A0 B1 C2 D3 with D moved to 1 becomes A0 B2 C3 D1. */
  lemma DenseMoveExample()
    ensures Orders(DenseReordered(FourSiblings(), "D", "P", 3, 1)) == [0, 2, 3, 1]
  {
    var moved := DenseReordered(FourSiblings(), "D", "P", 3, 1);
    assert moved[0].blockOrder == 0 && moved[1].blockOrder == 2;
    assert moved[2].blockOrder == 3 && moved[3].blockOrder == 1;
  }
}
