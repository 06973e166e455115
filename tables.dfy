/** The row/column table that TableTest.java exercises through Guava's
    HashBasedTable: a sparse two-key map, stored row-major, whose row keys and
    whose column keys inside each row keep their first-insertion order.

    This module holds the table as a value, the read-only queries over it, the
    effect of put and remove as functions, and the properties the tests rely on.
    The mutable table object is the class in module HashBasedTables. */
module Tables {
  import opened Wrappers

  /** No element of `s` occurs twice. */
  ghost predicate Distinct<T>(s: seq<T>) {
    forall i, j :: 0 <= i < j < |s| ==> s[i] != s[j]
  }

  /** The state of a hash-based table.
      rowMap is the backing map from row key to its row bucket (column key to
      value); rowOrder is the iteration order of the backing map's keys, and
      columnOrder[r] the iteration order of the keys of r's bucket. */
  datatype Table<R, C, V> = Table(rowOrder: seq<R>, columnOrder: map<R, seq<C>>, rowMap: map<R, map<C, V>>)

  /** A row bucket and its key order agree, and the bucket is not empty. */
  ghost predicate ValidBucket<C(!new), V>(order: seq<C>, bucket: map<C, V>) {
    && bucket != map[]
    && Distinct(order)
    && (forall c :: c in order <==> c in bucket)
  }

  /** The representation invariant: the orders list exactly the stored keys,
      once each, and no empty row bucket is kept. */
  ghost predicate Valid<R(!new), C(!new), V>(t: Table<R, C, V>) {
    && Distinct(t.rowOrder)
    && (forall r :: r in t.rowOrder <==> r in t.rowMap)
    && t.columnOrder.Keys == t.rowMap.Keys
    && (forall r :: r in t.rowMap ==> ValidBucket(t.columnOrder[r], t.rowMap[r]))
  }

  /** HashBasedTable.create(): the table with no cells. */
  function Empty<R(==, !new), C(==, !new), V>(): (t: Table<R, C, V>)
    ensures Valid(t)
    ensures forall r, c :: Get(t, r, c) == None
  {
    Table([], map[], map[])
  }

  // ----------------------------------------------------------------------
  // Queries

  /** table.get(r, c): the stored value, or None (Java's null) when the row,
      the column or the cell is absent. It never fails. */
  function Get<R(==, !new), C(==, !new), V>(t: Table<R, C, V>, r: R, c: C): Option<V> {
    if r in t.rowMap && c in t.rowMap[r] then Some(t.rowMap[r][c]) else None
  }

  /** table.contains(r, c). */
  function Contains<R(==, !new), C(==, !new), V>(t: Table<R, C, V>, r: R, c: C): (b: bool)
    ensures b <==> Get(t, r, c).Some?
  {
    r in t.rowMap && c in t.rowMap[r]
  }

  /** table.containsRow(r): r holds at least one cell. */
  function ContainsRow<R(==, !new), C(==, !new), V>(t: Table<R, C, V>, r: R): bool {
    r in t.rowMap
  }

  /** table.containsColumn(c): a scan of the row buckets for the column key. */
  function ContainsColumn<R(==, !new), C(==, !new), V>(t: Table<R, C, V>, c: C): bool {
    exists r :: r in t.rowMap && c in t.rowMap[r]
  }

  /** table.containsValue(v): a scan of the row buckets for the value. */
  function ContainsValue<R(==, !new), C(==, !new), V(==)>(t: Table<R, C, V>, v: V): bool {
    exists r :: r in t.rowMap && v in t.rowMap[r].Values
  }

  /** The key order of r's bucket; empty when r has no bucket. */
  function OrderOf<R(==, !new), C(==, !new), V>(t: Table<R, C, V>, r: R): seq<C> {
    if r in t.columnOrder then t.columnOrder[r] else []
  }

  /** table.row(r): the column-to-value pairs stored under r, and no others. */
  function Row<R(==, !new), C(==, !new), V>(t: Table<R, C, V>, r: R): (m: map<C, V>)
    ensures forall c :: c in m <==> Contains(t, r, c)
    ensures forall c :: c in m ==> Get(t, r, c) == Some(m[c])
  {
    if r in t.rowMap then t.rowMap[r] else map[]
  }

  /** table.column(c): the row-to-value pairs whose column is c, gathered
      across all row buckets. */
  function Column<R(==, !new), C(==, !new), V>(t: Table<R, C, V>, c: C): (m: map<R, V>)
    ensures forall r :: r in m <==> Contains(t, r, c)
    ensures forall r :: r in m ==> Get(t, r, c) == Some(m[r])
  {
    map r | r in t.rowMap && c in t.rowMap[r] :: t.rowMap[r][c]
  }

  /** table.rowKeySet(), in its iteration order. */
  function RowKeySet<R(==, !new), C(==, !new), V>(t: Table<R, C, V>): seq<R> {
    t.rowOrder
  }

  /** Appends to `seen`, in order, each element of `xs` that is not yet there. */
  function AppendNew<T(==, !new)>(seen: seq<T>, xs: seq<T>): (r: seq<T>)
    ensures forall y :: y in r <==> y in seen || y in xs
    ensures Distinct(seen) ==> Distinct(r)
    decreases |xs|
  {
    if xs == [] then seen
    else if xs[0] in seen then AppendNew(seen, xs[1..])
    else
      DistinctSnoc(seen, xs[0]);
      AppendNew(seen + [xs[0]], xs[1..])
  }

  /** Walks the rows in order and each row's columns in order, appending every
      column key not seen before: the iteration of columnKeySet(). */
  function ColumnsFrom<R(==, !new), C(==, !new)>(rows: seq<R>, columnOrder: map<R, seq<C>>, seen: seq<C>): (r: seq<C>)
    ensures Distinct(seen) ==> Distinct(r)
    ensures forall c :: c in r <==> c in seen || exists row :: row in rows && row in columnOrder && c in columnOrder[row]
  {
    if rows == [] then seen
    else
      var cols := if rows[0] in columnOrder then columnOrder[rows[0]] else [];
      var r := ColumnsFrom(rows[1..], columnOrder, AppendNew(seen, cols));
      assert forall c :: c in r <==> c in seen || exists row :: row in rows && row in columnOrder && c in columnOrder[row] by {
        forall c ensures c in r <==> c in seen || exists row :: row in rows && row in columnOrder && c in columnOrder[row] {
          if c in r && c !in seen {
            if c in cols {
              assert rows[0] in rows;
            } else {
              var row :| row in rows[1..] && row in columnOrder && c in columnOrder[row];
              assert row in rows;
            }
          }
          if c !in seen && exists row :: row in rows && row in columnOrder && c in columnOrder[row] {
            var row :| row in rows && row in columnOrder && c in columnOrder[row];
            if row != rows[0] {
              assert row in rows[1..];
            }
          }
        }
      }
      r
  }

  /** table.columnKeySet(), in its iteration order. */
  function ColumnKeySet<R(==, !new), C(==, !new), V>(t: Table<R, C, V>): seq<C> {
    ColumnsFrom(t.rowOrder, t.columnOrder, [])
  }

  /** The set of column keys that hold at least one cell. */
  ghost function ColumnKeys<R(!new), C(!new), V>(t: Table<R, C, V>): set<C> {
    set r, c | r in t.rowMap && c in t.rowMap[r] :: c
  }

  /** table.columnMap(): for each column key, that column's row-to-value map. */
  function ColumnMap<R(==, !new), C(==, !new), V>(t: Table<R, C, V>): map<C, map<R, V>> {
    map c | c in ColumnKeySet(t) :: Column(t, c)
  }

  /** The number of cells in the listed rows' buckets. */
  function SumSizes<R(==, !new), C(==, !new), V>(rows: seq<R>, rowMap: map<R, map<C, V>>): nat {
    if rows == [] then 0
    else (if rows[0] in rowMap then |rowMap[rows[0]]| else 0) + SumSizes(rows[1..], rowMap)
  }

  /** table.size(): the number of cells, summed over the row buckets. */
  function Size<R(==, !new), C(==, !new), V>(t: Table<R, C, V>): nat {
    SumSizes(t.rowOrder, t.rowMap)
  }

  // ----------------------------------------------------------------------
  // Updates

  /** `s` without `x`. */
  function Without<T(==, !new)>(s: seq<T>, x: T): (r: seq<T>)
    ensures forall y :: y in r <==> y in s && y != x
    ensures Distinct(s) ==> Distinct(r)
  {
    if s == [] then []
    else if s[0] == x then Without(s[1..], x)
    else
      var rest := Without(s[1..], x);
      assert Distinct(s) ==> s[0] !in s[1..];
      DistinctCons(s[0], rest);
      [s[0]] + rest
  }

  /** The table after table.put(r, c, v): r's bucket is created at the end of
      the row order if absent, and c is appended to the bucket's key order if
      new; an existing cell keeps its place and gets the new value. */
  function Put<R(==, !new), C(==, !new), V>(t: Table<R, C, V>, r: R, c: C, v: V): Table<R, C, V> {
    if r in t.rowMap then
      var order := OrderOf(t, r);
      Table(t.rowOrder,
            t.columnOrder[r := if c in t.rowMap[r] then order else order + [c]],
            t.rowMap[r := t.rowMap[r][c := v]])
    else
      Table(t.rowOrder + [r], t.columnOrder[r := [c]], t.rowMap[r := map[c := v]])
  }

  /** The table after table.remove(r, c): an absent cell changes nothing; a
      bucket left empty is dropped together with its row key. */
  function Remove<R(==, !new), C(==, !new), V>(t: Table<R, C, V>, r: R, c: C): Table<R, C, V> {
    if !Contains(t, r, c) then t
    else
      var bucket := t.rowMap[r] - {c};
      if bucket == map[] then
        Table(Without(t.rowOrder, r), t.columnOrder - {r}, t.rowMap - {r})
      else
        Table(t.rowOrder, t.columnOrder[r := Without(OrderOf(t, r), c)], t.rowMap[r := bucket])
  }

  /** The table after the puts in `cells`, made one after the other. */
  function PutAll<R(==, !new), C(==, !new), V>(t: Table<R, C, V>, cells: seq<(R, C, V)>): Table<R, C, V>
    decreases |cells|
  {
    if cells == [] then t else PutAll(Put(t, cells[0].0, cells[0].1, cells[0].2), cells[1..])
  }

  /** The row keys of `cells`, in order. */
  function RowKeysOf<R(==, !new), C(==, !new), V>(cells: seq<(R, C, V)>): (rows: seq<R>)
    ensures |rows| == |cells|
    ensures forall i :: 0 <= i < |cells| ==> rows[i] == cells[i].0
  {
    if cells == [] then [] else [cells[0].0] + RowKeysOf(cells[1..])
  }

  // ----------------------------------------------------------------------
  // Sequence facts

  lemma DistinctCons<T>(x: T, s: seq<T>)
    ensures Distinct([x] + s) <==> x !in s && Distinct(s)
  {
    var xs := [x] + s;
    assert xs[0] == x;
    assert forall k :: 0 <= k < |s| ==> xs[k + 1] == s[k];
  }

  lemma DistinctSnoc<T>(s: seq<T>, x: T)
    ensures Distinct(s + [x]) <==> x !in s && Distinct(s)
  {
    var xs := s + [x];
    assert xs[|s|] == x;
    assert forall k :: 0 <= k < |s| ==> xs[k] == s[k];
  }

  /** A sequence without repetitions has as many elements as its set. */
  lemma {:induction false} DistinctCardinality<T>(s: seq<T>)
    requires Distinct(s)
    ensures |set x | x in s| == |s|
  {
    if s != [] {
      DistinctCons(s[0], s[1..]);
      assert s == [s[0]] + s[1..];
      DistinctCardinality(s[1..]);
      assert (set x | x in s) == {s[0]} + (set x | x in s[1..]);
    }
  }

  /** A sequence without repetitions whose elements are exactly those of a
      set has the set's size. */
  lemma DistinctListsSet<T(!new)>(s: seq<T>, k: set<T>)
    requires Distinct(s)
    requires forall x :: x in s <==> x in k
    ensures |s| == |k|
  {
    DistinctCardinality(s);
    assert (set x | x in s) == k;
  }

  // ----------------------------------------------------------------------
  // The invariant is kept

  lemma BucketAfterPut<C(!new), V>(order: seq<C>, bucket: map<C, V>, c: C, v: V)
    requires ValidBucket(order, bucket)
    ensures ValidBucket(if c in bucket then order else order + [c], bucket[c := v])
  {
    if c !in bucket {
      DistinctSnoc(order, c);
    }
  }

  lemma BucketAfterRemove<C(!new), V>(order: seq<C>, bucket: map<C, V>, c: C)
    requires ValidBucket(order, bucket) && bucket - {c} != map[]
    ensures ValidBucket(Without(order, c), bucket - {c})
  {
  }

  lemma PutPreservesValid<R(!new), C(!new), V>(t: Table<R, C, V>, r: R, c: C, v: V)
    requires Valid(t)
    ensures Valid(Put(t, r, c, v))
  {
    if r in t.rowMap {
      PutIntoStoredRowPreservesValid(t, r, c, v);
    } else {
      PutIntoNewRowPreservesValid(t, r, c, v);
    }
  }

  lemma PutIntoStoredRowPreservesValid<R(!new), C(!new), V>(t: Table<R, C, V>, r: R, c: C, v: V)
    requires Valid(t) && r in t.rowMap
    ensures Valid(Put(t, r, c, v))
  {
    ValidRow(t, r);
    var order := t.columnOrder[r];
    var order' := if c in t.rowMap[r] then order else order + [c];
    var columnOrder' := t.columnOrder[r := order'];
    var rowMap' := t.rowMap[r := t.rowMap[r][c := v]];
    BucketAfterPut(order, t.rowMap[r], c, v);
    assert Put(t, r, c, v) == Table(t.rowOrder, columnOrder', rowMap') by {
      assert OrderOf(t, r) == order;
    }
    assert columnOrder'.Keys == rowMap'.Keys;
    forall r' | r' in rowMap' ensures ValidBucket(columnOrder'[r'], rowMap'[r']) {
      if r' != r {
        ValidRow(t, r');
      }
    }
  }

  lemma PutIntoNewRowPreservesValid<R(!new), C(!new), V>(t: Table<R, C, V>, r: R, c: C, v: V)
    requires Valid(t) && r !in t.rowMap
    ensures Valid(Put(t, r, c, v))
  {
    var t' := Put(t, r, c, v);
    DistinctSnoc(t.rowOrder, r);
    forall r' | r' in t'.rowMap ensures ValidBucket(t'.columnOrder[r'], t'.rowMap[r']) {
      if r' != r {
        ValidRow(t, r');
      } else {
        assert c in t'.rowMap[r];
      }
    }
  }

  lemma RemovePreservesValid<R(!new), C(!new), V>(t: Table<R, C, V>, r: R, c: C)
    requires Valid(t)
    ensures Valid(Remove(t, r, c))
  {
    if Contains(t, r, c) {
      var t' := Remove(t, r, c);
      ValidRow(t, r);
      if t.rowMap[r] - {c} == map[] {
        RemoveDropsRow(t, r, c);
        forall r' | r' in t'.rowMap ensures ValidBucket(t'.columnOrder[r'], t'.rowMap[r']) {
          ValidRow(t, r');
        }
      } else {
        RemoveKeepsRow(t, r, c);
        BucketAfterRemove(t.columnOrder[r], t.rowMap[r], c);
        forall r' | r' in t'.rowMap ensures ValidBucket(t'.columnOrder[r'], t'.rowMap[r']) {
          if r' != r {
            ValidRow(t, r');
          }
        }
      }
    }
  }

  /** What the invariant says about one stored row. */
  lemma ValidRow<R(!new), C(!new), V>(t: Table<R, C, V>, r: R)
    requires Valid(t) && r in t.rowMap
    ensures r in t.columnOrder && ValidBucket(t.columnOrder[r], t.rowMap[r])
  {
  }

  /** put into an existing row, spelled out field by field. */
  lemma PutIntoRow<R(!new), C(!new), V>(t: Table<R, C, V>, r: R, c: C, v: V)
    requires r in t.rowMap && r in t.columnOrder
    ensures Put(t, r, c, v) == Table(t.rowOrder,
                                     if c in t.rowMap[r] then t.columnOrder else t.columnOrder[r := t.columnOrder[r] + [c]],
                                     t.rowMap[r := t.rowMap[r][c := v]])
  {
    assert OrderOf(t, r) == t.columnOrder[r];
  }

  /** remove of a row's last cell, spelled out field by field. */
  lemma RemoveDropsRow<R(!new), C(!new), V>(t: Table<R, C, V>, r: R, c: C)
    requires r in t.rowMap && c in t.rowMap[r] && t.rowMap[r] - {c} == map[]
    ensures Remove(t, r, c) == Table(Without(t.rowOrder, r), t.columnOrder - {r}, t.rowMap - {r})
  {
  }

  /** remove of one of several cells of a row, spelled out field by field. */
  lemma RemoveKeepsRow<R(!new), C(!new), V>(t: Table<R, C, V>, r: R, c: C)
    requires r in t.rowMap && r in t.columnOrder && c in t.rowMap[r]
    requires t.rowMap[r] - {c} != map[]
    ensures Remove(t, r, c) == Table(t.rowOrder, t.columnOrder[r := Without(t.columnOrder[r], c)], t.rowMap[r := t.rowMap[r] - {c}])
  {
    assert OrderOf(t, r) == t.columnOrder[r];
  }

  /** remove of a cell missing from a stored row changes nothing. */
  lemma RemoveMissingCell<R(!new), C(!new), V>(t: Table<R, C, V>, r: R, c: C)
    requires r in t.rowMap && c !in t.rowMap[r]
    ensures Remove(t, r, c) == t
  {
  }

  // ----------------------------------------------------------------------
  // get, remove, row and column

  /** After put(r, c, v), get(r, c) is v and every other cell is as before. */
  lemma GetAfterPut<R(!new), C(!new), V>(t: Table<R, C, V>, r: R, c: C, v: V, r': R, c': C)
    ensures Get(Put(t, r, c, v), r', c') == if r' == r && c' == c then Some(v) else Get(t, r', c')
  {
  }

  /** A stored cell makes contains, containsRow, containsColumn and
      containsValue all hold. */
  lemma StoredCellIsContained<R(!new), C(!new), V>(t: Table<R, C, V>, r: R, c: C, v: V)
    requires Get(t, r, c) == Some(v)
    ensures Contains(t, r, c) && ContainsRow(t, r) && ContainsColumn(t, c) && ContainsValue(t, v)
  {
    assert v == t.rowMap[r][c] && v in t.rowMap[r].Values;
  }

  /** remove(r, c) clears that cell and leaves every other cell as it was. */
  lemma GetAfterRemove<R(!new), C(!new), V>(t: Table<R, C, V>, r: R, c: C, r': R, c': C)
    ensures Get(Remove(t, r, c), r', c') == if r' == r && c' == c then None else Get(t, r', c')
  {
    if Contains(t, r, c) && r' == r && c' != c {
      assert c' in t.rowMap[r] ==> c' in t.rowMap[r] - {c};
    }
  }

  /** A second remove of the same cell changes nothing. */
  lemma RemoveTwice<R(!new), C(!new), V>(t: Table<R, C, V>, r: R, c: C)
    ensures !Contains(Remove(t, r, c), r, c)
    ensures Remove(Remove(t, r, c), r, c) == Remove(t, r, c)
  {
  }

  /** Removing a row's only cell removes the row key. */
  lemma RemoveLastCellOfRow<R(!new), C(!new), V>(t: Table<R, C, V>, r: R, c: C)
    requires Valid(t)
    requires Contains(t, r, c) && t.rowMap[r].Keys == {c}
    ensures !ContainsRow(Remove(t, r, c), r)
    ensures r !in RowKeySet(Remove(t, r, c))
  {
    assert t.rowMap[r] - {c} == map[];
  }

  /** row(r) does not depend on what is put into or removed from other rows. */
  lemma RowIgnoresOtherRows<R(!new), C(!new), V>(t: Table<R, C, V>, r: R, r': R, c: C, v: V)
    requires r' != r
    ensures Row(Put(t, r', c, v), r) == Row(t, r)
    ensures Row(Remove(t, r', c), r) == Row(t, r)
  {
  }

  /** column(c) after put(r, c, v) gains (or updates) exactly the entry for r,
      and a put into another column leaves it as it was. */
  lemma ColumnAfterPut<R(!new), C(!new), V>(t: Table<R, C, V>, r: R, c: C, v: V, c': C)
    ensures Column(Put(t, r, c, v), c') == if c' == c then Column(t, c)[r := v] else Column(t, c')
  {
    var before, after := Column(t, c'), Column(Put(t, r, c, v), c');
    if c' == c {
      assert after == before[r := v];
    } else {
      assert after == before;
    }
  }

  // ----------------------------------------------------------------------
  // Key sets, columnMap and size

  /** columnKeySet() lists every column key that holds a cell, once each. */
  lemma ColumnKeySetMembers<R(!new), C(!new), V>(t: Table<R, C, V>)
    requires Valid(t)
    ensures Distinct(ColumnKeySet(t))
    ensures forall c :: c in ColumnKeySet(t) <==> ContainsColumn(t, c)
    ensures forall c :: c in ColumnKeySet(t) <==> c in ColumnKeys(t)
  {
    assert Distinct<C>([]);
    forall c ensures c in ColumnKeySet(t) <==> ContainsColumn(t, c) {
      if c in ColumnKeySet(t) {
        var row :| row in t.rowOrder && row in t.columnOrder && c in t.columnOrder[row];
        assert c in t.rowMap[row];
      }
      if ContainsColumn(t, c) {
        var row :| row in t.rowMap && c in t.rowMap[row];
        assert row in t.rowOrder && row in t.columnOrder && c in t.columnOrder[row];
      }
    }
    forall c ensures ContainsColumn(t, c) <==> c in ColumnKeys(t) {
      if ContainsColumn(t, c) {
        var row :| row in t.rowMap && c in t.rowMap[row];
        assert c in ColumnKeys(t);
      }
    }
  }

  /** rowKeySet() and columnKeySet() have as many elements as there are
      distinct row keys and column keys with at least one cell. */
  lemma KeySetSizes<R(!new), C(!new), V>(t: Table<R, C, V>)
    requires Valid(t)
    ensures |RowKeySet(t)| == |t.rowMap.Keys|
    ensures |ColumnKeySet(t)| == |ColumnKeys(t)|
  {
    DistinctListsSet(t.rowOrder, t.rowMap.Keys);
    ColumnKeySetMembers(t);
    DistinctListsSet(ColumnKeySet(t), ColumnKeys(t));
  }

  /** columnMap() has one entry per column key holding a cell; each entry is
      that column's non-empty row-to-value map, so columnMap() is the
      transpose of the table. */
  lemma ColumnMapIsTranspose<R(!new), C(!new), V>(t: Table<R, C, V>)
    requires Valid(t)
    ensures forall c :: c in ColumnMap(t) <==> ContainsColumn(t, c)
    ensures forall c :: c in ColumnMap(t) ==> ColumnMap(t)[c] == Column(t, c) && ColumnMap(t)[c] != map[]
    ensures forall r, c :: Contains(t, r, c) <==> c in ColumnMap(t) && r in ColumnMap(t)[c]
    ensures |ColumnMap(t)| == |ColumnKeySet(t)|
  {
    ColumnKeySetMembers(t);
    var cm := ColumnMap(t);
    assert forall c :: c in cm <==> c in ColumnKeySet(t);
    forall c | c in cm ensures cm[c] == Column(t, c) && cm[c] != map[] {
      assert ContainsColumn(t, c);
      var row :| row in t.rowMap && c in t.rowMap[row];
      assert row in Column(t, c);
    }
    forall r, c ensures Contains(t, r, c) <==> c in cm && r in cm[c] {
      if Contains(t, r, c) {
        assert ContainsColumn(t, c);
      }
    }
    DistinctListsSet(ColumnKeySet(t), cm.Keys);
  }

  /** Rows outside `rows` do not affect the sum over `rows`. */
  lemma {:induction false} SumSizesAgree<R(!new), C(!new), V>(rows: seq<R>, m1: map<R, map<C, V>>, m2: map<R, map<C, V>>)
    requires forall x :: x in rows ==> (x in m1 <==> x in m2) && (x in m1 ==> |m1[x]| == |m2[x]|)
    ensures SumSizes(rows, m1) == SumSizes(rows, m2)
  {
    if rows != [] {
      SumSizesAgree(rows[1..], m1, m2);
    }
  }

  /** Changing the bucket of a row listed once changes the sum by the
      difference of the bucket sizes. */
  lemma {:induction false} SumSizesUpdate<R(!new), C(!new), V>(rows: seq<R>, m: map<R, map<C, V>>, r: R, b: map<C, V>)
    requires Distinct(rows) && r in rows && r in m
    ensures SumSizes(rows, m[r := b]) == SumSizes(rows, m) - |m[r]| + |b|
  {
    DistinctCons(rows[0], rows[1..]);
    assert rows == [rows[0]] + rows[1..];
    if rows[0] == r {
      SumSizesAgree(rows[1..], m[r := b], m);
    } else {
      SumSizesUpdate(rows[1..], m, r, b);
    }
  }

  /** Appending a new row with its bucket adds the bucket's size. */
  lemma {:induction false} SumSizesAppend<R(!new), C(!new), V>(rows: seq<R>, m: map<R, map<C, V>>, r: R, b: map<C, V>)
    requires r !in rows
    ensures SumSizes(rows + [r], m[r := b]) == SumSizes(rows, m) + |b|
  {
    if rows == [] {
      assert [r][1..] == [];
    } else {
      assert (rows + [r])[1..] == rows[1..] + [r];
      SumSizesAppend(rows[1..], m, r, b);
    }
  }

  /** Dropping a row listed once, together with its bucket, subtracts the
      bucket's size. */
  lemma {:induction false} SumSizesDrop<R(!new), C(!new), V>(rows: seq<R>, m: map<R, map<C, V>>, r: R)
    requires Distinct(rows) && r in rows && r in m
    ensures SumSizes(Without(rows, r), m - {r}) == SumSizes(rows, m) - |m[r]|
  {
    DistinctCons(rows[0], rows[1..]);
    assert rows == [rows[0]] + rows[1..];
    if rows[0] == r {
      WithoutAbsent(rows[1..], r);
      SumSizesAgree(rows[1..], m - {r}, m);
    } else {
      SumSizesDrop(rows[1..], m, r);
    }
  }

  lemma {:induction false} WithoutAbsent<T(!new)>(s: seq<T>, x: T)
    requires x !in s
    ensures Without(s, x) == s
  {
    if s != [] {
      WithoutAbsent(s[1..], x);
    }
  }

  /** put adds one cell unless the cell already existed. */
  lemma SizeAfterPut<R(!new), C(!new), V>(t: Table<R, C, V>, r: R, c: C, v: V)
    requires Valid(t)
    ensures Size(Put(t, r, c, v)) == if Contains(t, r, c) then Size(t) else Size(t) + 1
  {
    if r in t.rowMap {
      SumSizesUpdate(t.rowOrder, t.rowMap, r, t.rowMap[r][c := v]);
    } else {
      SumSizesAppend(t.rowOrder, t.rowMap, r, map[c := v]);
    }
  }

  /** remove takes away one cell when the cell existed, none otherwise. */
  lemma SizeAfterRemove<R(!new), C(!new), V>(t: Table<R, C, V>, r: R, c: C)
    requires Valid(t)
    ensures Size(Remove(t, r, c)) == if Contains(t, r, c) then Size(t) - 1 else Size(t)
  {
    if Contains(t, r, c) {
      var bucket := t.rowMap[r] - {c};
      assert |bucket| == |t.rowMap[r]| - 1;
      if bucket == map[] {
        SumSizesDrop(t.rowOrder, t.rowMap, r);
      } else {
        SumSizesUpdate(t.rowOrder, t.rowMap, r, bucket);
      }
    }
  }

  // ----------------------------------------------------------------------
  // Row key order

  /** put appends a new row key to rowKeySet() and leaves the order alone
      otherwise. */
  lemma RowKeySetAfterPut<R(!new), C(!new), V>(t: Table<R, C, V>, r: R, c: C, v: V)
    requires Valid(t)
    ensures RowKeySet(Put(t, r, c, v)) == if r in RowKeySet(t) then RowKeySet(t) else RowKeySet(t) + [r]
  {
  }

  /** rowKeySet() keeps first-insertion order: after a series of puts its
      order is the old one followed by each new row key at its first put. */
  lemma {:induction false} RowKeySetAfterPuts<R(!new), C(!new), V>(t: Table<R, C, V>, cells: seq<(R, C, V)>)
    requires Valid(t)
    ensures RowKeySet(PutAll(t, cells)) == AppendNew(RowKeySet(t), RowKeysOf(cells))
    decreases |cells|
  {
    if cells != [] {
      var (r, c, v) := cells[0];
      var t' := Put(t, r, c, v);
      PutPreservesValid(t, r, c, v);
      RowKeySetAfterPut(t, r, c, v);
      RowKeySetAfterPuts(t', cells[1..]);
      assert RowKeysOf(cells)[1..] == RowKeysOf(cells[1..]);
    }
  }

  /** Appending keys none of which has been seen, and no two alike, just
      concatenates them. */
  lemma {:induction false} AppendNewFresh<T(!new)>(seen: seq<T>, xs: seq<T>)
    requires Distinct(xs)
    requires forall x :: x in xs ==> x !in seen
    ensures AppendNew(seen, xs) == seen + xs
    decreases |xs|
  {
    if xs != [] {
      assert xs == [xs[0]] + xs[1..];
      DistinctCons(xs[0], xs[1..]);
      assert xs[0] in xs;
      forall x | x in xs[1..]
        ensures x !in seen + [xs[0]]
      {
        assert x in xs;
      }
      AppendNewFresh(seen + [xs[0]], xs[1..]);
      assert seen + [xs[0]] + xs[1..] == seen + xs;
    }
  }

  /** rowKeySet() lists the rows in the order of their first put: when the
      puts of `cells` go to pairwise different rows of an empty table, the row
      keys come out exactly in the order of the puts. */
  lemma RowKeySetFollowsPuts<R(!new), C(!new), V>(cells: seq<(R, C, V)>)
    requires Distinct(RowKeysOf(cells))
    ensures RowKeySet(PutAll(Empty(), cells)) == RowKeysOf(cells)
  {
    RowKeySetAfterPuts(Empty(), cells);
    AppendNewFresh([], RowKeysOf(cells));
  }
}
