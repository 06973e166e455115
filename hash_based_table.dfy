/** The mutable table object that TableTest.java creates with
    HashBasedTable.create() and changes with put and remove. Its fields are the
    backing map of row buckets and the key orders of the linked hash maps that
    hold them; the queries are the functions of module Tables applied to
    Contents(). */
module HashBasedTables {
  import opened Wrappers
  import opened Tables

  class HashBasedTable<R(==, !new), C(==, !new), V> {
    var rowOrder: seq<R>
    var columnOrder: map<R, seq<C>>
    var rowMap: map<R, map<C, V>>

    /** The table's current state as a value. */
    function Contents(): Table<R, C, V>
      reads this
    {
      Table(rowOrder, columnOrder, rowMap)
    }

    ghost predicate Valid()
      reads this
    {
      Tables.Valid(Contents())
    }

    /** HashBasedTable.create(). */
    constructor Create()
      ensures Valid() && Contents() == Empty()
    {
      rowOrder, columnOrder, rowMap := [], map[], map[];
    }

    /** table.put(r, c, v): fetches or creates r's bucket and stores v under c
        in it; returns the value the cell held before, if any. */
    method Put(r: R, c: C, v: V) returns (previous: Option<V>)
      requires Valid()
      modifies this
      ensures Valid()
      ensures Contents() == Tables.Put(old(Contents()), r, c, v)
      ensures previous == Get(old(Contents()), r, c)
    {
      ghost var before := Contents();
      if r in rowMap {
        ValidRow(before, r);
        PutIntoRow(before, r, c, v);
        var bucket := rowMap[r];
        previous := if c in bucket then Some(bucket[c]) else None;
        if c !in bucket {
          columnOrder := columnOrder[r := columnOrder[r] + [c]];
        }
        rowMap := rowMap[r := bucket[c := v]];
      } else {
        previous := None;
        rowOrder := rowOrder + [r];
        columnOrder := columnOrder[r := [c]];
        rowMap := rowMap[r := map[c := v]];
      }
      PutPreservesValid(before, r, c, v);
    }

    /** table.remove(r, c): a missing row or cell gives None and changes
        nothing; otherwise the cell is removed from r's bucket and the bucket
        is dropped if that left it empty. Returns the removed value, if any. */
    method Remove(r: R, c: C) returns (removed: Option<V>)
      requires Valid()
      modifies this
      ensures Valid()
      ensures Contents() == Tables.Remove(old(Contents()), r, c)
      ensures removed == Get(old(Contents()), r, c)
    {
      ghost var before := Contents();
      if r !in rowMap {
        return None;
      }
      ValidRow(before, r);
      var bucket := rowMap[r];
      if c !in bucket {
        // Nothing to remove: the bucket keeps its cells, so it stays.
        RemoveMissingCell(before, r, c);
        return None;
      }
      removed := Some(bucket[c]);
      bucket := bucket - {c};
      if bucket == map[] {
        RemoveDropsRow(before, r, c);
        rowOrder := Without(rowOrder, r);
        columnOrder := columnOrder - {r};
        rowMap := rowMap - {r};
      } else {
        RemoveKeepsRow(before, r, c);
        columnOrder := columnOrder[r := Without(columnOrder[r], c)];
        rowMap := rowMap[r := bucket];
      }
      RemovePreservesValid(before, r, c);
    }
  }
}
