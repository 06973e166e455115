/** TableTest.java: the private helper convertTableToArray, and each test's
    sequence of table operations with the outcome it asserts. Every table in
    these tests maps String row and column keys to Integer values. */
module TableTest {
  import opened Wrappers
  import opened Tables
  import opened HashBasedTables

  /** convertTableToArray: allocates a rowKeySet().size() by
      columnKeySet().size() grid and, walking the row keys and the column keys
      in their iteration orders with a row and a column counter, writes
      table.get(rowKey, colKey) into each cell (None where Java stores null). */
  method ConvertTableToArray<R(==, !new), C(==, !new), V>(table: HashBasedTable<R, C, V>) returns (grid: array2<Option<V>>)
    ensures fresh(grid)
    ensures grid.Length0 == |RowKeySet(table.Contents())|
    ensures grid.Length1 == |ColumnKeySet(table.Contents())|
    ensures forall i, j :: 0 <= i < grid.Length0 && 0 <= j < grid.Length1 ==>
              grid[i, j] == Get(table.Contents(), RowKeySet(table.Contents())[i], ColumnKeySet(table.Contents())[j])
  {
    var rowKeys := RowKeySet(table.Contents());
    var columnKeys := ColumnKeySet(table.Contents());
    grid := new Option<V>[|rowKeys|, |columnKeys|];
    var row := 0;
    while row < |rowKeys|
      invariant 0 <= row <= |rowKeys|
      invariant forall i, j :: 0 <= i < row && 0 <= j < |columnKeys| ==>
                  grid[i, j] == Get(table.Contents(), rowKeys[i], columnKeys[j])
    {
      var rowKey := rowKeys[row];
      var col := 0;
      while col < |columnKeys|
        invariant 0 <= col <= |columnKeys|
        invariant forall i, j :: 0 <= i < row && 0 <= j < |columnKeys| ==>
                    grid[i, j] == Get(table.Contents(), rowKeys[i], columnKeys[j])
        invariant forall j :: 0 <= j < col ==> grid[row, j] == Get(table.Contents(), rowKey, columnKeys[j])
      {
        grid[row, col] := Get(table.Contents(), rowKey, columnKeys[col]);
        col := col + 1;
      }
      row := row + 1;
    }
  }

  /** The grid loses no cell: every stored cell has a row index in rowKeySet()
      and a column index in columnKeySet(), and each key has exactly one index,
      so the cell is written to exactly one place of the grid. */
  lemma EveryCellHasOnePlace<R(!new), C(!new), V>(t: Table<R, C, V>, r: R, c: C)
    requires Valid(t) && Contains(t, r, c)
    ensures exists i, j :: 0 <= i < |RowKeySet(t)| && 0 <= j < |ColumnKeySet(t)| &&
              RowKeySet(t)[i] == r && ColumnKeySet(t)[j] == c
    ensures forall i, i' :: 0 <= i < i' < |RowKeySet(t)| ==> RowKeySet(t)[i] != RowKeySet(t)[i']
    ensures forall j, j' :: 0 <= j < j' < |ColumnKeySet(t)| ==> ColumnKeySet(t)[j] != ColumnKeySet(t)[j']
  {
    ColumnKeySetMembers(t);
    var i :| 0 <= i < |RowKeySet(t)| && RowKeySet(t)[i] == r;
    var j :| 0 <= j < |ColumnKeySet(t)| && ColumnKeySet(t)[j] == c;
  }

  // ----------------------------------------------------------------------
  // Building the tests' tables

  /** Two puts into a row that holds no cell yet. */
  lemma TwoCellsInNewRow<R(!new), C(!new), V>(t: Table<R, C, V>, r: R, c1: C, v1: V, c2: C, v2: V)
    requires r !in t.rowMap && c1 != c2
    ensures Put(Put(t, r, c1, v1), r, c2, v2)
         == Table(t.rowOrder + [r], t.columnOrder[r := [c1, c2]], t.rowMap[r := map[c1 := v1, c2 := v2]])
  {
    assert [c1] + [c2] == [c1, c2];
  }

  /** Three puts into a row that holds no cell yet. */
  lemma ThreeCellsInNewRow<R(!new), C(!new), V>(t: Table<R, C, V>, r: R, c1: C, v1: V, c2: C, v2: V, c3: C, v3: V)
    requires r !in t.rowMap && c1 != c2 && c1 != c3 && c2 != c3
    ensures Put(Put(Put(t, r, c1, v1), r, c2, v2), r, c3, v3)
         == Table(t.rowOrder + [r], t.columnOrder[r := [c1, c2, c3]], t.rowMap[r := map[c1 := v1, c2 := v2, c3 := v3]])
  {
    TwoCellsInNewRow(t, r, c1, v1, c2, v2);
    assert [c1, c2] + [c3] == [c1, c2, c3];
  }

  method PutTwoCells<R(==, !new), C(==, !new), V>(table: HashBasedTable<R, C, V>, r: R, c1: C, v1: V, c2: C, v2: V)
    requires table.Valid() && r !in table.rowMap && c1 != c2
    modifies table
    ensures table.Valid()
    ensures table.Contents() == Table(old(table.rowOrder) + [r], old(table.columnOrder)[r := [c1, c2]],
                                      old(table.rowMap)[r := map[c1 := v1, c2 := v2]])
  {
    TwoCellsInNewRow(table.Contents(), r, c1, v1, c2, v2);
    var _ := table.Put(r, c1, v1);
    var _ := table.Put(r, c2, v2);
  }

  method PutThreeCells<R(==, !new), C(==, !new), V>(table: HashBasedTable<R, C, V>, r: R, c1: C, v1: V, c2: C, v2: V, c3: C, v3: V)
    requires table.Valid() && r !in table.rowMap && c1 != c2 && c1 != c3 && c2 != c3
    modifies table
    ensures table.Valid()
    ensures table.Contents() == Table(old(table.rowOrder) + [r], old(table.columnOrder)[r := [c1, c2, c3]],
                                      old(table.rowMap)[r := map[c1 := v1, c2 := v2, c3 := v3]])
  {
    ThreeCellsInNewRow(table.Contents(), r, c1, v1, c2, v2, c3, v3);
    var _ := table.Put(r, c1, v1);
    var _ := table.Put(r, c2, v2);
    var _ := table.Put(r, c3, v3);
  }

  /** The university and course keys are pairwise different strings. */
  lemma UniversityKeysDiffer()
    ensures "Mumbai" != "Harvard" && "Mumbai" != "Oxford" && "Harvard" != "Oxford"
    ensures "IT" != "Chemical" && "IT" != "Electrical" && "Chemical" != "Electrical"
    ensures "abc" != "IT" && "abc" != "Chemical"
  {
    assert "Mumbai"[0] != "Harvard"[0] && "Mumbai"[0] != "Oxford"[0] && |"Harvard"| != |"Oxford"|;
    assert |"IT"| != |"Chemical"| && |"IT"| != |"Electrical"| && |"Chemical"| != |"Electrical"|;
    assert |"abc"| != |"IT"| && |"abc"| != |"Chemical"|;
  }

  /** The table after the four puts that open most of the tests. */
  const UniversityCourseSeats: Table<string, string, int> :=
    Table(["Mumbai", "Harvard"],
          map["Mumbai" := ["Chemical", "IT"], "Harvard" := ["Electrical", "IT"]],
          map["Mumbai" := map["Chemical" := 120, "IT" := 60],
              "Harvard" := map["Electrical" := 60, "IT" := 120]])

  /** put("Mumbai", "Chemical", 120), put("Mumbai", "IT", 60),
      put("Harvard", "Electrical", 60), put("Harvard", "IT", 120). */
  method NewUniversityCourseSeatTable() returns (table: HashBasedTable<string, string, int>)
    ensures fresh(table)
    ensures table.Contents() == UniversityCourseSeats
  {
    UniversityKeysDiffer();
    table := new HashBasedTable.Create();
    PutTwoCells(table, "Mumbai", "Chemical", 120, "IT", 60);
    PutTwoCells(table, "Harvard", "Electrical", 60, "IT", 120);
    assert [] + ["Mumbai"] + ["Harvard"] == ["Mumbai", "Harvard"];
  }

  /** columnKeySet() of the university table: Mumbai's courses, then
      Harvard's new one. */
  lemma UniversityColumnKeySet()
    ensures ColumnKeySet(UniversityCourseSeats) == ["Chemical", "IT", "Electrical"]
  {
    UniversityKeysDiffer();
    var rows := UniversityCourseSeats.rowOrder;
    assert rows[1..] == ["Harvard"] && rows[1..][1..] == [];
    var mumbai := AppendNew([], ["Chemical", "IT"]);
    assert mumbai == ["Chemical", "IT"] by {
      assert ["Chemical", "IT"][1..] == ["IT"] && ["IT"][1..] == [];
      assert [] + ["Chemical"] + ["IT"] == ["Chemical", "IT"];
    }
    assert AppendNew(mumbai, ["Electrical", "IT"]) == ["Chemical", "IT", "Electrical"] by {
      assert ["Electrical", "IT"][1..] == ["IT"] && ["IT"][1..] == [];
      assert mumbai + ["Electrical"] == ["Chemical", "IT", "Electrical"];
    }
  }

  lemma UniversityColumnIT()
    ensures Column(UniversityCourseSeats, "IT") == map["Mumbai" := 60, "Harvard" := 120]
  {
    UniversityKeysDiffer();
  }

  lemma UniversityColumnITSize()
    ensures |Column(UniversityCourseSeats, "IT")| == 2
  {
    UniversityColumnIT();
    UniversityKeysDiffer();
  }

  lemma UniversityColumnChemical()
    ensures Column(UniversityCourseSeats, "Chemical") == map["Mumbai" := 120]
  {
    UniversityKeysDiffer();
  }

  lemma UniversityColumnElectrical()
    ensures Column(UniversityCourseSeats, "Electrical") == map["Harvard" := 60]
  {
    UniversityKeysDiffer();
  }

  /** columnMap() of the university table has one entry per course. */
  lemma UniversityColumnMapSize()
    ensures |ColumnMap(UniversityCourseSeats)| == 3
  {
    UniversityKeysDiffer();
    UniversityColumnKeySet();
    DistinctListsSet(ColumnKeySet(UniversityCourseSeats), ColumnMap(UniversityCourseSeats).Keys);
  }

  /** columnMap() of the university table maps each course to its column. */
  lemma UniversityColumnMapEntries()
    ensures "Chemical" in ColumnMap(UniversityCourseSeats) && ColumnMap(UniversityCourseSeats)["Chemical"] == map["Mumbai" := 120]
    ensures "IT" in ColumnMap(UniversityCourseSeats) && ColumnMap(UniversityCourseSeats)["IT"] == map["Mumbai" := 60, "Harvard" := 120]
    ensures "Electrical" in ColumnMap(UniversityCourseSeats) && ColumnMap(UniversityCourseSeats)["Electrical"] == map["Harvard" := 60]
    ensures |ColumnMap(UniversityCourseSeats)["IT"]| == 2
  {
    UniversityColumnITSize();
    UniversityColumnKeySet();
    UniversityColumnIT();
    UniversityColumnChemical();
    UniversityColumnElectrical();
  }

  // ----------------------------------------------------------------------
  // The tests

  /** givenTable_whenGet_returnsSuccessfully: a stored cell is found; a cell
      of an unknown row, and one of an unknown column, read as null rather
      than failing. */
  method GivenTableWhenGet() returns (seatCount: Option<int>, seatCountForNoEntry: Option<int>, x: Option<int>)
    ensures seatCount == Some(60)
    ensures seatCountForNoEntry == None
    ensures x == None
  {
    var table := NewUniversityCourseSeatTable();
    UniversityKeysDiffer();
    seatCount := Get(table.Contents(), "Mumbai", "IT");
    seatCountForNoEntry := Get(table.Contents(), "Oxford", "IT");
    x := Get(table.Contents(), "Mumbai", "abc");
  }

  /** givenTable_whenContains_returnsSuccessfully. */
  method GivenTableWhenContains() returns (entryIsPresent: bool, courseIsPresent: bool, universityIsPresent: bool, seatCountIsPresent: bool)
    ensures entryIsPresent && courseIsPresent && universityIsPresent && seatCountIsPresent
  {
    var table := NewUniversityCourseSeatTable();
    StoredCellIsContained(table.Contents(), "Mumbai", "IT", 60);
    entryIsPresent := Contains(table.Contents(), "Mumbai", "IT");
    courseIsPresent := ContainsColumn(table.Contents(), "IT");
    universityIsPresent := ContainsRow(table.Contents(), "Mumbai");
    seatCountIsPresent := ContainsValue(table.Contents(), 60);
  }

  /** givenTable_whenRemove_returnsSuccessfully: the first remove returns the
      value, the second finds nothing. */
  method GivenTableWhenRemove() returns (seatCount: Option<int>, secondRemove: Option<int>)
    ensures seatCount == Some(60)
    ensures secondRemove == None
  {
    UniversityKeysDiffer();
    var table := new HashBasedTable.Create();
    PutTwoCells(table, "Mumbai", "Chemical", 120, "IT", 60);
    ghost var filled := table.Contents();
    seatCount := table.Remove("Mumbai", "IT");
    GetAfterRemove(filled, "Mumbai", "IT", "Mumbai", "IT");
    secondRemove := table.Remove("Mumbai", "IT");
  }

  /** givenTable_whenColumn_returnsSuccessfully. */
  method GivenTableWhenColumn() returns (universitySeatMap: map<string, int>)
    ensures |universitySeatMap| == 2
    ensures "Mumbai" in universitySeatMap && universitySeatMap["Mumbai"] == 60
    ensures "Harvard" in universitySeatMap && universitySeatMap["Harvard"] == 120
  {
    var table := NewUniversityCourseSeatTable();
    UniversityColumnIT();
    UniversityColumnITSize();
    universitySeatMap := Column(table.Contents(), "IT");
  }

  /** givenTable_whenColumnMap_returnsSuccessfully. */
  method GivenTableWhenColumnMap() returns (courseKeyUniversitySeatMap: map<string, map<string, int>>)
    ensures |courseKeyUniversitySeatMap| == 3
    ensures "IT" in courseKeyUniversitySeatMap && |courseKeyUniversitySeatMap["IT"]| == 2
    ensures "Electrical" in courseKeyUniversitySeatMap && |courseKeyUniversitySeatMap["Electrical"]| == 1
    ensures "Chemical" in courseKeyUniversitySeatMap && |courseKeyUniversitySeatMap["Chemical"]| == 1
  {
    var table := NewUniversityCourseSeatTable();
    UniversityColumnMapSize();
    UniversityColumnMapEntries();
    courseKeyUniversitySeatMap := ColumnMap(table.Contents());
  }

  /** givenTable_whenRow_returnsSuccessfully. */
  method GivenTableWhenRow() returns (courseSeatMap: map<string, int>)
    ensures |courseSeatMap| == 2
    ensures "IT" in courseSeatMap && courseSeatMap["IT"] == 60
    ensures "Chemical" in courseSeatMap && courseSeatMap["Chemical"] == 120
  {
    var table := NewUniversityCourseSeatTable();
    UniversityKeysDiffer();
    courseSeatMap := Row(table.Contents(), "Mumbai");
  }

  /** givenTable_whenRowKeySet_returnsSuccessfully. */
  method GivenTableWhenRowKeySet() returns (universitySet: seq<string>)
    ensures |universitySet| == 2
  {
    var table := NewUniversityCourseSeatTable();
    universitySet := RowKeySet(table.Contents());
  }

  /** givenTable_whenColKeySet_returnsSuccessfully. */
  method GivenTableWhenColKeySet() returns (courseSet: seq<string>)
    ensures |courseSet| == 3
  {
    var table := NewUniversityCourseSeatTable();
    UniversityColumnKeySet();
    courseSet := ColumnKeySet(table.Contents());
  }

  /** The five row keys of the ordering test are pairwise different. */
  lemma OrderingKeysDiffer()
    ensures "5" != "3" && "5" != "1" && "5" != "2" && "5" != "4"
    ensures "3" != "1" && "3" != "2" && "3" != "4"
    ensures "1" != "2" && "1" != "4" && "2" != "4"
  {
    assert "5"[0] != "3"[0] && "5"[0] != "1"[0] && "5"[0] != "2"[0] && "5"[0] != "4"[0];
    assert "3"[0] != "1"[0] && "3"[0] != "2"[0] && "3"[0] != "4"[0];
    assert "1"[0] != "2"[0] && "1"[0] != "4"[0] && "2"[0] != "4"[0];
  }

  /** check_if_order_of_added_row_keys_remain_unchanged: five puts into
      new rows, and rowKeySet() yields those rows in the order of the puts. */
  lemma CheckIfOrderOfAddedRowKeysRemainUnchanged()
    ensures RowKeySet(PutAll(Empty(), [("5", "A", 5), ("3", "A", 3), ("1", "A", 1), ("2", "A", 2), ("4", "A", 4)]))
         == ["5", "3", "1", "2", "4"]
  {
    OrderingKeysDiffer();
    var cells := [("5", "A", 5), ("3", "A", 3), ("1", "A", 1), ("2", "A", 2), ("4", "A", 4)];
    assert RowKeysOf(cells) == ["5", "3", "1", "2", "4"];
    RowKeySetFollowsPuts(cells);
  }

  /** The table of givenTable_convertToArray after its six puts. */
  const CourseMarks: Table<string, string, int> :=
    Table(["001", "002"],
          map["001" := ["EU A1", "EU A2", "BM A1"], "002" := ["EU A1", "EU A2", "BM A1"]],
          map["001" := map["EU A1" := 100, "EU A2" := 200, "BM A1" := 300],
              "002" := map["EU A1" := 50, "EU A2" := 100, "BM A1" := 150]])

  lemma CourseMarksKeysDiffer()
    ensures "001" != "002"
    ensures "EU A1" != "EU A2" && "EU A1" != "BM A1" && "EU A2" != "BM A1"
  {
    assert "001"[2] != "002"[2];
    assert "EU A1"[4] != "EU A2"[4] && "EU A1"[0] != "BM A1"[0] && "EU A2"[0] != "BM A1"[0];
  }

  /** columnKeySet() of that table: row 001's columns; row 002 adds none. */
  lemma CourseMarksColumnKeySet()
    ensures ColumnKeySet(CourseMarks) == ["EU A1", "EU A2", "BM A1"]
  {
    CourseMarksKeysDiffer();
    var cols := ["EU A1", "EU A2", "BM A1"];
    assert cols[1..] == ["EU A2", "BM A1"] && cols[1..][1..] == ["BM A1"] && cols[1..][1..][1..] == [];
    var rows := CourseMarks.rowOrder;
    assert rows[1..] == ["002"] && rows[1..][1..] == [];
    assert AppendNew([], cols) == cols by {
      assert [] + ["EU A1"] + ["EU A2"] + ["BM A1"] == cols;
    }
    assert AppendNew(cols, cols) == cols;
  }

  /** The value of each cell of that table, by row and column index. */
  lemma CourseMarksCells()
    ensures RowKeySet(CourseMarks) == ["001", "002"]
    ensures ColumnKeySet(CourseMarks) == ["EU A1", "EU A2", "BM A1"]
    ensures Get(CourseMarks, "001", "EU A1") == Some(100) && Get(CourseMarks, "001", "EU A2") == Some(200)
    ensures Get(CourseMarks, "001", "BM A1") == Some(300)
    ensures Get(CourseMarks, "002", "EU A1") == Some(50) && Get(CourseMarks, "002", "EU A2") == Some(100)
    ensures Get(CourseMarks, "002", "BM A1") == Some(150)
  {
    CourseMarksKeysDiffer();
    CourseMarksColumnKeySet();
  }

  /** The six puts of givenTable_convertToArray, made on a hash-based table. */
  method NewCourseMarksTable() returns (table: HashBasedTable<string, string, int>)
    ensures fresh(table)
    ensures table.Contents() == CourseMarks
  {
    CourseMarksKeysDiffer();
    table := new HashBasedTable.Create();
    PutThreeCells(table, "001", "EU A1", 100, "EU A2", 200, "BM A1", 300);
    PutThreeCells(table, "002", "EU A1", 50, "EU A2", 100, "BM A1", 150);
    assert [] + ["001"] + ["002"] == ["001", "002"];
  }

  /** givenTable_convertToArray, on a table filled by the same six puts. */
  method GivenTableConvertToArray() returns (model: array2<Option<int>>)
    ensures model.Length0 == 2 && model.Length1 == 3
    ensures model[0, 0] == Some(100) && model[0, 1] == Some(200) && model[0, 2] == Some(300)
    ensures model[1, 0] == Some(50) && model[1, 1] == Some(100) && model[1, 2] == Some(150)
  {
    var table := NewCourseMarksTable();
    CourseMarksCells();
    model := ConvertTableToArray(table);
  }

  /** hashBasedTable in GuavaCollectionTests.java: two puts into different
      rows give size 2, and the second cell reads back. */
  method HashBasedTableSize() returns (size: nat, cellValue: Option<int>)
    ensures size == 2
    ensures cellValue == Some(4)
  {
    assert |"Biene"| != |"Max"|;
    var table := new HashBasedTable.Create();
    SizeAfterPut(table.Contents(), "Max", "Mustermann", 44);
    var _ := table.Put("Max", "Mustermann", 44);
    SizeAfterPut(table.Contents(), "Biene", "Maya", 4);
    var _ := table.Put("Biene", "Maya", 4);
    cellValue := Get(table.Contents(), "Biene", "Maya");
    size := Size(table.Contents());
  }
}
