# Guava tables and the AKDB trigger text, verified in Dafny

This project models the two pieces of logic in a repository of JUnit tests of
Google Guava, and proves what the tests assert and what the code promises
beyond them.

**1. The row/column table and `convertTableToArray`.** A `HashBasedTable` is a
sparse two-key map. It is stored row-major: a linked hash map from row key to a
non-empty linked hash map from column key to value. Both levels keep their
keys in first-insertion order.
- `tables.dfy` (module `Tables`) holds the table as a value and the read-only
  queries over it: `get`, `contains`, `containsRow`, `containsColumn`,
  `containsValue`, `row`, `column`, `columnMap`, `rowKeySet`, `columnKeySet`
  and `size`. It also holds the effect of `put` and `remove` as functions, and
  the lemmas about all of these.
- `hash_based_table.dfy` (module `HashBasedTables`) is the mutable object the
  tests create and change. Its `Put` and `Remove` methods update its fields in
  place, and each is proved to have exactly the effect of the matching
  function.
- `table_test.dfy` (module `TableTest`) holds `convertTableToArray`, a nested
  loop that fills a two-dimensional array. It also replays each test's
  operations and proves each test's assertions.

**2. `formatiereAusloeser`.** It builds the German trigger text "Wegzug
(verzogen am <date> nach <place>)" ("moved away on <date> to <place>"). The
date is rendered as `dd.MM.yyyy`, and "Unbekannt" ("unknown") stands in for a
missing date or place.
- `string_format.dfy` models the part of `String.format` the template uses.
- `local_dates.dfy` models the `dd.MM.yyyy` rendering of a calendar date.
- `akdb.dfy` holds the formatter, the four tests, and a reader for the text.
  The reader gives back the date and the place text, which proves the date is
  never lost. The one thing the text cannot tell apart is an absent place and
  a place named "Unbekannt": both give the same text.
- `wrappers.dfy` provides `Option` (Guava's `Optional` and Java's null) and
  `Result`.

## Model

| member | source | states |
|---|---|---|
| Tables.Empty | src/test/java/schrader/guava/test/TableTest.java:44 | `HashBasedTable.create()` yields a well-formed table in which every cell is absent |
| Tables.Contains | src/test/java/schrader/guava/test/TableTest.java:71 | `contains(r, c)` holds exactly when `get(r, c)` finds a value |
| Tables.Row | src/test/java/schrader/guava/test/TableTest.java:148-152 | `row(r)` has a key for exactly the cells stored under `r`, each with its stored value |
| Tables.Column | src/test/java/schrader/guava/test/TableTest.java:110-114 | `column(c)` has a key for exactly the rows holding a cell in column `c`, gathered across all rows, each with its stored value |
| Tables.Get | src/test/java/schrader/guava/test/TableTest.java:50-51 | definition of `get(r, c)`: the value stored in `r`'s bucket under `c`, or absent when the row or the column is not there, never an error; its contract is carried by `Tables.GetAfterPut`, `Tables.GetAfterRemove` and `Tables.Empty` |
| Tables.Put | src/test/java/schrader/guava/test/TableTest.java:45-48 | definition of `put(r, c, v)`: stores `v` in `r`'s bucket, creating the bucket and appending `r` to the row order when `r` is new, and appending `c` to the bucket's order when `c` is new there; its contract is carried by `Tables.GetAfterPut`, `Tables.SizeAfterPut`, `Tables.RowKeySetAfterPut`, `Tables.ColumnAfterPut` and `Tables.PutPreservesValid` |
| Tables.Remove | src/test/java/schrader/guava/test/TableTest.java:92 | definition of `remove(r, c)`: an absent cell changes nothing; otherwise the cell leaves its bucket, and a bucket left empty is dropped with its row key; its contract is carried by `Tables.GetAfterRemove`, `Tables.RemoveTwice`, `Tables.RemoveLastCellOfRow`, `Tables.SizeAfterRemove` and `Tables.RemovePreservesValid` |
| Tables.ContainsRow | src/test/java/schrader/guava/test/TableTest.java:73 | definition of `containsRow(r)`: `r` has a bucket; its contract is carried by `Tables.StoredCellIsContained` and `Tables.RemoveLastCellOfRow` |
| Tables.ContainsColumn | src/test/java/schrader/guava/test/TableTest.java:72 | definition of `containsColumn(c)`: some row's bucket holds `c`; its contract is carried by `Tables.StoredCellIsContained`, `Tables.ColumnKeySetMembers` and `Tables.ColumnMapIsTranspose` |
| Tables.ContainsValue | src/test/java/schrader/guava/test/TableTest.java:74 | definition of `containsValue(v)`: some row's bucket holds `v` as a value; its contract is carried by `Tables.StoredCellIsContained` |
| Tables.RowKeySet | src/test/java/schrader/guava/test/TableTest.java:167 | definition of `rowKeySet()`: the row keys in the backing map's insertion order; its contract is carried by `Tables.KeySetSizes`, `Tables.RowKeySetAfterPut`, `Tables.RowKeySetAfterPuts` and `Tables.RowKeySetFollowsPuts` |
| Tables.ColumnKeySet | src/test/java/schrader/guava/test/TableTest.java:184 | definition of `columnKeySet()`: walks the rows in order and each row's columns in order, keeping each column key the first time it is seen; its contract is carried by `Tables.ColumnKeySetMembers` and `Tables.KeySetSizes` |
| Tables.ColumnMap | src/test/java/schrader/guava/test/TableTest.java:129 | definition of `columnMap()`: each key of `columnKeySet` mapped to its `column`; its contract is carried by `Tables.ColumnMapIsTranspose` |
| Tables.Size | src/test/java/de/gerritschrader/GuavaCollectionTests.java:168 | definition of `size()`: the bucket sizes summed over the rows; its contract is carried by `Tables.SizeAfterPut` and `Tables.SizeAfterRemove` |
| Tables.GetAfterPut | src/test/java/schrader/guava/test/TableTest.java:45-56 | after `put(r, c, v)`, `get(r, c)` is `v` and every other cell reads as before, so a never-inserted row reads as absent |
| Tables.StoredCellIsContained | src/test/java/schrader/guava/test/TableTest.java:71-79 | for a stored cell, `contains`, `containsRow`, `containsColumn` and `containsValue` all hold |
| Tables.GetAfterRemove | src/test/java/schrader/guava/test/TableTest.java:92-95 | after `remove(r, c)` that cell is absent and every other cell reads as before |
| Tables.RemoveTwice | src/test/java/schrader/guava/test/TableTest.java:95 | a removed cell is gone, and removing it again leaves the table unchanged |
| Tables.RemoveMissingCell | src/test/java/schrader/guava/test/TableTest.java:95 | removing a cell that a stored row does not hold changes nothing |
| Tables.RemoveLastCellOfRow | src/test/java/schrader/guava/test/TableTest.java:92 | removing the only cell of a row drops the row key from `containsRow` and from `rowKeySet` |
| Tables.RowIgnoresOtherRows | src/test/java/schrader/guava/test/TableTest.java:148-152 | `row(r)` is unaffected by a `put` or `remove` in another row |
| Tables.ColumnAfterPut | src/test/java/schrader/guava/test/TableTest.java:104-114 | `put(r, c, v)` adds or replaces the `r` entry of `column(c)` and leaves every other column unchanged |
| Tables.ColumnKeySetMembers | src/test/java/schrader/guava/test/TableTest.java:184-186 | `columnKeySet` lists each column key that holds a cell exactly once |
| Tables.KeySetSizes | src/test/java/schrader/guava/test/TableTest.java:161-186 | the sizes of `rowKeySet` and `columnKeySet` are the numbers of distinct row and column keys that hold a cell |
| Tables.ColumnMapIsTranspose | src/test/java/schrader/guava/test/TableTest.java:123-134 | `columnMap` has one non-empty entry per column key holding a cell, that entry is `column(c)`, a cell is stored exactly when it appears in `columnMap`, and its size is the size of `columnKeySet` |
| Tables.SizeAfterPut | src/test/java/de/gerritschrader/GuavaCollectionTests.java:162-170 | `size()` counts cells: a `put` into an empty cell adds one, and overwriting a cell adds none |
| Tables.SizeAfterRemove | src/test/java/de/gerritschrader/GuavaCollectionTests.java:162-170 | removing a stored cell takes one from `size()`, and removing an absent cell takes nothing |
| Tables.RowKeySetAfterPut | src/test/java/schrader/guava/test/TableTest.java:16 | a `put` appends a new row key at the end of `rowKeySet` and leaves the order alone for a known one (the backing map is linked) |
| Tables.RowKeySetAfterPuts | src/test/java/schrader/guava/test/TableTest.java:194-201 | after a series of puts, `rowKeySet` is the old row keys followed by each new row key in the order of its first put |
| Tables.RowKeySetFollowsPuts | src/test/java/schrader/guava/test/TableTest.java:194-201 | puts under pairwise different row keys into a fresh table give a `rowKeySet` in exactly the order of the puts |
| Tables.PutPreservesValid | src/test/java/schrader/guava/test/TableTest.java:45-48 | `put` keeps the representation invariant: the key orders list every stored key once, and no row bucket is empty |
| Tables.RemovePreservesValid | src/test/java/schrader/guava/test/TableTest.java:92 | `remove` keeps the same invariant, dropping a row whose last cell it removes |
| HashBasedTables.HashBasedTable.Create | src/test/java/schrader/guava/test/TableTest.java:44 | a new table object is well formed and empty |
| HashBasedTables.HashBasedTable.Put | src/test/java/schrader/guava/test/TableTest.java:45-48 | updates the object's state exactly as `Tables.Put` and returns the cell's previous value, keeping the invariant |
| HashBasedTables.HashBasedTable.Remove | src/test/java/schrader/guava/test/TableTest.java:92-95 | updates the object's state exactly as `Tables.Remove` and returns the removed value, or absent, keeping the invariant |
| TableTest.ConvertTableToArray | src/test/java/schrader/guava/test/TableTest.java:230-241 | returns a fresh \|rowKeySet\| × \|columnKeySet\| grid whose cell `[i, j]` is `get` of the i-th row key and the j-th column key |
| TableTest.EveryCellHasOnePlace | src/test/java/schrader/guava/test/TableTest.java:231-237 | every stored cell has a position in the grid, and no row or column key occupies two positions |
| TableTest.PutTwoCells | src/test/java/schrader/guava/test/TableTest.java:89-90 | two puts into a new row append that row with both cells, its column keys in put order |
| TableTest.PutThreeCells | src/test/java/schrader/guava/test/TableTest.java:213-218 | three puts into a new row append that row with the three cells, its column keys in put order |
| TableTest.NewUniversityCourseSeatTable | src/test/java/schrader/guava/test/TableTest.java:44-48 | the four puts of the university tests give the table of two rows and four cells, keys in insertion order |
| TableTest.UniversityColumnKeySet | src/test/java/schrader/guava/test/TableTest.java:184 | the university table's column keys are Chemical, IT, Electrical in that order |
| TableTest.UniversityColumnIT | src/test/java/schrader/guava/test/TableTest.java:110-114 | `column("IT")` is Mumbai → 60 and Harvard → 120 |
| TableTest.UniversityColumnMapSize | src/test/java/schrader/guava/test/TableTest.java:131 | `columnMap()` has three entries |
| TableTest.UniversityColumnMapEntries | src/test/java/schrader/guava/test/TableTest.java:129-134 | `columnMap()` maps each course to its universities' seats; the IT entry has two cells |
| TableTest.GivenTableWhenGet | src/test/java/schrader/guava/test/TableTest.java:43-56 | `get("Mumbai", "IT")` is 60; `get("Oxford", "IT")` and `get("Mumbai", "abc")` are absent, not an error |
| TableTest.GivenTableWhenContains | src/test/java/schrader/guava/test/TableTest.java:64-79 | the four `contains` queries all hold |
| TableTest.GivenTableWhenRemove | src/test/java/schrader/guava/test/TableTest.java:87-95 | the first `remove("Mumbai", "IT")` returns 60 and the second returns absent |
| TableTest.GivenTableWhenColumn | src/test/java/schrader/guava/test/TableTest.java:103-114 | `column("IT")` has two entries, Mumbai → 60 and Harvard → 120 |
| TableTest.GivenTableWhenColumnMap | src/test/java/schrader/guava/test/TableTest.java:122-134 | `columnMap()` has three entries, with IT holding two cells and Electrical and Chemical one each |
| TableTest.GivenTableWhenRow | src/test/java/schrader/guava/test/TableTest.java:141-152 | `row("Mumbai")` has two entries, IT → 60 and Chemical → 120 |
| TableTest.GivenTableWhenRowKeySet | src/test/java/schrader/guava/test/TableTest.java:160-169 | `rowKeySet()` has two keys |
| TableTest.GivenTableWhenColKeySet | src/test/java/schrader/guava/test/TableTest.java:177-186 | `columnKeySet()` has three keys |
| TableTest.CheckIfOrderOfAddedRowKeysRemainUnchanged | src/test/java/schrader/guava/test/TableTest.java:194-201 | puts under row keys 5, 3, 1, 2, 4 give `rowKeySet` [5, 3, 1, 2, 4] |
| TableTest.CourseMarksCells | src/test/java/schrader/guava/test/TableTest.java:210-218 | the six puts give row keys [001, 002], column keys [EU A1, EU A2, BM A1] and the six stored marks |
| TableTest.NewCourseMarksTable | src/test/java/schrader/guava/test/TableTest.java:213-218 | the six puts on a table object give exactly that table |
| TableTest.GivenTableConvertToArray | src/test/java/schrader/guava/test/TableTest.java:209-227 | the converted grid is 2 × 3 with rows [100, 200, 300] and [50, 100, 150] |
| TableTest.HashBasedTableSize | src/test/java/de/gerritschrader/GuavaCollectionTests.java:163-169 | after two puts into different rows, `size()` is 2 and `get("Biene", "Maya")` is 4 |
| StringFormat.Format | src/test/java/schrader/guava/test/AKDBTest.java:44 | definition of `String.format` for `%s` and `%%`: text is copied, `%s` takes the next argument, `%%` gives a percent sign, a `%s` without an argument is `MissingFormatArgument` and any other conversion `UnknownFormatConversion`; its contract is carried by `StringFormat.FormatLiteral`, `StringFormat.FormatSlot`, `StringFormat.FormatIgnoresSurplusArguments`, `StringFormat.FormatNeedsEverySlot` and `StringFormat.FormatThreeSlots` |
| StringFormat.FormatLiteral | src/test/java/schrader/guava/test/AKDBTest.java:44 | template text without a percent sign is copied unchanged in front of what the rest of the template yields |
| StringFormat.FormatSlot | src/test/java/schrader/guava/test/AKDBTest.java:44 | `%s` inserts the next argument verbatim and passes the remaining ones on |
| StringFormat.FormatTextThenSlot | src/test/java/schrader/guava/test/AKDBTest.java:44 | text followed by `%s` yields the text and the argument in front of the rest |
| StringFormat.FormatThreeSlots | src/test/java/schrader/guava/test/AKDBTest.java:14 | a template of three `%s` between percent-free texts, given three arguments, succeeds with each argument in its slot |
| StringFormat.FormatIgnoresSurplusArguments | src/test/java/schrader/guava/test/AKDBTest.java:44 | arguments beyond those the template consumes do not change the result |
| StringFormat.FormatNeedsEverySlot | src/test/java/schrader/guava/test/AKDBTest.java:44 | formatting succeeds only if there is an argument for every `%s` |
| LocalDates.Pad | src/test/java/schrader/guava/test/AKDBTest.java:17 | a numeric field is all digits, padded with zeros to the pattern's width and never truncated |
| LocalDates.ParsePad | src/test/java/schrader/guava/test/AKDBTest.java:17 | a zero-padded field reads back as the number it renders |
| LocalDates.FormatDate | src/test/java/schrader/guava/test/AKDBTest.java:48 | `toString("dd.MM.yyyy")` is two day digits, a dot, two month digits, a dot and at least four year digits |
| LocalDates.ParseFormatDate | src/test/java/schrader/guava/test/AKDBTest.java:48 | reading a rendered date gives the date back |
| LocalDates.FormatDateInjective | src/test/java/schrader/guava/test/AKDBTest.java:48 | different dates render differently |
| Akdb.FillVerzogenAm | src/test/java/schrader/guava/test/AKDBTest.java:14 | VERZOGEN_AM with three arguments yields `<first> (verzogen am <second> nach <third>)` and never fails |
| Akdb.FormatiereAusloeser | src/test/java/schrader/guava/test/AKDBTest.java:43-51 | the result is "Wegzug (verzogen am ", then the rendered date or "Unbekannt", then " nach ", then the place verbatim or "Unbekannt", then ")" |
| Akdb.FormatApril6th2019 | src/test/java/schrader/guava/test/AKDBTest.java:22 | 6 April 2019 renders as 06.04.2019 |
| Akdb.DatumPresentAndOrtPresent | src/test/java/schrader/guava/test/AKDBTest.java:19-23 | date 6 April 2019 and place Berlin give "Wegzug (verzogen am 06.04.2019 nach Berlin)" |
| Akdb.DatumAbsentAndOrtPresent | src/test/java/schrader/guava/test/AKDBTest.java:25-29 | no date and place Berlin give "Wegzug (verzogen am Unbekannt nach Berlin)" |
| Akdb.DatumPresentAndOrtAbsent | src/test/java/schrader/guava/test/AKDBTest.java:31-35 | date 6 April 2019 and no place give "Wegzug (verzogen am 06.04.2019 nach Unbekannt)" |
| Akdb.DatumAbsentAndOrtAbsent | src/test/java/schrader/guava/test/AKDBTest.java:37-41 | neither gives "Wegzug (verzogen am Unbekannt nach Unbekannt)" |
| Akdb.ParseDateSlot | src/test/java/schrader/guava/test/AKDBTest.java:15 | a date slot stands for "no date" exactly when it reads "Unbekannt" |
| Akdb.SplitAusloeser | src/test/java/schrader/guava/test/AKDBTest.java:14 | a filled template splits back into its date slot and its place, whatever the place holds |
| Akdb.ReadDateSlot | src/test/java/schrader/guava/test/AKDBTest.java:44-50 | the date slot never holds a space and reads back as the date it was written for, or as no date |
| Akdb.ParseFormatiereAusloeser | src/test/java/schrader/guava/test/AKDBTest.java:43-51 | reading the trigger text gives back the date and the place text (or "Unbekannt") |
| Akdb.FormatiereAusloeserInjective | src/test/java/schrader/guava/test/AKDBTest.java:43-51 | equal trigger texts come from equal dates and equal place texts |

## Left out

- The Guava implementation itself is not part of this model. The table's behaviour is modelled from what TableTest.java and GuavaCollectionTests.java assert, together with the LinkedHashMap backing named at TableTest.java:16.
- ArrayTable: the convert test builds a dense ArrayTable. The model replays the same six puts on the hash-based table. An ArrayTable's key orders are the lists it is created with, while a hash-based table's follow the order of the puts. The two coincide in this test only because its six puts follow the creation lists' order, row 001 before 002 and EU A1, EU A2, BM A1 within each row. The stored cells are the same. The fixed key universe and its out-of-universe errors are left out.
- TreeBasedTable and ImmutableTable: they are only constructed, and nothing is asserted about them.
- Live views: `row`, `column`, `columnMap`, `rowKeySet` and `columnKeySet` return live views in Guava. Here they are snapshots taken when called, so writes through a view are not modelled.
- `rowMap()`: not used by the tests, so not modelled.
- Unboxing: `int seatCount = table.get(...)` throws a NullPointerException on an absent cell. The model returns an `Option` and does not model the exception.
- `Integer[][]` is modelled as `array2<Option<V>>`, with `None` standing for Java's null.
- TableTest.CheckIfOrderOfAddedRowKeysRemainUnchanged: stated on the table value, through `Tables.PutAll`, rather than on a table object. Every `HashBasedTables.HashBasedTable.Put` has exactly the effect of `Tables.Put`, so the order carries over to the object.
- The clock: `LocalDate.now()` becomes a parameter. The tests' expected date, 6 April 2019, is supplied as a constant.
- LocalDates.FormatDate: only years from 1 onward are modelled. Joda-Time's rendering of year zero and negative years (a sign before the digits) is left out.
- Other calendar systems and time zones of Joda-Time are left out; only the ISO calendar's day, month and year are modelled.
- StringFormat.Format: only the `%s` and `%%` conversions are modelled, with no flags, width, precision or argument index. Every other conversion is reported as unknown. Java's exceptions become `Err` values.
- StringFormat.Format: errors are reported in reading order. Java checks the whole template before consuming any argument. So for `"%s%q"` with no arguments, Java throws UnknownFormatConversionException while the model gives `MissingFormatArgument`. The one template formatted here, VERZOGEN_AM, has no bad conversion.
- Null arguments: `String.format` renders a null argument as "null", which cannot occur here, because every argument is `"Wegzug"` or a result of `or`.
- The other test files of the repository (CollectionTests, OptionalTests, JoinerAndSplitterTests, and the rest of GuavaCollectionTests) only call Guava code that is not part of this model.
