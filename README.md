# sqliteanalyzer core, modelled in Dafny

This project models the computational core of `sqliteanalyzer`, a Python
library that reports how an SQLite database file uses its pages. The model
covers two parts of the library.

* **Header decoding** (`SQLiteHeader`, `header.dfy`). The first 100 bytes of
  the file are decoded into the header fields, as big-endian integers read
  at fixed offsets. This includes the page-size special case and the
  text-encoding lookup. The `header_seems_valid` plausibility check is
  modelled too.
* **Storage analysis** (`storageanalyzer.py`). The analysis has six parts.
  - **DbStat** (`dbstat.dfy`): the per-object reduction over the rows of the
    `dbstat` virtual table. It is a monoid fold whose result does not depend
    on row order. SQLite's `LIKE` is modelled in `sql_like.dfy`.
  - **Gaps** (`gaps.dfy`): the gap-counting scan over an object's pages in
    page-number order. It is an imperative loop proved against a recursive
    specification and an independent positional definition.
  - **SpaceUsed** (`space_used.dfy`): the `space_used` table. One row is
    inserted per table and per index. The table is a class whose `rows`
    field the insert loop extends.
  - **Metrics** (`metrics.dfy`): the aggregate query over a WHERE selection
    of `space_used`, the derived storage metrics, and the four query helpers
    (`index_stats`, `table_stats`, `global_stats`, `indices_stats`).
  - **WithoutRowid** (`without_rowid.dfy`): `is_without_rowid`, the loop
    over `PRAGMA index_list` with its schema lookup.
  - **DatabaseCounts** (`database.dfy`): the database-wide counts. These are
    the logical file size, the auto-vacuum pointer-map pages, the pages in
    use, and the calculated free and total pages.

`wrappers.dfy` holds the `Option` and `Result` types.

The following are inputs of the model:

* the rows of `dbstat`;
* the lists of tables and indices from `sqlite_master`;
* the names for which `is_without_rowid` answers true (`is_without_rowid` itself is modelled in `without_rowid.dfy`);
* the index count;
* the PRAGMA values (`page_size`, `page_count`, `freelist_count`, `auto_vacuum`);
* the raw header bytes.

Python integers are unbounded, like Dafny's `int`. Python's float division
is modelled by exact `real` division. Percentages and averages are
therefore exact.

Three facts about the code shape the model.

* The entry count of `_query_space_used_table` is a CASE
  (`storageanalyzer.py:501-503`). It sums `nentry` for indices and WITHOUT
  ROWID tables, and `leaf_entries` for ordinary tables.
* `_count_gaps` updates `previous_page` on every page, whatever its type
  (`storageanalyzer.py:671`). So internal and overflow pages between leaves
  change the gap count (`Gaps.NonLeafPagesAffectGaps`). For example, leaves
  5 and 7 count one gap, but none when an internal page 6 sits between them.
* The docstring of `calculated_page_count` (`storageanalyzer.py:177-182`)
  names `page_count`. The code adds the pages in use, the freelist count and
  the pointer-map pages, and the model follows the code.

`tables` leaves out `sqlite_master` on purpose (`storageanalyzer.py:243`),
but DBSTAT reports its pages, page 1 at least. So `in_use_pages` never
counts the schema pages, and `calculated_free_pages` counts them as free.
As a result, in a file whose pages are exactly the DBSTAT pages, the
freelist pages and the pointer-map pages, `calculated_page_count` falls
short of `page_count` by the number of schema pages
(`DatabaseCounts.InUseMissesUnnamedPages`,
`DatabaseCounts.SchemaPagesCountedFree`; not executed). That assumption
about the file is not part of the model, and it does not hold for a file
larger than 1 GiB, which also holds the lock-byte page.

## Model

| member | source | states |
|---|---|---|
| SqlLike.Like | sqliteanalyzer/storageanalyzer.py:681-691 | definition of SQLite's `LIKE` without ESCAPE; characterized by LikeLiteral, LikeAnything and LikeLeadingPercent |
| SqlLike.LikeLiteral | sqliteanalyzer/storageanalyzer.py:681 | a LIKE pattern without wildcards whose characters have no case variants matches exactly the equal string |
| SqlLike.LikeAnything | sqliteanalyzer/storageanalyzer.py:690 | the pattern `%` matches every string |
| SqlLike.LikeLeadingPercent | sqliteanalyzer/storageanalyzer.py:681 | a leading `%` matches exactly when some suffix of the subject matches the rest of the pattern |
| SqlLike.OverflowStartPattern | sqliteanalyzer/storageanalyzer.py:681 | `path LIKE '%+000000'` holds iff the path ends in `+000000` (the first page of an overflow chain) |
| SqlLike.ContainsPlusPattern | sqliteanalyzer/storageanalyzer.py:690-691 | `path LIKE '%+%'` holds iff the path contains `+` |
| SQLiteHeader.Parse | sqliteanalyzer/header.py:44-126 | definition of the decoded header; characterized by ParseFieldBounds, PageSizeDecoding, TextEncodingDecoding, IncrementalVacuumDecoding, ReservedDecoding and ShortHeaderDecoding |
| SQLiteHeader.HeaderSeemsValid | sqliteanalyzer/header.py:128-144 | definition of `header_seems_valid`; characterized by HeaderValidityCharacterized and ValidHeaderFields |
| SQLiteHeader.BigEndian | sqliteanalyzer/header.py:151 | the big-endian value of n bytes is below 256^n |
| SQLiteHeader.BigEndianRoundTrip | sqliteanalyzer/header.py:151 | decoding the n-byte big-endian encoding of a value below 256^n gives the value back |
| SQLiteHeader.ToBigEndianRoundTrip | sqliteanalyzer/header.py:151 | encoding a decoded byte string at its own length gives the bytes back |
| SQLiteHeader.BigEndianZero | sqliteanalyzer/header.py:151 | a byte string decodes to 0 iff every byte is 0 |
| SQLiteHeader.Slice | sqliteanalyzer/header.py:150 | Python's clamped slicing: the exact subsequence when the bounds are in range, the rest of the bytes when the end lies past them, empty when the start lies at or past the end of the bytes or the bounds are reversed, and never longer than requested |
| SQLiteHeader.ReadInt | sqliteanalyzer/header.py:146-151 | `_read_int` is below 256^length; it is the big-endian value of the bytes at start..start+length when they exist, of the bytes from start on when the field is cut short, and 0 when it starts at or past the end |
| SQLiteHeader.ShortHeaderDecoding | sqliteanalyzer/header.py:54-126 | a file shorter than 16 bytes, an empty one included, decodes to page size 0, page count 0 and no text encoding |
| SQLiteHeader.ReadIntOneByte | sqliteanalyzer/header.py:146-151 | a one-byte field is the byte itself |
| SQLiteHeader.ReadIntTwoBytes | sqliteanalyzer/header.py:146-151 | a two-byte field is `256 * b0 + b1` |
| SQLiteHeader.ReadIntFourBytes | sqliteanalyzer/header.py:146-151 | a four-byte field is `2^24 b0 + 2^16 b1 + 2^8 b2 + b3` |
| SQLiteHeader.ParseFieldBounds | sqliteanalyzer/header.py:67-126 | every one-byte field is below 2^8 and every four-byte field below 2^32 |
| SQLiteHeader.PageSizeDecoding | sqliteanalyzer/header.py:61-63 | the page size is never 1, at most 65536, equals 65536 iff bytes 16-17 are 0,1, and is otherwise the two-byte field |
| SQLiteHeader.TextEncodingDecoding | sqliteanalyzer/header.py:102-111 | values 1, 2, 3 give UTF-8, UTF-16le, UTF-16be (both directions), and every other value gives None |
| SQLiteHeader.ReadIntZero | sqliteanalyzer/header.py:146-151 | an in-range field reads 0 iff all of its bytes are 0 |
| SQLiteHeader.IncrementalVacuumDecoding | sqliteanalyzer/header.py:116 | incremental vacuum is on iff one of bytes 64..67 is nonzero |
| SQLiteHeader.ReservedDecoding | sqliteanalyzer/header.py:121 | the reserved field is 0 iff bytes 72..91 are all zero |
| SQLiteHeader.PowerOfTwoExponent | sqliteanalyzer/header.py:131 | the integer power-of-two test holds iff n = 2^k for some k |
| SQLiteHeader.PowerOfTwoInRange | sqliteanalyzer/header.py:131-133 | a power of two in 512..32768 is one of 512, 1024, ..., 32768 |
| SQLiteHeader.PowerOfTwo65536 | sqliteanalyzer/header.py:131-133 | 65536 is a power of two and 65535 is not |
| SQLiteHeader.SmallPageSizesArePowers | sqliteanalyzer/header.py:131 | 512, 1024, ..., 32768 pass the power-of-two test |
| SQLiteHeader.ValidHeaderFields | sqliteanalyzer/header.py:128-144 | an accepted header has a page size in 512..32768 (a power of two), read and write versions in {1,2}, payload fractions 64/32/32, schema format 1..4, a known encoding and reserved bytes 0 |
| SQLiteHeader.HeaderValidityCharacterized | sqliteanalyzer/header.py:128-144 | `header_seems_valid` holds iff the page size is one of 512..32768 and all other constrained fields are in range |
| SQLiteHeader.LargestPageSizeRejected | sqliteanalyzer/header.py:131-133 | as written, a header whose page-size bytes are 0,1 decodes to 65536 and is always rejected |
| SQLiteHeader.IntendedPageSizeRange | sqliteanalyzer/header.py:131-133 | under the corrected check an accepted page size is one of 512, ..., 32768, 65536 |
| SQLiteHeader.IntendedDiffersOnlyAt65536 | sqliteanalyzer/header.py:131-133 | the as-written and corrected checks agree on every header except those with page size 65536 |
| SQLiteHeader.LargestPageSizeAcceptedIntended | sqliteanalyzer/header.py:131-133 | under the corrected check a page size of 65536 is accepted when the other fields are valid |
| DbStat.Reduce | sqliteanalyzer/storageanalyzer.py:676-691 | definition of the column sums and maxima over dbstat rows; characterized by AddLaws, ReduceAppend, ReducePermutation, PageTypeCounts, EntryAndPayloadBounds, OverflowCount, MaxColumns and CompressedSizeBound |
| DbStat.ExtractSums | sqliteanalyzer/storageanalyzer.py:676-693 | definition of the per-object query; characterized by ObjectPagesMultiset and ExtractSumsPageCount |
| DbStat.ObjectPages | sqliteanalyzer/storageanalyzer.py:692-693 | the rows selected by `WHERE name = '<name>'` are exactly the dbstat rows of that object |
| DbStat.ObjectPagesMultiset | sqliteanalyzer/storageanalyzer.py:692-693 | `WHERE name = '<name>'` keeps each row of that object as often as DBSTAT reports it, and no other row |
| DbStat.AddLaws | sqliteanalyzer/storageanalyzer.py:676-693 | combining per-page contributions is associative and commutative, with the empty row set as identity |
| DbStat.ReduceAppend | sqliteanalyzer/storageanalyzer.py:676-693 | reducing two blocks of rows together combines their separate reductions |
| DbStat.ReducePermutation | sqliteanalyzer/storageanalyzer.py:676-693 | the reduction does not depend on the order in which dbstat yields its rows |
| DbStat.PageTypeCounts | sqliteanalyzer/storageanalyzer.py:683-685 | internal, leaf and overflow page counts add up to the number of pages |
| DbStat.EntryAndPayloadBounds | sqliteanalyzer/storageanalyzer.py:677-688 | leaf entries are at most all entries, overflow payload is at most all payload, and the three unused sums add up to all unused bytes |
| DbStat.OverflowChainStarts | sqliteanalyzer/storageanalyzer.py:681 | the pages counted by `ovfl_cnt` are exactly those whose path ends in `+000000` |
| DbStat.OverflowChainStartsMultiset | sqliteanalyzer/storageanalyzer.py:681 | each page whose path ends in `+000000` is kept as often as it occurs, and no other page |
| DbStat.OverflowCount | sqliteanalyzer/storageanalyzer.py:681 | `ovfl_cnt` is the number of overflow-chain starting pages |
| DbStat.MaxColumns | sqliteanalyzer/storageanalyzer.py:682-691 | `mx_payload` and `depth` are upper bounds of their per-page values, attained by some page, and 0 with no pages |
| DbStat.ExtractSumsPageCount | sqliteanalyzer/storageanalyzer.py:683-685 | one object's three page counts add up to its number of dbstat rows |
| DbStat.CompressedSizeBound | sqliteanalyzer/storageanalyzer.py:689 | `compressed_size` is at most pages x page size when no page takes more than a page on disk, and exactly that when every page takes a full page |
| Gaps.InsertByPagenoMultiset | sqliteanalyzer/storageanalyzer.py:662 | inserting a page keeps every page and adds only that one |
| Gaps.InsertByPagenoSorted | sqliteanalyzer/storageanalyzer.py:662 | inserting into a page-number-sorted list keeps it sorted |
| Gaps.OrderByPageno | sqliteanalyzer/storageanalyzer.py:662 | `ORDER BY pageno` yields a sorted permutation of the pages |
| Gaps.GapCount | sqliteanalyzer/storageanalyzer.py:653-673 | definition of the gap count of pages in visiting order; characterized by GapCountIsGapPositions, GapCountBound and ConsecutiveNoGaps |
| Gaps.CountGaps | sqliteanalyzer/storageanalyzer.py:653-673 | the scan returns the recursive gap count of the page list |
| Gaps.GapsAfterPositions | sqliteanalyzer/storageanalyzer.py:664-671 | the recursive count after a known previous page counts the positions that are gaps under the positional definition |
| Gaps.GapCountIsGapPositions | sqliteanalyzer/storageanalyzer.py:664-671 | the first page never counts, and the gap count is the number of later leaf positions not directly after their predecessor |
| Gaps.GapsAfterAtMostLeaves | sqliteanalyzer/storageanalyzer.py:667-669 | only leaf pages are counted as gaps |
| Gaps.GapCountBound | sqliteanalyzer/storageanalyzer.py:664-671 | the gap count is at most the number of leaves after the first page and at most one less than the page count |
| Gaps.ConsecutiveGapsAfter | sqliteanalyzer/storageanalyzer.py:664-671 | pages numbered consecutively from the one after the previous page produce no gaps |
| Gaps.ConsecutiveNoGaps | sqliteanalyzer/storageanalyzer.py:664-671 | consecutively numbered pages have gap count 0 |
| Gaps.GapExamples | sqliteanalyzer/storageanalyzer.py:664-671 | leaves 5,6,9 give one gap and leaves 5,6,7 give none |
| Gaps.NonLeafPagesAffectGaps | sqliteanalyzer/storageanalyzer.py:667-671 | leaves 5,7 give one gap, but with an internal page 6 between them none |
| SpaceUsed.ExtractSqliteStats | sqliteanalyzer/storageanalyzer.py:675-700 | the statistics of one object are its dbstat reduction, its WITHOUT ROWID flag and the gap count of its pages in page order |
| SpaceUsed.RawStatsGapBound | sqliteanalyzer/storageanalyzer.py:698 | an object's gap count is less than its page count (0 when it has no pages) |
| SpaceUsed.MakeRowConsistent | sqliteanalyzer/storageanalyzer.py:619-643 | every inserted row has `is_index` iff its name differs from its table, leaf entries at most entries, overflow payload at most payload, and fewer gaps than pages |
| SpaceUsed.StatsRows | sqliteanalyzer/storageanalyzer.py:615-648 | definition of the rows `_compute_stats` inserts; characterized by StatsRowsShape, StatsRowsFromDbstat and MakeRowConsistent |
| SpaceUsed.StatsRowsShape | sqliteanalyzer/storageanalyzer.py:616-643 | there is one row per table followed by one per index; table rows name themselves and are not indices; index rows keep their names and are indices iff their names differ |
| SpaceUsed.SpaceUsedTable.constructor | sqliteanalyzer/storageanalyzer.py:753-774 | a new `space_used` table is empty |
| SpaceUsed.SpaceUsedTable.Insert | sqliteanalyzer/storageanalyzer.py:645-648 | an INSERT appends exactly the given row |
| SpaceUsed.RowsForPrefix | sqliteanalyzer/storageanalyzer.py:619-648 | the rows for the first i+1 entries are the rows for the first i followed by the row of entry i |
| SpaceUsed.AppendConsistent | sqliteanalyzer/storageanalyzer.py:619-648 | appending a consistent row keeps every row consistent |
| SpaceUsed.ComputeStats | sqliteanalyzer/storageanalyzer.py:615-648 | `_compute_stats` appends exactly the rows of all tables then all indices, and keeps the table consistent |
| SpaceUsed.Analyze | sqliteanalyzer/storageanalyzer.py:615-648 | a freshly built `space_used` holds exactly those rows, all consistent |
| Metrics.Percentage | sqliteanalyzer/storageanalyzer.py:721-724 | `_percentage` is 0 for a zero total and otherwise satisfies `p * total = 100 * value` |
| Metrics.PercentageFacts | sqliteanalyzer/storageanalyzer.py:721-724 | zero total gives 0; zero value gives 0; value equal to total gives 100; a value within 0..total gives a result in 0..100 |
| Metrics.Select | sqliteanalyzer/storageanalyzer.py:520 | the WHERE clause selects exactly the rows that match it, and no others |
| Metrics.SelectMultiset | sqliteanalyzer/storageanalyzer.py:520 | the WHERE clause keeps each matching row as often as it occurs, and no other row |
| Metrics.Aggregate | sqliteanalyzer/storageanalyzer.py:499-521 | definition of the SELECT columns over the selected rows; characterized by CombineLaws, AggregateAppend, AggregatePermutation, CountIsRows, EntryCountSplit and AggregateIsReduce |
| Metrics.DeriveMetrics | sqliteanalyzer/storageanalyzer.py:526-583 | definition of the calculated values; characterized by SelectionBytes, PercentBreakdown, Averages, FragmentationBounds and UncompressedPages |
| Metrics.QuerySpaceUsed | sqliteanalyzer/storageanalyzer.py:488-585 | definition of `_query_space_used_table`; characterized by QuerySelections, SelectionBytes, AggregateIsReduce and UncompressedPages |
| Metrics.IndexStats | sqliteanalyzer/storageanalyzer.py:388-399 | definition of `index_stats`; characterized by QuerySelections |
| Metrics.TableStats | sqliteanalyzer/storageanalyzer.py:401-421 | definition of `table_stats`; characterized by QuerySelections, SelectionMembers and TablesMakeUpGlobal |
| Metrics.GlobalStats | sqliteanalyzer/storageanalyzer.py:423-438 | definition of `global_stats`; characterized by QuerySelections, SelectionMembers, GlobalSplitsIntoTablesAndIndices and TablesMakeUpGlobal |
| Metrics.IndicesStats | sqliteanalyzer/storageanalyzer.py:440-450 | definition of `indices_stats`; characterized by IndicesStatsError |
| Metrics.CombineLaws | sqliteanalyzer/storageanalyzer.py:499-519 | combining SELECT columns is associative and commutative with the empty selection as identity |
| Metrics.AggregateAppend | sqliteanalyzer/storageanalyzer.py:499-519 | aggregating two blocks of rows combines their separate aggregates |
| Metrics.AggregateCons | sqliteanalyzer/storageanalyzer.py:499-519 | aggregating a row before others combines its contribution with theirs |
| Metrics.AggregateSelectCons | sqliteanalyzer/storageanalyzer.py:499-520 | the first row contributes to a selection's aggregate exactly when it matches the WHERE clause |
| Metrics.AggregateRemove | sqliteanalyzer/storageanalyzer.py:499-519 | taking one row out of the rows takes exactly its contribution out of the aggregate |
| Metrics.AggregatePermutation | sqliteanalyzer/storageanalyzer.py:499-519 | the aggregate does not depend on the order of the rows of `space_used` |
| Metrics.CountIsRows | sqliteanalyzer/storageanalyzer.py:518 | `cnt` is the number of selected rows |
| Metrics.GlobalSplitsIntoTablesAndIndices | sqliteanalyzer/storageanalyzer.py:437-450 | the aggregate of all rows combines the aggregate of the non-index rows with that of the index rows |
| Metrics.EntryCountChoice | sqliteanalyzer/storageanalyzer.py:500-504 | the entry count sums `nentry` over indices and WITHOUT ROWID tables and `leaf_entries` over ordinary tables, and lies between the two sums for consistent rows |
| Metrics.EntryRowsPartition | sqliteanalyzer/storageanalyzer.py:501-503 | the two CASE branches split the rows: each row goes to exactly one side, as often as it occurs |
| Metrics.EntryCountSplit | sqliteanalyzer/storageanalyzer.py:500-504 | for any mix of rows the entry count is the sum of `nentry` over indices and WITHOUT ROWID tables plus the sum of `leaf_entries` over the other tables |
| Metrics.SumNentryAppend | sqliteanalyzer/storageanalyzer.py:500-504 | the `nentry` sum of two blocks of rows is the sum of their sums |
| Metrics.SumLeafEntriesAppend | sqliteanalyzer/storageanalyzer.py:500-504 | the `leaf_entries` sum of two blocks of rows is the sum of their sums |
| Metrics.AggregateGapBound | sqliteanalyzer/storageanalyzer.py:515 | for consistent rows the summed gaps are fewer than the summed pages |
| Metrics.SelectConsistent | sqliteanalyzer/storageanalyzer.py:520 | a selection of consistent rows is consistent |
| Metrics.PercentOfParts | sqliteanalyzer/storageanalyzer.py:721-724 | percentages of parts that sum to total + extra sum to 100 plus the percentage of extra |
| Metrics.PercentBreakdown | sqliteanalyzer/storageanalyzer.py:541-583 | payload, metadata and unused percentages add up to 100 plus the overflow-pointer correction |
| Metrics.Averages | sqliteanalyzer/storageanalyzer.py:555-564 | with no entries the averages and overflow percentage are 0, otherwise each average times the entry count gives its total |
| Metrics.FragmentationBounds | sqliteanalyzer/storageanalyzer.py:566-567 | one page gives fragmentation 0, and consistent rows give fragmentation within 0..100 |
| Metrics.IndicesStatsError | sqliteanalyzer/storageanalyzer.py:440-450 | `indices_stats` fails iff there are no indices, and otherwise counts the index rows |
| Metrics.QuerySelections | sqliteanalyzer/storageanalyzer.py:388-438 | the `cnt` of `table_stats(name)` and `index_stats(name)` is the number of rows their conditions select, `table_stats(name, True)` equals `index_stats(name)`, and `global_stats()` counts every row |
| Metrics.SelectionMembers | sqliteanalyzer/storageanalyzer.py:416-437 | `tblname = name` takes exactly the rows whose table is `name` (the table and its indices), and `NOT is_index` exactly the non-index rows |
| Metrics.PerTableTotals | sqliteanalyzer/storageanalyzer.py:401-421 | definition of the `table_stats(t)` totals combined over a list of tables; characterized by PerTableTotalsCons, PerTableTotalsCover and TablesMakeUpGlobal |
| Metrics.PerTableTotalsCons | sqliteanalyzer/storageanalyzer.py:416-421 | for distinct table names, a row enters the per-table totals once if its table is listed and otherwise not at all |
| Metrics.PerTableTotalsCover | sqliteanalyzer/storageanalyzer.py:416-438 | for distinct table names covering every row's table, the per-table totals are the aggregate of all rows |
| Metrics.TablesMakeUpGlobal | sqliteanalyzer/storageanalyzer.py:401-438 | for distinct tables whose indices all belong to listed tables, `table_stats(t)` combined over every table `t` gives the totals of `global_stats()` |
| Metrics.SelectAll | sqliteanalyzer/storageanalyzer.py:437 | `WHERE 1` selects every row |
| Metrics.SelectedPages | sqliteanalyzer/storageanalyzer.py:692-693 | every page gathered for the selected objects is a DBSTAT page |
| Metrics.StatsRowsFromDbstat | sqliteanalyzer/storageanalyzer.py:615-648 | every row `_compute_stats` builds carries the DBSTAT reduction of its own object |
| Metrics.SelectFromDbstat | sqliteanalyzer/storageanalyzer.py:520 | a selection of such rows keeps that property |
| Metrics.AggregateIsReduce | sqliteanalyzer/storageanalyzer.py:499-519 | a selection's summed and maximal columns are those of the DBSTAT reduction over all pages of the selected objects together |
| Metrics.SelectionBytes | sqliteanalyzer/storageanalyzer.py:527-547 | a selection's total pages, storage, unused bytes and overflow-chain count are those of the DBSTAT pages of the selected objects |
| Metrics.UncompressedPages | sqliteanalyzer/storageanalyzer.py:534-539 | when no DBSTAT page takes more than a page on disk, the on-disk size is at most the storage; when every page takes a full page, the selection is not compressed and has overhead 0 |
| Metrics.PageSizesCarryOver | sqliteanalyzer/storageanalyzer.py:689 | a bound on every DBSTAT page's on-disk size holds for every gathered page |
| DatabaseCounts.LogicalFileSize | sqliteanalyzer/storageanalyzer.py:135-145 | definition of `logical_file_size`; characterized by InUseIsGlobalPages and LogicalSizeBreakdown |
| DatabaseCounts.AutovacuumPageCount | sqliteanalyzer/storageanalyzer.py:325-346 | definition of `autovacuum_page_count`; characterized by AutovacuumIsCeiling and AutovacuumExamples |
| DatabaseCounts.InUsePages | sqliteanalyzer/storageanalyzer.py:213-222 | definition of `in_use_pages`; characterized by InUseIsGlobalPages, InUseIsAggregatePages, InUseIsPagesOf and InUseMissesUnnamedPages |
| DatabaseCounts.CalculatedFreePages | sqliteanalyzer/storageanalyzer.py:163-172 | definition of `calculated_free_pages`; characterized by PageCountsAgree, InUseCountsEveryPage and InUseMissesUnnamedPages |
| DatabaseCounts.CalculatedPageCount | sqliteanalyzer/storageanalyzer.py:174-186 | definition of `calculated_page_count`; characterized by PageCountsAgree, LogicalSizeBreakdown and SchemaPagesCountedFree |
| DatabaseCounts.AutovacuumIsCeiling | sqliteanalyzer/storageanalyzer.py:325-346 | no pointer-map pages without auto-vacuum or in a one-page file, otherwise the exact ceiling of `(page_count - 1) / (page_size / 5 + 1)` |
| DatabaseCounts.CeilingBetween | sqliteanalyzer/storageanalyzer.py:346 | a value r with `r d = n + m` and `0 <= m < d` is the ceiling of n / d |
| DatabaseCounts.AutovacuumExamples | sqliteanalyzer/storageanalyzer.py:325-346 | with auto-vacuum on: 1000 pages of 4096 bytes need 2 pointer-map pages and 2 pages of 1024 bytes need 1; with it off, or in a one-page file, none |
| DatabaseCounts.PageCountsAgree | sqliteanalyzer/storageanalyzer.py:163-186 | the calculated page count equals `page_count` iff the calculated free pages equal the freelist count |
| DatabaseCounts.InUseIsGlobalPages | sqliteanalyzer/storageanalyzer.py:213-222 | the pages in use are the total pages of `global_stats()`, and their logical size is its storage |
| DatabaseCounts.LogicalSizeBreakdown | sqliteanalyzer/storageanalyzer.py:135-186 | when the calculated page count agrees with `page_count`, the logical file size is the storage of `global_stats()` plus the bytes of the freelist and pointer-map pages |
| DatabaseCounts.InUseIsAggregatePages | sqliteanalyzer/storageanalyzer.py:213-222 | pages in use are the aggregated leaf, internal and overflow pages |
| DatabaseCounts.OccursOnce | sqliteanalyzer/storageanalyzer.py:692-693 | in a list of distinct names a name occurs once if present and otherwise not at all |
| DatabaseCounts.PagesOfCons | sqliteanalyzer/storageanalyzer.py:692-693 | one more dbstat page adds one to the page count of each entry with its name |
| DatabaseCounts.PagesOfCover | sqliteanalyzer/storageanalyzer.py:692-693 | for distinct names covering every page, the per-name page counts add up to the number of dbstat rows |
| DatabaseCounts.InUseIsPagesOf | sqliteanalyzer/storageanalyzer.py:615-648 | the pages in use of the computed rows are the per-entry dbstat page counts, summed |
| DatabaseCounts.InUseCountsEveryPage | sqliteanalyzer/storageanalyzer.py:213-222 | when every dbstat page belongs to exactly one table or index, the pages in use are the dbstat pages, and the free pages are the rest of `page_count` minus the pointer map |
| DatabaseCounts.PagesOfPlusUnnamed | sqliteanalyzer/storageanalyzer.py:692-693 | for distinct names, the per-name page counts plus the pages of no listed object add up to the number of DBSTAT rows |
| DatabaseCounts.InUseMissesUnnamedPages | sqliteanalyzer/storageanalyzer.py:163-222 | for distinct entry names, `in_use_pages` is the DBSTAT page count minus the pages of unlisted objects, which `calculated_free_pages` counts as free |
| DatabaseCounts.SchemaPagesCountedFree | sqliteanalyzer/storageanalyzer.py:239-244 | with the schema on page 1 and one table on page 2, one page is in use, one is calculated free with an empty freelist, and the calculated page count is 1 instead of 2 |
| WithoutRowid.CountNamedZero | sqliteanalyzer/storageanalyzer.py:467-471 | the schema count of a name is 0 iff the name is absent from `sqlite_master` |
| WithoutRowid.WithoutRowidAsWritten | sqliteanalyzer/storageanalyzer.py:452-475 | definition of `is_without_rowid` as written; characterized by IsWithoutRowid and ListedTableNeverWithoutRowid |
| WithoutRowid.IsWithoutRowid | sqliteanalyzer/storageanalyzer.py:452-475 | the loop answers true exactly when some `pk`-origin index exists and the lookup by the table's name finds no schema row |
| WithoutRowid.ListedTableNeverWithoutRowid | sqliteanalyzer/storageanalyzer.py:467-473 | as written, a table with its own `sqlite_master` row is never reported WITHOUT ROWID |
| WithoutRowid.WithoutRowidIntendedIff | sqliteanalyzer/storageanalyzer.py:467-473 | under the corrected lookup, a table is WITHOUT ROWID iff one of its `pk` indices has no schema row |
| WithoutRowid.WithoutRowidExamples | sqliteanalyzer/storageanalyzer.py:467-473 | a WITHOUT ROWID table with an implicit key index is missed as written and found by the corrected lookup; an ordinary table with a key index is found by neither |

## Left out

- Reading the 100 header bytes from the file, and the `print` of those bytes, are I/O. The raw bytes are an input.
- The `header_string` field keeps the 15 raw bytes. Their UTF-8 decoding is left out, because decoding a byte string to text is outside the model.
- SQLiteHeader.HeaderSeemsValid: for page size 0 the source's `math.log` raises `ValueError`. The model answers false instead.
- The floating-point power-of-two test `log(n, 2).is_integer()` is modelled as an exact integer test. Floating-point rounding of the logarithm is not modelled.
- DatabaseCounts.AutovacuumIsCeiling states the exact ceiling of the quotient. The source divides in floating point, and its possible last-bit rounding is not modelled.
- Float division in `_query_space_used_table` and `_percentage` is exact `real` division. Rounding is not modelled.
- With no selected rows, SQL's `sum` yields NULL. The source's derived arithmetic would then fail on `None`. The model uses 0 for every empty sum and maximum.
- An object with no dbstat pages gives NULL sums in `_extract_sqlite_stats`. The model stores zeros.
- The queries that list tables and indices (`tables`, `indices`) and `nindex` are SQL queries against `sqlite_master`. They are inputs of the model.
- `is_without_rowid` takes the rows of `PRAGMA index_list` and the names in `sqlite_master` as inputs. The `space_used` rows take the resulting set of WITHOUT ROWID names as an input, and do not call `WithoutRowid.IsWithoutRowid` themselves.
- The PRAGMA values `page_size`, `page_count`, `freelist_count` and `auto_vacuum` are inputs.
- `file_size` (an `os.stat` call) is I/O and is left out.
- Creating the `dbstat` virtual table and the temporary copy of it is database I/O. The dbstat rows are an input.
- `_item_page_count`, `_table_space_usage`, `_all_tables_usage` and the public helpers built on them are outside the modelled core.
- `in_use_percent` and the cached `is_compressed` flag are outside the modelled core.
- Names are spliced into the WHERE clauses with string formatting. The model compares names as values, so quoting and injection through names are not modelled.
- SQLite's `LIKE` is modelled with ASCII case folding only. This is enough for the fixed patterns `'%+000000'` and `'%+%'`.

## Findings

| source | as written | input that shows it | evidently intended | confidence | as-written member | corrected member |
|---|---|---|---|---|---|---|
| sqliteanalyzer/header.py:132-133 | the page-size constraint allows 512..32768 or 65535; 65535 is not a power of two, so that alternative never applies | a header whose bytes 16-17 are 0x00 0x01 decodes to page size 65536, and it is rejected even when every other field is valid | accept 65536, the largest SQLite page size, instead of 65535 | not executed | SQLiteHeader.LargestPageSizeRejected | SQLiteHeader.LargestPageSizeAcceptedIntended |
| sqliteanalyzer/storageanalyzer.py:467-471 | after finding a `pk`-origin index, the lookup counts `sqlite_master` rows named after the table itself | every listed table has its own `sqlite_master` row, so a WITHOUT ROWID table `t` with index `sqlite_autoindex_t_1` (origin `pk`, no schema row) is reported as not WITHOUT ROWID | look up the name of the `pk` index, which has no schema row exactly for a WITHOUT ROWID table | not executed | WithoutRowid.ListedTableNeverWithoutRowid | WithoutRowid.WithoutRowidIntendedIff |
