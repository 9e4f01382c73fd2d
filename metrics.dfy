/**
  Storage metrics over a selection of `space_used` rows
  (`_query_space_used_table`): the column sums and maxima of the selected
  rows, followed by the derived totals, percentages and averages. Python's
  float division is modelled by exact `real` division.
*/
module Metrics {
  import opened Wrappers
  import opened DbStat
  import opened SpaceUsed

  /** `_percentage`: 0 when the total is 0, otherwise `100 * value / total`. */
  function Percentage(value: real, total: real): (r: real)
    ensures total == 0.0 ==> r == 0.0
    ensures total != 0.0 ==> r * total == 100.0 * value
  {
    if total == 0.0 then 0.0 else 100.0 * value / total
  }

  lemma PercentageFacts(x: real, t: real)
    ensures Percentage(x, 0.0) == 0.0
    ensures t != 0.0 ==> Percentage(0.0, t) == 0.0 && Percentage(t, t) == 100.0
    ensures 0.0 <= x <= t && t > 0.0 ==> 0.0 <= Percentage(x, t) <= 100.0
  {
    if 0.0 <= x <= t && t > 0.0 {
      var p := Percentage(x, t);
      assert p * t == 100.0 * x;
    }
  }

  /** The WHERE clauses the analyzer queries `space_used` with. */
  datatype Where =
    | NameIs(name: string)        // name = "<name>"
    | TblNameIs(tblName: string)  // tblname = "<name>"
    | NotIsIndex                  // NOT is_index
    | AnyRow                      // 1
    | IsIndex                     // is_index

  predicate Matches(r: SpaceUsedRow, w: Where)
  {
    match w
    case NameIs(n) => r.name == n
    case TblNameIs(t) => r.tblName == t
    case NotIsIndex => !r.isIndex
    case AnyRow => true
    case IsIndex => r.isIndex
  }

  /** The rows a WHERE clause selects, in table order. */
  function Select(rows: seq<SpaceUsedRow>, w: Where): (r: seq<SpaceUsedRow>)
    ensures |r| <= |rows|
    ensures forall x :: x in r <==> x in rows && Matches(x, w)
  {
    if rows == [] then []
    else
      var rest := Select(rows[1..], w);
      assert forall x :: x in rows <==> x == rows[0] || x in rows[1..];
      if Matches(rows[0], w) then [rows[0]] + rest else rest
  }

  /** The selection keeps every matching row as often as it occurs, and no other row. */
  lemma {:induction false} SelectMultiset(rows: seq<SpaceUsedRow>, w: Where)
    ensures forall x :: multiset(Select(rows, w))[x] == if Matches(x, w) then multiset(rows)[x] else 0
  {
    if rows != [] {
      SelectMultiset(rows[1..], w);
      assert rows == [rows[0]] + rows[1..];
    }
  }

  /** The columns of the SELECT: sums, the two maxima and the row count. */
  datatype Totals = Totals(
    nentry: nat,
    payload: nat,
    ovflPayload: nat,
    mxPayload: nat,
    ovflCnt: nat,
    leafPages: nat,
    intPages: nat,
    ovflPages: nat,
    leafUnused: nat,
    intUnused: nat,
    ovflUnused: nat,
    gapCnt: nat,
    compressedSize: nat,
    depth: nat,
    cnt: nat)

  const NoRows := Totals(0, 0, 0, 0, 0, 0, 0, 0, 0, 0, 0, 0, 0, 0, 0)

  /**
    The entries a row contributes: `nentry` for indices and WITHOUT ROWID
    tables, `leaf_entries` for every other table.
  */
  function EntryCount(r: SpaceUsedRow): nat
  {
    if CountsAllEntries(r) then r.stats.sums.nentry else r.stats.sums.leafEntries
  }

  /** The CASE condition `is_without_rowid OR is_index`. */
  predicate CountsAllEntries(r: SpaceUsedRow)
  {
    r.stats.isWithoutRowid || r.isIndex
  }

  function RowTotals(r: SpaceUsedRow): Totals
  {
    var s := r.stats.sums;
    Totals(EntryCount(r), s.payload, s.ovflPayload, s.mxPayload, s.ovflCnt, s.leafPages,
           s.intPages, s.ovflPages, s.leafUnused, s.intUnused, s.ovflUnused, r.stats.gapCount,
           s.compressedSize, s.depth, 1)
  }

  function Combine(a: Totals, b: Totals): Totals
  {
    Totals(a.nentry + b.nentry, a.payload + b.payload, a.ovflPayload + b.ovflPayload,
           Max(a.mxPayload, b.mxPayload), a.ovflCnt + b.ovflCnt, a.leafPages + b.leafPages,
           a.intPages + b.intPages, a.ovflPages + b.ovflPages, a.leafUnused + b.leafUnused,
           a.intUnused + b.intUnused, a.ovflUnused + b.ovflUnused, a.gapCnt + b.gapCnt,
           a.compressedSize + b.compressedSize, Max(a.depth, b.depth), a.cnt + b.cnt)
  }

  function Aggregate(rows: seq<SpaceUsedRow>): Totals
  {
    if rows == [] then NoRows else Combine(RowTotals(rows[0]), Aggregate(rows[1..]))
  }

  /** The result of `_query_space_used_table`, with one field per key of the returned mapping. */
  datatype StorageMetrics = StorageMetrics(
    totals: Totals,
    totalPages: int,
    totalPagesPercent: real,
    storage: int,
    isCompressed: bool,
    compressedOverhead: int,
    payloadPercent: real,
    totalUnused: int,
    totalMetadata: int,
    metadataPercent: real,
    averagePayload: real,
    averageUnused: real,
    averageMetadata: real,
    ovflPercent: real,
    fragmentation: real,
    intUnusedPercent: real,
    ovflUnusedPercent: real,
    leafUnusedPercent: real,
    totalUnusedPercent: real)

  /** The derived values, computed from the SELECT's columns and the two PRAGMA values. */
  function DeriveMetrics(s: Totals, pageSize: nat, pageCount: nat): StorageMetrics
  {
    var totalPages := s.leafPages + s.intPages + s.ovflPages;
    var storage := totalPages * pageSize;
    var isCompressed := storage > s.compressedSize;
    var totalUnused := s.ovflUnused + s.intUnused + s.leafUnused;
    var totalMetadata := storage - s.payload - totalUnused + 4 * (s.ovflPages - s.ovflCnt);
    var n := s.nentry as real;
    StorageMetrics(
      totals := s,
      totalPages := totalPages,
      totalPagesPercent := Percentage(totalPages as real, pageCount as real),
      storage := storage,
      isCompressed := isCompressed,
      compressedOverhead := if isCompressed then 14 else 0,
      payloadPercent := Percentage(s.payload as real, storage as real),
      totalUnused := totalUnused,
      totalMetadata := totalMetadata,
      metadataPercent := Percentage(totalMetadata as real, storage as real),
      averagePayload := if s.nentry == 0 then 0.0 else s.payload as real / n,
      averageUnused := if s.nentry == 0 then 0.0 else totalUnused as real / n,
      averageMetadata := if s.nentry == 0 then 0.0 else totalMetadata as real / n,
      ovflPercent := Percentage(s.ovflCnt as real, n),
      fragmentation := Percentage(s.gapCnt as real, (totalPages - 1) as real),
      intUnusedPercent := Percentage(s.intUnused as real, (s.intPages * pageSize) as real),
      ovflUnusedPercent := Percentage(s.ovflUnused as real, (s.ovflPages * pageSize) as real),
      leafUnusedPercent := Percentage(s.leafUnused as real, (s.leafPages * pageSize) as real),
      totalUnusedPercent := Percentage(totalUnused as real, storage as real))
  }

  /** `_query_space_used_table(where)` over the rows of `space_used`. */
  function QuerySpaceUsed(rows: seq<SpaceUsedRow>, w: Where, pageSize: nat, pageCount: nat): StorageMetrics
  {
    DeriveMetrics(Aggregate(Select(rows, w)), pageSize, pageCount)
  }

  /** `index_stats(name)`. */
  function IndexStats(rows: seq<SpaceUsedRow>, name: string, pageSize: nat, pageCount: nat): StorageMetrics
  {
    QuerySpaceUsed(rows, NameIs(name), pageSize, pageCount)
  }

  /** `table_stats(name, exclude_indices)`. */
  function TableStats(rows: seq<SpaceUsedRow>, name: string, excludeIndices: bool, pageSize: nat, pageCount: nat)
    : StorageMetrics
  {
    QuerySpaceUsed(rows, if excludeIndices then NameIs(name) else TblNameIs(name), pageSize, pageCount)
  }

  /** `global_stats(exclude_indices)`. */
  function GlobalStats(rows: seq<SpaceUsedRow>, excludeIndices: bool, pageSize: nat, pageCount: nat)
    : StorageMetrics
  {
    QuerySpaceUsed(rows, if excludeIndices then NotIsIndex else AnyRow, pageSize, pageCount)
  }

  datatype AnalyzerError = NoIndices

  /** `indices_stats()`: fails when the schema defines no index (`nindex` is its count of indices). */
  function IndicesStats(rows: seq<SpaceUsedRow>, nindex: nat, pageSize: nat, pageCount: nat)
    : Result<StorageMetrics, AnalyzerError>
  {
    if nindex == 0 then Err(NoIndices) else Ok(QuerySpaceUsed(rows, IsIndex, pageSize, pageCount))
  }

  // ---- Properties of the aggregation ----

  lemma CombineLaws(a: Totals, b: Totals, c: Totals)
    ensures Combine(a, NoRows) == a && Combine(NoRows, a) == a
    ensures Combine(a, b) == Combine(b, a)
    ensures Combine(Combine(a, b), c) == Combine(a, Combine(b, c))
  {
  }

  /** Aggregating two groups of rows together combines their separate aggregates. */
  lemma {:induction false} AggregateAppend(a: seq<SpaceUsedRow>, b: seq<SpaceUsedRow>)
    ensures Aggregate(a + b) == Combine(Aggregate(a), Aggregate(b))
  {
    if a == [] {
      assert a + b == b;
      CombineLaws(Aggregate(b), Aggregate(b), Aggregate(b));
    } else {
      assert (a + b)[1..] == a[1..] + b;
      AggregateAppend(a[1..], b);
      CombineLaws(RowTotals(a[0]), Aggregate(a[1..]), Aggregate(b));
    }
  }

  lemma AggregateCons(r: SpaceUsedRow, rows: seq<SpaceUsedRow>)
    ensures Aggregate([r] + rows) == Combine(RowTotals(r), Aggregate(rows))
  {
    assert ([r] + rows)[1..] == rows;
  }

  /** `count(*)`: the `cnt` column is the number of selected rows. */
  lemma {:induction false} CountIsRows(rows: seq<SpaceUsedRow>)
    ensures Aggregate(rows).cnt == |rows|
  {
    if rows != [] {
      CountIsRows(rows[1..]);
    }
  }

  /**
    The whole-database aggregate is the tables' aggregate combined with the
    indices' aggregate: `global_stats()` splits into `global_stats(True)`
    and `indices_stats()`.
  */
  lemma {:induction false} GlobalSplitsIntoTablesAndIndices(rows: seq<SpaceUsedRow>)
    ensures Aggregate(Select(rows, AnyRow))
         == Combine(Aggregate(Select(rows, NotIsIndex)), Aggregate(Select(rows, IsIndex)))
  {
    if rows == [] {
      CombineLaws(NoRows, NoRows, NoRows);
    } else {
      var r, rest := rows[0], rows[1..];
      GlobalSplitsIntoTablesAndIndices(rest);
      var t := Aggregate(Select(rest, NotIsIndex));
      var i := Aggregate(Select(rest, IsIndex));
      AggregateSelectCons(rows, AnyRow);
      AggregateSelectCons(rows, NotIsIndex);
      AggregateSelectCons(rows, IsIndex);
      CombineLaws(RowTotals(r), t, i);
      if r.isIndex {
        CombineLaws(t, RowTotals(r), i);
      }
    }
  }

  /** Aggregating a selection takes in its first row exactly when that row matches. */
  lemma AggregateSelectCons(rows: seq<SpaceUsedRow>, w: Where)
    requires rows != []
    ensures Aggregate(Select(rows, w))
         == if Matches(rows[0], w) then Combine(RowTotals(rows[0]), Aggregate(Select(rows[1..], w)))
            else Aggregate(Select(rows[1..], w))
  {
    if Matches(rows[0], w) {
      AggregateCons(rows[0], Select(rows[1..], w));
    }
  }

  /** Two groups can be combined into a third in either order. */
  lemma CombineSwap(x: Totals, y: Totals, z: Totals)
    ensures Combine(x, Combine(y, z)) == Combine(y, Combine(x, z))
  {
    CombineLaws(x, y, z);
    CombineLaws(y, x, z);
  }

  /** The aggregate of a list split around position `j`. */
  lemma AggregateSplitAt(b: seq<SpaceUsedRow>, j: nat)
    requires j < |b|
    ensures Aggregate(b) == Combine(Aggregate(b[..j]), Combine(RowTotals(b[j]), Aggregate(b[j + 1..])))
  {
    var tail := [b[j]] + b[j + 1..];
    assert b == b[..j] + tail;
    AggregateAppend(b[..j], tail);
    AggregateCons(b[j], b[j + 1..]);
  }

  /** Taking one row out of the list takes its totals out of the aggregate. */
  lemma AggregateRemove(b: seq<SpaceUsedRow>, j: nat)
    requires j < |b|
    ensures Aggregate(b) == Combine(RowTotals(b[j]), Aggregate(b[..j] + b[j + 1..]))
  {
    var x, y, z := Aggregate(b[..j]), RowTotals(b[j]), Aggregate(b[j + 1..]);
    AggregateSplitAt(b, j);
    AggregateAppend(b[..j], b[j + 1..]);
    CombineSwap(x, y, z);
  }

  /** The aggregate does not depend on the order of the rows of `space_used`. */
  lemma {:induction false} AggregatePermutation(a: seq<SpaceUsedRow>, b: seq<SpaceUsedRow>)
    requires multiset(a) == multiset(b)
    ensures Aggregate(a) == Aggregate(b)
  {
    if a == [] {
      assert |b| == |multiset(b)| == 0;
    } else {
      assert a[0] in multiset(b);
      var j :| 0 <= j < |b| && b[j] == a[0];
      var rest := b[..j] + b[j + 1..];
      assert b == b[..j] + [b[j]] + b[j + 1..];
      assert a == [a[0]] + a[1..];
      assert multiset(a[1..]) == multiset(a) - multiset{a[0]};
      assert multiset(rest) == multiset(b) - multiset{b[j]};
      AggregatePermutation(a[1..], rest);
      AggregateRemove(b, j);
    }
  }

  predicate Distinct(names: seq<string>)
  {
    forall i, j :: 0 <= i < j < |names| ==> names[i] != names[j]
  }

  /**
    The `table_stats(t)` totals of every listed table `t`, combined: each
    term is the aggregate of the `tblname = t` selection, which is what
    `TableStats(rows, t, false, ...)` reports (`QueryTotals`).
  */
  function PerTableTotals(rows: seq<SpaceUsedRow>, tables: seq<string>): Totals
  {
    if tables == [] then NoRows
    else Combine(Aggregate(Select(rows, TblNameIs(tables[0]))), PerTableTotals(rows, tables[1..]))
  }

  lemma {:induction false} PerTableTotalsEmpty(tables: seq<string>)
    ensures PerTableTotals([], tables) == NoRows
  {
    if tables != [] {
      var none: seq<SpaceUsedRow> := [];
      calc {
        PerTableTotals(none, tables);
        Combine(Aggregate(Select(none, TblNameIs(tables[0]))), PerTableTotals(none, tables[1..]));
        { assert Select(none, TblNameIs(tables[0])) == none; }
        Combine(NoRows, PerTableTotals(none, tables[1..]));
        { PerTableTotalsEmpty(tables[1..]); }
        Combine(NoRows, NoRows);
        { CombineLaws(NoRows, NoRows, NoRows); }
        NoRows;
      }
    }
  }

  /** The first row enters the per-table totals once if its table is listed, and not at all otherwise. */
  lemma {:induction false} PerTableTotalsCons(rows: seq<SpaceUsedRow>, tables: seq<string>)
    requires rows != [] && Distinct(tables)
    ensures PerTableTotals(rows, tables)
         == if rows[0].tblName in tables then Combine(RowTotals(rows[0]), PerTableTotals(rows[1..], tables))
            else PerTableTotals(rows[1..], tables)
  {
    if tables != [] {
      var t, rest := tables[0], tables[1..];
      assert tables == [t] + rest;
      assert forall k :: 0 <= k < |rest| ==> rest[k] == tables[k + 1];
      PerTableTotalsCons(rows, rest);
      AggregateSelectCons(rows, TblNameIs(t));
      var r := RowTotals(rows[0]);
      var a := Aggregate(Select(rows[1..], TblNameIs(t)));
      var s := PerTableTotals(rows[1..], rest);
      var inHead, inTail := rows[0].tblName == t, rows[0].tblName in rest;
      assert inHead ==> !inTail;
      CombineStep(r, a, s, inHead, inTail);
    }
  }

  /** The step of `PerTableTotalsCons` on the totals alone: a row counted under at most one table. */
  lemma CombineStep(r: Totals, a: Totals, s: Totals, inHead: bool, inTail: bool)
    requires !(inHead && inTail)
    ensures Combine(if inHead then Combine(r, a) else a, if inTail then Combine(r, s) else s)
         == if inHead || inTail then Combine(r, Combine(a, s)) else Combine(a, s)
  {
    CombineLaws(r, a, s);
    CombineSwap(a, r, s);
  }

  /** When every row's table is listed once, the per-table totals are the aggregate of all rows. */
  lemma {:induction false} PerTableTotalsCover(rows: seq<SpaceUsedRow>, tables: seq<string>)
    requires Distinct(tables)
    requires forall i :: 0 <= i < |rows| ==> rows[i].tblName in tables
    ensures PerTableTotals(rows, tables) == Aggregate(rows)
  {
    if rows == [] {
      PerTableTotalsEmpty(tables);
    } else {
      assert forall i :: 1 <= i < |rows| ==> rows[1..][i - 1] == rows[i];
      PerTableTotalsCover(rows[1..], tables);
      PerTableTotalsCons(rows, tables);
    }
  }

  /**
    `table_stats(t)`, a table with its indices, combined over every listed
    table gives `global_stats()`, provided the table names are distinct and
    every index belongs to a listed table.
  */
  lemma TablesMakeUpGlobal(dbstat: seq<Page>, tables: seq<string>, indices: seq<Entry>, withoutRowid: set<string>,
                           pageSize: nat, pageCount: nat)
    requires Distinct(tables)
    requires forall j :: 0 <= j < |indices| ==> indices[j].tblName in tables
    ensures var rows := StatsRows(dbstat, tables, indices, withoutRowid);
      PerTableTotals(rows, tables) == GlobalStats(rows, false, pageSize, pageCount).totals
  {
    var rows := StatsRows(dbstat, tables, indices, withoutRowid);
    StatsRowsShape(dbstat, tables, indices, withoutRowid);
    forall i | 0 <= i < |rows| ensures rows[i].tblName in tables {
      if i >= |tables| {
        assert rows[|tables| + (i - |tables|)] == rows[i];
      }
    }
    PerTableTotalsCover(rows, tables);
    SelectAll(rows);
    QueryTotals(rows, AnyRow, pageSize, pageCount);
  }

  function SumNentry(rows: seq<SpaceUsedRow>): nat
  {
    if rows == [] then 0 else rows[0].stats.sums.nentry + SumNentry(rows[1..])
  }

  function SumLeafEntries(rows: seq<SpaceUsedRow>): nat
  {
    if rows == [] then 0 else rows[0].stats.sums.leafEntries + SumLeafEntries(rows[1..])
  }

  /**
    The entry count sums `nentry` when every selected row is an index or a
    WITHOUT ROWID table, `leaf_entries` when every one is an ordinary table,
    and it lies between the two sums for consistent rows.
  */
  lemma {:induction false} EntryCountChoice(rows: seq<SpaceUsedRow>)
    ensures (forall i :: 0 <= i < |rows| ==> rows[i].isIndex || rows[i].stats.isWithoutRowid)
              ==> Aggregate(rows).nentry == SumNentry(rows)
    ensures (forall i :: 0 <= i < |rows| ==> !rows[i].isIndex && !rows[i].stats.isWithoutRowid)
              ==> Aggregate(rows).nentry == SumLeafEntries(rows)
    ensures (forall i :: 0 <= i < |rows| ==> RowConsistent(rows[i]))
              ==> SumLeafEntries(rows) <= Aggregate(rows).nentry <= SumNentry(rows)
  {
    if rows != [] {
      EntryCountChoice(rows[1..]);
      assert EntryCount(rows[0]) == if CountsAllEntries(rows[0]) then rows[0].stats.sums.nentry
                                   else rows[0].stats.sums.leafEntries;
      assert forall i :: 1 <= i < |rows| ==> rows[1..][i - 1] == rows[i];
    }
  }

  /** The rows for which the CASE takes `nentry`. */
  function AllEntryRows(rows: seq<SpaceUsedRow>): seq<SpaceUsedRow>
  {
    if rows == [] then []
    else
      (if CountsAllEntries(rows[0]) then [rows[0]] else []) + AllEntryRows(rows[1..])
  }

  /** The rows for which the CASE takes `leaf_entries`. */
  function LeafEntryRows(rows: seq<SpaceUsedRow>): seq<SpaceUsedRow>
  {
    if rows == [] then []
    else
      (if CountsAllEntries(rows[0]) then [] else [rows[0]]) + LeafEntryRows(rows[1..])
  }

  /** The two CASE branches split the rows: each row goes to exactly one side, as often as it occurs. */
  lemma {:induction false} EntryRowsPartition(rows: seq<SpaceUsedRow>)
    ensures forall x :: multiset(AllEntryRows(rows))[x] == if CountsAllEntries(x) then multiset(rows)[x] else 0
    ensures forall x :: multiset(LeafEntryRows(rows))[x] == if CountsAllEntries(x) then 0 else multiset(rows)[x]
  {
    if rows != [] {
      EntryRowsPartition(rows[1..]);
      assert rows == [rows[0]] + rows[1..];
    }
  }

  /**
    For any mix of rows, the entry count is the sum of `nentry` over the
    indices and WITHOUT ROWID tables plus the sum of `leaf_entries` over
    the other tables.
  */
  lemma {:induction false} EntryCountSplit(rows: seq<SpaceUsedRow>)
    ensures Aggregate(rows).nentry == SumNentry(AllEntryRows(rows)) + SumLeafEntries(LeafEntryRows(rows))
  {
    if rows != [] {
      EntryCountSplit(rows[1..]);
      var head := if CountsAllEntries(rows[0]) then [rows[0]] else [];
      var rest := AllEntryRows(rows[1..]);
      SumNentryAppend(head, rest);
      SumLeafEntriesAppend(if CountsAllEntries(rows[0]) then [] else [rows[0]], LeafEntryRows(rows[1..]));
    }
  }

  lemma {:induction false} SumNentryAppend(a: seq<SpaceUsedRow>, b: seq<SpaceUsedRow>)
    ensures SumNentry(a + b) == SumNentry(a) + SumNentry(b)
  {
    if a == [] {
      assert a + b == b;
    } else {
      assert (a + b)[1..] == a[1..] + b;
      SumNentryAppend(a[1..], b);
    }
  }

  lemma {:induction false} SumLeafEntriesAppend(a: seq<SpaceUsedRow>, b: seq<SpaceUsedRow>)
    ensures SumLeafEntries(a + b) == SumLeafEntries(a) + SumLeafEntries(b)
  {
    if a == [] {
      assert a + b == b;
    } else {
      assert (a + b)[1..] == a[1..] + b;
      SumLeafEntriesAppend(a[1..], b);
    }
  }

  /** For consistent rows the summed gaps stay below the summed pages. */
  lemma {:induction false} AggregateGapBound(rows: seq<SpaceUsedRow>)
    requires forall i :: 0 <= i < |rows| ==> RowConsistent(rows[i])
    ensures var t := Aggregate(rows);
      var pages := t.leafPages + t.intPages + t.ovflPages;
      t.gapCnt <= if pages == 0 then 0 else pages - 1
  {
    if rows != [] {
      assert forall i :: 1 <= i < |rows| ==> rows[1..][i - 1] == rows[i];
      AggregateGapBound(rows[1..]);
      assert RowConsistent(rows[0]);
    }
  }

  lemma SelectConsistent(rows: seq<SpaceUsedRow>, w: Where)
    requires forall i :: 0 <= i < |rows| ==> RowConsistent(rows[i])
    ensures forall i :: 0 <= i < |Select(rows, w)| ==> RowConsistent(Select(rows, w)[i])
  {
    var sel := Select(rows, w);
    forall i | 0 <= i < |sel| ensures RowConsistent(sel[i]) {
      assert sel[i] in rows;
    }
  }

  // ---- Properties of the derived metrics ----

  /**
    Every byte of the selected pages is payload, unused space or metadata,
    except that the 4-byte next-page pointer of each overflow page other
    than a chain's last is counted twice.
  */
  lemma ByteAccounting(s: Totals, pageSize: nat, pageCount: nat)
    ensures var m := DeriveMetrics(s, pageSize, pageCount);
      && m.totalPages == s.leafPages + s.intPages + s.ovflPages
      && m.storage == m.totalPages * pageSize
      && s.payload + m.totalUnused + m.totalMetadata == m.storage + 4 * (s.ovflPages - s.ovflCnt)
  {
  }

  /** Percentages of parts that sum to `total + extra` sum to `100 + Percentage(extra, total)`. */
  lemma PercentOfParts(a: real, b: real, c: real, extra: real, total: real)
    requires total != 0.0 && a + b + c == total + extra
    ensures Percentage(a, total) + Percentage(b, total) + Percentage(c, total)
         == 100.0 + Percentage(extra, total)
  {
    var x := Percentage(a, total) + Percentage(b, total) + Percentage(c, total);
    var y := 100.0 + Percentage(extra, total);
    assert x * total == 100.0 * (a + b + c);
    assert y * total == 100.0 * total + 100.0 * extra;
    assert (x - y) * total == 0.0;
    assert x - y == (x - y) * total / total;
  }

  /** Payload, metadata and unused percentages add up to 100 plus the overflow-pointer correction. */
  lemma PercentBreakdown(s: Totals, pageSize: nat, pageCount: nat)
    ensures var m := DeriveMetrics(s, pageSize, pageCount);
      m.storage != 0 ==>
        m.payloadPercent + m.metadataPercent + m.totalUnusedPercent
          == 100.0 + Percentage((4 * (s.ovflPages - s.ovflCnt)) as real, m.storage as real)
  {
    var m := DeriveMetrics(s, pageSize, pageCount);
    if m.storage != 0 {
      PercentOfParts(s.payload as real, m.totalMetadata as real, m.totalUnused as real,
                     (4 * (s.ovflPages - s.ovflCnt)) as real, m.storage as real);
    }
  }

  /** The averages are 0 when there are no entries and otherwise multiply back to their totals. */
  lemma Averages(s: Totals, pageSize: nat, pageCount: nat)
    ensures var m := DeriveMetrics(s, pageSize, pageCount);
      && (s.nentry == 0 ==> m.averagePayload == 0.0 && m.averageUnused == 0.0 && m.averageMetadata == 0.0
                            && m.ovflPercent == 0.0)
      && (s.nentry != 0 ==>
            && m.averagePayload * s.nentry as real == s.payload as real
            && m.averageUnused * s.nentry as real == m.totalUnused as real
            && m.averageMetadata * s.nentry as real == m.totalMetadata as real)
  {
    var m := DeriveMetrics(s, pageSize, pageCount);
    if s.nentry != 0 {
      var n := s.nentry as real;
      AverageBack(m.averagePayload, s.payload as real, n);
      AverageBack(m.averageUnused, m.totalUnused as real, n);
      AverageBack(m.averageMetadata, m.totalMetadata as real, n);
    }
  }

  lemma AverageBack(average: real, total: real, n: real)
    requires n != 0.0 && average == total / n
    ensures average * n == total
  {
    DivMul(total, n);
  }

  lemma DivMul(a: real, n: real)
    requires n != 0.0
    ensures a / n * n == a
  {
  }

  /** The selection is compressed iff its logical size exceeds its on-disk size, and only then has overhead 14. */
  lemma CompressionFlag(s: Totals, pageSize: nat, pageCount: nat)
    ensures var m := DeriveMetrics(s, pageSize, pageCount);
      && (m.isCompressed <==> m.storage > s.compressedSize)
      && (m.compressedOverhead == 14 <==> m.isCompressed)
      && (m.compressedOverhead == 0 <==> !m.isCompressed)
  {
  }

  lemma QueryFragmentation(rows: seq<SpaceUsedRow>, w: Where, pageSize: nat, pageCount: nat)
    ensures var t := Aggregate(Select(rows, w)); var m := QuerySpaceUsed(rows, w, pageSize, pageCount);
      && m.totalPages == t.leafPages + t.intPages + t.ovflPages
      && m.fragmentation == Percentage(t.gapCnt as real, (m.totalPages - 1) as real)
  {
  }

  /** A single page has no fragmentation; for consistent rows fragmentation is a percentage in 0..100. */
  lemma FragmentationBounds(rows: seq<SpaceUsedRow>, w: Where, pageSize: nat, pageCount: nat)
    ensures var m := QuerySpaceUsed(rows, w, pageSize, pageCount);
      m.totalPages == 1 ==> m.fragmentation == 0.0
    ensures (forall i :: 0 <= i < |rows| ==> RowConsistent(rows[i])) ==>
      var m := QuerySpaceUsed(rows, w, pageSize, pageCount);
      0.0 <= m.fragmentation <= 100.0
  {
    var sel := Select(rows, w);
    var t := Aggregate(sel);
    var pages := t.leafPages + t.intPages + t.ovflPages;
    var gaps, spans := t.gapCnt as real, (pages - 1) as real;
    QueryFragmentation(rows, w, pageSize, pageCount);
    PercentageFacts(gaps, spans);
    if forall i :: 0 <= i < |rows| ==> RowConsistent(rows[i]) {
      SelectConsistent(rows, w);
      AggregateGapBound(sel);
      assert spans <= 0.0 ==> gaps == 0.0;
    }
  }

  /** `indices_stats` fails exactly when there are no indices; otherwise it is the `is_index` selection. */
  lemma IndicesStatsError(rows: seq<SpaceUsedRow>, nindex: nat, pageSize: nat, pageCount: nat)
    ensures IndicesStats(rows, nindex, pageSize, pageCount).Err? <==> nindex == 0
    ensures nindex != 0 ==>
      IndicesStats(rows, nindex, pageSize, pageCount).value.totals.cnt == |Select(rows, IsIndex)|
  {
    CountIsRows(Select(rows, IsIndex));
  }

  /**
    The row counts of the query helpers: `cnt` is the number of rows the
    WHERE clause selects, `table_stats(name, True)` is `index_stats(name)`,
    and `global_stats()` counts every row.
  */
  lemma QuerySelections(rows: seq<SpaceUsedRow>, name: string, pageSize: nat, pageCount: nat)
    ensures TableStats(rows, name, false, pageSize, pageCount).totals.cnt
         == |Select(rows, TblNameIs(name))|
    ensures TableStats(rows, name, true, pageSize, pageCount) == IndexStats(rows, name, pageSize, pageCount)
    ensures IndexStats(rows, name, pageSize, pageCount).totals.cnt == |Select(rows, NameIs(name))|
    ensures GlobalStats(rows, false, pageSize, pageCount).totals.cnt == |rows|
  {
    QueryTotals(rows, TblNameIs(name), pageSize, pageCount);
    QueryTotals(rows, NameIs(name), pageSize, pageCount);
    QueryTotals(rows, AnyRow, pageSize, pageCount);
    CountIsRows(Select(rows, TblNameIs(name)));
    CountIsRows(Select(rows, NameIs(name)));
    CountIsRows(Select(rows, AnyRow));
    SelectAll(rows);
  }

  /**
    `table_stats` without `exclude_indices` takes exactly the rows of the
    table's name and `global_stats(True)` exactly the non-index rows.
  */
  lemma SelectionMembers(rows: seq<SpaceUsedRow>, name: string)
    ensures forall x :: x in Select(rows, TblNameIs(name)) <==> x in rows && x.tblName == name
    ensures forall x :: x in Select(rows, NotIsIndex) <==> x in rows && !x.isIndex
  {
  }

  lemma QueryTotals(rows: seq<SpaceUsedRow>, w: Where, pageSize: nat, pageCount: nat)
    ensures QuerySpaceUsed(rows, w, pageSize, pageCount).totals == Aggregate(Select(rows, w))
  {
  }

  lemma {:induction false} SelectAll(rows: seq<SpaceUsedRow>)
    ensures Select(rows, AnyRow) == rows
  {
    if rows != [] {
      SelectAll(rows[1..]);
    }
  }

  // ---- Metrics in terms of the DBSTAT pages behind the rows ----

  /** Every row's counters are the reduction of its object's DBSTAT pages, as `_compute_stats` stores them. */
  predicate FromDbstat(dbstat: seq<Page>, rows: seq<SpaceUsedRow>)
  {
    forall i :: 0 <= i < |rows| ==> rows[i].stats.sums == ExtractSums(dbstat, rows[i].name)
  }

  /** The DBSTAT pages of the objects the rows describe, one object after the other. */
  function SelectedPages(dbstat: seq<Page>, rows: seq<SpaceUsedRow>): (r: seq<Page>)
    ensures forall k :: 0 <= k < |r| ==> r[k] in dbstat
  {
    if rows == [] then [] else ObjectPages(dbstat, rows[0].name) + SelectedPages(dbstat, rows[1..])
  }

  lemma StatsRowsFromDbstat(dbstat: seq<Page>, tables: seq<string>, indices: seq<Entry>, withoutRowid: set<string>)
    ensures FromDbstat(dbstat, StatsRows(dbstat, tables, indices, withoutRowid))
  {
  }

  lemma SelectFromDbstat(dbstat: seq<Page>, rows: seq<SpaceUsedRow>, w: Where)
    requires FromDbstat(dbstat, rows)
    ensures FromDbstat(dbstat, Select(rows, w))
  {
    var sel := Select(rows, w);
    forall i | 0 <= i < |sel| ensures sel[i].stats.sums == ExtractSums(dbstat, sel[i].name) {
      assert sel[i] in rows;
    }
  }

  /** The summed and maximal columns of `t` are those of `s`; the entry, gap and object counts are not compared. */
  predicate SameColumns(t: Totals, s: PageSums)
  {
    && t.payload == s.payload && t.ovflPayload == s.ovflPayload && t.mxPayload == s.mxPayload
    && t.ovflCnt == s.ovflCnt && t.leafPages == s.leafPages && t.intPages == s.intPages
    && t.ovflPages == s.ovflPages && t.leafUnused == s.leafUnused && t.intUnused == s.intUnused
    && t.ovflUnused == s.ovflUnused && t.compressedSize == s.compressedSize && t.depth == s.depth
  }

  lemma SameColumnsStep(r: SpaceUsedRow, t: Totals, a: PageSums, b: PageSums)
    requires r.stats.sums == a && SameColumns(t, b)
    ensures SameColumns(Combine(RowTotals(r), t), Add(a, b))
  {
  }

  /**
    The summed and maximal columns of a selection are those of the DBSTAT
    reduction over all pages of the selected objects together.
  */
  lemma {:induction false} AggregateIsReduce(dbstat: seq<Page>, rows: seq<SpaceUsedRow>)
    requires FromDbstat(dbstat, rows)
    ensures SameColumns(Aggregate(rows), Reduce(SelectedPages(dbstat, rows)))
  {
    if rows != [] {
      assert forall i :: 1 <= i < |rows| ==> rows[1..][i - 1] == rows[i];
      AggregateIsReduce(dbstat, rows[1..]);
      var head, rest := ObjectPages(dbstat, rows[0].name), SelectedPages(dbstat, rows[1..]);
      assert SelectedPages(dbstat, rows) == head + rest;
      ReduceAppend(head, rest);
      SameColumnsStep(rows[0], Aggregate(rows[1..]), Reduce(head), Reduce(rest));
    }
  }

  /**
    For the rows `_compute_stats` builds, a selection's page count, storage,
    unused bytes and overflow-chain count are those of the DBSTAT pages of
    the selected objects.
  */
  lemma SelectionBytes(dbstat: seq<Page>, tables: seq<string>, indices: seq<Entry>, withoutRowid: set<string>,
                       w: Where, pageSize: nat, pageCount: nat)
    ensures var rows := StatsRows(dbstat, tables, indices, withoutRowid);
      var pages := SelectedPages(dbstat, Select(rows, w));
      var m := QuerySpaceUsed(rows, w, pageSize, pageCount);
      && m.totalPages == |pages|
      && m.storage == |pages| * pageSize
      && m.totalUnused == TotalUnused(pages)
      && m.totals.ovflCnt == |OverflowChainStarts(pages)|
  {
    var rows := StatsRows(dbstat, tables, indices, withoutRowid);
    var sel := Select(rows, w);
    var pages := SelectedPages(dbstat, sel);
    StatsRowsFromDbstat(dbstat, tables, indices, withoutRowid);
    SelectFromDbstat(dbstat, rows, w);
    AggregateIsReduce(dbstat, sel);
    PageTypeCounts(pages);
    EntryAndPayloadBounds(pages);
    OverflowCount(pages);
  }

  /**
    A selection is never reported compressed when no DBSTAT page takes
    more than a page on disk: its on-disk size is then at most its storage,
    and equal to it when every page takes a full page, so the flag is off
    and the overhead 0.
  */
  lemma UncompressedPages(dbstat: seq<Page>, tables: seq<string>, indices: seq<Entry>, withoutRowid: set<string>,
                          w: Where, pageSize: nat, pageCount: nat)
    ensures var m := QuerySpaceUsed(StatsRows(dbstat, tables, indices, withoutRowid), w, pageSize, pageCount);
      (forall k :: 0 <= k < |dbstat| ==> dbstat[k].pgsize <= pageSize) ==> m.totals.compressedSize <= m.storage
    ensures var m := QuerySpaceUsed(StatsRows(dbstat, tables, indices, withoutRowid), w, pageSize, pageCount);
      (forall k :: 0 <= k < |dbstat| ==> dbstat[k].pgsize == pageSize) ==> !m.isCompressed && m.compressedOverhead == 0
  {
    var rows := StatsRows(dbstat, tables, indices, withoutRowid);
    var sel := Select(rows, w);
    var pages := SelectedPages(dbstat, sel);
    var t := Aggregate(sel);
    var m := QuerySpaceUsed(rows, w, pageSize, pageCount);
    assert m == DeriveMetrics(t, pageSize, pageCount);
    StatsRowsFromDbstat(dbstat, tables, indices, withoutRowid);
    SelectFromDbstat(dbstat, rows, w);
    AggregateIsReduce(dbstat, sel);
    PageTypeCounts(pages);
    ByteAccounting(t, pageSize, pageCount);
    CompressionFlag(t, pageSize, pageCount);
    assert m.storage == |pages| * pageSize;
    assert t.compressedSize == Reduce(pages).compressedSize;
    if forall k :: 0 <= k < |dbstat| ==> dbstat[k].pgsize <= pageSize {
      PageSizesCarryOver(dbstat, pages, pageSize);
      CompressedSizeBound(pages, pageSize);
    }
  }

  lemma PageSizesCarryOver(dbstat: seq<Page>, pages: seq<Page>, pageSize: nat)
    requires forall k :: 0 <= k < |pages| ==> pages[k] in dbstat
    ensures (forall k :: 0 <= k < |dbstat| ==> dbstat[k].pgsize <= pageSize) ==>
      forall k :: 0 <= k < |pages| ==> pages[k].pgsize <= pageSize
    ensures (forall k :: 0 <= k < |dbstat| ==> dbstat[k].pgsize == pageSize) ==>
      forall k :: 0 <= k < |pages| ==> pages[k].pgsize == pageSize
  {
  }
}
