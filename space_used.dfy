/**
  The in-memory `space_used` table: one row of raw counters per table and
  per index, filled once by `_compute_stats` and only read afterwards.
*/
module SpaceUsed {
  import opened DbStat
  import opened Gaps

  /** What `_extract_sqlite_stats` returns for one object. */
  datatype ObjectStats = ObjectStats(sums: PageSums, isWithoutRowid: bool, gapCount: nat)

  /** The raw statistics of one object, as a value. */
  function RawStats(dbstat: seq<Page>, name: string, isWithoutRowid: bool): ObjectStats
  {
    ObjectStats(ExtractSums(dbstat, name), isWithoutRowid, GapCount(PagesByPageno(dbstat, name)))
  }

  /** `_extract_sqlite_stats`: runs the reduction and the gap-counting scan for one object. */
  method ExtractSqliteStats(dbstat: seq<Page>, name: string, isWithoutRowid: bool)
    returns (stats: ObjectStats)
    ensures stats == RawStats(dbstat, name, isWithoutRowid)
  {
    var sums := ExtractSums(dbstat, name);
    var gapCount := CountGaps(PagesByPageno(dbstat, name));
    stats := ObjectStats(sums, isWithoutRowid, gapCount);
  }

  /** A schema entry: a table (`tblName == name`) or an index on table `tblName`. */
  datatype Entry = Entry(name: string, tblName: string)

  /** One row of `space_used`. */
  datatype SpaceUsedRow = SpaceUsedRow(name: string, tblName: string, isIndex: bool, stats: ObjectStats)
  {
    function Pages(): nat
    {
      stats.sums.intPages + stats.sums.leafPages + stats.sums.ovflPages
    }
  }

  /** `[{'name': t, 'tbl_name': t} for t in tables]`. */
  function TableEntries(tables: seq<string>): seq<Entry>
  {
    seq(|tables|, i requires 0 <= i < |tables| => Entry(tables[i], tables[i]))
  }

  /** The row `_compute_stats` inserts for one entry. */
  function MakeRow(dbstat: seq<Page>, e: Entry, withoutRowid: set<string>): SpaceUsedRow
  {
    SpaceUsedRow(e.name, e.tblName, e.name != e.tblName, RawStats(dbstat, e.name, e.name in withoutRowid))
  }

  function RowsFor(dbstat: seq<Page>, entries: seq<Entry>, withoutRowid: set<string>): seq<SpaceUsedRow>
  {
    seq(|entries|, i requires 0 <= i < |entries| => MakeRow(dbstat, entries[i], withoutRowid))
  }

  /** The whole `space_used` table for the given tables and indices. */
  function StatsRows(dbstat: seq<Page>, tables: seq<string>, indices: seq<Entry>, withoutRowid: set<string>)
    : seq<SpaceUsedRow>
  {
    RowsFor(dbstat, TableEntries(tables) + indices, withoutRowid)
  }

  /**
    What every row of `space_used` satisfies: the index flag agrees with the
    names, leaf entries and overflow payload are parts of their totals, and
    there are fewer gaps than pages.
  */
  predicate RowConsistent(r: SpaceUsedRow)
  {
    && r.isIndex == (r.name != r.tblName)
    && r.stats.sums.leafEntries <= r.stats.sums.nentry
    && r.stats.sums.ovflPayload <= r.stats.sums.payload
    && r.stats.gapCount <= (if r.Pages() == 0 then 0 else r.Pages() - 1)
  }

  /** An object has fewer gaps than pages (none if it has at most one page). */
  lemma RawStatsGapBound(dbstat: seq<Page>, name: string, isWithoutRowid: bool)
    ensures var s := RawStats(dbstat, name, isWithoutRowid);
      var pages := s.sums.intPages + s.sums.leafPages + s.sums.ovflPages;
      s.gapCount <= if pages == 0 then 0 else pages - 1
  {
    var sorted := PagesByPageno(dbstat, name);
    ExtractSumsPageCount(dbstat, name);
    if sorted != [] {
      GapCountBound(sorted);
    }
  }

  lemma MakeRowConsistent(dbstat: seq<Page>, e: Entry, withoutRowid: set<string>)
    ensures RowConsistent(MakeRow(dbstat, e, withoutRowid))
  {
    EntryAndPayloadBounds(ObjectPages(dbstat, e.name));
    RawStatsGapBound(dbstat, e.name, e.name in withoutRowid);
  }

  /**
    `_compute_stats` emits one row per table followed by one per index; a
    table's row names the table as its own table and is not an index; an
    index row is an index exactly when its name differs from its table's.
  */
  lemma StatsRowsShape(dbstat: seq<Page>, tables: seq<string>, indices: seq<Entry>, withoutRowid: set<string>)
    ensures var rows := StatsRows(dbstat, tables, indices, withoutRowid);
      && |rows| == |tables| + |indices|
      && (forall i :: 0 <= i < |tables| ==>
            rows[i].name == tables[i] && rows[i].tblName == tables[i] && !rows[i].isIndex
            && rows[i].stats == RawStats(dbstat, tables[i], tables[i] in withoutRowid))
      && (forall j :: 0 <= j < |indices| ==>
            var r := rows[|tables| + j];
            r.name == indices[j].name && r.tblName == indices[j].tblName
            && r.isIndex == (indices[j].name != indices[j].tblName)
            && r.stats == RawStats(dbstat, indices[j].name, indices[j].name in withoutRowid))
  {
    var entries := TableEntries(tables) + indices;
    assert forall j :: 0 <= j < |indices| ==> entries[|tables| + j] == indices[j];
  }

  class SpaceUsedTable {
    var rows: seq<SpaceUsedRow>

    constructor ()
      ensures rows == []
    {
      rows := [];
    }

    ghost predicate Consistent()
      reads this
    {
      forall i :: 0 <= i < |rows| ==> RowConsistent(rows[i])
    }

    /** `INSERT INTO space_used VALUES (...)`. */
    method Insert(row: SpaceUsedRow)
      modifies this
      ensures rows == old(rows) + [row]
    {
      rows := rows + [row];
    }
  }

  lemma RowsForPrefix(dbstat: seq<Page>, entries: seq<Entry>, i: nat, withoutRowid: set<string>)
    requires i < |entries|
    ensures RowsFor(dbstat, entries[..i + 1], withoutRowid)
         == RowsFor(dbstat, entries[..i], withoutRowid) + [MakeRow(dbstat, entries[i], withoutRowid)]
  {
    var longer := RowsFor(dbstat, entries[..i + 1], withoutRowid);
    var shorter := RowsFor(dbstat, entries[..i], withoutRowid) + [MakeRow(dbstat, entries[i], withoutRowid)];
    assert |longer| == |shorter|;
    forall k | 0 <= k < |longer| ensures longer[k] == shorter[k] {
      assert entries[..i + 1][k] == entries[k];
    }
  }

  lemma AppendConsistent(rows: seq<SpaceUsedRow>, row: SpaceUsedRow)
    requires forall i :: 0 <= i < |rows| ==> RowConsistent(rows[i])
    requires RowConsistent(row)
    ensures forall i :: 0 <= i < |rows + [row]| ==> RowConsistent((rows + [row])[i])
  {
  }

  /** `_compute_stats`: extracts the statistics of every table, then every index, and inserts a row for each. */
  method ComputeStats(db: SpaceUsedTable, dbstat: seq<Page>, tables: seq<string>, indices: seq<Entry>,
                      withoutRowid: set<string>)
    modifies db
    ensures db.rows == old(db.rows) + StatsRows(dbstat, tables, indices, withoutRowid)
    ensures old(db.Consistent()) ==> db.Consistent()
  {
    var entries := TableEntries(tables) + indices;
    ghost var wasConsistent := db.Consistent();
    var i := 0;
    while i < |entries|
      invariant 0 <= i <= |entries|
      invariant db.rows == old(db.rows) + RowsFor(dbstat, entries[..i], withoutRowid)
      invariant wasConsistent ==> db.Consistent()
    {
      var entry := entries[i];
      var stats := ExtractSqliteStats(dbstat, entry.name, entry.name in withoutRowid);
      var isIndex := entry.name != entry.tblName;
      var row := SpaceUsedRow(entry.name, entry.tblName, isIndex, stats);
      assert row == MakeRow(dbstat, entry, withoutRowid);
      RowsForPrefix(dbstat, entries, i, withoutRowid);
      if wasConsistent {
        MakeRowConsistent(dbstat, entry, withoutRowid);
        AppendConsistent(db.rows, row);
      }
      db.Insert(row);
      assert db.rows == old(db.rows) + RowsFor(dbstat, entries[..i + 1], withoutRowid);
      i := i + 1;
    }
    assert entries[..i] == entries;
  }

  /** The statistics-gathering part of `StorageAnalyzer.__init__`: a fresh `space_used` table, filled. */
  method Analyze(dbstat: seq<Page>, tables: seq<string>, indices: seq<Entry>, withoutRowid: set<string>)
    returns (db: SpaceUsedTable)
    ensures fresh(db)
    ensures db.rows == StatsRows(dbstat, tables, indices, withoutRowid)
    ensures db.Consistent()
  {
    db := new SpaceUsedTable();
    ComputeStats(db, dbstat, tables, indices, withoutRowid);
  }
}
