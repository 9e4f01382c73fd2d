/**
  Database-wide page counts of the analyzer: the logical file size, the
  auto-vacuum pointer-map pages, the pages in use according to
  `space_used`, and the free and total page counts derived from them. The
  PRAGMA values (`page_count`, `page_size`, `freelist_count`,
  `auto_vacuum`) are parameters.
*/
module DatabaseCounts {
  import opened DbStat
  import opened SpaceUsed
  import opened Metrics
  import opened Gaps

  /** `logical_file_size`: the bytes `page_count` pages of `page_size` bytes take. */
  function LogicalFileSize(pageCount: nat, pageSize: nat): nat
  {
    pageCount * pageSize
  }

  /** Fewer pages take no more bytes, and each further page adds one page size. */
  lemma LogicalFileSizeMonotone(fewer: nat, more: nat, pageSize: nat)
    ensures fewer <= more ==> LogicalFileSize(fewer, pageSize) <= LogicalFileSize(more, pageSize)
    ensures LogicalFileSize(more + 1, pageSize) == LogicalFileSize(more, pageSize) + pageSize
  {
    if fewer <= more {
      assert LogicalFileSize(more, pageSize) - LogicalFileSize(fewer, pageSize) == (more - fewer) * pageSize;
    }
  }

  /**
    `autovacuum_page_count`: no pointer-map pages without auto-vacuum or in
    a one-page file; otherwise the ceiling of `(page_count - 1) /
    (page_size / 5 + 1)`, computed here on integers as the ceiling of
    `5 * (page_count - 1) / (page_size + 5)`.
  */
  function AutovacuumPageCount(autoVacuum: int, pageCount: nat, pageSize: nat): int
  {
    if autoVacuum == 0 || pageCount == 1 then 0
    else -((-(5 * (pageCount - 1))) / (pageSize + 5))
  }

  /** The pointer-map page count is the exact ceiling of the quotient the source computes in floating point. */
  lemma AutovacuumIsCeiling(autoVacuum: int, pageCount: nat, pageSize: nat)
    ensures autoVacuum == 0 || pageCount == 1 ==> AutovacuumPageCount(autoVacuum, pageCount, pageSize) == 0
    ensures autoVacuum != 0 && pageCount != 1 ==>
      var r := AutovacuumPageCount(autoVacuum, pageCount, pageSize);
      var q := (pageCount - 1) as real / (pageSize as real / 5.0 + 1.0);
      (r - 1) as real < q <= r as real
  {
    if autoVacuum != 0 && pageCount != 1 {
      var n := 5 * (pageCount - 1);
      var d := pageSize + 5;
      var f := (-n) / d;
      var m := (-n) % d;
      var r := AutovacuumPageCount(autoVacuum, pageCount, pageSize);
      assert -n == f * d + m && 0 <= m < d;
      assert r == -f;
      assert r * d == n + m;
      var q := (pageCount - 1) as real / (pageSize as real / 5.0 + 1.0);
      var nr, dr := n as real, d as real;
      assert pageSize as real / 5.0 + 1.0 == dr / 5.0;
      assert q == nr / dr;
      assert (r as real) * dr == nr + m as real;
      assert ((r - 1) as real) * dr == nr + m as real - dr;
      CeilingBetween(nr, dr, r as real, m as real);
    }
  }

  lemma CeilingBetween(n: real, d: real, r: real, m: real)
    requires d > 0.0 && 0.0 <= m < d
    requires r * d == n + m
    ensures r - 1.0 < n / d <= r
  {
    var x := n / d;
    assert x * d == n;
    assert (r - x) * d == m;
    assert (x - (r - 1.0)) * d == d - m;
    FactorSign(r - x, d);
    FactorSign(x - (r - 1.0), d);
  }

  lemma FactorSign(y: real, d: real)
    requires d > 0.0
    ensures y * d >= 0.0 ==> y >= 0.0
    ensures y * d > 0.0 ==> y > 0.0
  {
  }

  /** The pointer-map size for a few files with auto-vacuum on. */
  lemma AutovacuumExamples()
    ensures AutovacuumPageCount(1, 1000, 4096) == 2
    ensures AutovacuumPageCount(1, 1, 4096) == 0
    ensures AutovacuumPageCount(0, 1000, 4096) == 0
    ensures AutovacuumPageCount(2, 2, 1024) == 1
  {
  }

  /** `in_use_pages`: the sum of the three page counts over every row of `space_used` (0 for no rows). */
  function InUsePages(rows: seq<SpaceUsedRow>): nat
  {
    if rows == [] then 0 else rows[0].Pages() + InUsePages(rows[1..])
  }

  /** `calculated_free_pages`. */
  function CalculatedFreePages(rows: seq<SpaceUsedRow>, autoVacuum: int, pageCount: nat, pageSize: nat): int
  {
    pageCount - InUsePages(rows) - AutovacuumPageCount(autoVacuum, pageCount, pageSize)
  }

  /** `calculated_page_count`: pages in use, on the freelist and in the pointer map. */
  function CalculatedPageCount(rows: seq<SpaceUsedRow>, freelistCount: nat, autoVacuum: int, pageCount: nat,
                               pageSize: nat): int
  {
    InUsePages(rows) + freelistCount + AutovacuumPageCount(autoVacuum, pageCount, pageSize)
  }

  /** The calculated page count matches `page_count` exactly when the calculated free pages match the freelist. */
  lemma PageCountsAgree(rows: seq<SpaceUsedRow>, freelistCount: nat, autoVacuum: int, pageCount: nat, pageSize: nat)
    ensures CalculatedPageCount(rows, freelistCount, autoVacuum, pageCount, pageSize) == pageCount
        <==> CalculatedFreePages(rows, autoVacuum, pageCount, pageSize) == freelistCount
    ensures CalculatedPageCount(rows, freelistCount, autoVacuum, pageCount, pageSize)
          - CalculatedFreePages(rows, autoVacuum, pageCount, pageSize)
         == 2 * (InUsePages(rows) + AutovacuumPageCount(autoVacuum, pageCount, pageSize))
            + freelistCount - pageCount
  {
  }

  /** The pages in use are the total pages of `global_stats()`, and their bytes its storage. */
  lemma {:induction false} InUseIsGlobalPages(rows: seq<SpaceUsedRow>, pageSize: nat, pageCount: nat)
    ensures InUsePages(rows) == GlobalStats(rows, false, pageSize, pageCount).totalPages
    ensures LogicalFileSize(InUsePages(rows), pageSize) == GlobalStats(rows, false, pageSize, pageCount).storage
  {
    SelectAll(rows);
    InUseIsAggregatePages(rows);
  }

  /**
    When the calculated page count agrees with `page_count`, the logical
    file size is the storage of `global_stats()` plus the bytes of the
    freelist and pointer-map pages.
  */
  lemma LogicalSizeBreakdown(rows: seq<SpaceUsedRow>, freelistCount: nat, autoVacuum: int, pageCount: nat,
                             pageSize: nat)
    ensures CalculatedPageCount(rows, freelistCount, autoVacuum, pageCount, pageSize) == pageCount ==>
      LogicalFileSize(pageCount, pageSize)
      == GlobalStats(rows, false, pageSize, pageCount).storage
         + (freelistCount + AutovacuumPageCount(autoVacuum, pageCount, pageSize)) * pageSize
  {
    var used, rest := InUsePages(rows), freelistCount + AutovacuumPageCount(autoVacuum, pageCount, pageSize);
    var storage := GlobalStats(rows, false, pageSize, pageCount).storage;
    InUseIsGlobalPages(rows, pageSize, pageCount);
    assert LogicalFileSize(used, pageSize) == storage;
    if used + rest == pageCount {
      AddPages(used, rest, pageSize);
    }
  }

  lemma AddPages(used: nat, rest: int, pageSize: nat)
    requires used + rest >= 0
    ensures LogicalFileSize(used + rest, pageSize) == LogicalFileSize(used, pageSize) + rest * pageSize
  {
    assert (used + rest) * pageSize == used * pageSize + rest * pageSize;
  }

  lemma {:induction false} InUseIsAggregatePages(rows: seq<SpaceUsedRow>)
    ensures var t := Aggregate(rows);
      InUsePages(rows) == t.leafPages + t.intPages + t.ovflPages
  {
    if rows != [] {
      InUseIsAggregatePages(rows[1..]);
    }
  }

  // ---- Pages in use cover DBSTAT ----

  function EntryNames(entries: seq<Entry>): (r: seq<string>)
    ensures |r| == |entries|
    ensures forall i :: 0 <= i < |entries| ==> r[i] == entries[i].name
  {
    seq(|entries|, i requires 0 <= i < |entries| => entries[i].name)
  }

  /** The number of DBSTAT pages of each named object, summed over the names. */
  function PagesOf(dbstat: seq<Page>, names: seq<string>): nat
  {
    if names == [] then 0 else |ObjectPages(dbstat, names[0])| + PagesOf(dbstat, names[1..])
  }

  function Occurrences(names: seq<string>, n: string): nat
  {
    if names == [] then 0 else (if names[0] == n then 1 else 0) + Occurrences(names[1..], n)
  }

  lemma {:induction false} OccursOnce(names: seq<string>, n: string)
    requires Distinct(names)
    ensures Occurrences(names, n) == if n in names then 1 else 0
  {
    if names != [] {
      assert forall i, j :: 1 <= i < j < |names| ==> names[1..][i - 1] == names[i] && names[1..][j - 1] == names[j];
      OccursOnce(names[1..], n);
      if names[0] == n {
        assert n !in names[1..] by {
          forall k | 0 <= k < |names[1..]| ensures names[1..][k] != n {
            assert names[1..][k] == names[k + 1];
          }
        }
      }
      assert n in names <==> names[0] == n || n in names[1..];
    }
  }

  lemma {:induction false} PagesOfCons(p: Page, rest: seq<Page>, names: seq<string>)
    ensures PagesOf([p] + rest, names) == PagesOf(rest, names) + Occurrences(names, p.name)
  {
    if names != [] {
      assert ([p] + rest)[1..] == rest;
      assert |ObjectPages([p] + rest, names[0])|
          == |ObjectPages(rest, names[0])| + (if p.name == names[0] then 1 else 0);
      PagesOfCons(p, rest, names[1..]);
    }
  }

  /** When the names are distinct and name every page, each page is counted exactly once. */
  lemma {:induction false} PagesOfCover(dbstat: seq<Page>, names: seq<string>)
    requires Distinct(names)
    requires forall k :: 0 <= k < |dbstat| ==> dbstat[k].name in names
    ensures PagesOf(dbstat, names) == |dbstat|
  {
    if dbstat == [] {
      PagesOfEmpty(names);
    } else {
      var p, rest := dbstat[0], dbstat[1..];
      assert forall k :: 0 <= k < |rest| ==> rest[k] == dbstat[k + 1];
      PagesOfCover(rest, names);
      assert dbstat == [p] + rest;
      PagesOfCons(p, rest, names);
      OccursOnce(names, p.name);
    }
  }

  lemma {:induction false} PagesOfEmpty(names: seq<string>)
    ensures PagesOf([], names) == 0
  {
    if names != [] {
      PagesOfEmpty(names[1..]);
    }
  }

  lemma {:induction false} InUseIsPagesOf(dbstat: seq<Page>, entries: seq<Entry>, withoutRowid: set<string>)
    ensures InUsePages(RowsFor(dbstat, entries, withoutRowid)) == PagesOf(dbstat, EntryNames(entries))
  {
    if entries != [] {
      var rows := RowsFor(dbstat, entries, withoutRowid);
      assert rows[1..] == RowsFor(dbstat, entries[1..], withoutRowid);
      assert EntryNames(entries)[1..] == EntryNames(entries[1..]);
      InUseIsPagesOf(dbstat, entries[1..], withoutRowid);
      ExtractSumsPageCount(dbstat, entries[0].name);
      assert rows[0].Pages() == |ObjectPages(dbstat, entries[0].name)|;
      assert EntryNames(entries)[0] == entries[0].name;
    }
  }

  /**
    When every DBSTAT page belongs to exactly one of the tables and indices,
    `in_use_pages` is the number of DBSTAT pages, and the calculated free
    pages are what remains of `page_count` after them and the pointer map.
  */
  lemma InUseCountsEveryPage(dbstat: seq<Page>, tables: seq<string>, indices: seq<Entry>,
                             withoutRowid: set<string>, autoVacuum: int, pageCount: nat, pageSize: nat)
    requires Distinct(EntryNames(TableEntries(tables) + indices))
    requires forall k :: 0 <= k < |dbstat| ==> dbstat[k].name in EntryNames(TableEntries(tables) + indices)
    ensures InUsePages(StatsRows(dbstat, tables, indices, withoutRowid)) == |dbstat|
    ensures CalculatedFreePages(StatsRows(dbstat, tables, indices, withoutRowid), autoVacuum, pageCount, pageSize)
         == pageCount - |dbstat| - AutovacuumPageCount(autoVacuum, pageCount, pageSize)
  {
    var entries := TableEntries(tables) + indices;
    InUseIsPagesOf(dbstat, entries, withoutRowid);
    PagesOfCover(dbstat, EntryNames(entries));
  }

  /** The DBSTAT pages whose object is none of the named entries. */
  function Unnamed(dbstat: seq<Page>, names: seq<string>): seq<Page>
  {
    if dbstat == [] then []
    else (if dbstat[0].name in names then [] else [dbstat[0]]) + Unnamed(dbstat[1..], names)
  }

  /** For distinct names, every page is counted once by its entry or lies among the unnamed pages. */
  lemma {:induction false} PagesOfPlusUnnamed(dbstat: seq<Page>, names: seq<string>)
    requires Distinct(names)
    ensures PagesOf(dbstat, names) + |Unnamed(dbstat, names)| == |dbstat|
  {
    if dbstat == [] {
      PagesOfEmpty(names);
    } else {
      var p, rest := dbstat[0], dbstat[1..];
      PagesOfPlusUnnamed(rest, names);
      assert dbstat == [p] + rest;
      PagesOfCons(p, rest, names);
      OccursOnce(names, p.name);
    }
  }

  /**
    For distinct entry names, `in_use_pages` is the number of DBSTAT pages
    minus those of objects that are neither a listed table nor a listed
    index, and `calculated_free_pages` counts those pages as free.
  */
  lemma InUseMissesUnnamedPages(dbstat: seq<Page>, tables: seq<string>, indices: seq<Entry>,
                                withoutRowid: set<string>, autoVacuum: int, pageCount: nat, pageSize: nat)
    requires Distinct(EntryNames(TableEntries(tables) + indices))
    ensures var unnamed := Unnamed(dbstat, EntryNames(TableEntries(tables) + indices));
      && InUsePages(StatsRows(dbstat, tables, indices, withoutRowid)) == |dbstat| - |unnamed|
      && CalculatedFreePages(StatsRows(dbstat, tables, indices, withoutRowid), autoVacuum, pageCount, pageSize)
         == pageCount - |dbstat| + |unnamed| - AutovacuumPageCount(autoVacuum, pageCount, pageSize)
  {
    var entries := TableEntries(tables) + indices;
    InUseIsPagesOf(dbstat, entries, withoutRowid);
    PagesOfPlusUnnamed(dbstat, EntryNames(entries));
  }

  /**
    A two-page file: page 1 holds the schema (`sqlite_master`), page 2 the
    one table `t`. The table list leaves out `sqlite_master`, so one page
    is in use and one is calculated free although the freelist is empty,
    and the calculated page count falls one short of `page_count`.
  */
  lemma SchemaPagesCountedFree()
    ensures var dbstat := [LeafPage("sqlite_master", 1), LeafPage("t", 2)];
      var rows := StatsRows(dbstat, ["t"], [], {});
      && InUsePages(rows) == 1
      && CalculatedFreePages(rows, 0, 2, 4096) == 1
      && CalculatedPageCount(rows, 0, 0, 2, 4096) == 1
  {
    var dbstat := [LeafPage("sqlite_master", 1), LeafPage("t", 2)];
    var names := EntryNames(TableEntries(["t"]) + []);
    assert names == ["t"];
    assert Unnamed(dbstat, names) == [dbstat[0]] + Unnamed(dbstat[1..], names);
    assert Unnamed(dbstat[1..], names) == [] + Unnamed(dbstat[2..], names);
    InUseMissesUnnamedPages(dbstat, ["t"], [], {}, 0, 2, 4096);
  }
}
