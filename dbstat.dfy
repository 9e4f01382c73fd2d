/**
  Page facts as the DBSTAT virtual table reports them, and the per-object
  reduction of those facts into raw counters (the SELECT over temp.dbstat in
  `_extract_sqlite_stats`). Each SQL `sum` and `max` column is a fold; a
  column over zero rows, NULL in SQL, is 0 here.
*/
module DbStat {
  import opened SqlLike

  datatype PageType = Internal | Leaf | Overflow

  /** One DBSTAT row: the facts about one page of one table or index. */
  datatype Page = Page(
    name: string,        // table or index the page belongs to
    path: string,        // path from the root to the page
    pageno: nat,
    pagetype: PageType,
    ncell: nat,          // cells on the page (0 for overflow pages)
    payload: nat,        // bytes of payload on the page
    unused: nat,         // bytes of unused space on the page
    mxPayload: nat,      // largest payload of any cell on the page
    pgoffset: nat,       // offset of the page in the file
    pgsize: nat)         // bytes the page takes on disk

  /** The columns the reduction produces for one object. */
  datatype PageSums = PageSums(
    nentry: nat,
    leafEntries: nat,
    payload: nat,
    ovflPayload: nat,
    ovflCnt: nat,
    mxPayload: nat,
    intPages: nat,
    leafPages: nat,
    ovflPages: nat,
    intUnused: nat,
    leafUnused: nat,
    ovflUnused: nat,
    compressedSize: nat,
    depth: nat)

  /** The result over zero pages. */
  const NoPages := PageSums(0, 0, 0, 0, 0, 0, 0, 0, 0, 0, 0, 0, 0, 0)

  function Max(a: nat, b: nat): nat
  {
    if a >= b then a else b
  }

  /** The SQL truth value of `b` used as a number (`pagetype == 'leaf'` is 1 or 0). */
  function Ind(b: bool): nat
  {
    if b then 1 else 0
  }

  /** The depth column's per-page term: `(length(CASE WHEN path LIKE '%+%' THEN '' ELSE path END)+3)/4`. */
  function DepthTerm(path: string): nat
  {
    (|if Like(path, "%+%") then "" else path| + 3) / 4
  }

  /** What one page contributes to each column; `(cond) * x` is written as a conditional. */
  function PageRow(p: Page): PageSums
  {
    PageSums(
      nentry := p.ncell,
      leafEntries := if p.pagetype == Leaf then p.ncell else 0,
      payload := p.payload,
      ovflPayload := if p.pagetype == Overflow then p.payload else 0,
      ovflCnt := Ind(Like(p.path, "%+000000")),
      mxPayload := p.mxPayload,
      intPages := Ind(p.pagetype == Internal),
      leafPages := Ind(p.pagetype == Leaf),
      ovflPages := Ind(p.pagetype == Overflow),
      intUnused := if p.pagetype == Internal then p.unused else 0,
      leafUnused := if p.pagetype == Leaf then p.unused else 0,
      ovflUnused := if p.pagetype == Overflow then p.unused else 0,
      compressedSize := p.pgsize,
      depth := DepthTerm(p.path))
  }

  /** Column-wise combination: `sum` columns add, `max` columns take the larger. */
  function Add(a: PageSums, b: PageSums): PageSums
  {
    PageSums(
      a.nentry + b.nentry, a.leafEntries + b.leafEntries, a.payload + b.payload,
      a.ovflPayload + b.ovflPayload, a.ovflCnt + b.ovflCnt, Max(a.mxPayload, b.mxPayload),
      a.intPages + b.intPages, a.leafPages + b.leafPages, a.ovflPages + b.ovflPages,
      a.intUnused + b.intUnused, a.leafUnused + b.leafUnused, a.ovflUnused + b.ovflUnused,
      a.compressedSize + b.compressedSize, Max(a.depth, b.depth))
  }

  /** The reduction over a list of pages. */
  function Reduce(ps: seq<Page>): PageSums
  {
    if ps == [] then NoPages else Add(PageRow(ps[0]), Reduce(ps[1..]))
  }

  /** `WHERE name = '<name>'`: the pages of one object, in DBSTAT order. */
  function ObjectPages(dbstat: seq<Page>, name: string): (r: seq<Page>)
    ensures |r| <= |dbstat|
    ensures forall p :: p in r <==> p in dbstat && p.name == name
  {
    if dbstat == [] then []
    else
      var rest := ObjectPages(dbstat[1..], name);
      assert forall p :: p in dbstat <==> p == dbstat[0] || p in dbstat[1..];
      if dbstat[0].name == name then [dbstat[0]] + rest else rest
  }

  /** The selection keeps every matching row as often as DBSTAT reports it, and no other row. */
  lemma {:induction false} ObjectPagesMultiset(dbstat: seq<Page>, name: string)
    ensures forall p :: multiset(ObjectPages(dbstat, name))[p] == if p.name == name then multiset(dbstat)[p] else 0
  {
    if dbstat != [] {
      ObjectPagesMultiset(dbstat[1..], name);
      assert dbstat == [dbstat[0]] + dbstat[1..];
    }
  }

  /** The SELECT of `_extract_sqlite_stats` for one object. */
  function ExtractSums(dbstat: seq<Page>, name: string): PageSums
  {
    Reduce(ObjectPages(dbstat, name))
  }

  // ---- Algebra of the fold ----

  lemma AddLaws(a: PageSums, b: PageSums, c: PageSums)
    ensures Add(a, NoPages) == a && Add(NoPages, a) == a
    ensures Add(a, b) == Add(b, a)
    ensures Add(Add(a, b), c) == Add(a, Add(b, c))
  {
  }

  /** Reducing a concatenation combines the reductions of the parts. */
  lemma {:induction false} ReduceAppend(a: seq<Page>, b: seq<Page>)
    ensures Reduce(a + b) == Add(Reduce(a), Reduce(b))
  {
    if a == [] {
      assert a + b == b;
      AddLaws(Reduce(b), Reduce(b), Reduce(b));
    } else {
      assert (a + b)[1..] == a[1..] + b;
      ReduceAppend(a[1..], b);
      AddLaws(PageRow(a[0]), Reduce(a[1..]), Reduce(b));
    }
  }

  /** Taking one page out of the list takes its row out of the reduction. */
  lemma ReduceRemove(b: seq<Page>, j: nat)
    requires j < |b|
    ensures Reduce(b) == Add(PageRow(b[j]), Reduce(b[..j] + b[j + 1..]))
  {
    var tail := [b[j]] + b[j + 1..];
    assert tail[1..] == b[j + 1..];
    assert b[..j] + tail == b;
    var x, y, z := Reduce(b[..j]), PageRow(b[j]), Reduce(b[j + 1..]);
    assert Reduce(tail) == Add(y, z);
    ReduceAppend(b[..j], tail);
    ReduceAppend(b[..j], b[j + 1..]);
    AddLaws(x, y, z);
    AddLaws(y, x, z);
    calc {
      Reduce(b);
      Add(x, Add(y, z));
      Add(Add(y, x), z);
      Add(y, Add(x, z));
    }
  }

  /** The reduction does not depend on the order DBSTAT returns the rows in. */
  lemma {:induction false} ReducePermutation(a: seq<Page>, b: seq<Page>)
    requires multiset(a) == multiset(b)
    ensures Reduce(a) == Reduce(b)
  {
    if a == [] {
      assert |b| == |multiset(b)| == 0;
    } else {
      assert a[0] in multiset(b);
      var j :| 0 <= j < |b| && b[j] == a[0];
      var rest := b[..j] + b[j + 1..];
      assert b == b[..j] + [b[j]] + b[j + 1..];
      assert a == [a[0]] + a[1..];
      assert multiset(a[1..]) == multiset(a) - multiset{a[0]};
      assert multiset(rest) == multiset(b) - multiset{b[j]};
      ReducePermutation(a[1..], rest);
      ReduceRemove(b, j);
    }
  }

  // ---- What the columns mean ----

  /** Every page is internal, leaf or overflow, so the three page counts add up to the number of pages. */
  lemma {:induction false} PageTypeCounts(ps: seq<Page>)
    ensures Reduce(ps).intPages + Reduce(ps).leafPages + Reduce(ps).ovflPages == |ps|
  {
    if ps != [] {
      PageTypeCounts(ps[1..]);
    }
  }

  /** Leaf entries are some of all entries; overflow payload is some of all payload. */
  lemma {:induction false} EntryAndPayloadBounds(ps: seq<Page>)
    ensures Reduce(ps).leafEntries <= Reduce(ps).nentry
    ensures Reduce(ps).ovflPayload <= Reduce(ps).payload
    ensures Reduce(ps).intUnused + Reduce(ps).leafUnused + Reduce(ps).ovflUnused == TotalUnused(ps)
  {
    if ps != [] {
      EntryAndPayloadBounds(ps[1..]);
    }
  }

  /** Sum of the unused bytes of every page, whatever its type. */
  function TotalUnused(ps: seq<Page>): nat
  {
    if ps == [] then 0 else ps[0].unused + TotalUnused(ps[1..])
  }

  /** The pages whose path marks the first page of an overflow chain. */
  function OverflowChainStarts(ps: seq<Page>): (r: seq<Page>)
    ensures forall p :: p in r <==> p in ps && HasSuffix(p.path, "+000000")
  {
    if ps == [] then []
    else
      var rest := OverflowChainStarts(ps[1..]);
      assert forall p :: p in ps <==> p == ps[0] || p in ps[1..];
      if HasSuffix(ps[0].path, "+000000") then [ps[0]] + rest else rest
  }

  /** Every chain-starting page is kept as often as it occurs, and no other page. */
  lemma {:induction false} OverflowChainStartsMultiset(ps: seq<Page>)
    ensures forall p :: multiset(OverflowChainStarts(ps))[p]
                     == if HasSuffix(p.path, "+000000") then multiset(ps)[p] else 0
  {
    if ps != [] {
      OverflowChainStartsMultiset(ps[1..]);
      assert ps == [ps[0]] + ps[1..];
    }
  }

  /** `ovfl_cnt` counts the pages whose path ends in `+000000`. */
  lemma {:induction false} OverflowCount(ps: seq<Page>)
    ensures Reduce(ps).ovflCnt == |OverflowChainStarts(ps)|
  {
    if ps != [] {
      OverflowStartPattern(ps[0].path);
      OverflowCount(ps[1..]);
    }
  }

  /** The depth of the tree a path reaches: four characters per level; overflow paths count as 0. */
  function TreeDepth(path: string): nat
  {
    if '+' in path then 0 else (|path| + 3) / 4
  }

  /** `depth` and `mx_payload` are the maxima over the pages (0 for no pages). */
  lemma {:induction false} MaxColumns(ps: seq<Page>)
    ensures forall i :: 0 <= i < |ps| ==> TreeDepth(ps[i].path) <= Reduce(ps).depth
    ensures forall i :: 0 <= i < |ps| ==> ps[i].mxPayload <= Reduce(ps).mxPayload
    ensures ps == [] ==> Reduce(ps).depth == 0 && Reduce(ps).mxPayload == 0
    ensures ps != [] ==> exists i :: 0 <= i < |ps| && Reduce(ps).depth == TreeDepth(ps[i].path)
    ensures ps != [] ==> exists i :: 0 <= i < |ps| && Reduce(ps).mxPayload == ps[i].mxPayload
  {
    if ps != [] {
      ContainsPlusPattern(ps[0].path);
      assert DepthTerm(ps[0].path) == TreeDepth(ps[0].path);
      MaxColumns(ps[1..]);
      var r := Reduce(ps[1..]);
      forall i | 0 < i < |ps|
        ensures TreeDepth(ps[i].path) <= r.depth && ps[i].mxPayload <= r.mxPayload
      {
        assert ps[i] == ps[1..][i - 1];
      }
      if ps[1..] != [] {
        var j :| 0 <= j < |ps[1..]| && r.depth == TreeDepth(ps[1..][j].path);
        var k :| 0 <= k < |ps[1..]| && r.mxPayload == ps[1..][k].mxPayload;
        assert ps[1..][j] == ps[j + 1] && ps[1..][k] == ps[k + 1];
      }
    }
  }

  /** The reduction for one object: its three page counts add up to the number of its pages. */
  lemma ExtractSumsPageCount(dbstat: seq<Page>, name: string)
    ensures var s := ExtractSums(dbstat, name);
      s.intPages + s.leafPages + s.ovflPages == |ObjectPages(dbstat, name)|
  {
    PageTypeCounts(ObjectPages(dbstat, name));
  }

  /**
    `compressed_size` sums the on-disk sizes: it is at most pages x page
    size when no page takes more than a page on disk, and exactly that
    when every page takes a full page.
  */
  lemma {:induction false} CompressedSizeBound(ps: seq<Page>, pageSize: nat)
    ensures (forall i :: 0 <= i < |ps| ==> ps[i].pgsize <= pageSize) ==>
      Reduce(ps).compressedSize <= |ps| * pageSize
    ensures (forall i :: 0 <= i < |ps| ==> ps[i].pgsize == pageSize) ==>
      Reduce(ps).compressedSize == |ps| * pageSize
  {
    if ps != [] {
      assert forall i :: 1 <= i < |ps| ==> ps[1..][i - 1] == ps[i];
      CompressedSizeBound(ps[1..], pageSize);
      MulSucc(|ps[1..]|, pageSize);
    }
  }

  lemma MulSucc(n: nat, k: nat)
    ensures (n + 1) * k == n * k + k
  {
  }
}
