/**
  Gap counting (`_count_gaps`): the pages of one object are visited in
  ascending page-number order and every leaf page whose number does not
  follow the previously visited page's number counts as a gap.
*/
module Gaps {
  import opened DbStat

  /** Each page's number is at least its predecessor's. */
  predicate SortedByPageno(ps: seq<Page>)
  {
    forall i :: 1 <= i < |ps| ==> ps[i - 1].pageno <= ps[i].pageno
  }

  /** Inserts `p` before the first page with a number at least as large. */
  function InsertByPageno(p: Page, ps: seq<Page>): seq<Page>
  {
    if ps == [] then [p]
    else if p.pageno <= ps[0].pageno then [p] + ps
    else [ps[0]] + InsertByPageno(p, ps[1..])
  }

  lemma {:induction false} InsertByPagenoMultiset(p: Page, ps: seq<Page>)
    ensures multiset(InsertByPageno(p, ps)) == multiset(ps) + multiset{p}
  {
    if ps != [] && p.pageno > ps[0].pageno {
      InsertByPagenoMultiset(p, ps[1..]);
      assert ps == [ps[0]] + ps[1..];
    }
  }

  lemma {:induction false} InsertByPagenoSorted(p: Page, ps: seq<Page>)
    requires SortedByPageno(ps)
    ensures SortedByPageno(InsertByPageno(p, ps))
    ensures InsertByPageno(p, ps)[0] == if ps == [] || p.pageno <= ps[0].pageno then p else ps[0]
  {
    if ps != [] && p.pageno > ps[0].pageno {
      var tail := ps[1..];
      assert SortedByPageno(tail) by {
        forall i | 1 <= i < |tail| ensures tail[i - 1].pageno <= tail[i].pageno {
          assert tail[i - 1] == ps[i] && tail[i] == ps[i + 1];
        }
      }
      InsertByPagenoSorted(p, tail);
      var rest := InsertByPageno(p, tail);
      assert tail != [] ==> tail[0] == ps[1];
      var r := [ps[0]] + rest;
      forall i | 1 <= i < |r|
        ensures r[i - 1].pageno <= r[i].pageno
      {
        if i > 1 {
          assert r[i - 1] == rest[i - 2] && r[i] == rest[i - 1];
        }
      }
    } else if ps != [] {
      var r := [p] + ps;
      forall i | 1 <= i < |r|
        ensures r[i - 1].pageno <= r[i].pageno
      {
        if i > 1 {
          assert r[i - 1] == ps[i - 2] && r[i] == ps[i - 1];
        }
      }
    }
  }

  /** `ORDER BY pageno`: the same pages, in ascending page-number order. */
  function OrderByPageno(ps: seq<Page>): (r: seq<Page>)
    ensures SortedByPageno(r)
    ensures multiset(r) == multiset(ps)
    ensures |r| == |ps|
  {
    if ps == [] then []
    else
      assert ps == [ps[0]] + ps[1..];
      var sortedRest := OrderByPageno(ps[1..]);
      InsertByPagenoSorted(ps[0], sortedRest);
      InsertByPagenoMultiset(ps[0], sortedRest);
      var r := InsertByPageno(ps[0], sortedRest);
      assert |r| == |multiset(r)|;
      r
  }

  /** Gaps among `ps` when the page visited just before them is `previousPage` (0: none yet). */
  function GapsAfter(ps: seq<Page>, previousPage: nat): nat
  {
    if ps == [] then 0
    else
      var p := ps[0];
      Ind(previousPage > 0 && p.pagetype == Leaf && p.pageno != previousPage + 1)
        + GapsAfter(ps[1..], p.pageno)
  }

  /** The gap count of pages visited in the given order, starting with no previous page. */
  function GapCount(ps: seq<Page>): nat
  {
    GapsAfter(ps, 0)
  }

  /** `_count_gaps` over the object's pages, already in the order the query returns them. */
  method CountGaps(pages: seq<Page>) returns (gapCount: nat)
    ensures gapCount == GapCount(pages)
  {
    gapCount := 0;
    var previousPage: nat := 0;
    var i := 0;
    while i < |pages|
      invariant 0 <= i <= |pages|
      invariant gapCount + GapsAfter(pages[i..], previousPage) == GapCount(pages)
    {
      var page := pages[i];
      assert pages[i..][1..] == pages[i + 1..];
      if previousPage > 0 && page.pagetype == Leaf && page.pageno != previousPage + 1 {
        gapCount := gapCount + 1;
      }
      previousPage := page.pageno;
      i := i + 1;
    }
  }

  /** The pages of one object as the gap query returns them: `WHERE name=... ORDER BY pageno`. */
  function PagesByPageno(dbstat: seq<Page>, name: string): seq<Page>
  {
    OrderByPageno(ObjectPages(dbstat, name))
  }

  // ---- Properties ----

  /** Position `i` is a gap: a leaf page whose predecessor in the order is a real page not numbered one less. */
  predicate IsGap(ps: seq<Page>, i: nat)
    requires 1 <= i < |ps|
  {
    ps[i - 1].pageno > 0 && ps[i].pagetype == Leaf && ps[i].pageno != ps[i - 1].pageno + 1
  }

  /** The number of gap positions in `i..|ps|`. */
  function GapPositionsFrom(ps: seq<Page>, i: nat): nat
    requires 1 <= i <= |ps|
    decreases |ps| - i
  {
    if i == |ps| then 0 else Ind(IsGap(ps, i)) + GapPositionsFrom(ps, i + 1)
  }

  lemma {:induction false} GapsAfterPositions(ps: seq<Page>, i: nat)
    requires 1 <= i <= |ps|
    ensures GapsAfter(ps[i..], ps[i - 1].pageno) == GapPositionsFrom(ps, i)
    decreases |ps| - i
  {
    if i < |ps| {
      assert ps[i..][1..] == ps[i + 1..];
      GapsAfterPositions(ps, i + 1);
    }
  }

  /**
    The first page never counts, and the count is the number of positions
    after the first that hold a gap.
  */
  lemma GapCountIsGapPositions(ps: seq<Page>)
    requires ps != []
    ensures GapCount(ps) == GapsAfter(ps[1..], ps[0].pageno)
    ensures GapCount(ps) == GapPositionsFrom(ps, 1)
  {
    GapsAfterPositions(ps, 1);
  }

  /** Only leaf pages count, so the count is at most the number of leaf pages after the first. */
  lemma {:induction false} GapsAfterAtMostLeaves(ps: seq<Page>, previousPage: nat)
    ensures GapsAfter(ps, previousPage) <= Reduce(ps).leafPages
  {
    if ps != [] {
      GapsAfterAtMostLeaves(ps[1..], ps[0].pageno);
    }
  }

  lemma GapCountBound(ps: seq<Page>)
    requires ps != []
    ensures GapCount(ps) <= Reduce(ps[1..]).leafPages
    ensures GapCount(ps) <= |ps| - 1
  {
    GapsAfterAtMostLeaves(ps[1..], ps[0].pageno);
    PageTypeCounts(ps[1..]);
  }

  predicate Consecutive(ps: seq<Page>)
  {
    forall i :: 1 <= i < |ps| ==> ps[i].pageno == ps[i - 1].pageno + 1
  }

  lemma {:induction false} ConsecutiveGapsAfter(ps: seq<Page>, previousPage: nat)
    requires Consecutive(ps)
    requires ps != [] ==> previousPage == 0 || ps[0].pageno == previousPage + 1
    ensures GapsAfter(ps, previousPage) == 0
  {
    if ps != [] {
      assert Consecutive(ps[1..]) by {
        forall i | 1 <= i < |ps[1..]| ensures ps[1..][i].pageno == ps[1..][i - 1].pageno + 1 {
          assert ps[1..][i] == ps[i + 1] && ps[1..][i - 1] == ps[i];
        }
      }
      if |ps| > 1 {
        assert ps[1..][0] == ps[1];
      }
      ConsecutiveGapsAfter(ps[1..], ps[0].pageno);
    }
  }

  /** Consecutively numbered pages have no gaps. */
  lemma ConsecutiveNoGaps(ps: seq<Page>)
    requires Consecutive(ps)
    ensures GapCount(ps) == 0
  {
    ConsecutiveGapsAfter(ps, 0);
  }

  function LeafPage(name: string, pageno: nat): Page
  {
    Page(name, "/", pageno, Leaf, 1, 0, 0, 0, 0, 0)
  }

  function InternalPage(name: string, pageno: nat): Page
  {
    Page(name, "/", pageno, Internal, 1, 0, 0, 0, 0, 0)
  }

  /** Leaf pages 5, 6, 9 have a single break; 5, 6, 7 have none. */
  lemma GapExamples(n: string)
    ensures GapCount([LeafPage(n, 5), LeafPage(n, 6), LeafPage(n, 9)]) == 1
    ensures GapCount([LeafPage(n, 5), LeafPage(n, 6), LeafPage(n, 7)]) == 0
  {
    var a := [LeafPage(n, 5), LeafPage(n, 6), LeafPage(n, 9)];
    assert a[1..] == [LeafPage(n, 6), LeafPage(n, 9)] && a[1..][1..] == [LeafPage(n, 9)];
    assert GapsAfter([LeafPage(n, 9)], 6) == 1;
    assert GapsAfter(a[1..], 5) == 1;
    var b := [LeafPage(n, 5), LeafPage(n, 6), LeafPage(n, 7)];
    assert b[1..] == [LeafPage(n, 6), LeafPage(n, 7)] && b[1..][1..] == [LeafPage(n, 7)];
    assert GapsAfter([LeafPage(n, 7)], 6) == 0;
    assert GapsAfter(b[1..], 5) == 0;
  }

  /**
    The previous page is updated on every page, not only on leaves: an
    internal page numbered between two leaves closes the gap between them.
  */
  lemma NonLeafPagesAffectGaps(n: string)
    ensures GapCount([LeafPage(n, 5), LeafPage(n, 7)]) == 1
    ensures GapCount([LeafPage(n, 5), InternalPage(n, 6), LeafPage(n, 7)]) == 0
  {
    var a := [LeafPage(n, 5), LeafPage(n, 7)];
    assert a[1..] == [LeafPage(n, 7)];
    assert GapsAfter([LeafPage(n, 7)], 5) == 1;
    var b := [LeafPage(n, 5), InternalPage(n, 6), LeafPage(n, 7)];
    assert b[1..] == [InternalPage(n, 6), LeafPage(n, 7)] && b[1..][1..] == [LeafPage(n, 7)];
    assert GapsAfter([LeafPage(n, 7)], 6) == 0;
    assert GapsAfter(b[1..], 5) == 0;
  }
}
