/** Ordered result lists: `ORDER BY title ASC` as a stable insertion sort and
    `WHERE` as a filter, with the lemmas that let the store's queries be
    compared with one another. */
module Listing {
  import opened Snippets
  import TitleOrder

  predicate SortedByTitle(xs: seq<Summary>) {
    forall i, j :: 0 <= i < j < |xs| ==> TitleOrder.Le(xs[i].title, xs[j].title)
  }

  /** `h` sorts at or before every entry of `ys`. */
  predicate AtOrBeforeAll(h: Summary, ys: seq<Summary>) {
    forall z :: z in ys ==> TitleOrder.Le(h.title, z.title)
  }

  lemma ConsSorted(h: Summary, ys: seq<Summary>)
    requires SortedByTitle(ys) && AtOrBeforeAll(h, ys)
    ensures SortedByTitle([h] + ys)
  {
    var r := [h] + ys;
    forall i, j | 0 <= i < j < |r| ensures TitleOrder.Le(r[i].title, r[j].title) {
      if i == 0 {
        assert r[j] == ys[j - 1];
      } else {
        assert r[i] == ys[i - 1] && r[j] == ys[j - 1];
      }
    }
  }

  /** In a sorted list the head sorts at or before everything after it. */
  lemma HeadFirst(ys: seq<Summary>)
    requires |ys| > 0 && SortedByTitle(ys)
    ensures AtOrBeforeAll(ys[0], ys)
  {
    forall z | z in ys ensures TitleOrder.Le(ys[0].title, z.title) {
      var k :| 0 <= k < |ys| && ys[k] == z;
      if k == 0 {
        TitleOrder.LeReflexive(z.title);
      }
    }
  }

  /** Whatever sorts at or before the head of a sorted list sorts at or before all of it. */
  lemma BeforeHeadBeforeAll(x: Summary, ys: seq<Summary>)
    requires |ys| > 0 && SortedByTitle(ys) && TitleOrder.Le(x.title, ys[0].title)
    ensures AtOrBeforeAll(x, ys)
  {
    HeadFirst(ys);
    forall z | z in ys ensures TitleOrder.Le(x.title, z.title) {
      TitleOrder.LeTransitive(x.title, ys[0].title, z.title);
    }
  }

  /** Inserts `x` before the first entry it sorts at or before, so `x` comes
      first among entries with an equal title. */
  function InsertByTitle(x: Summary, ys: seq<Summary>): (r: seq<Summary>)
    requires SortedByTitle(ys)
    ensures multiset(r) == multiset(ys) + multiset{x}
    ensures SortedByTitle(r)
  {
    if |ys| == 0 then [x]
    else if TitleOrder.Le(x.title, ys[0].title) then
      BeforeHeadBeforeAll(x, ys);
      ConsSorted(x, ys);
      [x] + ys
    else
      var rest := InsertByTitle(x, ys[1..]);
      assert ys == [ys[0]] + ys[1..];
      assert AtOrBeforeAll(ys[0], rest) by {
        HeadFirst(ys);
        TitleOrder.LeTotal(x.title, ys[0].title);
        forall z | z in rest ensures TitleOrder.Le(ys[0].title, z.title) {
          assert z in multiset(rest);
          if z != x {
            assert z in multiset(ys[1..]);
          }
        }
      }
      ConsSorted(ys[0], rest);
      [ys[0]] + rest
  }

  /** `ORDER BY title ASC` on a list given in rowid order. The head is
      inserted last, in front of its equal titles, so ties keep rowid order. */
  function SortByTitle(xs: seq<Summary>): (r: seq<Summary>)
    ensures multiset(r) == multiset(xs)
    ensures |r| == |xs|
    ensures SortedByTitle(r)
  {
    if |xs| == 0 then []
    else
      assert xs == [xs[0]] + xs[1..];
      InsertByTitle(xs[0], SortByTitle(xs[1..]))
  }

  /** `WHERE p`: the entries satisfying `p`, in their original order. */
  function Filter(xs: seq<Summary>, p: Summary -> bool): (r: seq<Summary>)
    ensures forall z :: z in r <==> z in xs && p(z)
    ensures |r| <= |xs|
    ensures SortedByTitle(xs) ==> SortedByTitle(r)
  {
    if |xs| == 0 then []
    else
      var rest := Filter(xs[1..], p);
      if p(xs[0]) then
        assert SortedByTitle(xs) ==> SortedByTitle([xs[0]] + rest) by {
          if SortedByTitle(xs) {
            HeadFirst(xs);
            assert forall z :: z in rest ==> z in xs;
            ConsSorted(xs[0], rest);
          }
        }
        [xs[0]] + rest
      else
        rest
  }

  /** `WHERE p` keeps each satisfying entry as often as it occurs and drops the rest. */
  lemma {:induction false} FilterMultiplicity(xs: seq<Summary>, p: Summary -> bool)
    ensures forall z :: multiset(Filter(xs, p))[z] == if p(z) then multiset(xs)[z] else 0
    decreases |xs|
  {
    if |xs| > 0 {
      FilterMultiplicity(xs[1..], p);
      assert xs == [xs[0]] + xs[1..];
    }
  }

  lemma FilterCons(x: Summary, ys: seq<Summary>, p: Summary -> bool)
    ensures Filter([x] + ys, p) == (if p(x) then [x] else []) + Filter(ys, p)
  {
    assert ([x] + ys)[1..] == ys;
  }

  lemma SortCons(x: Summary, ys: seq<Summary>)
    ensures SortByTitle([x] + ys) == InsertByTitle(x, SortByTitle(ys))
  {
    assert ([x] + ys)[1..] == ys;
  }

  /** Filtering after an insertion is inserting into the filtered list. */
  lemma {:induction false} FilterInsert(x: Summary, ys: seq<Summary>, p: Summary -> bool)
    requires SortedByTitle(ys)
    ensures Filter(InsertByTitle(x, ys), p)
         == if p(x) then InsertByTitle(x, Filter(ys, p)) else Filter(ys, p)
    decreases |ys|
  {
    if |ys| == 0 {
    } else if TitleOrder.Le(x.title, ys[0].title) {
      FilterCons(x, ys, p);
      var f := Filter(ys, p);
      if p(x) && |f| > 0 {
        BeforeHeadBeforeAll(x, ys);
        assert f[0] in ys;
      }
    } else {
      assert ys == [ys[0]] + ys[1..];
      FilterInsert(x, ys[1..], p);
      FilterCons(ys[0], InsertByTitle(x, ys[1..]), p);
      FilterCons(ys[0], ys[1..], p);
    }
  }

  /** Sorting and filtering commute: a filtered sorted list is the sorted
      filtered list, in the same order. */
  lemma {:induction false} SortFilterCommute(xs: seq<Summary>, p: Summary -> bool)
    ensures SortByTitle(Filter(xs, p)) == Filter(SortByTitle(xs), p)
    decreases |xs|
  {
    if |xs| > 0 {
      assert xs == [xs[0]] + xs[1..];
      SortFilterCommute(xs[1..], p);
      FilterInsert(xs[0], SortByTitle(xs[1..]), p);
      FilterCons(xs[0], xs[1..], p);
      if p(xs[0]) {
        SortCons(xs[0], Filter(xs[1..], p));
      }
    }
  }

  /** A filter every entry passes changes nothing. */
  lemma {:induction false} FilterAll(xs: seq<Summary>, p: Summary -> bool)
    requires forall z :: z in xs ==> p(z)
    ensures Filter(xs, p) == xs
    decreases |xs|
  {
    if |xs| > 0 {
      FilterAll(xs[1..], p);
      assert xs == [xs[0]] + xs[1..];
    }
  }

  /** Two filters in a row are one filter on the conjunction. */
  lemma {:induction false} FilterTwice(xs: seq<Summary>, p: Summary -> bool, q: Summary -> bool, pq: Summary -> bool)
    requires forall z :: pq(z) == (p(z) && q(z))
    ensures Filter(Filter(xs, p), q) == Filter(xs, pq)
    decreases |xs|
  {
    if |xs| > 0 {
      FilterTwice(xs[1..], p, q, pq);
      if p(xs[0]) {
        FilterCons(xs[0], Filter(xs[1..], p), q);
      }
    }
  }

  /** Number of entries carrying `id`. */
  function CountId(xs: seq<Summary>, id: int): nat {
    if |xs| == 0 then 0 else (if xs[0].id == id then 1 else 0) + CountId(xs[1..], id)
  }

  /** Filtering never lists an id more often than the input does. */
  lemma {:induction false} CountFilter(xs: seq<Summary>, p: Summary -> bool, id: int)
    ensures CountId(Filter(xs, p), id) <= CountId(xs, id)
    decreases |xs|
  {
    if |xs| > 0 {
      CountFilter(xs[1..], p, id);
      if p(xs[0]) {
        assert ([xs[0]] + Filter(xs[1..], p))[1..] == Filter(xs[1..], p);
      }
    }
  }

  lemma {:induction false} CountInsert(x: Summary, ys: seq<Summary>, id: int)
    requires SortedByTitle(ys)
    ensures CountId(InsertByTitle(x, ys), id) == CountId(ys, id) + (if x.id == id then 1 else 0)
    decreases |ys|
  {
    if |ys| == 0 {
    } else if TitleOrder.Le(x.title, ys[0].title) {
      assert ([x] + ys)[1..] == ys;
    } else {
      CountInsert(x, ys[1..], id);
      var rest := InsertByTitle(x, ys[1..]);
      assert ([ys[0]] + rest)[1..] == rest;
    }
  }

  /** Sorting neither drops nor duplicates an id. */
  lemma {:induction false} CountSort(xs: seq<Summary>, id: int)
    ensures CountId(SortByTitle(xs), id) == CountId(xs, id)
    decreases |xs|
  {
    if |xs| > 0 {
      CountSort(xs[1..], id);
      CountInsert(xs[0], SortByTitle(xs[1..]), id);
    }
  }
}
