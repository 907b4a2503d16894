/** Pagination of an ordered listing into pages of `PAGINATE_BY` items (`posts/utils.py`). */
module Pagination {
  import opened Wrappers

  /** Items per page, for every paginated listing. */
  const PAGINATE_BY: nat := 10

  /** The number of pages the paginator reports for `n` items: the
      ceiling of `n / PAGINATE_BY`, and one (empty) page when there are
      no items at all. */
  function PageCount(n: nat): (c: nat)
    ensures c >= 1
    ensures n == 0 ==> c == 1
    ensures n <= c * PAGINATE_BY
    ensures n == 0 || (c - 1) * PAGINATE_BY < n
  {
    if n <= PAGINATE_BY then 1 else 1 + PageCount(n - PAGINATE_BY)
  }

  /** A page number the paginator serves without clamping. */
  predicate ValidPage(n: nat, k: nat)
  {
    1 <= k <= PageCount(n)
  }

  /** The request's optional `page` parameter, when present, names a served page. */
  predicate ValidPageParam(n: nat, page: Option<nat>)
  {
    page.Some? ==> ValidPage(n, page.value)
  }

  /** Page `k` (1-based): the items at positions
      `[(k - 1) * PAGINATE_BY, min(k * PAGINATE_BY, n))` of the listing. */
  function Page<T>(items: seq<T>, k: nat): (r: seq<T>)
    requires ValidPage(|items|, k)
    ensures |r| <= PAGINATE_BY
    ensures k < PageCount(|items|) ==> |r| == PAGINATE_BY
    ensures |items| > 0 ==> |r| > 0
    ensures (k - 1) * PAGINATE_BY + |r| == if k * PAGINATE_BY < |items| then k * PAGINATE_BY else |items|
    ensures forall i :: 0 <= i < |r| ==> r[i] == items[(k - 1) * PAGINATE_BY + i]
  {
    var lo := (k - 1) * PAGINATE_BY;
    var hi := if k * PAGINATE_BY < |items| then k * PAGINATE_BY else |items|;
    items[lo..hi]
  }

  /** The page number a request asks for: its `page` parameter, or 1 when it has none. */
  function PageNumber(page: Option<nat>): nat
  {
    if page.Some? then page.value else 1
  }

  /** `r` is the page the request asks for: the items of `items` from
      position `(k - 1) * PAGINATE_BY` on, in order, as many as remain up
      to `PAGINATE_BY`. */
  ghost predicate IsPageOf<T>(r: seq<T>, items: seq<T>, page: Option<nat>)
  {
    var lo := (PageNumber(page) - 1) * PAGINATE_BY;
    && PageNumber(page) >= 1
    && lo + |r| == (if lo + PAGINATE_BY < |items| then lo + PAGINATE_BY else |items|)
    && forall i :: 0 <= i < |r| ==> r[i] == items[lo + i]
  }

  /** `paginate(request, items, PAGINATE_BY)`: the page named by the
      request's `page` parameter, or the first page when it is absent. */
  function Paginate<T>(items: seq<T>, page: Option<nat>): (r: seq<T>)
    requires ValidPageParam(|items|, page)
    ensures |r| <= PAGINATE_BY
    ensures page.None? ==> r == Page(items, 1)
    ensures page.Some? ==> r == Page(items, page.value)
    ensures IsPageOf(r, items, page)
  {
    Page(items, PageNumber(page))
  }

  /** The concatenation of a sequence of pages. */
  function Flatten<T>(pages: seq<seq<T>>): seq<T>
  {
    if pages == [] then [] else Flatten(pages[..|pages| - 1]) + pages[|pages| - 1]
  }

  /** Pages 1 to `k` of a listing, in order. */
  function Pages<T>(items: seq<T>, k: nat): (r: seq<seq<T>>)
    requires k <= PageCount(|items|)
    ensures |r| == k
  {
    if k == 0 then [] else Pages(items, k - 1) + [Page(items, k)]
  }

  /** The first `k` pages, concatenated, are the listing's first
      `min(k * PAGINATE_BY, n)` items: no item is lost or repeated. */
  lemma {:induction false} PagesPrefix<T>(items: seq<T>, k: nat)
    requires k <= PageCount(|items|)
    ensures Flatten(Pages(items, k)) == items[..if k * PAGINATE_BY < |items| then k * PAGINATE_BY else |items|]
  {
    if k > 0 {
      var lo := (k - 1) * PAGINATE_BY;
      var hi := if k * PAGINATE_BY < |items| then k * PAGINATE_BY else |items|;
      var prev := Pages(items, k - 1);
      PagesPrefix(items, k - 1);
      FlattenSnoc(prev, Page(items, k));
      SlicesJoin(items, lo, hi);
    }
  }

  /** Flattening after appending one page appends that page. */
  lemma FlattenSnoc<T>(pages: seq<seq<T>>, p: seq<T>)
    ensures Flatten(pages + [p]) == Flatten(pages) + p
  {
    assert (pages + [p])[..|pages|] == pages;
  }

  /** Two adjacent slices of a listing join into its prefix. */
  lemma SlicesJoin<T>(items: seq<T>, lo: nat, hi: nat)
    requires lo <= hi <= |items|
    ensures items[..lo] + items[lo..hi] == items[..hi]
  {
  }

  /** All pages concatenated give back the whole listing. */
  lemma AllPagesConcat<T>(items: seq<T>)
    ensures Flatten(Pages(items, PageCount(|items|))) == items
  {
    PagesPrefix(items, PageCount(|items|));
    assert items[..|items|] == items;
  }

  /** Every page but the last is full; the last holds `n mod PAGINATE_BY`
      items, or a full page when that is zero. */
  lemma LastPageSize<T>(items: seq<T>)
    requires |items| > 0
    ensures |Page(items, PageCount(|items|))|
            == if |items| % PAGINATE_BY == 0 then PAGINATE_BY else |items| % PAGINATE_BY
  {
    var c := PageCount(|items|);
    var m := |items| - (c - 1) * PAGINATE_BY;
    assert 0 < m <= PAGINATE_BY;
    assert |Page(items, c)| == m;
    OffsetMod(c - 1, m);
  }

  /** `(q * PAGINATE_BY + m) mod PAGINATE_BY` for `0 < m <= PAGINATE_BY`. */
  lemma OffsetMod(q: nat, m: nat)
    requires 0 < m <= PAGINATE_BY
    ensures (q * PAGINATE_BY + m) % PAGINATE_BY == if m == PAGINATE_BY then 0 else m
  {
    if m == PAGINATE_BY {
      assert q * PAGINATE_BY + m == (q + 1) * PAGINATE_BY;
    }
  }

  /** Thirteen items give a first page of ten and a second page of three. */
  lemma ThirteenItems<T>(items: seq<T>)
    requires |items| == 13
    ensures PageCount(|items|) == 2
    ensures |Paginate(items, None)| == 10 && |Paginate(items, Some(2))| == 3
  {
    LastPageSize(items);
  }

  /** The first item of the first page is the first item of the listing. */
  lemma FirstPageStartsListing<T>(items: seq<T>)
    requires |items| > 0
    ensures |Paginate(items, None)| > 0 && Paginate(items, None)[0] == items[0]
  {
  }

  /** Every item of a listing is on a page the paginator serves: item `j`
      is item `j mod PAGINATE_BY` of page `j / PAGINATE_BY + 1`. */
  lemma ItemOnSomePage<T>(items: seq<T>, j: nat)
    requires j < |items|
    ensures ValidPageParam(|items|, Some(j / PAGINATE_BY + 1))
    ensures j % PAGINATE_BY < |Paginate(items, Some(j / PAGINATE_BY + 1))|
    ensures Paginate(items, Some(j / PAGINATE_BY + 1))[j % PAGINATE_BY] == items[j]
  {
    var c := PageCount(|items|);
    assert (j / PAGINATE_BY) * PAGINATE_BY + j % PAGINATE_BY == j;
    assert (j / PAGINATE_BY) * PAGINATE_BY < c * PAGINATE_BY;
  }

  /** A page holds only items of its listing. */
  lemma PageWithin<T>(items: seq<T>, page: Option<nat>)
    requires ValidPageParam(|items|, page)
    ensures forall x :: x in Paginate(items, page) ==> x in items
  {
    var r := Paginate(items, page);
    forall x | x in r ensures x in items {
      var i :| 0 <= i < |r| && r[i] == x;
      assert r[i] == items[(PageNumber(page) - 1) * PAGINATE_BY + i];
    }
  }

  /** Every item of a listing is on some page the paginator serves. */
  lemma OnSomePage<T>(items: seq<T>, x: T)
    requires x in items
    ensures exists k: nat :: ValidPage(|items|, k) && x in Paginate(items, Some(k))
  {
    var j :| 0 <= j < |items| && items[j] == x;
    ItemOnSomePage(items, j);
    var page := Paginate(items, Some(j / PAGINATE_BY + 1));
    assert page[j % PAGINATE_BY] in page;
  }
}
