/** The `/blog` page load: nine published posts per page, most recently
    published first. It never fails: a query that throws becomes an empty
    page carrying an error string, so the page still renders. */
module BlogPage {
  import opened Options
  import opened Numbers
  import opened Query
  import opened Records
  import opened Paging
  import Blogs

  /** Fixed; the query string has no say. */
  const LIMIT := 9

  function PageOf(q: SearchParams): int { q.page.GetOr(1) }

  /** The page data when a query throws. Page data has no HTTP status; the
      page renders as usual, written here as 200. */
  const FALLBACK: Response<Blog> :=
    Response(200, None, [], Some(Pagination(1, LIMIT, 0, 0)), Some("Failed to load blogs"))

  /** Posts are listed as stored, without the image normalisation of the
      JSON endpoint. */
  function Load(store: Store<Blog>, q: SearchParams): (r: Response<Blog>)
    ensures r.status == 200 && r.pagination.Some? && r.pagination.value.limit == LIMIT
    ensures r.error.None? <==> store.Online? && PageOf(q) >= 1
    ensures r.error.Some? ==> r == FALLBACK
  {
    match ListPage(store, Blogs.Published, Blogs.PublishedLater, PageOf(q), LIMIT)
    case None => FALLBACK
    case Some(l) => Response(200, None, l.items, Some(l.pagination), None)
  }

  /** The `limit` parameter is ignored: two requests for the same page get
      the same answer. */
  lemma LimitParameterIgnored(store: Store<Blog>, q1: SearchParams, q2: SearchParams)
    requires q1.page == q2.page
    ensures Load(store, q1) == Load(store, q2)
  {
  }

  /** A served page: the nine-per-page window of the published posts, newest
      first, with `totalPages = ceil(totalItems / 9)`. */
  lemma LoadServesPage(rows: seq<Blog>, q: SearchParams)
    requires PageOf(q) >= 1
    ensures var r := Load(Online(rows), q);
      var page := PageOf(q);
      var total := |Filter(rows, Blogs.Published)|;
      && r.error.None?
      && r.pagination == Some(Pagination(page, LIMIT, total, CeilDiv(total, LIMIT)))
      && (forall b :: b in r.items ==> b in rows && b.published)
      && Sorted(r.items, Blogs.PublishedLater)
      && |r.items| == Min(LIMIT, Max(0, total - (page - 1) * LIMIT))
      && (r.items == [] <==> page > CeilDiv(total, LIMIT))
  {
    Blogs.PublishedLaterIsTotalPreorder();
    ListPageSound(rows, Blogs.Published, Blogs.PublishedLater, PageOf(q), LIMIT);
  }

  /** Which posts a page holds: the `k`-th one is the published post at
      position `(page - 1) * 9 + k` in newest-first order. */
  lemma LoadServesWindow(rows: seq<Blog>, q: SearchParams)
    requires PageOf(q) >= 1
    ensures forall k :: 0 <= k < |Load(Online(rows), q).items| ==>
      && 0 <= (PageOf(q) - 1) * LIMIT + k < |Filter(rows, Blogs.Published)|
      && Load(Online(rows), q).items[k]
           == SortBy(Filter(rows, Blogs.Published), Blogs.PublishedLater)[(PageOf(q) - 1) * LIMIT + k]
  {
    ListPageItems(rows, Blogs.Published, Blogs.PublishedLater, PageOf(q), LIMIT);
    assert Load(Online(rows), q).items
      == ListPage(Online(rows), Blogs.Published, Blogs.PublishedLater, PageOf(q), LIMIT).value.items;
  }
}
