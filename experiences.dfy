/** `GET /api/experiences?page&limit`: one page of the visible experiences,
    newest start date first, with `page` floored at 1 and `limit` clamped
    to [1, 50]. */
module Experiences {
  import opened Options
  import opened Numbers
  import opened Query
  import opened Records
  import opened Paging

  const DEFAULT_LIMIT := 10
  const MAX_LIMIT := 50

  /** `where: { isHidden: false }`, used by both the fetch and the count. */
  function Visible(e: Experience): bool { !e.isHidden }

  /** `orderBy: { startDate: 'desc' }`. */
  function StartsLater(a: Experience, b: Experience): bool { a.startDate >= b.startDate }

  lemma StartsLaterIsTotalPreorder()
    ensures TotalPreorder(StartsLater)
  {
  }

  /** `Math.max(1, page || 1)`: the requested page when it is at least 1,
      and page 1 otherwise. */
  function PageOf(q: SearchParams): (page: int)
    ensures page >= 1
    ensures q.page.Some? && q.page.value >= 1 ==> page == q.page.value
    ensures q.page.None? || q.page.value < 1 ==> page == 1
  {
    Max(1, q.page.GetOr(1))
  }

  /** `Math.min(50, Math.max(1, limit || 10))`: the requested size held to
      [1, 50], and 10 when none is given. */
  function LimitOf(q: SearchParams): (limit: int)
    ensures 1 <= limit <= MAX_LIMIT
    ensures q.limit.None? ==> limit == DEFAULT_LIMIT
    ensures q.limit.Some? && 1 <= q.limit.value <= MAX_LIMIT ==> limit == q.limit.value
    ensures q.limit.Some? && q.limit.value < 1 ==> limit == 1
    ensures q.limit.Some? && q.limit.value > MAX_LIMIT ==> limit == MAX_LIMIT
  {
    Min(MAX_LIMIT, Max(1, q.limit.GetOr(DEFAULT_LIMIT)))
  }

  /** The fixed answer when a query throws. */
  const FAILURE: Response<Experience> :=
    Response(500, None, [], Some(Pagination(1, DEFAULT_LIMIT, 0, 0)), Some("Failed to load experiences"))

  function Get(store: Store<Experience>, q: SearchParams): (r: Response<Experience>)
    ensures r.status == 200 <==> store.Online?
    ensures store.Offline? ==> r == FAILURE
  {
    match ListPage(store, Visible, StartsLater, PageOf(q), LimitOf(q))
    case None => FAILURE
    case Some(l) => Response(200, None, l.items, Some(l.pagination), None)
  }

  /** A reachable store always yields a page: the visible experiences, newest
      first, at most `limit` of them, starting after the earlier pages; the
      pagination object echoes the clamped request and counts the visible
      experiences; a page past the last one is empty. */
  lemma GetServesPage(rows: seq<Experience>, q: SearchParams)
    ensures var r := Get(Online(rows), q);
      var page, limit := PageOf(q), LimitOf(q);
      var total := |Filter(rows, Visible)|;
      && r.status == 200 && r.error.None?
      && r.pagination == Some(Pagination(page, limit, total, CeilDiv(total, limit)))
      && (forall e :: e in r.items ==> e in rows && !e.isHidden)
      && Sorted(r.items, StartsLater)
      && |r.items| == Min(limit, Max(0, total - (page - 1) * limit))
      && (r.items == [] <==> page > CeilDiv(total, limit))
  {
    StartsLaterIsTotalPreorder();
    ListPageSound(rows, Visible, StartsLater, PageOf(q), LimitOf(q));
  }

  /** Which experiences a page holds: the `k`-th one served is the visible
      experience at position `skip + k` in newest-first order, so successive
      pages never repeat or skip one. */
  lemma GetServesWindow(rows: seq<Experience>, q: SearchParams)
    ensures forall k :: 0 <= k < |Get(Online(rows), q).items| ==>
      && 0 <= (PageOf(q) - 1) * LimitOf(q) + k < |Filter(rows, Visible)|
      && Get(Online(rows), q).items[k]
           == SortBy(Filter(rows, Visible), StartsLater)[(PageOf(q) - 1) * LimitOf(q) + k]
  {
    ListPageItems(rows, Visible, StartsLater, PageOf(q), LimitOf(q));
    assert Get(Online(rows), q).items
      == ListPage(Online(rows), Visible, StartsLater, PageOf(q), LimitOf(q)).value.items;
  }
}
