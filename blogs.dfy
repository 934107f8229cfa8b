/** `GET /api/blogs?page&limit`: one page of the published blog posts, most
    recently published first; `page` and `limit` are taken as given. */
module Blogs {
  import opened Options
  import opened Numbers
  import opened Query
  import opened Records
  import opened Paging

  const DEFAULT_LIMIT := 9

  /** `where: { published: true }`, used by both the fetch and the count. */
  function Published(b: Blog): bool { b.published }

  /** `orderBy: { publishedAt: 'desc' }`; a post without a publication date
      comes after every dated one. */
  function PublishedLater(a: Blog, b: Blog): bool
  {
    match (a.publishedAt, b.publishedAt)
    case (Some(x), Some(y)) => x >= y
    case (Some(_), None) => true
    case (None, Some(_)) => false
    case (None, None) => true
  }

  lemma PublishedLaterIsTotalPreorder()
    ensures TotalPreorder(PublishedLater)
  {
  }

  function PageOf(q: SearchParams): int { q.page.GetOr(1) }

  function LimitOf(q: SearchParams): int { q.limit.GetOr(DEFAULT_LIMIT) }

  /** `images ?? []` and `imageUrl ?? null`. */
  function Normalize(b: Blog): (n: Blog)
    ensures n.images.Value? && !n.imageUrl.Undefined?
    ensures b.images.Value? ==> n.images == b.images
    ensures !b.images.Value? ==> n.images == Value([])
    ensures b.imageUrl.Value? ==> n.imageUrl == b.imageUrl
    ensures !b.imageUrl.Value? ==> n.imageUrl == Null
    ensures n.(images := b.images, imageUrl := b.imageUrl) == b
  {
    b.(images := if b.images.Value? then b.images else Value([]),
       imageUrl := if b.imageUrl.Value? then b.imageUrl else Null)
  }

  const FAILURE: Response<Blog> :=
    Response(500, Some(false), [], None, Some("Failed to fetch blogs"))

  /** A query that throws (unreachable store, or `page < 1`, whose negative
      `skip` the store refuses) gives the failure envelope. */
  function Get(store: Store<Blog>, q: SearchParams): (r: Response<Blog>)
    requires LimitOf(q) >= 1
    ensures r.status == 200 <==> store.Online? && PageOf(q) >= 1
    ensures r.status != 200 ==> r == FAILURE
  {
    match ListPage(store, Published, PublishedLater, PageOf(q), LimitOf(q))
    case None => FAILURE
    case Some(l) => Response(200, Some(true), MapSeq(Normalize, l.items), Some(l.pagination), None)
  }

  /** A served page: the pagination object echoes the request and counts the
      published posts; the page holds at most `limit` posts, as many as
      remain after the earlier pages. */
  lemma GetServesPage(rows: seq<Blog>, q: SearchParams)
    requires LimitOf(q) >= 1 && PageOf(q) >= 1
    ensures Get(Online(rows), q).status == 200 && Get(Online(rows), q).success == Some(true)
    ensures Get(Online(rows), q).pagination == Some(Pagination(PageOf(q), LimitOf(q),
      |Filter(rows, Published)|, CeilDiv(|Filter(rows, Published)|, LimitOf(q))))
    ensures |Get(Online(rows), q).items|
      == Min(LimitOf(q), Max(0, |Filter(rows, Published)| - (PageOf(q) - 1) * LimitOf(q)))
    ensures Get(Online(rows), q).items == []
      <==> PageOf(q) > CeilDiv(|Filter(rows, Published)|, LimitOf(q))
  {
    ListPageCounts(rows, Published, PublishedLater, PageOf(q), LimitOf(q));
  }

  /** Unpublished posts never appear: every served post is a stored,
      published post with only its image fields filled in. */
  lemma GetServesPublishedPosts(rows: seq<Blog>, q: SearchParams, i: int)
    requires LimitOf(q) >= 1 && PageOf(q) >= 1
    requires 0 <= i < |Get(Online(rows), q).items|
    ensures var n := Get(Online(rows), q).items[i];
      && n.published
      && n.images.Value? && !n.imageUrl.Undefined?
      && exists b :: b in rows && n == Normalize(b)
  {
    var l := ListPage(Online(rows), Published, PublishedLater, PageOf(q), LimitOf(q)).value;
    var skip := (PageOf(q) - 1) * LimitOf(q);
    assert l.items == FindMany(rows, Published, PublishedLater, skip, LimitOf(q));
    assert l.items[i] in l.items;
    FindManyMembers(rows, Published, PublishedLater, skip, LimitOf(q), l.items[i]);
  }

  /** Served posts come most recently published first. */
  lemma GetServesNewestFirst(rows: seq<Blog>, q: SearchParams, i: int, j: int)
    requires LimitOf(q) >= 1 && PageOf(q) >= 1
    requires 0 <= i < j < |Get(Online(rows), q).items|
    ensures var bs := Get(Online(rows), q).items;
      bs[j].publishedAt.Some? ==> bs[i].publishedAt.Some? && bs[i].publishedAt.value >= bs[j].publishedAt.value
  {
    var l := ListPage(Online(rows), Published, PublishedLater, PageOf(q), LimitOf(q)).value;
    var skip := (PageOf(q) - 1) * LimitOf(q);
    assert l.items == FindMany(rows, Published, PublishedLater, skip, LimitOf(q));
    PublishedLaterIsTotalPreorder();
    FindManySorted(rows, Published, PublishedLater, skip, LimitOf(q));
    assert PublishedLater(l.items[i], l.items[j]);
  }

  /** Which posts a page holds: the `k`-th one served is the normalised
      published post at position `skip + k` in newest-first order. */
  lemma GetServesWindow(rows: seq<Blog>, q: SearchParams)
    requires LimitOf(q) >= 1 && PageOf(q) >= 1
    ensures forall k :: 0 <= k < |Get(Online(rows), q).items| ==>
      && 0 <= (PageOf(q) - 1) * LimitOf(q) + k < |Filter(rows, Published)|
      && Get(Online(rows), q).items[k] == Normalize(
           SortBy(Filter(rows, Published), PublishedLater)[(PageOf(q) - 1) * LimitOf(q) + k])
  {
    assert Get(Online(rows), q).items == MapSeq(Normalize,
      ListPage(Online(rows), Published, PublishedLater, PageOf(q), LimitOf(q)).value.items);
    MappedListPageItems(rows, Published, PublishedLater, PageOf(q), LimitOf(q), Normalize, Get(Online(rows), q).items);
  }

}
