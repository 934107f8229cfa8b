/** `GET /api/projects?page&limit&featured`: one page of projects, featured
    ones first and then by their manual `order`, optionally only the featured
    ones; `page` and `limit` are taken as given. */
module Projects {
  import opened Options
  import opened Numbers
  import opened Query
  import opened Records
  import opened Paging

  const DEFAULT_LIMIT := 6

  /** The featured filter is on only for the exact parameter value `true`. */
  function FeaturedOnly(q: SearchParams): bool
  {
    q.featured == Some("true")
  }

  /** Any `featured` value but `true` (absent, `false`, `TRUE`, `1`, ...)
      lists every project. */
  lemma UnfilteredUnlessTrue(rows: seq<Project>, q: SearchParams)
    requires q.featured != Some("true")
    ensures Filter(rows, Matching(FeaturedOnly(q))) == rows
  {
    FilterAll(rows, Matching(FeaturedOnly(q)));
  }

  /** `where: featured ? { featured: true } : {}`. */
  function Matching(featuredOnly: bool): Project -> bool
  {
    (p: Project) => !featuredOnly || p.featured
  }

  /** `orderBy: [{ featured: 'desc' }, { order: 'asc' }]`: featured before
      not featured, then ascending `order`. */
  function FeaturedFirst(a: Project, b: Project): bool
  {
    (a.featured && !b.featured) || (a.featured == b.featured && a.order <= b.order)
  }

  lemma FeaturedFirstIsTotalPreorder()
    ensures TotalPreorder(FeaturedFirst)
  {
  }

  function PageOf(q: SearchParams): int { q.page.GetOr(1) }

  function LimitOf(q: SearchParams): int { q.limit.GetOr(DEFAULT_LIMIT) }

  /** `images ?? []` and `thumbnailUrl ?? null`. */
  function Normalize(p: Project): (n: Project)
    ensures n.images.Value? && !n.thumbnailUrl.Undefined?
    ensures p.images.Value? ==> n.images == p.images
    ensures !p.images.Value? ==> n.images == Value([])
    ensures p.thumbnailUrl.Value? ==> n.thumbnailUrl == p.thumbnailUrl
    ensures !p.thumbnailUrl.Value? ==> n.thumbnailUrl == Null
    ensures n.(images := p.images, thumbnailUrl := p.thumbnailUrl) == p
  {
    p.(images := if p.images.Value? then p.images else Value([]),
       thumbnailUrl := if p.thumbnailUrl.Value? then p.thumbnailUrl else Null)
  }

  const FAILURE: Response<Project> :=
    Response(500, Some(false), [], None, Some("Failed to fetch projects"))

  /** A query that throws (unreachable store, or `page < 1`, whose negative
      `skip` the store refuses) gives the failure envelope. */
  function Get(store: Store<Project>, q: SearchParams): (r: Response<Project>)
    requires LimitOf(q) >= 1
    ensures r.status == 200 <==> store.Online? && PageOf(q) >= 1
    ensures r.status != 200 ==> r == FAILURE
  {
    match ListPage(store, Matching(FeaturedOnly(q)), FeaturedFirst, PageOf(q), LimitOf(q))
    case None => FAILURE
    case Some(l) => Response(200, Some(true), MapSeq(Normalize, l.items), Some(l.pagination), None)
  }

  /** A served page: the pagination object echoes the request and counts
      with the same filter as the fetch; the page holds at most `limit`
      projects, as many as remain after the earlier pages. */
  lemma GetServesPage(rows: seq<Project>, q: SearchParams)
    requires LimitOf(q) >= 1 && PageOf(q) >= 1
    ensures Get(Online(rows), q).status == 200 && Get(Online(rows), q).success == Some(true)
    ensures Get(Online(rows), q).pagination == Some(Pagination(PageOf(q), LimitOf(q),
      |Filter(rows, Matching(FeaturedOnly(q)))|, CeilDiv(|Filter(rows, Matching(FeaturedOnly(q)))|, LimitOf(q))))
    ensures |Get(Online(rows), q).items|
      == Min(LimitOf(q), Max(0, |Filter(rows, Matching(FeaturedOnly(q)))| - (PageOf(q) - 1) * LimitOf(q)))
    ensures Get(Online(rows), q).items == []
      <==> PageOf(q) > CeilDiv(|Filter(rows, Matching(FeaturedOnly(q)))|, LimitOf(q))
  {
    ListPageCounts(rows, Matching(FeaturedOnly(q)), FeaturedFirst, PageOf(q), LimitOf(q));
  }

  /** Every served project is a stored project that passes the featured
      filter, with only its image fields filled in. */
  lemma GetServesStoredProjects(rows: seq<Project>, q: SearchParams, i: int)
    requires LimitOf(q) >= 1 && PageOf(q) >= 1
    requires 0 <= i < |Get(Online(rows), q).items|
    ensures var n := Get(Online(rows), q).items[i];
      && (FeaturedOnly(q) ==> n.featured)
      && n.images.Value? && !n.thumbnailUrl.Undefined?
      && exists p :: p in rows && n == Normalize(p)
  {
    var keep := Matching(FeaturedOnly(q));
    var l := ListPage(Online(rows), keep, FeaturedFirst, PageOf(q), LimitOf(q)).value;
    var skip := (PageOf(q) - 1) * LimitOf(q);
    assert l.items == FindMany(rows, keep, FeaturedFirst, skip, LimitOf(q));
    assert l.items[i] in l.items;
    FindManyMembers(rows, keep, FeaturedFirst, skip, LimitOf(q), l.items[i]);
  }

  /** Served projects come featured first, then by ascending `order`. */
  lemma GetServesFeaturedFirst(rows: seq<Project>, q: SearchParams, i: int, j: int)
    requires LimitOf(q) >= 1 && PageOf(q) >= 1
    requires 0 <= i < j < |Get(Online(rows), q).items|
    ensures var ps := Get(Online(rows), q).items;
      || (ps[i].featured && !ps[j].featured)
      || (ps[i].featured == ps[j].featured && ps[i].order <= ps[j].order)
  {
    var keep := Matching(FeaturedOnly(q));
    var l := ListPage(Online(rows), keep, FeaturedFirst, PageOf(q), LimitOf(q)).value;
    var skip := (PageOf(q) - 1) * LimitOf(q);
    assert l.items == FindMany(rows, keep, FeaturedFirst, skip, LimitOf(q));
    FeaturedFirstIsTotalPreorder();
    FindManySorted(rows, keep, FeaturedFirst, skip, LimitOf(q));
    assert FeaturedFirst(l.items[i], l.items[j]);
  }

  /** Normalising twice changes nothing more. */
  lemma NormalizeIdempotent(p: Project)
    ensures Normalize(Normalize(p)) == Normalize(p)
  {
  }

  /** Which projects a page holds: the `k`-th one served is the normalised
      project at position `skip + k` of the matching projects in
      featured-first order. */
  lemma GetServesWindow(rows: seq<Project>, q: SearchParams)
    requires LimitOf(q) >= 1 && PageOf(q) >= 1
    ensures forall k :: 0 <= k < |Get(Online(rows), q).items| ==>
      && 0 <= (PageOf(q) - 1) * LimitOf(q) + k < |Filter(rows, Matching(FeaturedOnly(q)))|
      && Get(Online(rows), q).items[k] == Normalize(
           SortBy(Filter(rows, Matching(FeaturedOnly(q))), FeaturedFirst)[(PageOf(q) - 1) * LimitOf(q) + k])
  {
    assert Get(Online(rows), q).items == MapSeq(Normalize,
      ListPage(Online(rows), Matching(FeaturedOnly(q)), FeaturedFirst, PageOf(q), LimitOf(q)).value.items);
    MappedListPageItems(rows, Matching(FeaturedOnly(q)), FeaturedFirst, PageOf(q), LimitOf(q), Normalize, Get(Online(rows), q).items);
  }


}
