/** What the list endpoints share: the query string they read, the
    `pagination` object they return, and the fetch-and-count of one page. */
module Paging {
  import opened Options
  import opened Numbers
  import opened Query
  import opened Records

  /** The query string of a list request. `None` stands for a parameter that
      is absent or empty: `searchParams.get(name) || default` replaces both. */
  datatype SearchParams = SearchParams(page: Option<int>, limit: Option<int>, featured: Option<string>)

  datatype Pagination = Pagination(page: int, limit: int, totalItems: nat, totalPages: nat)

  /** A list response. `success` and `pagination` are `None` where the
      handler's JSON has no such field; `error` is the error string, if any. */
  datatype Response<T> = Response(
    status: nat,
    success: Option<bool>,
    items: seq<T>,
    pagination: Option<Pagination>,
    error: Option<string>)

  /** One page of records and its pagination object. */
  datatype Listing<T> = Listing(items: seq<T>, pagination: Pagination)

  /** The fetch (`findMany` with `skip = (page - 1) * limit`, `take = limit`)
      and the count of one list request, both with the same `where`. `None`
      when a query throws: the store is unreachable, or `skip` is negative,
      which the store refuses. */
  function ListPage<T(!new)>(store: Store<T>, keep: T -> bool, before: (T, T) -> bool,
                             page: int, limit: int): (r: Option<Listing<T>>)
    requires limit >= 1
    ensures r.None? <==> store.Offline? || page < 1
  {
    var skip := (page - 1) * limit;
    if store.Offline? || skip < 0 then None
    else
      var total := CountWhere(store.rows, keep);
      Some(Listing(FindMany(store.rows, keep, before, skip, limit),
                   Pagination(page, limit, total, CeilDiv(total, limit))))
  }

  /** A page is empty exactly when it lies beyond the last page: no
      out-of-range error, just nothing left to skip to. */
  lemma PastLastPage(total: nat, page: int, limit: int)
    requires page >= 1 && limit >= 1
    ensures (page - 1) * limit >= total <==> page > CeilDiv(total, limit)
  {
    var c := CeilDiv(total, limit);
    if page > c {
      MulMono(c, page - 1, limit);
    } else {
      MulMono(page - 1, c - 1, limit);
    }
  }

  /** Item `i` of the ordered list lies on page `i / limit + 1`, which exists. */
  lemma ItemPage(total: nat, limit: int, i: nat)
    requires limit >= 1 && i < total
    ensures var p := i / limit + 1;
      && 1 <= p <= CeilDiv(total, limit)
      && (p - 1) * limit <= i < p * limit
  {
    var p := i / limit + 1;
    assert i == (i / limit) * limit + i % limit;
    PastLastPage(total, p, limit);
  }

  /** ... and on no other page. */
  lemma ItemPageUnique(limit: int, i: nat, q: int)
    requires limit >= 1
    requires (q - 1) * limit <= i < q * limit
    ensures q == i / limit + 1
  {
    var p := i / limit + 1;
    assert i == (i / limit) * limit + i % limit;
    MulCancelStrict(q - 1, p, limit);
    MulCancelStrict(p - 1, q, limit);
  }

  /** The counts of every list page: the pagination object reports the
      request and the count of matching rows; the page holds at most `limit`
      records, as many as remain after the earlier pages, and none past the
      last page. */
  lemma ListPageCounts<T(!new)>(rows: seq<T>, keep: T -> bool, before: (T, T) -> bool,
                                page: int, limit: int)
    requires page >= 1 && limit >= 1
    ensures ListPage(Online(rows), keep, before, page, limit).Some?
    ensures ListPage(Online(rows), keep, before, page, limit).value.pagination
      == Pagination(page, limit, |Filter(rows, keep)|, CeilDiv(|Filter(rows, keep)|, limit))
    ensures |ListPage(Online(rows), keep, before, page, limit).value.items|
      == Min(limit, Max(0, |Filter(rows, keep)| - (page - 1) * limit))
    ensures ListPage(Online(rows), keep, before, page, limit).value.items == []
      <==> page > CeilDiv(|Filter(rows, keep)|, limit)
  {
    var skip := (page - 1) * limit;
    var total := |Filter(rows, keep)|;
    MulMono(0, page - 1, limit);
    CountIsFilteredLength(rows, keep);
    FindManySize(rows, keep, before, skip, limit);
    assert ListPage(Online(rows), keep, before, page, limit)
      == Some(Listing(FindMany(rows, keep, before, skip, limit),
                      Pagination(page, limit, total, CeilDiv(total, limit))));
    PastLastPage(total, page, limit);
  }

  /** Which rows a page holds: the `k`-th record of page `page` is row
      `(page - 1) * limit + k` of the matching rows in `orderBy` order. */
  lemma ListPageItems<T(!new)>(rows: seq<T>, keep: T -> bool, before: (T, T) -> bool,
                               page: int, limit: int)
    requires page >= 1 && limit >= 1
    ensures ListPage(Online(rows), keep, before, page, limit).Some?
    ensures forall k :: 0 <= k < |ListPage(Online(rows), keep, before, page, limit).value.items| ==>
      && 0 <= (page - 1) * limit + k < |Filter(rows, keep)|
      && ListPage(Online(rows), keep, before, page, limit).value.items[k]
           == SortBy(Filter(rows, keep), before)[(page - 1) * limit + k]
  {
    var skip := (page - 1) * limit;
    MulMono(0, page - 1, limit);
    CountIsFilteredLength(rows, keep);
    FindManySize(rows, keep, before, skip, limit);
    assert ListPage(Online(rows), keep, before, page, limit).value.items
      == FindMany(rows, keep, before, skip, limit);
  }

  /** The same for a page whose records are mapped by `f` before they are
      served, as the handlers that fill in missing fields do. */
  lemma MappedListPageItems<T(!new)>(rows: seq<T>, keep: T -> bool, before: (T, T) -> bool,
                                     page: int, limit: int, f: T -> T, served: seq<T>)
    requires page >= 1 && limit >= 1
    requires ListPage(Online(rows), keep, before, page, limit).Some?
    requires served == MapSeq(f, ListPage(Online(rows), keep, before, page, limit).value.items)
    ensures forall k :: 0 <= k < |served| ==>
      && 0 <= (page - 1) * limit + k < |Filter(rows, keep)|
      && served[k] == f(SortBy(Filter(rows, keep), before)[(page - 1) * limit + k])
  {
    ListPageItems(rows, keep, before, page, limit);
  }

  /** The contract of every list page: its counts as above, and the records
      are matching rows of the table in `orderBy` order. */
  lemma ListPageSound<T(!new)>(rows: seq<T>, keep: T -> bool, before: (T, T) -> bool,
                               page: int, limit: int)
    requires TotalPreorder(before) && page >= 1 && limit >= 1
    ensures var r := ListPage(Online(rows), keep, before, page, limit);
      var total := |Filter(rows, keep)|;
      && r.Some?
      && r.value.pagination == Pagination(page, limit, total, CeilDiv(total, limit))
      && (forall x :: x in r.value.items ==> x in rows && keep(x))
      && Sorted(r.value.items, before)
      && |r.value.items| == Min(limit, Max(0, total - (page - 1) * limit))
      && (r.value.items == [] <==> page > CeilDiv(total, limit))
  {
    var skip := (page - 1) * limit;
    var items := FindMany(rows, keep, before, skip, limit);
    ListPageCounts(rows, keep, before, page, limit);
    FindManySorted(rows, keep, before, skip, limit);
    forall x | x in items ensures x in rows && keep(x) {
      FindManyMembers(rows, keep, before, skip, limit, x);
    }
  }

  /** Paging visits every matching row: row `i` of the ordered matching rows
      is listed on page `i / limit + 1`, at position `i % limit`. */
  lemma EveryRowListed<T(!new)>(rows: seq<T>, keep: T -> bool, before: (T, T) -> bool,
                                limit: int, i: nat)
    requires limit >= 1 && i < |Filter(rows, keep)|
    ensures i / limit + 1 <= CeilDiv(|Filter(rows, keep)|, limit)
    ensures ListPage(Online(rows), keep, before, i / limit + 1, limit).Some?
    ensures i % limit < |ListPage(Online(rows), keep, before, i / limit + 1, limit).value.items|
    ensures ListPage(Online(rows), keep, before, i / limit + 1, limit).value.items[i % limit]
      == SortBy(Filter(rows, keep), before)[i]
  {
    var p := i / limit + 1;
    var skip := (p - 1) * limit;
    assert skip == (i / limit) * limit;
    PageOffset(limit, i);
    assert skip + i % limit == i;
    CountIsFilteredLength(rows, keep);
    FindManySize(rows, keep, before, skip, limit);
    var items := FindMany(rows, keep, before, skip, limit);
    assert i % limit < |items|;
    assert ListPage(Online(rows), keep, before, p, limit).value.items == items;
    ItemPage(|Filter(rows, keep)|, limit, i);
  }

  /** ... and nowhere else: the record at position `k` of page `q` is the
      ordered matching row `i = (q - 1) * limit + k`, and that row's page and
      position are exactly `i / limit + 1` and `i % limit`. */
  lemma ServedOnlyOnItsPage<T(!new)>(rows: seq<T>, keep: T -> bool, before: (T, T) -> bool,
                                     q: int, limit: int, k: int)
    requires q >= 1 && limit >= 1
    requires 0 <= k < |ListPage(Online(rows), keep, before, q, limit).value.items|
    ensures (q - 1) * limit + k < |Filter(rows, keep)|
    ensures ListPage(Online(rows), keep, before, q, limit).value.items[k]
      == SortBy(Filter(rows, keep), before)[(q - 1) * limit + k]
    ensures q == ((q - 1) * limit + k) / limit + 1
    ensures k == ((q - 1) * limit + k) % limit
  {
    ListPageItems(rows, keep, before, q, limit);
    ListPageCounts(rows, keep, before, q, limit);
    PagePosition(limit, q, k);
  }

  lemma PagePosition(limit: int, q: int, k: int)
    requires q >= 1 && limit >= 1 && 0 <= k < limit
    ensures q == ((q - 1) * limit + k) / limit + 1
    ensures k == ((q - 1) * limit + k) % limit
  {
    var i := (q - 1) * limit + k;
    assert (q - 1) * limit <= i < q * limit;
    ItemPageUnique(limit, i, q);
    PageOffset(limit, i);
    assert (i / limit) * limit == (q - 1) * limit;
  }

  lemma PageOffset(limit: int, i: nat)
    requires limit >= 1
    ensures 0 <= (i / limit) * limit <= i
    ensures i - (i / limit) * limit == i % limit < limit
  {
    assert i == (i / limit) * limit + i % limit;
  }
}
