# Portfolio site: list endpoints and contact rate limiter, modelled in Dafny

This project models the two pieces of logic in a SvelteKit portfolio site
that go beyond passing data between HTTP and the Prisma database client.

- **The paginated list endpoints.** `GET /api/experiences`, `GET /api/projects`
  and `GET /api/blogs` read `page` and `limit` from the query string; the
  `/blog` page load reads only `page` and uses a fixed limit of 9. Each
  fetches one page of records with `findMany({ where, orderBy, skip, take })`,
  counts the matching records with `count({ where })`, and reports
  `totalPages = ceil(totalItems / limit)`. Projects and blogs also fill
  in missing image fields. When a query throws, each falls back to a fixed
  error envelope.
- **The contact form's rate limiter and validation.** `POST /api/contact`
  keeps, per client address, the timestamp of every attempt the limiter lets
  through, valid or not: the check runs before the body is parsed. It
  refuses a sixth attempt within an hour with status 429 and a
  `Retry-After` header. Now and then it sweeps stale clients from the map.
  It then checks the required fields and the email format before storing the
  submission.

Modules, one per component:

- `Numbers` (numbers.dfy): `Math.ceil` of a division, with min and max.
- `Options` (options.dfy): optional values and `??`.
- `Query` (query.dfy): the database as a sequence of rows. `findMany` is filter,
  then a stable sort, then drop `skip`, then take `take`. `count` is a
  separately defined tally, proved equal to the length of the filtered rows.
- `Records` (records.dfy): experiences, projects, blog posts and tags.
- `Paging` (paging.dfy): the query string, the `pagination` object, and the
  fetch-and-count step shared by every list endpoint, with its contract.
- `Experiences`, `Projects`, `Blogs`, `BlogPage`: one module per handler.
  They differ as the handlers do:
  - only experiences clamps `page` and `limit`;
  - projects has the optional `featured` filter and a two-key order;
  - the blog page has a fixed limit of 9 and never fails.
- `RateLimit` (rate_limit.dfy): the class `RateLimiter`, holding the map
  `limits: map<string, seq<int>>` that `checkRateLimit` and
  `cleanupRateLimits` update in place. Beside it are the functions
  `Decide`, `Record` and `Swept`, which specify those methods, and the
  lemmas about them.
- `Contact` (contact.dfy): the POST handler. It runs the rate limit, then
  required-field validation, then the email pattern check, then the
  database step.

The clock and the random draw are parameters. `now` is the value of
`Date.now()`. `sweep` is `None` when `Math.random() < 0.05` fails. It is
`Some(t)` when the sweep runs and its own `Date.now()` returns `t`. The
database is a parameter too: `Store` for the list endpoints, and `Database`
for the contact row's creation.

Two behaviours of the code shape the model:

- Only `src/routes/api/experiences/+server.ts` floors `page` at 1 and
  clamps `limit`. In the projects and blogs endpoints and the blog page,
  `page < 1` gives a negative `skip`. Prisma rejects a negative `skip`, so
  the handler takes its error branch: 500 for the JSON endpoints, and the
  error fallback for the page.
- Projects are always ordered featured first, then by ascending `order`.

## Model

| member | source | states |
|---|---|---|
| Numbers.CeilDiv | src/routes/api/experiences/+server.ts:29 | `totalPages = Math.ceil(total / limit)` is the least page count that holds every item: `total <= pages*limit`, `(pages-1)*limit < total` when `total > 0`, and `pages == 0` exactly when `total == 0` |
| Numbers.CeilDivUnique | src/routes/api/experiences/+server.ts:29 | any count with those two bounds is the ceiling |
| Records.MapSeq | src/routes/api/projects/+server.ts:23 | `.map(f)` yields one result per element, `f` of the element at the same position |
| Query.Filter | src/routes/api/experiences/+server.ts:12 | the `where` clause keeps only rows that satisfy it and never adds rows |
| Query.FilterMembers | src/routes/api/experiences/+server.ts:11-17 | a row is selected exactly when it is in the table and satisfies the `where` clause |
| Query.FilterAll | src/routes/api/projects/+server.ts:11 | an empty `where` (`{}`) selects the whole table, in table order |
| Query.CountIsFilteredLength | src/routes/api/experiences/+server.ts:18-20 | `count({ where })`, defined separately as a tally, equals the number of rows `findMany` filters with the same `where` |
| Query.SortBy | src/routes/api/experiences/+server.ts:16 | ordering returns as many rows as it is given |
| Query.SortByPermutes | src/routes/api/experiences/+server.ts:16 | ordering keeps the same rows: the same multiset, nothing added, dropped or duplicated |
| Query.SortBySorted | src/routes/api/experiences/+server.ts:16 | for any total preorder, the ordered rows are a permutation of the input, pairwise in order |
| Query.Window | src/routes/api/experiences/+server.ts:13-14 | `skip`/`take` return `min(take, max(0, n - skip))` rows, and row `i` is input row `skip + i` |
| Query.FindManyMembers | src/routes/api/experiences/+server.ts:11-17 | every fetched row is a stored row that satisfies the `where` clause |
| Query.FindManySorted | src/routes/api/experiences/+server.ts:16 | a fetched page is in `orderBy` order |
| Query.FindManySize | src/routes/api/experiences/+server.ts:13-14 | a page holds `min(take, max(0, count - skip))` rows, consecutive in the ordered filtered table starting at `skip` |
| Paging.ListPage | src/routes/api/experiences/+server.ts:8-31 | the fetch with `skip = (page-1)*limit` and the count both succeed exactly when the store is reachable and `page >= 1`, so `skip >= 0` |
| Paging.PastLastPage | src/routes/api/experiences/+server.ts:8 | `skip >= totalItems` exactly when `page > totalPages`: a page past the last is empty and raises no error |
| Paging.ItemPage | src/routes/api/experiences/+server.ts:8 | item `i` lies on page `i / limit + 1`, which is between 1 and `totalPages` |
| Paging.ItemPageUnique | src/routes/api/experiences/+server.ts:8 | the index ranges `[(q-1)*limit, q*limit)` of distinct pages are disjoint: only page `i / limit + 1` covers index `i` |
| Paging.ListPageCounts | src/routes/api/experiences/+server.ts:8-31 | for `page >= 1`, the pagination object reports `page`, `limit`, the filtered count and `ceil(count / limit)`. The page holds `min(limit, max(0, total - skip))` rows, and is empty exactly when `page` is past the last page |
| Paging.ListPageItems | src/routes/api/experiences/+server.ts:8-17 | for `page >= 1`, record `k` of the page is row `(page-1)*limit + k` of the matching rows in `orderBy` order: the page is exactly the `skip`/`take` window, with no row repeated or passed over |
| Paging.MappedListPageItems | src/routes/api/projects/+server.ts:13-27 | the same window for a page whose records are mapped before they are served: record `k` is `f` of row `skip + k` |
| Paging.ListPageSound | src/routes/api/experiences/+server.ts:10-31 | the pagination object reports `page`, `limit`, the filtered count and its ceiling. The rows are stored rows that match the filter, in order. There are `min(limit, max(0, total - skip))` of them, and none past the last page |
| Paging.EveryRowListed | src/routes/api/experiences/+server.ts:8-17 | every matching row `i` is served at position `i % limit` of page `i / limit + 1`, a page no later than `totalPages` |
| Paging.ServedOnlyOnItsPage | src/routes/api/experiences/+server.ts:8-17 | conversely, the record at position `k` of page `q` is ordered matching row `i = (q-1)*limit + k`, and `q` and `k` are exactly `i / limit + 1` and `i % limit`: no row is served on two pages or at two positions |
| Experiences.StartsLaterIsTotalPreorder | src/routes/api/experiences/+server.ts:16 | `startDate` descending is a total preorder |
| Experiences.PageOf | src/routes/api/experiences/+server.ts:6 | `page` is at least 1. It is the requested page when that is at least 1, and 1 otherwise or when absent |
| Experiences.LimitOf | src/routes/api/experiences/+server.ts:7 | `limit` is in [1, 50]. It defaults to 10, and a request outside the range is clamped to 1 or 50 |
| Experiences.Get | src/routes/api/experiences/+server.ts:4-42 | status 200 exactly when the store is reachable. Otherwise the fixed envelope: no experiences, page 1, limit 10, zero totals, status 500 |
| Experiences.GetServesPage | src/routes/api/experiences/+server.ts:10-31 | on a reachable store: the pagination counts non-hidden experiences with the clamped `page`/`limit`. The items are stored non-hidden experiences, newest `startDate` first, exactly `min(limit, max(0, total - skip))` of them, and empty iff `page > totalPages` |
| Experiences.GetServesWindow | src/routes/api/experiences/+server.ts:6-17 | experience `k` of the response is the visible experience at position `(page-1)*limit + k` in newest-first order, with the clamped `page` and `limit` |
| Projects.FeaturedFirstIsTotalPreorder | src/routes/api/projects/+server.ts:20 | featured-desc then order-asc is a total preorder |
| Projects.UnfilteredUnlessTrue | src/routes/api/projects/+server.ts:6-11 | unless `featured` is exactly `true`, every project passes the filter |
| Projects.Normalize | src/routes/api/projects/+server.ts:23-27 | `images` becomes the stored list or `[]`, and `thumbnailUrl` the stored URL or `null`. Every other field is unchanged |
| Projects.NormalizeIdempotent | src/routes/api/projects/+server.ts:23-27 | normalising twice is normalising once |
| Projects.Get | src/routes/api/projects/+server.ts:4-54 | status 200 exactly when the store is reachable and `page >= 1`. Otherwise the envelope `success: false` with no projects and no pagination, status 500 |
| Projects.GetServesPage | src/routes/api/projects/+server.ts:7-42 | `success: true`. The pagination echoes `page`/`limit` (defaults 1 and 6, unclamped) and counts with the same featured filter, with `totalPages = ceil(total / limit)`. The page holds `min(limit, max(0, total - skip))` projects |
| Projects.GetServesWindow | src/routes/api/projects/+server.ts:7-27 | project `k` of the response is the normalised project at position `(page-1)*limit + k` of the matching projects in featured-first order |
| Projects.GetServesStoredProjects | src/routes/api/projects/+server.ts:11-27 | every served project is a normalised stored project, and featured when the filter is on |
| Projects.GetServesFeaturedFirst | src/routes/api/projects/+server.ts:20 | served projects are featured first, then by ascending `order` |
| Blogs.PublishedLaterIsTotalPreorder | src/routes/api/blogs/+server.ts:20-22 | `publishedAt` descending is a total preorder |
| Blogs.Normalize | src/routes/api/blogs/+server.ts:30-34 | `images` becomes the stored list or `[]`, and `imageUrl` the stored URL or `null`. Every other field is unchanged |
| Blogs.Get | src/routes/api/blogs/+server.ts:5-57 | status 200 exactly when the store is reachable and `page >= 1`. Otherwise the envelope `success: false` with no posts, status 500 |
| Blogs.GetServesPage | src/routes/api/blogs/+server.ts:7-45 | `success: true`. The pagination echoes `page`/`limit` (defaults 1 and 9, unclamped) and counts published posts, with `totalPages = ceil(total / limit)`. The page holds `min(limit, max(0, total - skip))` posts |
| Blogs.GetServesWindow | src/routes/api/blogs/+server.ts:7-34 | post `k` of the response is the normalised published post at position `(page-1)*limit + k` in newest-first order |
| Blogs.GetServesPublishedPosts | src/routes/api/blogs/+server.ts:11-34 | every served post is a normalised stored post that is published |
| Blogs.GetServesNewestFirst | src/routes/api/blogs/+server.ts:20-22 | served posts are in descending `publishedAt` order |
| BlogPage.Load | src/routes/blog/+page.server.ts:4-50 | never fails: `limit` is 9. The error is absent exactly when the store is reachable and `page >= 1`. Otherwise: no posts, page 1, limit 9, zero totals, and an error string |
| BlogPage.LimitParameterIgnored | src/routes/blog/+page.server.ts:7 | the `limit` query parameter has no effect |
| BlogPage.LoadServesPage | src/routes/blog/+page.server.ts:6-36 | the pagination counts published posts, with `totalPages = ceil(total / 9)`. The items are stored published posts, newest first, `min(9, max(0, total - skip))` of them, and empty iff past the last page |
| BlogPage.LoadServesWindow | src/routes/blog/+page.server.ts:6-22 | post `k` of the page is the published post at position `(page-1)*9 + k` in newest-first order |
| RateLimit.Recent | src/routes/api/contact/+server.ts:18 | only in-window timestamps (`now - t < 3600000`) are kept. All are kept exactly when all are in the window |
| RateLimit.RecentMembers | src/routes/api/contact/+server.ts:18 | a timestamp is counted exactly when it is stored and in the window |
| RateLimit.MinOf | src/routes/api/contact/+server.ts:20 | `Math.min` returns a stored timestamp that is no greater than any other |
| RateLimit.Decide | src/routes/api/contact/+server.ts:13-40 | refuse exactly when 5 or more timestamps are in the window. `limit` is 5. `remaining` is `4 - count` on acceptance and 0 on refusal. `reset` is 3600000 with no counted timestamps, and positive otherwise. When no timestamp lies in the future, `0 < reset <= 3600000` |
| RateLimit.RecordBounded | src/routes/api/contact/+server.ts:24-28 | recording keeps every stored list non-empty with at most 5 timestamps |
| RateLimit.SweptBounded | src/routes/api/contact/+server.ts:45-53 | the sweep keeps every stored list non-empty with at most 5 timestamps |
| RateLimit.RecordOnlyTouchesKey | src/routes/api/contact/+server.ts:26-28 | apart from the sweep, a check changes only the caller's entry |
| RateLimit.RecordedOnlyWhenAccepted | src/routes/api/contact/+server.ts:24-28 | a refused attempt leaves the map unchanged, so an immediate retry gets the same refusal. An accepted one stores the in-window timestamps followed by `now` |
| RateLimit.SweptEntries | src/routes/api/contact/+server.ts:42-55 | the sweep deletes exactly the keys with no in-window timestamp and replaces every other list by its in-window part |
| RateLimit.RecentTwice | src/routes/api/contact/+server.ts:18 | filtering at an earlier time and then at a later time equals filtering at the later time |
| RateLimit.DecideOnRecent | src/routes/api/contact/+server.ts:16-22 | the answer depends only on the in-window part of the stored list |
| RateLimit.SweepInvisible | src/routes/api/contact/+server.ts:30-32 | a sweep never changes the answer of a check at or after the sweep's time |
| RateLimit.AcceptedAfterReset | src/routes/api/contact/+server.ts:20-24 | a refusal has `reset > 0`, and once `reset` ms have passed the same client is accepted |
| RateLimit.RefusedUntilReset | src/routes/api/contact/+server.ts:20-24 | `reset` is tight: a refused client checking again before `reset` ms have passed is still refused |
| RateLimit.RetryAfterResetAccepted | src/routes/api/contact/+server.ts:13-32 | the same for the limiter's map, through the refused check and any sweep |
| RateLimit.Replay | src/routes/api/contact/+server.ts:13-40 | successive checks by one client give one answer each, all with limit 5. Every refusal carries `reset > 0` |
| RateLimit.CountDownWithinWindow | src/routes/api/contact/+server.ts:24-36 | within one window, a client holding `n` counted attempts is accepted while `n + i < 5`, with `remaining = 4 - n - i`. After that it is refused with `remaining = 0` |
| RateLimit.RecordWithinWindow | src/routes/api/contact/+server.ts:18-36 | when all stored timestamps and `now` lie within one window, every stored timestamp counts. The client is accepted iff fewer than 5 are stored, with `remaining = 4 - n`. Acceptance adds one timestamp of the same window |
| RateLimit.SixthAttemptRefused | src/routes/api/contact/+server.ts:24-36 | five attempts within an hour by a new client get `remaining` 4, 3, 2, 1, 0. A sixth is refused with `remaining` 0 and `reset > 0` |
| RateLimit.RateLimiter.constructor | src/routes/api/contact/+server.ts:6 | the limiter starts with an empty map |
| RateLimit.RateLimiter.Check | src/routes/api/contact/+server.ts:13-40 | returns `Decide` of the caller's stored list. The new map is `Record` followed by the optional sweep. The bound of 5 per list is kept |
| RateLimit.RateLimiter.Cleanup | src/routes/api/contact/+server.ts:42-55 | the loop over all entries leaves exactly `Swept(old map, now)`. The bound of 5 per list is kept |
| Contact.FirstMissing | src/routes/api/contact/+server.ts:105-116 | reports the first falsy field in the given order, with every earlier one truthy. It reports none exactly when all are truthy |
| Contact.IndexFrom | src/routes/api/contact/+server.ts:118 | the first position from `from` on that holds the character, or none |
| Contact.MatchesEmailExactly | src/routes/api/contact/+server.ts:118 | the matcher accepts exactly the language of `^\S+@\S+\.\S+$`: no whitespace, an `@` at index 1 or later, and a later `.` at least two places on that is not the last character |
| Contact.RecordOf | src/routes/api/contact/+server.ts:141-150 | the stored row carries `needs`, `name`, `email`, `projectType` and `budget` as sent, and `additional` or `''` when that is falsy |
| Contact.Submit | src/routes/api/contact/+server.ts:102-329 | never 429 once past the limiter. A body that does not parse gives 500 "Server error processing your request". A submission is answered 200 only with the id of a row the database created |
| Contact.MissingFieldRejected | src/routes/api/contact/+server.ts:105-116 | the first falsy field in the order needs, name, email, projectType, budget is reported with 400, and nothing is stored |
| Contact.MalformedEmailRejected | src/routes/api/contact/+server.ts:118-126 | a complete form whose email fails the pattern gets 400 "Invalid email format", and nothing is stored |
| Contact.ValidFormReachesDatabase | src/routes/api/contact/+server.ts:128-159 | a complete form with a well-formed email is stored and answered 200 with the new row's id (`RecordOf` the form). If the database is missing, the answer is 500 "Database connection error". If `create` throws, it is 500 "Database error creating contact entry" |
| Contact.SubmittedOnlyWhenValid | src/routes/api/contact/+server.ts:139-150 | a row is stored only when all required fields are truthy and the email matches. The row carries the five required fields as sent, and `additional` or `''` |
| Contact.RetryAfter | src/routes/api/contact/+server.ts:96 | `Retry-After = ceil(reset / 1000)`: enough whole seconds to cover `reset`, and less than one second more |
| Contact.RetryAfterWithinAnHour | src/routes/api/contact/+server.ts:84-99 | a refusal asks for between 1 and 3600 seconds when no stored timestamp is in the future |
| Contact.Post | src/routes/api/contact/+server.ts:79-100 | the rate-limit check always runs first and updates the map, even for an invalid submission. A refused client gets 429 with limit, remaining, reset and Retry-After. Otherwise the validation-and-store outcome |

## Left out

- Projects.Get: requires a `limit` of at least 1. `limit = 0` gives `totalPages` of `Infinity` (or `NaN` with no rows); a negative `limit` gives a negative `take`, which Prisma reads from the end of the ordered rows, and a non-positive `totalPages`. Neither has a model here.
- Blogs.Get: requires a `limit` of at least 1, for the same reason.
- Projects.GetServesPage, Projects.GetServesWindow, Projects.GetServesStoredProjects, Projects.GetServesFeaturedFirst, Blogs.GetServesPage, Blogs.GetServesWindow, Blogs.GetServesPublishedPosts, Blogs.GetServesNewestFirst, BlogPage.LoadServesPage, BlogPage.LoadServesWindow: are stated for `page >= 1`. For `page < 1`, `Get` and `Load` themselves state the error result.
- JavaScript number parsing: query parameters are integers or absent. `Number('abc')` (NaN), fractional pages and `Number('')` are not modelled.
- A negative `skip` is modelled as a query that throws, as Prisma validates `skip >= 0`.
- The database's order among rows with equal sort keys is unspecified. The model keeps table order (a stable sort).
- A blog post with a null `publishedAt` is placed after the dated ones. Whether NULL sorts first or last in a descending sort depends on the database engine.
- The `include: { tags: true }` join: tags are a field of each record and are not loaded separately.
- `Promise.all` in the experiences handler: the fetch and the count are independent, and either one failing gives the error branch. Both are modelled as one `Store` that is reachable or not.
- The rate-limit map is shared by concurrent requests in one process. The model treats each request as atomic.
- The email notification: the nodemailer transport, its configuration and the text and HTML bodies (contact lines 57-77 and 162-313). A failed send is caught and logged (311-313), and the success response (315-319) does not depend on it, so `Submit` does not mention it.
- Contact bodies that are not JSON objects, and array or object field values. `RegExp.test` would turn an array such as `["a@b.co"]` into a matching string. Field values here are strings, integers, booleans and `null`.
- Logging (`console.log` and `console.error`) and the JSON serialisation of responses.
- Page data has no HTTP status. `BlogPage.Load` writes 200 for a page that renders.
- The single-record routes (`api/experiences/[id]`, `blog/[slug]`), the sitemap, `api/tech-tags`, the projects page load, the layout loads, the client-side actions and the Prisma seed are not part of this model.
