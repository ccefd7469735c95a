# Pastebin paste lifecycle, modelled in Dafny

This project models the core of a small pastebin service. Clients create a
paste of text, optionally limited by a time-to-live (`ttl_seconds`) and by a
maximum number of views (`max_views`). The service then lists the live pastes,
reports a paste's metadata without counting a view, and serves a paste while
counting one view. A paste is never deleted. Whether it is dead is computed on
every read from its expiry instant, its view limit, its view counter and the
current instant. The model also covers the gallery's grouping of pastes into
four buckets and `escapeHtml`.

Files, one module each:

- `wrappers.dfy` (`Wrappers`): `Option` and `Result`.
- `js_value.dfy` (`JsValue`): the JSON values of a request body, JavaScript
  truthiness, `typeof … === "string"`, `Number.isInteger` and `String.prototype.trim`.
- `lifecycle.dfy` (`Lifecycle`): the paste row, the clock selection, create
  validation, the liveness test, remaining views, the metadata and view
  projections, and the one-paste consume step with its lemmas (view bound,
  exact number of views, strict TTL boundary, no resurrection).
- `html.dfy` (`Html`): `escapeHtml` as three chained replacements, a one-pass
  reference definition, and an inverse.
- `paste_store.dfy` (`PasteStore`): class `Store`. It holds a map from id to
  paste, plus the ids in insertion order. `Create`, `Consume` and `ViewHtml` are
  methods that change the store. `Meta` and `List` are functions that only read it.
- `gallery.dfy` (`Gallery`): `classify`, `isSameGroups` (a method with nested
  loops) and the grouping loop (a method proved against a filter definition).
- `scenarios.dfy` (`Scenarios`): verified client code that replays three
  scenarios from the repository's test suite, using only the store's contracts:
  five views then not-found, the 999 ms / 1000 ms TTL boundary, and rejected bodies.

Time is an integer parameter (milliseconds). `now` is what `nowMs` selects;
`created` is the wall clock read by the create route, which the test header
does not override. The paste id is a parameter standing for the generated id.

Points where the model makes a choice about the code:

- The code reads the row, then runs an unguarded `UPDATE … view_count + 1`
  as a separate asynchronous step, so concurrent reads can overshoot the
  limit. Here `Store.Consume` is one sequential method, so the view bound is
  proved for that sequential store, not for interleaved requests.
- The liveness tests use JavaScript truthiness (`row.expires_at && now >= row.expires_at`),
  so a stored `0` would mean "no limit". `PassesFilter` models the tests as
  written, and its contract shows they match the liveness predicate `Live` on
  every well-formed row. Rows are well-formed because `created_at` is
  non-negative, so `expires_at ≥ created_at + 1000 > 0`.
- Where the repository's tests and the code differ, the model follows the
  code: the tests expect a huge `ttl_seconds` or `max_views` to be rejected,
  but the code has no upper bound, and neither does the model.
- The code never checks for an id collision. The model assumes the table's
  primary key refuses a duplicate id, which the create route reports as its
  database error.

## Model

| member | source | states |
|---|---|---|
| `JsValue.TrimEmptyIffBlank` | backend/server.js:30 | `content.trim()` is empty exactly when every character is JavaScript whitespace (empty string included) |
| `Lifecycle.NowMs` | backend/server.js:10-16 | in test mode a present override header decides the instant; outside test mode, or without the header, the wall clock does |
| `Lifecycle.PassesFilter` | backend/server.js:95-99 | the list, metadata and loader tests (also lines 71-72 and 123-127), with JS truthiness, agree with the liveness predicate `Live` (strict `now < expires_at`, `view_count < max_views`) on every well-formed row |
| `Lifecycle.RemainingViews` | backend/server.js:101-102 | none exactly when unlimited; otherwise never negative, equal to `max_views - used` while views remain and 0 once they are used up |
| `Lifecycle.MetaOf` | backend/server.js:104-111 | the metadata reports the stored counter, limit and expiry; remaining views are none iff unlimited and `max_views - view_count ≥ 1` for a paste with views left |
| `Lifecycle.ViewOf` | backend/server.js:142-149 | a served view carries the unchanged content and expiry, and `max_views - (view_count + 1)` remaining views when limited |
| `Lifecycle.Step` | backend/server.js:138-140 | a consuming read raises the counter by exactly one when the paste is live and changes nothing otherwise; it keeps the view bound and every immutable field |
| `Lifecycle.DeadStaysDead` | backend/server.js:123-127 | a paste dead at `t` is dead at every `t' ≥ t` in every later state (counter only grows, expiry and limit fixed) |
| `Lifecycle.ExactlyRemainingViews` | backend/server.js:126-140 | a paste allowing K views with c used, read repeatedly while time-alive, answers exactly the first K - c reads and none after |
| `Lifecycle.SuccessesAreBounded` | backend/server.js:126-140 | of N reads while time-alive exactly min(N, K - c) succeed |
| `Lifecycle.SuccessBound` | backend/server.js:126-140 | of any run of reads, at any instants, at most K - c succeed, so successes over a lifetime never exceed K |
| `Lifecycle.UnlimitedViewsAlwaysServed` | backend/server.js:126-127 | without a view limit every read while time-alive succeeds |
| `Lifecycle.ContentRule` | backend/server.js:30-32 | the handler's content test (falsy, not a string, or blank after trimming) rejects exactly what is not a string with a non-whitespace character |
| `Lifecycle.Validate` | backend/server.js:30-40 | accepted iff content is a non-blank string and each of `ttl_seconds`, `max_views` is absent or an integral number ≥ 1; otherwise the first failing check, in the order content, TTL, max views, names the error; the accepted values are those of the body |
| `Lifecycle.NewPaste` | backend/server.js:42-50 | the new row has the given content and limit, zero views, `created_at = created`, `expires_at = created + 1000·ttl` iff a TTL was given; it is well-formed and live at its creation instant |
| `Lifecycle.TtlBoundary` | backend/server.js:123-124 | a paste created with TTL T is live at `created + 1000·T - 1` and dead at every instant from `created + 1000·T` on |
| `Lifecycle.RemainingAfterOneView` | backend/server.js:142-143 | a fresh paste with limit K reports K remaining; the first view reports K - 1; afterwards the paste is live iff K ≥ 2 and then reports K - 1 |
| `Html.ReplaceAll` | backend/server.js:173-175 | a global single-character replacement leaves no occurrence of the character when the replacement lacks it, and introduces only characters of the input or the replacement |
| `Html.EscapeHtmlIsEscapeEach` | backend/server.js:171-176 | the three chained replacements equal escaping each character on its own: `&`→`&amp;`, `<`→`&lt;`, `>`→`&gt;`, every other character kept in order |
| `Html.EscapeHtmlHasNoBrackets` | backend/server.js:171-176 | the escaped text contains no `<` and no `>` |
| `Html.UnescapeEscapeHtml` | backend/server.js:165 | decoding the three entities gives back exactly the stored content, so escaping loses nothing |
| `PasteStore.ListedSound` | backend/server.js:69-79 | every listed entry is a row that passes the liveness test, with its id and content, and the ids keep store order |
| `PasteStore.ListedComplete` | backend/server.js:69-74 | every row that passes the liveness test is listed |
| `PasteStore.NoResurrection` | backend/server.js:123-127 | across any later store state (every operation yields one) a paste dead at `t` stays dead for every `t' ≥ t` |
| `PasteStore.Store.Create` | backend/server.js:27-60 | a rejected body returns its validation error and changes nothing; an id already present gives the database error and changes nothing; otherwise exactly one new row `NewPaste(…)` is added at the end of the store order; the invariants, with the view bound, hold after |
| `PasteStore.Store.Meta` | backend/server.js:87-113 | found iff the paste exists and is live; then the metadata projection, with `max_views - view_count` remaining views; a function of the store, so it changes nothing |
| `PasteStore.Store.List` | backend/server.js:63-83 | exactly the live pastes, each with its content, in store order and without repetition |
| `PasteStore.Store.Consume` | backend/server.js:116-150 | found iff the paste exists and is live; then only that paste's counter rises by one and the answer is its content with post-increment remaining views; otherwise nothing changes; the view bound is kept |
| `PasteStore.Store.ViewHtml` | backend/server.js:153-169 | the same transition as `Consume`, answering the escaped content |
| `PasteStore.ListedHaveMeta` | frontend/src/components/PasteGallery.jsx:57-61 | at one instant a paste is listed exactly when its metadata is found |
| `Gallery.Classify` | frontend/src/components/PasteGallery.jsx:8-16 | immortals iff both limits are absent, watchlist iff only views are limited, timebombs iff only time is limited, doomed iff both are set (one of four, always) |
| `Gallery.Groups.Push` | frontend/src/components/PasteGallery.jsx:62 | pushing appends to the named group and leaves the others alone |
| `Gallery.IsSameGroups` | frontend/src/components/PasteGallery.jsx:18-27 | true iff every group of the two groupings has the same length and the same id at every position |
| `Gallery.SameGroupsIffSameIds` | frontend/src/components/PasteGallery.jsx:21-23 | the comparison holds iff the id sequences of all four groups are equal |
| `Gallery.OnlyIdsMatter` | frontend/src/components/PasteGallery.jsx:23 | changing any field other than the ids never changes the comparison |
| `Gallery.SameGroupsReflexive` | frontend/src/components/PasteGallery.jsx:18-27 | a grouping compares equal to itself |
| `Gallery.GroupedIsInBucket` | frontend/src/components/PasteGallery.jsx:56-64 | after the loop each group is exactly the processed pastes whose metadata classifies them into it, in order, and the group sizes sum to the number of pastes whose metadata request succeeded |
| `Gallery.GroupPastes` | frontend/src/components/PasteGallery.jsx:47-64 | the grouping of the reversed list holds, per bucket, exactly the pastes classified into it; the sizes sum to the number of answered metadata requests |

## Left out

- HTTP and framework wiring: routing, CORS, JSON body parsing, status codes, the response objects, the health check and the `url` strings built from the request host.
- The SQLite database and its schema (`backend/db.js`; `schema.sql` is not part of this model). The table is a map plus the insertion order, and the text of the SQL is not modelled. Storage errors on reads (which the routes report as not-found or as a server error) are left out. On insert, only the duplicate-id failure is modelled.
- Id generation (`nanoid(8)`): the id is a parameter.
- Clocks and formatting: `Date.now()`, `parseInt` of the `x-test-now-ms` header (the header arrives already parsed), and the ISO formatting of `expires_at`. Instants stay integers.
- Concurrency: the interleaving of the separate read and unguarded update, and the repository's concurrent race tests. Every operation here is one sequential step.
- Floating point: numbers are integral (exact value kept) or non-integral. Doubles are not modelled, so `ttl_seconds * 1000` is exact even above 2^53.
- The HTML page template around the escaped content.
- The React interface: rendering, animation, polling with `setInterval`, and the `useRef` cache of the previous grouping. The other components and pages are also left out.
- Gallery.GroupPastes: `Promise.all` lets the metadata answers arrive, and so push, in any order. The model processes them one after another in list order, so the order inside a group is that sequential order. The membership and size results do not depend on it.
