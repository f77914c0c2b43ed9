# Photo gallery core, modelled in Dafny

A model of the decision logic of a React Native photo browser that pages
through the Lorem Picsum catalog. The model has four parts, one per source file:

- **Remote catalog client** (`api.dfy`, module `Api`). It covers `fetchPhotos`
  as a pure function of the page, the limit and what the network answered.
  That includes the request URL, the `hasMore` rule and the wording of every
  failure it rethrows. `decimal.dfy` renders numbers the way a template
  literal does.
- **Pagination controller** (`pagination.dfy`, module `Pagination`). It models
  the `usePhotos` hook as a state machine over one immutable `State` record.
  The asynchronous `loadPhotos` is split into `Begin` (the busy gate and the
  writes before the `await`) and `Complete` (the success tail, the `catch`
  and the `finally`). `handleRefresh`, `handleLoadMore`, `retry` and the
  mount effect are transitions that call `Begin`. The network answers through
  a `Settle` event. `State.inFlight` is not a field of the hook: it stands for
  the suspended `loadPhotos` calls and their arguments, which is what lets the
  model state "at most one request in flight".
- **Favourites tracker** (`favorites.dfy`, module `Favorites`). It covers the
  toggle, the membership query and the confirmation message. The native toast
  is a sink that may be missing or may throw.
- **Gallery screen** (`gallery.dfy`, module `Gallery`). It covers the choice
  between spinner, error view, "No data" and grid. It also covers the grid's
  cells and footer, and which operation each gesture reaches.

Points where the code behaves in a way a reader might not expect:

- The error is cleared when a request starts, not when it succeeds.
- `handleRefresh` writes `refreshing`, `page := 1` and `hasMore := true`
  before the busy gate. A refresh that is dropped because a request is
  pending still changes those three fields.
- A failed refresh keeps the old list but leaves `page` at 1. The next
  load-more therefore appends page 2 of the catalog a second time
  (`Pagination.FailedRefreshDuplicatesPage`).
- The code has no unmount guard; the model asserts nothing about teardown.
- The screen tests the error by truthiness, so an empty message would show
  "No data". The client never produces an empty message
  (`Api.FailureMessageNeverEmpty`). So a failed first load always shows the
  error view (`Gallery.FailedLoadThenRetry`).

## Model

| member | source | states |
|---|---|---|
| `Decimal.NatToStringRoundTrip` | services/api.ts:22-24 | The decimal text of a page, limit or status reads back as the same number, so the rendering loses nothing. |
| `Api.ListUrlRoundTrip` | services/api.ts:15-24 | The request URL built by `Api.ListUrl` is the base plus `/list?page=<page>&limit=<limit>`. An endpoint that parses it recovers exactly the page and limit requested. |
| `Api.ListUrlInjective` | services/api.ts:22-24 | Two different (page, limit) requests never share a URL. |
| `Api.HandleOutcome` | services/api.ts:26-44 | A page comes back exactly when the response is ok (status 200-299) and the body parsed. The records are returned unchanged and in order, and hasMore holds iff the count equals the limit. A non-ok status fails with `Failed to fetch photos: HTTP error! status: <status>`. A transport failure, or a body that fails to parse after an ok status, fails with that caught value wrapped. Every failure is an Error whose message starts with the prefix. |
| `Api.Wrap` | services/api.ts:38-44 | The rethrown value is always an Error. Its message is the prefix followed by the caught value's text (`Api.InnerMessage`): the caught Error's message, or `Unknown error` for a non-Error. |
| `Api.FetchPhotos` | services/api.ts:17-45 | Whatever the network does, a resolved page has hasMore iff it holds exactly `limit` records, and a rejection is an Error whose message starts with `Failed to fetch photos: `. |
| `Api.FetchPhotosAsksOnlyForItsPage` | services/api.ts:22-24 | The client consults the network only about the URL of the requested page and limit: two networks that answer that URL alike give the same result. |
| `Api.ShortPageEndsCatalog` | services/api.ts:32 | hasMore is true exactly for a full page, so a short page ends the catalog. |
| `Api.FailureMessageNeverEmpty` | services/api.ts:38-44 | Every rejection of `fetchPhotos` carries a non-empty message that starts with `Failed to fetch photos: `. |
| `Api.WrapInjective` | services/api.ts:38-44 | Distinct inner messages give distinct outer messages. |
| `Api.CatalogServerServes` | services/api.ts:17-37 | Against a stable catalog served page by page, `fetchPhotos(page, limit)` resolves with exactly that page's slice. hasMore says whether the slice was full. |
| `Favorites.InitialFavorites` | hooks/useFavorites.ts:11 | The tracker starts with no identifier marked. |
| `Favorites.ShowToast` | hooks/useFavorites.ts:35-41 | The toast is attempted only when the module offers `showToast`. It carries the chosen message, and a throw is swallowed and logged. |
| `Favorites.ConfirmationMessage` | hooks/useFavorites.ts:31-33 | The message is `Image removed from favorites` iff the id was a member before the toggle, and `Image added to favorites` iff it was not. |
| `Favorites.Toggle` | hooks/useFavorites.ts:20-45 | Stated through `Favorites.IsFavorite`, the membership query of lines 13-15: the toggled id's membership flips and every other id keeps its membership. The message is `Image removed from favorites` iff the id was a member before, else `Image added to favorites`. The toast is attempted iff a sink exists. |
| `Favorites.ToggleIgnoresSink` | hooks/useFavorites.ts:35-43 | The new set and the message are the same whether the toast sink is missing, works or throws. |
| `Favorites.ToggleTwiceRestores` | hooks/useFavorites.ts:22-33 | Toggling the same id twice restores the original set, and the two confirmations differ. |
| `Favorites.ToggleAllParity` | hooks/useFavorites.ts:20-45 | After any run of taps, an id is a favourite iff its starting membership differs from the parity of its tap count. |
| `Favorites.ToggleAllConfirmsEachTap` | hooks/useFavorites.ts:31-41 | With a working sink, tap i displays exactly one confirmation. Its direction matches the membership just before that tap. |
| `Pagination.InitialState` | hooks/usePhotos.ts:16-23 | `Pagination.Init` holds the hook's initial values: no photos, loading true, refreshing and loadingMore false, error null, page 1, hasMore true, not busy and nothing pending. The mount changes only busy and the pending request. |
| `Pagination.Start` | hooks/usePhotos.ts:65-67 | After the mount effect runs on the initial state, the list is empty, loading is true, refreshing and loadingMore are false, and the error is null. Page is 1, hasMore is true, and the busy flag covers exactly one pending page-1 reset request. |
| `Pagination.Begin` | hooks/usePhotos.ts:27-39 | While busy, a call changes nothing. Otherwise it sets busy, clears the error and records the request as pending. It raises loading for a reset and loadingMore for an append. It does not touch the photos, page, hasMore or refreshing. |
| `Pagination.Complete` | hooks/usePhotos.ts:43-59 | On success, a reset replaces the list and an append adds the page after it. Both set page to the request's page number and hasMore to the response's, and leave the error as it was. On failure, the photos, page and hasMore are kept, and the error becomes the Error's message or `Failed to load photos`. Either way loading, refreshing, loadingMore and busy all end false and the request is no longer pending. |
| `Pagination.SettleAsksForPendingPage` | hooks/usePhotos.ts:41 | `Pagination.OnSettle` completes the pending request with the network's answer to that request's page at size 20, and to nothing else. With nothing pending it changes nothing. |
| `Pagination.StartEstablishesInv` | hooks/usePhotos.ts:65-67 | The state after the mount satisfies the controller invariant. |
| `Pagination.StepPreservesInv` | hooks/usePhotos.ts:25-86 | Every callback and every network answer preserves the invariant. Busy holds iff exactly one request is pending, and a busy controller has no error. The status flags describe the pending request, and an idle controller shows no activity. A new request is only issued when none is pending. |
| `Pagination.RunPreservesInv` | hooks/usePhotos.ts:25-86 | The invariant holds after any sequence of events. |
| `Pagination.AtMostOneRequestInFlight` | hooks/usePhotos.ts:27-33 | However callbacks and network answers interleave after the mount, at most one request is pending, and busy is set exactly while one is. |
| `Pagination.BusyDropsCallbacks` | hooks/usePhotos.ts:69-86 | While a request is pending, load-more (`Pagination.OnLoadMore`) and retry (`Pagination.OnRetry`) change nothing. Refresh issues nothing but still lands refreshing, page := 1 and hasMore := true. |
| `Pagination.LoadMoreGate` | hooks/usePhotos.ts:76-82 | Load-more (`Pagination.OnLoadMore`) issues a request iff the controller is idle and hasMore holds, and that request appends page+1. Otherwise the state is unchanged. |
| `Pagination.RefreshGate` | hooks/usePhotos.ts:69-74 | Refresh (`Pagination.OnRefresh`) always sets refreshing, page 1 and hasMore. It issues the page-1 reset request, raises loading and clears the error iff the controller is idle. |
| `Pagination.RefreshReplaces` | hooks/usePhotos.ts:43-44 | A successful refresh replaces the list by the returned first page. The page becomes 1 and the error is null. |
| `Pagination.RetryReplaces` | hooks/usePhotos.ts:84-86 | A successful retry (`Pagination.OnRetry`) replaces the list by the first page and clears the error. |
| `Pagination.LoadMoreAppends` | hooks/usePhotos.ts:45-50 | A successful load-more appends the returned page after the shown photos, in order. It advances the page by one and takes hasMore from the response. |
| `Pagination.FailureKeepsData` | hooks/usePhotos.ts:51-59 | A failed request keeps photos, page and hasMore, and clears every status flag. The error is the client's message, with its prefix. The fallback text cannot appear, because the client always throws an Error. |
| `Pagination.FailedRefreshRewindsCursor` | hooks/usePhotos.ts:69-74 | A failed refresh keeps the old list but leaves page at 1 and hasMore true. |
| `Pagination.LoadMoreStopsAtEnd` | hooks/usePhotos.ts:76-82 | Once hasMore is false, any number of load-more calls leaves the state unchanged. |
| `Pagination.TwentyThenFourteen` | hooks/usePhotos.ts:41-50 | A full first page of 20 followed by a page of 14 gives the 34 photos in order, with page 2 and hasMore false. Further load-more calls are ignored. |
| `Pagination.ScrollingShowsWholeCatalog` | hooks/usePhotos.ts:43-50 | Against a stable catalog, the first page plus (catalog size / 20) load-more rounds shows the whole catalog in order, with no duplicate or gap, and load-more has stopped. |
| `Pagination.FailedRefreshDuplicatesPage` | hooks/usePhotos.ts:69-82 | After two pages of a stable catalog, a failed refresh rewinds page to 1 with both pages still shown. The next load-more then appends page 2 a second time. |
| `Gallery.Cells` | screens/PhotoGalleryScreen.tsx:27-38 | Cell i shows photo i, marked iff that photo's id is a favourite. |
| `Gallery.Render` | screens/PhotoGalleryScreen.tsx:40-92 | Truthiness of the error is `Gallery.Truthy`: null and the empty string are both false (lines 53 and 61). The spinner shows iff loading with no photos. The error view, with the error text, shows iff not loading, the error is truthy and there are no photos. "No data" shows iff not loading, the error is falsy and there are no photos. The grid shows iff there are photos. The grid's footer spinner is present iff loadingMore, and its refresh control mirrors refreshing. |
| `Gallery.PhotosAlwaysShowGrid` | screens/PhotoGalleryScreen.tsx:71-92 | Any non-empty list renders the grid with one cell per photo, whatever the flags and the error say. |
| `Gallery.OnGesture` | screens/PhotoGalleryScreen.tsx:53-84 | In the grid, reaching the end runs load-more, pulling runs refresh, and tapping cell i toggles that photo's id and records one toast. In the error view, the retry action runs retry. In the grid, retry and a tap past the last cell do nothing. The error view ignores every gesture but retry. The spinner and "No data" views offer no gesture. Each cell tap records exactly that toggle's toast. Cell taps never touch the controller, and controller gestures never touch the favourites. |
| `Gallery.PendingResetWithNoPhotosShowsSpinner` | screens/PhotoGalleryScreen.tsx:45-51 | In any reachable state with a reset request pending and no photos, the full-screen spinner shows, even if an error preceded it. |
| `Gallery.MountShowsSpinner` | screens/PhotoGalleryScreen.tsx:45-51 | Right after the mount the screen shows the spinner. |
| `Gallery.FailedLoadThenRetry` | screens/PhotoGalleryScreen.tsx:53-59 | A failed first load shows the error view with the client's message. Retry then issues a page-1 reset request, under the spinner, and its success replaces the error by the grid. |
| `Gallery.EmptyFirstPageShowsNoData` | screens/PhotoGalleryScreen.tsx:61-69 | An empty first page shows "No data", with no error. No gesture leaves that view. |
| `Gallery.TapTouchesOnlyItsPhoto` | screens/PhotoGalleryScreen.tsx:27-38 | Tapping cell i flips that cell's mark, keeps every other id's membership and leaves the controller untouched. |

## Left out

- The HTTP exchange (`fetch`, `response.json()`) is an input: a total function from the requested URL to a status and a body, or to a thrown value. The body is taken to be an array of photo records, because the source casts it without checking it. Photo fields are never validated.
- The default limit of `fetchPhotos` (`Api.DefaultLimit`, 20) is only a constant. The controller always passes 20 explicitly (`Pagination.PageSize`), so the default is never exercised.
- `response.ok` is modelled as a status from 200 to 299, as the Fetch standard defines it.
- JavaScript numbers: page, limit and status are natural numbers, rendered as decimal digits. That rendering matches JavaScript for safe integers (below 2^53). Larger numbers, which JavaScript does not hold exactly and from 10^21 on writes in exponent form, are not modelled. Fractional or negative values cannot reach these fields.
- React mechanics are left out: `useState` batching, effect scheduling and the StrictMode double run of the `setFavorites` updater. Each event updates one record atomically. The `useCallback` snapshot that `handleLoadMore` reads is taken to be the current state.
- The mount effect runs once. Every run of events starts from the state after it.
- Discarding results after unmount: the source does not do it, and the model asserts nothing about teardown.
- The scroll geometry of `onEndReached` (threshold 0.5), list virtualisation, layout, styling and the `PhotoItem`, `LoadingSpinner` and `ErrorView` components are presentation. `ErrorView` is not part of this model.
- The native toast bridge (the Kotlin module and package) is a sink that is missing, displays the message, or throws. `console.error` is recorded only as the `FailedAndLogged` outcome.
- `Api.CatalogServer` is a reference endpoint that serves a stable catalog page by page. It is used to state what scrolling accumulates. It is an assumption about the remote service, not part of the client.
