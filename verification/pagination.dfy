/**
 * The pagination controller of hooks/usePhotos.ts, as a state machine over
 * one immutable record. The asynchronous `loadPhotos` is split into its two
 * atomic halves: Begin (everything before the `await`) and Complete (the
 * `try` tail, the `catch` and the `finally`). The network answers through a
 * Settle event, which completes the oldest pending call.
 */
module Pagination {
  import opened Options
  import Api

  /** The page size the controller passes to `fetchPhotos`. */
  const PageSize: nat := 20

  /** The error shown when the caught value is not an `Error`. */
  const FallbackMessage := "Failed to load photos"

  /** The arguments of one `loadPhotos` call. */
  datatype Request = Request(pageNum: nat, reset: bool)

  /** The hook's state. `busy` is `isLoadingRef.current`. `inFlight` is not a
      field of the hook: it records the calls of `loadPhotos` that passed the
      gate and are suspended at the `await`, in the order they were made. */
  datatype State = State(
    photos: seq<Api.Photo>,
    loading: bool,
    refreshing: bool,
    loadingMore: bool,
    error: Option<string>,
    page: nat,
    hasMore: bool,
    busy: bool,
    inFlight: seq<Request>)

  /** What can happen to the controller: one of its three callbacks is
      invoked, or the network answers the pending request. */
  datatype Event =
    | Refresh
    | LoadMore
    | Retry
    | Settle(respond: string -> Api.NetworkOutcome)

  /** The state before the mount effect runs. */
  function Init(): State {
    State([], true, false, false, None, 1, true, false, [])
  }

  /** The first half of `loadPhotos(pageNum, reset)`: dropped when busy;
      otherwise sets busy, clears the error and raises the flag that matches
      the mode, leaving the data untouched. */
  function Begin(s: State, req: Request): (s': State)
    ensures s.busy ==> s' == s
    ensures !s.busy ==> s'.busy && s'.error == None && s'.inFlight == s.inFlight + [req]
    ensures !s.busy ==> (s'.loading <==> req.reset || s.loading)
    ensures !s.busy ==> (s'.loadingMore <==> !req.reset || s.loadingMore)
    ensures s'.photos == s.photos && s'.page == s.page && s'.hasMore == s.hasMore
    ensures s'.refreshing == s.refreshing
  {
    if s.busy then s
    else
      var s1 := s.(busy := true, error := None, inFlight := s.inFlight + [req]);
      if req.reset then s1.(loading := true) else s1.(loadingMore := true)
  }

  /** The second half of `loadPhotos`: the pending call with the oldest
      arguments settles with `result`. */
  function Complete(s: State, result: Api.FetchResult): (s': State)
    requires |s.inFlight| > 0
    ensures !s'.loading && !s'.refreshing && !s'.loadingMore && !s'.busy
    ensures s'.inFlight == s.inFlight[1..]
    ensures result.Fetched? ==>
              && s'.photos == (if s.inFlight[0].reset then [] else s.photos) + result.response.photos
              && s'.page == s.inFlight[0].pageNum
              && s'.hasMore == result.response.hasMore
              && s'.error == s.error
    ensures result.Rejected? ==>
              && s'.photos == s.photos && s'.page == s.page && s'.hasMore == s.hasMore
              && s'.error.Some?
              && (result.thrown.ErrorObject? ==> s'.error.value == result.thrown.message)
              && (result.thrown.NonErrorValue? ==> s'.error.value == FallbackMessage)
  {
    var req := s.inFlight[0];
    var settled :=
      match result
      case Fetched(response) =>
        s.(photos := if req.reset then response.photos else s.photos + response.photos,
           hasMore := response.hasMore,
           page := req.pageNum)
      case Rejected(thrown) =>
        s.(error := Some(if thrown.ErrorObject? then thrown.message else FallbackMessage));
    settled.(loading := false, refreshing := false, loadingMore := false, busy := false,
             inFlight := s.inFlight[1..])
  }

  /** The mount effect: `loadPhotos(1, true)` on the initial state. */
  function Start(): (s: State)
    ensures s.photos == [] && s.loading && !s.refreshing && !s.loadingMore
    ensures s.error == None && s.page == 1 && s.hasMore
    ensures s.busy && s.inFlight == [Request(1, true)]
  {
    Begin(Init(), Request(1, true))
  }

  /** `handleRefresh`: three writes made before the gate, then the gated reset load. */
  function OnRefresh(s: State): State {
    Begin(s.(refreshing := true, page := 1, hasMore := true), Request(1, true))
  }

  /** `handleLoadMore`: its own gate on the status flags and `hasMore`, then
      the gated append load of the next page. */
  function OnLoadMore(s: State): State {
    if s.loadingMore || s.loading || !s.hasMore then s
    else Begin(s, Request(s.page + 1, false))
  }

  /** `retry`: the gated reset load of page 1, with no other writes. */
  function OnRetry(s: State): State {
    Begin(s, Request(1, true))
  }

  /** The network answers the oldest pending request; with nothing pending
      there is nothing to answer. */
  function OnSettle(s: State, respond: string -> Api.NetworkOutcome): State {
    if |s.inFlight| == 0 then s
    else Complete(s, Api.FetchPhotos(s.inFlight[0].pageNum, PageSize, respond))
  }

  function Step(s: State, e: Event): State {
    match e
    case Refresh => OnRefresh(s)
    case LoadMore => OnLoadMore(s)
    case Retry => OnRetry(s)
    case Settle(respond) => OnSettle(s, respond)
  }

  function Run(s: State, events: seq<Event>): State
    decreases |events|
  {
    if |events| == 0 then s else Run(Step(s, events[0]), events[1..])
  }

  /** What holds in every state from the mount onwards: the busy flag stands
      for exactly one pending call, the status flags describe that call, and
      an idle controller shows no activity. */
  ghost predicate Inv(s: State) {
    && |s.inFlight| <= 1
    && (s.busy <==> |s.inFlight| == 1)
    && (s.busy ==> s.error == None)
    && (s.busy ==> (s.loading <==> s.inFlight[0].reset) && (s.loadingMore <==> !s.inFlight[0].reset))
    && (s.busy ==> s.inFlight[0].pageNum >= 1)
    && (s.busy && s.inFlight[0].reset ==> s.inFlight[0].pageNum == 1)
    && (!s.busy ==> !s.loading && !s.loadingMore && !s.refreshing)
    && s.page >= 1
  }

  /** The hook's initial `useState` values: nothing shown, loading raised,
      page 1 with more expected, and no request yet. The mount effect only
      adds the page-1 reset request and the busy flag that covers it. */
  lemma InitialState()
    ensures var s := Init();
            && s.photos == [] && s.loading && !s.refreshing && !s.loadingMore
            && s.error == None && s.page == 1 && s.hasMore && !s.busy && s.inFlight == []
    ensures Start() == Init().(busy := true, inFlight := [Request(1, true)])
  {
  }

  /** A settle completes the pending request with the answer to exactly the
      URL of its page at size 20; with nothing pending it changes nothing. */
  lemma SettleAsksForPendingPage(s: State, r1: string -> Api.NetworkOutcome, r2: string -> Api.NetworkOutcome)
    requires |s.inFlight| > 0 ==>
               r1(Api.ListUrl(s.inFlight[0].pageNum, PageSize)) == r2(Api.ListUrl(s.inFlight[0].pageNum, PageSize))
    ensures OnSettle(s, r1) == OnSettle(s, r2)
    ensures |s.inFlight| == 0 ==> OnSettle(s, r1) == s
  {
  }

  /** The mount leaves the controller in a state the invariant describes. */
  lemma StartEstablishesInv()
    ensures Inv(Start())
  {
  }

  /** Every event keeps the invariant. In particular a call of `loadPhotos`
      only passes the gate when nothing is pending. */
  lemma StepPreservesInv(s: State, e: Event)
    requires Inv(s)
    ensures Inv(Step(s, e))
    ensures |Step(s, e).inFlight| > |s.inFlight| ==> s.inFlight == []
  {
  }

  lemma {:induction false} RunPreservesInv(s: State, events: seq<Event>)
    requires Inv(s)
    ensures Inv(Run(s, events))
    decreases |events|
  {
    if |events| > 0 {
      StepPreservesInv(s, events[0]);
      RunPreservesInv(Step(s, events[0]), events[1..]);
    }
  }

  /** However the callbacks and the network answers interleave after the
      mount, at most one request is ever pending, and the busy flag is set
      exactly while one is. */
  lemma AtMostOneRequestInFlight(events: seq<Event>)
    ensures |Run(Start(), events).inFlight| <= 1
    ensures Run(Start(), events).busy <==> |Run(Start(), events).inFlight| == 1
  {
    StartEstablishesInv();
    RunPreservesInv(Start(), events);
  }

  lemma {:induction false} RunAppend(s: State, a: seq<Event>, b: seq<Event>)
    ensures Run(s, a + b) == Run(Run(s, a), b)
    decreases |a|
  {
    if |a| > 0 {
      assert (a + b)[0] == a[0];
      assert (a + b)[1..] == a[1..] + b;
      RunAppend(Step(s, a[0]), a[1..], b);
    } else {
      assert a + b == b;
    }
  }

  lemma RunPair(s: State, e1: Event, e2: Event)
    ensures Run(s, [e1, e2]) == Step(Step(s, e1), e2)
  {
    assert [e1, e2][1..] == [e2];
    assert [e2][1..] == [];
    assert Run(s, [e1, e2]) == Run(Step(s, e1), [e2]);
    assert Run(Step(s, e1), [e2]) == Run(Step(Step(s, e1), e2), []);
  }

  /** While a request is pending, load-more and retry are dropped outright.
      Refresh is dropped too, but its three writes before the gate still land. */
  lemma BusyDropsCallbacks(s: State)
    requires Inv(s) && s.busy
    ensures OnLoadMore(s) == s
    ensures OnRetry(s) == s
    ensures OnRefresh(s) == s.(refreshing := true, page := 1, hasMore := true)
  {
  }

  /** Load-more issues a request exactly when the controller is idle and
      `hasMore` holds, and the request is the append of the next page. */
  lemma LoadMoreGate(s: State)
    requires Inv(s)
    ensures OnLoadMore(s).inFlight != s.inFlight <==> !s.busy && s.hasMore
    ensures !s.busy && s.hasMore ==>
              OnLoadMore(s).inFlight == [Request(s.page + 1, false)]
              && OnLoadMore(s).loadingMore && !OnLoadMore(s).loading
    ensures !(!s.busy && s.hasMore) ==> OnLoadMore(s) == s
  {
  }

  /** Refresh always lands its three early writes; it issues the page-1 reset
      request, and raises `loading` as well, exactly when the controller is idle. */
  lemma RefreshGate(s: State)
    requires Inv(s)
    ensures OnRefresh(s).refreshing && OnRefresh(s).page == 1 && OnRefresh(s).hasMore
    ensures OnRefresh(s).photos == s.photos
    ensures OnRefresh(s).inFlight != s.inFlight <==> !s.busy
    ensures !s.busy ==>
              OnRefresh(s).inFlight == [Request(1, true)] && OnRefresh(s).loading
              && OnRefresh(s).error == None
  {
  }

  /** A successful refresh from an idle controller replaces the list by the
      first page, whatever was shown before. */
  lemma RefreshReplaces(s: State, respond: string -> Api.NetworkOutcome)
    requires Inv(s) && !s.busy
    requires Api.FetchPhotos(1, PageSize, respond).Fetched?
    ensures var r := Api.FetchPhotos(1, PageSize, respond).response;
            var s' := OnSettle(OnRefresh(s), respond);
            s'.photos == r.photos && s'.page == 1 && s'.hasMore == r.hasMore
            && s'.error == None && !s'.busy && Inv(s')
  {
    StepPreservesInv(s, Refresh);
    StepPreservesInv(OnRefresh(s), Settle(respond));
  }

  /** Retry behaves as a refresh without the early writes: on success it
      replaces the list by the first page and clears the error. */
  lemma RetryReplaces(s: State, respond: string -> Api.NetworkOutcome)
    requires Inv(s) && !s.busy
    requires Api.FetchPhotos(1, PageSize, respond).Fetched?
    ensures var r := Api.FetchPhotos(1, PageSize, respond).response;
            var s' := OnSettle(OnRetry(s), respond);
            s'.photos == r.photos && s'.page == 1 && s'.hasMore == r.hasMore && s'.error == None
  {
  }

  /** A successful load-more from an idle controller with more to come
      appends the next page after the shown photos, in order. */
  lemma LoadMoreAppends(s: State, respond: string -> Api.NetworkOutcome)
    requires Inv(s) && !s.busy && s.hasMore
    requires Api.FetchPhotos(s.page + 1, PageSize, respond).Fetched?
    ensures var r := Api.FetchPhotos(s.page + 1, PageSize, respond).response;
            var s' := OnSettle(OnLoadMore(s), respond);
            s'.photos == s.photos + r.photos && s'.page == s.page + 1
            && s'.hasMore == r.hasMore && s'.error == None
  {
  }

  /** A failed request keeps the list, the page and `hasMore` as they were
      when it settled, and always leaves the client's non-empty message as the
      error; the fallback text never appears. */
  lemma FailureKeepsData(s: State, respond: string -> Api.NetworkOutcome)
    requires |s.inFlight| > 0
    requires Api.FetchPhotos(s.inFlight[0].pageNum, PageSize, respond).Rejected?
    ensures var s' := OnSettle(s, respond);
            && s'.photos == s.photos && s'.page == s.page && s'.hasMore == s.hasMore
            && s'.error.Some? && Api.IsPrefix(Api.FailurePrefix, s'.error.value)
            && s'.error.value != FallbackMessage
            && !s'.loading && !s'.refreshing && !s'.loadingMore && !s'.busy
  {
  }

  /** As written, a failed refresh still rewinds the cursor: the old list
      stays on screen while `page` is back at 1 and `hasMore` is true. */
  lemma FailedRefreshRewindsCursor(s: State, respond: string -> Api.NetworkOutcome)
    requires Inv(s) && !s.busy
    requires Api.FetchPhotos(1, PageSize, respond).Rejected?
    ensures var s' := OnSettle(OnRefresh(s), respond);
            s'.photos == s.photos && s'.page == 1 && s'.hasMore && s'.error.Some?
  {
  }

  function Repeat(e: Event, n: nat): (r: seq<Event>)
    ensures |r| == n
  {
    if n == 0 then [] else [e] + Repeat(e, n - 1)
  }

  /** Once `hasMore` is false, any number of load-more calls changes nothing. */
  lemma {:induction false} LoadMoreStopsAtEnd(s: State, n: nat)
    requires !s.hasMore
    ensures Run(s, Repeat(LoadMore, n)) == s
    decreases n
  {
    if n > 0 {
      assert Repeat(LoadMore, n)[1..] == Repeat(LoadMore, n - 1);
      LoadMoreStopsAtEnd(s, n - 1);
    }
  }

  /** A network that answers every URL with the same record array. */
  function Serve(items: seq<Api.Photo>): string -> Api.NetworkOutcome {
    (u: string) => Api.Delivered(200, Api.JsonArray(items))
  }

  /** A full first page of 20 then a page of 14: 34 photos in order, the end
      is recognised, and further load-more calls are ignored. */
  lemma TwentyThenFourteen(p1: seq<Api.Photo>, p2: seq<Api.Photo>, n: nat)
    requires |p1| == 20 && |p2| == 14
    ensures var s1 := OnSettle(Start(), Serve(p1));
            var s2 := OnSettle(OnLoadMore(s1), Serve(p2));
            && s1.hasMore && s1.page == 1
            && s2.photos == p1 + p2 && |s2.photos| == 34
            && !s2.hasMore && s2.page == 2
            && Run(s2, Repeat(LoadMore, n)) == s2
  {
    var s1 := OnSettle(Start(), Serve(p1));
    var s2 := OnSettle(OnLoadMore(s1), Serve(p2));
    LoadMoreStopsAtEnd(s2, n);
  }

  /*
   * Scrolling through a stable catalog served by the reference endpoint.
   */

  /** An idle controller whose list is exactly the first `page` pages of the
      catalog, and whose `hasMore` says whether the last of them was full. */
  ghost predicate Mirrors(s: State, catalog: seq<Api.Photo>) {
    && Inv(s) && !s.busy && s.error == None
    && s.page * PageSize <= |catalog| + PageSize
    && s.photos == catalog[..Api.Min(s.page * PageSize, |catalog|)]
    && (s.hasMore <==> s.page * PageSize <= |catalog|)
  }

  function Rounds(respond: string -> Api.NetworkOutcome, n: nat): seq<Event> {
    if n == 0 then [] else [LoadMore, Settle(respond)] + Rounds(respond, n - 1)
  }

  lemma FirstPageMirrors(respond: string -> Api.NetworkOutcome, catalog: seq<Api.Photo>)
    requires Api.ServesCatalog(respond, catalog, PageSize)
    ensures Mirrors(OnSettle(Start(), respond), catalog)
  {
    assert Api.FetchPhotos(1, PageSize, respond)
        == Api.Fetched(Api.PhotosResponse(Api.CatalogPage(catalog, 1, PageSize),
                                          |Api.CatalogPage(catalog, 1, PageSize)| == PageSize));
    StartEstablishesInv();
    StepPreservesInv(Start(), Settle(respond));
  }

  /** One load-more round against the catalog moves to the next page and
      keeps the list equal to a prefix of the catalog. */
  lemma RoundMirrors(s: State, respond: string -> Api.NetworkOutcome, catalog: seq<Api.Photo>)
    requires Api.ServesCatalog(respond, catalog, PageSize)
    requires Mirrors(s, catalog) && s.hasMore
    ensures Mirrors(Run(s, [LoadMore, Settle(respond)]), catalog)
    ensures Run(s, [LoadMore, Settle(respond)]).page == s.page + 1
  {
    var s' := OnSettle(OnLoadMore(s), respond);
    RunPair(s, LoadMore, Settle(respond));
    var lo := s.page * PageSize;
    var hi := Api.Min(lo + PageSize, |catalog|);
    var pg := Api.CatalogPage(catalog, s.page + 1, PageSize);
    assert pg == catalog[lo..hi] by {
      assert (s.page + 1) * PageSize == lo + PageSize;
      assert (s.page + 1 - 1) * PageSize == lo;
    }
    assert Api.FetchPhotos(s.page + 1, PageSize, respond)
        == Api.Fetched(Api.PhotosResponse(pg, |pg| == PageSize));
    LoadMoreAppends(s, respond);
    assert s'.photos == catalog[..lo] + catalog[lo..hi];
    assert catalog[..lo] + catalog[lo..hi] == catalog[..hi];
    StepPreservesInv(s, LoadMore);
    StepPreservesInv(OnLoadMore(s), Settle(respond));
    assert s'.page * PageSize == lo + PageSize;
  }

  lemma {:induction false} IdleRoundsChangeNothing(s: State, respond: string -> Api.NetworkOutcome, n: nat)
    requires !s.hasMore && s.inFlight == []
    ensures Run(s, Rounds(respond, n)) == s
    decreases n
  {
    if n > 0 {
      var ev := [LoadMore, Settle(respond)];
      assert Rounds(respond, n) == ev + Rounds(respond, n - 1);
      RunAppend(s, ev, Rounds(respond, n - 1));
      RunPair(s, LoadMore, Settle(respond));
      IdleRoundsChangeNothing(s, respond, n - 1);
    }
  }

  lemma {:induction false} RoundsReachEnd(s: State, respond: string -> Api.NetworkOutcome, catalog: seq<Api.Photo>, n: nat)
    requires Api.ServesCatalog(respond, catalog, PageSize)
    requires Mirrors(s, catalog)
    requires n + s.page >= |catalog| / PageSize + 1
    ensures Mirrors(Run(s, Rounds(respond, n)), catalog)
    ensures !Run(s, Rounds(respond, n)).hasMore
    decreases n
  {
    if !s.hasMore {
      IdleRoundsChangeNothing(s, respond, n);
    } else {
      var ev := [LoadMore, Settle(respond)];
      assert Rounds(respond, n) == ev + Rounds(respond, n - 1);
      RunAppend(s, ev, Rounds(respond, n - 1));
      RoundMirrors(s, respond, catalog);
      RoundsReachEnd(Run(s, ev), respond, catalog, n - 1);
    }
  }

  /** Against a stable catalog, the first page followed by |catalog| / 20
      load-more rounds shows the whole catalog, in order, with no duplicate or
      gap, and load-more has stopped. When the catalog size is a multiple of
      20 this takes one extra round that returns an empty page. */
  lemma ScrollingShowsWholeCatalog(catalog: seq<Api.Photo>)
    ensures var server := Api.CatalogServer(catalog);
            var s := Run(Start(), [Settle(server)] + Rounds(server, |catalog| / PageSize));
            s.photos == catalog && !s.hasMore && s.error == None
  {
    var server := Api.CatalogServer(catalog);
    Api.CatalogServerServes(catalog, PageSize);
    var first := [Settle(server)];
    RunAppend(Start(), first, Rounds(server, |catalog| / PageSize));
    assert Run(Start(), first) == OnSettle(Start(), server) by {
      assert first[1..] == [];
    }
    FirstPageMirrors(server, catalog);
    var s1 := OnSettle(Start(), server);
    RoundsReachEnd(s1, server, catalog, |catalog| / PageSize);
    var s := Run(s1, Rounds(server, |catalog| / PageSize));
    assert s.photos == catalog[..|catalog|];
  }

  /** As written, the early writes of refresh can desynchronise the cursor
      from the list: after two pages, a failed refresh rewinds `page` to 1
      with both pages still shown, and the next load-more appends page 2 of
      the catalog a second time. */
  lemma FailedRefreshDuplicatesPage(catalog: seq<Api.Photo>, down: string -> Api.NetworkOutcome)
    requires |catalog| >= 40
    requires Api.FetchPhotos(1, PageSize, down).Rejected?
    ensures var server := Api.CatalogServer(catalog);
            var s2 := OnSettle(OnLoadMore(OnSettle(Start(), server)), server);
            var s3 := OnSettle(OnRefresh(s2), down);
            var s4 := OnSettle(OnLoadMore(s3), server);
            && s2.photos == catalog[..40] && s2.page == 2
            && s3.photos == catalog[..40] && s3.page == 1 && s3.hasMore
            && s4.photos == catalog[..40] + catalog[20..40]
  {
    var server := Api.CatalogServer(catalog);
    Api.CatalogServerServes(catalog, PageSize);
    FailedRefreshDuplicatesOn(server, catalog, down);
  }

  lemma FailedRefreshDuplicatesOn(respond: string -> Api.NetworkOutcome, catalog: seq<Api.Photo>,
                                  down: string -> Api.NetworkOutcome)
    requires Api.ServesCatalog(respond, catalog, PageSize)
    requires |catalog| >= 40
    requires Api.FetchPhotos(1, PageSize, down).Rejected?
    ensures var s2 := OnSettle(OnLoadMore(OnSettle(Start(), respond)), respond);
            var s3 := OnSettle(OnRefresh(s2), down);
            var s4 := OnSettle(OnLoadMore(s3), respond);
            && s2.photos == catalog[..40] && s2.page == 2
            && s3.photos == catalog[..40] && s3.page == 1 && s3.hasMore
            && s4.photos == catalog[..40] + catalog[20..40]
  {
    var s1 := OnSettle(Start(), respond);
    FirstPageMirrors(respond, catalog);
    RoundMirrors(s1, respond, catalog);
    RunPair(s1, LoadMore, Settle(respond));
    var s2 := OnSettle(OnLoadMore(s1), respond);
    assert s2.photos == catalog[..40];
    var s3 := OnSettle(OnRefresh(s2), down);
    FailedRefreshRewindsCursor(s2, down);
    StepPreservesInv(s2, Refresh);
    StepPreservesInv(OnRefresh(s2), Settle(down));
    assert Api.FetchPhotos(2, PageSize, respond)
        == Api.Fetched(Api.PhotosResponse(Api.CatalogPage(catalog, 2, PageSize),
                                          |Api.CatalogPage(catalog, 2, PageSize)| == PageSize));
    assert Api.CatalogPage(catalog, 2, PageSize) == catalog[20..40];
    LoadMoreAppends(s3, respond);
  }

}
