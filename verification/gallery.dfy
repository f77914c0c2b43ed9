/**
 * The gallery screen of screens/PhotoGalleryScreen.tsx: which of its four
 * top-level views it renders for a controller state and a favourites set,
 * and which controller or tracker operation each gesture reaches.
 */
module Gallery {
  import opened Options
  import Api
  import Pagination
  import Favorites

  /** One grid cell: the photo and whether it is marked. */
  datatype Cell = Cell(photo: Api.Photo, favorite: bool)

  /** The top-level views. The grid carries its cells, the state mirrored by
      the pull-to-refresh control, and whether the footer spinner is shown. */
  datatype View =
    | Spinner
    | ErrorView(message: string)
    | NoData
    | Grid(cells: seq<Cell>, refreshing: bool, footer: bool)

  /** JavaScript truthiness of `string | null`: null and "" are both false. */
  predicate Truthy(e: Option<string>) {
    e.Some? && e.value != ""
  }

  function Cells(photos: seq<Api.Photo>, favorites: set<Favorites.PhotoId>): (cells: seq<Cell>)
    ensures |cells| == |photos|
    ensures forall i :: 0 <= i < |photos| ==>
              cells[i].photo == photos[i] && (cells[i].favorite <==> Favorites.IsFavorite(favorites, photos[i].id))
  {
    seq(|photos|, i requires 0 <= i < |photos| => Cell(photos[i], Favorites.IsFavorite(favorites, photos[i].id)))
  }

  /** The render: the first branch whose test holds, in source order. */
  function Render(s: Pagination.State, favorites: set<Favorites.PhotoId>): (v: View)
    ensures v.Spinner? <==> s.loading && |s.photos| == 0
    ensures v.ErrorView? <==> !s.loading && Truthy(s.error) && |s.photos| == 0
    ensures v.NoData? <==> !s.loading && !Truthy(s.error) && |s.photos| == 0
    ensures v.Grid? <==> |s.photos| > 0
    ensures v.ErrorView? ==> s.error == Some(v.message)
    ensures v.Grid? ==> v.cells == Cells(s.photos, favorites)
    ensures v.Grid? ==> (v.footer <==> s.loadingMore) && (v.refreshing <==> s.refreshing)
  {
    if s.loading && |s.photos| == 0 then Spinner
    else if Truthy(s.error) && |s.photos| == 0 then ErrorView(s.error.value)
    else if !s.loading && !Truthy(s.error) && |s.photos| == 0 then NoData
    else Grid(Cells(s.photos, favorites), s.refreshing, s.loadingMore)
  }

  /** A non-empty list always shows the grid, whatever the status flags say:
      a failed refresh or load-more keeps the photos on screen. */
  lemma PhotosAlwaysShowGrid(s: Pagination.State, favorites: set<Favorites.PhotoId>)
    requires |s.photos| > 0
    ensures Render(s, favorites).Grid?
    ensures |Render(s, favorites).cells| == |s.photos|
  {
  }

  /** What the user can do. A cell is named by its position in the grid. */
  datatype Gesture = EndReached | PullToRefresh | TapRetry | TapCell(index: nat)

  /** The whole screen: the controller, the favourites, and the toasts so far. */
  datatype Screen = Screen(photos: Pagination.State, favorites: set<Favorites.PhotoId>, toasts: seq<Favorites.ToastEffect>)

  function InitialScreen(): Screen {
    Screen(Pagination.Start(), Favorites.InitialFavorites(), [])
  }

  /** A gesture reaches the operation wired to it in the view on screen; a
      gesture the view does not offer does nothing. */
  function OnGesture(scr: Screen, g: Gesture, sink: Favorites.ToastSink): (r: Screen)
    ensures g.TapCell? ==> r.photos == scr.photos
    ensures !g.TapCell? ==> r.favorites == scr.favorites && r.toasts == scr.toasts
    ensures Render(scr.photos, scr.favorites).Grid? && g.EndReached? ==> r.photos == Pagination.OnLoadMore(scr.photos)
    ensures Render(scr.photos, scr.favorites).Grid? && g.PullToRefresh? ==> r.photos == Pagination.OnRefresh(scr.photos)
    ensures Render(scr.photos, scr.favorites).ErrorView? && g.TapRetry? ==> r.photos == Pagination.OnRetry(scr.photos)
    ensures Render(scr.photos, scr.favorites).Grid? && g.TapCell? && g.index < |scr.photos.photos| ==>
              var id := scr.photos.photos[g.index].id;
              (Favorites.IsFavorite(r.favorites, id) <==> !Favorites.IsFavorite(scr.favorites, id))
              && r.toasts == scr.toasts + [Favorites.Toggle(scr.favorites, id, sink).toast]
    ensures (Render(scr.photos, scr.favorites).Grid? && (g.TapRetry? || (g.TapCell? && g.index >= |scr.photos.photos|)))
            ==> r == scr
    ensures Render(scr.photos, scr.favorites).ErrorView? && !g.TapRetry? ==> r == scr
    ensures Render(scr.photos, scr.favorites).Spinner? || Render(scr.photos, scr.favorites).NoData? ==> r == scr
  {
    match Render(scr.photos, scr.favorites)
    case Grid(_, _, _) =>
      (match g
       case EndReached => scr.(photos := Pagination.OnLoadMore(scr.photos))
       case PullToRefresh => scr.(photos := Pagination.OnRefresh(scr.photos))
       case TapRetry => scr
       case TapCell(i) =>
         if i < |scr.photos.photos| then
           var t := Favorites.Toggle(scr.favorites, scr.photos.photos[i].id, sink);
           scr.(favorites := t.favorites, toasts := scr.toasts + [t.toast])
         else scr)
    case ErrorView(_) =>
      if g.TapRetry? then scr.(photos := Pagination.OnRetry(scr.photos)) else scr
    case Spinner => scr
    case NoData => scr
  }

  /** While the first page is pending the spinner covers the screen; this is
      the view right after the mount. */
  lemma PendingResetWithNoPhotosShowsSpinner(s: Pagination.State, favorites: set<Favorites.PhotoId>)
    requires Pagination.Inv(s) && s.busy && s.inFlight[0].reset && |s.photos| == 0
    ensures Render(s, favorites) == Spinner
  {
  }

  lemma MountShowsSpinner()
    ensures Render(InitialScreen().photos, InitialScreen().favorites) == Spinner
  {
  }

  /** A failed first load shows the error view with the client's message,
      never the empty-state view; tapping retry then issues a page-1 reset
      request, and its success replaces the error view by the grid. */
  lemma FailedLoadThenRetry(fail: string -> Api.NetworkOutcome, ok: string -> Api.NetworkOutcome,
                            sink: Favorites.ToastSink)
    requires Api.FetchPhotos(1, Pagination.PageSize, fail).Rejected?
    requires Api.FetchPhotos(1, Pagination.PageSize, ok).Fetched?
    requires |Api.FetchPhotos(1, Pagination.PageSize, ok).response.photos| > 0
    ensures var s1 := Pagination.OnSettle(Pagination.Start(), fail);
            var v1 := Render(s1, {});
            && v1.ErrorView?
            && Api.IsPrefix(Api.FailurePrefix, v1.message)
            && var scr2 := OnGesture(Screen(s1, {}, []), TapRetry, sink);
               && scr2.photos.inFlight == [Pagination.Request(1, true)]
               && Render(scr2.photos, {}) == Spinner
               && var s3 := Pagination.OnSettle(scr2.photos, ok);
                  && s3.photos == Api.FetchPhotos(1, Pagination.PageSize, ok).response.photos
                  && s3.error == None
                  && Render(s3, {}).Grid?
  {
    var s1 := Pagination.OnSettle(Pagination.Start(), fail);
    Pagination.FailureKeepsData(Pagination.Start(), fail);
    Pagination.StartEstablishesInv();
    Pagination.StepPreservesInv(Pagination.Start(), Pagination.Settle(fail));
    Pagination.RetryReplaces(s1, ok);
  }

  /** A first page with no records shows the empty-state view, with no grid
      and no error; that view offers no gesture, so nothing can leave it. */
  lemma EmptyFirstPageShowsNoData(respond: string -> Api.NetworkOutcome, g: Gesture, sink: Favorites.ToastSink)
    requires Api.FetchPhotos(1, Pagination.PageSize, respond).Fetched?
    requires Api.FetchPhotos(1, Pagination.PageSize, respond).response.photos == []
    ensures var s := Pagination.OnSettle(Pagination.Start(), respond);
            && Render(s, {}) == NoData
            && s.error == None
            && OnGesture(Screen(s, {}, []), g, sink) == Screen(s, {}, [])
  {
  }

  /** Tapping a cell and the controller are independent: a tap marks or
      unmarks that photo alone and never touches the list or its status. */
  lemma TapTouchesOnlyItsPhoto(scr: Screen, i: nat, sink: Favorites.ToastSink, other: Favorites.PhotoId)
    requires |scr.photos.photos| > 0 && i < |scr.photos.photos|
    requires other != scr.photos.photos[i].id
    ensures var r := OnGesture(scr, TapCell(i), sink);
            && r.photos == scr.photos
            && (Favorites.IsFavorite(r.favorites, other) <==> Favorites.IsFavorite(scr.favorites, other))
            && Render(r.photos, r.favorites).cells[i].favorite == !Render(scr.photos, scr.favorites).cells[i].favorite
  {
  }

}
