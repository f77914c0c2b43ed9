/**
 * The remote catalog client of services/api.ts. The HTTP exchange itself
 * (`fetch` and `response.json()`) is not modelled: it is an input, a total
 * function from the requested URL to what the network delivered. What is
 * modelled is everything the client decides on its own: the URL it asks for,
 * the derivation of `hasMore`, and the wording of every failure it throws.
 */
module Api {
  import opened Options
  import opened Decimal

  /** One catalog record as it arrives on the wire. Its fields are not
      validated by the client, so nothing here constrains them. */
  datatype Photo = Photo(id: string, author: string, width: int, height: int, url: string, downloadUrl: string)

  /** The page the client hands to the controller. */
  datatype PhotosResponse = PhotosResponse(photos: seq<Photo>, hasMore: bool)

  /** A thrown JavaScript value: an `Error` (which has a message) or anything else. */
  datatype Thrown = ErrorObject(message: string) | NonErrorValue

  /** What `response.json()` produced: the record array, or a thrown value. */
  datatype Body = JsonArray(items: seq<Photo>) | Unparsable(thrown: Thrown)

  /** What `fetch` produced: a response with a status and a body, or a thrown value. */
  datatype NetworkOutcome = Delivered(status: nat, body: Body) | TransportFailure(thrown: Thrown)

  /** How a call of `fetchPhotos` settles: it resolves with a page or rejects with a thrown value. */
  datatype FetchResult = Fetched(response: PhotosResponse) | Rejected(thrown: Thrown)

  const ApiBaseUrl := "https://picsum.photos/v2"
  const ListPrefix := ApiBaseUrl + "/list?page="
  const LimitKey := "&limit="

  /** The page size `fetchPhotos` uses when its caller gives none. */
  const DefaultLimit: nat := 20

  const FailurePrefix := "Failed to fetch photos: "
  const HttpErrorPrefix := "HTTP error! status: "
  const UnknownError := "Unknown error"

  predicate IsPrefix(p: string, s: string) {
    |p| <= |s| && s[..|p|] == p
  }

  /** `response.ok` of the Fetch standard: the status is in the range 200 to 299. */
  predicate IsOkStatus(status: nat) {
    200 <= status <= 299
  }

  /** The URL requested for one page. */
  function ListUrl(page: nat, limit: nat): string {
    ListPrefix + NatToString(page) + LimitKey + NatToString(limit)
  }

  /** Length of the longest all-digit prefix of `s`. */
  function DigitRun(s: string): (k: nat)
    ensures k <= |s| && AllDigits(s[..k])
    ensures k < |s| ==> !IsDigit(s[k])
  {
    if |s| > 0 && IsDigit(s[0]) then
      var k := 1 + DigitRun(s[1..]);
      assert s[..k] == [s[0]] + s[1..][..k - 1];
      k
    else
      0
  }

  /** How the list endpoint reads a request URL: the page and the limit it
      names, or None when the URL does not have the client's shape. */
  function ParseListUrl(u: string): Option<(nat, nat)> {
    if |u| < |ListPrefix| || u[..|ListPrefix|] != ListPrefix then None
    else
      var rest := u[|ListPrefix|..];
      var k := DigitRun(rest);
      var tail := rest[k..];
      if k == 0 || |tail| < |LimitKey| || tail[..|LimitKey|] != LimitKey then None
      else
        var lim := tail[|LimitKey|..];
        if |lim| == 0 || !AllDigits(lim) then None
        else Some((StringToNat(rest[..k]), StringToNat(lim)))
  }

  lemma {:induction false} DigitRunStopsAtSeparator(a: string, b: string)
    requires AllDigits(a) && |b| > 0 && !IsDigit(b[0])
    ensures DigitRun(a + b) == |a|
    decreases |a|
  {
    if |a| > 0 {
      assert (a + b)[1..] == a[1..] + b;
      DigitRunStopsAtSeparator(a[1..], b);
    } else {
      assert a + b == b;
    }
  }

  /** The endpoint reads back exactly the page and limit the client put in the URL. */
  lemma ListUrlRoundTrip(page: nat, limit: nat)
    ensures ParseListUrl(ListUrl(page, limit)) == Some((page, limit))
  {
    var p := NatToString(page);
    var l := NatToString(limit);
    var u := ListUrl(page, limit);
    assert u == ListPrefix + (p + LimitKey + l);
    assert u[..|ListPrefix|] == ListPrefix;
    var rest := u[|ListPrefix|..];
    assert rest == p + (LimitKey + l);
    DigitRunStopsAtSeparator(p, LimitKey + l);
    assert rest[..|p|] == p;
    var tail := rest[|p|..];
    assert tail == LimitKey + l;
    assert tail[..|LimitKey|] == LimitKey;
    assert tail[|LimitKey|..] == l;
    NatToStringRoundTrip(page);
    NatToStringRoundTrip(limit);
  }

  /** Two different requests never share a URL. */
  lemma ListUrlInjective(p1: nat, l1: nat, p2: nat, l2: nat)
    ensures ListUrl(p1, l1) == ListUrl(p2, l2) ==> p1 == p2 && l1 == l2
  {
    ListUrlRoundTrip(p1, l1);
    ListUrlRoundTrip(p2, l2);
  }

  /** The text of a caught value, as the client's `catch` reads it. */
  function InnerMessage(t: Thrown): string {
    match t
    case ErrorObject(m) => m
    case NonErrorValue => UnknownError
  }

  /** The `Error` the client rethrows for any failure caught inside it. */
  function Wrap(t: Thrown): (r: Thrown)
    ensures r.ErrorObject?
    ensures IsPrefix(FailurePrefix, r.message)
    ensures r.message[|FailurePrefix|..] == InnerMessage(t)
  {
    var m := FailurePrefix + InnerMessage(t);
    assert m[..|FailurePrefix|] == FailurePrefix;
    assert m[|FailurePrefix|..] == InnerMessage(t);
    ErrorObject(m)
  }

  /** The body of `fetchPhotos` after the network has answered. */
  function HandleOutcome(limit: nat, net: NetworkOutcome): (r: FetchResult)
    ensures r.Fetched? <==> net.Delivered? && IsOkStatus(net.status) && net.body.JsonArray?
    ensures r.Fetched? ==> r.response.photos == net.body.items
    ensures r.Fetched? ==> (r.response.hasMore <==> |net.body.items| == limit)
    ensures r.Rejected? ==> r.thrown.ErrorObject? && IsPrefix(FailurePrefix, r.thrown.message)
    ensures net.Delivered? && !IsOkStatus(net.status) ==>
              r == Rejected(ErrorObject(FailurePrefix + HttpErrorPrefix + NatToString(net.status)))
    ensures net.TransportFailure? ==> r == Rejected(Wrap(net.thrown))
    ensures net.Delivered? && IsOkStatus(net.status) && net.body.Unparsable? ==>
              r == Rejected(Wrap(net.body.thrown))
  {
    match net
    case TransportFailure(t) => Rejected(Wrap(t))
    case Delivered(status, body) =>
      if !IsOkStatus(status) then
        assert FailurePrefix + (HttpErrorPrefix + NatToString(status))
            == FailurePrefix + HttpErrorPrefix + NatToString(status);
        Rejected(Wrap(ErrorObject(HttpErrorPrefix + NatToString(status))))
      else
        match body
        case Unparsable(t) => Rejected(Wrap(t))
        case JsonArray(items) => Fetched(PhotosResponse(items, |items| == limit))
  }

  /** `fetchPhotos(page, limit)`: request one page from the network `respond`. */
  function FetchPhotos(page: nat, limit: nat, respond: string -> NetworkOutcome): (r: FetchResult)
    ensures r.Fetched? ==> (r.response.hasMore <==> |r.response.photos| == limit)
    ensures r.Rejected? ==> r.thrown.ErrorObject? && IsPrefix(FailurePrefix, r.thrown.message)
  {
    HandleOutcome(limit, respond(ListUrl(page, limit)))
  }

  /** The client consults the network only about the URL of the page it was
      asked for: two networks that answer that URL alike give the same result. */
  lemma FetchPhotosAsksOnlyForItsPage(page: nat, limit: nat, r1: string -> NetworkOutcome, r2: string -> NetworkOutcome)
    requires r1(ListUrl(page, limit)) == r2(ListUrl(page, limit))
    ensures FetchPhotos(page, limit, r1) == FetchPhotos(page, limit, r2)
  {
  }

  /** A short page ends the catalog: `hasMore` is false whenever fewer records
      than the limit came back, and true only for a full page. */
  lemma ShortPageEndsCatalog(page: nat, limit: nat, respond: string -> NetworkOutcome)
    requires FetchPhotos(page, limit, respond).Fetched?
    ensures var r := FetchPhotos(page, limit, respond).response;
            (r.hasMore <==> |r.photos| == limit) && (|r.photos| < limit ==> !r.hasMore)
  {
  }

  /** A rejection's message never reads as "no error": it is never empty. */
  lemma FailureMessageNeverEmpty(page: nat, limit: nat, respond: string -> NetworkOutcome)
    requires FetchPhotos(page, limit, respond).Rejected?
    ensures FetchPhotos(page, limit, respond).thrown.ErrorObject?
    ensures IsPrefix(FailurePrefix, FetchPhotos(page, limit, respond).thrown.message)
    ensures |FetchPhotos(page, limit, respond).thrown.message| > 0
  {
  }

  /** Distinct causes give distinct messages: the wrapping loses nothing. */
  lemma WrapInjective(t1: Thrown, t2: Thrown)
    ensures Wrap(t1) == Wrap(t2) ==> InnerMessage(t1) == InnerMessage(t2)
  {
  }


  /*
   * A reference endpoint: a stable catalog served page by page, an
   * assumption about the remote service. It is not part of the client; the
   * controller's lemmas use it to say what scrolling accumulates.
   */

  function Min(a: int, b: int): int {
    if a <= b then a else b
  }

  /** Records `(page-1)*limit` up to `page*limit` of the catalog, clipped to its end. */
  function CatalogPage(catalog: seq<Photo>, page: nat, limit: nat): (r: seq<Photo>)
    ensures |r| <= limit
  {
    if page == 0 then []
    else catalog[Min((page - 1) * limit, |catalog|)..Min(page * limit, |catalog|)]
  }

  function CatalogServer(catalog: seq<Photo>): string -> NetworkOutcome {
    (u: string) =>
      match ParseListUrl(u)
      case Some((page, limit)) => Delivered(200, JsonArray(CatalogPage(catalog, page, limit)))
      case None => Delivered(404, JsonArray([]))
  }

  /** `respond` answers every page request of size `limit` with the
      matching slice of the catalog. */
  ghost predicate ServesCatalog(respond: string -> NetworkOutcome, catalog: seq<Photo>, limit: nat) {
    forall page: nat {:trigger FetchPhotos(page, limit, respond)} ::
      FetchPhotos(page, limit, respond)
        == Fetched(PhotosResponse(CatalogPage(catalog, page, limit),
                                  |CatalogPage(catalog, page, limit)| == limit))
  }

  /** Against the reference endpoint the client receives exactly the requested
      slice of the catalog, and `hasMore` says whether that slice was full. */
  lemma CatalogServerServes(catalog: seq<Photo>, limit: nat)
    ensures ServesCatalog(CatalogServer(catalog), catalog, limit)
  {
    forall page: nat
      ensures FetchPhotos(page, limit, CatalogServer(catalog))
           == Fetched(PhotosResponse(CatalogPage(catalog, page, limit),
                                     |CatalogPage(catalog, page, limit)| == limit))
    {
      ListUrlRoundTrip(page, limit);
    }
  }

}
