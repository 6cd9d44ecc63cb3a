/**
 * The web3.storage client (`Client`): it keeps an endpoint and a token, and
 * each of its operations is one HTTP request against a URL built by string
 * concatenation. An operation here yields the request it would hand to the
 * HTTP library (verb, URL, the token its `BearerAuth` carries, body), or
 * says that no request is made, or that the call raises.
 */
module Web3Storage {
  import opened Wrappers
  import Credentials
  import Auth

  type byte = bv8

  /** The constructor's default endpoint. */
  const DefaultEndpoint: string := "https://api.web3.storage"

  const UserUploadsRoute: string := "/user/uploads/"
  const UploadRoute: string := "/upload"
  const CarRoute: string := "/car/"
  const StatusRoute: string := "/status/"

  /** A client: both fields are set by the constructor and never change. */
  datatype Client = Client(endpoint: string, token: Option<string>)

  datatype Verb = Get | Post | Head

  /** A prepared request; `auth` is the token `BearerAuth` put into its header. */
  datatype Request = Request(verb: Verb, url: string, auth: string, body: seq<byte>)

  /** The Python exception a call raises. */
  datatype Failure = TypeError

  datatype Outcome = Issued(request: Request) | NotIssued | Raised(failure: Failure)

  /** `Client(endpoint, token)`: an explicit token is kept verbatim (even an
      empty one: only `None` sends the constructor to the configuration file). */
  function NewClient(env: Option<string>, defaultPath: string, files: map<string, seq<string>>,
                     endpoint: string := DefaultEndpoint, token: Option<string> := None): (c: Client)
    ensures c.endpoint == endpoint
    ensures token.Some? ==> c.token == token
    ensures token.None? ==> c.token == Credentials.ChooseToken(None, Credentials.ConfigFile(env, defaultPath, files))
  {
    Client(endpoint, Credentials.ResolveToken(token, env, defaultPath, files))
  }

  // ---------------------------------------------------------------------
  // URLs
  // ---------------------------------------------------------------------

  /** The uploads listing: the endpoint followed by `/user/uploads/`. */
  function UserUploadsUrl(endpoint: string): (url: string)
    ensures endpoint <= url && url[|endpoint|..] == UserUploadsRoute
  {
    endpoint + UserUploadsRoute
  }

  /** The upload target: the endpoint followed by `/upload`. */
  function UploadUrl(endpoint: string): (url: string)
    ensures endpoint <= url && url[|endpoint|..] == UploadRoute
  {
    endpoint + UploadRoute
  }

  /** The URL of a content identifier under one route: endpoint, route, cid. */
  function CidUrl(endpoint: string, route: string, cid: string): (url: string)
    ensures |url| == |endpoint| + |route| + |cid|
    ensures endpoint <= url && url[|endpoint|..|endpoint| + |route|] == route
    ensures url[|url| - |cid|..] == cid
  {
    var url := endpoint + route + cid;
    assert url[|endpoint|..|endpoint| + |route|] == route;
    url
  }

  /** The CAR of `cid`; the cid can be read back out of it. */
  function CarUrl(endpoint: string, cid: string): (url: string)
    ensures endpoint <= url && CidOf(endpoint, CarRoute, url) == Some(cid)
  {
    CidUrlRoundTrip(endpoint, CarRoute, cid, CidUrl(endpoint, CarRoute, cid));
    CidUrl(endpoint, CarRoute, cid)
  }

  /** The status of `cid`; the cid can be read back out of it. */
  function StatusUrl(endpoint: string, cid: string): (url: string)
    ensures endpoint <= url && CidOf(endpoint, StatusRoute, url) == Some(cid)
  {
    CidUrlRoundTrip(endpoint, StatusRoute, cid, CidUrl(endpoint, StatusRoute, cid));
    CidUrl(endpoint, StatusRoute, cid)
  }

  /** Reads the content identifier back out of a URL under `route`. */
  function CidOf(endpoint: string, route: string, url: string): (cid: Option<string>)
  {
    var prefix := endpoint + route;
    if prefix <= url then Some(url[|prefix|..]) else None
  }

  // ---------------------------------------------------------------------
  // Operations
  // ---------------------------------------------------------------------

  /** The `user_uploads` property: a GET of the uploads listing. Preparing
      it runs `BearerAuth`, so a client without a token raises `TypeError`. */
  function UserUploads(c: Client): (o: Outcome)
    ensures o == Raised(TypeError) <==> c.token.None?
    ensures c.token.Some? ==> o == Issued(Request(Get, UserUploadsUrl(c.endpoint), c.token.value, []))
  {
    if c.token.None? then Raised(TypeError)
    else Issued(Request(Get, UserUploadsUrl(c.endpoint), c.token.value, []))
  }

  /** `upload(file_path)`: `contents` is the file at that path, `None` when no
      file exists there. A missing path makes `os.path.expanduser(None)` raise;
      a path with no file behind it makes no request; otherwise the request is
      prepared, and a missing token raises in `BearerAuth`. */
  function Upload(c: Client, filePath: Option<string>, contents: Option<seq<byte>>): (o: Outcome)
    ensures filePath.None? ==> o == Raised(TypeError)
    ensures filePath.Some? && contents.None? <==> o == NotIssued
    ensures o == Raised(TypeError) <==> filePath.None? || (contents.Some? && c.token.None?)
    ensures o.Issued? ==> o.request == Request(Post, UploadUrl(c.endpoint), c.token.value, contents.value)
  {
    if filePath.None? then Raised(TypeError)
    else if contents.None? then NotIssued
    else if c.token.None? then Raised(TypeError)
    else Issued(Request(Post, UploadUrl(c.endpoint), c.token.value, contents.value))
  }

  /** `retrieve(cid)`: a GET of the CAR for `cid`; nothing without a cid. */
  function Retrieve(c: Client, cid: Option<string>): (o: Outcome)
    ensures cid.None? <==> o == NotIssued
    ensures o == Raised(TypeError) <==> cid.Some? && c.token.None?
    ensures o.Issued? ==> o.request == Request(Get, CarUrl(c.endpoint, cid.value), c.token.value, [])
  {
    if cid.None? then NotIssued
    else if c.token.None? then Raised(TypeError)
    else Issued(Request(Get, CarUrl(c.endpoint, cid.value), c.token.value, []))
  }

  /** `metadata(cid)`: a GET of the status of `cid`; nothing without a cid. */
  function Metadata(c: Client, cid: Option<string>): (o: Outcome)
    ensures cid.None? <==> o == NotIssued
    ensures o == Raised(TypeError) <==> cid.Some? && c.token.None?
    ensures o.Issued? ==> o.request == Request(Get, StatusUrl(c.endpoint, cid.value), c.token.value, [])
  {
    if cid.None? then NotIssued
    else if c.token.None? then Raised(TypeError)
    else Issued(Request(Get, StatusUrl(c.endpoint, cid.value), c.token.value, []))
  }

  /** `http_header(cid)`: a HEAD of the CAR for `cid`; nothing without a cid. */
  function HttpHeader(c: Client, cid: Option<string>): (o: Outcome)
    ensures cid.None? <==> o == NotIssued
    ensures o == Raised(TypeError) <==> cid.Some? && c.token.None?
    ensures o.Issued? ==> o.request == Request(Head, CarUrl(c.endpoint, cid.value), c.token.value, [])
  {
    if cid.None? then NotIssued
    else if c.token.None? then Raised(TypeError)
    else Issued(Request(Head, CarUrl(c.endpoint, cid.value), c.token.value, []))
  }

  // ---------------------------------------------------------------------
  // Properties
  // ---------------------------------------------------------------------

  /** A URL under a route and the content identifier it names determine each other. */
  lemma CidUrlRoundTrip(endpoint: string, route: string, cid: string, url: string)
    ensures CidOf(endpoint, route, url) == Some(cid) <==> url == CidUrl(endpoint, route, cid)
  {
    var prefix := endpoint + route;
    if CidOf(endpoint, route, url) == Some(cid) {
      assert url == url[..|prefix|] + url[|prefix|..];
    }
    if url == CidUrl(endpoint, route, cid) {
      assert url == prefix + cid;
      assert url[..|prefix|] == prefix;
    }
  }

  /** Different content identifiers give different CAR URLs, and different status URLs. */
  lemma CidUrlInjective(endpoint: string, route: string, cid1: string, cid2: string)
    requires CidUrl(endpoint, route, cid1) == CidUrl(endpoint, route, cid2)
    ensures cid1 == cid2
  {
    CidUrlRoundTrip(endpoint, route, cid1, CidUrl(endpoint, route, cid1));
    CidUrlRoundTrip(endpoint, route, cid2, CidUrl(endpoint, route, cid2));
  }

  /** No CAR URL is a status URL of the same endpoint: the routes part at
      their second character. */
  lemma CarAndStatusDiffer(endpoint: string, cid1: string, cid2: string)
    ensures CarUrl(endpoint, cid1) != StatusUrl(endpoint, cid2)
  {
    var car, status := CarUrl(endpoint, cid1), StatusUrl(endpoint, cid2);
    assert car[|endpoint| + 1] == CarRoute[1] by {
      assert car[|endpoint|..|endpoint| + |CarRoute|] == CarRoute;
    }
    assert status[|endpoint| + 1] == StatusRoute[1] by {
      assert status[|endpoint|..|endpoint| + |StatusRoute|] == StatusRoute;
    }
  }

  /** `retrieve` and `http_header` ask for the same URL with the same
      credential, and fail alike; only the verb differs. */
  lemma RetrieveAndHeaderShareUrl(c: Client, cid: Option<string>)
    ensures Retrieve(c, cid).Issued? <==> HttpHeader(c, cid).Issued?
    ensures Retrieve(c, cid).Raised? <==> HttpHeader(c, cid).Raised?
    ensures Retrieve(c, cid).Issued? ==>
      && Retrieve(c, cid).request.url == HttpHeader(c, cid).request.url
      && Retrieve(c, cid).request.auth == HttpHeader(c, cid).request.auth
      && Retrieve(c, cid).request.verb == Get && HttpHeader(c, cid).request.verb == Head
  {
  }

  /** Every request an operation makes carries the client's token, so a
      client without one makes no request at all, and every URL starts with
      the client's endpoint. */
  lemma EveryRequestAuthenticated(c: Client, cid: Option<string>, filePath: Option<string>,
                                  contents: Option<seq<byte>>)
    ensures var os := [UserUploads(c), Upload(c, filePath, contents), Retrieve(c, cid), Metadata(c, cid), HttpHeader(c, cid)];
      forall k :: 0 <= k < |os| && os[k].Issued? ==>
        c.token.Some? && os[k].request.auth == c.token.value && c.endpoint <= os[k].request.url
  {
  }

  /** A client built with no arguments but the environment talks to the
      default endpoint and reads its token from the configuration file. */
  lemma DefaultClient(env: Option<string>, defaultPath: string, files: map<string, seq<string>>)
    ensures NewClient(env, defaultPath, files).endpoint == DefaultEndpoint
    ensures NewClient(env, defaultPath, files).token ==
      Credentials.ChooseToken(None, Credentials.ConfigFile(env, defaultPath, files))
  {
  }

  /** The operations and `BearerAuth` agree: once an operation gets as far as
      preparing its request, it raises exactly when authentication with the
      client's token fails, and an issued request's headers are the
      authenticated ones, with `authorization` set to `Bearer <token>`. */
  lemma OutcomeIsBearerAuth(c: Client, cid: Option<string>, filePath: Option<string>,
                            contents: Option<seq<byte>>, headers: map<string, string>)
    ensures var os := [UserUploads(c), Upload(c, filePath, contents), Retrieve(c, cid), Metadata(c, cid), HttpHeader(c, cid)];
      var prepared := [true, filePath.Some? && contents.Some?, cid.Some?, cid.Some?, cid.Some?];
      var auth := Auth.Authenticate(c.token, headers);
      forall k :: 0 <= k < |os| && prepared[k] ==>
        && (os[k].Raised? <==> auth.None?)
        && (os[k].Issued? ==> auth == Some(Auth.WithBearer(headers, os[k].request.auth)))
        && (os[k].Issued? ==> auth.value[Auth.AuthorizationHeader] == Auth.BearerValue(os[k].request.auth))
  {
  }
}
