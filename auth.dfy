/**
 * Bearer authentication (`BearerAuth`): the object is built with the
 * client's token and, when the HTTP library prepares a request, it sets the
 * request's `authorization` header to `Bearer <token>`.
 */
module Auth {
  import opened Wrappers

  const AuthorizationHeader: string := "authorization"
  const BearerPrefix: string := "Bearer "

  /** The header value for a token: the prefix, then the token unchanged. */
  function BearerValue(token: string): (v: string)
    ensures |v| == |BearerPrefix| + |token|
    ensures BearerPrefix <= v && v[|BearerPrefix|..] == token
  {
    BearerPrefix + token
  }

  /** The token a header value carries, when it is a bearer value at all. */
  function TokenOfBearer(v: string): (t: Option<string>)
  {
    if BearerPrefix <= v then Some(v[|BearerPrefix|..]) else None
  }

  /** The headers after bearer authentication has been applied. */
  function WithBearer(headers: map<string, string>, token: string): (h: map<string, string>)
    ensures AuthorizationHeader in h && TokenOfBearer(h[AuthorizationHeader]) == Some(token)
    ensures forall k :: k != AuthorizationHeader ==> (k in h <==> k in headers)
    ensures forall k :: k != AuthorizationHeader && k in headers ==> h[k] == headers[k]
  {
    headers[AuthorizationHeader := BearerValue(token)]
  }

  /** Applying the authentication of an optional token: the new headers, or
      `None` where `"Bearer " + None` fails. */
  function Authenticate(token: Option<string>, headers: map<string, string>): (r: Option<map<string, string>>)
    ensures r.None? <==> token.None?
    ensures r.Some? ==> r.value == WithBearer(headers, token.value)
  {
    if token.None? then None else Some(WithBearer(headers, token.value))
  }

  /** The header value and the token determine each other. */
  lemma BearerRoundTrip(token: string, v: string)
    ensures TokenOfBearer(v) == Some(token) <==> v == BearerValue(token)
  {
    if TokenOfBearer(v) == Some(token) {
      assert v == v[..|BearerPrefix|] + v[|BearerPrefix|..];
    }
  }

  /** Authenticating twice leaves the headers the second token gives. */
  lemma WithBearerLastWins(headers: map<string, string>, first: string, second: string)
    ensures WithBearer(WithBearer(headers, first), second) == WithBearer(headers, second)
  {
    var a, b := WithBearer(WithBearer(headers, first), second), WithBearer(headers, second);
    BearerRoundTrip(second, a[AuthorizationHeader]);
    BearerRoundTrip(second, b[AuthorizationHeader]);
    assert a.Keys == b.Keys;
  }

  /** What applying the authentication did: set the header, or fail the way
      `"Bearer " + None` does when the client has no token. */
  datatype AuthOutcome = Applied | TypeError

  /** The part of an outgoing request that authentication touches. */
  class PreparedRequest {
    var headers: map<string, string>

    constructor (headers: map<string, string>)
      ensures this.headers == headers
    {
      this.headers := headers;
    }
  }

  class BearerAuth {
    const token: Option<string>

    constructor (token: Option<string>)
      ensures this.token == token
    {
      this.token := token;
    }

    /** `BearerAuth.__call__`: sets the authorization header of `r` in place.
        Without a token, the concatenation fails before anything is stored. */
    method Call(r: PreparedRequest) returns (outcome: AuthOutcome)
      modifies r
      ensures outcome == TypeError <==> Authenticate(token, old(r.headers)).None?
      ensures outcome == Applied ==> r.headers == Authenticate(token, old(r.headers)).value
      ensures token.None? ==> outcome == TypeError && r.headers == old(r.headers)
      ensures token.Some? ==> outcome == Applied && r.headers == WithBearer(old(r.headers), token.value)
    {
      if token.None? {
        return TypeError;
      }
      r.headers := r.headers[AuthorizationHeader := BearerValue(token.value)];
      outcome := Applied;
    }
  }
}
