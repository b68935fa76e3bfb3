/** The signed HTTP request CrptApi sends for one document. */
module Requests {
  import opened Wrappers

  /** ApiUriDictionary.PUSH_TO_SALES_PRODUCT_MADE_IN_RUSSIA_URI */
  const PUSH_URI: string := "https://postman-echo.com/post"
  const CONTENT_TYPE: string := "Content-type"
  const JSON_MEDIA_TYPE: string := "Application/json"
  const AUTHORIZATION: string := "Authorization"
  const BEARER: string := "Bearer "

  datatype Header = Header(name: string, value: string)

  /** What the built HttpRequest carries: target, method, headers in the order added, and body. */
  datatype Request = Request(uri: string, httpMethod: string, headers: seq<Header>, body: string)

  /** The value of the first header with this name, if any. */
  function HeaderValue(headers: seq<Header>, name: string): Option<string>
    decreases |headers|
  {
    if headers == [] then None
    else if headers[0].name == name then Some(headers[0].value)
    else HeaderValue(headers[1..], name)
  }

  /** What follows `prefix` in `s`, when `s` starts with it. */
  function StripPrefix(prefix: string, s: string): (r: Option<string>)
    ensures r.Some? <==> exists t :: s == prefix + t
    ensures r.Some? ==> s == prefix + r.value
  {
    if |prefix| <= |s| && s[..|prefix|] == prefix then
      assert s == prefix + s[|prefix|..];
      Some(s[|prefix|..])
    else
      None
  }

  /** The token a request is signed with: its Authorization header without the "Bearer " scheme. */
  function BearerToken(r: Request): Option<string> {
    match HeaderValue(r.headers, AUTHORIZATION)
    case None => None
    case Some(v) => StripPrefix(BEARER, v)
  }

  /** makeSignedRequest: a JSON POST to the push URI, signed with the caller's token. */
  function MakeSignedRequest(body: string, signToken: string): (r: Request)
    ensures r.uri == PUSH_URI && r.httpMethod == "POST"
    ensures HeaderValue(r.headers, CONTENT_TYPE) == Some(JSON_MEDIA_TYPE)
    ensures HeaderValue(r.headers, AUTHORIZATION) == Some(BEARER + signToken)
    ensures BearerToken(r) == Some(signToken)
    ensures r.body == body
  {
    var r := Request(PUSH_URI, "POST", [Header(CONTENT_TYPE, JSON_MEDIA_TYPE), Header(AUTHORIZATION, BEARER + signToken)], body);
    assert r.headers[1..] == [Header(AUTHORIZATION, BEARER + signToken)];
    assert StripPrefix(BEARER, BEARER + signToken) == Some(signToken) by {
      assert (BEARER + signToken)[..|BEARER|] == BEARER;
      assert (BEARER + signToken)[|BEARER|..] == signToken;
    }
    r
  }

  /** Two signed requests are the same exactly when their bodies and their tokens are. */
  lemma SignedRequestInjective(body1: string, token1: string, body2: string, token2: string)
    ensures MakeSignedRequest(body1, token1) == MakeSignedRequest(body2, token2)
        <==> body1 == body2 && token1 == token2
  {
    if MakeSignedRequest(body1, token1) == MakeSignedRequest(body2, token2) {
      assert BearerToken(MakeSignedRequest(body1, token1)) == Some(token1);
      assert BearerToken(MakeSignedRequest(body2, token2)) == Some(token2);
    }
  }
}
