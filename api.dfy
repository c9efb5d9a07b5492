// The browser's HTTP client (frontend/src/lib/api.ts): an axios instance with
// a JSON content type, a request interceptor that attaches the stored admin
// token as a bearer header, and a response interceptor that passes results on.
module ApiClient {
  import opened Results
  import Auth

  const TokenKey := "admin_token"
  const AuthorizationHeader := "Authorization"
  const ContentTypeHeader := "Content-Type"
  const JsonContentType := "application/json"

  /** The contests collection, the path both screens fetch. */
  const ContestsPath := "/contests"

  /** The JSON body sent on save; `None` is a NaN from `parseInt`, which
      `JSON.stringify` writes as null. */
  datatype Payload = Payload(
    classLevel: Option<int>,
    year: Option<int>,
    preNumber: Option<int>,
    contestUrl: string,
    solutionUrl: string)

  /** A request through the API client. */
  datatype ApiRequest =
    | Get(path: string)
    | Post(path: string, body: Payload)
    | Put(path: string, body: Payload)
    | Delete(path: string)

  /** The instance's default headers. */
  const DefaultHeaders: map<string, string> := map[ContentTypeHeader := JsonContentType]

  /** The browser's `localStorage`: its items, or unavailable (any access throws). */
  datatype Storage = Available(items: map<string, string>) | Unavailable

  /** `localStorage.getItem(key)`: the stored string, or null. */
  function GetItem(items: map<string, string>, key: string): (r: Option<string>)
    ensures r.Some? <==> key in items
    ensures r.Some? ==> r.value == items[key]
  {
    if key in items then Some(items[key]) else None
  }

  /** The stored admin token is usable: present and non-empty (a truthy string). */
  predicate HasToken(storage: Storage) {
    storage.Available? && TokenKey in storage.items && storage.items[TokenKey] != ""
  }

  /** The outgoing request's configuration, which the interceptor updates in place. */
  class RequestConfig {
    var httpMethod: string
    var url: string
    var headers: Option<map<string, string>>

    constructor (httpMethod: string, url: string)
      ensures this.httpMethod == httpMethod && this.url == url && headers == Some(DefaultHeaders)
    {
      this.httpMethod := httpMethod;
      this.url := url;
      headers := Some(DefaultHeaders);
    }
  }

  function BearerHeader(token: string): (h: string)
    ensures |h| == |Auth.BearerPrefix| + |token|
    ensures h[..|Auth.BearerPrefix|] == Auth.BearerPrefix && h[|Auth.BearerPrefix|..] == token
  {
    Auth.BearerPrefix + token
  }

  /** The headers after the interceptor: with a non-empty stored token and a
      headers object, Authorization is set; otherwise nothing changes. */
  function WithToken(headers: Option<map<string, string>>, storage: Storage): (r: Option<map<string, string>>)
    ensures r.Some? <==> headers.Some?
    ensures !(headers.Some? && HasToken(storage)) ==> r == headers
    ensures headers.Some? && HasToken(storage) ==>
              && r.value.Keys == headers.value.Keys + {AuthorizationHeader}
              && r.value[AuthorizationHeader] == BearerHeader(storage.items[TokenKey])
              && forall name :: name in headers.value && name != AuthorizationHeader ==> r.value[name] == headers.value[name]
  {
    match storage
    case Unavailable => headers
    case Available(items) =>
      var token := GetItem(items, TokenKey);
      if token.Some? && token.value != "" && headers.Some?
      then Some(headers.value[AuthorizationHeader := BearerHeader(token.value)])
      else headers
  }

  /** The request interceptor: updates `config` and hands back the same object. */
  method RequestInterceptor(config: RequestConfig, storage: Storage) returns (r: RequestConfig)
    modifies config
    ensures r == config
    ensures config.httpMethod == old(config.httpMethod) && config.url == old(config.url)
    ensures config.headers == WithToken(old(config.headers), storage)
  {
    if storage.Available? {
      var token := GetItem(storage.items, TokenKey);
      if token.Some? && token.value != "" && config.headers.Some? {
        config.headers := Some(config.headers.value[AuthorizationHeader := BearerHeader(token.value)]);
      }
    }
    return config;
  }

  /** The header the interceptor writes is read back by `verify_token` as exactly
      the stored token, which is accepted precisely when the server holds it. */
  lemma InterceptorHeaderVerifies(headers: map<string, string>, items: map<string, string>, validTokens: set<string>)
    requires TokenKey in items && items[TokenKey] != ""
    ensures var token := items[TokenKey];
      var sent := WithToken(Some(headers), Available(items)).value;
      && Auth.BearerToken(Some(sent[AuthorizationHeader])) == Some(token)
      && Auth.Verify(validTokens, Some(sent[AuthorizationHeader]))
           == if token in validTokens then Ok(token) else Err(HttpError(Unauthorized, Auth.InvalidToken))
  {
    Auth.VerifyBearerHeader(validTokens, items[TokenKey]);
  }

  /** A settled promise. */
  datatype Settled<R, E> = Fulfilled(response: R) | Rejected(reason: E)

  /** The response interceptor: a response passes through and an error is
      rejected again unchanged (after being logged, which is not modelled). */
  function ResponseInterceptor<R, E>(outcome: Settled<R, E>): (r: Settled<R, E>)
    ensures r.Fulfilled? <==> outcome.Fulfilled?
    ensures r == outcome
  {
    match outcome
    case Fulfilled(response) => Fulfilled(response)
    case Rejected(reason) => Rejected(reason)
  }
}
