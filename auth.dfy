// The admin token store (backend/routers/auth.py): a password login that
// issues a token, a bearer-header check, and a logout that revokes a token.
module Auth {
  import opened Results

  /** The password used when the ADMIN_PASSWORD environment variable is unset. */
  const DefaultAdminPassword := "chtcoder@prehsg"

  const BearerPrefix := "Bearer "

  const InvalidPassword := "Invalid password"
  const MissingHeader := "Missing or invalid authorization header"
  const InvalidToken := "Invalid or expired token"
  const LoggedOut := "logged out"

  /** The index of the first `sep` in `s`, or `|s|` when there is none. */
  function FirstIndex(s: string, sep: char): (i: nat)
    ensures i <= |s|
    ensures i < |s| ==> s[i] == sep
    ensures forall j :: 0 <= j < i ==> s[j] != sep
  {
    if s == [] || s[0] == sep then 0 else 1 + FirstIndex(s[1..], sep)
  }

  /** Python's `s.split(sep, 1)`: the text before the first `sep` and, when
      there is one, the text after it. */
  function SplitOnce(s: string, sep: char): (parts: seq<string>)
    ensures 1 <= |parts| <= 2
    ensures |parts| == 2 <==> sep in s
    ensures |parts| == 2 ==> s == parts[0] + [sep] + parts[1] && sep !in parts[0]
    ensures |parts| == 1 ==> parts[0] == s
  {
    var i := FirstIndex(s, sep);
    if i == |s| then [s] else [s[..i], s[i + 1..]]
  }

  predicate HasBearerPrefix(h: string) {
    |h| >= |BearerPrefix| && h[..|BearerPrefix|] == BearerPrefix
  }

  /** The header test shared by `verify_token` and `logout`: a missing, empty
      or non-`Bearer ` header is refused; otherwise the token is the text after
      the first space. */
  function BearerToken(authorization: Option<string>): (r: Option<string>)
    ensures r.Some? <==> authorization.Some? && HasBearerPrefix(authorization.value)
    ensures r.Some? ==> authorization.value == BearerPrefix + r.value
  {
    match authorization
    case None => None
    case Some(h) =>
      if h == [] || !HasBearerPrefix(h) then None
      else
        assert h[6] == ' ';
        assert h == BearerPrefix + h[|BearerPrefix|..];
        Some(SplitOnce(h, ' ')[1])
  }

  /** `verify_token`: the token named by the header, if it is one the store holds. */
  function Verify(validTokens: set<string>, authorization: Option<string>): (r: Result<string>)
    ensures r.Ok? <==> authorization.Some? && HasBearerPrefix(authorization.value)
                        && authorization.value[|BearerPrefix|..] in validTokens
    ensures r.Ok? ==> authorization == Some(BearerPrefix + r.value) && r.value in validTokens
    ensures r.Err? ==> r.error.status == Unauthorized
    ensures r.Err? ==> (r.error.detail == MissingHeader <==> BearerToken(authorization).None?)
  {
    match BearerToken(authorization)
    case None => Err(HttpError(Unauthorized, MissingHeader))
    case Some(token) =>
      if token !in validTokens then Err(HttpError(Unauthorized, InvalidToken)) else Ok(token)
  }

  /** For a header `Bearer t`, exactly `t` is extracted and checked, spaces in `t` included. */
  lemma VerifyBearerHeader(validTokens: set<string>, t: string)
    ensures Verify(validTokens, Some(BearerPrefix + t))
         == if t in validTokens then Ok(t) else Err(HttpError(Unauthorized, InvalidToken))
  {
    var h := BearerPrefix + t;
    assert h[..|BearerPrefix|] == BearerPrefix;
    assert h[|BearerPrefix|..] == t;
  }

  /** Once `t` is discarded, a header carrying it no longer verifies; other tokens still do. */
  lemma DiscardRevokes(validTokens: set<string>, t: string, other: string)
    requires other != t
    ensures Verify(validTokens - {t}, Some(BearerPrefix + t)) == Err(HttpError(Unauthorized, InvalidToken))
    ensures Verify(validTokens - {t}, Some(BearerPrefix + other)) == Verify(validTokens, Some(BearerPrefix + other))
  {
    VerifyBearerHeader(validTokens - {t}, t);
    VerifyBearerHeader(validTokens - {t}, other);
    VerifyBearerHeader(validTokens, other);
  }

  /** The store behind `_valid_tokens`, with the configured admin password. */
  class TokenStore {
    const adminPassword: string
    var validTokens: set<string>

    /** `environment` is the value of `ADMIN_PASSWORD` in the environment, if set. */
    constructor (environment: Option<string>)
      ensures adminPassword == (if environment.Some? then environment.value else DefaultAdminPassword)
      ensures validTokens == {}
    {
      adminPassword := environment.GetOr(DefaultAdminPassword);
      validTokens := {};
    }

    /** `login`: `password` is the body's "password" entry, if any; `draw` is the
        value `secrets.token_urlsafe(32)` returned for this call. */
    method Login(password: Option<string>, draw: string) returns (r: Result<string>)
      modifies this
      ensures r.Ok? <==> password.Some? && password.value != "" && password.value == adminPassword
      ensures r.Ok? ==> r.value == draw && validTokens == old(validTokens) + {draw}
      ensures r.Ok? && draw !in old(validTokens) ==> |validTokens| == |old(validTokens)| + 1
      ensures r.Err? ==> r.error == HttpError(Unauthorized, InvalidPassword) && validTokens == old(validTokens)
      ensures r.Ok? ==> Verify(validTokens, Some(BearerPrefix + r.value)) == Ok(r.value)
    {
      if password.None? || password.value == "" || password.value != adminPassword {
        return Err(HttpError(Unauthorized, InvalidPassword));
      }
      validTokens := validTokens + {draw};
      VerifyBearerHeader(validTokens, draw);
      return Ok(draw);
    }

    /** `logout`: discards the header's token; an absent token is not an error. */
    method Logout(authorization: Option<string>) returns (r: Result<string>)
      modifies this
      ensures BearerToken(authorization).None? ==>
                r == Err(HttpError(Unauthorized, MissingHeader)) && validTokens == old(validTokens)
      ensures BearerToken(authorization).Some? ==>
                r == Ok(LoggedOut) && validTokens == old(validTokens) - {BearerToken(authorization).value}
      ensures BearerToken(authorization).Some? ==> Verify(validTokens, authorization).Err?
    {
      var token := BearerToken(authorization);
      if token.None? {
        return Err(HttpError(Unauthorized, MissingHeader));
      }
      validTokens := validTokens - {token.value};
      VerifyBearerHeader(validTokens, token.value);
      return Ok(LoggedOut);
    }
  }
}
