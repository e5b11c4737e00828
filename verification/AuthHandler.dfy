/** The callback and logout handlers (`AuthHandler.h`), which fill in a response step by step. */
module AuthHandler {
  import opened Wrappers
  import opened Text
  import opened Forms
  import opened Cookies
  import JsonEscape

  type Header = (string, string)

  class Response {
    var status: int
    var headers: seq<Header>
    var body: string

    constructor ()
      ensures status == 200 && headers == [] && body == ""
    {
      status, headers, body := 200, [], "";
    }

    method AddHeader(name: string, value: string)
      modifies this`headers
      ensures headers == old(headers) + [(name, value)]
    {
      headers := headers + [(name, value)];
    }

    /** Status, a last header and the body; every handler ends like this. */
    method Finish(newStatus: int, name: string, value: string, newBody: string)
      modifies this
      ensures status == newStatus && headers == old(headers) + [(name, value)] && body == newBody
    {
      AddHeader(name, value);
      status := newStatus;
      body := newBody;
    }
  }

  datatype HandlerConfig =
    HandlerConfig(tokenCookies: TokenCookieConfig, postLogin: string, postLogout: string, revokeOnLogout: bool)

  datatype TokenSet = TokenSet(accessToken: string, refreshToken: string, expiresIn: int, refreshExpiresIn: int)
  {
    predicate IsBytes() {
      Text.IsBytes(accessToken) && Text.IsBytes(refreshToken)
    }
  }

  predicate NamesAreBytes(c: TokenCookieConfig) {
    IsBytes(c.accessTokenName) && IsBytes(c.refreshTokenName)
  }

  function RealmCookies(config: HandlerConfig, realm: string): TokenCookieConfig {
    var c := config.tokenCookies;
    c.(accessTokenName := c.accessTokenName + "_" + realm, refreshTokenName := c.refreshTokenName + "_" + realm)
  }

  function SetCookieHeaders(cookies: seq<string>): seq<Header> {
    if cookies == [] then [] else [("Set-Cookie", cookies[0])] + SetCookieHeaders(cookies[1..])
  }

  /** The cookies that a successful callback sets. */
  function TokenCookies(config: HandlerConfig, realm: string, t: TokenSet): seq<string>
    requires NamesAreBytes(config.tokenCookies) && IsBytes(realm) && t.IsBytes()
  {
    var c := RealmCookies(config, realm);
    [SetCookie(c.accessTokenName, t.accessToken, TokenCookieOptions(c, t.expiresIn)),
     SetCookie(c.refreshTokenName, t.refreshToken, TokenCookieOptions(c, t.refreshExpiresIn))]
  }

  /** The cookies that a logout expires. */
  function ClearedCookies(config: HandlerConfig, realm: string): seq<string>
    requires NamesAreBytes(config.tokenCookies) && IsBytes(realm)
  {
    var c := RealmCookies(config, realm);
    [ExpiredCookie(c.accessTokenName, TokenCookieOptions(c, 0)),
     ExpiredCookie(c.refreshTokenName, TokenCookieOptions(c, 0))]
  }

  lemma TwoCookies(a: string, b: string)
    ensures SetCookieHeaders([a, b]) == [("Set-Cookie", a), ("Set-Cookie", b)]
  {
    assert [a, b][1..] == [b] && [b][1..] == [];
    assert SetCookieHeaders([b]) == [("Set-Cookie", b)];
  }

  lemma TwoCleared(config: HandlerConfig, realm: string)
    requires NamesAreBytes(config.tokenCookies) && IsBytes(realm)
    ensures |ClearedCookies(config, realm)| == 2
  {
  }

  method AddTokenCookies(config: HandlerConfig, realm: string, t: TokenSet, response: Response)
    requires NamesAreBytes(config.tokenCookies) && IsBytes(realm) && t.IsBytes()
    modifies response`headers
    ensures response.headers == old(response.headers) + SetCookieHeaders(TokenCookies(config, realm, t))
  {
    hide SetCookie;
    var c := RealmCookies(config, realm);
    var access := MakeSetCookie(c.accessTokenName, t.accessToken, TokenCookieOptions(c, t.expiresIn));
    response.AddHeader("Set-Cookie", access);
    var refresh := MakeSetCookie(c.refreshTokenName, t.refreshToken, TokenCookieOptions(c, t.refreshExpiresIn));
    response.AddHeader("Set-Cookie", refresh);
    TwoCookies(access, refresh);
  }

  method ClearTokenCookies(config: HandlerConfig, realm: string, response: Response)
    requires NamesAreBytes(config.tokenCookies) && IsBytes(realm)
    modifies response`headers
    ensures response.headers == old(response.headers) + SetCookieHeaders(ClearedCookies(config, realm))
  {
    hide SetCookie;
    var c := RealmCookies(config, realm);
    var options := TokenCookieOptions(c, 0);
    var access := MakeSetCookie(c.accessTokenName, "", options.(maxAge := Some(0)));
    response.AddHeader("Set-Cookie", access);
    var refresh := MakeSetCookie(c.refreshTokenName, "", options.(maxAge := Some(0)));
    response.AddHeader("Set-Cookie", refresh);
    TwoCookies(access, refresh);
  }

  // --------------------------------------------------------------------- callback

  datatype LoginResult = LoginResult(ok: bool, httpStatus: int, error: string, tokens: TokenSet, realm: string)

  /** The response to a finished login. */
  method Callback(config: HandlerConfig, result: LoginResult) returns (response: Response)
    requires NamesAreBytes(config.tokenCookies) && IsBytes(result.realm) && result.tokens.IsBytes()
    ensures fresh(response)
    ensures !result.ok ==>
      && response.status == result.httpStatus % 0x1_0000
      && response.headers == [("Cache-Control", "no-store"), ("Pragma", "no-cache"), ("Content-Type", "application/json")]
      && response.body == JsonEscape.ErrorBody(result.error)
    ensures result.ok ==>
      var cookies := TokenCookies(config, result.realm, result.tokens);
      && response.status == 302 && response.body == ""
      && response.headers == [("Cache-Control", "no-store"), ("Pragma", "no-cache"), ("Set-Cookie", cookies[0]), ("Set-Cookie", cookies[1]),
                              ("Location", config.postLogin)]
  {
    hide SetCookie;
    response := new Response();
    response.AddHeader("Cache-Control", "no-store");
    response.AddHeader("Pragma", "no-cache");
    if !result.ok {
      var escaped := JsonEscape.JsonEscape(result.error);
      response.Finish(result.httpStatus % 0x1_0000, "Content-Type", "application/json",
                      "{\"ok\":false,\"error\":\"" + escaped + "\"}");
      return;
    }
    AddTokenCookies(config, result.realm, result.tokens, response);
    ghost var cookies := TokenCookies(config, result.realm, result.tokens);
    TwoCookies(cookies[0], cookies[1]);
    assert cookies == [cookies[0], cookies[1]];
    response.Finish(302, "Location", config.postLogin, "");
  }

  // ----------------------------------------------------------------------- logout

  datatype LogoutResult =
    | MissingRealm
    | UnknownRealm
    | LoggedOut(realm: string, revoked: Option<string>)

  /** What a logout does: which realm it is for, and the refresh token it revokes. */
  function LogoutOf(config: HandlerConfig, known: set<string>, query: string, cookieHeader: Option<string>): LogoutResult
  {
    var params := ParseForm(query);
    if "realm" !in params || params["realm"] == "" then MissingRealm
    else if params["realm"] !in known then UnknownRealm
    else
      var realm := params["realm"];
      var name := RealmCookies(config, realm).refreshTokenName;
      var cookies := if cookieHeader.None? then map[] else ParseCookies(cookieHeader.value);
      LoggedOut(realm, if config.revokeOnLogout && name in cookies && cookies[name] != "" then Some(cookies[name]) else None)
  }

  /** Which logout it is: the realm is the last field of that name in the query, in whatever way that is spelled; the
      token is the last cookie of the realm's refresh name. */
  lemma LogoutForms(config: HandlerConfig, known: set<string>, texts: seq<string>, fields: seq<Field>, cookieHeader: Option<string>)
    requires texts != [] && SpellsForm(texts, fields)
    ensures var params := InsertAll(fields, map[]);
      var cookies := if cookieHeader.None? then map[] else ParseCookies(cookieHeader.value);
      var logout := LogoutOf(config, known, Join(texts, '&'), cookieHeader);
      && ("realm" !in params || params["realm"] == "" ==> logout == MissingRealm)
      && ("realm" in params && params["realm"] != "" && params["realm"] !in known ==> logout == UnknownRealm)
      && ("realm" in params && params["realm"] != "" && params["realm"] in known ==>
            var name := config.tokenCookies.refreshTokenName + "_" + params["realm"];
            && (config.revokeOnLogout && name in cookies && cookies[name] != "" ==> logout == LoggedOut(params["realm"], Some(cookies[name])))
            && (!config.revokeOnLogout || name !in cookies || cookies[name] == "" ==> logout == LoggedOut(params["realm"], None)))
  {
    hide ParseForm, ParseCookies;
    FormSpelled(texts, fields);
  }

  /** `revoked` is the token passed to the token service; its reply is ignored. */
  method Logout(config: HandlerConfig, known: set<string>, query: string, cookieHeader: Option<string>)
    returns (response: Response, revoked: Option<string>)
    requires NamesAreBytes(config.tokenCookies) && forall r :: r in known ==> IsBytes(r)
    ensures fresh(response)
    ensures match LogoutOf(config, known, query, cookieHeader)
      case MissingRealm =>
        response.status == 400
        && response.headers == [("Cache-Control", "no-store"), ("Pragma", "no-cache"), ("Content-Type", "application/json")]
        && response.body == "{\"ok\":false,\"error\":\"missing_realm\"}" && revoked == None
      case UnknownRealm =>
        response.status == 404
        && response.headers == [("Cache-Control", "no-store"), ("Pragma", "no-cache"), ("Content-Type", "application/json")]
        && response.body == "{\"ok\":false,\"error\":\"unknown_realm\"}" && revoked == None
      case LoggedOut(realm, token) =>
        realm in known && revoked == token && response.status == 302 && response.body == ""
        && response.headers == [("Cache-Control", "no-store"), ("Pragma", "no-cache"), ("Set-Cookie", ClearedCookies(config, realm)[0]),
                                ("Set-Cookie", ClearedCookies(config, realm)[1]), ("Location", config.postLogout)]
  {
    hide ParseForm, ParseCookies, ClearedCookies, SetCookieHeaders;
    var params := ParseFormEncoded(query);
    response := new Response();
    revoked := None;
    response.AddHeader("Cache-Control", "no-store");
    response.AddHeader("Pragma", "no-cache");
    if "realm" !in params || params["realm"] == "" {
      response.Finish(400, "Content-Type", "application/json", "{\"ok\":false,\"error\":\"missing_realm\"}");
      return;
    }
    var realm := params["realm"];
    if realm !in known {
      response.Finish(404, "Content-Type", "application/json", "{\"ok\":false,\"error\":\"unknown_realm\"}");
      return;
    }
    if config.revokeOnLogout && cookieHeader.Some? {
      var cookies := ParseCookieHeader(cookieHeader.value);
      var name := RealmCookies(config, realm).refreshTokenName;
      if name in cookies && cookies[name] != "" {
        revoked := Some(cookies[name]);
      }
    }
    ClearTokenCookies(config, realm, response);
    ghost var cleared := ClearedCookies(config, realm);
    assert |cleared| == 2 && cleared == [cleared[0], cleared[1]] by { TwoCleared(config, realm); }
    TwoCookies(cleared[0], cleared[1]);
    response.Finish(302, "Location", config.postLogout, "");
  }
}
