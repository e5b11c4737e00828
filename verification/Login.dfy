/** Logging in over several realms: `multi_realm.hpp` with the URL builder of
    `pkce_auth_strat.hpp` and the token request of `token_service.hpp`. */
module Login {
  import opened Wrappers
  import opened Text
  import opened Forms
  import opened Scopes
  import opened StateStore
  import opened RedisEntry
  import opened Pkce
  import OidcUrls
  import UrlEncode

  datatype RealmConfig = RealmConfig(baseUrl: string, realm: string, clientId: string, redirectUri: string,
                                     scopes: seq<string>, verifierLen: nat)

  datatype TokenConfig = TokenConfig(baseUrl: string, realm: string, clientId: string,
                                     clientSecret: Option<string>, redirectUri: string)

  datatype Config = Config(realm: RealmConfig, token: TokenConfig)
  {
    /** Every text is a byte string. */
    predicate IsBytes() {
      && Text.IsBytes(realm.realm) && Text.IsBytes(realm.clientId) && Text.IsBytes(realm.redirectUri)
      && Text.IsBytes(JoinScopes(realm.scopes))
      && Text.IsBytes(token.realm) && Text.IsBytes(token.clientId) && Text.IsBytes(token.redirectUri)
      && (token.clientSecret.Some? ==> Text.IsBytes(token.clientSecret.value))
    }

    predicate Complete() {
      realm.realm != "" && realm.baseUrl != "" && realm.clientId != "" && realm.redirectUri != ""
    }
  }

  // ------------------------------------------------------------ the constructor

  type Realms = map<string, Config>

  /** The realms of the configurations in order; the first of a name stays (`emplace`). */
  function Register(configs: seq<Config>, realms: Realms): Realms
    decreases configs
  {
    if configs == [] then realms
    else
      var name := configs[0].realm.realm;
      Register(configs[1..], if name in realms then realms else realms[name := configs[0]])
  }

  /** The checks of one configuration: its realm's name, then what `PkceAuthStrategy` asks for. */
  method CheckRealm(config: Config) returns (failure: Option<string>)
    ensures failure.None? <==> config.Complete()
    ensures config.realm.realm == "" ==> failure == Some("realm name must not be empty")
    ensures config.realm.realm != "" && !config.Complete() ==> failure == Some("PkceAuthStrategy: missing required config fields")
  {
    if config.realm.realm == "" {
      return Some("realm name must not be empty");
    }
    if config.realm.baseUrl == "" || config.realm.clientId == "" || config.realm.redirectUri == "" {
      return Some("PkceAuthStrategy: missing required config fields");
    }
    return None;
  }

  /** The constructor of the manager. `Err` stands for its exceptions. */
  method BuildRealms(configs: seq<Config>) returns (r: Result<(Realms, seq<string>), string>)
    ensures r.Ok? <==> configs != [] && forall i :: 0 <= i < |configs| ==> configs[i].Complete()
    ensures configs == [] ==> r == Err("at least one realm must be configured")
    ensures forall i :: 0 <= i < |configs| && !configs[i].Complete() && (forall j :: 0 <= j < i ==> configs[j].Complete()) ==>
      r == Err(if configs[i].realm.realm == "" then "realm name must not be empty"
               else "PkceAuthStrategy: missing required config fields")
    ensures r.Ok? ==>
      && r.value.0 == Register(configs, map[])
      && |r.value.1| == |configs| && forall i :: 0 <= i < |configs| ==> r.value.1[i] == configs[i].realm.realm
  {
    hide Config.Complete;
    var realms: Realms, order: seq<string> := map[], [];
    for i := 0 to |configs|
      invariant forall j :: 0 <= j < i ==> configs[j].Complete()
      invariant Register(configs[i..], realms) == Register(configs, map[])
      invariant |order| == i && forall j :: 0 <= j < i ==> order[j] == configs[j].realm.realm
      invariant realms == map[] <==> i == 0
    {
      var failure := CheckRealm(configs[i]);
      if failure.Some? {
        return Err(failure.value);
      }
      var name := configs[i].realm.realm;
      if name !in realms {
        realms := realms[name := configs[i]];
      }
      order := order + [name];
      assert configs[i..][1..] == configs[i + 1..];
    }
    if realms == map[] {
      return Err("at least one realm must be configured");
    }
    assert configs[|configs|..] == [];
    return Ok((realms, order));
  }

  /** What the manager relies on: a realm is registered under its own name. */
  predicate ValidRealms(realms: Realms) {
    forall r :: r in realms ==> realms[r].realm.realm == r && realms[r].Complete() && realms[r].IsBytes()
  }

  lemma {:induction false} RegisterValid(configs: seq<Config>, realms: Realms)
    requires ValidRealms(realms)
    requires forall i :: 0 <= i < |configs| ==> configs[i].Complete() && configs[i].IsBytes()
    ensures ValidRealms(Register(configs, realms))
    ensures forall r :: r in Register(configs, realms) <==> r in realms || exists i :: 0 <= i < |configs| && configs[i].realm.realm == r
    ensures forall r :: r in realms ==> r in Register(configs, realms) && Register(configs, realms)[r] == realms[r]
    decreases configs
  {
    hide Config.Complete, Config.IsBytes;
    if configs != [] {
      var name := configs[0].realm.realm;
      var next := if name in realms then realms else realms[name := configs[0]];
      RegisterValid(configs[1..], next);
      forall r | r in Register(configs, realms)
        ensures r in realms || exists i :: 0 <= i < |configs| && configs[i].realm.realm == r
      {
        if r !in next {
          var i :| 0 <= i < |configs[1..]| && configs[1..][i].realm.realm == r;
          assert configs[i + 1].realm.realm == r;
        }
      }
      forall i | 0 <= i < |configs| ensures configs[i].realm.realm in Register(configs, realms) {
        if i > 0 {
          assert configs[1..][i - 1].realm.realm == configs[i].realm.realm;
        }
      }
    }
  }

  predicate FirstConfig(configs: seq<Config>, realm: string, i: nat) {
    i < |configs| && configs[i].realm.realm == realm && forall j :: 0 <= j < i ==> configs[j].realm.realm != realm
  }

  /** Under each name the first configuration of that name is registered. */
  lemma {:induction false} RegisterFirst(configs: seq<Config>, realms: Realms, i: nat, realm: string)
    requires FirstConfig(configs, realm, i) && realm !in realms
    ensures realm in Register(configs, realms) && Register(configs, realms)[realm] == configs[i]
    decreases configs
  {
    var name := configs[0].realm.realm;
    var next := if name in realms then realms else realms[name := configs[0]];
    if i == 0 {
      RegisteredStays(configs[1..], next, realm);
    } else {
      assert forall j :: 0 <= j < |configs| - 1 ==> configs[1..][j] == configs[j + 1];
      RegisterFirst(configs[1..], next, i - 1, realm);
    }
  }

  lemma {:induction false} RegisteredStays(configs: seq<Config>, realms: Realms, realm: string)
    requires realm in realms
    ensures realm in Register(configs, realms) && Register(configs, realms)[realm] == realms[realm]
    decreases configs
  {
    if configs != [] {
      var name := configs[0].realm.realm;
      RegisteredStays(configs[1..], if name in realms then realms else realms[name := configs[0]], realm);
    }
  }

  // --------------------------------------------------------------- the two URLs

  /** The authorization request; unlike the other endpoints its base URL is not trimmed. */
  function AuthParams(cfg: RealmConfig, state: string, challenge: string): seq<Field> {
    [("response_type", "code"),
     ("client_id", cfg.clientId),
     ("redirect_uri", cfg.redirectUri),
     ("state", state),
     ("code_challenge", challenge),
     ("code_challenge_method", "S256"),
     ("scope", JoinScopes(cfg.scopes))]
  }

  function AuthEndpoint(cfg: RealmConfig): string
    requires IsBytes(cfg.realm)
  {
    cfg.baseUrl + "/realms/" + UrlEncode.Encode(cfg.realm) + "/protocol/openid-connect/auth"
  }

  /** It is the realm's authorization endpoint if and only if the base URL has no slash to trim. */
  lemma AuthEndpointExactly(cfg: RealmConfig)
    requires IsBytes(cfg.realm)
    ensures AuthEndpoint(cfg) == OidcUrls.EndpointUrl(cfg.baseUrl, cfg.realm, OidcUrls.Authorization)
       <==> (cfg.baseUrl != "" ==> cfg.baseUrl[|cfg.baseUrl| - 1] != '/')
  {
    hide UrlEncode.Encode;
    var url := cfg.baseUrl;
    var tail := "/realms/" + UrlEncode.Encode(cfg.realm) + "/protocol/openid-connect/auth";
    assert AuthEndpoint(cfg) == url + tail;
    assert OidcUrls.EndpointUrl(url, cfg.realm, OidcUrls.Authorization) == OidcUrls.TrimSlashes(url) + tail;
    OidcUrls.TrimShorter(url);
    if url + tail == OidcUrls.TrimSlashes(url) + tail {
      assert |url| == |OidcUrls.TrimSlashes(url)|;
    }
  }

  predicate AuthBytes(cfg: RealmConfig, state: string, challenge: string) {
    && IsBytes(cfg.realm) && IsBytes(state) && IsBytes(challenge)
    && IsBytes(cfg.clientId) && IsBytes(cfg.redirectUri) && IsBytes(JoinScopes(cfg.scopes))
  }

  lemma ShortNamesAreBytes()
    ensures IsBytes("response_type") && IsBytes("code") && IsBytes("client_id") && IsBytes("redirect_uri")
    ensures IsBytes("state") && IsBytes("scope") && IsBytes("S256")
  {
  }

  lemma LongNamesAreBytes()
    ensures IsBytes("code_challenge") && IsBytes("code_verifier")
    ensures IsBytes("grant_type") && IsBytes("client_secret")
  {
  }

  lemma CompoundNamesAreBytes()
    ensures IsBytes("code_challenge_method") && IsBytes("authorization_code")
  {
  }

  lemma AuthParamsAreBytes(cfg: RealmConfig, state: string, challenge: string)
    requires AuthBytes(cfg, state, challenge)
    ensures FieldsOfBytes(AuthParams(cfg, state, challenge))
  {
    hide IsBytes;
    ShortNamesAreBytes();
    LongNamesAreBytes();
    CompoundNamesAreBytes();
  }

  function AuthorizationQuery(cfg: RealmConfig, state: string, challenge: string): string
    requires AuthBytes(cfg, state, challenge)
  {
    AuthParamsAreBytes(cfg, state, challenge);
    FormBody(AuthParams(cfg, state, challenge))
  }

  function AuthorizationUrl(cfg: RealmConfig, state: string, challenge: string): string
    requires AuthBytes(cfg, state, challenge)
  {
    AuthEndpoint(cfg) + "?" + AuthorizationQuery(cfg, state, challenge)
  }

  method CreateAuthorizationUrl(cfg: RealmConfig, state: string, pkce: PkcePair) returns (url: string)
    requires AuthBytes(cfg, state, pkce.codeChallenge)
    ensures url == AuthorizationUrl(cfg, state, pkce.codeChallenge)
  {
    hide FormBody, JoinScopes, UrlEncode.Encode, IsBytes;
    var scopeString := JoinScopeList(cfg.scopes);
    AuthParamsAreBytes(cfg, state, pkce.codeChallenge);
    var params: seq<Field> := [];
    params := params + [("response_type", "code")];
    params := params + [("client_id", cfg.clientId)];
    params := params + [("redirect_uri", cfg.redirectUri)];
    params := params + [("state", state)];
    params := params + [("code_challenge", pkce.codeChallenge)];
    params := params + [("code_challenge_method", "S256")];
    params := params + [("scope", scopeString)];
    assert params == AuthParams(cfg, state, pkce.codeChallenge);
    var query := BuildFormBody(params);
    var realm := UrlEncode.UrlEncode(cfg.realm);
    url := cfg.baseUrl + "/realms/" + realm + "/protocol/openid-connect/auth" + "?" + query;
  }

  function TokenFields(cfg: TokenConfig, code: string, verifier: string): seq<Field> {
    [("grant_type", "authorization_code"),
     ("code", code),
     ("client_id", cfg.clientId),
     ("redirect_uri", cfg.redirectUri),
     ("code_verifier", verifier)]
    + if cfg.clientSecret.Some? then [("client_secret", cfg.clientSecret.value)] else []
  }

  /** A request to the token endpoint. */
  datatype TokenRequest = TokenRequest(url: string, body: string)

  predicate TokenBytes(cfg: TokenConfig, code: string, verifier: string) {
    && IsBytes(cfg.realm) && IsBytes(cfg.clientId) && IsBytes(cfg.redirectUri) && IsBytes(code) && IsBytes(verifier)
    && (cfg.clientSecret.Some? ==> IsBytes(cfg.clientSecret.value))
  }

  lemma TokenFieldsAreBytes(cfg: TokenConfig, code: string, verifier: string)
    requires TokenBytes(cfg, code, verifier)
    ensures FieldsOfBytes(TokenFields(cfg, code, verifier))
  {
    hide IsBytes;
    ShortNamesAreBytes();
    LongNamesAreBytes();
    CompoundNamesAreBytes();
  }

  function ExchangeRequest(cfg: TokenConfig, code: string, verifier: string): TokenRequest
    requires TokenBytes(cfg, code, verifier)
  {
    TokenFieldsAreBytes(cfg, code, verifier);
    TokenRequest(OidcUrls.EndpointUrl(cfg.baseUrl, cfg.realm, OidcUrls.Token), FormBody(TokenFields(cfg, code, verifier)))
  }

  // ------------------------------------------------------------------ the manager

  datatype AuthStart = AuthStart(url: string, state: string)

  /** The outcome of a callback up to the network: an error, or the one token request
      that is sent for the realm. */
  datatype CallbackStep = Failed(httpStatus: int, error: string) | Exchange(realm: string, request: TokenRequest)

  /** The exception of a create that failed, without what the Redis server says. */
  function CreateFailure(store: Contents, r: CreateResult): string {
    match r
    case DrawFailed => "RAND_bytes failed while generating OAuth state"
    case Exhausted =>
      if store.InMemory? then "MemoryStateStore::create_state failed: unable to allocate unique state"
      else "RedisStateStore::create_state failed: unable to allocate unique state"
    case _ => "RedisStateStore::create_state failed"
  }

  class MultiRealmManager {
    const realms: Realms
    const store: Store

    constructor (realms: Realms, store: Store)
      requires ValidRealms(realms)
      ensures this.realms == realms && this.store == store
    {
      this.realms, this.store := realms, store;
    }

    /** `bytes` are drawn for the verifier, `draws` for the state; `times` are the clock readings of the store. */
    method StartLogin(realm: string, ttl: int, bytes: Option<string>, draws: Draws, times: seq<int>, sha256: string -> string)
      returns (r: Result<AuthStart, string>)
      requires ValidRealms(realms) && ValidDraws(draws) && |times| == ATTEMPTS
      requires realm in realms && bytes.Some? ==> |bytes.value| == ClampLength(realms[realm].realm.verifierLen)
      requires forall s :: IsBytes(sha256(s)) && |sha256(s)| == 32
      modifies store.Objects()
      ensures realm !in realms ==> r == Err("unknown realm") && store.Holds() == old(store.Holds())
      ensures realm in realms && bytes.None? ==> r == Err("RAND_bytes failed") && store.Holds() == old(store.Holds())
      ensures realm in realms && bytes.Some? ==>
        var entry := StateEntry(VerifierText(bytes.value), realm);
        && entry.IsBytes()
        && var (created, after) := AfterCreate(old(store.Holds()), entry, ttl, draws, times);
        && store.Holds() == after
        && match created
           case Created(state) =>
             var challenge := Challenge(VerifierText(bytes.value), sha256);
             && AuthBytes(realms[realm].realm, state, challenge)
             && r == Ok(AuthStart(AuthorizationUrl(realms[realm].realm, state, challenge), state))
           case failed => r == Err(CreateFailure(after, failed))
    {
      hide Challenge, AuthorizationUrl, VerifierText, IsBytes, AfterCreate, CreateFailure;
      if realm !in realms {
        return Err("unknown realm");
      }
      var cfg := realms[realm].realm;
      var pkce := GeneratePkcePair(cfg.verifierLen, bytes, sha256);
      if pkce.Err? {
        return Err(pkce.error);
      }
      VerifierAlphabet(bytes.value);
      var entry := StateEntry(pkce.value.codeVerifier, cfg.realm);
      ghost var before := store.Holds();
      var created := store.CreateStateEntry(entry, ttl, draws, times);
      if !created.Created? {
        var failure := CreateFailure(store.Holds(), created);
        return Err(failure);
      }
      CreatedIsBytes(before, entry, ttl, draws, times);
      ChallengeShape(pkce.value.codeVerifier, sha256);
      var url := CreateAuthorizationUrl(cfg, created.state, pkce.value);
      return Ok(AuthStart(url, created.state));
    }

    /** `complete_login` up to the suspension at the token request. */
    method CompleteLogin(code: string, state: string, now: int) returns (r: CallbackStep)
      requires ValidRealms(realms) && IsBytes(code)
      requires var (entry, _) := AfterTake(store.Holds(), state, now); entry.Some? ==> entry.value.IsBytes()
      modifies store.Objects()
      ensures code == "" || state == "" ==> r == Failed(400, "missing_code_or_state") && store.Holds() == old(store.Holds())
      ensures code != "" && state != "" ==>
        var (entry, after) := AfterTake(old(store.Holds()), state, now);
        && store.Holds() == after
        && (entry.None? ==> r == Failed(401, "invalid_or_expired_state"))
        && (entry.Some? ==> r == AfterConsume(realms, entry.value, code))
        && (entry.Some? && entry.value.realm !in realms ==> r == Failed(400, "unknown_realm"))
        && (entry.Some? && entry.value.realm in realms && entry.value.codeVerifier == "" ==>
              r == Failed(400, "missing_code_or_code_verifier"))
    {
      hide ExchangeRequest, AfterTake, IsBytes;
      if code == "" || state == "" {
        return Failed(400, "missing_code_or_state");
      }
      var entry := store.ConsumeStateEntry(state, now);
      if entry.None? {
        return Failed(401, "invalid_or_expired_state");
      }
      if entry.value.realm !in realms {
        return Failed(400, "unknown_realm");
      }
      var cfg := realms[entry.value.realm].token;
      if entry.value.codeVerifier == "" {
        return Failed(400, "missing_code_or_code_verifier");
      }
      var request := BuildExchange(cfg, code, entry.value.codeVerifier);
      return Exchange(entry.value.realm, request);
    }
  }

  method BuildExchange(cfg: TokenConfig, code: string, verifier: string) returns (request: TokenRequest)
    requires TokenBytes(cfg, code, verifier)
    ensures request == ExchangeRequest(cfg, code, verifier)
  {
    hide FormBody, OidcUrls.Suffix;
    TokenFieldsAreBytes(cfg, code, verifier);
    var fields: seq<Field> := [
      ("grant_type", "authorization_code"), ("code", code), ("client_id", cfg.clientId),
      ("redirect_uri", cfg.redirectUri), ("code_verifier", verifier)];
    if cfg.clientSecret.Some? {
      fields := fields + [("client_secret", cfg.clientSecret.value)];
    }
    assert fields == TokenFields(cfg, code, verifier);
    var body := BuildFormBody(fields);
    var root := OidcUrls.TrimTrailingSlash(cfg.baseUrl);
    var realm := UrlEncode.UrlEncode(cfg.realm);
    request := TokenRequest(root + "/realms/" + realm + OidcUrls.Suffix(OidcUrls.Token), body);
  }

  /** What happens with a consumed entry. */
  function AfterConsume(realms: Realms, entry: StateEntry, code: string): CallbackStep
    requires ValidRealms(realms) && entry.IsBytes() && IsBytes(code)
  {
    if entry.realm !in realms then Failed(400, "unknown_realm")
    else if entry.codeVerifier == "" then Failed(400, "missing_code_or_code_verifier")
    else Exchange(entry.realm, ExchangeRequest(realms[entry.realm].token, code, entry.codeVerifier))
  }

  lemma {:induction false} HexTextIsBytes(bytes: string)
    requires IsBytes(bytes)
    ensures IsBytes(HexText(bytes))
  {
    if bytes != "" {
      HexTextIsBytes(bytes[1..]);
    }
  }

  lemma {:induction false} StateIsBytes(taken: set<string>, draws: Draws)
    requires forall i :: 0 <= i < |draws| ==> draws[i].Some? ==> IsBytes(draws[i].value)
    ensures Allocate(taken, draws).Created? ==> IsBytes(Allocate(taken, draws).state)
  {
    hide HexText, IsBytes;
    if draws != [] && draws[0].Some? {
      HexTextIsBytes(draws[0].value);
      StateIsBytes(taken, draws[1..]);
    }
  }

  lemma {:induction false} RedisStateIsBytes(db: Database, prefix: string, text: string, ex: int, draws: Draws, times: seq<int>)
    requires |times| == |draws| && forall i :: 0 <= i < |draws| ==> draws[i].Some? ==> IsBytes(draws[i].value)
    ensures var r := RedisCreate(db, prefix, text, ex, draws, times).0; r.Created? ==> IsBytes(r.state)
    decreases draws
  {
    hide HexText, IsBytes;
    if draws != [] && draws[0].Some? {
      HexTextIsBytes(draws[0].value);
      RedisStateIsBytes(RedisAttempt(db, prefix, text, ex, draws[0], times[0]).1, prefix, text, ex, draws[1..], times[1..]);
    }
  }

  lemma CreatedIsBytes(c: Contents, entry: StateEntry, ttl: int, draws: Draws, times: seq<int>)
    requires ValidDraws(draws) && |times| == ATTEMPTS && entry.IsBytes()
    ensures var r := AfterCreate(c, entry, ttl, draws, times).0; r.Created? ==> IsBytes(r.state)
  {
    hide Allocate, RedisCreate, IsBytes;
    match c
    case InMemory(entries) => StateIsBytes(Live(entries, times[0]).Keys, draws);
    case InRedis(prefix, db) => RedisStateIsBytes(db, prefix, EncodeEntry(entry), TtlSeconds(ttl), draws, times);
  }

  // -------------------------------------------------------- reading the requests

  /** The query of the authorization URL carries the state, the challenge and its method. */
  lemma {:induction false} QueryCarries(cfg: RealmConfig, state: string, challenge: string)
    requires AuthBytes(cfg, state, challenge)
    ensures ParseForm(AuthorizationQuery(cfg, state, challenge))
         == map["response_type" := "code", "client_id" := cfg.clientId, "redirect_uri" := cfg.redirectUri, "state" := state,
                "code_challenge" := challenge, "code_challenge_method" := "S256", "scope" := JoinScopes(cfg.scopes)]
  {
    hide FormBody, ParseForm, JoinScopes, IsBytes;
    AuthParamsAreBytes(cfg, state, challenge);
    var fields := AuthParams(cfg, state, challenge);
    FormRoundTrip(fields);
    InsertSeven(fields);
  }

  lemma InsertFive(f: seq<Field>, params: map<string, string>)
    requires |f| >= 5
    ensures InsertAll(f, params)
         == InsertAll(f[5..], params[f[0].0 := f[0].1][f[1].0 := f[1].1][f[2].0 := f[2].1][f[3].0 := f[3].1][f[4].0 := f[4].1])
  {
    assert f[1..][1..] == f[2..] && f[2..][1..] == f[3..] && f[3..][1..] == f[4..] && f[4..][1..] == f[5..];
    var m1 := params[f[0].0 := f[0].1];
    var m2 := m1[f[1].0 := f[1].1];
    var m3 := m2[f[2].0 := f[2].1];
    assert InsertAll(f, params) == InsertAll(f[1..], m1);
    assert InsertAll(f[1..], m1) == InsertAll(f[2..], m2);
    assert InsertAll(f[2..], m2) == InsertAll(f[3..], m3);
    assert InsertAll(f[3..], m3) == InsertAll(f[4..], m3[f[3].0 := f[3].1]);
  }

  lemma InsertSeven(f: seq<Field>)
    requires |f| == 7
    ensures InsertAll(f, map[])
         == map[f[0].0 := f[0].1][f[1].0 := f[1].1][f[2].0 := f[2].1][f[3].0 := f[3].1][f[4].0 := f[4].1][f[5].0 := f[5].1][f[6].0 := f[6].1]
  {
    InsertFive(f, map[]);
    assert f[5..][1..] == f[6..] && f[6..][1..] == [];
    var m := map[f[0].0 := f[0].1][f[1].0 := f[1].1][f[2].0 := f[2].1][f[3].0 := f[3].1][f[4].0 := f[4].1];
    assert InsertAll(f[5..], m) == InsertAll(f[6..], m[f[5].0 := f[5].1]);
    assert InsertAll(f[6..], m[f[5].0 := f[5].1]) == InsertAll([], m[f[5].0 := f[5].1][f[6].0 := f[6].1]);
  }

  /** The body of the token request carries the code and the verifier. */
  lemma {:induction false} BodyCarries(cfg: TokenConfig, code: string, verifier: string)
    requires TokenBytes(cfg, code, verifier)
    ensures var request := ExchangeRequest(cfg, code, verifier);
      && ParseForm(request.body)
         == map["grant_type" := "authorization_code", "code" := code, "client_id" := cfg.clientId,
                "redirect_uri" := cfg.redirectUri, "code_verifier" := verifier]
          + (if cfg.clientSecret.Some? then map["client_secret" := cfg.clientSecret.value] else map[])
      && request.url == OidcUrls.TrimSlashes(cfg.baseUrl) + "/realms/" + UrlEncode.Encode(cfg.realm)
                        + "/protocol/openid-connect/token"
  {
    hide FormBody, ParseForm, IsBytes, UrlEncode.Encode, OidcUrls.TrimSlashes;
    TokenFieldsAreBytes(cfg, code, verifier);
    var fields := TokenFields(cfg, code, verifier);
    FormRoundTrip(fields);
    InsertFive(fields, map[]);
    if cfg.clientSecret.Some? {
      assert fields[5..] == [("client_secret", cfg.clientSecret.value)];
      assert fields[5..][1..] == [];
    } else {
      assert fields[5..] == [];
    }
  }

  /** The texts of a create's exceptions. */
  lemma CreateFailureTexts(store: Contents)
    ensures CreateFailure(store, DrawFailed) == "RAND_bytes failed while generating OAuth state"
    ensures store.InMemory? ==> CreateFailure(store, Exhausted) == "MemoryStateStore::create_state failed: unable to allocate unique state"
    ensures store.InRedis? ==> CreateFailure(store, Exhausted) == "RedisStateStore::create_state failed: unable to allocate unique state"
  {
  }
}
