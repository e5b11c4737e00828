/** The access token validator and its key cache (`access_token_validator.hpp`). */
module Validator {
  import opened Wrappers
  import opened Text
  import opened JsonExtract
  import opened Jwt
  import OidcUrls
  import Scopes

  datatype AuthConfig = AuthConfig(expectedIssuer: string, jwksUrl: string, jwksCacheTtl: int, requireAudience: bool,
                                   expectedAudience: string, expectedAzp: string, clockSkew: int)

  datatype RequestContext = RequestContext(authenticated: bool, sub: string, preferredUsername: string, realm: string,
                                           issuer: string, clientId: string, roles: seq<string>, scopes: seq<string>)

  datatype JwtValidationResult = JwtValidationResult(ok: bool, httpStatus: int, error: string, context: RequestContext)

  function Failure(httpStatus: int, error: string): JwtValidationResult {
    JwtValidationResult(false, httpStatus, error, RequestContext(false, "", "", "", "", "", [], []))
  }

  function Success(context: RequestContext): JwtValidationResult {
    JwtValidationResult(true, 200, "", context)
  }

  // ---------------------------------------------------------------- specification

  function ConfigFailure(cfg: AuthConfig): Option<JwtValidationResult> {
    if cfg.expectedIssuer == "" then Some(Failure(500, "auth_config_missing_expected_issuer"))
    else if cfg.jwksUrl == "" then Some(Failure(500, "auth_config_missing_jwks_url"))
    else if cfg.requireAudience && cfg.expectedAudience == "" then Some(Failure(500, "auth_config_missing_expected_audience"))
    else None
  }

  /** A decoded token with its algorithm and key identifier. */
  datatype ParsedToken = ParsedToken(jwt: DecodedJwt, alg: string, kid: string)

  function ParseToken(token: string): Scan<Result<ParsedToken, JwtValidationResult>> {
    if token == "" then Done(Err(Failure(401, "missing_access_token"))) else
    match DecodeJwt(token)
    case None => Done(Err(Failure(401, "invalid_jwt_format")))
    case Some(jwt) =>
      var alg :- StringOrEmpty(jwt.headerJson, "alg");
      if alg == "" then Done(Err(Failure(401, "jwt_missing_alg")))
      else if !SupportedAlg(alg) then Done(Err(Failure(401, "unsupported_jwt_alg")))
      else
        var kid :- StringOrEmpty(jwt.headerJson, "kid");
        if kid == "" then Done(Err(Failure(401, "jwt_missing_kid"))) else Done(Ok(ParsedToken(jwt, alg, kid)))
  }

  predicate IsFirstKey(keys: seq<Jwk>, kid: string, i: nat) {
    i < |keys| && keys[i].kid == kid && forall j :: 0 <= j < i ==> keys[j].kid != kid
  }

  /** The first key with this identifier. */
  function FindKey(keys: seq<Jwk>, kid: string): (r: Option<Jwk>)
    ensures r.Some? ==> exists i: nat :: IsFirstKey(keys, kid, i) && keys[i] == r.value
    ensures r.None? ==> forall k :: k in keys ==> k.kid != kid
  {
    if keys == [] then None
    else if keys[0].kid == kid then
      assert IsFirstKey(keys, kid, 0);
      Some(keys[0])
    else
      var r := FindKey(keys[1..], kid);
      assert forall i: nat :: IsFirstKey(keys[1..], kid, i) ==> IsFirstKey(keys, kid, i + 1);
      r
  }

  function KeyFailure(keys: seq<Jwk>, parsed: ParsedToken, verify: RsaVerify): Option<JwtValidationResult> {
    match FindKey(keys, parsed.kid)
    case None => Some(Failure(401, "jwks_key_not_found"))
    case Some(key) =>
      if VerifySignature(verify, key, parsed.alg, parsed.jwt.signingInput, parsed.jwt.signature) then None
      else Some(Failure(401, "jwt_signature_invalid"))
  }

  /** The checks of issuer and times. */
  function TimeFailure(cfg: AuthConfig, payload: string, now: int): Scan<Option<JwtValidationResult>> {
    var issuer :- ExtractString(payload, "iss");
    if issuer.None? || issuer.value == "" then Done(Some(Failure(401, "jwt_missing_issuer")))
    else if issuer.value != cfg.expectedIssuer then Done(Some(Failure(401, "jwt_issuer_mismatch")))
    else
      var exp :- ExtractInt64(payload, "exp");
      if exp.None? then Done(Some(Failure(401, "jwt_missing_exp")))
      else if now > exp.value + cfg.clockSkew then Done(Some(Failure(401, "jwt_expired")))
      else
        var nbf :- ExtractInt64(payload, "nbf");
        Done(if nbf.Some? && now + cfg.clockSkew < nbf.value then Some(Failure(401, "jwt_not_yet_valid")) else None)
  }

  /** The checks of audience and authorized party. */
  function PartyFailure(cfg: AuthConfig, payload: string): Scan<Option<JwtValidationResult>> {
    var audiences :- (if cfg.requireAudience then ExtractAudience(payload) else Done([]));
    if cfg.requireAudience && cfg.expectedAudience !in audiences then Done(Some(Failure(403, "jwt_audience_mismatch")))
    else
      var azp :- (if cfg.expectedAzp != "" then StringOrEmpty(payload, "azp") else Done(""));
      Done(if azp != cfg.expectedAzp then Some(Failure(403, "jwt_azp_mismatch")) else None)
  }

  function RealmOf(issuer: string): string {
    if issuer == "" then "" else OidcUrls.LastSegment(issuer)
  }

  function ReadIdentity(payload: string): Scan<RequestContext> {
    var sub :- StringOrEmpty(payload, "sub");
    var preferredUsername :- StringOrEmpty(payload, "preferred_username");
    var issuer :- StringOrEmpty(payload, "iss");
    var azp :- ExtractString(payload, "azp");
    var clientId :- StringOrEmpty(payload, "client_id");
    Done(RequestContext(true, sub, preferredUsername, RealmOf(issuer), issuer, azp.GetOr(clientId), [], []))
  }

  function ReadContext(payload: string): Scan<RequestContext> {
    var identity :- ReadIdentity(payload);
    var roles :- ExtractRoles(payload);
    var scope :- StringOrEmpty(payload, "scope");
    Done(identity.(roles := roles, scopes := Scopes.SplitWs(scope)))
  }

  /** Everything after the keys are there. */
  function Checked(cfg: AuthConfig, keys: seq<Jwk>, parsed: ParsedToken, now: int, verify: RsaVerify): Scan<JwtValidationResult> {
    var payload := parsed.jwt.payloadJson;
    match KeyFailure(keys, parsed, verify)
    case Some(failure) => Done(failure)
    case None =>
      var time :- TimeFailure(cfg, payload, now);
      if time.Some? then Done(time.value) else
      var party :- PartyFailure(cfg, payload);
      if party.Some? then Done(party.value) else
      var context :- ReadContext(payload);
      Done(Success(context))
  }

  // -------------------------------------------------------------------- key cache

  datatype JwksCache = JwksCache(keys: seq<Jwk>, expiresAt: int)

  /** The answer of the key server; the status is 0 when there was none. */
  datatype Reply = Reply(status: int, body: string)

  datatype JwksFetchResult = JwksFetchResult(ok: bool, httpStatus: int, error: string, keys: seq<Jwk>)

  function FreshKeys(cache: JwksCache, now: int): seq<Jwk> {
    if cache.keys != [] && now < cache.expiresAt then cache.keys else []
  }

  function Fetched(reply: Reply): (r: Scan<JwksFetchResult>)
    ensures r.Done? && r.value.ok ==>
              200 <= reply.status < 300 && r.value.keys != [] && ExtractJwks(reply.body) == Done(r.value.keys)
    ensures r.Done? && !r.value.ok ==>
              r.value == JwksFetchResult(false, 502, if 200 <= reply.status < 300 then "jwks_parse_failed" else "jwks_fetch_failed", [])
  {
    var status := if reply.status > 0 then reply.status else 502;
    if status < 200 || status >= 300 then Done(JwksFetchResult(false, 502, "jwks_fetch_failed", []))
    else
      var keys :- ExtractJwks(reply.body);
      Done(if keys == [] then JwksFetchResult(false, 502, "jwks_parse_failed", []) else JwksFetchResult(true, 200, "", keys))
  }

  /** Only a good answer is written. */
  function Refreshed(cache: JwksCache, fetched: JwksFetchResult, now: int, ttl: int): JwksCache {
    if fetched.ok then JwksCache(fetched.keys, now + ttl) else cache
  }

  /** The whole validation, for the keys that the cache holds and the answer that a fetch gets. */
  function Verdict(cfg: AuthConfig, cached: seq<Jwk>, reply: Reply, token: string, now: int, verify: RsaVerify)
      : Scan<JwtValidationResult>
  {
    match ConfigFailure(cfg)
    case Some(failure) => Done(failure)
    case None =>
      var parsed :- ParseToken(token);
      if parsed.Err? then Done(parsed.error)
      else if cached != [] then Checked(cfg, cached, parsed.value, now, verify)
      else
        var fetched :- Fetched(reply);
        if fetched.ok then Checked(cfg, fetched.keys, parsed.value, now, verify)
        else Done(Failure(fetched.httpStatus, fetched.error))
  }

  /** Whether the validation asks the key server. */
  predicate Asks(cfg: AuthConfig, cached: seq<Jwk>, token: string) {
    ConfigFailure(cfg).None? && ParseToken(token).Done? && ParseToken(token).value.Ok? && cached == []
  }

  // ------------------------------------------------------------------------ methods

  /** The sums of the time checks are 64-bit; a larger one is undefined in the source. */
  function Plus64(a: int, b: int): int
    requires FitsInt64(a + b)
  {
    a + b
  }

  /** Each sum fits, if the checks get as far as adding it up. */
  predicate SumsFit(cfg: AuthConfig, payload: string, now: int) {
    var exp, nbf := ExtractInt64(payload, "exp"), ExtractInt64(payload, "nbf");
    ExtractString(payload, "iss") == Done(Some(cfg.expectedIssuer)) && exp.Done? && exp.value.Some? ==>
      && FitsInt64(exp.value.value + cfg.clockSkew)
      && (now <= exp.value.value + cfg.clockSkew && nbf.Done? && nbf.value.Some? ==> FitsInt64(now + cfg.clockSkew))
  }

  predicate SignedSumsFit(cfg: AuthConfig, keys: seq<Jwk>, parsed: ParsedToken, now: int, verify: RsaVerify) {
    KeyFailure(keys, parsed, verify).None? ==> SumsFit(cfg, parsed.jwt.payloadJson, now)
  }

  predicate TokenSumsFit(cfg: AuthConfig, cached: seq<Jwk>, reply: Reply, token: string, now: int, verify: RsaVerify) {
    ConfigFailure(cfg).None? && ParseToken(token).Done? && ParseToken(token).value.Ok? ==>
      var parsed := ParseToken(token).value.value;
      && (cached != [] ==> SignedSumsFit(cfg, cached, parsed, now, verify))
      && (cached == [] && Fetched(reply).Done? && Fetched(reply).value.ok ==>
            SignedSumsFit(cfg, Fetched(reply).value.keys, parsed, now, verify))
  }

  method CheckConfig(cfg: AuthConfig) returns (failure: Option<JwtValidationResult>)
    ensures failure == ConfigFailure(cfg)
    ensures failure.None? <==> cfg.expectedIssuer != "" && cfg.jwksUrl != "" && (cfg.requireAudience ==> cfg.expectedAudience != "")
  {
    if cfg.expectedIssuer == "" {
      return Some(Failure(500, "auth_config_missing_expected_issuer"));
    }
    if cfg.jwksUrl == "" {
      return Some(Failure(500, "auth_config_missing_jwks_url"));
    }
    if cfg.requireAudience && cfg.expectedAudience == "" {
      return Some(Failure(500, "auth_config_missing_expected_audience"));
    }
    return None;
  }

  method CheckHeader(token: string) returns (r: Result<ParsedToken, JwtValidationResult>)
    requires ParseToken(token).Done?
    ensures r == ParseToken(token).value
  {
    hide ExtractString, DecodeJwt, Failure;
    if token == "" {
      return Err(Failure(401, "missing_access_token"));
    }
    var jwt := DecodeCompact(token);
    if jwt.None? {
      return Err(Failure(401, "invalid_jwt_format"));
    }
    var alg := ExtractJsonString(jwt.value.headerJson, "alg");
    if alg.GetOr("") == "" {
      return Err(Failure(401, "jwt_missing_alg"));
    }
    if !SupportedAlg(alg.GetOr("")) {
      return Err(Failure(401, "unsupported_jwt_alg"));
    }
    var kid := ExtractJsonString(jwt.value.headerJson, "kid");
    if kid.GetOr("") == "" {
      return Err(Failure(401, "jwt_missing_kid"));
    }
    return Ok(ParsedToken(jwt.value, alg.GetOr(""), kid.GetOr("")));
  }

  method CheckTimes(cfg: AuthConfig, payload: string, now: int) returns (failure: Option<JwtValidationResult>)
    requires TimeFailure(cfg, payload, now).Done? && SumsFit(cfg, payload, now)
    ensures failure == TimeFailure(cfg, payload, now).value
  {
    hide ExtractString, ExtractInt64, Failure;
    var issuer := ExtractJsonString(payload, "iss");
    if issuer.None? || issuer.value == "" {
      return Some(Failure(401, "jwt_missing_issuer"));
    }
    if issuer.value != cfg.expectedIssuer {
      return Some(Failure(401, "jwt_issuer_mismatch"));
    }
    var exp := ExtractJsonInt64(payload, "exp");
    if exp.None? {
      return Some(Failure(401, "jwt_missing_exp"));
    }
    if now > Plus64(exp.value, cfg.clockSkew) {
      return Some(Failure(401, "jwt_expired"));
    }
    var nbf := ExtractJsonInt64(payload, "nbf");
    if nbf.Some? {
      if Plus64(now, cfg.clockSkew) < nbf.value {
        return Some(Failure(401, "jwt_not_yet_valid"));
      }
    }
    return None;
  }

  method CheckParties(cfg: AuthConfig, payload: string) returns (failure: Option<JwtValidationResult>)
    requires PartyFailure(cfg, payload).Done?
    ensures failure == PartyFailure(cfg, payload).value
  {
    hide ExtractString, ExtractAudience, Failure;
    if cfg.requireAudience {
      var audiences := ReadAudience(payload);
      if cfg.expectedAudience !in audiences {
        return Some(Failure(403, "jwt_audience_mismatch"));
      }
    }
    if cfg.expectedAzp != "" {
      var azp := ExtractJsonString(payload, "azp");
      if azp.GetOr("") != cfg.expectedAzp {
        return Some(Failure(403, "jwt_azp_mismatch"));
      }
    }
    return None;
  }

  method MakeIdentity(payload: string) returns (context: RequestContext)
    requires ReadIdentity(payload).Done?
    ensures context == ReadIdentity(payload).value
  {
    hide ExtractString, OidcUrls.LastSegment;
    context := RequestContext(true, "", "", "", "", "", [], []);
    var sub := ExtractJsonString(payload, "sub");
    context := context.(sub := sub.GetOr(""));
    var preferredUsername := ExtractJsonString(payload, "preferred_username");
    context := context.(preferredUsername := preferredUsername.GetOr(""));
    var issuer := ExtractJsonString(payload, "iss");
    context := context.(issuer := issuer.GetOr(""));
    if context.issuer != "" {
      var segment := OidcUrls.LastPathSegment(context.issuer);
      context := context.(realm := segment);
    }
    var azp := ExtractJsonString(payload, "azp");
    var clientId := ExtractJsonString(payload, "client_id");
    context := context.(clientId := azp.GetOr(clientId.GetOr("")));
  }

  method MakeContext(payload: string) returns (context: RequestContext)
    requires ReadContext(payload).Done?
    ensures context == ReadContext(payload).value
  {
    hide ExtractString, ReadIdentity, ExtractRoles, Scopes.SplitWs;
    context := MakeIdentity(payload);
    var roles := ReadRoles(payload);
    var scope := ExtractJsonString(payload, "scope");
    var scopes := Scopes.SplitOnWhitespace(scope.GetOr(""));
    context := context.(roles := roles, scopes := scopes);
  }

  /** `validate` behind the keys. */
  method FinishValidation(cfg: AuthConfig, keys: seq<Jwk>, parsed: ParsedToken, now: int, verify: RsaVerify)
      returns (r: JwtValidationResult)
    requires Checked(cfg, keys, parsed, now, verify).Done? && SignedSumsFit(cfg, keys, parsed, now, verify)
    ensures r == Checked(cfg, keys, parsed, now, verify).value
  {
    hide TimeFailure, PartyFailure, ReadContext, VerifySignature, FindKey, SumsFit, Failure;
    var key := FindKey(keys, parsed.kid);
    if key.None? {
      return Failure(401, "jwks_key_not_found");
    }
    if !VerifySignature(verify, key.value, parsed.alg, parsed.jwt.signingInput, parsed.jwt.signature) {
      return Failure(401, "jwt_signature_invalid");
    }
    var time := CheckTimes(cfg, parsed.jwt.payloadJson, now);
    if time.Some? {
      return time.value;
    }
    var party := CheckParties(cfg, parsed.jwt.payloadJson);
    if party.Some? {
      return party.value;
    }
    var context := MakeContext(parsed.jwt.payloadJson);
    return Success(context);
  }

  class AccessTokenValidator {
    const cfg: AuthConfig
    var cache: JwksCache

    constructor (cfg: AuthConfig)
      ensures this.cfg == cfg && cache == JwksCache([], 0)
    {
      this.cfg := cfg;
      cache := JwksCache([], 0);
    }

    method CachedKeys(now: int) returns (keys: seq<Jwk>)
      ensures keys == FreshKeys(cache, now)
    {
      if cache.keys != [] && now < cache.expiresAt {
        return cache.keys;
      }
      return [];
    }

    /** `refresh_jwks`, behind its suspension: what is done with the answer. */
    method FinishRefresh(reply: Reply, now: int) returns (r: JwksFetchResult)
      requires Fetched(reply).Done?
      modifies this
      ensures r == Fetched(reply).value
      ensures cache == Refreshed(old(cache), r, now, cfg.jwksCacheTtl)
    {
      hide ExtractJwks;
      var status := if reply.status > 0 then reply.status else 502;
      if status < 200 || status >= 300 {
        return JwksFetchResult(false, 502, "jwks_fetch_failed", []);
      }
      var keys := ReadJwks(reply.body);
      if keys == [] {
        return JwksFetchResult(false, 502, "jwks_parse_failed", []);
      }
      cache := JwksCache(keys, now + cfg.jwksCacheTtl);
      return JwksFetchResult(true, 200, "", keys);
    }

    /** One validation on its own: the cache is read at `readAt`, an answer is written at
        `writeAt`, and the claims are checked at the wall-clock time `now`. */
    method Validate(token: string, reply: Reply, readAt: int, writeAt: int, now: int, verify: RsaVerify)
        returns (r: JwtValidationResult)
      requires Verdict(cfg, FreshKeys(cache, readAt), reply, token, now, verify).Done?
      requires TokenSumsFit(cfg, FreshKeys(cache, readAt), reply, token, now, verify)
      modifies this
      ensures r == Verdict(cfg, old(FreshKeys(cache, readAt)), reply, token, now, verify).value
      ensures cache == if Asks(cfg, old(FreshKeys(cache, readAt)), token)
                       then Refreshed(old(cache), Fetched(reply).value, writeAt, cfg.jwksCacheTtl) else old(cache)
    {
      hide ConfigFailure, ParseToken, Fetched, Checked, SignedSumsFit, Failure, Refreshed, FreshKeys;
      var failure := CheckConfig(cfg);
      if failure.Some? {
        return failure.value;
      }
      var parsed := CheckHeader(token);
      if parsed.Err? {
        return parsed.error;
      }
      var keys := CachedKeys(readAt);
      if keys == [] {
        var refreshed := FinishRefresh(reply, writeAt);
        if !refreshed.ok {
          return Failure(refreshed.httpStatus, refreshed.error);
        }
        keys := refreshed.keys;
      }
      r := FinishValidation(cfg, keys, parsed.value, now, verify);
    }
  }
}
