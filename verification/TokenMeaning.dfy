/** What an accepted token means: the validator on the texts of JSON trees agrees with a
    reference validator that reads the trees and knows neither texts nor a cache. */
module TokenMeaning {
  import opened Wrappers
  import opened Text
  import opened JsonTree
  import opened JsonNumbers
  import opened JsonExtract
  import opened JsonLookup
  import opened Jwt
  import opened JwtTrees
  import opened Validator
  import Scopes
  import Base64Url
  import OidcUrls
  import UrlEncode

  // -------------------------------------------------------- the reference validator

  function Claim(obj: Json, k: string): string
    requires obj.Obj?
  {
    StringMember(obj, k).GetOr("")
  }

  /** A token in parts; its text is the compact serialization of the printed parts. */
  datatype Token = Token(header: Json, payload: Json, signature: string)
  {
    /** Objects that print to bytes, in whose header the search reaches the names that are read. */
    ghost predicate Decodable() {
      && header.Obj? && WellFormed(header) && IsBytes(Render(header))
      && payload.Obj? && WellFormed(payload) && IsBytes(Render(payload))
      && IsBytes(signature) && HeaderReached(header)
    }

    /** And in the payload too. */
    ghost predicate Readable() {
      Decodable() && ClaimsReached(payload) && TimesReached(payload)
    }

    function Text(): string
      requires IsBytes(Render(header)) && IsBytes(Render(payload)) && IsBytes(signature)
    {
      Compact(Render(header), Render(payload), signature)
    }

    function Signed(): string
      requires IsBytes(Render(header)) && IsBytes(Render(payload))
    {
      SigningInput(Render(header), Render(payload))
    }
  }

  ghost predicate HeaderReached(header: Json)
    requires header.Obj?
  {
    KeyReached(header, "alg") && KeyReached(header, "kid")
  }

  ghost predicate TimesReached(payload: Json)
    requires payload.Obj?
  {
    KeyReached(payload, "exp") && KeyReached(payload, "nbf")
  }

  ghost predicate PartiesReached(payload: Json)
    requires payload.Obj?
  {
    KeyReached(payload, "iss") && KeyReached(payload, "aud") && KeyReached(payload, "azp")
  }

  /** All names but those of the times. */
  ghost predicate ClaimsReached(payload: Json)
    requires payload.Obj?
  {
    PartiesReached(payload) && IdentityReached(payload) && RolesReached(payload)
  }

  ghost predicate IdentityReached(payload: Json)
    requires payload.Obj?
  {
    && KeyReached(payload, "sub") && KeyReached(payload, "preferred_username")
    && KeyReached(payload, "client_id") && KeyReached(payload, "scope")
  }

  /** The algorithms that are taken (section 3.1 of RFC 7518). */
  const ALGORITHMS := {"RS256", "RS384", "RS512"}

  /** An RSA key with this modulus and exponent (section 6.3.1 of RFC 7518). */
  predicate RsaKey(key: Jwk, modulus: string, exponent: string) {
    && key.kty == "RSA" && key.n != "" && key.e != ""
    && Base64Url.Denotes(key.n, modulus) && Base64Url.Denotes(key.e, exponent)
  }

  ghost predicate SignedBy(key: Jwk, alg: string, input: string, signature: string, verify: RsaVerify) {
    exists modulus: string, exponent: string :: RsaKey(key, modulus, exponent) && verify(modulus, exponent, alg, input, signature)
  }

  /** The signature is that of the first key with the header's identifier, for its algorithm. */
  ghost predicate SignatureGood(token: Token, keys: seq<Jwk>, verify: RsaVerify)
    requires token.header.Obj? && IsBytes(Render(token.header)) && IsBytes(Render(token.payload))
  {
    && Claim(token.header, "alg") in ALGORITHMS
    && FindKey(keys, Claim(token.header, "kid")).Some?
    && SignedBy(FindKey(keys, Claim(token.header, "kid")).value, Claim(token.header, "alg"), token.Signed(), token.signature, verify)
  }

  /** What `verify_rsa_signature` accepts: one of the three algorithms, and the key's own signature. */
  lemma SignatureMeans(verify: RsaVerify, key: Jwk, alg: string, input: string, signature: string)
    ensures VerifySignature(verify, key, alg, input, signature) <==> alg in ALGORITHMS && SignedBy(key, alg, input, signature, verify)
  {
    hide Base64Url.Decode, Base64Url.Denotes;
    forall text: string, bytes: string ensures Base64Url.Decode(text) == Some(bytes) <==> Base64Url.Denotes(text, bytes) {
      Base64Url.DecodeExactly(text, bytes);
    }
    if VerifySignature(verify, key, alg, input, signature) {
      assert RsaKey(key, Base64Url.Decode(key.n).value, Base64Url.Decode(key.e).value);
    }
  }

  /** For a key with an encoded modulus and exponent, that is the primitive's answer for them. */
  lemma EncodedKeySigns(key: Jwk, modulus: string, exponent: string, alg: string, input: string, signature: string, verify: RsaVerify)
    requires IsBytes(modulus) && IsBytes(exponent) && key.n == Base64Url.Encode(modulus) && key.e == Base64Url.Encode(exponent)
    requires key.kty == "RSA" && key.n != "" && key.e != ""
    ensures SignedBy(key, alg, input, signature, verify) <==> verify(modulus, exponent, alg, input, signature)
  {
    hide Base64Url.Decode, Base64Url.Denotes, Base64Url.Encode;
    Base64Url.RoundTrip(modulus);
    Base64Url.RoundTrip(exponent);
    Base64Url.DecodeExactly(key.n, modulus);
    Base64Url.DecodeExactly(key.e, exponent);
    forall m: string, e: string | RsaKey(key, m, e) ensures m == modulus && e == exponent {
      Base64Url.DecodeExactly(key.n, m);
      Base64Url.DecodeExactly(key.e, e);
    }
    assert RsaKey(key, modulus, exponent);
  }

  /** Any other key signs nothing, whatever the primitive says. */
  lemma OtherKeysSignNothing(key: Jwk, alg: string, input: string, signature: string, verify: RsaVerify)
    requires key.kty != "RSA" || key.n == "" || key.e == "" || Base64Url.Decode(key.n).None? || Base64Url.Decode(key.e).None?
    ensures !SignedBy(key, alg, input, signature, verify) && !VerifySignature(verify, key, alg, input, signature)
  {
    hide Base64Url.Decode, Base64Url.Denotes;
    forall m: string, e: string ensures !RsaKey(key, m, e) {
      Base64Url.DecodeExactly(key.n, m);
      Base64Url.DecodeExactly(key.e, e);
    }
  }

  /** The time that a claim gives (section 2 of RFC 7519): any JSON number, in seconds. */
  function NumericDate(payload: Json, k: string): Option<real>
    requires payload.Obj?
  {
    match Lookup(payload.members, k)
    case Some(m) => NumberOf(m.value)
    case None => None
  }

  /** The skew is the leeway of section 4.1.4, its last second included. */
  predicate Unexpired(cfg: AuthConfig, payload: Json, now: int)
    requires payload.Obj?
  {
    NumericDate(payload, "exp").Some? && now as real <= NumericDate(payload, "exp").value + cfg.clockSkew as real
  }

  /** A claim that is there has to be a number (section 4.1.5). */
  predicate Begun(cfg: AuthConfig, payload: Json, now: int)
    requires payload.Obj?
  {
    Lookup(payload.members, "nbf").Some? ==>
      NumericDate(payload, "nbf").Some? && NumericDate(payload, "nbf").value <= (now + cfg.clockSkew) as real
  }

  predicate AudienceGood(cfg: AuthConfig, payload: Json)
    requires payload.Obj?
  {
    cfg.requireAudience ==> cfg.expectedAudience in AudienceOf(payload)
  }

  predicate PartyGood(cfg: AuthConfig, payload: Json)
    requires payload.Obj?
  {
    cfg.expectedAzp != "" ==> StringMember(payload, "azp") == Some(cfg.expectedAzp)
  }

  /** All but the times: algorithm, key, signature, issuer, audience and party. */
  ghost predicate Genuine(cfg: AuthConfig, token: Token, keys: seq<Jwk>, verify: RsaVerify)
    requires token.header.Obj? && IsBytes(Render(token.header))
    requires token.payload.Obj? && IsBytes(Render(token.payload))
  {
    && Claim(token.header, "kid") != "" && SignatureGood(token, keys, verify)
    && StringMember(token.payload, "iss") == Some(cfg.expectedIssuer)
    && AudienceGood(cfg, token.payload) && PartyGood(cfg, token.payload)
  }

  /** Sections 4.1.1 and 4.1.3 to 4.1.5 of RFC 7519, with the algorithm, the key and the party. */
  ghost predicate Accepted(cfg: AuthConfig, token: Token, keys: seq<Jwk>, now: int, verify: RsaVerify)
    requires token.header.Obj? && IsBytes(Render(token.header))
    requires token.payload.Obj? && IsBytes(Render(token.payload))
  {
    Genuine(cfg, token, keys, verify) && Unexpired(cfg, token.payload, now) && Begun(cfg, token.payload, now)
  }

  /** Who the token speaks for. */
  function IdentityOf(payload: Json): RequestContext
    requires payload.Obj?
  {
    RequestContext(true, Claim(payload, "sub"), Claim(payload, "preferred_username"), RealmOf(Claim(payload, "iss")),
                   Claim(payload, "iss"), StringMember(payload, "azp").GetOr(Claim(payload, "client_id")), [], [])
  }

  function ContextOf(payload: Json): RequestContext
    requires payload.Obj?
  {
    IdentityOf(payload).(roles := RolesOf(payload), scopes := Scopes.SplitWs(Claim(payload, "scope")))
  }

  /** What the times of a token mean at some moment. */
  datatype TimeCheck = NoExpiry | Expired | TooEarly | InTime

  function ClaimCheck(cfg: AuthConfig, payload: Json, now: int): TimeCheck
    requires payload.Obj?
  {
    if NumericDate(payload, "exp").None? then NoExpiry
    else if !Unexpired(cfg, payload, now) then Expired
    else if !Begun(cfg, payload, now) then TooEarly
    else InTime
  }

  /** An answer that refuses: nobody is authenticated. */
  function Refusal(httpStatus: int, error: string): JwtValidationResult {
    JwtValidationResult(false, httpStatus, error, RequestContext(false, "", "", "", "", "", [], []))
  }

  function Grant(context: RequestContext): JwtValidationResult {
    JwtValidationResult(true, 200, "", context)
  }

  /** The answer for a token whose times are judged already: what is wrong first, in the order of the checks. */
  ghost function Answer(cfg: AuthConfig, token: Token, keys: seq<Jwk>, check: TimeCheck, verify: RsaVerify): JwtValidationResult
    requires token.header.Obj? && IsBytes(Render(token.header))
    requires token.payload.Obj? && IsBytes(Render(token.payload))
  {
    if Claim(token.header, "alg") == "" then Refusal(401, "jwt_missing_alg")
    else if Claim(token.header, "alg") !in ALGORITHMS then Refusal(401, "unsupported_jwt_alg")
    else if Claim(token.header, "kid") == "" then Refusal(401, "jwt_missing_kid")
    else if keys == [] then Refusal(502, "jwks_parse_failed")
    else if FindKey(keys, Claim(token.header, "kid")).None? then Refusal(401, "jwks_key_not_found")
    else if !SignatureGood(token, keys, verify) then Refusal(401, "jwt_signature_invalid")
    else PayloadAnswer(cfg, token.payload, check)
  }

  function PayloadAnswer(cfg: AuthConfig, payload: Json, check: TimeCheck): JwtValidationResult
    requires payload.Obj?
  {
    if Claim(payload, "iss") == "" then Refusal(401, "jwt_missing_issuer")
    else if Claim(payload, "iss") != cfg.expectedIssuer then Refusal(401, "jwt_issuer_mismatch")
    else if check.NoExpiry? then Refusal(401, "jwt_missing_exp")
    else if check.Expired? then Refusal(401, "jwt_expired")
    else if check.TooEarly? then Refusal(401, "jwt_not_yet_valid")
    else if !AudienceGood(cfg, payload) then Refusal(403, "jwt_audience_mismatch")
    else if !PartyGood(cfg, payload) then Refusal(403, "jwt_azp_mismatch")
    else Grant(ContextOf(payload))
  }

  ghost function Reference(cfg: AuthConfig, token: Token, keys: seq<Jwk>, now: int, verify: RsaVerify): JwtValidationResult
    requires token.header.Obj? && IsBytes(Render(token.header))
    requires token.payload.Obj? && IsBytes(Render(token.payload))
  {
    Answer(cfg, token, keys, ClaimCheck(cfg, token.payload, now), verify)
  }

  /** An answer is good exactly when the token is genuine and in time. */
  lemma AnswerAccepts(cfg: AuthConfig, token: Token, keys: seq<Jwk>, check: TimeCheck, verify: RsaVerify)
    requires token.header.Obj? && IsBytes(Render(token.header)) && cfg.expectedIssuer != ""
    requires token.payload.Obj? && IsBytes(Render(token.payload))
    ensures Answer(cfg, token, keys, check, verify).ok <==> Genuine(cfg, token, keys, verify) && check == InTime
    ensures Answer(cfg, token, keys, check, verify).ok ==> Answer(cfg, token, keys, check, verify).context == ContextOf(token.payload)
  {
    hide StringMember, AudienceGood, PartyGood, ContextOf, Render, IsBytes, SignedBy;
  }

  /** At the very end of the leeway the token still counts; section 4.1.4 without leeway ends it there. */
  lemma LastSecond(cfg: AuthConfig, payload: Json, now: int)
    requires payload.Obj? && NumericDate(payload, "exp").Some?
    ensures var end := NumericDate(payload, "exp").value + cfg.clockSkew as real;
      (Unexpired(cfg, payload, now) <==> now as real < end) <==> now as real != end
  {
  }

  // ------------------------------------------------------------ the times as whole seconds

  /** From when on a token is good. */
  datatype Start = Always | From(at: int) | Never

  datatype Times = Times(exp: Option<int>, nbf: Start)
  {
    function Check(skew: int, now: int): TimeCheck {
      if exp.None? then NoExpiry
      else if now > exp.value + skew then Expired
      else if nbf.Never? || (nbf.From? && now + skew < nbf.at) then TooEarly
      else InTime
    }

    /** Never in time. */
    predicate Closed(skew: int) {
      exp.None? || nbf.Never? || (nbf.From? && nbf.at - skew > exp.value + skew)
    }
  }

  /** The times that the validator reads. */
  function TimesRead(payload: Json): Times
    requires payload.Obj?
  {
    Times(IntMember(payload, "exp"), match IntMember(payload, "nbf") case Some(n) => From(n) case None => Always)
  }

  function Ceiling(x: real): int {
    -(-x).Floor
  }

  /** The times that the claims give, as far as whole seconds can tell. */
  function TimesMeant(payload: Json): Times
    requires payload.Obj?
  {
    Times(match NumericDate(payload, "exp") case Some(x) => Some(x.Floor) case None => None,
          if Lookup(payload.members, "nbf").None? then Always
          else match NumericDate(payload, "nbf") case Some(x) => From(Ceiling(x)) case None => Never)
  }

  lemma {:induction false} MeantIsClaimed(cfg: AuthConfig, payload: Json, now: int)
    requires payload.Obj?
    ensures ClaimCheck(cfg, payload, now) == TimesMeant(payload).Check(cfg.clockSkew, now)
  {
  }

  predicate SameWindow(a: Times, b: Times, skew: int) {
    a == b || (a.Closed(skew) && b.Closed(skew))
  }

  /** What is read has the same expiry as the claims and the same time in which it is good, if any. */
  predicate TimesRight(cfg: AuthConfig, payload: Json)
    requires payload.Obj?
  {
    TimesRead(payload).exp == TimesMeant(payload).exp && SameWindow(TimesRead(payload), TimesMeant(payload), cfg.clockSkew)
  }

  /** A moment at which only one of the two is in time. */
  lemma Apart(a: Times, b: Times, skew: int) returns (now: int)
    requires !SameWindow(a, b, skew)
    ensures a.Check(skew, now) == InTime <==> b.Check(skew, now) != InTime
  {
    if b.Closed(skew) || (!a.Closed(skew) && a.exp.value > b.exp.value) {
      now := a.exp.value + skew;
    } else if a.Closed(skew) || a.exp.value < b.exp.value {
      now := b.exp.value + skew;
    } else if b.nbf.Always? || (a.nbf.From? && a.nbf.at > b.nbf.at) {
      now := a.nbf.at - skew - 1;
    } else {
      now := b.nbf.at - skew - 1;
    }
  }

  lemma SameChecks(a: Times, b: Times, skew: int, now: int)
    requires SameWindow(a, b, skew)
    ensures a.Check(skew, now) == InTime <==> b.Check(skew, now) == InTime
    ensures a.exp == b.exp ==> a.Check(skew, now) == b.Check(skew, now)
  {
  }

  /** A moment at which the checks differ. */
  lemma ChecksApart(a: Times, b: Times, skew: int) returns (now: int)
    requires a.exp != b.exp || !SameWindow(a, b, skew)
    ensures a.Check(skew, now) != b.Check(skew, now)
  {
    if a.exp == b.exp {
      now := Apart(a, b, skew);
    } else if a.exp.None? || b.exp.None? {
      now := 0;
    } else {
      now := (if a.exp.value > b.exp.value then a.exp.value else b.exp.value) + skew;
    }
  }

  /** Whole seconds that fit 64 bits, however they are written. */
  predicate WholeSeconds(v: Json) {
    NumberOf(v).Some? && IntOf(v).Some? && NumberOf(v).value == IntOf(v).value as real
  }

  predicate InWholeSeconds(payload: Json)
    requires payload.Obj?
  {
    Lookup(payload.members, "exp").Some? ==>
      && WholeSeconds(Lookup(payload.members, "exp").value.value)
      && (Lookup(payload.members, "nbf").Some? ==> WholeSeconds(Lookup(payload.members, "nbf").value.value))
  }

  /** Without `exp`, or with whole seconds, the times are read right. */
  lemma WholeSecondsReadRight(cfg: AuthConfig, payload: Json)
    requires payload.Obj? && InWholeSeconds(payload)
    ensures TimesRight(cfg, payload)
  {
  }

  /** Integers of 64 bits are whole seconds, and so are literals without fraction and exponent. */
  lemma WholeNumbers(v: Json)
    requires IntOf(v).Some?
    requires v.Lit? ==> ParseNumber(v.text).Some? && ParseNumber(v.text).value.fraction == ParseNumber(v.text).value.exponent == ""
    ensures WholeSeconds(v)
  {
    hide ParseNumber, Number.Value, Number.Whole;
    if v.Lit? {
      WholeValue(ParseNumber(v.text).value);
    }
  }

  // ------------------------------------------------------------------ reading the parts

  lemma ClaimRead(obj: Json, k: string)
    requires obj.Obj? && WellFormed(obj) && KeyReached(obj, k)
    ensures StringOrEmpty(Render(obj), k) == Done(Claim(obj, k))
  {
    hide ExtractString, StringMember, Render, WellFormed, KeyReached;
    ExtractStringMember(obj, k);
  }

  /** The answer on the header alone. */
  function HeaderVerdict(token: Token): Result<ParsedToken, JwtValidationResult>
    requires token.Decodable()
  {
    var alg, kid := Claim(token.header, "alg"), Claim(token.header, "kid");
    if alg == "" then Err(Refusal(401, "jwt_missing_alg"))
    else if alg !in ALGORITHMS then Err(Refusal(401, "unsupported_jwt_alg"))
    else if kid == "" then Err(Refusal(401, "jwt_missing_kid"))
    else Ok(ParsedToken(DecodedJwt(token.Signed(), Render(token.header), Render(token.payload), token.signature), alg, kid))
  }

  lemma {:induction false} HeaderRead(token: Token)
    requires token.Decodable()
    ensures ParseToken(token.Text()) == Done(HeaderVerdict(token))
  {
    hide DecodeJwt, StringOrEmpty, Claim, Render, WellFormed, KeyReached, IsBytes, SigningInput;
    CompactRoundTrip(Render(token.header), Render(token.payload), token.signature);
    CompactNotEmpty(Render(token.header), Render(token.payload), token.signature);
    ClaimRead(token.header, "alg");
    ClaimRead(token.header, "kid");
  }

  lemma CompactNotEmpty(header: string, payload: string, signature: string)
    requires IsBytes(header) && IsBytes(payload) && IsBytes(signature)
    ensures Compact(header, payload, signature) != ""
  {
  }

  /** The lookups in the text find these times. */
  predicate FindsTimes(payload: Json, times: Times) {
    && ExtractInt64(Render(payload), "exp") == Done(times.exp)
    && ExtractInt64(Render(payload), "nbf") == Done(if times.nbf.From? then Some(times.nbf.at) else None)
    && !times.nbf.Never?
  }

  lemma TimesFound(payload: Json)
    requires payload.Obj? && WellFormed(payload) && TimesReached(payload)
    ensures FindsTimes(payload, TimesRead(payload))
  {
    hide ExtractInt64, IntMember, Render, WellFormed, KeyReached;
    ExtractIntMember(payload, "exp");
    ExtractIntMember(payload, "nbf");
  }

  lemma TimesChecked(cfg: AuthConfig, payload: Json, times: Times, now: int)
    requires payload.Obj? && WellFormed(payload) && KeyReached(payload, "iss") && FindsTimes(payload, times)
    ensures TimeFailure(cfg, Render(payload), now)
         == Done(if Claim(payload, "iss") == "" then Some(Refusal(401, "jwt_missing_issuer"))
                 else if Claim(payload, "iss") != cfg.expectedIssuer then Some(Refusal(401, "jwt_issuer_mismatch"))
                 else match times.Check(cfg.clockSkew, now)
                   case NoExpiry => Some(Refusal(401, "jwt_missing_exp"))
                   case Expired => Some(Refusal(401, "jwt_expired"))
                   case TooEarly => Some(Refusal(401, "jwt_not_yet_valid"))
                   case InTime => None)
  {
    hide ExtractString, ExtractInt64, StringMember, Render, WellFormed, KeyReached;
    ExtractStringMember(payload, "iss");
  }

  lemma {:induction false} PartiesRead(cfg: AuthConfig, payload: Json)
    requires payload.Obj? && WellFormed(payload) && PartiesReached(payload)
    ensures PartyFailure(cfg, Render(payload))
         == Done(if !AudienceGood(cfg, payload) then Some(Refusal(403, "jwt_audience_mismatch"))
                 else if !PartyGood(cfg, payload) then Some(Refusal(403, "jwt_azp_mismatch"))
                 else None)
  {
    hide ExtractAudience, AudienceOf, ExtractString, StringMember, Render, WellFormed, KeyReached;
    AudienceRead(payload);
    ExtractStringMember(payload, "azp");
  }

  lemma IdentityRead(payload: Json)
    requires payload.Obj? && WellFormed(payload) && PartiesReached(payload) && IdentityReached(payload)
    ensures ReadIdentity(Render(payload)) == Done(IdentityOf(payload))
  {
    hide ExtractString, StringMember, Render, WellFormed, KeyReached, RealmOf;
    ExtractStringMember(payload, "sub");
    ExtractStringMember(payload, "preferred_username");
    ExtractStringMember(payload, "iss");
    ExtractStringMember(payload, "azp");
    ExtractStringMember(payload, "client_id");
  }

  lemma {:induction false} ContextRead(payload: Json)
    requires payload.Obj? && WellFormed(payload) && ClaimsReached(payload)
    ensures ReadContext(Render(payload)) == Done(ContextOf(payload))
  {
    hide ReadIdentity, IdentityOf, ExtractRoles, RolesOf, StringOrEmpty, Claim, Render, WellFormed, KeyReached,
         PartiesReached, RolesReached, Scopes.SplitWs;
    IdentityRead(payload);
    RolesRead(payload);
    ClaimRead(payload, "scope");
  }

  /** The checks behind the keys, on the times that are found. */
  lemma {:induction false} CheckedRead(cfg: AuthConfig, token: Token, keys: seq<Jwk>, times: Times, now: int, verify: RsaVerify)
    requires token.Decodable() && ClaimsReached(token.payload) && FindsTimes(token.payload, times)
    requires ConfigFailure(cfg).None? && HeaderVerdict(token).Ok? && keys != []
    ensures Checked(cfg, keys, HeaderVerdict(token).value, now, verify)
         == Done(Answer(cfg, token, keys, times.Check(cfg.clockSkew, now), verify))
  {
    hide TimeFailure, PartyFailure, ReadContext, ContextOf, StringMember, AudienceOf, Render, WellFormed, IsBytes, KeyReached,
         IdentityReached, RolesReached, HeaderReached, VerifySignature, SignedBy, FindKey, SigningInput, FindsTimes, Times.Check;
    var key, alg := FindKey(keys, Claim(token.header, "kid")), Claim(token.header, "alg");
    if key.Some? {
      SignatureMeans(verify, key.value, alg, token.Signed(), token.signature);
    }
    TimesChecked(cfg, token.payload, times, now);
    PartiesRead(cfg, token.payload);
    ContextRead(token.payload);
  }

  /** The realm that the caller learns is that of the issuer, when that is the root of a realm, with any slashes behind. */
  lemma RealmIsIssuers(payload: Json, baseUrl: string, realm: string, slashes: string)
    requires payload.Obj? && IsBytes(realm) && realm != "" && forall i :: 0 <= i < |slashes| ==> slashes[i] == '/'
    requires StringMember(payload, "iss") == Some(OidcUrls.RealmRoot(baseUrl, realm) + slashes)
    ensures ContextOf(payload).realm == UrlEncode.Encode(realm)
    ensures UrlEncode.Decode(ContextOf(payload).realm) == realm
  {
    hide UrlEncode.Encode, UrlEncode.Decode, OidcUrls.LastSegment, RolesOf, Scopes.SplitWs, StringMember;
    UrlEncode.EncodeSafe(realm);
    UrlEncode.RoundTrip(realm);
    var front := OidcUrls.TrimSlashes(baseUrl) + "/realms";
    assert OidcUrls.RealmRoot(baseUrl, realm) == front + "/" + UrlEncode.Encode(realm);
    OidcUrls.LastSegmentExactly(front, UrlEncode.Encode(realm), slashes);
  }

  /** The refusals in front of the header: an incomplete configuration, no token, and no compact serialization. */
  lemma RefusedAtOnce(cfg: AuthConfig, cached: seq<Jwk>, reply: Reply, text: string, now: int, verify: RsaVerify)
    ensures cfg.expectedIssuer == "" ==>
      Verdict(cfg, cached, reply, text, now, verify) == Done(Refusal(500, "auth_config_missing_expected_issuer"))
    ensures cfg.expectedIssuer != "" && cfg.jwksUrl == "" ==>
      Verdict(cfg, cached, reply, text, now, verify) == Done(Refusal(500, "auth_config_missing_jwks_url"))
    ensures cfg.expectedIssuer != "" && cfg.jwksUrl != "" && cfg.requireAudience && cfg.expectedAudience == "" ==>
      Verdict(cfg, cached, reply, text, now, verify) == Done(Refusal(500, "auth_config_missing_expected_audience"))
    ensures Complete(cfg) && text == "" ==>
      Verdict(cfg, cached, reply, text, now, verify) == Done(Refusal(401, "missing_access_token"))
    ensures Complete(cfg) && text != "" && DecodeJwt(text).None? ==>
      Verdict(cfg, cached, reply, text, now, verify) == Done(Refusal(401, "invalid_jwt_format"))
  {
    hide DecodeJwt, Checked, Fetched, ExtractString;
  }

  predicate Complete(cfg: AuthConfig) {
    cfg.expectedIssuer != "" && cfg.jwksUrl != "" && (cfg.requireAudience ==> cfg.expectedAudience != "")
  }

  /** When the key server does not answer with success, a token whose header is good is refused for that. */
  lemma ServerRefused(cfg: AuthConfig, token: Token, reply: Reply, now: int, verify: RsaVerify)
    requires Complete(cfg) && token.Decodable() && HeaderVerdict(token).Ok? && !(200 <= reply.status < 300)
    ensures Verdict(cfg, [], reply, token.Text(), now, verify) == Done(Refusal(502, "jwks_fetch_failed"))
  {
    hide ParseToken, Checked, ExtractJwks, Render, IsBytes, WellFormed, HeaderReached;
    HeaderRead(token);
  }

  // ------------------------------------------------------------------------- theorems

  /** A key server that answers with this key set. */
  predicate Serves(reply: Reply, jwks: Json) {
    200 <= reply.status < 300 && reply.body == Render(jwks)
  }

  ghost predicate KeySetReadable(jwks: Json) {
    jwks.Obj? && WellFormed(jwks) && KeySetReached(jwks)
  }

  lemma KeysFetched(reply: Reply, jwks: Json)
    requires KeySetReadable(jwks) && Serves(reply, jwks)
    ensures Fetched(reply) == Done(if KeysOf(jwks) == [] then JwksFetchResult(false, 502, "jwks_parse_failed", [])
                                   else JwksFetchResult(true, 200, "", KeysOf(jwks)))
  {
    hide ExtractJwks, KeysOf, Render, WellFormed, KeySetReached;
    KeySetRead(jwks);
  }

  /** A complete configuration, and the keys of the served key set in the cache or fetched. */
  ghost predicate Served(cfg: AuthConfig, jwks: Json, cached: seq<Jwk>, reply: Reply) {
    ConfigFailure(cfg).None? && KeySetReadable(jwks) && Serves(reply, jwks) && (cached == [] || cached == KeysOf(jwks))
  }

  /** And a readable token. */
  ghost predicate Setting(cfg: AuthConfig, token: Token, jwks: Json, cached: seq<Jwk>, reply: Reply) {
    token.Readable() && Served(cfg, jwks, cached, reply)
  }

  /** End-to-end correctness on the times that are found: the answer on the token's text is the
      reference validator's for those times. */
  lemma {:induction false} AnswersFor(cfg: AuthConfig, token: Token, jwks: Json, cached: seq<Jwk>, reply: Reply, times: Times, now: int,
                                      verify: RsaVerify)
    requires token.Decodable() && ClaimsReached(token.payload) && FindsTimes(token.payload, times)
    requires Served(cfg, jwks, cached, reply)
    ensures Verdict(cfg, cached, reply, token.Text(), now, verify)
         == Done(Answer(cfg, token, KeysOf(jwks), times.Check(cfg.clockSkew, now), verify))
  {
    hide ConfigFailure, ParseToken, Checked, Fetched, KeysOf, PayloadAnswer, Render, WellFormed, IsBytes, KeySetReached,
         ClaimsReached, HeaderReached, Compact, SigningInput, FindsTimes, Times.Check;
    HeaderRead(token);
    KeysFetched(reply, jwks);
    if HeaderVerdict(token).Ok? && KeysOf(jwks) != [] {
      CheckedRead(cfg, token, KeysOf(jwks), times, now, verify);
    }
  }

  lemma {:induction false} ValidatorAnswers(cfg: AuthConfig, token: Token, jwks: Json, cached: seq<Jwk>, reply: Reply, now: int, verify: RsaVerify)
    requires Setting(cfg, token, jwks, cached, reply)
    ensures Verdict(cfg, cached, reply, token.Text(), now, verify)
         == Done(Answer(cfg, token, KeysOf(jwks), TimesRead(token.payload).Check(cfg.clockSkew, now), verify))
  {
    hide Verdict, Answer, KeysOf, Served, Render, IsBytes, ClaimsReached, TimesReached, HeaderReached, WellFormed, FindsTimes,
         TimesRead, Times.Check, Token.Text;
    TimesFound(token.payload);
    AnswersFor(cfg, token, jwks, cached, reply, TimesRead(token.payload), now, verify);
  }

  /** The checks get as far as the times. */
  ghost predicate TimesMatter(cfg: AuthConfig, token: Token, keys: seq<Jwk>, verify: RsaVerify)
    requires token.header.Obj? && IsBytes(Render(token.header))
    requires token.payload.Obj? && IsBytes(Render(token.payload))
  {
    && Claim(token.header, "kid") != "" && SignatureGood(token, keys, verify) && StringMember(token.payload, "iss") == Some(cfg.expectedIssuer)
  }

  /** The answer tells what the times are like, if the checks get that far. */
  lemma AnswerTells(cfg: AuthConfig, token: Token, keys: seq<Jwk>, a: TimeCheck, b: TimeCheck, verify: RsaVerify)
    requires token.header.Obj? && IsBytes(Render(token.header)) && cfg.expectedIssuer != ""
    requires token.payload.Obj? && IsBytes(Render(token.payload))
    ensures Answer(cfg, token, keys, a, verify) == Answer(cfg, token, keys, b, verify)
       <==> (TimesMatter(cfg, token, keys, verify) ==> a == b)
  {
    hide StringMember, AudienceGood, PartyGood, ContextOf, Render, IsBytes, SignedBy;
    TimeErrorsDiffer();
  }

  lemma TimeErrorsDiffer()
    ensures "jwt_missing_exp" != "jwt_expired" && "jwt_missing_exp" != "jwt_not_yet_valid" && "jwt_expired" != "jwt_not_yet_valid"
  {
  }

  /** At every time the answer on the text is the reference validator's. */
  ghost predicate AnswersAgree(cfg: AuthConfig, token: Token, jwks: Json, cached: seq<Jwk>, reply: Reply, verify: RsaVerify)
    requires Setting(cfg, token, jwks, cached, reply)
  {
    forall now: int :: Verdict(cfg, cached, reply, token.Text(), now, verify)
                    == Done(Reference(cfg, token, KeysOf(jwks), now, verify))
  }

  /** The answer, error code included, is always the reference validator's if and only if the times
      are read right or do not matter. */
  lemma {:induction false} ValidatorIsReference(cfg: AuthConfig, token: Token, jwks: Json, cached: seq<Jwk>, reply: Reply, verify: RsaVerify)
    requires Setting(cfg, token, jwks, cached, reply)
    ensures AnswersAgree(cfg, token, jwks, cached, reply, verify)
       <==> (TimesMatter(cfg, token, KeysOf(jwks), verify) ==> TimesRight(cfg, token.payload))
  {
    hide ConfigFailure, Verdict, KeysOf, Answer, TimesMatter, Render, IsBytes, TimesRead, TimesMeant, Times.Check, SameWindow,
         WellFormed, KeySetReached, Serves, Token.Text, HeaderReached, ClaimsReached, TimesReached;
    var read, meant := TimesRead(token.payload), TimesMeant(token.payload);
    forall now: int
      ensures Verdict(cfg, cached, reply, token.Text(), now, verify) == Done(Reference(cfg, token, KeysOf(jwks), now, verify))
         <==> (TimesMatter(cfg, token, KeysOf(jwks), verify) ==> read.Check(cfg.clockSkew, now) == meant.Check(cfg.clockSkew, now))
    {
      AnswerAgrees(cfg, token, jwks, cached, reply, now, verify);
    }
    if TimesRight(cfg, token.payload) {
      forall now: int ensures read.Check(cfg.clockSkew, now) == meant.Check(cfg.clockSkew, now) {
        SameChecks(read, meant, cfg.clockSkew, now);
      }
    } else {
      var now := ChecksApart(read, meant, cfg.clockSkew);
    }
  }

  lemma AnswerAgrees(cfg: AuthConfig, token: Token, jwks: Json, cached: seq<Jwk>, reply: Reply, now: int, verify: RsaVerify)
    requires Setting(cfg, token, jwks, cached, reply)
    ensures Verdict(cfg, cached, reply, token.Text(), now, verify) == Done(Reference(cfg, token, KeysOf(jwks), now, verify))
       <==> (TimesMatter(cfg, token, KeysOf(jwks), verify) ==>
               TimesRead(token.payload).Check(cfg.clockSkew, now) == TimesMeant(token.payload).Check(cfg.clockSkew, now))
  {
    hide Verdict, KeysOf, Answer, TimesMatter, Render, IsBytes, TimesRead, TimesMeant, Times.Check, ClaimCheck, WellFormed,
         KeySetReached, Serves, Token.Text;
    ValidatorAnswers(cfg, token, jwks, cached, reply, now, verify);
    MeantIsClaimed(cfg, token.payload, now);
    AnswerTells(cfg, token, KeysOf(jwks), TimesRead(token.payload).Check(cfg.clockSkew, now),
                ClaimCheck(cfg, token.payload, now), verify);
  }

  /** At every time the token's text is accepted if and only if its claims are. */
  ghost predicate AcceptanceAgrees(cfg: AuthConfig, token: Token, jwks: Json, cached: seq<Jwk>, reply: Reply, verify: RsaVerify)
    requires Setting(cfg, token, jwks, cached, reply)
  {
    forall now: int :: TextAccepted(cfg, token, cached, reply, now, verify) == Accepted(cfg, token, KeysOf(jwks), now, verify)
  }

  predicate TextAccepted(cfg: AuthConfig, token: Token, cached: seq<Jwk>, reply: Reply, now: int, verify: RsaVerify)
    requires IsBytes(Render(token.header)) && IsBytes(Render(token.payload)) && IsBytes(token.signature)
  {
    var r := Verdict(cfg, cached, reply, token.Text(), now, verify);
    r.Done? && r.value.ok
  }

  /** The text is accepted when the token is genuine and in time as read; then the caller learns
      exactly what the claims say. */
  lemma {:induction false} AcceptedAsRead(cfg: AuthConfig, token: Token, jwks: Json, cached: seq<Jwk>, reply: Reply, now: int, verify: RsaVerify)
    requires Setting(cfg, token, jwks, cached, reply)
    ensures TextAccepted(cfg, token, cached, reply, now, verify)
       <==> Genuine(cfg, token, KeysOf(jwks), verify) && TimesRead(token.payload).Check(cfg.clockSkew, now) == InTime
    ensures TextAccepted(cfg, token, cached, reply, now, verify) ==>
              Verdict(cfg, cached, reply, token.Text(), now, verify).value.context == ContextOf(token.payload)
    ensures Accepted(cfg, token, KeysOf(jwks), now, verify)
       <==> Genuine(cfg, token, KeysOf(jwks), verify) && TimesMeant(token.payload).Check(cfg.clockSkew, now) == InTime
  {
    hide Verdict, KeysOf, Answer, Genuine, Render, IsBytes, TimesRead, TimesMeant, Times.Check, ContextOf, NumericDate, WellFormed,
         KeySetReached, Serves, Token.Text;
    ValidatorAnswers(cfg, token, jwks, cached, reply, now, verify);
    AnswerAccepts(cfg, token, KeysOf(jwks), TimesRead(token.payload).Check(cfg.clockSkew, now), verify);
    MeantIsClaimed(cfg, token.payload, now);
  }

  /** The flagship: the token's text is accepted at exactly the times at which its claims are good, if
      and only if the token is not genuine, or the time in which it is good is read right. */
  lemma {:induction false} AcceptedExactly(cfg: AuthConfig, token: Token, jwks: Json, cached: seq<Jwk>, reply: Reply, verify: RsaVerify)
    requires Setting(cfg, token, jwks, cached, reply)
    ensures AcceptanceAgrees(cfg, token, jwks, cached, reply, verify)
       <==> (Genuine(cfg, token, KeysOf(jwks), verify) ==>
               SameWindow(TimesRead(token.payload), TimesMeant(token.payload), cfg.clockSkew))
    ensures forall now: int :: TextAccepted(cfg, token, cached, reply, now, verify) ==>
              Verdict(cfg, cached, reply, token.Text(), now, verify).value.context == ContextOf(token.payload)
  {
    hide Accepted, Verdict, KeysOf, Genuine, Render, IsBytes, TimesRead, TimesMeant, Times.Check, SameWindow, ContextOf, WellFormed,
         ConfigFailure, KeySetReached, Serves, Token.Text, HeaderReached, ClaimsReached, TimesReached;
    var read, meant := TimesRead(token.payload), TimesMeant(token.payload);
    forall now: int
      ensures TextAccepted(cfg, token, cached, reply, now, verify)
         <==> Genuine(cfg, token, KeysOf(jwks), verify) && read.Check(cfg.clockSkew, now) == InTime
      ensures Accepted(cfg, token, KeysOf(jwks), now, verify)
         <==> Genuine(cfg, token, KeysOf(jwks), verify) && meant.Check(cfg.clockSkew, now) == InTime
      ensures TextAccepted(cfg, token, cached, reply, now, verify) ==>
                Verdict(cfg, cached, reply, token.Text(), now, verify).value.context == ContextOf(token.payload)
    {
      AcceptedAsRead(cfg, token, jwks, cached, reply, now, verify);
    }
    if SameWindow(read, meant, cfg.clockSkew) {
      forall now: int ensures read.Check(cfg.clockSkew, now) == InTime <==> meant.Check(cfg.clockSkew, now) == InTime {
        SameChecks(read, meant, cfg.clockSkew, now);
      }
    } else {
      var now := Apart(read, meant, cfg.clockSkew);
      assert Genuine(cfg, token, KeysOf(jwks), verify) ==>
        TextAccepted(cfg, token, cached, reply, now, verify) != Accepted(cfg, token, KeysOf(jwks), now, verify);
    }
  }

  /** For every text whatever, a cached key set and a fetched one give the same answer. */
  lemma {:induction false} CacheIsTransparent(cfg: AuthConfig, text: string, jwks: Json, reply: Reply, other: Reply, now: int, verify: RsaVerify)
    requires KeySetReadable(jwks) && Serves(reply, jwks)
    ensures Verdict(cfg, KeysOf(jwks), reply, text, now, verify) == Verdict(cfg, [], reply, text, now, verify)
    ensures KeysOf(jwks) != [] ==>
              Verdict(cfg, KeysOf(jwks), other, text, now, verify) == Verdict(cfg, [], reply, text, now, verify)
  {
    hide ConfigFailure, ParseToken, Checked, Fetched, KeysOf, Render, WellFormed, KeySetReached;
    KeysFetched(reply, jwks);
  }
}
