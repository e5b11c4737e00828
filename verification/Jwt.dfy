/** Tokens, key sets and the claims that are lists (`jwt_utils.hpp`). */
module Jwt {
  import opened Wrappers
  import opened Text
  import opened JsonScan
  import opened JsonExtract
  import Base64Url

  // --------------------------------------------------------- compact serialization

  datatype DecodedJwt = DecodedJwt(signingInput: string, headerJson: string, payloadJson: string, signature: string)

  function DecodeJwt(token: string): Option<DecodedJwt> {
    match FindChar(token, '.')
    case None => None
    case Some(first) =>
      match FindChar(token[first + 1..], '.')
      case None => None
      case Some(length) =>
        var second := first + 1 + length;
        var header, payload, signature :=
          Base64Url.Decode(token[..first]), Base64Url.Decode(token[first + 1..second]), Base64Url.Decode(token[second + 1..]);
        if header.None? || payload.None? || signature.None? then None
        else Some(DecodedJwt(token[..second], header.value, payload.value, signature.value))
  }

  method DecodeCompact(token: string) returns (r: Option<DecodedJwt>)
    ensures r == DecodeJwt(token)
  {
    hide FindChar, Base64Url.Decode;
    var first := FindChar(token, '.');
    if first.None? {
      return None;
    }
    var length := FindChar(token[first.value + 1..], '.');
    if length.None? {
      return None;
    }
    var second := first.value + 1 + length.value;
    var header := Base64Url.Base64UrlDecode(token[..first.value]);
    var payload := Base64Url.Base64UrlDecode(token[first.value + 1..second]);
    var signature := Base64Url.Base64UrlDecode(token[second + 1..]);
    if header.None? || payload.None? || signature.None? {
      return None;
    }
    return Some(DecodedJwt(token[..second], header.value, payload.value, signature.value));
  }

  /** The compact serialization (section 7.1 of RFC 7515). */
  function SigningInput(header: string, payload: string): string
    requires IsBytes(header) && IsBytes(payload)
  {
    Base64Url.Encode(header) + "." + Base64Url.Encode(payload)
  }

  function Compact(header: string, payload: string, signature: string): string
    requires IsBytes(header) && IsBytes(payload) && IsBytes(signature)
  {
    SigningInput(header, payload) + "." + Base64Url.Encode(signature)
  }

  /** Decoding a compact token gives back its three parts and the text that was signed. */
  lemma CompactRoundTrip(header: string, payload: string, signature: string)
    requires IsBytes(header) && IsBytes(payload) && IsBytes(signature)
    ensures DecodeJwt(Compact(header, payload, signature))
         == Some(DecodedJwt(SigningInput(header, payload), header, payload, signature))
  {
    hide FindChar, Base64Url.Encode, Base64Url.Decode, Base64Url.AllDigits, IsBytes;
    var h, p, s := Base64Url.Encode(header), Base64Url.Encode(payload), Base64Url.Encode(signature);
    Base64Url.EncodeAlphabet(header);
    Base64Url.EncodeAlphabet(payload);
    Base64Url.RoundTrip(header);
    Base64Url.RoundTrip(payload);
    Base64Url.RoundTrip(signature);
    var token := Compact(header, payload, signature);
    assert token == h + ['.'] + (p + ['.'] + s);
    FindCharAt(h, '.', p + ['.'] + s);
    var rest := token[|h| + 1..];
    assert rest == p + ['.'] + s;
    FindCharAt(p, '.', s);
    var second := |h| + 1 + |p|;
    assert token[..|h|] == h && token[|h| + 1..second] == p && token[second + 1..] == s;
    assert token[..second] == SigningInput(header, payload);
  }

  /** Any text with two dots: its first two parts and all that follows are decoded, padding and all, and what is
      signed is the text in front of the second dot. */
  lemma DecodeForms(h: string, p: string, s: string)
    requires '.' !in h && '.' !in p
    ensures var header, payload, signature := Base64Url.Decode(h), Base64Url.Decode(p), Base64Url.Decode(s);
      DecodeJwt(h + "." + p + "." + s)
        == if header.None? || payload.None? || signature.None? then None
           else Some(DecodedJwt(h + "." + p, header.value, payload.value, signature.value))
  {
    hide FindChar, Base64Url.Decode;
    var token := h + "." + p + "." + s;
    assert token == h + ['.'] + (p + ['.'] + s);
    FindCharAt(h, '.', p + ['.'] + s);
    var rest := token[|h| + 1..];
    assert rest == p + ['.'] + s;
    FindCharAt(p, '.', s);
    var second := |h| + 1 + |p|;
    assert token[..|h|] == h && token[|h| + 1..second] == p && token[second + 1..] == s && token[..second] == h + "." + p;
  }

  /** And a text with fewer dots is no token. */
  lemma TooFewDots(h: string, p: string)
    requires '.' !in h && '.' !in p
    ensures DecodeJwt(h) == None && DecodeJwt(h + "." + p) == None
  {
    hide FindChar, Base64Url.Decode;
    NoDot(h);
    NoDot(p);
    assert h + "." + p == h + ['.'] + p;
    FindCharAt(h, '.', p);
    assert (h + "." + p)[|h| + 1..] == p;
  }

  lemma NoDot(s: string)
    requires '.' !in s
    ensures FindChar(s, '.') == None
  {
  }

  // --------------------------------------------------------------------- key sets

  datatype Jwk = Jwk(kid: string, kty: string, alg: string, n: string, e: string)

  function StringOrEmpty(json: string, key: string): Scan<string> {
    var r :- ExtractString(json, key);
    Done(r.GetOr(""))
  }

  function ParseJwk(element: string): Scan<Jwk> {
    var kid :- StringOrEmpty(element, "kid");
    var kty :- StringOrEmpty(element, "kty");
    var alg :- StringOrEmpty(element, "alg");
    var n :- StringOrEmpty(element, "n");
    var e :- StringOrEmpty(element, "e");
    Done(Jwk(kid, kty, alg, n, e))
  }

  /** The objects among the elements that name a key type. */
  function ParseJwks(elements: seq<string>): Scan<seq<Jwk>> {
    if elements == [] then Done([])
    else if elements[0] == "" || elements[0][0] != '{' then ParseJwks(elements[1..])
    else
      var jwk :- ParseJwk(elements[0]);
      var more :- ParseJwks(elements[1..]);
      Done(if jwk.kty == "" then more else [jwk] + more)
  }

  function ExtractJwks(json: string): Scan<seq<Jwk>> {
    var arr :- ExtractOpening(json, "keys", '[');
    if arr.None? then Done([]) else
    var elements :- SplitElements(arr.value);
    ParseJwks(elements)
  }

  method ReadJwk(element: string) returns (jwk: Jwk)
    requires ParseJwk(element).Done?
    ensures jwk == ParseJwk(element).value
  {
    hide ExtractString;
    var kid := ExtractJsonString(element, "kid");
    var kty := ExtractJsonString(element, "kty");
    var alg := ExtractJsonString(element, "alg");
    var n := ExtractJsonString(element, "n");
    var e := ExtractJsonString(element, "e");
    jwk := Jwk(kid.GetOr(""), kty.GetOr(""), alg.GetOr(""), n.GetOr(""), e.GetOr(""));
  }

  method ReadJwks(json: string) returns (keys: seq<Jwk>)
    requires ExtractJwks(json).Done?
    ensures keys == ExtractJwks(json).value
  {
    hide ExtractValue, SplitElements, ParseJwk;
    keys := [];
    var raw := ExtractJsonValue(json, "keys");
    if raw.None? || raw.value == "" || raw.value[0] != '[' {
      return;
    }
    var elements := SplitJsonArrayElements(raw.value);
    for i := 0 to |elements|
      invariant ParseJwks(elements[i..]).Done?
      invariant keys + ParseJwks(elements[i..]).value == ExtractJwks(json).value
    {
      assert elements[i..][0] == elements[i] && elements[i..][1..] == elements[i + 1..];
      if elements[i] == "" || elements[i][0] != '{' {
        continue;
      }
      var jwk := ReadJwk(elements[i]);
      if jwk.kty != "" {
        keys := keys + [jwk];
      }
    }
    assert elements[|elements|..] == [];
  }

  // ------------------------------------------------------------ audience and roles

  function ExtractAudience(payload: string): Scan<seq<string>> {
    var values :- ExtractStringArray(payload, "aud");
    if values != [] then Done(values) else
    var aud :- ExtractString(payload, "aud");
    Done(if aud.None? then [] else [aud.value])
  }

  method ReadAudience(payload: string) returns (values: seq<string>)
    requires ExtractAudience(payload).Done?
    ensures values == ExtractAudience(payload).value
  {
    hide ExtractStringArray, ExtractString;
    values := ExtractJsonStringArray(payload, "aud");
    if values == [] {
      var aud := ExtractJsonString(payload, "aud");
      if aud.Some? {
        values := values + [aud.value];
      }
    }
  }

  /** `append_unique(roles, extract_json_string_array(value, "roles"))`. */
  function WithRoles(roles: seq<string>, value: string): Scan<seq<string>> {
    var more :- ExtractStringArray(value, "roles");
    Done(AppendUnique(roles, more))
  }

  /** What one member of `resource_access` leaves: the value's slice and the text behind it. */
  datatype MemberScan = NoMember | FoundMember(value: string, next: string)

  /** The text at a member's value, behind its key and colon; `None` when there is no key. */
  function ScanKey(s: string): (r: Option<string>)
    ensures r.Some? ==> |r.value| < |s|
  {
    if |s| <= 1 then None else
    var t := AfterWs(s);
    if |t| <= 1 || t[0] == '}' || |AfterString(t)| >= |t| then None
    else Some(AfterWs(AfterKey(t)))
  }

  /** The value's slice, and the text behind the value and its comma. */
  function ScanSlice(v: string): (r: Scan<MemberScan>)
    ensures r.Done? && r.value.FoundMember? ==> r.value.value != "" && |r.value.next| <= |v|
  {
    var rest :- AfterValue(v);
    if |rest| >= |v| then Done(NoMember) else
    var w := AfterWs(rest);
    Done(FoundMember(v[..|v| - |rest|], if w != "" && w[0] == ',' then w[1..] else w))
  }

  function ScanMember(s: string): (r: Scan<MemberScan>)
    ensures r.Done? && r.value.FoundMember? ==> r.value.value != "" && |r.value.next| < |s|
  {
    match ScanKey(s)
    case None => Done(NoMember)
    case Some(v) => ScanSlice(v)
  }

  function ClientRoles(s: string, roles: seq<string>): Scan<seq<string>>
    decreases |s|
  {
    var m :- ScanMember(s);
    if m.NoMember? then Done(roles)
    else if m.value[0] != '{' then ClientRoles(m.next, roles)
    else
      var more :- WithRoles(roles, m.value);
      ClientRoles(m.next, more)
  }

  function ExtractRoles(payload: string): Scan<seq<string>> {
    var realm :- ExtractOpening(payload, "realm_access", '{');
    var roles :- (if realm.None? then Done([]) else WithRoles([], realm.value));
    var resource :- ExtractOpening(payload, "resource_access", '{');
    if resource.None? then Done(roles) else ClientRoles(resource.value[1..], roles)
  }

  /** The body of the loop over `resource_access`: up to the member's value. */
  method ReadKey(text: string, start: nat) returns (found: bool, pos: nat)
    requires start <= |text|
    ensures found == ScanKey(text[start..]).Some?
    ensures found ==> pos <= |text| && text[pos..] == ScanKey(text[start..]).value
  {
    hide AfterWs, AfterString;
    found, pos := false, start;
    if start + 1 >= |text| {
      return;
    }
    pos := SkipWs(text, start);
    if pos >= |text| - 1 || text[pos] == '}' {
      return;
    }
    var keyEnd := SkipJsonString(text, pos);
    if keyEnd <= pos {
      return;
    }
    pos := SkipWs(text, keyEnd);
    if pos < |text| && text[pos] == ':' {
      pos := pos + 1;
    }
    pos := SkipWs(text, pos);
    found := true;
  }

  /** The rest of the body: the value and its comma. */
  method ReadSlice(text: string, pos: nat) returns (found: bool, value: string, end: nat)
    requires pos <= |text| && ScanSlice(text[pos..]).Done?
    ensures found == ScanSlice(text[pos..]).value.FoundMember?
    ensures found ==> value == ScanSlice(text[pos..]).value.value
    ensures found ==> end <= |text| && text[end..] == ScanSlice(text[pos..]).value.next
  {
    hide AfterValue, AfterWs;
    found, value, end := false, "", pos;
    var valueEnd := SkipJsonValue(text, pos);
    if valueEnd <= pos {
      return;
    }
    assert text[pos..valueEnd] == text[pos..][..valueEnd - pos];
    found, value := true, text[pos..valueEnd];
    end := SkipWs(text, valueEnd);
    if end < |text| && text[end] == ',' {
      end := end + 1;
    }
  }

  method ReadMember(text: string, start: nat) returns (found: bool, value: string, end: nat)
    requires start <= |text| && ScanMember(text[start..]).Done?
    ensures found == ScanMember(text[start..]).value.FoundMember?
    ensures found ==> value == ScanMember(text[start..]).value.value
    ensures found ==> end <= |text| && text[end..] == ScanMember(text[start..]).value.next
  {
    hide ScanKey, ScanSlice;
    value, end := "", start;
    var key, pos := ReadKey(text, start);
    if !key {
      return false, "", start;
    }
    found, value, end := ReadSlice(text, pos);
  }

  method ReadRoles(payload: string) returns (roles: seq<string>)
    requires ExtractRoles(payload).Done?
    ensures roles == ExtractRoles(payload).value
  {
    hide ExtractValue, ExtractStringArray, AppendUnique, ScanMember;
    roles := [];
    var realm := ExtractJsonValue(payload, "realm_access");
    if realm.Some? && realm.value != "" && realm.value[0] == '{' {
      var more := ExtractJsonStringArray(realm.value, "roles");
      roles := AppendUniqueInto(roles, more);
    }
    var resource := ExtractJsonValue(payload, "resource_access");
    if resource.None? || resource.value == "" || resource.value[0] != '{' {
      return;
    }
    roles := ReadClientRoles(resource.value, roles);
  }

  method ReadClientRoles(resource: string, before: seq<string>) returns (roles: seq<string>)
    requires resource != "" && ClientRoles(resource[1..], before).Done?
    ensures roles == ClientRoles(resource[1..], before).value
  {
    hide ExtractStringArray, AppendUnique, ScanMember;
    roles := before;
    var pos := 1;
    var more := true;
    while more
      invariant pos <= |resource|
      invariant more ==> ClientRoles(resource[pos..], roles) == ClientRoles(resource[1..], before)
      invariant !more ==> Done(roles) == ClientRoles(resource[1..], before)
      decreases more, |resource| - pos
    {
      var found, value, end := ReadMember(resource, pos);
      if !found {
        more := false;
      } else {
        ScanShrinks(resource[pos..]);
        if value != "" && value[0] == '{' {
          var list := ExtractJsonStringArray(value, "roles");
          roles := AppendUniqueInto(roles, list);
        }
        pos := end;
      }
    }
  }

  lemma ScanShrinks(s: string)
    ensures ScanMember(s).Done? && ScanMember(s).value.FoundMember? ==>
              ScanMember(s).value.value != "" && |ScanMember(s).value.next| < |s|
  {
  }

  // --------------------------------------------------------------------- signature

  /** RSA verification of a signature, for a modulus, an exponent and a digest: any function. */
  type RsaVerify = (string, string, string, string, string) -> bool

  /** `evp_digest_for_alg`. */
  predicate SupportedAlg(alg: string) {
    alg == "RS256" || alg == "RS384" || alg == "RS512"
  }

  /** `verify_rsa_signature`: the digest, the key and the signature have to be good. */
  predicate VerifySignature(verify: RsaVerify, jwk: Jwk, alg: string, signingInput: string, signature: string) {
    && SupportedAlg(alg)
    && jwk.kty == "RSA" && jwk.n != "" && jwk.e != ""
    && var n, e := Base64Url.Decode(jwk.n), Base64Url.Decode(jwk.e);
      n.Some? && e.Some? && verify(n.value, e.value, alg, signingInput, signature)
  }
}
