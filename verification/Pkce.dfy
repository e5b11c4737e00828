/** PKCE pairs (sections 4.1 and 4.2 of RFC 7636), from `pkce.cpp`. SHA-256 is any
    function with 32 bytes of output. */
module Pkce {
  import opened Wrappers
  import opened Text
  import Base64Url
  import UrlEncode

  const CHARSET := UPPER + LOWER + DIGITS + "-._~"

  predicate AllUnreserved(s: string) {
    forall i :: 0 <= i < |s| ==> UrlEncode.Unreserved(s[i])
  }

  /** The character at each place: letters, digits and four marks. */
  function CharsetChar(n: nat): char
    requires n < 66
  {
    if n < 26 then (65 + n) as char
    else if n < 52 then (97 + n - 26) as char
    else if n < 62 then (48 + n - 52) as char
    else if n == 62 then '-' else if n == 63 then '.' else if n == 64 then '_' else '~'
  }

  lemma CharsetAt(n: nat)
    requires n < 66
    ensures |CHARSET| == 66 && CHARSET[n] == CharsetChar(n)
  {
    LettersInOrder();
    DigitsInOrder();
  }

  lemma CharsetUnreserved()
    ensures |CHARSET| == 66 && AllUnreserved(CHARSET)
  {
    forall i | 0 <= i < 66 ensures |CHARSET| == 66 && UrlEncode.Unreserved(CHARSET[i]) {
      CharsetAt(i);
    }
    CharsetAt(0);
  }

  ghost predicate IsSha256(sha256: string -> string) {
    forall s :: |sha256(s)| == 32 && IsBytes(sha256(s))
  }

  function VerifierText(bytes: string): (r: string)
    ensures |r| == |bytes|
  {
    if bytes == "" then "" else [CHARSET[bytes[0] as int % |CHARSET|]] + VerifierText(bytes[1..])
  }

  method GenerateRandomString(bytes: string) returns (result: string)
    ensures result == VerifierText(bytes)
  {
    result := "";
    for i := 0 to |bytes|
      invariant result + VerifierText(bytes[i..]) == VerifierText(bytes)
    {
      assert bytes[i..][1..] == bytes[i + 1..];
      result := result + [CHARSET[bytes[i] as int % |CHARSET|]];
    }
    assert result + "" == result;
  }

  /** The nearest length that is allowed. */
  function ClampLength(n: nat): (r: nat)
    ensures 43 <= r <= 128 && (n <= 43 ==> r == 43) && (n >= 128 ==> r == 128) && (43 <= n <= 128 ==> r == n)
  {
    if n < 43 then 43 else if n > 128 then 128 else n
  }

  datatype PkcePair = PkcePair(codeVerifier: string, codeChallenge: string)

  function Challenge(verifier: string, sha256: string -> string): string
    requires IsBytes(sha256(verifier))
  {
    Base64Url.Encode(sha256(verifier))
  }

  /** `bytes` are the random bytes that are drawn for the verifier; `None` when the generator fails. */
  method GeneratePkcePair(verifierLen: nat, bytes: Option<string>, sha256: string -> string) returns (r: Result<PkcePair, string>)
    requires bytes.Some? ==> |bytes.value| == ClampLength(verifierLen) && IsBytes(sha256(VerifierText(bytes.value)))
    ensures bytes.None? ==> r == Err("RAND_bytes failed")
    ensures bytes.Some? ==> r == Ok(PkcePair(VerifierText(bytes.value), Challenge(VerifierText(bytes.value), sha256)))
  {
    var length := verifierLen;
    if length < 43 {
      length := 43;
    }
    if length > 128 {
      length := 128;
    }
    if bytes.None? {
      return Err("RAND_bytes failed");
    }
    assert length == |bytes.value|;
    var verifier := GenerateRandomString(bytes.value);
    var challenge := Base64Url.Base64UrlEncode(sha256(verifier));
    return Ok(PkcePair(verifier, challenge));
  }

  lemma {:induction false} VerifierAlphabet(bytes: string)
    ensures AllUnreserved(VerifierText(bytes))
    ensures IsBytes(VerifierText(bytes))
  {
    hide UrlEncode.ShouldEncode;
    if bytes != "" {
      CharsetUnreserved();
      UnreservedIsByte();
      VerifierAlphabet(bytes[1..]);
    }
  }

  lemma UnreservedIsByte()
    ensures forall c: char :: UrlEncode.Unreserved(c) ==> c as int < 256
  {
  }

  /** A verifier has 43 to 128 unreserved characters. */
  lemma VerifierShape(verifierLen: nat, bytes: string)
    requires |bytes| == ClampLength(verifierLen)
    ensures 43 <= |VerifierText(bytes)| <= 128 && IsBytes(VerifierText(bytes))
    ensures AllUnreserved(VerifierText(bytes))
  {
    VerifierAlphabet(bytes);
  }

  /** The challenge has 43 characters of the base64url alphabet and decodes to the hash;
      so equal challenges come from equal hashes. */
  lemma ChallengeShape(verifier: string, sha256: string -> string)
    requires |sha256(verifier)| == 32 && IsBytes(sha256(verifier))
    ensures var c := Challenge(verifier, sha256);
      && |c| == 43 && Base64Url.AllDigits(c) && IsBytes(c)
      && Base64Url.Decode(c) == Some(sha256(verifier))
  {
    hide Base64Url.Decode, Base64Url.Encode, Base64Url.Digit;
    var c := Challenge(verifier, sha256);
    Base64Url.RoundTrip(sha256(verifier));
    Base64Url.EncodeAlphabet(sha256(verifier));
    Base64Url.DecodeIsConcatenation(c);
    DigitIsByte();
  }

  lemma DigitIsByte()
    ensures forall c: char :: Base64Url.Digit(c).Some? ==> c as int < 256
  {
  }

  // ------------------------------------------------------------- which verifier is drawn

  /** Each drawn byte picks the character at its remainder. */
  lemma {:induction false} VerifierPicks(bytes: string, i: nat)
    requires i < |bytes|
    ensures VerifierText(bytes)[i] == CharsetChar(bytes[i] as int % 66)
  {
    CharsetAt(bytes[0] as int % 66);
    if i > 0 {
      VerifierPicks(bytes[1..], i - 1);
    }
  }

  /** The characters of the charset are distinct. */
  lemma CharsetDistinct(m: nat, n: nat)
    requires m < 66 && n < 66 && CharsetChar(m) == CharsetChar(n)
    ensures m == n
  {
  }

  /** Draws of one length give the same verifier if and only if their bytes agree modulo 66. */
  lemma VerifiersEqualExactly(a: string, b: string)
    requires |a| == |b|
    ensures VerifierText(a) == VerifierText(b) <==> forall i :: 0 <= i < |a| ==> a[i] as int % 66 == b[i] as int % 66
  {
    hide CharsetChar;
    forall i | 0 <= i < |a|
      ensures VerifierText(a)[i] == VerifierText(b)[i] <==> a[i] as int % 66 == b[i] as int % 66
    {
      VerifierPicks(a, i);
      VerifierPicks(b, i);
      if VerifierText(a)[i] == VerifierText(b)[i] {
        CharsetDistinct(a[i] as int % 66, b[i] as int % 66);
      }
    }
  }

  lemma UnreservedPicked(c: char) returns (n: nat)
    requires UrlEncode.Unreserved(c)
    ensures n < 66 && CharsetChar(n) == c
  {
    var k := c as int;
    n := if 65 <= k < 91 then k - 65 else if 97 <= k < 123 then k - 97 + 26 else if 48 <= k < 58 then k - 48 + 52
         else if c == '-' then 62 else if c == '.' then 63 else if c == '_' then 64 else 65;
  }

  /** Every text of unreserved characters is the verifier of some draw. */
  lemma {:induction false} EveryVerifier(verifier: string) returns (bytes: string)
    requires AllUnreserved(verifier)
    ensures IsBytes(bytes) && |bytes| == |verifier| && VerifierText(bytes) == verifier
  {
    hide UrlEncode.Unreserved, CharsetChar;
    if verifier == "" {
      return "";
    }
    var n := UnreservedPicked(verifier[0]);
    var rest := EveryVerifier(verifier[1..]);
    bytes := [n as char] + rest;
    CharsetAt(n);
    assert bytes[1..] == rest && n % 66 == n;
  }
}
