/** Small tokens on which the conditions of the validator's theorems hold, and on which they fail. */
module SampleTokens {
  import opened Wrappers
  import opened Text
  import opened JsonTree
  import opened JsonNumbers
  import opened JsonExtract
  import opened JsonLookup
  import opened JsonMentions
  import opened Jwt
  import opened JwtTrees
  import opened Validator
  import opened TokenMeaning
  import opened PlainTokens
  import Base64Url

  function Field(k: string, v: Json): Member {
    Member("", k, "", "", v, "")
  }

  function SampleToken(exp: Json, nbf: Json): Token {
    Token(Obj("", [Field("alg", Str("RS256")), Field("kid", Str("k"))]),
          Obj("", [Field("iss", Str("i")), Field("exp", exp), Field("nbf", nbf)]), "")
  }

  function SampleKey(): Json {
    Obj("", [Field("kid", Str("k")), Field("kty", Str("RSA")), Field("n", Str("A")), Field("e", Str("A"))])
  }

  function SampleKeySet(): Json {
    Obj("", [Field("keys", Arr("", [Elem("", SampleKey(), "")]))])
  }

  function SampleConfig(): AuthConfig {
    AuthConfig("i", "u", 0, false, "", "", 0)
  }

  function SampleReply(): Reply {
    Reply(200, Render(SampleKeySet()))
  }

  // ------------------------------------------------------------------- flat objects

  predicate PlainText(s: string) {
    IsBytes(s) && '"' !in s && '\\' !in s
  }

  predicate FlatValue(v: Json) {
    match v
    case Num(n) => true
    case Str(body) => PlainText(body)
    case Lit(text) => ValidLit(text) && PlainText(text)
    case _ => false
  }

  /** Members with plain scalars and strings. */
  predicate Flat(ms: seq<Member>) {
    ms == [] || (ms[0] == Field(ms[0].key, ms[0].value) && PlainText(ms[0].key) && FlatValue(ms[0].value) && Flat(ms[1..]))
  }

  lemma {:induction false} PlainBody(s: string)
    requires PlainText(s)
    ensures ValidBody(s) && Unescape(s, false) == s
  {
    if s != "" {
      assert s[0] in s;
      PlainBody(s[1..]);
    }
  }

  lemma FlatValueIsPlain(v: Json)
    requires FlatValue(v)
    ensures WellFormed(v) && PlainLits(v) && ByteTree(v)
  {
    if v.Str? {
      PlainBody(v.body);
    }
  }

  lemma {:induction false} FlatIsPlain(ms: seq<Member>)
    requires Flat(ms)
    ensures WellFormedMembers(ms) && PlainLitsMembers(ms) && ByteMembers(ms)
  {
    hide ValidBody, FlatValue, WellFormed, PlainLits, ByteTree;
    if ms != [] {
      PlainBody(ms[0].key);
      FlatValueIsPlain(ms[0].value);
      FlatIsPlain(ms[1..]);
    }
  }

  lemma FlatObject(obj: Json)
    requires obj.Obj? && obj.gap == "" && Flat(obj.members)
    ensures Plain(obj) && ByteTree(obj)
  {
    hide Flat;
    FlatIsPlain(obj.members);
  }

  lemma ShowsItself(body: string, k: string)
    requires PlainText(body)
    ensures Shows(body, k) <==> body == k
  {
    if |body| > |k| {
      assert body[|body| - |k| - 1] in body;
    }
  }

  /** In a flat object every name leads that is none of the strings. */
  lemma {:induction false} FlatLeads(ms: seq<Member>, k: string)
    requires Flat(ms) && forall i :: 0 <= i < |ms| && ms[i].value.Str? ==> ms[i].value.body != k
    ensures KeyLeads(ms, k)
  {
    hide PlainText, Shows;
    if ms != [] {
      ShowsItself(ms[0].key, k);
      if ms[0].value.Str? {
        ShowsItself(ms[0].value.body, k);
      }
      assert forall i :: 0 <= i < |ms| - 1 ==> ms[1..][i] == ms[i + 1];
      FlatLeads(ms[1..], k);
    }
  }

  lemma {:induction false} FlatString(ms: seq<Member>, k: string)
    requires Flat(ms)
    ensures Lookup(ms, k).Some? && Lookup(ms, k).value.value.Str? ==>
              StringMember(Obj("", ms), k) == Some(Lookup(ms, k).value.value.body)
  {
    hide PlainText;
    if ms != [] {
      if ms[0].key == k {
        if ms[0].value.Str? {
          PlainBody(ms[0].value.body);
        }
      } else {
        FlatString(ms[1..], k);
      }
    }
  }

  // ------------------------------------------------------------------- the sample is plain

  lemma SampleHeader(exp: Json, nbf: Json)
    ensures var h := SampleToken(exp, nbf).header;
      && Plain(h) && ByteTree(h) && KeyLeads(h.members, "alg") && KeyLeads(h.members, "kid")
      && Claim(h, "alg") == "RS256" && Claim(h, "kid") == "k"
  {
    hide KeyLeads, Plain, ByteTree;
    var ms := SampleToken(exp, nbf).header.members;
    assert Flat(ms);
    FlatObject(SampleToken(exp, nbf).header);
    FlatLeads(ms, "alg");
    FlatLeads(ms, "kid");
    assert Lookup(ms[1..], "kid") == Some(ms[1]);
    FlatString(ms, "alg");
    FlatString(ms, "kid");
  }

  lemma SampleClaims(exp: Json, nbf: Json)
    requires FlatValue(exp) && FlatValue(nbf)
    ensures var p := SampleToken(exp, nbf).payload;
      && Flat(p.members) && Claim(p, "iss") == "i" && StringMember(p, "iss") == Some("i")
      && Lookup(p.members, "exp") == Some(Field("exp", exp)) && Lookup(p.members, "nbf") == Some(Field("nbf", nbf))
      && ObjectMember(p, "realm_access") == None && ObjectMember(p, "resource_access") == None
  {
    var ms := SampleToken(exp, nbf).payload.members;
    assert FlatValue(Str("i")) && PlainText("iss") && PlainText("exp") && PlainText("nbf");
    hide FlatValue, PlainText;
    assert Flat(ms[2..]) && Flat(ms[1..]);
    assert Lookup(ms[2..], "nbf") == Some(ms[2]) && Lookup(ms[1..], "nbf") == Some(ms[2]) && Lookup(ms[1..], "exp") == Some(ms[1]);
    assert Lookup(ms[2..], "realm_access") == None && Lookup(ms[1..], "realm_access") == None;
    assert Lookup(ms[2..], "resource_access") == None && Lookup(ms[1..], "resource_access") == None;
    FlatString(ms, "iss");
  }

  /** Not the text of any name that is read. */
  predicate OwnText(v: Json) {
    FlatValue(v) && (v.Str? ==> |v.body| == 1)
  }

  lemma OwnIsFlat(v: Json)
    requires OwnText(v)
    ensures FlatValue(v)
  {
  }

  lemma LongNamesLead(exp: Json, nbf: Json, k: string)
    requires OwnText(exp) && OwnText(nbf) && |k| > 1
    ensures KeyLeads(SampleToken(exp, nbf).payload.members, k)
  {
    hide KeyLeads, Flat, PlainText;
    SampleClaims(exp, nbf);
    FlatLeads(SampleToken(exp, nbf).payload.members, k);
  }

  lemma SamplePayload(exp: Json, nbf: Json)
    requires OwnText(exp) && OwnText(nbf)
    ensures var p := SampleToken(exp, nbf).payload;
      Plain(p) && ByteTree(p) && ChecksLead(p.members) && IdentityLeads(p.members) && RolesLead(p)
  {
    hide KeyLeads, Flat, PlainText, Plain, ByteTree, SampleToken, Lookup, OwnText;
    OwnIsFlat(exp);
    OwnIsFlat(nbf);
    SampleClaims(exp, nbf);
    SampleShape(exp, nbf);
    FlatObject(SampleToken(exp, nbf).payload);
    forall k: string | |k| > 1 ensures KeyLeads(SampleToken(exp, nbf).payload.members, k) {
      LongNamesLead(exp, nbf, k);
    }
  }

  lemma SampleShape(exp: Json, nbf: Json)
    ensures SampleToken(exp, nbf).payload.Obj? && SampleToken(exp, nbf).payload.gap == ""
  {
  }

  lemma SampleIsPlain(exp: Json, nbf: Json)
    requires OwnText(exp) && OwnText(nbf)
    ensures PlainToken(SampleToken(exp, nbf))
  {
    hide Plain, ByteTree, ChecksLead, IdentityLeads, RolesLead, KeyLeads, Claim;
    SampleHeader(exp, nbf);
    SamplePayload(exp, nbf);
  }

  lemma SampleKeyFlat()
    ensures Flat(SampleKey().members)
  {
  }

  lemma SampleKeyRead()
    ensures JwkOf(SampleKey()) == Jwk("k", "RSA", "", "A", "A")
  {
  }

  lemma SampleKeyPlain()
    ensures Plain(SampleKey()) && JwkLeads(SampleKey().members)
  {
    hide KeyLeads, Flat, Plain;
    SampleKeyFlat();
    FlatObject(SampleKey());
    forall k: string | k != "k" && k != "RSA" && k != "A" ensures KeyLeads(SampleKey().members, k) {
      FlatLeads(SampleKey().members, k);
    }
  }

  lemma SampleKeySetRead()
    ensures KeySetReadable(SampleKeySet()) && KeysOf(SampleKeySet()) == [Jwk("k", "RSA", "", "A", "A")]
  {
    hide KeySetReadable, JwkOf, SampleKey, JwkLeads, KeyLeads;
    SampleKeyPlain();
    SampleKeyRead();
    KeySetAround(SampleKey(), "keys");
    PlainKeySetReadable(SampleKeySet());
  }

  /** The set of one key. */
  lemma KeySetAround(key: Json, name: string)
    requires Plain(key) && JwkLeads(key.members) && name == "keys"
    ensures var keys := Obj("", [Field(name, Arr("", [Elem("", key, "")]))]);
      && PlainKeySet(keys) && KeysOf(keys) == if JwkOf(key).kty != "" then [JwkOf(key)] else []
  {
    hide JwkLeads, JwkOf, WellFormed, PlainLits;
    var es := [Elem("", key, "")];
    var ms := [Field(name, Arr("", es))];
    assert es[1..] == [] && ms[1..] == [];
    assert ElemsLead(es);
    assert KeyLeads(ms, name);
    assert KeysOfElems(es[1..]) == [];
    PlainAround(key, name);
  }

  lemma PlainAround(key: Json, name: string)
    requires Plain(key) && name == "keys"
    ensures Plain(Obj("", [Field(name, Arr("", [Elem("", key, "")]))]))
  {
    var es := [Elem("", key, "")];
    assert WellFormedElems(es) && PlainLitsElems(es);
    assert WellFormed(Arr("", es)) && PlainLits(Arr("", es));
    PlainBody(name);
    var ms := [Field(name, Arr("", es))];
    assert WellFormedMembers(ms) && PlainLitsMembers(ms);
  }

  // --------------------------------------------------------------------------- results

  /** A good answer of the key server. */
  lemma SampleFetched()
    ensures Fetched(SampleReply()) == Done(JwksFetchResult(true, 200, "", [Jwk("k", "RSA", "", "A", "A")]))
  {
    hide KeySetReadable, Render, KeysOf;
    SampleKeySetRead();
    KeysFetched(SampleReply(), SampleKeySet());
  }

  lemma SampleGenuine(exp: Json, nbf: Json, verify: RsaVerify)
    requires OwnText(exp) && OwnText(nbf) && forall n, e, alg, input, signature :: verify(n, e, alg, input, signature)
    ensures Setting(SampleConfig(), SampleToken(exp, nbf), SampleKeySet(), [], SampleReply())
    ensures Genuine(SampleConfig(), SampleToken(exp, nbf), KeysOf(SampleKeySet()), verify)
  {
    hide Render, IsBytes, Plain, PlainToken, SampleKeySet, SampleKey, Claim, StringMember, OwnText, SignedBy, SigningInput,
         ClaimsReached, TimesReached, IdentityReached, RolesReached, HeaderReached, KeySetReached, KeysOf;
    OwnIsFlat(exp);
    OwnIsFlat(nbf);
    SampleIsPlain(exp, nbf);
    PlainIsReadable(SampleToken(exp, nbf));
    SampleKeySetRead();
    SampleHeader(exp, nbf);
    SampleClaims(exp, nbf);
    SampleSigns(SampleToken(exp, nbf).Signed(), "", verify);
  }

  /** The sample key signs, when the primitive accepts everything. */
  lemma SampleSigns(input: string, signature: string, verify: RsaVerify)
    requires forall n, e, alg, input, signature :: verify(n, e, alg, input, signature)
    ensures SignedBy(Jwk("k", "RSA", "", "A", "A"), "RS256", input, signature, verify)
  {
    hide Base64Url.Decode, SignedBy;
    DecodesA();
    SignatureMeans(verify, Jwk("k", "RSA", "", "A", "A"), "RS256", input, signature);
  }

  lemma DecodesA()
    ensures Base64Url.Decode("A").Some?
  {
  }

  /** What the two readings make of the times of a sample. */
  lemma SampleTimes(exp: Json, nbf: Json, verify: RsaVerify, now: int)
    requires OwnText(exp) && OwnText(nbf) && forall n, e, alg, input, signature :: verify(n, e, alg, input, signature)
    ensures Setting(SampleConfig(), SampleToken(exp, nbf), SampleKeySet(), [], SampleReply())
    ensures TextAccepted(SampleConfig(), SampleToken(exp, nbf), [], SampleReply(), now, verify)
       <==> IntOf(exp).Some? && now <= IntOf(exp).value && (IntOf(nbf).Some? ==> IntOf(nbf).value <= now)
    ensures Accepted(SampleConfig(), SampleToken(exp, nbf), KeysOf(SampleKeySet()), now, verify)
       <==> NumberOf(exp).Some? && now as real <= NumberOf(exp).value && NumberOf(nbf).Some? && NumberOf(nbf).value <= now as real
  {
    hide TextAccepted, Genuine, KeysOf, SampleToken, SampleReply, SampleKeySet, IntOf, NumberOf, Setting, Claim, StringMember, ObjectMember, Flat;
    OwnIsFlat(exp);
    OwnIsFlat(nbf);
    SampleGenuine(exp, nbf, verify);
    SampleClaims(exp, nbf);
    AcceptedAsRead(SampleConfig(), SampleToken(exp, nbf), SampleKeySet(), [], SampleReply(), now, verify);
  }

  /** A literal that is this number. */
  lemma LiteralNumber(text: string, number: Number)
    requires number.Valid() && number.Text() == text && FitsInt64(number.Whole()) && OwnText(Lit(text))
    ensures IntOf(Lit(text)) == Some(number.Whole()) && NumberOf(Lit(text)) == Some(number.Value())
  {
    hide ParseNumber, Number.Value, Number.Whole, Number.Text, Number.Valid;
    ParseExactly(text, number);
  }

  /** Forty with an exponent is read as four. */
  lemma FortyRead()
    ensures OwnText(Lit("4e1")) && IntOf(Lit("4e1")) == Some(4) && NumberOf(Lit("4e1")) == Some(40.0)
  {
    var number := Number(false, "4", "", "e1");
    hide ParseNumber, NumberOf, IntOf;
    assert "4" + "" == "4" && number.Whole() == 4 by { OneDigit("4"); }
    assert number.Scale() == "1" && number.Power() == 1 by { OneDigit("1"); }
    assert Scaled(4.0, 1) == Scaled(40.0, 0) && number.Value() == 40.0 by { OneDigit("4"); }
    LiteralNumber("4e1", number);
  }

  /** Eight and a half as eight. */
  lemma HalfRead()
    ensures OwnText(Lit("8.5")) && IntOf(Lit("8.5")) == Some(8) && NumberOf(Lit("8.5")) == Some(8.5)
  {
    var number := Number(false, "8", ".5", "");
    hide ParseNumber, NumberOf, IntOf;
    assert number.Whole() == 8 by { OneDigit("8"); }
    assert number.Scale() == "" && number.Power() == 0;
    assert "8" + ".5"[1..] == "85" && LeadingNat("85", 0) == 85 by { TwoDigits("85"); }
    assert Scaled(85.0, -1) == Scaled(8.5, 0) && number.Value() == 8.5;
    LiteralNumber("8.5", number);
  }

  /** And four with an exponent as forty. */
  lemma FourRead()
    ensures OwnText(Lit("40e-1")) && IntOf(Lit("40e-1")) == Some(40) && NumberOf(Lit("40e-1")) == Some(4.0)
  {
    var number := Number(false, "40", "", "e-1");
    hide ParseNumber, NumberOf, IntOf;
    assert "40" + "" == "40" && number.Whole() == 40 by { TwoDigits("40"); }
    assert number.Scale() == "1" && number.Power() == -1 by { OneDigit("1"); }
    assert Scaled(40.0, -1) == Scaled(4.0, 0) && number.Value() == 4.0 by { TwoDigits("40"); }
    LiteralNumber("40e-1", number);
  }

  lemma OneDigit(s: string)
    requires |s| == 1 && IsDigit(s[0])
    ensures LeadingNat(s, 0) == s[0] as int - 48
  {
    assert s[1..] == "" && LeadingNat(s, 0) == LeadingNat("", s[0] as int - 48);
  }

  lemma TwoDigits(s: string)
    requires |s| == 2 && IsDigit(s[0]) && IsDigit(s[1])
    ensures LeadingNat(s, 0) == (s[0] as int - 48) * 10 + (s[1] as int - 48)
  {
    assert s[1..][1..] == "" && s[1..][0] == s[1];
    assert LeadingNat(s, 0) == LeadingNat(s[1..], s[0] as int - 48);
    assert LeadingNat(s[1..], s[0] as int - 48) == LeadingNat("", (s[0] as int - 48) * 10 + (s[1] as int - 48));
  }

  /** Times in whole seconds: the sample is accepted, as its claims demand. */
  lemma SampleAccepted(verify: RsaVerify)
    requires forall n, e, alg, input, signature :: verify(n, e, alg, input, signature)
    ensures SampleToken(Num(9), Num(7)).Readable()
    ensures TextAccepted(SampleConfig(), SampleToken(Num(9), Num(7)), [], SampleReply(), 8, verify)
    ensures Accepted(SampleConfig(), SampleToken(Num(9), Num(7)), KeysOf(SampleKeySet()), 8, verify)
  {
    hide TextAccepted, Accepted, KeysOf, SampleToken, SampleReply, SampleKeySet, Token.Readable;
    SampleTimes(Num(9), Num(7), verify, 8);
  }

  /** A token is accepted before its time when `nbf` has a fraction or an exponent, does not fit 64 bits or is no number. */
  lemma EarlyAccepted(nbf: Json, verify: RsaVerify)
    requires forall n, e, alg, input, signature :: verify(n, e, alg, input, signature)
    requires nbf == Lit("8.5") || nbf == Lit("4e1") || nbf == Num(0x1_0000_0000_0000_0000) || nbf == Str("x")
    ensures SampleToken(Num(9), nbf).Readable()
    ensures TextAccepted(SampleConfig(), SampleToken(Num(9), nbf), [], SampleReply(), 8, verify)
    ensures !Accepted(SampleConfig(), SampleToken(Num(9), nbf), KeysOf(SampleKeySet()), 8, verify)
  {
    hide TextAccepted, Accepted, KeysOf, SampleToken, SampleReply, SampleKeySet, Token.Readable, ParseNumber;
    FortyRead();
    HalfRead();
    SampleTimes(Num(9), nbf, verify, 8);
  }

  /** And after its time when `exp` has a negative exponent. */
  lemma LateAccepted(verify: RsaVerify)
    requires forall n, e, alg, input, signature :: verify(n, e, alg, input, signature)
    ensures SampleToken(Lit("40e-1"), Num(3)).Readable()
    ensures TextAccepted(SampleConfig(), SampleToken(Lit("40e-1"), Num(3)), [], SampleReply(), 8, verify)
    ensures !Accepted(SampleConfig(), SampleToken(Lit("40e-1"), Num(3)), KeysOf(SampleKeySet()), 8, verify)
  {
    hide TextAccepted, Accepted, KeysOf, SampleToken, SampleReply, SampleKeySet, Token.Readable, ParseNumber;
    FourRead();
    SampleTimes(Lit("40e-1"), Num(3), verify, 8);
  }

  /** And refused in its time when `exp` has an exponent or does not fit 64 bits, or `nbf` has a negative exponent. */
  lemma WronglyRefused(exp: Json, nbf: Json, verify: RsaVerify)
    requires forall n, e, alg, input, signature :: verify(n, e, alg, input, signature)
    requires ((exp == Lit("4e1") || exp == Num(0x1_0000_0000_0000_0000)) && nbf == Num(7)) || (exp == Num(9) && nbf == Lit("40e-1"))
    ensures SampleToken(exp, nbf).Readable()
    ensures !TextAccepted(SampleConfig(), SampleToken(exp, nbf), [], SampleReply(), 8, verify)
    ensures Accepted(SampleConfig(), SampleToken(exp, nbf), KeysOf(SampleKeySet()), 8, verify)
  {
    hide TextAccepted, Accepted, KeysOf, SampleToken, SampleReply, SampleKeySet, Token.Readable, ParseNumber;
    FortyRead();
    FourRead();
    SampleTimes(exp, nbf, verify, 8);
  }
}
