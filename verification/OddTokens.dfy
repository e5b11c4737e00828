/** Well-formed tokens outside the conditions of the validator's theorems: one whose header is never
    read to an end, and one of which a nested claim is read. */
module OddTokens {
  import opened Wrappers
  import opened Text
  import opened JsonScan
  import opened JsonTree
  import opened JsonNumbers
  import opened JsonExtract
  import opened JsonLookup
  import opened JsonMentions
  import opened Jwt
  import opened JwtTrees
  import opened Validator
  import opened TokenMeaning
  import opened PlainTokens
  import opened SampleTokens
  import JsonTermination

  // -------------------------------------------------------------- texts of small trees

  lemma LastMember(k: string, v: Json)
    ensures RenderMembers([Field(k, v)]) == Quoted(k) + ":" + Render(v) + "}"
  {
    hide Render, Quoted;
    var ms := [Field(k, v)];
    assert RenderMembers(ms) == "" + KeyText(ms) && MembersTail(ms) == "}";
    assert KeyText(ms) == Quoted(k) + "" + ":" + "" + Render(v) + "" + "}";
  }

  lemma MoreMembers(k: string, v: Json, rest: seq<Member>)
    requires rest != []
    ensures RenderMembers([Field(k, v)] + rest) == Quoted(k) + ":" + Render(v) + "," + RenderMembers(rest)
  {
    hide Render, Quoted;
    var ms := [Field(k, v)] + rest;
    assert ms[1..] == rest;
    assert RenderMembers(ms) == "" + KeyText(ms) && MembersTail(ms) == "," + RenderMembers(rest);
    assert KeyText(ms) == Quoted(k) + "" + ":" + "" + Render(v) + "" + MembersTail(ms);
  }

  lemma TwoElems(a: Json, b: Json)
    ensures Render(Arr("", [Elem("", a, ""), Elem("", b, "")])) == "[" + Render(a) + "," + Render(b) + "]"
  {
    hide Render;
    var es := [Elem("", a, ""), Elem("", b, "")];
    assert es[1..] == [Elem("", b, "")] && |es[1..]| == 1;
    assert RenderElems(es[1..]) == "" + Render(b) + "" + "]";
    assert RenderElems(es) == "" + Render(a) + "" + ("," + RenderElems(es[1..]));
    ArrayText("", es);
  }

  lemma ArrayText(gap: string, es: seq<Elem>)
    ensures Render(Arr(gap, es)) == "[" + gap + RenderElems(es)
  {
  }

  // ------------------------------------------------------------ a header without an end

  /** `{"x":["alg","y:[}"],"alg":"RS256"}` */
  function StallingHeader(): Json {
    Obj("", [Field("x", Arr("", StallingElems())), Field("alg", Str("RS256"))])
  }

  function StallingElems(): seq<Elem> {
    [Elem("", Str("alg"), ""), Elem("", Str("y:[}"), "")]
  }

  lemma StallingText() returns (rest: string)
    ensures Render(StallingHeader()) == "{\"x\":[" + Quoted("alg") + (",\"y" + [':'] + ("[}" + rest))
  {
    hide Render;
    var y, r := Quoted("y:[}"), Quoted("RS256");
    StringText("alg");
    StringText("y:[}");
    StringText("RS256");
    TwoElems(Str("alg"), Str("y:[}"));
    LastMember("alg", Str("RS256"));
    MoreMembers("x", Arr("", StallingElems()), [Field("alg", Str("RS256"))]);
    var ms := [Field("x", Arr("", StallingElems()))] + [Field("alg", Str("RS256"))];
    RenderObject("", ms);
    assert StallingHeader().members == ms;
    assert Quoted("x") == "\"x\"" && y == "\"y" + [':'] + "[}\"";
    rest := "\"]" + "," + (Quoted("alg") + ":" + r + "}");
    Glue(Quoted("alg"), y, Quoted("alg") + ":" + r + "}");
  }

  lemma Glue(alg: string, y: string, more: string)
    requires y == "\"y" + [':'] + "[}\""
    ensures "{" + "" + ("\"x\"" + ":" + ("[" + alg + "," + y + "]") + "," + more)
         == "{\"x\":[" + alg + (",\"y" + [':'] + ("[}" + ("\"]" + "," + more)))
  {
  }

  lemma StringText(body: string)
    ensures Render(Str(body)) == Quoted(body)
  {
  }

  lemma StallingBodies()
    ensures PlainText("x") && PlainText("alg") && PlainText("y:[}") && PlainText("RS256")
  {
  }

  lemma StringPlain(body: string)
    requires PlainText(body)
    ensures WellFormed(Str(body)) && ByteTree(Str(body)) && ValidBody(body) && IsBytes(body)
  {
    PlainBody(body);
  }

  lemma StallingShape()
    ensures WellFormed(StallingHeader()) && ByteTree(StallingHeader())
  {
    hide PlainText, ValidBody;
    StallingBodies();
    StringPlain("x");
    StringPlain("alg");
    StringPlain("y:[}");
    StringPlain("RS256");
    hide IsBytes;
    var es := StallingElems();
    assert WellFormedElems(es[1..]) && ByteElems(es[1..]) && WellFormedElems(es) && ByteElems(es);
    var ms := StallingHeader().members;
    assert WellFormedMembers(ms[1..]) && ByteMembers(ms[1..]) && WellFormedMembers(ms) && ByteMembers(ms);
  }

  /** The array loop stops in front of the wrong bracket and never gets past it. */
  lemma WrongBracketStalls(rest: string)
    ensures ValueAhead("[}" + rest) && ReadValue("[}" + rest) == Stall
  {
    var s := "}" + rest;
    assert ("[}" + rest)[1..] == s && AfterWs(s) == s && AfterValue(s) == Done(s);
    assert AfterElements(s) == Stall;
  }

  lemma StallingLookup()
    ensures ExtractValue(Render(StallingHeader()), "alg") == Stall
  {
    hide ExtractValue, ReadValue, ValueAhead, Render;
    var rest := StallingText();
    WrongBracketStalls(rest);
    ReadFirst("{\"x\":[", "alg", ",\"y", "[}" + rest);
  }

  /** A well-formed header on which the validation never ends, before any signature is checked: the lookup
      of `alg` starts to scan inside a string. */
  lemma HeaderStalls(cfg: AuthConfig, cached: seq<Jwk>, reply: Reply, payload: string, signature: string, now: int, verify: RsaVerify)
    requires ConfigFailure(cfg).None? && IsBytes(payload) && IsBytes(signature)
    ensures WellFormed(StallingHeader()) && IsBytes(Render(StallingHeader()))
    ensures StringMember(StallingHeader(), "alg") == Some("RS256")
    ensures Verdict(cfg, cached, reply, Compact(Render(StallingHeader()), payload, signature), now, verify) == Stall
  {
    hide Render, WellFormed, IsBytes, ByteTree, DecodeJwt, Compact, SigningInput, ExtractValue, ConfigFailure, Checked, Fetched,
         SupportedAlg, StallingHeader;
    StallingShape();
    RenderBytes(StallingHeader());
    StallingLookup();
    StallingAlg();
    CompactRoundTrip(Render(StallingHeader()), payload, signature);
    CompactNotEmpty(Render(StallingHeader()), payload, signature);
  }

  lemma StallingAlg()
    ensures StringMember(StallingHeader(), "alg") == Some("RS256")
  {
    var ms := StallingHeader().members;
    assert Lookup(ms[1..], "alg") == Some(ms[1]);
    PlainBody("RS256");
  }

  // ------------------------------------------------------------------- a nested claim

  /** With the payload `{"a":{"exp":9},"iss":"i","exp":1}`. */
  function NestedToken(): Token {
    Token(Obj("", [Field("alg", Str("RS256")), Field("kid", Str("k"))]), NestedPayload(), "")
  }

  function NestedPayload(): Json {
    Obj("", [Field("a", Inner()), Field("iss", Str("i")), Field("exp", Num(1))])
  }

  function Inner(): Json {
    Obj("", [Field("exp", Num(9))])
  }

  lemma NestedText() returns (rest: string)
    ensures Render(NestedPayload()) == "{\"a\":{" + Quoted("exp") + ("" + [':'] + ("9" + ("}" + rest)))
  {
    hide Render;
    NineText();
    LastMember("exp", Num(9));
    RenderObject("", [Field("exp", Num(9))]);
    var ms := [Field("iss", Str("i")), Field("exp", Num(1))];
    MoreMembers("a", Inner(), ms);
    RenderObject("", [Field("a", Inner())] + ms);
    assert NestedPayload().members == [Field("a", Inner())] + ms && Quoted("a") == "\"a\"";
    rest := "," + RenderMembers(ms);
    NestedGlue(Quoted("exp"), RenderMembers(ms));
  }

  lemma NestedGlue(exp: string, more: string)
    ensures "{" + "" + ("\"a\"" + ":" + ("{" + "" + (exp + ":" + "9" + "}")) + "," + more)
         == "{\"a\":{" + exp + ("" + [':'] + ("9" + ("}" + ("," + more))))
  {
  }

  lemma NineText()
    ensures Render(Num(9)) == "9"
  {
  }

  lemma NestedRead()
    ensures ExtractInt64(Render(NestedPayload()), "exp") == Done(Some(9))
  {
    hide ExtractValue, ReadValue, ValueAhead, Render, Stoll;
    var rest := NestedText();
    NineAhead("}" + rest);
    ReadFirst("{\"a\":{", "exp", "", "9" + ("}" + rest));
    NineRead();
  }

  lemma NineAhead(rest: string)
    requires rest != "" && rest[0] == '}'
    ensures ValueAhead("9" + rest) && ReadValue("9" + rest) == Done(Some("9"))
  {
    assert ("9" + rest)[1..] == rest;
    assert AfterScalar("9" + rest) == AfterScalar(rest) == rest;
  }

  lemma NineRead()
    ensures Stoll("9") == Some(9)
  {
    OneDigit("9");
  }

  lemma NestedClaims()
    ensures var p := NestedPayload();
      && StringMember(p, "iss") == Some("i") && IntMember(p, "exp") == Some(1) && NumericDate(p, "exp") == Some(1.0)
      && IntMember(p, "nbf") == None && ObjectMember(p, "realm_access") == None && ObjectMember(p, "resource_access") == None
  {
    var ms := NestedPayload().members;
    assert Lookup(ms[1..], "iss") == Some(ms[1]) && Lookup(ms[2..], "exp") == Some(ms[2]) && Lookup(ms[1..], "exp") == Some(ms[2]);
    assert Lookup(ms[2..], "nbf") == None && Lookup(ms[1..], "nbf") == None;
    assert Lookup(ms[2..], "realm_access") == None && Lookup(ms[1..], "realm_access") == None;
    assert Lookup(ms[2..], "resource_access") == None && Lookup(ms[1..], "resource_access") == None;
    PlainBody("i");
  }

  lemma NestedTexts()
    ensures PlainText("a") && PlainText("iss") && PlainText("i") && PlainText("exp")
  {
  }

  lemma NestedFlat()
    ensures Flat(Inner().members) && Flat(NestedPayload().members[1..])
  {
    hide PlainText;
    NestedTexts();
    var ms := NestedPayload().members;
    assert Inner().members[1..] == [] && ms[1..][1..][1..] == [];
    assert Flat(ms[1..][1..][1..]) && Flat(ms[1..][1..]);
  }

  lemma NestedPlain()
    ensures Plain(NestedPayload()) && ByteTree(NestedPayload())
  {
    hide Flat, PlainText, ValidBody, IsBytes;
    NestedFlat();
    NestedTexts();
    StringPlain("a");
    FlatObject(Inner());
    FlatIsPlain(NestedPayload().members[1..]);
  }

  /** Every other long name leads. */
  lemma NestedLeads(k: string)
    requires |k| > 1 && k != "exp"
    ensures KeyLeads(NestedPayload().members, k)
  {
    hide PlainText, Shows, Flat;
    var ms := NestedPayload().members;
    NestedFlat();
    NestedTexts();
    ShowsItself("a", k);
    ShowsItself("exp", k);
    InnerShows(k);
    FlatLeads(ms[1..], k);
  }

  lemma InnerShows(k: string)
    requires !Shows("exp", k)
    ensures !Mentions(Inner(), k)
  {
    assert Inner().members[1..] == [];
    assert !MembersMention(Inner().members, k);
  }

  lemma OthersReached(k: string)
    requires IsName(k) && |k| > 1 && k != "exp"
    ensures KeyReached(NestedPayload(), k)
  {
    hide KeyLeads, KeyReached, Plain, IsName;
    NestedPlain();
    NestedLeads(k);
    NameReached(NestedPayload(), k);
  }

  lemma PartyNames()
    ensures IsName("iss") && IsName("aud") && IsName("azp") && IsName("nbf")
  {
  }

  lemma NestedReached()
    ensures ClaimsReached(NestedPayload()) && KeyReached(NestedPayload(), "nbf")
  {
    hide KeyLeads, KeyReached, Plain, ByteTree, ObjectMember, IsName;
    NestedPlain();
    NestedClaims();
    PartyNames();
    OthersReached("iss");
    OthersReached("aud");
    OthersReached("azp");
    OthersReached("nbf");
    forall k: string | |k| > 1 && k != "exp" ensures KeyLeads(NestedPayload().members, k) {
      NestedLeads(k);
    }
    NestedRoles();
    IdentityReadable(NestedPayload());
    RolesReadable(NestedPayload());
  }

  lemma NestedRoles()
    requires forall k: string :: |k| > 1 && k != "exp" ==> KeyLeads(NestedPayload().members, k)
    ensures IdentityLeads(NestedPayload().members) && RolesLead(NestedPayload())
  {
    hide KeyLeads, NestedPayload, ObjectMember;
    NestedClaims();
  }

  lemma NestedFinds()
    ensures FindsTimes(NestedPayload(), Times(Some(9), Always))
  {
    hide ExtractInt64, IntMember, KeyReached, Render, Plain, WellFormed, NestedToken, ClaimsReached;
    NestedPlain();
    NestedRead();
    NestedClaims();
    NestedReached();
    PlainWellFormed(NestedPayload());
    ExtractIntMember(NestedPayload(), "nbf");
  }

  lemma PlainWellFormed(v: Json)
    requires Plain(v)
    ensures v.Obj? && WellFormed(v)
  {
  }

  lemma HeaderDecodable(header: Json)
    requires Plain(header) && ByteTree(header) && KeyLeads(header.members, "alg") && KeyLeads(header.members, "kid")
    ensures WellFormed(header) && IsBytes(Render(header)) && HeaderReached(header)
  {
    hide KeyLeads, KeyReached, Plain, ByteTree, Render, IsBytes, WellFormed;
    PlainWellFormed(header);
    RenderBytes(header);
    assert IsName("alg") && IsName("kid");
    NameReached(header, "alg");
    NameReached(header, "kid");
  }

  lemma NestedDecodable()
    ensures NestedToken().Decodable()
  {
    hide KeyLeads, Plain, ByteTree, Render, IsBytes, WellFormed, HeaderReached, NestedPayload;
    NestedPlain();
    SampleHeader(Num(9), Num(7));
    HeaderDecodable(SampleToken(Num(9), Num(7)).header);
    PlainWellFormed(NestedPayload());
    RenderBytes(NestedPayload());
    NoBytes();
  }

  lemma NoBytes()
    ensures IsBytes("")
  {
  }

  lemma NestedGenuine(verify: RsaVerify)
    requires forall n, e, alg, input, signature :: verify(n, e, alg, input, signature)
    requires NestedToken().Decodable()
    ensures Genuine(SampleConfig(), NestedToken(), [Jwk("k", "RSA", "", "A", "A")], verify)
  {
    hide Render, IsBytes, Claim, StringMember, SignedBy, SigningInput, HeaderReached, WellFormed;
    SampleHeader(Num(9), Num(7));
    assert NestedToken().header == SampleToken(Num(9), Num(7)).header;
    NestedClaims();
    SampleSigns(NestedToken().Signed(), "", verify);
  }

  /** An expired token of which a nested `exp` is read is accepted. */
  lemma NestedExpiryAccepted(verify: RsaVerify)
    requires forall n, e, alg, input, signature :: verify(n, e, alg, input, signature)
    ensures NestedToken().Decodable()
    ensures TextAccepted(SampleConfig(), NestedToken(), [], SampleReply(), 8, verify)
    ensures !Accepted(SampleConfig(), NestedToken(), KeysOf(SampleKeySet()), 8, verify)
  {
    hide Render, IsBytes, KeysOf, Genuine, Answer, SampleKeySet, FindsTimes, ClaimsReached, KeySetReadable, Token.Decodable,
         NumericDate, Verdict, NestedPayload;
    NestedDecodable();
    NestedReached();
    NestedFinds();
    NestedClaims();
    SampleKeySetRead();
    NestedGenuine(verify);
    NestedExpiryAnswered(verify);
  }

  lemma NestedExpiryAnswered(verify: RsaVerify)
    requires NestedToken().Decodable() && ClaimsReached(NestedPayload())
    requires FindsTimes(NestedPayload(), Times(Some(9), Always)) && KeySetReadable(SampleKeySet())
    requires Genuine(SampleConfig(), NestedToken(), KeysOf(SampleKeySet()), verify)
    ensures TextAccepted(SampleConfig(), NestedToken(), [], SampleReply(), 8, verify)
  {
    hide Render, IsBytes, KeysOf, Genuine, Answer, SampleKeySet, FindsTimes, ClaimsReached, KeySetReached, Verdict,
         HeaderReached, WellFormed, NestedPayload;
    AnswersFor(SampleConfig(), NestedToken(), SampleKeySet(), [], SampleReply(), Times(Some(9), Always), 8, verify);
    AnswerAccepts(SampleConfig(), NestedToken(), KeysOf(SampleKeySet()), InTime, verify);
  }
}
