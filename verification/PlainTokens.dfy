/** The validator on tokens and key sets whose readability shows in their trees. */
module PlainTokens {
  import opened Wrappers
  import opened Text
  import opened JsonTree
  import opened JsonLookup
  import opened JsonMentions
  import opened Jwt
  import opened JwtTrees
  import opened Validator
  import opened TokenMeaning
  import opened JsonExtract

  // --------------------------------------------------------------- a name in an object

  ghost predicate Plain(v: Json) {
    v.Obj? && WellFormed(v) && PlainLits(v)
  }

  lemma NameReached(obj: Json, k: string)
    requires Plain(obj) && IsName(k) && KeyLeads(obj.members, k)
    ensures KeyReached(obj, k)
  {
    hide KeyLeads, KeyReached, KeyFirst, IsName, WellFormed, PlainLits;
    KeyFirstExactly(obj, k);
    FirstIsReached(obj, k);
  }

  lemma {:induction false} LookupPlain(ms: seq<Member>, k: string)
    requires WellFormedMembers(ms) && PlainLitsMembers(ms)
    ensures Lookup(ms, k).Some? ==> WellFormed(Lookup(ms, k).value.value) && PlainLits(Lookup(ms, k).value.value)
  {
    hide WellFormed, PlainLits;
    if ms != [] && ms[0].key != k {
      LookupPlain(ms[1..], k);
    }
  }

  lemma MembersPlain(obj: Json, k: string)
    requires Plain(obj)
    ensures ObjectMember(obj, k).Some? ==> Plain(ObjectMember(obj, k).value)
    ensures Lookup(obj.members, k).Some? && Lookup(obj.members, k).value.value.Arr? ==>
              WellFormedElems(Lookup(obj.members, k).value.value.elems) && PlainLitsElems(Lookup(obj.members, k).value.value.elems)
  {
    LookupPlain(obj.members, k);
  }

  // -------------------------------------------------------------------------- tokens

  predicate ChecksLead(ms: seq<Member>) {
    KeyLeads(ms, "iss") && KeyLeads(ms, "exp") && KeyLeads(ms, "nbf") && KeyLeads(ms, "aud") && KeyLeads(ms, "azp")
  }

  predicate IdentityLeads(ms: seq<Member>) {
    KeyLeads(ms, "sub") && KeyLeads(ms, "preferred_username") && KeyLeads(ms, "client_id") && KeyLeads(ms, "scope")
  }

  predicate ClientsLead(ms: seq<Member>) {
    ms == [] || ((ms[0].value.Obj? ==> KeyLeads(ms[0].value.members, "roles")) && ClientsLead(ms[1..]))
  }

  predicate RolesLead(payload: Json)
    requires payload.Obj?
  {
    && KeyLeads(payload.members, "realm_access") && KeyLeads(payload.members, "resource_access")
    && (ObjectMember(payload, "realm_access").Some? ==>
          KeyLeads(ObjectMember(payload, "realm_access").value.members, "roles"))
    && (ObjectMember(payload, "resource_access").Some? ==>
          ClientsLead(ObjectMember(payload, "resource_access").value.members))
  }

  /** What an issuer can check on its claims: bytes, no quotes in literals, and every name that the
      validator reads shows up as a key before it shows up inside a value. */
  ghost predicate PlainToken(token: Token) {
    && Plain(token.header) && Plain(token.payload)
    && ByteTree(token.header) && ByteTree(token.payload) && IsBytes(token.signature)
    && KeyLeads(token.header.members, "alg") && KeyLeads(token.header.members, "kid")
    && ChecksLead(token.payload.members) && IdentityLeads(token.payload.members) && RolesLead(token.payload)
  }

  lemma ChecksReadable(obj: Json)
    requires Plain(obj) && ChecksLead(obj.members)
    ensures PartiesReached(obj) && TimesReached(obj)
  {
    hide KeyLeads, KeyReached, Plain;
    NameReached(obj, "iss");
    NameReached(obj, "exp");
    NameReached(obj, "nbf");
    NameReached(obj, "aud");
    NameReached(obj, "azp");
  }

  lemma IdentityReadable(obj: Json)
    requires Plain(obj) && IdentityLeads(obj.members)
    ensures IdentityReached(obj)
  {
    hide KeyLeads, KeyReached, Plain;
    NameReached(obj, "sub");
    NameReached(obj, "preferred_username");
    NameReached(obj, "client_id");
    NameReached(obj, "scope");
  }

  lemma {:induction false} ClientsReadable(ms: seq<Member>)
    requires WellFormedMembers(ms) && PlainLitsMembers(ms) && ClientsLead(ms)
    ensures ClientsReached(ms)
  {
    hide KeyLeads, KeyReached, WellFormed, PlainLits, IsName;
    if ms != [] {
      RolesName();
      if ms[0].value.Obj? {
        NameReached(ms[0].value, "roles");
      }
      ClientsReadable(ms[1..]);
    }
  }

  lemma RolesName()
    ensures IsName("roles") && IsName("realm_access") && IsName("resource_access")
  {
  }

  lemma RolesReadable(payload: Json)
    requires Plain(payload) && RolesLead(payload)
    ensures RolesReached(payload)
  {
    hide KeyLeads, KeyReached, ObjectMember, IsName, ClientsReached, ClientsLead, WellFormed, PlainLits;
    RolesName();
    NameReached(payload, "realm_access");
    NameReached(payload, "resource_access");
    MembersPlain(payload, "realm_access");
    MembersPlain(payload, "resource_access");
    if ObjectMember(payload, "realm_access").Some? {
      NameReached(ObjectMember(payload, "realm_access").value, "roles");
    }
    if ObjectMember(payload, "resource_access").Some? {
      PartsPlain(ObjectMember(payload, "resource_access").value);
      ClientsReadable(ObjectMember(payload, "resource_access").value.members);
    }
  }

  lemma PartsPlain(obj: Json)
    requires Plain(obj)
    ensures WellFormedMembers(obj.members) && PlainLitsMembers(obj.members)
  {
  }

  lemma PlainIsReadable(token: Token)
    requires PlainToken(token)
    ensures token.Readable()
  {
    hide KeyLeads, KeyReached, ChecksLead, PartiesReached, TimesReached, IdentityLeads, IdentityReached, RolesLead, RolesReached, Render, IsBytes,
         WellFormed, PlainLits;
    RenderBytes(token.header);
    RenderBytes(token.payload);
    NameReached(token.header, "alg");
    NameReached(token.header, "kid");
    ChecksReadable(token.payload);
    IdentityReadable(token.payload);
    RolesReadable(token.payload);
  }

  // ------------------------------------------------------------------------ key sets

  predicate JwkLeads(ms: seq<Member>) {
    KeyLeads(ms, "kid") && KeyLeads(ms, "kty") && KeyLeads(ms, "alg") && KeyLeads(ms, "n") && KeyLeads(ms, "e")
  }

  predicate ElemsLead(es: seq<Elem>) {
    es == [] || ((es[0].value.Obj? ==> JwkLeads(es[0].value.members)) && ElemsLead(es[1..]))
  }

  ghost predicate PlainKeySet(jwks: Json) {
    && Plain(jwks) && KeyLeads(jwks.members, "keys")
    && (Lookup(jwks.members, "keys").Some? && Lookup(jwks.members, "keys").value.value.Arr? ==>
          ElemsLead(Lookup(jwks.members, "keys").value.value.elems))
  }

  lemma JwkReadable(obj: Json)
    requires Plain(obj) && JwkLeads(obj.members)
    ensures JwkNamesReached(obj)
  {
    hide KeyLeads, KeyReached, Plain;
    NameReached(obj, "kid");
    NameReached(obj, "kty");
    NameReached(obj, "alg");
    NameReached(obj, "n");
    NameReached(obj, "e");
  }

  lemma {:induction false} ElemsReadable(es: seq<Elem>)
    requires WellFormedElems(es) && PlainLitsElems(es) && ElemsLead(es)
    ensures ElemsReached(es)
  {
    hide JwkLeads, JwkNamesReached, WellFormed, PlainLits;
    if es != [] {
      if es[0].value.Obj? {
        JwkReadable(es[0].value);
      }
      ElemsReadable(es[1..]);
    }
  }

  lemma PlainKeySetReadable(jwks: Json)
    requires PlainKeySet(jwks)
    ensures KeySetReadable(jwks)
  {
    hide KeyLeads, KeyReached, Lookup, ElemsLead, ElemsReached, WellFormed, PlainLits, WellFormedElems, PlainLitsElems, ObjectMember;
    NameReached(jwks, "keys");
    MembersPlain(jwks, "keys");
    if Lookup(jwks.members, "keys").Some? && Lookup(jwks.members, "keys").value.value.Arr? {
      ElemsReadable(Lookup(jwks.members, "keys").value.value.elems);
    }
  }

  // ------------------------------------------------------------------------- theorem

  /** The flagship on trees alone: for every plain token and plain key set the text is accepted at exactly
      the times at which its claims are good, if and only if the token is not genuine, or the time in which
      it is good is read right; so it is for times in whole seconds. */
  lemma PlainTokenAcceptedExactly(cfg: AuthConfig, token: Token, jwks: Json, cached: seq<Jwk>, reply: Reply, verify: RsaVerify)
    requires ConfigFailure(cfg).None? && PlainToken(token) && PlainKeySet(jwks) && Serves(reply, jwks)
    requires cached == [] || cached == KeysOf(jwks)
    ensures Setting(cfg, token, jwks, cached, reply)
    ensures AcceptanceAgrees(cfg, token, jwks, cached, reply, verify)
       <==> (Genuine(cfg, token, KeysOf(jwks), verify) ==>
               SameWindow(TimesRead(token.payload), TimesMeant(token.payload), cfg.clockSkew))
    ensures InWholeSeconds(token.payload) ==> AcceptanceAgrees(cfg, token, jwks, cached, reply, verify)
  {
    hide ConfigFailure, AcceptanceAgrees, Genuine, KeysOf, Render, WellFormed, IsBytes, KeySetReadable, Serves, SameWindow,
         ChecksLead, IdentityLeads, RolesLead, KeyLeads, PlainLits, TimesRead, TimesMeant, InWholeSeconds;
    PlainIsReadable(token);
    PlainKeySetReadable(jwks);
    AcceptedExactly(cfg, token, jwks, cached, reply, verify);
    if InWholeSeconds(token.payload) {
      WholeSecondsReadRight(cfg, token.payload);
    }
  }
}
