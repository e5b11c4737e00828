/** What the key set, audience and role readers of `Jwt` mean on JSON trees. */
module JwtTrees {
  import opened Wrappers
  import opened Text
  import opened JsonScan
  import opened JsonTree
  import opened JsonScanProofs
  import opened JsonExtract
  import opened JsonLookup
  import opened Jwt

  // ------------------------------------------------------------------- key sets

  function JwkOf(obj: Json): Jwk
    requires obj.Obj?
  {
    Jwk(StringMember(obj, "kid").GetOr(""), StringMember(obj, "kty").GetOr(""), StringMember(obj, "alg").GetOr(""),
        StringMember(obj, "n").GetOr(""), StringMember(obj, "e").GetOr(""))
  }

  ghost predicate JwkNamesReached(obj: Json)
    requires obj.Obj?
  {
    KeyReached(obj, "kid") && KeyReached(obj, "kty") && KeyReached(obj, "alg") && KeyReached(obj, "n") && KeyReached(obj, "e")
  }

  function KeysOfElems(es: seq<Elem>): seq<Jwk> {
    if es == [] then []
    else
      (if es[0].value.Obj? && JwkOf(es[0].value).kty != "" then [JwkOf(es[0].value)] else []) + KeysOfElems(es[1..])
  }

  /** The keys of a key set. */
  function KeysOf(jwks: Json): seq<Jwk>
    requires jwks.Obj?
  {
    match Lookup(jwks.members, "keys")
    case Some(m) => if m.value.Arr? then KeysOfElems(m.value.elems) else []
    case None => []
  }

  /** Every name that is read is reached in its object. */
  ghost predicate KeySetReached(jwks: Json)
    requires jwks.Obj?
  {
    && KeyReached(jwks, "keys")
    && (Lookup(jwks.members, "keys").Some? && Lookup(jwks.members, "keys").value.value.Arr? ==>
          ElemsReached(Lookup(jwks.members, "keys").value.value.elems))
  }

  ghost predicate ElemsReached(es: seq<Elem>) {
    es == [] || ((es[0].value.Obj? ==> JwkNamesReached(es[0].value)) && ElemsReached(es[1..]))
  }

  lemma ParseJwkOf(obj: Json)
    requires obj.Obj? && WellFormed(obj) && JwkNamesReached(obj)
    ensures ParseJwk(Render(obj)) == Done(JwkOf(obj))
  {
    hide ExtractString, Render, StringMember, WellFormed, KeyReached;
    ExtractStringMember(obj, "kid");
    ExtractStringMember(obj, "kty");
    ExtractStringMember(obj, "alg");
    ExtractStringMember(obj, "n");
    ExtractStringMember(obj, "e");
  }

  lemma {:induction false} ParseJwksOf(es: seq<Elem>)
    requires WellFormedElems(es) && ElemsReached(es)
    ensures ParseJwks(Slices(es)) == Done(KeysOfElems(es))
  {
    hide ParseJwk, JwkOf, Slice, WellFormed, JwkNamesReached;
    if es != [] {
      var v := es[0].value;
      SliceOpening(v, es[0].after);
      ParseJwksOf(es[1..]);
      assert Slices(es)[1..] == Slices(es[1..]) && Slices(es)[0] == Slice(v, es[0].after);
      assert [] + KeysOfElems(es[1..]) == KeysOfElems(es[1..]);
      if v.Obj? {
        ObjSlice(v, es[0].after);
        ParseJwkOf(v);
        assert ParseJwk(Slices(es)[0]) == Done(JwkOf(v));
      } else {
        assert ParseJwks(Slices(es)) == ParseJwks(Slices(es)[1..]);
      }
    }
  }

  lemma ObjSlice(v: Json, after: string)
    requires v.Obj? || v.Arr?
    ensures Slice(v, after) == Render(v)
  {
  }

  /** For every rendered key set, the keys of the tree are read. */
  lemma {:induction false} KeySetRead(jwks: Json)
    requires jwks.Obj? && WellFormed(jwks) && KeySetReached(jwks)
    ensures ExtractJwks(Render(jwks)) == Done(KeysOf(jwks))
  {
    hide Render, ExtractOpening, SplitElements, ParseJwks, Slices, KeyReached, WellFormed, KeysOfElems;
    ExtractOpeningMember(jwks, "keys", '[');
    ExtractLookup(jwks, "keys");
    match Lookup(jwks.members, "keys")
    case None =>
    case Some(m) =>
      if m.value.Arr? {
        SplitArray(m.value);
        ArrayElems(m.value);
        ParseJwksOf(m.value.elems);
      }
  }

  // ------------------------------------------------------------------- audience

  /** A list of audiences, or a single one. */
  function AudienceOf(payload: Json): seq<string>
    requires payload.Obj?
  {
    var values := StringArrayMember(payload, "aud");
    if values != [] then values
    else match StringMember(payload, "aud") case None => [] case Some(aud) => [aud]
  }

  lemma AudienceRead(payload: Json)
    requires payload.Obj? && WellFormed(payload) && KeyReached(payload, "aud")
    ensures ExtractAudience(Render(payload)) == Done(AudienceOf(payload))
  {
    hide Render, ExtractStringArray, ExtractString, StringArrayMember, StringMember, KeyReached, WellFormed;
    ExtractStringArrayMember(payload, "aud");
    ExtractStringMember(payload, "aud");
  }

  // ----------------------------------------------------------------------- roles

  /** The value of a member, when it is an object. */
  function ObjectMember(obj: Json, k: string): (r: Option<Json>)
    requires obj.Obj?
    ensures r.Some? ==> r.value.Obj?
  {
    match Lookup(obj.members, k)
    case Some(m) => if m.value.Obj? then Some(m.value) else None
    case None => None
  }

  function RealmRoles(payload: Json): seq<string>
    requires payload.Obj?
  {
    match ObjectMember(payload, "realm_access")
    case Some(access) => StringArrayMember(access, "roles")
    case None => []
  }

  /** The roles of the clients, in order. */
  function ClientRolesOf(ms: seq<Member>): seq<string> {
    if ms == [] then []
    else (if ms[0].value.Obj? then StringArrayMember(ms[0].value, "roles") else []) + ClientRolesOf(ms[1..])
  }

  function ResourceRoles(payload: Json): seq<string>
    requires payload.Obj?
  {
    match ObjectMember(payload, "resource_access")
    case Some(access) => ClientRolesOf(access.members)
    case None => []
  }

  /** Realm roles and then client roles, without later duplicates. */
  function RolesOf(payload: Json): seq<string>
    requires payload.Obj?
  {
    FirstOccurrences(RealmRoles(payload) + ResourceRoles(payload))
  }

  function FirstOccurrences(xs: seq<string>): seq<string> {
    if xs == [] then []
    else
      var front, last := xs[..|xs| - 1], xs[|xs| - 1];
      FirstOccurrences(front) + if last in front then [] else [last]
  }

  /** The result holds every role, and none twice. */
  lemma {:induction false} FirstOccurrencesExact(xs: seq<string>)
    ensures forall x :: x in FirstOccurrences(xs) <==> x in xs
    ensures forall i, j :: 0 <= i < j < |FirstOccurrences(xs)| ==> FirstOccurrences(xs)[i] != FirstOccurrences(xs)[j]
  {
    if xs != [] {
      FirstOccurrencesExact(xs[..|xs| - 1]);
      assert xs == xs[..|xs| - 1] + [xs[|xs| - 1]];
    }
  }

  lemma OneMore(front: seq<string>, x: string)
    ensures FirstOccurrences(front + [x])
         == if x in FirstOccurrences(front) then FirstOccurrences(front) else FirstOccurrences(front) + [x]
  {
  }

  /** Appending without duplicates to what has no duplicates. */
  lemma {:induction false} AppendUniqueMeans(front: seq<string>, xs: seq<string>)
    ensures AppendUnique(FirstOccurrences(front), xs) == FirstOccurrences(front + xs)
    decreases xs
  {
    hide FirstOccurrences;
    if xs == [] {
      assert front + xs == front;
    } else {
      OneMore(front, xs[0]);
      AppendUniqueMeans(front + [xs[0]], xs[1..]);
      assert front + xs == (front + [xs[0]]) + xs[1..];
    }
  }

  ghost predicate ClientsReached(ms: seq<Member>) {
    ms == [] || ((ms[0].value.Obj? ==> KeyReached(ms[0].value, "roles")) && ClientsReached(ms[1..]))
  }

  /** Every name that the role reader looks up is reached in its object. */
  ghost predicate RolesReached(payload: Json)
    requires payload.Obj?
  {
    && KeyReached(payload, "realm_access") && KeyReached(payload, "resource_access")
    && (ObjectMember(payload, "realm_access").Some? ==> KeyReached(ObjectMember(payload, "realm_access").value, "roles"))
    && (ObjectMember(payload, "resource_access").Some? ==> ClientsReached(ObjectMember(payload, "resource_access").value.members))
  }

  /** The loop over `resource_access` stops at each member with its value's slice. */
  lemma MemberScanned(gap: string, ms: seq<Member>)
    requires ms != [] && AllSpace(gap) && WellFormedMembers(ms)
    ensures ScanMember(gap + RenderMembers(ms))
         == Done(FoundMember(Slice(ms[0].value, ms[0].after), if |ms| == 1 then "}" else RenderMembers(ms[1..])))
  {
    hide ScanKey, ScanSlice, Render, Slice, WellFormed, RenderMembers;
    var m := ms[0];
    KeyScanned(gap, ms);
    SliceScanned(m.value, m.after, MembersTail(ms));
    TailDelimiter(ms);
    TailRest(ms);
  }

  lemma TailRest(ms: seq<Member>)
    requires ms != []
    ensures (if MembersTail(ms)[0] == ',' then MembersTail(ms)[1..] else MembersTail(ms))
         == if |ms| == 1 then "}" else RenderMembers(ms[1..])
  {
  }

  lemma KeyScanned(gap: string, ms: seq<Member>)
    requires ms != [] && AllSpace(gap) && WellFormedMembers(ms)
    ensures ScanKey(gap + RenderMembers(ms)) == Some(Render(ms[0].value) + (ms[0].after + MembersTail(ms)))
    ensures AllSpace(ms[0].after) && WellFormed(ms[0].value) && MembersTail(ms) != "" && IsDelimiter(MembersTail(ms)[0])
  {
    hide AfterWs, Render, KeyText, WellFormed, AfterString, AfterKey, Quoted, MembersTail;
    var m := ms[0];
    var t := KeyText(ms);
    var v := Render(m.value) + (m.after + MembersTail(ms));
    var s := gap + RenderMembers(ms);
    assert s == gap + (m.before + t);
    KeyStarts(ms);
    AfterWsSpaces(gap, m.before + t);
    AfterWsAt(m.before, t);
    KeyTextShape(ms, "");
    assert KeyText(ms) + "" == KeyText(ms) && MembersTail(ms) + "" == MembersTail(ms);
    KeyScan(m, m.colonAfter + v);
    TailDelimiter(ms);
    ValueStarts(m.value, m.after + MembersTail(ms));
    AfterWsAt(m.colonAfter, v);
  }

  lemma ValueStarts(v: Json, rest: string)
    requires WellFormed(v)
    ensures Render(v) + rest != "" && !IsSpace((Render(v) + rest)[0])
  {
  }

  lemma SliceScanned(v: Json, after: string, tail: string)
    requires WellFormed(v) && AllSpace(after) && tail != "" && IsDelimiter(tail[0])
    ensures ScanSlice(Render(v) + (after + tail))
         == Done(FoundMember(Slice(v, after), if tail[0] == ',' then tail[1..] else tail))
  {
    hide AfterValue, AfterWs, Render, Slice, WellFormed;
    SliceScan(v, after, tail);
  }

  lemma KeyStarts(ms: seq<Member>)
    requires ms != [] && WellFormedMembers(ms)
    ensures |KeyText(ms)| > 1 && KeyText(ms)[0] == '"' && |AfterString(KeyText(ms))| < |KeyText(ms)|
  {
  }

  /** One round of the loop over the clients. */
  lemma ClientStep(s: string, roles: seq<string>, m: MemberScan)
    requires ScanMember(s) == Done(m)
    ensures m.NoMember? ==> ClientRoles(s, roles) == Done(roles)
    ensures m.FoundMember? && m.value[0] != '{' ==> ClientRoles(s, roles) == ClientRoles(m.next, roles)
    ensures m.FoundMember? && m.value[0] == '{' && WithRoles(roles, m.value).Done? ==>
              ClientRoles(s, roles) == ClientRoles(m.next, WithRoles(roles, m.value).value)
  {
  }

  /** The roles behind one client. */
  lemma ClientRead(m: Member, front: seq<string>)
    requires WellFormed(m.value) && (m.value.Obj? ==> KeyReached(m.value, "roles"))
    ensures var own := if m.value.Obj? then StringArrayMember(m.value, "roles") else [];
      && Slice(m.value, m.after) != ""
      && (Slice(m.value, m.after)[0] == '{' ==>
            WithRoles(FirstOccurrences(front), Slice(m.value, m.after)) == Done(FirstOccurrences(front + own)))
      && (Slice(m.value, m.after)[0] != '{' ==> FirstOccurrences(front) == FirstOccurrences(front + own))
  {
    hide FirstOccurrences, AppendUnique, ExtractStringArray, StringArrayMember, KeyReached, Render, Slice, WellFormed;
    SliceOpening(m.value, m.after);
    if m.value.Obj? {
      ObjSlice(m.value, m.after);
      ExtractStringArrayMember(m.value, "roles");
      AppendUniqueMeans(front, StringArrayMember(m.value, "roles"));
    } else {
      assert front + [] == front;
    }
  }

  lemma {:induction false} ClientRolesRead(gap: string, ms: seq<Member>, front: seq<string>)
    requires AllSpace(gap) && WellFormedMembers(ms) && ClientsReached(ms)
    ensures ClientRoles(gap + RenderMembers(ms), FirstOccurrences(front))
         == Done(FirstOccurrences(front + ClientRolesOf(ms)))
    decreases ms
  {
    hide ScanMember, ClientRoles, ClientRolesOf, WithRoles, FirstOccurrences, StringArrayMember, KeyReached, RenderMembers, Slice,
         WellFormed;
    if ms == [] {
      NoMembers(gap);
      NoMemberText();
      ClientStep(gap + RenderMembers(ms), FirstOccurrences(front), NoMember);
      NoClients(front);
    } else {
      var m := ms[0];
      var own := if m.value.Obj? then StringArrayMember(m.value, "roles") else [];
      var next := if |ms| == 1 then "}" else RenderMembers(ms[1..]);
      MemberScanned(gap, ms);
      ClientStep(gap + RenderMembers(ms), FirstOccurrences(front), FoundMember(Slice(m.value, m.after), next));
      ClientRead(m, front);
      NoMemberText();
      ClientRolesRead("", ms[1..], front + own);
      assert "" + next == next && (|ms| == 1 ==> ms[1..] == []);
      OneClient(front, ms);
    }
  }

  lemma NoClients(front: seq<string>)
    ensures front + ClientRolesOf([]) == front
  {
  }

  lemma OneClient(front: seq<string>, ms: seq<Member>)
    requires ms != []
    ensures var own := if ms[0].value.Obj? then StringArrayMember(ms[0].value, "roles") else [];
      front + ClientRolesOf(ms) == (front + own) + ClientRolesOf(ms[1..])
  {
  }

  lemma NoMemberText()
    ensures RenderMembers([]) == "}"
  {
  }

  lemma NoMembers(gap: string)
    requires AllSpace(gap)
    ensures ScanMember(gap + "}") == Done(NoMember)
  {
    AfterWsAt(gap, "}");
  }

  lemma ResourceRead(access: Json, front: seq<string>)
    requires access.Obj? && WellFormed(access) && ClientsReached(access.members)
    ensures ClientRoles(Render(access)[1..], FirstOccurrences(front))
         == Done(FirstOccurrences(front + ClientRolesOf(access.members)))
  {
    hide ClientRoles, FirstOccurrences;
    assert Render(access)[1..] == access.gap + RenderMembers(access.members);
    ClientRolesRead(access.gap, access.members, front);
  }

  /** Role collection: exactly the realm roles followed by the client roles in order, later
      duplicates dropped. */
  lemma {:induction false} RolesRead(payload: Json)
    requires payload.Obj? && WellFormed(payload) && RolesReached(payload)
    ensures ExtractRoles(Render(payload)) == Done(RolesOf(payload))
  {
    hide Render, ExtractOpening, ExtractStringArray, StringArrayMember, KeyReached, WellFormed, ClientRoles, FirstOccurrences, AppendUnique, ClientsReached, ClientRolesOf;
    ExtractOpeningMember(payload, "realm_access", '{');
    ExtractOpeningMember(payload, "resource_access", '{');
    ExtractLookup(payload, "realm_access");
    ExtractLookup(payload, "resource_access");
    var front := RealmRoles(payload);
    NothingOccurs();
    if ObjectMember(payload, "realm_access").Some? {
      ExtractStringArrayMember(ObjectMember(payload, "realm_access").value, "roles");
      AppendUniqueMeans([], front);
      assert [] + front == front;
    }
    if ObjectMember(payload, "resource_access").Some? {
      ResourceRead(ObjectMember(payload, "resource_access").value, front);
    } else {
      assert front + [] == front;
    }
  }

  lemma NothingOccurs()
    ensures FirstOccurrences([]) == []
  {
  }

  /** The roles are the union of all role lists, each role once. */
  lemma RolesAreUnion(payload: Json)
    requires payload.Obj?
    ensures forall r :: r in RolesOf(payload) <==> r in RealmRoles(payload) || r in ResourceRoles(payload)
    ensures forall i, j :: 0 <= i < j < |RolesOf(payload)| ==> RolesOf(payload)[i] != RolesOf(payload)[j]
  {
    FirstOccurrencesExact(RealmRoles(payload) + ResourceRoles(payload));
  }
}
