/** Over any run of callbacks and logouts, a logout revokes exactly the refresh token of
    the realm's latest callback since its last logout. */
module CookieRuns {
  import opened Wrappers
  import opened Text
  import opened Forms
  import opened Cookies
  import opened AuthHandler
  import opened CookieSession
  import UrlEncode

  type Jar = map<string, string>

  /** What happens to the browser: a successful callback, or a logout. */
  datatype Event = LoggedIn(realm: string, tokens: TokenSet) | LoggedOff(realm: string)
  {
    predicate IsBytes() {
      Text.IsBytes(realm) && (LoggedIn? ==> tokens.IsBytes())
    }
  }

  predicate AllBytes(events: seq<Event>) {
    forall i :: 0 <= i < |events| ==> events[i].IsBytes()
  }

  function AccessName(config: HandlerConfig, realm: string): string {
    config.tokenCookies.accessTokenName + "_" + realm
  }

  function RefreshName(config: HandlerConfig, realm: string): string {
    config.tokenCookies.refreshTokenName + "_" + realm
  }

  /** The attributes cannot be taken apart. */
  predicate Plain(config: HandlerConfig) {
    NamesAreBytes(config.tokenCookies) && ';' !in config.tokenCookies.path && ';' !in config.tokenCookies.sameSite
  }

  /** Neither base name with its underscore is longer and begins with the other. */
  predicate KeptApart(config: HandlerConfig) {
    !(AccessName(config, "") < RefreshName(config, "")) && !(RefreshName(config, "") < AccessName(config, ""))
  }

  lemma DefaultNamesAreApart(config: HandlerConfig)
    requires config.tokenCookies.accessTokenName == "access_token"
    requires config.tokenCookies.refreshTokenName == "refresh_token"
    ensures KeptApart(config)
  {
    var a, r := config.tokenCookies.accessTokenName, config.tokenCookies.refreshTokenName;
    assert a[0] == 'a' && r[0] == 'r';
    assert AccessName(config, "")[0] == 'a' && RefreshName(config, "")[0] == 'r';
  }

  function ReceiveAll(jar: Jar, cookies: seq<string>): Jar
    decreases cookies
  {
    if cookies == [] then jar else ReceiveAll(Receive(jar, cookies[0]), cookies[1..])
  }

  /** The browser's jar after the headers of every response so far. */
  function JarAfter(config: HandlerConfig, events: seq<Event>): Jar
    requires Plain(config) && AllBytes(events)
  {
    if events == [] then map[]
    else
      var last := events[|events| - 1];
      var jar := JarAfter(config, events[..|events| - 1]);
      ReceiveAll(jar, if last.LoggedIn? then TokenCookies(config, last.realm, last.tokens)
                      else ClearedCookies(config, last.realm))
  }

  /** The refresh token of the latest callback for the realm since its last logout. */
  function Latest(events: seq<Event>, realm: string): Option<string> {
    if events == [] then None
    else
      var last := events[|events| - 1];
      if last.realm != realm then Latest(events[..|events| - 1], realm)
      else if last.LoggedIn? then Some(last.tokens.refreshToken) else None
  }

  // ------------------------------------------------- the jar and what it stands for

  /** The jar holds the cookies of `m`, encoded, and nothing else. */
  ghost predicate Holds(jar: Jar, m: map<string, string>) {
    (forall n :: n in m ==> HoldsCookie(jar, n, m[n])) && forall k :: k in jar ==> IsEncoded(k, m)
  }

  predicate HoldsCookie(jar: Jar, name: string, value: string) {
    && name != "" && IsBytes(name) && IsBytes(value)
    && UrlEncode.Encode(name) in jar && jar[UrlEncode.Encode(name)] == UrlEncode.Encode(value)
  }

  ghost predicate IsEncoded(k: string, m: map<string, string>) {
    exists n :: n in m && IsBytes(n) && k == UrlEncode.Encode(n)
  }

  lemma {:induction false} HoldsUpdate(jar: Jar, m: map<string, string>, name: string, value: string)
    requires Holds(jar, m) && name != "" && IsBytes(name) && IsBytes(value)
    ensures Holds(jar[UrlEncode.Encode(name) := UrlEncode.Encode(value)], m[name := value])
  {
    hide UrlEncode.Encode, IsEncoded;
    var key := UrlEncode.Encode(name);
    var jar', m' := jar[key := UrlEncode.Encode(value)], m[name := value];
    forall n | n in m' ensures HoldsCookie(jar', n, m'[n]) {
      if n != name && UrlEncode.Encode(n) == key {
        UrlEncode.EncodeInjective(n, name);
      }
    }
    forall k | k in jar' ensures IsEncoded(k, m') {
      EncodedUpdate(k, m, name, value);
    }
  }

  lemma EncodedUpdate(k: string, m: map<string, string>, name: string, value: string)
    requires IsBytes(name) && (k == UrlEncode.Encode(name) || IsEncoded(k, m))
    ensures IsEncoded(k, m[name := value])
  {
  }

  lemma {:induction false} HoldsRemove(jar: Jar, m: map<string, string>, name: string)
    requires Holds(jar, m) && name != "" && IsBytes(name)
    ensures Holds(jar - {UrlEncode.Encode(name)}, m - {name})
  {
    hide UrlEncode.Encode;
    var jar', m' := jar - {UrlEncode.Encode(name)}, m - {name};
    forall n | n in m' ensures UrlEncode.Encode(n) in jar' {
      if UrlEncode.Encode(n) == UrlEncode.Encode(name) {
        UrlEncode.EncodeInjective(n, name);
      }
    }
    forall k | k in jar' ensures IsEncoded(k, m') {
      assert IsEncoded(k, m);
      var n :| n in m && IsBytes(n) && k == UrlEncode.Encode(n);
      assert n in m';
    }
  }

  /** The cookies without their encoding. */
  function Decoded(config: HandlerConfig, events: seq<Event>): map<string, string> {
    if events == [] then map[]
    else
      var last := events[|events| - 1];
      var m := Decoded(config, events[..|events| - 1]);
      if last.LoggedIn? then
        m[AccessName(config, last.realm) := last.tokens.accessToken][RefreshName(config, last.realm) := last.tokens.refreshToken]
      else m - {AccessName(config, last.realm)} - {RefreshName(config, last.realm)}
  }

  lemma TwoReceived(jar: Jar, a: string, b: string)
    ensures ReceiveAll(jar, [a, b]) == Receive(Receive(jar, a), b)
  {
    assert [a, b][1..] == [b] && [b][1..] == [];
    assert ReceiveAll(Receive(jar, a), [b]) == Receive(Receive(jar, a), b);
  }

  lemma RealmNames(config: HandlerConfig, realm: string)
    requires Plain(config) && IsBytes(realm)
    ensures var c := RealmCookies(config, realm);
      && c.accessTokenName == AccessName(config, realm) && c.refreshTokenName == RefreshName(config, realm)
      && c.path == config.tokenCookies.path && c.sameSite == config.tokenCookies.sameSite
    ensures IsBytes(AccessName(config, realm)) && IsBytes(RefreshName(config, realm))
  {
  }

  lemma LoggedInJar(config: HandlerConfig, jar: Jar, m: map<string, string>, realm: string, t: TokenSet)
    requires Plain(config) && Holds(jar, m) && IsBytes(realm) && t.IsBytes()
    ensures Holds(ReceiveAll(jar, TokenCookies(config, realm, t)),
                  m[AccessName(config, realm) := t.accessToken][RefreshName(config, realm) := t.refreshToken])
  {
    hide UrlEncode.Encode, Receive, SetCookie, Holds, ReceiveAll;
    RealmNames(config, realm);
    var c := RealmCookies(config, realm);
    var a, r := TokenCookieOptions(c, t.expiresIn), TokenCookieOptions(c, t.refreshExpiresIn);
    var jar1 := Receive(jar, SetCookie(AccessName(config, realm), t.accessToken, a));
    ReceiveSetCookie(jar, AccessName(config, realm), t.accessToken, a);
    HoldsUpdate(jar, m, AccessName(config, realm), t.accessToken);
    ReceiveSetCookie(jar1, RefreshName(config, realm), t.refreshToken, r);
    HoldsUpdate(jar1, m[AccessName(config, realm) := t.accessToken], RefreshName(config, realm), t.refreshToken);
    TwoReceived(jar, SetCookie(AccessName(config, realm), t.accessToken, a), SetCookie(RefreshName(config, realm), t.refreshToken, r));
  }

  lemma LoggedOffJar(config: HandlerConfig, jar: Jar, m: map<string, string>, realm: string)
    requires Plain(config) && Holds(jar, m) && IsBytes(realm)
    ensures Holds(ReceiveAll(jar, ClearedCookies(config, realm)), m - {AccessName(config, realm)} - {RefreshName(config, realm)})
  {
    hide UrlEncode.Encode, Receive, SetCookie, Holds, ReceiveAll;
    RealmNames(config, realm);
    var o := TokenCookieOptions(RealmCookies(config, realm), 0).(maxAge := Some(0));
    var jar1 := Receive(jar, SetCookie(AccessName(config, realm), "", o));
    ReceiveSetCookie(jar, AccessName(config, realm), "", o);
    HoldsRemove(jar, m, AccessName(config, realm));
    ReceiveSetCookie(jar1, RefreshName(config, realm), "", o);
    HoldsRemove(jar1, m - {AccessName(config, realm)}, RefreshName(config, realm));
    TwoReceived(jar, SetCookie(AccessName(config, realm), "", o), SetCookie(RefreshName(config, realm), "", o));
  }

  lemma {:induction false} JarHolds(config: HandlerConfig, events: seq<Event>)
    requires Plain(config) && AllBytes(events)
    ensures Holds(JarAfter(config, events), Decoded(config, events))
  {
    hide ReceiveAll, TokenCookies, ClearedCookies;
    if events != [] {
      hide Holds;
      var last, front := events[|events| - 1], events[..|events| - 1];
      JarHolds(config, front);
      if last.LoggedIn? {
        LoggedInJar(config, JarAfter(config, front), Decoded(config, front), last.realm, last.tokens);
      } else {
        LoggedOffJar(config, JarAfter(config, front), Decoded(config, front), last.realm);
      }
    }
  }

  lemma NamesDiffer(config: HandlerConfig, realm: string, other: string)
    requires KeptApart(config) && realm != other
    ensures RefreshName(config, realm) != AccessName(config, other)
    ensures RefreshName(config, realm) != RefreshName(config, other)
    ensures AccessName(config, realm) != AccessName(config, other)
  {
    var a, r := AccessName(config, ""), RefreshName(config, "");
    NameParts(config, realm);
    NameParts(config, other);
    assert (r + realm)[..|r|] == r && (a + other)[..|a|] == a;
    assert |a| <= |r| ==> (r + realm)[..|a|] == r[..|a|];
    assert |r| <= |a| ==> (a + other)[..|r|] == a[..|r|];
  }

  lemma NameParts(config: HandlerConfig, realm: string)
    ensures AccessName(config, realm) == AccessName(config, "") + realm
    ensures RefreshName(config, realm) == RefreshName(config, "") + realm
    ensures AccessName(config, realm)[|AccessName(config, "")|..] == realm
    ensures RefreshName(config, realm)[|RefreshName(config, "")|..] == realm
  {
  }

  lemma {:induction false} RefreshCookie(config: HandlerConfig, events: seq<Event>, realm: string)
    requires KeptApart(config)
    ensures Latest(events, realm).None? ==> RefreshName(config, realm) !in Decoded(config, events)
    ensures Latest(events, realm).Some? ==>
              RefreshName(config, realm) in Decoded(config, events) && Decoded(config, events)[RefreshName(config, realm)] == Latest(events, realm).value
  {
    hide AccessName, RefreshName;
    if events != [] {
      var last := events[|events| - 1];
      RefreshCookie(config, events[..|events| - 1], realm);
      if realm != last.realm {
        NamesDiffer(config, realm, last.realm);
      }
    }
  }

  // ------------------------------------------------------------------- the request

  /** The jar's cookies in the order in which the browser happens to send them. */
  predicate Lists(order: seq<string>, jar: Jar) {
    (forall i :: 0 <= i < |order| ==> order[i] in jar) && forall k :: k in jar ==> k in order
  }

  function RawPairs(order: seq<string>, jar: Jar): seq<string>
    requires forall i :: 0 <= i < |order| ==> order[i] in jar
  {
    if order == [] then [] else [" " + order[0] + "=" + jar[order[0]]] + RawPairs(order[1..], jar)
  }

  /** The Cookie header, or none when the jar is empty. */
  function SentHeader(order: seq<string>, jar: Jar): Option<string>
    requires forall i :: 0 <= i < |order| ==> order[i] in jar
  {
    if order == [] then None
    else Some(Join([order[0] + "=" + jar[order[0]]] + RawPairs(order[1..], jar), ';'))
  }

  lemma {:induction false} PairsOf(order: seq<string>, jar: Jar, m: map<string, string>) returns (pairs: seq<Field>)
    requires Holds(jar, m) && forall i :: 0 <= i < |order| ==> order[i] in jar
    ensures |pairs| == |order| && Named(pairs) && Spaced(pairs) == RawPairs(order, jar)
    ensures forall i :: 0 <= i < |order| ==> pairs[i].0 in m && pairs[i].1 == m[pairs[i].0]
    ensures forall i :: 0 <= i < |order| ==> UrlEncode.Encode(pairs[i].0) == order[i]
  {
    if order == [] {
      return [];
    }
    hide *;
    var rest := PairsOf(order[1..], jar, m);
    var pair := PairOf(order[0], jar, m);
    pairs := [pair] + rest;
    PairsCons(order, jar, m, pair, rest);
  }

  lemma PairsCons(order: seq<string>, jar: Jar, m: map<string, string>, pair: Field, rest: seq<Field>)
    requires order != [] && |rest| == |order| - 1 && Named(rest) && (forall i :: 0 <= i < |order| ==> order[i] in jar)
    requires Spaced(rest) == RawPairs(order[1..], jar)
    requires forall i :: 0 <= i < |rest| ==> rest[i].0 in m && rest[i].1 == m[rest[i].0]
    requires forall i :: 0 <= i < |rest| ==> UrlEncode.Encode(rest[i].0) == order[1..][i]
    requires pair.0 in m && pair.1 == m[pair.0] && pair.0 != "" && IsBytes(pair.0) && IsBytes(pair.1)
    requires UrlEncode.Encode(pair.0) == order[0]
    requires " " + CookiePair(pair.0, pair.1) == " " + order[0] + "=" + jar[order[0]]
    ensures var pairs := [pair] + rest;
      && Named(pairs) && Spaced(pairs) == RawPairs(order, jar)
      && (forall i :: 0 <= i < |order| ==> pairs[i].0 in m && pairs[i].1 == m[pairs[i].0])
      && (forall i :: 0 <= i < |order| ==> UrlEncode.Encode(pairs[i].0) == order[i])
  {
  }

  lemma PairOf(k: string, jar: Jar, m: map<string, string>) returns (pair: Field)
    requires Holds(jar, m) && k in jar
    ensures pair.0 in m && pair.1 == m[pair.0] && pair.0 != "" && IsBytes(pair.0) && IsBytes(pair.1)
    ensures UrlEncode.Encode(pair.0) == k && " " + CookiePair(pair.0, pair.1) == " " + k + "=" + jar[k]
  {
    hide UrlEncode.Encode;
    assert IsEncoded(k, m);
    var n :| n in m && IsBytes(n) && k == UrlEncode.Encode(n);
    assert HoldsCookie(jar, n, m[n]);
    pair := (n, m[n]);
  }

  lemma {:induction false} InsertedPairs(pairs: seq<Field>, base: map<string, string>, m: map<string, string>)
    requires forall i :: 0 <= i < |pairs| ==> pairs[i].0 in m && pairs[i].1 == m[pairs[i].0]
    requires forall n :: n in base ==> n in m && base[n] == m[n]
    ensures var r := InsertAll(pairs, base);
      && (forall n :: n in r ==> n in m && r[n] == m[n])
      && (forall n :: n in base ==> n in r)
      && (forall i :: 0 <= i < |pairs| ==> pairs[i].0 in r)
    decreases pairs
  {
    if pairs != [] {
      InsertedPairs(pairs[1..], base[pairs[0].0 := pairs[0].1], m);
      forall i | 0 <= i < |pairs| ensures pairs[i].0 in InsertAll(pairs, base) {
        assert i > 0 ==> pairs[i] == pairs[1..][i - 1];
      }
    }
  }

  /** Whatever the order, the handler reads back the cookies. */
  lemma HeaderReadBack(order: seq<string>, jar: Jar, m: map<string, string>)
    requires Holds(jar, m) && Lists(order, jar)
    ensures var header := SentHeader(order, jar);
      (if header.None? then map[] else ParseCookies(header.value)) == m
  {
    hide UrlEncode.Encode, ParseCookies;
    var pairs := PairsOf(order, jar, m);
    InsertedPairs(pairs, map[], m);
    forall n | n in m ensures n in InsertAll(pairs, map[]) {
      assert UrlEncode.Encode(n) in order;
      var i :| 0 <= i < |order| && order[i] == UrlEncode.Encode(n);
      UrlEncode.EncodeInjective(n, pairs[i].0);
    }
    assert InsertAll(pairs, map[]) == m;
    if order != [] {
      CookieRoundTrip(pairs);
      HeaderText(order, jar, pairs);
    }
  }

  lemma HeaderText(order: seq<string>, jar: Jar, pairs: seq<Field>)
    requires order != [] && (forall i :: 0 <= i < |order| ==> order[i] in jar)
    requires |pairs| == |order| && Named(pairs) && Spaced(pairs) == RawPairs(order, jar)
    ensures SentHeader(order, jar) == Some(CookieHeader(pairs))
  {
    hide UrlEncode.Encode;
    var a, b := " " + CookiePair(pairs[0].0, pairs[0].1), " " + order[0] + "=" + jar[order[0]];
    assert Spaced(pairs)[0] == a && RawPairs(order, jar)[0] == b;
    assert a[1..] == CookiePair(pairs[0].0, pairs[0].1) && b[1..] == order[0] + "=" + jar[order[0]];
    assert Spaced(pairs)[1..] == Spaced(pairs[1..]) && RawPairs(order, jar)[1..] == RawPairs(order[1..], jar);
  }

  lemma QueryRealm(realm: string)
    requires IsBytes(realm)
    ensures FieldsOfBytes([("realm", realm)])
    ensures ParseForm(FormBody([("realm", realm)])) == map["realm" := realm]
  {
    hide ParseForm, FormBody;
    var fields := [("realm", realm)];
    FormRoundTrip(fields);
    assert fields[1..] == [];
    assert InsertAll(fields, map[]) == InsertAll([], map["realm" := realm]);
  }

  // -------------------------------------------------------------- logouts of every run

  /** A logout revokes the non-empty refresh token of the realm's latest callback since its
      last logout, when tokens are to be revoked, and otherwise none. */
  ghost predicate LogoutIsRight(config: HandlerConfig, known: set<string>, events: seq<Event>, realm: string, order: seq<string>)
    requires Plain(config) && AllBytes(events) && IsBytes(realm) && Lists(order, JarAfter(config, events))
  {
    QueryRealm(realm);
    LogoutOf(config, known, FormBody([("realm", realm)]), SentHeader(order, JarAfter(config, events)))
      == LoggedOut(realm, if !config.revokeOnLogout || Latest(events, realm) == Some("") then None else Latest(events, realm))
  }

  /** So do all logouts of known realms behind all runs, with the cookies sent in any order. */
  ghost predicate LogoutsAreRight(config: HandlerConfig)
    requires Plain(config)
  {
    forall known: set<string>, events: seq<Event>, realm: string, order: seq<string> ::
      AllBytes(events) && realm in known && realm != "" && IsBytes(realm) && Lists(order, JarAfter(config, events))
      ==> LogoutIsRight(config, known, events, realm, order)
  }

  lemma LogoutReads(config: HandlerConfig, known: set<string>, events: seq<Event>, realm: string, order: seq<string>)
    requires Plain(config) && AllBytes(events) && IsBytes(realm) && realm in known && realm != ""
    requires Lists(order, JarAfter(config, events))
    ensures FieldsOfBytes([("realm", realm)])
    ensures var cookies, name := Decoded(config, events), RefreshName(config, realm);
      LogoutOf(config, known, FormBody([("realm", realm)]), SentHeader(order, JarAfter(config, events)))
        == LoggedOut(realm, if config.revokeOnLogout && name in cookies && cookies[name] != "" then Some(cookies[name]) else None)
  {
    hide JarAfter, ParseForm, ParseCookies, FormBody, SentHeader, Decoded;
    QueryRealm(realm);
    JarHolds(config, events);
    HeaderReadBack(order, JarAfter(config, events), Decoded(config, events));
  }

  lemma {:induction false} LogoutRevokesLatest(config: HandlerConfig, known: set<string>, events: seq<Event>, realm: string, order: seq<string>)
    requires Plain(config) && KeptApart(config) && AllBytes(events)
    requires realm in known && realm != "" && IsBytes(realm)
    requires Lists(order, JarAfter(config, events))
    ensures LogoutIsRight(config, known, events, realm, order)
  {
    hide JarAfter, FormBody, SentHeader, RefreshName, LogoutOf, KeptApart;
    LogoutReads(config, known, events, realm, order);
    RefreshCookie(config, events, realm);
  }

  /** Otherwise the access cookie of one realm is the refresh cookie of another. */
  lemma Collision(config: HandlerConfig) returns (realm: string, other: string)
    requires Plain(config) && !KeptApart(config)
    ensures realm != other && realm != "" && other != "" && IsBytes(realm) && IsBytes(other)
    ensures AccessName(config, other) == RefreshName(config, realm)
  {
    var a, r := AccessName(config, ""), RefreshName(config, "");
    realm, other := "x", "x";
    if a < r {
      other := r[|a|..] + realm;
      assert a + other == r + realm;
    } else {
      realm := a[|r|..] + other;
      assert a + other == r + realm;
    }
    NameParts(config, realm);
    NameParts(config, other);
  }

  lemma {:induction false} SomeOrder(jar: Jar) returns (order: seq<string>)
    ensures Lists(order, jar)
    decreases |jar.Keys|
  {
    if jar == map[] {
      return [];
    }
    var k :| k in jar;
    assert (jar - {k}).Keys == jar.Keys - {k};
    var rest := SomeOrder(jar - {k});
    order := [k] + rest;
    assert forall x :: x in jar ==> x == k || x in rest;
  }

  /** The logout of the first of two colliding realms revokes the access token of the second. */
  lemma WrongLogout(config: HandlerConfig)
    requires Plain(config) && config.revokeOnLogout && !KeptApart(config)
    ensures !LogoutsAreRight(config)
  {
    hide KeptApart, LogoutOf, JarAfter, FormBody, SentHeader, AccessName, RefreshName;
    var realm, other := Collision(config);
    var one, two := LoggedIn(realm, TokenSet("p", "q", 1, 1)), LoggedIn(other, TokenSet("s", "t", 1, 1));
    var events := [one, two];
    assert events[..1] == [one] && [one][..0] == [];
    var order := SomeOrder(JarAfter(config, events));
    NameParts(config, realm);
    NameParts(config, other);
    assert RefreshName(config, other) != RefreshName(config, realm);
    assert Decoded(config, events)[RefreshName(config, realm)] == "s";
    assert Latest(events[..1], realm) == Some("q");
    LogoutReads(config, {realm}, events, realm, order);
    assert !LogoutIsRight(config, {realm}, events, realm, order);
  }

  /** Cookie sessions: when tokens are revoked on logout, every logout behind every run
      revokes the right one if and only if the names are kept apart. */
  lemma LogoutsAreRightExactly(config: HandlerConfig)
    requires Plain(config)
    ensures LogoutsAreRight(config) <==> KeptApart(config) || !config.revokeOnLogout
  {
    hide KeptApart, LogoutIsRight, JarAfter, Lists;
    if KeptApart(config) || !config.revokeOnLogout {
      forall known: set<string>, events: seq<Event>, realm: string, order: seq<string> |
        AllBytes(events) && realm in known && realm != "" && IsBytes(realm) && Lists(order, JarAfter(config, events))
        ensures LogoutIsRight(config, known, events, realm, order)
      {
        if KeptApart(config) {
          LogoutRevokesLatest(config, known, events, realm, order);
        } else {
          NothingRevoked(config, known, events, realm, order);
        }
      }
    } else {
      WrongLogout(config);
    }
  }

  lemma NothingRevoked(config: HandlerConfig, known: set<string>, events: seq<Event>, realm: string, order: seq<string>)
    requires Plain(config) && !config.revokeOnLogout && AllBytes(events)
    requires realm in known && realm != "" && IsBytes(realm) && Lists(order, JarAfter(config, events))
    ensures LogoutIsRight(config, known, events, realm, order)
  {
    hide JarAfter, FormBody, SentHeader, LogoutOf;
    LogoutReads(config, known, events, realm, order);
  }

  // ------------------------------------------------------------------- other realms

  /** The cookie of that name is there before if and only if it is there after, with the same value. */
  predicate SameIn(before: Jar, after: Jar, name: string) {
    IsBytes(name) ==>
      var n := UrlEncode.Encode(name);
      (n in after <==> n in before) && (n in before ==> after[n] == before[n])
  }

  ghost predicate Unchanged(config: HandlerConfig, events: seq<Event>, event: Event, other: string)
    requires Plain(config) && AllBytes(events) && event.IsBytes()
  {
    var before, after := JarAfter(config, events), JarAfter(config, events + [event]);
    SameIn(before, after, AccessName(config, other)) && SameIn(before, after, RefreshName(config, other))
  }

  /** No event behind any run changes the cookies of another realm. */
  ghost predicate OthersUnchanged(config: HandlerConfig)
    requires Plain(config)
  {
    forall events: seq<Event>, event: Event, other: string ::
      AllBytes(events) && event.IsBytes() && IsBytes(other) && other != event.realm ==> Unchanged(config, events, event, other)
  }

  lemma OtherUnchanged(config: HandlerConfig, events: seq<Event>, event: Event, other: string)
    requires Plain(config) && KeptApart(config) && AllBytes(events) && event.IsBytes() && IsBytes(other) && other != event.realm
    ensures Unchanged(config, events, event, other)
  {
    hide UrlEncode.Encode, JarAfter, AccessName, RefreshName, Plain, KeptApart;
    var before, after := JarAfter(config, events), JarAfter(config, events + [event]);
    assert (events + [event])[..|events|] == events;
    JarHolds(config, events);
    JarHolds(config, events + [event]);
    NamesDiffer(config, other, event.realm);
    NamesDiffer(config, event.realm, other);
    RealmNames(config, other);
    SameCookie(before, Decoded(config, events), after, Decoded(config, events + [event]), AccessName(config, other));
    SameCookie(before, Decoded(config, events), after, Decoded(config, events + [event]), RefreshName(config, other));
  }

  /** Realms are independent of each other if and only if the names are kept apart. */
  lemma OthersUnchangedExactly(config: HandlerConfig)
    requires Plain(config)
    ensures OthersUnchanged(config) <==> KeptApart(config)
  {
    hide KeptApart, Unchanged, Plain;
    if KeptApart(config) {
      forall events: seq<Event>, event: Event, other: string |
        AllBytes(events) && event.IsBytes() && IsBytes(other) && other != event.realm
        ensures Unchanged(config, events, event, other)
      {
        OtherUnchanged(config, events, event, other);
      }
    } else {
      var realm, other := Collision(config);
      OtherChanged(config, realm, other);
    }
  }

  /** The first login of a realm sets the refresh cookie of a realm that it collides with. */
  lemma OtherChanged(config: HandlerConfig, realm: string, other: string)
    requires Plain(config) && realm != other && IsBytes(realm) && IsBytes(other)
    requires AccessName(config, other) == RefreshName(config, realm)
    ensures !OthersUnchanged(config)
  {
    hide UrlEncode.Encode, JarAfter, AccessName, RefreshName;
    var event := LoggedIn(other, TokenSet("s", "t", 1, 1));
    assert [] + [event] == [event] && [event][..0] == [];
    JarHolds(config, []);
    JarHolds(config, [event]);
    var m := Decoded(config, [event]);
    assert RefreshName(config, realm) in m;
    assert HoldsCookie(JarAfter(config, [event]), RefreshName(config, realm), m[RefreshName(config, realm)]);
    assert !IsEncoded(UrlEncode.Encode(RefreshName(config, realm)), map[]);
    assert JarAfter(config, []) == map[];
    assert !Unchanged(config, [], event, realm);
  }

  lemma {:induction false} SameCookie(before: Jar, m: map<string, string>, after: Jar, m': map<string, string>, name: string)
    requires Holds(before, m) && Holds(after, m') && IsBytes(name)
    requires (name in m <==> name in m') && (name in m ==> m[name] == m'[name])
    ensures SameIn(before, after, name)
  {
    hide UrlEncode.Encode;
    var n := UrlEncode.Encode(name);
    if n in before {
      assert IsEncoded(n, m);
      var x :| x in m && IsBytes(x) && n == UrlEncode.Encode(x);
      UrlEncode.EncodeInjective(x, name);
    }
    if n in after {
      assert IsEncoded(n, m');
      var x :| x in m' && IsBytes(x) && n == UrlEncode.Encode(x);
      UrlEncode.EncodeInjective(x, name);
    }
  }
}
