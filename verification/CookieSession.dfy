/** Runs of callbacks and logouts against a browser's cookie jar (section 5 of RFC 6265). */
module CookieSession {
  import opened Wrappers
  import opened Text
  import opened Forms
  import opened Cookies
  import opened AuthHandler
  import UrlEncode

  // -------------------------------------------------------- the cookie round trip

  /** The Cookie header for name/value pairs: as the browser joins what it was sent. */
  function HeaderParts(pairs: seq<Field>): seq<string>
    requires FieldsOfBytes(pairs)
  {
    if pairs == [] then [] else [CookiePair(pairs[0].0, pairs[0].1)] + Spaced(pairs[1..])
  }

  function Spaced(pairs: seq<Field>): seq<string>
    requires FieldsOfBytes(pairs)
  {
    if pairs == [] then [] else [" " + CookiePair(pairs[0].0, pairs[0].1)] + Spaced(pairs[1..])
  }

  function CookieHeader(pairs: seq<Field>): string
    requires FieldsOfBytes(pairs)
  {
    Join(HeaderParts(pairs), ';')
  }

  lemma TrimClean(s: string)
    requires forall i :: 0 <= i < |s| ==> !IsSpace(s[i])
    ensures Trim(s) == s && Trim(" " + s) == s
  {
  }

  lemma {:induction false} WithPair(cookies: map<string, string>, name: string, value: string)
    requires IsBytes(name) && IsBytes(value) && name != ""
    ensures WithCookie(cookies, CookiePair(name, value)) == cookies[name := value]
    ensures WithCookie(cookies, " " + CookiePair(name, value)) == cookies[name := value]
    ensures ';' !in CookiePair(name, value)
  {
    hide UrlEncode.Encode, UrlEncode.Decode, KeyPart, ValuePart, Trim;
    var n, v := UrlEncode.Encode(name), UrlEncode.Encode(value);
    UrlEncode.EncodeSafe(name);
    UrlEncode.EncodeSafe(value);
    UrlEncode.RoundTrip(name);
    UrlEncode.RoundTrip(value);
    PartsOf(n, v);
    PartsOf(" " + n, v);
    assert " " + CookiePair(name, value) == (" " + n) + "=" + v;
    TrimClean(n);
    TrimClean(v);
  }

  predicate Named(pairs: seq<Field>) {
    FieldsOfBytes(pairs) && forall i :: 0 <= i < |pairs| ==> pairs[i].0 != ""
  }

  lemma {:induction false} WithSpaced(cookies: map<string, string>, pairs: seq<Field>)
    requires Named(pairs)
    ensures WithCookies(cookies, Spaced(pairs)) == InsertAll(pairs, cookies)
    ensures forall p :: p in Spaced(pairs) ==> ';' !in p
    decreases pairs
  {
    hide CookiePair, WithCookie;
    if pairs != [] {
      WithPair(cookies, pairs[0].0, pairs[0].1);
      WithSpaced(cookies[pairs[0].0 := pairs[0].1], pairs[1..]);
      assert Spaced(pairs)[1..] == Spaced(pairs[1..]);
    }
  }

  /** Cookie header round trip: parsing the joined name/value parts gives the pairs inserted in order. */
  lemma CookieRoundTrip(pairs: seq<Field>)
    requires Named(pairs)
    ensures ParseCookies(CookieHeader(pairs)) == InsertAll(pairs, map[])
  {
    hide CookiePair, WithCookie;
    if pairs == [] {
      NothingMore(map[]);
    } else {
      WithPair(map[], pairs[0].0, pairs[0].1);
      WithSpaced(map[pairs[0].0 := pairs[0].1], pairs[1..]);
      assert HeaderParts(pairs)[1..] == Spaced(pairs[1..]);
      SplitJoin(HeaderParts(pairs), ';');
    }
  }

  // ------------------------------------------------------------------ the browser

  /** A received Set-Cookie header: the part up to the first semicolon names the cookie,
      and a lifetime of zero removes it. */
  function Receive(jar: map<string, string>, setCookie: string): map<string, string> {
    var pieces := Split(setCookie, ';');
    var name, value := Trim(KeyPart(pieces[0])), Trim(ValuePart(pieces[0]));
    if Expires(pieces[1..]) then jar - {name} else jar[name := value]
  }

  predicate Expires(attributes: seq<string>) {
    attributes != [] && (Trim(attributes[0]) == "Max-Age=0" || Expires(attributes[1..]))
  }

  function SpacedTexts(attributes: seq<string>): seq<string> {
    if attributes == [] then [] else [" " + attributes[0]] + SpacedTexts(attributes[1..])
  }

  lemma {:induction false} BehindJoined(pair: string, attributes: seq<string>)
    ensures pair + Behind(attributes) == Join([pair] + SpacedTexts(attributes), ';')
    decreases attributes
  {
    if attributes == [] {
      assert [pair] + [] == [pair] && pair + "" == pair;
    } else {
      var a := " " + attributes[0];
      BehindJoined(a, attributes[1..]);
      assert ([pair] + SpacedTexts(attributes))[1..] == [a] + SpacedTexts(attributes[1..]);
      assert "; " + attributes[0] == ";" + a;
      assert pair + (";" + a + Behind(attributes[1..])) == pair + ";" + (a + Behind(attributes[1..]));
    }
  }

  lemma {:induction false} SpacedFree(attributes: seq<string>)
    requires forall a :: a in attributes ==> ';' !in a
    ensures forall p :: p in SpacedTexts(attributes) ==> ';' !in p
  {
    if attributes != [] {
      SpacedFree(attributes[1..]);
    }
  }

  lemma {:induction false} ExpiresConcat(a: seq<string>, b: seq<string>)
    ensures Expires(SpacedTexts(a + b)) <==> Expires(SpacedTexts(a)) || Expires(SpacedTexts(b))
  {
    if a == [] {
      assert a + b == b;
    } else {
      assert (a + b)[1..] == a[1..] + b;
      assert SpacedTexts(a + b)[1..] == SpacedTexts((a + b)[1..]) && SpacedTexts(a)[1..] == SpacedTexts(a[1..]);
      ExpiresConcat(a[1..], b);
    }
  }

  /** A trimmed attribute keeps its first character. */
  lemma {:induction false} TrimKeepsFirst(s: string)
    requires s != "" && !IsSpace(s[0])
    ensures TrimBack(s) != "" && TrimBack(s)[0] == s[0]
  {
    if IsSpace(s[|s| - 1]) {
      TrimKeepsFirst(s[..|s| - 1]);
    }
  }

  lemma OneAttribute(a: string)
    ensures Expires(SpacedTexts([a])) <==> Trim(" " + a) == "Max-Age=0"
    ensures a != "" && !IsSpace(a[0]) && a[0] != 'M' ==> !Expires(SpacedTexts([a]))
  {
    assert [a][1..] == [] && [" " + a][1..] == [];
    if a != "" && !IsSpace(a[0]) {
      assert (" " + a)[1..] == a;
      assert AfterWs(" " + a) == a && "Max-Age=0"[0] == 'M';
      TrimKeepsFirst(a);
    }
  }

  lemma MaxAgeAttribute(n: nat)
    ensures Expires(SpacedTexts(["Max-Age=" + Dec(n)])) <==> n == 0
  {
    var a := "Max-Age=" + Dec(n);
    assert forall i :: 0 <= i < |a| ==> !IsSpace(a[i]);
    TrimClean(a);
    OneAttribute(a);
    if n == 0 {
      assert a == "Max-Age=0";
    } else {
      DecNatNotZero(n);
      assert a[8..] == Dec(n) && "Max-Age=0"[8..] == "0";
    }
  }

  lemma {:induction false} DecNatNotZero(n: nat)
    requires n > 0
    ensures DecNat(n) != "0"
  {
  }

  predicate PlainOptions(o: CookieOptions) {
    ';' !in o.path && ';' !in o.sameSite && (o.maxAge.Some? ==> o.maxAge.value >= 0)
  }

  lemma AttributesExpire(o: CookieOptions)
    requires PlainOptions(o)
    ensures Expires(SpacedTexts(Attributes(o))) <==> o.maxAge == Some(0)
    ensures forall a :: a in Attributes(o) ==> ';' !in a
  {
    hide Expires, SpacedTexts;
    var path := ["Path=" + o.path];
    var age := if o.maxAge.Some? then ["Max-Age=" + Dec(o.maxAge.value)] else [];
    var http := if o.httpOnly then ["HttpOnly"] else [];
    var secure := if o.secure then ["Secure"] else [];
    var site := if o.sameSite != "" then ["SameSite=" + o.sameSite] else [];
    ExpiresConcat(path + age + http + secure, site);
    ExpiresConcat(path + age + http, secure);
    ExpiresConcat(path + age, http);
    ExpiresConcat(path, age);
    OneAttribute("Path=" + o.path);
    OneAttribute("HttpOnly");
    OneAttribute("Secure");
    OneAttribute("SameSite=" + o.sameSite);
    NoAttribute();
    if o.maxAge.Some? {
      MaxAgeAttribute(o.maxAge.value);
      assert ';' !in Dec(o.maxAge.value);
    }
  }

  lemma NoAttribute()
    ensures !Expires(SpacedTexts([]))
  {
  }

  /** What the browser makes of `make_set_cookie`. */
  lemma {:induction false} ReceiveSetCookie(jar: map<string, string>, name: string, value: string, o: CookieOptions)
    requires IsBytes(name) && IsBytes(value) && PlainOptions(o)
    ensures Receive(jar, SetCookie(name, value, o))
         == if o.maxAge == Some(0) then jar - {UrlEncode.Encode(name)}
            else jar[UrlEncode.Encode(name) := UrlEncode.Encode(value)]
  {
    hide UrlEncode.Encode, Attributes, Expires, KeyPart, ValuePart, Behind, Trim, Join, Split;
    var pair := CookiePair(name, value);
    AttributesExpire(o);
    SpacedFree(Attributes(o));
    UrlEncode.EncodeSafe(name);
    UrlEncode.EncodeSafe(value);
    BehindJoined(pair, Attributes(o));
    var parts := [pair] + SpacedTexts(Attributes(o));
    SplitJoin(parts, ';');
    assert parts[1..] == SpacedTexts(Attributes(o));
    PartsOf(UrlEncode.Encode(name), UrlEncode.Encode(value));
    TrimClean(UrlEncode.Encode(name));
    TrimClean(UrlEncode.Encode(value));
  }

  // --------------------------------------------------------------------- the flags

  /** The attributes that the browser reads, each with the blank in front of it. */
  function AttributesOf(setCookie: string): seq<string> {
    Split(setCookie, ';')[1..]
  }

  lemma {:induction false} SpacedIn(attributes: seq<string>, a: string)
    ensures " " + a in SpacedTexts(attributes) <==> a in attributes
  {
    if attributes != [] {
      SpacedIn(attributes[1..], a);
      assert (" " + attributes[0])[1..] == attributes[0] && (" " + a)[1..] == a;
      assert SpacedTexts(attributes) == [" " + attributes[0]] + SpacedTexts(attributes[1..]);
    }
  }

  lemma FlagsOf(o: CookieOptions)
    ensures "HttpOnly" in Attributes(o) <==> o.httpOnly
    ensures "Secure" in Attributes(o) <==> o.secure
  {
    hide Dec;
    var path, site := "Path=" + o.path, "SameSite=" + o.sameSite;
    assert path[0] == 'P' && site[0] == 'S' && site[1] == 'a';
    assert "HttpOnly"[0] == 'H' && "Secure"[0] == 'S' && "Secure"[1] == 'e';
    if o.maxAge.Some? {
      assert ("Max-Age=" + Dec(o.maxAge.value))[0] == 'M';
    }
  }

  /** Whatever the cookie, the browser sees the flags of its options. */
  lemma {:induction false} SetCookieFlags(name: string, value: string, o: CookieOptions)
    requires IsBytes(name) && IsBytes(value) && PlainOptions(o)
    ensures var attributes := AttributesOf(SetCookie(name, value, o));
      (" HttpOnly" in attributes <==> o.httpOnly) && (" Secure" in attributes <==> o.secure)
  {
    hide UrlEncode.Encode, Attributes, Expires, Behind, Join, Split;
    var pair := CookiePair(name, value);
    AttributesExpire(o);
    SpacedFree(Attributes(o));
    UrlEncode.EncodeSafe(name);
    UrlEncode.EncodeSafe(value);
    BehindJoined(pair, Attributes(o));
    SplitJoin([pair] + SpacedTexts(Attributes(o)), ';');
    FlagsOf(o);
    SpacedIn(Attributes(o), "HttpOnly");
    SpacedIn(Attributes(o), "Secure");
    assert " " + "HttpOnly" == " HttpOnly" && " " + "Secure" == " Secure";
  }

  /** The attributes that the options stand for, as a user agent reads them (section 4.1.2 of RFC 6265). */
  function ReadAttributes(path: string, age: Option<int>, httpOnly: bool, secure: bool, sameSite: string): seq<string> {
    [" Path=" + path]
    + (if age.Some? then [" Max-Age=" + Dec(age.value)] else [])
    + (if httpOnly then [" HttpOnly"] else [])
    + (if secure then [" Secure"] else [])
    + (if sameSite != "" then [" SameSite=" + sameSite] else [])
  }

  lemma {:induction false} SpacedConcat(a: seq<string>, b: seq<string>)
    ensures SpacedTexts(a + b) == SpacedTexts(a) + SpacedTexts(b)
  {
    if a == [] {
      assert a + b == b && SpacedTexts(a) == [];
    } else {
      assert (a + b)[1..] == a[1..] + b;
      SpacedConcat(a[1..], b);
      assert [" " + a[0]] + (SpacedTexts(a[1..]) + SpacedTexts(b)) == ([" " + a[0]] + SpacedTexts(a[1..])) + SpacedTexts(b);
    }
  }

  lemma SpacedOne(a: string, b: string)
    ensures SpacedTexts([a + b]) == [" " + a + b] && SpacedTexts([]) == [] && SpacedTexts([a]) == [" " + a]
  {
    assert [a + b][1..] == [] && [a][1..] == [];
    assert " " + (a + b) == " " + a + b;
  }

  lemma AttributesSpaced(o: CookieOptions)
    ensures SpacedTexts(Attributes(o)) == ReadAttributes(o.path, o.maxAge, o.httpOnly, o.secure, o.sameSite)
  {
    hide SpacedTexts, Dec;
    var path := ["Path=" + o.path];
    var age := if o.maxAge.Some? then ["Max-Age=" + Dec(o.maxAge.value)] else [];
    var http := if o.httpOnly then ["HttpOnly"] else [];
    var secure := if o.secure then ["Secure"] else [];
    var site := if o.sameSite != "" then ["SameSite=" + o.sameSite] else [];
    SpacedConcat(path + age + http + secure, site);
    SpacedConcat(path + age + http, secure);
    SpacedConcat(path + age, http);
    SpacedConcat(path, age);
    SpacedOne("Path=", o.path);
    SpacedOne("HttpOnly", "");
    SpacedOne("Secure", "");
    SpacedOne("SameSite=", o.sameSite);
    if o.maxAge.Some? {
      SpacedOne("Max-Age=", Dec(o.maxAge.value));
    }
    assert " " + "Path=" == " Path=" && " " + "Max-Age=" == " Max-Age=" && " " + "SameSite=" == " SameSite=";
    assert " " + "HttpOnly" == " HttpOnly" && " " + "Secure" == " Secure";
  }

  /** A user agent reads the pair and exactly these attributes. */
  lemma {:induction false} SetCookieReads(name: string, value: string, o: CookieOptions)
    requires IsBytes(name) && IsBytes(value) && PlainOptions(o)
    ensures Split(SetCookie(name, value, o), ';')[0] == UrlEncode.Encode(name) + "=" + UrlEncode.Encode(value)
    ensures AttributesOf(SetCookie(name, value, o)) == ReadAttributes(o.path, o.maxAge, o.httpOnly, o.secure, o.sameSite)
  {
    hide UrlEncode.Encode, Attributes, Expires, Behind, Join, Split, ReadAttributes;
    var pair := CookiePair(name, value);
    AttributesExpire(o);
    SpacedFree(Attributes(o));
    UrlEncode.EncodeSafe(name);
    UrlEncode.EncodeSafe(value);
    BehindJoined(pair, Attributes(o));
    SplitJoin([pair] + SpacedTexts(Attributes(o)), ';');
    AttributesSpaced(o);
  }

  /** A cookie with this name, value and attributes. */
  predicate Carries(setCookie: string, name: string, value: string, attributes: seq<string>)
    requires IsBytes(name) && IsBytes(value)
  {
    Split(setCookie, ';')[0] == UrlEncode.Encode(name) + "=" + UrlEncode.Encode(value) && AttributesOf(setCookie) == attributes
  }

  /** The lifetime that is announced for a token: none when it is not positive. */
  function Lifetime(seconds: int): Option<int> {
    if seconds >= 1 then Some(seconds) else None
  }

  /** The callback sets the access token with its own lifetime and the refresh token with its own, under the realm's
      names; a logout sends both names with the lifetime zero. */
  lemma {:induction false} TokenCookiesRead(config: HandlerConfig, realm: string, t: TokenSet)
    requires NamesAreBytes(config.tokenCookies) && IsBytes(realm) && t.IsBytes()
    requires ';' !in config.tokenCookies.path && ';' !in config.tokenCookies.sameSite
    ensures var c := config.tokenCookies;
      var access, refresh := c.accessTokenName + "_" + realm, c.refreshTokenName + "_" + realm;
      var given, cleared := TokenCookies(config, realm, t), ClearedCookies(config, realm);
      && IsBytes(access) && IsBytes(refresh) && |given| == 2 && |cleared| == 2
      && Carries(given[0], access, t.accessToken, ReadAttributes(c.path, Lifetime(t.expiresIn), true, c.secure, c.sameSite))
      && Carries(given[1], refresh, t.refreshToken, ReadAttributes(c.path, Lifetime(t.refreshExpiresIn), true, c.secure, c.sameSite))
      && Carries(cleared[0], access, "", ReadAttributes(c.path, Some(0), true, c.secure, c.sameSite))
      && Carries(cleared[1], refresh, "", ReadAttributes(c.path, Some(0), true, c.secure, c.sameSite))
  {
    hide SetCookie, AttributesOf, IsBytes, Split, ReadAttributes;
    var c := RealmCookies(config, realm);
    NamesBytes(config, realm);
    SetCookieReads(c.accessTokenName, t.accessToken, TokenCookieOptions(c, t.expiresIn));
    SetCookieReads(c.refreshTokenName, t.refreshToken, TokenCookieOptions(c, t.refreshExpiresIn));
    SetCookieReads(c.accessTokenName, "", TokenCookieOptions(c, 0).(maxAge := Some(0)));
    SetCookieReads(c.refreshTokenName, "", TokenCookieOptions(c, 0).(maxAge := Some(0)));
  }

  /** Of the attributes read, `Max-Age` is the lifetime, if any, and no other. */
  lemma LifetimeExactly(path: string, age: Option<int>, httpOnly: bool, secure: bool, sameSite: string, n: string)
    ensures " Max-Age=" + n in ReadAttributes(path, age, httpOnly, secure, sameSite) <==> age.Some? && n == Dec(age.value)
  {
    hide Dec;
    var a := " Max-Age=" + n;
    assert a[1] == 'M' && a[9..] == n;
    assert (" Path=" + path)[1] == 'P' && " HttpOnly"[1] == 'H' && " Secure"[1] == 'S' && (" SameSite=" + sameSite)[1] == 'S';
    assert age.Some? ==> (" Max-Age=" + Dec(age.value))[9..] == Dec(age.value);
  }

  predicate Flagged(setCookie: string, secure: bool) {
    " HttpOnly" in AttributesOf(setCookie) && (" Secure" in AttributesOf(setCookie) <==> secure)
  }

  /** Every token cookie, set or cleared, is hidden from scripts, and is restricted to secure
      connections if and only if the configuration says so. */
  lemma {:induction false} TokenCookiesAreFlagged(config: HandlerConfig, realm: string, t: TokenSet)
    requires NamesAreBytes(config.tokenCookies) && IsBytes(realm) && t.IsBytes()
    requires ';' !in config.tokenCookies.path && ';' !in config.tokenCookies.sameSite
    ensures forall c :: c in TokenCookies(config, realm, t) + ClearedCookies(config, realm) ==>
              Flagged(c, config.tokenCookies.secure)
  {
    hide SetCookie, AttributesOf, IsBytes;
    var c := RealmCookies(config, realm);
    NamesBytes(config, realm);
    SetCookieFlags(c.accessTokenName, t.accessToken, TokenCookieOptions(c, t.expiresIn));
    SetCookieFlags(c.refreshTokenName, t.refreshToken, TokenCookieOptions(c, t.refreshExpiresIn));
    SetCookieFlags(c.accessTokenName, "", TokenCookieOptions(c, 0).(maxAge := Some(0)));
    SetCookieFlags(c.refreshTokenName, "", TokenCookieOptions(c, 0).(maxAge := Some(0)));
  }

  lemma NamesBytes(config: HandlerConfig, realm: string)
    requires NamesAreBytes(config.tokenCookies) && IsBytes(realm)
    ensures IsBytes(RealmCookies(config, realm).accessTokenName) && IsBytes(RealmCookies(config, realm).refreshTokenName)
    ensures IsBytes("")
  {
  }

  // -------------------------------------------------- what any user agent may send

  /** No white space at either end. */
  predicate Core(s: string) {
    s == "" || (!IsSpace(s[0]) && !IsSpace(s[|s| - 1]))
  }

  lemma {:induction false} TrimBackExactly(core: string, w: string)
    requires Core(core) && AllSpace(w)
    ensures TrimBack(core + w) == core
  {
    if w == "" {
      assert core + w == core;
    } else {
      assert (core + w)[..|core + w| - 1] == core + w[..|w| - 1];
      TrimBackExactly(core, w[..|w| - 1]);
    }
  }

  /** Trimming takes off exactly the white space at both ends. */
  lemma TrimExactly(before: string, core: string, after: string)
    requires AllSpace(before) && Core(core) && AllSpace(after)
    ensures Trim(before + core + after) == core
  {
    hide AfterWs, TrimBack;
    assert before + core + after == before + (core + after);
    TrimBackExactly(core, after);
    if core == "" {
      assert AllSpace(before + core + after);
      NothingAfter(before + core + after);
      TrimBackExactly("", "");
      assert "" + "" == "";
    } else {
      AfterWsAt(before, core + after);
    }
  }

  lemma NothingAfter(w: string)
    requires AllSpace(w)
    ensures AfterWs(w) == ""
  {
    AfterWsAt(w, "");
    assert w + "" == w;
  }

  /** A piece of the header that spells a cookie: name and value around the first equals sign, or a name alone
      with an empty value, white space around both. */
  ghost predicate SpellsCookie(part: string, f: Field) {
    exists a: string, name: string, b: string, c: string, value: string, d: string ::
      && AllSpace(a) && AllSpace(b) && AllSpace(c) && AllSpace(d) && Core(name) && Core(value)
      && name != "" && '=' !in name && UrlEncode.Spells(name, f.0) && UrlEncode.Spells(value, f.1)
      && (part == (a + name + b) + "=" + (c + value + d) || (part == a + name + b && value == ""))
  }

  /** A piece without a name. */
  ghost predicate Nameless(part: string) {
    AllSpace(part) || exists a: string, rest: string :: AllSpace(a) && part == a + "=" + rest
  }

  lemma CookieSpelled(cookies: map<string, string>, part: string, f: Field)
    requires SpellsCookie(part, f)
    ensures WithCookie(cookies, part) == cookies[f.0 := f.1]
  {
    hide Trim, UrlEncode.Spells, KeyPart, ValuePart, Core;
    var a: string, name: string, b: string, c: string, value: string, d: string :|
      && AllSpace(a) && AllSpace(b) && AllSpace(c) && AllSpace(d) && Core(name) && Core(value)
      && name != "" && '=' !in name && UrlEncode.Spells(name, f.0) && UrlEncode.Spells(value, f.1)
      && (part == (a + name + b) + "=" + (c + value + d) || (part == a + name + b && value == ""));
    CookieDecoded(cookies, part, a, name, b, c, value, d, f);
  }

  lemma CookieDecoded(cookies: map<string, string>, part: string, a: string, name: string, b: string, c: string, value: string,
                      d: string, f: Field)
    requires AllSpace(a) && AllSpace(b) && AllSpace(c) && AllSpace(d) && Core(name) && Core(value)
    requires name != "" && '=' !in name && UrlEncode.Spells(name, f.0) && UrlEncode.Spells(value, f.1)
    requires part == (a + name + b) + "=" + (c + value + d) || (part == a + name + b && value == "")
    ensures WithCookie(cookies, part) == cookies[f.0 := f.1]
  {
    hide Trim, UrlEncode.Spells, UrlEncode.Decode, KeyPart, ValuePart, Core;
    var front, behind := a + name + b, c + value + d;
    TrimExactly(a, name, b);
    TrimExactly(c, value, d);
    UrlEncode.DecodeSpelled(name, f.0);
    UrlEncode.DecodeSpelled(value, f.1);
    NoSpaceEquals(a);
    NoSpaceEquals(b);
    assert '=' !in front && front != "";
    if part == front + "=" + behind {
      PartsOf(front, behind);
    } else {
      NoEquals(part);
      EmptyTrimmed();
    }
  }

  lemma NoSpaceEquals(w: string)
    requires AllSpace(w)
    ensures '=' !in w
  {
  }

  lemma NoEquals(part: string)
    requires '=' !in part
    ensures KeyPart(part) == part && ValuePart(part) == ""
  {
  }

  lemma EmptyTrimmed()
    ensures Trim("") == ""
  {
  }

  lemma NamelessSkipped(cookies: map<string, string>, part: string)
    requires Nameless(part)
    ensures WithCookie(cookies, part) == cookies
  {
    hide Trim, KeyPart, ValuePart;
    if AllSpace(part) {
      TrimExactly(part, "", "");
      assert part + "" + "" == part && '=' !in part;
      NoEquals(part);
    } else {
      var a: string, rest: string :| AllSpace(a) && part == a + "=" + rest;
      TrimExactly(a, "", "");
      assert a + "" + "" == a && '=' !in a;
      PartsOf(a, rest);
    }
  }

  ghost predicate SpellsCookies(parts: seq<string>, fields: seq<Field>) {
    if parts == [] then fields == []
    else
      || (Nameless(parts[0]) && SpellsCookies(parts[1..], fields))
      || (fields != [] && SpellsCookie(parts[0], fields[0]) && SpellsCookies(parts[1..], fields[1..]))
  }

  lemma {:induction false} CookiePartsSpelled(cookies: map<string, string>, parts: seq<string>, fields: seq<Field>)
    requires SpellsCookies(parts, fields)
    ensures WithCookies(cookies, parts) == InsertAll(fields, cookies)
    decreases parts
  {
    hide WithCookie, SpellsCookie, Nameless;
    if parts != [] {
      if Nameless(parts[0]) && SpellsCookies(parts[1..], fields) {
        NamelessSkipped(cookies, parts[0]);
        CookiePartsSpelled(cookies, parts[1..], fields);
      } else {
        CookieSpelled(cookies, parts[0], fields[0]);
        CookiePartsSpelled(cookies[fields[0].0 := fields[0].1], parts[1..], fields[1..]);
      }
    }
  }

  /** Whatever way a user agent spells its cookies, parsing the header inserts them in order; pieces without a name
      are skipped. */
  lemma CookiesSpelled(parts: seq<string>, fields: seq<Field>)
    requires parts != [] && SpellsCookies(parts, fields) && forall p :: p in parts ==> ';' !in p
    ensures ParseCookies(Join(parts, ';')) == InsertAll(fields, map[])
  {
    SplitJoin(parts, ';');
    CookiePartsSpelled(map[], parts, fields);
  }
}
