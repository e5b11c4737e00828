/** Cookie headers (`cookies.hpp`). */
module Cookies {
  import opened Wrappers
  import opened Text
  import opened Forms
  import UrlEncode

  // ------------------------------------------------------------------- trimming

  function TrimBack(s: string): string {
    if s != "" && IsSpace(s[|s| - 1]) then TrimBack(s[..|s| - 1]) else s
  }

  function Trim(value: string): string {
    TrimBack(AfterWs(value))
  }

  lemma TrimStep(s: string)
    requires s != ""
    ensures TrimBack(s) == if IsSpace(s[|s| - 1]) then TrimBack(s[..|s| - 1]) else s
  {
  }

  lemma SliceStep(s: string, start: nat, end: nat)
    requires start < end <= |s|
    ensures s[start..end][..end - start - 1] == s[start..end - 1] && s[start..end][end - start - 1] == s[end - 1]
  {
  }

  method TrimCopy(value: string) returns (r: string)
    ensures r == Trim(value)
  {
    hide Rest, TrimBack;
    var start, end := 0, |value|;
    RestStart(value);
    while start < end && IsSpace(value[start])
      invariant start <= end
      invariant AfterWs(Rest(value, start)) == AfterWs(value)
    {
      RestStep(value, start);
      start := start + 1;
    }
    RestStep(value, start);
    WholeRest(value, start);
    while end > start && IsSpace(value[end - 1])
      invariant start <= end <= |value|
      invariant TrimBack(value[start..end]) == Trim(value)
      decreases end
    {
      TrimStep(value[start..end]);
      SliceStep(value, start, end);
      end := end - 1;
    }
    TrimEnd(value[start..end]);
    if start < end {
      SliceStep(value, start, end);
    }
    return value[start..end];
  }

  lemma WholeRest(s: string, start: nat)
    requires start <= |s|
    ensures s[start..|s|] == Rest(s, start)
  {
  }

  lemma TrimEnd(s: string)
    ensures s == "" || !IsSpace(s[|s| - 1]) ==> TrimBack(s) == s
  {
  }

  // -------------------------------------------------------------------- parsing

  function WithCookie(cookies: map<string, string>, part: string): map<string, string> {
    var name, value := Trim(KeyPart(part)), Trim(ValuePart(part));
    if part == "" || name == "" then cookies
    else cookies[UrlEncode.Decode(name) := UrlEncode.Decode(value)]
  }

  function WithCookies(cookies: map<string, string>, parts: seq<string>): map<string, string>
    decreases parts
  {
    if parts == [] then cookies else WithCookies(WithCookie(cookies, parts[0]), parts[1..])
  }

  function ParseCookies(raw: string): map<string, string> {
    WithCookies(map[], Split(raw, ';'))
  }

  lemma NothingMore(cookies: map<string, string>)
    ensures WithCookies(cookies, Split("", ';')) == cookies && Trim("") == ""
  {
  }

  method ParseCookiePart(cookies: map<string, string>, part: string) returns (more: map<string, string>)
    ensures more == WithCookie(cookies, part)
  {
    hide FindChar, Trim;
    more := cookies;
    if part != "" {
      var eq := FindChar(part, '=');
      var name := TrimCopy(if eq.None? then part else part[..eq.value]);
      var value := "";
      NothingMore(cookies);
      if eq.Some? {
        value := TrimCopy(part[eq.value + 1..]);
      }
      if name != "" {
        var n := UrlEncode.UrlDecode(name);
        var v := UrlEncode.UrlDecode(value);
        more := cookies[n := v];
      }
    }
  }

  lemma CookieStep(s: string, cookies: map<string, string>)
    ensures WithCookies(cookies, Split(s, ';'))
         == match FindChar(s, ';')
            case None => WithCookie(cookies, s)
            case Some(end) => WithCookies(WithCookie(cookies, s[..end]), Split(s[end + 1..], ';'))
  {
  }

  method ParseCookieHeader(raw: string) returns (cookies: map<string, string>)
    ensures cookies == ParseCookies(raw)
  {
    hide FindChar, WithCookie, WithCookies, Rest, Split;
    cookies := map[];
    var start := 0;
    RestStart(raw);
    while start < |raw|
      invariant start <= |raw|
      invariant WithCookies(cookies, Split(Rest(raw, start), ';')) == ParseCookies(raw)
    {
      CookieStep(Rest(raw, start), cookies);
      var end := FindChar(Rest(raw, start), ';');
      var part := if end.None? then Rest(raw, start) else Rest(raw, start)[..end.value];
      cookies := ParseCookiePart(cookies, part);
      if end.None? {
        return;
      }
      RestShift(raw, start, end.value + 1);
      start := start + end.value + 1;
    }
    NothingMore(cookies);
  }

  // --------------------------------------------------------------------- making

  datatype CookieOptions =
    CookieOptions(path: string, httpOnly: bool, secure: bool, sameSite: string, maxAge: Option<int>)

  datatype TokenCookieConfig =
    TokenCookieConfig(accessTokenName: string, refreshTokenName: string, path: string, secure: bool, sameSite: string)

  function CookiePair(name: string, value: string): string
    requires IsBytes(name) && IsBytes(value)
  {
    UrlEncode.Encode(name) + "=" + UrlEncode.Encode(value)
  }

  /** The attributes, each behind its "; ". */
  function Attributes(o: CookieOptions): seq<string> {
    ["Path=" + o.path]
    + (if o.maxAge.Some? then ["Max-Age=" + Dec(o.maxAge.value)] else [])
    + (if o.httpOnly then ["HttpOnly"] else [])
    + (if o.secure then ["Secure"] else [])
    + (if o.sameSite != "" then ["SameSite=" + o.sameSite] else [])
  }

  function Behind(attributes: seq<string>): string {
    if attributes == [] then "" else "; " + attributes[0] + Behind(attributes[1..])
  }

  function SetCookie(name: string, value: string, o: CookieOptions): string
    requires IsBytes(name) && IsBytes(value)
  {
    CookiePair(name, value) + Behind(Attributes(o))
  }

  method MakeSetCookie(name: string, value: string, o: CookieOptions) returns (cookie: string)
    requires IsBytes(name) && IsBytes(value)
    ensures cookie == SetCookie(name, value, o)
  {
    hide Behind, UrlEncode.Encode, Dec;
    ghost var done: seq<string> := ["Path=" + o.path];
    assert Behind(done) == "; " + ("Path=" + o.path) by {
      BehindSnoc([], done[0]);
      assert [] + done == done;
    }
    var n := UrlEncode.UrlEncode(name);
    var v := UrlEncode.UrlEncode(value);
    cookie := n + "=" + v;
    cookie := cookie + "; Path=" + o.path;
    assert "; Path=" + o.path == "; " + ("Path=" + o.path);
    if o.maxAge.Some? {
      cookie, done := Appended(CookiePair(name, value), cookie, done, "Max-Age=" + Dec(o.maxAge.value));
    }
    if o.httpOnly {
      cookie, done := Appended(CookiePair(name, value), cookie, done, "HttpOnly");
    }
    if o.secure {
      cookie, done := Appended(CookiePair(name, value), cookie, done, "Secure");
    }
    if o.sameSite != "" {
      cookie, done := Appended(CookiePair(name, value), cookie, done, "SameSite=" + o.sameSite);
    }
    assert done == Attributes(o);
  }

  /** `cookie += "; " + attribute`. */
  method Appended(ghost pair: string, cookie: string, ghost done: seq<string>, attribute: string)
    returns (longer: string, ghost more: seq<string>)
    requires cookie == pair + Behind(done)
    ensures more == done + [attribute] && longer == pair + Behind(more)
  {
    BehindSnoc(done, attribute);
    more := done + [attribute];
    longer := cookie + ("; " + attribute);
  }

  lemma {:induction false} BehindSnoc(attributes: seq<string>, a: string)
    ensures Behind(attributes + [a]) == Behind(attributes) + ("; " + a)
    ensures attributes == [] ==> Behind(attributes + [a]) == "; " + a
  {
    if attributes != [] {
      assert (attributes + [a])[1..] == attributes[1..] + [a];
      BehindSnoc(attributes[1..], a);
    } else {
      assert [a][1..] == [];
    }
  }

  function ExpiredCookie(name: string, o: CookieOptions): string
    requires IsBytes(name)
  {
    SetCookie(name, "", o.(maxAge := Some(0)))
  }

  /** `token_cookie_options`; a lifetime that is not positive makes a session cookie. */
  function TokenCookieOptions(config: TokenCookieConfig, maxAge: int): CookieOptions {
    CookieOptions(config.path, true, config.secure, config.sameSite, if maxAge > 0 then Some(maxAge) else None)
  }
}
