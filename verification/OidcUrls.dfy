/** Endpoint URLs and the requests built for them (`oidc_utils.hpp`). */
module OidcUrls {
  import opened Wrappers
  import opened Text
  import UrlEncode

  datatype Uri = Uri(scheme: string, host: string, port: nat, path: string, query: string)

  datatype Request = Request(uri: Uri, authority: string)

  // ------------------------------------------------------------------- building

  function TrimSlashes(value: string): string {
    if value != "" && value[|value| - 1] == '/' then TrimSlashes(value[..|value| - 1]) else value
  }

  lemma {:induction false} TrimShorter(value: string)
    ensures |TrimSlashes(value)| <= |value|
    ensures TrimSlashes(value) != "" ==> TrimSlashes(value)[|TrimSlashes(value)| - 1] != '/'
    ensures |TrimSlashes(value)| == |value| ==> TrimSlashes(value) == value
  {
    if value != "" && value[|value| - 1] == '/' {
      TrimShorter(value[..|value| - 1]);
    }
  }

  method TrimTrailingSlash(value: string) returns (trimmed: string)
    ensures trimmed == TrimSlashes(value)
  {
    trimmed := value;
    while trimmed != "" && trimmed[|trimmed| - 1] == '/'
      invariant TrimSlashes(trimmed) == TrimSlashes(value)
      decreases |trimmed|
    {
      trimmed := trimmed[..|trimmed| - 1];
    }
  }

  function RealmRoot(baseUrl: string, realm: string): string
    requires IsBytes(realm)
  {
    TrimSlashes(baseUrl) + "/realms/" + UrlEncode.Encode(realm)
  }

  datatype Endpoint =
    Authorization | Token | Jwks | Userinfo | Revocation | Introspection | Logout | Discovery

  function Suffix(e: Endpoint): string {
    match e
    case Authorization => "/protocol/openid-connect/auth"
    case Token => "/protocol/openid-connect/token"
    case Jwks => "/protocol/openid-connect/certs"
    case Userinfo => "/protocol/openid-connect/userinfo"
    case Revocation => "/protocol/openid-connect/revoke"
    case Introspection => "/protocol/openid-connect/token/introspect"
    case Logout => "/protocol/openid-connect/logout"
    case Discovery => "/.well-known/openid-configuration"
  }

  function EndpointUrl(baseUrl: string, realm: string, e: Endpoint): string
    requires IsBytes(realm)
  {
    RealmRoot(baseUrl, realm) + Suffix(e)
  }

  // -------------------------------------------------------------------- parsing

  function Min(a: nat, b: nat): nat {
    if a <= b then a else b
  }

  function Authority(rest: string): string {
    rest[..Min(match FindChar(rest, '/') case None => |rest| case Some(p) => p,
               match FindChar(rest, '?') case None => |rest| case Some(q) => q)]
  }

  /** The host and port; `None` when `stoi` throws on the port. */
  function HostPort(authority: string): Option<(string, nat)> {
    match FindLast(authority, ':')
    case None => Some((authority, 0))
    case Some(colon) =>
      if authority[colon + 1..] == "" then Some((authority[..colon], 0))
      else match Stoi(authority[colon + 1..])
        case None => None
        case Some(n) => Some((authority[..colon], n % 0x1_0000))
  }

  /** When the first slash is behind the question mark, the length that the source
      passes to `substr` wraps and the path runs to the end of the text. */
  function PathOf(rest: string): string {
    match FindChar(rest, '/')
    case None => "/"
    case Some(p) =>
      match FindChar(rest, '?')
      case None => rest[p..]
      case Some(q) => if q < p then rest[p..] else rest[p..q]
  }

  function QueryOf(rest: string): string {
    match FindChar(rest, '?')
    case None => ""
    case Some(q) => rest[q + 1..]
  }

  function ParseUri(url: string): Option<Uri> {
    var schemePos := FindText(url, "://");
    var rest := if schemePos.None? then url else url[schemePos.value + 3..];
    match HostPort(Authority(rest))
    case None => None
    case Some((host, port)) =>
      Some(Uri(if schemePos.None? then "" else url[..schemePos.value], host, port, PathOf(rest), QueryOf(rest)))
  }

  lemma PathAt(rest: string)
    ensures PathOf(rest) != ""
    ensures FindChar(rest, '/').None? ==> PathOf(rest) == "/"
    ensures FindChar(rest, '/').Some? ==>
      var p := FindChar(rest, '/').value;
      var end := if FindChar(rest, '?').None? then |rest| else FindChar(rest, '?').value;
      PathOf(rest) == if end < p then rest[p..] else rest[p..end]
  {
    hide FindChar;
    if FindChar(rest, '/').Some? {
      var p := FindChar(rest, '/').value;
      assert rest[p..|rest|] == rest[p..];
    }
  }

  /** The host and port part of `parse_absolute_uri`. */
  method ParseAuthority(authority: string) returns (r: Option<(string, nat)>)
    ensures r == HostPort(authority)
  {
    hide FindLast, Stoi;
    var host, port := authority, 0;
    var colonPos := FindLast(authority, ':');
    if colonPos.Some? {
      host := authority[..colonPos.value];
      var portText := authority[colonPos.value + 1..];
      if portText != "" {
        var n := Stoi(portText);
        if n.None? {
          return None;
        }
        port := n.value % 0x1_0000;
      }
    }
    return Some((host, port));
  }

  method ParseAbsoluteUri(url: string) returns (r: Option<Uri>)
    ensures r == ParseUri(url)
  {
    hide FindText, FindChar, HostPort, PathOf;
    var schemePos := FindText(url, "://");
    var authorityStart := if schemePos.None? then 0 else schemePos.value + 3;
    var rest := url[authorityStart..];
    assert schemePos.None? ==> rest == url;
    var pathStart := FindChar(rest, '/');
    var queryStart := FindChar(rest, '?');
    var authorityEnd := Min(if pathStart.None? then |rest| else pathStart.value,
                            if queryStart.None? then |rest| else queryStart.value);
    var hostPort := ParseAuthority(rest[..authorityEnd]);
    if hostPort.None? {
      return None;
    }
    var path := "";
    PathAt(rest);
    if pathStart.Some? {
      var pathEnd := if queryStart.None? then |rest| else queryStart.value;
      path := if pathEnd < pathStart.value then rest[pathStart.value..] else rest[pathStart.value..pathEnd];
    }
    if path == "" {
      path := "/";
    }
    return Some(Uri(if schemePos.None? then "" else url[..schemePos.value], hostPort.value.0, hostPort.value.1, path,
                    if queryStart.None? then "" else rest[queryStart.value + 1..]));
  }

  function PortSuffix(port: nat): string {
    if port == 0 then "" else ":" + Dec(port)
  }

  /** `make_form_post` and `make_json_get`, as far as the URL goes. */
  function RequestFor(url: string): Option<Request> {
    match ParseUri(url)
    case None => None
    case Some(uri) => Some(Request(uri, uri.host + PortSuffix(uri.port)))
  }

  function SchemeText(uri: Uri): string {
    if uri.scheme == "" then "" else uri.scheme + "://"
  }

  function AuthorityText(request: Request): string {
    if request.authority == "" then request.uri.host + PortSuffix(request.uri.port) else request.authority
  }

  function QueryText(uri: Uri): string {
    if uri.query == "" then "" else "?" + uri.query
  }

  function UrlOf(request: Request): string {
    SchemeText(request.uri) + AuthorityText(request) + (if request.uri.path == "" then "/" else request.uri.path)
    + QueryText(request.uri)
  }

  /** `url +=` the authority, or host and port. */
  method AppendAuthority(front: string, request: Request) returns (url: string)
    ensures url == front + AuthorityText(request)
  {
    hide Dec;
    url := front;
    if request.authority != "" {
      url := url + request.authority;
    } else {
      url := url + request.uri.host;
      if request.uri.port != 0 {
        url := url + (":" + Dec(request.uri.port));
      }
    }
  }

  method RequestUrl(request: Request) returns (url: string)
    ensures url == UrlOf(request)
  {
    hide AuthorityText;
    url := "";
    if request.uri.scheme != "" {
      url := url + request.uri.scheme;
      url := url + "://";
    }
    assert url == SchemeText(request.uri);
    url := AppendAuthority(url, request);
    url := url + if request.uri.path == "" then "/" else request.uri.path;
    if request.uri.query != "" {
      url := url + "?";
      url := url + request.uri.query;
    }
  }

  // ----------------------------------------------------------------- round trip

  /** A server address: scheme, host and port as they are written in front of a path. */
  datatype Site = Site(scheme: string, host: string, port: nat)
  {
    predicate Valid() {
      && scheme != "" && ':' !in scheme
      && host != "" && ':' !in host && '/' !in host && '?' !in host
      && port < 0x1_0000
    }

    function HostText(): string {
      host + PortSuffix(port)
    }

    function Text(): string {
      scheme + "://" + HostText()
    }
  }

  lemma PortTextClean(port: nat)
    ensures '/' !in PortSuffix(port) && '?' !in PortSuffix(port)
    ensures PortSuffix(port) != "" ==> PortSuffix(port)[|PortSuffix(port)| - 1] != '/'
  {
  }

  lemma StoiDec(port: nat)
    requires port < 0x1_0000
    ensures Stoi(Dec(port)) == Some(port)
  {
    LeadingIntDec(port, "");
    assert Dec(port) + "" == Dec(port);
  }

  lemma HostPortRoundTrip(site: Site)
    requires site.Valid()
    ensures HostPort(site.HostText()) == Some((site.host, site.port))
  {
    hide FindLast, Stoi;
    var a := site.HostText();
    if site.port == 0 {
      assert a == site.host;
    } else {
      assert a == site.host + [':'] + Dec(site.port);
      FindLastAt(site.host, ':', Dec(site.port));
      assert a[|site.host| + 1..] == Dec(site.port);
      StoiDec(site.port);
    }
  }

  lemma SchemeFound(scheme: string, rest: string)
    requires ':' !in scheme
    ensures FindText(scheme + "://" + rest, "://") == Some(|scheme|)
  {
    var s := scheme + "://" + rest;
    assert s[|scheme|..|scheme| + 3] == "://";
    assert OccursAt(s, "://", |scheme|);
    assert forall k :: 0 <= k < |scheme| ==> s[k] == scheme[k];
    forall k | OccursAt(s, "://", k) ensures s[k] == ':' {
      assert s[k..k + 3][0] == ':';
    }
  }

  lemma AuthorityAt(front: string, path: string, query: string)
    requires '/' !in front && '?' !in front && path != "" && path[0] == '/' && '?' !in path
    ensures var rest := front + path + (if query == "" then "" else "?" + query);
      Authority(rest) == front && PathOf(rest) == path && QueryOf(rest) == query
  {
    hide FindChar;
    var tail := if query == "" then "" else "?" + query;
    var rest := front + path + tail;
    assert rest == front + ['/'] + (path[1..] + tail);
    FindCharAt(front, '/', path[1..] + tail);
    assert rest[..|front|] == front && rest[|front|..] == path + tail;
    if query == "" {
      assert rest == front + path;
      NotFound(front + path, '?');
    } else {
      assert rest == (front + path) + ['?'] + query;
      FindCharAt(front + path, '?', query);
      assert rest[|front + path| + 1..] == query && rest[|front|..|front + path|] == path;
    }
  }

  lemma NotFound(s: string, c: char)
    requires c !in s
    ensures FindChar(s, c) == None
  {
  }

  /** A URL survives being parsed into a request and printed again, and it makes no
      difference whether the authority is printed or the host and port. */
  lemma {:induction false} UrlRoundTrip(site: Site, path: string, query: string)
    requires site.Valid() && path != "" && path[0] == '/' && '?' !in path
    ensures var url := site.Text() + path + (if query == "" then "" else "?" + query);
      var request := Request(Uri(site.scheme, site.host, site.port, path, query), site.HostText());
      RequestFor(url) == Some(request) && UrlOf(request) == url && UrlOf(request.(authority := "")) == url
  {
    hide FindText, FindChar, FindLast, Stoi, HostPort, PortSuffix, Authority, PathOf, QueryOf;
    var tail := if query == "" then "" else "?" + query;
    var rest := site.HostText() + path + tail;
    var url := site.Text() + path + tail;
    assert url == site.scheme + "://" + rest;
    SchemeFound(site.scheme, rest);
    assert url[|site.scheme| + 3..] == rest && url[..|site.scheme|] == site.scheme;
    PortTextClean(site.port);
    AuthorityAt(site.HostText(), path, query);
    HostPortRoundTrip(site);
  }

  lemma {:induction false} TrimBehind(a: string, b: string)
    requires a != "" && a[|a| - 1] != '/'
    ensures TrimSlashes(a + b) == a + TrimSlashes(b)
  {
    if b == "" {
      assert a + b == a;
    } else if b[|b| - 1] == '/' {
      assert (a + b)[..|a + b| - 1] == a + b[..|b| - 1];
      TrimBehind(a, b[..|b| - 1]);
    }
  }

  lemma {:induction false} TrimShape(path: string)
    requires path == "" || path[0] == '/'
    ensures TrimSlashes(path) == "" || TrimSlashes(path)[0] == '/'
    ensures '?' !in path ==> '?' !in TrimSlashes(path)
  {
    if path != "" && path[|path| - 1] == '/' {
      TrimShape(path[..|path| - 1]);
    }
  }

  lemma SiteEnd(site: Site)
    requires site.Valid()
    ensures site.Text() != "" && site.Text()[|site.Text()| - 1] != '/'
  {
  }

  lemma SuffixClean(e: Endpoint)
    ensures '?' !in Suffix(e)
  {
    match e
    case Authorization => assert '?' !in "/protocol/openid-connect/auth";
    case Token => assert '?' !in "/protocol/openid-connect/token";
    case Jwks => assert '?' !in "/protocol/openid-connect/certs";
    case Userinfo => assert '?' !in "/protocol/openid-connect/userinfo";
    case Revocation => assert '?' !in "/protocol/openid-connect/revoke";
    case Introspection => assert '?' !in "/protocol/openid-connect/token/introspect";
    case Logout => assert '?' !in "/protocol/openid-connect/logout";
    case Discovery => assert '?' !in "/.well-known/openid-configuration";
  }

  /** Endpoint URL round trip: for every base URL of a site and a path without `?`, and
      every realm, the request built for an endpoint is for exactly that URL. */
  lemma {:induction false} EndpointRoundTrip(site: Site, path: string, realm: string, e: Endpoint)
    requires site.Valid() && (path == "" || path[0] == '/') && '?' !in path && IsBytes(realm)
    ensures var url := EndpointUrl(site.Text() + path, realm, e);
      RequestFor(url).Some? && UrlOf(RequestFor(url).value) == url
  {
    hide Site.Text, UrlOf, RequestFor, UrlEncode.Encode, TrimSlashes, Suffix;
    SiteEnd(site);
    TrimBehind(site.Text(), path);
    TrimShape(path);
    UrlEncode.EncodeSafe(realm);
    var full := TrimSlashes(path) + "/realms/" + UrlEncode.Encode(realm) + Suffix(e);
    assert EndpointUrl(site.Text() + path, realm, e) == site.Text() + full;
    SuffixClean(e);
    UrlRoundTrip(site, full, "");
    assert site.Text() + full + "" == site.Text() + full;
  }

  // ----------------------------------------------------------- last path segment

  function LastSegment(value: string): string {
    var v := TrimSlashes(value);
    match FindLast(v, '/')
    case None => v
    case Some(slash) => v[slash + 1..]
  }

  method LastPathSegment(value: string) returns (segment: string)
    ensures segment == LastSegment(value)
  {
    var v := value;
    while v != "" && v[|v| - 1] == '/'
      invariant TrimSlashes(v) == TrimSlashes(value)
      decreases |v|
    {
      v := v[..|v| - 1];
    }
    var slash := FindLast(v, '/');
    segment := if slash.None? then v else v[slash.value + 1..];
  }

  /** The realm is what the last segment of its root decodes to. */
  lemma RealmOfRoot(baseUrl: string, realm: string)
    requires IsBytes(realm) && realm != ""
    ensures UrlEncode.Decode(LastSegment(RealmRoot(baseUrl, realm))) == realm
  {
    hide UrlEncode.Encode, UrlEncode.Decode, FindLast;
    UrlEncode.EncodeSafe(realm);
    UrlEncode.RoundTrip(realm);
    var encoded := UrlEncode.Encode(realm);
    var front := TrimSlashes(baseUrl) + "/realms";
    var root := RealmRoot(baseUrl, realm);
    assert root == front + ['/'] + encoded;
    assert root[|root| - 1] == encoded[|encoded| - 1];
    FindLastAt(front, '/', encoded);
    assert root[|front| + 1..] == encoded;
  }

  /** Realms under one base URL have distinct roots. */
  lemma RootsAreDistinct(baseUrl: string, realm: string, other: string)
    requires IsBytes(realm) && IsBytes(other) && realm != "" && other != "" && realm != other
    ensures RealmRoot(baseUrl, realm) != RealmRoot(baseUrl, other)
  {
    RealmOfRoot(baseUrl, realm);
    RealmOfRoot(baseUrl, other);
  }

  /** Trimming takes off exactly the slashes at the end. */
  lemma {:induction false} TrimExactly(value: string, slashes: string)
    requires value == "" || value[|value| - 1] != '/'
    requires forall i :: 0 <= i < |slashes| ==> slashes[i] == '/'
    ensures TrimSlashes(value + slashes) == value
  {
    if slashes == "" {
      assert value + slashes == value;
    } else {
      assert (value + slashes)[..|value + slashes| - 1] == value + slashes[..|slashes| - 1];
      TrimExactly(value, slashes[..|slashes| - 1]);
    }
  }

  /** The last segment, whatever slashes follow it. */
  lemma LastSegmentExactly(front: string, segment: string, slashes: string)
    requires '/' !in segment && segment != "" && forall i :: 0 <= i < |slashes| ==> slashes[i] == '/'
    ensures LastSegment(front + "/" + segment + slashes) == segment && LastSegment(segment + slashes) == segment
    ensures LastSegment(slashes) == ""
  {
    hide TrimSlashes, FindLast;
    var v := front + "/" + segment;
    assert v[|v| - 1] == segment[|segment| - 1];
    TrimExactly(v, slashes);
    TrimExactly(segment, slashes);
    TrimExactly("", slashes);
    assert "" + slashes == slashes;
    assert v == front + ['/'] + segment;
    FindLastAt(front, '/', segment);
    assert v[|front| + 1..] == segment;
    NotFoundLast(segment, '/');
    NotFoundLast("", '/');
  }

  lemma NotFoundLast(s: string, c: char)
    requires c !in s
    ensures FindLast(s, c) == None
  {
  }

  // ------------------------------------------------------------- where requests go

  /** The request for an endpoint of this realm goes to this path of the site. */
  predicate GoesTo(site: Site, path: string, realm: string, e: Endpoint, suffix: string)
    requires IsBytes(realm)
  {
    RequestFor(EndpointUrl(site.Text() + path, realm, e))
      == Some(Request(Uri(site.scheme, site.host, site.port, TrimSlashes(path) + "/realms/" + UrlEncode.Encode(realm) + suffix, ""),
                      site.HostText()))
  }

  lemma {:induction false} EndpointGoes(site: Site, path: string, realm: string, e: Endpoint)
    requires site.Valid() && (path == "" || path[0] == '/') && '?' !in path && IsBytes(realm)
    ensures GoesTo(site, path, realm, e, Suffix(e))
  {
    hide Site.Text, UrlOf, RequestFor, UrlEncode.Encode, TrimSlashes, Suffix;
    SiteEnd(site);
    TrimBehind(site.Text(), path);
    TrimShape(path);
    UrlEncode.EncodeSafe(realm);
    var full := TrimSlashes(path) + "/realms/" + UrlEncode.Encode(realm) + Suffix(e);
    assert EndpointUrl(site.Text() + path, realm, e) == site.Text() + full;
    SuffixClean(e);
    UrlRoundTrip(site, full, "");
    assert site.Text() + full + "" == site.Text() + full;
  }

  /** Every endpoint, written out: host and port are those of the base URL, and the path is the realm's. */
  lemma EndpointsGo(site: Site, path: string, realm: string)
    requires site.Valid() && (path == "" || path[0] == '/') && '?' !in path && IsBytes(realm)
    ensures GoesTo(site, path, realm, Authorization, "/protocol/openid-connect/auth")
    ensures GoesTo(site, path, realm, Token, "/protocol/openid-connect/token")
    ensures GoesTo(site, path, realm, Jwks, "/protocol/openid-connect/certs")
    ensures GoesTo(site, path, realm, Userinfo, "/protocol/openid-connect/userinfo")
    ensures GoesTo(site, path, realm, Revocation, "/protocol/openid-connect/revoke")
    ensures GoesTo(site, path, realm, Introspection, "/protocol/openid-connect/token/introspect")
    ensures GoesTo(site, path, realm, Logout, "/protocol/openid-connect/logout")
    ensures GoesTo(site, path, realm, Discovery, "/.well-known/openid-configuration")
  {
    hide GoesTo;
    EndpointGoes(site, path, realm, Authorization);
    EndpointGoes(site, path, realm, Token);
    EndpointGoes(site, path, realm, Jwks);
    EndpointGoes(site, path, realm, Userinfo);
    EndpointGoes(site, path, realm, Revocation);
    EndpointGoes(site, path, realm, Introspection);
    EndpointGoes(site, path, realm, Logout);
    EndpointGoes(site, path, realm, Discovery);
  }

  lemma SuffixSlash(e: Endpoint)
    ensures Suffix(e) != "" && Suffix(e)[0] == '/'
  {
  }

  lemma SuffixesDiffer(e: Endpoint, f: Endpoint)
    requires e != f
    ensures Suffix(e) != Suffix(f)
  {
    hide Suffix;
    SuffixMarks(e);
    SuffixMarks(f);
  }

  /** Length and one character tell the suffixes apart. */
  lemma SuffixMarks(e: Endpoint)
    ensures |Suffix(e)| == match e
      case Authorization => 29
      case Token => 30
      case Jwks => 30
      case Userinfo => 33
      case Revocation => 31
      case Introspection => 41
      case Logout => 31
      case Discovery => 33
    ensures e.Token? || e.Jwks? || e.Revocation? || e.Logout? ==>
      Suffix(e)[25] == if e.Token? then 't' else if e.Jwks? then 'c' else if e.Revocation? then 'r' else 'l'
    ensures e.Userinfo? || e.Discovery? ==> Suffix(e)[1] == if e.Userinfo? then 'p' else '.'
  {
  }

  /** No two endpoints of any realms under one base URL share a URL. */
  lemma EndpointsAreDistinct(baseUrl: string, realm: string, e: Endpoint, other: string, f: Endpoint)
    requires IsBytes(realm) && IsBytes(other) && EndpointUrl(baseUrl, realm, e) == EndpointUrl(baseUrl, other, f)
    ensures realm == other && e == f
  {
    hide UrlEncode.Encode, Suffix, TrimSlashes;
    var root, x, y := TrimSlashes(baseUrl) + "/realms/", UrlEncode.Encode(realm), UrlEncode.Encode(other);
    SuffixSlash(e);
    SuffixSlash(f);
    UrlEncode.EncodeSafe(realm);
    UrlEncode.EncodeSafe(other);
    assert EndpointUrl(baseUrl, realm, e) == root + (x + Suffix(e)) && EndpointUrl(baseUrl, other, f) == root + (y + Suffix(f));
    SameTails(root, x + Suffix(e), y + Suffix(f));
    SplitAtSlash(x, Suffix(e), y, Suffix(f));
    UrlEncode.EncodeInjective(realm, other);
    if e != f {
      SuffixesDiffer(e, f);
    }
  }

  lemma SameTails(root: string, s: string, t: string)
    requires root + s == root + t
    ensures s == t
  {
    assert (root + s)[|root|..] == s && (root + t)[|root|..] == t;
  }

  lemma SplitAtSlash(x: string, s: string, y: string, t: string)
    requires '/' !in x && '/' !in y && s != "" && t != "" && s[0] == t[0] == '/' && x + s == y + t
    ensures x == y && s == t
  {
    hide FindChar;
    FindCharAt(x, '/', s[1..]);
    FindCharAt(y, '/', t[1..]);
    assert x + s == x + ['/'] + s[1..] && y + t == y + ['/'] + t[1..];
    assert (x + s)[..|x|] == x && (y + t)[..|y|] == y && (x + s)[|x|..] == s && (y + t)[|y|..] == t;
  }

  // --------------------------------------------------------------- any form of a URL

  /** A URL put together from its parts, each of which but the host may be missing. */
  function UrlText(scheme: Option<string>, host: string, port: Option<string>, path: string, query: Option<string>): string {
    (if scheme.Some? then scheme.value + "://" else "")
    + (host + (if port.Some? then ":" + port.value else "") + path + (if query.Some? then "?" + query.value else ""))
  }

  /** The number that a port text stands for: none stands for zero, and a number is cut to 16 bits. */
  function PortNumber(port: Option<string>): Option<nat> {
    if port.None? || port.value == "" then Some(0)
    else match Stoi(port.value)
      case None => None
      case Some(n) => Some(n % 65536)
  }

  lemma HostPortForms(host: string, port: Option<string>)
    requires ':' !in host && (port.Some? ==> ':' !in port.value)
    ensures HostPort(host + (if port.Some? then ":" + port.value else ""))
         == match PortNumber(port) case None => None case Some(n) => Some((host, n))
  {
    hide FindLast, Stoi;
    var a := host + (if port.Some? then ":" + port.value else "");
    if port.Some? {
      assert a == host + [':'] + port.value;
      FindLastAt(host, ':', port.value);
      assert a[|host| + 1..] == port.value && a[..|host|] == host;
    } else {
      assert a == host;
      NotFoundLast(host, ':');
    }
  }

  lemma QueryForms(front: string, query: Option<string>)
    requires '?' !in front
    ensures var rest := front + (if query.Some? then "?" + query.value else "");
      && FindChar(rest, '?') == (if query.Some? then Some(|front|) else None)
      && QueryOf(rest) == query.GetOr("")
  {
    hide FindChar;
    var rest := front + (if query.Some? then "?" + query.value else "");
    if query.Some? {
      assert rest == front + ['?'] + query.value;
      FindCharAt(front, '?', query.value);
      assert rest[|front| + 1..] == query.value;
    } else {
      assert rest == front;
      NotFound(rest, '?');
    }
  }

  lemma RestForms(a: string, path: string, query: Option<string>)
    requires '/' !in a && '?' !in a && (path == "" || path[0] == '/') && '?' !in path
    requires path == "" && query.Some? ==> '/' !in query.value
    ensures var rest := a + path + (if query.Some? then "?" + query.value else "");
      && Authority(rest) == a && PathOf(rest) == (if path == "" then "/" else path)
      && QueryOf(rest) == query.GetOr("")
  {
    hide FindChar, QueryOf;
    var tail := if query.Some? then "?" + query.value else "";
    var rest := a + path + tail;
    assert '?' !in a + path;
    QueryForms(a + path, query);
    assert rest[..|a|] == a && rest[|a|..|a + path|] == path && rest[|a|..] == path + tail;
    if path == "" {
      assert '/' !in rest;
      NotFound(rest, '/');
    } else {
      assert rest == a + ['/'] + (path[1..] + tail);
      FindCharAt(a, '/', path[1..] + tail);
    }
  }

  /** What the parser makes of every such URL, with the failure of the port's conversion. */
  lemma {:induction false} ParseForms(scheme: Option<string>, host: string, port: Option<string>, path: string, query: Option<string>)
    requires ':' !in host && '/' !in host && '?' !in host
    requires port.Some? ==> ':' !in port.value && '/' !in port.value && '?' !in port.value
    requires (path == "" || path[0] == '/') && '?' !in path && (path == "" && query.Some? ==> '/' !in query.value)
    requires scheme.Some? ==> ':' !in scheme.value
    requires scheme.None? ==> FindText(UrlText(scheme, host, port, path, query), "://").None?
    ensures ParseUri(UrlText(scheme, host, port, path, query))
         == match PortNumber(port)
            case None => None
            case Some(n) => Some(Uri(scheme.GetOr(""), host, n, if path == "" then "/" else path, query.GetOr("")))
  {
    hide FindText, FindChar, HostPort, Authority, PathOf, QueryOf, Stoi;
    var a := host + (if port.Some? then ":" + port.value else "");
    var rest := a + path + (if query.Some? then "?" + query.value else "");
    var url := UrlText(scheme, host, port, path, query);
    RestForms(a, path, query);
    HostPortForms(host, port);
    if scheme.Some? {
      SchemeFound(scheme.value, rest);
      SchemeCut(scheme.value, rest);
      assert url == scheme.value + "://" + rest;
    } else {
      NothingInFront(rest);
      assert url == rest;
    }
  }

  lemma SchemeCut(scheme: string, rest: string)
    ensures (scheme + "://" + rest)[|scheme| + 3..] == rest && (scheme + "://" + rest)[..|scheme|] == scheme
  {
  }

  lemma NothingInFront(rest: string)
    ensures "" + rest == rest
  {
  }

  /** A slash that comes only in the query is taken for the path, to the end of the text. */
  lemma QuerySlash(host: string, query: string, slash: nat)
    requires '/' !in host && '?' !in host && FindChar(query, '/') == Some(slash)
    ensures PathOf(host + "?" + query) == query[slash..] && QueryOf(host + "?" + query) == query
    ensures Authority(host + "?" + query) == host
  {
    hide FindChar;
    var rest := host + "?" + query;
    assert rest == host + ['?'] + query;
    FindCharAt(host, '?', query);
    assert rest[|host| + 1..] == query && rest[..|host|] == host;
    var front := host + "?" + query[..slash];
    assert rest == front + ['/'] + query[slash + 1..];
    assert '/' !in front;
    FindCharAt(front, '/', query[slash + 1..]);
    assert rest[|front|..] == query[slash..];
  }

  /** Printing: an authority replaces host and port, and what is empty is left out but for the slash of the path. */
  lemma PrintForms(uri: Uri, authority: string)
    ensures UrlOf(Request(uri, authority))
         == (if uri.scheme == "" then "" else uri.scheme + "://")
          + (if authority != "" then authority else if uri.port == 0 then uri.host else uri.host + ":" + Dec(uri.port))
          + (if uri.path == "" then "/" else uri.path)
          + (if uri.query == "" then "" else "?" + uri.query)
  {
    hide Dec;
    assert uri.host + "" == uri.host;
    assert uri.host + (":" + Dec(uri.port)) == uri.host + ":" + Dec(uri.port);
  }
}
