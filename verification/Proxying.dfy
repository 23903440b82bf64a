/** The browser runtime's decisions about URLs: what is already proxied, how a page's
    URLs and a worker's requests are mapped, and which wreckage can be repaired. */
module Proxying {
  import opened Text
  import opened Words
  import opened Base64
  import opened Link
  import opened ModulePaths

  /** What the runtime reads from a browser URL object. */
  datatype WebUrl = WebUrl(
    href: string, protocol: string, origin: string, pathname: string, search: string, hash: string)

  /** The browser's URL parser, alone and against a base, and the path segments it finds in
      an absolute URL. */
  datatype Browser = Browser(
    parse: string -> Option<WebUrl>,
    against: (string, string) -> Option<WebUrl>,
    pathOf: string -> Path)

  predicate IsHttpProtocol(p: string) { p == "http:" || p == "https:" }

  /** A parsed URL serialises to bytes that parse to the same protocol. */
  ghost predicate Reparses(b: Browser, u: WebUrl) {
    && u.href != "" && IsBytes(u.href)
    && b.parse(u.href).Some? && b.parse(u.href).value.protocol == u.protocol
  }

  /** The URL of a proxy link on the proxy's origin. */
  ghost predicate IsServed(u: Option<WebUrl>, origin: string, token: string) {
    && u.Some? && u.value.origin == origin && u.value.pathname == "/p/" + token
    && u.value.search == "" && u.value.hash == "" && IsHttpProtocol(u.value.protocol)
  }

  predicate IsLinkToken(t: string) { t != "" && IsToken(Url, t) }

  /** What the runtime relies on: serialised URLs parse again, a base that does not parse
      is refused, and a link of base64url characters is kept as it is. */
  ghost predicate Sound(b: Browser, origin: string) {
    && "http" <= origin
    && (forall x: string :: b.parse(x).Some? ==> Reparses(b, b.parse(x).value))
    && (forall x: string, y: string ::
          b.against(x, y).Some? ==> b.parse(y).Some? && Reparses(b, b.against(x, y).value))
    && (forall t: string :: IsLinkToken(t) ==> IsServed(b.parse(origin + "/p/" + t), origin, t))
    && (forall t: string, y: string ::
          IsLinkToken(t) && b.parse(y).Some? ==> IsServed(b.against(origin + "/p/" + t, y), origin, t))
  }

  /** The text of an http(s) URL. */
  predicate IsWebPage(b: Browser, x: string) {
    b.parse(x).Some? && IsHttpProtocol(b.parse(x).value.protocol)
  }

  const ENGINE := "/__bumshi__/"

  /** The target of a "/p/<token>" path: the token must decode to an http(s) URL. */
  function DecodeProxied(b: Browser, pathname: string): Option<string> {
    if !("/p/" <= pathname) then None
    else
      var token := Take(pathname[3..], Only('/')).token;
      if token == "" then None
      else
        match BrowserDecode(token)
        case None => None
        case Some(decoded) =>
          var u := b.parse(decoded);
          if u.Some? && IsHttpProtocol(u.value.protocol) then Some(decoded) else None
  }

  predicate IsProxiedPath(b: Browser, pathname: string) {
    ENGINE <= pathname || DecodeProxied(b, pathname).Some?
  }

  function LinkTo(origin: string, href: string): string
    requires IsBytes(href)
  {
    origin + EncodeString(href)
  }

  lemma LinkPath(href: string)
    requires IsBytes(href) && href != ""
    ensures var t := Encode(Url, href);
      t != "" && IsToken(Url, t) && Take(t, Only('/')).token == t && BrowserDecode(t) == Some(href)
  {
    var t := Encode(Url, href);
    EncodeIsToken(Url, href);
    EncodeIsNotEmpty(href);
    NoBreaks(Url, t);
    TakeIs(t, "", Only('/'));
    assert t + "" == t;
    DecodersAgree(t);
    DecodeEncode(Url, href);
  }

  /** The path of a link decodes to its target exactly when that is an http(s) URL. */
  lemma LinkDecodes(b: Browser, u: WebUrl)
    requires Reparses(b, u)
    ensures DecodeProxied(b, "/p/" + Encode(Url, u.href))
         == if IsHttpProtocol(u.protocol) then Some(u.href) else None
    ensures !(ENGINE <= "/p/" + Encode(Url, u.href))
  {
    hide Encode, BrowserDecode, Take;
    LinkPath(u.href);
    var p := "/p/" + Encode(Url, u.href);
    assert p[3..] == Encode(Url, u.href);
    assert ENGINE[1] == '_' && p[1] == 'p';
  }

  lemma LinksDiffer(x: string, y: string, origin: string)
    requires IsBytes(x) && IsBytes(y) && LinkTo(origin, x) == LinkTo(origin, y)
    ensures x == y
  {
    var p := origin + "/p/";
    assert LinkTo(origin, x) == p + Encode(Url, x) && LinkTo(origin, y) == p + Encode(Url, y);
    assert (p + Encode(Url, x))[|p|..] == Encode(Url, x) && (p + Encode(Url, y))[|p|..] == Encode(Url, y);
    DecodeEncode(Url, x);
    DecodeEncode(Url, y);
  }

  // --- toProxy ---

  /** The page's URLs: `base` is the real URL of the page, `origin` the proxy's. */
  function ToProxy(b: Browser, origin: string, base: string, raw: string): string
    requires Sound(b, origin)
  {
    if IsNonNav(ToLower(TrimSpace(raw))) || IsProxiedPath(b, raw) then raw
    else
      match b.against(raw, base)
      case None => raw
      case Some(abs) =>
        if !IsHttpProtocol(abs.protocol) then raw
        else if abs.origin == origin && IsProxiedPath(b, abs.pathname) then raw
        else LinkTo(origin, abs.href)
  }

  lemma HttpIsNavigational(s: string)
    requires "http" <= s
    ensures TrimLeft(s, Blank) == s && !IsNonNav(ToLower(TrimSpace(s)))
    ensures !("/p/" <= s) && !(ENGINE <= s)
  {
    hide TrimSpace, ToLower;
    assert s[0] == "http"[0] == 'h' && "/p/"[0] == '/' && ENGINE[0] == '/';
    var t := TrimSpace(s);
    TrimKeepsStart(s);
    assert t[0] == 'h' && ToLower(t)[0] == 'h';
    forall i | 0 <= i < |NON_NAVIGATIONAL|
      ensures !(NON_NAVIGATIONAL[i] <= ToLower(t))
    {
      assert NON_NAVIGATIONAL[i] != "" && NON_NAVIGATIONAL[i][0] != 'h';
    }
  }

  lemma {:induction false} TrimKeepsStart(s: string)
    requires s != "" && !IsBlank(s[0])
    ensures TrimSpace(s) != "" && TrimSpace(s)[0] == s[0]
  {
    TrimRightKeepsStart(s);
  }

  lemma {:induction false} TrimRightKeepsStart(s: string)
    requires s != "" && !IsBlank(s[0])
    ensures TrimRight(s, Blank) != "" && TrimRight(s, Blank)[0] == s[0]
    decreases |s|
  {
    if In(s[|s| - 1], Blank) {
      TrimRightKeepsStart(s[..|s| - 1]);
    }
  }

  /** A URL is never wrapped twice, whatever it is. */
  lemma ToProxyIsIdempotent(b: Browser, origin: string, base: string, raw: string)
    requires Sound(b, origin)
    ensures ToProxy(b, origin, base, ToProxy(b, origin, base, raw)) == ToProxy(b, origin, base, raw)
  {
    var r := ToProxy(b, origin, base, raw);
    if r != raw {
      var abs := b.against(raw, base).value;
      assert b.parse(base).Some? && Reparses(b, abs);
      LinkStays(b, origin, base, abs);
    }
  }

  lemma LinkStays(b: Browser, origin: string, base: string, abs: WebUrl)
    requires Sound(b, origin) && b.parse(base).Some? && Reparses(b, abs) && IsHttpProtocol(abs.protocol)
    ensures ToProxy(b, origin, base, LinkTo(origin, abs.href)) == LinkTo(origin, abs.href)
  {
    hide Encode, TrimSpace, ToLower, IsNonNav, IsProxiedPath, Reparses, Sound;
    ReparsesBytes(b, abs);
    var t := Encode(Url, abs.href);
    var r := LinkTo(origin, abs.href);
    LinkIsAbsolute(b, origin, abs.href);
    HttpIsNavigational(r);
    NotAPath(b, r);
    LinkIsProxied(b, origin, abs);
    LinkAgainst(b, origin, base, t);
  }

  lemma LinkIsAbsolute(b: Browser, origin: string, href: string)
    requires Sound(b, origin) && IsBytes(href) && href != ""
    ensures var r := LinkTo(origin, href);
      r == origin + "/p/" + Encode(Url, href) && "http" <= r && IsLinkToken(Encode(Url, href))
  {
    hide Encode, IsToken, IsServed, Reparses;
    LinkPath(href);
    var r := LinkTo(origin, href);
    assert r == origin + "/p/" + Encode(Url, href);
    assert r[..4] == origin[..4];
  }

  lemma NotAPath(b: Browser, r: string)
    requires !("/p/" <= r) && !(ENGINE <= r)
    ensures !IsProxiedPath(b, r)
  {
  }

  lemma LinkIsProxied(b: Browser, origin: string, u: WebUrl)
    requires Reparses(b, u) && IsHttpProtocol(u.protocol)
    ensures IsProxiedPath(b, "/p/" + Encode(Url, u.href))
  {
    hide Encode, DecodeProxied;
    LinkDecodes(b, u);
  }

  lemma LinkAgainst(b: Browser, origin: string, base: string, t: string)
    requires Sound(b, origin) && IsLinkToken(t) && b.parse(base).Some?
    ensures IsServed(b.against(origin + "/p/" + t, base), origin, t)
  {
    hide IsServed, Reparses, IsLinkToken;
  }

  // --- rewriteRequestURL ---

  predicate IsModuleLike(destination: string) {
    destination in {"script", "worker", "sharedworker", "serviceworker"}
  }

  /** The real URL of the document or file a request comes from. */
  function ClientBase(b: Browser, clientUrl: string): Option<string>
    requires clientUrl == "" || b.parse(clientUrl).Some?
  {
    if clientUrl == "" then None else DecodeProxied(b, b.parse(clientUrl).value.pathname)
  }

  /** What the path of a request is resolved as. */
  function ReferenceOf(destination: string, pathname: string): string {
    if IsModuleLike(destination) then AfterPrefix(pathname) else pathname
  }

  /** The URL a request is mapped to; None when it is left as it is. */
  function RequestTarget(b: Browser, origin: string, clientUrl: string, requestUrl: string, destination: string)
    : Option<WebUrl>
    requires clientUrl == "" || b.parse(clientUrl).Some?
  {
    match b.parse(requestUrl)
    case None => None
    case Some(req) =>
      if req.origin != origin then Some(req)
      else if IsProxiedPath(b, req.pathname) then None
      else
        match ClientBase(b, clientUrl)
        case None => None
        case Some(base) =>
          b.against(ReferenceOf(destination, req.pathname) + req.search + req.hash, base)
  }

  /** A request on the origin that is not proxied, from a client that is. */
  lemma TargetIs(b: Browser, origin: string, clientUrl: string, requestUrl: string, destination: string,
                 req: WebUrl, base: string)
    requires clientUrl == "" || b.parse(clientUrl).Some?
    requires b.parse(requestUrl) == Some(req) && req.origin == origin && !IsProxiedPath(b, req.pathname)
    requires ClientBase(b, clientUrl) == Some(base)
    ensures RequestTarget(b, origin, clientUrl, requestUrl, destination)
         == b.against(ReferenceOf(destination, req.pathname) + req.search + req.hash, base)
  {
    hide IsProxiedPath, ClientBase, IsModuleLike;
  }

  lemma TargetReparses(b: Browser, origin: string, clientUrl: string, requestUrl: string, destination: string)
    requires Sound(b, origin) && (clientUrl == "" || b.parse(clientUrl).Some?)
    ensures var t := RequestTarget(b, origin, clientUrl, requestUrl, destination);
      t.Some? ==> Reparses(b, t.value)
  {
    hide IsProxiedPath, ClientBase, IsModuleLike, DecodeProxied, Reparses, IsServed;
  }

  function RewriteRequestURL(b: Browser, origin: string, clientUrl: string, requestUrl: string, destination: string)
    : string
    requires Sound(b, origin) && (clientUrl == "" || b.parse(clientUrl).Some?)
  {
    TargetReparses(b, origin, clientUrl, requestUrl, destination);
    match RequestTarget(b, origin, clientUrl, requestUrl, destination)
    case None => requestUrl
    case Some(target) => LinkTo(origin, target.href)
  }

  lemma LinkIsServed(b: Browser, origin: string, u: WebUrl)
    requires Sound(b, origin) && Reparses(b, u)
    ensures IsServed(b.parse(LinkTo(origin, u.href)), origin, Encode(Url, u.href))
    ensures IsProxiedPath(b, b.parse(LinkTo(origin, u.href)).value.pathname) <==> IsHttpProtocol(u.protocol)
  {
    var t := Encode(Url, u.href);
    LinkPath(u.href);
    LinkDecodes(b, u);
    hide Encode, DecodeProxied;
    assert LinkTo(origin, u.href) == origin + "/p/" + t;
    assert IsServed(b.parse(origin + "/p/" + t), origin, t);
  }

  /** Links never nest: the link a request was mapped to is left alone from then on, for
      any client and destination, when its target is an http(s) URL. */
  lemma RewritesDoNotNest(b: Browser, origin: string, client: string, request: string, destination: string,
                          client': string, destination': string)
    requires Sound(b, origin)
    requires (client == "" || b.parse(client).Some?) && (client' == "" || b.parse(client').Some?)
    requires var t := RequestTarget(b, origin, client, request, destination);
      t.Some? && IsHttpProtocol(t.value.protocol)
    ensures var r := RewriteRequestURL(b, origin, client, request, destination);
      RewriteRequestURL(b, origin, client', r, destination') == r
  {
    TargetReparses(b, origin, client, request, destination);
    LinkIsServed(b, origin, RequestTarget(b, origin, client, request, destination).value);
  }

  /** A reference with no colon before its first slash keeps the scheme of an http(s)
      base. */
  ghost predicate KeepsScheme(b: Browser) {
    forall x: string, y: string ::
      IsWebPage(b, y) && b.against(x, y).Some? && Free(Take(x, Only('/')).token, Only(':'))
      ==> IsHttpProtocol(b.against(x, y).value.protocol)
  }

  lemma ClientIsPage(b: Browser, client: string, base: string)
    requires (client == "" || b.parse(client).Some?) && ClientBase(b, client) == Some(base)
    ensures client != "" && IsWebPage(b, base)
  {
    hide BrowserDecode, Take;
  }

  lemma TokenHasNoColon(t: string)
    requires IsToken(Url, t)
    ensures Free(t, Only(':')) && Free(t, Only('/'))
  {
    assert Value(Url, ':') < 0 && Value(Url, '/') < 0;
  }

  /** What a served link that is not proxied is resolved as: its path, or its token. */
  lemma LinkTarget(b: Browser, origin: string, u: WebUrl, client: string, destination: string)
    requires Sound(b, origin) && KeepsScheme(b) && Reparses(b, u) && !IsHttpProtocol(u.protocol)
    requires client == "" || b.parse(client).Some?
    ensures var v := RequestTarget(b, origin, client, LinkTo(origin, u.href), destination);
      && v == Again(b, client, destination, u.href)
      && (v.Some? ==> IsHttpProtocol(v.value.protocol) && Reparses(b, v.value))
  {
    hide Encode, IsProxiedPath, ClientBase, Sound, Reparses, Take, IsWebPage, RequestTarget, ReferenceOf;
    assert IsBytes(u.href) by { ReparsesBytes(b, u); }
    var r, t := LinkTo(origin, u.href), Encode(Url, u.href);
    LinkIsServed(b, origin, u);
    TargetReparses(b, origin, client, r, destination);
    match ClientBase(b, client) {
      case None => UnproxiedStays(b, origin, client, r, destination);
      case Some(base) =>
        ClientIsPage(b, client, base);
        TargetIs(b, origin, client, r, destination, b.parse(r).value, base);
        EncodeIsToken(Url, u.href);
        LinkReferences(destination, t);
    }
  }

  /** What a page or file at `client` resolves the link to `href` as. */
  function Again(b: Browser, client: string, destination: string, href: string): Option<WebUrl>
    requires (client == "" || b.parse(client).Some?) && IsBytes(href)
  {
    match ClientBase(b, client)
    case None => None
    case Some(base) => b.against(ReferenceOf(destination, "/p/" + Encode(Url, href)), base)
  }

  lemma ReparsesBytes(b: Browser, u: WebUrl)
    requires Reparses(b, u)
    ensures IsBytes(u.href) && u.href != ""
  {
  }

  lemma UnproxiedStays(b: Browser, origin: string, client: string, request: string, destination: string)
    requires client == "" || b.parse(client).Some?
    requires b.parse(request).Some? && b.parse(request).value.origin == origin && ClientBase(b, client).None?
    ensures RequestTarget(b, origin, client, request, destination).None?
  {
    hide IsProxiedPath, ClientBase, IsModuleLike;
  }

  /** The references that stand for a link name no scheme. */
  lemma LinkReferences(destination: string, t: string)
    requires IsToken(Url, t)
    ensures var ref := ReferenceOf(destination, "/p/" + t);
      ref + "" + "" == ref && Free(Take(ref, Only('/')).token, Only(':'))
  {
    hide IsToken, Take, IsModuleLike;
    TokenHasNoColon(t);
    TakeIs(t, "", Only('/'));
    TakeIs("", "/p/" + t, Only('/'));
    assert t + "" == t && "" + ("/p/" + t) == "/p/" + t;
    assert ("/p/" + t)[3..] == t;
  }

  /** Exactly when links nest: rewriting the link a request was mapped to leaves it alone
      if its target is an http(s) URL, if no proxied page or file requests it, or if that
      page or file cannot resolve it; any other link is wrapped a second time. */
  lemma NestsExactly(b: Browser, origin: string, client: string, request: string, destination: string,
                     client': string, destination': string)
    requires Sound(b, origin) && KeepsScheme(b)
    requires (client == "" || b.parse(client).Some?) && (client' == "" || b.parse(client').Some?)
    requires RequestTarget(b, origin, client, request, destination).Some?
    ensures IsBytes(RequestTarget(b, origin, client, request, destination).value.href)
    ensures var t := RequestTarget(b, origin, client, request, destination).value;
      var r := RewriteRequestURL(b, origin, client, request, destination);
      RewriteRequestURL(b, origin, client', r, destination') == r <==>
        IsHttpProtocol(t.protocol) || Again(b, client', destination', t.href).None?
  {
    var u := RequestTarget(b, origin, client, request, destination).value;
    var r := RewriteRequestURL(b, origin, client, request, destination);
    TargetReparses(b, origin, client, request, destination);
    ReparsesBytes(b, u);
    if IsHttpProtocol(u.protocol) {
      RewritesDoNotNest(b, origin, client, request, destination, client', destination');
    } else {
      LinkTarget(b, origin, u, client', destination');
      hide RequestTarget, Sound, KeepsScheme;
      var again := RequestTarget(b, origin, client', r, destination');
      if again.Some? && LinkTo(origin, again.value.href) == r {
        LinksDiffer(again.value.href, u.href, origin);
        assert false;
      }
    }
  }

  // --- module recovery ---

  /** A query and a fragment, or nothing. */
  predicate IsQuery(q: string) { q == "" || q[0] == '?' || q[0] == '#' }

  /** Section 5.2 of RFC 3986, as far as it is needed: what a relative-path reference means
      depends on the path it resolves to, and base paths are already normalised. */
  ghost predicate ResolvesPaths(b: Browser) {
    && (forall x: string :: b.parse(x).Some? ==> IsQuery(b.parse(x).value.search + b.parse(x).value.hash))
    && (forall base: string :: IsWebPage(b, base) ==> NoDots(Dir(b.pathOf(base))))
    && (forall base: string, r1: string, r2: string, q: string ::
          IsWebPage(b, base) && IsRelative(r1) && IsRelative(r2) && IsQuery(q)
          && ResolvePath(b.pathOf(base), Split(r1, '/')) == ResolvePath(b.pathOf(base), Split(r2, '/'))
          ==> b.against(r1 + q, base) == b.against(r2 + q, base))
  }

  /** The paths the runtime takes for the proxy's own. */
  function Served(b: Browser): string -> bool { path => IsProxiedPath(b, path) }

  /** Recovery: a module request that the browser made from a recoverable specifier `spec`
      in a proxied file is mapped to the URL `spec` means in the real file. */
  lemma ModuleRecovery(b: Browser, origin: string, client: string, request: string, destination: string,
                       token: string, file: string, spec: string)
    requires Sound(b, origin) && ResolvesPaths(b) && IsModuleLike(destination)
    requires b.parse(client).Some? && client != "" && ClientBase(b, client) == Some(file)
    requires IsRelative(spec) && IsRecoverable(Served(b), spec)
    requires b.parse(request).Some? && b.parse(request).value.origin == origin
    requires b.parse(request).value.pathname == Wreckage(token, spec)
    ensures var req := b.parse(request).value;
      RequestTarget(b, origin, client, request, destination) == b.against(spec + (req.search + req.hash), file)
  {
    hide Normalize, ResolvePath, Split, Join, DecodeProxied, Stays, NoDots, IsRelative, IsWebPage, HasScheme, Wreckage;
    hide RequestTarget, ClientBase, IsProxiedPath, Sound, ResolvesPaths, IsModuleLike;
    ClientIsPage(b, client, file);
    var req := b.parse(request).value;
    var segs := Split(spec, '/');
    WreckageText(token, spec);
    PagePath(b, file);
    WreckageSegments(token, b.pathOf(file), segs);
    var n := Normalize([], segs);
    var ref := Join(n, "/");
    assert req.pathname == "/p/" + ref && req.pathname[3..] == ref && "/p/" <= req.pathname;
    Assoc(ref, req.search, req.hash);
    SameReference(b, request, file, ref, spec);
    TargetIs(b, origin, client, request, destination, req, file);
  }

  lemma PagePath(b: Browser, file: string)
    requires ResolvesPaths(b) && IsWebPage(b, file)
    ensures NoDots(Dir(b.pathOf(file)))
  {
    hide NoDots, Dir, IsRelative, ResolvePath, IsWebPage;
  }

  lemma SameReference(b: Browser, request: string, file: string, r1: string, r2: string)
    requires ResolvesPaths(b) && IsWebPage(b, file) && b.parse(request).Some? && IsRelative(r1) && IsRelative(r2)
    requires ResolvePath(b.pathOf(file), Split(r1, '/')) == ResolvePath(b.pathOf(file), Split(r2, '/'))
    ensures var req := b.parse(request).value;
      b.against(r1 + (req.search + req.hash), file) == b.against(r2 + (req.search + req.hash), file)
  {
    hide NoDots, Dir, IsRelative, ResolvePath, IsWebPage, IsQuery, Split;
  }

  /** A request on the proxy's origin that is no link, such as a site's own path under
      "/p/", is still proxied: to what its path means, or, for a module, what stands after
      "/p/" in it. */
  lemma OwnPathsAreProxied(b: Browser, origin: string, client: string, request: string, destination: string,
                           base: string)
    requires Sound(b, origin) && b.parse(client).Some? && client != "" && ClientBase(b, client) == Some(base)
    requires b.parse(request).Some? && b.parse(request).value.origin == origin
    requires !IsProxiedPath(b, b.parse(request).value.pathname)
    requires var req := b.parse(request).value;
      b.against(ReferenceOf(destination, req.pathname) + req.search + req.hash, base).Some?
    ensures var req := b.parse(request).value;
      var target := RequestTarget(b, origin, client, request, destination);
      && target == b.against(ReferenceOf(destination, req.pathname) + req.search + req.hash, base)
      && IsBytes(target.value.href) && BrowserDecode(Encode(Url, target.value.href)) == Some(target.value.href)
      && RewriteRequestURL(b, origin, client, request, destination) == LinkTo(origin, target.value.href)
  {
    hide Encode, RequestTarget, ClientBase, IsProxiedPath, IsModuleLike, BrowserDecode, Sound, Reparses, IsBytes;
    var req := b.parse(request).value;
    TargetIs(b, origin, client, request, destination, req, base);
    TargetReparses(b, origin, client, request, destination);
    var target := RequestTarget(b, origin, client, request, destination).value;
    ReparsesBytes(b, target);
    LinkPath(target.href);
  }
}
