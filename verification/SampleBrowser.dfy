/** A browser small enough to define that meets every hypothesis on browsers, and what the
    runtime does in it. */
module SampleBrowser {
  import opened Text
  import opened Words
  import opened Base64
  import opened ModulePaths
  import opened Proxying

  const ORIGIN := "http://proxy"
  const SITE := "http://site"

  // --- its URLs ---

  /** Where the path of a reference ends: at its query or fragment. */
  function PathEnd(s: string): (n: nat)
    ensures n <= |s| && IsQuery(s[n..])
    ensures forall i | 0 <= i < n :: s[i] != '?' && s[i] != '#'
  {
    if IsQuery(s) then 0 else 1 + PathEnd(s[1..])
  }

  lemma {:induction false} PathEndIs(p: string, q: string)
    requires IsQuery(q) && forall c | c in p :: c != '?' && c != '#'
    ensures PathEnd(p + q) == |p| && (p + q)[..|p|] == p && (p + q)[|p|..] == q
  {
    if p == "" {
      assert p + q == q;
    } else {
      assert p[0] in p && (p + q)[0] == p[0] && (p + q)[1..] == p[1..] + q;
      assert forall c | c in p[1..] :: c in p;
      PathEndIs(p[1..], q);
    }
  }

  /** The two hosts it knows. */
  function Host(x: string): Option<string> {
    if ORIGIN + "/" <= x then Some(ORIGIN) else if SITE + "/" <= x then Some(SITE) else None
  }

  function AfterHost(x: string): string
    requires Host(x).Some?
  {
    x[|Host(x).value| + 1..]
  }

  function Segments(x: string): Path
    requires Host(x).Some?
  {
    var rest := AfterHost(x);
    Normalize([], Split(rest[..PathEnd(rest)], '/'))
  }

  function Query(x: string): string
    requires Host(x).Some?
  {
    AfterHost(x)[PathEnd(AfterHost(x))..]
  }

  function Located(host: string, segs: Path, q: string): Option<WebUrl> {
    var href := host + (PathText(segs) + q);
    if IsBytes(href) then Some(WebUrl(href, "http:", host, PathText(segs), q, "")) else None
  }

  function Parse(x: string): Option<WebUrl> {
    if Host(x).Some? then Located(Host(x).value, Segments(x), Query(x))
    else if "mailto:" <= x && IsBytes(x) then Some(WebUrl(x, "mailto:", "null", x[7..], "", ""))
    else None
  }

  /** What the path of a reference means against a base. */
  function TargetPath(base: string, path: string): Path
    requires Host(base).Some?
  {
    if path == "" then Segments(base)
    else if path[0] == '/' then Normalize([], Split(path[1..], '/'))
    else ResolvePath(Segments(base), Split(path, '/'))
  }

  function Against(x: string, base: string): Option<WebUrl> {
    if Parse(base).None? then None
    else if Host(x).Some? || "mailto:" <= x then Parse(x)
    else if Host(base).None? || "//" <= x || HasScheme(x) then None
    else
      var k := PathEnd(x);
      Located(Host(base).value, TargetPath(base, x[..k]), x[k..])
  }

  function PathOf(x: string): Path { if Host(x).Some? then Segments(x) else [] }

  function TheBrowser(): Browser { Browser(Parse, (x: string, y: string) => Against(x, y), PathOf) }

  // --- bytes ---

  predicate AllBytes(p: Path) { forall s | s in p :: IsBytes(s) }

  lemma {:induction false} SplitBytes(s: string)
    requires IsBytes(s)
    ensures AllBytes(Split(s, '/'))
    decreases |s|
  {
    var t := Take(s, Only('/'));
    assert s == t.token + t.rest;
    if t.rest != "" {
      assert forall i | 0 <= i < |t.rest| :: t.rest[i] == s[|t.token| + i];
      SplitBytes(t.rest[1..]);
    }
  }

  lemma {:induction false} NormalizeBytes(kept: Path, segs: Path)
    requires AllBytes(kept) && AllBytes(segs)
    ensures AllBytes(Normalize(kept, segs))
    decreases |segs|
  {
    hide IsBytes;
    assert IsBytes("") by { EmptyIsBytes(); }
    if segs != [] {
      var s, rest := segs[0], segs[1..];
      if s == "." {
        NormalizeBytes(kept, rest);
      } else if s == ".." {
        NormalizeBytes(if kept == [] then [] else kept[..|kept| - 1], rest);
      } else {
        NormalizeBytes(kept + [s], rest);
      }
    }
  }

  lemma EmptyIsBytes()
    ensures IsBytes("")
  {
  }

  lemma BytesConcat(a: string, b: string)
    ensures IsBytes(a + b) <==> IsBytes(a) && IsBytes(b)
  {
    var s := a + b;
    assert forall i | 0 <= i < |a| :: s[i] == a[i];
    assert forall i | 0 <= i < |b| :: s[|a| + i] == b[i];
  }

  lemma {:induction false} JoinBytes(p: Path)
    requires AllBytes(p)
    ensures IsBytes(Join(p, "/"))
    decreases |p|
  {
    hide IsBytes, Join;
    if p == [] {
      JoinFew("");
      EmptyIsBytes();
    } else if |p| == 1 {
      JoinFew(p[0]);
      assert p == [p[0]];
    } else {
      var r := p[1..];
      assert p == [p[0]] + r;
      JoinBytes(r);
      JoinMore(p[0], r, "/");
      SlashIsBytes();
      BytesConcat("/", Join(r, "/"));
      BytesConcat(p[0], "/" + Join(r, "/"));
    }
  }

  lemma JoinFew(s: string)
    ensures Join([], "/") == "" && Join([s], "/") == s
  {
  }

  lemma SlashIsBytes()
    ensures IsBytes("/") && IsBytes(ORIGIN) && IsBytes(SITE) && IsBytes("/p/")
  {
  }

  lemma LocatedBytes(host: string, segs: Path, q: string)
    requires AllBytes(segs) && IsBytes(q) && (host == ORIGIN || host == SITE)
    ensures Located(host, segs, q).Some?
  {
    hide IsBytes, Join;
    JoinBytes(segs);
    SlashIsBytes();
    BytesConcat("/", Join(segs, "/"));
    BytesConcat(PathText(segs), q);
    BytesConcat(host, PathText(segs) + q);
  }

  // --- it is sound ---

  lemma HostOf(host: string, rest: string)
    requires host == ORIGIN || host == SITE
    ensures Host(host + ("/" + rest)) == Some(host)
    ensures AfterHost(host + ("/" + rest)) == rest
  {
    var x := host + ("/" + rest);
    assert x[..|host| + 1] == host + "/" && x[|host| + 1..] == rest;
    assert ORIGIN[7] == 'p' && SITE[7] == 's' && x[7] == host[7];
  }

  lemma ParsesWithHost(host: string, rest: string)
    requires (host == ORIGIN || host == SITE) && IsBytes(rest)
    ensures var u := Parse(host + ("/" + rest)); u.Some? && u.value.protocol == "http:"
  {
    hide IsBytes, PathText, Normalize, Split, Host, AfterHost, PathEnd, Located;
    var x := host + ("/" + rest);
    var k := PathEnd(rest);
    HostOf(host, rest);
    assert rest == rest[..k] + rest[k..];
    BytesConcat(rest[..k], rest[k..]);
    SplitBytes(rest[..k]);
    NormalizeBytes([], Split(rest[..k], '/'));
    LocatedBytes(host, Segments(x), Query(x));
    LocatedIsHttp(host, Segments(x), Query(x));
  }

  lemma LocatedIsHttp(host: string, segs: Path, q: string)
    ensures Located(host, segs, q).Some? ==> Located(host, segs, q).value.protocol == "http:"
  {
    hide IsBytes, PathText;
  }

  /** Every URL it builds parses again. */
  lemma LocatedReparses(host: string, segs: Path, q: string)
    requires (host == ORIGIN || host == SITE) && Located(host, segs, q).Some?
    ensures Reparses(TheBrowser(), Located(host, segs, q).value)
  {
    hide IsBytes, Parse, Join;
    var u := Located(host, segs, q).value;
    var rest := Join(segs, "/") + q;
    Assoc("/", Join(segs, "/"), q);
    assert u.href == host + ("/" + rest);
    BytesConcat(host, "/" + rest);
    BytesConcat("/", rest);
    ParsesWithHost(host, rest);
  }

  lemma ParseReparses(x: string)
    requires Parse(x).Some?
    ensures Reparses(TheBrowser(), Parse(x).value)
  {
    hide Segments, Query, Reparses, IsBytes;
    if Host(x).Some? {
      LocatedReparses(Host(x).value, Segments(x), Query(x));
    } else {
      MailReparses(x);
    }
  }

  lemma MailReparses(x: string)
    requires "mailto:" <= x && IsBytes(x) && Host(x).None?
    ensures Reparses(TheBrowser(), WebUrl(x, "mailto:", "null", x[7..], "", ""))
  {
    hide IsBytes, Host;
  }

  lemma AgainstReparses(x: string, base: string)
    requires Against(x, base).Some?
    ensures Parse(base).Some? && Reparses(TheBrowser(), Against(x, base).value)
  {
    hide Reparses, IsBytes, Parse, TargetPath, Located;
    if Host(x).Some? || "mailto:" <= x {
      ParseReparses(x);
    } else {
      var k := PathEnd(x);
      LocatedReparses(Host(base).value, TargetPath(base, x[..k]), x[k..]);
    }
  }

  /** A plain file name under /p/. */
  predicate IsName(name: string) { name != "" && IsSegment(name) && NoDots([name]) && IsBytes(name) }

  lemma NameSegments(name: string)
    requires IsName(name)
    ensures var t := "p/" + name; Split(t, '/') == ["p", name] && Normalize([], ["p", name]) == ["p", name]
    ensures PathEnd("p/" + name) == |"p/" + name| && PathText(["p", name]) == "/p/" + name
  {
    hide Split, Normalize, IsSegment, IsBytes, Join, PathEnd;
    NameChars(name);
    assert "p/" + name == "p" + (['/'] + name);
    SplitOne("p", '/', name);
    SplitOne(name, '/', "");
    assert ["p"] + [name] == ["p", name];
    assert [name][0] == name;
    NormalizePlain([], ["p", name], []);
    assert ["p", name] + [] == ["p", name] == [] + ["p", name];
    LastKept(["p", name]);
    JoinMore("p", [name], "/");
    JoinFew(name);
    assert "/" + ("p" + ("/" + name)) == "/p/" + name;
    PathEndIs("p/" + name, "");
    assert "p/" + name + "" == "p/" + name;
  }

  lemma NameChars(name: string)
    requires IsSegment(name)
    ensures Free(name, Only('/')) && Free("p", Only('/')) && IsQuery("")
    ensures forall c | c in "p/" + name :: c != '?' && c != '#'
  {
    SegmentHasNoSlash(name);
    assert forall c | c in "p/" + name :: c in "p/" || c in name;
  }

  /** A request for a name under /p/ parses as it stands. */
  lemma NameRequest(name: string)
    requires IsName(name)
    ensures var x := ORIGIN + ("/p/" + name);
      Host(x) == Some(ORIGIN) && Parse(x) == Some(WebUrl(x, "http:", ORIGIN, "/p/" + name, "", ""))
  {
    hide Split, Normalize, IsBytes, PathEnd, IsName, PathText;
    var rest := "p/" + name;
    assert "/p/" + name == "/" + rest;
    HostOf(ORIGIN, rest);
    NameSegments(name);
    assert rest[..|rest|] == rest && rest[|rest|..] == "";
    NameBytes(name);
    assert "/p/" + name + "" == "/p/" + name;
  }

  lemma NameBytes(name: string)
    requires IsName(name)
    ensures IsBytes(ORIGIN + ("/p/" + name)) && IsBytes(SITE + ("/p/" + name))
  {
    hide IsBytes;
    SlashIsBytes();
    BytesConcat("/p/", name);
    BytesConcat(ORIGIN, "/p/" + name);
    BytesConcat(SITE, "/p/" + name);
  }

  lemma TokenIsName(t: string)
    requires IsLinkToken(t)
    ensures IsName(t)
  {
    forall c | c in t
      ensures IsPathChar(c) && c != '%' && c != '.' && c as int < 256
    {
      assert Value(Url, c) >= 0;
    }
    assert t[0] in t && [t][0] == t;
    assert ToLower(t)[0] == LowerChar(t[0]) != '%' && LowerChar(t[0]) != '.';
  }

  lemma LinkIsKept(t: string, base: string)
    requires IsLinkToken(t)
    ensures var x := ORIGIN + "/p/" + t;
      IsServed(Parse(x), ORIGIN, t) && (Parse(base).Some? ==> IsServed(Against(x, base), ORIGIN, t))
  {
    hide Parse, IsName, Host;
    TokenIsName(t);
    NameRequest(t);
    assert ORIGIN + "/p/" + t == ORIGIN + ("/p/" + t);
  }

  lemma IsSound()
    ensures Sound(TheBrowser(), ORIGIN)
  {
    hide Parse, Against, IsServed, Reparses, IsLinkToken;
    assert "http" <= ORIGIN;
    forall x: string | Parse(x).Some?
      ensures Reparses(TheBrowser(), Parse(x).value)
    {
      ParseReparses(x);
    }
    forall x: string, y: string | Against(x, y).Some?
      ensures Parse(y).Some? && Reparses(TheBrowser(), Against(x, y).value)
    {
      AgainstReparses(x, y);
    }
    forall t: string | IsLinkToken(t)
      ensures IsServed(Parse(ORIGIN + "/p/" + t), ORIGIN, t)
    {
      LinkIsKept(t, "");
    }
    forall t: string, y: string | IsLinkToken(t) && Parse(y).Some?
      ensures IsServed(Against(ORIGIN + "/p/" + t, y), ORIGIN, t)
    {
      LinkIsKept(t, y);
    }
  }

  // --- it resolves paths, and keeps schemes ---

  /** What starts with letters and a colon has a scheme. */
  lemma StartsWithScheme(scheme: string, x: string)
    requires scheme + ":" <= x && scheme != "" && forall c | c in scheme :: IsLetter(c)
    ensures HasScheme(x)
  {
    var k := |scheme|;
    assert forall i | 0 <= i < k :: x[i] == (scheme + ":")[i] == scheme[i] && scheme[i] in scheme;
    assert x[k] == (scheme + ":")[k] == ':';
    FindIs(x, Only(':'), k);
  }

  /** Without a slash before it, a character stands in the first segment. */
  lemma Before(x: string, n: nat)
    requires n < |x| && Free(Take(x, Only('/')).token, Only(':'))
    ensures (forall i | 0 <= i <= n :: x[i] != '/') ==> x[n] != ':'
  {
    var t := Take(x, Only('/'));
    assert x == t.token + t.rest;
    assert t.rest != "" ==> x[|t.token|] == t.rest[0] == '/';
    assert n < |t.token| ==> x[n] == t.token[n] && !In(t.token[n], Only(':'));
  }

  lemma RelativeHasNoHost(r: string, q: string)
    requires IsRelative(r) && IsQuery(q)
    ensures Host(r + q).None? && !("mailto:" <= r + q) && !("//" <= r + q) && !HasScheme(r + q)
  {
    hide HasScheme, IsSegment, Split;
    SchemeIsFirst(r, q);
    assert (r + q)[0] == r[0] && "//"[0] == '/';
    if Host(r + q).Some? {
      HostIsScheme(Host(r + q).value, r + q);
    }
    if "mailto:" <= r + q {
      StartsWithScheme("mailto", r + q);
    }
  }

  lemma HostIsScheme(host: string, x: string)
    requires (host == ORIGIN || host == SITE) && host + "/" <= x
    ensures HasScheme(x)
  {
    hide HasScheme;
    assert forall i | 0 <= i < 5 :: x[i] == (host + "/")[i] == host[i];
    assert x[..5] == "http" + ":";
    StartsWithScheme("http", x);
  }

  lemma {:induction false} SplitChars(s: string, c: char)
    requires c in s && c != '/'
    ensures exists t | t in Split(s, '/') :: c in t
    decreases |s|
  {
    var t := Take(s, Only('/'));
    assert s == t.token + t.rest;
    if t.rest == "" {
      assert t.token == s && s in Split(s, '/');
    } else if c in t.token {
      assert t.token in Split(s, '/');
    } else {
      assert t.rest == ['/'] + t.rest[1..];
      SplitChars(t.rest[1..], c);
    }
  }

  lemma RelativeChars(r: string)
    requires IsRelative(r)
    ensures forall c | c in r :: c != '?' && c != '#'
  {
    hide Split;
    forall c | c in r && c != '/'
      ensures c != '?' && c != '#'
    {
      SplitChars(r, c);
    }
  }

  /** A relative reference is resolved by its path alone. */
  lemma RelativeTarget(r: string, q: string, base: string)
    requires IsRelative(r) && IsQuery(q) && Host(base).Some? && Parse(base).Some?
    ensures Against(r + q, base) == Located(Host(base).value, ResolvePath(Segments(base), Split(r, '/')), q)
  {
    hide Host, Parse, Located, Segments, ResolvePath, Split, IsQuery;
    RelativeHasNoHost(r, q);
    RelativeChars(r);
    PathEndIs(r, q);
  }

  lemma PageHasHost(x: string)
    requires IsWebPage(TheBrowser(), x)
    ensures Host(x).Some? && Parse(x).Some?
  {
    hide Located, Segments, Query;
    assert !IsHttpProtocol("mailto:");
  }

  lemma SegmentsHaveNoDots(x: string)
    requires Host(x).Some?
    ensures NoDots(Segments(x)) && NoDots(Dir(Segments(x)))
  {
    hide Normalize, Split;
    var rest := AfterHost(x);
    NormalizeHasNoDots([], Split(rest[..PathEnd(rest)], '/'));
  }

  lemma QueryIsQuery(x: string)
    requires Parse(x).Some?
    ensures IsQuery(Parse(x).value.search + Parse(x).value.hash)
  {
    hide Segments, IsBytes;
    if Host(x).Some? {
      assert Query(x) + "" == Query(x);
    }
  }

  lemma DoesResolvePaths()
    ensures ResolvesPaths(TheBrowser())
  {
    hide IsWebPage, Parse, Against, IsQuery, NoDots, IsRelative, ResolvePath, Split, Segments, Host, Located;
    forall x: string | Parse(x).Some?
      ensures IsQuery(Parse(x).value.search + Parse(x).value.hash)
    {
      QueryIsQuery(x);
    }
    forall base: string | IsWebPage(TheBrowser(), base)
      ensures Host(base).Some? && NoDots(Dir(Segments(base)))
    {
      PageHasHost(base);
      SegmentsHaveNoDots(base);
    }
    forall base: string, r: string, q: string | IsWebPage(TheBrowser(), base) && IsRelative(r) && IsQuery(q)
      ensures Against(r + q, base) == Located(Host(base).value, ResolvePath(Segments(base), Split(r, '/')), q)
    {
      PageHasHost(base);
      RelativeTarget(r, q, base);
    }
  }

  lemma DoesKeepSchemes()
    ensures KeepsScheme(TheBrowser())
  {
    hide IsWebPage, Take;
    forall x: string, y: string |
      IsWebPage(TheBrowser(), y) && Against(x, y).Some? && Free(Take(x, Only('/')).token, Only(':'))
      ensures IsHttpProtocol(Against(x, y).value.protocol)
    {
      KeptScheme(x, y);
    }
  }

  lemma KeptScheme(x: string, y: string)
    requires Against(x, y).Some? && Free(Take(x, Only('/')).token, Only(':'))
    ensures IsHttpProtocol(Against(x, y).value.protocol)
  {
    hide Segments, Query, TargetPath;
    if "mailto:" <= x {
      Before(x, 6);
    }
  }

  // --- the runtime in it ---

  /** The link of a page decodes back to it. */
  lemma PageIsClient(page: string)
    requires Host(page) == Some(SITE) && IsBytes(page)
    ensures var b, client := TheBrowser(), LinkTo(ORIGIN, page);
      && client != "" && b.parse(client).Some? && ClientBase(b, client) == Some(page) && Parse(page).Some?
  {
    hide Encode, DecodeProxied, Sound, IsBytes, Parse;
    var b := TheBrowser();
    var rest := AfterHost(page);
    assert page == SITE + ("/" + rest);
    BytesConcat(SITE, "/" + rest);
    BytesConcat("/", rest);
    ParsesWithHost(SITE, rest);
    var u := WebUrl(page, "http:", "", "", "", "");
    IsSound();
    LinkIsServed(b, ORIGIN, u);
    LinkDecodes(b, u);
    LinkIsAbsolute(b, ORIGIN, page);
  }

  /** A request for a name that is no token. */
  lemma NameIsUnproxied(name: string)
    requires IsName(name) && BrowserDecode(name) == None
    ensures !IsProxiedPath(TheBrowser(), "/p/" + name)
  {
    hide BrowserDecode, IsSegment, IsBytes;
    NameChars(name);
    TakeIs(name, "", Only('/'));
    assert name + "" == name && ("/p/" + name)[3..] == name;
    assert ENGINE[1] == '_' && ("/p/" + name)[1] == 'p';
  }

  /** What a module's request for a name that is no token is mapped to: the name, read
      against the file, whatever it means there. */
  lemma NameTarget(page: string, name: string)
    requires Host(page) == Some(SITE) && IsBytes(page) && IsName(name) && BrowserDecode(name) == None
    ensures var b, client := TheBrowser(), LinkTo(ORIGIN, page);
      && b.parse(client).Some?
      && RequestTarget(b, ORIGIN, client, ORIGIN + ("/p/" + name), "script") == Against(name, page)
  {
    hide *;
    var b, client, request := TheBrowser(), LinkTo(ORIGIN, page), ORIGIN + ("/p/" + name);
    PageIsClient(page);
    NameRequest(name);
    NameIsUnproxied(name);
    TheBrowserIs();
    TargetIs(b, ORIGIN, client, request, "script", Parse(request).value, page);
    Stripped(name);
  }

  lemma TheBrowserIs()
    ensures TheBrowser().parse == Parse && forall x: string, y: string :: TheBrowser().against(x, y) == Against(x, y)
  {
  }

  lemma Stripped(name: string)
    ensures IsModuleLike("script") && ReferenceOf("script", "/p/" + name) + "" + "" == name
  {
    assert ("/p/" + name)[3..] == name;
  }

  const PAGE := "http://site/a/b.js"

  lemma PagePlace()
    ensures Host(PAGE) == Some(SITE) && IsBytes(PAGE) && Segments(PAGE) == ["a", "b.js"] && Parse(PAGE).Some?
  {
    hide Host, Parse, IsBytes, Split, Normalize, PathEnd, AfterHost;
    var rest := "a/b.js";
    RestIsBytes();
    BytesConcat(SITE, "/" + rest);
    assert PAGE == SITE + ("/" + rest);
    HostOf(SITE, rest);
    PathEndIs(rest, "");
    assert rest + "" == rest && rest[..|rest|] == rest;
    RestSplits();
    NormalizePlain([], ["a", "b.js"], []);
    assert ["a", "b.js"] + [] == ["a", "b.js"] == [] + ["a", "b.js"];
    LastKept(["a", "b.js"]);
    ParsesWithHost(SITE, rest);
  }

  lemma RestIsBytes()
    ensures IsBytes("a/b.js") && IsBytes(SITE) && IsBytes("/" + "a/b.js")
  {
    BytesConcat("/", "a/b.js");
  }

  lemma RestSplits()
    ensures Split("a/b.js", '/') == ["a", "b.js"] && IsQuery("")
  {
    hide Split;
    SplitOne("a", '/', "b.js");
    SplitOne("b.js", '/', "");
    assert "a/b.js" == "a" + (['/'] + "b.js") && ["a"] + ["b.js"] == ["a", "b.js"];
  }

  lemma SampleNames()
    ensures IsName("x.js") && IsRelative("x.js") && Split("x.js", '/') == ["x.js"] && BrowserDecode("x.js") == None
    ensures NoDots(["x.js"])
  {
    hide BrowserDecode, Split;
    NotReadable("x.js", 1);
    SplitOne("x.js", '/', "");
    assert ["x.js"][0] == "x.js";
  }

  /** Recovery at work: a script that asks for "x.js" from http://site/a/b.js is given
      http://site/a/x.js, and not the http://site/p/x.js that the request itself names. */
  lemma RecoveryHappens()
    ensures var b, client := TheBrowser(), LinkTo(ORIGIN, PAGE);
      && Sound(b, ORIGIN) && ResolvesPaths(b) && b.parse(client).Some?
      && RequestTarget(b, ORIGIN, client, ORIGIN + ("/p/" + "x.js"), "script") == Located(SITE, ["a", "x.js"], "")
      && b.against("/p/x.js", PAGE) == Located(SITE, ["p", "x.js"], "")
      && Located(SITE, ["a", "x.js"], "") != Located(SITE, ["p", "x.js"], "")
  {
    hide *;
    PagePlace();
    var b, client, token, request := TheBrowser(), LinkTo(ORIGIN, PAGE), Encode(Url, PAGE), ORIGIN + ("/p/" + "x.js");
    SampleNames();
    TheBrowserIs();
    IsSound();
    DoesResolvePaths();
    PageIsClient(PAGE);
    NameRequest("x.js");
    NameIsUnproxied("x.js");
    OneSegment(token, "x.js");
    ModuleRecovery(b, ORIGIN, client, request, "script", token, PAGE, "x.js");
    BesideThePage();
    RootedTarget();
    Apart();
  }

  /** A one-segment specifier climbs nowhere, and this is the request it makes. */
  lemma OneSegment(token: string, name: string)
    requires IsRelative(name) && Split(name, '/') == [name] && NoDots([name])
    requires !IsProxiedPath(TheBrowser(), "/p/" + name)
    ensures IsRecoverable(Served(TheBrowser()), name) && Wreckage(token, name) == "/p/" + name
    ensures IsModuleLike("script") && name + ("" + "") == name
  {
    hide Split, IsSegment, HasScheme, IsProxiedPath, Join;
    JoinFew(name);
    assert [name][0] == name && [name][1..] == [];
    assert Normalize([], [name]) == Normalize([] + [name], []) == [name];
    ResolveUnder(["p", token], [name]);
    assert Dir(["p", token]) == ["p"];
    JoinMore("p", [name], "/");
    assert "/" + ("p" + ("/" + name)) == "/p/" + name;
  }

  lemma BesideThePage()
    ensures Against("x.js", PAGE) == Located(SITE, ["a", "x.js"], "")
  {
    hide *;
    PagePlace();
    SampleNames();
    RestSplits();
    RelativeTarget("x.js", "", PAGE);
    assert "x.js" + "" == "x.js";
    PageNeighbour("x.js");
  }

  lemma PageNeighbour(name: string)
    requires NoDots([name])
    ensures ResolvePath(["a", "b.js"], [name]) == ["a", name]
  {
    assert [name][0] == name && Dir(["a", "b.js"]) == ["a"];
    ResolvePlain(["a", "b.js"], [name]);
    assert ["a"] + [name] == ["a", name];
  }

  /** A rooted reference keeps the host alone. */
  lemma RootedReference(x: string, base: string)
    requires Host(base).Some? && Parse(base).Some? && "/" <= x && !("//" <= x)
    requires forall c | c in x :: c != '?' && c != '#'
    ensures Against(x, base) == Located(Host(base).value, Normalize([], Split(x[1..], '/')), "")
  {
    hide Parse, Located, Split, Normalize, Segments;
    PathEndIs(x, "");
    assert x + "" == x && x[..|x|] == x && x[|x|..] == "";
    assert ORIGIN[0] == 'h' && SITE[0] == 'h' && "mailto:"[0] == 'm';
    assert !HasScheme(x) by { assert !IsLetter('/'); }
  }

  lemma IsRooted(rest: string)
    requires rest != "" && rest[0] != '/' && forall c | c in rest :: c != '?' && c != '#'
    ensures var x := "/" + rest; "/" <= x && !("//" <= x) && x[1..] == rest && forall c | c in x :: c != '?' && c != '#'
  {
    var x := "/" + rest;
    assert x[1] == rest[0] && "//"[1] == '/';
    assert forall c | c in x :: c in "/" || c in rest;
  }

  lemma RootedTarget()
    ensures Against("/p/x.js", PAGE) == Located(SITE, ["p", "x.js"], "")
  {
    hide *;
    PagePlace();
    SampleNames();
    NameSegments("x.js");
    IsRooted("p/x.js");
    RootedReference("/p/x.js", PAGE);
    assert "p/" + "x.js" == "p/x.js" == "/p/x.js"[1..];
  }

  lemma Apart()
    ensures Located(SITE, ["a", "x.js"], "") != Located(SITE, ["p", "x.js"], "")
  {
    hide Join;
    JoinMore("a", ["x.js"], "/");
    JoinMore("p", ["x.js"], "/");
    JoinFew("x.js");
    assert ["a"] + ["x.js"] == ["a", "x.js"] && ["p"] + ["x.js"] == ["p", "x.js"];
    assert PathText(["a", "x.js"]) == "/a/x.js" && PathText(["p", "x.js"]) == "/p/x.js";
    LocatedApart(["a", "x.js"], ["p", "x.js"]);
  }

  lemma LocatedApart(p1: Path, p2: Path)
    requires IsBytes(PathText(p1)) && PathText(p1) != PathText(p2)
    ensures Located(SITE, p1, "") != Located(SITE, p2, "")
  {
    hide PathText, IsBytes;
    var t1, t2 := PathText(p1), PathText(p2);
    assert t1 + "" == t1 && t2 + "" == t2;
    SlashIsBytes();
    BytesConcat(SITE, t1);
    assert (SITE + t1)[|SITE|..] == t1 && (SITE + t2)[|SITE|..] == t2;
  }

  // --- a specifier that is lost ---

  const LOST := ".//x.js"

  lemma LostSegments()
    ensures Split("/x.js", '/') == ["", "x.js"] && Split(LOST, '/') == [".", "", "x.js"]
    ensures Split("p//x.js", '/') == ["p", "", "x.js"] && Split("x.js", '/') == ["x.js"]
  {
    hide Split;
    SplitOne("x.js", '/', "");
    assert "/x.js" == "" + (['/'] + "x.js") && [""] + ["x.js"] == ["", "x.js"];
    SplitOne("", '/', "x.js");
    assert LOST == "." + (['/'] + "/x.js") && ["."] + ["", "x.js"] == [".", "", "x.js"];
    SplitOne(".", '/', "/x.js");
    assert "p//x.js" == "p" + (['/'] + "/x.js") && ["p"] + ["", "x.js"] == ["p", "", "x.js"];
    SplitOne("p", '/', "/x.js");
  }

  lemma LostNormalises()
    ensures Normalize([], [".", "", "x.js"]) == ["", "x.js"] && Stays(0, [".", "", "x.js"])
    ensures Normalize([], ["p", "", "x.js"]) == ["p", "", "x.js"] && Normalize([], ["x.js"]) == ["x.js"]
    ensures ResolvePath(["a", "b.js"], [".", "", "x.js"]) == ["a", "", "x.js"]
  {
    assert [".", "", "x.js"][1..] == ["", "x.js"] && ["", "x.js"][1..] == ["x.js"] && ["x.js"][1..] == [];
    PlainStays(["", "x.js"]);
    PlainStays(["p", "", "x.js"]);
    PlainStays(["x.js"]);
    assert Normalize([], [".", "", "x.js"]) == Normalize([], ["", "x.js"]);
    hide Normalize;
    ResolveUnder(["a", "b.js"], [".", "", "x.js"]);
    assert Dir(["a", "b.js"]) == ["a"] && ["a"] + ["", "x.js"] == ["a", "", "x.js"];
  }

  lemma PlainStays(p: Path)
    requires NoDots(p)
    ensures Normalize([], p) == p
  {
    hide Normalize;
    NormalizePlain([], p, []);
    assert p + [] == p == [] + p;
    LastKept(p);
  }

  lemma LostIsRelative()
    ensures IsRelative(LOST)
  {
    LostSegments();
    hide Split;
    assert !HasScheme(LOST) by { assert LOST[0] == '.' && !IsLetter('.'); }
    forall t | t in [".", "", "x.js"]
      ensures IsSegment(t)
    {
      LostAreSegments();
    }
  }

  lemma LostAreSegments()
    ensures IsSegment(".") && IsSegment("") && IsSegment("x.js")
  {
    assert ToLower(".") == "." && ToLower("x.js")[0] == 'x';
  }

  lemma LostRequest(token: string)
    ensures Wreckage(token, LOST) == "/p//x.js"
    ensures Parse(ORIGIN + "/p//x.js") == Some(WebUrl(ORIGIN + "/p//x.js", "http:", ORIGIN, "/p//x.js", "", ""))
  {
    hide Split, Normalize, Join, PathEnd, Wreckage, Host, AfterHost, IsRelative;
    LostSegments();
    LostNormalises();
    LostIsRelative();
    WreckageIs(token, LOST);
    LostText();
    assert ORIGIN + "/p//x.js" == ORIGIN + ("/" + "p//x.js");
    HostOf(ORIGIN, "p//x.js");
    PathEndIs("p//x.js", "");
    assert "p//x.js" + "" == "p//x.js" && "/p//x.js" + "" == "/p//x.js" && "p//x.js"[..|"p//x.js"|] == "p//x.js";
  }

  lemma LostText()
    ensures Join(["", "x.js"], "/") == "/x.js" && PathText(["p", "", "x.js"]) == "/p//x.js"
    ensures PathText(["x.js"]) == "/x.js" && PathText(["a", "", "x.js"]) == "/a//x.js"
  {
    hide Join;
    JoinFew("x.js");
    JoinMore("", ["x.js"], "/");
    JoinMore("p", ["", "x.js"], "/");
    JoinMore("a", ["", "x.js"], "/");
    assert [""] + ["x.js"] == ["", "x.js"];
    assert ["p"] + ["", "x.js"] == ["p", "", "x.js"] && ["a"] + ["", "x.js"] == ["a", "", "x.js"];
  }

  lemma EmptyTokenIsUnproxied(rest: string)
    requires rest != "" && rest[0] == '/'
    ensures !IsProxiedPath(TheBrowser(), "/p/" + rest)
  {
    hide BrowserDecode;
    TakeIs("", rest, Only('/'));
    assert "" + rest == rest && ("/p/" + rest)[3..] == rest;
    assert ENGINE[1] == '_' && ("/p/" + rest)[1] == 'p';
  }

  lemma LostIsUnproxied()
    ensures !IsProxiedPath(TheBrowser(), "/p//x.js") && ReferenceOf("script", "/p//x.js") + "" + "" == "/x.js"
  {
    hide *;
    EmptyTokenIsUnproxied("/x.js");
    Stripped("/x.js");
    assert "/p/" + "/x.js" == "/p//x.js";
  }

  /** The empty first segment: from http://site/a/b.js, ".//x.js" means
      http://site/a//x.js, and the script is given http://site/x.js. */
  lemma EmptySegmentIsLost(token: string)
    ensures var b, client := TheBrowser(), LinkTo(ORIGIN, PAGE);
      && IsRelative(LOST) && Stays(0, Split(LOST, '/')) && !IsRecoverable(Served(b), LOST)
      && b.parse(client).Some? && b.parse(ORIGIN + Wreckage(token, LOST)).Some?
      && RequestTarget(b, ORIGIN, client, ORIGIN + Wreckage(token, LOST), "script") == Located(SITE, ["x.js"], "")
      && b.against(LOST, PAGE) == Located(SITE, ["a", "", "x.js"], "")
      && Located(SITE, ["x.js"], "") != Located(SITE, ["a", "", "x.js"], "")
  {
    hide *;
    PagePlace();
    var b, client, request := TheBrowser(), LinkTo(ORIGIN, PAGE), ORIGIN + "/p//x.js";
    PageIsClient(PAGE);
    LostRequest(token);
    LostSegments();
    LostNormalises();
    LostIsRelative();
    LostIsUnproxied();
    NotRecoverable();
    TheBrowserIs();
    TargetIs(b, ORIGIN, client, request, "script", Parse(request).value, PAGE);
    LostIsRooted();
    RestSplits();
    RelativeTarget(LOST, "", PAGE);
    assert LOST + "" == LOST;
    LostApart();
  }

  lemma NotRecoverable()
    requires Split(LOST, '/') == [".", "", "x.js"] && Normalize([], [".", "", "x.js"]) == ["", "x.js"]
    ensures !IsRecoverable(Served(TheBrowser()), LOST)
  {
    hide Split, Normalize, IsProxiedPath;
    assert ["", "x.js"][0] == "";
  }

  lemma LostIsRooted()
    ensures Against("/x.js", PAGE) == Located(SITE, ["x.js"], "")
  {
    hide *;
    PagePlace();
    XIsPlain();
    IsRooted("x.js");
    RootedReference("/x.js", PAGE);
    LostSegments();
    LostNormalises();
  }

  lemma XIsPlain()
    ensures "x.js" != "" && "x.js"[0] != '/' && (forall c | c in "x.js" :: c != '?' && c != '#')
    ensures "/" + "x.js" == "/x.js"
  {
  }

  lemma LostApart()
    ensures Located(SITE, ["x.js"], "") != Located(SITE, ["a", "", "x.js"], "")
  {
    hide Join;
    LostText();
    LocatedApart(["x.js"], ["a", "", "x.js"]);
  }

  /** Nesting at work: a script that asks for a mailto name is given a link to it, and when
      it asks for that link it is given a link to something else. */
  lemma NestingHappens(page: string, mail: string)
    requires Host(page) == Some(SITE) && IsBytes(page) && IsName(mail) && IsBytes(mail) && "mailto:" <= mail
    ensures var b, client := TheBrowser(), LinkTo(ORIGIN, page);
      && Sound(b, ORIGIN) && b.parse(client).Some?
      && var r := RewriteRequestURL(b, ORIGIN, client, ORIGIN + ("/p/" + mail), "script");
      && r == LinkTo(ORIGIN, mail)
      && RewriteRequestURL(b, ORIGIN, client, r, "script") != r
  {
    hide *;
    var b, client, request := TheBrowser(), LinkTo(ORIGIN, page), ORIGIN + ("/p/" + mail);
    IsSound();
    DoesKeepSchemes();
    PageIsClient(page);
    MailIsMail(mail, page);
    NameTarget(page, mail);
    MailIsNotEmpty(mail);
    LinkResolves(page, mail);
    NestsExactly(b, ORIGIN, client, request, "script", client, "script");
    RewriteIs(b, client, request);
  }

  lemma MailIsNotEmpty(mail: string)
    requires "mailto:" <= mail
    ensures mail != ""
  {
  }

  lemma RewriteIs(b: Browser, client: string, request: string)
    requires Sound(b, ORIGIN) && (client == "" || b.parse(client).Some?)
    requires RequestTarget(b, ORIGIN, client, request, "script").Some?
    ensures var u := RequestTarget(b, ORIGIN, client, request, "script").value;
      IsBytes(u.href) && RewriteRequestURL(b, ORIGIN, client, request, "script") == LinkTo(ORIGIN, u.href)
  {
    hide RequestTarget, Sound, IsBytes;
    TargetReparses(b, ORIGIN, client, request, "script");
  }

  lemma MailIsMail(mail: string, page: string)
    requires Parse(page).Some? && IsName(mail) && "mailto:" <= mail
    ensures BrowserDecode(mail) == None && !IsHttpProtocol("mailto:")
    ensures Against(mail, page) == Some(WebUrl(mail, "mailto:", "null", mail[7..], "", ""))
  {
    hide Segments, Query, Located, BrowserDecode, IsSegment, NoDots;
    NotReadable(mail, 6);
    assert mail[0] == 'm' && ORIGIN[0] == 'h' && SITE[0] == 'h';
  }

  /** The file resolves the token of a link. */
  lemma LinkResolves(page: string, href: string)
    requires Host(page) == Some(SITE) && IsBytes(page) && IsBytes(href) && href != ""
    ensures var client := LinkTo(ORIGIN, page);
      TheBrowser().parse(client).Some? && Again(TheBrowser(), client, "script", href).Some?
  {
    hide *;
    var t := Encode(Url, href);
    IsSound();
    PageIsClient(page);
    TheBrowserIs();
    Stripped(t);
    LinkIsAbsolute(TheBrowser(), ORIGIN, href);
    TokenResolves(t, page);
    AgainIs(LinkTo(ORIGIN, page), page, href);
  }

  lemma AgainIs(client: string, page: string, href: string)
    requires TheBrowser().parse(client).Some? && ClientBase(TheBrowser(), client) == Some(page) && IsBytes(href)
    ensures Again(TheBrowser(), client, "script", href) == Against(Encode(Url, href), page)
  {
    hide ClientBase, Encode, IsBytes, Against, Parse;
    assert ("/p/" + Encode(Url, href))[3..] == Encode(Url, href);
  }

  lemma TokenResolves(t: string, page: string)
    requires IsLinkToken(t) && Host(page) == Some(SITE) && Parse(page).Some? && IsBytes(page)
    ensures Against(t, page).Some?
  {
    hide *;
    TokenIsName(t);
    LinkTokenIsRelative(t);
    RelativeTarget(t, "", page);
    assert t + "" == t;
    NeighbourIsBytes(page, t);
  }

  lemma NeighbourIsBytes(page: string, t: string)
    requires Host(page) == Some(SITE) && IsBytes(page) && IsBytes(t)
    ensures Located(SITE, ResolvePath(Segments(page), [t]), "").Some?
  {
    hide Normalize, Split, IsBytes, Located, PathEnd;
    var rest := AfterHost(page);
    var k := PathEnd(rest);
    assert page == page[..|SITE| + 1] + (rest[..k] + rest[k..]);
    BytesConcat(page[..|SITE| + 1], rest[..k] + rest[k..]);
    BytesConcat(rest[..k], rest[k..]);
    SplitBytes(rest[..k]);
    NormalizeBytes([], Split(rest[..k], '/'));
    EmptyIsBytes();
    var d := Segments(page);
    NormalizeBytes([], (if d == [] then [] else d[..|d| - 1]) + [t]);
    LocatedBytes(SITE, ResolvePath(d, [t]), "");
  }

  lemma LinkTokenIsRelative(t: string)
    requires IsLinkToken(t) && IsName(t)
    ensures IsRelative(t) && Split(t, '/') == [t] && IsQuery("") && IsBytes(t)
  {
    hide IsSegment, Split, IsBytes, IsToken;
    TokenHasNoColon(t);
    SplitOne(t, '/', "");
    assert !In(t[0], Only('/'));
  }
}
