/** Where every URL of a page and every request goes, case by case, and in particular that
    none escapes the proxy. */
module Requests {
  import opened Text
  import opened Words
  import opened Base64
  import opened Link
  import opened Proxying

  /** The references that lead nowhere on the network, by how they start. */
  predicate LeadsNowhere(low: string) {
    || "#" <= low || "data:" <= low || "blob:" <= low || "mailto:" <= low || "tel:" <= low
    || "javascript:" <= low || "about:" <= low || "ws:" <= low || "wss:" <= low
  }

  lemma NonNavIs(low: string)
    ensures IsNonNav(low) <==> LeadsNowhere(low)
  {
    assert NON_NAVIGATIONAL[0] == "#" && NON_NAVIGATIONAL[1] == "data:" && NON_NAVIGATIONAL[2] == "blob:";
    assert NON_NAVIGATIONAL[3] == "mailto:" && NON_NAVIGATIONAL[4] == "tel:" && NON_NAVIGATIONAL[5] == "javascript:";
    assert NON_NAVIGATIONAL[6] == "about:" && NON_NAVIGATIONAL[7] == "ws:" && NON_NAVIGATIONAL[8] == "wss:";
  }

  /** The first segment after "/p/" is the base64 of an http or https URL. */
  ghost predicate HoldsTarget(b: Browser, path: string, target: string) {
    exists token: string, rest: string ::
      && path == "/p/" + (token + rest) && Free(token, Only('/')) && (rest == "" || rest[0] == '/')
      && token != "" && BrowserDecode(token) == Some(target)
      && b.parse(target).Some? && b.parse(target).value.protocol in {"http:", "https:"}
  }

  lemma DecodesExactly(b: Browser, path: string, target: string)
    ensures DecodeProxied(b, path) == Some(target) <==> HoldsTarget(b, path, target)
  {
    hide BrowserDecode;
    if DecodeProxied(b, path) == Some(target) {
      var t := Take(path[3..], Only('/'));
      assert path == "/p/" + (t.token + t.rest);
    }
    hide DecodeProxied;
    if HoldsTarget(b, path, target) {
      var token: string, rest: string :| path == "/p/" + (token + rest) && Free(token, Only('/'))
        && (rest == "" || rest[0] == '/') && token != "" && BrowserDecode(token) == Some(target)
        && b.parse(target).Some? && b.parse(target).value.protocol in {"http:", "https:"};
      TokenDecodes(b, path, token, rest, target);
    }
  }

  lemma TokenDecodes(b: Browser, path: string, token: string, rest: string, target: string)
    requires path == "/p/" + (token + rest) && Free(token, Only('/')) && (rest == "" || rest[0] == '/') && token != ""
    requires BrowserDecode(token) == Some(target)
    requires b.parse(target).Some? && b.parse(target).value.protocol in {"http:", "https:"}
    ensures DecodeProxied(b, path) == Some(target)
  {
    hide BrowserDecode, Free, Take;
    assert path[3..] == token + rest;
    TakeIs(token, rest, Only('/'));
  }

  /** The paths of the proxy's own: an engine asset, or a link's. */
  ghost predicate IsOwn(b: Browser, path: string) {
    "/__bumshi__/" <= path || exists target: string :: HoldsTarget(b, path, target)
  }

  lemma OwnPathsExactly(b: Browser, path: string)
    ensures IsProxiedPath(b, path) <==> IsOwn(b, path)
  {
    hide DecodeProxied, HoldsTarget;
    if DecodeProxied(b, path).Some? {
      DecodesExactly(b, path, DecodeProxied(b, path).value);
    }
    if target: string :| HoldsTarget(b, path, target) {
      DecodesExactly(b, path, target);
    }
  }

  /** The link of a URL, and that its path leads back to it. */
  ghost predicate IsLinkOf(b: Browser, origin: string, u: WebUrl, link: string) {
    && IsBytes(u.href) && link == origin + "/p/" + Encode(Url, u.href)
    && (u.protocol in {"http:", "https:"} ==> HoldsTarget(b, "/p/" + Encode(Url, u.href), u.href))
  }

  lemma LinksLeadBack(b: Browser, origin: string, u: WebUrl)
    requires Reparses(b, u)
    ensures IsBytes(u.href) && IsLinkOf(b, origin, u, LinkTo(origin, u.href))
  {
    hide Encode, DecodeProxied, HoldsTarget;
    LinkDecodes(b, u);
    DecodesExactly(b, "/p/" + Encode(Url, u.href), u.href);
    assert LinkTo(origin, u.href) == origin + "/p/" + Encode(Url, u.href);
  }

  // --- requests ---

  /** A request to another origin never leaves the proxy: for every client and destination
      it is given the link of its own URL. */
  lemma CrossOriginIsProxied(b: Browser, origin: string, client: string, request: string, destination: string)
    requires Sound(b, origin) && (client == "" || b.parse(client).Some?)
    requires b.parse(request).Some? && b.parse(request).value.origin != origin
    ensures IsLinkOf(b, origin, b.parse(request).value, RewriteRequestURL(b, origin, client, request, destination))
  {
    ParsedReparses(b, origin, request);
    hide IsLinkOf, Sound, Reparses, ClientBase, IsProxiedPath;
    LinksLeadBack(b, origin, b.parse(request).value);
  }

  lemma ParsedReparses(b: Browser, origin: string, x: string)
    requires Sound(b, origin) && b.parse(x).Some?
    ensures Reparses(b, b.parse(x).value)
  {
    hide Reparses, IsServed, IsLinkToken;
  }

  lemma ResolvedReparses(b: Browser, origin: string, x: string, y: string)
    requires Sound(b, origin) && b.against(x, y).Some?
    ensures Reparses(b, b.against(x, y).value)
  {
    hide Reparses, IsServed, IsLinkToken;
  }

  /** The path of a request as it is resolved against the client's own URL: after "/p/" for
      the scripts and workers, which the browser resolved against the file they are in. */
  function Reference(destination: string, path: string): string {
    if destination in {"script", "worker", "sharedworker", "serviceworker"} && "/p/" <= path then path[3..] else path
  }

  /** A request to the proxy's own origin: left alone when it is the proxy's already or comes
      from no proxied page, and otherwise given the link of what it means there. */
  lemma OwnOriginIsMapped(b: Browser, origin: string, client: string, request: string, destination: string,
                          page: string)
    requires Sound(b, origin) && (client == "" || b.parse(client).Some?)
    requires b.parse(request).Some? && b.parse(request).value.origin == origin
    ensures var req, r := b.parse(request).value, RewriteRequestURL(b, origin, client, request, destination);
      && (IsOwn(b, req.pathname) ==> r == request)
      && ((client == "" || !exists p: string :: HoldsTarget(b, b.parse(client).value.pathname, p)) ==> r == request)
      && (!IsOwn(b, req.pathname) && client != "" && HoldsTarget(b, b.parse(client).value.pathname, page) ==>
            match b.against(Reference(destination, req.pathname) + req.search + req.hash, page)
            case None => r == request
            case Some(u) => IsLinkOf(b, origin, u, r))
  {
    hide HoldsTarget, IsLinkOf, Sound, Reparses, IsProxiedPath, DecodeProxied, IsOwn, IsModuleLike;
    var req := b.parse(request).value;
    OwnPathsExactly(b, req.pathname);
    SameReference(destination, req.pathname);
    if client != "" {
      ClientDecodes(b, b.parse(client).value.pathname, page);
    }
    var ref := Reference(destination, req.pathname) + req.search + req.hash;
    if b.against(ref, page).Some? {
      ResolvedReparses(b, origin, ref, page);
      LinksLeadBack(b, origin, b.against(ref, page).value);
    }
    hide Reference, ReferenceOf;
  }

  lemma ClientDecodes(b: Browser, path: string, page: string)
    ensures HoldsTarget(b, path, page) ==> DecodeProxied(b, path) == Some(page)
    ensures DecodeProxied(b, path).Some? ==> exists p: string :: HoldsTarget(b, path, p)
  {
    hide HoldsTarget, DecodeProxied;
    DecodesExactly(b, path, page);
    if DecodeProxied(b, path).Some? {
      DecodesExactly(b, path, DecodeProxied(b, path).value);
    }
  }

  lemma SameReference(destination: string, path: string)
    ensures ReferenceOf(destination, path) == Reference(destination, path)
  {
  }

  lemma UnparsedStays(b: Browser, origin: string, client: string, request: string, destination: string)
    requires Sound(b, origin) && (client == "" || b.parse(client).Some?) && b.parse(request).None?
    ensures RewriteRequestURL(b, origin, client, request, destination) == request
  {
    hide Sound;
  }

  // --- a page's URLs ---

  /** A URL of a page is given the link of what it means, unless it leads nowhere, is the
      proxy's already, does not parse, or is neither http nor https. */
  lemma PageUrlsAreProxied(b: Browser, origin: string, base: string, raw: string)
    requires Sound(b, origin)
    ensures var r, abs := ToProxy(b, origin, base, raw), b.against(raw, base);
      if !LeadsNowhere(ToLower(TrimSpace(raw))) && !IsOwn(b, raw)
         && abs.Some? && abs.value.protocol in {"http:", "https:"}
         && !(abs.value.origin == origin && IsOwn(b, abs.value.pathname))
      then IsLinkOf(b, origin, abs.value, r)
      else r == raw
  {
    hide HoldsTarget, IsLinkOf, Sound, Reparses, IsProxiedPath, LeadsNowhere, IsNonNav, ToLower, TrimSpace, IsOwn;
    NonNavIs(ToLower(TrimSpace(raw)));
    OwnPathsExactly(b, raw);
    var abs := b.against(raw, base);
    if abs.Some? {
      OwnPathsExactly(b, abs.value.pathname);
      ResolvedReparses(b, origin, raw, base);
      LinksLeadBack(b, origin, abs.value);
    }
  }
}
