/** Cookie namespacing: the scope a cookie belongs to, the name prefix that encodes it,
    and the prefixes whose cookies belong on a request. */
module CookieScope {
  import opened Text
  import opened Words
  import opened Hash
  import opened Sequences

  function TrimPrefixDot(s: string): string { if s != "" && s[0] == '.' then s[1..] else s }

  function TrimSuffixDot(s: string): string { if s != "" && s[|s| - 1] == '.' then s[..|s| - 1] else s }

  /** A host name as the scopes compare it. */
  function Host(h: string): string { ToLower(TrimSuffixDot(h)) }

  predicate HasDot(s: string) { '.' in s }

  /** cookieScope of the server. */
  function Scope(domainAttr: string, requestHost: string): (string, bool) {
    var host := Host(requestHost);
    var d := TrimSuffixDot(TrimPrefixDot(ToLower(TrimSpace(domainAttr))));
    if d == "" || !HasDot(d) then (host, false)
    else if d != host && !HasSuffix(host, "." + d) then (host, false)
    else (d, true)
  }

  /** JavaScript's `s.slice(-n)`. */
  function SliceLast(s: string, n: nat): string { if n <= |s| then s[|s| - n..] else s }

  /** cookieScope of the browser runtime. */
  function BrowserScope(domainAttr: string, requestHost: string): (string, bool) {
    var host := TrimSuffixDot(ToLower(requestHost));
    var d := TrimSuffixDot(TrimPrefixDot(ToLower(TrimSpace(domainAttr))));
    if d == "" || !HasDot(d) then (host, false)
    else if SliceLast("." + host, |d| + 1) != "." + d then (host, false)
    else (d, true)
  }

  lemma LowerKeepsDots(s: string)
    ensures TrimSuffixDot(ToLower(s)) == ToLower(TrimSuffixDot(s))
  {
    if s != "" {
      assert (ToLower(s)[|s| - 1] == '.') == (s[|s| - 1] == '.');
    }
  }

  lemma SliceIsSuffix(host: string, d: string)
    ensures SliceLast("." + host, |d| + 1) == "." + d <==> d == host || HasSuffix(host, "." + d)
  {
    var s, n := "." + host, |d| + 1;
    if n < |s| {
      assert s[|s| - n..] == host[|host| - n..];
    } else if n == |s| {
      assert s[0..] == s;
      assert s == "." + d ==> s[1..] == ("." + d)[1..];
    }
  }

  /** The server and the browser choose the same scope, for every Domain and host. */
  lemma ScopesAgree(domainAttr: string, requestHost: string)
    ensures BrowserScope(domainAttr, requestHost) == Scope(domainAttr, requestHost)
  {
    LowerKeepsDots(requestHost);
    hide ToLower, TrimSpace, SliceLast, HasSuffix;
    var d := TrimSuffixDot(TrimPrefixDot(ToLower(TrimSpace(domainAttr))));
    SliceIsSuffix(Host(requestHost), d);
  }

  // --- name prefixes ---

  function Kind(domainMatch: bool): string { if domainMatch then "d" else "h" }

  function Prefix(scope: string, domainMatch: bool): string {
    "b_" + Hex(Fnv(ToLower(scope))) + Kind(domainMatch) + "_"
  }

  method CookiePrefix(scope: string, domainMatch: bool) returns (p: string)
    ensures p == Prefix(scope, domainMatch)
  {
    var h := Fnv1a64(ToLower(scope));
    p := "b_" + Hex(h) + (if domainMatch then "d" else "h") + "_";
  }

  method BrowserCookiePrefix(scope: string, domainMatch: bool) returns (p: string)
    ensures p == Prefix(scope, domainMatch)
  {
    var h := Fnv1a64Masked(scope);
    p := "b_" + Hex(h) + (if domainMatch then "d" else "h") + "_";
  }

  lemma LowerTwice(s: string)
    ensures ToLower(ToLower(s)) == ToLower(s)
  {
  }

  lemma PrefixBody(scope: string, dm: bool, name: string)
    requires Prefix(scope, dm) <= name
    ensures Take(name[2..], Only('_')).token == Hex(Fnv(ToLower(scope))) + Kind(dm)
  {
    var body := Hex(Fnv(ToLower(scope))) + Kind(dm);
    var rest := name[|Prefix(scope, dm)|..];
    HexChars(Fnv(ToLower(scope)));
    hide Hex, Fnv, ToLower;
    assert name == Prefix(scope, dm) + rest;
    assert name[2..] == body + ("_" + rest);
    forall i | 0 <= i < |body|
      ensures body[i] != '_'
    {
      assert i < |body| - 1 ==> body[i] in DIGITS;
    }
    TakeIs(body, "_" + rest, Only('_'));
  }

  /** At most one prefix fits a name, although the hash varies in length and may hold a
      'd': a name determines the kind of its scope and the scope's hash. */
  lemma PrefixIsUnique(s1: string, d1: bool, s2: string, d2: bool, name: string)
    requires Prefix(s1, d1) <= name && Prefix(s2, d2) <= name
    ensures d1 == d2 && Fnv(ToLower(s1)) == Fnv(ToLower(s2)) && Prefix(s1, d1) == Prefix(s2, d2)
  {
    PrefixBody(s1, d1, name);
    PrefixBody(s2, d2, name);
    var a, b := Hex(Fnv(ToLower(s1))), Hex(Fnv(ToLower(s2)));
    assert a + Kind(d1) == b + Kind(d2);
    assert (a + Kind(d1))[..|a|] == a && (b + Kind(d2))[..|b|] == b;
    assert (a + Kind(d1))[|a|] == Kind(d1)[0] && (b + Kind(d2))[|b|] == Kind(d2)[0];
    HexInjective(Fnv(ToLower(s1)), Fnv(ToLower(s2)));
  }

  // --- the scopes of a request ---

  /** The parents of a host that have two labels or more, nearest first. */
  function Parents(h: string): seq<string>
    decreases |h|
  {
    var dot := Find(h, Only('.'));
    if dot == |h| then []
    else
      var rest := h[dot + 1..];
      if !HasDot(rest) then [] else [rest] + Parents(rest)
  }

  lemma {:induction false} ParentsAreSuffixes(h: string, p: string)
    ensures p in Parents(h) <==> HasDot(p) && HasSuffix(h, "." + p)
    decreases |h|
  {
    var dot := Find(h, Only('.'));
    if dot == |h| {
      NoDotNoSuffix(h, p);
    } else {
      var rest := h[dot + 1..];
      SuffixAfterDot(h, dot, p);
      if HasDot(rest) {
        ParentsAreSuffixes(rest, p);
      } else {
        NoDotNoSuffix(rest, p);
      }
    }
  }

  lemma NoDotNoSuffix(h: string, p: string)
    requires forall c | c in h :: c != '.'
    ensures !HasSuffix(h, "." + p)
  {
    if |p| < |h| {
      var i := |h| - |p| - 1;
      assert h[i] in h && h[i..][0] == h[i] != ("." + p)[0];
    }
  }

  /** A suffix that starts at a dot starts at the first dot or after it. */
  lemma SuffixAfterDot(h: string, dot: nat, p: string)
    requires dot < |h| && h[dot] == '.' && forall i | 0 <= i < dot :: h[i] != '.'
    ensures HasSuffix(h, "." + p) <==> p == h[dot + 1..] || HasSuffix(h[dot + 1..], "." + p)
  {
    var rest, n := h[dot + 1..], |p| + 1;
    if n <= |rest| {
      assert h[|h| - n..] == rest[|rest| - n..];
    } else if n == |rest| + 1 {
      assert h[|h| - n..] == "." + rest;
      assert "." + rest == "." + p ==> ("." + rest)[1..] == ("." + p)[1..];
    } else if n <= |h| {
      assert h[|h| - n..][0] == h[|h| - n] != ("." + p)[0];
    }
  }

  /** Every scope whose cookies belong on a request to host `h`. */
  function Scopes(h: string): seq<(string, bool)> {
    if h == "" then [] else [(h, false), (h, true)] + Inclusive(Parents(h))
  }

  function Inclusive(ps: seq<string>): (r: seq<(string, bool)>)
    ensures |r| == |ps| && forall i | 0 <= i < |ps| :: r[i] == (ps[i], true)
  {
    seq(|ps|, i requires 0 <= i < |ps| => (ps[i], true))
  }

  function Prefixes(ss: seq<(string, bool)>): (r: seq<string>)
    ensures |r| == |ss| && forall i | 0 <= i < |ss| :: r[i] == Prefix(ss[i].0, ss[i].1)
  {
    seq(|ss|, i requires 0 <= i < |ss| => Prefix(ss[i].0, ss[i].1))
  }

  /** A cookie of the scope belongs on a request to `host`: section 5.1.3 of RFC 6265. */
  predicate Matches(scope: string, domainMatch: bool, host: string) {
    host != "" && (host == scope || (domainMatch && HasSuffix(host, "." + scope)))
  }

  lemma ScopesExact(host: string, scope: string, dm: bool)
    requires dm ==> HasDot(scope)
    ensures (scope, dm) in Scopes(host) <==> Matches(scope, dm, host)
  {
    if host != "" {
      var ps, inc := Parents(host), Inclusive(Parents(host));
      ParentsAreSuffixes(host, scope);
      if (scope, dm) in inc {
        var i :| 0 <= i < |inc| && inc[i] == (scope, dm);
        assert ps[i] in ps;
      }
      if dm && scope in ps {
        var i :| 0 <= i < |ps| && ps[i] == scope;
        assert inc[i] in inc;
      }
    }
  }

  /** `out` holds the prefixes of `h` and of its parents before `rest`. */
  ghost predicate Listed(out: seq<string>, done: seq<string>, rest: string, h: string) {
    done + Parents(rest) == Parents(h) && out == Prefixes([(h, false), (h, true)] + Inclusive(done))
  }

  lemma ListedStart(h: string)
    ensures Listed([Prefix(h, false), Prefix(h, true)], [], h, h)
  {
    hide Prefix, Parents;
  }

  lemma ListedStep(out: seq<string>, done: seq<string>, rest: string, h: string)
    requires Listed(out, done, rest, h)
    ensures var dot := Find(rest, Only('.'));
      if dot == |rest| || !HasDot(rest[dot + 1..]) then h == "" || out == Prefixes(Scopes(h))
      else Listed(out + [Prefix(rest[dot + 1..], true)], done + [rest[dot + 1..]], rest[dot + 1..], h)
  {
    hide *;
    ParentsStep(rest);
    var dot := Find(rest, Only('.'));
    if dot == |rest| || !HasDot(rest[dot + 1..]) {
      ListedEnds(out, done, rest, h);
    } else {
      ListedGrows(out, done, rest, h, rest[dot + 1..]);
    }
  }

  lemma ListedEnds(out: seq<string>, done: seq<string>, rest: string, h: string)
    requires Listed(out, done, rest, h) && Parents(rest) == []
    ensures h == "" || out == Prefixes(Scopes(h))
  {
    hide Prefixes, Parents, Inclusive, Scopes;
    assert done + [] == done;
    AllScopes(h);
  }

  lemma ListedGrows(out: seq<string>, done: seq<string>, rest: string, h: string, r: string)
    requires Listed(out, done, rest, h) && Parents(rest) == [r] + Parents(r)
    ensures Listed(out + [Prefix(r, true)], done + [r], r, h)
  {
    hide Prefix, Prefixes, Parents, Inclusive;
    MoveOver(done, r, Parents(r));
    PrefixesSnoc([(h, false), (h, true)], done, r);
  }

  lemma AllScopes(h: string)
    ensures h == "" || Scopes(h) == [(h, false), (h, true)] + Inclusive(Parents(h))
  {
  }

  lemma PrefixesSnoc(xs: seq<(string, bool)>, ps: seq<string>, r: string)
    ensures Prefixes(xs + Inclusive(ps + [r])) == Prefixes(xs + Inclusive(ps)) + [Prefix(r, true)]
  {
    hide Prefix;
    assert Inclusive(ps + [r]) == Inclusive(ps) + [(r, true)];
  }

  lemma ParentsStep(h: string)
    ensures var dot := Find(h, Only('.'));
      Parents(h) == if dot == |h| || !HasDot(h[dot + 1..]) then [] else [h[dot + 1..]] + Parents(h[dot + 1..])
  {
    hide HasDot, Find;
  }

  lemma NoScopes(h: string)
    ensures h == "" ==> Prefixes(Scopes(h)) == []
  {
  }

  method ScopePrefixes(host: string) returns (out: seq<string>)
    ensures out == Prefixes(Scopes(Host(host)))
  {
    hide *;
    var h := Host(host);
    NoScopes(h);
    if h == "" {
      return [];
    }
    var p := CookiePrefix(h, false);
    var q := CookiePrefix(h, true);
    out := [p, q];
    var rest := h;
    ghost var done: seq<string> := [];
    ListedStart(h);
    while true
      invariant Listed(out, done, rest, h)
      decreases |rest|
    {
      ListedStep(out, done, rest, h);
      var dot := Find(rest, Only('.'));
      if dot == |rest| {
        break;
      }
      var parent := rest[dot + 1..];
      if !HasDot(parent) {
        break;
      }
      var r := CookiePrefix(parent, true);
      out, done, rest := out + [r], done + [parent], parent;
    }
  }

  /** The browser's copy of the loop, which starts from its own normalisation. */
  method BrowserScopePrefixes(host: string) returns (out: seq<string>)
    ensures out == Prefixes(Scopes(Host(host)))
  {
    HostsAgree(host);
    hide *;
    var h := TrimSuffixDot(ToLower(host));
    NoScopes(h);
    if h == "" {
      return [];
    }
    var p := BrowserCookiePrefix(h, false);
    var q := BrowserCookiePrefix(h, true);
    out := [p, q];
    var rest := h;
    ghost var done: seq<string> := [];
    ListedStart(h);
    while true
      invariant Listed(out, done, rest, h)
      decreases |rest|
    {
      ListedStep(out, done, rest, h);
      var dot := Find(rest, Only('.'));
      if dot == |rest| {
        break;
      }
      var parent := rest[dot + 1..];
      if !HasDot(parent) {
        break;
      }
      var r := BrowserCookiePrefix(parent, true);
      out, done, rest := out + [r], done + [parent], parent;
    }
  }

  lemma HostsAgree(host: string)
    ensures TrimSuffixDot(ToLower(host)) == Host(host)
  {
    LowerKeepsDots(host);
  }
}
