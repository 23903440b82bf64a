/** What a site may claim with a Domain attribute, and who receives its cookies: stated on
    hosts and Domains alone. */
module CookieDomains {
  import opened Text
  import opened Words
  import opened CookieScope
  import opened KeyedList
  import opened CookieJar

  /** `host` is the domain `x` or lies under it. */
  predicate Inside(host: string, x: string) { host == x || HasSuffix(host, "." + x) }

  /** A domain as it is compared: folded, of two labels or more, and without outer dots or
      white space. */
  predicate IsDomain(x: string) {
    x != "" && ToLower(x) == x && '.' in x && x[0] != '.' && x[|x| - 1] != '.' && Trimmed(x)
  }

  /** Hosts are compared folded, and without a dot at their end. */
  lemma HostsFold(h: string, x: string)
    requires ToLower(h) == x && (x == "" || x[|x| - 1] != '.')
    ensures Host(h) == x && Host(h + ".") == x
  {
    assert (h + ".")[..|h|] == h;
    assert h != "" ==> x[|x| - 1] == LowerChar(h[|h| - 1]);
  }

  /** A scope never reaches past the host that claims it, and without a Domain it is that
      host. */
  lemma ScopesAreOwn(d: string, a: string)
    ensures Scope(d, a).1 ==> Inside(Host(a), Scope(d, a).0) && HasSuffix("." + Host(a), "." + Scope(d, a).0)
    ensures !Scope(d, a).1 ==> Scope(d, a).0 == Host(a)
  {
    hide ToLower, TrimSpace, TrimPrefixDot, TrimSuffixDot;
    var x, h := Scope(d, a).0, Host(a);
    if Scope(d, a).1 {
      if h != x {
        assert ("." + h)[|"." + h| - |"." + x|..] == h[|h| - |"." + x|..];
      }
      assert ("." + x)[0..] == "." + x;
    }
  }

  /** The ways to write a Domain: in any case, with white space around it, and with a dot
      before or after it. */
  predicate Writes(d: string, x: string) {
    var t := ToLower(TrimSpace(d));
    t == x || t == "." + x || t == x + "." || t == "." + x + "."
  }

  lemma WrittenDomain(d: string, x: string)
    requires x != "" && x[0] != '.' && x[|x| - 1] != '.' && Writes(d, x)
    ensures TrimSuffixDot(TrimPrefixDot(ToLower(TrimSpace(d)))) == x
  {
    hide ToLower, TrimSpace;
    var t := ToLower(TrimSpace(d));
    assert ("." + x)[1..] == x && (x + ".")[..|x|] == x;
    assert ("." + x + ".")[1..] == x + ".";
    assert (x + ".")[0] == x[0];
  }

  /** A Domain is honoured exactly when it has two labels and the claiming host is inside
      it; otherwise the cookie belongs to the host alone. */
  lemma DomainsAreHonouredExactly(d: string, x: string, a: string)
    requires x != "" && x[0] != '.' && x[|x| - 1] != '.' && Writes(d, x)
    ensures Scope(d, a) == if '.' in x && Inside(Host(a), x) then (x, true) else (Host(a), false)
  {
    WrittenDomain(d, x);
    hide ToLower, TrimSpace, Writes, TrimSuffixDot, TrimPrefixDot;
  }

  lemma NoDomain(d: string, a: string)
    requires ToLower(TrimSpace(d)) in {"", ".", ".."}
    ensures Scope(d, a) == (Host(a), false)
  {
    hide ToLower, TrimSpace;
  }

  lemma LowerSuffix(h: string, x: string)
    requires ToLower(x) == x && HasSuffix(h, "." + x)
    ensures HasSuffix(ToLower(h), "." + x)
  {
    var n := |h| - |x| - 1;
    var t := ToLower(h)[n..];
    assert h[n..] == "." + x;
    forall i | 0 <= i < |t|
      ensures t[i] == ("." + x)[i]
    {
      assert t[i] == LowerChar(h[n..][i]);
      assert i > 0 ==> ToLower(x)[i - 1] == LowerChar(x[i - 1]) == x[i - 1];
    }
  }

  /** Every host that is a domain of two labels or lies under one may claim it, written
      plainly, with a leading dot, or in capitals. */
  lemma SitesMayClaimTheirDomain(x: string, host: string, d: string)
    requires IsDomain(x) && (host == x || HasSuffix(host, "." + x))
    requires ToLower(d) == x || ToLower(d) == "." + x
    ensures Scope(d, host) == (x, true)
  {
    HostIsInside(x, host);
    ClaimIsWritten(d, x);
    DomainsAreHonouredExactly(d, x, host);
  }

  lemma HostIsInside(x: string, host: string)
    requires IsDomain(x) && (host == x || HasSuffix(host, "." + x))
    ensures Inside(Host(host), x)
  {
    assert host[|host| - 1] == x[|x| - 1];
    assert TrimSuffixDot(host) == host;
    if host != x {
      LowerSuffix(host, x);
    }
  }

  lemma ClaimIsWritten(d: string, x: string)
    requires IsDomain(x) && (ToLower(d) == x || ToLower(d) == "." + x)
    ensures Writes(d, x)
  {
    var l := ToLower(d);
    assert |d| == |l| > 0;
    assert l[0] == LowerChar(d[0]) && l[|l| - 1] == LowerChar(d[|d| - 1]) == x[|x| - 1];
    assert !IsBlank(d[0]) && !IsBlank(d[|d| - 1]);
    TrimmedStays(d);
  }

  // --- who receives a cookie ---

  /** Host `b` is to receive what `a` sets with a Domain that writes `x`, or with none. */
  predicate Receives(x: Option<string>, a: string, b: string) {
    b != "" && match x
      case None => a == b
      case Some(x) => if '.' in x && Inside(a, x) then Inside(b, x) else a == b
  }

  /** What a Domain attribute says. */
  predicate Says(d: string, x: Option<string>) {
    match x
    case None => ToLower(TrimSpace(d)) in {"", ".", ".."}
    case Some(x) => x != "" && x[0] != '.' && x[|x| - 1] != '.' && Writes(d, x)
  }

  lemma MatchesIsReceives(d: string, x: Option<string>, a: string, b: string)
    requires Says(d, x)
    ensures var s := Scope(d, a); Matches(s.0, s.1, Host(b)) <==> Receives(x, Host(a), Host(b))
  {
    hide Writes, ToLower, TrimSpace, Host, HasSuffix;
    match x {
      case None => NoDomain(d, a);
      case Some(x) => DomainsAreHonouredExactly(d, x, a);
    }
    hide Scope;
  }

  /** Delivery, without scopes: host `b` receives a cookie that `a` set, under its own name,
      exactly when `b` is `a`, or the Domain has two labels and both lie in it. */
  lemma DeliveryByDomain(d: string, x: Option<string>, a: string, b: string, name: string)
    requires name != "" && Says(d, x) && Separates(ScopeSet(Host(b)) + {Scope(d, a).0})
    ensures Strip(Pack(d, a, name), Prefixes(Scopes(Host(b))))
         == if Receives(x, Host(a), Host(b)) then Some(name) else None
  {
    hide *;
    DeliveryIsExact(d, a, b, name);
    MatchesIsReceives(d, x, a, b);
  }

  /** The limit of two labels is no guard against a public suffix of two: a host under co.uk
      may claim co.uk, and every other host under it receives the cookie. */
  lemma SuffixesOfTwoLabelsAreHonoured(name: string)
    requires name != "" && Separates(ScopeSet(Host("b.co.uk")) + {"co.uk"})
    ensures Scope("co.uk", "a.co.uk") == ("co.uk", true)
    ensures Strip(Pack("co.uk", "a.co.uk", name), Prefixes(Scopes(Host("b.co.uk")))) == Some(name)
  {
    hide *;
    SuffixFacts();
    SitesMayClaimTheirDomain("co.uk", "a.co.uk", "co.uk");
    ClaimIsWritten("co.uk", "co.uk");
    HostIsInside("co.uk", "a.co.uk");
    HostIsInside("co.uk", "b.co.uk");
    BothReceive("co.uk", "co.uk", Host("a.co.uk"), Host("b.co.uk"));
    DeliveryByDomain("co.uk", Some("co.uk"), "a.co.uk", "b.co.uk", name);
  }

  lemma SuffixFacts()
    ensures IsDomain("co.uk") && ToLower("co.uk") == "co.uk"
    ensures HasSuffix("a.co.uk", "." + "co.uk") && HasSuffix("b.co.uk", "." + "co.uk")
  {
    assert "a.co.uk"[1..] == ".co.uk" && "b.co.uk"[1..] == ".co.uk" && "." + "co.uk" == ".co.uk";
    assert "co.uk"[2] == '.';
  }

  lemma BothReceive(d: string, x: string, a: string, b: string)
    requires IsDomain(x) && Writes(d, x) && Inside(a, x) && Inside(b, x)
    ensures Says(d, Some(x)) && Receives(Some(x), a, b)
  {
    hide Writes;
  }

  /** Whatever the Domain says, a cookie only reaches hosts that share a domain of two
      labels with the one that set it, or that host itself. */
  lemma ForeignHostsReceiveNothing(d: string, a: string, b: string, name: string)
    requires name != "" && Separates(ScopeSet(Host(b)) + {Scope(d, a).0})
    requires Host(b) != Host(a) && !exists x: string :: '.' in x && Inside(Host(a), x) && Inside(Host(b), x)
    ensures Strip(Pack(d, a, name), Prefixes(Scopes(Host(b)))) == None
  {
    hide Separates, ScopeSet, Strip, Prefixes, Scopes, Pack, ToLower, TrimSpace;
    DeliveryIsExact(d, a, b, name);
    ScopesAreOwn(d, a);
    ScopeIsLower(d, a);
    var s := Scope(d, a);
    if s.1 {
      assert '.' in s.0 && Inside(Host(a), s.0);
    }
  }

  // --- over whole runs ---

  /** A site's own event, and what a request to `host` sees of it. */
  ghost predicate IsOwner(e: Event, name: string, value: string, host: string) {
    && e.SetCookie? && e.name == name && e.value == value
    && (Host(e.host) == Host(host)
        || exists x: string :: '.' in x && Inside(Host(e.host), x) && Inside(Host(host), x))
  }

  lemma {:induction false} IdealHasSource(events: seq<Event>, scope: string, dm: bool, name: string, value: string)
    requires (Owned(scope, dm, name), value) in RunIdeal(events)
    ensures exists e | e in events && e.SetCookie? && e.name == name && e.value == value ::
      Scope(e.domainAttr, e.host) == (scope, dm)
    decreases |events|
  {
    var init, e := events[..|events| - 1], events[|events| - 1];
    var slot := Owned(scope, dm, name);
    hide Scope;
    if (slot, value) in RunIdeal(init) {
      IdealHasSource(init, scope, dm, name, value);
      assert forall x | x in init :: x in events;
    } else {
      StepHasSource(RunIdeal(init), e, slot, value);
      assert e in events;
    }
  }

  lemma StepHasSource(jar: List<Slot>, e: Event, slot: Slot, value: string)
    requires (slot, value) in ApplyIdeal(jar, e) && (slot, value) !in jar && slot.Owned?
    ensures e.SetCookie? && OwnedSlot(e.domainAttr, e.host, e.name) == slot && e.value == value
  {
    hide Scope;
    match e {
      case SetCookie(host, d, name, v) => PutEntries(jar, OwnedSlot(d, host, name), v);
      case Expire(host, d, name) => DeleteKeys(jar, OwnedSlot(d, host, name));
      case SetStray(name, v) => PutEntries(jar, Stray(name), v);
    }
  }

  lemma {:induction false} PutEntries<K>(l: List<K>, k: K, v: string)
    ensures forall e | e in Put(l, k, v) :: e == (k, v) || e in l
    ensures (k, v) in Put(l, k, v)
  {
    if l != [] {
      PutEntries(l[1..], k, v);
    }
  }

  lemma {:induction false} Projected<K>(l: List<K>, f: K -> Option<string>, name: string, value: string)
    ensures (name, value) in Project(l, f) <==> exists e | e in l :: f(e.0) == Some(name) && e.1 == value
  {
    if l != [] {
      Projected(l[1..], f, name, value);
      assert l == [l[0]] + l[1..];
    }
  }

  /** Safety, over every run: each cookie a request carries was set, with that name and
      value, by the host itself or by one that shares a domain of two labels with it. */
  lemma CookiesComeFromOwners(events: seq<Event>, host: string, name: string, value: string)
    requires forall e | e in events :: IsEvent(e)
    requires Separates(EventScopes(events) + ScopeSet(Host(host)))
    requires (name, value) in Unpack(Run(events), host)
    ensures exists e | e in events :: IsOwner(e, name, value, host)
  {
    hide Separates, EventScopes, ScopeSet, Run, Unpack, RunIdeal, Scope, ToLower, TrimSuffixDot;
    RunsDeliverExactly(events, host);
    var f := s => DeliveredName(s, Host(host));
    var jar := RunIdeal(events);
    Projected(jar, f, name, value);
    var entry :| entry in jar && f(entry.0) == Some(name) && entry.1 == value;
    var s := entry.0;
    IdealHasSource(events, s.scope, s.domainMatch, s.name, value);
    var e :| e in events && e.SetCookie? && e.name == name && e.value == value
      && Scope(e.domainAttr, e.host) == (s.scope, s.domainMatch);
    ScopesAreOwn(e.domainAttr, e.host);
    ScopeIsLower(e.domainAttr, e.host);
    SharedDomain(s, Host(e.host), Host(host));
    assert IsOwner(e, name, value, host);
  }

  lemma SharedDomain(s: Slot, a: string, b: string)
    requires s.Owned? && Matches(s.scope, s.domainMatch, b)
    requires if s.domainMatch then Inside(a, s.scope) && '.' in s.scope else s.scope == a
    ensures a == b || exists x: string :: '.' in x && Inside(a, x) && Inside(b, x)
  {
  }

  /** Liveness: the cookie set last is on the next request of every host that is to receive
      it. */
  lemma FreshCookiesArrive(events: seq<Event>, e: Event, x: Option<string>, host: string)
    requires (forall i | i in events :: IsEvent(i)) && IsEvent(e) && e.SetCookie?
    requires Separates(EventScopes(events + [e]) + ScopeSet(Host(host)))
    requires Says(e.domainAttr, x) && Receives(x, Host(e.host), Host(host))
    ensures (e.name, e.value) in Unpack(Run(events + [e]), host)
  {
    hide Separates, EventScopes, ScopeSet, Run, Unpack, Scope, Host, Says, Receives, Matches;
    RunsDeliverExactly(events + [e], host);
    assert (events + [e])[..|events|] == events;
    var k := OwnedSlot(e.domainAttr, e.host, e.name);
    PutEntries(RunIdeal(events), k, e.value);
    MatchesIsReceives(e.domainAttr, x, e.host, host);
    Projected(RunIdeal(events + [e]), s => DeliveredName(s, Host(host)), e.name, e.value);
    assert (k, e.value) in RunIdeal(events + [e]);
    hide RunIdeal, IsEvent;
    assert DeliveredName(k, Host(host)) == Some(e.name);
  }
}
