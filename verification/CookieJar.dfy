/** One browser jar shared by every proxied site: what a run of the proxy puts in it, and
    what a request to a site takes out. */
module CookieJar {
  import opened Text
  import opened Words
  import opened Hash
  import opened CookieScope
  import opened KeyedList

  // --- unpacking ---

  function StripAny(name: string, prefixes: seq<string>): Option<string> {
    if prefixes == [] then None
    else if prefixes[0] <= name && |name| > |prefixes[0]| then Some(name[|prefixes[0]|..])
    else StripAny(name, prefixes[1..])
  }

  /** stripCookiePrefix: the original name of a packed cookie, for these prefixes. */
  function Strip(name: string, prefixes: seq<string>): Option<string> {
    if "b_" <= name then StripAny(name, prefixes) else None
  }

  method StripCookiePrefix(name: string, prefixes: seq<string>) returns (r: Option<string>)
    ensures r == Strip(name, prefixes)
  {
    if !("b_" <= name) {
      return None;
    }
    for k := 0 to |prefixes|
      invariant StripAny(name, prefixes[k..]) == StripAny(name, prefixes)
    {
      var p := prefixes[k];
      assert prefixes[k..][1..] == prefixes[k + 1..];
      if p <= name && |name| > |p| {
        return Some(name[|p|..]);
      }
    }
    r := None;
  }

  /** Whatever order the prefixes stand in, a packed name loses exactly its own. */
  lemma {:induction false} StripPacked(scope: string, dm: bool, name: string, ss: seq<(string, bool)>)
    requires name != ""
    ensures StripAny(Prefix(scope, dm) + name, Prefixes(ss))
         == if Prefix(scope, dm) in Prefixes(ss) then Some(name) else None
    decreases |ss|
  {
    hide Prefix;
    var packed, p := Prefix(scope, dm) + name, Prefix(scope, dm);
    assert packed[|p|..] == name && p <= packed;
    if ss != [] {
      var q := Prefix(ss[0].0, ss[0].1);
      assert Prefixes(ss) == [q] + Prefixes(ss[1..]);
      StripPacked(scope, dm, name, ss[1..]);
      if q <= packed {
        PrefixIsUnique(ss[0].0, ss[0].1, scope, dm, packed);
      }
    }
  }

  /** The hash tells these scopes apart. */
  ghost predicate Separates(scopes: set<string>) {
    forall a, b | a in scopes && b in scopes :: Fnv(a) == Fnv(b) ==> a == b
  }

  predicate Lower(s: string) { ToLower(s) == s }

  ghost function ScopeSet(host: string): set<string> { set s | s in Scopes(host) :: s.0 }

  lemma LowerPart(s: string, i: nat, j: nat)
    requires Lower(s) && i <= j <= |s|
    ensures Lower(s[i..j])
  {
    var t := s[i..j];
    assert forall k | 0 <= k < |t| :: ToLower(t)[k] == LowerChar(s[i + k]) == ToLower(s)[i + k];
  }

  lemma {:induction false} ParentsAreLower(h: string)
    requires Lower(h)
    ensures forall p | p in Parents(h) :: Lower(p)
    decreases |h|
  {
    hide Lower;
    var dot := Find(h, Only('.'));
    if dot < |h| {
      var rest := h[dot + 1..];
      LowerPart(h, dot + 1, |h|);
      assert h[dot + 1..|h|] == rest;
      ParentsAreLower(rest);
    }
  }

  lemma ScopesAreLower(host: string)
    requires Lower(host)
    ensures forall s | s in Scopes(host) :: Lower(s.0)
  {
    ParentsAreLower(host);
    forall s | s in Scopes(host)
      ensures Lower(s.0)
    {
      if s != (host, false) && s != (host, true) {
        var i :| 0 <= i < |Inclusive(Parents(host))| && Inclusive(Parents(host))[i] == s;
        assert Parents(host)[i] in Parents(host);
      }
    }
  }

  lemma InPrefixes(scope: string, dm: bool, host: string)
    requires Lower(scope) && Lower(host) && Separates(ScopeSet(host) + {scope})
    ensures Prefix(scope, dm) in Prefixes(Scopes(host)) <==> (scope, dm) in Scopes(host)
  {
    var ss := Scopes(host);
    ScopesAreLower(host);
    if Prefix(scope, dm) in Prefixes(ss) {
      var i :| 0 <= i < |ss| && Prefixes(ss)[i] == Prefix(scope, dm);
      PrefixIsUnique(scope, dm, ss[i].0, ss[i].1, Prefix(scope, dm));
      assert ss[i] in ss && ss[i].0 in ScopeSet(host) && Lower(ss[i].0);
      assert ss[i].0 == scope;
    }
    if (scope, dm) in ss {
      var i :| 0 <= i < |ss| && ss[i] == (scope, dm);
      assert Prefixes(ss)[i] in Prefixes(ss);
    }
  }

  lemma ScopeIsLower(domainAttr: string, requestHost: string)
    ensures var s := Scope(domainAttr, requestHost); Lower(s.0) && (s.1 ==> HasDot(s.0))
  {
    LowerTwice(TrimSuffixDot(requestHost));
    var d0 := ToLower(TrimSpace(domainAttr));
    LowerTwice(TrimSpace(domainAttr));
    TrimDotsKeepLower(d0);
    hide ToLower, TrimSpace, HasSuffix;
  }

  lemma TrimDotsKeepLower(s: string)
    requires Lower(s)
    ensures Lower(TrimSuffixDot(TrimPrefixDot(s)))
  {
    var t := TrimPrefixDot(s);
    LowerPart(s, |s| - |t|, |s|);
    assert t == s[|s| - |t|..|s|];
    var u := TrimSuffixDot(t);
    LowerPart(t, 0, |u|);
    assert u == t[0..|u|];
  }

  /** The name under which the browser stores a site's cookie. */
  function Pack(domainAttr: string, requestHost: string, name: string): string {
    var s := Scope(domainAttr, requestHost);
    Prefix(s.0, s.1) + name
  }

  /** Delivery is exact: a cookie that host `a` sets with Domain `d` goes to host `b` under
      its own name when `b` is in its scope, and not at all otherwise. */
  lemma DeliveryIsExact(d: string, a: string, b: string, name: string)
    requires name != ""
    requires Separates(ScopeSet(Host(b)) + {Scope(d, a).0})
    ensures var s := Scope(d, a);
      Strip(Pack(d, a, name), Prefixes(Scopes(Host(b))))
        == if Matches(s.0, s.1, Host(b)) then Some(name) else None
  {
    var s := Scope(d, a);
    ScopeIsLower(d, a);
    LowerTwice(TrimSuffixDot(b));
    InPrefixes(s.0, s.1, Host(b));
    ScopesExact(Host(b), s.0, s.1);
    StripPacked(s.0, s.1, name, Scopes(Host(b)));
    assert "b_" <= Pack(d, a, name);
  }

  // --- runs ---

  /** What can happen to the jar. A stray cookie, such as the proxy's own access token,
      has a name without the marker. */
  datatype Event =
    | SetCookie(host: string, domainAttr: string, name: string, value: string)
    | Expire(host: string, domainAttr: string, name: string)
    | SetStray(name: string, value: string)

  /** Whose cookie a jar entry is. */
  datatype Slot = Owned(scope: string, domainMatch: bool, name: string) | Stray(name: string)

  function SlotName(s: Slot): string {
    match s case Owned(scope, dm, name) => Prefix(scope, dm) + name case Stray(name) => name
  }

  predicate IsEvent(e: Event) {
    match e case SetStray(name, _) => !("b_" <= name) case _ => e.name != ""
  }

  /** The jar as the browser holds it. */
  function Apply(jar: List<string>, e: Event): List<string> {
    match e
    case SetCookie(host, d, name, value) => Put(jar, Pack(d, host, name), value)
    case Expire(host, d, name) => Delete(jar, Pack(d, host, name))
    case SetStray(name, value) => Put(jar, name, value)
  }

  function Run(events: seq<Event>): List<string> {
    if events == [] then [] else Apply(Run(events[..|events| - 1]), events[|events| - 1])
  }

  function OwnedSlot(d: string, host: string, name: string): Slot {
    var s := Scope(d, host);
    Owned(s.0, s.1, name)
  }

  /** The jar as it would be if every scope had its own. */
  function ApplyIdeal(jar: List<Slot>, e: Event): List<Slot> {
    match e
    case SetCookie(host, d, name, value) => Put(jar, OwnedSlot(d, host, name), value)
    case Expire(host, d, name) => Delete(jar, OwnedSlot(d, host, name))
    case SetStray(name, value) => Put(jar, Stray(name), value)
  }

  function RunIdeal(events: seq<Event>): List<Slot> {
    if events == [] then [] else ApplyIdeal(RunIdeal(events[..|events| - 1]), events[|events| - 1])
  }

  ghost function EventScopes(events: seq<Event>): set<string> {
    set e | e in events && !e.SetStray? :: Scope(e.domainAttr, e.host).0
  }

  /** A slot whose scope is among `scopes` and whose name could have been packed. */
  ghost predicate Plausible(s: Slot, scopes: set<string>) {
    match s
    case Owned(scope, dm, name) => scope in scopes && Lower(scope) && (dm ==> HasDot(scope)) && name != ""
    case Stray(name) => !("b_" <= name)
  }

  lemma SlotNamesDiffer(s: Slot, t: Slot, scopes: set<string>)
    requires Plausible(s, scopes) && Plausible(t, scopes) && Separates(scopes)
    requires SlotName(s) == SlotName(t)
    ensures s == t
  {
    assert s.Owned? ==> "b_" <= SlotName(s);
    assert t.Owned? ==> "b_" <= SlotName(t);
    if s.Owned? && t.Owned? {
      PrefixIsUnique(s.scope, s.domainMatch, t.scope, t.domainMatch, SlotName(s));
      var p := Prefix(s.scope, s.domainMatch);
      assert s.name == SlotName(s)[|p|..] && t.name == SlotName(t)[|p|..];
    }
  }

  function EventSlot(e: Event): Slot {
    match e case SetStray(name, _) => Stray(name) case _ => OwnedSlot(e.domainAttr, e.host, e.name)
  }

  lemma EventSlotIsPlausible(e: Event, scopes: set<string>)
    requires IsEvent(e) && (!e.SetStray? ==> Scope(e.domainAttr, e.host).0 in scopes)
    ensures Plausible(EventSlot(e), scopes)
  {
    if !e.SetStray? {
      ScopeIsLower(e.domainAttr, e.host);
    }
  }

  /** The shared jar holds exactly the ideal one, entry by entry, under packed names. */
  lemma {:induction false} RunIsIdeal(events: seq<Event>, scopes: set<string>)
    requires (forall e | e in events :: IsEvent(e)) && EventScopes(events) <= scopes && Separates(scopes)
    ensures Run(events) == Rename(RunIdeal(events), SlotName)
    ensures forall e | e in RunIdeal(events) :: Plausible(e.0, scopes)
  {
    if events != [] {
      var init, e := events[..|events| - 1], events[|events| - 1];
      assert e in events && forall x | x in init :: x in events;
      assert EventScopes(init) <= EventScopes(events);
      RunIsIdeal(init, scopes);
      EventSlotIsPlausible(e, scopes);
      ApplyIsIdeal(RunIdeal(init), e, scopes);
    }
  }

  lemma ApplyIsIdeal(jar: List<Slot>, e: Event, scopes: set<string>)
    requires (forall x | x in jar :: Plausible(x.0, scopes)) && Plausible(EventSlot(e), scopes) && Separates(scopes)
    ensures Apply(Rename(jar, SlotName), e) == Rename(ApplyIdeal(jar, e), SlotName)
    ensures forall x | x in ApplyIdeal(jar, e) :: Plausible(x.0, scopes)
  {
    hide SlotName, Plausible, Separates;
    var k := EventSlot(e);
    ApplyIs(Rename(jar, SlotName), jar, e);
    forall i | 0 <= i < |jar| && SlotName(jar[i].0) == SlotName(k)
      ensures jar[i].0 == k
    {
      assert jar[i] in jar;
      SlotNamesDiffer(jar[i].0, k, scopes);
    }
    if e.Expire? {
      RenameDelete(jar, SlotName, k);
      DeleteKeys(jar, k);
    } else {
      RenamePut(jar, SlotName, k, e.value);
      PutKeys(jar, k, e.value);
    }
  }

  lemma ApplyIs(jar: List<string>, ideal: List<Slot>, e: Event)
    ensures Apply(jar, e)
         == if e.Expire? then Delete(jar, SlotName(EventSlot(e))) else Put(jar, SlotName(EventSlot(e)), e.value)
    ensures ApplyIdeal(ideal, e) == if e.Expire? then Delete(ideal, EventSlot(e)) else Put(ideal, EventSlot(e), e.value)
  {
    hide Put, Delete, Prefix, Scope;
  }

  /** The cookies a request to `host` carries upstream. */
  function Unpack(jar: List<string>, host: string): List<string> {
    Project(jar, name => Strip(name, Prefixes(Scopes(Host(host)))))
  }

  function DeliveredName(s: Slot, host: string): Option<string> {
    if s.Owned? && Matches(s.scope, s.domainMatch, host) then Some(s.name) else None
  }

  lemma StripSlot(s: Slot, host: string, scopes: set<string>)
    requires Plausible(s, scopes) && Lower(host) && ScopeSet(host) <= scopes && Separates(scopes)
    ensures Strip(SlotName(s), Prefixes(Scopes(host))) == DeliveredName(s, host)
  {
    hide Prefix, Scopes, StripAny, Matches, HasDot, Prefixes, ScopeSet;
    if s.Owned? {
      assert ScopeSet(host) + {s.scope} <= scopes;
      PrefixIsMarked(s.scope, s.domainMatch, s.name);
      InPrefixes(s.scope, s.domainMatch, host);
      ScopesExact(host, s.scope, s.domainMatch);
      StripPacked(s.scope, s.domainMatch, s.name, Scopes(host));
    }
  }

  lemma PrefixIsMarked(scope: string, dm: bool, name: string)
    ensures "b_" <= Prefix(scope, dm) + name
  {
  }

  /** After any run by any sites, a request carries, in jar order, the original names and
      current values of exactly the cookies whose scope it is in: never another site's,
      and never a stray one. */
  lemma RunsDeliverExactly(events: seq<Event>, host: string)
    requires forall e | e in events :: IsEvent(e)
    requires Separates(EventScopes(events) + ScopeSet(Host(host)))
    ensures Unpack(Run(events), host) == Project(RunIdeal(events), s => DeliveredName(s, Host(host)))
  {
    var scopes := EventScopes(events) + ScopeSet(Host(host));
    RunIsIdeal(events, scopes);
    LowerTwice(TrimSuffixDot(host));
    var jar := RunIdeal(events);
    forall i | 0 <= i < |jar|
      ensures Strip(SlotName(jar[i].0), Prefixes(Scopes(Host(host)))) == DeliveredName(jar[i].0, Host(host))
    {
      assert jar[i] in jar;
      StripSlot(jar[i].0, Host(host), scopes);
    }
    ProjectRename(jar, SlotName, name => Strip(name, Prefixes(Scopes(Host(host)))), s => DeliveredName(s, Host(host)));
  }
}
