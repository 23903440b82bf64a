/** The storage shim: every proxied site sees a Storage of its own, although all of them
    share the native one. */
module WebStorage {
  import opened Text
  import opened CookieScope
  import opened KeyedList

  function Strip(p: string): string -> Option<string> {
    k => if p <= k then Some(k[|p|..]) else None
  }

  /** What a site with key prefix `p` sees of the native store. */
  function View(l: List<string>, p: string): List<string> { Project(l, Strip(p)) }

  function Keys(l: List<string>): (ks: seq<string>)
    ensures |ks| == |l|
  {
    if l == [] then [] else [l[0].0] + Keys(l[1..])
  }

  function DeleteAll(l: List<string>, ks: seq<string>): List<string>
    decreases |ks|
  {
    if ks == [] then l else DeleteAll(Delete(l, ks[0]), ks[1..])
  }

  function Prefixed(ks: seq<string>, p: string): (r: seq<string>)
    ensures |r| == |ks| && forall i | 0 <= i < |ks| :: r[i] == p + ks[i]
  {
    seq(|ks|, i requires 0 <= i < |ks| => p + ks[i])
  }

  /** `clear` of the shim: remove the site's keys one by one. */
  function ClearSite(l: List<string>, p: string): List<string> {
    DeleteAll(l, Prefixed(Keys(View(l, p)), p))
  }

  // --- the native store and the shim over it ---

  class NativeStorage {
    var entries: List<string>

    constructor ()
      ensures entries == []
    {
      entries := [];
    }

    method SetItem(k: string, v: string)
      modifies this
      ensures entries == Put(old(entries), k, v)
    {
      entries := Put(entries, k, v);
    }

    method RemoveItem(k: string)
      modifies this
      ensures entries == Delete(old(entries), k)
    {
      entries := Delete(entries, k);
    }

    method GetItem(k: string) returns (v: Option<string>)
      ensures v == Get(entries, k)
    {
      v := Get(entries, k);
    }
  }

  /** ownKeys: the keys of the native store under a prefix, without it. */
  method OwnKeys(native: NativeStorage, prefix: string) returns (out: seq<string>)
    ensures out == Keys(View(native.entries, prefix))
  {
    out := [];
    var l := native.entries;
    assert l[0..] == l;
    for i := 0 to |l|
      invariant out + Keys(View(l[i..], prefix)) == Keys(View(l, prefix))
    {
      var k := l[i].0;
      KeysStep(l, i, prefix);
      if prefix <= k {
        var rest := Keys(View(l[i + 1..], prefix));
        assert out + ([k[|prefix|..]] + rest) == (out + [k[|prefix|..]]) + rest;
        out := out + [k[|prefix|..]];
      }
    }
    assert Keys(View(l[|l|..], prefix)) == [];
  }

  lemma KeysStep(l: List<string>, i: nat, p: string)
    requires i < |l|
    ensures Keys(View(l[i..], p)) == (if p <= l[i].0 then [l[i].0[|p|..]] else []) + Keys(View(l[i + 1..], p))
  {
    assert l[i..][1..] == l[i + 1..];
    var rest := View(l[i + 1..], p);
    if p <= l[i].0 {
      assert ([(l[i].0[|p|..], l[i].1)] + rest)[1..] == rest;
    } else {
      assert [] + rest == rest;
    }
  }

  /** The shim of one page. `page` is its real host, or None when that is unknown, in
      which case nothing is stored or found. */
  class Shim {
    const native: NativeStorage
    const page: Option<string>

    constructor (native: NativeStorage, page: Option<string>)
      ensures this.native == native && this.page == page
    {
      this.native, this.page := native, page;
    }

    /** The page's own entries. */
    function Mine(): List<string>
      reads native
    {
      if page.None? then [] else View(native.entries, Prefix(page.value, false))
    }

    method GetItem(k: string) returns (v: Option<string>)
      ensures v == Get(Mine(), k)
    {
      if page.None? {
        return None;
      }
      var p := BrowserCookiePrefix(page.value, false);
      OwnKey(p, k);
      ProjectGet(native.entries, Strip(p), p + k, k);
      v := native.GetItem(p + k);
    }

    method SetItem(k: string, v: string)
      modifies native
      ensures page.None? ==> native.entries == old(native.entries)
      ensures page.Some? ==> native.entries == Put(old(native.entries), Prefix(page.value, false) + k, v)
      ensures page.Some? ==> Mine() == Put(old(Mine()), k, v)
    {
      if page.Some? {
        var p := BrowserCookiePrefix(page.value, false);
        OwnKey(p, k);
        ProjectPutOwn(native.entries, Strip(p), p + k, k, v);
        native.SetItem(p + k, v);
      }
    }

    method RemoveItem(k: string)
      modifies native
      ensures page.None? ==> native.entries == old(native.entries)
      ensures page.Some? ==> native.entries == Delete(old(native.entries), Prefix(page.value, false) + k)
      ensures Mine() == Delete(old(Mine()), k)
    {
      if page.Some? {
        var p := BrowserCookiePrefix(page.value, false);
        OwnKey(p, k);
        ProjectDeleteOwn(native.entries, Strip(p), p + k, k);
        native.RemoveItem(p + k);
      }
    }

    method Key(i: int) returns (k: Option<string>)
      ensures k == if 0 <= i < |Mine()| then Some(Keys(Mine())[i]) else None
    {
      if page.None? {
        return None;
      }
      var p := BrowserCookiePrefix(page.value, false);
      var mine := OwnKeys(native, p);
      k := if 0 <= i < |mine| then Some(mine[i]) else None;
    }

    method Length() returns (n: nat)
      ensures n == |Mine()|
    {
      if page.None? {
        return 0;
      }
      var p := BrowserCookiePrefix(page.value, false);
      var mine := OwnKeys(native, p);
      n := |mine|;
    }

    method Clear()
      modifies native
      ensures page.None? ==> native.entries == old(native.entries)
      ensures page.Some? ==> native.entries == ClearSite(old(native.entries), Prefix(page.value, false))
      ensures Mine() == []
    {
      if page.Some? {
        var p := BrowserCookiePrefix(page.value, false);
        var mine := OwnKeys(native, p);
        ghost var before := native.entries;
        for i := 0 to |mine|
          invariant DeleteAll(native.entries, Prefixed(mine[i..], p)) == ClearSite(before, p)
        {
          assert Prefixed(mine[i..], p)[0] == p + mine[i];
          assert Prefixed(mine[i..], p)[1..] == Prefixed(mine[i + 1..], p);
          native.RemoveItem(p + mine[i]);
        }
        ClearEmpties(before, p);
      }
    }
  }

  lemma OwnKey(p: string, k: string)
    ensures OnlyKey(Strip(p), p + k, k)
  {
    assert (p + k)[|p|..] == k;
    forall x | Strip(p)(x) == Some(k)
      ensures x == p + k
    {
      assert x == x[..|p|] + x[|p|..];
    }
  }

  lemma OtherKey(p: string, k: string, f: string -> Option<string>)
    requires forall x: string :: p <= x ==> f(x) == None
    ensures f(p + k) == None
  {
    assert p <= p + k;
  }

  // --- clearing ---

  lemma {:induction false} DeleteAllOwn(l: List<string>, p: string, ks: seq<string>)
    ensures View(DeleteAll(l, Prefixed(ks, p)), p) == DeleteAll(View(l, p), ks)
    decreases |ks|
  {
    if ks != [] {
      OwnKey(p, ks[0]);
      ProjectDeleteOwn(l, Strip(p), p + ks[0], ks[0]);
      assert Prefixed(ks, p)[1..] == Prefixed(ks[1..], p);
      DeleteAllOwn(Delete(l, p + ks[0]), p, ks[1..]);
    }
  }

  lemma {:induction false} DeleteAllOther(l: List<string>, p: string, ks: seq<string>, f: string -> Option<string>)
    requires forall x: string :: p <= x ==> f(x) == None
    ensures Project(DeleteAll(l, Prefixed(ks, p)), f) == Project(l, f)
    decreases |ks|
  {
    if ks != [] {
      OtherKey(p, ks[0], f);
      ProjectDeleteOther(l, f, p + ks[0]);
      assert Prefixed(ks, p)[1..] == Prefixed(ks[1..], p);
      DeleteAllOther(Delete(l, p + ks[0]), p, ks[1..], f);
    }
  }

  lemma {:induction false} DeleteAllLeaves(l: List<string>, ks: seq<string>)
    ensures forall e | e in DeleteAll(l, ks) :: e in l && e.0 !in ks
    decreases |ks|
  {
    if ks != [] {
      DeleteKeys(l, ks[0]);
      DeleteAllLeaves(Delete(l, ks[0]), ks[1..]);
    }
  }

  lemma {:induction false} KeysHold(l: List<string>)
    ensures forall e | e in l :: e.0 in Keys(l)
  {
    if l != [] {
      KeysHold(l[1..]);
    }
  }

  lemma ClearEmpties(l: List<string>, p: string)
    ensures View(ClearSite(l, p), p) == []
  {
    var v := View(l, p);
    var r := DeleteAll(v, Keys(v));
    assert r == [] || r[0] in r;
    DeleteAllOwn(l, p, Keys(v));
    DeleteAllLeaves(v, Keys(v));
    KeysHold(v);
  }

  // --- whole runs ---

  datatype Op =
    | Set(key: string, value: string) | Remove(key: string) | Clear | Read(key: string) | KeyAt(i: int) | Count

  /** What an operation tells its caller. */
  datatype Answer = Nothing | Item(value: Option<string>) | Number(n: nat)

  /** The site that issued an operation. */
  datatype Event = Event(host: string, op: Op)

  function Site(e: Event): string { Prefix(e.host, false) }

  /** The operation on a store of the site's own. */
  function OnPrivate(l: List<string>, op: Op): List<string> {
    match op
    case Set(k, v) => Put(l, k, v)
    case Remove(k) => Delete(l, k)
    case Clear => []
    case _ => l
  }

  function Answered(l: List<string>, op: Op): Answer {
    match op
    case Read(k) => Item(Get(l, k))
    case KeyAt(i) => Item(if 0 <= i < |l| then Some(Keys(l)[i]) else None)
    case Count => Number(|l|)
    case _ => Nothing
  }

  /** The operation on the shared store, as the shim carries it out. */
  function OnShared(l: List<string>, p: string, op: Op): List<string> {
    match op
    case Set(k, v) => Put(l, p + k, v)
    case Remove(k) => Delete(l, p + k)
    case Clear => ClearSite(l, p)
    case _ => l
  }

  function AnsweredShared(l: List<string>, p: string, op: Op): Answer {
    match op
    case Read(k) => Item(Get(l, p + k))
    case KeyAt(i) => Item(if 0 <= i < |View(l, p)| then Some(Keys(View(l, p))[i]) else None)
    case Count => Number(|View(l, p)|)
    case _ => Nothing
  }

  function RunShared(init: List<string>, events: seq<Event>): List<string> {
    if events == [] then init
    else
      var e := events[|events| - 1];
      OnShared(RunShared(init, events[..|events| - 1]), Site(e), e.op)
  }

  /** The run of one site alone, on a store that starts as its part of the shared one. */
  function RunPrivate(init: List<string>, events: seq<Event>, p: string): List<string> {
    if events == [] then View(init, p)
    else
      var e := events[|events| - 1];
      var l := RunPrivate(init, events[..|events| - 1], p);
      if Site(e) == p then OnPrivate(l, e.op) else l
  }

  lemma OwnStep(l: List<string>, p: string, op: Op)
    ensures View(OnShared(l, p, op), p) == OnPrivate(View(l, p), op)
    ensures AnsweredShared(l, p, op) == Answered(View(l, p), op)
  {
    match op {
      case Set(k, v) =>
        OwnKey(p, k);
        ProjectPutOwn(l, Strip(p), p + k, k, v);
      case Remove(k) =>
        OwnKey(p, k);
        ProjectDeleteOwn(l, Strip(p), p + k, k);
      case Clear =>
        ClearEmpties(l, p);
      case Read(k) =>
        OwnKey(p, k);
        ProjectGet(l, Strip(p), p + k, k);
      case _ =>
    }
  }

  /** A site's operation is invisible to everything that its prefix does not mark: other
      sites, and keys no site owns. */
  lemma OtherStep(l: List<string>, p: string, op: Op, f: string -> Option<string>)
    requires forall x: string :: p <= x ==> f(x) == None
    ensures Project(OnShared(l, p, op), f) == Project(l, f)
  {
    match op {
      case Set(k, v) =>
        OtherKey(p, k, f);
        ProjectPutOther(l, f, p + k, v);
      case Remove(k) =>
        OtherKey(p, k, f);
        ProjectDeleteOther(l, f, p + k);
      case Clear =>
        DeleteAllOther(l, p, Keys(View(l, p)), f);
      case _ =>
    }
  }

  lemma {:induction false} RunsSeparate(init: List<string>, events: seq<Event>, host: string)
    ensures View(RunShared(init, events), Prefix(host, false)) == RunPrivate(init, events, Prefix(host, false))
    decreases |events|
  {
    var p := Prefix(host, false);
    if events != [] {
      var before, e := events[..|events| - 1], events[|events| - 1];
      RunsSeparate(init, before, host);
      var l := RunShared(init, before);
      if Site(e) == p {
        OwnStep(l, p, e.op);
      } else {
        forall x: string | Site(e) <= x
          ensures Strip(p)(x) == None
        {
          if p <= x {
            PrefixIsUnique(host, false, e.host, false, x);
          }
        }
        OtherStep(l, Site(e), e.op, Strip(p));
      }
    }
  }

  /** The shim isolates: after any interleaving of operations by any sites, the next
      operation of a site is answered as its own store would answer it. */
  lemma SitesAreIsolated(init: List<string>, events: seq<Event>, next: Event)
    ensures AnsweredShared(RunShared(init, events), Site(next), next.op)
         == Answered(RunPrivate(init, events, Site(next)), next.op)
  {
    RunsSeparate(init, events, next.host);
    OwnStep(RunShared(init, events), Site(next), next.op);
  }

  // --- what a site reads ---

  /** The operation leaves the value under `key` alone. */
  predicate Spares(op: Op, key: string) {
    match op
    case Set(k, _) => k != key
    case Remove(k) => k != key
    case Clear => false
    case _ => true
  }

  lemma OnPrivateGet(l: List<string>, op: Op, key: string)
    ensures Get(OnPrivate(l, op), key) == match op
      case Set(k, v) => if k == key then Some(v) else Get(l, key)
      case Remove(k) => if k == key then None else Get(l, key)
      case Clear => None
      case _ => Get(l, key)
  {
    match op {
      case Set(k, v) => PutGet(l, k, v, key);
      case Remove(k) => DeleteGet(l, k, key);
      case _ =>
    }
  }

  lemma {:induction false} ValueStays(init: List<string>, events: seq<Event>, i: nat, p: string, key: string)
    requires i <= |events| && forall j | i <= j < |events| && Site(events[j]) == p :: Spares(events[j].op, key)
    ensures Get(RunPrivate(init, events, p), key) == Get(RunPrivate(init, events[..i], p), key)
    decreases |events|
  {
    if i == |events| {
      assert events[..i] == events;
    } else {
      var before, e := events[..|events| - 1], events[|events| - 1];
      ValueStays(init, before, i, p, key);
      assert before[..i] == events[..i];
      OnPrivateGet(RunPrivate(init, before, p), e.op, key);
    }
  }

  /** A site reads what it stored last under a key, and nothing once it removed the key or
      cleared its store, whatever the other sites did in between. */
  lemma SitesReadTheirLastWrite(init: List<string>, events: seq<Event>, i: nat, host: string, key: string)
    requires i < |events| && events[i].host == host
    requires forall j | i < j < |events| && Site(events[j]) == Site(events[i]) :: Spares(events[j].op, key)
    ensures var seen := AnsweredShared(RunShared(init, events), Prefix(host, false), Read(key));
      && (forall v: string :: events[i].op == Set(key, v) ==> seen == Item(Some(v)))
      && (events[i].op == Remove(key) || events[i].op == Clear ==> seen == Item(None))
  {
    hide Prefix;
    var p, before := Prefix(host, false), events[..i];
    SitesAreIsolated(init, events, Event(host, Read(key)));
    ValueStays(init, events, i + 1, p, key);
    assert events[..i + 1][..i] == before;
    OnPrivateGet(RunPrivate(init, before, p), events[i].op, key);
  }

  /** A new key is listed last, a stored one keeps its place, and a removed one goes. */
  lemma {:induction false} KeysInOrder(l: List<string>, k: string, v: string)
    ensures Keys(Put(l, k, v)) == if k in Keys(l) then Keys(l) else Keys(l) + [k]
    ensures k !in Keys(Delete(l, k)) && forall j | j != k :: j in Keys(Delete(l, k)) <==> j in Keys(l)
  {
    if l != [] {
      KeysInOrder(l[1..], k, v);
      assert ([(k, v)] + l[1..])[1..] == l[1..];
      assert ([l[0]] + Put(l[1..], k, v))[1..] == Put(l[1..], k, v);
      assert [] + Delete(l[1..], k) == Delete(l[1..], k);
      assert ([l[0]] + Delete(l[1..], k))[1..] == Delete(l[1..], k);
    }
  }
}
