/** Cookie headers, and the `document.cookie` shim of the browser runtime. */
module CookieText {
  import opened Text
  import opened Words
  import opened Sequences
  import opened CookieScope
  import opened KeyedList
  import opened CookieJar

  function Pair(name: string, value: string): string { name + "=" + value }

  /** A Cookie header. */
  function Header(l: List<string>): string {
    if l == [] then ""
    else Pair(l[0].0, l[0].1) + if |l| == 1 then "" else "; " + Header(l[1..])
  }

  lemma {:induction false} HeaderSnoc(l: List<string>, name: string, value: string)
    ensures Header(l + [(name, value)]) == Header(l) + (if l == [] then "" else "; ") + Pair(name, value)
    ensures Header(l) == "" <==> l == []
  {
    hide Pair;
    if l == [] {
      assert l + [(name, value)] == [(name, value)];
    } else {
      HeaderSnoc(l[1..], name, value);
      PairIsText(l[0].0, l[0].1);
      assert (l + [(name, value)])[1..] == l[1..] + [(name, value)];
      var p, r, q := Pair(l[0].0, l[0].1), Header(l[1..]), Pair(name, value);
      if |l| > 1 {
        assert p + ("; " + (r + "; " + q)) == p + ("; " + r) + "; " + q;
      } else {
        assert r == "" && p + ("; " + ("" + "" + q)) == p + "" + "; " + q;
      }
    }
  }

  lemma PairIsText(name: string, value: string)
    ensures Pair(name, value) != ""
  {
  }

  lemma ProjectStep<J>(l: List<string>, k: nat, f: string -> Option<J>)
    requires k < |l|
    ensures Project(l[k..], f)
         == (match f(l[k].0) case Some(j) => [(j, l[k].1)] case None => []) + Project(l[k + 1..], f)
  {
    assert l[k..][1..] == l[k + 1..];
  }

  /** unpackCookies: the Cookie header for an upstream request. */
  method UnpackCookies(cookies: List<string>, targetHost: string) returns (header: string)
    ensures header == Header(Unpack(cookies, targetHost))
  {
    StripNothing();
    hide Header, Project, Strip;
    var prefixes := ScopePrefixes(targetHost);
    ghost var f := name => Strip(name, Prefixes(Scopes(Host(targetHost))));
    if |prefixes| == 0 {
      NoPrefixes(cookies, f);
      return "";
    }
    var b := "";
    ghost var done: List<string> := [];
    assert cookies[0..] == cookies;
    HeaderSnoc([], "", "");
    for k := 0 to |cookies|
      invariant b == Header(done)
      invariant done + Project(cookies[k..], f) == Project(cookies, f)
    {
      var c := cookies[k];
      ProjectStep(cookies, k, f);
      var name := StripCookiePrefix(c.0, prefixes);
      if name.None? {
        assert [] + Project(cookies[k + 1..], f) == Project(cookies[k + 1..], f);
        continue;
      }
      HeaderSnoc(done, name.value, c.1);
      if |b| > 0 {
        b := b + "; ";
      } else {
        assert b + "" == b;
      }
      b := b + (name.value + "=" + c.1);
      MoveOver(done, (name.value, c.1), Project(cookies[k + 1..], f));
      done := done + [(name.value, c.1)];
    }
    NothingLeft(cookies[|cookies|..], f);
    assert done + [] == done;
    header := b;
  }

  lemma StripNothing()
    ensures forall n :: Strip(n, []) == None
  {
  }

  lemma NothingLeft(l: List<string>, f: string -> Option<string>)
    ensures l == [] ==> Project(l, f) == []
  {
  }

  lemma {:induction false} NoPrefixes(l: List<string>, f: string -> Option<string>)
    requires forall n :: f(n) == None
    ensures Project(l, f) == [] && Header([]) == ""
  {
    if l != [] {
      NoPrefixes(l[1..], f);
    }
  }

  // --- reading document.cookie ---

  /** One "name=value" of the native jar, if it belongs to the page. */
  function ReadPair(pair: string, prefixes: seq<string>): List<string> {
    var t := Take(pair, Text.Only('='));
    if t.rest == "" then []
    else
      match StripAny(TrimSpace(t.token), prefixes)
      case Some(name) => [(name, t.rest[1..])]
      case None => []
  }

  function ReadPairs(pairs: seq<string>, prefixes: seq<string>): List<string> {
    if pairs == [] then [] else ReadPair(pairs[0], prefixes) + ReadPairs(pairs[1..], prefixes)
  }

  /** What a page on `host` reads, when the browser reports `raw`. */
  function ReadCookies(raw: string, host: string): string {
    if host == "" then "" else Header(ReadPairs(Split(raw, ';'), Prefixes(Scopes(Host(host)))))
  }

  /** A name and value that survive the browser's serialisation of the jar. */
  predicate IsPlain(name: string, value: string) {
    && Trimmed(name) && Free(name, Text.Only('=')) && Free(name, Text.Only(';')) && Free(value, Text.Only(';'))
  }

  lemma TrimLead(lead: string, name: string)
    requires Trimmed(name) && (lead == "" || lead == " ")
    ensures TrimSpace(lead + name) == name
  {
    TrimmedStays(name);
    hide TrimSpace;
    assert "" + name == name;
  }

  lemma PairScan(lead: string, name: string, value: string)
    requires IsPlain(name, value) && (lead == "" || lead == " ")
    ensures Take(lead + Pair(name, value), Text.Only('=')) == Scan(lead + name, "=" + value)
  {
    hide TrimSpace, Take;
    var n := lead + name;
    assert forall i | 0 <= i < |n| :: n[i] == if i < |lead| then ' ' else name[i - |lead|];
    PairRegroup(lead, name, value);
    TakeIs(n, "=" + value, Text.Only('='));
  }

  lemma PairRegroup(lead: string, name: string, value: string)
    ensures lead + Pair(name, value) == (lead + name) + ("=" + value)
  {
  }

  lemma PairReads(lead: string, name: string, value: string, prefixes: seq<string>)
    requires IsPlain(name, value) && (lead == "" || lead == " ")
    ensures ReadPair(lead + Pair(name, value), prefixes)
         == match StripAny(name, prefixes) case Some(n) => [(n, value)] case None => []
  {
    hide StripAny, TrimSpace, Take, Pair;
    PairScan(lead, name, value);
    TrimLead(lead, name);
    assert ("=" + value)[1..] == value;
  }

  lemma PairIsFree(lead: string, name: string, value: string)
    requires IsPlain(name, value) && (lead == "" || lead == " ")
    ensures Free(lead + Pair(name, value), Text.Only(';'))
  {
  }

  lemma ReadCons(p: string, rest: seq<string>, prefixes: seq<string>)
    ensures ReadPairs([p] + rest, prefixes) == ReadPair(p, prefixes) + ReadPairs(rest, prefixes)
  {
    hide ReadPair;
    assert ([p] + rest)[1..] == rest;
  }

  lemma SplitHeader(lead: string, l: List<string>)
    requires l != [] && (lead == "" || lead == " ") && IsPlain(l[0].0, l[0].1)
    ensures var p := lead + Pair(l[0].0, l[0].1);
      Split(lead + Header(l), ';') == [p] + if |l| == 1 then [] else Split(" " + Header(l[1..]), ';')
  {
    hide Pair, Split, IsPlain;
    PairIsFree(lead, l[0].0, l[0].1);
    var pair := Pair(l[0].0, l[0].1);
    if |l| == 1 {
      SplitOne(lead + pair, ';', "");
      assert Header(l) == pair + "" == pair;
    } else {
      SplitLead(lead, pair, Header(l[1..]));
    }
  }

  lemma SplitLead(lead: string, pair: string, rest: string)
    requires Free(lead + pair, Text.Only(';'))
    ensures Split(lead + (pair + ("; " + rest)), ';') == [lead + pair] + Split(" " + rest, ';')
  {
    hide Split;
    SplitOne(lead + pair, ';', " " + rest);
    assert lead + (pair + ("; " + rest)) == (lead + pair) + ([';'] + (" " + rest));
  }

  lemma {:induction false} HeaderReads(lead: string, l: List<string>, prefixes: seq<string>)
    requires l != [] && (lead == "" || lead == " ") && forall e | e in l :: IsPlain(e.0, e.1)
    ensures ReadPairs(Split(lead + Header(l), ';'), prefixes) == Project(l, n => StripAny(n, prefixes))
    decreases |l|
  {
    hide IsPlain, Pair, Split, ReadPair, StripAny, Header;
    var p := lead + Pair(l[0].0, l[0].1);
    SplitHeader(lead, l);
    PairReads(lead, l[0].0, l[0].1, prefixes);
    if |l| == 1 {
      ReadCons(p, [], prefixes);
      assert [p] + [] == [p] && l[1..] == [];
    } else {
      HeaderReads(" ", l[1..], prefixes);
      ReadCons(p, Split(" " + Header(l[1..]), ';'), prefixes);
    }
  }

  lemma {:induction false} StripNeedsMarker(name: string, ss: seq<(string, bool)>)
    ensures Strip(name, Prefixes(ss)) == StripAny(name, Prefixes(ss))
    decreases |ss|
  {
    if ss != [] {
      StripNeedsMarker(name, ss[1..]);
      assert Prefixes(ss)[1..] == Prefixes(ss[1..]);
      assert "b_" <= Prefix(ss[0].0, ss[0].1);
    }
  }

  lemma {:induction false} ProjectSame<J>(l: List<string>, f: string -> Option<J>, g: string -> Option<J>)
    requires forall n :: f(n) == g(n)
    ensures Project(l, f) == Project(l, g)
  {
    if l != [] {
      ProjectSame(l[1..], f, g);
    }
  }

  /** A page reads from `document.cookie` exactly the entries of the jar in its scope, under
      their own names and in order. */
  lemma PagesReadTheirEntries(jar: List<string>, host: string)
    requires host != "" && forall e | e in jar :: IsPlain(e.0, e.1)
    ensures ReadCookies(Header(jar), host) == Header(Unpack(jar, host))
  {
    var ss := Scopes(Host(host));
    var prefixes := Prefixes(ss);
    forall n: string
      ensures Strip(n, prefixes) == StripAny(n, prefixes)
    {
      StripNeedsMarker(n, ss);
    }
    ProjectSame(jar, n => Strip(n, prefixes), n => StripAny(n, prefixes));
    hide Prefixes, Scopes, Strip, StripAny, Header, Split, Project;
    if jar == [] {
      EmptyJarReads(prefixes, n => Strip(n, prefixes));
    } else {
      HeaderReads("", jar, prefixes);
      assert "" + Header(jar) == Header(jar);
    }
  }

  lemma EmptyJarReads(prefixes: seq<string>, f: string -> Option<string>)
    ensures ReadPairs(Split(Header([]), ';'), prefixes) == [] == Project([], f)
  {
    SplitOne("", ';', "");
    TakeIs("", "", Text.Only('='));
    assert ReadPair("", prefixes) == [] && [""][1..] == [];
  }

  // --- writing document.cookie ---

  /** The value of an attribute written as `name`, white space and '='. */
  function AttributeValue(part: string, name: string): Option<string> {
    var t := TrimLeft(part, Blank);
    if |t| < |name| || !EqualFold(t[..|name|], name) then None
    else
      var r := TrimLeft(t[|name|..], Blank);
      if r == "" || r[0] != '=' then None else Some(r[1..])
  }

  /** A Domain attribute, which the shim's pattern does not let run over a line end. */
  function DomainAttribute(part: string): Option<string> {
    match AttributeValue(part, "domain")
    case Some(v) => if '\n' in v || '\r' in v then None else Some(TrimSpace(v))
    case None => None
  }

  /** The last Domain among the attributes, and the attributes that are kept. */
  function SortAttributes(parts: seq<string>): (string, seq<string>) {
    if parts == [] then ("", [])
    else
      var (domain, keep) := SortAttributes(parts[..|parts| - 1]);
      var p := parts[|parts| - 1];
      if DomainAttribute(p).Some? then (DomainAttribute(p).value, keep)
      else if AttributeValue(p, "path").Some? then (domain, keep)
      else (domain, keep + [p])
  }

  /** The cookie string handed to the browser; None when the write is ignored. */
  function WrittenCookie(raw: string, host: string): Option<string> {
    var t := Take(raw, Text.Only('='));
    if host == "" || t.rest == "" then None
    else
      var parts := Split(t.rest[1..], ';');
      var (domain, keep) := SortAttributes(parts[1..]);
      var sc := BrowserScope(domain, host);
      Some(Prefix(sc.0, sc.1) + TrimSpace(t.token) + "=" + Join([parts[0]] + keep, ";") + "; Path=/")
  }

  method WriteCookie(raw: string, host: string) returns (r: Option<string>)
    ensures r == WrittenCookie(raw, host)
  {
    hide Take, SortAttributes, Join, Prefix, TrimSpace, AttributeValue, BrowserScope, Split;
    assert raw[0..] == raw;
    var eq := ScanTo(raw, 0, Text.Only('='));
    if host == "" || eq == |raw| {
      return None;
    }
    assert raw[eq..][1..] == raw[eq + 1..];
    var parts := Split(raw[eq + 1..], ';');
    var keep, domain := [parts[0]], "";
    ghost var tail := parts[1..];
    SortNone(tail[..0]);
    for i := 1 to |parts|
      invariant SortAttributes(tail[..i - 1]).0 == domain
      invariant keep == [parts[0]] + SortAttributes(tail[..i - 1]).1
    {
      SortSnoc(tail, i - 1);
      var d := DomainAttribute(parts[i]);
      if d.Some? {
        domain := d.value;
        continue;
      }
      if AttributeValue(parts[i], "path").Some? {
        continue;
      }
      keep := keep + [parts[i]];
    }
    assert tail[..|parts| - 1] == tail;
    var sc := BrowserScope(domain, host);
    var prefix := BrowserCookiePrefix(sc.0, sc.1);
    r := Some(prefix + TrimSpace(raw[..eq]) + "=" + Join(keep, ";") + "; Path=/");
  }

  lemma SortNone(parts: seq<string>)
    ensures parts == [] ==> SortAttributes(parts) == ("", [])
  {
  }

  lemma SortSnoc(parts: seq<string>, n: nat)
    requires n < |parts|
    ensures SortAttributes(parts[..n + 1]) ==
      var (domain, keep) := SortAttributes(parts[..n]);
      if DomainAttribute(parts[n]).Some? then (DomainAttribute(parts[n]).value, keep)
      else if AttributeValue(parts[n], "path").Some? then (domain, keep)
      else (domain, keep + [parts[n]])
  {
    assert parts[..n + 1][..n] == parts[..n];
  }

  // --- what is written ---

  predicate IsKept(part: string) { DomainAttribute(part).None? && AttributeValue(part, "path").None? }

  function Kept(parts: seq<string>): seq<string> {
    if parts == [] then [] else (if IsKept(parts[0]) then [parts[0]] else []) + Kept(parts[1..])
  }

  lemma {:induction false} KeptSnoc(parts: seq<string>, p: string)
    ensures Kept(parts + [p]) == Kept(parts) + if IsKept(p) then [p] else []
  {
    hide IsKept;
    if parts == [] {
      assert [p][1..] == [] && parts + [p] == [p];
    } else {
      KeptSnoc(parts[1..], p);
      assert (parts + [p])[1..] == parts[1..] + [p];
    }
  }

  /** The attributes that are neither Domain nor Path are kept, in order. */
  lemma {:induction false} KeptAttributes(parts: seq<string>)
    ensures SortAttributes(parts).1 == Kept(parts)
    decreases |parts|
  {
    hide DomainAttribute, AttributeValue;
    if parts != [] {
      var ps, p := parts[..|parts| - 1], parts[|parts| - 1];
      KeptAttributes(ps);
      KeptSnoc(ps, p);
      assert parts == ps + [p];
    }
  }

  /** The last Domain decides; without one there is none. */
  lemma {:induction false} LastDomainCounts(parts: seq<string>, i: int)
    requires -1 <= i < |parts| && forall j | i < j < |parts| :: DomainAttribute(parts[j]).None?
    requires i >= 0 ==> DomainAttribute(parts[i]).Some?
    ensures SortAttributes(parts).0 == if i < 0 then "" else DomainAttribute(parts[i]).value
    decreases |parts|
  {
    hide DomainAttribute, AttributeValue;
    if parts != [] && i < |parts| - 1 {
      LastDomainCounts(parts[..|parts| - 1], i);
    }
  }

  /** Whatever a script writes goes into the slot the server would choose for the same name
      and the last Domain given; the rest of the write is passed on in order, at Path=/. */
  lemma WritesFillTheServersSlot(raw: string, host: string)
    ensures WrittenCookie(raw, host) ==
      var t := Take(raw, Text.Only('='));
      if host == "" || t.rest == "" then None
      else
        var parts := Split(t.rest[1..], ';');
        Some(Pack(SortAttributes(parts[1..]).0, host, TrimSpace(t.token)) + "="
             + Join([parts[0]] + Kept(parts[1..]), ";") + "; Path=/")
  {
    hide Take, SortAttributes, Join, Prefix, TrimSpace, Scope, BrowserScope, Split, Kept;
    var t := Take(raw, Text.Only('='));
    if host != "" && t.rest != "" {
      var parts := Split(t.rest[1..], ';');
      ScopesAgree(SortAttributes(parts[1..]).0, host);
      KeptAttributes(parts[1..]);
    }
  }

  lemma {:induction false} SplitJoined(ws: seq<string>)
    requires ws != [] && forall w | w in ws :: Free(w, Text.Only(';'))
    ensures Split(Join(ws, ";"), ';') == ws
  {
    hide Split, Free;
    assert ws[0] in ws;
    if |ws| == 1 {
      SplitOne(ws[0], ';', "");
    } else {
      var r := ws[1..];
      assert ws == [ws[0]] + r;
      hide Join;
      SplitJoined(r);
      JoinMore(ws[0], r, ";");
      SplitOne(ws[0], ';', Join(r, ";"));
    }
  }

  /** The same in terms of what the script put together: a name, a value and attributes. */
  lemma WritesInParts(name: string, value: string, attrs: seq<string>, host: string)
    requires host != "" && Free(name, Text.Only('=')) && forall w | w in [value] + attrs :: Free(w, Text.Only(';'))
    ensures WrittenCookie(name + ("=" + Join([value] + attrs, ";")), host)
         == Some(Pack(SortAttributes(attrs).0, host, TrimSpace(name))
                  + "=" + Join([value] + Kept(attrs), ";") + "; Path=/")
  {
    hide *;
    var text := Join([value] + attrs, ";");
    WritesFillTheServersSlot(name + ("=" + text), host);
    SplitJoined([value] + attrs);
    assert ([value] + attrs)[1..] == attrs && ("=" + text)[1..] == text;
    NameScan(name, text);
  }

  lemma NameScan(name: string, text: string)
    requires Free(name, Text.Only('='))
    ensures Take(name + ("=" + text), Text.Only('=')) == Scan(name, "=" + text)
  {
    TakeIs(name, "=" + text, Text.Only('='));
  }

  lemma TrimsTo(lead: string, t: string)
    requires t != "" && !IsBlank(t[0]) && (lead == "" || lead == " ")
    ensures TrimLeft(lead + t, Blank) == t
  {
    assert lead == " " ==> (lead + t)[1..] == t;
    assert lead == "" ==> lead + t == t;
  }

  lemma AttributeIs(name: string, written: string, value: string)
    requires |written| == |name| > 0 && EqualFold(written, name) && !IsBlank(written[0])
    ensures AttributeValue(" " + (written + ("=" + value)), name) == Some(value)
  {
    hide TrimLeft, ToLower;
    var t := written + ("=" + value);
    TrimsTo(" ", t);
    TrimsTo("", "=" + value);
    assert "" + ("=" + value) == "=" + value && ("=" + value)[1..] == value;
    assert t[..|name|] == written && t[|name|..] == "=" + value;
  }

  lemma DomainText(d: string)
    ensures " Domain=" + d == " " + ("Domain" + ("=" + d))
  {
    assert " Domain=" == " " + "Domain" + "=";
  }

  lemma WrittenDomain(d: string)
    requires '\n' !in d && '\r' !in d
    ensures DomainAttribute(" Domain=" + d) == Some(TrimSpace(d))
  {
    hide TrimSpace, AttributeValue;
    DomainText(d);
    assert EqualFold("Domain", "domain") && !IsBlank("Domain"[0]);
    AttributeIs("domain", "Domain", d);
  }

  /** So the slot of a plain write is the server's host-only slot, and that of a write for a
      Domain is the slot of that Domain. */
  lemma PlainAndDomainWrites(name: string, value: string, d: string, host: string)
    requires host != "" && Trimmed(name) && Free(name, Text.Only('=')) && Free(value, Text.Only(';'))
    requires Free(d, Text.Only(';')) && '\n' !in d && '\r' !in d
    ensures WrittenCookie(name + ("=" + value), host) == Some(Pack("", host, name) + "=" + value + "; Path=/")
    ensures WrittenCookie(name + ("=" + Join([value, " Domain=" + d], ";")), host)
         == Some(Pack(d, host, name) + "=" + value + "; Path=/")
  {
    hide *;
    TrimmedStays(name);
    JoinOne(value);
    assert [value] + [] == [value];
    WritesInParts(name, value, [], host);
    NoAttributes();
    var attr := " Domain=" + d;
    AttributeIsFree(d);
    assert [value] + [attr] == [value, attr];
    WritesInParts(name, value, [attr], host);
    WrittenDomain(d);
    SortDomain(attr, TrimSpace(d));
    TrimTwice(d, host);
    SamePack(TrimSpace(d), d, host, name);
  }

  lemma JoinOne(value: string)
    ensures Join([value], ";") == value
  {
  }

  lemma NoAttributes()
    ensures SortAttributes([]) == ("", []) && Kept([]) == []
  {
  }

  lemma SamePack(d: string, e: string, host: string, name: string)
    requires Scope(d, host) == Scope(e, host)
    ensures Pack(d, host, name) == Pack(e, host, name)
  {
  }

  lemma AttributeIsFree(d: string)
    requires Free(d, Text.Only(';'))
    ensures Free(" Domain=" + d, Text.Only(';'))
  {
    assert forall i | 0 <= i < 8 :: " Domain="[i] != ';';
  }

  lemma SortDomain(attr: string, d: string)
    requires DomainAttribute(attr) == Some(d)
    ensures SortAttributes([attr]).0 == d && Kept([attr]) == []
  {
    hide DomainAttribute, AttributeValue;
    assert [attr][..0] == [] && [attr][1..] == [];
  }

  lemma TrimTwice(d: string, host: string)
    ensures Scope(TrimSpace(d), host) == Scope(d, host)
  {
    TrimSpaceTrims(d);
    TrimmedStays(TrimSpace(d));
  }
}
