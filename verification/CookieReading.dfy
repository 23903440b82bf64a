/** What a page reads of the shared jar, and what the server sends upstream from the Cookie
    header the browser makes of it. */
module CookieReading {
  import opened Text
  import opened Words
  import opened CookieScope
  import opened KeyedList
  import opened CookieJar
  import opened CookieText

  // --- Go's cookie parser ---

  predicate IsNameChar(c: char) {
    || IsLetter(c) || '0' <= c <= '9'
    || c in {'!', '#', '$', '%', '&', '\'', '*', '+', '-', '.', '^', '_', '`', '|', '~'}
  }

  /** A token, in the sense of section 5.6.2 of RFC 9110. */
  predicate IsCookieName(s: string) { s != "" && forall c | c in s :: IsNameChar(c) }

  predicate IsValueChar(c: char) { ' ' <= c < '\U{7F}' && c != '"' && c != ';' && c != '\\' }

  /** A value with the quotes around it taken off; None when it is refused. */
  function GoValue(raw: string): Option<string> {
    var v := if |raw| > 1 && raw[0] == '"' && raw[|raw| - 1] == '"' then raw[1..|raw| - 1] else raw;
    if forall c | c in v :: IsValueChar(c) then Some(v) else None
  }

  function GoTrim(s: string): string { TrimRight(TrimLeft(s, LineSpace), LineSpace) }

  function GoPair(part: string): List<string> {
    var p := GoTrim(part);
    var t := Take(p, Text.Only('='));
    var name := GoTrim(t.token);
    if p == "" || !IsCookieName(name) then []
    else
      match GoValue(if t.rest == "" then "" else t.rest[1..])
      case Some(v) => [(name, v)]
      case None => []
  }

  function GoPairs(parts: seq<string>): List<string> {
    if parts == [] then [] else GoPair(parts[0]) + GoPairs(parts[1..])
  }

  /** `Request.Cookies`. */
  function GoCookies(header: string): List<string> { GoPairs(Split(header, ';')) }

  /** What is sent upstream to `host` when the browser sends `header`. */
  function SentUpstream(header: string, host: string): string { Header(Unpack(GoCookies(header), host)) }

  /** A cookie Go reads as it stands. */
  predicate Survives(name: string, value: string) {
    && IsCookieName(name) && (forall c | c in value :: IsValueChar(c))
    && (value == "" || value[|value| - 1] != ' ')
  }

  // --- one pair ---

  lemma {:induction false} TrimRightAfter(a: string, v: string)
    requires a != "" && !In(a[|a| - 1], LineSpace)
    ensures TrimRight(a + v, LineSpace) == a + TrimRight(v, LineSpace)
    decreases |v|
  {
    if v == "" {
      assert a + v == a;
    } else {
      var u := v[..|v| - 1];
      assert (a + v)[..|a + v| - 1] == a + u && (a + v)[|a + v| - 1] == v[|v| - 1];
      TrimRightAfter(a, u);
    }
  }

  lemma LeadTrims(lead: string, s: string)
    requires s != "" && !In(s[0], LineSpace) && (lead == "" || lead == " ")
    ensures TrimLeft(lead + s, LineSpace) == s
  {
    if lead == "" {
      assert lead + s == s;
    } else {
      assert (lead + s)[1..] == s;
    }
  }

  lemma TrimmedName(lead: string, name: string, rest: string)
    requires Trimmed(name) && name != "" && (lead == "" || lead == " ")
    ensures TrimLeft(lead + (name + rest), LineSpace) == name + rest
    ensures GoTrim(name) == name
  {
    assert !In(name[0], LineSpace) && !In(name[|name| - 1], LineSpace);
    LeadTrims(lead, name + rest);
  }

  /** What Go makes of a plain pair. */
  lemma GoPairIs(lead: string, name: string, value: string)
    requires IsPlain(name, value) && name != "" && (lead == "" || lead == " ")
    ensures GoPair(lead + Pair(name, value)) ==
      if !IsCookieName(name) then []
      else match GoValue(TrimRight(value, LineSpace)) case Some(v) => [(name, v)] case None => []
  {
    hide IsCookieName, GoValue, TrimRight, Take, GoTrim, Pair, IsPlain;
    var v := TrimRight(value, LineSpace);
    PairTrims(lead, name, value);
    NameScan(name, v);
    assert ("=" + v)[1..] == v;
  }

  lemma PairTrims(lead: string, name: string, value: string)
    requires IsPlain(name, value) && name != "" && (lead == "" || lead == " ")
    ensures GoTrim(lead + Pair(name, value)) == name + ("=" + TrimRight(value, LineSpace))
    ensures GoTrim(name) == name && Free(name, Text.Only('='))
  {
    hide TrimLeft, TrimRight, Free;
    PairRegroup(lead, name, value);
    assert lead + Pair(name, value) == lead + (name + ("=" + value));
    TrimmedName(lead, name, "=" + value);
    assert name + ("=" + value) == (name + "=") + value;
    TrimRightAfter(name + "=", value);
    assert (name + "=") + TrimRight(value, LineSpace) == name + ("=" + TrimRight(value, LineSpace));
  }

  /** Go reads a value as it stands exactly when every byte of it may stand in one and it
      does not end in a space. */
  lemma ValueSurvives(value: string)
    ensures GoValue(TrimRight(value, LineSpace)) == Some(value) <==>
      (forall c | c in value :: IsValueChar(c)) && (value == "" || value[|value| - 1] != ' ')
  {
    var v := TrimRight(value, LineSpace);
    if value != "" {
      assert value[|value| - 1] in value && value[0] in value;
    }
    if v == value {
      if |value| > 1 && value[0] == '"' {
        assert |value[1..|value| - 1]| < |value|;
      }
    } else {
      assert |v| < |value|;
      TrimmedEnd(value);
    }
  }

  lemma TrimmedEnd(value: string)
    requires TrimRight(value, LineSpace) != value
    ensures value != "" && In(value[|value| - 1], LineSpace)
  {
  }

  lemma {:induction false} StripEmpty(ps: seq<string>)
    ensures StripAny("", ps) == None
  {
    if ps != [] {
      StripEmpty(ps[1..]);
    }
  }

  function InScope(prefixes: seq<string>): string -> Option<string> { n => StripAny(n, prefixes) }

  lemma ProjectFew(name: string, value: string, f: string -> Option<string>)
    ensures Project([], f) == []
    ensures Project([(name, value)], f) == match f(name) case Some(n) => [(n, value)] case None => []
  {
    assert [(name, value)][1..] == [];
  }

  /** A plain pair gives a page what it gives the server, if it survives or is out of
      scope. */
  lemma PairAgrees(lead: string, name: string, value: string, prefixes: seq<string>)
    requires IsPlain(name, value) && (lead == "" || lead == " ")
    requires Survives(name, value) || StripAny(name, prefixes) == None
    ensures var part := lead + Pair(name, value);
      Project(GoPair(part), InScope(prefixes)) == ReadPair(part, prefixes)
  {
    hide Pair, StripAny, GoPair, ReadPair, GoValue, IsCookieName, TrimRight;
    PairReads(lead, name, value, prefixes);
    ProjectFew(name, value, InScope(prefixes));
    if name == "" {
      hide IsPlain;
      StripEmpty(prefixes);
      NamelessPair(lead, value, prefixes);
    } else {
      GoPairIs(lead, name, value);
      ValueSurvives(value);
      var v := GoValue(TrimRight(value, LineSpace));
      if v.Some? {
        ProjectFew(name, v.value, InScope(prefixes));
      }
    }
  }

  lemma NamelessPair(lead: string, value: string, prefixes: seq<string>)
    requires lead == "" || lead == " "
    ensures GoPair(lead + Pair("", value)) == []
  {
    hide TrimRight, GoValue, GoTrim, Take, Pair, IsCookieName;
    NamelessTrims(lead, value);
    var p := "=" + TrimRight(value, LineSpace);
    TakeIs("", p, Text.Only('='));
    assert "" + p == p;
    EmptyName();
  }

  lemma NamelessTrims(lead: string, value: string)
    requires lead == "" || lead == " "
    ensures GoTrim(lead + Pair("", value)) == "=" + TrimRight(value, LineSpace)
  {
    hide TrimRight, TrimLeft;
    assert Pair("", value) == "=" + value;
    LeadTrims(lead, "=" + value);
    TrimRightAfter("=", value);
  }

  lemma EmptyName()
    ensures GoTrim("") == "" && !IsCookieName("")
  {
  }

  // --- whole headers ---

  lemma {:induction false} ProjectConcat(a: List<string>, b: List<string>, f: string -> Option<string>)
    ensures Project(a + b, f) == Project(a, f) + Project(b, f)
  {
    hide Project;
    if a == [] {
      assert a + b == b;
      ProjectFew("", "", f);
    } else {
      ProjectConcat(a[1..], b, f);
      assert a[0..] == a && (a + b)[0..] == a + b && (a + b)[1..] == a[1..] + b;
      ProjectStep(a, 0, f);
      ProjectStep(a + b, 0, f);
    }
  }

  lemma GoCons(p: string, rest: seq<string>, f: string -> Option<string>)
    ensures Project(GoPairs([p] + rest), f) == Project(GoPair(p), f) + Project(GoPairs(rest), f)
    ensures GoPairs([]) == []
  {
    hide GoPair;
    assert ([p] + rest)[1..] == rest;
    ProjectConcat(GoPair(p), GoPairs(rest), f);
  }

  lemma {:induction false} HeaderAgrees(lead: string, l: List<string>, prefixes: seq<string>)
    requires l != [] && (lead == "" || lead == " ") && forall e | e in l :: IsPlain(e.0, e.1)
    requires forall e | e in l :: Survives(e.0, e.1) || StripAny(e.0, prefixes) == None
    ensures var parts := Split(lead + Header(l), ';');
      Project(GoPairs(parts), InScope(prefixes)) == ReadPairs(parts, prefixes)
    decreases |l|
  {
    hide *;
    var p, f := lead + Pair(l[0].0, l[0].1), InScope(prefixes);
    assert l[0] in l;
    SplitHeader(lead, l);
    PairAgrees(lead, l[0].0, l[0].1, prefixes);
    ProjectFew("", "", f);
    if |l| == 1 {
      GoCons(p, [], f);
      ReadCons(p, [], prefixes);
      NoPairs(prefixes);
      assert [p] + [] == [p];
    } else {
      HeaderAgrees(" ", l[1..], prefixes);
      var rest := Split(" " + Header(l[1..]), ';');
      GoCons(p, rest, f);
      ReadCons(p, rest, prefixes);
    }
  }

  lemma NoPairs(prefixes: seq<string>)
    ensures ReadPairs([], prefixes) == []
  {
  }

  /** The server's own test of the marker changes nothing. */
  lemma UnpackIs(l: List<string>, host: string)
    ensures Unpack(l, host) == Project(l, InScope(Prefixes(Scopes(Host(host)))))
  {
    var ss := Scopes(Host(host));
    forall n: string
      ensures Strip(n, Prefixes(ss)) == StripAny(n, Prefixes(ss))
    {
      StripNeedsMarker(n, ss);
    }
    ProjectSame(l, n => Strip(n, Prefixes(ss)), InScope(Prefixes(ss)));
  }

  /** A page reads from `document.cookie` exactly what the server sends upstream for its
      host, when every cookie in its scope is one Go reads as it stands. */
  lemma PagesReadWhatServersSend(jar: List<string>, host: string)
    requires host != "" && forall e | e in jar :: IsPlain(e.0, e.1)
    requires forall e | e in jar :: Survives(e.0, e.1) || StripAny(e.0, Prefixes(Scopes(Host(host)))) == None
    ensures ReadCookies(Header(jar), host) == SentUpstream(Header(jar), host)
  {
    var prefixes := Prefixes(Scopes(Host(host)));
    UnpackIs(GoCookies(Header(jar)), host);
    hide Prefixes, Scopes, StripAny, Header, Split, Project, IsPlain, Survives, GoPairs, ReadPairs, Unpack;
    if jar == [] {
      EmptyHeader(prefixes);
    } else {
      HeaderAgrees("", jar, prefixes);
      assert "" + Header(jar) == Header(jar);
    }
  }

  lemma EmptyHeader(prefixes: seq<string>)
    ensures var parts := Split(Header([]), ';');
      Project(GoPairs(parts), InScope(prefixes)) == ReadPairs(parts, prefixes)
  {
    EmptyJarReads(prefixes, InScope(prefixes));
    SplitOne("", ';', "");
    TakeIs("", "", Text.Only('='));
    assert GoPair("") == [] && [""][1..] == [];
  }

  // --- the condition is exact ---

  /** How long a header the cookies make, with what stands between them. */
  function Weight(l: List<string>): nat {
    if l == [] then 0 else |Pair(l[0].0, l[0].1)| + 2 + Weight(l[1..])
  }

  lemma {:induction false} WeightConcat(a: List<string>, b: List<string>)
    ensures Weight(a + b) == Weight(a) + Weight(b)
  {
    if a == [] {
      assert a + b == b;
    } else {
      assert (a + b)[1..] == a[1..] + b;
      WeightConcat(a[1..], b);
    }
  }

  lemma {:induction false} WeightOfHeader(l: List<string>)
    ensures Weight(l) == if l == [] then 0 else |Header(l)| + 2
    ensures l == [] <==> Header(l) == ""
  {
    hide Pair;
    if l != [] {
      PairIsText(l[0].0, l[0].1);
      WeightOfHeader(l[1..]);
    }
  }

  lemma WeighFew(name: string, value: string)
    ensures Weight([]) == 0 && Weight([(name, value)]) == |name| + |value| + 3
  {
    assert [(name, value)][1..] == [];
  }

  /** Go never makes a value longer. */
  lemma ValueShrinks(value: string)
    ensures var v := GoValue(TrimRight(value, LineSpace));
      v.Some? ==> |v.value| <= |value| && (|v.value| == |value| ==> v.value == value)
  {
    var v := TrimRight(value, LineSpace);
    TrimIsPrefix(value);
    assert |v| == |value| ==> v == value[..|value|] == value;
  }

  lemma {:induction false} TrimIsPrefix(value: string)
    ensures TrimRight(value, LineSpace) <= value
    decreases |value|
  {
    if value != "" && In(value[|value| - 1], LineSpace) {
      TrimIsPrefix(value[..|value| - 1]);
    }
  }

  /** A plain pair never gives the server more than the page, and as much only if it
      survives or is out of scope. */
  lemma PairWeighs(lead: string, name: string, value: string, prefixes: seq<string>)
    requires IsPlain(name, value) && (lead == "" || lead == " ")
    ensures var part := lead + Pair(name, value);
      var sent, read := Weight(Project(GoPair(part), InScope(prefixes))), Weight(ReadPair(part, prefixes));
      sent <= read && (sent == read ==> Survives(name, value) || StripAny(name, prefixes) == None)
  {
    hide Pair, StripAny, GoPair, ReadPair, GoValue, IsCookieName, TrimRight, Project, Weight;
    PairReads(lead, name, value, prefixes);
    ProjectFew(name, value, InScope(prefixes));
    WeighFew(StripAny(name, prefixes).GetOr(""), value);
    if name == "" {
      hide IsPlain;
      StripEmpty(prefixes);
      NamelessPair(lead, value, prefixes);
    } else {
      GoPairIs(lead, name, value);
      ValueSurvives(value);
      ValueShrinks(value);
      var v := GoValue(TrimRight(value, LineSpace));
      if v.Some? {
        ProjectFew(name, v.value, InScope(prefixes));
        WeighFew(StripAny(name, prefixes).GetOr(""), v.value);
      }
    }
  }

  lemma {:induction false} HeaderWeighs(lead: string, l: List<string>, prefixes: seq<string>)
    requires l != [] && (lead == "" || lead == " ") && forall e | e in l :: IsPlain(e.0, e.1)
    ensures var parts := Split(lead + Header(l), ';');
      var sent, read := Weight(Project(GoPairs(parts), InScope(prefixes))), Weight(ReadPairs(parts, prefixes));
      && sent <= read
      && (sent == read ==> forall e | e in l :: Survives(e.0, e.1) || StripAny(e.0, prefixes) == None)
    decreases |l|
  {
    hide *;
    var p, f := lead + Pair(l[0].0, l[0].1), InScope(prefixes);
    assert l[0] in l;
    SplitHeader(lead, l);
    PairWeighs(lead, l[0].0, l[0].1, prefixes);
    if |l| == 1 {
      GoCons(p, [], f);
      ReadCons(p, [], prefixes);
      NoPairs(prefixes);
      ProjectFew("", "", f);
      assert [p] + [] == [p];
      assert Project(GoPair(p), f) + [] == Project(GoPair(p), f) && ReadPair(p, prefixes) + [] == ReadPair(p, prefixes);
    } else {
      HeaderWeighs(" ", l[1..], prefixes);
      var rest := Split(" " + Header(l[1..]), ';');
      GoCons(p, rest, f);
      ReadCons(p, rest, prefixes);
      WeightConcat(Project(GoPair(p), f), Project(GoPairs(rest), f));
      WeightConcat(ReadPair(p, prefixes), ReadPairs(rest, prefixes));
      assert forall e | e in l :: e == l[0] || e in l[1..];
    }
  }

  /** Exactly when a page reads what the server sends: every cookie of the jar is one Go
      reads as it stands or is out of the page's scope. */
  lemma ReadersAgreeExactly(jar: List<string>, host: string)
    requires host != "" && forall e | e in jar :: IsPlain(e.0, e.1)
    ensures ReadCookies(Header(jar), host) == SentUpstream(Header(jar), host) <==>
      forall e | e in jar :: Survives(e.0, e.1) || StripAny(e.0, Prefixes(Scopes(Host(host)))) == None
  {
    var header, prefixes := Header(jar), Prefixes(Scopes(Host(host)));
    UnpackIs(GoCookies(header), host);
    hide Prefixes, Scopes, StripAny, Header, Split, Project, IsPlain, Survives, GoPairs, ReadPairs, Unpack, Weight;
    if ReadCookies(header, host) == SentUpstream(header, host) && jar != [] {
      HeaderWeighs("", jar, prefixes);
      assert "" + header == header;
      WeightOfHeader(ReadPairs(Split(header, ';'), prefixes));
      WeightOfHeader(Unpack(GoCookies(header), host));
    } else if forall e | e in jar :: Survives(e.0, e.1) || StripAny(e.0, prefixes) == None {
      PagesReadWhatServersSend(jar, host);
    }
  }

  /** Of a single cookie in a page's scope, the page reads what the server sends exactly
      when Go reads it as it stands. */
  lemma OneCookieExactly(name: string, value: string, host: string)
    requires host != "" && IsPlain(name, value) && StripAny(name, Prefixes(Scopes(Host(host)))).Some?
    ensures var header := Header([(name, value)]);
      ReadCookies(header, host) == SentUpstream(header, host) <==> Survives(name, value)
  {
    hide *;
    ReadersAgreeExactly([(name, value)], host);
  }
}
