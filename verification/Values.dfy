/** The value rewriters: srcset candidate lists, URL lists and refresh targets. The
    resolver is a parameter standing for `link.Resolve` at a fixed base. */
module Values {
  import opened Text
  import opened Words

  type Resolver = string -> string

  predicate IsTokenChar(c: char) { IsLetter(c) || '0' <= c <= '9' || c == '-' || c == '_' }

  predicate IsLink(s: string) {
    "/p/" <= s && forall i | 3 <= i < |s| :: IsTokenChar(s[i])
  }

  /** What `link.Resolve` guarantees: the reference itself, or a proxy link. */
  ghost predicate Resolves(resolve: Resolver) {
    forall r: string :: resolve(r) == r || IsLink(resolve(r))
  }

  lemma LinkText(s: string)
    requires IsLink(s)
    ensures IsWord(s) && s[0] == '/' && !IsBlank(s[|s| - 1]) && s[|s| - 1] != ','
  {
    forall i | 0 <= i < |s|
      ensures !IsBlank(s[i])
    {
      assert i < 3 ==> s[i] == "/p/"[i];
    }
  }

  function Map(ws: seq<string>, resolve: Resolver): (r: seq<string>)
    ensures |r| == |ws| && forall i | 0 <= i < |ws| :: r[i] == resolve(ws[i])
  {
    seq(|ws|, i requires 0 <= i < |ws| => resolve(ws[i]))
  }

  // --- srcset ---

  datatype Candidate = Candidate(url: string, descriptor: string)

  /** The parts of a srcset value: a URL runs to white space, so commas inside it do not
      separate candidates, but trailing commas do. */
  function Candidates(v: string): seq<Candidate>
    decreases |v|
  {
    var s := Take(v, CandidateStart).rest;
    if s == "" then []
    else
      var u := Take(s, Space);
      if HasSuffix(u.token, ",") then
        [Candidate(TrimRight(u.token, Only(',')), "")] + Candidates(u.rest)
      else
        var d := Take(u.rest, Only(','));
        assert u.token == "" ==> u.rest == s;
        [Candidate(u.token, TrimSpace(d.token))] + Candidates(d.rest)
  }

  function PrintCandidate(c: Candidate): string {
    c.url + if c.descriptor == "" then "" else " " + c.descriptor
  }

  function PrintCandidates(cs: seq<Candidate>): string {
    if cs == [] then ""
    else PrintCandidate(cs[0]) + if |cs| == 1 then "" else ", " + PrintCandidates(cs[1..])
  }

  function MapUrls(cs: seq<Candidate>, resolve: Resolver): (r: seq<Candidate>)
    ensures |r| == |cs|
    ensures forall i | 0 <= i < |cs| :: r[i] == Candidate(resolve(cs[i].url), cs[i].descriptor)
  {
    seq(|cs|, i requires 0 <= i < |cs| => Candidate(resolve(cs[i].url), cs[i].descriptor))
  }

  function SrcsetOf(v: string, resolve: Resolver): string {
    var cs := Candidates(v);
    if cs == [] then v else PrintCandidates(MapUrls(cs, resolve))
  }

  /** A URL that the scan cannot cut short, and a descriptor it returns as it is. */
  predicate IsCandidateUrl(u: string) {
    u != "" && Free(u, Space) && u[0] != ',' && u[|u| - 1] != ','
  }

  predicate IsCandidate(c: Candidate) {
    && IsCandidateUrl(c.url)
    && Trimmed(c.descriptor) && Free(c.descriptor, Only(','))
  }

  lemma CandidateUrl(s: string)
    requires s != "" && In(s[0], CandidateStart)
    ensures var u := Take(s, Space).token;
      IsCandidateUrl(if HasSuffix(u, ",") then TrimRight(u, Only(',')) else u)
  {
    var u := Take(s, Space);
    assert u.token == "" ==> u.rest == s;
    assert u.token[0] == s[0];
    TrimKeepsFirst(u.token);
    if u.token[|u.token| - 1] == ',' {
      assert u.token[|u.token| - 1..] == ",";
    }
  }

  /** Every candidate has a URL: the source's guard against an empty one never fires. */
  lemma {:induction false} CandidatesAreCandidates(v: string)
    ensures forall c | c in Candidates(v) :: IsCandidate(c)
    decreases |v|
  {
    hide HasSuffix, TrimSpace, Take, IsCandidateUrl, Trimmed, Free;
    var s := Take(v, CandidateStart).rest;
    if s != "" {
      CandidateUrl(s);
      var u := Take(s, Space);
      if HasSuffix(u.token, ",") {
        BareIsCandidate(TrimRight(u.token, Only(',')));
        CandidatesAreCandidates(u.rest);
      } else {
        var d := Take(u.rest, Only(','));
        DescriptorIsClean(d.token);
        CandidatesAreCandidates(d.rest);
      }
    }
  }

  lemma BareIsCandidate(url: string)
    requires IsCandidateUrl(url)
    ensures IsCandidate(Candidate(url, ""))
  {
  }

  lemma {:induction false} TrimKeepsFirst(s: string)
    requires s != "" && s[0] != ','
    ensures var t := TrimRight(s, Only(',')); t != "" && t[0] == s[0]
  {
    if In(s[|s| - 1], Only(',')) {
      TrimKeepsFirst(s[..|s| - 1]);
    }
  }

  lemma DescriptorIsClean(d: string)
    requires Free(d, Only(','))
    ensures Trimmed(TrimSpace(d)) && Free(TrimSpace(d), Only(','))
  {
    TrimSpaceTrims(d);
    var t := TrimSpace(d);
    forall i | 0 <= i < |t|
      ensures !In(t[i], Only(','))
    {
      assert t[i] in t && t[i] in TrimLeft(d, Blank) && t[i] in d;
    }
  }

  lemma BareStep(v: string, url: string, rest: string)
    requires v != "" && In(v[0], CandidateStart)
    requires Take(v, Space) == Scan(url + ",", rest) && TrimRight(url + ",", Only(',')) == url
    ensures Candidates(v) == [Candidate(url, "")] + Candidates(rest)
  {
    TakeIs("", v, CandidateStart);
    assert "" + v == v;
  }

  lemma DescribedStep(v: string, url: string, rest: string, d: string, more: string)
    requires v != "" && In(v[0], CandidateStart)
    requires Take(v, Space) == Scan(url, rest) && !HasSuffix(url, ",")
    requires Take(rest, Only(',')) == Scan(d, more)
    ensures Candidates(v) == [Candidate(url, TrimSpace(d))] + Candidates(more)
  {
    TakeIs("", v, CandidateStart);
    assert "" + v == v;
  }

  /** A printed candidate scans back; the scan resumes at the separator. */
  lemma CandidateScan(c: Candidate, rest: string)
    requires IsCandidate(c)
    ensures Candidates(PrintCandidate(c) + (", " + rest))
         == [c] + Candidates(if c.descriptor == "" then " " + rest else ", " + rest)
  {
    var more := ", " + rest;
    if c.descriptor == "" {
      TakeIs(c.url + ",", " " + rest, Space);
      TrimComma(c.url);
      assert PrintCandidate(c) + more == (c.url + ",") + (" " + rest);
      BareStep((c.url + ",") + (" " + rest), c.url, " " + rest);
    } else {
      DescribedScan(c, more);
    }
  }

  lemma TrimComma(url: string)
    requires url != "" && url[|url| - 1] != ','
    ensures TrimRight(url + ",", Only(',')) == url
  {
    assert (url + ",")[..|url|] == url;
    assert TrimRight(url, Only(',')) == url;
  }

  lemma LastCandidateScan(c: Candidate)
    requires IsCandidate(c)
    ensures Candidates(PrintCandidate(c)) == [c]
  {
    TakeIs("", "", CandidateStart);
    if c.descriptor == "" {
      TakeIs(c.url, "", Space);
      TakeIs("", "", Only(','));
      assert c.url + "" == c.url;
      DescribedStep(c.url, c.url, "", "", "");
    } else {
      DescribedScan(c, "");
      assert PrintCandidate(c) + "" == PrintCandidate(c);
    }
  }

  lemma NoTrailingComma(url: string)
    requires IsCandidateUrl(url)
    ensures !HasSuffix(url, ",")
  {
  }

  lemma DescribedScan(c: Candidate, more: string)
    requires IsCandidate(c) && c.descriptor != "" && (more == "" || more[0] == ',')
    ensures Candidates(PrintCandidate(c) + more) == [c] + Candidates(more)
  {
    hide Candidates, TrimSpace, Trimmed, IsCandidateUrl, HasSuffix;
    TrimmedStays(c.descriptor);
    NoTrailingComma(c.url);
    DescribedParts(c.url, " " + c.descriptor, more);
    Assoc(c.url, " " + c.descriptor, more);
  }

  lemma DescribedParts(url: string, d: string, more: string)
    requires IsCandidateUrl(url) && !HasSuffix(url, ",")
    requires d != "" && IsSpace(d[0]) && Free(d, Only(',')) && (more == "" || more[0] == ',')
    ensures Candidates(url + (d + more)) == [Candidate(url, TrimSpace(d))] + Candidates(more)
  {
    TakeIs(url, d + more, Space);
    TakeIs(d, more, Only(','));
    DescribedStep(url + (d + more), url, d + more, d, more);
  }

  lemma SkipSeparator(v: string)
    requires v != "" && !In(v[0], CandidateStart)
    ensures Candidates(v) == Candidates(v[1..])
  {
    var t := Take(v[1..], CandidateStart);
    assert v == (v[..1] + t.token) + t.rest;
    TakeIs(v[..1] + t.token, t.rest, CandidateStart);
  }

  lemma {:induction false} CandidatesPrint(cs: seq<Candidate>)
    requires forall c | c in cs :: IsCandidate(c)
    ensures Candidates(PrintCandidates(cs)) == cs
  {
    if cs == [] {
      TakeIs("", "", CandidateStart);
    } else {
      assert cs == [cs[0]] + cs[1..];
      if |cs| == 1 {
        LastCandidateScan(cs[0]);
        assert PrintCandidates(cs) == PrintCandidate(cs[0]);
      } else {
        var rest := PrintCandidates(cs[1..]);
        CandidatesPrint(cs[1..]);
        CandidateScan(cs[0], rest);
        SkipTwo(rest);
      }
    }
  }

  lemma SkipTwo(rest: string)
    ensures Candidates(", " + rest) == Candidates(" " + rest) == Candidates(rest)
  {
    assert (", " + rest)[1..] == " " + rest && (" " + rest)[1..] == rest;
    SkipSeparator(", " + rest);
    SkipSeparator(" " + rest);
  }

  lemma ResolvedIsCandidate(c: Candidate, resolve: Resolver)
    requires Resolves(resolve) && IsCandidate(c)
    ensures IsCandidate(Candidate(resolve(c.url), c.descriptor))
  {
    if resolve(c.url) != c.url {
      LinkText(resolve(c.url));
      assert forall i | 0 <= i < |resolve(c.url)| :: !In(resolve(c.url)[i], Blank);
    }
  }

  /** Rewriting a srcset commutes with reading it: the same candidates in the same order,
      each URL resolved and each descriptor as it was. */
  lemma SrcsetCommutes(v: string, resolve: Resolver)
    requires Resolves(resolve)
    ensures Candidates(SrcsetOf(v, resolve)) == MapUrls(Candidates(v), resolve)
  {
    var cs := Candidates(v);
    CandidatesAreCandidates(v);
    forall c | c in MapUrls(cs, resolve)
      ensures IsCandidate(c)
    {
      var i :| 0 <= i < |cs| && c == MapUrls(cs, resolve)[i];
      ResolvedIsCandidate(cs[i], resolve);
    }
    CandidatesPrint(MapUrls(cs, resolve));
  }

  lemma {:induction false} PrintCandidatesSnoc(cs: seq<Candidate>, c: Candidate)
    ensures PrintCandidates(cs + [c])
         == PrintCandidates(cs) + (if cs == [] then "" else ", ") + PrintCandidate(c)
  {
    if cs == [] {
      assert cs + [c] == [c];
    } else {
      PrintCandidatesSnoc(cs[1..], c);
      assert (cs + [c])[1..] == cs[1..] + [c];
      if |cs| > 1 {
        Flatten(PrintCandidate(cs[0]), ", ", PrintCandidates(cs[1..]), ", ", PrintCandidate(c));
      } else {
        assert PrintCandidates(cs[1..]) == "" && "" + "" + PrintCandidate(c) == PrintCandidate(c);
      }
    }
  }

  lemma Flatten(a: string, b: string, c: string, d: string, e: string)
    ensures a + (b + (c + d + e)) == a + (b + c) + d + e
  {
  }

  /** One round of the loop over a srcset value: the candidate at `i`, and where the
      scan stops. */
  method ScanCandidate(v: string, i: nat) returns (c: Option<Candidate>, j: nat)
    requires i < |v|
    ensures i <= j <= |v|
    ensures c.None? ==> Candidates(v[i..]) == []
    ensures c.Some? ==> i < j && Candidates(v[i..]) == [c.value] + Candidates(v[j..])
  {
    var from := ScanTo(v, i, CandidateStart);
    if from >= |v| {
      return None, from;
    }
    j := ScanTo(v, from, Space);
    assert Take(v[from..], Space) == Scan(v[from..j], v[j..]);
    assert v[from..][0] == v[from];
    CandidateUrl(v[from..]);
    NextCandidate(v[i..], v[from..]);
    if HasSuffix(v[from..j], ",") {
      c := Some(Candidate(TrimRight(v[from..j], Only(',')), ""));
    } else {
      var descFrom := j;
      j := ScanTo(v, descFrom, Only(','));
      c := Some(Candidate(v[from..descFrom], TrimSpace(v[descFrom..j])));
    }
  }

  /** The source loop over a srcset value. */
  method RewriteSrcset(v: string, resolve: Resolver) returns (r: string)
    ensures r == SrcsetOf(v, resolve)
  {
    assert PrintCandidates(MapUrls([], resolve)) == "";
    hide Candidates, PrintCandidates;
    var b, first, i := "", true, 0;
    ghost var done: seq<Candidate> := [];
    assert v[0..] == v;
    while i < |v|
      invariant i <= |v|
      invariant Splits(v, done, i)
      invariant b == PrintCandidates(MapUrls(done, resolve))
      invariant first <==> done == []
      decreases |v| - i
    {
      var c, j := ScanCandidate(v, i);
      if c.None? {
        break;
      }
      AppendMapped(done, c.value, resolve);
      SplitsStep(v, done, i, c.value, j);
      var url := resolve(c.value.url);
      if !first {
        b := b + ", ";
      }
      b := b + PrintCandidate(Candidate(url, c.value.descriptor));
      first, i, done := false, j, done + [c.value];
    }
    Exhausted(v, i);
    assert done + [] == done;
    r := if first then v else b;
  }

  ghost predicate Splits(v: string, done: seq<Candidate>, i: nat)
    requires i <= |v|
  {
    done + Candidates(v[i..]) == Candidates(v)
  }

  lemma SplitsStep(v: string, done: seq<Candidate>, i: nat, c: Candidate, j: nat)
    requires i <= |v| && j <= |v|
    requires Splits(v, done, i) && Candidates(v[i..]) == [c] + Candidates(v[j..])
    ensures Splits(v, done + [c], j)
  {
    hide Candidates;
    assert done + ([c] + Candidates(v[j..])) == (done + [c]) + Candidates(v[j..]);
  }

  lemma Exhausted(v: string, i: nat)
    requires i <= |v|
    ensures i == |v| ==> Candidates(v[i..]) == []
  {
    TakeIs("", "", CandidateStart);
  }

  /** Where one round of the loop over a srcset value ends. */
  lemma NextCandidate(v: string, s: string)
    requires s != "" && Take(v, CandidateStart).rest == s
    ensures var u := Take(s, Space);
      var d := Take(u.rest, Only(','));
      Candidates(v) == if HasSuffix(u.token, ",")
        then [Candidate(TrimRight(u.token, Only(',')), "")] + Candidates(u.rest)
        else [Candidate(u.token, TrimSpace(d.token))] + Candidates(d.rest)
  {
  }

  lemma AppendMapped(cs: seq<Candidate>, c: Candidate, resolve: Resolver)
    ensures PrintCandidates(MapUrls(cs + [c], resolve))
         == PrintCandidates(MapUrls(cs, resolve)) + (if cs == [] then "" else ", ")
          + PrintCandidate(Candidate(resolve(c.url), c.descriptor))
  {
    var d := Candidate(resolve(c.url), c.descriptor);
    assert MapUrls(cs + [c], resolve) == MapUrls(cs, resolve) + [d];
    PrintCandidatesSnoc(MapUrls(cs, resolve), d);
  }

  // --- ping ---

  function UrlListOf(v: string, resolve: Resolver): string {
    var fields := Fields(v);
    if fields == [] then v else Join(Map(fields, resolve), " ")
  }

  /** Rewriting a list of URLs resolves each of them, in order. */
  lemma UrlListCommutes(v: string, resolve: Resolver)
    requires Resolves(resolve)
    ensures Fields(UrlListOf(v, resolve)) == Map(Fields(v), resolve)
  {
    var fields := Fields(v);
    FieldsAreWords(v);
    forall w | w in Map(fields, resolve)
      ensures IsWord(w)
    {
      var i :| 0 <= i < |fields| && w == resolve(fields[i]);
      assert fields[i] in fields;
      if w != fields[i] {
        LinkText(w);
      }
    }
    FieldsJoin("", Map(fields, resolve));
    assert "" + Join(Map(fields, resolve), " ") == Join(Map(fields, resolve), " ");
  }

  method RewriteURLList(v: string, resolve: Resolver) returns (r: string)
    ensures r == UrlListOf(v, resolve)
  {
    hide Fields, Join;
    var fields := Fields(v);
    if |fields| == 0 {
      return v;
    }
    var i := 0;
    while i < |fields|
      invariant i <= |fields| == |Fields(v)|
      invariant forall j | 0 <= j < i :: fields[j] == resolve(Fields(v)[j])
      invariant fields[i..] == Fields(v)[i..]
    {
      assert fields[i] == fields[i..][0] == Fields(v)[i];
      fields := fields[i := resolve(fields[i])];
      i := i + 1;
    }
    assert fields == Map(Fields(v), resolve);
    r := Join(fields, " ");
  }

  // --- <meta http-equiv="refresh"> ---

  /** A refresh value: the delay up to ';', the white space after it, and the URL. */
  datatype Refresh = Refresh(delay: string, lead: string, url: string)

  /** The URL of a refresh value, without the quotes or white space around it. */
  function RefreshUrl(ref: string): string {
    if ref != "" && (ref[0] == '"' || ref[0] == '\'') then Take(ref[1..], Only(ref[0])).token
    else TrimRight(ref, Space)
  }

  /** The URL after "url", white space and '='. */
  function RefreshTarget(trimmed: string): Option<string> {
    if |trimmed| < 4 || !EqualFold(trimmed[..3], "url") then None
    else
      var eq := Take(trimmed[3..], NonSpace).rest;
      if eq == "" || eq[0] != '=' then None
      else Some(RefreshUrl(Take(eq[1..], NonSpace).rest))
  }

  function ParseRefresh(v: string): Option<Refresh> {
    var d := Take(v, Only(';'));
    if d.rest == "" then None
    else
      var lead := Take(d.rest[1..], NonSpace);
      match RefreshTarget(lead.rest)
      case Some(url) => Some(Refresh(d.token, lead.token, url))
      case None => None
  }

  function RefreshOf(v: string, resolve: Resolver): string {
    match ParseRefresh(v)
    case None => v
    case Some(f) =>
      var next := resolve(f.url);
      if next == f.url then v else f.delay + ";" + f.lead + "url=" + next
  }

  lemma LinkIsRefreshUrl(s: string)
    requires IsLink(s)
    ensures RefreshUrl(s) == s && s != "" && !IsSpace(s[0])
  {
    LinkText(s);
  }

  lemma ScanTarget(url: string)
    requires url != "" && !IsSpace(url[0])
    ensures RefreshTarget("url=" + url) == Some(RefreshUrl(url))
  {
    var t := "url=" + url;
    assert t[..3] == "url" && t[3..] == "=" + url && ("=" + url)[1..] == url;
    TakeIs("", "=" + url, NonSpace);
    TakeIs("", url, NonSpace);
    assert "" + ("=" + url) == "=" + url && "" + url == url;
  }

  lemma ScanRefresh(delay: string, lead: string, trimmed: string, url: string)
    requires Free(delay, Only(';')) && Free(lead, NonSpace) && trimmed != "" && !IsSpace(trimmed[0])
    requires RefreshTarget(trimmed) == Some(url)
    ensures ParseRefresh(delay + (";" + (lead + trimmed))) == Some(Refresh(delay, lead, url))
  {
    hide RefreshTarget;
    TakeIs(delay, ";" + (lead + trimmed), Only(';'));
    assert (";" + (lead + trimmed))[1..] == lead + trimmed;
    TakeIs(lead, trimmed, NonSpace);
  }

  lemma RefreshParts(v: string)
    ensures ParseRefresh(v).Some? ==>
      Free(ParseRefresh(v).value.delay, Only(';')) && Free(ParseRefresh(v).value.lead, NonSpace)
  {
  }

  lemma Assoc5(a: string, b: string, c: string, d: string, e: string)
    ensures a + b + c + d + e == a + (b + (c + (d + e)))
  {
  }

  /** Rewriting a refresh value keeps its delay and resolves its URL; a value without a
      URL stays as it is. */
  lemma RefreshCommutes(v: string, resolve: Resolver)
    requires Resolves(resolve)
    ensures ParseRefresh(v).None? ==> RefreshOf(v, resolve) == v
    ensures ParseRefresh(v).Some? ==>
      var f := ParseRefresh(v).value;
      ParseRefresh(RefreshOf(v, resolve)) == Some(Refresh(f.delay, f.lead, resolve(f.url)))
  {
    var p := ParseRefresh(v);
    if p.Some? && resolve(p.value.url) != p.value.url {
      RefreshParts(v);
      ResolvedRefresh(p.value, resolve(p.value.url));
    }
  }

  lemma ResolvedRefresh(f: Refresh, next: string)
    requires IsLink(next) && Free(f.delay, Only(';')) && Free(f.lead, NonSpace)
    ensures ParseRefresh(f.delay + ";" + f.lead + "url=" + next) == Some(Refresh(f.delay, f.lead, next))
  {
    hide ParseRefresh, RefreshTarget, RefreshUrl, IsLink, Free, Take;
    LinkIsRefreshUrl(next);
    ScanTarget(next);
    ScanRefresh(f.delay, f.lead, "url=" + next, next);
    Assoc5(f.delay, ";", f.lead, "url=", next);
  }

  method ScanRefreshTarget(trimmed: string) returns (url: Option<string>)
    ensures url == RefreshTarget(trimmed)
  {
    hide Take, RefreshUrl;
    if |trimmed| < 4 || !EqualFold(trimmed[..3], "url") {
      return None;
    }
    var k := ScanTo(trimmed, 3, NonSpace);
    if k >= |trimmed| || trimmed[k] != '=' {
      return None;
    }
    assert trimmed[k..][1..] == trimmed[k + 1..];
    k := ScanTo(trimmed, k + 1, NonSpace);
    url := Some(RefreshUrl(trimmed[k..]));
  }

  method RewriteMetaRefresh(v: string, resolve: Resolver) returns (r: string)
    ensures r == RefreshOf(v, resolve)
  {
    hide Take, RefreshTarget;
    assert v[0..] == v;
    var semi := ScanTo(v, 0, Only(';'));
    if semi >= |v| {
      return v;
    }
    var rest := v[semi + 1..];
    assert v[semi..][1..] == rest && rest[0..] == rest;
    var start := ScanTo(rest, 0, NonSpace);
    var ref := ScanRefreshTarget(rest[start..]);
    if ref.None? {
      return v;
    }
    var next := resolve(ref.value);
    if next == ref.value {
      return v;
    }
    assert v[..semi + 1] == v[..semi] + ";";
    r := v[..semi + 1] + rest[..start] + "url=" + next;
  }
}
