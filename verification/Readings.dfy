/** What a browser reads in a document, and what it reads in the rewritten one. Nothing here
    speaks of edits, spans or rules: the tables are spelled out, by element and attribute. */
module Readings {
  import opened Text
  import opened Words
  import opened CharRefs
  import opened StartTag
  import opened TagEdit
  import opened Values
  import opened Rules
  import opened Tokens
  import opened TokenRoundTrip
  import opened HtmlRewrite

  /** An attribute by its folded name and its decoded value, if it has one. */
  datatype Seen = Seen(name: string, value: Option<string>)

  /** A token as a browser takes it: a start tag by its folded name, its attributes and how
      it ends; anything else as it stands. */
  datatype Reading = Start(tag: string, attributes: seq<Seen>, close: Close) | Sheet(css: string) | Other(token: Token)

  function See(a: Attr): Seen { Seen(ToLower(a.name), if a.value.NoValue? then None else Some(Decoded(a))) }

  function SeeAll(ats: seq<Attr>): (r: seq<Seen>)
    ensures |r| == |ats| && forall i | 0 <= i < |ats| :: r[i] == See(ats[i])
  {
    seq(|ats|, i requires 0 <= i < |ats| => See(ats[i]))
  }

  function Read(t: Token): Reading {
    match t
    case Tag(name, tail) => Start(ToLower(name), SeeAll(Named(tail)), Closing(tail))
    case RawBody(tag, text) => if tag == "style" then Sheet(text) else Other(t)
    case _ => Other(t)
  }

  function ReadAll(ts: seq<Token>): (r: seq<Reading>)
    ensures |r| == |ts| && forall i | 0 <= i < |ts| :: r[i] == Read(ts[i])
  {
    seq(|ts|, i requires 0 <= i < |ts| => Read(ts[i]))
  }

  // --- what is meant ---

  /** On these elements the attribute is a URL. */
  const URLS: set<(string, string)> := {
    ("form", "action"), ("button", "formaction"), ("input", "formaction"), ("video", "poster"), ("object", "data"),
    ("blockquote", "cite"), ("q", "cite"), ("del", "cite"), ("ins", "cite"),
    ("body", "background"), ("table", "background"), ("td", "background"), ("th", "background"),
    ("img", "longdesc"), ("iframe", "longdesc"), ("frame", "longdesc"),
    ("html", "manifest"), ("head", "profile"), ("object", "codebase"), ("applet", "codebase")}

  /** The value that an attribute is to have. */
  function Meant(base: Base, tag: string, refresh: bool, name: string, v: string): string {
    if name in {"href", "src", "data-src", "data-href"} || (tag, name) in URLS then base.resolve(v)
    else if name in {"srcset", "imagesrcset", "data-srcset"} then SrcsetOf(v, base.resolve)
    else if (tag, name) == ("a", "ping") then UrlListOf(v, base.resolve)
    else if name == "style" then base.css(v)
    else if refresh && name == "content" then RefreshOf(v, base.resolve)
    else v
  }

  /** A stylesheet's body is rewritten, so its digest is dropped; a base is already spent. */
  predicate Goes(tag: string, sheet: bool, name: string) {
    (sheet && name == "integrity") || (tag, name) == ("base", "href")
  }

  function MeantAll(base: Base, tag: string, refresh: bool, sheet: bool, seen: seq<Seen>): seq<Seen> {
    if seen == [] then []
    else
      var a := seen[0];
      (if Goes(tag, sheet, a.name) then []
       else if a.value.None? then [a]
       else [Seen(a.name, Some(Meant(base, tag, refresh, a.name, a.value.value)))])
      + MeantAll(base, tag, refresh, sheet, seen[1..])
  }

  predicate IsRefresh(tag: string, seen: seq<Seen>) {
    tag == "meta" && exists a | a in seen ::
      a.name == "http-equiv" && a.value.Some? && ToLower(TrimSpace(a.value.value)) == "refresh"
  }

  predicate IsSheet(tag: string, seen: seq<Seen>) {
    tag == "link" && exists a | a in seen && a.value.Some? ::
      || (a.name == "rel" && "stylesheet" in Fields(ToLower(a.value.value)))
      || (a.name == "as" && TrimSpace(ToLower(a.value.value)) == "style")
  }

  function MeantReading(base: Base, r: Reading): Reading {
    match r
    case Start(tag, seen, close) =>
      Start(tag, MeantAll(base, tag, IsRefresh(tag, seen), IsSheet(tag, seen), seen), close)
    case Sheet(css) => Sheet(base.css(css))
    case Other(_) => r
  }

  // --- the rules do what is meant ---

  lemma RulesMean(base: Base, c: Context, name: string, v: string)
    requires !Dropped(c, name)
    ensures Rewritten(base, c, name, v).GetOr(v) == Meant(base, c.tag, c.refresh, name, v)
  {
    TablesAgree(c.tag, name);
    hide SrcsetOf, UrlListOf, RefreshOf, IsURLAttr;
  }

  lemma TablesAgree(tag: string, name: string)
    ensures IsURLAttr(tag, name) <==> name in {"href", "src", "data-src", "data-href"} || (tag, name) in URLS
  {
  }

  predicate QuotesAreQuotes(ats: seq<Attr>) {
    forall a | a in ats :: a.name != "" && (a.value.Quoted? ==> IsQuote(a.value.quote))
  }

  lemma {:induction false} NamedHaveQuotes(t: Tail)
    requires WellFormed(t)
    ensures QuotesAreQuotes(Named(t))
  {
    if !t.Done? {
      NamedHaveQuotes(t.rest);
    }
  }

  /** One attribute, edited, reads as meant. */
  lemma EditReads(base: Base, c: Context, a: Attr)
    requires QuotesAreQuotes([a])
    ensures var edit := EditOf(base, c, a);
      var left := match edit case Keep => [a] case Drop => [] case Change(v) => [Splice(a, v)];
      SeeAll(left) == MeantAll(base, c.tag, c.refresh, c.dropIntegrity, [See(a)])
  {
    hide Rewritten, Meant, Unescape, ToLower;
    var name := ToLower(a.name);
    assert [See(a)][1..] == [] && a in [a];
    if !Dropped(c, name) && !a.value.NoValue? {
      EditedAttrDecodes(base, c, a);
      RulesMean(base, c, name, Decoded(a));
    }
  }

  lemma MeantCons(base: Base, tag: string, refresh: bool, sheet: bool, a: Seen, rest: seq<Seen>)
    ensures MeantAll(base, tag, refresh, sheet, [a] + rest)
         == MeantAll(base, tag, refresh, sheet, [a]) + MeantAll(base, tag, refresh, sheet, rest)
  {
    hide Meant;
    assert ([a] + rest)[1..] == rest && [a][1..] == [];
    assert MeantAll(base, tag, refresh, sheet, []) == [];
  }

  lemma {:induction false} SurvivorsRead(base: Base, c: Context, ats: seq<Attr>)
    requires QuotesAreQuotes(ats) && forall a | a in ats :: EditOf(base, c, a).Change? ==> !a.value.NoValue?
    ensures SeeAll(Survivors(ats, EditorFor(base, c)))
         == MeantAll(base, c.tag, c.refresh, c.dropIntegrity, SeeAll(ats))
  {
    hide EditOf, Meant, MeantAll, See, SeeAll, QuotesAreQuotes;
    SeeNothing();
    if ats == [] {
      NothingMeant(base, c);
    } else {
      var a, rest := ats[0], ats[1..];
      QuotesOfRest(ats);
      SurvivorsRead(base, c, rest);
      EditReads(base, c, a);
      MeantCons(base, c.tag, c.refresh, c.dropIntegrity, See(a), SeeAll(rest));
      assert ats == [a] + rest;
      SeeMore([a], rest);
      assert SeeAll([a]) == [See(a)];
      var left := match EditOf(base, c, a) case Keep => [a] case Drop => [] case Change(v) => [Splice(a, v)];
      SeeMore(left, Survivors(rest, EditorFor(base, c)));
    }
  }

  lemma SeeNothing()
    ensures SeeAll([]) == []
  {
  }

  lemma SeeMore(a: seq<Attr>, b: seq<Attr>)
    ensures SeeAll(a + b) == SeeAll(a) + SeeAll(b)
  {
    hide See;
  }

  lemma QuotesOfRest(ats: seq<Attr>)
    requires ats != [] && QuotesAreQuotes(ats)
    ensures QuotesAreQuotes(ats[1..]) && QuotesAreQuotes([ats[0]]) && ats[0] in ats
    ensures forall a | a in ats[1..] :: a in ats
  {
  }

  lemma NothingMeant(base: Base, c: Context)
    ensures MeantAll(base, c.tag, c.refresh, c.dropIntegrity, []) == []
  {
  }

  lemma RefreshIsSeen(tag: string, tail: Tail)
    ensures ContextOf(tag, tail).refresh <==> IsRefresh(tag, SeeAll(Named(tail)))
  {
    var ats := Named(tail);
    hide Unescape, TrimSpace, ToLower;
    RefreshFolds();
    if a :| a in ats && SaysRefresh(a) {
      var i :| 0 <= i < |ats| && ats[i] == a;
      assert SeeAll(ats)[i] == See(a) && See(a) in SeeAll(ats);
    }
    if s :| s in SeeAll(ats) && s.name == "http-equiv" && s.value.Some? &&
            ToLower(TrimSpace(s.value.value)) == "refresh" {
      var i :| 0 <= i < |ats| && SeeAll(ats)[i] == s;
      assert ats[i] in ats && SaysRefresh(ats[i]);
    }
  }

  lemma RefreshFolds()
    ensures ToLower("refresh") == "refresh"
  {
  }

  lemma SheetIsSeen(tag: string, tail: Tail)
    ensures ContextOf(tag, tail).dropIntegrity <==> IsSheet(tag, SeeAll(Named(tail)))
  {
    var ats := Named(tail);
    hide Unescape, TrimSpace, ToLower, Fields;
    forall a | a in ats
      ensures See(a) in SeeAll(ats)
    {
      var i :| 0 <= i < |ats| && ats[i] == a;
      assert SeeAll(ats)[i] == See(a);
    }
    forall s | s in SeeAll(ats)
      ensures exists a | a in ats :: s == See(a)
    {
      var i :| 0 <= i < |ats| && SeeAll(ats)[i] == s;
      assert ats[i] in ats;
    }
  }

  /** A rewritten token reads as meant, whatever else the document holds. */
  lemma TokensReadAsMeant(base: Base, t: Token)
    requires t.Tag? ==> WellFormed(t.tail)
    ensures Read(RewriteToken(base, t)) == MeantReading(base, Read(t))
  {
    if t.Tag? {
      var tag := ToLower(t.name);
      var c := ContextOf(tag, t.tail);
      hide MeantAll, SeeAll, ContextOf, IsRefresh, IsSheet, EditOf, ToLower;
      EditorIsSensible(base, c);
      NamedHaveQuotes(t.tail);
      SurvivorsInOrder(t.tail, EditorFor(base, c));
      SurvivorsRead(base, c, Named(t.tail));
      ApplyCloses(t.tail, EditorFor(base, c));
      RefreshIsSeen(tag, t.tail);
      SheetIsSeen(tag, t.tail);
      ContextTag(tag, t.tail);
    }
  }

  lemma ContextTag(tag: string, tail: Tail)
    ensures ContextOf(tag, tail).tag == tag
  {
  }

  lemma {:induction false} TagsAreWellFormed(ts: seq<Token>, mode: Mode)
    requires WellTokenized(ts, mode)
    ensures forall t | t in ts :: t.Tag? ==> WellFormed(t.tail)
    decreases |ts|
  {
    if ts != [] && !mode.PlainText? {
      var m := if mode.Data? then ModeAfter(ts[0]) else Data;
      TagsAreWellFormed(ts[1..], m);
      assert ts == [ts[0]] + ts[1..];
    }
  }

  lemma {:induction false} RewritesReadAsMeant(base: Base, ts: seq<Token>)
    requires forall t | t in ts :: t.Tag? ==> WellFormed(t.tail)
    ensures |RewriteAll(base, ts)| == |ts|
    ensures forall i | 0 <= i < |ts| :: Read(RewriteAll(base, ts)[i]) == MeantReading(base, Read(ts[i]))
  {
    hide Read, MeantReading, RewriteToken, WellFormed;
    if ts != [] {
      LeadStays(base, ts);
      assert ts[0] in ts;
      TokensReadAsMeant(base, ts[0]);
      RewritesReadAsMeant(base, ts[1..]);
      var rs := RewriteAll(base, ts);
      assert forall i | 0 < i < |ts| :: rs[i] == rs[1..][i - 1] && ts[i] == ts[1..][i - 1];
    }
  }

  /** What a browser reads in the rewritten document is what it read in the source, with
      every URL on the literal list resolved, every candidate list, ping list, refresh and
      stylesheet rewritten, the spent base and digests gone, and nothing else changed. */
  lemma DocumentsReadAsMeant(base: Base, s: string)
    requires AddsNoEndTag(base.css) && forall t | t in Tokenize(s, Data) :: Safe(base, t)
    ensures var before, after := ReadAll(Tokenize(s, Data)), ReadAll(Tokenize(Output(base, s), Data));
      |after| == |before| && forall i | 0 <= i < |before| :: after[i] == MeantReading(base, before[i])
  {
    hide Read, MeantReading, RewriteAll, Tokenize, Safe, Output, AddsNoEndTag;
    StructurePreserved(base, s);
    TokenizeIsWell(s, Data);
    TagsAreWellFormed(Tokenize(s, Data), Data);
    RewritesReadAsMeant(base, Tokenize(s, Data));
  }
}
