/** What a translated policy grants, spelled out by source and directive: everything the site
    listed is served, and nothing it did not list is allowed. */
module CspGrants {
  import opened Text
  import opened Words
  import opened Sequences
  import opened Csp

  /** A source that holds a secret or a digest, and is kept to the letter. */
  predicate IsExact(s: string) {
    var low := ToLower(s);
    "'nonce-" <= low || "'sha256-" <= low || "'sha384-" <= low || "'sha512-" <= low
  }

  /** A source that means the same on any origin. */
  predicate IsUniversal(s: string) {
    ToLower(s) in {"'self'", "'none'", "'unsafe-inline'", "'unsafe-eval'", "'unsafe-hashes'", "'wasm-unsafe-eval'",
                   "'strict-dynamic'", "'report-sample'", "'inline-speculation-rules'",
                   "data:", "blob:", "filesystem:", "mediastream:"}
  }

  lemma SourceCases(s: string)
    ensures IsUniversal(s) ==> Source(s) == ToLower(s)
    ensures IsExact(s) ==> Source(s) == s
    ensures !IsUniversal(s) && !IsExact(s) ==> Source(s) == "'self'"
  {
    if IsExact(s) {
      ExactIsNotUniversal(s);
    }
    hide ToLower;
  }

  lemma ExactIsNotUniversal(s: string)
    requires IsExact(s)
    ensures !IsKeyword(ToLower(s)) && !IsUniversal(s)
  {
    var low := ToLower(s);
    hide ToLower;
    assert |low| >= 7 && low[0] == '\'' && (low[1] == 'n' || (low[1] == 's' && low[2] == 'h'));
    assert low[1] == 'n' ==> low[2] == 'o' && low[3] == 'n' && low[4] == 'c';
  }

  /** A translation grants nothing new: each source in it is the proxy's own origin, or was
      listed, to the letter if it is a nonce or a hash, and otherwise up to case. */
  lemma NothingIsGranted(sources: seq<string>, t: string)
    requires t in Translate(sources)
    ensures
      || t == "'self'"
      || exists s | s in sources :: EqualFold(s, t) && (IsExact(s) || IsExact(t) ==> s == t)
  {
    TranslateLosesNothing(sources, t);
    var s :| s in sources && Source(s) == t;
    SourceCases(s);
    if IsUniversal(s) {
      LowersAgree(s);
    }
    hide Source, Translate, ToLower;
  }

  lemma LowersAgree(s: string)
    requires IsUniversal(s)
    ensures EqualFold(s, ToLower(s)) && !IsExact(s) && !IsExact(ToLower(s))
  {
    assert ToLower(ToLower(s)) == ToLower(s);
    if IsExact(s) {
      ExactIsNotUniversal(s);
    }
    hide ToLower;
  }

  /** Nothing listed is lost: keywords, nonces, hashes and local schemes stay, and any other
      source, a host or a scheme, is served by the proxy's own origin. */
  lemma ListedIsServed(sources: seq<string>, s: string)
    requires s in sources
    ensures IsUniversal(s) ==> ToLower(s) in Translate(sources)
    ensures IsExact(s) ==> s in Translate(sources)
    ensures !IsUniversal(s) && !IsExact(s) ==> "'self'" in Translate(sources)
  {
    SourceCases(s);
    TranslateLosesNothing(sources, Source(s));
    hide Source, Translate, IsUniversal, IsExact;
  }

  /** The proxy's own origin is granted exactly for a host, another scheme, or itself. */
  lemma SelfExactly(sources: seq<string>)
    ensures "'self'" in Translate(sources) <==>
      exists s | s in sources :: ToLower(s) == "'self'" || (!IsUniversal(s) && !IsExact(s))
  {
    TranslateLosesNothing(sources, "'self'");
    forall s
      ensures Source(s) == "'self'" <==> ToLower(s) == "'self'" || (!IsUniversal(s) && !IsExact(s))
    {
      SourceCases(s);
      SelfIsNotExact(s);
    }
    hide Source, Translate, IsUniversal, IsExact, ToLower;
  }

  lemma SelfIsNotExact(s: string)
    ensures s == "'self'" ==> !IsExact(s)
    ensures ToLower(s) == "'self'" ==> IsUniversal(s)
  {
    if s == "'self'" {
      assert ToLower(s)[2] == 'e';
    }
  }

  // --- whole policies ---

  /** Directives that only carry reports do not reach the browser. */
  function Kept(ds: seq<seq<string>>): seq<seq<string>>
    requires AllNamed(ds)
  {
    if ds == [] then []
    else (if ToLower(ds[0][0]) in {"report-uri", "report-to"} then [] else [ds[0]]) + Kept(ds[1..])
  }

  predicate IsLiteral(name: string) {
    name in {"upgrade-insecure-requests", "block-all-mixed-content", "sandbox", "require-trusted-types-for",
             "trusted-types"}
  }

  predicate AdmitsRuntime(name: string, nonce: string) {
    nonce != "" && name in {"script-src", "script-src-elem", "default-src"}
  }

  /** Source `t` of a rewritten directive is one that `sources` listed or stand for, or the
      runtime's own nonce, or the word for an empty list. */
  predicate IsGranted(t: string, sources: seq<string>, nonce: string, runtime: bool) {
    || (t == "'self'" && exists s | s in sources :: ToLower(s) == "'self'" || (!IsUniversal(s) && !IsExact(s)))
    || (exists s | s in sources :: EqualFold(s, t) && (IsExact(s) || IsExact(t) ==> s == t))
    || (runtime && t == "'nonce-" + nonce + "'")
    || (sources == [] && t == "'none'")
  }

  /** Source `s` of the site's directive is still allowed by `ts`. */
  predicate IsServed(s: string, ts: seq<string>, runtime: bool) {
    if ToLower(s) == "'none'" then runtime || "'none'" in ts
    else if IsUniversal(s) then ToLower(s) in ts
    else if IsExact(s) then s in ts
    else "'self'" in ts
  }

  /** Directive `d` carries over what `e` says. */
  predicate Carries(e: seq<string>, d: seq<string>, nonce: string)
    requires e != []
  {
    var name := ToLower(e[0]);
    if IsLiteral(name) then d == e
    else
      var runtime := AdmitsRuntime(name, nonce);
      && |d| > 1 && d[0] == name
      && (forall t | t in d[1..] :: IsGranted(t, e[1..], nonce, runtime))
      && (forall s | s in e[1..] :: IsServed(s, d[1..], runtime))
      && (runtime ==> d[|d| - 1] == "'nonce-" + nonce + "'" && "'none'" !in d[1..])
  }

  lemma DirectiveCarries(e: seq<string>, nonce: string)
    requires e != []
    ensures Directive(e, nonce).None? <==> ToLower(e[0]) in {"report-uri", "report-to"}
    ensures Directive(e, nonce).Some? ==> Carries(e, Directive(e, nonce).value, nonce)
  {
    var name := ToLower(e[0]);
    if Directive(e, nonce).Some? && !IsLiteral(name) {
      var d := Directive(e, nonce).value;
      DirectiveShape(e, nonce, d);
      var runtime := AdmitsRuntime(name, nonce);
      forall t | t in d[1..]
        ensures IsGranted(t, e[1..], nonce, runtime)
      {
        GrantedIn(e[1..], nonce, runtime, d[1..], t);
      }
      forall s | s in e[1..]
        ensures IsServed(s, d[1..], runtime)
      {
        ServedIn(e[1..], nonce, runtime, d[1..], s);
      }
      hide Directive, IsGranted, IsServed, Translate, ToLower;
      if runtime {
        RuntimeIsLast(e[1..], nonce, runtime, d[1..]);
      }
    }
  }

  /** The sources of a rewritten directive. */
  function Rewritten(sources: seq<string>, nonce: string, runtime: bool): seq<string> {
    var t := Translate(sources);
    var ss := if runtime then Without(t, "'none'") + ["'nonce-" + nonce + "'"] else t;
    if ss == [] then ["'none'"] else ss
  }

  lemma DirectiveShape(e: seq<string>, nonce: string, d: seq<string>)
    requires e != [] && Directive(e, nonce) == Some(d) && !IsLiteral(ToLower(e[0]))
    ensures |d| > 1 && d[0] == ToLower(e[0])
    ensures d[1..] == Rewritten(e[1..], nonce, AdmitsRuntime(ToLower(e[0]), nonce))
  {
    hide Translate, ToLower, Without;
  }

  lemma GrantedIn(sources: seq<string>, nonce: string, runtime: bool, ts: seq<string>, t: string)
    requires ts == Rewritten(sources, nonce, runtime) && t in ts
    ensures IsGranted(t, sources, nonce, runtime)
  {
    WithoutDrops(Translate(sources), "'none'");
    EmptyTranslation(sources);
    hide Translate, ToLower, Without, EqualFold, IsUniversal, IsExact;
    if t in Translate(sources) {
      if t == "'self'" {
        SelfExactly(sources);
      } else {
        NothingIsGranted(sources, t);
      }
    }
  }

  lemma EmptyTranslation(sources: seq<string>)
    ensures Translate(sources) == [] <==> sources == []
  {
    if sources != [] {
      assert sources[0] in sources;
      ListedIsServed(sources, sources[0]);
      hide Translate;
    }
  }

  lemma ServedIn(sources: seq<string>, nonce: string, runtime: bool, ts: seq<string>, s: string)
    requires ts == Rewritten(sources, nonce, runtime) && s in sources
    ensures IsServed(s, ts, runtime)
  {
    WithoutDrops(Translate(sources), "'none'");
    ListedIsServed(sources, s);
    EmptyTranslation(sources);
    NoneIsUniversal(s);
    hide Translate, ToLower, Without, IsUniversal, IsExact;
  }

  lemma NoneIsUniversal(s: string)
    ensures ToLower(s) == "'none'" ==> IsUniversal(s)
    ensures IsExact(s) ==> s != "'none'"
  {
    if s == "'none'" {
      assert ToLower(s)[4] == 'e';
    }
  }

  lemma RuntimeIsLast(sources: seq<string>, nonce: string, runtime: bool, ts: seq<string>)
    requires ts == Rewritten(sources, nonce, runtime) && runtime
    ensures ts != [] && ts[|ts| - 1] == "'nonce-" + nonce + "'" && "'none'" !in ts
  {
    WithoutDrops(Translate(sources), "'none'");
    assert ("'nonce-" + nonce + "'")[4] == 'c' && "'none'"[4] == 'e';
    hide Translate, Without;
  }

  lemma {:induction false} TranslateAllCarries(ds: seq<seq<string>>, nonce: string)
    requires AllNamed(ds)
    ensures |TranslateAll(ds, nonce)| == |Kept(ds)|
    ensures forall i | 0 <= i < |Kept(ds)| ::
      Kept(ds)[i] != [] && Carries(Kept(ds)[i], TranslateAll(ds, nonce)[i], nonce)
  {
    hide Directive, Carries, ToLower;
    if ds != [] {
      DirectiveCarries(ds[0], nonce);
      TranslateAllCarries(ds[1..], nonce);
      CarriesCons(ds, nonce);
    }
  }

  lemma CarriesCons(ds: seq<seq<string>>, nonce: string)
    requires AllNamed(ds) && ds != []
    ensures var k, r := Kept(ds[1..]), TranslateAll(ds[1..], nonce);
      && Kept(ds) == (if ToLower(ds[0][0]) in {"report-uri", "report-to"} then k else [ds[0]] + k)
      && TranslateAll(ds, nonce) == match Directive(ds[0], nonce) case Some(d) => [d] + r case None => r
  {
    hide Directive, ToLower;
    assert [] + Kept(ds[1..]) == Kept(ds[1..]) && [] + TranslateAll(ds[1..], nonce) == TranslateAll(ds[1..], nonce);
  }

  /** What a browser reads in the rewritten policy: the site's directives in order, without
      those that only report, and each carrying over exactly what the site listed. */
  lemma PoliciesCarryOver(policy: string, nonce: string)
    requires nonce == "" || IsSourceWord(nonce)
    ensures AllNamed(ParsePolicy(policy))
    ensures var before, after := Kept(ParsePolicy(policy)), ParsePolicy(RewriteCSP(policy, nonce));
      && |after| == |before|
      && forall i | 0 <= i < |before| :: before[i] != [] && Carries(before[i], after[i], nonce)
  {
    hide Carries, ParsePolicy, TranslateAll, RewriteCSP;
    RewrittenPolicy(policy, nonce);
    TranslateAllCarries(ParsePolicy(policy), nonce);
  }
}
