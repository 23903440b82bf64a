/** Translating a Content-Security-Policy for the proxy's origin. */
module Csp {
  import opened Text
  import opened Words
  import opened Sequences

  predicate IsKeyword(s: string) {
    s in {"'self'", "'none'", "'unsafe-inline'", "'unsafe-eval'", "'unsafe-hashes'", "'wasm-unsafe-eval'",
          "'strict-dynamic'", "'report-sample'", "'inline-speculation-rules'"}
  }

  predicate IsVerbatim(name: string) {
    name in {"upgrade-insecure-requests", "block-all-mixed-content", "sandbox", "require-trusted-types-for",
             "trusted-types"}
  }

  predicate IsDropped(name: string) { name in {"report-uri", "report-to"} }

  predicate GovernsScripts(name: string) { name in {"script-src", "script-src-elem", "default-src"} }

  predicate IsNonceOrHash(lower: string) {
    "'nonce-" <= lower || "'sha256-" <= lower || "'sha384-" <= lower || "'sha512-" <= lower
  }

  predicate IsLocalScheme(s: string) { s in {"data:", "blob:", "filesystem:", "mediastream:"} }

  /** A source expression that means the same on the proxy's origin. */
  predicate IsLocal(s: string) { IsKeyword(s) || IsNonceOrHash(ToLower(s)) || IsLocalScheme(s) }

  // --- source lists ---

  /** Where the proxy serves a source from: hosts and other schemes become 'self'. */
  function Source(s: string): string {
    var lower := ToLower(s);
    if IsKeyword(lower) then lower
    else if IsNonceOrHash(lower) then s
    else if IsLocalScheme(lower) then lower
    else "'self'"
  }

  function AddAll(out: seq<string>, sources: seq<string>): seq<string>
    decreases |sources|
  {
    if sources == [] then out
    else
      var t := Source(sources[0]);
      AddAll(if t in out then out else out + [t], sources[1..])
  }

  function Translate(sources: seq<string>): seq<string> { AddAll([], sources) }

  function Without(sources: seq<string>, drop: string): seq<string> {
    if sources == [] then []
    else (if sources[0] == drop then [] else [sources[0]]) + Without(sources[1..], drop)
  }

  lemma LocalKinds()
    ensures IsKeyword("'self'") && IsKeyword("'none'") && ToLower("'self'") == "'self'" && ToLower("'none'") == "'none'"
    ensures !IsVerbatim("'self'")
  {
  }

  lemma SourceIsLocal(s: string)
    ensures IsLocal(Source(s)) && Source(s) != ""
    ensures Source(Source(s)) == Source(s)
  {
    assert ToLower(ToLower(s)) == ToLower(s);
    LocalKinds();
    hide ToLower;
  }

  lemma SourceChars(s: string)
    requires IsSourceWord(s)
    ensures IsSourceWord(Source(s))
  {
    var l := ToLower(s);
    forall i | 0 <= i < |l|
      ensures !IsBlank(l[i]) && l[i] != ';'
    {
      assert !In(s[i], Blank) && !In(s[i], Only(';'));
    }
    assert IsSourceWord("'self'");
    hide IsKeyword, IsNonceOrHash, IsLocalScheme, ToLower;
  }

  /** A word of a policy. */
  predicate IsSourceWord(s: string) { IsWord(s) && Free(s, Only(';')) }

  lemma {:induction false} AddAllIsLocal(out: seq<string>, sources: seq<string>)
    requires Distinct(out) && forall s | s in out :: IsLocal(s)
    ensures Distinct(AddAll(out, sources)) && forall s | s in AddAll(out, sources) :: IsLocal(s)
    decreases |sources|
  {
    hide IsLocal;
    if sources != [] {
      SourceIsLocal(sources[0]);
      var t := Source(sources[0]);
      AddAllIsLocal(if t in out then out else out + [t], sources[1..]);
    }
  }

  /** A translated list holds only keywords, nonces, hashes and local schemes, each once. */
  lemma TranslatedIsLocal(sources: seq<string>)
    ensures Distinct(Translate(sources)) && forall s | s in Translate(sources) :: IsLocal(s)
  {
    AddAllIsLocal([], sources);
  }

  lemma {:induction false} AddAllWords(out: seq<string>, sources: seq<string>)
    requires (forall s | s in out :: IsSourceWord(s)) && forall s | s in sources :: IsSourceWord(s)
    ensures forall s | s in AddAll(out, sources) :: IsSourceWord(s)
    decreases |sources|
  {
    hide IsSourceWord, Source;
    if sources != [] {
      SourceChars(sources[0]);
      var t := Source(sources[0]);
      AddAllWords(if t in out then out else out + [t], sources[1..]);
    }
  }

  lemma {:induction false} AddAllFixed(out: seq<string>, sources: seq<string>)
    requires Distinct(out + sources) && forall s | s in sources :: Source(s) == s
    ensures AddAll(out, sources) == out + sources
    decreases |sources|
  {
    hide Source;
    if sources == [] {
      assert out + sources == out;
    } else {
      var s, rest := sources[0], sources[1..];
      assert (out + sources)[|out|] == s;
      assert forall i | 0 <= i < |out| :: (out + sources)[i] == out[i];
      assert out + [s] + rest == out + sources;
      AddAllFixed(out + [s], rest);
    }
  }

  lemma {:induction false} AddAllSources(out: seq<string>, sources: seq<string>)
    requires forall s | s in out :: Source(s) == s
    ensures forall s | s in AddAll(out, sources) :: Source(s) == s
    decreases |sources|
  {
    if sources != [] {
      SourceIsLocal(sources[0]);
      hide Source;
      var t := Source(sources[0]);
      AddAllSources(if t in out then out else out + [t], sources[1..]);
    }
  }

  function Sources(sources: seq<string>): (r: seq<string>)
    ensures |r| == |sources| && forall i | 0 <= i < |r| :: r[i] == Source(sources[i])
  {
    seq(|sources|, i requires 0 <= i < |sources| => Source(sources[i]))
  }

  lemma AddAllSnoc(out: seq<string>, sources: seq<string>, s: string)
    ensures AddAll(out, sources + [s]) ==
      var a := AddAll(out, sources); if Source(s) in a then a else a + [Source(s)]
    decreases |sources|
  {
    hide Source;
    if sources == [] {
      assert sources + [s] == [s] && [s][1..] == [];
    } else {
      var t := Source(sources[0]);
      assert (sources + [s])[1..] == sources[1..] + [s];
      AddAllSnoc(if t in out then out else out + [t], sources[1..], s);
    }
  }

  /** Translating maps every source and keeps the first of equals: nothing is lost, added or
      moved. */
  lemma {:induction false} TranslateIsFirsts(sources: seq<string>)
    ensures Translate(sources) == Firsts(Sources(sources))
    decreases |sources|
  {
    hide Source;
    if sources != [] {
      var ss, s := sources[..|sources| - 1], sources[|sources| - 1];
      TranslateIsFirsts(ss);
      AddAllSnoc([], ss, s);
      assert sources == ss + [s];
      assert Sources(sources) == Sources(ss) + [Source(s)];
      FirstsSnoc(Sources(ss), Source(s));
    }
  }

  lemma TranslateLosesNothing(sources: seq<string>, x: string)
    ensures x in Translate(sources) <==> exists s | s in sources :: Source(s) == x
  {
    hide Source, Translate, Firsts;
    TranslateIsFirsts(sources);
    FirstsKeep(Sources(sources));
    if x in Sources(sources) {
      var i :| 0 <= i < |sources| && Sources(sources)[i] == x;
      assert sources[i] in sources;
    }
    if s :| s in sources && Source(s) == x {
      var i :| 0 <= i < |sources| && sources[i] == s;
      assert Sources(sources)[i] == x;
    }
  }

  /** Translating twice is translating once. */
  lemma TranslateIsIdempotent(sources: seq<string>)
    ensures Translate(Translate(sources)) == Translate(sources)
  {
    var t := Translate(sources);
    AddAllIsLocal([], sources);
    AddAllSources([], sources);
    assert [] + t == t;
    AddAllFixed([], t);
  }

  lemma {:induction false} WithoutDrops(sources: seq<string>, drop: string)
    ensures forall s | s in Without(sources, drop) :: s in sources && s != drop
    ensures forall s | s in sources && s != drop :: s in Without(sources, drop)
  {
    if sources != [] {
      WithoutDrops(sources[1..], drop);
    }
  }

  // --- directives and policies ---

  /** A directive as its name and values; None when it must not reach the browser. */
  function Directive(fields: seq<string>, nonce: string): Option<seq<string>>
    requires fields != []
  {
    var name := ToLower(fields[0]);
    if IsDropped(name) then None
    else if IsVerbatim(name) then Some(fields)
    else
      var t := Translate(fields[1..]);
      var sources := if GovernsScripts(name) && nonce != "" then Without(t, "'none'") + [NonceSource(nonce)] else t;
      Some([name] + if sources == [] then ["'none'"] else sources)
  }

  function NonceSource(nonce: string): string { "'nonce-" + nonce + "'" }

  /** The directives of a policy: section 2.2.1 of Content Security Policy Level 3. */
  function Directives(parts: seq<string>): seq<seq<string>> {
    if parts == [] then []
    else (if Fields(parts[0]) == [] then [] else [Fields(parts[0])]) + Directives(parts[1..])
  }

  function ParsePolicy(policy: string): seq<seq<string>> { Directives(Split(policy, ';')) }

  function Texts(ds: seq<seq<string>>): (ts: seq<string>)
    ensures |ts| == |ds|
  {
    if ds == [] then [] else [Join(ds[0], " ")] + Texts(ds[1..])
  }

  function PrintPolicy(ds: seq<seq<string>>): string { Join(Texts(ds), "; ") }

  predicate AllNamed(ds: seq<seq<string>>) { forall i | 0 <= i < |ds| :: ds[i] != [] }

  function TranslateAll(ds: seq<seq<string>>, nonce: string): seq<seq<string>>
    requires AllNamed(ds)
  {
    if ds == [] then []
    else (match Directive(ds[0], nonce) case Some(d) => [d] case None => []) + TranslateAll(ds[1..], nonce)
  }

  lemma {:induction false} DirectivesAreWords(parts: seq<string>)
    requires forall p | p in parts :: Free(p, Only(';'))
    ensures forall d | d in Directives(parts) :: IsDirective(d)
  {
    if parts != [] {
      DirectivesAreWords(parts[1..]);
      FieldsAreWords(parts[0]);
      assert parts[0] in parts;
      PartIsDirective(parts[0]);
      hide Fields, IsDirective;
    }
  }

  predicate IsDirective(d: seq<string>) { d != [] && forall w | w in d :: IsSourceWord(w) }

  lemma PartIsDirective(part: string)
    requires Free(part, Only(';'))
    ensures Fields(part) != [] ==> IsDirective(Fields(part))
  {
    FieldsAreWords(part);
    forall w | w in Fields(part)
      ensures IsSourceWord(w)
    {
      assert IsWord(w);
      forall i | 0 <= i < |w|
        ensures w[i] != ';'
      {
        assert w[i] in w && w[i] in part;
        var j :| 0 <= j < |part| && part[j] == w[i];
        assert !In(part[j], Only(';'));
      }
    }
  }

  lemma {:induction false} SplitParts(s: string)
    ensures forall p | p in Split(s, ';') :: Free(p, Only(';'))
    decreases |s|
  {
    var t := Take(s, Only(';'));
    if t.rest == "" {
      assert s == t.token;
    } else {
      SplitParts(t.rest[1..]);
    }
  }

  lemma PolicyDirectives(policy: string)
    ensures forall d | d in ParsePolicy(policy) :: IsDirective(d)
    ensures AllNamed(ParsePolicy(policy))
  {
    SplitParts(policy);
    DirectivesAreWords(Split(policy, ';'));
    var ds := ParsePolicy(policy);
    hide ParsePolicy;
    assert forall i | 0 <= i < |ds| :: ds[i] in ds;
  }

  function RewriteCSP(policy: string, nonce: string): string {
    PolicyDirectives(policy);
    PrintPolicy(TranslateAll(ParsePolicy(policy), nonce))
  }

  lemma {:induction false} JoinIsFree(ws: seq<string>)
    requires forall w | w in ws :: IsSourceWord(w)
    ensures Free(Join(ws, " "), Only(';'))
  {
    if |ws| >= 1 {
      assert ws[0] in ws;
      if |ws| > 1 {
        JoinIsFree(ws[1..]);
      }
    }
  }

  lemma DirectiveReads(lead: string, d: seq<string>)
    requires IsDirective(d) && (lead == "" || lead == " ")
    ensures Fields(lead + Join(d, " ")) == d && Free(lead + Join(d, " "), Only(';'))
  {
    hide Fields, Join;
    JoinIsFree(d);
    assert forall w | w in d :: IsWord(w);
    FieldsJoin(lead, d);
    var j := Join(d, " ");
    assert forall i | 0 <= i < |lead + j| :: (lead + j)[i] == if i < |lead| then ' ' else j[i - |lead|];
  }

  lemma DirectivesCons(p: string, rest: seq<string>)
    ensures Directives([p] + rest) == (if Fields(p) == [] then [] else [Fields(p)]) + Directives(rest)
  {
    hide Fields;
    assert ([p] + rest)[1..] == rest;
  }

  /** A printed policy parses back to its directives. */
  lemma {:induction false} PrintParses(lead: string, ds: seq<seq<string>>)
    requires (lead == "" || lead == " ") && forall d | d in ds :: IsDirective(d)
    ensures ParsePolicy(lead + PrintPolicy(ds)) == ds
    decreases |ds|
  {
    if ds == [] {
      EmptyPolicy(lead);
      assert lead + PrintPolicy(ds) == lead;
    } else {
      assert ds[0] in ds;
      PrintParsesCons(lead, ds);
      hide Join, Split, PrintPolicy, IsDirective, Directives, ParsePolicy;
      if |ds| > 1 {
        PrintParses(" ", ds[1..]);
        assert ds == [ds[0]] + ds[1..];
      } else {
        assert ds == [ds[0]];
      }
    }
  }

  lemma PrintParsesCons(lead: string, ds: seq<seq<string>>)
    requires (lead == "" || lead == " ") && ds != [] && IsDirective(ds[0])
    ensures ParsePolicy(lead + PrintPolicy(ds))
         == [ds[0]] + if |ds| == 1 then [] else ParsePolicy(" " + PrintPolicy(ds[1..]))
  {
    hide Fields, Join, Split, PrintPolicy, Directives;
    var p := lead + Join(ds[0], " ");
    DirectiveReads(lead, ds[0]);
    assert ds[0] != [];
    PrintFirst(lead, ds);
    if |ds| == 1 {
      SplitOne(p, ';', "");
      DirectivesCons(p, []);
      NoDirectives();
      assert [p] + [] == [p];
    } else {
      var rest := " " + PrintPolicy(ds[1..]);
      SplitOne(p, ';', rest);
      DirectivesCons(p, Split(rest, ';'));
    }
  }

  lemma NoDirectives()
    ensures Directives([]) == []
  {
  }

  lemma PrintFirst(lead: string, ds: seq<seq<string>>)
    requires ds != []
    ensures var p := lead + Join(ds[0], " ");
      lead + PrintPolicy(ds) == if |ds| == 1 then p else p + ([';'] + (" " + PrintPolicy(ds[1..])))
  {
    var j, ts := Join(ds[0], " "), Texts(ds[1..]);
    assert ([j] + ts)[1..] == ts;
    JoinCons(j, ts);
    hide Join, Texts;
    if |ds| > 1 {
      PrefixRegroup(lead, j, Join(ts, "; "));
    }
  }

  lemma JoinCons(j: string, ts: seq<string>)
    ensures Join([j] + ts, "; ") == if ts == [] then j else j + "; " + Join(ts, "; ")
  {
    assert ([j] + ts)[1..] == ts;
  }

  lemma PrefixRegroup(lead: string, j: string, r: string)
    ensures lead + (j + "; " + r) == lead + j + ([';'] + (" " + r))
  {
    assert "; " + r == [';'] + (" " + r);
  }

  lemma EmptyPolicy(lead: string)
    requires lead == "" || lead == " "
    ensures ParsePolicy(lead) == []
  {
    TakeIs(lead, "", NonBlank);
    assert lead + "" == lead;
    assert Fields(lead) == [];
    SplitOne(lead, ';', "");
    hide Fields;
    DirectivesCons(lead, []);
    assert [lead] + [] == [lead];
  }

  lemma DirectiveWords(fields: seq<string>, nonce: string)
    requires IsDirective(fields) && (nonce == "" || IsSourceWord(nonce))
    ensures Directive(fields, nonce).Some? ==> IsDirective(Directive(fields, nonce).value)
  {
    var t := Translate(fields[1..]);
    assert forall w | w in fields[1..] :: w in fields;
    AddAllWords([], fields[1..]);
    WithoutDrops(t, "'none'");
    NoneIsWord(fields[0], nonce);
    hide IsSourceWord, Translate, Without, NonceSource, ToLower, IsDropped, IsVerbatim, GovernsScripts;
  }

  lemma NoneIsWord(name: string, nonce: string)
    requires IsSourceWord(name) && (nonce == "" || IsSourceWord(nonce))
    ensures IsSourceWord("'none'") && IsSourceWord(NonceSource(nonce)) && IsSourceWord(ToLower(name))
  {
    var l := ToLower(name);
    forall i | 0 <= i < |l|
      ensures !IsBlank(l[i]) && l[i] != ';'
    {
      assert !In(name[i], Blank) && !In(name[i], Only(';'));
    }
    var n := NonceSource(nonce);
    forall i | 0 <= i < |n|
      ensures !IsBlank(n[i]) && n[i] != ';'
    {
      if 7 <= i < 7 + |nonce| {
        assert n[i] == nonce[i - 7] && !In(nonce[i - 7], Blank) && !In(nonce[i - 7], Only(';'));
      } else if i < 7 {
        assert n[i] == "'nonce-"[i];
      }
    }
  }

  lemma {:induction false} TranslateAllWords(ds: seq<seq<string>>, nonce: string)
    requires (forall d | d in ds :: IsDirective(d)) && (nonce == "" || IsSourceWord(nonce))
    ensures AllNamed(ds)
    ensures forall d | d in TranslateAll(ds, nonce) ::
      IsDirective(d) && exists e | e in ds :: Directive(e, nonce) == Some(d)
  {
    if ds != [] {
      assert ds[0] in ds;
      DirectiveWords(ds[0], nonce);
      hide Directive, IsSourceWord;
      TranslateAllWords(ds[1..], nonce);
    }
  }

  /** What a browser reads in the rewritten header. */
  lemma RewrittenPolicy(policy: string, nonce: string)
    requires nonce == "" || IsSourceWord(nonce)
    ensures AllNamed(ParsePolicy(policy))
    ensures ParsePolicy(RewriteCSP(policy, nonce)) == TranslateAll(ParsePolicy(policy), nonce)
  {
    PolicyDirectives(policy);
    var ds := ParsePolicy(policy);
    TranslateAllWords(ds, nonce);
    var ts := TranslateAll(ds, nonce);
    hide ParsePolicy, TranslateAll, IsDirective, PrintPolicy;
    PrintParses("", ts);
    assert "" + PrintPolicy(ts) == PrintPolicy(ts);
  }

  lemma DirectiveIsIdempotent(fields: seq<string>)
    requires fields != [] && Directive(fields, "").Some?
    ensures Directive(fields, "").value != []
    ensures Directive(Directive(fields, "").value, "") == Directive(fields, "")
  {
    var name := ToLower(fields[0]);
    assert ToLower(name) == name;
    if !IsVerbatim(name) {
      var t := Translate(fields[1..]);
      TranslateIsIdempotent(fields[1..]);
      NoneTranslates();
      hide Translate, ToLower, IsDropped, IsVerbatim, GovernsScripts;
      var sources := if t == [] then ["'none'"] else t;
      assert ([name] + sources)[1..] == sources;
    }
  }

  lemma NoneTranslates()
    ensures Translate(["'none'"]) == ["'none'"]
  {
    LocalKinds();
    assert Source("'none'") == "'none'";
    hide Source;
    assert ["'none'"][1..] == [] && [] + ["'none'"] == ["'none'"];
  }

  lemma {:induction false} TranslateAllIsIdempotent(ds: seq<seq<string>>)
    requires AllNamed(ds)
    ensures AllNamed(TranslateAll(ds, ""))
    ensures TranslateAll(TranslateAll(ds, ""), "") == TranslateAll(ds, "")
  {
    if ds != [] {
      TranslateAllIsIdempotent(ds[1..]);
      var rest := TranslateAll(ds[1..], "");
      if Directive(ds[0], "").Some? {
        DirectiveIsIdempotent(ds[0]);
        hide Directive;
        var d := Directive(ds[0], "").value;
        assert ([d] + rest)[1..] == rest;
      } else {
        assert [] + rest == rest;
      }
    }
  }

  /** Without a nonce, rewriting a policy twice is rewriting it once. */
  lemma RewriteIsIdempotent(policy: string)
    ensures RewriteCSP(RewriteCSP(policy, ""), "") == RewriteCSP(policy, "")
  {
    RewrittenPolicy(policy, "");
    TranslateAllIsIdempotent(ParsePolicy(policy));
    hide ParsePolicy, TranslateAll, PrintPolicy;
  }

  // --- rewriting twice with a nonce ---

  lemma NonceIsFixed(nonce: string)
    ensures Source(NonceSource(nonce)) == NonceSource(nonce)
  {
    NonceText(nonce);
    hide NonceSource, ToLower;
  }

  lemma NonceText(nonce: string)
    ensures var n := NonceSource(nonce); var l := ToLower(n);
      && IsNonceOrHash(l) && !IsKeyword(l) && !IsKeyword(n) && !IsLocalScheme(n) && n != "'self'" && n != "'none'"
  {
    var n := NonceSource(nonce);
    var l := ToLower(n);
    assert forall i | 0 <= i < 7 :: l[i] == "'nonce-"[i] == n[i];
    assert l[..7] == "'nonce-" && |n| >= 8;
    assert |"'none'"| == 6 && |"'self'"| == 6;
    NoKeywordIsNonce(l);
    NoKeywordIsNonce(n);
  }

  lemma NoKeywordIsNonce(s: string)
    requires |s| >= 7 && s[..7] == "'nonce-"
    ensures !IsKeyword(s) && !IsLocalScheme(s)
  {
    assert s[0] == '\'' && s[1] == 'n' && s[3] == 'n' && s[4] == 'c';
  }

  /** Only the nonce itself translates to it. */
  lemma SourceIsNonce(s: string, nonce: string)
    ensures Source(s) == NonceSource(nonce) <==> s == NonceSource(nonce)
  {
    NonceIsFixed(nonce);
    NonceText(nonce);
    hide NonceSource, ToLower, IsNonceOrHash;
  }

  lemma {:induction false} WithoutNone(w: seq<string>, drop: string)
    requires drop !in w
    ensures Without(w, drop) == w
  {
    if w != [] {
      WithoutNone(w[1..], drop);
    }
  }

  lemma {:induction false} WithoutIsDistinct(w: seq<string>, drop: string)
    requires Distinct(w)
    ensures Distinct(Without(w, drop))
  {
    if w != [] {
      WithoutIsDistinct(w[1..], drop);
      WithoutDrops(w[1..], drop);
      assert forall i | 0 <= i < |w| - 1 :: w[1..][i] == w[i + 1];
      assert w[0] !in w[1..];
      assert w[0] !in Without(w[1..], drop);
    }
  }

  /** A source list with the nonce at its end, translated again. */
  lemma NonceAgain(sources: seq<string>, nonce: string)
    ensures var n := NonceSource(nonce);
      var w := Without(Translate(sources), "'none'");
      Without(Translate(w + [n]), "'none'") + [n] == w + [n] <==> n in sources
  {
    var n, t := NonceSource(nonce), Translate(sources);
    var w := Without(t, "'none'");
    AddAllIsLocal([], sources);
    AddAllSources([], sources);
    TranslateLosesNothing(sources, n);
    NonceIsFixed(nonce);
    NonceText(nonce);
    forall s
      ensures Source(s) == n <==> s == n
    {
      SourceIsNonce(s, nonce);
    }
    hide Source, Translate, Without, NonceSource;
    WithoutDrops(t, "'none'");
    WithoutIsDistinct(t, "'none'");
    TranslateFixed(w, n);
    if n in w {
      WithoutNone(w, "'none'");
    } else {
      WithoutNone(w + [n], "'none'");
    }
  }

  lemma TranslateFixed(w: seq<string>, n: string)
    requires Distinct(w) && (forall s | s in w :: Source(s) == s) && Source(n) == n
    ensures Translate(w + [n]) == if n in w then w else w + [n]
  {
    hide Source;
    assert [] + w == w;
    AddAllFixed([], w);
    AddAllSnoc([], w, n);
  }

  /** A rewritten directive is rewritten again to itself unless it governs scripts and did
      not list the nonce. */
  lemma DirectiveRepeats(fields: seq<string>, nonce: string)
    requires fields != [] && nonce != "" && Directive(fields, nonce).Some?
    ensures var d := Directive(fields, nonce).value;
      && d != [] && Directive(d, nonce).Some?
      && (Directive(d, nonce) == Some(d) <==> Lists(fields, nonce))
  {
    var name := ToLower(fields[0]);
    NamesAreApart(name);
    assert ToLower(name) == name;
    if GovernsScripts(name) {
      NonceAgain(fields[1..], nonce);
      hide Translate, ToLower, IsDropped, IsVerbatim, GovernsScripts, Without, NonceSource;
      var w := Without(Translate(fields[1..]), "'none'") + [NonceSource(nonce)];
      assert ([name] + w)[1..] == w;
      var again := Without(Translate(w), "'none'") + [NonceSource(nonce)];
      assert ([name] + again)[1..] == again;
    } else {
      DirectiveIsIdempotent(fields);
      hide Translate, ToLower, IsDropped, IsVerbatim, Without;
    }
  }

  /** A directive that governs scripts lists the nonce. */
  predicate Lists(d: seq<string>, nonce: string)
    requires d != []
  {
    GovernsScripts(ToLower(d[0])) ==> NonceSource(nonce) in d[1..]
  }

  predicate ListsNonce(ds: seq<seq<string>>, nonce: string)
    requires AllNamed(ds)
  {
    forall i | 0 <= i < |ds| :: Lists(ds[i], nonce)
  }

  lemma ListsNonceCons(d: seq<string>, rest: seq<seq<string>>, nonce: string)
    requires d != [] && AllNamed(rest)
    ensures AllNamed([d] + rest)
    ensures ListsNonce([d] + rest, nonce) <==> Lists(d, nonce) && ListsNonce(rest, nonce)
  {
    hide Lists;
    var ds := [d] + rest;
    assert ds[0] == d && forall i | 0 <= i < |rest| :: ds[i + 1] == rest[i];
    if ListsNonce(ds, nonce) {
      forall i | 0 <= i < |rest|
        ensures Lists(rest[i], nonce)
      {
        assert Lists(ds[i + 1], nonce);
      }
      assert Lists(ds[0], nonce);
    }
  }

  lemma {:induction false} TranslateAllRepeats(ds: seq<seq<string>>, nonce: string)
    requires AllNamed(ds) && nonce != ""
    ensures AllNamed(TranslateAll(ds, nonce))
    ensures TranslateAll(TranslateAll(ds, nonce), nonce) == TranslateAll(ds, nonce) <==> ListsNonce(ds, nonce)
  {
    if ds != [] {
      var d, rest := ds[0], ds[1..];
      assert ds == [d] + rest;
      TranslateAllRepeats(rest, nonce);
      ListsNonceCons(d, rest, nonce);
      var r := TranslateAll(rest, nonce);
      if Directive(d, nonce).Some? {
        DirectiveRepeats(d, nonce);
        hide Directive, ListsNonce, ToLower, GovernsScripts, NonceSource;
        var e := Directive(d, nonce).value;
        assert ([e] + r)[1..] == r;
        Heads(Directive(e, nonce).value, TranslateAll(r, nonce), e, r);
      } else {
        NamesAreApart(ToLower(d[0]));
        hide Directive, ListsNonce, ToLower, NonceSource;
        assert [] + r == r;
      }
    }
  }

  lemma Heads(a: seq<string>, x: seq<seq<string>>, b: seq<string>, y: seq<seq<string>>)
    ensures [a] + x == [b] + y <==> a == b && x == y
  {
    assert ([a] + x)[0] == a && ([a] + x)[1..] == x && ([b] + y)[0] == b && ([b] + y)[1..] == y;
  }

  /** Rewriting a policy twice is rewriting it once exactly when there is no nonce, or when
      every directive that governs scripts lists it already; otherwise it is added again. */
  lemma RewriteRepeatsExactly(policy: string, nonce: string)
    requires nonce == "" || IsSourceWord(nonce)
    ensures AllNamed(ParsePolicy(policy))
    ensures RewriteCSP(RewriteCSP(policy, nonce), nonce) == RewriteCSP(policy, nonce) <==>
      nonce == "" || ListsNonce(ParsePolicy(policy), nonce)
  {
    hide ParsePolicy, TranslateAll, PrintPolicy, ListsNonce, IsSourceWord;
    var ds := ParsePolicy(policy);
    RewrittenPolicy(policy, nonce);
    if nonce == "" {
      RewriteIsIdempotent(policy);
    } else {
      TranslateAllRepeats(ds, nonce);
      RewrittenPolicy(RewriteCSP(policy, nonce), nonce);
    }
  }

  /** In the rewritten policy every source list is local, and with a nonce every directive
      that governs scripts admits it and does not also say 'none'. */
  lemma RewrittenSources(policy: string, nonce: string, d: seq<string>)
    requires (nonce == "" || IsSourceWord(nonce)) && d in ParsePolicy(RewriteCSP(policy, nonce))
    ensures d != [] && !IsDropped(ToLower(d[0]))
    ensures !IsVerbatim(ToLower(d[0])) ==> forall s | s in d[1..] :: IsLocal(s)
    ensures GovernsScripts(ToLower(d[0])) && nonce != "" ==>
      d[|d| - 1] == NonceSource(nonce) && |d| > 1 && "'none'" !in d[1..]
  {
    RewrittenPolicy(policy, nonce);
    PolicyDirectives(policy);
    TranslateAllWords(ParsePolicy(policy), nonce);
    var e :| e in ParsePolicy(policy) && Directive(e, nonce) == Some(d);
    hide ParsePolicy, TranslateAll, RewriteCSP;
    DirectiveSources(e, nonce, d);
  }

  lemma DirectiveSources(e: seq<string>, nonce: string, d: seq<string>)
    requires e != [] && Directive(e, nonce) == Some(d)
    ensures d != [] && !IsDropped(ToLower(d[0]))
    ensures !IsVerbatim(ToLower(d[0])) ==> forall s | s in d[1..] :: IsLocal(s)
    ensures GovernsScripts(ToLower(d[0])) && nonce != "" ==>
      d[|d| - 1] == NonceSource(nonce) && |d| > 1 && "'none'" !in d[1..]
  {
    var name := ToLower(e[0]);
    assert ToLower(name) == name;
    NamesAreApart(name);
    var t := Translate(e[1..]);
    TranslatedIsLocal(e[1..]);
    WithoutDrops(t, "'none'");
    NonceIsLocal(nonce);
    LocalKinds();
    assert IsLocal("'none'");
    hide Translate, ToLower, IsLocal, IsDropped, IsVerbatim, GovernsScripts, Without, NonceSource, Distinct;
    if !IsVerbatim(name) {
      var sources := if GovernsScripts(name) && nonce != "" then Without(t, "'none'") + [NonceSource(nonce)] else t;
      assert d[1..] == if sources == [] then ["'none'"] else sources;
    }
  }

  lemma NamesAreApart(name: string)
    ensures GovernsScripts(name) ==> !IsVerbatim(name) && !IsDropped(name)
  {
  }

  lemma NonceIsLocal(nonce: string)
    ensures IsLocal(NonceSource(nonce)) && NonceSource(nonce) != "'none'"
  {
    var s := NonceSource(nonce);
    assert forall i | 0 <= i < 7 :: ToLower(s)[i] == "'nonce-"[i];
    assert ToLower(s)[..7] == "'nonce-";
    assert s[3] == 'n' && "'none'"[3] == 'n' && s[4] == 'c' && "'none'"[4] == 'e';
  }

  // --- the loops ---

  /** removeCSPSource: compact the list in place. */
  method RemoveCSPSource(a: array<string>, drop: string) returns (n: nat)
    modifies a
    ensures n <= a.Length && a[..n] == Without(old(a[..]), drop)
  {
    n := 0;
    ghost var was := a[..];
    for i := 0 to a.Length
      invariant n <= i && a[i..] == was[i..]
      invariant a[..n] + Without(was[i..], drop) == Without(was, drop)
    {
      assert a[i] == a[i..][0] == was[i] && was[i..][1..] == was[i + 1..];
      ghost var kept, rest := a[..n], Without(was[i + 1..], drop);
      if a[i] != drop {
        assert kept + ([a[i]] + rest) == (kept + [a[i]]) + rest;
        a[n] := a[i];
        n := n + 1;
        assert a[..n] == kept + [was[i]];
      }
    }
    assert was[a.Length..] == [];
  }

  method TranslateCSPSources(sources: seq<string>) returns (out: seq<string>)
    ensures out == Translate(sources)
  {
    out := [];
    var seen: map<string, bool> := map[];
    assert sources[0..] == sources;
    for i := 0 to |sources|
      invariant AddAll(out, sources[i..]) == Translate(sources)
      invariant forall s :: s in seen <==> s in out
    {
      assert sources[i..][1..] == sources[i + 1..];
      var s := sources[i];
      var lower := ToLower(s);
      var t: string;
      if IsKeyword(lower) {
        t := lower;
      } else if IsNonceOrHash(lower) {
        t := s;
      } else if IsLocalScheme(lower) {
        t := lower;
      } else {
        t := "'self'";
      }
      SourceIsLocal(s);
      assert t == Source(s);
      if t != "" && t !in seen {
        seen := seen[t := true];
        out := out + [t];
      }
    }
  }

  /** One round of the loop over a policy: the text a directive contributes. */
  method RewriteDirective(fields: seq<string>, nonce: string) returns (text: Option<string>)
    requires fields != []
    ensures text == match Directive(fields, nonce) case Some(d) => Some(Join(d, " ")) case None => None
  {
    hide Translate, Without, ToLower, IsDropped, IsVerbatim, GovernsScripts, Join, NonceSource;
    var name := ToLower(fields[0]);
    if IsDropped(name) {
      return None;
    }
    if IsVerbatim(name) {
      return Some(Join(fields, " "));
    }
    var sources := TranslateCSPSources(fields[1..]);
    if GovernsScripts(name) && nonce != "" {
      var a := new string[|sources|](k requires 0 <= k < |sources| => sources[k]);
      assert a[..] == sources;
      var n := RemoveCSPSource(a, "'none'");
      sources := a[..n] + [NonceSource(nonce)];
    }
    if |sources| == 0 {
      sources := ["'none'"];
    }
    JoinName(name, sources);
    text := Some(name + " " + Join(sources, " "));
  }

  lemma JoinName(name: string, sources: seq<string>)
    requires sources != []
    ensures Join([name] + sources, " ") == name + " " + Join(sources, " ")
  {
    assert ([name] + sources)[1..] == sources;
  }

  method Rewrite(policy: string, nonce: string) returns (r: string)
    ensures r == RewriteCSP(policy, nonce)
  {
    PolicyDirectives(policy);
    hide Fields, Split, Directive, Directives, Join, Texts, TranslateAll, AllNamed, IsDirective;
    var parts := Split(policy, ';');
    var out: seq<string> := [];
    assert parts[0..] == parts;
    NothingTranslated(nonce);
    for i := 0 to |parts|
      invariant AllNamed(Directives(parts[i..])) && AllNamed(Directives(parts))
      invariant out + Texts(TranslateAll(Directives(parts[i..]), nonce))
             == Texts(TranslateAll(Directives(parts), nonce))
    {
      ghost var rest := Directives(parts[i + 1..]);
      DirectivesAt(parts, i);
      var fields := Fields(parts[i]);
      if |fields| == 0 {
        assert [] + rest == rest;
        continue;
      }
      TextsAt(fields, rest, nonce);
      var text := RewriteDirective(fields, nonce);
      if text.Some? {
        MoveOver(out, text.value, Texts(TranslateAll(rest, nonce)));
        out := out + [text.value];
      }
    }
    assert parts[|parts|..] == [];
    NoDirectives();
    assert out + [] == out;
    r := if |out| == 0 then "" else Join(out, "; ");
    JoinNone(out);
  }

  lemma JoinNone(ws: seq<string>)
    ensures ws == [] ==> Join(ws, "; ") == ""
  {
  }

  lemma NothingTranslated(nonce: string)
    ensures AllNamed([]) && TranslateAll([], nonce) == [] && Texts([]) == []
  {
  }

  lemma TextsAt(d: seq<string>, rest: seq<seq<string>>, nonce: string)
    requires d != [] && AllNamed([d] + rest)
    ensures AllNamed(rest)
    ensures Texts(TranslateAll([d] + rest, nonce)) ==
      (match Directive(d, nonce) case Some(e) => [Join(e, " ")] case None => []) + Texts(TranslateAll(rest, nonce))
  {
    hide Directive, Join;
    assert forall i | 0 <= i < |rest| :: rest[i] == ([d] + rest)[i + 1];
    assert ([d] + rest)[1..] == rest;
    var ts := TranslateAll(rest, nonce);
    match Directive(d, nonce) {
      case Some(e) => assert ([e] + ts)[1..] == ts;
      case None => assert [] + ts == ts && [] + Texts(ts) == Texts(ts);
    }
  }

  lemma DirectivesAt(parts: seq<string>, i: nat)
    requires i < |parts|
    ensures Directives(parts[i..])
         == (if Fields(parts[i]) == [] then [] else [Fields(parts[i])]) + Directives(parts[i + 1..])
  {
    assert parts[i..][1..] == parts[i + 1..];
  }
}
