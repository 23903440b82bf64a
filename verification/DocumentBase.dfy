/** The pre-scan for <base href>, and when it agrees with the tokenizer. */
module DocumentBase {
  import opened Text
  import opened Words
  import opened CharRefs
  import opened StartTag
  import opened EndTags
  import opened Rules
  import opened Tokens
  import opened TokenRoundTrip
  import opened HtmlRewrite
  import opened Scanner
  import opened Splice
  import opened HtmlScanners

  /** The absolute http(s) URL a reference resolves to against the document's own URL, or
      None when it does not parse or has another scheme. */
  type Resolution = string -> Option<string>

  function UsableHref(a: Attr, usable: Resolution): Option<string> {
    if ToLower(a.name) != "href" || a.value.NoValue? then None
    else
      var ref := TrimSpace(Decoded(a));
      if ref == "" then None else usable(ref)
  }

  function FirstUsable(ats: seq<Attr>, usable: Resolution): Option<string> {
    if ats == [] then None
    else if UsableHref(ats[0], usable).Some? then UsableHref(ats[0], usable)
    else FirstUsable(ats[1..], usable)
  }

  /** The base of a tokenized document: the first usable <base href> before </head> or
      the first element that cannot stand in a head. */
  function BaseOf(ts: seq<Token>, target: string, usable: Resolution): string {
    if ts == [] then target
    else
      var t, rest := ts[0], ts[1..];
      if t.Markup? && StartsEndTag(t.text, "head", true) then target
      else if t.Tag? && ToLower(t.name) == "base" && FirstUsable(Named(t.tail), usable).Some? then
        FirstUsable(Named(t.tail), usable).value
      else if t.Tag? && !IsHeadContent(ToLower(t.name)) then target
      else BaseOf(rest, target, usable)
  }

  /** The pre-scan, which looks at every '<' outside comments, tags and raw text. */
  function ScanBase(s: string, target: string, usable: Resolution): string
    decreases |s|, 1
  {
    ScanAt(Take(s, Only('<')).rest, target, usable)
  }

  function ScanAt(u: string, target: string, usable: Resolution): string
    decreases |u|, 0
  {
    if u == "" then target
    else if StartsComment(u) then
      var n := Index(u[4..], "-->");
      if n < 0 then target else ScanBase(u[n + 7..], target, usable)
    else if StartsEndTag(u, "head", true) then target
    else if !StartsTag(u) then ScanBase(u[1..], target, usable)
    else
      NextTagCovers(u);
      var n := NextTag(u);
      var tag := ToLower(n.token.name);
      if tag == "base" && FirstUsable(Named(n.token.tail), usable).Some? then
        FirstUsable(Named(n.token.tail), usable).value
      else if !IsHeadContent(tag) then target
      else if IsRawText(tag) && Closing(n.token.tail) != SlashGt then
        ScanBase(n.rest[EndOf(n.rest, tag)..], target, usable)
      else ScanBase(n.rest, target, usable)
  }

  /** Nothing the pre-scan would act on starts inside the text of other markup. */
  predicate Quiet(t: Token) {
    t.Markup? ==> forall p | 1 <= p < |t.text| :: !Acts(t.text[p..])
  }

  /** At this token the search for a base ends. */
  predicate Stops(t: Token, usable: Resolution) {
    || (t.Markup? && StartsEndTag(t.text, "head", true))
    || (t.Tag? && (!IsHeadContent(ToLower(t.name))
                   || (ToLower(t.name) == "base" && FirstUsable(Named(t.tail), usable).Some?)))
  }

  /** Up to the token that ends the search, markup is quiet. */
  predicate HeadIsQuiet(ts: seq<Token>, usable: Resolution) {
    ts != [] && !Stops(ts[0], usable) ==> Quiet(ts[0]) && HeadIsQuiet(ts[1..], usable)
  }

  predicate Acts(s: string) {
    StartsComment(s) || StartsTag(s) || StartsEndTag(s, "head", true)
  }

  /** Steps over any character that starts nothing. */
  lemma Skip(s: string, target: string, usable: Resolution)
    requires s != "" && !Acts(s)
    ensures ScanBase(s, target, usable) == ScanBase(s[1..], target, usable)
  {
    hide ScanAt, Take;
    if s[0] == '<' {
      TakeIs("", s, Only('<'));
      assert "" + s == s;
      SkipAt(s, target, usable);
    } else {
      var r := Take(s[1..], Only('<'));
      assert s == (s[..1] + r.token) + r.rest;
      TakeIs(s[..1] + r.token, r.rest, Only('<'));
    }
  }

  lemma SkipAt(s: string, target: string, usable: Resolution)
    requires s != "" && !Acts(s)
    ensures ScanAt(s, target, usable) == ScanBase(s[1..], target, usable)
  {
  }

  lemma QuietLocally(a: string, more: string)
    requires Free(a, Only('>')) && !Acts(a + ">")
    ensures !Acts(a + ">" + more)
  {
    EndTagIsLocal(a, more, "head");
    CommentIsLocal(a, more);
  }

  lemma {:induction false} SkipMarkup(text: string, p: nat, more: string, target: string, usable: Resolution)
    requires 1 <= p <= |text| && Quiet(Markup(text))
    requires if Free(text, Only('>')) then more == ""
      else text[|text| - 1] == '>' && Free(text[..|text| - 1], Only('>'))
    ensures ScanBase(text[p..] + more, target, usable) == ScanBase(more, target, usable)
    decreases |text| - p
  {
    hide ScanBase, Acts;
    if p == |text| {
      assert text[p..] + more == more;
    } else {
      var u := text[p..] + more;
      if Free(text, Only('>')) {
        assert u == text[p..];
      } else {
        var a := text[p..|text| - 1];
        assert text[p..] == a + ">";
        forall i | 0 <= i < |a|
          ensures !In(a[i], Only('>'))
        {
          assert a[i] == text[..|text| - 1][p + i];
        }
        QuietLocally(a, more);
      }
      Skip(u, target, usable);
      assert u[1..] == text[p + 1..] + more;
      SkipMarkup(text, p + 1, more, target, usable);
    }
  }

  lemma BaseOfCons(t: Token, rest: seq<Token>, target: string, usable: Resolution)
    ensures BaseOf([t] + rest, target, usable) ==
      if t.Markup? && StartsEndTag(t.text, "head", true) then target
      else if t.Tag? && ToLower(t.name) == "base" && FirstUsable(Named(t.tail), usable).Some? then
        FirstUsable(Named(t.tail), usable).value
      else if t.Tag? && !IsHeadContent(ToLower(t.name)) then target
      else BaseOf(rest, target, usable)
  {
    assert ([t] + rest)[1..] == rest;
  }

  /** What the pre-scan does at the next token, when other markup is quiet. */
  lemma ScanNext(s: string, target: string, usable: Resolution)
    requires s != "" && !Next(s).token.Tag?
    requires Next(s).token.Markup? ==> EndsHead(Next(s).token.text) || Quiet(Next(s).token)
    ensures var n := Next(s);
      ScanBase(s, target, usable) ==
        if n.token.Markup? && StartsEndTag(n.token.text, "head", true) then target
        else ScanBase(n.rest, target, usable)
  {
    hide ScanAt;
    if s[0] != '<' {
      var r := Take(s, Only('<')).rest;
      TakeIs("", r, Only('<'));
      assert "" + r == r;
    } else {
      TakeIs("", s, Only('<'));
      assert "" + s == s;
      assert ScanBase(s, target, usable) == ScanAt(s, target, usable);
      if StartsComment(s) {
        ScanComment(s, target, usable);
      } else if StartsMarkup(s) {
        ScanMarkup(s, target, usable);
      } else {
        assert !Acts(s);
        SkipAt(s, target, usable);
      }
    }
  }

  predicate EndsHead(text: string) { StartsEndTag(text, "head", true) }

  lemma ScanComment(s: string, target: string, usable: Resolution)
    requires s != "" && StartsComment(s)
    ensures ScanAt(s, target, usable) == ScanBase(NextComment(s).rest, target, usable)
  {
    TakeIs("", "", Only('<'));
  }

  lemma ScanMarkup(s: string, target: string, usable: Resolution)
    requires StartsMarkup(s) && !StartsComment(s)
    requires EndsHead(NextMarkup(s).token.text) || Quiet(NextMarkup(s).token)
    ensures var n := NextMarkup(s);
      ScanAt(s, target, usable) ==
        if StartsEndTag(n.token.text, "head", true) then target else ScanBase(n.rest, target, usable)
  {
    MarkupText(s);
    hide Take;
    ScanMarkupParts(NextMarkup(s).token.text, NextMarkup(s).rest, target, usable);
  }

  lemma ScanMarkupParts(text: string, rest: string, target: string, usable: Resolution)
    requires StartsMarkup(text + rest) && !StartsComment(text + rest) && text != ""
    requires EndsHead(text) || Quiet(Markup(text))
    requires if Free(text, Only('>')) then rest == ""
      else text[|text| - 1] == '>' && Free(text[..|text| - 1], Only('>'))
    ensures ScanAt(text + rest, target, usable) ==
      if StartsEndTag(text, "head", true) then target else ScanBase(rest, target, usable)
  {
    hide ScanAt, ScanBase, StartsEndTag, Quiet, StartsMarkup, StartsTag, StartsComment, Take;
    var s := text + rest;
    if Free(text, Only('>')) {
      assert s == text;
    } else {
      assert text == text[..|text| - 1] + ">";
      EndTagIsLocal(text[..|text| - 1], rest, "head");
    }
    if StartsEndTag(s, "head", true) {
      HeadEnds(s, target, usable);
    } else {
      NotATag(s);
      SkipAt(s, target, usable);
      assert s[1..] == text[1..] + rest;
      SkipMarkup(text, 1, rest, target, usable);
    }
  }

  lemma HeadEnds(s: string, target: string, usable: Resolution)
    requires StartsEndTag(s, "head", true) && !StartsComment(s)
    ensures ScanAt(s, target, usable) == target
  {
    hide StartsEndTag;
  }

  lemma NotATag(s: string)
    requires StartsMarkup(s)
    ensures !StartsTag(s)
  {
  }

  lemma MarkupText(s: string)
    requires StartsMarkup(s)
    ensures var m, n := Take(s, Only('>')), NextMarkup(s); var text := n.token.text;
      && s == text + n.rest && text != ""
      && (m.rest != "" ==> s == m.token + ">" + n.rest && text == m.token + ">")
      && (if Free(text, Only('>')) then n.rest == ""
          else text[|text| - 1] == '>' && Free(text[..|text| - 1], Only('>')))
  {
    var m := Take(s, Only('>'));
    if m.rest != "" {
      assert m.rest == ">" + m.rest[1..];
      var text := m.token + ">";
      assert text[..|text| - 1] == m.token && In(text[|text| - 1], Only('>'));
    }
  }

  /** What the pre-scan does at a start tag `n.token`. */
  function AtTag(n: Scan<Token>, target: string, usable: Resolution): string
    requires n.token.Tag?
  {
    var tag := ToLower(n.token.name);
    if tag == "base" && FirstUsable(Named(n.token.tail), usable).Some? then
      FirstUsable(Named(n.token.tail), usable).value
    else if !IsHeadContent(tag) then target
    else if IsRawText(tag) && Closing(n.token.tail) != SlashGt then
      ScanBase(n.rest[EndOf(n.rest, tag)..], target, usable)
    else ScanBase(n.rest, target, usable)
  }

  lemma ScanTag(s: string, target: string, usable: Resolution)
    requires s != "" && Next(s).token.Tag?
    ensures ScanBase(s, target, usable) == AtTag(Next(s), target, usable)
  {
    NextIsTag(s);
    ScanAtTag(s, target, usable);
    hide ScanAt, AtTag, Next;
    TakeIs("", s, Only('<'));
    assert "" + s == s;
  }

  lemma NextIsTag(s: string)
    requires s != "" && Next(s).token.Tag?
    ensures StartsTag(s) && !StartsComment(s) && Next(s) == NextTag(s)
  {
    hide NextTag;
  }

  lemma ScanAtTag(s: string, target: string, usable: Resolution)
    requires StartsTag(s) && !StartsComment(s)
    ensures ScanAt(s, target, usable) == AtTag(NextTag(s), target, usable)
  {
    NextTagCovers(s);
    NotEndTag(s);
    hide StartsEndTag, NextTag, FirstUsable, Named, ToLower, ScanBase, EndOf;
  }

  lemma NotEndTag(s: string)
    requires StartsTag(s)
    ensures !StartsEndTag(s, "head", true)
  {
  }

  /** The tokens after a start tag, and the text where Data mode resumes. */
  function AfterStep(n: Scan<Token>): (seq<Token>, string)
    requires n.token.Tag?
  {
    var tag := ToLower(n.token.name);
    if IsRawText(tag) && Closing(n.token.tail) != SlashGt then
      var k := EndOf(n.rest, tag);
      ([RawBody(tag, n.rest[..k])], n.rest[k..])
    else ([], n.rest)
  }

  lemma HeadIsNotPlain()
    ensures !IsHeadContent("plaintext") && !IsRawText("plaintext")
  {
  }

  lemma TagTokens(s: string)
    requires s != "" && Next(s).token.Tag? && ToLower(Next(s).token.name) != "plaintext"
    ensures var n := Next(s); var r := AfterStep(n);
      Tokenize(s, Data) == [n.token] + (r.0 + Tokenize(r.1, Data)) && |r.1| < |s|
  {
    NextCovers(s);
    hide Next, EndOf;
    var n := Next(s);
    var r := AfterStep(n);
    assert r.0 == [] ==> r.0 + Tokenize(r.1, Data) == Tokenize(r.1, Data);
  }

  lemma AgreeAtTag(n: Scan<Token>, target: string, usable: Resolution)
    requires n.token.Tag?
    requires var r := AfterStep(n).1; ScanBase(r, target, usable) == BaseOf(Tokenize(r, Data), target, usable)
    ensures var r := AfterStep(n);
      AtTag(n, target, usable) == BaseOf([n.token] + (r.0 + Tokenize(r.1, Data)), target, usable)
  {
    hide ScanBase, Tokenize, FirstUsable, Named, ToLower, EndOf;
    var r := AfterStep(n);
    var rest := Tokenize(r.1, Data);
    BaseOfCons(n.token, r.0 + rest, target, usable);
    if r.0 == [] {
      assert r.0 + rest == rest;
    } else {
      BaseOfCons(r.0[0], rest, target, usable);
      assert r.0 == [r.0[0]];
    }
  }

  /** The pre-scan resolves references against the base the tokens give, for every
      document in whose head no declaration or end tag contains anything it acts on. */
  lemma {:induction false} PreScanAgrees(s: string, target: string, usable: Resolution)
    requires HeadIsQuiet(Tokenize(s, Data), usable)
    ensures ScanBase(s, target, usable) == BaseOf(Tokenize(s, Data), target, usable)
    decreases |s|
  {
    hide ScanBase, BaseOf, Tokenize, AtTag, Next, Quiet, Stops, HeadIsQuiet;
    if s == "" {
      NoBase(target, usable);
    } else if Next(s).token.Tag? {
      var n := Next(s);
      ScanTag(s, target, usable);
      TagIsFirst(s);
      if Stops(n.token, usable) {
        StopAtTag(n, Tokenize(s, Data)[1..], target, usable);
      } else {
        StopsIs(n.token, usable);
        TagTokens(s);
        var r := AfterStep(n);
        QuietAfterTag(n.token, r.0, Tokenize(r.1, Data), usable);
        PreScanAgrees(r.1, target, usable);
        AgreeAtTag(n, target, usable);
      }
    } else {
      DataTokens(s);
      var n := Next(s);
      var rest := Tokenize(n.rest, Data);
      QuietAfter(n.token, rest, usable);
      StopsIs(n.token, usable);
      ScanNext(s, target, usable);
      BaseOfCons(n.token, rest, target, usable);
      if !Stops(n.token, usable) {
        PreScanAgrees(n.rest, target, usable);
      }
    }
  }

  lemma NoBase(target: string, usable: Resolution)
    ensures ScanBase("", target, usable) == target == BaseOf(Tokenize("", Data), target, usable)
  {
    TakeIs("", "", Only('<'));
  }

  lemma TagIsFirst(s: string)
    requires s != ""
    ensures var ts := Tokenize(s, Data); ts != [] && ts == [Next(s).token] + ts[1..]
  {
    NextCovers(s);
    hide Next, EndOf;
  }

  lemma StopsIs(t: Token, usable: Resolution)
    ensures !t.Tag? ==> (Stops(t, usable) <==> t.Markup? && EndsHead(t.text))
    ensures t.Tag? && !Stops(t, usable) ==> ToLower(t.name) != "plaintext"
  {
    HeadIsNotPlain();
  }

  lemma StopAtTag(n: Scan<Token>, rest: seq<Token>, target: string, usable: Resolution)
    requires n.token.Tag? && Stops(n.token, usable)
    ensures AtTag(n, target, usable) == BaseOf([n.token] + rest, target, usable)
  {
    hide FirstUsable, Named, ToLower, EndOf, ScanBase, BaseOf;
    BaseOfCons(n.token, rest, target, usable);
  }

  lemma QuietAfter(t: Token, rest: seq<Token>, usable: Resolution)
    requires HeadIsQuiet([t] + rest, usable)
    ensures Stops(t, usable) || (Quiet(t) && HeadIsQuiet(rest, usable))
  {
    hide Stops, Quiet;
    assert ([t] + rest)[1..] == rest;
  }

  lemma QuietAfterTag(t: Token, body: seq<Token>, rest: seq<Token>, usable: Resolution)
    requires HeadIsQuiet([t] + (body + rest), usable) && !Stops(t, usable)
    requires |body| <= 1 && (body != [] ==> body[0].RawBody?)
    ensures HeadIsQuiet(rest, usable)
  {
    hide Quiet;
    QuietAfter(t, body + rest, usable);
    if body == [] {
      assert body + rest == rest;
    } else {
      assert body == [body[0]];
      QuietAfter(body[0], rest, usable);
    }
  }

  lemma DataTokens(s: string)
    requires s != "" && !Next(s).token.Tag?
    ensures Tokenize(s, Data) == [Next(s).token] + Tokenize(Next(s).rest, Data)
    ensures |Next(s).rest| < |s|
  {
    NextCovers(s);
    hide Next;
  }

  /** The condition matters: a declaration that holds a <base> tag hides it from the
      tokenizer, but not from the pre-scan. */
  lemma PreScanCanDisagree(tail: Tail, target: string, usable: Resolution)
    requires FitsTag("base", tail, []) && FirstUsable(Named(tail), usable).Some?
    requires var text := PrintToken(Tag("base", tail));
      text[|text| - 1] == '>' && Free(text[..|text| - 1], Only('>'))
    ensures var s := "<!" + PrintToken(Tag("base", tail));
      && ScanBase(s, target, usable) == FirstUsable(Named(tail), usable).value
      && BaseOf(Tokenize(s, Data), target, usable) == target
  {
    hide ScanBase, Next, BaseOf, Tokenize, ToLower, PrintToken;
    var t := Tag("base", tail);
    var u := PrintToken(t);
    NextPrint(t, []);
    assert u + PrintAll([]) == u;
    TagTextStarts(tail);
    DeclarationIsPassed(u, target, usable);
    ScanTag(u, target, usable);
    DeclarationIsOneToken(u, target, usable);
    LowerBase();
  }

  lemma LowerBase()
    ensures ToLower("base") == "base" && ToLower("href") == "href"
  {
  }

  lemma TagTextStarts(tail: Tail)
    ensures StartsTag(PrintToken(Tag("base", tail)))
  {
    assert ("<" + "base" + Print(tail))[1] == 'b';
  }

  lemma DeclarationIsPassed(u: string, target: string, usable: Resolution)
    requires StartsTag(u)
    ensures ScanBase("<!" + u, target, usable) == ScanBase(u, target, usable)
  {
    var s := "<!" + u;
    assert s[1..][1..] == u;
    assert !StartsComment(s) by { assert s[2] == '<' && "<!--"[2] == '-'; }
    assert !Acts(s) && s[1..][0] == '!' && !Acts(s[1..]);
    Skip(s, target, usable);
    Skip(s[1..], target, usable);
  }

  lemma DeclarationIsOneToken(u: string, target: string, usable: Resolution)
    requires StartsTag(u) && u[|u| - 1] == '>' && Free(u[..|u| - 1], Only('>'))
    ensures BaseOf(Tokenize("<!" + u, Data), target, usable) == target
  {
    var s, a := "<!" + u, "<!" + u[..|u| - 1];
    assert s == a + ">";
    forall i | 0 <= i < |a|
      ensures !In(a[i], Only('>'))
    {
      assert i >= 2 ==> a[i] == u[..|u| - 1][i - 2];
    }
    assert !StartsComment(s) by { assert s[2] == '<' && "<!--"[2] == '-'; }
    TakeIs(a, ">", Only('>'));
    assert Next(s) == Scan(Markup(s), "");
    DataTokens(s);
    assert Tokenize("", Data) == [];
    hide Next, Tokenize;
    assert !StartsEndTag(s, "head", true);
    BaseOfCons(Markup(s), [], target, usable);
  }

  const BASE_X := Gap(' ', Item(Attr("href", Unquoted("", "", "x")), Done(Gt)))

  lemma BaseXParts()
    ensures PrintToken(Tag("base", BASE_X)) == "<base href=x>"
    ensures FitsTag("base", BASE_X, []) && Named(BASE_X) == [Attr("href", Unquoted("", "", "x"))]
  {
    hide Parse, ToLower;
    BaseXPrints();
    var attr := Attr("href", Unquoted("", "", "x"));
    var r := Item(attr, Done(Gt));
    assert forall i | 0 <= i < 4 :: !In("href"[i], AttrNameEnd) && !In("base"[i], TagNameEnd);
    hide Print, AttrText, PrintToken;
    assert WellFormed(r) && Named(Done(Gt)) == [] && Named(r) == [attr];
    assert FitsTag("base", BASE_X, []);
  }

  lemma BaseXPrints()
    ensures PrintToken(Tag("base", BASE_X)) == "<base href=x>"
  {
    hide Parse, ToLower, WellFormed;
    var attr := Attr("href", Unquoted("", "", "x"));
    assert AttrText(attr) == "href=x" && Print(Item(attr, Done(Gt))) == "href=x>" && Print(BASE_X) == " href=x>";
  }

  /** They do disagree, on "<!<base href=x>", as soon as x names another page. */
  lemma PreScanDisagrees(target: string, usable: Resolution)
    requires usable("x").Some? && usable("x").value != target
    ensures var s := "<!<base href=x>";
      ScanBase(s, target, usable) == usable("x").value && BaseOf(Tokenize(s, Data), target, usable) == target
    ensures var s := "<!<base href=x>"; ScanBase(s, target, usable) != BaseOf(Tokenize(s, Data), target, usable)
  {
    hide ScanBase, BaseOf, Tokenize, FirstUsable, PrintToken;
    BaseXParts();
    HrefXIsUsable(Attr("href", Unquoted("", "", "x")), usable);
    var u := "<base href=x>";
    assert forall i | 0 <= i < 12 :: u[i] != '>';
    assert "<!" + u == "<!<base href=x>";
    PreScanCanDisagree(BASE_X, target, usable);
  }

  lemma HrefXIsUsable(a: Attr, usable: Resolution)
    requires usable("x").Some? && a.name == "href" && a.value == Unquoted("", "", "x")
    ensures FirstUsable([a], usable) == usable("x")
  {
    LowerBase();
    XStays();
    hide ToLower, Unescape, TrimSpace;
    assert UsableHref(a, usable) == usable("x");
    hide UsableHref;
    assert [a] == [a] + [];
    FirstUsableCons(a, [], usable);
  }

  lemma XStays()
    ensures Unescape("x") == "x" && TrimSpace("x") == "x"
  {
    NothingToUnescape("x");
    TrimmedStays("x");
  }

  // --- the pre-scan as the program runs it ---

  lemma FirstUsableCons(a: Attr, ats: seq<Attr>, usable: Resolution)
    ensures FirstUsable([a] + ats, usable) ==
      if UsableHref(a, usable).Some? then UsableHref(a, usable) else FirstUsable(ats, usable)
  {
    assert ([a] + ats)[1..] == ats;
  }

  method UsableBase(s: string, t: HtmlTag, ghost ats: seq<Attr>, usable: Resolution) returns (r: Option<string>)
    requires |ats| == |t.attrs| && forall k | 0 <= k < |ats| :: Records(s, t.attrs[k], ats[k])
    ensures r == FirstUsable(ats, usable)
  {
    hide Unescape, TrimSpace, ToLower, FirstUsable;
    for k := 0 to |t.attrs|
      invariant FirstUsable(ats[k..], usable) == FirstUsable(ats, usable)
    {
      var a := t.attrs[k];
      assert Records(s, a, ats[k]);
      assert ats[k..] == [ats[k]] + ats[k + 1..];
      FirstUsableCons(ats[k], ats[k + 1..], usable);
      if a.name != "href" || !a.hasValue {
        continue;
      }
      var value := UnescapeHTML(s[a.valStart..a.valEnd]);
      var ref := TrimSpace(value);
      if ref == "" {
        continue;
      }
      if usable(ref).Some? {
        return usable(ref);
      }
    }
    NoneUsable(ats[|ats|..], usable);
    r := None;
  }

  lemma NoneUsable(ats: seq<Attr>, usable: Resolution)
    requires ats == []
    ensures FirstUsable(ats, usable) == None
  {
  }

  /** `AtTag` in terms of the recorded spans. */
  lemma AtTagIs(s: string, i: nat, t: HtmlTag, n: Scan<Token>, target: string, usable: Resolution)
    requires LaidOut(s, i, t, n)
    ensures IsHeadContent("base") && t.end <= |s|
    ensures AtTag(n, target, usable) ==
      if t.name == "base" && FirstUsable(Named(n.token.tail), usable).Some? then
        FirstUsable(Named(n.token.tail), usable).value
      else if !IsHeadContent(t.name) then target
      else if IsRawText(t.name) && !t.selfClosing then
        ScanBase(s[t.end..][EndOf(s[t.end..], t.name)..], target, usable)
      else ScanBase(s[t.end..], target, usable)
  {
    assert IsHeadContent("base");
    hide IsHeadContent, IsRawText, ScanBase, EndOf, FirstUsable, Named, Spans, ToLower, Print, WellFormed;
  }

  /** The tag at `i`, and where the pre-scan goes from there. */
  method BaseAtTag(s: string, i: nat, target: string, usable: Resolution) returns (found: Option<string>, j: nat)
    requires i + 1 < |s| && s[i] == '<' && IsLetter(s[i + 1])
    ensures found.Some? ==> found.value == ScanAt(s[i..], target, usable)
    ensures found.None? ==> i < j <= |s| && ScanBase(s[j..], target, usable) == ScanAt(s[i..], target, usable)
  {
    hide *;
    ghost var ats := TagFacts(s, i, target, usable);
    var t, ok := ParseStartTag(s, i);
    if t.name == "base" {
      var r := UsableBase(s, t, ats, usable);
      if r.Some? {
        return r, i;
      }
    } else if !IsHeadContent(t.name) {
      return Some(target), i;
    }
    found, j := None, t.end;
    if IsRawText(t.name) && !t.selfClosing {
      j := FindEndTag(s, t.name, j);
      assert s[t.end..][j - t.end..] == s[j..];
    }
  }

  lemma TagFacts(s: string, i: nat, target: string, usable: Resolution) returns (ats: seq<Attr>)
    requires i + 1 < |s| && s[i] == '<' && IsLetter(s[i + 1])
    ensures Take(s[i + 1..], TagNameEnd).token != "" && IsHeadContent("base")
    ensures var t := TagAt(s, i);
      && i < t.end <= |s| && |ats| == |t.attrs|
      && (forall k | 0 <= k < |ats| :: Records(s, t.attrs[k], ats[k]))
      && ScanAt(s[i..], target, usable) ==
        if t.name == "base" && FirstUsable(ats, usable).Some? then FirstUsable(ats, usable).value
        else if !IsHeadContent(t.name) then target
        else if IsRawText(t.name) && !t.selfClosing then
          ScanBase(s[t.end..][EndOf(s[t.end..], t.name)..], target, usable)
        else ScanBase(s[t.end..], target, usable)
  {
    TagStarts(s, i);
    TagLayout(s, i);
    NotComment(s, i);
    ScanAtTag(s[i..], target, usable);
    hide *;
    var n := NextTag(s[i..]);
    RecordedTag(s, i, TagAt(s, i), n);
    AtTagIs(s, i, TagAt(s, i), n, target, usable);
    ats := Named(n.token.tail);
  }

  lemma RecordedTag(s: string, i: nat, t: HtmlTag, n: Scan<Token>)
    requires LaidOut(s, i, t, n)
    ensures i < t.end <= |s| && s[t.end..] == n.rest
    ensures |Named(n.token.tail)| == |t.attrs|
    ensures forall k | 0 <= k < |t.attrs| :: Records(s, t.attrs[k], Named(n.token.tail)[k])
  {
    hide Spans, Named, Print, WellFormed, Closing, ToLower, Records;
    SpansRecord(s, n.token.tail, i + 1 + |n.token.name|);
  }

  lemma NotComment(s: string, i: nat)
    requires i + 1 < |s| && s[i] == '<' && IsLetter(s[i + 1])
    ensures !StartsComment(s[i..]) && StartsTag(s[i..])
  {
    assert "<!--"[1] == '!' && s[i..][1] == s[i + 1];
  }

  lemma EndTagAt(s: string, i: nat, target: string, usable: Resolution)
    requires i + 1 < |s| && s[i] == '<' && s[i + 1] == '/'
    ensures !StartsComment(s[i..])
    ensures ScanAt(s[i..], target, usable) ==
      if StartsEndTag(s[i..], "head", true) then target else ScanBase(s[i + 1..], target, usable)
  {
    assert "<!--"[1] == '!' && s[i..][1] == s[i + 1] && s[i..][1..] == s[i + 1..];
  }

  lemma NothingAt(s: string, i: nat, target: string, usable: Resolution)
    requires i < |s| && !StartsComment(s[i..])
    requires i + 1 >= |s| || (s[i + 1] != '/' && !IsLetter(s[i + 1]))
    ensures ScanAt(s[i..], target, usable) == ScanBase(s[i + 1..], target, usable)
  {
    assert s[i..][1..] == s[i + 1..];
  }

  lemma CommentSkipped(s: string, i: nat, end: int, target: string, usable: Resolution)
    requires i < |s| && StartsComment(s[i..]) && i + 4 <= |s| && end == Index(s[i + 4..], "-->")
    ensures ScanAt(s[i..], target, usable) == if end < 0 then target else ScanBase(s[i + 4 + end + 3..], target, usable)
  {
    assert s[i..][4..] == s[i + 4..];
    assert end >= 0 ==> s[i..][end + 7..] == s[i + 4 + end + 3..];
  }

  lemma AtEnd(s: string, target: string, usable: Resolution)
    ensures s == "" ==> ScanBase(s, target, usable) == target == ScanAt(s, target, usable)
  {
    TakeIs("", "", Only('<'));
  }

  method FindDocumentBase(s: string, target: string, usable: Resolution) returns (base: string)
    ensures base == ScanBase(s, target, usable)
  {
    hide ScanBase, ScanAt, Take, StartsComment, Index, StartsEndTag;
    var i := 0;
    assert s[0..] == s;
    while i < |s|
      invariant i <= |s| && ScanBase(s[i..], target, usable) == ScanBase(s, target, usable)
      decreases |s| - i
    {
      var lt := ScanTo(s, i, Only('<'));
      ScanIs(s[i..], s[lt..], target, usable);
      AtEnd(s[lt..], target, usable);
      if lt >= |s| {
        return target;
      }
      i := lt;
      assert s[i..][0] == s[i];
      if StartsComment(s[i..]) {
        HasFour(s, i);
        var end := Index(s[i + 4..], "-->");
        CommentSkipped(s, i, end, target, usable);
        if end < 0 {
          return target;
        }
        i := i + 4 + end + 3;
      } else if i + 1 < |s| && s[i + 1] == '/' {
        EndTagAt(s, i, target, usable);
        var found := HasTagNameAt(s, i + 2, "head");
        if found {
          return target;
        }
        i := i + 1;
      } else if i + 1 >= |s| || !IsLetter(s[i + 1]) {
        NothingAt(s, i, target, usable);
        i := i + 1;
      } else {
        var found, j := BaseAtTag(s, i, target, usable);
        if found.Some? {
          return found.value;
        }
        i := j;
      }
    }
    AtEnd(s[i..], target, usable);
    base := target;
  }

  lemma HasFour(s: string, i: nat)
    requires i < |s| && StartsComment(s[i..])
    ensures i + 4 <= |s|
  {
  }

  lemma ScanIs(s: string, u: string, target: string, usable: Resolution)
    requires Take(s, Only('<')).rest == u
    ensures ScanBase(s, target, usable) == ScanAt(u, target, usable)
    ensures u == "" || u[0] == '<'
  {
    hide ScanAt;
  }

  /** The whole rewriter: find the base, then rewrite every reference against it. */
  method HTML(body: string, target: string, usable: Resolution, rules: string -> Base) returns (out: string)
    ensures out == Output(rules(ScanBase(body, target, usable)), body)
  {
    hide Output, ScanBase;
    var base := FindDocumentBase(body, target, usable);
    var r := new HtmlScanner(body, rules(base));
    r.Run();
    out := r.out;
    assert "" + Output(rules(base), body) == Output(rules(base), body);
  }
}
