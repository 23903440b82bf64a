/** The rewriter's promises on the text of documents: what is resolved, what is dropped and
    what is copied, whatever follows. */
module Documents {
  import opened Text
  import opened Words
  import opened CharRefs
  import opened StartTag
  import opened TagEdit
  import opened EndTags
  import opened Values
  import opened Rules
  import opened Tokens
  import opened TokenRoundTrip
  import opened HtmlRewrite
  import opened Readings

  // --- one token at a time ---

  /** The output for what follows a start tag. */
  ghost function Onwards(base: Base, s: string, mode: Mode): string { PrintAll(RewriteAll(base, Tokenize(s, mode))) }

  lemma OnwardsIs(base: Base, s: string)
    ensures Onwards(base, s, Data) == Output(base, s)
  {
  }

  lemma RewriteCons(base: Base, t: Token, ts: seq<Token>)
    ensures PrintAll(RewriteAll(base, [t] + ts)) == PrintToken(RewriteToken(base, t)) + PrintAll(RewriteAll(base, ts))
  {
    hide RewriteToken, PrintAll, PrintToken;
    assert ([t] + ts)[1..] == ts;
    OnePrints(RewriteToken(base, t), RewriteAll(base, ts));
  }

  lemma OneToken(base: Base, s: string, t: Token, more: string)
    requires s != "" && Next(s) == Scan(t, more)
    ensures Output(base, s) == PrintToken(RewriteToken(base, t)) + Onwards(base, more, ModeAfter(t))
  {
    hide Next, Tokenize, RewriteAll, RewriteToken, PrintAll, PrintToken, ModeAfter;
    DataStep(s, t, more, Tokenize(more, ModeAfter(t)));
    RewriteCons(base, t, Tokenize(more, ModeAfter(t)));
  }

  // --- what is copied ---

  /** Text is copied. */
  lemma TextIsCopied(base: Base, text: string, rest: string)
    requires Free(text, Only('<'))
    ensures Output(base, text + rest) == text + Output(base, rest)
  {
    hide Output, Next, Free;
    var r := Take(rest, Only('<'));
    assert text + rest == (text + r.token) + r.rest;
    BothFree(text, r.token);
    LeadingText(base, text + r.token, r.rest);
    LeadingText(base, r.token, r.rest);
    Assoc(text, r.token, Output(base, r.rest));
  }

  lemma BothFree(a: string, b: string)
    requires Free(a, Only('<')) && Free(b, Only('<'))
    ensures Free(a + b, Only('<'))
  {
  }

  lemma LeadingText(base: Base, text: string, rest: string)
    requires Free(text, Only('<')) && (rest == "" || In(rest[0], Only('<')))
    ensures Output(base, text + rest) == text + Output(base, rest)
  {
    if text == "" {
      assert text + rest == rest;
    } else {
      NextAfterChars(text, rest);
      hide Next, Output, Free;
      OneToken(base, text + rest, Chars(text), rest);
      CharsStay(base, text);
      OnwardsIs(base, rest);
    }
  }

  lemma CharsStay(base: Base, text: string)
    ensures PrintToken(RewriteToken(base, Chars(text))) == text && ModeAfter(Chars(text)) == Data
    ensures PrintToken(RewriteToken(base, Comment(text))) == text && ModeAfter(Comment(text)) == Data
    ensures PrintToken(RewriteToken(base, Markup(text))) == text && ModeAfter(Markup(text)) == Data
  {
  }

  /** A comment is copied, whatever markup it holds. */
  lemma CommentsAreCopied(base: Base, body: string, rest: string)
    requires forall i | 0 <= i < |body| :: !("-->" <= (body + "-->")[i..])
    ensures Output(base, "<!--" + body + "-->" + rest) == "<!--" + body + "-->" + Output(base, rest)
  {
    var text := "<!--" + body + "-->";
    assert text[4..] == body + "-->" && (body + "-->")[|body|..] == "-->";
    IndexIs(body + "-->", "-->", |body|);
    hide Next, Output, Index;
    NextAfterComment(text, rest);
    OneToken(base, text + rest, Comment(text), rest);
    CharsStay(base, text);
    OnwardsIs(base, rest);
  }

  /** So is a declaration, a processing instruction or an end tag. */
  lemma MarkupIsCopied(base: Base, open: string, body: string, rest: string)
    requires open in {"<!", "<?", "</"} && Free(body, Only('>')) && !("--" <= body)
    ensures Output(base, open + body + ">" + rest) == open + body + ">" + Output(base, rest)
  {
    var text := open + body + ">";
    MarkupText(open, body);
    hide Next, Output, Free;
    NextAfterMarkup(text, rest);
    OneToken(base, text + rest, Markup(text), rest);
    CharsStay(base, text);
    OnwardsIs(base, rest);
  }

  lemma MarkupText(open: string, body: string)
    requires open in {"<!", "<?", "</"} && Free(body, Only('>')) && !("--" <= body)
    ensures var text := open + body + ">";
      && StartsMarkup(text) && !StartsComment(text)
      && text[|text| - 1] == '>' && Free(text[..|text| - 1], Only('>')) && !Free(text, Only('>'))
  {
    var text := open + body + ">";
    assert text[..|text| - 1] == open + body;
    assert text[|text| - 1] == '>' && In(text[|text| - 1], Only('>'));
    if StartsComment(text) {
      DashesFollow(open, body);
    }
  }

  lemma DashesFollow(open: string, body: string)
    requires |open| == 2 && StartsComment(open + body + ">")
    ensures "--" <= body
  {
    var text := open + body + ">";
    assert text[2] == '-' && text[3] == '-';
    assert |body| >= 2 && body[0] == text[2] && body[1] == text[3];
  }

  /** Everything after <plaintext> is copied. */
  lemma PlaintextIsCopied(base: Base, rest: string)
    ensures Output(base, "<plaintext>" + rest) == "<plaintext>" + rest
  {
    hide *;
    PlainFacts(base, rest);
    BareTag(base, "plaintext", rest);
    assert "<" + "plaintext" + ">" == "<plaintext>";
  }

  lemma PlainFacts(base: Base, rest: string)
    ensures IsTagName("plaintext") && ModeAfter(Tag("plaintext", Done(Gt))) == PlainText
    ensures Onwards(base, rest, PlainText) == rest
  {
    assert ToLower("plaintext") == "plaintext";
    RewriteCons(base, Rest(rest), []);
    assert [Rest(rest)] + [] == [Rest(rest)] && rest + "" == rest;
  }

  // --- start tags ---

  predicate IsTagName(tag: string) { tag != "" && IsLetter(tag[0]) && Free(tag, TagNameEnd) }

  lemma TagOutput(base: Base, tag: string, tail: Tail, rest: string)
    requires IsTagName(tag) && WellFormed(tail) && !Truncated(tail)
    requires First(tail) != "" && In(First(tail)[0], TagNameEnd)
    ensures Output(base, "<" + tag + Print(tail) + rest)
         == "<" + tag + Print(EditedTail(base, tag, tail)) + Onwards(base, rest, ModeAfter(Tag(tag, tail)))
  {
    hide Next, Output, WellFormed, EditedTail, ModeAfter, Free;
    NextAfterTag(tag, tail, rest);
    OneToken(base, "<" + tag + Print(tail) + rest, Tag(tag, tail), rest);
  }

  lemma BareTag(base: Base, tag: string, rest: string)
    requires IsTagName(tag)
    ensures Output(base, "<" + tag + ">" + rest) == "<" + tag + ">" + Onwards(base, rest, ModeAfter(Tag(tag, Done(Gt))))
  {
    hide Output, ModeAfter, Free;
    TagOutput(base, tag, Done(Gt), rest);
  }

  // --- raw text ---

  /** An end tag for `tag` starts at `i`: its folded name, and white space, '/' or '>'. */
  predicate EndsAt(body: string, i: nat, tag: string) {
    && i + 2 + |tag| < |body| && body[i] == '<' && body[i + 1] == '/'
    && ToLower(body[i + 2..i + 2 + |tag|]) == tag && body[i + 2 + |tag|] in " \t\n\U{0C}\r/>"
  }

  lemma EndChars(c: char)
    ensures In(c, TagNameEnd) <==> c in " \t\n\U{0C}\r/>"
  {
  }

  lemma EndsIs(body: string, tag: string)
    requires ToLower(tag) == tag && forall i | 0 <= i < |body| :: !EndsAt(body, i, tag)
    ensures NoEndTag(body, tag, false)
  {
    forall i | 0 <= i < |body|
      ensures !StartsEndTag(body[i..], tag, false)
    {
      var s, n := body[i..], |tag|;
      assert !EndsAt(body, i, tag);
      if n + 2 < |s| {
        assert s[0] == body[i] && s[1] == body[i + 1];
        assert s[2..2 + n] == body[i + 2..i + 2 + n] && s[2 + n] == body[i + 2 + n];
        EndChars(s[2 + n]);
      }
    }
  }

  lemma RawTagNames(tag: string)
    requires tag in {"script", "style", "textarea", "title", "xmp", "iframe", "noembed", "noframes", "noscript"}
    ensures IsTagName(tag) && ToLower(tag) == tag && IsRawText(tag) && tag != "plaintext"
  {
    assert forall i | 0 <= i < |tag| :: LowerChar(tag[i]) == tag[i] && !In(tag[i], TagNameEnd);
    assert IsTagName(tag);
  }

  lemma RawOutput(base: Base, tag: string, body: string, rest: string)
    requires IsTagName(tag) && ToLower(tag) == tag && IsRawText(tag)
    requires forall i | 0 <= i < |body| :: !EndsAt(body, i, tag)
    ensures Onwards(base, body + ("</" + tag + ">" + rest), RawText(tag))
         == (if tag == "style" then base.css(body) else body) + ("</" + tag + ">" + Output(base, rest))
  {
    hide Output, Tokenize, EndsAt, IsRawText, NoEndTag;
    var more := "</" + tag + ">" + rest;
    EndsIs(body, tag);
    RawTagIsWord(tag);
    EndTagStarts(tag, rest);
    EndAfterText(body, more, tag);
    RawStep(body, tag, more, Tokenize(more, Data));
    RewriteCons(base, RawBody(tag, body), Tokenize(more, Data));
    OnwardsIs(base, more);
    NotDashed(tag);
    MarkupIsCopied(base, "</", tag, rest);
  }

  lemma NotDashed(tag: string)
    requires IsTagName(tag)
    ensures !("--" <= tag)
  {
    assert !IsLetter('-');
  }

  lemma EndTagStarts(tag: string, rest: string)
    ensures StartsEndTag("</" + tag + ">" + rest, tag, true)
  {
    var s := "</" + tag + ">" + rest;
    assert s[2..2 + |tag|] == tag && s[2 + |tag|] == '>';
  }

  /** The text of a raw-text element is copied, whatever markup it seems to hold; that of a
      style element is rewritten as CSS. */
  lemma RawTextIsCopied(base: Base, tag: string, body: string, rest: string)
    requires tag in {"script", "style", "textarea", "title", "xmp", "iframe", "noembed", "noframes", "noscript"}
    requires forall i | 0 <= i < |body| :: !EndsAt(body, i, tag)
    ensures Output(base, "<" + tag + ">" + body + "</" + tag + ">" + rest)
         == "<" + tag + ">" + (if tag == "style" then base.css(body) else body) + "</" + tag + ">" + Output(base, rest)
  {
    hide *;
    RawTagNames(tag);
    var shut := "</" + tag + ">";
    var more := body + (shut + rest);
    BareTag(base, tag, more);
    DoneCloses();
    RawMode(tag, Done(Gt));
    RawOutput(base, tag, body, rest);
    Flat("<" + tag + ">", body, shut, rest);
    Flat("<" + tag + ">", if tag == "style" then base.css(body) else body, shut, Output(base, rest));
    FlatMore("<" + tag + ">" + body, "</", tag, ">", rest);
    FlatMore("<" + tag + ">" + (if tag == "style" then base.css(body) else body), "</", tag, ">", Output(base, rest));
  }

  lemma DoneCloses()
    ensures Closing(Done(Gt)) == Gt && Named(Done(Gt)) == []
  {
  }

  lemma FlatMore(a: string, b: string, c: string, d: string, e: string)
    ensures a + (b + c + d) + e == a + b + c + d + e
  {
  }

  lemma RawMode(tag: string, tail: Tail)
    requires Closing(tail) == Gt
    ensures ModeAfter(Tag(tag, tail)) ==
      if ToLower(tag) == "plaintext" then PlainText else if IsRawText(ToLower(tag)) then RawText(ToLower(tag)) else Data
  {
  }

  lemma Flat(a: string, b: string, c: string, d: string)
    ensures a + (b + (c + d)) == a + b + c + d
  {
  }

  // --- one attribute ---

  /** A start tag with one attribute: `sp` is white space, `q` a quote. */
  function Element(tag: string, sp: char, name: string, q: char, v: string): string {
    "<" + tag + [sp] + name + "=" + [q] + EscapeAttrValue(v, q) + [q] + ">"
  }

  function Quote(name: string, q: char, v: string): Attr {
    Attr(name, Quoted("", "", q, EscapeAttrValue(v, q), true))
  }

  function OneAttr(sp: char, name: string, q: char, v: string): Tail { Gap(sp, Item(Quote(name, q, v), Done(Gt))) }

  predicate IsWritten(tag: string, sp: char, name: string, q: char) {
    IsTagName(tag) && IsSpace(sp) && name != "" && Free(name, AttrNameEnd) && IsQuote(q)
  }

  lemma ElementIs(tag: string, sp: char, name: string, q: char, v: string)
    requires IsWritten(tag, sp, name, q)
    ensures Element(tag, sp, name, q, v) == "<" + tag + Print(OneAttr(sp, name, q, v))
    ensures var t := OneAttr(sp, name, q, v);
      WellFormed(t) && !Truncated(t) && First(t) != "" && In(First(t)[0], TagNameEnd) && Named(t) == [Quote(name, q, v)]
  {
    EscapedKeepsQuotes(v, q);
    hide EscapeAttrValue;
    var e := EscapeAttrValue(v, q);
    QuoteText(name, q, e);
    var a := Attr(name, Quoted("", "", q, e, true));
    PrintOne(sp, a);
    OneIsWellFormed(sp, a);
    FlatElement(tag, [sp], name, [q], e);
  }

  lemma PrintOne(sp: char, a: Attr)
    ensures Print(Gap(sp, Item(a, Done(Gt)))) == [sp] + (AttrText(a) + ">")
  {
    hide AttrText;
    assert Print(Item(a, Done(Gt))) == AttrText(a) + ">";
  }

  lemma OneIsWellFormed(sp: char, a: Attr)
    requires IsSpace(sp) && a.name != "" && Free(a.name, AttrNameEnd) && a.value.Quoted? && a.value.closed
    requires a.value.before == "" && a.value.after == ""
    requires IsQuote(a.value.quote) && Free(a.value.raw, Only(a.value.quote))
    ensures var t := Gap(sp, Item(a, Done(Gt)));
      WellFormed(t) && !Truncated(t) && First(t) != "" && In(First(t)[0], TagNameEnd) && Named(t) == [a]
  {
    DoneCloses();
    ItemIs(a, Done(Gt));
    GapIs(sp, Item(a, Done(Gt)));
    assert WellFormed(Done(Gt)) && [a] + [] == [a];
  }

  lemma ItemIs(a: Attr, r: Tail)
    ensures Closing(Item(a, r)) == Closing(r)
    ensures Named(Item(a, r)) == (if a.name != "" then [a] else []) + Named(r)
  {
  }

  lemma GapIs(c: char, r: Tail)
    ensures Closing(Gap(c, r)) == Closing(r) && Named(Gap(c, r)) == Named(r)
  {
  }

  lemma FlatElement(tag: string, sp: string, name: string, q: string, e: string)
    ensures "<" + tag + sp + name + "=" + q + e + q + ">" == "<" + tag + (sp + (name + "=" + q + e + q + ">"))
  {
  }

  lemma QuoteText(name: string, q: char, e: string)
    ensures AttrText(Attr(name, Quoted("", "", q, e, true))) == name + "=" + [q] + e + [q]
  {
  }

  function After(a: Attr, e: Edit): Attr
    requires e.Change? ==> !a.value.NoValue?
  {
    if e.Change? then Splice(a, e.value) else a
  }

  /** An attribute the rules keep is written with the value that is meant. */
  lemma EditedQuote(base: Base, c: Context, name: string, q: char, v: string)
    requires name != "" && IsQuote(q) && !Dropped(c, ToLower(name))
    ensures var a := Quote(name, q, v);
      && !EditOf(base, c, a).Drop?
      && After(a, EditOf(base, c, a)) == Quote(name, q, Meant(base, c.tag, c.refresh, ToLower(name), v))
  {
    UnescapeEscape(v, q);
    RulesMean(base, c, ToLower(name), v);
    hide Unescape, Meant, Rewritten, EscapeAttrValue, ToLower;
  }

  lemma ApplyOne(edit: Editor, sp: char, a: Attr, b: Attr)
    requires Sensible(edit) && !edit(a).Drop? && b == After(a, edit(a))
    ensures Apply(Gap(sp, Item(a, Done(Gt))), edit) == Gap(sp, Item(b, Done(Gt)))
  {
    hide Splice;
    assert Apply(Item(a, Done(Gt)), edit) == Item(b, Done(Gt));
  }

  lemma EditedOne(base: Base, tag: string, sp: char, name: string, q: char, v: string)
    requires IsWritten(tag, sp, name, q) && !Dropped(ContextOf(ToLower(tag), OneAttr(sp, name, q, v)), ToLower(name))
    ensures EditedTail(base, tag, OneAttr(sp, name, q, v))
         == OneAttr(sp, name, q, Meant(base, ToLower(tag), ContextOf(ToLower(tag), OneAttr(sp, name, q, v)).refresh,
                                       ToLower(name), v))
  {
    var c := ContextOf(ToLower(tag), OneAttr(sp, name, q, v));
    EditorIsSensible(base, c);
    EditedQuote(base, c, name, q, v);
    ContextTag(ToLower(tag), OneAttr(sp, name, q, v));
    hide ContextOf, ToLower, EditOf, Meant, EscapeAttrValue, Dropped, Apply, Quote;
    var w := Meant(base, c.tag, c.refresh, ToLower(name), v);
    ApplyOne(EditorFor(base, c), sp, Quote(name, q, v), Quote(name, q, w));
  }

  lemma OneContext(tag: string, sp: char, name: string, q: char, v: string)
    requires IsWritten(tag, sp, name, q)
    ensures var c := ContextOf(ToLower(tag), OneAttr(sp, name, q, v));
      && (ToLower(name) == "content" ==> !c.refresh) && (ToLower(name) == "integrity" ==> !c.dropIntegrity)
  {
    ElementIs(tag, sp, name, q, v);
    hide ToLower, Unescape, EscapeAttrValue, Fields, TrimSpace, OneAttr, Named;
  }

  /** The only thing one attribute's element can hide from the rules is its own meaning. */
  lemma ElementOutput(base: Base, tag: string, sp: char, name: string, q: char, v: string, rest: string)
    requires IsWritten(tag, sp, name, q) && (ToLower(tag), ToLower(name)) != ("base", "href")
    ensures Output(base, Element(tag, sp, name, q, v) + rest)
         == Element(tag, sp, name, q, Meant(base, ToLower(tag), false, ToLower(name), v))
            + Onwards(base, rest, ModeAfter(Tag(tag, Done(Gt))))
  {
    hide ToLower, Output, Onwards, ContextOf, Meant, WellFormed, OneAttr, EditedTail, IsTagName;
    var t := OneAttr(sp, name, q, v);
    var c := ContextOf(ToLower(tag), t);
    ElementIs(tag, sp, name, q, v);
    TagOutput(base, tag, t, rest);
    OneContext(tag, sp, name, q, v);
    ContextTag(ToLower(tag), t);
    EditedOne(base, tag, sp, name, q, v);
    var w := Meant(base, ToLower(tag), c.refresh, ToLower(name), v);
    RefreshIsContent(base, ToLower(tag), c.refresh, ToLower(name), v);
    ElementIs(tag, sp, name, q, w);
    SameMode(tag, sp, name, q, v);
  }

  lemma RefreshIsContent(base: Base, tag: string, refresh: bool, name: string, v: string)
    requires name == "content" ==> !refresh
    ensures Meant(base, tag, refresh, name, v) == Meant(base, tag, false, name, v)
  {
  }

  lemma SameMode(tag: string, sp: char, name: string, q: char, v: string)
    ensures ModeAfter(Tag(tag, OneAttr(sp, name, q, v))) == ModeAfter(Tag(tag, Done(Gt)))
  {
    assert Closing(Item(Quote(name, q, v), Done(Gt))) == Gt;
  }

  lemma OrdinaryMode(tag: string)
    requires ToLower(tag) !in {"script", "style", "textarea", "title", "xmp", "iframe", "noembed", "noframes",
                               "noscript", "plaintext"}
    ensures ModeAfter(Tag(tag, Done(Gt))) == Data
  {
  }

  // --- what is resolved ---

  /** Every link of a page is resolved. */
  lemma AnchorsResolve(base: Base, v: string, rest: string)
    ensures Output(base, "<a href=\"" + EscapeAttrValue(v, '"') + "\">" + rest)
         == "<a href=\"" + EscapeAttrValue(base.resolve(v), '"') + "\">" + Output(base, rest)
  {
    AnchorIsWritten();
    UrlsResolve(base, "a", ' ', "href", '"', v, rest);
    hide *;
    AnchorText(EscapeAttrValue(v, '"'));
    AnchorText(EscapeAttrValue(base.resolve(v), '"'));
    ElementText("a", ' ', "href", '"', v);
    ElementText("a", ' ', "href", '"', base.resolve(v));
  }

  lemma AnchorIsWritten()
    ensures IsWritten("a", ' ', "href", '"') && ToLower("a") == "a" && ToLower("href") == "href"
  {
  }

  lemma ElementText(tag: string, sp: char, name: string, q: char, v: string)
    ensures Element(tag, sp, name, q, v) == "<" + tag + [sp] + name + "=" + [q] + EscapeAttrValue(v, q) + [q] + ">"
  {
  }

  lemma AnchorText(e: string)
    ensures "<" + "a" + [' '] + "href" + "=" + ['"'] + e + ['"'] + ">" == "<a href=\"" + e + "\">"
  {
    assert "<" + "a" + [' '] + "href" + "=" + ['"'] == "<a href=\"";
    assert ['"'] + ">" == "\">";
    Assoc("<a href=\"" + e, ['"'], ">");
  }

  /** So is every other URL attribute, on its own elements, in any case and either quotes. */
  lemma UrlsResolve(base: Base, tag: string, sp: char, name: string, q: char, v: string, rest: string)
    requires IsWritten(tag, sp, name, q)
    requires
      || (ToLower(name) in {"href", "src", "data-src", "data-href"} && (ToLower(tag), ToLower(name)) != ("base", "href")
          && ToLower(tag) !in {"script", "style", "textarea", "title", "xmp", "iframe", "noembed", "noframes",
                               "noscript", "plaintext"})
      || (ToLower(tag), ToLower(name)) in {
           ("form", "action"), ("button", "formaction"), ("input", "formaction"), ("video", "poster"),
           ("object", "data"), ("blockquote", "cite"), ("q", "cite"), ("del", "cite"), ("ins", "cite"),
           ("body", "background"), ("table", "background"), ("td", "background"), ("th", "background"),
           ("img", "longdesc"), ("frame", "longdesc"), ("html", "manifest"), ("head", "profile"),
           ("object", "codebase"), ("applet", "codebase")}
    ensures Output(base, Element(tag, sp, name, q, v) + rest)
         == Element(tag, sp, name, q, base.resolve(v)) + Output(base, rest)
  {
    hide Output, Onwards, IsWritten, Element, ToLower;
    OrdinaryMode(tag);
    ElementOutput(base, tag, sp, name, q, v, rest);
    OnwardsIs(base, rest);
    hide ModeAfter;
  }

  /** A script or frame is resolved and its text copied. */
  lemma ScriptsResolve(base: Base, tag: string, name: string, v: string, body: string, rest: string)
    requires (tag, name) in {("script", "src"), ("iframe", "src"), ("iframe", "longdesc")}
    requires forall i | 0 <= i < |body| :: !EndsAt(body, i, tag)
    ensures Output(base, Element(tag, ' ', name, '"', v) + (body + ("</" + tag + ">" + rest)))
         == Element(tag, ' ', name, '"', base.resolve(v)) + (body + ("</" + tag + ">" + Output(base, rest)))
  {
    hide *;
    ScriptNames(base, tag, name, v);
    RawTagNames(tag);
    ElementOutput(base, tag, ' ', name, '"', v, body + ("</" + tag + ">" + rest));
    DoneCloses();
    RawMode(tag, Done(Gt));
    RawOutput(base, tag, body, rest);
  }

  lemma ScriptNames(base: Base, tag: string, name: string, v: string)
    requires (tag, name) in {("script", "src"), ("iframe", "src"), ("iframe", "longdesc")}
    ensures IsWritten(tag, ' ', name, '"') && ToLower(name) == name && tag in {"script", "iframe"}
    ensures Meant(base, tag, false, name, v) == base.resolve(v)
  {
    RawTagNames(tag);
    assert forall i | 0 <= i < |name| :: LowerChar(name[i]) == name[i] && !In(name[i], AttrNameEnd);
    assert ToLower(name) == name;
  }

  /** Candidate lists, ping lists and inline styles, on an ordinary element. */
  lemma ListsResolve(base: Base, tag: string, sp: char, name: string, q: char, v: string, rest: string)
    requires IsWritten(tag, sp, name, q)
    requires ToLower(tag) !in {"script", "style", "textarea", "title", "xmp", "iframe", "noembed", "noframes",
                               "noscript", "plaintext"}
    ensures ToLower(name) in {"srcset", "imagesrcset", "data-srcset"} ==>
      Output(base, Element(tag, sp, name, q, v) + rest)
        == Element(tag, sp, name, q, SrcsetOf(v, base.resolve)) + Output(base, rest)
    ensures ToLower(tag) == "a" && ToLower(name) == "ping" ==>
      Output(base, Element(tag, sp, name, q, v) + rest)
        == Element(tag, sp, name, q, UrlListOf(v, base.resolve)) + Output(base, rest)
    ensures ToLower(name) == "style" ==>
      Output(base, Element(tag, sp, name, q, v) + rest) == Element(tag, sp, name, q, base.css(v)) + Output(base, rest)
  {
    hide Output, Onwards, IsWritten, Element, ToLower, SrcsetOf, UrlListOf;
    OrdinaryMode(tag);
    OnwardsIs(base, rest);
    hide ModeAfter;
    if ToLower(name) in {"srcset", "imagesrcset", "data-srcset", "ping", "style"} {
      ElementOutput(base, tag, sp, name, q, v, rest);
    }
  }

  /** An attribute that is on none of the lists keeps its value, whatever it looks like. */
  lemma OthersStay(base: Base, tag: string, sp: char, name: string, q: char, v: string, rest: string)
    requires IsWritten(tag, sp, name, q)
    requires ToLower(tag) !in {"script", "style", "textarea", "title", "xmp", "iframe", "noembed", "noframes",
                               "noscript", "plaintext"}
    requires ToLower(name) !in {"href", "src", "data-src", "data-href", "srcset", "imagesrcset", "data-srcset", "style"}
    requires (ToLower(tag), ToLower(name)) !in {
      ("form", "action"), ("button", "formaction"), ("input", "formaction"), ("video", "poster"),
      ("object", "data"), ("blockquote", "cite"), ("q", "cite"), ("del", "cite"), ("ins", "cite"),
      ("body", "background"), ("table", "background"), ("td", "background"), ("th", "background"),
      ("img", "longdesc"), ("frame", "longdesc"), ("html", "manifest"), ("head", "profile"),
      ("object", "codebase"), ("applet", "codebase"), ("a", "ping")}
    ensures Output(base, Element(tag, sp, name, q, v) + rest) == Element(tag, sp, name, q, v) + Output(base, rest)
  {
    hide Output, Onwards, IsWritten, Element, ToLower;
    OrdinaryMode(tag);
    ElementOutput(base, tag, sp, name, q, v, rest);
    OnwardsIs(base, rest);
    hide ModeAfter;
  }

  // --- what is dropped, and what the element says of itself ---

  lemma SpentBaseIs(base: Base, v: string)
    ensures EditedTail(base, "base", OneAttr(' ', "href", '"', v)) == Gap(' ', Done(Gt))
    ensures IsWritten("base", ' ', "href", '"') && ModeAfter(Tag("base", OneAttr(' ', "href", '"', v))) == Data
  {
    var t, a := OneAttr(' ', "href", '"', v), Quote("href", '"', v);
    var c := ContextOf("base", t);
    assert ToLower("base") == "base" && ToLower("href") == "href";
    assert IsWritten("base", ' ', "href", '"');
    EditorIsSensible(base, c);
    assert EditorFor(base, c)(a) == Drop;
    hide EscapeAttrValue, ContextOf;
    assert Apply(Item(a, Done(Gt)), EditorFor(base, c)) == Done(Gt);
  }

  /** The document's base is spent: its href is dropped, and the rest of the tag stays. */
  lemma BaseIsSpent(base: Base, v: string, rest: string)
    ensures Output(base, "<base href=\"" + EscapeAttrValue(v, '"') + "\">" + rest) == "<base >" + Output(base, rest)
  {
    hide *;
    var e, t := EscapeAttrValue(v, '"'), OneAttr(' ', "href", '"', v);
    SpentBaseIs(base, v);
    ElementIs("base", ' ', "href", '"', v);
    ElementText("base", ' ', "href", '"', v);
    BaseText(e);
    WrittenName("base", ' ', "href", '"');
    TagOutput(base, "base", t, rest);
    OnwardsIs(base, rest);
    SpentText();
  }

  lemma WrittenName(tag: string, sp: char, name: string, q: char)
    requires IsWritten(tag, sp, name, q)
    ensures IsTagName(tag)
  {
  }

  lemma BaseText(e: string)
    ensures "<" + "base" + [' '] + "href" + "=" + ['"'] + e + ['"'] + ">" == "<base href=\"" + e + "\">"
  {
    assert "<" + "base" + [' '] + "href" + "=" + ['"'] == "<base href=\"";
    assert ['"'] + ">" == "\">";
    Assoc("<base href=\"" + e, ['"'], ">");
  }

  lemma SpentText()
    ensures "<" + "base" + Print(Gap(' ', Done(Gt))) == "<base >"
  {
    assert Print(Gap(' ', Done(Gt))) == " >";
  }

  /** A start tag with two attributes. */
  function TwoAttrs(a: Attr, b: Attr): Tail { Gap(' ', Item(a, Gap(' ', Item(b, Done(Gt))))) }

  predicate IsQuoted(a: Attr) {
    && a.name != "" && Free(a.name, AttrNameEnd) && a.value.Quoted? && a.value.closed
    && a.value.before == "" && a.value.after == "" && a.value.quote == '"' && Free(a.value.raw, Only('"'))
  }

  lemma TwoAreWellFormed(a: Attr, b: Attr)
    requires IsQuoted(a) && IsQuoted(b)
    ensures var t := TwoAttrs(a, b);
      WellFormed(t) && !Truncated(t) && First(t) == " " && Named(t) == [a, b]
    ensures Print(TwoAttrs(a, b)) == " " + (AttrText(a) + (" " + (AttrText(b) + ">")))
  {
    var r := Gap(' ', Item(b, Done(Gt)));
    OneIsWellFormed(' ', b);
    PrintOne(' ', b);
    ItemIs(a, r);
    GapIs(' ', Item(a, r));
    hide AttrText, Named, WellFormedOperand;
    assert WellFormedAttr(a, r) by { QuotedFits(a, r); }
    assert [a] + [b] == [a, b];
    assert Print(Item(a, r)) == AttrText(a) + Print(r);
  }

  lemma QuotedFits(a: Attr, r: Tail)
    requires IsQuoted(a)
    ensures WellFormedAttr(a, r)
  {
  }

  lemma ApplyTwo(edit: Editor, a: Attr, b: Attr)
    requires Sensible(edit) && !edit(a).Drop?
    ensures Apply(TwoAttrs(a, b), edit) == Gap(' ', Item(After(a, edit(a)),
      Gap(' ', if edit(b).Drop? then Done(Gt) else Item(After(b, edit(b)), Done(Gt)))))
  {
    hide Splice;
    assert Apply(Done(Gt), edit) == Done(Gt);
    assert Apply(Item(b, Done(Gt)), edit) == if edit(b).Drop? then Done(Gt) else Item(After(b, edit(b)), Done(Gt));
    var r := Gap(' ', Item(b, Done(Gt)));
    assert Apply(Item(a, r), edit) == Item(After(a, edit(a)), Apply(r, edit));
  }

  /** `name="v"`, as it is written. */
  function Written(name: string, v: string): string { name + "=\"" + EscapeAttrValue(v, '"') + "\"" }

  lemma WrittenIs(name: string, v: string)
    requires name != "" && Free(name, AttrNameEnd)
    ensures IsQuoted(Quote(name, '"', v)) && AttrText(Quote(name, '"', v)) == Written(name, v)
  {
    EscapedKeepsQuotes(v, '"');
    hide EscapeAttrValue;
    QuoteText(name, '"', EscapeAttrValue(v, '"'));
    assert "=" + ['"'] == "=\"" && ['"'] == "\"";
    Assoc(name, "=", ['"']);
  }

  /** A refresh resolves its URL and keeps its delay. */
  lemma RefreshesResolve(base: Base, v: string, rest: string)
    ensures Output(base, "<meta " + Written("http-equiv", "refresh") + " " + Written("content", v) + ">" + rest)
         == "<meta " + Written("http-equiv", "refresh") + " " + Written("content", RefreshOf(v, base.resolve)) + ">"
            + Output(base, rest)
  {
    hide *;
    var a, b, next := Quote("http-equiv", '"', "refresh"), Quote("content", '"', v), RefreshOf(v, base.resolve);
    MetaNames();
    WrittenIs("http-equiv", "refresh");
    WrittenIs("content", v);
    WrittenIs("content", next);
    TwoAreWellFormed(a, b);
    TwoAreWellFormed(a, Quote("content", '"', next));
    MetaIsEdited(base, v);
    TagOutput(base, "meta", TwoAttrs(a, b), rest);
    OnwardsIs(base, rest);
    TwoMode("meta", a, b);
    TwoText("meta", AttrText(a), AttrText(b));
    TwoText("meta", AttrText(a), Written("content", next));
    assert "<" + "meta" + " " == "<meta ";
  }

  lemma TwoText(tag: string, a: string, b: string)
    ensures "<" + tag + (" " + (a + (" " + (b + ">")))) == "<" + tag + " " + a + " " + b + ">"
  {
  }

  lemma MetaNames()
    ensures IsTagName("meta") && In(' ', TagNameEnd) && ToLower("meta") == "meta"
    ensures Free("http-equiv", AttrNameEnd) && Free("content", AttrNameEnd)
    ensures ToLower("http-equiv") == "http-equiv" && ToLower("content") == "content"
  {
    MetaIsTagName();
    assert Free("http-equiv", AttrNameEnd);
  }

  lemma MetaIsTagName()
    ensures IsTagName("meta") && In(' ', TagNameEnd) && ToLower("meta") == "meta"
  {
  }

  lemma TwoMode(tag: string, a: Attr, b: Attr)
    requires ToLower(tag) in {"meta", "link"}
    ensures ModeAfter(Tag(tag, TwoAttrs(a, b))) == Data
  {
  }

  lemma TwoContext(tag: string, a: Attr, b: Attr)
    requires IsQuoted(a) && IsQuoted(b)
    ensures ContextOf(tag, TwoAttrs(a, b))
         == Context(tag, tag == "meta" && (SaysRefresh(a) || SaysRefresh(b)),
                    tag == "link" && (SaysStylesheet(a) || SaysStylesheet(b)))
  {
    TwoAreWellFormed(a, b);
    hide SaysRefresh, SaysStylesheet, TwoAttrs, Named, IsQuoted;
    assert a in [a, b] && b in [a, b] && forall x | x in [a, b] :: x == a || x == b;
  }

  /** Two attributes are edited each by itself. */
  lemma TwoEdited(base: Base, tag: string, c: Context, m: string, v: string, n: string, w: string)
    requires ToLower(tag) == tag && ToLower(m) == m && ToLower(n) == n && m != "" && n != ""
    requires ContextOf(tag, TwoAttrs(Quote(m, '"', v), Quote(n, '"', w))) == c && !Dropped(c, m)
    ensures EditedTail(base, tag, TwoAttrs(Quote(m, '"', v), Quote(n, '"', w)))
         == Gap(' ', Item(Quote(m, '"', Meant(base, c.tag, c.refresh, m, v)),
              Gap(' ', if Dropped(c, n) then Done(Gt)
                       else Item(Quote(n, '"', Meant(base, c.tag, c.refresh, n, w)), Done(Gt)))))
  {
    var a, b := Quote(m, '"', v), Quote(n, '"', w);
    EditorIsSensible(base, c);
    EditedQuote(base, c, m, '"', v);
    assert EditOf(base, c, b).Drop? <==> Dropped(c, n) by {
      if !Dropped(c, n) {
        EditedQuote(base, c, n, '"', w);
      }
    }
    if !Dropped(c, n) {
      EditedQuote(base, c, n, '"', w);
    }
    hide EscapeAttrValue, ToLower, TwoAttrs, Apply, Meant, Dropped, EditOf, ContextOf, Quote;
    ApplyTwo(EditorFor(base, c), a, b);
  }

  lemma SaysRefreshIs(name: string, v: string)
    ensures SaysRefresh(Quote(name, '"', v)) <==> ToLower(name) == "http-equiv" && EqualFold(TrimSpace(v), "refresh")
  {
    UnescapeEscape(v, '"');
    hide Unescape, EscapeAttrValue, ToLower, TrimSpace;
  }

  lemma MetaSays()
    ensures SaysRefresh(Quote("http-equiv", '"', "refresh"))
  {
    hide *;
    MetaNames();
    RefreshFoldsToItself();
    SaysRefreshIs("http-equiv", "refresh");
  }

  lemma RefreshFoldsToItself()
    ensures EqualFold(TrimSpace("refresh"), "refresh")
  {
    RefreshIsTrimmed();
    hide *;
    FoldsToItself("refresh");
  }

  lemma RefreshIsTrimmed()
    ensures Trimmed("refresh")
  {
  }

  lemma FoldsToItself(s: string)
    requires Trimmed(s)
    ensures EqualFold(TrimSpace(s), s)
  {
    TrimmedStays(s);
  }

  lemma MetaIsEdited(base: Base, v: string)
    ensures EditedTail(base, "meta", TwoAttrs(Quote("http-equiv", '"', "refresh"), Quote("content", '"', v)))
         == TwoAttrs(Quote("http-equiv", '"', "refresh"), Quote("content", '"', RefreshOf(v, base.resolve)))
  {
    hide *;
    var a, b, next := Quote("http-equiv", '"', "refresh"), Quote("content", '"', v), RefreshOf(v, base.resolve);
    var c := Context("meta", true, false);
    MetaNames();
    MetaSays();
    WrittenIs("http-equiv", "refresh");
    WrittenIs("content", v);
    TwoContext("meta", a, b);
    MetaMeans(base, v);
    NotDropped(c);
    TwoIs(a, Quote("content", '"', next));
    TwoEdited(base, "meta", c, "http-equiv", "refresh", "content", v);
  }

  lemma NotDropped(c: Context)
    requires c.tag == "meta" && !c.dropIntegrity
    ensures !Dropped(c, "http-equiv") && !Dropped(c, "content")
  {
  }

  lemma TwoIs(a: Attr, b: Attr)
    ensures TwoAttrs(a, b) == Gap(' ', Item(a, Gap(' ', Item(b, Done(Gt)))))
  {
  }

  lemma MetaMeans(base: Base, v: string)
    ensures Meant(base, "meta", true, "http-equiv", "refresh") == "refresh"
    ensures Meant(base, "meta", true, "content", v) == RefreshOf(v, base.resolve)
  {
    hide RefreshOf;
  }

  // --- digests ---

  /** The element is a stylesheet, by its rel or by its as. */
  predicate NamesSheet(name: string, v: string) {
    || (name == "rel" && "stylesheet" in Fields(ToLower(v)))
    || (name == "as" && TrimSpace(ToLower(v)) == "style")
  }

  lemma LinkSays(name: string, v: string, w: string)
    requires name in {"rel", "as"}
    ensures SaysStylesheet(Quote(name, '"', v)) <==> NamesSheet(name, v)
    ensures !SaysStylesheet(Quote("integrity", '"', w))
  {
    LinkNames();
    UnescapeEscape(v, '"');
    hide Unescape, EscapeAttrValue, ToLower, TrimSpace, Fields;
  }

  lemma LinkNames()
    ensures IsTagName("link") && ToLower("link") == "link" && ToLower("integrity") == "integrity"
    ensures Free("rel", AttrNameEnd) && Free("as", AttrNameEnd) && Free("integrity", AttrNameEnd)
    ensures ToLower("rel") == "rel" && ToLower("as") == "as"
  {
    assert IsTagName("link");
    assert Free("integrity", AttrNameEnd);
  }

  lemma LinkMeans(base: Base, name: string, v: string, w: string)
    requires name in {"rel", "as"}
    ensures Meant(base, "link", false, name, v) == v && Meant(base, "link", false, "integrity", w) == w
  {
  }

  lemma LinkIsEdited(base: Base, name: string, v: string, w: string)
    requires name in {"rel", "as"}
    ensures var a, b := Quote(name, '"', v), Quote("integrity", '"', w);
      EditedTail(base, "link", TwoAttrs(a, b))
        == if NamesSheet(name, v) then Gap(' ', Item(a, Gap(' ', Done(Gt)))) else TwoAttrs(a, b)
  {
    hide *;
    var a, b := Quote(name, '"', v), Quote("integrity", '"', w);
    var c := Context("link", false, NamesSheet(name, v));
    LinkNames();
    LinkSays(name, v, w);
    LinkMeans(base, name, v, w);
    LinkDrops(c, name);
    WrittenIs(name, v);
    WrittenIs("integrity", w);
    TwoContext("link", a, b);
    TwoIs(a, b);
    TwoEdited(base, "link", c, name, v, "integrity", w);
  }

  lemma LinkDrops(c: Context, name: string)
    requires c.tag == "link" && name in {"rel", "as"}
    ensures !Dropped(c, name) && (Dropped(c, "integrity") <==> c.dropIntegrity)
  {
  }

  /** The digest of a stylesheet, whose bytes the proxy changes, is dropped; that of any
      other link stays. */
  lemma SheetsLoseTheirDigest(base: Base, name: string, v: string, w: string, rest: string)
    requires name in {"rel", "as"}
    ensures Output(base, "<link " + Written(name, v) + " " + Written("integrity", w) + ">" + rest)
         == "<link " + Written(name, v) + " " + (if NamesSheet(name, v) then "" else Written("integrity", w)) + ">"
            + Output(base, rest)
  {
    hide *;
    var a, b := Quote(name, '"', v), Quote("integrity", '"', w);
    LinkNames();
    WrittenIs(name, v);
    WrittenIs("integrity", w);
    TwoAreWellFormed(a, b);
    LinkIsEdited(base, name, v, w);
    SpaceEnds();
    TagOutput(base, "link", TwoAttrs(a, b), rest);
    OnwardsIs(base, rest);
    TwoMode("link", a, b);
    TwoText("link", AttrText(a), AttrText(b));
    DroppedText(a);
    TwoText("link", AttrText(a), "");
    assert "<" + "link" + " " == "<link " && " " + ("" + ">") == " " + ">";
  }

  lemma SpaceEnds()
    ensures In(' ', TagNameEnd)
  {
  }

  lemma DroppedText(a: Attr)
    ensures Print(Gap(' ', Item(a, Gap(' ', Done(Gt))))) == " " + (AttrText(a) + (" " + ">"))
  {
    hide AttrText;
    assert Print(Done(Gt)) == ">" && Print(Gap(' ', Done(Gt))) == " " + ">";
    assert Print(Item(a, Gap(' ', Done(Gt)))) == AttrText(a) + (" " + ">");
  }

  // --- unquoted values ---

  function BareAttr(v: string): Tail { Gap(' ', Item(Attr("href", Unquoted("", "", v)), Done(Gt))) }

  predicate IsBare(v: string) { v != "" && Free(v, UnquotedEnd) && !IsQuote(v[0]) && Free(v, Only('&')) }

  lemma BareIs(v: string)
    requires IsBare(v)
    ensures var t := BareAttr(v);
      && WellFormed(t) && !Truncated(t) && First(t) == " " && Named(t) == [Attr("href", Unquoted("", "", v))]
      && Print(t) == " " + ("href=" + v + ">")
  {
    var a := Attr("href", Unquoted("", "", v));
    assert AttrText(a) == "href=" + v;
    assert Free("href", AttrNameEnd);
    PrintOne(' ', a);
    DoneCloses();
    ItemIs(a, Done(Gt));
    GapIs(' ', Item(a, Done(Gt)));
    hide AttrText;
    assert WellFormed(Done(Gt)) && [a] + [] == [a];
    assert WellFormedOperand(a.value, Done(Gt));
  }

  lemma BareIsEdited(base: Base, v: string)
    requires IsBare(v)
    ensures ToLower("a") == "a" && IsTagName("a") && In(' ', TagNameEnd)
    ensures EditedTail(base, "a", BareAttr(v)) ==
      if base.resolve(v) == v then BareAttr(v) else OneAttr(' ', "href", '"', base.resolve(v))
  {
    var a := Attr("href", Unquoted("", "", v));
    var c := ContextOf("a", BareAttr(v));
    assert ToLower("a") == "a" && ToLower("href") == "href" && c.tag == "a" && !c.refresh && !c.dropIntegrity;
    NothingToUnescape(v);
    RulesMean(base, c, "href", v);
    EditorIsSensible(base, c);
    hide ContextOf, ToLower, EscapeAttrValue, Apply, Unescape, Rewritten;
    var w := base.resolve(v);
    assert EditOf(base, c, a) == if w == v then Keep else Change(w);
    ApplyOne(EditorFor(base, c), ' ', a, if w == v then a else Quote("href", '"', w));
  }

  /** An unquoted link that is resolved gains quotes. */
  lemma BareLinksResolve(base: Base, v: string, rest: string)
    requires IsBare(v)
    ensures Output(base, "<a href=" + v + ">" + rest)
         == (if base.resolve(v) == v then "<a href=" + v + ">"
             else "<a href=\"" + EscapeAttrValue(base.resolve(v), '"') + "\">") + Output(base, rest)
  {
    hide *;
    BareIs(v);
    BareIsEdited(base, v);
    SpaceEnds();
    TagOutput(base, "a", BareAttr(v), rest);
    AnchorIsWritten();
    ElementIs("a", ' ', "href", '"', base.resolve(v));
    ElementText("a", ' ', "href", '"', base.resolve(v));
    AnchorText(EscapeAttrValue(base.resolve(v), '"'));
    AnchorMode(v);
    OnwardsIs(base, rest);
    BareText(v);
  }

  lemma AnchorMode(v: string)
    ensures ModeAfter(Tag("a", BareAttr(v))) == Data
  {
    assert ToLower("a") == "a";
  }

  lemma BareText(v: string)
    ensures "<" + "a" + (" " + ("href=" + v + ">")) == "<a href=" + v + ">"
  {
    assert "<" + "a" + " " + "href=" == "<a href=";
  }
}
