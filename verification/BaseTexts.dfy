/** The pre-scan for the document's base, on the text of documents: what it steps over, where
    it stops, and which base it finds. */
module BaseTexts {
  import opened Text
  import opened Words
  import opened CharRefs
  import opened StartTag
  import opened TagEdit
  import opened EndTags
  import opened Rules
  import opened Tokens
  import opened TokenRoundTrip
  import opened DocumentBase
  import opened Documents

  /** Text is stepped over. */
  lemma TextIsPassed(text: string, rest: string, target: string, usable: Resolution)
    requires Free(text, Only('<'))
    ensures ScanBase(text + rest, target, usable) == ScanBase(rest, target, usable)
  {
    hide ScanAt;
    var r := Take(rest, Only('<'));
    assert text + rest == (text + r.token) + r.rest;
    BothFree(text, r.token);
    TakeIs(text + r.token, r.rest, Only('<'));
  }

  /** A comment is stepped over, whatever it holds. */
  lemma CommentsArePassed(body: string, rest: string, target: string, usable: Resolution)
    requires forall i | 0 <= i < |body| :: !("-->" <= (body + "-->")[i..])
    ensures ScanBase("<!--" + body + "-->" + rest, target, usable) == ScanBase(rest, target, usable)
  {
    var text := "<!--" + body + "-->";
    assert text[4..] == body + "-->" && (body + "-->")[|body|..] == "-->";
    IndexIs(body + "-->", "-->", |body|);
    hide Index, ScanAt, Next, NextComment, NextTag, NextMarkup;
    NextAfterComment(text, rest);
    assert StartsComment(text + rest) && (text + rest)[0] == '<';
    NextIsComment(text + rest);
    ScanNext(text + rest, target, usable);
  }

  lemma NextIsComment(s: string)
    requires s != "" && s[0] == '<' && StartsComment(s)
    ensures Next(s) == NextComment(s) && Next(s).token.Comment?
  {
  }

  /** The end of the head ends the search. */
  lemma HeadEndStops(head: string, c: char, rest: string, target: string, usable: Resolution)
    requires ToLower(head) == "head" && c in " \t\n\U{0C}\r/>"
    ensures ScanBase("</" + head + [c] + rest, target, usable) == target
  {
    var s := "</" + head + [c] + rest;
    assert |head| == 4 && s[2..6] == head && s[6] == c;
    assert ToLower("head") == "head" && EqualFold(s[2..2 + |"head"|], "head");
    EndChars(c);
    assert StartsEndTag(s, "head", true);
    assert s[1] == '/' && !StartsComment(s);
    HeadEnds(s, target, usable);
    hide ScanAt;
    TakeIs("", s, Only('<'));
    assert "" + s == s;
  }

  /** Any other end tag is stepped over. */
  lemma EndTagsArePassed(name: string, rest: string, target: string, usable: Resolution)
    requires Free(name, Only('<')) && (|name| < 4 || ToLower(name[..4]) != "head") && |name| != 0
    ensures ScanBase("</" + name + ">" + rest, target, usable) == ScanBase(rest, target, usable)
  {
    hide *;
    NotTheHead(name, rest);
    Skip("</" + name + ">" + rest, target, usable);
    SlashIsText(name, rest);
    TextIsPassed("/" + name + ">", rest, target, usable);
  }

  lemma SlashIsText(name: string, rest: string)
    requires Free(name, Only('<'))
    ensures Free("/" + name + ">", Only('<')) && ("</" + name + ">" + rest)[1..] == "/" + name + ">" + rest
  {
    var text := "/" + name + ">";
    assert forall i | 1 <= i <= |name| :: text[i] == name[i - 1];
  }

  lemma NotTheHead(name: string, rest: string)
    requires (|name| < 4 || ToLower(name[..4]) != "head") && name != ""
    ensures var s := "</" + name + ">" + rest; s != "" && !Acts(s)
  {
    var s := "</" + name + ">" + rest;
    assert ToLower("head") == "head" && s[1] == '/' && !IsLetter('/');
    if |s| >= 6 {
      if |name| >= 4 {
        assert s[2..6] == name[..4];
      } else {
        assert s[2 + |name|] == '>' && s[2..6][|name|] == '>' && ToLower(s[2..6])[|name|] == '>';
        assert "head"[|name|] != '>';
      }
    }
  }

  // --- tags ---

  lemma TagIsMet(tag: string, tail: Tail, rest: string, target: string, usable: Resolution)
    requires IsTagName(tag) && WellFormed(tail) && !Truncated(tail)
    requires First(tail) != "" && In(First(tail)[0], TagNameEnd)
    ensures ScanBase("<" + tag + Print(tail) + rest, target, usable)
         == AtTag(Scan(Tag(tag, tail), rest), target, usable)
  {
    hide Next, ScanBase, AtTag, WellFormed, Free;
    NextAfterTag(tag, tail, rest);
    ScanTag("<" + tag + Print(tail) + rest, target, usable);
  }

  lemma BareTagIsMet(tag: string, rest: string, target: string, usable: Resolution)
    requires IsTagName(tag)
    ensures ScanBase("<" + tag + ">" + rest, target, usable) == AtTag(Scan(Tag(tag, Done(Gt)), rest), target, usable)
  {
    hide AtTag, Free;
    TagIsMet(tag, Done(Gt), rest, target, usable);
  }

  /** The first <base> whose href is usable gives the base; any other is stepped over. */
  lemma BaseTagDecides(v: string, rest: string, target: string, usable: Resolution)
    ensures var ref := TrimSpace(v);
      ScanBase("<base href=\"" + EscapeAttrValue(v, '"') + "\">" + rest, target, usable)
        == if ref != "" && usable(ref).Some? then usable(ref).value else ScanBase(rest, target, usable)
  {
    hide *;
    var t := OneAttr(' ', "href", '"', v);
    BaseIsWritten();
    WrittenName("base", ' ', "href", '"');
    ElementIs("base", ' ', "href", '"', v);
    ElementText("base", ' ', "href", '"', v);
    BaseText(EscapeAttrValue(v, '"'));
    TagIsMet("base", t, rest, target, usable);
    HrefIsUsable(v, usable);
    NotRaw(t, rest, target, usable);
  }

  lemma BaseIsWritten()
    ensures IsWritten("base", ' ', "href", '"') && ToLower("base") == "base"
  {
  }

  lemma HrefIsUsable(v: string, usable: Resolution)
    ensures var ref := TrimSpace(v);
      FirstUsable([Quote("href", '"', v)], usable) == if ref != "" then usable(ref) else None
  {
    UnescapeEscape(v, '"');
    var a := Quote("href", '"', v);
    assert ToLower("href") == "href";
    hide Unescape, EscapeAttrValue, ToLower, TrimSpace;
    assert [a][1..] == [] && FirstUsable([], usable) == None;
  }

  lemma NotRaw(t: Tail, rest: string, target: string, usable: Resolution)
    ensures ToLower("base") == "base"
    ensures AtTag(Scan(Tag("base", t), rest), target, usable) == match FirstUsable(Named(t), usable)
      case Some(b) => b
      case None => ScanBase(rest, target, usable)
  {
    assert ToLower("base") == "base" && IsHeadContent("base") && !IsRawText("base");
    hide FirstUsable, Named, ScanBase, ToLower, EndOf, IsRawText, IsHeadContent;
  }

  /** The other elements of a head are stepped over, with or without an attribute. */
  lemma HeadElementsArePassed(tag: string, sp: char, name: string, q: char, v: string, rest: string, target: string,
                              usable: Resolution)
    requires ToLower(tag) in {"html", "head", "basefont", "bgsound", "link", "meta", "template"}
    requires IsWritten(tag, sp, name, q)
    ensures ScanBase("<" + tag + ">" + rest, target, usable) == ScanBase(rest, target, usable)
    ensures ScanBase(Element(tag, sp, name, q, v) + rest, target, usable) == ScanBase(rest, target, usable)
  {
    HeadNames(tag);
    hide *;
    WrittenName(tag, sp, name, q);
    BareTagIsMet(tag, rest, target, usable);
    ElementIs(tag, sp, name, q, v);
    TagIsMet(tag, OneAttr(sp, name, q, v), rest, target, usable);
    HeadTagPasses(tag, Done(Gt), rest, target, usable);
    HeadTagPasses(tag, OneAttr(sp, name, q, v), rest, target, usable);
  }

  lemma HeadNames(tag: string)
    requires ToLower(tag) in {"html", "head", "basefont", "bgsound", "link", "meta", "template"}
    ensures IsHeadContent(ToLower(tag)) && ToLower(tag) != "base" && !IsRawText(ToLower(tag))
  {
    hide ToLower;
  }

  lemma HeadTagPasses(tag: string, t: Tail, rest: string, target: string, usable: Resolution)
    requires IsHeadContent(ToLower(tag)) && ToLower(tag) != "base" && !IsRawText(ToLower(tag))
    ensures AtTag(Scan(Tag(tag, t), rest), target, usable) == ScanBase(rest, target, usable)
  {
    hide FirstUsable, Named, ScanBase, ToLower, EndOf, IsRawText, IsHeadContent;
  }

  /** So is the text of a script, a style, a title or a noscript. */
  lemma HeadTextIsPassed(tag: string, body: string, rest: string, target: string, usable: Resolution)
    requires tag in {"script", "style", "title", "noscript"}
    requires forall i | 0 <= i < |body| :: !EndsAt(body, i, tag)
    ensures ScanBase("<" + tag + ">" + (body + ("</" + tag + ">" + rest)), target, usable)
         == ScanBase("</" + tag + ">" + rest, target, usable)
  {
    hide *;
    var more := "</" + tag + ">" + rest;
    RawTagNames(tag);
    HeadTextNames(tag);
    BareTagIsMet(tag, body + more, target, usable);
    EndsIs(body, tag);
    RawTagIsWord(tag);
    EndTagStarts(tag, rest);
    EndAfterText(body, more, tag);
    assert (body + more)[|body|..] == more;
    NotNothing(tag, rest);
    RawTagPasses(tag, body + more, target, usable);
  }

  lemma NotNothing(tag: string, rest: string)
    ensures "</" + tag + ">" + rest != ""
  {
  }

  lemma HeadTextNames(tag: string)
    requires tag in {"script", "style", "title", "noscript"}
    ensures IsHeadContent(tag) && IsRawText(tag) && tag != "base"
  {
  }

  lemma RawTagPasses(tag: string, s: string, target: string, usable: Resolution)
    requires ToLower(tag) == tag && IsHeadContent(tag) && IsRawText(tag) && tag != "base"
    ensures AtTag(Scan(Tag(tag, Done(Gt)), s), target, usable) == ScanBase(s[EndOf(s, tag)..], target, usable)
  {
    hide FirstUsable, Named, ScanBase, ToLower, EndOf, IsRawText, IsHeadContent;
  }

  /** Any other element opens the body and ends the search. */
  lemma BodyElementsStop(tag: string, sp: char, name: string, q: char, v: string, rest: string, target: string,
                         usable: Resolution)
    requires IsWritten(tag, sp, name, q)
    requires ToLower(tag) !in {"html", "head", "base", "basefont", "bgsound", "link", "meta", "noscript", "script",
                               "style", "template", "title"}
    ensures ScanBase("<" + tag + ">" + rest, target, usable) == target
    ensures ScanBase(Element(tag, sp, name, q, v) + rest, target, usable) == target
  {
    BodyNames(tag);
    hide *;
    WrittenName(tag, sp, name, q);
    BareTagIsMet(tag, rest, target, usable);
    ElementIs(tag, sp, name, q, v);
    TagIsMet(tag, OneAttr(sp, name, q, v), rest, target, usable);
    BodyTagStops(tag, Done(Gt), rest, target, usable);
    BodyTagStops(tag, OneAttr(sp, name, q, v), rest, target, usable);
  }

  lemma BodyNames(tag: string)
    requires ToLower(tag) !in {"html", "head", "base", "basefont", "bgsound", "link", "meta", "noscript", "script",
                               "style", "template", "title"}
    ensures !IsHeadContent(ToLower(tag)) && ToLower(tag) != "base"
  {
    hide ToLower;
  }

  lemma BodyTagStops(tag: string, t: Tail, rest: string, target: string, usable: Resolution)
    requires !IsHeadContent(ToLower(tag)) && ToLower(tag) != "base"
    ensures AtTag(Scan(Tag(tag, t), rest), target, usable) == target
  {
    hide FirstUsable, Named, ScanBase, ToLower, EndOf, IsRawText, IsHeadContent;
  }
}
