/** Tokenizing and printing are inverse: a token sequence is the partition of its own
    text exactly when each token fits its neighbours. */
module TokenRoundTrip {
  import opened Text
  import opened StartTag
  import opened EndTags
  import opened Rules
  import opened Tokens

  // --- printing, then tokenizing ---

  lemma IndexIs(s: string, pat: string, n: nat)
    requires pat != "" && n <= |s| && pat <= s[n..]
    requires forall i | 0 <= i < n :: !(pat <= s[i..])
    ensures Index(s, pat) == n
  {
  }

  lemma IndexAppend(a: string, b: string, pat: string)
    requires pat != "" && Index(a, pat) >= 0
    ensures Index(a + b, pat) == Index(a, pat)
  {
    hide Index;
    var n := Index(a, pat);
    assert (a + b)[n..] == a[n..] + b;
    forall i | 0 <= i < n
      ensures !(pat <= (a + b)[i..])
    {
      assert !(pat <= a[i..]);
      assert (a + b)[i..] == a[i..] + b;
    }
    IndexIs(a + b, pat, n);
  }

  lemma IndexPrefix(a: string, pat: string)
    requires pat != "" && Index(a, pat) >= 0
    ensures Index(a[..Index(a, pat) + |pat|], pat) == Index(a, pat)
  {
    hide Index;
    var n := Index(a, pat);
    var p := a[..n + |pat|];
    assert p[n..] == a[n..][..|pat|] == pat;
    forall i | 0 <= i < n
      ensures !(pat <= p[i..])
    {
      NotBefore(a, i, n + |pat|, pat);
    }
    IndexIs(p, pat, n);
  }

  lemma NotBefore(a: string, i: nat, end: nat, pat: string)
    requires i <= end <= |a| && !(pat <= a[i..])
    ensures !(pat <= a[..end][i..])
  {
    assert a[i..] == a[..end][i..] + a[end..];
  }

  lemma NextAfterChars(text: string, more: string)
    requires text != "" && Free(text, Only('<')) && (more == "" || more[0] == '<')
    ensures Next(text + more) == Scan(Chars(text), more)
  {
    assert !In(text[0], Only('<'));
    TakeIs(text, more, Only('<'));
  }

  lemma NextAfterLt(more: string)
    requires StartsNothing(Head(more))
    ensures Next("<" + more) == Scan(Chars("<"), more)
  {
    var s := "<" + more;
    assert s[1..] == more;
    assert "<!--"[1] == '!';
  }

  lemma NextAfterComment(text: string, more: string)
    requires StartsComment(text)
    requires var n := Index(text[4..], "-->"); if n < 0 then more == "" else n + 7 == |text|
    ensures Next(text + more) == Scan(Comment(text), more)
  {
    hide Index, NextMarkup, NextTag, Take;
    var s := text + more;
    assert s[4..] == text[4..] + more;
    if Index(text[4..], "-->") >= 0 {
      IndexAppend(text[4..], more, "-->");
    } else {
      assert s == text;
    }
  }

  lemma NextAfterMarkup(text: string, more: string)
    requires StartsMarkup(text) && !StartsComment(text)
    requires if Free(text, Only('>')) then more == ""
      else text[|text| - 1] == '>' && Free(text[..|text| - 1], Only('>'))
    ensures Next(text + more) == Scan(Markup(text), more)
  {
    hide StartsComment, NextComment, Take, NextTag;
    var s := text + more;
    if Free(text, Only('>')) {
      assert s == text + "" == text;
      TakeIs(text, "", Only('>'));
    } else {
      hide Free;
      var t := text[..|text| - 1];
      assert text == t + ">" && s == t + ">" + more;
      assert s == t + (">" + more) && (">" + more)[1..] == more && ">" + more != "";
      TakeIs(t, ">" + more, Only('>'));
      CommentIsLocal(t, more);
    }
  }

  lemma NextAfterTag(name: string, tail: Tail, more: string)
    requires name != "" && IsLetter(name[0]) && Free(name, TagNameEnd) && WellFormed(tail)
    requires First(tail) == "" || In(First(tail)[0], TagNameEnd)
    requires Truncated(tail) ==> more == ""
    ensures Next("<" + name + Print(tail) + more) == Scan(Tag(name, tail), more)
  {
    var u := Print(tail) + more;
    PrintFirst(tail, more);
    PrintParse(tail, more);
    TagScan(name, u, Scan(tail, more));
    TagRegroup(name, Print(tail), more);
  }

  lemma TagRegroup(name: string, tail: string, more: string)
    ensures "<" + name + tail + more == "<" + (name + (tail + more))
  {
  }

  lemma TagScan(name: string, u: string, r: Scan<Tail>)
    requires name != "" && IsLetter(name[0]) && Free(name, TagNameEnd)
    requires u == "" || In(u[0], TagNameEnd)
    requires Parse(u) == r
    ensures Next("<" + (name + u)) == Scan(Tag(name, r.token), r.rest)
  {
    hide Parse, Take, NextMarkup, NextComment, Free;
    var s := "<" + (name + u);
    assert s[1..] == name + u && s[1] == name[0];
    TakeIs(name, u, TagNameEnd);
    assert "<!--"[1] == '!';
  }

  /** A fitting token scans back to itself. */
  lemma NextPrint(t: Token, rest: seq<Token>)
    requires Fits(t, rest)
    requires ModeAfter(t).Data? && !t.Tag? ==> Head(PrintAll(rest)) == Lead(rest)
    ensures Next(PrintToken(t) + PrintAll(rest)) == Scan(t, PrintAll(rest))
  {
    var more := PrintAll(rest);
    match t {
      case Chars(text) =>
        assert more == "" <==> Head(more) == "";
        if text == "<" && StartsNothing(Lead(rest)) {
          NextAfterLt(more);
        } else {
          NextAfterChars(text, more);
        }
      case Comment(text) => NextAfterComment(text, more);
      case Markup(text) => NextAfterMarkup(text, more);
      case Tag(name, tail) => NextAfterTag(name, tail, more);
    }
  }

  lemma FitsPrints(t: Token, rest: seq<Token>)
    requires Fits(t, rest)
    ensures PrintToken(t) != ""
    ensures PrintToken(t)[..1] == if t.Chars? then Head(t.text) else "<"
  {
  }

  lemma LeadPrints(ts: seq<Token>)
    requires WellTokenized(ts, Data)
    ensures Head(PrintAll(ts)) == Lead(ts)
    ensures PrintAll(ts) == "" <==> ts == []
  {
    if ts != [] {
      FitsPrints(ts[0], ts[1..]);
    }
  }

  lemma RawTagIsWord(tag: string)
    requires IsRawText(tag)
    ensures IsTagWord(tag) && Free(tag, Only('>'))
  {
  }

  /** The end tag of a raw-text element is recognised in the printed tokens too. */
  lemma ClosingPrints(tag: string, rest: seq<Token>)
    requires IsRawText(tag) && ClosesRaw(tag, rest) && WellTokenized(rest, Data)
    ensures PrintAll(rest) == "" || StartsEndTag(PrintAll(rest), tag, true)
    ensures PrintAll(rest) == "" <==> rest == []
  {
    hide StartsEndTag, IsRawText;
    LeadPrints(rest);
    if rest != [] {
      assert FitsMarkup(rest[0].text, rest[1..]);
      RawTagIsWord(tag);
      EndTagText(rest[0].text, PrintAll(rest[1..]), tag);
    }
  }

  lemma EndTagText(text: string, more: string, tag: string)
    requires Free(tag, Only('>')) && StartsEndTag(text, tag, true)
    requires if Free(text, Only('>')) then more == ""
      else text[|text| - 1] == '>' && Free(text[..|text| - 1], Only('>'))
    ensures StartsEndTag(text + more, tag, true)
  {
    if Free(text, Only('>')) {
      assert text + more == text;
    } else {
      var a := text[..|text| - 1];
      assert text == a + ">";
      EndTagIsLocal(a, more, tag);
    }
  }

  /** Printing then tokenizing recovers a well-fitting sequence. */
  lemma {:induction false} PrintTokenize(ts: seq<Token>, mode: Mode)
    requires ValidMode(mode) && WellTokenized(ts, mode)
    ensures Tokenize(PrintAll(ts), mode) == ts
    decreases |ts|
  {
    hide ClosesRaw, EndOf, Fits, IsRawText, Tokenize, PrintToken;
    match mode
    case PlainText => RestStep(ts);
    case RawText(tag) =>
      var text, rest := ts[0].text, ts[1..];
      ClosingPrints(tag, rest);
      RawTagIsWord(tag);
      EndAfterText(text, PrintAll(rest), tag);
      PrintTokenize(rest, Data);
      RawStep(text, tag, PrintAll(rest), rest);
      PrintRawBody(tag, text);
      assert ts == [ts[0]] + rest;
    case Data =>
      NothingStep();
      if ts != [] {
        var rest := ts[1..];
        if !ts[0].Tag? {
          LeadPrints(rest);
        }
        NextPrint(ts[0], rest);
        FitsPrints(ts[0], rest);
        PrintTokenize(rest, ModeAfter(ts[0]));
        DataStep(PrintToken(ts[0]) + PrintAll(rest), ts[0], PrintAll(rest), rest);
        assert ts == [ts[0]] + rest;
      }
  }

  lemma RestStep(ts: seq<Token>)
    requires WellTokenized(ts, PlainText)
    ensures Tokenize(PrintAll(ts), PlainText) == ts
  {
    assert ts == [ts[0]] && PrintAll(ts) == ts[0].text + "" == ts[0].text;
  }

  lemma NothingStep()
    ensures Tokenize(PrintAll([]), Data) == []
  {
  }

  lemma RawStep(text: string, tag: string, more: string, rest: seq<Token>)
    requires EndOf(text + more, tag) == |text| && Tokenize(more, Data) == rest
    ensures Tokenize(text + more, RawText(tag)) == [RawBody(tag, text)] + rest
  {
    assert (text + more)[..|text|] == text && (text + more)[|text|..] == more;
  }

  lemma DataStep(s: string, t: Token, more: string, rest: seq<Token>)
    requires s != "" && Next(s) == Scan(t, more) && Tokenize(more, ModeAfter(t)) == rest
    ensures Tokenize(s, Data) == [t] + rest
  {
    NextCovers(s);
  }

  // --- every tokenization fits ---

  /** `rest` tokenizes what follows a token. */
  predicate Follow(rest: seq<Token>, more: string) {
    Lead(rest) == Head(more) && (rest == [] <==> more == "")
  }

  lemma CommentFits(s: string, rest: seq<Token>)
    requires StartsComment(s) && Follow(rest, NextComment(s).rest)
    ensures FitsComment(NextComment(s).token.text, rest)
  {
    var n := Index(s[4..], "-->");
    if n >= 0 {
      var text := s[..n + 7];
      var a := s[4..];
      assert text[4..] == a[..n + 3];
      IndexPrefix(a, "-->");
    }
  }

  lemma MarkupFits(s: string, rest: seq<Token>)
    requires StartsMarkup(s) && !StartsComment(s) && Follow(rest, NextMarkup(s).rest)
    ensures FitsMarkup(NextMarkup(s).token.text, rest)
  {
    var m := Take(s, Only('>'));
    if m.rest != "" {
      var text := m.token + ">";
      assert s == text + m.rest[1..];
      assert In(text[|text| - 1], Only('>'));
      assert text[..|text| - 1] == m.token;
      CommentIsLocal(m.token, m.rest[1..]);
      assert |m.token| >= 2 by { assert !In(s[0], Only('>')) && !In(s[1], Only('>')); }
    }
  }

  lemma TagFits(s: string, rest: seq<Token>)
    requires StartsTag(s) && (NextTag(s).rest == "" ==> PrintAll(rest) == "")
    ensures var t := NextTag(s).token; FitsTag(t.name, t.tail, rest)
  {
    hide Parse, WellFormed, Print;
    var name := Take(s[1..], TagNameEnd);
    ParseIsWellFormed(name.rest);
    ParseFirst(name.rest);
    ParseCovers(name.rest);
    assert name.rest != "" ==> Head(name.rest)[0] == name.rest[0];
    assert s[1] == s[1..][0] && IsLetter(s[1]) && !IsSpace(s[1]) && !In(s[1], TagNameEnd);
    TakeSome(s[1..], TagNameEnd);
  }

  lemma NextFits(s: string, rest: seq<Token>)
    requires s != ""
    requires !Next(s).token.Tag? ==> Follow(rest, Next(s).rest)
    requires Next(s).rest == "" ==> PrintAll(rest) == ""
    ensures Fits(Next(s).token, rest)
  {
    if s[0] != '<' {
      var c := Take(s, Only('<'));
      assert c.token == "" ==> c.rest == s;
    } else if StartsComment(s) {
      CommentFits(s, rest);
    } else if StartsMarkup(s) {
      MarkupFits(s, rest);
    } else if StartsTag(s) {
      TagFits(s, rest);
    } else {
      assert s[1..] != "" ==> s[1..][0] == s[1];
    }
  }

  lemma RestartsWithEndTag(s: string, tag: string)
    requires IsRawText(tag) && StartsEndTag(s, tag, true)
    ensures var n := Next(s); n.token.Markup? && StartsEndTag(n.token.text, tag, true)
  {
    hide IsTagWord, IsRawText, IsLetter;
    RawTagIsWord(tag);
    var m := Take(s, Only('>'));
    if m.rest != "" {
      assert s == m.token + ">" + m.rest[1..];
      EndTagIsLocal(m.token, m.rest[1..], tag);
    }
  }

  lemma TokenizeFollows(s: string)
    ensures Follow(Tokenize(s, Data), s)
  {
    if s != "" {
      NextCovers(s);
      NextHead(s);
    }
  }

  lemma NextHead(s: string)
    requires s != ""
    ensures var t := Next(s).token; (if t.Chars? then Head(t.text) else "<") == Head(s)
  {
    if s[0] != '<' {
      var c := Take(s, Only('<'));
      assert c.token == "" ==> c.rest == s;
      assert c.token[0] == s[0];
    }
  }

  lemma TokenizeRawIsWell(s: string, tag: string)
    requires IsRawText(tag)
    requires WellTokenized(Tokenize(s[EndOf(s, tag)..], Data), Data)
    ensures WellTokenized(Tokenize(s, RawText(tag)), RawText(tag))
  {
    hide StartsEndTag, EndOf, NoEndTag, ClosesRaw;
    var n := EndOf(s, tag);
    var rest := Tokenize(s[n..], Data);
    TokenizeFollows(s[n..]);
    RawTagIsWord(tag);
    assert s == s[..n] + s[n..];
    EndAfterText(s[..n], s[n..], tag);
    if n < |s| {
      RestartsWithEndTag(s[n..], tag);
    }
    RawClosed(tag, s[n..]);
    RawWell(tag, s[..n], rest);
  }

  lemma RawClosed(tag: string, s: string)
    requires s == "" || (Next(s).token.Markup? && StartsEndTag(Next(s).token.text, tag, true))
    ensures ClosesRaw(tag, Tokenize(s, Data))
    ensures Tokenize(s, Data) == [] <==> s == ""
  {
    hide Next, StartsEndTag;
    if s != "" {
      NextCovers(s);
    }
  }

  lemma TokenizeDataIsWell(s: string)
    requires s != ""
    requires var n := Next(s); var m := ModeAfter(n.token); WellTokenized(Tokenize(n.rest, m), m)
    ensures WellTokenized(Tokenize(s, Data), Data)
  {
    NextCovers(s);
    var n := Next(s);
    var m := ModeAfter(n.token);
    TokensCover(n.rest, m);
    if !n.token.Tag? {
      TokenizeFollows(n.rest);
    }
    NextFits(s, Tokenize(n.rest, m));
    DataWell(n.token, Tokenize(n.rest, m));
    hide Next, Fits, WellTokenized, PrintAll, Follow;
  }

  lemma {:induction false} TokenizeIsWell(s: string, mode: Mode)
    requires ValidMode(mode)
    ensures WellTokenized(Tokenize(s, mode), mode)
    decreases |s|, if mode.Data? then 0 else 1
  {
    match mode
    case PlainText =>
    case RawText(tag) =>
      TokenizeIsWell(s[EndOf(s, tag)..], Data);
      TokenizeRawIsWell(s, tag);
    case Data =>
      if s != "" {
        NextCovers(s);
        var n := Next(s);
        TokenizeIsWell(n.rest, ModeAfter(n.token));
        TokenizeDataIsWell(s);
      }
  }

  lemma RawWell(tag: string, text: string, rest: seq<Token>)
    requires ClosesRaw(tag, rest) && NoEndTag(text, tag, rest == []) && WellTokenized(rest, Data)
    ensures WellTokenized([RawBody(tag, text)] + rest, RawText(tag))
  {
    var ts := [RawBody(tag, text)] + rest;
    assert ts[1..] == rest;
  }

  lemma DataWell(t: Token, rest: seq<Token>)
    requires Fits(t, rest) && WellTokenized(rest, ModeAfter(t))
    ensures WellTokenized([t] + rest, Data)
  {
    var ts := [t] + rest;
    assert ts[1..] == rest;
  }

  /** A token sequence survives printing and tokenizing exactly when it fits together. */
  lemma TokensRoundTrip(ts: seq<Token>, mode: Mode)
    requires ValidMode(mode)
    ensures Tokenize(PrintAll(ts), mode) == ts <==> WellTokenized(ts, mode)
  {
    TokenizeIsWell(PrintAll(ts), mode);
    if WellTokenized(ts, mode) {
      PrintTokenize(ts, mode);
    }
  }
}
