/** The rewriting scanner: one pass over the source that appends to an output buffer. */
module HtmlScanners {
  import opened Text
  import opened Words
  import opened CharRefs
  import opened StartTag
  import opened TagEdit
  import opened Values
  import opened EndTags
  import opened Rules
  import opened Tokens
  import opened HtmlRewrite
  import opened Scanner
  import opened Splice

  class HtmlScanner {
    const src: string
    const base: Base
    var out: string

    constructor (src: string, base: Base)
      ensures this.src == src && this.base == base && out == ""
    {
      this.src, this.base, this.out := src, base, "";
    }

    /** The spans of a start tag at the source position where its '<' stands. */
    predicate IsTagAt(t: HtmlTag, i: nat) {
      i < |src| && src[i] == '<' && t == TagAt(src, i)
    }

    method RewritesOwnBody(t: HtmlTag) returns (r: bool)
      requires forall h | h in t.attrs :: h.valStart <= h.valEnd <= |src|
      ensures r <==> t.name == "link" && exists h | h in t.attrs :: SpanSaysStylesheet(src, h)
    {
      hide Fields, TrimSpace, Unescape, ToLower;
      if t.name != "link" {
        return false;
      }
      for k := 0 to |t.attrs|
        invariant forall j | 0 <= j < k :: !SpanSaysStylesheet(src, t.attrs[j])
      {
        var a := t.attrs[k];
        assert a in t.attrs;
        if !a.hasValue {
          continue;
        }
        var raw := UnescapeHTML(src[a.valStart..a.valEnd]);
        var value := ToLower(raw);
        if a.name == "rel" {
          var tokens := Fields(value);
          for n := 0 to |tokens|
            invariant "stylesheet" !in tokens[..n]
          {
            if tokens[n] == "stylesheet" {
              return true;
            }
          }
          assert tokens[..|tokens|] == tokens;
        } else if a.name == "as" && TrimSpace(value) == "style" {
          return true;
        }
      }
      r := false;
    }

    method IsRefreshMeta(t: HtmlTag) returns (r: bool)
      requires forall h | h in t.attrs :: h.valStart <= h.valEnd <= |src|
      ensures r <==> t.name == "meta" && exists h | h in t.attrs :: SpanSaysRefresh(src, h)
    {
      hide TrimSpace, Unescape, ToLower;
      if t.name != "meta" {
        return false;
      }
      for k := 0 to |t.attrs|
        invariant forall j | 0 <= j < k :: !SpanSaysRefresh(src, t.attrs[j])
      {
        var a := t.attrs[k];
        assert a in t.attrs;
        if a.name != "http-equiv" || !a.hasValue {
          continue;
        }
        var value := UnescapeHTML(src[a.valStart..a.valEnd]);
        if EqualFold(TrimSpace(value), "refresh") {
          return true;
        }
      }
      r := false;
    }

    /** The rewritten value of an attribute, and whether it differs from the source. */
    method NewValue(c: Context, a: HtmlAttr) returns (value: string, changed: bool)
      requires a.valStart <= a.valEnd <= |src| && a.hasValue && !Dropped(c, a.name)
      ensures SpanEdit(base, c, src, a) == if changed then Change(value) else Keep
    {
      var val := UnescapeHTML(src[a.valStart..a.valEnd]);
      if a.name in SRCSET_ATTRS {
        value := RewriteSrcset(val, base.resolve);
      } else if a.name == "ping" && c.tag == "a" {
        value := RewriteURLList(val, base.resolve);
      } else if a.name == "style" {
        value := base.css(val);
      } else if c.refresh && a.name == "content" {
        value := RewriteMetaRefresh(val, base.resolve);
      } else if IsURLAttr(c.tag, a.name) {
        value := base.resolve(val);
      } else {
        return "", false;
      }
      changed := value != val;
    }

    /** The loop of `writeStartTag`, over the recorded spans. */
    method WriteAttrs(t: HtmlTag, c: Context)
      requires InOrder(t.attrs, t.start, t.end) && t.end <= |src|
      modifies this`out
      ensures out == old(out) + WriteFrom(base, c, src, t.attrs, t.start, t.end)
    {
      hide WriteFrom, EscapeAttrValue, Rewritten, Unescape, SpanEdit;
      var cur := t.start;
      for k := 0 to |t.attrs|
        invariant InOrder(t.attrs[k..], cur, t.end)
        invariant out + WriteFrom(base, c, src, t.attrs[k..], cur, t.end)
               == old(out) + WriteFrom(base, c, src, t.attrs, t.start, t.end)
      {
        var a := t.attrs[k];
        ghost var rest := t.attrs[k + 1..];
        assert t.attrs[k..] == [a] + rest;
        WriteStep(base, c, src, a, rest, cur, t.end);
        ghost var edit := SpanEdit(base, c, src, a);
        ghost var next := Resume(a, edit, cur);
        Assoc(out, Emitted(src, a, edit, cur), WriteFrom(base, c, src, rest, next, t.end));
        SpanEditCases(base, c, src, a);
        if Dropped(c, a.name) {
          out := out + src[cur..a.start];
          cur := a.end;
        } else if a.hasValue {
          var value, changed := NewValue(c, a);
          if changed {
            if a.quote == NO_QUOTE {
              out := out + (src[cur..a.start] + src[a.start..a.nameEnd] + "=\"" + EscapeAttrValue(value, '"') + "\"");
              cur := a.end;
            } else {
              out := out + (src[cur..a.valStart] + EscapeAttrValue(value, a.quote));
              cur := a.valEnd;
            }
          } else {
            assert out + "" == out;
          }
        } else {
          assert out + "" == out;
        }
      }
      assert t.attrs[|t.attrs|..] == [];
      WriteDone(base, c, src, cur, t.end);
      out := out + src[cur..t.end];
    }

    method WriteStartTag(t: HtmlTag, i: nat)
      requires IsTagAt(t, i)
      modifies this`out
      ensures t.end <= |src| && src[t.end..] == NextTag(src[i..]).rest
      ensures out == old(out) + PrintToken(RewriteToken(base, NextTag(src[i..]).token))
    {
      TagLayout(src, i);
      SpansInBounds(src, i, t, NextTag(src[i..]));
      hide NextTag, TagAt, LaidOut, WriteFrom, InOrder, ContextOf, RewriteToken, PrintToken;
      var refresh := IsRefreshMeta(t);
      var dropIntegrity := RewritesOwnBody(t);
      var c := Context(t.name, refresh, dropIntegrity);
      TagWritten(base, src, i, t, NextTag(src[i..]), c);
      WriteAttrs(t, c);
    }

    /** The output so far and the output of what is left make up `total`. */
    ghost predicate Remaining(i: nat, total: string)
      requires i <= |src|
      reads this`out
    {
      out + Output(base, src[i..]) == total
    }

    /** Copy source bytes to the output. */
    method Copy(i: nat, j: nat, ghost total: string)
      requires i <= j <= |src| && Remaining(i, total)
      requires Output(base, src[i..]) == src[i..j] + Output(base, src[j..])
      modifies this`out
      ensures Remaining(j, total)
    {
      hide Output;
      Assoc(out, src[i..j], Output(base, src[j..]));
      out := out + src[i..j];
    }

    /** A comment, or the rest of the document when nothing closes it. */
    method CopyComment(i: nat, ghost total: string) returns (j: nat)
      requires i < |src| && StartsComment(src[i..]) && Remaining(i, total)
      modifies this`out
      ensures i < j <= |src| && Remaining(j, total)
    {
      var end := Index(src[i + 4..], "-->");
      j := if end < 0 then |src| else i + 4 + end + 3;
      CommentAt(base, src, i, end, j);
      hide *;
      Copy(i, j, total);
    }

    /** A declaration, processing instruction or end tag. */
    method CopyMarkup(i: nat, ghost total: string) returns (j: nat)
      requires i < |src| && StartsMarkup(src[i..]) && !StartsComment(src[i..]) && Remaining(i, total)
      modifies this`out
      ensures i < j <= |src| && Remaining(j, total)
    {
      hide Output, Take, Remaining;
      var end := ScanTo(src, i, Only('>'));
      MarkupAt(base, src, i, end);
      j := if end >= |src| then |src| else end + 1;
      Copy(i, j, total);
    }

    /** The text of a raw-text element. */
    method CopyRaw(name: string, i: nat, ghost total: string) returns (j: nat)
      requires i <= |src| && out + OutputIn(base, src[i..], RawText(name)) == total
      modifies this`out
      ensures i <= j <= |src| && Remaining(j, total)
    {
      hide Output, OutputIn, EndOf;
      j := FindEndTag(src, name, i);
      AfterTag(base, src[i..], RawText(name));
      var body := src[i..j];
      assert src[i..][..j - i] == body && src[i..][j - i..] == src[j..];
      var text := if name == "style" then base.css(body) else body;
      Assoc(out, text, Output(base, src[j..]));
      out := out + text;
    }

    /** A start tag, and the text that belongs to it. */
    method CopyTag(i: nat, ghost total: string) returns (j: nat)
      requires i + 1 < |src| && src[i] == '<' && IsLetter(src[i + 1]) && Remaining(i, total)
      modifies this`out
      ensures i < j <= |src| && Remaining(j, total)
    {
      hide Output, OutputIn, Next, NextTag, RewriteToken, PrintToken, ModeAfter, Take, TagAt, Spans;
      // A letter always starts a tag name, so the source's retry never happens.
      TagStarts(src, i);
      DataToken(base, src[i..]);
      TagLayout(src, i);
      TagMode(src, i, TagAt(src, i), NextTag(src[i..]));
      var t, ok := ParseStartTag(src, i);
      ghost var n := NextTag(src[i..]);
      ghost var text := PrintToken(RewriteToken(base, n.token));
      Assoc(out, text, OutputIn(base, n.rest, ModeAfter(n.token)));
      WriteStartTag(t, i);
      j := t.end;
      if t.name == "plaintext" {
        AfterTag(base, src[j..], PlainText);
        out := out + src[j..];
        NothingLeft(base, src[|src|..]);
        return |src|;
      }
      if IsRawText(t.name) && !t.selfClosing {
        j := CopyRaw(t.name, j, total);
      } else {
        AfterTag(base, src[j..], Data);
      }
    }

    /** The whole pass. */
    method Run()
      modifies this`out
      ensures out == old(out) + Output(base, src)
    {
      hide Output, Take, StartsMarkup, StartsComment;
      var i := 0;
      ghost var total := old(out) + Output(base, src);
      assert src[0..] == src;
      while i < |src|
        invariant i <= |src| && Remaining(i, total)
        decreases |src| - i
      {
        var lt := ScanTo(src, i, Only('<'));
        TextStep(base, src[i..], src[i..lt], src[lt..]);
        Copy(i, lt, total);
        i := lt;
        if i >= |src| {
          break;
        }
        assert src[i..][0] == src[i];
        if StartsComment(src[i..]) {
          i := CopyComment(i, total);
        } else if StartsMarkup(src[i..]) {
          i := CopyMarkup(i, total);
        } else if i + 1 < |src| && IsLetter(src[i + 1]) {
          i := CopyTag(i, total);
        } else {
          LoneLt(base, src, i);
          assert src[i..i + 1] == "<";
          Copy(i, i + 1, total);
          i := i + 1;
        }
      }
      NothingLeft(base, src[i..]);
    }
  }

  ghost function OutputIn(base: Base, s: string, mode: Mode): string {
    PrintAll(RewriteAll(base, Tokenize(s, mode)))
  }

  lemma NothingLeft(base: Base, s: string)
    requires s == ""
    ensures forall x: string :: x + Output(base, s) == x
  {
    assert Output(base, s) == "";
  }

  lemma DataToken(base: Base, s: string)
    requires s != ""
    ensures Output(base, s)
         == PrintToken(RewriteToken(base, Next(s).token)) + OutputIn(base, Next(s).rest, ModeAfter(Next(s).token))
    ensures OutputIn(base, Next(s).rest, Data) == Output(base, Next(s).rest)
  {
    hide Next, RewriteToken, PrintToken, ModeAfter;
    NextCovers(s);
    var n := Next(s);
    PrintRewritten(base, n.token, Tokenize(n.rest, ModeAfter(n.token)));
  }

  lemma PrintRewritten(base: Base, t: Token, ts: seq<Token>)
    ensures PrintAll(RewriteAll(base, [t] + ts)) == PrintToken(RewriteToken(base, t)) + PrintAll(RewriteAll(base, ts))
  {
    assert ([t] + ts)[1..] == ts;
    hide RewriteToken, PrintToken;
    var r := RewriteToken(base, t);
    assert ([r] + RewriteAll(base, ts))[1..] == RewriteAll(base, ts);
  }

  /** Text up to the next '<' is copied. */
  lemma TextStep(base: Base, s: string, text: string, rest: string)
    requires Take(s, Only('<')) == Scan(text, rest)
    ensures Output(base, s) == text + Output(base, rest)
  {
    if text == "" {
      assert s == rest && "" + Output(base, rest) == Output(base, rest);
    } else {
      assert s[0] == text[0] && !In(text[0], Only('<'));
      CopiedToken(base, s, Chars(text), rest);
    }
  }

  /** Text, comments and other markup are copied. */
  lemma CopiedToken(base: Base, s: string, t: Token, rest: string)
    requires s != "" && Next(s) == Scan(t, rest) && (t.Chars? || t.Comment? || t.Markup?)
    ensures Output(base, s) == t.text + Output(base, rest)
  {
    DataToken(base, s);
    hide Next;
  }

  lemma CommentAt(base: Base, s: string, i: nat, end: int, j: nat)
    requires i < |s| && StartsComment(s[i..]) && i + 4 <= |s|
    requires end == Index(s[i + 4..], "-->") && j == if end < 0 then |s| else i + end + 7
    ensures i < j <= |s| && Output(base, s[i..]) == s[i..j] + Output(base, s[j..])
  {
    hide Output, Next;
    assert s[i..][4..] == s[i + 4..];
    var n := NextComment(s[i..]);
    NextIsComment(s[i..]);
    if end < 0 {
      assert s[i..|s|] == s[i..] && s[|s|..] == "";
    } else {
      assert s[i..][..end + 7] == s[i..j] && s[i..][end + 7..] == s[j..];
    }
    CopiedToken(base, s[i..], n.token, n.rest);
  }

  lemma NextIsComment(s: string)
    requires StartsComment(s)
    ensures Next(s) == NextComment(s)
  {
    hide NextComment;
  }

  lemma MarkupAt(base: Base, s: string, i: nat, end: nat)
    requires i < |s| && StartsMarkup(s[i..]) && !StartsComment(s[i..])
    requires i <= end <= |s| && Take(s[i..], Only('>')) == Scan(s[i..end], s[end..])
    ensures var j := if end == |s| then |s| else end + 1;
      Output(base, s[i..]) == s[i..j] + Output(base, s[j..])
  {
    if end < |s| {
      assert s[i..end] + ">" == s[i..end + 1] by { assert s[end..][0] == s[end]; }
      assert s[end..][1..] == s[end + 1..];
    }
    var n := NextMarkup(s[i..]);
    assert Next(s[i..]) == n;
    CopiedToken(base, s[i..], n.token, n.rest);
  }

  lemma TagStarts(s: string, i: nat)
    requires i + 1 < |s| && s[i] == '<' && IsLetter(s[i + 1])
    ensures Take(s[i + 1..], TagNameEnd).token != ""
    ensures Next(s[i..]) == NextTag(s[i..])
  {
    hide NextTag, NextMarkup, NextComment, Take;
    var n := Take(s[i + 1..], TagNameEnd);
    assert s[i + 1..][0] == s[i + 1] && !In(s[i + 1], TagNameEnd);
    TakeSome(s[i + 1..], TagNameEnd);
    assert "<!--"[1] == '!' && s[i..][1] == s[i + 1];
  }

  lemma TagMode(s: string, i: nat, t: HtmlTag, n: Scan<Token>)
    requires LaidOut(s, i, t, n)
    ensures ModeAfter(n.token) ==
      if t.name == "plaintext" then PlainText
      else if IsRawText(t.name) && !t.selfClosing then RawText(t.name)
      else Data
  {
  }

  /** What follows a start tag, by what the tag announces. */
  lemma AfterTag(base: Base, s: string, mode: Mode)
    ensures mode == Data ==> OutputIn(base, s, mode) == Output(base, s)
    ensures mode == PlainText ==> OutputIn(base, s, mode) == s
    ensures mode.RawText? ==>
      var n := EndOf(s, mode.tag);
      OutputIn(base, s, mode) == (if mode.tag == "style" then base.css(s[..n]) else s[..n]) + Output(base, s[n..])
  {
    match mode {
      case Data =>
      case PlainText =>
        PrintRewritten(base, Rest(s), []);
        assert [Rest(s)] + [] == [Rest(s)] && s + "" == s;
      case RawText(tag) =>
        var n := EndOf(s, tag);
        PrintRewritten(base, RawBody(tag, s[..n]), Tokenize(s[n..], Data));
    }
  }

  /** A '<' that opens nothing is copied. */
  lemma LoneLt(base: Base, s: string, i: nat)
    requires i < |s| && s[i] == '<' && !StartsMarkup(s[i..]) && !(i + 1 < |s| && IsLetter(s[i + 1]))
    ensures Output(base, s[i..]) == "<" + Output(base, s[i + 1..])
  {
    assert "<!--"[1] == '!';
    assert s[i..][1..] == s[i + 1..];
    CopiedToken(base, s[i..], Chars("<"), s[i + 1..]);
  }

  lemma SpansInBounds(s: string, i: nat, t: HtmlTag, n: Scan<Token>)
    requires LaidOut(s, i, t, n)
    ensures forall h | h in t.attrs :: h.valStart <= h.valEnd <= |s|
    ensures t.end <= |s| && s[t.end..] == n.rest
  {
    hide SpanSaysRefresh, SpanSaysStylesheet, SaysRefresh, SaysStylesheet, Spans, Named, ToLower;
    hide Print, Closing, WellFormed;
    ContextFromSpans(s, n.token.tail, i + 1 + |n.token.name|);
  }

  /** With the context the queries compute, the write loop prints the edited token. */
  lemma TagWritten(base: Base, s: string, i: nat, t: HtmlTag, n: Scan<Token>, c: Context)
    requires LaidOut(s, i, t, n)
    requires forall h | h in t.attrs :: h.valStart <= h.valEnd <= |s|
    requires c.tag == t.name
    requires c.refresh <==> t.name == "meta" && exists h | h in t.attrs :: SpanSaysRefresh(s, h)
    requires c.dropIntegrity <==> t.name == "link" && exists h | h in t.attrs :: SpanSaysStylesheet(s, h)
    ensures InOrder(t.attrs, t.start, t.end) && t.end <= |s|
    ensures WriteFrom(base, c, s, t.attrs, t.start, t.end) == PrintToken(RewriteToken(base, n.token))
  {
    hide SpanSaysRefresh, SpanSaysStylesheet, SaysRefresh, SaysStylesheet, Spans, Named, ToLower;
    hide WriteFrom, InOrder, Apply, Print, Closing, WellFormed, RewriteToken, PrintToken, ContextOf;
    hide EqualFold, OnPage, TrimSpace;
    var tok := n.token;
    var p := i + 1 + |tok.name|;
    ContextFromSpans(s, tok.tail, p);
    WriteFromPrints(base, c, s, tok.tail, p, t.start);
    ContextIs(t, tok, s, c);
    RewrittenTagText(base, tok, c);
  }

  lemma ContextIs(t: HtmlTag, tok: Token, s: string, c: Context)
    requires tok.Tag? && t.name == ToLower(tok.name) == c.tag
    requires c.refresh <==> t.name == "meta" && exists a | a in Named(tok.tail) :: SaysRefresh(a)
    requires c.dropIntegrity <==> t.name == "link" && exists a | a in Named(tok.tail) :: SaysStylesheet(a)
    ensures c == ContextOf(ToLower(tok.name), tok.tail)
  {
    hide SaysRefresh, SaysStylesheet, Named, ToLower;
  }

  lemma RewrittenTagText(base: Base, t: Token, c: Context)
    requires t.Tag? && c == ContextOf(ToLower(t.name), t.tail)
    ensures Sensible(EditorFor(base, c))
    ensures PrintToken(RewriteToken(base, t)) == "<" + t.name + Print(Apply(t.tail, EditorFor(base, c)))
  {
    EditorIsSensible(base, c);
  }

  lemma SpanEditCases(base: Base, c: Context, s: string, h: HtmlAttr)
    requires h.valStart <= h.valEnd <= |s|
    ensures Dropped(c, h.name) ==> SpanEdit(base, c, s, h) == Drop
    ensures !Dropped(c, h.name) && !h.hasValue ==> SpanEdit(base, c, s, h) == Keep
  {
  }

  lemma WriteDone(base: Base, c: Context, s: string, cur: nat, end: nat)
    requires InOrder([], cur, end) && end <= |s|
    ensures cur <= end && WriteFrom(base, c, s, [], cur, end) == s[cur..end]
  {
  }

  predicate SpanSaysRefresh(s: string, h: HtmlAttr)
    requires h.valStart <= h.valEnd <= |s|
  {
    && h.name == "http-equiv" && h.hasValue
    && EqualFold(TrimSpace(Unescape(s[h.valStart..h.valEnd])), "refresh")
  }

  predicate SpanSaysStylesheet(s: string, h: HtmlAttr)
    requires h.valStart <= h.valEnd <= |s|
  {
    && h.hasValue
    && var value := ToLower(Unescape(s[h.valStart..h.valEnd]));
       || (h.name == "rel" && "stylesheet" in Fields(value))
       || (h.name == "as" && TrimSpace(value) == "style")
  }

  lemma RecordsContext(s: string, h: HtmlAttr, a: Attr)
    requires Records(s, h, a)
    ensures SpanSaysRefresh(s, h) <==> SaysRefresh(a)
    ensures SpanSaysStylesheet(s, h) <==> SaysStylesheet(a)
  {
    hide Fields, TrimSpace, Unescape, ToLower;
  }

  /** What the spans say about a tag is what its syntax tree says. */
  lemma ContextFromSpans(s: string, t: Tail, p: nat)
    requires OnPage(s, Print(t), p)
    ensures forall h | h in Spans(t, p) :: h.valStart <= h.valEnd <= |s|
    ensures (exists h | h in Spans(t, p) :: SpanSaysRefresh(s, h)) <==> (exists a | a in Named(t) :: SaysRefresh(a))
    ensures (exists h | h in Spans(t, p) :: SpanSaysStylesheet(s, h)) <==>
      (exists a | a in Named(t) :: SaysStylesheet(a))
  {
    SpansRecord(s, t, p);
    ContextOfRecords(s, Spans(t, p), Named(t));
  }

  lemma ContextOfRecords(s: string, hs: seq<HtmlAttr>, ats: seq<Attr>)
    requires |hs| == |ats| && forall k | 0 <= k < |hs| :: Records(s, hs[k], ats[k])
    ensures forall h | h in hs :: h.valStart <= h.valEnd <= |s|
    ensures (exists h | h in hs :: SpanSaysRefresh(s, h)) <==> (exists a | a in ats :: SaysRefresh(a))
    ensures (exists h | h in hs :: SpanSaysStylesheet(s, h)) <==> (exists a | a in ats :: SaysStylesheet(a))
  {
    hide SpanSaysRefresh, SaysRefresh, SpanSaysStylesheet, SaysStylesheet, Records;
    forall k | 0 <= k < |hs|
      ensures hs[k].valStart <= hs[k].valEnd <= |s|
      ensures SpanSaysRefresh(s, hs[k]) <==> SaysRefresh(ats[k])
      ensures SpanSaysStylesheet(s, hs[k]) <==> SaysStylesheet(ats[k])
    {
      RecordsBounds(s, hs[k], ats[k]);
      RecordsContext(s, hs[k], ats[k]);
    }
    SomeRefresh(s, hs, ats);
    SomeStylesheet(s, hs, ats);
  }

  lemma RecordsBounds(s: string, h: HtmlAttr, a: Attr)
    requires Records(s, h, a)
    ensures h.valStart <= h.valEnd <= |s|
  {
  }

  lemma SomeRefresh(s: string, hs: seq<HtmlAttr>, ats: seq<Attr>)
    requires |hs| == |ats| && forall k | 0 <= k < |hs| :: hs[k].valStart <= hs[k].valEnd <= |s|
    requires forall k | 0 <= k < |hs| :: SpanSaysRefresh(s, hs[k]) <==> SaysRefresh(ats[k])
    ensures (exists h | h in hs :: SpanSaysRefresh(s, h)) <==> (exists a | a in ats :: SaysRefresh(a))
  {
    hide SpanSaysRefresh, SaysRefresh;
    if h :| h in hs && SpanSaysRefresh(s, h) {
      var k :| 0 <= k < |hs| && hs[k] == h;
      assert ats[k] in ats;
    }
    if a :| a in ats && SaysRefresh(a) {
      var k :| 0 <= k < |ats| && ats[k] == a;
      assert hs[k] in hs;
    }
  }

  lemma SomeStylesheet(s: string, hs: seq<HtmlAttr>, ats: seq<Attr>)
    requires |hs| == |ats| && forall k | 0 <= k < |hs| :: hs[k].valStart <= hs[k].valEnd <= |s|
    requires forall k | 0 <= k < |hs| :: SpanSaysStylesheet(s, hs[k]) <==> SaysStylesheet(ats[k])
    ensures (exists h | h in hs :: SpanSaysStylesheet(s, h)) <==> (exists a | a in ats :: SaysStylesheet(a))
  {
    hide SpanSaysStylesheet, SaysStylesheet;
    if h :| h in hs && SpanSaysStylesheet(s, h) {
      var k :| 0 <= k < |hs| && hs[k] == h;
      assert ats[k] in ats;
    }
    if a :| a in ats && SaysStylesheet(a) {
      var k :| 0 <= k < |ats| && ats[k] == a;
      assert hs[k] in hs;
    }
  }

  /** Tag `t` has the spans of token `n.token`, which stands at `i` and is followed by
      `n.rest`. */
  predicate LaidOut(s: string, i: nat, t: HtmlTag, n: Scan<Token>) {
    && n.token.Tag?
    && var p := i + 1 + |n.token.name|;
    && t.name == ToLower(n.token.name) && t.start == i
    && t.attrs == Spans(n.token.tail, p) && t.end == p + |Print(n.token.tail)|
    && t.selfClosing == (Closing(n.token.tail) == SlashGt)
    && OnPage(s, Print(n.token.tail), p) && s[i..p] == "<" + n.token.name
    && s[t.end..] == n.rest && WellFormed(n.token.tail)
  }

  lemma TagLayout(s: string, i: nat)
    requires i < |s| && s[i] == '<'
    ensures LaidOut(s, i, TagAt(s, i), NextTag(s[i..]))
  {
    hide Parse, Print, Spans, Closing, LaidOut, Take, Find;
    assert s[i..][1..] == s[i + 1..];
    LayoutParts(s, i, Take(s[i + 1..], TagNameEnd));
  }

  lemma LayoutParts(s: string, i: nat, name: Scan<string>)
    requires i < |s| && s[i] == '<' && s[i + 1..] == name.token + name.rest
    ensures var r := Parse(name.rest); var p := i + 1 + |name.token|;
      LaidOut(s, i,
              HtmlTag(ToLower(name.token), i, p + |Print(r.token)|, Spans(r.token, p), Closing(r.token) == SlashGt),
              Scan(Tag(name.token, r.token), r.rest))
  {
    ParseCovers(name.rest);
    ParseIsWellFormed(name.rest);
    hide Parse, Print, WellFormed, Spans, Closing;
    var r := Parse(name.rest);
    Layout(s, i, name.token, Print(r.token), r.rest);
  }

  lemma Layout(s: string, i: nat, name: string, tail: string, rest: string)
    requires i < |s| && s[i] == '<' && s[i + 1..] == name + (tail + rest)
    ensures var p := i + 1 + |name|;
      OnPage(s, tail, p) && s[i..p] == "<" + name && s[p + |tail|..] == rest
  {
    assert s == s[..i] + ("<" + (name + (tail + rest)));
  }
}
