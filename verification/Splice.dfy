/** Splicing by byte spans writes the printed form of the edited tree. */
module Splice {
  import opened Text
  import opened CharRefs
  import opened StartTag
  import opened TagEdit
  import opened Rules
  import opened Scanner

  /** The text `t` prints to stands in `s` at position `p`. */
  predicate OnPage(s: string, t: string, p: nat) { p + |t| <= |s| && s[p..p + |t|] == t }

  lemma OnPageParts(s: string, a: string, b: string, p: nat)
    requires OnPage(s, a + b, p)
    ensures OnPage(s, a, p) && OnPage(s, b, p + |a|)
  {
    var w := s[p..p + |a + b|];
    assert s[p..p + |a|] == w[..|a|] == a;
    assert s[p + |a|..p + |a| + |b|] == w[|a|..] == b;
  }

  // --- the recorded spans ---

  /** Span `h` of document `s` records attribute `a`. */
  predicate Records(s: string, h: HtmlAttr, a: Attr) {
    && h.name == ToLower(a.name) && h.hasValue == !a.value.NoValue?
    && h.start <= h.nameEnd <= h.valStart <= h.valEnd <= h.end <= |s|
    && s[h.valStart..h.valEnd] == RawText(a.value)
  }

  /** Spans are ordered, disjoint and inside the tag. */
  predicate InOrder(hs: seq<HtmlAttr>, cur: nat, end: nat) {
    if hs == [] then cur <= end
    else
      var h := hs[0];
      && cur <= h.start <= h.nameEnd <= h.valStart <= h.valEnd <= h.end
      && InOrder(hs[1..], h.end, end)
  }

  lemma SpanText(s: string, a: Attr, p: nat)
    requires OnPage(s, AttrText(a), p)
    ensures Records(s, SpanOf(a, p), a)
    ensures OnPage(s, a.name, p)
  {
    hide OnPage;
    OnPageParts(s, a.name, ValueText(a.value), p);
    match a.value {
      case NoValue => SpanNoValue(s, a, p);
      case Unquoted(b, w, raw) =>
        OnPageParts(s, b + "=" + w, raw, p + |a.name|);
        SpanUnquoted(s, a, p);
      case Quoted(b, w, q, raw, closed) =>
        var lead := b + "=" + w + [q];
        assert ValueText(a.value) == lead + raw + if closed then [q] else "";
        OnPageParts(s, lead + raw, if closed then [q] else "", p + |a.name|);
        OnPageParts(s, lead, raw, p + |a.name|);
        SpanQuoted(s, a, p);
    }
  }

  lemma SpanNoValue(s: string, a: Attr, p: nat)
    requires a.value.NoValue? && OnPage(s, AttrText(a), p)
    ensures Records(s, SpanOf(a, p), a)
  {
  }

  lemma SpanUnquoted(s: string, a: Attr, p: nat)
    requires a.value.Unquoted? && OnPage(s, AttrText(a), p)
    requires OnPage(s, a.value.raw, p + ValueOffset(a))
    ensures Records(s, SpanOf(a, p), a)
  {
  }

  lemma SpanQuoted(s: string, a: Attr, p: nat)
    requires a.value.Quoted? && OnPage(s, AttrText(a), p)
    requires OnPage(s, a.value.raw, p + ValueOffset(a))
    ensures Records(s, SpanOf(a, p), a)
  {
  }

  lemma {:induction false} SpansRecord(s: string, t: Tail, p: nat)
    requires OnPage(s, Print(t), p)
    ensures |Spans(t, p)| == |Named(t)|
    ensures forall k | 0 <= k < |Named(t)| :: Records(s, Spans(t, p)[k], Named(t)[k])
  {
    hide OnPage, Records, AttrText, SpanOf;
    match t {
      case Done(_) =>
      case Gap(c, r) =>
        OnPageParts(s, [c], Print(r), p);
        SpansRecord(s, r, p + 1);
      case Item(a, r) =>
        OnPageParts(s, AttrText(a), Print(r), p);
        SpanText(s, a, p);
        SpansRecord(s, r, p + |AttrText(a)|);
    }
  }

  lemma InOrderWeaken(hs: seq<HtmlAttr>, cur: nat, cur': nat, end: nat)
    requires InOrder(hs, cur', end) && cur <= cur'
    ensures InOrder(hs, cur, end)
  {
  }

  /** The spans `parseStartTag` records never overlap, leave the tag or run backwards. */
  lemma {:induction false} SpansInOrder(t: Tail, p: nat)
    ensures InOrder(Spans(t, p), p, p + |Print(t)|)
  {
    hide AttrText, ValueOffset, InOrder, SpanOf;
    match t {
      case Done(c) => NoSpans(p, p + |Print(t)|);
      case Gap(_, r) =>
        SpansInOrder(r, p + 1);
        InOrderWeaken(Spans(r, p + 1), p, p + 1, p + |Print(t)|);
      case Item(a, r) =>
        var h := SpanOf(a, p);
        SpansItem(a, r, p);
        SpanBounds(a, p);
        SpansInOrder(r, h.end);
        if h.name == "" {
          assert [] + Spans(r, h.end) == Spans(r, h.end);
          InOrderWeaken(Spans(r, h.end), p, h.end, p + |Print(t)|);
        } else {
          SpanThen(h, Spans(r, h.end), p, p + |Print(t)|);
        }
    }
  }

  lemma NoSpans(cur: nat, end: nat)
    ensures InOrder([], cur, end) <==> cur <= end
  {
  }

  lemma SpanThen(h: HtmlAttr, hs: seq<HtmlAttr>, cur: nat, end: nat)
    requires cur <= h.start <= h.nameEnd <= h.valStart <= h.valEnd <= h.end && InOrder(hs, h.end, end)
    ensures InOrder([h] + hs, cur, end)
  {
    assert ([h] + hs)[1..] == hs;
  }

  lemma SpanBounds(a: Attr, p: nat)
    ensures var h := SpanOf(a, p); p == h.start <= h.nameEnd <= h.valStart <= h.valEnd <= h.end
  {
  }

  // --- what the write loop emits ---

  function SpanEdit(base: Base, c: Context, s: string, h: HtmlAttr): Edit
    requires h.valStart <= h.valEnd <= |s|
  {
    if Dropped(c, h.name) then Drop
    else if !h.hasValue then Keep
    else
      var val := Unescape(s[h.valStart..h.valEnd]);
      match Rewritten(base, c, h.name, val)
      case Some(next) => if next == val then Keep else Change(next)
      case None => Keep
  }

  lemma SpanEditIs(base: Base, c: Context, s: string, h: HtmlAttr, a: Attr)
    requires Records(s, h, a) && a.name != ""
    ensures SpanEdit(base, c, s, h) == EditOf(base, c, a)
  {
  }

  /** The rest of a tag, written from `cur` on. */
  function WriteFrom(base: Base, c: Context, s: string, hs: seq<HtmlAttr>, cur: nat, end: nat): string
    requires InOrder(hs, cur, end) && end <= |s|
    decreases |hs|
  {
    if hs == [] then s[cur..end]
    else
      var h := hs[0];
      InOrderBound(hs[1..], h.end, end);
      match SpanEdit(base, c, s, h)
      case Keep => InOrderWeaken(hs[1..], cur, h.end, end); WriteFrom(base, c, s, hs[1..], cur, end)
      case Drop => s[cur..h.start] + WriteFrom(base, c, s, hs[1..], h.end, end)
      case Change(v) =>
        if h.quote == NO_QUOTE then
          s[cur..h.start] + s[h.start..h.nameEnd] + "=\"" + EscapeAttrValue(v, '"') + "\""
          + WriteFrom(base, c, s, hs[1..], h.end, end)
        else
          InOrderWeaken(hs[1..], h.valEnd, h.end, end);
          s[cur..h.valStart] + EscapeAttrValue(v, h.quote) + WriteFrom(base, c, s, hs[1..], h.valEnd, end)
  }

  lemma {:induction false} InOrderBound(hs: seq<HtmlAttr>, cur: nat, end: nat)
    requires InOrder(hs, cur, end)
    ensures cur <= end
    decreases |hs|
  {
    if hs != [] {
      InOrderBound(hs[1..], hs[0].end, end);
    }
  }

  lemma CopyThrough(s: string, cur: nat, p: nat, x: string, y: string)
    requires cur <= p && OnPage(s, x, p)
    ensures s[cur..p + |x|] + y == s[cur..p] + (x + y)
  {
    assert s[cur..p + |x|] == s[cur..p] + s[p..p + |x|];
  }

  lemma WriteUnquoted(s: string, cur: nat, p: nat, a: Attr, v: string, y: string)
    requires cur <= p && OnPage(s, AttrText(a), p) && a.value.Unquoted?
    ensures var h := SpanOf(a, p);
      h.nameEnd <= |s| &&
      s[cur..h.start] + s[h.start..h.nameEnd] + "=\"" + EscapeAttrValue(v, '"') + "\"" + (s[h.end..h.end] + y)
        == s[cur..p] + (AttrText(Splice(a, v)) + y)
  {
    hide EscapeAttrValue;
    SpanText(s, a, p);
    var e := EscapeAttrValue(v, '"');
    assert AttrText(Splice(a, v)) == a.name + ("=\"" + e + "\"");
    JoinParts(s[cur..p], a.name, "=\"", e, "\"", y);
  }

  lemma JoinParts(a: string, b: string, c: string, d: string, e: string, y: string)
    ensures a + b + c + d + e + ("" + y) == a + ((b + (c + d + e)) + y)
  {
  }

  lemma WriteQuoted(s: string, cur: nat, p: nat, a: Attr, v: string, y: string)
    requires cur <= p && OnPage(s, AttrText(a), p) && a.value.Quoted?
    ensures var h := SpanOf(a, p);
      p <= h.valStart <= h.valEnd <= h.end <= |s| &&
      s[cur..h.valStart] + EscapeAttrValue(v, h.quote) + (s[h.valEnd..h.end] + y)
        == s[cur..p] + (AttrText(Splice(a, v)) + y)
  {
    hide EscapeAttrValue, OnPage;
    var q, e := a.value.quote, EscapeAttrValue(v, a.value.quote);
    var lead := a.name + (a.value.before + "=" + a.value.after + [q]);
    var close := if a.value.closed then [q] else "";
    QuotedText(a.name, a.value.before, a.value.after, [q], a.value.raw, close);
    QuotedText(a.name, a.value.before, a.value.after, [q], e, close);
    assert AttrText(Splice(a, v)) == lead + e + close;
    OnPageParts(s, lead + a.value.raw, close, p);
    OnPageParts(s, lead, a.value.raw, p);
    CutsAt(s, cur, p, lead, p + |lead + a.value.raw|, close);
    MiddleFirst(s[cur..p], lead, e, close, y);
  }

  lemma CutsAt(s: string, cur: nat, p: nat, lead: string, q: nat, close: string)
    requires cur <= p && OnPage(s, lead, p) && OnPage(s, close, q)
    ensures s[cur..p + |lead|] == s[cur..p] + lead && s[q..q + |close|] == close
  {
  }

  lemma QuotedText(n: string, b: string, w: string, q: string, raw: string, close: string)
    ensures n + (b + "=" + w + q + raw + close) == n + (b + "=" + w + q) + raw + close
  {
  }

  lemma MiddleFirst(a: string, b: string, c: string, d: string, e: string)
    ensures a + b + c + (d + e) == a + ((b + c + d) + e)
  {
  }

  /** Where the next copy starts after an attribute. */
  function Resume(h: HtmlAttr, edit: Edit, cur: nat): nat {
    match edit
    case Keep => cur
    case Drop => h.end
    case Change(_) => if h.quote == NO_QUOTE then h.end else h.valEnd
  }

  /** What is written for an attribute, up to where the next copy starts. */
  function Emitted(s: string, h: HtmlAttr, edit: Edit, cur: nat): string
    requires cur <= h.start <= h.nameEnd <= h.valStart <= |s|
  {
    match edit
    case Keep => ""
    case Drop => s[cur..h.start]
    case Change(v) =>
      if h.quote == NO_QUOTE then
        s[cur..h.start] + s[h.start..h.nameEnd] + "=\"" + EscapeAttrValue(v, '"') + "\""
      else s[cur..h.valStart] + EscapeAttrValue(v, h.quote)
  }

  lemma WriteStep(base: Base, c: Context, s: string, h: HtmlAttr, hs: seq<HtmlAttr>, cur: nat, end: nat)
    requires InOrder([h] + hs, cur, end) && end <= |s|
    ensures InOrder(hs, h.end, end) && h.end <= |s| && cur <= h.start <= h.nameEnd <= h.valStart <= h.valEnd
    ensures var edit := SpanEdit(base, c, s, h);
      && InOrder(hs, Resume(h, edit, cur), end)
      && WriteFrom(base, c, s, [h] + hs, cur, end)
           == Emitted(s, h, edit, cur) + WriteFrom(base, c, s, hs, Resume(h, edit, cur), end)
  {
    hide Unescape, Rewritten, EscapeAttrValue;
    assert ([h] + hs)[1..] == hs;
    InOrderBound(hs, h.end, end);
    InOrderWeaken(hs, cur, h.end, end);
    InOrderWeaken(hs, h.valEnd, h.end, end);
    assert forall x: string :: "" + x == x;
  }

  /** One attribute: what is emitted, and what is still to be copied, make up its edited
      form. */
  lemma EmitItem(s: string, a: Attr, edit: Edit, p: nat, cur: nat, y: string)
    requires OnPage(s, AttrText(a), p) && cur <= p && (a.value.Quoted? ==> IsQuote(a.value.quote))
    requires edit.Change? ==> !a.value.NoValue?
    ensures var h := SpanOf(a, p);
      && cur <= h.start <= h.nameEnd <= h.valStart <= h.valEnd <= h.end <= |s|
      && Emitted(s, h, edit, cur) + (s[Resume(h, edit, cur)..h.end] + y)
           == s[cur..p]
              + (match edit case Keep => AttrText(a) + y case Drop => y case Change(v) => AttrText(Splice(a, v)) + y)
  {
    hide AttrText, ValueText, EscapeAttrValue, Splice;
    var h := SpanOf(a, p);
    SpanText(s, a, p);
    match edit {
      case Keep =>
        CopyThrough(s, cur, p, AttrText(a), y);
        assert Emitted(s, h, edit, cur) + (s[cur..h.end] + y) == s[cur..h.end] + y;
      case Drop =>
        assert s[h.end..h.end] + y == y;
      case Change(v) =>
        if a.value.Quoted? {
          WriteQuoted(s, cur, p, a, v, y);
        } else {
          WriteUnquoted(s, cur, p, a, v, y);
        }
    }
  }

  lemma PrintEdited(a: Attr, r: Tail, edit: Editor)
    requires Sensible(edit)
    ensures Print(Apply(Item(a, r), edit)) ==
      var y := Print(Apply(r, edit));
      match edit(a) case Keep => AttrText(a) + y case Drop => y case Change(v) => AttrText(Splice(a, v)) + y
  {
  }

  /** The claim below, for one tree, position and copying point. */
  ghost predicate Writes(base: Base, c: Context, s: string, t: Tail, p: nat, cur: nat) {
    && cur <= p <= p + |Print(t)| <= |s| && Sensible(EditorFor(base, c))
    && InOrder(Spans(t, p), cur, p + |Print(t)|)
    && WriteFrom(base, c, s, Spans(t, p), cur, p + |Print(t)|)
         == s[cur..p] + Print(Apply(t, EditorFor(base, c)))
  }

  lemma WritesDone(base: Base, c: Context, s: string, close: Close, p: nat, cur: nat)
    requires cur <= p && OnPage(s, CloseText(close), p) && Sensible(EditorFor(base, c))
    ensures Writes(base, c, s, Done(close), p, cur)
  {
    var end := p + |CloseText(close)|;
    assert s[cur..end] == s[cur..p] + s[p..end];
  }

  lemma WritesGap(base: Base, c: Context, s: string, ch: char, r: Tail, p: nat, cur: nat)
    requires cur <= p && OnPage(s, [ch], p) && Writes(base, c, s, r, p + 1, cur)
    ensures Writes(base, c, s, Gap(ch, r), p, cur)
  {
    CopyThrough(s, cur, p, [ch], Print(Apply(r, EditorFor(base, c))));
  }

  lemma WritesNameless(base: Base, c: Context, s: string, a: Attr, r: Tail, p: nat, cur: nat)
    requires cur <= p && OnPage(s, AttrText(a), p) && a.name == ""
    requires Writes(base, c, s, r, p + |AttrText(a)|, cur)
    ensures Writes(base, c, s, Item(a, r), p, cur)
  {
    hide WriteFrom, InOrder, AttrText, Spans, Print, Apply;
    SpansItem(a, r, p);
    PrintEdited(a, r, EditorFor(base, c));
    assert [] + Spans(r, p + |AttrText(a)|) == Spans(r, p + |AttrText(a)|);
    CopyThrough(s, cur, p, AttrText(a), Print(Apply(r, EditorFor(base, c))));
  }

  lemma WritesNamed(base: Base, c: Context, s: string, a: Attr, r: Tail, p: nat, cur: nat)
    requires cur <= p && OnPage(s, AttrText(a), p) && (a.value.Quoted? ==> IsQuote(a.value.quote))
    requires a.name != ""
    requires Writes(base, c, s, r, p + |AttrText(a)|, Resume(SpanOf(a, p), EditOf(base, c, a), cur))
    requires InOrder(Spans(Item(a, r), p), cur, p + |Print(Item(a, r))|)
    ensures Writes(base, c, s, Item(a, r), p, cur)
  {
    hide EditOf, SpanEdit, Emitted, Resume, WriteFrom, InOrder, AttrText, Spans, Print, Apply, IsQuote, OnPage;
    var h, y := SpanOf(a, p), Print(Apply(r, EditorFor(base, c)));
    SpansItem(a, r, p);
    PrintEdited(a, r, EditorFor(base, c));
    SpanText(s, a, p);
    EmitItem(s, a, EditOf(base, c, a), p, cur, y);
    SpanEditIs(base, c, s, h, a);
    WriteStep(base, c, s, h, Spans(r, h.end), cur, h.end + |Print(r)|);
  }

  /** Splicing by spans, from any point before the tree, copies up to it and then prints
      the edited tree. */
  lemma {:induction false} WriteFromPrints(base: Base, c: Context, s: string, t: Tail, p: nat, cur: nat)
    requires OnPage(s, Print(t), p) && cur <= p && WellFormed(t)
    ensures Writes(base, c, s, t, p, cur)
  {
    hide AttrText, WriteFrom, Apply, Spans, Writes, EditOf, OnPage, CloseText, IsSpace, RawText;
    EditorIsSensible(base, c);
    match t {
      case Done(close) =>
        WritesDone(base, c, s, close, p, cur);
      case Gap(ch, r) =>
        OnPageParts(s, [ch], Print(r), p);
        WriteFromPrints(base, c, s, r, p + 1, cur);
        WritesGap(base, c, s, ch, r, p, cur);
      case Item(a, r) =>
        OnPageParts(s, AttrText(a), Print(r), p);
        SpanText(s, a, p);
        if a.name == "" {
          WriteFromPrints(base, c, s, r, p + |AttrText(a)|, cur);
          WritesNameless(base, c, s, a, r, p, cur);
        } else {
          SpanBounds(a, p);
          SpansInOrder(t, p);
          InOrderWeaken(Spans(t, p), cur, p, p + |Print(t)|);
          WriteFromPrints(base, c, s, r, p + |AttrText(a)|, Resume(SpanOf(a, p), EditOf(base, c, a), cur));
          WritesNamed(base, c, s, a, r, p, cur);
        }
    }
  }
}
