/** The scanner as the program runs it: index loops over the source that record byte
    spans, and an output buffer into which unchanged bytes are spliced. */
module Scanner {
  import opened Text
  import opened CharRefs
  import opened StartTag

  /** An attribute's byte spans in the source. */
  datatype HtmlAttr = HtmlAttr(
    name: string, start: nat, end: nat, nameEnd: nat,
    valStart: nat, valEnd: nat, quote: char, hasValue: bool)

  datatype HtmlTag = HtmlTag(name: string, start: nat, end: nat, attrs: seq<HtmlAttr>, selfClosing: bool)

  // --- the spans of a syntax tree ---

  /** Where the raw value starts, from the start of the attribute. */
  function ValueOffset(a: Attr): nat {
    match a.value
    case NoValue => |a.name|
    case Unquoted(b, s, _) => |a.name| + |b| + 1 + |s|
    case Quoted(b, s, _, _, _) => |a.name| + |b| + 2 + |s|
  }

  function RawText(v: Value): string { if v.NoValue? then "" else v.raw }

  /** The spans of attribute `a` written at position `p`. */
  function SpanOf(a: Attr, p: nat): HtmlAttr {
    HtmlAttr(ToLower(a.name), p, p + |AttrText(a)|, p + |a.name|,
             p + ValueOffset(a), p + ValueOffset(a) + |RawText(a.value)|,
             if a.value.Quoted? then a.value.quote else NO_QUOTE, !a.value.NoValue?)
  }

  /** The spans of the named attributes of a tag whose tail starts at `p`. */
  function Spans(t: Tail, p: nat): seq<HtmlAttr> {
    match t
    case Done(_) => []
    case Gap(_, r) => Spans(r, p + 1)
    case Item(a, r) => (if a.name != "" then [SpanOf(a, p)] else []) + Spans(r, p + |AttrText(a)|)
  }

  function TagAt(s: string, i: nat): HtmlTag
    requires i < |s|
  {
    var name := Take(s[i + 1..], TagNameEnd);
    var tail := Parse(name.rest).token;
    var p := i + 1 + |name.token|;
    HtmlTag(ToLower(name.token), i, p + |Print(tail)|, Spans(tail, p), Closing(tail) == SlashGt)
  }

  // --- parseStartTag ---

  /** The operand at `q`; `b` and `w` are the white space already passed. */
  method ParseOperandAt(s: string, q: nat, ghost b: string, ghost w: string) returns (a: HtmlAttr)
    requires q <= |s|
    ensures var v := ParseOperand(b, w, s[q..]).token;
      && !v.NoValue? && v.before == b && v.after == w
      && a.valStart == q + (if v.Quoted? then 1 else 0) && a.valEnd == a.valStart + |v.raw|
      && a.quote == (if v.Quoted? then v.quote else NO_QUOTE) && a.hasValue
      && a.end <= |s| && s[a.end..] == ParseOperand(b, w, s[q..]).rest
  {
    hide Take;
    if q < |s| && IsQuote(s[q]) {
      assert s[q..][1..] == s[q + 1..];
      var e := ScanTo(s, q + 1, Only(s[q]));
      var end := if e < |s| then e + 1 else e;
      assert e < |s| ==> s[e..][1..] == s[e + 1..];
      a := HtmlAttr("", 0, end, 0, q + 1, e, s[q], true);
    } else {
      var e := ScanTo(s, q, UnquotedEnd);
      a := HtmlAttr("", 0, e, 0, q, e, NO_QUOTE, true);
    }
  }

  lemma EqualsAt(s: string, j: nat, k: nat, q: nat)
    requires j <= k < q <= |s| && s[k] == '='
    requires Take(s[j..], NonSpace) == Scan(s[j..k], s[k..])
    requires Take(s[k + 1..], NonSpace) == Scan(s[k + 1..q], s[q..])
    ensures ParseValue(s[j..]) == ParseOperand(s[j..k], s[k + 1..q], s[q..])
  {
    hide Take, ParseOperand;
    assert s[k..][1..] == s[k + 1..];
  }

  lemma NoEqualsAt(s: string, j: nat, k: nat)
    requires j <= k <= |s| && (k < |s| ==> s[k] != '=')
    requires Take(s[j..], NonSpace) == Scan(s[j..k], s[k..])
    ensures ParseValue(s[j..]) == Scan(NoValue, s[j..])
  {
    hide Take, ParseOperand;
  }

  lemma ValueLength(u: string)
    ensures |ValueText(ParseValue(u).token)| == |u| - |ParseValue(u).rest|
  {
    hide ParseValue, ValueText;
    ValueCovers(u);
  }

  method ParseValueAt(s: string, j: nat) returns (a: HtmlAttr)
    requires j <= |s|
    ensures var v := ParseValue(s[j..]).token;
      && a.valStart == j + ValueOffset(Attr("", v)) && a.valEnd == a.valStart + |RawText(v)|
      && a.quote == (if v.Quoted? then v.quote else NO_QUOTE) && a.hasValue == !v.NoValue?
      && a.end == j + |ValueText(v)| <= |s| && s[a.end..] == ParseValue(s[j..]).rest
  {
    hide Take, ParseValue, ParseOperand, ValueText;
    ValueLength(s[j..]);
    var k := ScanTo(s, j, NonSpace);
    if k < |s| && s[k] == '=' {
      var q := ScanTo(s, k + 1, NonSpace);
      EqualsAt(s, j, k, q);
      a := ParseOperandAt(s, q, s[j..k], s[k + 1..q]);
    } else {
      NoEqualsAt(s, j, k);
      a := HtmlAttr("", 0, j, 0, j, j, NO_QUOTE, false);
    }
  }

  lemma AttrAt(s: string, j: nat, n: nat)
    requires j <= n <= |s| && Take(s[j..], AttrNameEnd) == Scan(s[j..n], s[n..])
    ensures ParseAttr(s[j..]) == Scan(Attr(s[j..n], ParseValue(s[n..]).token), ParseValue(s[n..]).rest)
  {
    hide Take, ParseValue;
  }

  method ParseAttrAt(s: string, j: nat) returns (a: HtmlAttr)
    requires j < |s| && !In(s[j], TagNameEnd)
    ensures a == SpanOf(ParseAttr(s[j..]).token, j)
    ensures j < a.end <= |s| && s[a.end..] == ParseAttr(s[j..]).rest
  {
    hide Take, ParseValue, ParseAttr, ValueText;
    var n := ScanTo(s, j, AttrNameEnd);
    AttrAt(s, j, n);
    AttrFirst(s[j..]);
    a := ParseValueAt(s, n);
    a := a.(name := ToLower(s[j..n]), start := j, nameEnd := n);
  }

  /** The tag whose tail starts at `p` has been recorded up to `j`. */
  ghost predicate Scanned(s: string, p: nat, j: nat, attrs: seq<HtmlAttr>)
    requires p <= j <= |s|
  {
    var all, rest := Parse(s[p..]).token, Parse(s[j..]).token;
    && attrs + Spans(rest, j) == Spans(all, p)
    && j + |Print(rest)| == p + |Print(all)|
    && Closing(rest) == Closing(all)
  }

  lemma ParseGapAt(s: string, j: nat)
    requires j < |s| && (IsSpace(s[j]) || s[j] == '/')
    requires s[j] == '/' ==> j + 1 == |s| || s[j + 1] != '>'
    ensures Parse(s[j..]).token == Gap(s[j], Parse(s[j + 1..]).token)
  {
    assert s[j..][1..] == s[j + 1..];
  }

  lemma ScannedGap(s: string, p: nat, j: nat, attrs: seq<HtmlAttr>)
    requires p <= j < |s| && (IsSpace(s[j]) || s[j] == '/')
    requires s[j] == '/' ==> j + 1 == |s| || s[j + 1] != '>'
    requires Scanned(s, p, j, attrs)
    ensures Scanned(s, p, j + 1, attrs)
  {
    ParseGapAt(s, j);
    hide Parse;
  }

  lemma ParseItemAt(s: string, j: nat, a: Scan<Attr>)
    requires j < |s| && !In(s[j], TagNameEnd) && ParseAttr(s[j..]) == a
    ensures Parse(s[j..]).token == Item(a.token, Parse(a.rest).token)
  {
  }

  lemma ScannedItem(s: string, p: nat, j: nat, attrs: seq<HtmlAttr>, a: HtmlAttr)
    requires p <= j < a.end <= |s| && !In(s[j], TagNameEnd)
    requires Scanned(s, p, j, attrs)
    requires a == SpanOf(ParseAttr(s[j..]).token, j) && s[a.end..] == ParseAttr(s[j..]).rest
    ensures Scanned(s, p, a.end, if a.name != "" then attrs + [a] else attrs)
  {
    var attr := ParseAttr(s[j..]);
    ParseItemAt(s, j, attr);
    SpansItem(attr.token, Parse(attr.rest).token, j);
    hide Parse, ParseAttr, Spans, AttrText;
    AppendSpan(attrs, a, Spans(Parse(s[a.end..]).token, a.end));
  }

  lemma SpansItem(a: Attr, r: Tail, j: nat)
    ensures var h := SpanOf(a, j);
      && Spans(Item(a, r), j) == (if h.name != "" then [h] else []) + Spans(r, h.end)
      && j + |Print(Item(a, r))| == h.end + |Print(r)|
  {
  }

  lemma AppendSpan(attrs: seq<HtmlAttr>, a: HtmlAttr, rest: seq<HtmlAttr>)
    ensures attrs + ((if a.name != "" then [a] else []) + rest) == (if a.name != "" then attrs + [a] else attrs) + rest
  {
  }

  lemma ScannedEnd(s: string, p: nat, j: nat, attrs: seq<HtmlAttr>, c: Close)
    requires p <= j <= |s| && Scanned(s, p, j, attrs)
    requires Parse(s[j..]).token == Done(c)
    ensures var all := Parse(s[p..]).token;
      attrs == Spans(all, p) && Closing(all) == c && p + |Print(all)| == j + |CloseText(c)|
  {
    hide Parse;
    assert attrs + [] == attrs;
  }

  method ParseStartTag(s: string, i: nat) returns (t: HtmlTag, ok: bool)
    requires i < |s|
    ensures ok <==> Take(s[i + 1..], TagNameEnd).token != ""
    ensures ok ==> t == TagAt(s, i)
  {
    hide Take, Parse, Spans, Print, Closing, ParseAttr, SpanOf, Scanned;
    t := HtmlTag("", i, i, [], false);
    var j := ScanTo(s, i + 1, TagNameEnd);
    if j == i + 1 {
      return t, false;
    }
    ok := true;
    t := t.(name := ToLower(s[i + 1..j]));
    ghost var p := j;
    ScannedStart(s, p);
    while true
      invariant p <= j <= |s| && Scanned(s, p, j, t.attrs)
      invariant t.name == ToLower(s[i + 1..p]) && t.start == i && !t.selfClosing
      decreases |s| - j
    {
      while j < |s| && IsSpace(s[j])
        invariant p <= j <= |s| && Scanned(s, p, j, t.attrs)
      {
        ScannedGap(s, p, j, t.attrs);
        j := j + 1;
      }
      if j >= |s| {
        ParseEnd(s, j);
        ScannedEnd(s, p, j, t.attrs, Eof);
        t := t.(end := |s|);
        return;
      }
      if s[j] == '>' {
        ParseEnd(s, j);
        ScannedEnd(s, p, j, t.attrs, Gt);
        t := t.(end := j + 1);
        return;
      }
      if s[j] == '/' {
        if j + 1 < |s| && s[j + 1] == '>' {
          ParseEnd(s, j);
          ScannedEnd(s, p, j, t.attrs, SlashGt);
          t := t.(selfClosing := true, end := j + 2);
          return;
        }
        ScannedGap(s, p, j, t.attrs);
        j := j + 1;
        continue;
      }
      var a := ParseAttrAt(s, j);
      ScannedItem(s, p, j, t.attrs, a);
      if a.name != "" {
        t := t.(attrs := t.attrs + [a]);
      }
      j := a.end;
    }
  }

  lemma ScannedStart(s: string, p: nat)
    requires p <= |s|
    ensures Scanned(s, p, p, [])
  {
  }

  lemma ParseEnd(s: string, j: nat)
    requires j <= |s|
    ensures j == |s| ==> Parse(s[j..]).token == Done(Eof)
    ensures j < |s| && s[j] == '>' ==> Parse(s[j..]).token == Done(Gt)
    ensures j + 1 < |s| && s[j] == '/' && s[j + 1] == '>' ==> Parse(s[j..]).token == Done(SlashGt)
  {
  }
}
