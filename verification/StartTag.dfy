/** The lexical structure of a start tag: what `parseStartTag` recognises after the
    tag name, kept as a syntax tree that prints back to exactly the source text. */
module StartTag {
  import opened Text

  /** An attribute's value as written: the white space around '=', the quotes and
      the raw, still escaped text. A truncated document leaves a quote unclosed. */
  datatype Value =
    | NoValue
    | Unquoted(before: string, after: string, raw: string)
    | Quoted(before: string, after: string, quote: char, raw: string, closed: bool)

  datatype Attr = Attr(name: string, value: Value)

  /** How a tag ends: '>', '/>' or the end of a truncated document. */
  datatype Close = Gt | SlashGt | Eof

  /** The rest of a start tag: skipped white space and stray slashes, attributes,
      and the end. */
  datatype Tail = Done(close: Close) | Gap(c: char, rest: Tail) | Item(attr: Attr, rest: Tail)

  function ValueText(v: Value): string {
    match v
    case NoValue => ""
    case Unquoted(b, a, raw) => b + "=" + a + raw
    case Quoted(b, a, q, raw, closed) => b + "=" + a + [q] + raw + if closed then [q] else ""
  }

  function AttrText(a: Attr): string { a.name + ValueText(a.value) }

  function CloseText(c: Close): string {
    match c case Gt => ">" case SlashGt => "/>" case Eof => ""
  }

  function Print(t: Tail): string {
    match t
    case Done(c) => CloseText(c)
    case Gap(c, r) => [c] + Print(r)
    case Item(a, r) => AttrText(a) + Print(r)
  }

  function Closing(t: Tail): Close {
    match t case Done(c) => c case Gap(_, r) => Closing(r) case Item(_, r) => Closing(r)
  }

  predicate Truncated(t: Tail) { Closing(t) == Eof }

  /** A quoted value up to its closing quote, or an unquoted one up to white space
      or '>'. */
  function ParseOperand(b: string, a: string, u: string): (s: Scan<Value>)
    ensures !s.token.NoValue?
  {
    if u != "" && IsQuote(u[0]) then
      var s := Take(u[1..], Only(u[0]));
      Scan(Quoted(b, a, u[0], s.token, s.rest != ""), if s.rest == "" then "" else s.rest[1..])
    else
      var s := Take(u, UnquotedEnd);
      Scan(Unquoted(b, a, s.token), s.rest)
  }

  /** The value part of an attribute, scanned from just after its name. */
  function ParseValue(u: string): Scan<Value> {
    var b := Take(u, NonSpace);
    if b.rest != "" && b.rest[0] == '=' then
      var a := Take(b.rest[1..], NonSpace);
      ParseOperand(b.token, a.token, a.rest)
    else Scan(NoValue, u)
  }

  function ParseAttr(u: string): Scan<Attr> {
    var n := Take(u, AttrNameEnd);
    var v := ParseValue(n.rest);
    Scan(Attr(n.token, v.token), v.rest)
  }

  lemma OperandCovers(b: string, a: string, u: string)
    ensures var s := ParseOperand(b, a, u);
      ValueText(s.token) + s.rest == b + "=" + a + u
  {
    if u != "" && IsQuote(u[0]) {
      QuotedCovers(b + "=" + a, u);
    } else {
      var s := Take(u, UnquotedEnd);
      Assoc(b + "=" + a, s.token, s.rest);
    }
  }

  lemma QuotedCovers(lead: string, u: string)
    requires u != ""
    ensures var s := Take(u[1..], Only(u[0]));
      var close, rest := if s.rest != "" then [u[0]] else "", if s.rest == "" then "" else s.rest[1..];
      lead + [u[0]] + s.token + close + rest == lead + u
  {
    hide Take;
    var s := Take(u[1..], Only(u[0]));
    var close, rest := if s.rest != "" then [u[0]] else "", if s.rest == "" then "" else s.rest[1..];
    assert close + rest == s.rest;
    assert u == [u[0]] + (s.token + s.rest);
    RegroupFive(lead, [u[0]], s.token, close, rest);
  }

  lemma RegroupFive(a: string, b: string, c: string, d: string, e: string)
    ensures a + b + c + d + e == a + (b + (c + (d + e)))
  {
  }

  lemma Regroup(a: string, b: string, c: string, d: string)
    ensures a + (b + (c + d)) == a + b + c + d
  {
  }

  lemma ValueCovers(u: string)
    ensures var s := ParseValue(u); ValueText(s.token) + s.rest == u
  {
    var b := Take(u, NonSpace);
    if b.rest != "" && b.rest[0] == '=' {
      var a := Take(b.rest[1..], NonSpace);
      assert b.rest == "=" + (a.token + a.rest);
      Regroup(b.token, "=", a.token, a.rest);
      OperandCovers(b.token, a.token, a.rest);
    }
  }

  lemma EqualsIsValue(u: string)
    requires u != "" && u[0] == '='
    ensures var v := ParseValue(u).token; !v.NoValue? && v.before == ""
  {
    TakeIs("", u, NonSpace);
    assert "" + u == u;
  }

  lemma ValueTextSome(v: Value)
    requires !v.NoValue?
    ensures ValueText(v) != ""
  {
  }

  lemma AttrFirst(u: string)
    requires u != "" && !In(u[0], TagNameEnd)
    ensures var a := ParseAttr(u).token;
      && AttrText(a) != "" && (if a.name == "" then "=" else a.name[..1]) == [u[0]]
      && (a.name == "" ==> !a.value.NoValue? && a.value.before == "")
  {
    hide Take, ParseValue, ValueText;
    if In(u[0], AttrNameEnd) {
      TakeIs("", u, AttrNameEnd);
      assert "" + u == u;
      EqualsIsValue(u);
      ValueTextSome(ParseValue(u).token);
    } else {
      TakeSome(u, AttrNameEnd);
    }
  }

  lemma AttrCovers(u: string)
    ensures var s := ParseAttr(u); AttrText(s.token) + s.rest == u
    ensures u != "" && !In(u[0], TagNameEnd) ==> AttrText(ParseAttr(u).token) != ""
  {
    hide Take, ParseValue, ValueText;
    var n := Take(u, AttrNameEnd);
    var v := ParseValue(n.rest);
    ValueCovers(n.rest);
    Assoc(n.token, ValueText(v.token), v.rest);
    if u != "" && !In(u[0], TagNameEnd) {
      AttrFirst(u);
    }
  }

  /** Everything after the tag name: the loop of `parseStartTag`. */
  function Parse(u: string): Scan<Tail>
    decreases |u|
  {
    if u == "" then Scan(Done(Eof), "")
    else if u[0] == '>' then Scan(Done(Gt), u[1..])
    else if u[0] == '/' && |u| > 1 && u[1] == '>' then Scan(Done(SlashGt), u[2..])
    else if IsSpace(u[0]) || u[0] == '/' then
      var r := Parse(u[1..]);
      Scan(Gap(u[0], r.token), r.rest)
    else
      AttrCovers(u);
      var a := ParseAttr(u);
      var r := Parse(a.rest);
      Scan(Item(a.token, r.token), r.rest)
  }

  /** `r` is what is left to print and scan after one step of `Parse`. */
  predicate Covers(r: Scan<Tail>, u: string) {
    Print(r.token) + r.rest == u && (Truncated(r.token) ==> r.rest == "")
  }

  lemma CoversEnd(u: string)
    requires u == "" || u[0] == '>' || (u[0] == '/' && |u| > 1 && u[1] == '>')
    ensures Covers(Parse(u), u)
  {
    hide ParseAttr;
    if u != "" && u[0] == '>' {
      assert u == ">" + u[1..];
    } else if u != "" {
      assert u == "/>" + u[2..];
    }
  }

  lemma CoversGap(u: string, r: Scan<Tail>)
    requires u != "" && Covers(r, u[1..])
    ensures Covers(Scan(Gap(u[0], r.token), r.rest), u)
  {
  }

  lemma CoversItem(a: Scan<Attr>, r: Scan<Tail>, u: string)
    requires AttrText(a.token) + a.rest == u && Covers(r, a.rest)
    ensures Covers(Scan(Item(a.token, r.token), r.rest), u)
  {
    assert AttrText(a.token) + (Print(r.token) + r.rest) == AttrText(a.token) + Print(r.token) + r.rest;
  }

  /** Scanning loses nothing: the tree prints to the text consumed, and a tag with no
      end consumes the whole document. */
  lemma {:induction false} ParseCovers(u: string)
    ensures Covers(Parse(u), u)
    decreases |u|
  {
    hide ParseAttr, Take, Covers, AttrText, Print;
    if u == "" || u[0] == '>' || (u[0] == '/' && |u| > 1 && u[1] == '>') {
      CoversEnd(u);
    } else if IsSpace(u[0]) || u[0] == '/' {
      ParseCovers(u[1..]);
      CoversGap(u, Parse(u[1..]));
    } else {
      AttrCovers(u);
      var a := ParseAttr(u);
      ParseCovers(a.rest);
      CoversItem(a, Parse(a.rest), u);
    }
  }

  /** The first character of the printed form, as a string of at most one character. */
  function First(t: Tail): string {
    match t
    case Done(Eof) => ""
    case Done(Gt) => ">"
    case Done(SlashGt) => "/"
    case Gap(c, _) => [c]
    case Item(a, _) => if a.name != "" then a.name[..1] else "="
  }

  /** The first character of the printed form after white space. */
  function FirstInk(t: Tail): string {
    if t.Gap? && IsSpace(t.c) then FirstInk(t.rest) else First(t)
  }

  /** The operand of '=' followed by `next` scans back to itself. */
  predicate WellFormedOperand(v: Value, next: Tail)
    requires !v.NoValue?
  {
    && Free(v.before, NonSpace) && Free(v.after, NonSpace)
    && if v.Quoted? then
         IsQuote(v.quote) && Free(v.raw, Only(v.quote)) && (!v.closed ==> next == Done(Eof))
       else
         && Free(v.raw, UnquotedEnd)
         && (First(next) == "" || In(First(next)[0], UnquotedEnd))
         && (if v.raw == "" then First(next) == "" || First(next) == ">" else !IsQuote(v.raw[0]))
  }

  predicate WellFormedAttr(a: Attr, next: Tail) {
    && Free(a.name, AttrNameEnd)
    && if a.value.NoValue? then
         && a.name != ""
         && (First(next) == "" || In(First(next)[0], AttrNameEnd))
         && FirstInk(next) != "="
       else
         WellFormedOperand(a.value, next) && (a.name == "" ==> a.value.before == "")
  }

  /** The syntax trees that are the scan of their own printed form. */
  predicate WellFormed(t: Tail) {
    match t
    case Done(_) => true
    case Gap(c, r) => (IsSpace(c) || (c == '/' && r != Done(Gt))) && WellFormed(r)
    case Item(a, r) => WellFormedAttr(a, r) && WellFormed(r)
  }

  function Ink(u: string): string { Head(Take(u, NonSpace).rest) }

  lemma InkSkips(u: string)
    requires u != ""
    ensures Ink(u) == if IsSpace(u[0]) then Ink(u[1..]) else u[..1]
  {
    if IsSpace(u[0]) {
      var s := Take(u[1..], NonSpace);
      assert u == ([u[0]] + s.token) + s.rest;
      TakeIs([u[0]] + s.token, s.rest, NonSpace);
    } else {
      TakeIs("", u, NonSpace);
      assert "" + u == u;
    }
  }

  lemma ParseFirst(u: string)
    ensures First(Parse(u).token) == Head(u)
  {
    if u == "" || In(u[0], TagNameEnd) {
      assert u != "" ==> u[..1] == [u[0]];
    } else {
      AttrFirst(u);
      assert Parse(u).token.Item? && Parse(u).token.attr == ParseAttr(u).token;
    }
  }

  lemma {:induction false} ParseInk(u: string)
    ensures FirstInk(Parse(u).token) == Ink(u)
  {
    ParseFirst(u);
    if u != "" {
      InkSkips(u);
      if IsSpace(u[0]) {
        ParseInk(u[1..]);
      }
    }
  }

  /** `next` is the scan of the text `w`, as far as its neighbour can see. */
  predicate Abuts(next: Tail, w: string) {
    First(next) == Head(w) && (w == "" <==> next == Done(Eof))
  }

  predicate Follows(next: Tail, w: string) {
    Abuts(next, w) && FirstInk(next) == Ink(w)
  }

  lemma ParseFollows(u: string)
    ensures Follows(Parse(u).token, u)
  {
    ParseFirst(u);
    ParseInk(u);
  }

  lemma OperandIsWellFormed(b: string, a: string, u: string, next: Tail)
    requires Free(b, NonSpace) && Free(a, NonSpace) && (u == "" || !IsSpace(u[0]))
    requires Abuts(next, ParseOperand(b, a, u).rest)
    ensures WellFormedOperand(ParseOperand(b, a, u).token, next)
  {
    hide Take;
    if u == "" || !IsQuote(u[0]) {
      if u == "" || In(u[0], UnquotedEnd) {
        TakeIs("", u, UnquotedEnd);
        assert "" + u == u;
      } else {
        TakeSome(u, UnquotedEnd);
      }
    }
  }

  lemma ValueIsWellFormed(u: string, next: Tail)
    requires Follows(next, ParseValue(u).rest)
    ensures var v := ParseValue(u).token;
      if v.NoValue? then Follows(next, u) && FirstInk(next) != "=" else WellFormedOperand(v, next)
  {
    hide Take, ParseOperand, WellFormedOperand, Free;
    var b := Take(u, NonSpace);
    if b.rest != "" && b.rest[0] == '=' {
      var a := Take(b.rest[1..], NonSpace);
      OperandIsWellFormed(b.token, a.token, a.rest, next);
    }
  }

  lemma AttrIsWellFormed(u: string, next: Tail)
    requires u != "" && !In(u[0], TagNameEnd)
    requires Follows(next, ParseAttr(u).rest)
    ensures WellFormedAttr(ParseAttr(u).token, next)
  {
    hide Take, ParseValue, WellFormedOperand, Ink, FirstInk, AttrText;
    var n := Take(u, AttrNameEnd);
    ValueIsWellFormed(n.rest, next);
    AttrFirst(u);
  }

  /** Every scan is well formed, so a tree that is not is never a scan. */
  lemma {:induction false} ParseIsWellFormed(u: string)
    ensures WellFormed(Parse(u).token)
    decreases |u|
  {
    hide ParseAttr, Take, WellFormedAttr, Follows, AttrText, Print;
    if u == "" || u[0] == '>' || (u[0] == '/' && |u| > 1 && u[1] == '>') {
    } else if IsSpace(u[0]) || u[0] == '/' {
      ParseIsWellFormed(u[1..]);
    } else {
      AttrCovers(u);
      var a := ParseAttr(u);
      ParseIsWellFormed(a.rest);
      ParseFollows(a.rest);
      AttrIsWellFormed(u, Parse(a.rest).token);
    }
  }

  /** An operand as its scanner meets it, followed by `w`. */
  function OperandText(v: Value, w: string): string {
    match v
    case NoValue => w
    case Unquoted(_, _, raw) => raw + w
    case Quoted(_, _, q, raw, closed) => [q] + (raw + if closed then [q] + w else w)
  }

  lemma OperandPrint(v: Value, next: Tail, w: string)
    requires !v.NoValue? && WellFormedOperand(v, next) && Abuts(next, w)
    ensures ParseOperand(v.before, v.after, OperandText(v, w)) == Scan(v, w)
    ensures OperandText(v, w) == "" || !IsSpace(OperandText(v, w)[0])
  {
    if v.Quoted? {
      QuotedPrint(v, w);
    } else {
      UnquotedPrint(v, next, w);
    }
  }

  lemma QuotedPrint(v: Value, w: string)
    requires v.Quoted? && IsQuote(v.quote) && Free(v.raw, Only(v.quote)) && (!v.closed ==> w == "")
    ensures ParseOperand(v.before, v.after, OperandText(v, w)) == Scan(v, w)
    ensures OperandText(v, w) != "" && !IsSpace(OperandText(v, w)[0])
  {
    hide Take, Free;
    var close := if v.closed then [v.quote] + w else w;
    TakeIs(v.raw, close, Only(v.quote));
    assert OperandText(v, w)[1..] == v.raw + close;
    assert v.closed ==> close[1..] == w;
  }

  lemma UnquotedPrint(v: Value, next: Tail, w: string)
    requires v.Unquoted? && WellFormedOperand(v, next) && Abuts(next, w)
    ensures ParseOperand(v.before, v.after, OperandText(v, w)) == Scan(v, w)
    ensures OperandText(v, w) == "" || !IsSpace(OperandText(v, w)[0])
  {
    hide Take;
    TakeIs(v.raw, w, UnquotedEnd);
  }

  lemma ValueTextIs(v: Value, w: string)
    requires !v.NoValue?
    ensures ValueText(v) + w == v.before + ("=" + (v.after + OperandText(v, w)))
  {
    if v.Quoted? {
      var c := if v.closed then [v.quote] else "";
      assert c + w == if v.closed then [v.quote] + w else w;
      RegroupQuoted(v.before, v.after, [v.quote], v.raw, c, w);
    }
  }

  lemma RegroupQuoted(b: string, a: string, q: string, raw: string, c: string, w: string)
    ensures b + "=" + a + q + raw + c + w == b + ("=" + (a + (q + (raw + (c + w)))))
  {
  }

  lemma ValueScan(b: string, a: string, u: string)
    requires Free(b, NonSpace) && Free(a, NonSpace) && (u == "" || !IsSpace(u[0]))
    ensures ParseValue(b + ("=" + (a + u))) == ParseOperand(b, a, u)
  {
    TakeIs(b, "=" + (a + u), NonSpace);
    assert ("=" + (a + u))[1..] == a + u;
    TakeIs(a, u, NonSpace);
  }

  lemma ValuePrint(v: Value, next: Tail, w: string)
    requires !v.NoValue? && WellFormedOperand(v, next) && Abuts(next, w)
    ensures ParseValue(ValueText(v) + w) == Scan(v, w)
  {
    OperandPrint(v, next, w);
    ValueTextIs(v, w);
    ValueScan(v.before, v.after, OperandText(v, w));
  }

  lemma AttrScan(name: string, u: string, v: Scan<Value>)
    requires Free(name, AttrNameEnd) && (u == "" || In(u[0], AttrNameEnd)) && ParseValue(u) == v
    ensures ParseAttr(name + u) == Scan(Attr(name, v.token), v.rest)
  {
    TakeIs(name, u, AttrNameEnd);
  }

  lemma NoValueScan(w: string)
    requires Ink(w) != "="
    ensures ParseValue(w) == Scan(NoValue, w)
  {
  }

  lemma ValueHead(v: Value)
    requires !v.NoValue? && Free(v.before, NonSpace)
    ensures ValueText(v) != "" && In(ValueText(v)[0], AttrNameEnd)
    ensures v.before == "" ==> ValueText(v)[0] == '='
  {
    if v.before != "" {
      assert !In(v.before[0], NonSpace);
      assert ValueText(v)[0] == v.before[0];
    }
  }

  lemma AttrHead(a: Attr, next: Tail)
    requires WellFormedAttr(a, next)
    ensures AttrText(a) != "" && !In(AttrText(a)[0], TagNameEnd)
    ensures Head(AttrText(a)) == First(Item(a, next))
  {
    if a.name != "" {
      assert !In(a.name[0], AttrNameEnd);
      assert AttrText(a)[0] == a.name[0];
    } else {
      ValueHead(a.value);
      assert AttrText(a) == ValueText(a.value);
    }
  }

  /** `AttrText(a) + w` scans back to `a`. */
  lemma AttrPrint(a: Attr, next: Tail, w: string)
    requires WellFormedAttr(a, next) && Follows(next, w)
    ensures ParseAttr(AttrText(a) + w) == Scan(a, w)
  {
    Assoc(a.name, ValueText(a.value), w);
    if a.value.NoValue? {
      assert "" + w == w;
      NoValueScan(w);
      AttrScan(a.name, w, Scan(a.value, w));
    } else {
      ValuePrint(a.value, next, w);
      ValueHead(a.value);
      AttrScan(a.name, ValueText(a.value) + w, Scan(a.value, w));
    }
  }

  lemma PrintFirst(t: Tail, rest: string)
    requires WellFormed(t) && (Truncated(t) ==> rest == "")
    ensures Abuts(t, Print(t) + rest)
  {
    if t.Item? {
      AttrHead(t.attr, t.rest);
      HeadOf(AttrText(t.attr), Print(t.rest), rest);
    }
  }

  lemma HeadOf(a: string, b: string, c: string)
    requires a != ""
    ensures Head(a + b + c) == Head(a)
  {
  }

  lemma {:induction false} PrintFollows(t: Tail, rest: string)
    requires WellFormed(t) && (Truncated(t) ==> rest == "")
    ensures Follows(t, Print(t) + rest)
  {
    hide Ink;
    PrintFirst(t, rest);
    if t.Gap? {
      PrintFollows(t.rest, rest);
      InkCons(t.c, Print(t.rest), rest);
    } else {
      FirstIsInk(t, Print(t) + rest);
    }
  }

  lemma FirstIsInk(t: Tail, u: string)
    requires WellFormed(t) && !t.Gap? && Abuts(t, u)
    ensures FirstInk(t) == Ink(u)
  {
    hide Take;
    if u == "" {
      TakeIs("", "", NonSpace);
      assert "" + "" == "";
    } else {
      ItemFirst(t);
      InkSkips(u);
    }
  }

  lemma InkCons(c: char, u: string, rest: string)
    ensures Ink([c] + u + rest) == if IsSpace(c) then Ink(u + rest) else [c]
  {
    hide Ink;
    Assoc([c], u, rest);
    var v := [c] + (u + rest);
    InkSkips(v);
    assert v[1..] == u + rest;
  }

  lemma ParseGap(c: char, u: string, r: Scan<Tail>)
    requires IsSpace(c) || (c == '/' && Head(u) != ">")
    requires Parse(u) == r
    ensures Parse([c] + u) == Scan(Gap(c, r.token), r.rest)
  {
    assert ([c] + u)[1..] == u;
  }

  lemma ItemFirst(t: Tail)
    ensures WellFormed(t) && t.Item? && t.attr.name != "" ==> !In(First(t)[0], AttrNameEnd)
  {
  }

  lemma OnlyDonePrintsGt(t: Tail)
    requires WellFormed(t) && First(t) == ">"
    ensures t == Done(Gt)
  {
    ItemFirst(t);
  }

  lemma ParseItem(a: Scan<Attr>, u: string, r: Scan<Tail>)
    requires u != "" && !In(u[0], TagNameEnd)
    requires ParseAttr(u) == a && Parse(a.rest) == r
    ensures Parse(u) == Scan(Item(a.token, r.token), r.rest)
  {
    hide ParseAttr, AttrText, Take;
    AttrCovers(u);
  }

  lemma ParseDone(c: Close, rest: string)
    requires c == Eof ==> rest == ""
    ensures Parse(CloseText(c) + rest) == Scan(Done(c), rest)
  {
    assert (CloseText(c) + rest)[|CloseText(c)|..] == rest;
  }

  /** Printing then scanning recovers a well-formed tree, whatever follows the tag. */
  lemma {:induction false} PrintParse(t: Tail, rest: string)
    requires WellFormed(t) && (Truncated(t) ==> rest == "")
    ensures Parse(Print(t) + rest) == Scan(t, rest)
  {
    match t {
      case Done(c) =>
        ParseDone(c, rest);
      case Gap(c, r) =>
        PrintParse(r, rest);
        PrintFirst(r, rest);
        if First(r) == ">" {
          OnlyDonePrintsGt(r);
        }
        Assoc([c], Print(r), rest);
        ParseGap(c, Print(r) + rest, Scan(r, rest));
      case Item(a, r) =>
        PrintParse(r, rest);
        PrintFollows(r, rest);
        AttrPrint(a, r, Print(r) + rest);
        AttrHead(a, r);
        Assoc(AttrText(a), Print(r), rest);
        ParseItem(Scan(a, Print(r) + rest), AttrText(a) + (Print(r) + rest), Scan(r, rest));
    }
  }

  /** A tree survives printing and scanning exactly when it is well formed. */
  lemma RoundTrip(t: Tail, rest: string)
    requires Truncated(t) ==> rest == ""
    ensures Parse(Print(t) + rest) == Scan(t, rest) <==> WellFormed(t)
  {
    ParseIsWellFormed(Print(t) + rest);
    if WellFormed(t) {
      PrintParse(t, rest);
    }
  }
}
