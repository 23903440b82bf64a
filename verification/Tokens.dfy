/** A document as the scanner partitions it: text, comments, other markup, start tags
    and the text of raw-text elements. Each token prints to exactly its source text. */
module Tokens {
  import opened Text
  import opened StartTag
  import opened EndTags
  import opened Rules

  datatype Token =
    | Chars(text: string)                // text, or a '<' that opens nothing
    | Comment(text: string)
    | Markup(text: string)               // <!...>, <?...> and </...>
    | Tag(name: string, tail: Tail)
    | RawBody(tag: string, text: string) // the text of a raw-text element
    | Rest(text: string)                 // everything after <plaintext>

  datatype Mode = Data | RawText(tag: string) | PlainText

  function PrintToken(t: Token): string {
    match t
    case Tag(name, tail) => "<" + name + Print(tail)
    case _ => t.text
  }

  function PrintAll(ts: seq<Token>): string {
    if ts == [] then "" else PrintToken(ts[0]) + PrintAll(ts[1..])
  }

  /** What the scanner expects after a token. */
  function ModeAfter(t: Token): Mode {
    if !t.Tag? then Data
    else
      var tag := ToLower(t.name);
      if tag == "plaintext" then PlainText
      else if IsRawText(tag) && Closing(t.tail) != SlashGt then RawText(tag)
      else Data
  }

  predicate StartsComment(s: string) { "<!--" <= s }

  /** Nothing beyond its first '>' decides whether a text starts a comment. */
  lemma CommentIsLocal(a: string, b: string)
    requires Free(a, Only('>'))
    ensures StartsComment(a + ">" + b) <==> StartsComment(a + ">")
  {
    var s := a + ">" + b;
    if |a| < 4 {
      assert s[|a|] == '>' == (a + ">")[|a|];
      assert "<!--"[|a|] != '>';
    } else {
      assert (a + ">")[..4] == s[..4];
    }
  }

  predicate StartsMarkup(s: string) {
    |s| >= 2 && s[0] == '<' && (s[1] == '!' || s[1] == '?' || s[1] == '/')
  }

  predicate StartsTag(s: string) { |s| >= 2 && s[0] == '<' && IsLetter(s[1]) }

  function NextComment(s: string): Scan<Token>
    requires StartsComment(s)
  {
    var n := Index(s[4..], "-->");
    if n < 0 then Scan(Comment(s), "") else Scan(Comment(s[..n + 7]), s[n + 7..])
  }

  function NextMarkup(s: string): Scan<Token> {
    var m := Take(s, Only('>'));
    if m.rest == "" then Scan(Markup(s), "") else Scan(Markup(m.token + ">"), m.rest[1..])
  }

  function NextTag(s: string): Scan<Token>
    requires s != ""
  {
    var name := Take(s[1..], TagNameEnd);
    var tail := Parse(name.rest);
    Scan(Tag(name.token, tail.token), tail.rest)
  }

  /** The next token of a document, outside raw text. */
  function Next(s: string): Scan<Token>
    requires s != ""
  {
    if s[0] != '<' then
      var c := Take(s, Only('<'));
      Scan(Chars(c.token), c.rest)
    else if StartsComment(s) then NextComment(s)
    else if StartsMarkup(s) then NextMarkup(s)
    else if StartsTag(s) then NextTag(s)
    else Scan(Chars("<"), s[1..])
  }

  lemma TagText(s: string, name: Scan<string>, tail: Scan<Tail>)
    requires s != "" && s[0] == '<' && s[1..] == name.token + name.rest && Covers(tail, name.rest)
    ensures "<" + name.token + Print(tail.token) + tail.rest == s
    ensures |tail.rest| < |s|
  {
    hide Print;
    assert s == "<" + (name.token + (Print(tail.token) + tail.rest));
  }

  lemma NextTagCovers(s: string)
    requires StartsTag(s)
    ensures var n := NextTag(s); PrintToken(n.token) + n.rest == s && |n.rest| < |s|
  {
    hide Parse;
    var name := Take(s[1..], TagNameEnd);
    ParseCovers(name.rest);
    TagText(s, name, Parse(name.rest));
  }

  lemma NextCovers(s: string)
    requires s != ""
    ensures var n := Next(s); PrintToken(n.token) + n.rest == s && |n.rest| < |s|
  {
    hide Take, Index;
    if s[0] != '<' {
    } else if StartsComment(s) {
    } else if StartsMarkup(s) {
      var m := Take(s, Only('>'));
      assert m.rest != "" ==> m.rest == ">" + m.rest[1..];
    } else if StartsTag(s) {
      NextTagCovers(s);
    } else {
      assert s == "<" + s[1..];
    }
  }

  function Tokenize(s: string, mode: Mode): seq<Token>
    decreases |s|, if mode.Data? then 0 else 1
  {
    match mode
    case PlainText => [Rest(s)]
    case RawText(tag) =>
      var n := EndOf(s, tag);
      [RawBody(tag, s[..n])] + Tokenize(s[n..], Data)
    case Data =>
      if s == "" then []
      else
        NextCovers(s);
        var n := Next(s);
        [n.token] + Tokenize(n.rest, ModeAfter(n.token))
  }

  /** The tokens print back to the document: nothing is lost or reordered. */
  lemma {:induction false} TokensCover(s: string, mode: Mode)
    ensures PrintAll(Tokenize(s, mode)) == s
    decreases |s|, if mode.Data? then 0 else 1
  {
    hide ModeAfter, Next, StartsEndTag, PrintToken, EndOf, PrintAll;
    NothingPrints();
    match mode
    case PlainText =>
      OnePrints(Rest(s), []);
      PrintRest(s);
    case RawText(tag) =>
      var n := EndOf(s, tag);
      TokensCover(s[n..], Data);
      OnePrints(RawBody(tag, s[..n]), Tokenize(s[n..], Data));
      PrintRawBody(tag, s[..n]);
    case Data =>
      if s != "" {
        NextCovers(s);
        var n := Next(s);
        TokensCover(n.rest, ModeAfter(n.token));
        OnePrints(n.token, Tokenize(n.rest, ModeAfter(n.token)));
      }
  }

  lemma NothingPrints()
    ensures PrintAll([]) == ""
  {
  }

  lemma OnePrints(t: Token, ts: seq<Token>)
    ensures PrintAll([t] + ts) == PrintToken(t) + PrintAll(ts)
  {
    hide PrintToken;
    assert ([t] + ts)[1..] == ts;
  }

  lemma PrintRest(s: string)
    ensures PrintToken(Rest(s)) + "" == s && [Rest(s)] + [] == [Rest(s)]
  {
  }

  lemma PrintRawBody(tag: string, text: string)
    ensures PrintToken(RawBody(tag, text)) == text
  {
  }

  // --- which token sequences are the partition of their own text ---

  /** The first character of the printed tokens, outside raw text. */
  function Lead(ts: seq<Token>): string {
    if ts == [] then "" else if ts[0].Chars? then Head(ts[0].text) else "<"
  }

  predicate StartsNothing(s: string) { s == "" || (!IsLetter(s[0]) && s[0] !in "!?/") }

  predicate FitsChars(text: string, rest: seq<Token>) {
    || (text != "" && Free(text, Only('<')) && (Lead(rest) == "" || Lead(rest) == "<"))
    || (text == "<" && StartsNothing(Lead(rest)))
  }

  predicate FitsComment(text: string, rest: seq<Token>) {
    && StartsComment(text)
    && var n := Index(text[4..], "-->"); if n < 0 then rest == [] else n + 7 == |text|
  }

  predicate FitsMarkup(text: string, rest: seq<Token>) {
    && StartsMarkup(text) && !StartsComment(text)
    && if Free(text, Only('>')) then rest == []
       else text[|text| - 1] == '>' && Free(text[..|text| - 1], Only('>'))
  }

  predicate FitsTag(name: string, tail: Tail, rest: seq<Token>) {
    && name != "" && IsLetter(name[0]) && Free(name, TagNameEnd)
    && WellFormed(tail)
    && (First(tail) == "" || In(First(tail)[0], TagNameEnd))
    && (Truncated(tail) ==> PrintAll(rest) == "")
  }

  /** Token `t`, followed by the tokens `rest`, scans back to itself. */
  predicate Fits(t: Token, rest: seq<Token>) {
    match t
    case Chars(text) => FitsChars(text, rest)
    case Comment(text) => FitsComment(text, rest)
    case Markup(text) => FitsMarkup(text, rest)
    case Tag(name, tail) => FitsTag(name, tail, rest)
    case _ => false
  }

  predicate ClosesRaw(tag: string, rest: seq<Token>) {
    rest == [] || (rest[0].Markup? && StartsEndTag(rest[0].text, tag, true))
  }

  predicate WellTokenized(ts: seq<Token>, mode: Mode)
    decreases |ts|
  {
    match mode
    case PlainText => |ts| == 1 && ts[0].Rest?
    case RawText(tag) =>
      && ts != [] && ts[0].RawBody? && ts[0].tag == tag
      && ClosesRaw(tag, ts[1..]) && NoEndTag(ts[0].text, tag, ts[1..] == [])
      && WellTokenized(ts[1..], Data)
    case Data =>
      ts == [] || (Fits(ts[0], ts[1..]) && WellTokenized(ts[1..], ModeAfter(ts[0])))
  }

  predicate ValidMode(m: Mode) { m.RawText? ==> IsRawText(m.tag) }
}
