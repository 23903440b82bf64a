/** Rewriting a document token by token, and what its tokens are afterwards. */
module HtmlRewrite {
  import opened Text
  import opened StartTag
  import opened TagEdit
  import opened EndTags
  import opened Rules
  import opened Tokens
  import opened TokenRoundTrip

  function EditorOf(base: Base, name: string, tail: Tail): Editor {
    EditorFor(base, ContextOf(ToLower(name), tail))
  }

  ghost function EditedTail(base: Base, name: string, tail: Tail): Tail {
    EditorIsSensible(base, ContextOf(ToLower(name), tail));
    Apply(tail, EditorOf(base, name, tail))
  }

  ghost function RewriteToken(base: Base, t: Token): Token {
    match t
    case Tag(name, tail) => Tag(name, EditedTail(base, name, tail))
    case RawBody(tag, text) => if tag == "style" then RawBody(tag, base.css(text)) else t
    case _ => t
  }

  ghost function RewriteAll(base: Base, ts: seq<Token>): seq<Token> {
    if ts == [] then [] else [RewriteToken(base, ts[0])] + RewriteAll(base, ts[1..])
  }

  /** The output of the rewriter for document `s`. */
  ghost function Output(base: Base, s: string): string {
    PrintAll(RewriteAll(base, Tokenize(s, Data)))
  }

  /** The stylesheet rewriter closes no stylesheet, and makes nothing out of nothing. */
  ghost predicate AddsNoEndTag(css: string -> string) {
    && css("") == ""
    && forall b: string, atEnd: bool :: NoEndTag(b, "style", atEnd) ==> NoEndTag(css(b), "style", atEnd)
  }

  predicate Safe(base: Base, t: Token) {
    t.Tag? ==> NothingMerges(t.tail, EditorOf(base, t.name, t.tail))
  }

  lemma {:induction false} NothingStaysNothing(base: Base, ts: seq<Token>)
    requires base.css("") == "" && PrintAll(ts) == ""
    ensures PrintAll(RewriteAll(base, ts)) == ""
  {
    if ts != [] {
      NothingStaysNothing(base, ts[1..]);
    }
  }

  lemma LeadStays(base: Base, ts: seq<Token>)
    ensures Lead(RewriteAll(base, ts)) == Lead(ts)
    ensures RewriteAll(base, ts) == [] <==> ts == []
    ensures ts != [] ==> RewriteAll(base, ts)[1..] == RewriteAll(base, ts[1..])
    ensures ts != [] ==> RewriteAll(base, ts)[0] == RewriteToken(base, ts[0])
  {
  }

  lemma ModeStays(base: Base, t: Token)
    ensures ModeAfter(RewriteToken(base, t)) == ModeAfter(t)
  {
    if t.Tag? {
      var c := ContextOf(ToLower(t.name), t.tail);
      EditorIsSensible(base, c);
      ApplyCloses(t.tail, EditorFor(base, c));
    }
  }

  lemma TagFitsWhenSafe(base: Base, t: Token, rest: seq<Token>, rest': seq<Token>)
    requires t.Tag? && Fits(t, rest)
    requires PrintAll(rest) == "" ==> PrintAll(rest') == ""
    ensures Fits(RewriteToken(base, t), rest') <==> Safe(base, t)
  {
    var c := ContextOf(ToLower(t.name), t.tail);
    var edit := EditorFor(base, c);
    EditorIsSensible(base, c);
    ApplyWellFormed(t.tail, edit);
    ApplyCloses(t.tail, edit);
    ApplyFirst(t.tail, edit);
  }

  lemma FitsWhenSafe(base: Base, t: Token, rest: seq<Token>)
    requires base.css("") == "" && Fits(t, rest)
    ensures Fits(RewriteToken(base, t), RewriteAll(base, rest)) <==> Safe(base, t)
  {
    LeadStays(base, rest);
    if t.Tag? {
      if PrintAll(rest) == "" {
        NothingStaysNothing(base, rest);
      }
      TagFitsWhenSafe(base, t, rest, RewriteAll(base, rest));
    }
  }

  lemma ClosesRawStays(base: Base, tag: string, rest: seq<Token>)
    requires ClosesRaw(tag, rest)
    ensures ClosesRaw(tag, RewriteAll(base, rest))
  {
    LeadStays(base, rest);
  }

  lemma {:induction false} WellTokenizedWhenSafe(base: Base, ts: seq<Token>, mode: Mode)
    requires AddsNoEndTag(base.css) && WellTokenized(ts, mode)
    ensures WellTokenized(RewriteAll(base, ts), mode) <==> forall t | t in ts :: Safe(base, t)
    decreases |ts|
  {
    LeadStays(base, ts);
    if ts != [] {
      var t, rest := ts[0], ts[1..];
      assert ts == [t] + rest;
      match mode {
        case PlainText =>
        case RawText(tag) =>
          ClosesRawStays(base, tag, rest);
          LeadStays(base, rest);
          WellTokenizedWhenSafe(base, rest, Data);
        case Data =>
          FitsWhenSafe(base, t, rest);
          ModeStays(base, t);
          WellTokenizedWhenSafe(base, rest, ModeAfter(t));
      }
    }
  }

  /** The main result: tokenizing the rewritten document yields the source's tokens, each
      start tag edited and each stylesheet rewritten, and no boundary appears, moves or
      vanishes; exactly for the documents in which no tag merges attributes. */
  lemma StructurePreserved(base: Base, s: string)
    requires AddsNoEndTag(base.css)
    ensures Tokenize(Output(base, s), Data) == RewriteAll(base, Tokenize(s, Data))
       <==> forall t | t in Tokenize(s, Data) :: Safe(base, t)
  {
    TokenizeIsWell(s, Data);
    WellTokenizedWhenSafe(base, Tokenize(s, Data), Data);
    TokensRoundTrip(RewriteAll(base, Tokenize(s, Data)), Data);
  }

  lemma {:induction false} UnchangedTokens(base: Base, ts: seq<Token>)
    ensures RewriteAll(base, ts) == ts <==> forall t | t in ts :: RewriteToken(base, t) == t
  {
    LeadStays(base, ts);
    if ts != [] {
      UnchangedTokens(base, ts[1..]);
      assert ts == [ts[0]] + ts[1..];
    }
  }

  /** A document in which nothing merges comes back byte for byte exactly when no token
      of it is edited; one without edits always does, truncated or not. */
  lemma IdenticalExactlyWhenUnedited(base: Base, s: string)
    requires AddsNoEndTag(base.css)
    ensures (forall t | t in Tokenize(s, Data) :: RewriteToken(base, t) == t) ==> Output(base, s) == s
    ensures (forall t | t in Tokenize(s, Data) :: Safe(base, t)) && Output(base, s) == s
        ==> forall t | t in Tokenize(s, Data) :: RewriteToken(base, t) == t
  {
    UnchangedTokens(base, Tokenize(s, Data));
    TokensCover(s, Data);
    StructurePreserved(base, s);
  }
}
