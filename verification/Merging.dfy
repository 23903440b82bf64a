/** When dropping an attribute lets its neighbours merge: only in <link> and <base>
    tags, and two documents in which it happens. */
module Merging {
  import opened Text
  import opened StartTag
  import opened TagEdit
  import opened Rules
  import opened Tokens
  import opened TokenRoundTrip
  import opened HtmlRewrite

  lemma {:induction false} NothingDroppedBefore(t: Tail, edit: Editor)
    requires forall a: Attr :: !edit(a).Drop?
    ensures ClosesAfterDrops(t, edit) ==> t == Done(Gt)
    ensures NamelessAfterDrops(t, edit) ==> FirstInk(t) == "="
  {
    if t.Gap? {
      NothingDroppedBefore(t.rest, edit);
    }
  }

  lemma {:induction false} NoDropsNoMerge(t: Tail, edit: Editor)
    requires WellFormed(t) && forall a: Attr :: !edit(a).Drop?
    ensures NothingMerges(t, edit)
  {
    if !t.Done? {
      NothingDroppedBefore(t.rest, edit);
      NoDropsNoMerge(t.rest, edit);
    }
  }

  /** Every tag but <link> and <base> is safe. */
  lemma OtherTagsAreSafe(base: Base, t: Token, rest: seq<Token>)
    requires Fits(t, rest) && t.Tag? && ToLower(t.name) !in {"link", "base"}
    ensures Safe(base, t)
  {
    var c := ContextOf(ToLower(t.name), t.tail);
    forall a: Attr
      ensures !EditorFor(base, c)(a).Drop?
    {
    }
    NoDropsNoMerge(t.tail, EditorFor(base, c));
  }

  function HrefX(rest: Tail): Tail { Item(Attr("href", Quoted("", "", '"', "x", true)), rest) }

  /** <base a href="x"=y>: without its href, `a` takes the value of the nameless attribute. */
  const BASE_NAMELESS: Tail :=
    Gap(' ', Item(Attr("a", NoValue), Gap(' ', HrefX(Item(Attr("", Unquoted("", "", "y")), Done(Gt))))))

  /** <base /href="x">: without its href, the stray slash closes the tag. */
  const BASE_SLASH: Tail := Gap(' ', Gap('/', HrefX(Done(Gt))))

  lemma MergingDocument(base: Base, tail: Tail)
    requires AddsNoEndTag(base.css) && WellFormed(tail) && !Truncated(tail) && First(tail) == " "
    requires !NothingMerges(tail, EditorOf(base, "base", tail))
    ensures var s := "<base" + Print(tail);
      Tokenize(Output(base, s), Data) != RewriteAll(base, Tokenize(s, Data))
  {
    hide EditorOf;
    var t := Tag("base", tail);
    assert PrintAll([t]) == PrintToken(t) + "" == "<base" + Print(tail) by {
      assert "<" + "base" == "<base";
    }
    assert Fits(t, []) by { assert forall i | 0 <= i < 4 :: !In("base"[i], TagNameEnd); }
    PrintTokenize([t], Data);
    StructurePreserved(base, "<base" + Print(tail));
    assert t in [t] && !Safe(base, t);
  }

  lemma HrefDropped(base: Base, tail: Tail)
    ensures EditorOf(base, "base", tail)(Attr("href", Quoted("", "", '"', "x", true))) == Drop
    ensures !EditorOf(base, "base", tail)(Attr("a", NoValue)).Drop?
    ensures !EditorOf(base, "base", tail)(Attr("", Unquoted("", "", "y"))).Drop?
  {
    assert ToLower("base") == "base" && ToLower("href") == "href" && ToLower("a") == "a";
  }

  /** The claim without its condition is false: two ways for attributes to merge. */
  lemma StructureCanBreak(base: Base)
    requires AddsNoEndTag(base.css)
    ensures var s := "<base" + Print(BASE_NAMELESS);
      Tokenize(Output(base, s), Data) != RewriteAll(base, Tokenize(s, Data))
    ensures var s := "<base" + Print(BASE_SLASH);
      Tokenize(Output(base, s), Data) != RewriteAll(base, Tokenize(s, Data))
  {
    NamelessIsWellFormed();
    HrefDropped(base, BASE_NAMELESS);
    MergingDocument(base, BASE_NAMELESS);
    HrefDropped(base, BASE_SLASH);
    MergingDocument(base, BASE_SLASH);
  }

  lemma NamelessIsWellFormed()
    ensures WellFormed(BASE_NAMELESS) && !Truncated(BASE_NAMELESS)
    ensures WellFormed(BASE_SLASH) && !Truncated(BASE_SLASH)
  {
    hide AddsNoEndTag;
    assert forall i | 0 <= i < 4 :: !In("href"[i], AttrNameEnd);
    var y := Item(Attr("", Unquoted("", "", "y")), Done(Gt));
    var x := HrefX(y);
    assert WellFormed(y) && WellFormed(x) && WellFormed(Gap(' ', x));
    var a := Item(Attr("a", NoValue), Gap(' ', x));
    assert FirstInk(x) == "h" && FirstInk(Gap(' ', x)) == FirstInk(x);
    assert WellFormed(a) && WellFormed(HrefX(Done(Gt))) && WellFormed(Gap('/', HrefX(Done(Gt))));
    assert !Truncated(y) && !Truncated(x) && !Truncated(a);
  }
}
