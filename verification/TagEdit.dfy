/** What `writeStartTag` does to a tag, as a map on its syntax tree: drop an attribute,
    replace its value, or leave it; and exactly when the printed result scans back to
    the intended tree. */
module TagEdit {
  import opened Text
  import opened CharRefs
  import opened StartTag

  datatype Edit = Keep | Drop | Change(value: string)

  /** One decision per attribute. Nameless attributes are invisible to the program, and
      an attribute without a value has none to change. */
  type Editor = Attr -> Edit

  ghost predicate Sensible(edit: Editor) {
    forall a: Attr :: (a.name == "" ==> edit(a) == Keep) && (edit(a).Change? ==> !a.value.NoValue?)
  }

  /** A new value keeps the quotes of the old one; an unquoted value gains quotes. */
  function Splice(a: Attr, value: string): Attr
    requires !a.value.NoValue?
  {
    match a.value
    case Unquoted(_, _, _) => Attr(a.name, Quoted("", "", '"', EscapeAttrValue(value, '"'), true))
    case Quoted(b, s, q, _, closed) => Attr(a.name, Quoted(b, s, q, EscapeAttrValue(value, q), closed))
  }

  ghost function Apply(t: Tail, edit: Editor): Tail
    requires Sensible(edit)
  {
    match t
    case Done(c) => t
    case Gap(c, r) => Gap(c, Apply(r, edit))
    case Item(a, r) =>
      match edit(a)
      case Keep => Item(a, Apply(r, edit))
      case Drop => Apply(r, edit)
      case Change(v) => Item(Splice(a, v), Apply(r, edit))
  }

  /** Only dropped attributes stand before the closing '>'. */
  predicate ClosesAfterDrops(t: Tail, edit: Editor) {
    match t
    case Done(c) => c == Gt
    case Gap(_, _) => false
    case Item(a, r) => edit(a).Drop? && ClosesAfterDrops(r, edit)
  }

  /** Only white space and dropped attributes stand before a nameless attribute. */
  predicate NamelessAfterDrops(t: Tail, edit: Editor) {
    match t
    case Done(_) => false
    case Gap(c, r) => IsSpace(c) && NamelessAfterDrops(r, edit)
    case Item(a, r) => if edit(a).Drop? then NamelessAfterDrops(r, edit) else a.name == ""
  }

  /** No drop brings a stray '/' up to the closing '>', nor a valueless attribute up to
      the '=' of a nameless one. */
  predicate NothingMerges(t: Tail, edit: Editor) {
    match t
    case Done(_) => true
    case Gap(c, r) => (c == '/' ==> !ClosesAfterDrops(r, edit)) && NothingMerges(r, edit)
    case Item(a, r) =>
      && (!edit(a).Drop? && a.value.NoValue? ==> !NamelessAfterDrops(r, edit))
      && NothingMerges(r, edit)
  }

  lemma {:induction false} ApplyCloses(t: Tail, edit: Editor)
    requires Sensible(edit)
    ensures Apply(t, edit) == Done(Gt) <==> ClosesAfterDrops(t, edit)
    ensures Closing(Apply(t, edit)) == Closing(t)
  {
    if !t.Done? {
      ApplyCloses(t.rest, edit);
    }
  }

  lemma {:induction false} ApplyInk(t: Tail, edit: Editor)
    requires Sensible(edit) && WellFormed(t)
    ensures FirstInk(Apply(t, edit)) == "=" <==> NamelessAfterDrops(t, edit)
  {
    if !t.Done? {
      ApplyInk(t.rest, edit);
    }
    ItemFirst(t);
  }

  /** Text that must be followed by white space, '>' or the end still is: such a
      neighbour is never an attribute, so no drop or change reaches it. */
  lemma ApplyFirst(t: Tail, edit: Editor)
    requires Sensible(edit) && WellFormed(t)
    requires First(t) == "" || In(First(t)[0], TagNameEnd)
    ensures First(Apply(t, edit)) == First(t)
  {
    ItemFirst(t);
  }

  lemma SpliceWellFormed(a: Attr, value: string, next: Tail, next': Tail)
    requires !a.value.NoValue? && WellFormedAttr(a, next)
    requires next == Done(Eof) ==> next' == Done(Eof)
    ensures WellFormedAttr(Splice(a, value), next')
  {
    EscapedKeepsQuotes(value, if a.value.Quoted? then a.value.quote else '"');
  }

  lemma KeepWellFormed(a: Attr, r: Tail, edit: Editor)
    requires Sensible(edit) && WellFormed(r) && WellFormedAttr(a, r)
    ensures WellFormedAttr(a, Apply(r, edit)) <==> (a.value.NoValue? ==> !NamelessAfterDrops(r, edit))
  {
    ApplyInk(r, edit);
    if !a.value.Quoted? {
      ApplyFirst(r, edit);
    }
  }

  /** Editing keeps a tag well formed exactly when nothing merges. */
  lemma {:induction false} ApplyWellFormed(t: Tail, edit: Editor)
    requires Sensible(edit) && WellFormed(t)
    ensures WellFormed(Apply(t, edit)) <==> NothingMerges(t, edit)
  {
    match t {
      case Done(_) =>
      case Gap(c, r) =>
        ApplyWellFormed(r, edit);
        ApplyCloses(r, edit);
      case Item(a, r) =>
        ApplyWellFormed(r, edit);
        match edit(a) {
          case Keep => KeepWellFormed(a, r, edit);
          case Drop =>
          case Change(v) => SpliceWellFormed(a, v, r, Apply(r, edit));
        }
    }
  }

  /** The main result on one tag: whatever follows it, the rewritten tag scans to the
      edited tree and ends where it ended, exactly when nothing merges. */
  lemma EditedTagRoundTrip(u: string, edit: Editor, rest: string)
    requires Sensible(edit)
    requires Truncated(Parse(u).token) ==> rest == ""
    ensures var t := Parse(u).token;
      Parse(Print(Apply(t, edit)) + rest) == Scan(Apply(t, edit), rest) <==> NothingMerges(t, edit)
  {
    var t := Parse(u).token;
    ParseIsWellFormed(u);
    ApplyWellFormed(t, edit);
    ApplyCloses(t, edit);
    RoundTrip(Apply(t, edit), rest);
  }
}
