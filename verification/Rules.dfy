/** Which attributes of which elements are rewritten, dropped or left alone. */
module Rules {
  import opened Text
  import opened Words
  import opened CharRefs
  import opened StartTag
  import opened TagEdit
  import opened Values

  /** The document base: the resolver for references, and the stylesheet rewriter. */
  datatype Base = Base(resolve: Resolver, css: string -> string)

  /** Elements whose text holds no markup. */
  predicate IsRawText(tag: string) {
    tag in {"script", "style", "textarea", "title", "xmp", "iframe", "noembed", "noframes", "noscript"}
  }

  /** Elements that may stand before the body; any other opens it. */
  predicate IsHeadContent(tag: string) {
    tag in {"html", "head", "base", "basefont", "bgsound", "link", "meta", "noscript", "script",
            "style", "template", "title"}
  }

  const SRCSET_ATTRS: set<string> := {"srcset", "imagesrcset", "data-srcset"}

  predicate IsURLAttr(tag: string, name: string) {
    || name in {"href", "src", "data-src", "data-href"}
    || (name == "action" && tag == "form")
    || (name == "formaction" && tag in {"button", "input"})
    || (name == "poster" && tag == "video")
    || (name == "data" && tag == "object")
    || (name == "cite" && tag in {"blockquote", "q", "del", "ins"})
    || (name == "background" && tag in {"body", "table", "td", "th"})
    || (name == "longdesc" && tag in {"img", "iframe", "frame"})
    || (name == "manifest" && tag == "html")
    || (name == "profile" && tag == "head")
    || (name == "codebase" && tag in {"object", "applet"})
  }

  /** What the tag as a whole says about its attributes. */
  datatype Context = Context(tag: string, refresh: bool, dropIntegrity: bool)

  /** The value as the page's author meant it. */
  function Decoded(a: Attr): string
    requires !a.value.NoValue?
  {
    Unescape(a.value.raw)
  }

  /** The value an attribute is rewritten to; None when no rule applies to it. */
  function Rewritten(base: Base, c: Context, name: string, val: string): Option<string> {
    if name in SRCSET_ATTRS then Some(SrcsetOf(val, base.resolve))
    else if name == "ping" && c.tag == "a" then Some(UrlListOf(val, base.resolve))
    else if name == "style" then Some(base.css(val))
    else if c.refresh && name == "content" then Some(RefreshOf(val, base.resolve))
    else if IsURLAttr(c.tag, name) then Some(base.resolve(val))
    else None
  }

  predicate Dropped(c: Context, name: string) {
    (c.dropIntegrity && name == "integrity") || (c.tag == "base" && name == "href")
  }

  function EditOf(base: Base, c: Context, a: Attr): Edit {
    var name := ToLower(a.name);
    if a.name == "" then Keep
    else if Dropped(c, name) then Drop
    else if a.value.NoValue? then Keep
    else
      match Rewritten(base, c, name, Decoded(a))
      case Some(next) => if next == Decoded(a) then Keep else Change(next)
      case None => Keep
  }

  function EditorFor(base: Base, c: Context): Editor { a => EditOf(base, c, a) }

  lemma EditorIsSensible(base: Base, c: Context)
    ensures Sensible(EditorFor(base, c))
  {
  }

  /** The attributes the program records: those with a name. */
  function Named(t: Tail): seq<Attr> {
    match t
    case Done(_) => []
    case Gap(_, r) => Named(r)
    case Item(a, r) => if a.name != "" then [a] + Named(r) else Named(r)
  }

  predicate SaysRefresh(a: Attr) {
    && ToLower(a.name) == "http-equiv" && !a.value.NoValue?
    && EqualFold(TrimSpace(Decoded(a)), "refresh")
  }

  predicate SaysStylesheet(a: Attr) {
    && !a.value.NoValue?
    && var value := ToLower(Decoded(a));
       || (ToLower(a.name) == "rel" && "stylesheet" in Fields(value))
       || (ToLower(a.name) == "as" && TrimSpace(value) == "style")
  }

  function ContextOf(tag: string, t: Tail): Context {
    Context(tag,
            tag == "meta" && exists a | a in Named(t) :: SaysRefresh(a),
            tag == "link" && exists a | a in Named(t) :: SaysStylesheet(a))
  }

  /** An edited attribute keeps its name, and the browser decodes it to the value the
      rules prescribe: the new one where it changed, the author's where it did not. */
  lemma EditedAttrDecodes(base: Base, c: Context, a: Attr)
    requires a.name != "" && !Dropped(c, ToLower(a.name)) && !a.value.NoValue?
    requires a.value.Quoted? ==> IsQuote(a.value.quote)
    ensures var b := (match EditOf(base, c, a) case Change(v) => Splice(a, v) case _ => a);
      && b.name == a.name && !b.value.NoValue?
      && Decoded(b) == Rewritten(base, c, ToLower(a.name), Decoded(a)).GetOr(Decoded(a))
  {
    match EditOf(base, c, a) {
      case Change(v) => UnescapeEscape(v, if a.value.Quoted? then a.value.quote else '"');
      case _ =>
    }
  }

  /** The attributes left after editing. */
  function Survivors(ats: seq<Attr>, edit: Editor): seq<Attr>
    requires forall a | a in ats :: edit(a).Change? ==> !a.value.NoValue?
  {
    if ats == [] then []
    else
      (match edit(ats[0]) case Keep => [ats[0]] case Drop => [] case Change(v) => [Splice(ats[0], v)])
      + Survivors(ats[1..], edit)
  }

  lemma SurvivorsCons(a: Attr, ats: seq<Attr>, edit: Editor)
    requires forall b | b in [a] + ats :: edit(b).Change? ==> !b.value.NoValue?
    ensures Survivors([a] + ats, edit)
         == (match edit(a) case Keep => [a] case Drop => [] case Change(v) => [Splice(a, v)]) + Survivors(ats, edit)
  {
    assert ([a] + ats)[1..] == ats;
  }

  /** Editing a tag keeps the order of its attributes, and neither adds nor loses one it
      was not told to drop. */
  lemma {:induction false} SurvivorsInOrder(t: Tail, edit: Editor)
    requires Sensible(edit)
    ensures Named(Apply(t, edit)) == Survivors(Named(t), edit)
  {
    match t {
      case Done(_) =>
      case Gap(_, r) => SurvivorsInOrder(r, edit);
      case Item(a, r) =>
        SurvivorsInOrder(r, edit);
        if a.name != "" {
          assert Named(t) == [a] + Named(r);
          SurvivorsCons(a, Named(r), edit);
        }
    }
  }
}
