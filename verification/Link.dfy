/** The proxy URL scheme of the server: "/p/" and the target in base64url. */
module Link {
  import opened Text
  import opened Words
  import opened Base64
  import opened Values

  /** What the server looks at in a parsed URL; `parts` stands for all the rest. */
  datatype Target = Target(scheme: string, host: string, rawQuery: string, forceQuery: bool, parts: string)

  /** The URL parser, `url.Parse`; None on a syntax error. */
  type Parser = string -> Option<Target>

  datatype Error = EmptyTarget | Malformed | BadScheme

  datatype Result<+T> = Ok(value: T) | Err(error: Error)

  function EncodeString(raw: string): string
    requires IsBytes(raw)
  {
    "/p/" + Encode(Url, raw)
  }

  function DecodeToken(token: string): Option<string> { DecodeText(Url, token) }

  predicate IsHttp(scheme: string) { scheme == "http" || scheme == "https" }

  function Decode(parse: Parser, path: string): Result<Target> {
    var t := if "/p/" <= path then path[3..] else path;
    var token := Take(t, Only('/')).token;
    if token == "" then Err(EmptyTarget)
    else
      match DecodeToken(token)
      case None => Err(Malformed)
      case Some(raw) => Checked(parse(raw))
  }

  /** The checks on a decoded target. */
  function Checked(u: Option<Target>): Result<Target> {
    if u.None? then Err(Malformed)
    else if !IsHttp(u.value.scheme) then Err(BadScheme)
    else if u.value.host == "" then Err(Malformed)
    else Ok(u.value)
  }

  /** A query on the proxy request itself replaces the target's. */
  function DecodeRequest(parse: Parser, escapedPath: string, rawQuery: string): Result<Target> {
    match Decode(parse, escapedPath)
    case Ok(u) => Ok(if rawQuery != "" then u.(rawQuery := rawQuery, forceQuery := false) else u)
    case Err(e) => Err(e)
  }

  // --- tokens ---

  lemma TokenChars(c: char)
    ensures IsTokenChar(c) <==> Value(Url, c) >= 0
  {
  }

  /** Tokens hold only base64url characters: no slash, quote, comma, white space or
      padding. */
  lemma EncodedIsLink(raw: string)
    requires IsBytes(raw)
    ensures IsLink(EncodeString(raw))
  {
    EncodeIsToken(Url, raw);
    var s, e := EncodeString(raw), Encode(Url, raw);
    forall i | 3 <= i < |s|
      ensures IsTokenChar(s[i])
    {
      assert s[i] == e[i - 3];
      TokenChars(s[i]);
    }
  }

  lemma TokenHasNoSlash(s: string)
    requires IsToken(Url, s)
    ensures Free(s, Only('/'))
  {
    assert Value(Url, '/') < 0;
  }

  lemma EncodeIsNotEmpty(raw: string)
    requires IsBytes(raw) && raw != ""
    ensures Encode(Url, raw) != ""
  {
    DecodeEncode(Url, raw);
  }

  /** A link decodes to the URL it was made from, whatever segments follow it; only a
      target the proxy must not serve is refused, each kind with its own error. */
  lemma LinksDecode(parse: Parser, raw: string, extra: string)
    requires IsBytes(raw) && raw != "" && (extra == "" || extra[0] == '/')
    ensures Decode(parse, EncodeString(raw) + extra) == Checked(parse(raw))
  {
    hide Encode, DecodeToken, Checked, Take;
    var e := Encode(Url, raw);
    TokenDecodes(raw);
    var path := EncodeString(raw) + extra;
    assert path[3..] == e + extra && path[..3] == "/p/";
    TakeIs(e, extra, Only('/'));
  }

  lemma TokenDecodes(raw: string)
    requires IsBytes(raw) && raw != ""
    ensures var e := Encode(Url, raw); e != "" && Free(e, Only('/')) && DecodeToken(e) == Some(raw)
  {
    var e := Encode(Url, raw);
    EncodeIsToken(Url, raw);
    EncodeIsNotEmpty(raw);
    TokenHasNoSlash(e);
    DecodeTextEncode(Url, raw);
  }

  /** A request for a link carries its target; a query on the request takes the place of
      the target's, and nothing else changes. */
  lemma RequestsDecode(parse: Parser, raw: string, extra: string, query: string)
    requires IsBytes(raw) && raw != "" && (extra == "" || extra[0] == '/')
    ensures var r := DecodeRequest(parse, EncodeString(raw) + extra, query); var t := Checked(parse(raw));
      && (r.Ok? <==> t.Ok?) && (r.Err? ==> r == t)
      && (r.Ok? ==>
            && r.value.scheme == t.value.scheme && r.value.host == t.value.host && r.value.parts == t.value.parts
            && r.value.rawQuery == (if query == "" then t.value.rawQuery else query)
            && r.value.forceQuery == (query == "" && t.value.forceQuery))
  {
    hide Decode, Checked, EncodeString;
    LinksDecode(parse, raw, extra);
  }

  // --- resolving references ---

  const NON_NAVIGATIONAL: seq<string> :=
    ["#", "data:", "blob:", "mailto:", "tel:", "javascript:", "about:", "ws:", "wss:"]

  predicate IsNonNav(low: string) { exists i | 0 <= i < |NON_NAVIGATIONAL| :: NON_NAVIGATIONAL[i] <= low }

  /** A reference resolved against a base: its scheme and its text, or None when it does
      not parse. */
  type Absolute = string -> Option<(string, string)>

  ghost predicate YieldsBytes(absolute: Absolute) {
    forall r: string :: absolute(r).Some? ==> IsBytes(absolute(r).value.1)
  }

  function Resolve(absolute: Absolute, ref: string): string
    requires absolute(TrimSpace(ref)).Some? ==> IsBytes(absolute(TrimSpace(ref)).value.1)
  {
    var trimmed := TrimSpace(ref);
    if trimmed == "" || IsNonNav(ToLower(trimmed)) then ref
    else
      match absolute(trimmed)
      case None => ref
      case Some(abs) => if IsHttp(abs.0) then EncodeString(abs.1) else ref
  }

  /** The resolver meets what the HTML rewriter assumes of it. */
  lemma ResolveResolves(absolute: Absolute)
    requires YieldsBytes(absolute)
    ensures Resolves((r: string) => if YieldsBytes(absolute) then Resolve(absolute, r) else r)
  {
    hide Resolve, IsLink, TrimSpace;
    forall r: string
      ensures Resolve(absolute, r) == r || IsLink(Resolve(absolute, r))
    {
      ResolvedIsLink(absolute, r);
    }
  }

  lemma ResolvedIsLink(absolute: Absolute, ref: string)
    requires YieldsBytes(absolute)
    ensures Resolve(absolute, ref) == ref || IsLink(Resolve(absolute, ref))
  {
    hide TrimSpace, EncodeString, IsLink, IsNonNav;
    var t := TrimSpace(ref);
    if absolute(t).Some? {
      EncodedIsLink(absolute(t).value.1);
    }
  }

  /** A resolved reference leads back to the absolute URL it stands for. */
  lemma ResolvedDecodes(absolute: Absolute, parse: Parser, ref: string)
    requires YieldsBytes(absolute) && absolute(TrimSpace(ref)).Some?
    requires TrimSpace(ref) != "" && !IsNonNav(ToLower(TrimSpace(ref)))
    requires IsHttp(absolute(TrimSpace(ref)).value.0) && absolute(TrimSpace(ref)).value.1 != ""
    ensures Decode(parse, Resolve(absolute, ref)) == Checked(parse(absolute(TrimSpace(ref)).value.1))
  {
    var raw := absolute(TrimSpace(ref)).value.1;
    LinksDecode(parse, raw, "");
    assert EncodeString(raw) + "" == EncodeString(raw);
  }
}
