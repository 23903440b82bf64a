/** Which targets a link may have, and which references become links, spelled out by scheme. */
module LinkTargets {
  import opened Text
  import opened Words
  import opened Base64
  import opened Link
  import Requests

  /** A link to an http or https URL with a host decodes to it; any other target is refused,
      each kind with its own error. */
  lemma TargetsDecode(parse: Parser, raw: string, extra: string)
    requires IsBytes(raw) && raw != "" && (extra == "" || extra[0] == '/')
    ensures var path := "/p/" + Encode(Url, raw) + extra;
      match parse(raw)
      case None => Link.Decode(parse, path) == Err(Malformed)
      case Some(u) =>
        && (u.scheme in {"http", "https"} && u.host != "" ==> Link.Decode(parse, path) == Ok(u))
        && (u.scheme in {"http", "https"} && u.host == "" ==> Link.Decode(parse, path) == Err(Malformed))
        && (u.scheme !in {"http", "https"} ==> Link.Decode(parse, path) == Err(BadScheme))
  {
    LinksDecode(parse, raw, extra);
    hide Encode, Link.Decode;
    assert EncodeString(raw) == "/p/" + Encode(Url, raw);
  }

  /** A request for it carries that target, with the request's own query if it has one. */
  lemma RequestsCarryTargets(parse: Parser, raw: string, extra: string, query: string, u: Target)
    requires IsBytes(raw) && raw != "" && (extra == "" || extra[0] == '/')
    requires parse(raw) == Some(u) && u.scheme in {"http", "https"} && u.host != ""
    ensures DecodeRequest(parse, "/p/" + Encode(Url, raw) + extra, query)
         == Ok(if query == "" then u else Target(u.scheme, u.host, query, false, u.parts))
  {
    TargetsDecode(parse, raw, extra);
    hide Encode, Link.Decode;
  }

  /** A path without a token, or with one that is not base64url, is refused. */
  lemma OthersAreRefused(parse: Parser, token: string, extra: string)
    requires Free(token, Only('/')) && (extra == "" || extra[0] == '/')
    ensures var path := "/p/" + token + extra;
      && (token == "" ==> Link.Decode(parse, path) == Err(EmptyTarget))
      && (token != "" && DecodeText(Url, token) == None ==> Link.Decode(parse, path) == Err(Malformed))
  {
    hide DecodeText;
    assert ("/p/" + token + extra)[3..] == token + extra;
    TakeIs(token, extra, Only('/'));
  }

  /** A reference becomes the link of the http or https URL it stands for, unless it is
      empty or leads nowhere; otherwise it stays as it is. */
  lemma ReferencesResolve(absolute: Absolute, ref: string)
    requires YieldsBytes(absolute)
    ensures var t := TrimSpace(ref);
      if t != "" && !Requests.LeadsNowhere(ToLower(t)) && absolute(t).Some? && absolute(t).value.0 in {"http", "https"}
      then IsBytes(absolute(t).value.1) && Resolve(absolute, ref) == "/p/" + Encode(Url, absolute(t).value.1)
      else Resolve(absolute, ref) == ref
  {
    hide TrimSpace, ToLower, Encode, IsNonNav, Requests.LeadsNowhere;
    Requests.NonNavIs(ToLower(TrimSpace(ref)));
  }
}
