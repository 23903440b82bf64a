/** Exactly when the pre-scan and the tokenizer give a document the same base, whatever its
    own URL and whatever its references resolve to. */
module BaseAgreement {
  import opened Text
  import opened Sequences
  import opened Words
  import opened StartTag
  import opened EndTags
  import opened Rules
  import opened Tokens
  import opened DocumentBase

  // --- the references a search meets ---

  /** The reference of a <base href>, if it has one. */
  function HrefOf(a: Attr): Option<string> {
    if ToLower(a.name) != "href" || a.value.NoValue? then None
    else
      var ref := TrimSpace(Decoded(a));
      if ref == "" then None else Some(ref)
  }

  function Hrefs(ats: seq<Attr>): seq<string> {
    if ats == [] then []
    else (match HrefOf(ats[0]) case Some(h) => [h] case None => []) + Hrefs(ats[1..])
  }

  /** What the tokens offer before the head ends. */
  function TokenHrefs(ts: seq<Token>): seq<string> {
    if ts == [] then []
    else
      var t, rest := ts[0], ts[1..];
      if t.Markup? && StartsEndTag(t.text, "head", true) then []
      else if t.Tag? && ToLower(t.name) == "base" then Hrefs(Named(t.tail)) + TokenHrefs(rest)
      else if t.Tag? && !IsHeadContent(ToLower(t.name)) then []
      else TokenHrefs(rest)
  }

  /** What the pre-scan meets before it stops. */
  function ScanHrefs(s: string): seq<string>
    decreases |s|, 1
  {
    ScanHrefsAt(Take(s, Only('<')).rest)
  }

  function ScanHrefsAt(u: string): seq<string>
    decreases |u|, 0
  {
    if u == "" then []
    else if StartsComment(u) then
      var n := Index(u[4..], "-->");
      if n < 0 then [] else ScanHrefs(u[n + 7..])
    else if StartsEndTag(u, "head", true) then []
    else if !StartsTag(u) then ScanHrefs(u[1..])
    else
      NextTagCovers(u);
      var n := NextTag(u);
      var tag := ToLower(n.token.name);
      if tag == "base" then Hrefs(Named(n.token.tail)) + ScanHrefs(n.rest)
      else if !IsHeadContent(tag) then []
      else if IsRawText(tag) && Closing(n.token.tail) != SlashGt then ScanHrefs(n.rest[EndOf(n.rest, tag)..])
      else ScanHrefs(n.rest)
  }

  /** The first reference that resolves. */
  function FirstOf(hs: seq<string>, usable: Resolution): Option<string> {
    if hs == [] then None
    else if usable(hs[0]).Some? then usable(hs[0])
    else FirstOf(hs[1..], usable)
  }

  lemma {:induction false} FirstOfConcat(a: seq<string>, b: seq<string>, usable: Resolution)
    ensures FirstOf(a + b, usable) == if FirstOf(a, usable).Some? then FirstOf(a, usable) else FirstOf(b, usable)
  {
    if a == [] {
      assert a + b == b;
    } else {
      FirstOfConcat(a[1..], b, usable);
      assert (a + b)[1..] == a[1..] + b;
    }
  }

  lemma {:induction false} FirstUsableIs(ats: seq<Attr>, usable: Resolution)
    ensures FirstUsable(ats, usable) == FirstOf(Hrefs(ats), usable)
  {
    hide TrimSpace, ToLower, Decoded;
    if ats != [] {
      FirstUsableIs(ats[1..], usable);
      var h := match HrefOf(ats[0]) case Some(h) => [h] case None => [];
      FirstOfConcat(h, Hrefs(ats[1..]), usable);
    }
  }

  lemma BaseIsHead()
    ensures IsHeadContent("base") && !IsRawText("base")
  {
  }

  lemma {:induction false} BaseOfIs(ts: seq<Token>, target: string, usable: Resolution)
    ensures BaseOf(ts, target, usable) == FirstOf(TokenHrefs(ts), usable).GetOr(target)
  {
    if ts != [] {
      var t := ts[0];
      BaseOfIs(ts[1..], target, usable);
      BaseIsHead();
      hide ToLower, Named, IsHeadContent, IsRawText, StartsEndTag, FirstUsable, Hrefs, FirstOf;
      NoneOf(usable);
      if t.Tag? {
        FirstUsableIs(Named(t.tail), usable);
        FirstOfConcat(Hrefs(Named(t.tail)), TokenHrefs(ts[1..]), usable);
      }
    } else {
      NoneOf(usable);
    }
  }

  lemma NextTagIsTag(u: string)
    requires StartsTag(u)
    ensures NextTag(u).token.Tag?
  {
  }

  lemma NoneOf(usable: Resolution)
    ensures FirstOf([], usable) == None
  {
  }

  lemma {:induction false} ScanBaseIs(s: string, target: string, usable: Resolution)
    ensures ScanBase(s, target, usable) == FirstOf(ScanHrefs(s), usable).GetOr(target)
    decreases |s|, 1
  {
    hide FirstOf, ScanHrefsAt, ScanAt;
    ScanAtIs(Take(s, Only('<')).rest, target, usable);
  }

  lemma {:induction false} ScanAtIs(u: string, target: string, usable: Resolution)
    ensures ScanAt(u, target, usable) == FirstOf(ScanHrefsAt(u), usable).GetOr(target)
    decreases |u|, 0
  {
    hide FirstOf, ScanHrefs, ScanBase, FirstUsable, Hrefs, Named, ToLower, NextTag, EndOf, StartsEndTag;
    NoneOf(usable);
    if u == "" {
    } else if StartsComment(u) {
      var n := Index(u[4..], "-->");
      if n >= 0 {
        ScanBaseIs(u[n + 7..], target, usable);
      }
    } else if StartsEndTag(u, "head", true) {
    } else if !StartsTag(u) {
      ScanBaseIs(u[1..], target, usable);
    } else {
      NextTagCovers(u);
      BaseIsHead();
      NextTagIsTag(u);
      var n := NextTag(u);
      var tag := ToLower(n.token.name);
      FirstUsableIs(Named(n.token.tail), usable);
      FirstOfConcat(Hrefs(Named(n.token.tail)), ScanHrefs(n.rest), usable);
      ScanBaseIs(n.rest, target, usable);
      ScanBaseIs(n.rest[EndOf(n.rest, tag)..], target, usable);
    }
  }

  // --- when two lists of references always give the same base ---

  lemma {:induction false} FirstOfFirsts(hs: seq<string>, usable: Resolution)
    ensures FirstOf(Firsts(hs), usable) == FirstOf(hs, usable)
    decreases |hs|
  {
    if hs != [] {
      var xs, x := hs[..|hs| - 1], hs[|hs| - 1];
      FirstOfFirsts(xs, usable);
      assert hs == xs + [x];
      FirstsSnoc(xs, x);
      FirstsKeep(xs);
      FirstOfConcat(xs, [x], usable);
      FirstOfConcat(Firsts(xs), [x], usable);
      if x in xs && FirstOf(xs, usable).None? {
        NoneUsable(xs, x, usable);
      }
      assert [x][1..] == [];
    }
  }

  lemma {:induction false} NoneUsable(hs: seq<string>, h: string, usable: Resolution)
    requires FirstOf(hs, usable).None? && h in hs
    ensures usable(h).None?
  {
    if h != hs[0] {
      NoneUsable(hs[1..], h, usable);
    }
  }

  /** Only these two references resolve, to different pages. */
  function Two(p: Option<string>, q: Option<string>): Resolution {
    x => if p == Some(x) then Some("p") else if q == Some(x) then Some("q") else None
  }

  lemma {:induction false} FirstOfSkips(before: seq<string>, rest: seq<string>, usable: Resolution)
    requires forall h | h in before :: usable(h).None?
    ensures FirstOf(before + rest, usable) == FirstOf(rest, usable)
  {
    if before == [] {
      assert before + rest == rest;
    } else {
      assert before[0] in before && (before + rest)[1..] == before[1..] + rest;
      FirstOfSkips(before[1..], rest, usable);
    }
  }

  /** The element after the first `n`, if there is one. */
  function After(hs: seq<string>, n: nat): Option<string> { if n < |hs| then Some(hs[n]) else None }

  lemma FirstOfTail(hs: seq<string>, n: nat, p: Option<string>, q: Option<string>)
    requires n <= |hs| && forall h | h in hs[..n] :: Two(p, q)(h).None?
    requires After(hs, n).Some? ==> Two(p, q)(hs[n]).Some?
    ensures FirstOf(hs, Two(p, q)) == if n < |hs| then Two(p, q)(hs[n]) else None
  {
    assert hs == hs[..n] + hs[n..];
    FirstOfSkips(hs[..n], hs[n..], Two(p, q));
  }

  /** Two lists without repetitions that part after `n` elements are told apart. */
  lemma PartsAt(a: seq<string>, b: seq<string>, n: nat)
    requires Distinct(a) && Distinct(b) && n <= |a| && n <= |b| && a[..n] == b[..n]
    requires After(a, n) != After(b, n)
    ensures var u := Two(After(a, n), After(b, n)); FirstOf(a, u) != FirstOf(b, u)
  {
    hide FirstOf, Distinct;
    var p, q := After(a, n), After(b, n);
    forall h | h in a[..n]
      ensures Two(p, q)(h).None?
    {
      Absent(a, n, h);
      Absent(b, n, h);
    }
    FirstOfTail(a, n, p, q);
    FirstOfTail(b, n, p, q);
  }

  lemma Absent(a: seq<string>, n: nat, h: string)
    requires Distinct(a) && n <= |a| && h in a[..n]
    ensures After(a, n) != Some(h)
  {
    var i :| 0 <= i < n && a[i] == h;
    assert n < |a| ==> a[i] != a[n];
  }

  /** Where two lists part. */
  lemma {:induction false} Part(a: seq<string>, b: seq<string>, n: nat) returns (m: nat)
    requires a != b && n <= |a| && n <= |b| && a[..n] == b[..n]
    ensures m <= |a| && m <= |b| && a[..m] == b[..m] && After(a, m) != After(b, m)
    decreases |a| - n
  {
    assert n == |a| ==> a == a[..n];
    assert n == |b| ==> b == b[..n];
    if After(a, n) != After(b, n) {
      m := n;
    } else if n < |a| {
      assert a[..n + 1] == a[..n] + [a[n]] && b[..n + 1] == b[..n] + [b[n]];
      m := Part(a, b, n + 1);
    }
  }

  lemma TellApart(a: seq<string>, b: seq<string>)
    requires Firsts(a) != Firsts(b)
    ensures exists usable: Resolution :: FirstOf(a, usable) != FirstOf(b, usable)
  {
    FirstsKeep(a);
    FirstsKeep(b);
    var n := Part(Firsts(a), Firsts(b), 0);
    var u := Two(After(Firsts(a), n), After(Firsts(b), n));
    PartsAt(Firsts(a), Firsts(b), n);
    FirstOfFirsts(a, u);
    FirstOfFirsts(b, u);
  }

  lemma OtherTarget(x: Option<string>, y: Option<string>)
    requires x != y
    ensures exists target: string :: x.GetOr(target) != y.GetOr(target)
  {
    var t := x.GetOr("") + y.GetOr("") + "x";
    assert |t| > |x.GetOr("")| && |t| > |y.GetOr("")|;
    assert x.GetOr(t) != y.GetOr(t);
  }

  /** The pre-scan and the tokens agree on a document, whatever its URL and whatever its
      references resolve to, exactly when both meet the same references, each first met in
      the same order. */
  lemma PreScanAgreesExactly(s: string)
    ensures (forall target: string, usable: Resolution ::
               ScanBase(s, target, usable) == BaseOf(Tokenize(s, Data), target, usable))
       <==> Firsts(ScanHrefs(s)) == Firsts(TokenHrefs(Tokenize(s, Data)))
  {
    hide ScanBase, BaseOf, Tokenize, ScanHrefs, TokenHrefs, FirstOf, Firsts;
    var a, b := ScanHrefs(s), TokenHrefs(Tokenize(s, Data));
    forall target: string, usable: Resolution
      ensures ScanBase(s, target, usable) == FirstOf(a, usable).GetOr(target)
      ensures BaseOf(Tokenize(s, Data), target, usable) == FirstOf(b, usable).GetOr(target)
      ensures Firsts(a) == Firsts(b) ==> FirstOf(a, usable) == FirstOf(b, usable)
    {
      ScanBaseIs(s, target, usable);
      BaseOfIs(Tokenize(s, Data), target, usable);
      FirstOfFirsts(a, usable);
      FirstOfFirsts(b, usable);
    }
    if Firsts(a) != Firsts(b) {
      TellApart(a, b);
      var usable: Resolution :| FirstOf(a, usable) != FirstOf(b, usable);
      OtherTarget(FirstOf(a, usable), FirstOf(b, usable));
      var target: string :| FirstOf(a, usable).GetOr(target) != FirstOf(b, usable).GetOr(target);
      assert ScanBase(s, target, usable) != BaseOf(Tokenize(s, Data), target, usable);
    }
  }
}
