/** Where the text of a raw-text element ends. */
module EndTags {
  import opened Text

  /** `s` starts with an end tag for `tag`: the name is followed by white space, '/' or
      '>', or, where nothing more can follow, by the end of the text. */
  predicate StartsEndTag(s: string, tag: string, atEnd: bool) {
    && 2 + |tag| <= |s| && s[0] == '<' && s[1] == '/'
    && EqualFold(s[2..2 + |tag|], tag)
    && if |s| == 2 + |tag| then atEnd else In(s[2 + |tag|], TagNameEnd)
  }

  /** The first end tag for `tag`, or the end of the document. */
  function EndOf(s: string, tag: string): (n: nat)
    ensures n <= |s|
    ensures n < |s| ==> StartsEndTag(s[n..], tag, true)
    ensures forall i | 0 <= i < n :: !StartsEndTag(s[i..], tag, true)
  {
    if s == "" || StartsEndTag(s, tag, true) then assert s[0..] == s; 0
    else
      var n := EndOf(s[1..], tag);
      assert forall i | 1 <= i <= n + 1 :: s[i..] == s[1..][i - 1..];
      assert s[0..] == s;
      n + 1
  }

  lemma EndIs(s: string, tag: string, n: nat)
    requires n <= |s| && (n < |s| ==> StartsEndTag(s[n..], tag, true))
    requires forall i | 0 <= i < n :: !StartsEndTag(s[i..], tag, true)
    ensures EndOf(s, tag) == n
  {
  }

  method HasTagNameAt(s: string, pos: nat, name: string) returns (found: bool)
    requires 2 <= pos <= |s| && s[pos - 2] == '<' && s[pos - 1] == '/'
    ensures found <==> StartsEndTag(s[pos - 2..], name, true)
  {
    if pos + |name| > |s| || !EqualFold(s[pos..pos + |name|], name) {
      assert pos + |name| <= |s| ==> s[pos - 2..][2..2 + |name|] == s[pos..pos + |name|];
      return false;
    }
    assert s[pos - 2..][2..2 + |name|] == s[pos..pos + |name|];
    if pos + |name| == |s| {
      return true;
    }
    found := In(s[pos + |name|], TagNameEnd);
  }

  method FindEndTag(s: string, name: string, from: nat) returns (end: nat)
    requires from <= |s|
    ensures end == from + EndOf(s[from..], name)
  {
    hide StartsEndTag, Take, EndOf;
    var i := from;
    while i < |s|
      invariant from <= i <= |s|
      invariant forall k | from <= k < i :: !StartsEndTag(s[k..], name, true)
    {
      var p := ScanTo(s, i, Only('<'));
      SkippedText(s, i, p, name);
      if p >= |s| {
        EndAt(s, from, |s|, name);
        return |s|;
      }
      NeedsSlash(s, p, name);
      if p + 1 < |s| && s[p + 1] == '/' {
        var found := HasTagNameAt(s, p + 2, name);
        if found {
          EndAt(s, from, p, name);
          return p;
        }
      }
      i := p + 1;
    }
    EndAt(s, from, |s|, name);
    end := |s|;
  }

  lemma NeedsSlash(s: string, p: nat, name: string)
    requires p < |s|
    ensures StartsEndTag(s[p..], name, true) ==> p + 1 < |s| && s[p + 1] == '/'
  {
  }

  lemma SkippedText(s: string, i: nat, p: nat, name: string)
    requires i <= p <= |s| && Take(s[i..], Only('<')).token == s[i..p]
    ensures forall k | i <= k < p :: !StartsEndTag(s[k..], name, true)
  {
    forall k | i <= k < p
      ensures s[k..][0] != '<'
    {
      assert !In(s[i..p][k - i], Only('<'));
    }
  }

  lemma EndAt(s: string, from: nat, p: nat, name: string)
    requires from <= p <= |s| && (p < |s| ==> StartsEndTag(s[p..], name, true))
    requires forall k | from <= k < p :: !StartsEndTag(s[k..], name, true)
    ensures p == from + EndOf(s[from..], name)
  {
    forall i | 0 <= i <= p - from
      ensures s[from..][i..] == s[from + i..]
    {
    }
    EndIs(s[from..], name, p - from);
  }

  // --- composing text and end tag ---

  predicate NoEndTag(text: string, tag: string, atEnd: bool) {
    forall i | 0 <= i < |text| :: !StartsEndTag(text[i..], tag, atEnd)
  }

  /** An end tag is recognised within any text that starts with it and holds its '>'. */
  lemma EndTagIsLocal(a: string, b: string, tag: string)
    requires Free(tag, Only('>')) && Free(a, Only('>'))
    ensures StartsEndTag(a + ">" + b, tag, true) <==> StartsEndTag(a + ">", tag, true)
  {
    var s := a + ">" + b;
    assert forall i | 0 <= i <= |a| :: s[i] == (a + ">")[i];
    var n := 2 + |tag|;
    if n <= |a| {
      assert s[2..n] == (a + ">")[2..n];
    } else if |a| >= 2 {
      var k := |a| - 2;
      assert ToLower(tag)[k] != '>';
      assert n <= |s| ==> ToLower(s[2..n])[k] == '>';
      assert n <= |a| + 1 ==> ToLower((a + ">")[2..n])[k] == '>';
    }
  }

  predicate IsTagWord(tag: string) { forall c | c in tag :: c != '<' && c != '>' && c != '/' && !IsSpace(c) }

  /** Text followed by nothing, or by a new '<': whether an end tag starts inside it
      does not depend on what follows, except at the end of the document. */
  lemma InsideText(text: string, more: string, tag: string, i: nat)
    requires IsTagWord(tag) && i < |text| && (more == "" || more[0] == '<')
    ensures StartsEndTag((text + more)[i..], tag, true) <==> StartsEndTag(text[i..], tag, more == "")
  {
    var s, t, n := (text + more)[i..], text[i..], 2 + |tag|;
    assert s == t + more;
    if n <= |t| {
      assert s[2..n] == t[2..n];
    } else if |t| >= 2 {
      var k := |t| - 2;
      assert tag[k] in tag && ToLower(tag)[k] != '<';
      assert n <= |s| ==> ToLower(s[2..n])[k] == '<';
    }
  }

  /** The text before an end tag ends there exactly when no end tag starts inside it. */
  lemma EndAfterText(text: string, more: string, tag: string)
    requires IsTagWord(tag) && (more == "" || StartsEndTag(more, tag, true))
    ensures EndOf(text + more, tag) == |text| <==> NoEndTag(text, tag, more == "")
  {
    assert (text + more)[|text|..] == more;
    forall i | 0 <= i < |text|
      ensures StartsEndTag((text + more)[i..], tag, true) <==> StartsEndTag(text[i..], tag, more == "")
    {
      InsideText(text, more, tag, i);
    }
    if NoEndTag(text, tag, more == "") {
      EndIs(text + more, tag, |text|);
    }
  }
}
