/** The value rewriters on values as they are written. */
module ValueTexts {
  import opened Text
  import opened Words
  import opened Values

  /** Two candidates of a srcset, each with its descriptor. */
  lemma TwoCandidates(u: string, d: string, w: string, e: string, resolve: Resolver)
    requires IsCandidate(Candidate(u, d)) && IsCandidate(Candidate(w, e)) && d != "" && e != ""
    ensures SrcsetOf(u + " " + d + ", " + w + " " + e, resolve)
         == resolve(u) + " " + d + ", " + resolve(w) + " " + e
  {
    var cs := [Candidate(u, d), Candidate(w, e)];
    hide IsCandidate, Candidates;
    CandidatesPrint(cs);
    PrintTwo(u, d, w, e);
    PrintTwo(resolve(u), d, resolve(w), e);
    assert MapUrls(cs, resolve) == [Candidate(resolve(u), d), Candidate(resolve(w), e)];
  }

  lemma PrintTwo(u: string, d: string, w: string, e: string)
    requires d != "" && e != ""
    ensures PrintCandidates([Candidate(u, d), Candidate(w, e)]) == u + " " + d + ", " + w + " " + e
  {
    var cs := [Candidate(u, d), Candidate(w, e)];
    assert cs[1..] == [Candidate(w, e)];
    assert PrintCandidates(cs[1..]) == w + (" " + e);
    assert (u + (" " + d)) + (", " + (w + (" " + e))) == u + " " + d + ", " + w + " " + e;
  }

  /** The URLs of a list, whatever white space stands between them. */
  lemma TwoUrls(lead: string, u: string, gap: string, w: string, tail: string, resolve: Resolver)
    requires Free(lead, NonBlank) && Free(gap, NonBlank) && gap != "" && Free(tail, NonBlank) && IsWord(u) && IsWord(w)
    ensures UrlListOf(lead + (u + (gap + (w + tail))), resolve) == resolve(u) + " " + resolve(w)
  {
    hide Fields, Free, IsWord, Join;
    GapIsBlank(gap);
    FieldsOne(lead, u, gap + (w + tail));
    TailIsBlank(tail);
    FieldsOne(gap, w, tail);
    FieldsNone(tail);
    assert [u] + ([w] + []) == [u, w];
    assert Map([u, w], resolve) == [resolve(u), resolve(w)];
    JoinTwo(resolve(u), resolve(w));
  }

  lemma GapIsBlank(gap: string)
    requires gap != "" && Free(gap, NonBlank)
    ensures IsBlank(gap[0])
  {
    assert !In(gap[0], NonBlank);
  }

  lemma TailIsBlank(tail: string)
    requires Free(tail, NonBlank)
    ensures tail == "" || IsBlank(tail[0])
  {
    assert tail != "" ==> !In(tail[0], NonBlank);
  }

  lemma JoinTwo(x: string, y: string)
    ensures Join([x, y], " ") == x + " " + y
  {
    assert [x, y][1..] == [y];
  }

  /** A refresh target as it may be written: `key` spells "url" in any case, and the URL
      stands bare, or in quotes that are dropped with what follows them. */
  lemma RefreshTexts(delay: string, lead: string, key: string, b: string, a: string, q: char, u: string, more: string,
                     resolve: Resolver)
    requires Free(delay, Only(';')) && Free(lead, NonSpace) && Free(b, NonSpace) && Free(a, NonSpace)
    requires ToLower(key) == "url" && IsQuote(q) && Free(u, Only(q))
    ensures var text := delay + (";" + (lead + (key + (b + ("=" + (a + ([q] + (u + ([q] + more)))))))));
      RefreshOf(text, resolve) == if resolve(u) == u then text else delay + ";" + lead + "url=" + resolve(u)
    ensures u != "" && !IsSpace(u[0]) && !IsQuote(u[0]) && !IsSpace(u[|u| - 1]) ==>
      var text := delay + (";" + (lead + (key + (b + ("=" + (a + u))))));
      RefreshOf(text, resolve) == if resolve(u) == u then text else delay + ";" + lead + "url=" + resolve(u)
  {
    hide *;
    RefreshUrlIs(q, u, more);
    var quoted := [q] + (u + ([q] + more));
    QuoteIsInk(q, quoted);
    RefreshParses(delay, lead, key, b, a, quoted, u, resolve);
    if u != "" && !IsSpace(u[0]) && !IsQuote(u[0]) && !IsSpace(u[|u| - 1]) {
      RefreshParses(delay, lead, key, b, a, u, u, resolve);
    }
  }

  lemma QuoteIsInk(q: char, quoted: string)
    requires IsQuote(q) && quoted != "" && quoted[0] == q
    ensures !IsSpace(quoted[0])
  {
  }

  lemma RefreshUrlIs(q: char, u: string, more: string)
    requires IsQuote(q) && Free(u, Only(q))
    ensures RefreshUrl([q] + (u + ([q] + more))) == u
    ensures u != "" && !IsQuote(u[0]) && !IsSpace(u[|u| - 1]) ==> RefreshUrl(u) == u
  {
    var s := [q] + (u + ([q] + more));
    assert s[1..] == u + ([q] + more);
    TakeIs(u, [q] + more, Only(q));
  }

  lemma RefreshParses(delay: string, lead: string, key: string, b: string, a: string, ref: string, u: string,
                      resolve: Resolver)
    requires Free(delay, Only(';')) && Free(lead, NonSpace) && Free(b, NonSpace) && Free(a, NonSpace)
    requires ToLower(key) == "url" && ref != "" && !IsSpace(ref[0]) && RefreshUrl(ref) == u
    ensures var text := delay + (";" + (lead + (key + (b + ("=" + (a + ref))))));
      RefreshOf(text, resolve) == if resolve(u) == u then text else delay + ";" + lead + "url=" + resolve(u)
  {
    hide RefreshUrl, ParseRefresh, RefreshTarget, Free;
    var t := key + (b + ("=" + (a + ref)));
    TargetParses(key, b, a, ref);
    assert t[0] == key[0] && ToLower(key)[0] == "url"[0] == 'u';
    assert !IsSpace(key[0]);
    ScanRefresh(delay, lead, t, u);
  }

  lemma TargetParses(key: string, b: string, a: string, ref: string)
    requires ToLower(key) == "url" && Free(b, NonSpace) && Free(a, NonSpace) && ref != "" && !IsSpace(ref[0])
    ensures RefreshTarget(key + (b + ("=" + (a + ref)))) == Some(RefreshUrl(ref))
  {
    hide RefreshUrl, Take;
    var t := key + (b + ("=" + (a + ref)));
    assert |key| == |ToLower(key)| == 3;
    assert t[..3] == key && t[3..] == b + ("=" + (a + ref)) && ToLower("url") == "url";
    TakeIs(b, "=" + (a + ref), NonSpace);
    assert ("=" + (a + ref))[1..] == a + ref;
    TakeIs(a, ref, NonSpace);
  }
}
