/** Trimming, splitting and joining, as in Go's `strings` package. */
module Words {
  import opened Text

  /** The longest suffix that does not start in class `k`. */
  function TrimLeft(s: string, k: Class): (r: string)
    ensures r == "" || !In(r[0], k)
    ensures |r| <= |s| && s[|s| - |r|..] == r
    ensures forall c | c in r :: c in s
  {
    if s == "" || !In(s[0], k) then s else TrimLeft(s[1..], k)
  }

  /** The longest prefix that does not end in class `k`. */
  function TrimRight(s: string, k: Class): (r: string)
    ensures r == "" || !In(r[|r| - 1], k)
    ensures r <= s
    ensures forall c | c in r :: c in s
  {
    if s == "" || !In(s[|s| - 1], k) then s else TrimRight(s[..|s| - 1], k)
  }

  function TrimSpace(s: string): string { TrimRight(TrimLeft(s, Blank), Blank) }

  predicate Trimmed(s: string) { s == "" || (!IsBlank(s[0]) && !IsBlank(s[|s| - 1])) }

  lemma TrimSpaceTrims(s: string)
    ensures Trimmed(TrimSpace(s))
  {
    var l := TrimLeft(s, Blank);
    var r := TrimRight(l, Blank);
    assert r != "" ==> r[0] == l[0];
  }

  lemma TrimmedStays(s: string)
    requires Trimmed(s)
    ensures TrimSpace(s) == s && TrimSpace(" " + s) == s
  {
    assert (" " + s)[1..] == s;
  }

  /** The maximal runs of non-blank characters. */
  function Fields(s: string): (ws: seq<string>)
    decreases |s|
  {
    var w := Take(s, NonBlank).rest;
    if w == "" then []
    else
      var f := Take(w, Blank);
      assert f.token != "" by { assert f.token == "" ==> f.rest == w; }
      [f.token] + Fields(f.rest)
  }

  predicate IsWord(w: string) { w != "" && Free(w, Blank) }

  lemma {:induction false} FieldIsWord(s: string, w: string)
    requires w in Fields(s)
    ensures IsWord(w) && forall c | c in w :: c in s
    decreases |s|
  {
    var u := Take(s, NonBlank).rest;
    TakeMembers(s, NonBlank);
    if u != "" {
      var f := Take(u, Blank);
      TakeSome(u, Blank);
      TakeMembers(u, Blank);
      FieldsSplit(s);
      hide *;
      if w != f.token {
        FieldIsWord(f.rest, w);
      }
    }
  }

  lemma FieldsSplit(s: string)
    ensures var u := Take(s, NonBlank).rest; var f := Take(u, Blank);
      u != "" ==> f.token != "" && Fields(s) == [f.token] + Fields(f.rest)
  {
    var u := Take(s, NonBlank).rest;
    if u != "" {
      TakeSome(u, Blank);
    }
  }

  lemma FieldsAreWords(s: string)
    ensures forall w | w in Fields(s) :: IsWord(w) && forall c | c in w :: c in s
  {
    forall w | w in Fields(s)
      ensures IsWord(w) && forall c | c in w :: c in s
    {
      FieldIsWord(s, w);
    }
  }

  function Join(ws: seq<string>, sep: string): string {
    if ws == [] then "" else if |ws| == 1 then ws[0] else ws[0] + sep + Join(ws[1..], sep)
  }

  lemma FieldsOne(lead: string, w: string, rest: string)
    requires Free(lead, NonBlank) && IsWord(w) && (rest == "" || IsBlank(rest[0]))
    ensures Fields(lead + (w + rest)) == [w] + Fields(rest)
  {
    assert !In(w[0], Blank);
    TakeIs(lead, w + rest, NonBlank);
    TakeIs(w, rest, Blank);
  }

  lemma JoinMore(w: string, ws: seq<string>, sep: string)
    requires ws != []
    ensures Join([w] + ws, sep) == w + (sep + Join(ws, sep))
  {
    assert ([w] + ws)[1..] == ws;
    hide Join;
    assert Join([w] + ws, sep) == w + sep + Join(ws, sep) by { JoinDef([w] + ws, sep); }
    Assoc(w, sep, Join(ws, sep));
  }

  lemma JoinDef(ws: seq<string>, sep: string)
    requires |ws| > 1
    ensures Join(ws, sep) == ws[0] + sep + Join(ws[1..], sep)
  {
  }

  lemma FieldsNone(lead: string)
    requires Free(lead, NonBlank)
    ensures Fields(lead) == []
  {
    TakeIs(lead, "", NonBlank);
    assert lead + "" == lead;
  }

  /** Joining words with a space and splitting them again, after any indentation. */
  lemma {:induction false} FieldsJoin(lead: string, ws: seq<string>)
    requires Free(lead, NonBlank) && forall w | w in ws :: IsWord(w)
    ensures Fields(lead + Join(ws, " ")) == ws
    decreases |ws|
  {
    hide Fields;
    if ws == [] {
      FieldsNone(lead);
      assert lead + "" == lead;
    } else if |ws| == 1 {
      FieldsOne(lead, ws[0], "");
      FieldsNone("");
      assert ws[0] + "" == ws[0];
    } else {
      var w, r := ws[0], ws[1..];
      assert ws == [w] + r;
      hide Join;
      FieldsJoin(" ", r);
      JoinMore(w, r, " ");
      FieldsOne(lead, w, " " + Join(r, " "));
    }
  }

  /** Go's `strings.Split` and JavaScript's `split` on a one-character separator. */
  function Split(s: string, c: char): (parts: seq<string>)
    ensures |parts| >= 1
    decreases |s|
  {
    var t := Take(s, Only(c));
    if t.rest == "" then [s] else [t.token] + Split(t.rest[1..], c)
  }

  lemma SplitOne(w: string, c: char, rest: string)
    requires Free(w, Only(c))
    ensures Split(w + ([c] + rest), c) == [w] + Split(rest, c)
    ensures Split(w, c) == [w]
  {
    TakeIs(w, [c] + rest, Only(c));
    TakeIs(w, "", Only(c));
    assert w + "" == w;
    assert ([c] + rest)[1..] == rest;
  }
}
