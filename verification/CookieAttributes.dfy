/** Which attributes of a page's cookie write take effect, by their text. */
module CookieAttributes {
  import opened Text
  import opened Words
  import opened CookieScope
  import opened KeyedList
  import opened CookieJar
  import opened CookieDomains
  import CookieReading
  import opened CookieText

  /** An attribute as it may be written: white space, a name in any case, white space, and
      its value. */
  function Attribute(lead: string, name: string, gap: string, value: string): string {
    lead + (name + (gap + ("=" + value)))
  }

  predicate IsAttributeName(name: string) { name != "" && Free(name, Blank) && Free(name, Text.Only('=')) }

  lemma {:induction false} TrimmedLead(lead: string, s: string)
    requires Free(lead, NonBlank) && (s == "" || !IsBlank(s[0]))
    ensures TrimLeft(lead + s, Blank) == s
  {
    if lead == "" {
      assert lead + s == s;
    } else {
      assert !In(lead[0], NonBlank) && (lead + s)[1..] == lead[1..] + s;
      TrimmedLead(lead[1..], s);
    }
  }

  lemma AttributeReads(lead: string, name: string, gap: string, value: string, key: string)
    requires Free(lead, NonBlank) && Free(gap, NonBlank) && IsAttributeName(name) && key in {"domain", "path"}
    ensures AttributeValue(Attribute(lead, name, gap, value), key) == if ToLower(name) == key then Some(value) else None
  {
    hide TrimLeft, ToLower, AttributeValue, EqualFold;
    var t := name + (gap + ("=" + value));
    assert !In(name[0], Blank);
    TrimmedLead(lead, t);
    ValueIs(lead + t, t, key);
    hide IsAttributeName, Free;
    if |name| == |key| {
      SameLength(t, name, gap, value, key);
    } else if |name| > |key| {
      assert t[..|key|] == name[..|key|] && t[|key|..] == name[|key|..] + (gap + ("=" + value));
      RestIsNoValue(name[|key|..], gap + ("=" + value), name, |key|);
    } else {
      KeyHasNoGap(t, name, gap, value, key);
    }
  }

  lemma ValueIs(part: string, t: string, key: string)
    requires TrimLeft(part, Blank) == t
    ensures AttributeValue(part, key) ==
      if |t| < |key| || !EqualFold(t[..|key|], key) then None
      else
        var r := TrimLeft(t[|key|..], Blank);
        if r == "" || r[0] != '=' then None else Some(r[1..])
  {
    hide TrimLeft, EqualFold;
  }

  lemma SameLength(t: string, name: string, gap: string, value: string, key: string)
    requires |name| == |key| && t == name + (gap + ("=" + value)) && Free(gap, NonBlank) && key in {"domain", "path"}
    ensures t[..|key|] == name && TrimLeft(t[|key|..], Blank) == "=" + value && ("=" + value)[1..] == value
    ensures EqualFold(name, key) <==> ToLower(name) == key
  {
    assert ToLower(key) == key;
    hide TrimLeft, ToLower;
    assert t[|key|..] == gap + ("=" + value);
    TrimmedLead(gap, "=" + value);
  }

  lemma RestIsNoValue(tail: string, more: string, name: string, n: nat)
    requires IsAttributeName(name) && n < |name| && tail == name[n..]
    ensures var r := TrimLeft(tail + more, Blank); r != "" && r[0] != '='
  {
    assert tail[0] == name[n] && !In(name[n], Blank) && !In(name[n], Text.Only('='));
    TrimmedLead("", tail + more);
    assert "" + (tail + more) == tail + more;
  }

  lemma KeyHasNoGap(t: string, name: string, gap: string, value: string, key: string)
    requires key in {"domain", "path"} && t == name + (gap + ("=" + value)) && |name| < |key| && Free(gap, NonBlank)
    ensures |t| < |key| || !EqualFold(t[..|key|], key)
  {
    if |t| >= |key| {
      var c := t[..|key|][|name|];
      assert c == (gap + ("=" + value))[0];
      assert gap != "" ==> !In(gap[0], NonBlank);
      assert IsBlank(c) || c == '=';
      assert ToLower(t[..|key|])[|name|] == LowerChar(c) == c;
      assert ToLower(key)[|name|] == key[|name|];
    }
  }

  /** A Domain counts, a Path is ignored, and any other attribute is passed on. */
  lemma AttributesCount(lead: string, name: string, gap: string, value: string)
    requires Free(lead, NonBlank) && Free(gap, NonBlank) && IsAttributeName(name)
    ensures var part := Attribute(lead, name, gap, value);
      && (ToLower(name) == "domain" && '\n' !in value && '\r' !in value ==>
            DomainAttribute(part) == Some(TrimSpace(value)) && !IsKept(part))
      && (ToLower(name) == "path" ==> DomainAttribute(part) == None && !IsKept(part))
      && (ToLower(name) !in {"domain", "path"} ==> DomainAttribute(part) == None && IsKept(part))
  {
    AttributeReads(lead, name, gap, value, "domain");
    AttributeReads(lead, name, gap, value, "path");
    hide AttributeValue, Attribute, ToLower, TrimSpace;
  }

  /** So is one without a value, such as Secure. */
  lemma FlagsArePassedOn(part: string)
    requires '=' !in part
    ensures DomainAttribute(part) == None && IsKept(part)
  {
    hide TrimLeft, ToLower;
  }

  /** A page's write, as the servers receive it: the browser stores it with its value and
      its other attributes, and it reaches host `b`, under its own name, exactly when the
      page's host and the last Domain given let it. */
  lemma WritesReachTheirServers(name: string, value: string, attrs: seq<string>, i: int, x: Option<string>,
                                host: string, b: string)
    requires host != "" && Trimmed(name) && name != "" && Free(name, Text.Only('='))
    requires forall w | w in [value] + attrs :: Free(w, Text.Only(';'))
    requires -1 <= i < |attrs| && forall j | i < j < |attrs| :: DomainAttribute(attrs[j]).None?
    requires i >= 0 ==> DomainAttribute(attrs[i]).Some?
    requires Says(if i < 0 then "" else DomainAttribute(attrs[i]).value, x)
    requires Separates(ScopeSet(Host(b)) + {Scope(if i < 0 then "" else DomainAttribute(attrs[i]).value, host).0})
    ensures var packed := Pack(if i < 0 then "" else DomainAttribute(attrs[i]).value, host, name);
      && WrittenCookie(name + ("=" + Join([value] + attrs, ";")), host)
           == Some(packed + "=" + Join([value] + Kept(attrs), ";") + "; Path=/")
      && Strip(packed, Prefixes(Scopes(Host(b)))) == if Receives(x, Host(host), Host(b)) then Some(name) else None
  {
    hide *;
    TrimmedStays(name);
    WritesInParts(name, value, attrs, host);
    LastDomainCounts(attrs, i);
    DeliveryByDomain(if i < 0 then "" else DomainAttribute(attrs[i]).value, x, host, b, name);
  }

  /** The cookies Go reads as they stand, by their characters: a token of RFC 9110 for a
      name, and printable ASCII but quotes, semicolons and backslashes for a value. */
  lemma SurvivesExactly(name: string, value: string)
    ensures CookieReading.Survives(name, value) <==>
      && name != ""
      && (forall c | c in name ::
            'a' <= c <= 'z' || 'A' <= c <= 'Z' || '0' <= c <= '9' || c in "!#$%&'*+-.^_`|~")
      && (forall c | c in value :: ' ' <= c <= '~' && c !in "\";\\")
      && (value == "" || value[|value| - 1] != ' ')
  {
    forall c: char
      ensures CookieReading.IsNameChar(c) <==>
        'a' <= c <= 'z' || 'A' <= c <= 'Z' || '0' <= c <= '9' || c in "!#$%&'*+-.^_`|~"
      ensures CookieReading.IsValueChar(c) <==> ' ' <= c <= '~' && c !in "\";\\"
    {
    }
    hide CookieReading.IsNameChar, CookieReading.IsValueChar;
  }

  /** A Cookie header: the cookies in order, each as name=value, a semicolon and a space
      between them. */
  lemma HeadersAreWritten(n: string, v: string, l: List<string>)
    ensures Header([]) == "" && Header([(n, v)]) == n + "=" + v
    ensures l != [] ==> Header([(n, v)] + l) == n + "=" + v + "; " + Header(l)
  {
    assert ([(n, v)] + l)[1..] == l && [(n, v)][1..] == [];
    Assoc(n + "=" + v, "; ", Header(l));
    assert n + "=" + v + "" == n + "=" + v;
  }
}
