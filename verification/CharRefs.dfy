/** Character references in attribute values: decoding before a URL is resolved, and
    escaping for the quotes the rewritten value is spliced into. */
module CharRefs {
  import opened Text

  function DigitValue(c: char): int {
    if '0' <= c <= '9' then c as int - '0' as int
    else if 'a' <= LowerChar(c) <= 'z' then LowerChar(c) as int - 'a' as int + 10
    else 36
  }

  /** The number written by digits of `base`, or -1. */
  function Digits(s: string, base: int): (n: int)
    requires base > 0
    ensures n >= -1
  {
    if s == "" then 0
    else
      var d, hi := DigitValue(s[|s| - 1]), Digits(s[..|s| - 1], base);
      if hi < 0 || d >= base then -1 else hi * base + d
  }

  /** Go's `strconv.ParseInt(s, base, 32)`. */
  function ParseInt32(s: string, base: int): Option<int>
    requires base > 0
  {
    var negative := s != "" && s[0] == '-';
    var digits := if s != "" && (s[0] == '-' || s[0] == '+') then s[1..] else s;
    var n := Digits(digits, base);
    if digits == "" || n < 0 then None
    else if negative then if n <= 0x8000_0000 then Some(-n) else None
    else if n < 0x8000_0000 then Some(n) else None
  }

  /** The code point a reference's name or number stands for. */
  function DecodeEntity(e: string): Option<int> {
    var low := ToLower(e);
    if low == "amp" then Some('&' as int)
    else if low == "lt" then Some('<' as int)
    else if low == "gt" then Some('>' as int)
    else if low == "quot" then Some('"' as int)
    else if low == "apos" then Some('\'' as int)
    else if low == "nbsp" then Some(0xA0)
    else if |e| > 1 && e[0] == '#' then
      var hex := e[1] == 'x' || e[1] == 'X';
      var n := ParseInt32(if hex then e[2..] else e[1..], if hex then 16 else 10);
      if n.Some? && 0 < n.value <= 0x10FFFF then n else None
    else None
  }

  /** The UTF-8 bytes of a code point, as Go's `WriteRune` writes them: a surrogate
      becomes the replacement character. */
  function EncodeRune(n: int): string
    requires 0 <= n
  {
    if n < 0x80 then [n as char]
    else if n < 0x800 then [(0xC0 + n / 0x40) as char, (0x80 + n % 0x40) as char]
    else if 0xD800 <= n < 0xE000 || n > 0x10FFFF then [0xEF as char, 0xBF as char, 0xBD as char]
    else if n < 0x10000 then
      [(0xE0 + n / 0x1000) as char, (0x80 + n / 0x40 % 0x40) as char, (0x80 + n % 0x40) as char]
    else
      [(0xF0 + n / 0x40000) as char, (0x80 + n / 0x1000 % 0x40) as char,
       (0x80 + n / 0x40 % 0x40) as char, (0x80 + n % 0x40) as char]
  }

  /** The reference at the start of `s`, and the text after it. */
  function Reference(s: string): Option<(int, string)>
    requires s != "" && s[0] == '&'
    ensures Reference(s).Some? ==> Reference(s).value.0 > 0 && |Reference(s).value.1| < |s|
  {
    var semi := Find(s, Only(';'));
    if semi < |s| && 1 < semi <= 12 then
      var r := DecodeEntity(s[1..semi]);
      if r.Some? then Some((r.value, s[semi + 1..])) else None
    else None
  }

  /** The value a browser sees for the raw text `s` of an attribute. */
  function Unescape(s: string): string
    decreases |s|
  {
    if s == "" then ""
    else if s[0] == '&' && Reference(s).Some? then
      var r := Reference(s).value;
      EncodeRune(r.0) + Unescape(r.1)
    else s[..1] + Unescape(s[1..])
  }

  lemma {:induction false} NothingToUnescape(s: string)
    requires Free(s, Only('&'))
    ensures Unescape(s) == s
  {
    if s != "" {
      assert s[0] in s && !In(s[0], Only('&'));
      NothingToUnescape(s[1..]);
      assert s == s[..1] + s[1..];
    }
  }

  lemma UnescapeReferenceAt(s: string, r: (int, string))
    requires s != "" && s[0] == '&' && Reference(s) == Some(r)
    ensures Unescape(s) == EncodeRune(r.0) + Unescape(r.1)
  {
  }

  lemma UnescapePlainAt(s: string)
    requires s != "" && (s[0] == '&' ==> Reference(s).None?)
    ensures Unescape(s) == [s[0]] + Unescape(s[1..])
  {
    assert s[..1] == [s[0]];
  }

  method UnescapeHTML(s: string) returns (r: string)
    ensures r == Unescape(s)
  {
    hide *;
    if '&' !in s {
      NoReference(s);
      return s;
    }
    r := "";
    var i := 0;
    while i < |s|
      invariant i <= |s|
      invariant r + Unescape(s[i..]) == Unescape(s)
    {
      var rest := s[i..];
      if s[i] == '&' {
        var semi := Find(rest, Only(';'));
        if semi < |rest| && 1 < semi <= 12 {
          var e := DecodeEntity(rest[1..semi]);
          if e.Some? {
            UnescapeReferenceIn(s, i, semi, e.value);
            Assoc(r, EncodeRune(e.value), Unescape(s[i + semi + 1..]));
            r, i := r + EncodeRune(e.value), i + semi + 1;
            continue;
          }
        }
      }
      UnescapePlainIn(s, i);
      Assoc(r, [s[i]], Unescape(s[i + 1..]));
      r, i := r + [s[i]], i + 1;
    }
    assert s[i..] == "";
    UnescapeNothing();
  }

  lemma NoReference(s: string)
    requires '&' !in s
    ensures Unescape(s) == s
  {
    hide Unescape;
    assert forall i | 0 <= i < |s| :: s[i] in s;
    NothingToUnescape(s);
  }

  lemma UnescapeReferenceIn(s: string, i: nat, semi: nat, code: int)
    requires i < |s| && s[i] == '&' && semi == Find(s[i..], Only(';')) < |s| - i && 1 < semi <= 12
    requires DecodeEntity(s[i..][1..semi]) == Some(code)
    ensures code > 0 && Unescape(s[i..]) == EncodeRune(code) + Unescape(s[i + semi + 1..])
  {
    hide Unescape, EncodeRune, DecodeEntity, Find;
    var rest := s[i..];
    assert Reference(rest) == Some((code, rest[semi + 1..]));
    UnescapeReferenceAt(rest, (code, rest[semi + 1..]));
    assert rest[semi + 1..] == s[i + semi + 1..];
  }

  lemma UnescapePlainIn(s: string, i: nat)
    requires i < |s|
    requires s[i] == '&' ==> var semi := Find(s[i..], Only(';'));
      !(semi < |s| - i && 1 < semi <= 12 && DecodeEntity(s[i..][1..semi]).Some?)
    ensures Unescape(s[i..]) == [s[i]] + Unescape(s[i + 1..])
  {
    hide Unescape, DecodeEntity, Find;
    UnescapePlainAt(s[i..]);
    assert s[i..][1..] == s[i + 1..];
  }

  lemma UnescapeNothing()
    ensures Unescape("") == ""
  {
  }

  /** Go's `strings.ReplaceAll` for a one-byte pattern. */
  function ReplaceAll(s: string, c: char, sub: string): string {
    if s == "" then "" else (if s[0] == c then sub else s[..1]) + ReplaceAll(s[1..], c, sub)
  }

  const NO_QUOTE := '\0'

  function EscapeAttrValue(v: string, quote: char): string {
    var a := ReplaceAll(v, '&', "&amp;");
    if quote == '"' then ReplaceAll(a, '"', "&quot;")
    else if quote == '\'' then ReplaceAll(a, '\'', "&#39;")
    else a
  }

  function EscapeChar(c: char, quote: char): string {
    if c == '&' then "&amp;"
    else if c == quote && quote == '"' then "&quot;"
    else if c == quote && quote == '\'' then "&#39;"
    else [c]
  }

  lemma {:induction false} ReplaceAllAppend(a: string, b: string, c: char, sub: string)
    ensures ReplaceAll(a + b, c, sub) == ReplaceAll(a, c, sub) + ReplaceAll(b, c, sub)
  {
    hide ReplaceAll;
    if a == "" {
      assert a + b == b;
      ReplaceNothing(c, sub);
    } else {
      ReplaceAllAppend(a[1..], b, c, sub);
      assert a == [a[0]] + a[1..];
      ReplaceFirst(a[0], a[1..], c, sub);
      Assoc([a[0]], a[1..], b);
      ReplaceFirst(a[0], a[1..] + b, c, sub);
      Assoc(if a[0] == c then sub else [a[0]], ReplaceAll(a[1..], c, sub), ReplaceAll(b, c, sub));
    }
  }

  lemma ReplaceNothing(c: char, sub: string)
    ensures ReplaceAll("", c, sub) == ""
  {
  }

  lemma ReplaceFirst(d: char, v: string, c: char, sub: string)
    ensures ReplaceAll([d] + v, c, sub) == (if d == c then sub else [d]) + ReplaceAll(v, c, sub)
  {
    assert ([d] + v)[..1] == [d] && ([d] + v)[1..] == v;
  }

  lemma ReplaceOne(c: char, quote: char)
    ensures EscapeAttrValue([c], quote) == EscapeChar(c, quote)
  {
    ReplaceChar(c, '&', "&amp;");
    if c == '&' {
      ReplaceNone("&amp;", '"', "&quot;");
      ReplaceNone("&amp;", '\'', "&#39;");
    } else {
      ReplaceChar(c, '"', "&quot;");
      ReplaceChar(c, '\'', "&#39;");
    }
  }

  lemma ReplaceChar(d: char, c: char, sub: string)
    ensures ReplaceAll([d], c, sub) == if d == c then sub else [d]
  {
    assert [d][1..] == "";
  }

  lemma {:induction false} ReplaceNone(s: string, c: char, sub: string)
    ensures c !in s ==> ReplaceAll(s, c, sub) == s
  {
    if s != "" {
      ReplaceNone(s[1..], c, sub);
      assert s == s[..1] + s[1..];
    }
  }

  /** The two replacement passes escape character by character: the second pass never
      touches what the first one inserted. */
  lemma EscapeCons(c: char, v: string, quote: char)
    ensures EscapeAttrValue([c] + v, quote) == EscapeChar(c, quote) + EscapeAttrValue(v, quote)
  {
    var a, b := ReplaceAll([c], '&', "&amp;"), ReplaceAll(v, '&', "&amp;");
    ReplaceAllAppend([c], v, '&', "&amp;");
    ReplaceAllAppend(a, b, '"', "&quot;");
    ReplaceAllAppend(a, b, '\'', "&#39;");
    ReplaceOne(c, quote);
  }

  lemma UnescapeReference(ref: string, name: string, code: int, rest: string)
    requires ref == "&" + name + ";"
    requires 0 < |name| < 12 && Free(name, Only(';')) && DecodeEntity(name) == Some(code) && code > 0
    ensures Unescape(ref + rest) == EncodeRune(code) + Unescape(rest)
  {
    var s := ref + rest;
    FindIs(s, Only(';'), |name| + 1);
    assert s[1..|name| + 1] == name && s[|name| + 2..] == rest;
  }

  lemma QuoteReferences()
    ensures DecodeEntity("amp") == Some(38) && DecodeEntity("quot") == Some(34)
    ensures DecodeEntity("#39") == Some(39)
  {
    assert ToLower("amp") == "amp";
    assert ToLower("quot") == "quot";
    assert ToLower("#39") == "#39";
    assert "#39"[1..] == "39" && "39"[..1] == "3" && "3"[..0] == "";
    assert Digits("3", 10) == 3;
    assert Digits("39", 10) == 39;
  }

  lemma UnescapeEscapedChar(c: char, quote: char, rest: string)
    requires IsQuote(quote)
    ensures Unescape(EscapeChar(c, quote) + rest) == [c] + Unescape(rest)
  {
    QuoteReferences();
    if c == '&' {
      UnescapeReference("&amp;", "amp", 38, rest);
    } else if c == quote && quote == '"' {
      UnescapeReference("&quot;", "quot", 34, rest);
    } else if c == quote && quote == '\'' {
      UnescapeReference("&#39;", "#39", 39, rest);
    } else {
      assert ([c] + rest)[..1] == [c] && ([c] + rest)[1..] == rest;
    }
  }

  /** A rewritten value reaches the browser as itself. */
  lemma {:induction false} UnescapeEscape(v: string, quote: char)
    requires IsQuote(quote)
    ensures Unescape(EscapeAttrValue(v, quote)) == v
  {
    if v != "" {
      UnescapeEscape(v[1..], quote);
      assert v == [v[0]] + v[1..];
      EscapeCons(v[0], v[1..], quote);
      UnescapeEscapedChar(v[0], quote, EscapeAttrValue(v[1..], quote));
    }
  }

  /** A rewritten value cannot end the quotes it is spliced into. */
  lemma {:induction false} EscapedKeepsQuotes(v: string, quote: char)
    requires IsQuote(quote)
    ensures Free(EscapeAttrValue(v, quote), Only(quote))
  {
    if v != "" {
      EscapedKeepsQuotes(v[1..], quote);
      assert v == [v[0]] + v[1..];
      EscapeCons(v[0], v[1..], quote);
    }
  }
}
