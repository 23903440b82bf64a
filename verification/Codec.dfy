/** codec.js: a URL's text to a token and back. A JavaScript string is given by its code
    points, among which a surrogate that is not one of a pair counts as itself. */
module Codec {
  import opened Text
  import opened CharRefs
  import opened Base64

  type Str = s: seq<int> | forall i | 0 <= i < |s| :: 0 <= s[i] <= 0x10FFFF witness []

  const BOM := 0xFEFF
  const BOM_BYTES := [0xEF as char, 0xBB as char, 0xBF as char]
  const REPLACEMENT := 0xFFFD

  predicate IsSurrogate(c: int) { 0xD800 <= c < 0xE000 }

  /** What survives an encoding: a lone surrogate is replaced. */
  function Scalar(c: int): int { if IsSurrogate(c) then REPLACEMENT else c }

  // --- UTF-8 ---

  /** `TextEncoder`. */
  function Utf8(s: Str): string { if s == [] then "" else EncodeRune(s[0]) + Utf8(s[1..]) }

  /** How many bytes follow a lead byte, and the bounds of the first of them. */
  function Follow(b: int): (int, int, int) {
    if b < 0x80 then (0, 0, 0)
    else if b < 0xC2 then (-1, 0, 0)
    else if b < 0xE0 then (1, 0x80, 0xBF)
    else if b == 0xE0 then (2, 0xA0, 0xBF)
    else if b == 0xED then (2, 0x80, 0x9F)
    else if b < 0xF0 then (2, 0x80, 0xBF)
    else if b == 0xF0 then (3, 0x90, 0xBF)
    else if b < 0xF4 then (3, 0x80, 0xBF)
    else if b == 0xF4 then (3, 0x80, 0x8F)
    else (-1, 0, 0)
  }

  /** How many of the next `n` bytes can follow. */
  function Following(s: string, n: int, lo: int, hi: int): (k: nat)
    ensures k <= |s| && (n >= 0 ==> k <= n)
    decreases |s|
  {
    if n <= 0 || s == "" || !(lo <= s[0] as int <= hi) then 0 else 1 + Following(s[1..], n - 1, 0x80, 0xBF)
  }

  /** The code point that `n` bytes after the lead byte make up. */
  function Assemble(s: string, n: nat): int
    requires n < |s|
  {
    var b := s[0] as int;
    if n == 0 then b
    else if n == 1 then (b - 0xC0) * 0x40 + s[1] as int - 0x80
    else if n == 2 then ((b - 0xE0) * 0x40 + s[1] as int - 0x80) * 0x40 + s[2] as int - 0x80
    else (((b - 0xF0) * 0x40 + s[1] as int - 0x80) * 0x40 + s[2] as int - 0x80) * 0x40
         + (if n == 3 then s[3] as int else 0x80) - 0x80
  }

  /** The next code point of a byte string and the bytes it takes: the longest start of a
      sequence that cannot go on is replaced. */
  function NextRune(s: string): (r: (int, nat))
    requires s != ""
    ensures 0 < r.1 <= |s|
  {
    var (n, lo, hi) := Follow(s[0] as int);
    var k := Following(s[1..], n, lo, hi);
    if n < 0 || k < n then (REPLACEMENT, 1 + k) else (Assemble(s, n), 1 + n)
  }

  function Runes(s: string): seq<int>
    decreases |s|
  {
    if s == "" then [] else [NextRune(s).0] + Runes(s[NextRune(s).1..])
  }

  /** `TextDecoder`, which drops a byte order mark. */
  function TextDecode(s: string): seq<int> {
    Runes(if BOM_BYTES <= s then s[3..] else s)
  }

  lemma RuneIsBytes(c: int)
    requires 0 <= c <= 0x10FFFF
    ensures var e := EncodeRune(c); IsBytes(e) && 1 <= |e| <= 4
  {
  }

  lemma {:induction false} Utf8IsBytes(s: Str)
    ensures IsBytes(Utf8(s))
  {
    hide EncodeRune;
    if s != [] {
      RuneIsBytes(s[0]);
      Utf8IsBytes(s[1..]);
    }
  }

  lemma Following1(a: char, rest: string, lo: int, hi: int)
    requires lo <= a as int <= hi
    ensures Following([a] + rest, 1, lo, hi) == 1
  {
    assert ([a] + rest)[1..] == rest;
  }

  lemma Following2(a: char, b: char, rest: string, lo: int, hi: int)
    requires lo <= a as int <= hi && 0x80 <= b as int <= 0xBF
    ensures Following([a, b] + rest, 2, lo, hi) == 2
  {
    assert ([a, b] + rest)[1..] == [b] + rest;
    Following1(b, rest, 0x80, 0xBF);
  }

  lemma Following3(a: char, b: char, c: char, rest: string, lo: int, hi: int)
    requires lo <= a as int <= hi && 0x80 <= b as int <= 0xBF && 0x80 <= c as int <= 0xBF
    ensures Following([a, b, c] + rest, 3, lo, hi) == 3
  {
    assert ([a, b, c] + rest)[1..] == [b, c] + rest;
    Following2(b, c, rest, 0x80, 0xBF);
  }

  lemma TwoBytes(c: int, rest: string)
    requires 0x80 <= c < 0x800
    ensures NextRune(EncodeRune(c) + rest) == (c, 2) && |EncodeRune(c)| == 2
  {
    hide Following;
    var e := EncodeRune(c);
    var s := e + rest;
    assert e == [e[0], e[1]] && s[1..] == [e[1]] + rest;
    Following1(e[1], rest, 0x80, 0xBF);
    assert c == c / 0x40 * 0x40 + c % 0x40;
  }

  lemma ThreeBytes(c: int, rest: string)
    requires 0x800 <= c < 0x10000
    ensures |EncodeRune(c)| == 3 && NextRune(EncodeRune(c) + rest) == (Scalar(c), 3)
  {
    hide Following;
    var e := EncodeRune(c);
    var s := e + rest;
    assert e == [e[0], e[1], e[2]] && s[1..] == [e[1], e[2]] + rest;
    ThreeBounds(c);
    var (n, lo, hi) := Follow(s[0] as int);
    Following2(e[1], e[2], rest, lo, hi);
  }

  lemma ThreeBounds(c: int)
    requires 0x800 <= c < 0x10000
    ensures var e := EncodeRune(c); |e| == 3 && var (n, lo, hi) := Follow(e[0] as int);
      && n == 2 && lo <= e[1] as int <= hi && 0x80 <= e[2] as int <= 0xBF
      && ((e[0] as int - 0xE0) * 0x40 + e[1] as int - 0x80) * 0x40 + e[2] as int - 0x80 == Scalar(c)
  {
    if !IsSurrogate(c) {
      assert c / 0x40 == c / 0x1000 * 0x40 + c / 0x40 % 0x40;
      assert c == c / 0x40 * 0x40 + c % 0x40;
    }
  }

  lemma FourBytes(c: int, rest: string)
    requires 0x10000 <= c <= 0x10FFFF
    ensures |EncodeRune(c)| == 4 && NextRune(EncodeRune(c) + rest) == (c, 4)
  {
    hide Following;
    var e := EncodeRune(c);
    var s := e + rest;
    assert e == [e[0], e[1], e[2], e[3]] && s[1..] == [e[1], e[2], e[3]] + rest;
    FourBounds(c);
    var (n, lo, hi) := Follow(s[0] as int);
    Following3(e[1], e[2], e[3], rest, lo, hi);
  }

  lemma FourBounds(c: int)
    requires 0x10000 <= c <= 0x10FFFF
    ensures var e := EncodeRune(c); |e| == 4 && var (n, lo, hi) := Follow(e[0] as int);
      && n == 3 && lo <= e[1] as int <= hi && 0x80 <= e[2] as int <= 0xBF && 0x80 <= e[3] as int <= 0xBF
      && (((e[0] as int - 0xF0) * 0x40 + e[1] as int - 0x80) * 0x40 + e[2] as int - 0x80) * 0x40
         + e[3] as int - 0x80 == c
  {
    assert c / 0x1000 == c / 0x40000 * 0x40 + c / 0x1000 % 0x40;
    assert c / 0x40 == c / 0x1000 * 0x40 + c / 0x40 % 0x40;
    assert c == c / 0x40 * 0x40 + c % 0x40;
  }

  /** A code point's bytes decode to it, whatever follows. */
  lemma RuneReads(c: int, rest: string)
    requires 0 <= c <= 0x10FFFF
    ensures NextRune(EncodeRune(c) + rest) == (Scalar(c), |EncodeRune(c)|)
  {
    if c < 0x80 {
      assert (EncodeRune(c) + rest)[0] as int == c;
    } else if c < 0x800 {
      TwoBytes(c, rest);
    } else if c < 0x10000 {
      ThreeBytes(c, rest);
    } else {
      FourBytes(c, rest);
    }
  }

  function Scalars(s: Str): (r: Str)
    ensures |r| == |s| && forall i | 0 <= i < |s| :: r[i] == Scalar(s[i])
  {
    seq(|s|, i requires 0 <= i < |s| => Scalar(s[i]))
  }

  lemma {:induction false} RunesOfUtf8(s: Str)
    ensures Runes(Utf8(s)) == Scalars(s)
  {
    hide EncodeRune, NextRune, Scalar;
    if s != [] {
      var e, rest := EncodeRune(s[0]), Utf8(s[1..]);
      RuneIsSome(s[0]);
      RuneReads(s[0], rest);
      RunesOfUtf8(s[1..]);
      assert (e + rest)[|e|..] == rest;
    }
  }

  lemma RuneIsSome(c: int)
    requires 0 <= c <= 0x10FFFF
    ensures EncodeRune(c) != ""
  {
    RuneIsBytes(c);
    hide EncodeRune;
  }

  /** Only a byte order mark's own code point starts with its bytes. */
  lemma BomIsAlone(c: int, rest: string)
    requires 0 <= c <= 0x10FFFF
    ensures BOM_BYTES <= EncodeRune(c) + rest <==> c == BOM
    ensures |EncodeRune(BOM)| == 3
  {
    var s := EncodeRune(c) + rest;
    assert EncodeRune(BOM) == BOM_BYTES;
    if c < 0x80 || 0x10000 <= c {
      assert s[0] != 0xEF as char;
    } else if c < 0x800 {
      assert s[0] != 0xEF as char;
    } else {
      ThreeBytes(c, rest);
      assert s[..3] == EncodeRune(c);
      ThreeBytes(BOM, "");
      if EncodeRune(c) == BOM_BYTES {
        ThreeBounds(c);
        ThreeBounds(BOM);
      }
    }
  }

  // --- the codec ---

  function EncodeUrl(url: Str): string {
    Utf8IsBytes(url);
    BrowserEncode(Utf8(url))
  }

  function DecodeUrl(token: string): Option<seq<int>> {
    match BrowserDecode(token)
    case None => None
    case Some(s) => Some(TextDecode(s))
  }

  /** A string decodes from its token exactly when it has no lone surrogate and does not
      start with a byte order mark; no URL does either. */
  lemma CodecRoundTrip(url: Str)
    ensures DecodeUrl(EncodeUrl(url)) == Some(url) <==>
      (url == [] || url[0] != BOM) && forall i | 0 <= i < |url| :: !IsSurrogate(url[i])
  {
    hide BrowserEncode, BrowserDecode, Encode, Decode, Utf8, EncodeRune, Runes;
    var s := Utf8(url);
    Utf8IsBytes(url);
    EncodersAgree(s);
    EncodeIsToken(Url, s);
    DecodersAgree(Encode(Url, s));
    DecodeEncode(Url, s);
    RunesOfUtf8(url);
    Marked(url);
    if url != [] && url[0] == BOM {
      RunesOfUtf8(url[1..]);
    } else if Scalars(url) == url {
      assert forall i | 0 <= i < |url| :: url[i] == Scalar(url[i]);
    }
  }

  lemma Marked(url: Str)
    ensures url != [] && url[0] == BOM ==> TextDecode(Utf8(url)) == Runes(Utf8(url[1..]))
    ensures url == [] || url[0] != BOM ==> TextDecode(Utf8(url)) == Runes(Utf8(url))
  {
    hide EncodeRune, Runes;
    if url != [] {
      var e, rest := EncodeRune(url[0]), Utf8(url[1..]);
      BomIsAlone(url[0], rest);
      assert |e| == 3 ==> (e + rest)[3..] == rest;
    }
  }

  /** The bytes of an ASCII string, such as every URL the browser prints, are its
      characters: its token is the server's. */
  lemma {:induction false} AsciiIsItself(s: string, url: Str)
    requires |s| == |url| && forall i | 0 <= i < |s| :: s[i] as int == url[i] < 0x80
    ensures Utf8(url) == s && IsBytes(s) && EncodeUrl(url) == Encode(Url, s)
  {
    AsciiBytes(s, url);
    EncodersAgree(s);
    hide BrowserEncode, Encode;
  }

  lemma {:induction false} AsciiBytes(s: string, url: Str)
    requires |s| == |url| && forall i | 0 <= i < |s| :: s[i] as int == url[i] < 0x80
    ensures Utf8(url) == s && IsBytes(s)
  {
    if s != "" {
      AsciiBytes(s[1..], url[1..]);
      assert s == [s[0]] + s[1..];
    }
  }

  // --- as the program runs it ---

  /** `encode`: the bytes go into a binary string one by one. */
  method EncodeToken(url: Str) returns (token: string)
    ensures token == EncodeUrl(url)
  {
    hide BrowserEncode, Utf8;
    Utf8IsBytes(url);
    var bytes := Utf8(url);
    var bin := "";
    for i := 0 to |bytes|
      invariant bin == bytes[..i]
    {
      bin := bin + [bytes[i]];
    }
    assert bytes[..|bytes|] == bytes;
    token := BrowserEncode(bin);
  }

  /** `decode`: padding is added one character at a time and the bytes are filled in by
      index. */
  method DecodeToken(token: string) returns (url: Option<seq<int>>)
    ensures url == DecodeUrl(token)
  {
    hide Pad, Atob, FromUrl, TextDecode;
    var s := FromUrl(token);
    while |s| % 4 != 0
      invariant Pad(s) == Pad(FromUrl(token))
      decreases 3 - (|s| + 3) % 4
    {
      PadStep(s);
      s := s + "=";
    }
    PadStep(s);
    var bin := Atob(s);
    if bin.None? {
      return None;
    }
    var bytes := new char[|bin.value|];
    for i := 0 to |bin.value|
      invariant bytes[..i] == bin.value[..i]
    {
      bytes[i] := bin.value[i];
    }
    assert bytes[..] == bin.value;
    url := Some(TextDecode(bytes[..]));
  }
}
