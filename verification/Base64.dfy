/** Base64 (sections 4 and 5 of RFC 4648) as the Go server and the browser compute it. */
module Base64 {
  import opened Text
  import opened Words
  import opened CharRefs

  datatype Alphabet = Std | Url

  predicate IsBytes(s: string) { forall i | 0 <= i < |s| :: s[i] as int < 256 }

  function Digit(a: Alphabet, n: nat): char
    requires n < 64
  {
    if n < 26 then ('A' as int + n) as char
    else if n < 52 then ('a' as int + n - 26) as char
    else if n < 62 then ('0' as int + n - 52) as char
    else if n == 62 then (if a.Std? then '+' else '-')
    else if a.Std? then '/' else '_'
  }

  function Value(a: Alphabet, c: char): (n: int)
    ensures -1 <= n < 64
  {
    if 'A' <= c <= 'Z' then c as int - 'A' as int
    else if 'a' <= c <= 'z' then c as int - 'a' as int + 26
    else if '0' <= c <= '9' then c as int - '0' as int + 52
    else if c == (if a.Std? then '+' else '-') then 62
    else if c == (if a.Std? then '/' else '_') then 63
    else -1
  }

  predicate IsToken(a: Alphabet, s: string) { forall i | 0 <= i < |s| :: Value(a, s[i]) >= 0 }

  lemma DigitValue(a: Alphabet, n: nat)
    requires n < 64
    ensures Value(a, Digit(a, n)) == n
  {
  }

  // --- unpadded groups ---

  function Byte(n: int): char
    requires 0 <= n < 256
  {
    n as char
  }

  /** Three bytes as four digits. */
  function Group(a: Alphabet, x: int, y: int, z: int): string
    requires 0 <= x < 256 && 0 <= y < 256 && 0 <= z < 256
  {
    [Digit(a, x / 4), Digit(a, x % 4 * 16 + y / 16), Digit(a, y % 16 * 4 + z / 64), Digit(a, z % 64)]
  }

  function Encode(a: Alphabet, s: string): string
    requires IsBytes(s)
  {
    if s == "" then ""
    else if |s| == 1 then Group(a, s[0] as int, 0, 0)[..2]
    else if |s| == 2 then Group(a, s[0] as int, s[1] as int, 0)[..3]
    else Group(a, s[0] as int, s[1] as int, s[2] as int) + Encode(a, s[3..])
  }

  /** Four digits as three bytes. */
  function Ungroup(p: int, q: int, r: int, t: int): string
    requires 0 <= p < 64 && 0 <= q < 64 && 0 <= r < 64 && 0 <= t < 64
  {
    [Byte(p * 4 + q / 16), Byte(q % 16 * 16 + r / 4), Byte(r % 4 * 64 + t)]
  }

  /** The bytes of an unpadded string; left-over bits are ignored, as both decoders do. */
  function Decode(a: Alphabet, s: string): Option<string> {
    if !IsToken(a, s) || |s| % 4 == 1 then None
    else Some(DecodeGroups(a, s))
  }

  function DecodeGroups(a: Alphabet, s: string): string
    requires IsToken(a, s) && |s| % 4 != 1
  {
    if s == "" then ""
    else if |s| == 2 then Ungroup(Value(a, s[0]), Value(a, s[1]), 0, 0)[..1]
    else if |s| == 3 then Ungroup(Value(a, s[0]), Value(a, s[1]), Value(a, s[2]), 0)[..2]
    else Ungroup(Value(a, s[0]), Value(a, s[1]), Value(a, s[2]), Value(a, s[3])) + DecodeGroups(a, s[4..])
  }

  lemma GroupRoundTrip(a: Alphabet, x: int, y: int, z: int)
    requires 0 <= x < 256 && 0 <= y < 256 && 0 <= z < 256
    ensures var g := Group(a, x, y, z);
      && |g| == 4 && IsToken(a, g)
      && Ungroup(Value(a, g[0]), Value(a, g[1]), Value(a, g[2]), Value(a, g[3])) == [Byte(x), Byte(y), Byte(z)]
  {
    hide Digit, Value;
    DigitValue(a, x / 4);
    DigitValue(a, x % 4 * 16 + y / 16);
    DigitValue(a, y % 16 * 4 + z / 64);
    DigitValue(a, z % 64);
    assert (x % 4 * 16 + y / 16) / 16 == x % 4 && (x % 4 * 16 + y / 16) % 16 == y / 16;
    assert (y % 16 * 4 + z / 64) / 4 == y % 16 && (y % 16 * 4 + z / 64) % 4 == z / 64;
  }

  lemma {:induction false} EncodeIsToken(a: Alphabet, s: string)
    requires IsBytes(s)
    ensures IsToken(a, Encode(a, s)) && |Encode(a, s)| % 4 != 1
  {
    hide Group, Value;
    if s != "" {
      GroupRoundTrip(a, s[0] as int, if |s| > 1 then s[1] as int else 0, if |s| > 2 then s[2] as int else 0);
      if |s| > 2 {
        EncodeIsToken(a, s[3..]);
      }
    }
  }

  lemma {:induction false} DecodeEncodeGroups(a: Alphabet, s: string)
    requires IsBytes(s)
    ensures IsToken(a, Encode(a, s)) && |Encode(a, s)| % 4 != 1
    ensures DecodeGroups(a, Encode(a, s)) == s
  {
    hide Group, Value, Ungroup;
    EncodeIsToken(a, s);
    if s != "" {
      var x, y, z := s[0] as int, if |s| > 1 then s[1] as int else 0, if |s| > 2 then s[2] as int else 0;
      GroupRoundTrip(a, x, y, z);
      GroupTails(a, x, y, z);
      if |s| == 1 {
        assert s == [s[0]];
      } else if |s| == 2 {
        assert s == [s[0], s[1]];
      } else {
        DecodeEncodeGroups(a, s[3..]);
        var g := Group(a, x, y, z);
        var e := g + Encode(a, s[3..]);
        assert e[4..] == Encode(a, s[3..]);
        assert s == [s[0], s[1], s[2]] + s[3..];
      }
    }
  }

  /** A short group decodes without the digits it leaves out. */
  lemma GroupTails(a: Alphabet, x: int, y: int, z: int)
    requires 0 <= x < 256 && 0 <= y < 256 && 0 <= z < 256
    ensures var g := Group(a, x, y, z);
      && |g| == 4 && Value(a, g[0]) >= 0 && Value(a, g[1]) >= 0 && Value(a, g[2]) >= 0
      && Ungroup(Value(a, g[0]), Value(a, g[1]), 0, 0)[..1] == [Byte(x)]
      && Ungroup(Value(a, g[0]), Value(a, g[1]), Value(a, g[2]), 0)[..2] == [Byte(x), Byte(y)]
  {
    GroupRoundTrip(a, x, y, z);
    hide Digit, Value;
  }

  /** Decoding undoes encoding, for every byte string. */
  lemma DecodeEncode(a: Alphabet, s: string)
    requires IsBytes(s)
    ensures Decode(a, Encode(a, s)) == Some(s)
  {
    DecodeEncodeGroups(a, s);
  }

  // --- Go's decoder ---

  function DropBreaks(s: string): string {
    if s == "" then "" else (if s[0] == '\r' || s[0] == '\n' then "" else s[..1]) + DropBreaks(s[1..])
  }

  /** Go's decoder ignores line breaks in its input. */
  function DecodeText(a: Alphabet, s: string): Option<string> { Decode(a, DropBreaks(s)) }

  lemma {:induction false} NoBreaks(a: Alphabet, s: string)
    requires IsToken(a, s)
    ensures DropBreaks(s) == s
  {
    if s != "" {
      NoBreaks(a, s[1..]);
      assert Value(a, s[0]) >= 0;
      assert s == s[..1] + s[1..];
    }
  }

  lemma DecodeTextEncode(a: Alphabet, s: string)
    requires IsBytes(s)
    ensures DecodeText(a, Encode(a, s)) == Some(s)
  {
    EncodeIsToken(a, s);
    NoBreaks(a, Encode(a, s));
    DecodeEncode(a, s);
  }

  lemma {:induction false} DecodedIsBytes(a: Alphabet, s: string)
    requires IsToken(a, s) && |s| % 4 != 1
    ensures IsBytes(DecodeGroups(a, s))
  {
    hide Value;
    if |s| >= 4 {
      DecodedIsBytes(a, s[4..]);
    }
  }

  // --- the browser: padded standard Base64, translated ---

  /** The browser's `btoa`. */
  function Btoa(s: string): string
    requires IsBytes(s)
  {
    Encode(Std, s) + match |s| % 3 case 0 => "" case 1 => "==" case _ => "="
  }

  /** encode of codec.js: translate the alphabet and drop the padding. */
  function BrowserEncode(s: string): string
    requires IsBytes(s)
  {
    TrimRight(ReplaceAll(ReplaceAll(Btoa(s), '+', "-"), '/', "_"), Only('='))
  }

  lemma {:induction false} TranslateDigits(s: string, c: char, d: char, t: string)
    requires |s| == |t| && forall i | 0 <= i < |s| :: t[i] == if s[i] == c then d else s[i]
    ensures ReplaceAll(s, c, [d]) == t
  {
    if s != "" {
      TranslateDigits(s[1..], c, d, t[1..]);
      assert t == t[..1] + t[1..];
    }
  }

  /** The translation between the two alphabets. */
  function ToUrl(s: string): string { ReplaceAll(ReplaceAll(s, '+', "-"), '/', "_") }

  function UrlChar(c: char): char { if c == '+' then '-' else if c == '/' then '_' else c }

  lemma ToUrlIs(s: string)
    ensures |ToUrl(s)| == |s| && forall i | 0 <= i < |s| :: ToUrl(s)[i] == UrlChar(s[i])
  {
    var t := seq(|s|, i requires 0 <= i < |s| => if s[i] == '+' then '-' else s[i]);
    var u := seq(|s|, i requires 0 <= i < |s| => UrlChar(s[i]));
    TranslateDigits(s, '+', '-', t);
    TranslateDigits(t, '/', '_', u);
  }

  lemma UrlDigit(n: nat)
    requires n < 64
    ensures UrlChar(Digit(Std, n)) == Digit(Url, n)
  {
  }

  lemma UrlGroup(x: int, y: int, z: int)
    requires 0 <= x < 256 && 0 <= y < 256 && 0 <= z < 256
    ensures |Group(Std, x, y, z)| == |Group(Url, x, y, z)| == 4
    ensures forall i | 0 <= i < 4 :: UrlChar(Group(Std, x, y, z)[i]) == Group(Url, x, y, z)[i]
  {
    UrlDigit(x / 4);
    UrlDigit(x % 4 * 16 + y / 16);
    UrlDigit(y % 16 * 4 + z / 64);
    UrlDigit(z % 64);
    hide Digit, UrlChar;
  }

  lemma {:induction false} UrlEncode(s: string)
    requires IsBytes(s)
    ensures |Encode(Std, s)| == |Encode(Url, s)|
    ensures forall i | 0 <= i < |Encode(Std, s)| :: UrlChar(Encode(Std, s)[i]) == Encode(Url, s)[i]
  {
    if s != "" {
      UrlGroup(s[0] as int, if |s| > 1 then s[1] as int else 0, if |s| > 2 then s[2] as int else 0);
      hide Group, UrlChar;
      if |s| > 2 {
        UrlEncode(s[3..]);
      }
    }
  }

  lemma {:induction false} TrimPadding(s: string, pad: string)
    requires s == "" || s[|s| - 1] != '='
    requires forall i | 0 <= i < |pad| :: pad[i] == '='
    ensures TrimRight(s + pad, Only('=')) == s
    decreases |pad|
  {
    if pad == "" {
      assert s + pad == s;
    } else {
      var p := pad[..|pad| - 1];
      TrimPadding(s, p);
      assert (s + pad)[..|s + pad| - 1] == s + p;
      assert (s + pad)[|s + pad| - 1] == pad[|pad| - 1];
    }
  }

  lemma TokenHasNoPadding(a: Alphabet, s: string)
    requires IsToken(a, s)
    ensures forall i | 0 <= i < |s| :: s[i] != '='
  {
    assert Value(a, '=') < 0;
  }

  /** The browser's encoder computes the server's encoding. */
  lemma EncodersAgree(s: string)
    requires IsBytes(s)
    ensures BrowserEncode(s) == Encode(Url, s)
  {
    var e, u := Encode(Std, s), Encode(Url, s);
    var b := Btoa(s);
    var pad := b[|e|..];
    ToUrlIs(b);
    UrlEncode(s);
    EncodeIsToken(Url, s);
    TokenHasNoPadding(Url, u);
    hide Encode, TrimRight, ReplaceAll;
    assert forall i | 0 <= i < |b| :: ToUrl(b)[i] == (u + pad)[i];
    assert ToUrl(b) == u + pad;
    TrimPadding(u, pad);
  }

  // --- the browser's decoder ---

  /** The forgiving decoder `atob`: white space is dropped, then up to two '=' when the
      length is a multiple of four. */
  function Atob(s: string): Option<string> {
    var t := Squeeze(s);
    var u :=
      if |t| % 4 == 0 && HasSuffix(t, "==") then t[..|t| - 2]
      else if |t| % 4 == 0 && HasSuffix(t, "=") then t[..|t| - 1]
      else t;
    Decode(Std, u)
  }

  function Squeeze(s: string): string {
    if s == "" then "" else (if IsSpace(s[0]) then "" else s[..1]) + Squeeze(s[1..])
  }

  function Pad(s: string): string
    decreases 3 - (|s| + 3) % 4
  {
    if |s| % 4 == 0 then s else Pad(s + "=")
  }

  function FromUrl(token: string): string { ReplaceAll(ReplaceAll(token, '-', "+"), '_', "/") }

  /** decode of codec.js, up to its UTF-8 step. */
  function BrowserDecode(token: string): Option<string> { Atob(Pad(FromUrl(token))) }

  lemma PadStep(s: string)
    ensures Pad(s) == if |s| % 4 == 0 then s else Pad(s + "=")
  {
  }

  function StdChar(c: char): char { if c == '-' then '+' else if c == '_' then '/' else c }

  lemma FromUrlIs(s: string)
    ensures |FromUrl(s)| == |s| && forall i | 0 <= i < |s| :: FromUrl(s)[i] == StdChar(s[i])
  {
    var t := seq(|s|, i requires 0 <= i < |s| => if s[i] == '-' then '+' else s[i]);
    var u := seq(|s|, i requires 0 <= i < |s| => StdChar(s[i]));
    TranslateDigits(s, '-', '+', t);
    TranslateDigits(t, '_', '/', u);
  }

  lemma {:induction false} SqueezeNothing(s: string)
    requires forall i | 0 <= i < |s| :: !IsSpace(s[i])
    ensures Squeeze(s) == s
  {
    if s != "" {
      SqueezeNothing(s[1..]);
      assert s == s[..1] + s[1..];
    }
  }

  lemma {:induction false} SameValues(s: string, t: string)
    requires |s| == |t| && IsToken(Std, s) && IsToken(Url, t) && |s| % 4 != 1
    requires forall i | 0 <= i < |s| :: Value(Std, s[i]) == Value(Url, t[i])
    ensures DecodeGroups(Std, s) == DecodeGroups(Url, t)
  {
    hide Value, Ungroup;
    if |s| >= 4 {
      SameValues(s[4..], t[4..]);
    }
  }

  lemma StdValue(c: char)
    ensures Value(Url, c) >= 0 ==> Value(Std, StdChar(c)) == Value(Url, c) && !IsSpace(StdChar(c)) && StdChar(c) != '='
  {
  }

  function Padding(n: nat): string {
    match n % 4 case 0 => "" case 1 => "===" case 2 => "==" case _ => "="
  }

  lemma {:induction false} PadIs(s: string)
    ensures Pad(s) == s + Padding(|s|)
    decreases 3 - (|s| + 3) % 4
  {
    if |s| % 4 != 0 {
      PadIs(s + "=");
      assert "=" + Padding(|s| + 1) == Padding(|s|);
      Assoc(s, "=", Padding(|s| + 1));
    }
  }

  // --- the browser's decoder on any string ---

  function Equals(n: nat): string { seq(n, _ => '=') }

  /** `atob` after it has dropped white space. */
  function AtobSqueezed(t: string): Option<string> {
    Decode(Std,
      if |t| % 4 == 0 && HasSuffix(t, "==") then t[..|t| - 2]
      else if |t| % 4 == 0 && HasSuffix(t, "=") then t[..|t| - 1]
      else t)
  }

  /** A length and a number of '=' after it that `atob` accepts. */
  predicate Fits(n: nat, e: nat) {
    if e == 0 then n % 4 != 1 else e <= 2 && (n + e) % 4 == 0
  }

  lemma FitsLength(n: nat, e: nat)
    ensures Fits(n, e) ==> n % 4 != 1
  {
  }

  lemma EqualsSpoil(body: string, e: nat)
    requires e > 0
    ensures Decode(Std, body + Equals(e)) == None
  {
    var t := body + Equals(e);
    assert t[|body|] == '=' && Value(Std, t[|body|]) < 0;
  }

  lemma NoSuffix(body: string)
    requires body == "" || body[|body| - 1] != '='
    ensures !HasSuffix(body, "=") && !HasSuffix(body, "==")
  {
    if body != "" {
      assert body[|body| - 1..][0] != '=';
      assert |body| >= 2 ==> body[|body| - 2..][1] != '=';
    }
  }

  lemma OneEqual(body: string)
    requires body == "" || body[|body| - 1] != '='
    ensures var t := body + Equals(1);
      HasSuffix(t, "=") && t[..|t| - 1] == body && (HasSuffix(t, "==") ==> body == "")
  {
    var t := body + Equals(1);
    assert t[|t| - 1..] == "=";
    assert |t| >= 2 ==> t[|t| - 2..][0] == body[|body| - 1];
  }

  lemma ManyEquals(body: string, e: nat)
    requires e >= 2
    ensures var t := body + Equals(e); HasSuffix(t, "==") && t[..|t| - 2] == body + Equals(e - 2)
  {
    var t := body + Equals(e);
    assert t[|t| - 2..] == "==";
  }

  lemma AtobIs(body: string, e: nat)
    requires body == "" || body[|body| - 1] != '='
    ensures AtobSqueezed(body + Equals(e))
         == if IsToken(Std, body) && Fits(|body|, e) then Some(DecodeGroups(Std, body)) else None
  {
    hide *;
    if e == 0 {
      AtobNone(body);
    } else if (|body| + e) % 4 != 0 {
      AtobOdd(body, e);
    } else if e == 1 {
      AtobOne(body);
    } else {
      AtobMany(body, e);
    }
  }

  lemma AtobNone(body: string)
    requires body == "" || body[|body| - 1] != '='
    ensures AtobSqueezed(body + Equals(0))
         == if IsToken(Std, body) && Fits(|body|, 0) then Some(DecodeGroups(Std, body)) else None
  {
    hide IsToken, DecodeGroups, HasSuffix;
    assert body + Equals(0) == body;
    NoSuffix(body);
  }

  lemma AtobOdd(body: string, e: nat)
    requires e > 0 && (|body| + e) % 4 != 0
    ensures !Fits(|body|, e) && AtobSqueezed(body + Equals(e)) == None
  {
    hide Decode, HasSuffix;
    EqualsSpoil(body, e);
  }

  lemma AtobCuts(t: string, body: string)
    requires |t| % 4 == 0
    requires if HasSuffix(t, "==") then t[..|t| - 2] == body else HasSuffix(t, "=") && t[..|t| - 1] == body
    ensures AtobSqueezed(t) == Decode(Std, body)
  {
    hide Decode;
  }

  lemma DecodeBody(body: string, e: nat)
    requires 1 <= e <= 2 && (|body| + e) % 4 == 0
    ensures Fits(|body|, e) && |body| % 4 != 1
    ensures Decode(Std, body) == if IsToken(Std, body) then Some(DecodeGroups(Std, body)) else None
  {
    hide IsToken, DecodeGroups;
  }

  lemma AtobOne(body: string)
    requires (body == "" || body[|body| - 1] != '=') && (|body| + 1) % 4 == 0
    ensures AtobSqueezed(body + Equals(1))
         == if IsToken(Std, body) && Fits(|body|, 1) then Some(DecodeGroups(Std, body)) else None
  {
    hide IsToken, DecodeGroups, Decode, Fits, HasSuffix, AtobSqueezed;
    var t := body + Equals(1);
    OneEqual(body);
    AtobCuts(t, body);
    DecodeBody(body, 1);
  }

  lemma AtobMany(body: string, e: nat)
    requires e >= 2 && (|body| + e) % 4 == 0
    ensures AtobSqueezed(body + Equals(e))
         == if IsToken(Std, body) && Fits(|body|, e) then Some(DecodeGroups(Std, body)) else None
  {
    hide IsToken, DecodeGroups, Decode, HasSuffix, AtobSqueezed;
    ManyEquals(body, e);
    AtobCuts(body + Equals(e), body + Equals(e - 2));
    if e == 2 {
      assert body + Equals(0) == body;
      DecodeBody(body, 2);
    } else {
      EqualsSpoil(body, e - 2);
    }
  }

  lemma SqueezeCons(c: char, s: string)
    ensures Squeeze([c] + s) == (if IsSpace(c) then "" else [c]) + Squeeze(s)
  {
    assert ([c] + s)[..1] == [c] && ([c] + s)[1..] == s;
  }

  lemma {:induction false} SqueezeAppend(a: string, b: string)
    ensures Squeeze(a + b) == Squeeze(a) + Squeeze(b)
  {
    hide Squeeze;
    if a == "" {
      assert a + b == b;
      SqueezeNothing("");
    } else {
      SqueezeAppend(a[1..], b);
      assert a == [a[0]] + a[1..];
      SqueezeCons(a[0], a[1..]);
      Assoc([a[0]], a[1..], b);
      SqueezeCons(a[0], a[1..] + b);
      Assoc(if IsSpace(a[0]) then "" else [a[0]], Squeeze(a[1..]), Squeeze(b));
    }
  }

  lemma {:induction false} SqueezeTranslated(s: string, t: string)
    requires |t| == |s| && forall i | 0 <= i < |s| :: t[i] == StdChar(s[i])
    ensures |Squeeze(t)| == |Squeeze(s)|
    ensures forall i | 0 <= i < |Squeeze(s)| :: Squeeze(t)[i] == StdChar(Squeeze(s)[i])
  {
    if s != "" {
      SqueezeTranslated(s[1..], t[1..]);
      assert IsSpace(t[0]) <==> IsSpace(s[0]);
      hide StdChar;
      assert s[..1][0] == s[0] && t[..1][0] == t[0];
    }
  }

  /** What is left of a string once white space and '=' at its end are gone. */
  function Body(s: string): string { TrimRight(Squeeze(s), Only('=')) }

  /** How many '=' the browser's decoder sees after the body, its own padding included. */
  function EqualsAfter(s: string): nat { |Squeeze(s)| - |Body(s)| + |Padding(|s|)| }

  /** Characters of either alphabet. */
  predicate IsMixed(s: string) { forall i | 0 <= i < |s| :: Value(Std, StdChar(s[i])) >= 0 }

  predicate BrowserReads(s: string) { IsMixed(Body(s)) && Fits(|Body(s)|, EqualsAfter(s)) }

  lemma {:induction false} TrimmedAre(s: string)
    ensures var b := TrimRight(s, Only('=')); s == b + Equals(|s| - |b|)
    decreases |s|
  {
    if s != "" && s[|s| - 1] == '=' {
      TrimmedAre(s[..|s| - 1]);
    }
  }

  lemma SqueezedPadding(n: nat)
    ensures Squeeze(Padding(n)) == Padding(n) == Equals(|Padding(n)|)
  {
    SqueezeNothing(Padding(n));
  }

  /** The browser reads exactly these strings, and so it reads them. */
  lemma BrowserReadsExactly(s: string)
    ensures BrowserReads(s) ==> IsToken(Std, FromUrl(Body(s))) && |FromUrl(Body(s))| % 4 != 1
    ensures BrowserDecode(s)
         == if BrowserReads(s) then Some(DecodeGroups(Std, FromUrl(Body(s)))) else None
  {
    hide Squeeze, FromUrl, Pad, DecodeGroups, Padding, Value, StdChar, Fits, TrimRight, AtobSqueezed;
    FitsLength(|Body(s)|, EqualsAfter(s));
    var t, c, b := FromUrl(s), Squeeze(s), Body(s);
    FromUrlIs(s);
    FromUrlIs(b);
    PadIs(t);
    SqueezeAppend(t, Padding(|s|));
    SqueezedPadding(|s|);
    SqueezeTranslated(s, t);
    TrimmedAre(c);
    var k := |c| - |b|;
    StdEquals();
    assert Squeeze(t) == FromUrl(b) + Equals(k);
    assert Equals(k) + Equals(|Padding(|s|)|) == Equals(EqualsAfter(s));
    Assoc(FromUrl(b), Equals(k), Equals(|Padding(|s|)|));
    AtobIs(FromUrl(b), EqualsAfter(s));
    AtobSplits(Pad(t));
  }

  lemma StdEquals()
    ensures StdChar('=') == '=' && forall c :: StdChar(c) == '=' ==> c == '='
  {
  }

  lemma AtobSplits(s: string)
    ensures Atob(s) == AtobSqueezed(Squeeze(s))
  {
    hide Squeeze, Decode;
  }

  /** A character of neither alphabet makes the browser refuse. */
  lemma NotReadable(s: string, i: nat)
    requires i < |s| && !IsSpace(s[i]) && s[i] != '=' && Value(Std, StdChar(s[i])) < 0
    ensures BrowserDecode(s) == None
  {
    hide Value, StdChar, Fits, BrowserDecode;
    BrowserReadsExactly(s);
    SqueezeKeeps(s, i);
    var c, b := Squeeze(s), Body(s);
    TrimmedAre(c);
    var j :| 0 <= j < |c| && c[j] == s[i];
    assert j < |b| && b[j] == s[i];
  }

  lemma {:induction false} SqueezeKeeps(s: string, i: nat)
    requires i < |s| && !IsSpace(s[i])
    ensures s[i] in Squeeze(s)
  {
    if i > 0 {
      SqueezeKeeps(s[1..], i - 1);
    }
  }

  lemma {:induction false} OnlyBreaks(s: string)
    requires IsToken(Url, DropBreaks(s))
    ensures Squeeze(s) == DropBreaks(s)
  {
    if s != "" {
      var d := DropBreaks(s[1..]);
      if s[0] == '\r' || s[0] == '\n' {
        assert DropBreaks(s) == "" + d == d;
        OnlyBreaks(s[1..]);
      } else {
        assert (s[..1] + d)[0] == s[0] && (s[..1] + d)[1..] == d;
        TokenIsNoSpace(s[0]);
        TokenTail(s[..1] + d);
        OnlyBreaks(s[1..]);
      }
    }
  }

  lemma TokenTail(s: string)
    requires s != "" && IsToken(Url, s)
    ensures IsToken(Url, s[1..]) && Value(Url, s[0]) >= 0
  {
  }

  lemma TokenIsNoSpace(c: char)
    ensures Value(Url, c) >= 0 ==> !IsSpace(c) && c != '='
  {
  }

  /** The two decoders agree on a string exactly when, if it holds base64url characters
      and line breaks alone, its breaks do not mislead the browser's padding or both
      refuse it, and otherwise the browser refuses it too. */
  lemma DecodersAgreeExactly(s: string)
    ensures var g := DropBreaks(s);
      BrowserDecode(s) == DecodeText(Url, s) <==>
        if IsToken(Url, g) then |g| % 4 == 1 || |s| % 4 == 0 || |s| % 4 == |g| % 4 else !BrowserReads(s)
  {
    var g := DropBreaks(s);
    BrowserReadsExactly(s);
    hide BrowserDecode, DropBreaks, DecodeGroups, Squeeze;
    if IsToken(Url, g) {
      OnlyBreaks(s);
      TokenBody(s);
      if |g| % 4 != 1 && BrowserReads(s) {
        SameValues(FromUrl(g), g);
      }
    }
  }

  lemma TokenBody(s: string)
    requires IsToken(Url, Squeeze(s))
    ensures var g := Squeeze(s);
      && Body(s) == g && IsMixed(g) && EqualsAfter(s) == |Padding(|s|)|
      && |FromUrl(g)| == |g| && IsToken(Std, FromUrl(g))
      && forall i | 0 <= i < |g| :: Value(Std, FromUrl(g)[i]) == Value(Url, g[i])
  {
    hide Squeeze, FromUrl, Padding, Value, StdChar;
    var g := Squeeze(s);
    FromUrlIs(g);
    forall i | 0 <= i < |g|
      ensures Value(Std, StdChar(g[i])) == Value(Url, g[i]) && g[i] != '='
    {
      StdValue(g[i]);
      TokenIsNoSpace(g[i]);
    }
    if g != "" {
      assert !In(g[|g| - 1], Only('='));
    }
  }

  /** On every string of base64url characters, of any length, the two decoders give the
      same bytes or both refuse. */
  lemma DecodersAgree(token: string)
    requires IsToken(Url, token)
    ensures BrowserDecode(token) == Decode(Url, token)
  {
    hide BrowserDecode, Decode;
    NoBreaks(Url, token);
    DecodersAgreeExactly(token);
  }
}
