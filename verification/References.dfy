/** Character references by their text: the named ones, and every number in decimal and in
    hexadecimal. */
module References {
  import opened Text
  import opened CharRefs
  import Hash
  import Password

  lemma NameReads(name: string, code: int, rest: string)
    requires 0 < |name| < 12 && Free(name, Only(';')) && DecodeEntity(name) == Some(code) && code > 0
    ensures Unescape("&" + name + ";" + rest) == EncodeRune(code) + Unescape(rest)
  {
    hide *;
    UnescapeReference("&" + name + ";", name, code, rest);
  }

  /** The named references, in any case. */
  lemma NamedReferences(name: string, rest: string)
    ensures var s := "&" + name + ";" + rest;
      && (ToLower(name) == "amp" ==> Unescape(s) == "&" + Unescape(rest))
      && (ToLower(name) == "lt" ==> Unescape(s) == "<" + Unescape(rest))
      && (ToLower(name) == "gt" ==> Unescape(s) == ">" + Unescape(rest))
      && (ToLower(name) == "quot" ==> Unescape(s) == "\"" + Unescape(rest))
      && (ToLower(name) == "apos" ==> Unescape(s) == "'" + Unescape(rest))
      && (ToLower(name) == "nbsp" ==> Unescape(s) == "\U{C2}\U{A0}" + Unescape(rest))
  {
    if ToLower(name) in {"amp", "lt", "gt", "quot", "apos", "nbsp"} {
      NameIsFree(name);
      var code := DecodeEntity(name).value;
      NamedCodes(name);
      hide *;
      NameReads(name, code, rest);
    }
  }

  lemma NameIsFree(name: string)
    requires ToLower(name) in {"amp", "lt", "gt", "quot", "apos", "nbsp"}
    ensures Free(name, Only(';')) && 0 < |name| < 12 && DecodeEntity(name).Some? && DecodeEntity(name).value > 0
  {
    var low := ToLower(name);
    assert |name| == |low| > 0;
    assert forall i | 0 <= i < |low| :: low[i] != ';';
    forall i | 0 <= i < |name|
      ensures name[i] != ';'
    {
      assert low[i] == LowerChar(name[i]);
    }
  }

  lemma NamedCodes(name: string)
    requires DecodeEntity(name).Some?
    ensures var low, e := ToLower(name), DecodeEntity(name).value;
      e >= 0 && EncodeRune(e) ==
        if low == "amp" then "&" else if low == "lt" then "<" else if low == "gt" then ">"
        else if low == "quot" then "\"" else if low == "apos" then "'" else if low == "nbsp" then "\U{C2}\U{A0}"
        else EncodeRune(e)
  {
    hide ParseInt32;
  }

  // --- numbers ---

  lemma {:induction false} DecimalIs(n: nat, k: nat)
    requires k >= 1 && n < Pow(10, k)
    ensures 0 < |Password.Itoa(n)| <= k && Free(Password.Itoa(n), Only(';'))
  {
    if n >= 10 {
      DecimalIs(n / 10, k - 1);
    }
  }

  function Pow(b: nat, k: nat): nat { if k == 0 then 1 else b * Pow(b, k - 1) }

  lemma {:induction false} HexDigits(n: nat, k: nat)
    requires k >= 1 && n < Pow(16, k)
    ensures 0 < |Hash.Hex(n)| <= k && Free(Hash.Hex(n), Only(';')) && Digits(Hash.Hex(n), 16) == n
  {
    var s := Hash.Hex(n);
    HexDigit(n % 16);
    if n >= 16 {
      HexDigits(n / 16, k - 1);
      assert s[..|s| - 1] == Hash.Hex(n / 16);
    } else {
      assert s[..0] == "" && s == [Hash.DIGITS[n]];
    }
  }

  lemma HexDigit(d: nat)
    requires d < 16
    ensures DigitValue(Hash.DIGITS[d]) == d && Hash.DIGITS[d] != ';'
  {
  }

  lemma Bounds()
    ensures Pow(10, 7) == 10_000_000 && Pow(16, 6) == 0x100_0000
  {
    assert Pow(10, 3) == 1000 && Pow(10, 5) == 100_000;
    assert Pow(16, 2) == 0x100 && Pow(16, 4) == 0x1_0000;
  }

  lemma NumberIs(digits: string, hex: bool, x: char, n: nat)
    requires 0 < |digits| <= 7 && Free(digits, Only(';')) && 0 < n <= 0x10FFFF && x in "xX"
    requires Digits(digits, if hex then 16 else 10) == n && digits[0] != '-' && digits[0] != '+'
    requires !hex ==> digits[0] !in "xX"
    ensures var e := if hex then "#" + [x] + digits else "#" + digits;
      0 < |e| < 12 && Free(e, Only(';')) && DecodeEntity(e) == Some(n)
  {
    hide *;
    var lead := if hex then "#" + [x] else "#";
    ParsedInt(digits, if hex then 16 else 10, n);
    assert "#" + ['x'] == "#x" && "#" + ['X'] == "#X";
    NumberDecodes(lead, digits, hex, n);
    LeadIsFree(lead, digits);
  }

  lemma ParsedInt(digits: string, base: int, n: nat)
    requires base > 0 && digits != "" && digits[0] != '-' && digits[0] != '+' && Digits(digits, base) == n <= 0x10FFFF
    ensures ParseInt32(digits, base) == Some(n)
  {
    hide Digits;
  }

  lemma NumberDecodes(lead: string, digits: string, hex: bool, n: nat)
    requires digits != "" && (if hex then lead in {"#x", "#X"} else lead == "#" && digits[0] !in "xX")
    requires ParseInt32(digits, if hex then 16 else 10) == Some(n) && 0 < n <= 0x10FFFF
    ensures DecodeEntity(lead + digits) == Some(n)
  {
    hide ParseInt32, ToLower;
    var e := lead + digits;
    assert e[0] == '#';
    NotNamed(e);
    assert e[|lead|..] == digits && (!hex ==> e[1] == digits[0]);
  }

  lemma LeadIsFree(lead: string, digits: string)
    requires lead in {"#", "#x", "#X"} && Free(digits, Only(';'))
    ensures Free(lead + digits, Only(';'))
  {
  }

  lemma NotNamed(e: string)
    requires e != "" && e[0] == '#'
    ensures ToLower(e) !in {"amp", "lt", "gt", "quot", "apos", "nbsp"}
  {
    assert ToLower(e)[0] == '#';
  }

  lemma FirstDigit(digits: string, base: int)
    requires base in {10, 16} && digits != "" && Digits(digits, base) >= 0
    ensures digits[0] != '-' && digits[0] != '+' && digits[0] !in "xX"
    decreases |digits|
  {
    if |digits| > 1 {
      FirstDigit(digits[..|digits| - 1], base);
    }
  }

  /** Every code point, written as a number: in decimal, and in hexadecimal after either x. */
  lemma NumericReferences(n: nat, x: char, rest: string)
    requires 0 < n <= 0x10FFFF && x in "xX"
    ensures Unescape("&" + ("#" + Password.Itoa(n)) + ";" + rest) == EncodeRune(n) + Unescape(rest)
    ensures Unescape("&" + ("#" + [x] + Hash.Hex(n)) + ";" + rest) == EncodeRune(n) + Unescape(rest)
  {
    hide *;
    Bounds();
    var d, h := Password.Itoa(n), Hash.Hex(n);
    DecimalIs(n, 7);
    HexDigits(n, 6);
    Password.DigitsOfItoa(n);
    FirstDigit(d, 10);
    FirstDigit(h, 16);
    NumberIs(d, false, x, n);
    NumberIs(h, true, x, n);
    NameReads("#" + d, n, rest);
    NameReads("#" + [x] + h, n, rest);
  }

  // --- what is not a reference, and what becomes one ---

  /** An ampersand that starts no reference stands for itself: its name is too long, or no
      semicolon ends it. */
  lemma OthersStandForThemselves(name: string, rest: string)
    requires Free(name, Only(';')) && (|name| >= 12 || name == "" || rest == "")
    requires rest == "" || rest[0] == ';'
    ensures Unescape("&" + (name + rest)) == "&" + Unescape(name + rest)
  {
    var s := "&" + (name + rest);
    assert s[1..] == name + rest && s[0] == '&';
    assert forall i | 0 <= i < |name| :: s[i + 1] == name[i];
    FindIs(s, Only(';'), |name| + 1);
    assert Reference(s).None?;
    hide Unescape, Reference;
    UnescapePlainAt(s);
  }

  /** A value is escaped character by character: the ampersand, and the quote it is put in. */
  lemma EscapesAre(c: char, v: string, q: char)
    requires IsQuote(q)
    ensures EscapeAttrValue("", q) == ""
    ensures EscapeAttrValue([c] + v, q) ==
      (if c == '&' then "&amp;" else if c != q then [c] else if q == '"' then "&quot;" else "&#39;")
      + EscapeAttrValue(v, q)
  {
    EscapeCons(c, v, q);
  }
}
