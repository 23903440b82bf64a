/** 64-bit FNV-1a, written as the Go server and the browser runtime write it. */
module Hash {
  import opened Text

  function Xor(a: nat, b: nat): nat
    decreases a + b
  {
    if a + b == 0 then 0 else 2 * Xor(a / 2, b / 2) + if a % 2 != b % 2 then 1 else 0
  }

  function And(a: nat, b: nat): nat
    decreases a + b
  {
    if a + b == 0 then 0 else 2 * And(a / 2, b / 2) + if a % 2 == 1 && b % 2 == 1 then 1 else 0
  }

  function Pow2(k: nat): nat { if k == 0 then 1 else 2 * Pow2(k - 1) }

  lemma {:induction false} XorBound(a: nat, b: nat, k: nat)
    requires a < Pow2(k) && b < Pow2(k)
    ensures Xor(a, b) < Pow2(k)
  {
    if k > 0 && a + b > 0 {
      XorBound(a / 2, b / 2, k - 1);
    }
  }

  /** Masking with `2^k - 1` is reduction modulo `2^k`. */
  lemma {:induction false} AndMask(a: nat, k: nat)
    ensures Pow2(k) >= 1 && And(a, Pow2(k) - 1) == a % Pow2(k)
    decreases k
  {
    if k == 0 {
      AndZero(a);
    } else {
      AndMask(a / 2, k - 1);
      var p := Pow2(k - 1);
      hide And;
      Halves(p);
      AndOdd(a, 2 * p - 1);
      ModHalves(a, p);
    }
  }

  lemma Halves(p: nat)
    requires p >= 1
    ensures (2 * p - 1) / 2 == p - 1 && (2 * p - 1) % 2 == 1
  {
  }

  lemma AndOdd(a: nat, b: nat)
    requires b % 2 == 1
    ensures And(a, b) == 2 * And(a / 2, b / 2) + a % 2
  {
  }

  lemma {:induction false} AndZero(a: nat)
    ensures And(a, 0) == 0
  {
    if a > 0 {
      AndZero(a / 2);
    }
  }

  lemma ModHalves(a: nat, p: nat)
    requires p >= 1
    ensures a % (2 * p) == 2 * ((a / 2) % p) + a % 2
  {
    var q := (a / 2) / p;
    var r := 2 * ((a / 2) % p) + a % 2;
    assert a / 2 == p * q + (a / 2) % p;
    assert a == 2 * (p * q) + r;
    assert 2 * (p * q) == (2 * p) * q;
    ModUnique(a, 2 * p, q, r);
  }

  lemma ModUnique(a: nat, m: nat, q: nat, r: nat)
    requires m >= 1 && r < m && a == m * q + r
    ensures a % m == r
  {
    var d := a / m - q;
    assert m * d == r - a % m;
    Multiple(m, d);
  }

  lemma Multiple(m: int, d: int)
    requires m >= 0
    ensures d >= 1 ==> m * d >= m
    ensures d <= -1 ==> m * d <= -m
  {
    var less, more := d - 1, -d - 1;
    assert less >= 0 ==> less * m >= 0;
    assert more >= 0 ==> more * m >= 0;
  }

  const U64 := 0x1_0000_0000_0000_0000
  const OFFSET := 14695981039346656037
  const PRIME := 1099511628211

  lemma Pow2Is64()
    ensures Pow2(64) == U64
  {
    assert Pow2(2) == 4;
    Pow2Add(2, 2);
    Pow2Add(4, 4);
    Pow2Add(8, 8);
    Pow2Add(16, 16);
    Pow2Add(32, 32);
  }

  lemma {:induction false} Pow2Add(a: nat, b: nat)
    ensures Pow2(a + b) == Pow2(a) * Pow2(b)
  {
    if a > 0 {
      Pow2Add(a - 1, b);
      DoubleProduct(Pow2(a - 1), Pow2(b));
      assert Pow2(a + b) == 2 * Pow2(a - 1 + b);
    }
  }

  lemma DoubleProduct(x: nat, y: nat)
    ensures 2 * (x * y) == (2 * x) * y
  {
  }

  /** One byte of the hash: an exclusive or, then a product that wraps at 64 bits. */
  function Step(h: nat, c: char): nat { (Xor(h, c as int) * PRIME) % U64 }

  function FnvFrom(h: nat, s: string): nat
    decreases |s|
  {
    if s == "" then h else FnvFrom(Step(h, s[0]), s[1..])
  }

  function Fnv(s: string): nat { FnvFrom(OFFSET, s) }

  /** fnv1a64 of the server: `uint64` arithmetic. */
  method Fnv1a64(s: string) returns (h: nat)
    ensures h == Fnv(s) < U64
  {
    h := OFFSET;
    var i := 0;
    assert s[0..] == s;
    while i < |s|
      invariant i <= |s| && h < U64
      invariant FnvFrom(h, s[i..]) == Fnv(s)
    {
      assert s[i..][1..] == s[i + 1..];
      h := Xor(h, s[i] as int);
      h := (h * PRIME) % U64;
      i := i + 1;
    }
  }

  /** fnv1a64 of the browser runtime: unbounded integers, masked after every operation;
      it folds case itself. */
  method Fnv1a64Masked(str: string) returns (h: nat)
    ensures h == Fnv(ToLower(str)) < U64
  {
    var bytes := ToLower(str);
    var mask := U64 - 1;
    Pow2Is64();
    h := OFFSET;
    var i := 0;
    assert bytes[0..] == bytes;
    while i < |bytes|
      invariant i <= |bytes| && h < U64
      invariant FnvFrom(h, bytes[i..]) == Fnv(bytes)
    {
      assert bytes[i..][1..] == bytes[i + 1..];
      var x := Xor(h, bytes[i] as int);
      XorBound(h, bytes[i] as int, 64);
      AndMask(x, 64);
      SmallMod(x, U64);
      AndMask(x * PRIME, 64);
      h := And(x, mask);
      h := And(h * PRIME, mask);
      i := i + 1;
    }
  }

  lemma SmallMod(x: nat, m: nat)
    requires x < m
    ensures x % m == x
  {
  }

  // --- hexadecimal ---

  const DIGITS := "0123456789abcdef"

  /** Go's `FormatUint(n, 16)` and JavaScript's `toString(16)`. */
  function Hex(n: nat): (s: string)
    ensures s != ""
  {
    (if n < 16 then "" else Hex(n / 16)) + [DIGITS[n % 16]]
  }

  lemma {:induction false} HexChars(n: nat)
    ensures forall c | c in Hex(n) :: c in DIGITS
  {
    if n >= 16 {
      HexChars(n / 16);
    }
  }

  lemma DigitsDistinct(i: nat, j: nat)
    requires i < 16 && j < 16 && DIGITS[i] == DIGITS[j]
    ensures i == j
  {
  }

  lemma {:induction false} HexInjective(m: nat, n: nat)
    requires Hex(m) == Hex(n)
    ensures m == n
    decreases m + n
  {
    var a, b := Hex(m), Hex(n);
    assert a[|a| - 1] == DIGITS[m % 16] && b[|b| - 1] == DIGITS[n % 16];
    DigitsDistinct(m % 16, n % 16);
    assert a[..|a| - 1] == (if m < 16 then "" else Hex(m / 16));
    assert b[..|b| - 1] == (if n < 16 then "" else Hex(n / 16));
    if m >= 16 && n >= 16 {
      HexInjective(m / 16, n / 16);
    }
  }
}
