/** Known answers, and what the standards the program follows say of its tables. */
module Vectors {
  import opened Text
  import opened Hash
  import opened Words
  import opened CharRefs
  import opened Base64
  import opened Pbkdf2
  import Password

  // --- FNV-1a ---

  function Bit(n: nat, i: nat): nat
  {
    PowIsPositive(i);
    n / Pow2(i) % 2
  }

  lemma {:induction false} PowIsPositive(k: nat)
    ensures Pow2(k) >= 1
  {
    if k > 0 {
      PowIsPositive(k - 1);
    }
  }

  lemma BitZero(n: nat)
    ensures Bit(n, 0) == n % 2
  {
  }

  lemma BitNext(n: nat, i: nat)
    ensures Bit(n, i + 1) == Bit(n / 2, i)
  {
    PowIsPositive(i);
    Divides(n, Pow2(i));
  }

  lemma Divides(n: nat, p: nat)
    requires p >= 1
    ensures n / (2 * p) == n / 2 / p
  {
    var q, r := n / 2 / p, n / 2 % p;
    assert n / 2 == p * q + r;
    Doubled(p, q);
    QuotientIs(n, 2 * p, q, 2 * r + n % 2);
  }

  lemma Doubled(p: nat, q: nat)
    ensures (2 * p) * q == 2 * (p * q)
  {
  }

  lemma QuotientIs(a: nat, m: nat, q: nat, r: nat)
    requires m >= 1 && r < m && a == m * q + r
    ensures a / m == q
  {
    var d := a / m - q;
    assert m * (a / m) + a % m == a;
    assert m * d == r - a % m;
    Multiple(m, d);
  }

  /** The exclusive or is taken bit by bit. */
  lemma {:induction false} XorIsBitwise(a: nat, b: nat, i: nat)
    ensures Bit(Xor(a, b), i) == if Bit(a, i) != Bit(b, i) then 1 else 0
    decreases i
  {
    XorStep(a, b);
    hide Bit, Xor;
    if i == 0 {
      BitZero(a);
      BitZero(b);
      BitZero(Xor(a, b));
    } else {
      XorIsBitwise(a / 2, b / 2, i - 1);
      BitNext(a, i - 1);
      BitNext(b, i - 1);
      BitNext(Xor(a, b), i - 1);
      assert Xor(a, b) / 2 == Xor(a / 2, b / 2);
    }
  }

  lemma XorStep(a: nat, b: nat)
    ensures Xor(a, b) == 2 * Xor(a / 2, b / 2) + if a % 2 != b % 2 then 1 else 0
  {
  }

  lemma {:induction false} XorZero(a: nat)
    ensures Xor(a, 0) == a
  {
    if a > 0 {
      XorZero(a / 2);
    }
  }

  lemma {:induction false} FnvFromSnoc(h: nat, s: string, c: char)
    ensures FnvFrom(h, s + [c]) == Step(FnvFrom(h, s), c)
    decreases |s|
  {
    hide Step;
    if s == "" {
      assert s + [c] == [c] && [c][1..] == "";
    } else {
      assert (s + [c])[1..] == s[1..] + [c];
      FnvFromSnoc(Step(h, s[0]), s[1..], c);
    }
  }

  /** The hash is 64-bit FNV-1a, with the published constants. */
  lemma HashIsFnv1a(s: string, c: char)
    ensures Fnv("") == 0xcbf29ce484222325
    ensures Fnv(s + [c]) == Xor(Fnv(s), c as int) * 0x100000001b3 % 0x1_0000_0000_0000_0000
  {
    hide Xor;
    FnvFromSnoc(OFFSET, s, c);
  }

  lemma OffsetWithA()
    ensures Xor(0xcbf29ce484222325, 0x61) == 0xcbf29ce484222344
  {
    hide Xor;
    XorStep(0xcbf29ce484222325, 0x61);
    XorStep(0x65f94e7242111192, 0x30);
    XorStep(0x32fca739210888c9, 0x18);
    XorStep(0x197e539c90844464, 0xc);
    XorStep(0xcbf29ce48422232, 0x6);
    XorStep(0x65f94e724211119, 0x3);
    XorStep(0x32fca739210888c, 0x1);
    XorZero(0x197e539c9084446);
  }

  /** So the hash of "a" is the published one. */
  lemma FnvOfA()
    ensures Fnv("a") == 0xaf63dc4c8601ec8c
  {
    hide Fnv, Xor;
    OffsetWithA();
    HashIsFnv1a("", 'a');
    assert "" + ['a'] == "a" && 'a' as int == 0x61;
  }

  // --- base64 ---

  const UPPER := "ABCDEFGHIJKLMNOPQRSTUVWXYZ"
  const LOWER := "abcdefghijklmnopqrstuvwxyz"
  const NUMERALS := "0123456789"

  lemma LettersAre(n: nat)
    ensures |UPPER| == |LOWER| == 26 && |NUMERALS| == 10
    ensures n < 26 ==> UPPER[n] == ('A' as int + n) as char && LOWER[n] == ('a' as int + n) as char
    ensures n < 10 ==> NUMERALS[n] == ('0' as int + n) as char
  {
  }

  /** The two alphabets, tables 1 and 2 of RFC 4648. */
  lemma AlphabetIs(n: nat)
    requires n < 64
    ensures |UPPER + LOWER + NUMERALS + "+/"| == |UPPER + LOWER + NUMERALS + "-_"| == 64
    ensures Digit(Std, n) == (UPPER + LOWER + NUMERALS + "+/")[n]
    ensures Digit(Url, n) == (UPPER + LOWER + NUMERALS + "-_")[n]
  {
    LettersAre(n);
    if 26 <= n {
      LettersAre(n - 26);
    }
    if 52 <= n {
      LettersAre(n - 52);
    }
    hide UPPER, LOWER, NUMERALS;
  }

  lemma EncodeThree(a: Alphabet, s: string, t: string)
    requires |s| == 3 && IsBytes(s) && IsBytes(t)
    ensures IsBytes(s + t) && Encode(a, s + t) == Encode(a, s) + Encode(a, t)
  {
    hide Group;
    assert (s + t)[3..] == t && s[3..] == "" && Encode(a, "") == "";
    assert forall i | 0 <= i < |s + t| :: (s + t)[i] == if i < 3 then s[i] else t[i - 3];
    var g := Group(a, s[0] as int, s[1] as int, s[2] as int);
    assert Encode(a, s) == g + "" == g;
    var st := s + t;
    assert IsBytes(st) && |st| >= 3 && st != "";
    assert Encode(a, st) == Group(a, st[0] as int, st[1] as int, st[2] as int) + Encode(a, st[3..]);
  }

  /** The examples of section 10 of RFC 4648. */
  lemma Base64Vectors()
    ensures Encode(Std, "") == "" && Encode(Std, "f") == "Zg" && Encode(Std, "fo") == "Zm8"
    ensures Encode(Std, "foo") == "Zm9v" && Encode(Std, "foob") == "Zm9vYg"
    ensures Encode(Std, "fooba") == "Zm9vYmE" && Encode(Std, "foobar") == "Zm9vYmFy"
  {
    hide *;
    ShortVectors();
    Joined("foo", "b", "foob", "Zm9v", "Yg", "Zm9vYg");
    Joined("foo", "ba", "fooba", "Zm9v", "YmE", "Zm9vYmE");
    Joined("foo", "bar", "foobar", "Zm9v", "YmFy", "Zm9vYmFy");
  }

  lemma Joined(s: string, t: string, st: string, x: string, y: string, xy: string)
    requires |s| == 3 && IsBytes(s) && IsBytes(t) && Encode(Std, s) == x && Encode(Std, t) == y
    requires s + t == st && x + y == xy
    ensures IsBytes(st) && Encode(Std, st) == xy
  {
    hide Encode;
    EncodeThree(Std, s, t);
  }

  lemma ShortVectors()
    ensures Encode(Std, "") == "" && Encode(Std, "f") == "Zg" && Encode(Std, "fo") == "Zm8"
    ensures Encode(Std, "foo") == "Zm9v" && Encode(Std, "b") == "Yg" && Encode(Std, "ba") == "YmE"
    ensures Encode(Std, "bar") == "YmFy" && IsBytes("foo") && IsBytes("b") && IsBytes("ba") && IsBytes("bar")
  {
    GroupIs("foo", "Zm9v");
    GroupIs("bar", "YmFy");
  }

  lemma GroupIs(s: string, t: string)
    requires |s| == 3 && IsBytes(s) && Group(Std, s[0] as int, s[1] as int, s[2] as int) == t
    ensures Encode(Std, s) == t
  {
    hide Group;
    assert s[3..] == "" && Encode(Std, "") == "" && t + "" == t;
  }

  // --- PBKDF2 ---

  /** The exclusive or of byte `k` of all of `us`. */
  function XorAll(us: seq<Bytes>, k: nat): bv8
    requires forall u | u in us :: k < |u|
  {
    if us == [] then 0 else XorAll(us[..|us| - 1], k) ^ us[|us| - 1][k]
  }

  /** `us` is the chain U_1, U_2, ... of one block: the function of the salt and the block's
      number in four octets, and then of each value before. */
  predicate IsChain(prf: Prf, salt: Bytes, i: nat, us: seq<Bytes>) {
    && (us != [] ==> us[0] == prf(salt + IntBytes(i)))
    && forall j | 0 < j < |us| :: us[j] == prf(us[j - 1])
  }

  /** A block of the key is the exclusive or of its whole chain, byte by byte. */
  lemma {:induction false} BlocksXorTheirChain(prf: Prf, size: nat, salt: Bytes, i: nat, us: seq<Bytes>, k: nat)
    requires HasSize(prf, size) && us != [] && IsChain(prf, salt, i, us) && k < size
    ensures (forall u | u in us :: |u| == size) && U(prf, salt, i, |us|) == us[|us| - 1]
    ensures F(prf, size, salt, i, |us|)[k] == XorAll(us, k)
    decreases |us|
  {
    hide F, U, IntBytes, XorAll, HasSize;
    ChainSizes(prf, size, salt, i, us);
    var c, init := |us|, us[..|us| - 1];
    assert forall u | u in init :: u in us;
    XorMore(us, k);
    if c == 1 {
      FirstRound(prf, size, salt, i);
      assert init == [];
    } else {
      BlocksXorTheirChain(prf, size, salt, i, init, k);
      NextRound(prf, size, salt, i, c);
    }
  }

  lemma ChainSizes(prf: Prf, size: nat, salt: Bytes, i: nat, us: seq<Bytes>)
    requires HasSize(prf, size) && IsChain(prf, salt, i, us)
    ensures forall u | u in us :: |u| == size
  {
    hide IntBytes;
    forall j | 0 <= j < |us|
      ensures |us[j]| == size
    {
      if j > 0 {
        assert us[j] == prf(us[j - 1]);
      }
    }
  }

  lemma XorMore(us: seq<Bytes>, k: nat)
    requires us != [] && forall u | u in us :: k < |u|
    ensures us[|us| - 1] in us && forall u | u in us[..|us| - 1] :: u in us
    ensures XorAll(us, k) == XorAll(us[..|us| - 1], k) ^ us[|us| - 1][k]
    ensures |us| == 1 ==> XorAll(us, k) == us[0][k]
  {
    if |us| == 1 {
      assert us[..0] == [] && (0 as bv8) ^ us[0][k] == us[0][k];
    }
  }

  /** A key of several blocks is theirs in order, from number one on. */
  lemma KeysAreBlocks(prf: Prf, size: nat, salt: Bytes, c: nat, l: nat, i: nat, k: nat)
    requires HasSize(prf, size) && size > 0 && c >= 1 && i < l && k < size
    ensures i * size + k < l * size
    ensures DerivedKey(prf, size, salt, c, l * size)[i * size + k] == F(prf, size, salt, i + 1, c)[k]
  {
    hide F, Blocks;
    Monotone(i + 1, l, size);
    assert (i + 1) * size == i * size + size;
    WholeBlocks(l, size);
    BlocksPrefix(prf, size, salt, c, i + 1, l);
    NextBlock(prf, size, salt, c, i + 1);
    var all, front := Blocks(prf, size, salt, c, l), Blocks(prf, size, salt, c, i + 1);
    assert all[i * size + k] == front[i * size + k];
  }

  lemma WholeBlocks(l: nat, size: nat)
    requires size > 0
    ensures BlockCount(l * size, size) == l
  {
    assert size * l == l * size;
    QuotientIs(l * size + size - 1, size, l, size - 1);
  }

  /** The first two counters, and the text of a fresh hash. */
  lemma HashesAreWritten(salt: Bytes, key: Bytes)
    ensures IntBytes(1) == [0, 0, 0, 1 as bv8] && IntBytes(2) == [0, 0, 0, 2 as bv8]
    ensures Password.Print(Password.ITERATIONS, salt, key)
         == "pbkdf2_sha256$600000$" + Encode(Std, Password.Chars(salt)) + "$" + Encode(Std, Password.Chars(key))
  {
    hide *;
    CounterIs(1);
    CounterIs(2);
    var s, k := Encode(Std, Password.Chars(salt)), Encode(Std, Password.Chars(key));
    PrintIs(salt, key);
    SixHundredThousand();
    Password.JoinFour("pbkdf2_sha256", "600000", s, k);
    FourText("pbkdf2_sha256", "600000", s, k);
    assert "pbkdf2_sha256" + "$" + "600000" + "$" == "pbkdf2_sha256$600000$";
  }

  lemma PrintIs(salt: Bytes, key: Bytes)
    ensures Password.Print(Password.ITERATIONS, salt, key)
         == Join(["pbkdf2_sha256", Password.Itoa(600_000), Encode(Std, Password.Chars(salt)),
                  Encode(Std, Password.Chars(key))], "$")
  {
    hide Join, Encode, Password.Itoa;
  }

  lemma FourText(a: string, b: string, c: string, d: string)
    ensures a + (['$'] + (b + (['$'] + (c + (['$'] + d))))) == a + "$" + b + "$" + c + "$" + d
  {
  }

  lemma CounterIs(i: nat)
    requires i < 0x100
    ensures IntBytes(i) == [0, 0, 0, i as bv8]
  {
    assert i / 0x100_0000 == 0 && i / 0x1_0000 == 0 && i / 0x100 == 0 && i % 0x100 == i;
  }

  lemma SixHundredThousand()
    ensures Password.Itoa(600_000) == "600000"
  {
    assert Password.Itoa(6) == "6" && Password.Itoa(60) == "60" && Password.Itoa(600) == "600";
    assert Password.Itoa(6000) == "6000" && Password.Itoa(60_000) == "60000";
  }

  // --- characters ---

  /** The white space of HTML, that of Go's and JavaScript's trimming, letters, and folding. */
  lemma CharactersAre(c: char, i: nat)
    ensures IsSpace(c) <==> c in " \t\n\U{0C}\r"
    ensures IsBlank(c) <==> c in " \t\n\U{0B}\U{0C}\r"
    ensures i < 26 ==> IsLetter(UPPER[i]) && IsLetter(LOWER[i])
    ensures i < 26 ==> LowerChar(UPPER[i]) == LowerChar(LOWER[i]) == LOWER[i]
    ensures LowerChar(c) != c ==> IsLetter(c)
  {
    LettersAre(i);
    hide UPPER, LOWER;
  }
}
