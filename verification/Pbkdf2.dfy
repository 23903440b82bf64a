/** PBKDF2 with in-place buffers, against section 5.2 of RFC 8018. The pseudorandom
    function, HMAC under the password, is a parameter. */
module Pbkdf2 {

  type Bytes = seq<bv8>

  type Prf = Bytes -> Bytes

  ghost predicate HasSize(prf: Prf, size: nat) { forall m: Bytes :: |prf(m)| == size }

  // --- the standard ---

  function Octet(n: nat): bv8
    requires n < 0x100
  {
    n as bv8
  }

  /** INT (i): four octets, most significant first. */
  function IntBytes(i: nat): (b: Bytes)
    ensures |b| == 4
  {
    [Octet(i / 0x100_0000 % 0x100), Octet(i / 0x1_0000 % 0x100), Octet(i / 0x100 % 0x100), Octet(i % 0x100)]
  }

  function XorBytes(a: Bytes, b: Bytes): (r: Bytes)
    requires |a| == |b|
    ensures |r| == |a| && forall k | 0 <= k < |a| :: r[k] == a[k] ^ b[k]
  {
    seq(|a|, k requires 0 <= k < |a| => a[k] ^ b[k])
  }

  /** U_c of block `i`. */
  function U(prf: Prf, salt: Bytes, i: nat, c: nat): Bytes
    requires c >= 1
  {
    if c == 1 then prf(salt + IntBytes(i)) else prf(U(prf, salt, i, c - 1))
  }

  /** F (P, S, c, i): U_1 xor ... xor U_c. */
  ghost function F(prf: Prf, size: nat, salt: Bytes, i: nat, c: nat): (t: Bytes)
    requires c >= 1 && HasSize(prf, size)
    ensures |t| == size
  {
    if c == 1 then U(prf, salt, i, 1) else XorBytes(F(prf, size, salt, i, c - 1), U(prf, salt, i, c))
  }

  /** T_1 || ... || T_l. */
  ghost function Blocks(prf: Prf, size: nat, salt: Bytes, c: nat, l: nat): (dk: Bytes)
    requires c >= 1 && HasSize(prf, size)
    ensures |dk| == l * size
  {
    if l == 0 then [] else Blocks(prf, size, salt, c, l - 1) + F(prf, size, salt, l, c)
  }

  /** The number of blocks that hold `n` bytes. */
  function BlockCount(n: nat, size: nat): (l: nat)
    requires size > 0
  {
    (n + size - 1) / size
  }

  lemma BlockCountHolds(n: nat, size: nat)
    requires size > 0
    ensures var l := BlockCount(n, size); n <= l * size && (l > 0 ==> (l - 1) * size < n)
  {
    var l := BlockCount(n, size);
    var r := (n + size - 1) % size;
    assert n + size - 1 == l * size + r;
    assert (l - 1) * size == l * size - size;
  }

  ghost function DerivedKey(prf: Prf, size: nat, salt: Bytes, c: nat, n: nat): (dk: Bytes)
    requires c >= 1 && size > 0 && HasSize(prf, size)
    ensures |dk| == n
  {
    BlockCountHolds(n, size);
    Blocks(prf, size, salt, c, BlockCount(n, size))[..n]
  }

  function Number(b: bv8): (n: nat)
    ensures n < 0x100
  {
    b as int
  }

  /** The number that octets denote, most significant first. */
  function BigEndian(b: Bytes): nat {
    if b == [] then 0 else BigEndian(b[..|b| - 1]) * 0x100 + Number(b[|b| - 1])
  }

  /** Every four octets are the counter of the number they denote. */
  lemma IntBytesIsBigEndian(b: Bytes)
    requires |b| == 4
    ensures IntBytes(BigEndian(b)) == b
  {
    hide *;
    BigEndianFour(b);
    FourOctets(Number(b[0]), Number(b[1]), Number(b[2]), Number(b[3]));
    SameOctet(b[0]);
    SameOctet(b[1]);
    SameOctet(b[2]);
    SameOctet(b[3]);
    assert b == [b[0], b[1], b[2], b[3]];
  }

  lemma BigEndianFour(b: Bytes)
    requires |b| == 4
    ensures BigEndian(b) == ((Number(b[0]) * 0x100 + Number(b[1])) * 0x100 + Number(b[2])) * 0x100 + Number(b[3])
  {
    hide Number;
    assert b[..3][..2] == b[..2] && b[..2][..1] == b[..1] && b[..1][..0] == [];
    assert BigEndian(b[..1]) == Number(b[0]);
    assert BigEndian(b[..2]) == BigEndian(b[..1]) * 0x100 + Number(b[1]);
    assert BigEndian(b[..3]) == BigEndian(b[..2]) * 0x100 + Number(b[2]);
  }

  lemma SameOctet(b: bv8)
    ensures Octet(Number(b)) == b
  {
  }

  lemma FourOctets(p: nat, q: nat, r: nat, s: nat)
    requires p < 0x100 && q < 0x100 && r < 0x100 && s < 0x100
    ensures IntBytes(((p * 0x100 + q) * 0x100 + r) * 0x100 + s) == [Octet(p), Octet(q), Octet(r), Octet(s)]
  {
    hide Octet;
    var i := ((p * 0x100 + q) * 0x100 + r) * 0x100 + s;
    assert i / 0x100 == (p * 0x100 + q) * 0x100 + r;
    assert i / 0x1_0000 == p * 0x100 + q;
    assert i / 0x100_0000 == p;
  }

  lemma {:induction false} BlocksPrefix(prf: Prf, size: nat, salt: Bytes, c: nat, k: nat, l: nat)
    requires c >= 1 && HasSize(prf, size) && k <= l
    ensures Blocks(prf, size, salt, c, k) <= Blocks(prf, size, salt, c, l)
    decreases l
  {
    hide Blocks, F;
    if k < l {
      BlocksPrefix(prf, size, salt, c, k, l - 1);
      NextBlock(prf, size, salt, c, l);
    }
  }

  lemma CountsGrow(m: nat, n: nat, size: nat)
    requires size > 0 && m <= n
    ensures BlockCount(m, size) <= BlockCount(n, size)
  {
    var a, b := BlockCount(m, size), BlockCount(n, size);
    BlockCountHolds(m, size);
    BlockCountHolds(n, size);
    if a > b {
      Monotone(b, a - 1, size);
    }
  }

  lemma Monotone(x: nat, y: nat, k: nat)
    requires x <= y
    ensures x * k <= y * k
  {
  }

  /** A shorter key is a prefix of a longer one. */
  lemma ShorterKeysArePrefixes(prf: Prf, size: nat, salt: Bytes, c: nat, m: nat, n: nat)
    requires c >= 1 && size > 0 && HasSize(prf, size) && m <= n
    ensures DerivedKey(prf, size, salt, c, m) <= DerivedKey(prf, size, salt, c, n)
  {
    CountsGrow(m, n, size);
    BlockCountHolds(m, size);
    BlockCountHolds(n, size);
    var a, b := BlockCount(m, size), BlockCount(n, size);
    BlocksPrefix(prf, size, salt, c, a, b);
    var x, y := Blocks(prf, size, salt, c, a), Blocks(prf, size, salt, c, b);
    assert x[..m] == y[..m];
  }

  // --- the program ---

  /** A running HMAC: bytes are written to it, and a sum taken of all of them. */
  class Hmac {
    const sum: Prf
    const size: nat
    var input: Bytes

    constructor (prf: Prf, size: nat)
      ensures this.sum == prf && this.size == size
    {
      this.sum, this.size, this.input := prf, size, [];
    }

    method Reset()
      modifies this
      ensures input == []
    {
      input := [];
    }

    method Write(p: Bytes)
      modifies this
      ensures input == old(input) + p
    {
      input := input + p;
    }

    /** The sum in a buffer of its own. */
    method Sum() returns (t: array<bv8>)
      ensures fresh(t) && t[..] == sum(input)
    {
      var s := sum(input);
      t := new bv8[|s|](k requires 0 <= k < |s| => s[k]);
    }

    /** The sum over the contents of `u`. */
    method SumInto(u: array<bv8>)
      requires |sum(input)| == u.Length
      modifies u
      ensures u[..] == sum(input)
    {
      var s := sum(input);
      for k := 0 to u.Length
        invariant forall j | 0 <= j < k :: u[j] == s[j]
      {
        u[k] := s[k];
      }
    }
  }

  /** t ^= u, byte by byte. */
  method XorInto(t: array<bv8>, u: array<bv8>)
    requires t.Length == u.Length && t != u
    modifies t
    ensures t[..] == XorBytes(old(t[..]), u[..])
  {
    for x := 0 to t.Length
      invariant forall k | 0 <= k < x :: t[k] == old(t[k]) ^ u[k]
      invariant forall k | x <= k < t.Length :: t[k] == old(t[k])
    {
      t[x] := t[x] ^ u[x];
    }
  }

  /** The iterations count as the loop takes them: none below the first. */
  function Rounds(iter: int): (c: nat)
    ensures c >= 1
  {
    if iter < 1 then 1 else iter
  }

  /** One block of the key: `block` and `u` are the buffers every block reuses. */
  method DeriveBlock(h: Hmac, hashLen: nat, salt: Bytes, iter: int, i: nat, block: array<bv8>, u: array<bv8>)
    returns (t: array<bv8>)
    requires HasSize(h.sum, hashLen) && i >= 1 && block.Length == 4 && u.Length == hashLen && u != block
    modifies h, block, u
    ensures fresh(t) && t[..] == F(h.sum, hashLen, salt, i, Rounds(iter))
  {
    hide F, U, XorBytes;
    ghost var prf := h.sum;
    h.Reset();
    h.Write(salt);
    WriteCounter(block, i);
    h.Write(block[..]);
    assert h.input == salt + IntBytes(i);
    t := h.Sum();
    FirstRound(prf, hashLen, salt, i);
    CopyInto(u, t);
    var n := 2;
    while n <= iter
      invariant 2 <= n <= Rounds(iter) + 1
      invariant fresh(t) && t.Length == hashLen
      invariant u[..] == U(prf, salt, i, n - 1)
      invariant t[..] == F(prf, hashLen, salt, i, n - 1)
    {
      NextRound(prf, hashLen, salt, i, n);
      Rehash(h, hashLen, u);
      XorInto(t, u);
      n := n + 1;
    }
  }

  /** One round: the buffer is replaced by its own hash. */
  method Rehash(h: Hmac, hashLen: nat, u: array<bv8>)
    requires HasSize(h.sum, hashLen) && u.Length == hashLen
    modifies h, u
    ensures u[..] == h.sum(old(u[..]))
  {
    h.Reset();
    h.Write(u[..]);
    assert h.input == u[..];
    h.SumInto(u);
  }

  method WriteCounter(block: array<bv8>, i: nat)
    requires block.Length == 4
    modifies block
    ensures block[..] == IntBytes(i)
  {
    block[0] := Octet(i / 0x100_0000 % 0x100);
    block[1] := Octet(i / 0x1_0000 % 0x100);
    block[2] := Octet(i / 0x100 % 0x100);
    block[3] := Octet(i % 0x100);
  }

  method CopyInto(u: array<bv8>, t: array<bv8>)
    requires u.Length == t.Length && u != t
    modifies u
    ensures u[..] == t[..]
  {
    for k := 0 to u.Length
      invariant forall j | 0 <= j < k :: u[j] == t[j]
    {
      u[k] := t[k];
    }
  }

  method DeriveKey(prf: Prf, hashLen: nat, salt: Bytes, iter: int, keyLen: nat) returns (key: Bytes)
    requires hashLen > 0 && HasSize(prf, hashLen)
    ensures key == DerivedKey(prf, hashLen, salt, Rounds(iter), keyLen) && |key| == keyLen
  {
    hide Blocks, F;
    var h := new Hmac(prf, hashLen);
    var numBlocks := (keyLen + hashLen - 1) / hashLen;
    BlockCountHolds(keyLen, hashLen);
    var dk: Bytes := [];
    var block := new bv8[4];
    var u := new bv8[hashLen];
    BlocksStart(prf, hashLen, salt, Rounds(iter));
    for i := 1 to numBlocks + 1
      invariant h.sum == prf && u != block
      invariant dk == Blocks(prf, hashLen, salt, Rounds(iter), i - 1)
    {
      var t := DeriveBlock(h, hashLen, salt, iter, i, block, u);
      NextBlock(prf, hashLen, salt, Rounds(iter), i);
      dk := dk + t[..];
    }
    key := dk[..keyLen];
  }

  lemma BlocksStart(prf: Prf, size: nat, salt: Bytes, c: nat)
    requires c >= 1 && HasSize(prf, size)
    ensures Blocks(prf, size, salt, c, 0) == []
  {
  }

  lemma FirstRound(prf: Prf, size: nat, salt: Bytes, i: nat)
    requires HasSize(prf, size)
    ensures U(prf, salt, i, 1) == prf(salt + IntBytes(i)) == F(prf, size, salt, i, 1)
  {
  }

  lemma NextRound(prf: Prf, size: nat, salt: Bytes, i: nat, n: nat)
    requires n >= 2 && HasSize(prf, size)
    ensures U(prf, salt, i, n) == prf(U(prf, salt, i, n - 1))
    ensures |F(prf, size, salt, i, n - 1)| == |U(prf, salt, i, n)|
    ensures F(prf, size, salt, i, n) == XorBytes(F(prf, size, salt, i, n - 1), U(prf, salt, i, n))
  {
  }

  lemma NextBlock(prf: Prf, size: nat, salt: Bytes, c: nat, l: nat)
    requires c >= 1 && l >= 1 && HasSize(prf, size)
    ensures Blocks(prf, size, salt, c, l) == Blocks(prf, size, salt, c, l - 1) + F(prf, size, salt, l, c)
  {
  }
}
