/** Stored password hashes, "pbkdf2_sha256$<iterations>$<salt>$<key>": printing one and
    checking a password against one. The random salt and HMAC-SHA-256 are parameters. */
module Password {
  import opened Text
  import opened Words
  import opened CharRefs
  import opened Base64
  import opened Pbkdf2

  const ITERATIONS: nat := 600_000
  const KEY_LEN: nat := 32
  const HASH_LEN: nat := 32
  const SCHEME := "pbkdf2_sha256"
  const MAX_INT: nat := 0x7FFF_FFFF_FFFF_FFFF

  /** HMAC-SHA-256, by key. */
  type Mac = Bytes -> Prf

  ghost predicate IsMac(mac: Mac) { forall key: Bytes :: HasSize(mac(key), HASH_LEN) }

  datatype Verdict = Ok(matches: bool) | InvalidHash

  // --- numbers ---

  function Itoa(n: nat): (s: string)
    ensures s != "" && forall c | c in s :: '0' <= c <= '9'
  {
    var d := [('0' as int + n % 10) as char];
    if n < 10 then d else Itoa(n / 10) + d
  }

  /** Go's `strconv.Atoi` with 64-bit integers. */
  function Atoi(s: string): Option<int> {
    var digits := if s != "" && (s[0] == '-' || s[0] == '+') then s[1..] else s;
    var n := Digits(digits, 10);
    if digits == "" || n < 0 then None
    else if s[0] == '-' then if n <= MAX_INT + 1 then Some(-n) else None
    else if n <= MAX_INT then Some(n) else None
  }

  lemma {:induction false} DigitsOfItoa(n: nat)
    ensures Digits(Itoa(n), 10) == n
  {
    var s := Itoa(n);
    if n >= 10 {
      DigitsOfItoa(n / 10);
      assert s[..|s| - 1] == Itoa(n / 10);
    } else {
      assert s[..0] == "";
    }
  }

  lemma AtoiItoa(n: nat)
    requires n <= MAX_INT
    ensures Atoi(Itoa(n)) == Some(n)
  {
    DigitsOfItoa(n);
    assert '0' <= Itoa(n)[0] <= '9' by { assert Itoa(n)[0] in Itoa(n); }
    hide Itoa, Digits;
  }

  // --- bytes and the characters that stand for them ---

  function Chars(b: Bytes): (s: string)
    ensures |s| == |b| && IsBytes(s)
  {
    seq(|b|, i requires 0 <= i < |b| => Number(b[i]) as char)
  }

  function ToBytes(s: string): (b: Bytes)
    requires IsBytes(s)
    ensures |b| == |s|
  {
    seq(|s|, i requires 0 <= i < |s| => Octet(s[i] as int))
  }

  lemma BytesOfChars(b: Bytes)
    ensures ToBytes(Chars(b)) == b
  {
    forall i | 0 <= i < |b|
      ensures ToBytes(Chars(b))[i] == b[i]
    {
      SameOctet(b[i]);
    }
  }

  // --- the stored form ---

  function Print(iter: nat, salt: Bytes, key: Bytes): string {
    Join([SCHEME, Itoa(iter), Encode(Std, Chars(salt)), Encode(Std, Chars(key))], "$")
  }

  datatype Stored = Stored(iter: nat, salt: Bytes, key: Bytes)

  function DecodeBytes(s: string): Option<Bytes> {
    match DecodeText(Std, s)
    case None => None
    case Some(d) => DecodedIsBytes(Std, DropBreaks(s)); Some(ToBytes(d))
  }

  function Parse(encoded: string): (r: Option<Stored>)
    ensures r.Some? ==> 0 < r.value.iter <= MAX_INT
  {
    var parts := Split(encoded, '$');
    if |parts| != 4 || parts[0] != SCHEME then None
    else
      var iter, salt, key := Atoi(parts[1]), DecodeBytes(parts[2]), DecodeBytes(parts[3]);
      if iter.None? || iter.value <= 0 || salt.None? || key.None? then None
      else Some(Stored(iter.value, salt.value, key.value))
  }

  lemma FieldDecodes(b: Bytes)
    ensures DecodeBytes(Encode(Std, Chars(b))) == Some(b)
    ensures Free(Encode(Std, Chars(b)), Only('$'))
  {
    hide Encode, DecodeText, Chars, ToBytes;
    DecodeTextEncode(Std, Chars(b));
    BytesOfChars(b);
    EncodeIsToken(Std, Chars(b));
    assert Value(Std, '$') < 0;
  }

  lemma SplitFour(a: string, b: string, c: string, d: string)
    requires Free(a, Only('$')) && Free(b, Only('$')) && Free(c, Only('$')) && Free(d, Only('$'))
    ensures Split(Join([a, b, c, d], "$"), '$') == [a, b, c, d]
  {
    hide Split, Join;
    JoinFour(a, b, c, d);
    var cd := c + (['$'] + d);
    var bcd := b + (['$'] + cd);
    SplitOne(d, '$', "");
    SplitOne(c, '$', d);
    SplitOne(b, '$', cd);
    SplitOne(a, '$', bcd);
  }

  lemma JoinFour(a: string, b: string, c: string, d: string)
    ensures Join([a, b, c, d], "$") == a + (['$'] + (b + (['$'] + (c + (['$'] + d)))))
  {
    assert Join([c, d], "$") == c + (['$'] + d);
    assert [b, c, d][1..] == [c, d];
    assert Join([b, c, d], "$") == b + (['$'] + (c + (['$'] + d)));
    assert [a, b, c, d][1..] == [b, c, d];
  }

  /** Parsing undoes printing, for every iteration count an int holds, salt and key. */
  lemma ParsePrint(iter: nat, salt: Bytes, key: Bytes)
    requires 0 < iter <= MAX_INT
    ensures Parse(Print(iter, salt, key)) == Some(Stored(iter, salt, key))
  {
    hide Split, Join, Itoa, Atoi, Encode, DecodeBytes, Chars;
    var n, s, k := Itoa(iter), Encode(Std, Chars(salt)), Encode(Std, Chars(key));
    FieldDecodes(salt);
    FieldDecodes(key);
    AtoiItoa(iter);
    forall i | 0 <= i < |n|
      ensures n[i] != '$'
    {
      assert n[i] in n;
    }
    SplitFour(SCHEME, n, s, k);
  }

  // --- hashing and verifying ---

  ghost function Key(mac: Mac, password: Bytes, salt: Bytes, iter: nat, n: nat): (key: Bytes)
    requires IsMac(mac) && iter >= 1
    ensures |key| == n
  {
    DerivedKey(mac(password), HASH_LEN, salt, iter, n)
  }

  ghost function Verify(mac: Mac, encoded: string, password: Bytes): Verdict
    requires IsMac(mac)
  {
    match Parse(encoded)
    case None => InvalidHash
    case Some(h) => Ok(Key(mac, password, h.salt, h.iter, |h.key|) == h.key)
  }

  method HashPassword(mac: Mac, salt: Bytes, password: Bytes) returns (encoded: string)
    requires IsMac(mac)
    ensures encoded == Print(ITERATIONS, salt, Key(mac, password, salt, ITERATIONS, KEY_LEN))
  {
    var dk := DeriveKey(mac(password), HASH_LEN, salt, ITERATIONS, KEY_LEN);
    encoded := Join([SCHEME, Itoa(ITERATIONS), Encode(Std, Chars(salt)), Encode(Std, Chars(dk))], "$");
  }

  method VerifyPassword(mac: Mac, encoded: string, password: Bytes) returns (r: Verdict)
    requires IsMac(mac)
    ensures r == Verify(mac, encoded, password)
  {
    hide Split, Atoi, DecodeBytes, DerivedKey;
    var parts := Split(encoded, '$');
    if |parts| != 4 || parts[0] != SCHEME {
      return InvalidHash;
    }
    var iter := Atoi(parts[1]);
    if iter.None? || iter.value <= 0 {
      return InvalidHash;
    }
    var salt := DecodeBytes(parts[2]);
    if salt.None? {
      return InvalidHash;
    }
    var want := DecodeBytes(parts[3]);
    if want.None? {
      return InvalidHash;
    }
    var got := DeriveKey(mac(password), HASH_LEN, salt.value, iter.value, |want.value|);
    r := Ok(got == want.value);
  }

  /** A stored hash is self-describing: whatever its iteration count, salt and key length,
      it accepts exactly the passwords that derive its key. */
  lemma StoredHashAccepts(mac: Mac, iter: nat, salt: Bytes, key: Bytes, password: Bytes)
    requires IsMac(mac) && 0 < iter <= MAX_INT
    ensures Verify(mac, Print(iter, salt, key), password) == Ok(Key(mac, password, salt, iter, |key|) == key)
  {
    hide Print, Parse, Key;
    ParsePrint(iter, salt, key);
  }

  /** A fresh hash accepts the password it was made from, under every salt, and any other
      exactly when the two derive the same key. */
  lemma HashAcceptsItsPassword(mac: Mac, salt: Bytes, password: Bytes, other: Bytes)
    requires IsMac(mac)
    ensures var key := Key(mac, password, salt, ITERATIONS, KEY_LEN);
      && Verify(mac, Print(ITERATIONS, salt, key), password) == Ok(true)
      && Verify(mac, Print(ITERATIONS, salt, key), other) == Ok(Key(mac, other, salt, ITERATIONS, KEY_LEN) == key)
  {
    hide Print, Verify, Key;
    var key := Key(mac, password, salt, ITERATIONS, KEY_LEN);
    StoredHashAccepts(mac, ITERATIONS, salt, key, password);
    StoredHashAccepts(mac, ITERATIONS, salt, key, other);
  }

  // --- stored hashes without a key ---

  function Filled(c: bv8): (b: Bytes)
    ensures |b| == HASH_LEN && forall i | 0 <= i < |b| :: b[i] == c
  {
    seq(HASH_LEN, _ => c)
  }

  /** A function of the right size under which a derived key starts with `c`. */
  function Starting(c: bv8): Prf { m => if m == Filled(c) || m == Filled(0) then Filled(0) else Filled(c) }

  function Always(prf: Prf): Mac { _ => prf }

  lemma StartingIsMac(c: bv8)
    ensures HasSize(Starting(c), HASH_LEN) && IsMac(Always(Starting(c)))
  {
  }

  lemma XorZero(b: Bytes)
    requires |b| == HASH_LEN
    ensures XorBytes(b, Filled(0)) == b
  {
    forall k | 0 <= k < |b|
      ensures XorBytes(b, Filled(0))[k] == b[k]
    {
      assert b[k] ^ 0 == b[k];
    }
  }

  lemma {:induction false} StartingRounds(c: bv8, salt: Bytes, n: nat)
    requires c != 1 && n >= 1 && HasSize(Starting(c), HASH_LEN)
    ensures U(Starting(c), salt, 1, n) == (if n == 1 then Filled(c) else Filled(0))
    ensures F(Starting(c), HASH_LEN, salt, 1, n) == Filled(c)
  {
    hide F, U, XorBytes, IntBytes;
    var prf := Starting(c);
    if n == 1 {
      FirstRound(prf, HASH_LEN, salt, 1);
      CounterEndsInOne();
      var m := salt + IntBytes(1);
      assert m[|m| - 1] == 1;
    } else {
      StartingRounds(c, salt, n - 1);
      NextRound(prf, HASH_LEN, salt, 1, n);
      XorZero(Filled(c));
    }
  }

  lemma CounterEndsInOne()
    ensures IntBytes(1)[3] == 1
  {
  }

  lemma StartingKey(c: bv8, password: Bytes, salt: Bytes, iter: nat, n: nat)
    requires c != 1 && iter >= 1 && n >= 1 && IsMac(Always(Starting(c)))
    ensures Key(Always(Starting(c)), password, salt, iter, n)[0] == c
  {
    hide F, Blocks, Starting;
    var prf, l := Starting(c), BlockCount(n, HASH_LEN);
    assert Always(prf)(password) == prf;
    BlockCountHolds(n, HASH_LEN);
    BlocksStart(prf, HASH_LEN, salt, iter);
    NextBlock(prf, HASH_LEN, salt, iter, 1);
    BlocksPrefix(prf, HASH_LEN, salt, iter, 1, l);
    StartingRounds(c, salt, iter);
    assert [] + Filled(c) == Filled(c);
    assert Blocks(prf, HASH_LEN, salt, iter, l)[0] == Blocks(prf, HASH_LEN, salt, iter, 1)[0] == c;
  }

  /** A stored hash accepts every password, whatever the hash function, exactly when it is
      well formed and its key field is empty. */
  lemma AcceptsEverythingExactly(encoded: string)
    ensures (forall mac: Mac, password: Bytes | IsMac(mac) :: Verify(mac, encoded, password) == Ok(true)) <==>
      Parse(encoded).Some? && Parse(encoded).value.key == []
  {
    hide IsMac, Parse, Key, Starting;
    var h := Parse(encoded);
    if h.None? || h.value.key != [] {
      var c: bv8 := if h.Some? && h.value.key[0] == 0 then 2 else 0;
      StartingIsMac(c);
      if h.Some? {
        StartingKey(c, [], h.value.salt, h.value.iter, |h.value.key|);
      }
      assert Verify(Always(Starting(c)), encoded, []) != Ok(true);
    } else {
      forall mac: Mac, password: Bytes | IsMac(mac)
        ensures Verify(mac, encoded, password) == Ok(true)
      {
        assert Key(mac, password, h.value.salt, h.value.iter, 0) == [];
      }
    }
  }

  /** Every salt and count has such a stored form, and a fresh hash never is one. */
  lemma FreshHashesHaveKeys(mac: Mac, iter: nat, salt: Bytes, password: Bytes, other: Bytes)
    requires IsMac(mac) && 0 < iter <= MAX_INT
    ensures Verify(mac, Print(iter, salt, []), other) == Ok(true)
    ensures var made := Parse(Print(ITERATIONS, salt, Key(mac, password, salt, ITERATIONS, KEY_LEN)));
      made.Some? && |made.value.key| == KEY_LEN
  {
    hide Print, Parse, Key;
    StoredHashAccepts(mac, iter, salt, [], other);
    ParsePrint(ITERATIONS, salt, Key(mac, password, salt, ITERATIONS, KEY_LEN));
  }
}
