/** Byte strings and the string operations of the Go and JavaScript libraries the
    program uses, restricted to ASCII case folding and ASCII white space.
    A document, header or URL is a `string` whose characters stand for its bytes. */
module Text {
  datatype Option<+T> = None | Some(value: T) {
    function GetOr(default: T): T { match this case Some(v) => v case None => default }
  }

  /** The byte classes on which the scanners stop. */
  datatype Class =
    | Space | NonSpace | TagNameEnd | AttrNameEnd | UnquotedEnd
    | Blank | NonBlank | LineSpace | CandidateStart | Only(c: char)

  predicate IsSpace(c: char) {
    c == ' ' || c == '\t' || c == '\n' || c == '\U{0C}' || c == '\r'
  }

  /** White space for Go's `strings.Fields` and `TrimSpace`, and for JavaScript's
      `trim`: HTML white space and the vertical tab. */
  predicate IsBlank(c: char) { IsSpace(c) || c == '\U{0B}' }

  predicate In(c: char, k: Class) {
    match k
    case Space => IsSpace(c)
    case NonSpace => !IsSpace(c)
    case TagNameEnd => IsSpace(c) || c == '/' || c == '>'
    case AttrNameEnd => IsSpace(c) || c == '/' || c == '>' || c == '='
    case UnquotedEnd => IsSpace(c) || c == '>'
    case Blank => IsBlank(c)
    case NonBlank => !IsBlank(c)
    case LineSpace => c == ' ' || c == '\t' || c == '\r' || c == '\n'
    case CandidateStart => !IsSpace(c) && c != ','
    case Only(d) => c == d
  }

  /** No character of `s` belongs to `k`. */
  predicate Free(s: string, k: Class) {
    forall i | 0 <= i < |s| :: !In(s[i], k)
  }

  /** The first position of `s` in class `k`, or `|s|`. */
  function Find(s: string, k: Class): (n: nat)
    ensures n <= |s|
    ensures forall i | 0 <= i < n :: !In(s[i], k)
    ensures n < |s| ==> In(s[n], k)
  {
    if s == "" || In(s[0], k) then 0 else 1 + Find(s[1..], k)
  }

  /** The position `Find` reports is the only one with its properties. */
  lemma FindIs(s: string, k: Class, n: nat)
    requires n <= |s| && (n < |s| ==> In(s[n], k))
    requires forall i | 0 <= i < n :: !In(s[i], k)
    ensures Find(s, k) == n
  {
  }

  /** What a scanner recognised, and the text it has not consumed. */
  datatype Scan<+T> = Scan(token: T, rest: string)

  /** The longest prefix that avoids class `k`. */
  function Take(u: string, k: Class): (s: Scan<string>)
    ensures s.token + s.rest == u
    ensures Free(s.token, k) && (s.rest == "" || In(s.rest[0], k))
  {
    var n := Find(u, k);
    assert u == u[..n] + u[n..];
    Scan(u[..n], u[n..])
  }

  lemma TakeSome(u: string, k: Class)
    requires u != "" && !In(u[0], k)
    ensures Take(u, k).token != "" && Take(u, k).token[0] == u[0]
  {
    assert |Take(u, k).token| == Find(u, k) > 0;
  }

  lemma TakeMembers(u: string, k: Class)
    ensures forall c | c in Take(u, k).token || c in Take(u, k).rest :: c in u
  {
    var s := Take(u, k);
    hide *;
    assert u == s.token + s.rest;
  }

  function Head(u: string): string { if u == "" then "" else u[..1] }

  lemma TakeIs(a: string, b: string, k: Class)
    requires Free(a, k) && (b == "" || In(b[0], k))
    ensures Take(a + b, k) == Scan(a, b)
  {
    FindIs(a + b, k, |a|);
    assert (a + b)[..|a|] == a && (a + b)[|a|..] == b;
  }

  /** The scanners' inner loop: advance while outside class `k`. */
  method ScanTo(s: string, from: nat, k: Class) returns (n: nat)
    requires from <= |s|
    ensures from <= n <= |s|
    ensures Take(s[from..], k) == Scan(s[from..n], s[n..])
  {
    n := from;
    while n < |s| && !In(s[n], k)
      invariant from <= n <= |s|
      invariant forall i | from <= i < n :: !In(s[i], k)
    {
      n := n + 1;
    }
    assert s[from..] == s[from..n] + s[n..];
    TakeIs(s[from..n], s[n..], k);
  }

  lemma Assoc(a: string, b: string, c: string)
    ensures a + b + c == a + (b + c)
  {
  }

  predicate IsQuote(c: char) { c == '"' || c == '\'' }

  predicate IsLetter(c: char) { 'a' <= c <= 'z' || 'A' <= c <= 'Z' }

  function LowerChar(c: char): (l: char)
    ensures !('A' <= l <= 'Z')
  {
    if 'A' <= c <= 'Z' then (c as int + 32) as char else c
  }

  function ToLower(s: string): (l: string)
    ensures |l| == |s|
    ensures forall i | 0 <= i < |s| :: l[i] == LowerChar(s[i])
  {
    seq(|s|, i requires 0 <= i < |s| => LowerChar(s[i]))
  }

  predicate EqualFold(a: string, b: string) { ToLower(a) == ToLower(b) }

  predicate HasSuffix(s: string, suffix: string) {
    |suffix| <= |s| && s[|s| - |suffix|..] == suffix
  }

  /** The first occurrence of a non-empty pattern, or -1. */
  function Index(s: string, pat: string): (n: int)
    requires pat != ""
    ensures -1 <= n <= |s| - |pat| || n == -1
    ensures n >= 0 ==> pat <= s[n..]
    ensures forall i | 0 <= i <= |s| :: (n < 0 || i < n) ==> !(pat <= s[i..])
  {
    if |s| < |pat| then -1
    else if pat <= s then assert s[0..] == s; 0
    else
      var n := Index(s[1..], pat);
      assert forall i | 1 <= i <= |s| :: s[i..] == s[1..][i - 1..];
      assert s[0..] == s;
      if n < 0 then -1 else n + 1
  }
}
