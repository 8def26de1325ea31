/** Octets, big-endian words and in-place buffer updates, shared by every component. */
module Octets {
  newtype byte = x: int | 0 <= x < 256

  const NUL: byte := 0
  const NEWLINE: byte := 10
  const RETURN: byte := 13
  const SPACE: byte := 32
  const CRLF: seq<byte> := [13, 10]

  const WORD := 0x1_0000_0000

  function Min(a: int, b: int): int { if a < b then a else b }

  function Max(a: int, b: int): int { if a < b then b else a }

  lemma Regroup<T>(a: seq<T>, b: seq<T>, c: seq<T>)
    ensures a + (b + c) == a + b + c
  {
  }

  /** The parts one after another. */
  function Join<T>(parts: seq<seq<T>>): seq<T> {
    if parts == [] then [] else Join(parts[..|parts| - 1]) + parts[|parts| - 1]
  }

  lemma {:induction false} JoinCons<T>(part: seq<T>, parts: seq<seq<T>>)
    ensures Join([part] + parts) == part + Join(parts)
  {
    var all := [part] + parts;
    if parts == [] {
      assert all[..0] == [] && Join([]) + part == part + Join([]);
    } else {
      var k := |parts| - 1;
      assert all[..|all| - 1] == [part] + parts[..k];
      JoinCons(part, parts[..k]);
      Regroup(part, Join(parts[..k]), parts[k]);
    }
  }

  /** A schedule after its next event; nothing once it has run out. */
  function Rest<T>(s: seq<T>): seq<T> { if s == [] then [] else s[1..] }

  /** isspace() in the C locale. */
  predicate Blank(c: byte) { c == SPACE || 9 <= c <= 13 }

  /** What a scanf conversion skips first. */
  function SkipBlanks(s: seq<byte>): (r: seq<byte>)
    ensures |r| <= |s| && forall c :: c in r ==> c in s
  {
    if s == [] || !Blank(s[0]) then s else SkipBlanks(s[1..])
  }

  /** Only the six octets that isspace() accepts: tab, newline, vertical tab, form feed, return and space. */
  ghost predicate Spaces(s: seq<byte>) {
    forall c :: c in s ==> c in {9, 10, 11, 12, 13, 32}
  }

  lemma {:induction false} BlanksSkipped(gap: seq<byte>, s: seq<byte>)
    requires Spaces(gap)
    requires s == [] || !Blank(s[0])
    ensures SkipBlanks(gap + s) == s
  {
    if gap == [] {
      assert gap + s == s;
    } else {
      assert (gap + s)[1..] == gap[1..] + s && gap[0] in gap;
      assert forall c :: c in gap[1..] ==> c in gap;
      BlanksSkipped(gap[1..], s);
    }
  }

  /** The C string that starts a buffer: everything before the first NUL. */
  function CString(s: seq<byte>): (r: seq<byte>)
    ensures r <= s && NUL !in r
    ensures |r| < |s| ==> s[|r|] == NUL
    ensures NUL !in s ==> r == s
  {
    if s == [] || s[0] == NUL then [] else [s[0]] + CString(s[1..])
  }

  lemma {:induction false} CStringOfPrefix(s: seq<byte>, rest: seq<byte>)
    requires NUL !in s
    ensures CString(s + rest) == s + CString(rest)
  {
    if s == [] {
      assert s + rest == rest;
    } else {
      assert (s + rest)[1..] == s[1..] + rest;
      CStringOfPrefix(s[1..], rest);
    }
  }

  /** A text without NUL is a prefix of a buffer exactly when it is one of the C string there. */
  lemma PrefixOfCString(p: seq<byte>, s: seq<byte>)
    requires NUL !in p
    ensures p <= s <==> p <= CString(s)
  {
    if p <= s {
      CStringOfPrefix(p, s[|p|..]);
      assert s == p + s[|p|..];
    }
  }

  /** `s` after `d` has been stored at offset `at`. */
  function Blit(s: seq<byte>, at: nat, d: seq<byte>): (r: seq<byte>)
    requires at + |d| <= |s|
    ensures |r| == |s|
  {
    s[..at] + d + s[at + |d|..]
  }

  /** Two adjacent stores are one store of the concatenation. */
  lemma BlitAppend(s: seq<byte>, at: nat, d: seq<byte>, e: seq<byte>)
    requires at + |d| + |e| <= |s|
    ensures Blit(Blit(s, at, d), at + |d|, e) == Blit(s, at, d + e)
  {
  }

  lemma BlitPut(s: seq<byte>, d: seq<byte>, c: byte)
    requires |d| < |s|
    ensures Blit(s, 0, d)[|d| := c] == Blit(s, 0, d + [c])
  {
  }

  // ---------------------------------------------------------------- words

  /** Network byte order, htonl followed by a copy of the four octets. */
  function Word(v: nat): (r: seq<byte>)
    requires v < WORD
    ensures |r| == 4
  {
    [(v / 0x100_0000) as byte, (v / 0x1_0000 % 256) as byte, (v / 256 % 256) as byte, (v % 256) as byte]
  }

  function WordValue(s: seq<byte>): (v: nat)
    requires |s| == 4
    ensures v < WORD
  {
    s[0] as nat * 0x100_0000 + s[1] as nat * 0x1_0000 + s[2] as nat * 256 + s[3] as nat
  }

  lemma WordRoundTrip(v: nat)
    requires v < WORD
    ensures WordValue(Word(v)) == v
  {
    var a, b := v / 256, v / 0x1_0000;
    assert b == a / 256 && v / 0x100_0000 == b / 256;
    assert v == a * 256 + v % 256 && a == b * 256 + a % 256 && b == b / 256 * 256 + b % 256;
  }

  lemma WordOnto(s: seq<byte>)
    requires |s| == 4
    ensures Word(WordValue(s)) == s
  {
    var v := WordValue(s);
    var a := s[0] as nat * 0x1_0000 + s[1] as nat * 256 + s[2] as nat;
    var b := s[0] as nat * 256 + s[1] as nat;
    assert v == a * 256 + s[3] as nat && a == b * 256 + s[2] as nat;
    assert v / 256 == a && v % 256 == s[3] as nat;
    assert a / 256 == b && a % 256 == s[2] as nat;
    assert v / 0x1_0000 == b && v / 0x100_0000 == b / 256;
  }

  // ---------------------------------------------------------------- most significant first

  /** The number that octets stand for, most significant first. */
  function Big(s: seq<byte>): (v: nat) {
    if s == [] then 0 else 256 * Big(s[..|s| - 1]) + s[|s| - 1] as nat
  }

  function Power256(n: nat): (r: nat)
    ensures r > 0
  {
    if n == 0 then 1 else 256 * Power256(n - 1)
  }

  /** The octet of weight 256^k. */
  lemma {:induction false} BigOctet(s: seq<byte>, i: nat)
    requires i < |s|
    ensures s[i] as nat == Big(s) / Power256(|s| - 1 - i) % 256
  {
    var front, last := s[..|s| - 1], s[|s| - 1] as nat;
    var u := Big(front);
    assert (256 * u + last) % 256 == last && (256 * u + last) / 256 == u;
    if i == |s| - 1 {
      assert Power256(0) == 1;
    } else {
      BigOctet(front, i);
      DivideTwice(Big(s), 256, Power256(|s| - 2 - i));
    }
  }

  lemma DivideTwice(u: nat, m: nat, p: nat)
    requires m > 0 && p > 0
    ensures m * p > 0 && u / m / p == u / (m * p)
  {
    var q, r := Parts(u, m);
    var d, e := Parts(q, p);
    TimesSum(m, p, d, e);
    Below(m, p, e, r);
    QuotientIs(u, m * p, d, m * e + r);
  }

  lemma Parts(u: nat, m: nat) returns (q: nat, r: nat)
    requires m > 0
    ensures q == u / m && r < m && u == m * q + r
  {
    q, r := u / m, u % m;
  }

  lemma Below(m: nat, p: nat, e: nat, r: nat)
    requires r < m && e < p
    ensures m * e + r < m * p
  {
    Times(e + 1, p, m);
    assert (e + 1) * m == m * e + m;
  }

  lemma TimesSum(m: nat, p: nat, d: nat, e: nat)
    ensures m * (p * d + e) == m * p * d + m * e
  {
  }

  lemma QuotientIs(u: nat, m: nat, d: nat, e: nat)
    requires u == m * d + e && e < m
    ensures u / m == d
  {
    var q, r := u / m, u % m;
    assert u == m * q + r && 0 <= r < m;
    Times(q + 1, d, m);
    Times(d + 1, q, m);
    assert (q + 1) * m == m * q + m && (d + 1) * m == m * d + m;
  }

  lemma Times(i: nat, j: nat, m: nat)
    ensures i <= j ==> i * m <= j * m
  {
  }

  lemma BigFour(s: seq<byte>)
    requires |s| == 4
    ensures Big(s) == WordValue(s) && Big(s) == Big(s[..3]) * 256 + s[3] as nat
  {
    assert s[..3][..2] == s[..2] && s[..2][..1] == s[..1];
    assert Big(s[..1]) == 256 * Big(s[..1][..0]) + s[0] as nat;
    assert Big(s[..2]) == 256 * Big(s[..1]) + s[1] as nat;
    assert Big(s[..3]) == 256 * Big(s[..2]) + s[2] as nat;
    assert Big(s) == 256 * Big(s[..3]) + s[3] as nat;
  }

  /** A word is its four octets, most significant first. */
  lemma WordBig(v: nat)
    requires v < WORD
    ensures Big(Word(v)) == v
  {
    BigFour(Word(v));
    WordRoundTrip(v);
  }

  lemma WordOctet(v: nat, i: nat)
    requires v < WORD && i < 4
    ensures Word(v)[i] as nat == v / Power256(3 - i) % 256
  {
    WordBig(v);
    BigOctet(Word(v), i);
  }

  lemma Shift(x: nat, p: nat)
    ensures 256 * (x * p) == x * (256 * p)
  {
  }

  lemma {:induction false} BigAppend(s: seq<byte>, t: seq<byte>)
    ensures Big(s + t) == Big(s) * Power256(|t|) + Big(t)
  {
    if t == [] {
      assert s + t == s;
    } else {
      var k := |t| - 1;
      assert (s + t)[..|s + t| - 1] == s + t[..k];
      BigAppend(s, t[..k]);
      Shift(Big(s), Power256(k));
    }
  }
}
