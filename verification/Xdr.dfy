/** External data representation of types.xdr: RFC 4506 sections 4.2, 4.5, 4.13 and 4.14. */
module Xdr {
  import opened Octets

  const TWO63 := 0x8000_0000_0000_0000
  const TWO64 := 0x1_0000_0000_0000_0000
  const MAXSEQ := 100

  newtype hyper = x: int | -0x8000_0000_0000_0000 <= x < 0x8000_0000_0000_0000

  datatype Response = Response(request: seq<hyper>, response: seq<hyper>)

  /** A value and the octets after it, or nothing when decoding fails. */
  datatype Decoded<T> = Malformed | Value(value: T, rest: seq<byte>)

  // ---------------------------------------------------------------- hyper

  function Unsigned(v: int): int { if v < 0 then v + TWO64 else v }

  function Signed(u: int): int { if u < TWO63 then u else u - TWO64 }

  /** Eight octets, most significant first, two's complement. */
  function EncodeHyper(v: hyper): (r: seq<byte>)
    ensures |r| == 8
  {
    var u := Unsigned(v as int);
    Word(u / WORD) + Word(u % WORD)
  }

  function HyperValue(s: seq<byte>): hyper
    requires |s| == 8
  {
    Signed(WordValue(s[..4]) * WORD + WordValue(s[4..])) as hyper
  }

  function DecodeHyper(s: seq<byte>): Decoded<hyper> {
    if |s| < 8 then Malformed else Value(HyperValue(s[..8]), s[8..])
  }

  lemma HyperRoundTrip(v: hyper)
    ensures HyperValue(EncodeHyper(v)) == v
  {
    var u := Unsigned(v as int);
    var s := EncodeHyper(v);
    assert s[..4] == Word(u / WORD) && s[4..] == Word(u % WORD);
    WordRoundTrip(u / WORD);
    WordRoundTrip(u % WORD);
  }

  /** Every eight octets are the encoding of a hyper. */
  lemma HyperOnto(s: seq<byte>)
    requires |s| == 8
    ensures EncodeHyper(HyperValue(s)) == s
  {
    var h, l := WordValue(s[..4]), WordValue(s[4..]);
    var u := h * WORD + l;
    assert u / WORD == h && u % WORD == l;
    WordOnto(s[..4]);
    WordOnto(s[4..]);
    assert s == s[..4] + s[4..];
  }

  /** Eight octets stand for WordValue(front) * 2^32 + WordValue(back). */
  lemma BigEight(s: seq<byte>)
    requires |s| == 8
    ensures Big(s) == WordValue(s[..4]) * WORD + WordValue(s[4..])
  {
    assert Power256(4) == WORD by {
      assert Power256(3) == 0x100_0000 && Power256(2) == 0x1_0000 && Power256(1) == 256;
    }
    hide Big, WordValue;
    assert s == s[..4] + s[4..];
    BigAppend(s[..4], s[4..]);
    BigFour(s[..4]);
    BigFour(s[4..]);
  }

  /** What eight octets decode to: their value in two's complement, most significant octet first. */
  lemma HyperDecodes(s: seq<byte>)
    requires |s| == 8
    ensures Big(s) < 0x1_0000_0000_0000_0000
    ensures HyperValue(s) as int ==
            if Big(s) < 0x8000_0000_0000_0000 then Big(s) else Big(s) - 0x1_0000_0000_0000_0000
  {
    BigEight(s);
  }

  /** What a hyper is encoded as: eight octets of its two's complement, most significant first. */
  lemma HyperOctets(v: hyper)
    ensures var u := if v < 0 then v as int + 0x1_0000_0000_0000_0000 else v as int;
            && Big(EncodeHyper(v)) == u
            && forall i :: 0 <= i < 8 ==> EncodeHyper(v)[i] as nat == u / Power256(7 - i) % 256
  {
    var s := EncodeHyper(v);
    HyperDecodes(s);
    HyperRoundTrip(v);
    hide EncodeHyper, HyperValue, Big, Power256;
    forall i | 0 <= i < 8
      ensures s[i] as nat == Big(s) / Power256(7 - i) % 256
    {
      BigOctet(s, i);
    }
  }

  // ---------------------------------------------------------------- sequences

  function EncodeItems(xs: seq<hyper>): (r: seq<byte>)
    ensures |r| == 8 * |xs|
  {
    if xs == [] then [] else EncodeHyper(xs[0]) + EncodeItems(xs[1..])
  }

  function DecodeItems(n: nat, s: seq<byte>): (r: Decoded<seq<hyper>>)
    ensures r.Value? ==> |r.value| == n
  {
    if n == 0 then Value([], s)
    else
      match DecodeHyper(s)
      case Malformed => Malformed
      case Value(x, t) =>
        match DecodeItems(n - 1, t)
        case Malformed => Malformed
        case Value(xs, rest) => Value([x] + xs, rest)
  }

  /** xdrhypersequence<100>: a count, then that many items. */
  function EncodeSeq(xs: seq<hyper>): (r: seq<byte>)
    requires |xs| <= MAXSEQ
    ensures |r| == 4 + 8 * |xs|
  {
    Word(|xs|) + EncodeItems(xs)
  }

  /** A count above 100 is refused. */
  function DecodeSeq(s: seq<byte>): (r: Decoded<seq<hyper>>)
    ensures r.Value? ==> |r.value| <= MAXSEQ
  {
    if |s| < 4 then Malformed
    else
      var n := WordValue(s[..4]);
      if n > MAXSEQ then Malformed else DecodeItems(n, s[4..])
  }

  lemma {:induction false} ItemsRoundTrip(xs: seq<hyper>, rest: seq<byte>)
    ensures DecodeItems(|xs|, EncodeItems(xs) + rest) == Value(xs, rest)
  {
    if xs == [] {
      assert EncodeItems(xs) + rest == rest;
    } else {
      var head, tail := EncodeHyper(xs[0]), EncodeItems(xs[1..]) + rest;
      assert EncodeItems(xs) + rest == head + tail;
      assert (head + tail)[..8] == head && (head + tail)[8..] == tail;
      HyperRoundTrip(xs[0]);
      ItemsRoundTrip(xs[1..], rest);
      assert xs == [xs[0]] + xs[1..];
    }
  }

  /** Decoding undoes encoding and leaves exactly what came after: the encoding delimits itself. */
  lemma SeqRoundTrip(xs: seq<hyper>, rest: seq<byte>)
    requires |xs| <= MAXSEQ
    ensures DecodeSeq(EncodeSeq(xs) + rest) == Value(xs, rest)
  {
    var s := EncodeSeq(xs) + rest;
    assert s[..4] == Word(|xs|) && s[4..] == EncodeItems(xs) + rest;
    WordRoundTrip(|xs|);
    ItemsRoundTrip(xs, rest);
  }

  lemma ItemsStep(n: nat, s: seq<byte>)
    requires n > 0 && |s| >= 8
    ensures var x, d := HyperValue(s[..8]), DecodeItems(n - 1, s[8..]);
            DecodeItems(n, s) == if d.Value? then Value([x] + d.value, d.rest) else Malformed
  {
    hide HyperValue;
  }

  lemma {:induction false} ItemsOnto(n: nat, s: seq<byte>)
    ensures DecodeItems(n, s).Value? <==> |s| >= 8 * n
    ensures var d := DecodeItems(n, s);
            d.Value? ==> s == EncodeItems(d.value) + d.rest
  {
    if n > 0 && |s| >= 8 {
      var x, d := HyperValue(s[..8]), DecodeItems(n - 1, s[8..]);
      ItemsOnto(n - 1, s[8..]);
      ItemsStep(n, s);
      HyperOnto(s[..8]);
      hide HyperValue, EncodeHyper, DecodeItems;
      assert s == s[..8] + s[8..];
      if d.Value? {
        assert ([x] + d.value)[1..] == d.value;
        Regroup(s[..8], EncodeItems(d.value), d.rest);
      }
    }
  }

  /**
   * A sequence decodes exactly when its count is at most 100 and all its items are there; there is no
   * other encoding of it.
   */
  lemma SeqOnto(s: seq<byte>)
    ensures DecodeSeq(s).Value? <==> |s| >= 4 && WordValue(s[..4]) <= MAXSEQ && |s| >= 4 + 8 * WordValue(s[..4])
    ensures var d := DecodeSeq(s);
            d.Value? ==> s == EncodeSeq(d.value) + d.rest
  {
    if |s| >= 4 && WordValue(s[..4]) <= MAXSEQ {
      var n := WordValue(s[..4]);
      ItemsOnto(n, s[4..]);
      WordOnto(s[..4]);
      var d := DecodeItems(n, s[4..]);
      if d.Value? {
        assert s == s[..4] + s[4..];
        Regroup(s[..4], EncodeItems(d.value), d.rest);
      }
    }
  }

  /** Eight octets of the j-th of the items that start at position `at`. */
  function Item(s: seq<byte>, at: nat, j: nat): seq<byte>
    requires at + 8 * j + 8 <= |s|
  {
    s[at + 8 * j..at + 8 * j + 8]
  }

  lemma {:induction false} ItemAt(xs: seq<hyper>, j: nat)
    requires j < |xs|
    ensures Item(EncodeItems(xs), 0, j) == EncodeHyper(xs[j])
  {
    hide EncodeHyper;
    if j > 0 {
      ItemAt(xs[1..], j - 1);
    }
  }

  /** The octets of a sequence: the count, then the items in order, inside any text that holds them. */
  lemma SeqItems(before: seq<byte>, xs: seq<hyper>, after: seq<byte>)
    requires |xs| <= MAXSEQ
    ensures var s := before + (EncodeSeq(xs) + after);
            && Big(EncodeSeq(xs)[..4]) == |xs|
            && forall j :: 0 <= j < |xs| ==> Item(s, |before| + 4, j) == EncodeHyper(xs[j])
  {
    var s, word, items := before + (EncodeSeq(xs) + after), Word(|xs|), EncodeItems(xs);
    WordBig(|xs|);
    assert EncodeSeq(xs)[..4] == word;
    hide EncodeHyper, EncodeItems, Word, Big;
    forall j | 0 <= j < |xs|
      ensures Item(s, |before| + 4, j) == EncodeHyper(xs[j])
    {
      ItemAt(xs, j);
      assert s == before + word + items + after;
      assert Item(s, |before| + 4, j) == Item(items, 0, j);
    }
  }

  // ---------------------------------------------------------------- responses

  function EncodeResponse(r: Response): seq<byte>
    requires |r.request| <= MAXSEQ && |r.response| <= MAXSEQ
  {
    EncodeSeq(r.request) + EncodeSeq(r.response)
  }

  function DecodeResponse(s: seq<byte>): Decoded<Response> {
    match DecodeSeq(s)
    case Malformed => Malformed
    case Value(request, t) =>
      match DecodeSeq(t)
      case Malformed => Malformed
      case Value(response, rest) => Value(Response(request, response), rest)
  }

  lemma ResponseRoundTrip(r: Response, rest: seq<byte>)
    requires |r.request| <= MAXSEQ && |r.response| <= MAXSEQ
    ensures DecodeResponse(EncodeResponse(r) + rest) == Value(r, rest)
  {
    hide EncodeSeq, DecodeSeq;
    SeqRoundTrip(r.request, EncodeSeq(r.response) + rest);
    SeqRoundTrip(r.response, rest);
    Regroup(EncodeSeq(r.request), EncodeSeq(r.response), rest);
  }

  /** A reply to n items takes 2 * (4 + 8 * n) octets: 40 for two of them and no other number, and always fits 65536. */
  lemma ReplyLength(r: Response)
    requires |r.request| == |r.response| <= MAXSEQ
    ensures |EncodeResponse(r)| == 2 * (4 + 8 * |r.request|) <= 65536
    ensures |EncodeResponse(r)| == 40 <==> |r.request| == 2
  {
  }
}
