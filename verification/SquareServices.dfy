/** The three square services: heap copies, aliased arrays, and a TCP stream, all computing one function. */
module SquareServices {
  import opened Octets
  import opened Kernel
  import opened SockWrap
  import opened Xdr

  const BUFLEN := 65536
  const ROOT := 3037000499  // the largest integer whose square fits a hyper

  datatype Option<T> = None | Some(value: T)

  // ---------------------------------------------------------------- the function they compute

  /** A product cut to 64 bits. */
  function Wrap(x: int): hyper { Signed(x % TWO64) as hyper }

  function Square(v: hyper): hyper { Wrap(v as int * v as int) }

  function Squares(xs: seq<hyper>): (r: seq<hyper>)
    ensures |r| == |xs| && forall i :: 0 <= i < |xs| ==> r[i] == Square(xs[i])
  {
    seq(|xs|, i requires 0 <= i < |xs| => Square(xs[i]))
  }

  /** The reply to a request, if it decodes. */
  function Answer(data: seq<byte>): Option<seq<byte>> {
    match DecodeSeq(data)
    case Malformed => None
    case Value(xs, _) => Some(EncodeResponse(Response(xs, Squares(xs))))
  }

  lemma Larger(a: nat, b: nat)
    requires a <= b
    ensures a * a <= b * b
  {
  }

  lemma WrapExact(y: int)
    ensures Wrap(y) as int == y <==> -TWO63 <= y < TWO63
  {
    assert y == y / TWO64 * TWO64 + y % TWO64;
  }

  lemma SquareFits(m: nat)
    ensures m * m < TWO63 <==> m <= ROOT
  {
    if m <= ROOT {
      Larger(m, ROOT);
      assert ROOT * ROOT < TWO63;
    } else {
      Larger(ROOT + 1, m);
      assert (ROOT + 1) * (ROOT + 1) >= TWO63;
    }
  }

  /** The square is right for exactly the integers of magnitude at most 3037000499; its low 32 bits always are. */
  lemma SquareLaw(v: hyper)
    ensures Square(v) as int == v as int * v as int <==> -ROOT <= v as int <= ROOT
    ensures (Square(v) as int - v as int * v as int) % TWO64 == 0
    ensures Square(v) as int % WORD == (v as int * v as int) % WORD
  {
    hide Wrap;
    var x := v as int;
    var m := if x < 0 then -x else x;
    var y := m * m;
    assert x * x == y;
    SquareFits(m);
    WrapExact(y);
    LowHalf(y);
    WrapModulo(y);
  }

  lemma WrapModulo(y: int)
    ensures (Wrap(y) as int - y) % TWO64 == 0
  {
    var q := y / TWO64;
    assert y == q * TWO64 + y % TWO64;
    SameRest(Wrap(y) as int - y, if y % TWO64 < TWO63 then -q else -q - 1, 0);
  }

  lemma LowHalf(y: int)
    ensures Wrap(y) as int % WORD == y % WORD
  {
    var u := y % TWO64;
    assert y == y / TWO64 * TWO64 + u;
    assert TWO64 == WORD * WORD;
    SameLow(u, y, y / TWO64 * WORD);
    SameLow(u - TWO64, u, WORD);
  }

  lemma SameLow(a: int, b: int, k: int)
    requires b == a + k * WORD
    ensures a % WORD == b % WORD
  {
    var q := a / WORD;
    assert b == (q + k) * WORD + a % WORD;
  }

  /**
   * Whatever follows a request is ignored, and its reply decodes to the request itself and its
   * squares, again whatever follows.
   */
  lemma AnswerLaw(xs: seq<hyper>, rest: seq<byte>, after: seq<byte>)
    requires |xs| <= MAXSEQ
    ensures Answer(EncodeSeq(xs) + rest) == Some(EncodeResponse(Response(xs, Squares(xs))))
    ensures DecodeResponse(Answer(EncodeSeq(xs) + rest).value + after) == Value(Response(xs, Squares(xs)), after)
  {
    hide EncodeSeq, DecodeSeq, EncodeResponse, DecodeResponse, Squares;
    SeqRoundTrip(xs, rest);
    ResponseRoundTrip(Response(xs, Squares(xs)), after);
  }

  /** One item is the square of another, modulo 2^64. */
  ghost predicate SquareOf(item: seq<byte>, square: seq<byte>) {
    Big(square) == Big(item) * Big(item) % 0x1_0000_0000_0000_0000
  }

  lemma SquareOfItem(v: hyper)
    ensures SquareOf(EncodeHyper(v), EncodeHyper(Square(v)))
  {
    hide EncodeHyper, Big, Power256;
    HyperOctets(v);
    HyperOctets(Square(v));
    Complement(v as int);
  }

  lemma Complement(x: int)
    ensures (x + TWO64) * (x + TWO64) % TWO64 == x * x % TWO64
  {
    var y := x * x;
    var k := 2 * x + TWO64;
    assert (x + TWO64) * (x + TWO64) == y + k * TWO64;
    assert y + k * TWO64 == (y / TWO64 + k) * TWO64 + y % TWO64;
    SameRest(y + k * TWO64, y / TWO64 + k, y % TWO64);
  }

  lemma SameRest(u: int, q: int, r: int)
    requires u == q * TWO64 + r && 0 <= r < TWO64
    ensures u % TWO64 == r
  {
  }

  /**
   * The wire form of an answer: the request again, count and items, then the count and the squares modulo
   * 2^64, each number most significant octet first.  There is one exactly for a count of at most 100 with
   * as many items behind it.
   */
  lemma AnswerWire(data: seq<byte>)
    ensures Answer(data).Some? <==>
              |data| >= 4 && Big(data[..4]) <= 100 && |data| >= 4 + 8 * Big(data[..4])
    ensures Answer(data).Some? ==>
              var r, n := Answer(data).value, Big(data[..4]);
              && |r| == 8 + 16 * n && r[..4 + 8 * n] == data[..4 + 8 * n] && r[4 + 8 * n..8 + 8 * n] == data[..4]
              && forall j :: 0 <= j < n ==> SquareOf(Item(data, 4, j), Item(r, 8 + 8 * n, j))
  {
    hide EncodeSeq, DecodeSeq, EncodeHyper, Big, WordValue, Squares, SquareOf;
    SeqOnto(data);
    if |data| >= 4 {
      BigFour(data[..4]);
    }
    if DecodeSeq(data).Value? {
      var d := DecodeSeq(data);
      TwoSequences(d.value, Squares(d.value), data, d.rest);
      forall j | 0 <= j < |d.value|
        ensures SquareOf(EncodeHyper(d.value[j]), EncodeHyper(Squares(d.value)[j]))
      {
        SquareOfItem(d.value[j]);
      }
    }
  }

  /** Items and counts of a request and its reply, as octets. */
  lemma TwoSequences(xs: seq<hyper>, ys: seq<hyper>, data: seq<byte>, rest: seq<byte>)
    requires |xs| == |ys| <= MAXSEQ && data == EncodeSeq(xs) + rest
    ensures var r, n := EncodeSeq(xs) + EncodeSeq(ys), |xs|;
            && Big(data[..4]) == n && |data| >= 4 + 8 * n && |r| == 8 + 16 * n
            && r[..4 + 8 * n] == data[..4 + 8 * n] && r[4 + 8 * n..8 + 8 * n] == data[..4]
            && forall j :: 0 <= j < n ==>
                 && Item(data, 4, j) == EncodeHyper(xs[j])
                 && Item(r, 8 + 8 * n, j) == EncodeHyper(ys[j])
  {
    hide EncodeSeq, EncodeHyper, Big;
    var s, t := EncodeSeq(xs), EncodeSeq(ys);
    SeqItems([], xs, rest);
    SeqItems(s, ys, []);
    SameCount(xs, ys);
    assert [] + (s + rest) == data && s + (t + []) == s + t;
    assert s[..4] == data[..4];
  }

  lemma SameCount(xs: seq<hyper>, ys: seq<hyper>)
    requires |xs| == |ys| <= MAXSEQ
    ensures EncodeSeq(xs)[..4] == EncodeSeq(ys)[..4]
  {
  }

  /** Cutting a datagram at 804 octets or later does not change its answer. */
  lemma AnswerOfPrefix(data: seq<byte>, k: nat)
    requires 804 <= k <= |data|
    ensures Answer(data[..k]) == Answer(data)
  {
    assert data[..k][..4] == data[..4];
    SeqOnto(data);
    SeqOnto(data[..k]);
    var d := DecodeSeq(data[..k]);
    if d.Value? {
      assert data == data[..k] + data[k..];
      Regroup(EncodeSeq(d.value), d.rest, data[k..]);
      SeqRoundTrip(d.value, d.rest + data[k..]);
      hide DecodeSeq, EncodeSeq, EncodeResponse, Squares;
      assert DecodeSeq(data) == Value(d.value, d.rest + data[k..]);
    }
  }

  // ---------------------------------------------------------------- the heap

  /** The first k calls of malloc succeed. */
  predicate Grants(plan: seq<bool>, k: nat) {
    forall i :: 0 <= i < k && i < |plan| ==> plan[i]
  }

  lemma GrantsLater(plan: seq<bool>, k: nat)
    ensures Grants(plan, k + 1) <==> (plan == [] || plan[0]) && Grants(Rest(plan), k)
  {
    if plan != [] && plan[0] && Grants(Rest(plan), k) {
      forall i | 0 <= i < k + 1 && i < |plan|
        ensures plan[i]
      {
        assert i > 0 ==> plan[i] == Rest(plan)[i - 1];
      }
    }
    if Grants(plan, k + 1) {
      forall i | 0 <= i < k && i < |Rest(plan)|
        ensures Rest(plan)[i]
      {
        assert Rest(plan)[i] == plan[i + 1];
      }
    }
  }

  lemma GrantsThree(plan: seq<bool>)
    ensures Grants(plan, 0)
    ensures Grants(plan, 1) <==> plan == [] || plan[0]
    ensures Grants(plan, 2) <==> Grants(plan, 1) && (Rest(plan) == [] || Rest(plan)[0])
    ensures Grants(plan, 3) <==> Grants(plan, 2) && (Rest(Rest(plan)) == [] || Rest(Rest(plan))[0])
  {
    GrantsLater(plan, 0);
    GrantsLater(plan, 1);
    GrantsLater(plan, 2);
    GrantsLater(Rest(plan), 0);
    GrantsLater(Rest(plan), 1);
    GrantsLater(Rest(Rest(plan)), 0);
  }

  /**
   * What the two calls for the blocks of a reply leave of malloc's schedule: the second is not made
   * when the first fails.
   */
  function AfterReply(plan: seq<bool>): seq<bool> {
    if Grants(plan, 1) then Rest(Rest(plan)) else Rest(plan)
  }

  /** malloc and free.  A block may be used or freed only while it is live; what it held is gone once it is freed. */
  class Heap {
    var plan: seq<bool>  // whether each coming malloc succeeds; all do once it is empty
    ghost var live: set<array<hyper>>

    constructor (plan: seq<bool>)
      ensures this.plan == plan && live == {}
    {
      this.plan, live := plan, {};
    }

    method Malloc(n: nat) returns (p: array?<hyper>)
      modifies this
      ensures plan == Rest(old(plan))
      ensures p != null <==> old(plan) == [] || old(plan)[0]
      ensures p != null ==> fresh(p) && p.Length == n && live == old(live) + {p}
      ensures p == null ==> live == old(live)
    {
      var granted := plan == [] || plan[0];
      plan := Rest(plan);
      p := null;
      if granted {
        p := new hyper[n];
        live := live + {p};
      }
    }

    /** free; nothing happens for a null pointer. */
    method Free(p: array?<hyper>)
      requires p != null ==> p in live
      modifies this`live, p
      ensures live == if p == null then old(live) else old(live) - {p}
    {
      if p != null {
        live := live - {p};
        forall i | 0 <= i < p.Length {
          p[i] := 0;
        }
      }
    }

    method Load(p: array<hyper>, i: nat) returns (v: hyper)
      requires p in live && i < p.Length
      ensures v == p[i]
    {
      v := p[i];
    }

    method Store(p: array<hyper>, i: nat, v: hyper)
      requires p in live && i < p.Length
      modifies p
      ensures p[..] == old(p[..])[i := v]
    {
      p[i] := v;
    }
  }

  // ---------------------------------------------------------------- the codec on memory

  /** xdr_xdrhypersequence from memory into an array that is already there, on the heap or the stack. */
  method DecodeInto(buf: array<byte>, n: nat, p: array<hyper>, ghost usable: set<array<hyper>>)
    returns (ok: bool, len: nat)
    requires n <= buf.Length && p in usable && p.Length >= MAXSEQ
    modifies p
    ensures ok <==> DecodeSeq(old(buf[..n])).Value?
    ensures ok ==> len <= MAXSEQ && p[..len] == DecodeSeq(old(buf[..n])).value
  {
    var d := DecodeSeq(buf[..n]);
    ok, len := d.Value?, 0;
    if ok {
      len := |d.value|;
      forall i | 0 <= i < len {
        p[i] := d.value[i];
      }
    }
  }

  /** xdr_Response into memory, from the two arrays of the reply: fails when the room runs out. */
  method EncodeInto(obuf: array<byte>, a: array<hyper>, b: array<hyper>, n: nat, ghost usable: set<array<hyper>>)
    returns (ok: bool, len: nat)
    requires a in usable && b in usable && n <= MAXSEQ && n <= a.Length && n <= b.Length
    modifies obuf
    ensures var s := EncodeResponse(Response(old(a[..n]), old(b[..n])));
            (ok <==> |s| <= obuf.Length) && (ok ==> len == |s| && obuf[..len] == s)
  {
    var s := EncodeResponse(Response(a[..n], b[..n]));
    ok, len := |s| <= obuf.Length, |s|;
    if ok {
      forall i | 0 <= i < len {
        obuf[i] := s[i];
      }
    }
  }

  /** The loop of both allocating services: copy a value, then square the copy. */
  method CopyAndSquare(heap: Heap, req: array?<hyper>, a: array<hyper>, b: array<hyper>, len: nat)
    requires a in heap.live && b in heap.live && a != b && a.Length >= len && b.Length >= len
    requires len > 0 ==> req != null && req in heap.live && req != a && req != b && req.Length >= len
    modifies a, b
    ensures len > 0 ==> a[..len] == req[..len]
    ensures b[..len] == Squares(a[..len])
  {
    var i := 0;
    while i < len
      invariant i <= len
      invariant forall j :: 0 <= j < i ==> a[j] == req[j] && b[j] == Square(a[j])
    {
      var v := heap.Load(req, i);
      heap.Store(a, i, v);
      var x := heap.Load(a, i);
      var y := heap.Load(a, i);
      heap.Store(b, i, Wrap(x as int * y as int));
      i := i + 1;
    }
  }

  /** What the request in a datagram is answered with, if the reply fits the room. */
  function Reply(data: seq<byte>, room: nat): Option<seq<byte>> {
    var r := Answer(data);
    if r.Some? && |r.value| <= room then r else None
  }

  /** An encoding of the decoded items and their squares is the reply. */
  lemma ReplyEncoded(data: seq<byte>, xs: seq<hyper>, room: nat)
    requires |xs| <= MAXSEQ && DecodeSeq(data).Value? && DecodeSeq(data).value == xs
    ensures var s := EncodeResponse(Response(xs, Squares(xs)));
            Reply(data, room) == if |s| <= room then Some(s) else None
  {
  }

  // ---------------------------------------------------------------- heap copies over UDP

  /** The second half of service: squares, reply, and three frees on each way out. */
  method Respond(heap: Heap, req: array<hyper>, a: array<hyper>, b: array<hyper>, len: nat,
                 obuf: array<byte>, accepted: bool, ghost data: seq<byte>)
    returns (rc: int, sent: Option<seq<byte>>)
    requires {req, a, b} <= heap.live && req != a && req != b && a != b
    requires len <= MAXSEQ && len <= req.Length && len == a.Length == b.Length
    requires DecodeSeq(data).Value? && DecodeSeq(data).value == req[..len]
    modifies heap`live, req, a, b, obuf
    ensures heap.live == old(heap.live) - {req, a, b}
    ensures sent == if accepted then Reply(data, obuf.Length) else None
    ensures rc == if sent.Some? then 0 else -1
  {
    hide EncodeResponse, Squares, DecodeSeq, Reply;
    rc, sent := -1, None;
    CopyAndSquare(heap, req, a, b, len);
    assert a[..len] == req[..len];
    ReplyEncoded(data, a[..len], obuf.Length);
    var ok, size := EncodeInto(obuf, a, b, len, heap.live);
    if !ok {
      heap.Free(req);
      heap.Free(a);
      heap.Free(b);
      return;
    }
    if !accepted {
      heap.Free(req);
      heap.Free(a);
      heap.Free(b);
    } else {
      rc, sent := 0, Some(obuf[..size]);
      heap.Free(req);
      heap.Free(a);
      heap.Free(b);
    }
  }

  /** What serving a datagram leaves of malloc's schedule. */
  function AfterDatagram(data: seq<byte>, plan: seq<bool>): seq<bool> {
    if Grants(plan, 1) && Answer(data).Some? then AfterReply(Rest(plan)) else Rest(plan)
  }

  /** Calls of malloc for a datagram: the next is made only when the one before was granted and the request decoded. */
  lemma MallocCalls(data: seq<byte>, plan: seq<bool>)
    ensures var k := if (plan == [] || plan[0]) && Answer(data).Some? then
                       if |plan| < 2 || plan[1] then 3 else 2
                     else 1;
            AfterDatagram(data, plan) == if k <= |plan| then plan[k..] else []
  {
    hide Answer;
    GrantsThree(plan);
    GrantsThree(Rest(plan));
  }

  /** What the datagrams of a run get. */
  function DatagramReplies(datagrams: seq<seq<byte>>, accepted: seq<bool>, plan: seq<bool>): (r: seq<Option<seq<byte>>>)
    requires |accepted| == |datagrams|
    ensures |r| == |datagrams|
  {
    if datagrams == [] then []
    else
      [if Grants(plan, 3) && accepted[0] then Answer(datagrams[0]) else None]
      + DatagramReplies(datagrams[1..], accepted[1..], AfterDatagram(datagrams[0], plan))
  }

  lemma OneDatagram(datagrams: seq<seq<byte>>, accepted: seq<bool>, k: nat, plan: seq<bool>)
    requires |accepted| == |datagrams| && k < |datagrams|
    ensures DatagramReplies(datagrams[k..], accepted[k..], plan) ==
            [if Grants(plan, 3) && accepted[k] then Answer(datagrams[k]) else None]
            + DatagramReplies(datagrams[k + 1..], accepted[k + 1..], AfterDatagram(datagrams[k], plan))
  {
    hide Answer, AfterDatagram, Grants;
    assert datagrams[k..][1..] == datagrams[k + 1..] && accepted[k..][1..] == accepted[k + 1..];
  }

  /** With memory to spare every accepted datagram gets its answer. */
  lemma {:induction false} PlentyOfMemory(datagrams: seq<seq<byte>>, accepted: seq<bool>)
    requires |accepted| == |datagrams|
    ensures forall i :: 0 <= i < |datagrams| ==>
              DatagramReplies(datagrams, accepted, [])[i] == if accepted[i] then Answer(datagrams[i]) else None
  {
    hide Answer;
    if datagrams != [] {
      PlentyOfMemory(datagrams[1..], accepted[1..]);
    }
  }

  /**
   * service with three blocks: whichever malloc, decoding, encoding or sending fails, every
   * block is freed once and the heap is left as it was found.
   */
  method AllocService(heap: Heap, buf: array<byte>, n: nat, obuf: array<byte>, accepted: bool)
    returns (rc: int, sent: Option<seq<byte>>)
    requires n <= buf.Length && buf != obuf
    modifies heap, obuf
    ensures heap.live == old(heap.live) && heap.plan == AfterDatagram(old(buf[..n]), old(heap.plan))
    ensures sent == if Grants(old(heap.plan), 3) && accepted then Reply(old(buf[..n]), obuf.Length) else None
    ensures rc == if sent.Some? then 0 else -1
  {
    ghost var data := buf[..n];
    GrantsThree(heap.plan);
    GrantsThree(Rest(heap.plan));
    assert Answer(data).Some? <==> DecodeSeq(data).Value?;
    hide DecodeSeq, EncodeResponse, Squares, Grants, Answer;
    rc, sent := -1, None;
    var req := heap.Malloc(100);
    if req == null {
      return;
    }
    var ok, len := DecodeInto(buf, n, req, heap.live);
    if !ok {
      heap.Free(req);
      return;
    }
    var a := heap.Malloc(len);
    if a == null {
      heap.Free(req);
      return;
    }
    var b := heap.Malloc(len);
    if b == null {
      heap.Free(req);
      heap.Free(a);
      return;
    }
    rc, sent := Respond(heap, req, a, b, len, obuf, accepted, data);
  }

  /** A datagram read into the server's buffer, which has room for all but its last octet. */
  method Receive(buf: array<byte>, datagram: seq<byte>) returns (n: nat)
    requires buf.Length > 0
    modifies buf
    ensures n == Min(|datagram|, buf.Length - 1) && buf[..n] == datagram[..n]
  {
    n := Min(|datagram|, buf.Length - 1);
    forall i | 0 <= i < n {
      buf[i] := datagram[i];
    }
  }

  /** A reply always fits the servers' output buffer: their encoding error never happens. */
  lemma ReplyFits(data: seq<byte>)
    ensures Reply(data, BUFLEN) == Answer(data)
  {
    var d := DecodeSeq(data);
    if d.Value? {
      ReplyLength(Response(d.value, Squares(d.value)));
    }
  }

  /** In the servers' buffers neither the request nor the reply is ever too long. */
  lemma BuffersSuffice(datagram: seq<byte>)
    ensures Reply(datagram[..Min(|datagram|, BUFLEN - 1)], BUFLEN) == Answer(datagram)
  {
    var n := Min(|datagram|, BUFLEN - 1);
    if n < |datagram| {
      AnswerOfPrefix(datagram, n);
    } else {
      assert datagram[..n] == datagram;
    }
    ReplyFits(datagram[..n]);
  }

  /** One turn of the server's loop: recvfrom, then service with its own output buffer. */
  method ServeDatagram(heap: Heap, buf: array<byte>, datagram: seq<byte>, accepted: bool)
    returns (sent: Option<seq<byte>>)
    requires buf.Length == BUFLEN
    modifies heap, buf
    ensures heap.live == old(heap.live) && heap.plan == AfterDatagram(datagram, old(heap.plan))
    ensures sent == if Grants(old(heap.plan), 3) && accepted then Answer(datagram) else None
  {
    BuffersSuffice(datagram);
    ReplyFits(datagram[..Min(|datagram|, BUFLEN - 1)]);
    hide Answer, Reply, Grants, AfterReply;
    var obuf := new byte[BUFLEN];
    var n := Receive(buf, datagram);
    var rc;
    rc, sent := AllocService(heap, buf, n, obuf, accepted);
  }

  /**
   * The server's endless loop over a run of datagrams, whichever mallocs and sends fail: the
   * heap ends as it began, and each datagram gets its own answer exactly when its three
   * mallocs and its send succeed.
   */
  method AllocServer(heap: Heap, datagrams: seq<seq<byte>>, accepted: seq<bool>)
    returns (replies: seq<Option<seq<byte>>>)
    requires |accepted| == |datagrams|
    modifies heap
    ensures heap.live == old(heap.live) && replies == DatagramReplies(datagrams, accepted, old(heap.plan))
  {
    hide Answer, AfterDatagram, DatagramReplies, Grants;
    var buf := new byte[BUFLEN];
    replies := [];
    var k := 0;
    ghost var all := DatagramReplies(datagrams, accepted, heap.plan);
    assert datagrams[0..] == datagrams && accepted[0..] == accepted;
    while k < |datagrams|
      invariant k <= |datagrams| && heap.live == old(heap.live)
      invariant all == replies + DatagramReplies(datagrams[k..], accepted[k..], heap.plan)
    {
      OneDatagram(datagrams, accepted, k, heap.plan);
      var sent := ServeDatagram(heap, buf, datagrams[k], accepted[k]);
      Regroup(replies, [sent], DatagramReplies(datagrams[k + 1..], accepted[k + 1..], heap.plan));
      replies := replies + [sent];
      k := k + 1;
    }
    assert replies + [] == replies;
  }

  // ---------------------------------------------------------------- shared arrays over UDP

  /**
   * service with two arrays on the stack: the decoded request and the request part of the
   * reply are one array, and the squares go to the other.
   */
  method ArrayService(buf: array<byte>, n: nat, obuf: array<byte>, accepted: bool)
    returns (rc: int, sent: Option<seq<byte>>)
    requires n <= buf.Length && buf != obuf
    modifies obuf
    ensures sent == if accepted then Reply(old(buf[..n]), obuf.Length) else None
    ensures rc == if sent.Some? then 0 else -1
  {
    hide DecodeSeq, EncodeResponse;
    ghost var data := buf[..n];
    rc, sent := -1, None;
    var inseq, outseq := new hyper[MAXSEQ], new hyper[MAXSEQ];
    var req := inseq;
    var ok, len := DecodeInto(buf, n, req, {inseq, outseq});
    if !ok {
      return;
    }
    var request, response := inseq, outseq;
    var i := 0;
    while i < len
      invariant i <= len && request[..len] == DecodeSeq(data).value
      invariant forall j :: 0 <= j < i ==> response[j] == Square(request[j])
    {
      response[i] := Wrap(request[i] as int * request[i] as int);
      i := i + 1;
    }
    assert response[..len] == Squares(request[..len]);
    ReplyEncoded(data, request[..len], obuf.Length);
    var size;
    ok, size := EncodeInto(obuf, request, response, len, {inseq, outseq});
    if ok && accepted {
      rc, sent := 0, Some(obuf[..size]);
    }
  }

  // ---------------------------------------------------------------- a TCP stream

  /** Octets that reads of c at a time bring before one is disturbed or the stream ends. */
  function Brought(plan: seq<Event>, avail: nat, c: nat): (n: nat)
    requires c > 0
    ensures n <= avail
    ensures Quiet(plan) ==> n == avail
    decreases |plan|
  {
    if avail == 0 || plan == [] then avail
    else if !plan[0].Move? then
      assert plan[0] in plan;
      0
    else
      var k := Min(Max(plan[0].n, 1), Min(c, avail));
      assert Quiet(plan) ==> Quiet(plan[1..]);
      k + Brought(plan[1..], avail - k, c)
  }

  /** What of its input a stream gets to see. */
  function Arrived(input: seq<byte>, plan: seq<Event>, c: nat): (a: seq<byte>)
    requires c > 0
    ensures a <= input && (Quiet(plan) ==> a == input)
  {
    input[..Brought(plan, |input|, c)]
  }

  /** A FILE opened for reading: a buffer of the library's choice before the descriptor. */
  class InFile {
    const fd: Descriptor
    const buf: array<byte>
    var ptr: nat
    var cnt: nat
    ghost var pending: seq<byte>  // read from the descriptor and not handed out

    ghost predicate Valid()
      reads this, buf
    {
      buf.Length > 0 && ptr + cnt <= buf.Length && pending == buf[ptr..ptr + cnt]
    }

    /** What it will still hand out. */
    ghost function Coming(): seq<byte>
      requires buf.Length > 0
      reads this`pending, fd`input, fd`readPlan
    {
      pending + Arrived(fd.input, fd.readPlan, buf.Length)
    }

    constructor (fd: Descriptor, c: nat)
      requires c > 0
      ensures Valid() && this.fd == fd && fresh(buf) && Coming() == Arrived(fd.input, fd.readPlan, c)
    {
      this.fd, ptr, cnt, pending := fd, 0, 0, [];
      buf := new byte[c];
      new;
      assert [] + Arrived(fd.input, fd.readPlan, c) == Arrived(fd.input, fd.readPlan, c);
    }

    /** One read(2) into the whole buffer: nothing exactly when nothing more is coming. */
    method Refill()
      requires Valid() && cnt == 0
      modifies this`ptr, this`cnt, this`pending, buf, fd`input, fd`readPlan, fd`interrupted
      ensures Valid() && (if cnt == 0 then old(Coming()) == [] else Coming() == old(Coming()))
      ensures cnt == 0 || |fd.input| < |old(fd.input)|
    {
      ghost var input, plan, chunk := fd.input, fd.readPlan, [];
      var rc;
      rc, chunk := fd.Read(buf, 0, buf.Length);
      ptr, cnt, pending := 0, Max(rc, 0), chunk;
      assert buf[..cnt] == chunk;
      ArrivedNext(input, plan, buf.Length, chunk, fd.input);
      hide Arrived;
      assert [] + Arrived(input, plan, buf.Length) == Arrived(input, plan, buf.Length);
    }

    /** k octets out of the buffer. */
    method Take(k: nat) returns (part: seq<byte>)
      requires Valid() && k <= cnt
      modifies this`ptr, this`cnt, this`pending
      ensures Valid() && |part| == k && old(Coming()) == part + Coming()
    {
      hide Arrived;
      part := buf[ptr..ptr + k];
      assert pending == part + pending[k..];
      Regroup(part, pending[k..], Arrived(fd.input, fd.readPlan, buf.Length));
      ptr, cnt, pending := ptr + k, cnt - k, pending[k..];
    }

    /** fread of n octets: all of them exactly when that many are coming. */
    method Get(n: nat) returns (got: seq<byte>)
      requires Valid()
      modifies this`ptr, this`cnt, this`pending, buf, fd`input, fd`readPlan, fd`interrupted
      ensures Valid() && |got| <= n
      ensures old(Coming()) == if |got| == n then got + Coming() else got
    {
      hide Arrived;
      ghost var coming := Coming();
      got := [];
      while |got| < n
        invariant Valid() && |got| <= n && coming == got + Coming()
        decreases n - |got|
      {
        if cnt == 0 {
          Refill();
          if cnt == 0 {
            assert got + [] == got;
            return;
          }
        }
        var part := Take(Min(cnt, n - |got|));
        Regroup(got, part, Coming());
        got := got + part;
      }
    }
  }

  lemma ArrivedNext(input: seq<byte>, plan: seq<Event>, c: nat, chunk: seq<byte>, rest: seq<byte>)
    requires c > 0 && input == chunk + rest && |chunk| == Max(ReadResult(plan, c, |input|), 0)
    ensures Arrived(input, plan, c) == if chunk == [] then [] else chunk + Arrived(rest, Rest(plan), c)
  {
    var more := Brought(Rest(plan), |rest|, c);
    assert Brought(plan, |input|, c) == if chunk == [] then 0 else |chunk| + more;
    assert input[..|chunk| + more] == chunk + rest[..more];
  }

  /** The decoder had allocated the array and then ran out of input. */
  predicate Truncated(s: seq<byte>) {
    |s| >= 4 && 0 < WordValue(s[..4]) <= MAXSEQ && |s| < 4 + 8 * WordValue(s[..4])
  }

  lemma ItemsSnoc(xs: seq<hyper>, x: hyper)
    ensures EncodeItems(xs + [x]) == EncodeItems(xs) + EncodeHyper(x)
  {
    if xs == [] {
      assert xs + [x] == [x];
    } else {
      ItemsSnoc(xs[1..], x);
      assert (xs + [x])[1..] == xs[1..] + [x];
      Regroup(EncodeHyper(xs[0]), EncodeItems(xs[1..]), EncodeHyper(x));
    }
  }

  /** One item from the stream into slot i; `s` is what was coming when the items began. */
  method ReadItem(heap: Heap, f: InFile, p: array<hyper>, i: nat, ghost s: seq<byte>) returns (ok: bool)
    requires p in heap.live && f.Valid() && i < p.Length && s == EncodeItems(p[..i]) + f.Coming()
    modifies f`ptr, f`cnt, f`pending, f.buf, f.fd`input, f.fd`readPlan, f.fd`interrupted, p
    ensures f.Valid() && (ok ==> s == EncodeItems(p[..i + 1]) + f.Coming())
    ensures !ok ==> |s| < 8 * (i + 1)
  {
    ghost var front := p[..i];
    var got := f.Get(8);
    ok := |got| == 8;
    if ok {
      heap.Store(p, i, HyperValue(got));
      HyperOnto(got);
      ItemsSnoc(front, p[i]);
      assert p[..i + 1] == front + [p[i]];
      Regroup(EncodeItems(front), got, f.Coming());
    }
  }

  /** The loop of xdr_array over an array already allocated. */
  method ReadItems(heap: Heap, f: InFile, p: array<hyper>) returns (ok: bool)
    requires p in heap.live && f.Valid()
    modifies f`ptr, f`cnt, f`pending, f.buf, f.fd`input, f.fd`readPlan, f.fd`interrupted, p
    ensures f.Valid() && (ok ==> old(f.Coming()) == EncodeItems(p[..]) + f.Coming())
    ensures !ok ==> |old(f.Coming())| < 8 * p.Length
  {
    hide EncodeItems;
    ghost var s := f.Coming();
    ok := true;
    var i := 0;
    NoItems(s);
    assert p[..0] == [];
    while i < p.Length && ok
      invariant f.Valid() && i <= p.Length
      invariant ok ==> s == EncodeItems(p[..i]) + f.Coming()
      invariant !ok ==> |s| < 8 * p.Length
      decreases p.Length - i
    {
      ok := ReadItem(heap, f, p, i, s);
      i := i + 1;
    }
    assert p[..p.Length] == p[..];
  }

  lemma NoItems(s: seq<byte>)
    ensures EncodeItems([]) + s == s
  {
  }

  lemma StreamDecoded(s: seq<byte>, head: seq<byte>, xs: seq<hyper>, rest: seq<byte>)
    requires |head| == 4 && WordValue(head) == |xs| <= MAXSEQ && s == head + (EncodeItems(xs) + rest)
    ensures DecodeSeq(s) == Value(xs, rest)
  {
    WordOnto(head);
    Regroup(head, EncodeItems(xs), rest);
    SeqRoundTrip(xs, rest);
  }

  /** The array the library allocates for the items; none for an empty sequence. */
  function Items(p: array?<hyper>): seq<hyper>
    reads if p == null then {} else {p}
  {
    if p == null then [] else p[..]
  }

  /** The decoder gets as far as allocating an array. */
  predicate Allocates(s: seq<byte>) { |s| >= 4 && 0 < WordValue(s[..4]) <= MAXSEQ }

  /** The request that arrives as `a` decodes and has its array. */
  predicate Decoded(a: seq<byte>, plan: seq<bool>) {
    DecodeSeq(a).Value? && (DecodeSeq(a).value == [] || Grants(plan, 1))
  }

  /** Decoding it loses a block: what arrives stops inside the items, after the array has been granted. */
  predicate Leaks(a: seq<byte>, plan: seq<bool>) { Truncated(a) && Grants(plan, 1) }

  /**
   * xdr_xdrhypersequence from a stream with a null pointer: the library allocates the array,
   * and leaves it allocated exactly when the items then fail to come.
   */
  method DecodeStream(heap: Heap, f: InFile) returns (ok: bool, p: array?<hyper>, len: nat)
    requires f.Valid()
    modifies heap, f`ptr, f`cnt, f`pending, f.buf, f.fd`input, f.fd`readPlan, f.fd`interrupted
    ensures p == null ==> heap.live == old(heap.live)
    ensures p != null ==> heap.live == old(heap.live) + {p} && fresh(p)
    ensures heap.plan == if Allocates(old(f.Coming())) then Rest(old(heap.plan)) else old(heap.plan)
    ensures ok ==> len == |Items(p)| <= MAXSEQ && DecodeSeq(old(f.Coming())) == Value(Items(p), f.Coming())
    ensures ok <==> Decoded(old(f.Coming()), old(heap.plan))
    ensures !ok && p != null <==> Leaks(old(f.Coming()), old(heap.plan))
    ensures ok ==> (p == null <==> len == 0)
  {
    GrantsThree(heap.plan);
    hide DecodeSeq, EncodeItems, Grants;
    ghost var s := f.Coming();
    ok, p, len := false, null, 0;
    SeqOnto(s);
    var head := f.Get(4);
    if |head| < 4 {
      return;
    }
    assert s[..4] == head && s[4..] == f.Coming();
    len := WordValue(head);
    if len > MAXSEQ {
      return;
    }
    if len == 0 {
      NoItems(f.Coming());
      StreamDecoded(s, head, [], f.Coming());
      ok := true;
      return;
    }
    p := heap.Malloc(len);
    if p != null {
      ok := ReadItems(heap, f, p);
      if ok {
        StreamDecoded(s, head, p[..], f.Coming());
      }
    }
  }

  /** Every write moves at least an octet and none fails. */
  ghost predicate Steady(plan: seq<Event>) {
    Quiet(plan) && Move(0) !in plan
  }

  /** How much of `need` octets fflush gets out. */
  function Flushed(plan: seq<Event>, need: nat): (n: nat)
    ensures n <= need
    decreases need
  {
    var rc := WriteResult(plan, need);
    if need == 0 || rc <= 0 then 0 else rc + Flushed(Rest(plan), need - rc)
  }

  lemma {:induction false} SteadyFlushes(plan: seq<Event>, need: nat)
    requires Steady(plan)
    ensures Flushed(plan, need) == need
    decreases need
  {
    if need > 0 {
      SteadyWrite(plan, need);
      SteadyFlushes(Rest(plan), need - WriteResult(plan, need));
    }
  }

  /** One write(2) behind fflush. */
  method FlushMore(fd: Descriptor, buf: array<byte>, k: nat) returns (rc: int)
    requires k < buf.Length
    modifies fd`output, fd`writePlan, fd`interrupted
    ensures rc <= buf.Length - k && fd.output == old(fd.output) + buf[k..k + Max(rc, 0)]
    ensures Flushed(old(fd.writePlan), buf.Length - k) ==
            if rc <= 0 then 0 else rc + Flushed(fd.writePlan, buf.Length - k - rc)
  {
    rc := fd.Write(buf, k, buf.Length - k);
  }

  /** fflush: writes until everything is out or a call fails; its result is ignored. */
  method Flush(fd: Descriptor, text: seq<byte>) returns (ghost sent: seq<byte>)
    modifies fd`output, fd`writePlan, fd`interrupted
    ensures sent == text[..Flushed(old(fd.writePlan), |text|)] && fd.output == old(fd.output) + sent
  {
    hide Flushed;
    var buf := new byte[|text|](i requires 0 <= i < |text| => text[i]);
    ghost var output, goal := fd.output, Flushed(fd.writePlan, |text|);
    var k, go := 0, true;
    assert buf[..] == text;
    while k < |text| && go
      invariant k <= |text| && fd.output == output + text[..k] && buf[..] == text
      invariant goal == k + if go then Flushed(fd.writePlan, |text| - k) else 0
      decreases |text| - k, go
    {
      var rc := FlushMore(fd, buf, k);
      NextPiece(output, text, k, Max(rc, 0));
      go := rc > 0;
      k := k + Max(rc, 0);
    }
    NothingToFlush(fd.writePlan);
    sent := text[..k];
  }

  lemma NothingToFlush(plan: seq<Event>)
    ensures Flushed(plan, 0) == 0
  {
  }

  lemma SteadyWrite(plan: seq<Event>, want: nat)
    requires want > 0
    ensures Steady(plan) ==> WriteResult(plan, want) > 0 && Steady(Rest(plan))
  {
    assert plan != [] ==> plan[0] in plan;
  }

  /** xdr_Response into the stream's buffer, from the two arrays of the reply, and fflush. */
  method SendResponse(fd: Descriptor, a: array<hyper>, b: array<hyper>, n: nat, ghost usable: set<array<hyper>>)
    returns (ghost sent: seq<byte>)
    requires a in usable && b in usable && n <= MAXSEQ && n <= a.Length && n <= b.Length
    modifies fd`output, fd`writePlan, fd`interrupted
    ensures var s := EncodeResponse(Response(a[..n], b[..n]));
            sent == s[..Flushed(old(fd.writePlan), |s|)]
    ensures fd.output == old(fd.output) + sent
  {
    sent := Flush(fd, EncodeResponse(Response(a[..n], b[..n])));
  }

  /** The second half of the stream service: squares, reply, flush and three frees. */
  method RespondOnStream(heap: Heap, req: array?<hyper>, a: array<hyper>, b: array<hyper>, len: nat,
                         fd: Descriptor, encodes: bool, ghost data: seq<byte>)
    returns (rc: int, ghost sent: seq<byte>)
    requires {a, b} <= heap.live && a != b && len == a.Length == b.Length <= MAXSEQ
    requires req != null ==> req in heap.live && req != a && req != b
    requires DecodeSeq(data).Value? && Items(req) == DecodeSeq(data).value && |Items(req)| == len
    modifies heap`live, req, a, b, fd`output, fd`writePlan, fd`interrupted
    ensures heap.live == old(heap.live) - {a, b} - (if req == null then {} else {req})
    ensures fd.output == old(fd.output) + sent
    ensures rc == if encodes then 0 else -1
    ensures sent == if encodes then Answer(data).value[..Flushed(old(fd.writePlan), |Answer(data).value|)] else []
  {
    hide EncodeResponse, Squares, DecodeSeq, Flushed;
    rc, sent := -1, [];
    CopyAndSquare(heap, req, a, b, len);
    assert a[..len] == Items(req);
    if !encodes {
      heap.Free(req);
      heap.Free(a);
      heap.Free(b);
      return;
    }
    sent := SendResponse(fd, a, b, len, heap.live);
    heap.Free(req);
    heap.Free(a);
    heap.Free(b);
    rc := 0;
  }

  /** The two blocks of the reply, then the reply; the request's block is freed on every way out. */
  method AnswerStream(heap: Heap, req: array?<hyper>, len: nat, fd: Descriptor, encodes: bool, ghost data: seq<byte>)
    returns (rc: int, ghost sent: seq<byte>)
    requires req != null ==> req in heap.live
    requires DecodeSeq(data).Value? && Items(req) == DecodeSeq(data).value && |Items(req)| == len
    modifies heap, req, fd`output, fd`writePlan, fd`interrupted
    ensures heap.live == old(heap.live) - (if req == null then {} else {req})
    ensures heap.plan == AfterReply(old(heap.plan))
    ensures fd.output == old(fd.output) + sent
    ensures rc == if encodes && Grants(old(heap.plan), 2) then 0 else -1
    ensures sent == if rc == 0 then Answer(data).value[..Flushed(old(fd.writePlan), |Answer(data).value|)] else []
  {
    GrantsThree(heap.plan);
    hide DecodeSeq, Answer, Items, Grants, Flushed;
    rc, sent := -1, [];
    var a := heap.Malloc(len);
    if a == null {
      heap.Free(req);
      return;
    }
    var b := heap.Malloc(len);
    if b == null {
      heap.Free(req);
      heap.Free(a);
      return;
    }
    rc, sent := RespondOnStream(heap, req, a, b, len, fd, encodes, data);
  }

  /** The malloc calls that must succeed: one for the items, if there are any, and two for the reply. */
  function Blocks(xs: seq<hyper>): nat { if xs == [] then 2 else 3 }

  /** A request that arrives as `a` is answered. */
  predicate Answered(a: seq<byte>, plan: seq<bool>, encodes: bool) {
    var d := DecodeSeq(a);
    encodes && d.Value? && Grants(plan, Blocks(d.value))
  }

  /** What serving it leaves of malloc's schedule. */
  function AfterService(a: seq<byte>, plan: seq<bool>): seq<bool> {
    var d := DecodeSeq(a);
    var next := if Allocates(a) then Rest(plan) else plan;
    if d.Value? && (d.value == [] || Grants(plan, 1)) then AfterReply(next) else next
  }

  /** The octets that go out for it. */
  function Outgoing(a: seq<byte>, plan: seq<bool>, encodes: bool, writePlan: seq<Event>): seq<byte> {
    if Answered(a, plan, encodes) then
      var reply := Answer(a).value;
      reply[..Flushed(writePlan, |reply|)]
    else []
  }

  lemma DecodedCount(a: seq<byte>)
    ensures DecodeSeq(a).Value? ==> (Allocates(a) <==> DecodeSeq(a).value != []) && !Truncated(a)
  {
    SeqOnto(a);
    hide WordValue;
  }

  lemma Outcomes(a: seq<byte>, plan: seq<bool>, encodes: bool)
    ensures var next := if Allocates(a) then Rest(plan) else plan;
            if Decoded(a, plan)
            then !Leaks(a, plan) && AfterService(a, plan) == AfterReply(next) &&
                 (Answered(a, plan, encodes) <==> encodes && Grants(next, 2))
            else !Answered(a, plan, encodes) && AfterService(a, plan) == next
  {
    GrantsLater(plan, 2);
    GrantsThree(plan);
    DecodedCount(a);
    hide DecodeSeq, Grants, Allocates, Truncated, AfterReply;
  }

  /**
   * service over a stream: whatever fails, what goes out and what stays allocated depend only
   * on the octets that arrive and on the schedules of malloc and of the writes.
   */
  method StreamService(heap: Heap, fd: Descriptor, c: nat, encodes: bool) returns (rc: int, ghost sent: seq<byte>)
    requires c > 0
    modifies heap, fd
    ensures fd.output == old(fd.output) + sent
    ensures var a := Arrived(old(fd.input), old(fd.readPlan), c);
            && rc == (if Answered(a, old(heap.plan), encodes) then 0 else -1)
            && sent == Outgoing(a, old(heap.plan), encodes, old(fd.writePlan))
            && heap.plan == AfterService(a, old(heap.plan))
            && old(heap.live) <= heap.live
            && (if Leaks(a, old(heap.plan)) then |heap.live| == |old(heap.live)| + 1 else heap.live == old(heap.live))
  {
    ghost var plan, a := heap.plan, Arrived(fd.input, fd.readPlan, c);
    Outcomes(a, plan, encodes);
    hide DecodeSeq, Answer, Grants, Items, Flushed, Arrived, Allocates, AfterReply, Answered, AfterService, Decoded,
         Leaks;
    rc, sent := -1, [];
    var f := new InFile(fd, c);
    var ok, req, len := DecodeStream(heap, f);
    if ok {
      rc, sent := AnswerStream(heap, req, len, fd, encodes, a);
      assert req != null ==> old(heap.live) + {req} - {req} == old(heap.live);
    }
  }

  /** One connection a child accepts: what its client sends, and how the calls on it end. */
  datatype Visit = Visit(input: seq<byte>, readPlan: seq<Event>, writePlan: seq<Event>, encodes: bool)

  /** What the connections of a run get. */
  function Replies(visits: seq<Visit>, c: nat, plan: seq<bool>): (r: seq<seq<byte>>)
    requires c > 0
    ensures |r| == |visits|
  {
    if visits == [] then []
    else
      var v, a := visits[0], Arrived(visits[0].input, visits[0].readPlan, c);
      [Outgoing(a, plan, v.encodes, v.writePlan)] + Replies(visits[1..], c, AfterService(a, plan))
  }

  /** How many blocks a run loses. */
  function Lost(visits: seq<Visit>, c: nat, plan: seq<bool>): nat
    requires c > 0
  {
    if visits == [] then 0
    else
      var a := Arrived(visits[0].input, visits[0].readPlan, c);
      (if Leaks(a, plan) then 1 else 0) + Lost(visits[1..], c, AfterService(a, plan))
  }

  lemma OneVisit(visits: seq<Visit>, k: nat, c: nat, plan: seq<bool>)
    requires c > 0 && k < |visits|
    ensures var a := Arrived(visits[k].input, visits[k].readPlan, c);
            && Replies(visits[k..], c, plan) ==
               [Outgoing(a, plan, visits[k].encodes, visits[k].writePlan)] +
                   Replies(visits[k + 1..], c, AfterService(a, plan))
            && Lost(visits[k..], c, plan) ==
                (if Leaks(a, plan) then 1 else 0) + Lost(visits[k + 1..], c, AfterService(a, plan))
  {
    hide Outgoing, AfterService, Leaks, Arrived;
    assert visits[k..][1..] == visits[k + 1..];
  }

  /**
   * The endless loop of a child, under any schedules: every client gets what its own request
   * is due, and the heap grows by one block for each request that stops inside its items as
   * it arrives, and by nothing else.
   */
  method Child(heap: Heap, visits: seq<Visit>, c: nat) returns (ghost replies: seq<seq<byte>>)
    requires c > 0
    modifies heap
    ensures replies == Replies(visits, c, old(heap.plan))
    ensures |heap.live| == |old(heap.live)| + Lost(visits, c, old(heap.plan))
  {
    hide Replies, Lost, Outgoing, AfterService, Leaks, Arrived, Answered;
    replies := [];
    var k := 0;
    assert visits[0..] == visits;
    ghost var all, lost := Replies(visits, c, heap.plan), Lost(visits, c, heap.plan);
    NoVisits(c);
    while k < |visits|
      invariant k <= |visits| && all == replies + Replies(visits[k..], c, heap.plan)
      invariant |heap.live| + Lost(visits[k..], c, heap.plan) == |old(heap.live)| + lost
    {
      var v := visits[k];
      OneVisit(visits, k, c, heap.plan);
      var connfd := new Descriptor(v.input, v.readPlan, v.writePlan);
      var rc;
      ghost var sent;
      rc, sent := StreamService(heap, connfd, c, v.encodes);
      Regroup(replies, [sent], Replies(visits[k + 1..], c, heap.plan));
      replies := replies + [sent];
      k := k + 1;
    }
    assert visits[k..] == [];
  }

  lemma NoVisits(c: nat)
    requires c > 0
    ensures forall plan :: Replies([], c, plan) == [] && Lost([], c, plan) == 0
  {
  }

  /** A request that decodes as it arrives is answered like the whole input. */
  lemma ArrivedAnswer(input: seq<byte>, plan: seq<Event>, c: nat)
    requires c > 0 && DecodeSeq(Arrived(input, plan, c)).Value?
    ensures Answer(Arrived(input, plan, c)) == Answer(input)
  {
    var a := Arrived(input, plan, c);
    var d, more := DecodeSeq(a), input[|a|..];
    SeqOnto(a);
    assert input == a + more;
    Regroup(EncodeSeq(d.value), d.rest, more);
    SeqRoundTrip(d.value, d.rest + more);
    hide DecodeSeq, EncodeSeq, EncodeResponse, Squares;
    assert DecodeSeq(input) == Value(d.value, d.rest + more);
  }

  /** What a request is due: its answer, or nothing. */
  function Due(data: seq<byte>): seq<byte> {
    match Answer(data)
    case None => []
    case Some(r) => r
  }

  /** With undisturbed calls and memory to spare a client gets its whole answer, and only truncation loses a block. */
  lemma Undisturbed(v: Visit, c: nat)
    requires c > 0 && Quiet(v.readPlan) && Steady(v.writePlan) && v.encodes
    ensures var a := Arrived(v.input, v.readPlan, c);
            && a == v.input && Outgoing(a, [], true, v.writePlan) == Due(v.input) && AfterService(a, []) == []
            && (Leaks(a, []) <==> Truncated(v.input))
            && (Answered(a, [], true) <==> Answer(v.input).Some?)
  {
    var d := DecodeSeq(v.input);
    if d.Value? {
      SteadyFlushes(v.writePlan, |Answer(v.input).value|);
    }
    hide DecodeSeq, EncodeResponse, Squares, Flushed, WordValue;
  }

  /** The three services give one answer to the same request. */
  method ServicesAgree(heap: Heap, buf: array<byte>, n: nat, readPlan: seq<Event>, writePlan: seq<Event>, c: nat)
    returns (copied: Option<seq<byte>>, shared: Option<seq<byte>>, ghost streamed: seq<byte>)
    requires n <= buf.Length && heap.plan == [] && Quiet(readPlan) && Steady(writePlan) && c > 0
    modifies heap
    ensures copied == shared == Answer(buf[..n])
    ensures streamed == Due(buf[..n])
  {
    ReplyFits(buf[..n]);
    Undisturbed(Visit(buf[..n], readPlan, writePlan, true), c);
    hide Answer, Reply, Quiet, Steady, DecodeSeq, Outgoing, Answered, AfterService, Leaks, Arrived;
    var obuf := new byte[BUFLEN];
    ghost var data := buf[..n];
    var rc;
    rc, copied := AllocService(heap, buf, n, obuf, true);
    rc, shared := ArrayService(buf, n, obuf, true);
    var fd := new Descriptor(buf[..n], readPlan, writePlan);
    rc, streamed := StreamService(heap, fd, c, true);
  }

  // ---------------------------------------------------------------- the stream client

  /** What the client prints for a hyper it keeps in an unsigned int. */
  function Printed(v: hyper): nat { v as int % WORD }

  /** The client's request for two squares. */
  method Ask(fd: Descriptor, x: nat, y: nat) returns (ghost sent: nat)
    requires x < WORD && y < WORD
    modifies fd`output, fd`writePlan, fd`interrupted
    ensures sent <= 20 && fd.output == old(fd.output) + EncodeSeq([x as hyper, y as hyper])[..sent]
    ensures Reliable(old(fd.writePlan)) ==> sent == 20
  {
    var request := EncodeSeq([x as hyper, y as hyper]);
    hide EncodeSeq, Push;
    var buf := new byte[20](i requires 0 <= i < 20 => request[i]);
    assert buf[..] == request;
    PushExact(fd.writePlan, 20, fd.interrupted);
    var rc;
    rc, sent := Writen(fd, buf, 20);
    assert buf[..sent] == request[..sent];
  }

  /** What it prints from a reply to two operands: each operand and its square. */
  function Shown(s: seq<byte>): Option<seq<nat>> {
    match DecodeResponse(s)
    case Malformed => None
    case Value(r, _) =>
      if |r.request| != 2 || |r.response| != 2 then None
      else Some([Printed(r.request[0]), Printed(r.response[0]), Printed(r.request[1]), Printed(r.response[1])])
  }

  /** The client's Readn of 40 octets, decoded only when they have all come. */
  method Hear(fd: Descriptor) returns (shown: Option<seq<nat>>)
    requires Fault !in fd.readPlan
    modifies fd`input, fd`readPlan, fd`interrupted
    ensures var n := Min(|old(fd.input)|, 40);
            && shown == (if n < 40 then None else Shown(old(fd.input)[..40]))
            && fd.input == old(fd.input)[n..]
  {
    hide Pull, Shown;
    PullExact(fd.readPlan, 40, |fd.input|);
    var rbuf := new byte[512];
    ghost var s := fd.input;
    ghost var taken;
    var n;
    n, taken := Readn(fd, rbuf, 40);
    assert s[..|taken|] == taken && s[|taken|..] == fd.input;
    shown := None;
    if n == 40 {
      assert rbuf[..40] == taken;
      shown := Shown(rbuf[..40]);
    }
  }

  lemma PrintedSquare(x: nat)
    requires x < WORD
    ensures Printed(x as hyper) == x && Printed(Square(x as hyper)) == x * x % WORD
  {
    hide Square;
    SquareLaw(x as hyper);
  }

  /** The reply to two operands is exactly what the client waits for, and shows their squares modulo 2^32. */
  lemma ShownLaw(x: nat, y: nat)
    requires x < WORD && y < WORD
    ensures var reply := Answer(EncodeSeq([x as hyper, y as hyper]));
            reply.Some? && |reply.value| == 40 && Shown(reply.value) == Some([x, x * x % WORD, y, y * y % WORD])
  {
    PrintedSquare(x);
    PrintedSquare(y);
    hide Square, Printed;
    ShownPair(x as hyper, y as hyper);
  }

  lemma ShownPair(v: hyper, w: hyper)
    ensures var reply := Answer(EncodeSeq([v, w]));
            reply.Some? && |reply.value| == 40 &&
                Shown(reply.value) == Some([Printed(v), Printed(Square(v)), Printed(w), Printed(Square(w))])
  {
    hide Square, Printed, EncodeSeq, EncodeResponse, DecodeResponse, Answer;
    var xs := [v, w];
    AnswerLaw(xs, [], []);
    ReplyLength(Response(xs, Squares(xs)));
    assert EncodeSeq(xs) + [] == EncodeSeq(xs);
    var reply := Answer(EncodeSeq(xs)).value;
    assert reply + [] == reply;
    var r := DecodeResponse(reply).value;
    assert r == Response(xs, Squares(xs)) && |r.request| == 2 && |r.response| == 2;
    assert r.response[0] == Square(v) && r.response[1] == Square(w);
  }

  /** What is shown is the square itself for operands below 65536 and for no others. */
  lemma ShownExactly(x: nat)
    ensures x * x % WORD == x * x <==> x < 0x1_0000
  {
    if x < 0x1_0000 {
      Larger(x, 0xffff);
    } else {
      Larger(0x1_0000, x);
    }
  }

  /** Client and service together: whatever the sizes in which the octets travel, both squares are shown. */
  method Converse(heap: Heap, x: nat, y: nat, client: Descriptor, readPlan: seq<Event>, writePlan: seq<Event>, c: nat)
    returns (shown: Option<seq<nat>>)
    requires x < WORD && y < WORD && client.output == [] && client.input == [] && c > 0
    requires heap.plan == [] && Quiet(readPlan) && Steady(writePlan)
    requires Reliable(client.writePlan) && Fault !in client.readPlan
    modifies heap, client
    ensures shown == Some([x, x * x % WORD, y, y * y % WORD])
    ensures heap.live == old(heap.live) && client.input == []
  {
    var sent := Ask(client, x, y);
    ghost var request := EncodeSeq([x as hyper, y as hyper]);
    assert client.output == request;
    ShownLaw(x, y);
    SeqRoundTrip([x as hyper, y as hyper], []);
    assert request + [] == request;
    Undisturbed(Visit(request, readPlan, writePlan, true), c);
    NotLost(request);
    hide EncodeSeq, Answer, DecodeSeq, Shown, Outgoing, Answered, AfterService, Leaks, Arrived, Truncated;
    var connfd := new Descriptor(client.output, readPlan, writePlan);
    var rc, reply := StreamService(heap, connfd, c, true);
    client.input := connfd.output;
    assert client.input == reply && reply[..40] == reply;
    shown := Hear(client);
  }

  lemma NotLost(s: seq<byte>)
    requires DecodeSeq(s).Value?
    ensures !Truncated(s)
  {
    SeqOnto(s);
  }
}
