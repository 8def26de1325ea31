/** The stream library sockwrap.c: exact transfers and the two line readers. */
module SockWrap {
  import opened Octets
  import opened Kernel

  // ---------------------------------------------------------------- exact transfers

  /** What a transfer loop did: bytes moved, whether it gave up, and the schedule left. */
  datatype Run = Run(moved: nat, failed: bool, plan: seq<Event>) {
    function Shift(k: nat): Run { this.(moved := k + moved) }
  }

  /** readn: read until `need` bytes have come, the stream ends, or a call fails. */
  function Pull(ev: seq<Event>, need: nat, avail: nat): (r: Run)
    ensures r.moved <= need && r.moved <= avail && |r.plan| <= |ev|
    decreases need, |ev|
  {
    var rc := ReadResult(ev, need, avail);
    if need == 0 then Run(0, false, ev)
    else if rc < 0 then if ev[0].Interrupt? then Pull(ev[1..], need, avail) else Run(0, true, ev[1..])
    else if rc == 0 then Run(0, false, Rest(ev))
    else Pull(Rest(ev), need - rc, avail - rc).Shift(rc)
  }

  /** What a write loop did; `stale` is whether it leaves errno == EINTR behind. */
  datatype Written = Written(moved: nat, failed: bool, plan: seq<Event>, stale: bool) {
    function Shift(k: nat): Written { this.(moved := k + moved) }
  }

  /** writen and sendn; `stale` is errno == EINTR left over from an earlier call. */
  function Push(ev: seq<Event>, need: nat, stale: bool): (r: Written)
    ensures r.moved <= need && |r.plan| <= |ev|
    decreases need, |ev|
  {
    var rc := WriteResult(ev, need);
    if need == 0 then Written(0, false, ev, stale)
    else if rc <= 0 then
      if (if rc < 0 then ev[0].Interrupt? else stale) then Push(ev[1..], need, stale || rc < 0)
      else Written(0, true, ev[1..], false)
    else Push(Rest(ev), need - rc, stale).Shift(rc)
  }

  /** A read loop that does not fail returns everything asked for, or everything there was. */
  lemma {:induction false} PullExact(ev: seq<Event>, need: nat, avail: nat)
    ensures var r := Pull(ev, need, avail);
            && (!r.failed ==> r.moved == Min(need, avail))
            && (r.failed ==> r.moved < need && Fault in ev)
            && (Fault in r.plan ==> Fault in ev)
    decreases need, |ev|
  {
    var rc := ReadResult(ev, need, avail);
    if need > 0 && rc < 0 && ev[0].Interrupt? {
      PullExact(ev[1..], need, avail);
    } else if need > 0 && rc > 0 {
      PullExact(Rest(ev), need - rc, avail - rc);
    }
  }

  /** A write loop moves everything or fails; only an error or a zero count makes it fail. */
  lemma {:induction false} PushExact(ev: seq<Event>, need: nat, stale: bool)
    ensures var r := Push(ev, need, stale);
            && (r.failed <==> r.moved < need)
            && (r.failed ==> Fault in ev || Move(0) in ev)
            && (Fault in r.plan ==> Fault in ev)
            && (Move(0) in r.plan ==> Move(0) in ev)
    decreases need, |ev|
  {
    var rc := WriteResult(ev, need);
    if need > 0 && rc <= 0 {
      PushExact(ev[1..], need, stale || rc < 0);
    } else if need > 0 {
      PushExact(Rest(ev), need - rc, stale);
    }
  }

  /** Octets a schedule of reads of c at most may bring; every read that moves brings at least one. */
  function Gained(ev: seq<Event>, c: nat): nat {
    if ev == [] then 0 else (if ev[0].Move? then Min(Max(ev[0].n, 1), c) else 0) + Gained(ev[1..], c)
  }

  /** Event f is an error that comes before the reads have brought enough or met the end of the stream. */
  predicate Breaks(ev: seq<Event>, f: nat, need: nat, avail: nat, c: nat)
    requires f < |ev|
  {
    && ev[f] == Fault && Min(Gained(ev[..f], c), avail) < need
    && forall g :: 0 <= g < f && ev[g].Move? ==> Gained(ev[..g], c) < avail
  }

  ghost predicate Broken(ev: seq<Event>, need: nat, avail: nat, c: nat) {
    exists f :: 0 <= f < |ev| && Breaks(ev, f, need, avail, c)
  }

  /** What a read brings under event e. */
  function Brings(e: Event, avail: nat, c: nat): nat {
    if e.Move? then Min(Max(e.n, 1), Min(c, avail)) else 0
  }

  lemma GainedLater(ev: seq<Event>, f: nat, c: nat)
    requires 0 < f <= |ev|
    ensures Gained(ev[..f], c) == Gained(ev[1..][..f - 1], c) + if ev[0].Move? then Min(Max(ev[0].n, 1), c) else 0
  {
    assert ev[..f] == [ev[0]] + ev[1..][..f - 1] && ev[..f][1..] == ev[1..][..f - 1];
  }

  lemma BreaksLater(ev: seq<Event>, f: nat, need: nat, avail: nat, c: nat)
    requires 0 < f < |ev| && need > 0
    ensures var k := Brings(ev[0], avail, c);
            Breaks(ev, f, need, avail, c) <==>
              (ev[0].Move? ==> avail > 0) && k < need && Breaks(ev[1..], f - 1, need - k, avail - k, c)
  {
    var k, rest := Brings(ev[0], avail, c), ev[1..];
    forall g | 0 < g <= f
      ensures Gained(ev[..g], c) == Gained(rest[..g - 1], c) + if ev[0].Move? then Min(Max(ev[0].n, 1), c) else 0
    {
      GainedLater(ev, g, c);
    }
    assert Gained(ev[..0], c) == 0;
    hide Gained;
    if Breaks(ev, f, need, avail, c) {
      assert forall g :: 0 <= g < f - 1 && rest[g].Move? ==> ev[g + 1].Move? && Gained(ev[..g + 1], c) < avail;
    }
    if (ev[0].Move? ==> avail > 0) && k < need && Breaks(rest, f - 1, need - k, avail - k, c) {
      forall g | 0 <= g < f && ev[g].Move?
        ensures Gained(ev[..g], c) < avail
      {
        assert g > 0 ==> rest[g - 1].Move?;
      }
    }
  }

  lemma BrokenStep(ev: seq<Event>, need: nat, avail: nat, c: nat)
    requires ev != [] && need > 0
    ensures var k := Brings(ev[0], avail, c);
            Broken(ev, need, avail, c) <==>
              ev[0] == Fault || ((ev[0].Move? ==> avail > 0) && k < need && Broken(ev[1..], need - k, avail - k, c))
  {
    var k, rest := Brings(ev[0], avail, c), ev[1..];
    assert ev[0] == Fault <==> Breaks(ev, 0, need, avail, c) by {
      assert ev[..0] == [];
    }
    hide Breaks;
    if f :| 0 < f < |ev| && Breaks(ev, f, need, avail, c) {
      BreaksLater(ev, f, need, avail, c);
    }
    if k < need && (ev[0].Move? ==> avail > 0) {
      var need': nat, avail': nat := need - k, avail - k;
      if g :| 0 <= g < |rest| && Breaks(rest, g, need', avail', c) {
        BreaksLater(ev, g + 1, need, avail, c);
      }
    }
  }

  lemma NotBroken(need: nat, avail: nat, c: nat)
    ensures !Broken([], need, avail, c) && forall ev :: !Broken(ev, 0, avail, c)
  {
  }

  /** The next octet meets an error exactly when one comes before any read that is not interrupted. */
  lemma {:induction false} NextBroken(ev: seq<Event>, avail: nat, c: nat)
    requires c > 0
    ensures Broken(ev, 1, avail, c) <==>
              exists f :: 0 <= f < |ev| && ev[f] == Fault && forall g :: 0 <= g < f ==> ev[g] == Interrupt
  {
    if ev == [] {
      NotBroken(1, avail, c);
    } else {
      BrokenStep(ev, 1, avail, c);
      var rest := ev[1..];
      hide Broken, Breaks;
      if ev[0].Interrupt? {
        NextBroken(rest, avail, c);
        if f :| 0 <= f < |ev| && ev[f] == Fault && forall g :: 0 <= g < f ==> ev[g] == Interrupt {
          assert rest[f - 1] == Fault && forall g :: 0 <= g < f - 1 ==> rest[g] == ev[g + 1];
        }
        if f :| 0 <= f < |rest| && rest[f] == Fault && forall g :: 0 <= g < f ==> rest[g] == Interrupt {
          assert ev[f + 1] == Fault;
          assert forall g :: 0 < g < f + 1 ==> ev[g] == rest[g - 1];
        }
      }
    }
  }

  lemma {:induction false} PullBreaks(ev: seq<Event>, need: nat, avail: nat, c: nat)
    requires c >= need
    ensures Pull(ev, need, avail).failed <==> Broken(ev, need, avail, c)
    decreases |ev|
  {
    if need == 0 || ev == [] {
      NotBroken(need, avail, c);
      PullQuiet(need, avail);
    } else {
      BrokenStep(ev, need, avail, c);
      var k := Brings(ev[0], avail, c);
      hide Broken, Breaks, Gained;
      if k < need {
        PullBreaks(ev[1..], need - k, avail - k, c);
      }
    }
  }

  lemma PullQuiet(need: nat, avail: nat)
    ensures !Pull([], need, avail).failed && forall ev :: !Pull(ev, 0, avail).failed
  {
    if 0 < avail < need {
      assert !Pull([], need - avail, 0).failed;
    }
  }

  /** A read loop fails exactly when an error comes before it has enough or meets the end of the stream. */
  lemma PullFails(ev: seq<Event>, need: nat, avail: nat)
    ensures Pull(ev, need, avail).failed <==> Broken(ev, need, avail, need)
  {
    PullBreaks(ev, need, avail, need);
  }

  /** Octets a schedule of writes may carry. */
  function Carried(ev: seq<Event>): nat {
    if ev == [] then 0 else (if ev[0].Move? then ev[0].n else 0) + Carried(ev[1..])
  }

  /** Event i makes a write loop give up: an error, or a zero count while errno is not EINTR. */
  predicate Stops(ev: seq<Event>, i: nat, stale: bool)
    requires i < |ev|
  {
    ev[i] == Fault || (ev[i] == Move(0) && !stale && Interrupt !in ev[..i])
  }

  lemma StopsLater(ev: seq<Event>, f: nat, stale: bool)
    requires 0 < f < |ev|
    ensures Stops(ev, f, stale) <==> Stops(ev[1..], f - 1, stale || ev[0].Interrupt?)
    ensures Carried(ev[..f]) == Carried(ev[1..][..f - 1]) + if ev[0].Move? then ev[0].n else 0
  {
    assert ev[..f] == [ev[0]] + ev[1..][..f - 1] && ev[..f][1..] == ev[1..][..f - 1];
  }

  /** An event that stops the loop comes before the events have carried enough. */
  ghost predicate Stopped(ev: seq<Event>, need: nat, stale: bool) {
    exists f :: 0 <= f < |ev| && Stops(ev, f, stale) && Carried(ev[..f]) < need
  }

  lemma StoppedStep(ev: seq<Event>, need: nat, stale: bool)
    requires need > 0 && ev != []
    ensures var moved := if ev[0].Move? then ev[0].n else 0;
            Stopped(ev, need, stale) <==>
              Stops(ev, 0, stale) || (moved < need && Stopped(ev[1..], need - moved, stale || ev[0].Interrupt?))
  {
    var moved, rest, later := if ev[0].Move? then ev[0].n else 0, ev[1..], stale || ev[0].Interrupt?;
    assert ev[..0] == [];
    hide Stops, Carried;
    if f :| 0 < f < |ev| && Stops(ev, f, stale) && Carried(ev[..f]) < need {
      StopsLater(ev, f, stale);
    }
    if g :| 0 <= g < |rest| && Stops(rest, g, later) && Carried(rest[..g]) < need - moved {
      StopsLater(ev, g + 1, stale);
    }
    assert Carried([]) == 0 by {
      CarriedNothing();
    }
  }

  lemma CarriedNothing()
    ensures Carried([]) == 0
  {
  }

  /** A write loop fails exactly when it is stopped. */
  lemma {:induction false} PushFails(ev: seq<Event>, need: nat, stale: bool)
    ensures Push(ev, need, stale).failed <==> Stopped(ev, need, stale)
    decreases |ev|
  {
    if need > 0 && ev != [] {
      var moved := if ev[0].Move? then ev[0].n else 0;
      StoppedStep(ev, need, stale);
      assert Stops(ev, 0, stale) <==> ev[0] == Fault || (ev[0] == Move(0) && !stale);
      hide Stopped, Stops;
      if moved < need {
        PushFails(ev[1..], need - moved, stale || ev[0].Interrupt?);
      }
    }
  }

  /** One read(2) of the loop in readn: where it leaves the buffer, the stream and the rest of the run. */
  method ReadMore(fd: Descriptor, buf: array<byte>, ptr: nat, nleft: nat, ghost was: seq<byte>, ghost taken: seq<byte>)
    returns (nread: int, ghost chunk: seq<byte>)
    requires 0 < nleft && ptr + nleft <= buf.Length && |taken| == ptr
    requires |was| == buf.Length && buf[..] == Blit(was, 0, taken)
    modifies fd`input, fd`readPlan, fd`interrupted, buf
    ensures old(fd.input) == chunk + fd.input && |chunk| == Max(nread, 0) <= nleft
    ensures buf[..] == Blit(was, 0, taken + chunk)
    ensures Pull(old(fd.readPlan), nleft, |old(fd.input)|) ==
            if nread < 0 then if fd.interrupted then Pull(fd.readPlan, nleft, |fd.input|) else Run(0, true, fd.readPlan)
            else if nread == 0 then Run(0, false, fd.readPlan)
            else Pull(fd.readPlan, nleft - nread, |fd.input|).Shift(nread)
    ensures nread < 0 ==> |fd.readPlan| < |old(fd.readPlan)|
  {
    nread, chunk := fd.Read(buf, ptr, nleft);
    BlitAppend(was, 0, taken, chunk);
  }

  /** readn: `taken` is what came off the stream, stored in order at the start of the buffer. */
  method Readn(fd: Descriptor, buf: array<byte>, n: nat) returns (rc: int, ghost taken: seq<byte>)
    requires n <= buf.Length
    modifies fd`input, fd`readPlan, fd`interrupted, buf
    ensures var r := Pull(old(fd.readPlan), n, |old(fd.input)|);
            rc == (if r.failed then -1 else r.moved) && |taken| == r.moved && fd.readPlan == r.plan
    ensures old(fd.input) == taken + fd.input
    ensures buf[..] == Blit(old(buf[..]), 0, taken)
  {
    ghost var input, was := fd.input, buf[..];
    ghost var goal := Pull(fd.readPlan, n, |input|);
    var ptr: nat, nleft: nat := 0, n;
    taken := [];
    while nleft > 0
      invariant ptr + nleft == n && |taken| == ptr
      invariant input == taken + fd.input && buf[..] == Blit(was, 0, taken)
      invariant goal == Pull(fd.readPlan, nleft, |fd.input|).Shift(ptr)
      decreases nleft, |fd.readPlan|
    {
      ghost var chunk;
      var nread;
      nread, chunk := ReadMore(fd, buf, ptr, nleft, was, taken);
      Regroup(taken, chunk, fd.input);
      taken := taken + chunk;
      if nread < 0 {
        if !fd.interrupted {
          return -1, taken;
        }
      } else if nread == 0 {
        break;
      } else {
        nleft, ptr := nleft - nread, ptr + nread;
      }
    }
    rc := n - nleft;
  }

  /** One write(2) of the loop in writen. */
  method WriteMore(fd: Descriptor, buf: array<byte>, ptr: nat, nleft: nat) returns (nwritten: int)
    requires 0 < nleft && ptr + nleft <= buf.Length
    modifies fd`output, fd`writePlan, fd`interrupted
    ensures nwritten <= nleft
    ensures fd.output == old(fd.output) + buf[ptr..ptr + Max(nwritten, 0)]
    ensures Push(old(fd.writePlan), nleft, old(fd.interrupted)) ==
            if nwritten <= 0 && fd.interrupted then Push(fd.writePlan, nleft, fd.interrupted)
            else if nwritten <= 0 then Written(0, true, fd.writePlan, fd.interrupted)
            else Push(fd.writePlan, nleft - nwritten, fd.interrupted).Shift(nwritten)
    ensures nwritten <= 0 ==> |fd.writePlan| < |old(fd.writePlan)|
  {
    nwritten := fd.Write(buf, ptr, nleft);
  }

  /** writen, and sendn likewise: `sent` bytes of the buffer reach the stream, all of them unless it fails. */
  method Writen(fd: Descriptor, buf: array<byte>, n: nat) returns (rc: int, ghost sent: nat)
    requires n <= buf.Length
    modifies fd`output, fd`writePlan, fd`interrupted
    ensures var r := Push(old(fd.writePlan), n, old(fd.interrupted));
            && rc == (if r.failed then -1 else n) && sent == r.moved
            && fd.writePlan == r.plan && fd.interrupted == r.stale
    ensures sent <= n && (rc != -1 <==> sent == n)
    ensures fd.output == old(fd.output) + buf[..sent]
  {
    hide Push;
    ghost var goal, output, data := Push(fd.writePlan, n, fd.interrupted), fd.output, buf[..];
    PushExact(fd.writePlan, n, fd.interrupted);
    var ptr: nat, nleft: nat := 0, n;
    while nleft > 0
      invariant ptr + nleft == n && fd.output == output + data[..ptr]
      invariant goal == Push(fd.writePlan, nleft, fd.interrupted).Shift(ptr)
      decreases nleft, |fd.writePlan|
    {
      var nwritten := WriteMore(fd, buf, ptr, nleft);
      NextPiece(output, data, ptr, Max(nwritten, 0));
      if nwritten <= 0 {
        if !fd.interrupted {
          return -1, ptr;
        }
      } else {
        nleft, ptr := nleft - nwritten, ptr + nwritten;
      }
    }
    PushNone(fd.writePlan, fd.interrupted);
    rc, sent := n, n;
  }

  lemma PushNone(ev: seq<Event>, stale: bool)
    ensures Push(ev, 0, stale) == Written(0, false, ev, stale)
  {
  }

  lemma NextPiece(output: seq<byte>, data: seq<byte>, at: nat, n: nat)
    requires at + n <= |data|
    ensures output + data[..at] + data[at..at + n] == output + data[..at + n]
  {
  }

  // ---------------------------------------------------------------- line readers

  const MAXLINE := 1024

  type pos = n: int | n > 0 witness 1

  /** Bytes a line reader stores: up to and including a newline, at most `room`. */
  function LineLen(s: seq<byte>, room: nat): (k: nat)
    ensures k <= room && k <= |s|
  {
    if room == 0 || s == [] then 0
    else if s[0] == NEWLINE then 1
    else 1 + LineLen(s[1..], room - 1)
  }

  /** Value returned for a line taken from `s`: a cut line counts its terminator, a whole one does not. */
  function LineCount(s: seq<byte>, maxlen: nat): nat
    requires maxlen >= 1
  {
    var k := LineLen(s, maxlen - 1);
    if s == [] && maxlen > 1 then 0
    else if k > 0 && s[k - 1] == NEWLINE then k
    else k + 1
  }

  /** LineLen is the only length that stops at the first newline, the end of the stream or the room. */
  lemma {:induction false} LineLenUnique(s: seq<byte>, room: nat, k: nat)
    ensures k == LineLen(s, room) <==>
            && k <= room && k <= |s|
            && (forall i :: 0 <= i < k - 1 ==> s[i] != NEWLINE)
            && (k == room || k == |s| || (k > 0 && s[k - 1] == NEWLINE))
  {
    if room > 0 && s != [] {
      if s[0] == NEWLINE {
        assert k >= 2 ==> s[0] == NEWLINE;
      } else if k > 0 {
        LineLenUnique(s[1..], room - 1, k - 1);
        assert forall i :: 0 <= i < k - 2 && k <= |s| ==> s[1..][i] == s[i + 1];
        assert forall i :: 0 < i < k - 1 && k <= |s| ==> s[i] == s[1..][i - 1];
        assert 1 < k <= |s| ==> s[k - 1] == s[1..][k - 2];
      }
    }
  }

  /** One call on unread input `s` took `line` and returned `rc`. */
  ghost predicate IsLine(s: seq<byte>, maxlen: nat, line: seq<byte>, rc: int)
    requires maxlen >= 1
  {
    line == s[..LineLen(s, maxlen - 1)] && rc == LineCount(s, maxlen)
  }

  /** The three ways a reader's loop ends with a line stored. */
  lemma LineDone(line: seq<byte>, rest: seq<byte>, maxlen: nat)
    requires |line| < maxlen
    requires forall i :: 0 <= i < |line| - 1 ==> line[i] != NEWLINE
    ensures line != [] && line[|line| - 1] == NEWLINE ==> IsLine(line + rest, maxlen, line, |line|)
    ensures NEWLINE !in line && (|line| + 1 == maxlen || (rest == [] && line != [])) ==>
              IsLine(line + rest, maxlen, line, |line| + 1)
    ensures line == rest == [] && maxlen > 1 ==> IsLine(line + rest, maxlen, line, 0)
  {
    var s, k := line + rest, |line|;
    assert s[..k] == line;
    assert forall i :: 0 <= i < k ==> s[i] == line[i];
    LineLenUnique(s, maxlen - 1, k);
  }

  /** Line-length law: zero only at the end of the stream, and the stored line plus its terminator fits. */
  lemma LineLaw(s: seq<byte>, maxlen: nat)
    requires maxlen >= 1
    ensures var k, n := LineLen(s, maxlen - 1), LineCount(s, maxlen);
            && k + 1 <= maxlen && k <= n <= k + 1 && n <= maxlen
            && (n == 0 <==> s == [] && maxlen > 1)
            && (n == k <==> (s == [] && maxlen > 1) || (k > 0 && s[k - 1] == NEWLINE))
            && (n == k + 1 ==> maxlen == k + 1 || k == |s|)
  {
    LineLenUnique(s, maxlen - 1, LineLen(s, maxlen - 1));
  }

  ghost predicate Quiet(plan: seq<Event>) {
    forall e :: e in plan ==> e.Move?
  }

  /** recv calls one unbuffered line takes: one a byte, and one more to see the end of the stream. */
  function Recvs(s: seq<byte>, maxlen: nat): nat
    requires maxlen >= 1
  {
    var k := LineLen(s, maxlen - 1);
    if k == maxlen - 1 || (k > 0 && s[k - 1] == NEWLINE) then k else k + 1
  }

  predicate Uninterrupted(plan: seq<Event>, calls: nat) {
    forall i :: 0 <= i < calls && i < |plan| ==> plan[i].Move?
  }

  lemma RecvsBeyond(line: seq<byte>, rest: seq<byte>, maxlen: nat)
    requires NEWLINE !in line && |line| + 1 < maxlen
    ensures |line| < Recvs(line + rest, maxlen)
  {
    var s := line + rest;
    LineLenUnique(s, maxlen - 1, LineLen(s, maxlen - 1));
    assert forall i :: 0 <= i < |line| ==> s[i] == line[i];
  }

  lemma RecvsDone(line: seq<byte>, rest: seq<byte>, maxlen: nat)
    requires 1 <= maxlen && |line| < maxlen && forall i :: 0 <= i < |line| - 1 ==> line[i] != NEWLINE
    requires (line != [] && line[|line| - 1] == NEWLINE) || |line| + 1 == maxlen
    ensures Recvs(line + rest, maxlen) == |line|
  {
    var s := line + rest;
    assert forall i :: 0 <= i < |line| ==> s[i] == line[i];
    LineLenUnique(s, maxlen - 1, |line|);
  }

  /** An error meets one of the refills that bring `need` octets when `cached` of them are in the buffer already. */
  ghost predicate Meets(cached: nat, plan: seq<Event>, avail: nat, need: int) {
    cached < need && Broken(plan, need - cached, avail, MAXLINE)
  }

  lemma BrokenByFault(ev: seq<Event>, need: nat, avail: nat, c: nat)
    requires Broken(ev, need, avail, c)
    ensures Fault in ev
  {
  }

  lemma BlitNothing(s: seq<byte>)
    ensures Blit(s, 0, []) == s
  {
  }

  /** One read of a refill, for the octet wanted next and for all that are. */
  lemma RefillRead(plan: seq<Event>, need: nat, avail: nat)
    requires need > 0
    ensures var rc := ReadResult(plan, MAXLINE, avail);
            if rc < 0 && plan[0].Interrupt? then
              && (Broken(plan, need, avail, MAXLINE) <==> Broken(Rest(plan), need, avail, MAXLINE))
              && (Broken(plan, 1, avail, MAXLINE) <==> Broken(Rest(plan), 1, avail, MAXLINE))
            else
              && (Broken(plan, 1, avail, MAXLINE) <==> rc < 0)
              && (Broken(plan, need, avail, MAXLINE) <==> rc < 0 || (rc > 0 && Meets(rc, Rest(plan), avail - rc, need)))
  {
    if plan == [] {
      NotBroken(need, avail, MAXLINE);
      NotBroken(1, avail, MAXLINE);
      if Min(MAXLINE, avail) < need {
        NotBroken(need - Min(MAXLINE, avail), avail - Min(MAXLINE, avail), MAXLINE);
      }
    } else {
      BrokenStep(plan, need, avail, MAXLINE);
      BrokenStep(plan, 1, avail, MAXLINE);
    }
    hide Broken;
  }

  /** The static state of my_read. */
  class LineReader {
    var readCnt: int
    var readPtr: nat
    const readBuf: array<byte>

    ghost var pending: seq<byte>  // bytes read from the kernel and not handed out yet

    ghost predicate Valid()
      reads this, readBuf
    {
      && readBuf.Length == MAXLINE
      && (readCnt > 0 ==> readPtr + readCnt <= MAXLINE)
      && pending == if readCnt <= 0 then [] else readBuf[readPtr..readPtr + readCnt]
    }

    /** What the program has not seen yet: buffered bytes, then the kernel's. */
    ghost function Unread(fd: Descriptor): seq<byte>
      reads this`pending, fd`input
    {
      pending + fd.input
    }

    /** An error meets one of the refills that bring the next `need` unread octets. */
    ghost predicate Failing(fd: Descriptor, need: int)
      reads this`pending, fd`input, fd`readPlan
    {
      Meets(|pending|, fd.readPlan, |fd.input|, need)
    }

    lemma NoMoreNeeded(fd: Descriptor)
      ensures !Failing(fd, 0)
    {
    }

    constructor ()
      ensures Valid() && pending == [] && fresh(readBuf)
    {
      readCnt, readPtr, pending := 0, 0, [];
      readBuf := new byte[MAXLINE];
    }

    /**
     * The refill at the label `again`: one read of the whole buffer, repeated while interrupted.
     * It fails exactly when an error is the first thing that is not an interruption; `need` is
     * how many octets the caller is still after.
     */
    method Refill(fd: Descriptor, ghost need: nat)
      requires Valid() && readCnt <= 0 && need > 0
      modifies this, readBuf, fd`input, fd`readPlan, fd`interrupted
      ensures Valid() && Unread(fd) == old(fd.input)
      ensures readCnt == 0 ==> fd.input == []
      ensures readCnt < 0 ==> fd.input == old(fd.input) && Fault in old(fd.readPlan)
      ensures readCnt < 0 <==> Broken(old(fd.readPlan), 1, |old(fd.input)|, MAXLINE)
      ensures Broken(old(fd.readPlan), need, |old(fd.input)|, MAXLINE) <==>
                readCnt < 0 || (readCnt > 0 && Meets(|pending|, fd.readPlan, |fd.input|, need))
      ensures Fault in fd.readPlan ==> Fault in old(fd.readPlan)
    {
      hide Broken;
      ghost var input, far, near := fd.input, Broken(fd.readPlan, need, |fd.input|, MAXLINE),
          Broken(fd.readPlan, 1, |fd.input|, MAXLINE);
      while true
        invariant Valid() && readCnt <= 0 && fd.input == input
        invariant Fault in fd.readPlan ==> Fault in old(fd.readPlan)
        invariant far == Broken(fd.readPlan, need, |fd.input|, MAXLINE)
        invariant near == Broken(fd.readPlan, 1, |fd.input|, MAXLINE)
        decreases |fd.readPlan|
      {
        ghost var plan := fd.readPlan;
        ghost var chunk;
        RefillRead(plan, need, |fd.input|);
        readCnt, chunk := fd.Read(readBuf, 0, MAXLINE);
        if readCnt >= 0 {
          assert readBuf[..readCnt] == chunk;
          readPtr, pending := 0, chunk;
          return;
        }
        assert plan[0] in plan;
        if !fd.interrupted {
          return;
        }
      }
    }

    /** *read_ptr++ while read_cnt counts down. */
    method NextBuffered() returns (c: byte)
      requires Valid() && readCnt > 0
      modifies this
      ensures Valid() && old(pending) == [c] + pending
    {
      readCnt, pending := readCnt - 1, pending[1..];
      c := readBuf[readPtr];
      readPtr := readPtr + 1;
    }

    /** One byte of the unread input, or 0 at its end, or -1 with nothing lost, exactly when a refill it needs fails. */
    method MyRead(fd: Descriptor, ghost need: nat) returns (rc: int, c: byte)
      requires Valid() && need > 0
      modifies this, readBuf, fd`input, fd`readPlan, fd`interrupted
      ensures Valid() && -1 <= rc <= 1
      ensures rc == 1 ==> old(Unread(fd)) == [c] + Unread(fd)
      ensures rc == 0 ==> old(Unread(fd)) == Unread(fd) == []
      ensures rc == -1 ==> Unread(fd) == old(Unread(fd)) && Fault in old(fd.readPlan)
      ensures rc == -1 <==> old(pending) == [] && Broken(old(fd.readPlan), 1, |old(fd.input)|, MAXLINE)
      ensures old(Failing(fd, need)) <==> rc == -1 || (rc == 1 && Failing(fd, need - 1))
      ensures Fault in fd.readPlan ==> Fault in old(fd.readPlan)
    {
      hide Broken;
      c := NUL;
      if readCnt <= 0 {
        Refill(fd, need);
      }
      rc := if readCnt > 0 then 1 else Max(readCnt, -1);
      if rc == 1 {
        c := NextBuffered();
        Regroup([c], pending, fd.input);
      }
    }

    /** The line is not whole yet, and one of the refills that the rest of it needs fails. */
    ghost predicate CutShort(fd: Descriptor, taken: seq<byte>, maxlen: nat)
      reads this`pending, fd`input, fd`readPlan
    {
      && NEWLINE !in taken && |taken| + 1 < maxlen
      && Failing(fd, Recvs(taken + Unread(fd), maxlen) - |taken|)
    }

    lemma AtStart(fd: Descriptor, maxlen: nat)
      requires maxlen >= 1
      ensures CutShort(fd, [], maxlen) <==> Failing(fd, Recvs(Unread(fd), maxlen))
      ensures Failing(fd, Recvs(Unread(fd), maxlen)) ==> Fault in fd.readPlan
    {
      hide Broken, Recvs;
      var calls := Recvs(Unread(fd), maxlen);
      assert [] + Unread(fd) == Unread(fd);
      if Failing(fd, calls) {
        BrokenByFault(fd.readPlan, calls - |pending|, |fd.input|, MAXLINE);
      }
      if maxlen == 1 {
        RecvsDone([], Unread(fd), maxlen);
      }
    }

    /** my_read for the line of which `taken` is there already. */
    method LineByte(fd: Descriptor, ghost taken: seq<byte>, ghost maxlen: nat)
      returns (last: int, c: byte, ghost stored: seq<byte>)
      requires Valid() && NEWLINE !in taken && |taken| + 1 < maxlen
      modifies this, readBuf, fd`input, fd`readPlan, fd`interrupted
      ensures Valid() && -1 <= last <= 1 && stored == if last == 1 then taken + [c] else taken
      ensures taken + old(Unread(fd)) == stored + Unread(fd) && (last == 0 ==> Unread(fd) == [])
      ensures old(CutShort(fd, taken, maxlen)) <==> last == -1 || (last == 1 && CutShort(fd, stored, maxlen))
      ensures Fault in fd.readPlan ==> Fault in old(fd.readPlan)
    {
      hide Failing, Recvs;
      ghost var s := taken + Unread(fd);
      RecvsBeyond(taken, Unread(fd), maxlen);
      last, c := MyRead(fd, Recvs(s, maxlen) - |taken|);
      stored := if last == 1 then taken + [c] else taken;
      if last == 1 {
        Regroup(taken, [c], Unread(fd));
        if c == NEWLINE || |stored| + 1 == maxlen {
          RecvsDone(stored, Unread(fd), maxlen);
          NoMoreNeeded(fd);
        }
      }
    }

    /** my_read and the store of its byte; `stored` is `taken` with it. */
    method TakeByte(fd: Descriptor, vptr: array<byte>, ptr: nat, ghost was: seq<byte>, ghost taken: seq<byte>,
                    ghost maxlen: nat)
      returns (last: int, c: byte, ghost stored: seq<byte>)
      requires Valid() && vptr != readBuf && |taken| == ptr && ptr + 1 < maxlen <= vptr.Length && NEWLINE !in taken
      requires |was| == vptr.Length && vptr[..] == Blit(was, 0, taken)
      modifies this, readBuf, vptr, fd`input, fd`readPlan, fd`interrupted
      ensures Valid() && -1 <= last <= 1 && stored == if last == 1 then taken + [c] else taken
      ensures vptr[..] == Blit(was, 0, stored)
      ensures taken + old(Unread(fd)) == stored + Unread(fd) && (last == 0 ==> Unread(fd) == [])
      ensures old(CutShort(fd, taken, maxlen)) <==> last == -1 || (last == 1 && CutShort(fd, stored, maxlen))
      ensures Fault in fd.readPlan ==> Fault in old(fd.readPlan)
    {
      hide CutShort;
      last, c, stored := LineByte(fd, taken, maxlen);
      if last == 1 {
        BlitPut(was, taken, c);
        vptr[ptr] := c;
      }
    }

    /** The loop of readline: stores `taken` and says how it stopped (a newline or no room, end, error). */
    method Gather(fd: Descriptor, vptr: array<byte>, maxlen: nat)
      returns (last: int, n: nat, ptr: nat, ghost taken: seq<byte>)
      requires Valid() && vptr != readBuf && 1 <= maxlen <= vptr.Length
      modifies this, readBuf, vptr, fd`input, fd`readPlan, fd`interrupted
      ensures Valid() && old(Unread(fd)) == taken + Unread(fd) && |taken| == ptr < maxlen
      ensures last < 0 <==> old(CutShort(fd, [], maxlen))
      ensures forall i :: 0 <= i < ptr - 1 ==> taken[i] != NEWLINE
      ensures n == if ptr > 0 && taken[ptr - 1] == NEWLINE then ptr else ptr + 1
      ensures last == 0 ==> Unread(fd) == [] && n == ptr + 1 < maxlen
      ensures last > 0 ==> n == ptr || n == maxlen
      ensures vptr[..] == Blit(old(vptr[..]), 0, taken)
      ensures Fault in fd.readPlan ==> Fault in old(fd.readPlan)
    {
      hide Failing, Recvs, Blit, Unread;
      ghost var s, was, fails := Unread(fd), vptr[..], CutShort(fd, [], maxlen);
      BlitNothing(was);
      n, ptr, last, taken := 1, 0, 1, [];
      while n < maxlen
        invariant Valid() && n == ptr + 1 <= maxlen && |taken| == ptr && last == 1
        invariant s == taken + Unread(fd) && NEWLINE !in taken && fails == CutShort(fd, taken, maxlen)
        invariant vptr[..] == Blit(was, 0, taken)
        invariant Fault in fd.readPlan ==> Fault in old(fd.readPlan)
        decreases maxlen - n
      {
        var c;
        last, c, taken := TakeByte(fd, vptr, ptr, was, taken, maxlen);
        if last != 1 {
          return;
        }
        ptr := ptr + 1;
        if c == NEWLINE {
          return;
        }
        n := n + 1;
      }
    }

    /** readline: the bytes stored are `taken`; they are lost to the caller when a read fails. */
    method Readline(fd: Descriptor, vptr: array<byte>, maxlen: nat) returns (rc: int, ghost taken: seq<byte>)
      requires Valid() && vptr != readBuf && 1 <= maxlen <= vptr.Length
      modifies this, readBuf, vptr, fd`input, fd`readPlan, fd`interrupted
      ensures Valid() && old(Unread(fd)) == taken + Unread(fd)
      ensures rc != -1 ==> IsLine(old(Unread(fd)), maxlen, taken, rc)
      ensures rc == -1 <==> old(Failing(fd, Recvs(Unread(fd), maxlen)))
      ensures rc == -1 ==> Fault in old(fd.readPlan) && |taken| < maxlen
      ensures vptr[..] == Blit(old(vptr[..]), 0, if rc > 0 then taken + [NUL] else taken)
      ensures Fault in fd.readPlan ==> Fault in old(fd.readPlan)
    {
      hide Failing, CutShort, Recvs, IsLine;
      ghost var was := vptr[..];
      AtStart(fd, maxlen);
      var last, n, ptr;
      last, n, ptr, taken := Gather(fd, vptr, maxlen);
      if last < 0 {
        return -1, taken;
      }
      LineDone(taken, Unread(fd), maxlen);
      if last == 0 && n == 1 {
        return 0, taken;
      }
      BlitPut(was, taken, NUL);
      vptr[ptr] := NUL;
      rc := n;
    }
  }

  /** recv(fd, &c, 1, 0). */
  method RecvByte(fd: Descriptor) returns (rc: int, c: byte)
    modifies fd`input, fd`readPlan, fd`interrupted
    ensures -1 <= rc <= 1 && fd.readPlan == Rest(old(fd.readPlan))
    ensures rc == 1 ==> old(fd.input) == [c] + fd.input
    ensures rc == 0 ==> old(fd.input) == fd.input == []
    ensures rc == -1 ==> fd.input == old(fd.input)
    ensures rc == -1 <==> old(fd.readPlan) != [] && !old(fd.readPlan)[0].Move?
    ensures rc != -1 ==> fd.interrupted == old(fd.interrupted)
  {
    var one := new byte[1];
    ghost var chunk;
    rc, chunk := fd.Read(one, 0, 1);
    c := one[0];
    if rc == 1 {
      assert one[..][0] == chunk[0];
      assert chunk == [c];
    }
  }

  function Drop(plan: seq<Event>, k: nat): seq<Event> {
    if k <= |plan| then plan[k..] else []
  }

  lemma DropNext(plan: seq<Event>, k: nat)
    ensures Rest(Drop(plan, k)) == Drop(plan, k + 1)
    ensures var d := Drop(plan, k);
            if d == [] then |plan| <= k else k < |plan| && d[0] == plan[k]
    ensures Uninterrupted(plan, k) && (Drop(plan, k) == [] || Drop(plan, k)[0].Move?) ==> Uninterrupted(plan, k + 1)
  {
  }

  /** One recv and the store of its byte. */
  method RecvStore(fd: Descriptor, vptr: array<byte>, ptr: nat, ghost was: seq<byte>, ghost taken: seq<byte>)
    returns (last: int, c: byte, ghost stored: seq<byte>)
    requires |taken| == ptr < vptr.Length == |was| && vptr[..] == Blit(was, 0, taken)
    modifies vptr, fd`input, fd`readPlan, fd`interrupted
    ensures -1 <= last <= 1 && stored == if last == 1 then taken + [c] else taken
    ensures vptr[..] == Blit(was, 0, stored) && taken + old(fd.input) == stored + fd.input
    ensures last == 0 ==> fd.input == []
    ensures fd.readPlan == Rest(old(fd.readPlan))
    ensures last == -1 <==> old(fd.readPlan) != [] && !old(fd.readPlan)[0].Move?
    ensures last != -1 ==> fd.interrupted == old(fd.interrupted)
  {
    last, c := RecvByte(fd);
    stored := if last == 1 then taken + [c] else taken;
    if last == 1 {
      Regroup(taken, [c], fd.input);
      BlitPut(was, taken, c);
      vptr[ptr] := c;
    }
  }

  /** The loop of readline_unbuffered: the recv that ended it, and none before it, may have failed. */
  method GatherUnbuffered(fd: Descriptor, vptr: array<byte>, maxlen: nat)
    returns (last: int, n: nat, ptr: nat, ghost taken: seq<byte>)
    requires 1 <= maxlen <= vptr.Length
    modifies vptr, fd`input, fd`readPlan, fd`interrupted
    ensures old(fd.input) == taken + fd.input && |taken| == ptr < maxlen
    ensures forall i :: 0 <= i < ptr - 1 ==> taken[i] != NEWLINE
    ensures n == if ptr > 0 && taken[ptr - 1] == NEWLINE then ptr else ptr + 1
    ensures last == 0 ==> fd.input == [] && n == ptr + 1 < maxlen
    ensures last > 0 ==> n == ptr || n == maxlen
    ensures last < 0 ==> n == ptr + 1 < maxlen && ptr < |old(fd.readPlan)| && !old(fd.readPlan)[ptr].Move?
    ensures last >= 0 ==> Uninterrupted(old(fd.readPlan), if last > 0 then ptr else ptr + 1)
    ensures last >= 0 ==> fd.interrupted == old(fd.interrupted)
    ensures fd.readPlan == Drop(old(fd.readPlan), if last > 0 then ptr else ptr + 1)
    ensures vptr[..] == Blit(old(vptr[..]), 0, taken)
  {
    hide Uninterrupted, Drop, Rest, Blit;
    ghost var s, was, plan := fd.input, vptr[..], fd.readPlan;
    n, ptr, last, taken := 1, 0, 1, [];
    AtFirst(plan, was);
    while n < maxlen
      invariant n == ptr + 1 <= maxlen && |taken| == ptr && last == 1
      invariant s == taken + fd.input && NEWLINE !in taken
      invariant fd.readPlan == Drop(plan, ptr) && Uninterrupted(plan, ptr) && fd.interrupted == old(fd.interrupted)
      invariant vptr[..] == Blit(was, 0, taken)
      decreases maxlen - n
    {
      var c;
      DropNext(plan, ptr);
      last, c, taken := RecvStore(fd, vptr, ptr, was, taken);
      if last != 1 {
        break;
      }
      ptr := ptr + 1;
      if c == NEWLINE {
        break;
      }
      n := n + 1;
    }
  }

  lemma AtFirst(plan: seq<Event>, was: seq<byte>)
    ensures Drop(plan, 0) == plan && Uninterrupted(plan, 0) && Blit(was, 0, []) == was
  {
  }

  /** readline_unbuffered: fails exactly when one of the recv calls it needs is interrupted or fails. */
  method ReadlineUnbuffered(fd: Descriptor, vptr: array<byte>, maxlen: nat) returns (rc: int, ghost taken: seq<byte>)
    requires 1 <= maxlen <= vptr.Length
    modifies vptr, fd`input, fd`readPlan, fd`interrupted
    ensures old(fd.input) == taken + fd.input
    ensures rc != -1 <==> Uninterrupted(old(fd.readPlan), Recvs(old(fd.input), maxlen))
    ensures rc != -1 ==> IsLine(old(fd.input), maxlen, taken, rc)
    ensures rc == -1 ==> |taken| < maxlen
    ensures rc != -1 ==>
              && fd.readPlan == Drop(old(fd.readPlan), Recvs(old(fd.input), maxlen))
              && fd.interrupted == old(fd.interrupted)
    ensures vptr[..] == Blit(old(vptr[..]), 0, if rc > 0 then taken + [NUL] else taken)
    ensures forall e :: e in fd.readPlan ==> e in old(fd.readPlan)
  {
    ghost var was, plan := vptr[..], fd.readPlan;
    var last, n, ptr;
    last, n, ptr, taken := GatherUnbuffered(fd, vptr, maxlen);
    if last < 0 {
      RecvsBeyond(taken, fd.input, maxlen);
      return -1, taken;
    }
    LineDone(taken, fd.input, maxlen);
    if last == 0 && n == 1 {
      return 0, taken;
    }
    BlitPut(was, taken, NUL);
    vptr[ptr] := NUL;
    rc := n;
  }

  // ---------------------------------------------------------------- whole runs

  /** One call: the value returned and the line stored. */
  datatype Line = Line(count: int, text: seq<byte>)

  /** What a program that asks for lines of the given lengths gets from a stream. */
  function Lines(s: seq<byte>, maxlens: seq<pos>): (r: seq<Line>)
    ensures |r| == |maxlens|
  {
    if maxlens == [] then []
    else
      var k: nat := LineLen(s, maxlens[0] - 1 as nat);
      [Line(LineCount(s, maxlens[0]), s[..k])] + Lines(s[k..], maxlens[1..])
  }

  function Texts(lines: seq<Line>): seq<byte> {
    if lines == [] then [] else lines[0].text + Texts(lines[1..])
  }

  /** No call drops, repeats or reorders bytes: the lines taken are a prefix of the stream. */
  lemma {:induction false} LinesArePrefix(s: seq<byte>, maxlens: seq<pos>)
    ensures Texts(Lines(s, maxlens)) <= s
  {
    if maxlens != [] {
      var k: nat := LineLen(s, maxlens[0] - 1 as nat);
      LinesArePrefix(s[k..], maxlens[1..]);
      var rest := Lines(s[k..], maxlens[1..]);
      assert Lines(s, maxlens)[1..] == rest;
      assert s == s[..k] + s[k..];
    }
  }

  /** Length of the line in a buffer after a call that returned `rc`. */
  function TextLen(buf: seq<byte>, rc: nat): nat
    requires rc <= |buf|
  {
    if rc == 0 || buf[rc - 1] == NEWLINE then rc else rc - 1
  }

  lemma TextIsLine(was: seq<byte>, s: seq<byte>, maxlen: pos, taken: seq<byte>, rc: nat)
    requires maxlen <= |was| && IsLine(s, maxlen, taken, rc)
    ensures |taken| + (if rc > 0 then 1 else 0) <= |was|
    ensures var buf := Blit(was, 0, if rc > 0 then taken + [NUL] else taken);
            rc <= |buf| && buf[..TextLen(buf, rc)] == taken
  {
    LineLaw(s, maxlen);
    var buf := Blit(was, 0, if rc > 0 then taken + [NUL] else taken);
    assert forall i :: 0 <= i < |taken| ==> buf[i] == taken[i];
  }

  method CachedLine(reader: LineReader, fd: Descriptor, buf: array<byte>, maxlen: pos) returns (line: Line)
    requires reader.Valid() && buf != reader.readBuf && maxlen <= buf.Length && Fault !in fd.readPlan
    modifies reader, reader.readBuf, buf, fd`input, fd`readPlan, fd`interrupted
    ensures reader.Valid() && Fault !in fd.readPlan
    ensures IsLine(old(reader.Unread(fd)), maxlen, line.text, line.count)
    ensures old(reader.Unread(fd)) == line.text + reader.Unread(fd)
  {
    ghost var s, was := reader.Unread(fd), buf[..];
    ghost var taken;
    var rc;
    rc, taken := reader.Readline(fd, buf, maxlen);
    TextIsLine(was, s, maxlen, taken, rc);
    line := Line(rc, buf[..TextLen(buf[..], rc)]);
  }

  method RawLine(fd: Descriptor, buf: array<byte>, maxlen: pos) returns (line: Line)
    requires maxlen <= buf.Length && Quiet(fd.readPlan)
    modifies buf, fd`input, fd`readPlan, fd`interrupted
    ensures Quiet(fd.readPlan)
    ensures IsLine(old(fd.input), maxlen, line.text, line.count)
    ensures old(fd.input) == line.text + fd.input
  {
    ghost var s, was := fd.input, buf[..];
    ghost var taken;
    var rc;
    rc, taken := ReadlineUnbuffered(fd, buf, maxlen);
    TextIsLine(was, s, maxlen, taken, rc);
    line := Line(rc, buf[..TextLen(buf[..], rc)]);
  }

  lemma LinesStep(s: seq<byte>, maxlens: seq<pos>, line: Line, rest: seq<byte>)
    requires maxlens != [] && s == line.text + rest && IsLine(s, maxlens[0], line.text, line.count)
    ensures Lines(s, maxlens) == [line] + Lines(rest, maxlens[1..])
  {
    assert s[..|line.text|] == line.text && s[|line.text|..] == rest;
  }

  /** One call of each reader on the same unread input. */
  method SameLine(reader: LineReader, cached: Descriptor, raw: Descriptor, a: array<byte>, b: array<byte>, maxlen: pos)
    returns (x: Line, y: Line)
    requires reader.Valid() && cached != raw && a != b && a != reader.readBuf && b != reader.readBuf
    requires reader.Unread(cached) == raw.input && Fault !in cached.readPlan && Quiet(raw.readPlan)
    requires maxlen <= a.Length && maxlen <= b.Length
    modifies reader, reader.readBuf, cached, raw, a, b
    ensures reader.Valid() && reader.Unread(cached) == raw.input && Fault !in cached.readPlan && Quiet(raw.readPlan)
    ensures x == y && IsLine(old(raw.input), maxlen, x.text, x.count) && old(raw.input) == x.text + raw.input
  {
    ghost var s := raw.input;
    x := CachedLine(reader, cached, a, maxlen);
    ghost var rest := reader.Unread(cached);
    y := RawLine(raw, b, maxlen);
    assert reader.Valid();
    assert s[..|x.text|] == x.text && s[|x.text|..] == rest;
    assert s[..|y.text|] == y.text && s[|y.text|..] == raw.input;
  }

  /**
   * The buffered reader refines the byte-at-a-time one over whole runs: whatever the refill
   * sizes and interruptions, a program that asks for the same lines gets the same answers,
   * and the cache plus the kernel stream stays the unread input.
   */
  method AgreeOverRuns(reader: LineReader, cached: Descriptor, raw: Descriptor, a: array<byte>, b: array<byte>,
                       maxlens: seq<pos>)
    returns (xs: seq<Line>, ys: seq<Line>)
    requires reader.Valid() && cached != raw && a != b && a != reader.readBuf && b != reader.readBuf
    requires reader.Unread(cached) == raw.input && Fault !in cached.readPlan && Quiet(raw.readPlan)
    requires forall i :: 0 <= i < |maxlens| ==> maxlens[i] <= a.Length && maxlens[i] <= b.Length
    modifies reader, reader.readBuf, cached, raw, a, b
    decreases |maxlens|
    ensures xs == ys == Lines(old(raw.input), maxlens)
    ensures reader.Valid() && reader.Unread(cached) == raw.input
  {
    if maxlens == [] {
      return [], [];
    }
    ghost var s := raw.input;
    var x, y := SameLine(reader, cached, raw, a, b, maxlens[0]);
    LinesStep(s, maxlens, x, raw.input);
    xs, ys := AgreeOverRuns(reader, cached, raw, a, b, maxlens[1..]);
    xs, ys := [x] + xs, [y] + ys;
  }
}
