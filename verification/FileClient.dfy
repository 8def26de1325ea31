/** The file client: receive_file, the request loop, and the session between both programs. */
module FileClient {
  import opened Octets
  import opened Kernel
  import opened SockWrap
  import opened FileProtocol
  import opened FileServer

  // ---------------------------------------------------------------- how much receive_file consumes

  /** The outcome of Read, which repeats an interrupted read: bytes moved and the schedule left. */
  function Once(ev: seq<Event>, want: nat, avail: nat): (r: (nat, seq<Event>))
    ensures r.0 <= want && r.0 <= avail && |r.1| <= |ev|
    ensures r.0 == 0 ==> want == 0 || avail == 0 || Fault in ev
    ensures Fault in r.1 ==> Fault in ev
    decreases |ev|
  {
    var rc := ReadResult(ev, want, avail);
    if rc >= 0 then (rc, Rest(ev))
    else if ev[0].Interrupt? then Once(ev[1..], want, avail)
    else (0, ev[1..])
  }

  /** Addition of 32-bit counters. */
  function Add32(a: nat, b: nat): (r: nat)
    ensures r == (a + b) % 0x1_0000_0000
    ensures a + b < WORD ==> r == a + b
  {
    if a + b < WORD then a + b else (a + b) % WORD
  }

  /** Octets the loop takes off the stream, `tot` being counted so far in 32 bits; each read asks for m. */
  function Take(ev: seq<Event>, avail: nat, dim: nat, m: nat, tot: nat): (k: nat)
    ensures k <= avail
    decreases avail
  {
    if tot >= dim then 0
    else
      var (n, rest) := Once(ev, m, avail);
      if n == 0 then 0 else n + Take(rest, avail - n, dim, m, Add32(tot, n))
  }

  /** While the sender keeps to lock step (nothing beyond this file arrives) the loop takes exactly what came. */
  lemma {:induction false} TakeLockStep(ev: seq<Event>, avail: nat, dim: nat, m: nat, tot: nat)
    requires tot + avail <= dim < WORD && (dim > 0 ==> m > 0) && Fault !in ev
    ensures Take(ev, avail, dim, m, tot) == avail
    decreases avail
  {
    if tot < dim && avail > 0 {
      var (n, rest) := Once(ev, m, avail);
      assert Add32(tot, n) == tot + n;
      TakeLockStep(rest, avail - n, dim, m, tot + n);
    }
  }

  /** In general it may run past the file, by less than one read. */
  lemma {:induction false} TakeBounds(ev: seq<Event>, avail: nat, dim: nat, m: nat, tot: nat)
    requires tot < dim && dim + m <= WORD && m > 0 && Fault !in ev
    ensures var k := Take(ev, avail, dim, m, tot); Min(avail, dim - tot) <= k < dim - tot + m
    decreases avail
  {
    var (n, rest) := Once(ev, m, avail);
    assert Add32(tot, n) == tot + n;
    if n > 0 && tot + n < dim {
      TakeBounds(rest, avail - n, dim, m, tot + n);
    }
  }

  /** Reads of one octet each, then one of two. */
  function Crossing(n: nat): (ev: seq<Event>)
    ensures Fault !in ev
  {
    if n == 0 then [Move(2)] else [Move(1)] + Crossing(n - 1)
  }

  lemma {:induction false} CrossingOverruns(avail: nat, dim: nat, m: nat, tot: nat)
    requires m >= 2 && tot < dim < WORD - 1 && avail > dim - tot
    ensures Take(Crossing(dim - tot - 1), avail, dim, m, tot) == dim - tot + 1
    decreases dim - tot
  {
    var ev := Crossing(dim - tot - 1);
    if tot + 1 < dim {
      assert ev[1..] == Crossing(dim - tot - 2);
      assert Once(ev, m, avail) == (1, ev[1..]);
      CrossingOverruns(avail - 1, dim, m, tot + 1);
    } else {
      assert Once(ev, m, avail) == (2, []);
      assert Add32(tot, 2) == tot + 2;
      assert Take([], avail - 2, dim, m, tot + 2) == 0;
    }
  }

  /**
   * With more than this file in the stream, the loop stops at the file's end for every way
   * the stream may be cut exactly when a read never asks for more than one octet.
   */
  lemma LockStepNeeded(avail: nat, dim: nat, buflen: nat)
    requires buflen > 0 && avail > dim && dim + buflen <= WORD - 1
    ensures (forall ev :: Fault !in ev ==> Take(ev, avail, dim, Min(dim, buflen), 0) == dim) <==> Min(dim, buflen) < 2
  {
    var m := Min(dim, buflen);
    if m < 2 {
      forall ev | Fault !in ev
        ensures Take(ev, avail, dim, m, 0) == dim
      {
        if dim > 0 {
          TakeBounds(ev, avail, dim, m, 0);
        }
      }
    } else {
      CrossingOverruns(avail, dim, m, 0);
      var ev := Crossing(dim - 1);
      assert Fault !in ev && Take(ev, avail, dim, m, 0) == dim + 1;
    }
  }

  // ---------------------------------------------------------------- receive_file

  /** A file written from its start without truncation. */
  function Overlay(old_: seq<byte>, d: seq<byte>): seq<byte> {
    if |old_| <= |d| then d else d + old_[|d|..]
  }

  /** The octets written, then what a longer file held behind them. */
  lemma OverlayLaw(was: seq<byte>, d: seq<byte>)
    ensures |Overlay(was, d)| == if |was| < |d| then |d| else |was|
    ensures forall i :: 0 <= i < |Overlay(was, d)| ==> Overlay(was, d)[i] == if i < |d| then d[i] else was[i]
  {
  }

  lemma OverlayAppend(was: seq<byte>, d: seq<byte>, e: seq<byte>)
    ensures Overlay(Overlay(was, d), d + e) == Overlay(was, d + e)
    ensures Overlay(was, d)[..|d|] == d
  {
  }

  /** What a directory holds under a name, nothing if it has no such file. */
  function Stored(files: map<Name, seq<byte>>, name: Name): seq<byte> {
    if name in files then files[name] else []
  }

  /** The client's directory; open(O_WRONLY | O_CREAT) keeps what a file already holds. */
  class Directory {
    var files: map<Name, seq<byte>>

    method Open(name: Name)
      modifies this
      ensures files == old(files)[name := Stored(old(files), name)]
    {
      files := files[name := Stored(files, name)];
    }

    /** write(2) of the first n octets of the buffer at file position `pos`. */
    method WriteAt(name: Name, pos: nat, buf: array<byte>, n: nat)
      requires name in files && n <= buf.Length && pos <= |files[name]|
      modifies this
      ensures files == old(files)[name := Overlay(old(files)[name], old(files)[name][..pos] + buf[..n])]
    {
      files := files[name := Overlay(files[name], files[name][..pos] + buf[..n])];
    }
  }

  /** Read: the wrapper that repeats an interrupted read(2). */
  method ReadOnce(fd: Descriptor, buf: array<byte>, n: nat) returns (rc: nat, ghost chunk: seq<byte>)
    requires n <= buf.Length && Fault !in fd.readPlan
    modifies fd`input, fd`readPlan, fd`interrupted, buf
    ensures (rc, fd.readPlan) == Once(old(fd.readPlan), n, |old(fd.input)|)
    ensures Fault !in fd.readPlan
    ensures old(fd.input) == chunk + fd.input && |chunk| == rc && buf[..rc] == chunk
  {
    ghost var input, goal := fd.input, Once(fd.readPlan, n, |fd.input|);
    while true
      invariant fd.input == input && Fault !in fd.readPlan && goal == Once(fd.readPlan, n, |fd.input|)
      decreases |fd.readPlan|
    {
      var r;
      ghost var plan := fd.readPlan;
      r, chunk := fd.Read(buf, 0, n);
      if r >= 0 {
        return r, chunk;
      }
      assert plan[0] in plan;
    }
  }

  function Zero4(t: seq<byte>): seq<byte>
    requires |t| <= 4
  {
    t + [NUL, NUL, NUL, NUL][|t|..]
  }

  /** Readn into a zeroed 32-bit word, then ntohl. */
  method ReadWord(sock: Descriptor) returns (v: nat, ghost t: seq<byte>)
    requires Fault !in sock.readPlan
    modifies sock`input, sock`readPlan, sock`interrupted
    ensures Fault !in sock.readPlan
    ensures old(sock.input) == t + sock.input && |t| == Min(4, |old(sock.input)|)
    ensures v == WordValue(Zero4(t)) && (|t| == 4 ==> Zero4(t) == t)
  {
    hide WordValue;
    PullExact(sock.readPlan, 4, |sock.input|);
    var buf := new byte[4](_ => NUL);
    assert buf[..] == [NUL, NUL, NUL, NUL];
    var rc;
    rc, t := Readn(sock, buf, 4);
    assert buf[..] == Zero4(t);
    v := WordValue(buf[..]);
  }

  /** One round of receive_file: one Read and one Write, appending to the `body` written so far. */
  method ReceiveBlock(sock: Descriptor, dir: Directory, name: Name, buffer: array<byte>, toRead: nat, pos: nat,
                      tot: nat, dim: nat, ghost was: seq<byte>, ghost body: seq<byte>)
    returns (n: nat, ghost chunk: seq<byte>)
    requires Fault !in sock.readPlan && toRead <= buffer.Length && |body| == pos
    requires name in dir.files && dir.files[name] == Overlay(was, body) && tot < dim
    modifies sock`input, sock`readPlan, sock`interrupted, dir, buffer
    ensures Fault !in sock.readPlan && old(sock.input) == chunk + sock.input && |chunk| == n
    ensures n == 0 ==> toRead == 0 || sock.input == []
    ensures Take(old(sock.readPlan), |old(sock.input)|, dim, toRead, tot) ==
            if n == 0 then 0 else n + Take(sock.readPlan, |sock.input|, dim, toRead, Add32(tot, n))
    ensures dir.files == old(dir.files)[name := Overlay(was, body + chunk)]
  {
    n, chunk := ReadOnce(sock, buffer, toRead);
    OverlayAppend(was, body, chunk);
    dir.WriteAt(name, pos, buffer, n);
  }

  /**
   * The content loop of receive_file.  `spins` reports the state it repeats for ever: the
   * stream has ended, every further Read returns 0 and the count is still short.
   */
  method ReceiveContent(sock: Descriptor, dir: Directory, name: Name, dim: nat, buflen: nat)
    returns (spins: bool, ghost body: seq<byte>)
    requires buflen > 0 && dim < WORD && Fault !in sock.readPlan && name in dir.files
    modifies sock`input, sock`readPlan, sock`interrupted, dir
    ensures Fault !in sock.readPlan && old(sock.input) == body + sock.input
    ensures |body| == Take(old(sock.readPlan), |old(sock.input)|, dim, Min(dim, buflen), 0)
    ensures dir.files == old(dir.files)[name := Overlay(old(dir.files)[name], body)]
    ensures spins ==> sock.input == []
    ensures |old(sock.input)| <= dim ==> (spins <==> |body| < dim)
  {
    var toRead := Min(dim, buflen);
    ghost var goal, files := Take(sock.readPlan, |sock.input|, dim, toRead, 0), dir.files;
    var buffer := new byte[buflen];
    var tot: nat, pos: nat := 0, 0;
    body := [];
    spins := false;
    assert Overlay(files[name], []) == files[name];
    while tot < dim
      invariant Fault !in sock.readPlan && old(sock.input) == body + sock.input
      invariant |body| == pos && (pos <= dim ==> tot == pos)
      invariant goal == pos + Take(sock.readPlan, |sock.input|, dim, toRead, tot)
      invariant dir.files == files[name := Overlay(files[name], body)]
      decreases |sock.input|
    {
      ghost var chunk;
      var n;
      n, chunk := ReceiveBlock(sock, dir, name, buffer, toRead, pos, tot, dim, files[name], body);
      if n == 0 {
        assert body + chunk == body;
        return true, body;
      }
      tot, pos, body := Add32(tot, n), pos + n, body + chunk;
    }
  }

  lemma ThreeWords(t1: seq<byte>, t2: seq<byte>, t3: seq<byte>, rest: seq<byte>)
    requires |t1| == |t2| == |t3| == 4
    ensures var input := t1 + (t2 + (t3 + rest));
            input[4..8] == t2 && input[12..] == rest
  {
  }

  /** What receive_file leaves of a reply whose first octet has been read. */
  method ReceiveFile(sock: Descriptor, dir: Directory, name: Name, buflen: nat)
    returns (spins: bool, ghost body: seq<byte>)
    requires buflen > 0 && Fault !in sock.readPlan
    modifies sock`input, sock`readPlan, sock`interrupted, dir
    ensures Fault !in sock.readPlan
    ensures |old(sock.input)| >= HEADER - 1 ==>
              var content, dim := old(sock.input)[12..], WordValue(old(sock.input)[4..8]);
              && content == body + sock.input
              && (|content| <= dim ==> sock.input == [] && (spins <==> |content| < dim))
    ensures dir.files == old(dir.files)[name := Overlay(Stored(old(dir.files), name), body)]
  {
    hide WordValue, Overlay, Take, Zero4;
    ghost var input := sock.input;
    ghost var t1, t2, t3;
    var ok, dim, mtime;
    ok, t1 := ReadWord(sock);
    dim, t2 := ReadWord(sock);
    mtime, t3 := ReadWord(sock);
    dir.Open(name);
    ghost var content, plan := sock.input, sock.readPlan;
    if |input| >= HEADER - 1 {
      ThreeWords(t1, t2, t3, content);
      if |content| <= dim {
        TakeLockStep(plan, |content|, dim, Min(dim, buflen), 0);
      }
    }
    spins, body := ReceiveContent(sock, dir, name, dim, buflen);
  }

  // ---------------------------------------------------------------- the session

  /** A reply as the client meets it: a plus sign, eleven octets of header, then the content. */
  lemma ResponseShape(f: File, b: nat)
    requires b > 0 && |f.content| < WORD
    ensures var r := Response(f, b);
            && r[0] == 43 && |r[1..]| >= HEADER - 1
            && r[1..][4..8] == Word(|f.content|) && r[1..][12..] == f.content[..Delivered(|f.content|, b)]
  {
    HeaderFields(f);
    AfterFirst(Header(f), f.content[..Delivered(|f.content|, b)]);
  }

  lemma AfterFirst(h: seq<byte>, c: seq<byte>)
    requires |h| == HEADER
    ensures (h + c)[0] == h[0] && |(h + c)[1..]| == HEADER - 1 + |c|
    ensures (h + c)[1..][4..8] == h[5..9] && (h + c)[1..][12..] == c
  {
  }

  /** The server at the other end, one request at a time; its replies may then be read in any pieces. */
  class Peer {
    const disk: Disk
    const b: nat
    var serving: bool
    var closed: bool  // a file that cannot be opened ends the service with the connection still open

    constructor (disk: Disk, b: nat)
      ensures this.disk == disk && this.b == b && serving && !closed
    {
      this.disk, this.b, serving, closed := disk, b, true, false;
    }

    /** The server's reaction to the request appears in the client's stream. */
    method Answer(request: seq<byte>, sock: Descriptor)
      requires b > 0
      modifies this, sock`input
      ensures var (turn, reply) := Reaction(disk, b, ParseRequest(request), request == []);
              && serving == (old(serving) && turn == Again)
              && closed == (old(closed) || (old(serving) && turn != Again && turn != Done(NotOpened)))
              && sock.input == old(sock.input) +
                   if !old(serving) then [] else if turn == Done(Rejected) then ERR else reply
    {
      var (turn, reply) := Reaction(disk, b, ParseRequest(request), request == []);
      if serving {
        sock.input := sock.input + if turn == Done(Rejected) then ERR else reply;
        closed := closed || (turn != Again && turn != Done(NotOpened));
      }
      serving := serving && turn == Again;
    }
  }

  datatype Progress = Next | NoReply | Stuck | Refused | Ended

  lemma RequestNotEmpty(name: Name)
    ensures FormatRequest(name) != []
  {
  }

  /** The request goes out whole and the server reacts to it. */
  method Ask(sock: Descriptor, peer: Peer, request: seq<byte>) returns (ok: bool)
    requires peer.b > 0
    modifies sock`input, sock`output, sock`writePlan, sock`interrupted, peer
    ensures Reliable(old(sock.writePlan)) ==> ok && Reliable(sock.writePlan)
    ensures ok && old(peer.serving) && request != [] && ParseRequest(request).Get? ==>
              var name := ParseRequest(request).name;
              && peer.serving == (name in peer.disk) && peer.closed == old(peer.closed)
              && sock.input == old(sock.input) + if name in peer.disk then Response(peer.disk[name], peer.b) else []
  {
    var buffer := new byte[|request|](i requires 0 <= i < |request| => request[i]);
    PushExact(sock.writePlan, |request|, sock.interrupted);
    ghost var sent;
    var rc;
    rc, sent := Writen(sock, buffer, |request|);
    ok := rc != -1;
    if ok {
      peer.Answer(request, sock);
    }
  }

  /** Readn of one octet and the switch on it. */
  method TakeReply(sock: Descriptor, dir: Directory, name: Name, buflen: nat)
    returns (p: Progress, ghost body: seq<byte>)
    requires buflen > 0 && Fault !in sock.readPlan && sock.input != []
    modifies sock`input, sock`readPlan, sock`interrupted, dir
    ensures Fault !in sock.readPlan
    ensures old(sock.input)[0] == 45 ==> p == Refused
    ensures old(sock.input)[0] == 43 && |old(sock.input)| >= HEADER ==>
              var content, dim := old(sock.input)[1..][12..], WordValue(old(sock.input)[1..][4..8]);
              && dir.files == old(dir.files)[name := Overlay(Stored(old(dir.files), name), body)]
              && content == body + sock.input
              && (|content| <= dim ==> sock.input == [] && p == if |content| < dim then Stuck else Next)
  {
    PullExact(sock.readPlan, 1, |sock.input|);
    ghost var input := sock.input;
    ghost var t;
    var first := new byte[1];
    var rc;
    rc, t := Readn(sock, first, 1);
    assert first[..] == t && t[0] == input[0] && sock.input == input[1..];
    body := [];
    if first[0] == 45 {
      p := Refused;
    } else if first[0] == 43 {
      var spins;
      spins, body := ReceiveFile(sock, dir, name, buflen);
      p := if spins then Stuck else Next;
    } else {
      p := Ended;
    }
  }

  /** Lock step on a reliable connection: the server waits for a request and no reply is outstanding. */
  ghost predicate InStep(peer: Peer, sock: Descriptor)
    reads peer`serving, peer`closed, sock`input, sock`writePlan
  {
    peer.serving && !peer.closed && sock.input == [] && Reliable(sock.writePlan) && CounterFits(peer.disk)
  }

  /** One turn of the client's loop: send the request, wait, read one octet and branch on it. */
  method Exchange(sock: Descriptor, peer: Peer, dir: Directory, name: Name, buflen: nat) returns (p: Progress)
    requires buflen > 0 && peer.b > 0 && Fault !in sock.readPlan
    modifies sock, peer, dir
    ensures Fault !in sock.readPlan
    ensures old(InStep(peer, sock)) && Servable(peer.disk, peer.b, name) ==>
              var content := peer.disk[name].content;
              && InStep(peer, sock)
              && p == (if Complete(|content|, peer.b) then Next else Stuck)
              && dir.files ==
                 old(dir.files)[name := Overlay(Stored(old(dir.files), name), content[..Delivered(|content|, peer.b)])]
    ensures old(InStep(peer, sock)) && ValidName(name) && name !in peer.disk ==>
              p == NoReply && dir.files == old(dir.files) && sock.input == []
  {
    var request := FormatRequest(name);
    ghost var ordinary := InStep(peer, sock) && Servable(peer.disk, peer.b, name);
    RequestRoundTrip(name);
    hide FormatRequest, ParseRequest, Response, Delivered, Overlay, ValidName, Complete, WordValue;
    assert request != [] by {
      RequestNotEmpty(name);
    }
    var ok := Ask(sock, peer, request);
    if !ok {
      return Ended;
    }
    if sock.input == [] {
      return if peer.closed then Ended else NoReply;
    }
    if ordinary {
      assert sock.input == Response(peer.disk[name], peer.b);
      ResponseShape(peer.disk[name], peer.b);
      WordRoundTrip(|peer.disk[name].content|);
      DeliveryLaw(|peer.disk[name].content|, peer.b);
    }
    ghost var body;
    p, body := TakeReply(sock, dir, name, buflen);
    assert sock.input == [] ==> body + sock.input == body;
  }

  // ---------------------------------------------------------------- whole sessions

  /** The client's directory after the transfers of `names`, as many octets each as the server delivers. */
  ghost function Fetched(files: map<Name, seq<byte>>, disk: Disk, b: nat, names: seq<Name>): map<Name, seq<byte>>
    requires b > 0 && AllServable(disk, b, names)
    decreases |names|
  {
    if names == [] then files
    else
      var name, before := names[|names| - 1], names[..|names| - 1];
      assert Servable(disk, b, name);
      assert AllServable(disk, b, before);
      var sofar, content := Fetched(files, disk, b, before), disk[name].content;
      sofar[name := Overlay(Stored(sofar, name), content[..Delivered(|content|, b)])]
  }

  ghost predicate AllComplete(disk: Disk, b: nat, names: seq<Name>)
    requires b > 0
  {
    forall i :: 0 <= i < |names| ==> names[i] in disk && Complete(|disk[names[i]].content|, b)
  }

  /** Complete transfers, repeated names included, overlay each name once and touch nothing else. */
  lemma {:induction false} FetchedComplete(files: map<Name, seq<byte>>, disk: Disk, b: nat, names: seq<Name>,
                                           name: Name)
    requires b > 0 && AllServable(disk, b, names) && AllComplete(disk, b, names)
    ensures name !in names ==> Stored(Fetched(files, disk, b, names), name) == Stored(files, name)
    ensures name in names ==>
              && name in disk && name in Fetched(files, disk, b, names)
              && Fetched(files, disk, b, names)[name] == Overlay(Stored(files, name), disk[name].content)
    decreases |names|
  {
    if names != [] {
      var last, before := names[|names| - 1], names[..|names| - 1];
      assert names == before + [last];
      assert Servable(disk, b, last) && Complete(|disk[last].content|, b);
      FetchedComplete(files, disk, b, before, name);
      FetchedLast(files, disk, b, names);
      OverlayTwice(Stored(files, name), disk[last].content);
    }
  }

  lemma FetchedLast(files: map<Name, seq<byte>>, disk: Disk, b: nat, names: seq<Name>)
    requires b > 0 && AllServable(disk, b, names) && AllComplete(disk, b, names) && names != []
    ensures var last, before := names[|names| - 1], names[..|names| - 1];
            && AllServable(disk, b, before) && last in disk
            && Fetched(files, disk, b, names) ==
               var sofar := Fetched(files, disk, b, before);
               sofar[last := Overlay(Stored(sofar, last), disk[last].content)]
  {
    var last, n := names[|names| - 1], |disk[names[|names| - 1]].content|;
    assert Servable(disk, b, last) && Complete(n, b);
    DeliveryLaw(n, b);
    assert disk[last].content[..n] == disk[last].content;
  }

  lemma OverlayTwice(was: seq<byte>, d: seq<byte>)
    ensures Overlay(Overlay(was, d), d) == Overlay(was, d)
  {
  }

  /**
   * Whole-session transfer: after complete transfers the client holds exactly the server's
   * octets for every name if and only if no destination was longer than its file.
   */
  lemma SessionExact(files: map<Name, seq<byte>>, disk: Disk, b: nat, names: seq<Name>)
    requires b > 0 && AllServable(disk, b, names) && AllComplete(disk, b, names)
    ensures forall name :: name in names ==> name in disk && name in Fetched(files, disk, b, names)
    ensures (forall name :: name in names ==> Fetched(files, disk, b, names)[name] == disk[name].content) <==>
            (forall name :: name in names ==> |Stored(files, name)| <= |disk[name].content|)
  {
    forall name | name in names
      ensures name in disk && name in Fetched(files, disk, b, names)
      ensures Fetched(files, disk, b, names)[name] == disk[name].content <==>
                |Stored(files, name)| <= |disk[name].content|
    {
      FetchedComplete(files, disk, b, names, name);
    }
  }

  /** What the loop has done after `done` turns that all went through. */
  ghost predicate Progressed(files: map<Name, seq<byte>>, now: map<Name, seq<byte>>, disk: Disk, b: nat,
                             names: seq<Name>, done: nat)
    requires b > 0 && done <= |names| && AllServable(disk, b, names)
  {
    && AllServable(disk, b, names[..done])
    && AllComplete(disk, b, names[..done])
    && now == Fetched(files, disk, b, names[..done])
  }

  /** The turn that stayed in an incomplete file. */
  ghost predicate StuckAt(files: map<Name, seq<byte>>, now: map<Name, seq<byte>>, disk: Disk, b: nat,
                          names: seq<Name>, done: nat)
    requires b > 0 && done < |names| && AllServable(disk, b, names)
  {
    && AllServable(disk, b, names[..done]) && AllServable(disk, b, names[..done + 1])
    && AllComplete(disk, b, names[..done])
    && Servable(disk, b, names[done]) && !Complete(|disk[names[done]].content|, b)
    && now == Fetched(files, disk, b, names[..done + 1])
  }

  lemma FetchedNext(files: map<Name, seq<byte>>, disk: Disk, b: nat, names: seq<Name>, done: nat)
    requires b > 0 && done < |names| && AllServable(disk, b, names)
    ensures AllServable(disk, b, names[..done]) && AllServable(disk, b, names[..done + 1]) &&
            Servable(disk, b, names[done])
    ensures var now, content := Fetched(files, disk, b, names[..done]), disk[names[done]].content;
            Fetched(files, disk, b, names[..done + 1]) ==
            now[names[done] := Overlay(Stored(now, names[done]), content[..Delivered(|content|, b)])]
  {
    hide Overlay, Delivered, Stored, Servable, AllServable;
    ServableMore(disk, b, b, names, done);
    ServableMore(disk, b, b, names, done + 1);
    ServableAt(disk, b, names, done);
    OneMore(names, done);
    var after := names[..done + 1];
    assert after[..|after| - 1] == names[..done] && after[|after| - 1] == names[done];
  }

  lemma TurnDone(files: map<Name, seq<byte>>, now: map<Name, seq<byte>>, disk: Disk, b: nat, names: seq<Name>,
                 done: nat)
    requires b > 0 && done < |names| && AllServable(disk, b, names) && Progressed(files, now, disk, b, names, done)
    ensures Servable(disk, b, names[done])
    ensures var content := disk[names[done]].content;
            var next := now[names[done] := Overlay(Stored(now, names[done]), content[..Delivered(|content|, b)])];
            if Complete(|content|, b) then Progressed(files, next, disk, b, names, done + 1)
            else StuckAt(files, next, disk, b, names, done)
  {
    FetchedNext(files, disk, b, names, done);
    OneMore(names, done);
  }

  lemma OneMore(names: seq<Name>, done: nat)
    requires done < |names|
    ensures names[..done + 1] == names[..done] + [names[done]]
  {
  }

  /** A name the client can ask for, whether or not the server has it. */
  predicate Requestable(b: nat, name: Name) { ValidName(name) && |FormatRequest(name)| <= b }

  ghost predicate AllRequestable(b: nat, names: seq<Name>) {
    forall i :: 0 <= i < |names| ==> Requestable(b, names[i])
  }

  /** Why and where the loop is after `done` turns: p is how the last of them ended. */
  ghost predicate LoopAt(files: map<Name, seq<byte>>, now: map<Name, seq<byte>>, disk: Disk, b: nat, names: seq<Name>,
                         done: nat, p: Progress)
    requires b > 0 && done <= |names|
  {
    && AllServable(disk, b, names[..done])
    && match p
       case Next => Progressed(files, now, disk, b, names[..done], done)
       case NoReply => Progressed(files, now, disk, b, names[..done], done) && done < |names| && names[done] !in disk
       case Stuck => done < |names| && AllServable(disk, b, names[..done + 1]) &&
                     StuckAt(files, now, disk, b, names[..done + 1], done)
       case _ => false
  }

  lemma LoopStarts(files: map<Name, seq<byte>>, disk: Disk, b: nat, names: seq<Name>)
    requires b > 0
    ensures LoopAt(files, files, disk, b, names, 0, Next)
  {
  }

  lemma LoopGoesOn(files: map<Name, seq<byte>>, now: map<Name, seq<byte>>, disk: Disk, b: nat, names: seq<Name>,
                   done: nat)
    requires b > 0 && done < |names| && Requestable(b, names[done]) && LoopAt(files, now, disk, b, names, done, Next)
    ensures names[done] !in disk ==> LoopAt(files, now, disk, b, names, done, NoReply)
    ensures names[done] in disk ==>
              var content := disk[names[done]].content;
              var next := now[names[done] := Overlay(Stored(now, names[done]), content[..Delivered(|content|, b)])];
              if Complete(|content|, b) then LoopAt(files, next, disk, b, names, done + 1, Next)
              else LoopAt(files, next, disk, b, names, done, Stuck)
  {
    hide Overlay, Stored, Delivered, Complete, Fetched, AllComplete;
    var longer := names[..done + 1];
    assert names[..done][..done] == longer[..done] == names[..done] && longer[done] == names[done] &&
           longer[..done + 1] == longer;
    if names[done] in disk {
      OneMore(names, done);
      assert AllServable(disk, b, longer);
      assert Progressed(files, now, disk, b, longer, done);
      TurnDone(files, now, disk, b, longer, done);
    }
  }

  /** The loop went through all names exactly when the server has every file and it is complete. */
  lemma LoopEnds(files: map<Name, seq<byte>>, now: map<Name, seq<byte>>, disk: Disk, b: nat, names: seq<Name>,
                 done: nat, p: Progress)
    requires b > 0 && done <= |names| && LoopAt(files, now, disk, b, names, done, p) && (p == Next ==> done == |names|)
    ensures p == Next <==> AllComplete(disk, b, names)
  {
    hide Fetched;
    assert names[..|names|] == names;
    assert done < |names| ==> names[..done + 1][done] == names[done];
  }

  /**
   * The client's main loop over its arguments.  In lock step on a reliable connection it
   * goes through all of them exactly when the server has every file and each is complete;
   * otherwise it stays in the first incomplete one or gives up at the first that is missing.
   */
  method RequestLoop(sock: Descriptor, peer: Peer, dir: Directory, names: seq<Name>, buflen: nat)
    returns (p: Progress, ghost done: nat)
    requires buflen > 0 && peer.b > 0 && Fault !in sock.readPlan
    modifies sock, peer, dir
    ensures old(InStep(peer, sock)) && AllRequestable(peer.b, names) ==>
              && done <= |names| && LoopAt(old(dir.files), dir.files, peer.disk, peer.b, names, done, p)
              && (p == Next ==> done == |names|) && (p == Next <==> AllComplete(peer.disk, peer.b, names))
              && sock.input == [] && (p == NoReply || InStep(peer, sock))
  {
    hide LoopAt, Overlay, Delivered, Complete, AllComplete, ValidName, FormatRequest;
    ghost var ordinary := InStep(peer, sock) && AllRequestable(peer.b, names);
    ghost var files := dir.files;
    p, done := Next, 0;
    var nFiles := |names|;
    LoopStarts(files, peer.disk, peer.b, names);
    while nFiles > 0 && p == Next
      invariant 0 <= nFiles <= |names| && Fault !in sock.readPlan
      invariant done == |names| - nFiles - (if p == Next then 0 else 1) && done >= 0
      invariant ordinary ==> LoopAt(files, dir.files, peer.disk, peer.b, names, done, p)
      invariant ordinary ==> sock.input == [] && (p == NoReply || InStep(peer, sock))
      decreases nFiles
    {
      if ordinary {
        LoopGoesOn(files, dir.files, peer.disk, peer.b, names, done);
      }
      p := Exchange(sock, peer, dir, names[|names| - nFiles], buflen);
      nFiles := nFiles - 1;
      if p == Next {
        done := done + 1;
      }
    }
    if ordinary {
      LoopEnds(files, dir.files, peer.disk, peer.b, names, done, p);
    }
  }
}
