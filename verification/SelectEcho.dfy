/** The select-driven echo server: client[], maxi, maxfd and allset kept in step over any schedule. */
module SelectEcho {
  import opened Octets

  const FD_SETSIZE := 1024
  const MAXLINE := 1024

  // ---------------------------------------------------------------- what the server is for

  /** The life of one connection: octets read from its client, octets written to it. */
  datatype Link = Link(got: seq<byte>, sent: seq<byte>) {
    function Echo(d: seq<byte>): Link { Link(got + d, sent + d) }
  }

  /** Open client descriptors and the connections they stand for; every connection there has been. */
  datatype Net = Net(live: map<int, nat>, links: seq<Link>)

  ghost predicate NetOk(n: Net) {
    && (forall fd :: fd in n.live ==> n.live[fd] < |n.links|)
    && (forall fd, gd :: fd in n.live && gd in n.live && fd != gd ==> n.live[fd] != n.live[gd])
  }

  /** One turn of the endless loop: what is readable, what each readable client holds, the next descriptor. */
  datatype Round = Round(readable: set<int>, data: map<int, seq<byte>>, newfd: int)

  /** Some client descriptor stands for connection c. */
  ghost predicate Open(n: Net, c: nat) { exists fd :: fd in n.live && n.live[fd] == c }

  /** What the kernel promises about a round: select returns only with something ready, descriptors are new. */
  predicate Plausible(n: Net, listenfd: int, r: Round) {
    && listenfd >= 0 && listenfd !in n.live
    && r.readable <= n.live.Keys + {listenfd} && r.readable != {}
    && r.newfd >= 0 && r.newfd !in n.live && r.newfd != listenfd
    && forall fd :: fd in r.readable && fd != listenfd ==> fd in r.data && |r.data[fd]| <= MAXLINE
  }

  /**
   * The effect of a round: each readable client is echoed its own octets once, or dropped at
   * its end of file, and nobody else is touched; a waiting client is added.
   */
  ghost predicate Echoes(n: Net, listenfd: int, r: Round, m: Net) {
    && Plausible(n, listenfd, r) && NetOk(n)
    && |m.links| == |n.links| + (if listenfd in r.readable then 1 else 0)
    && (forall c :: 0 <= c < |n.links| && !Open(n, c) ==> m.links[c] == n.links[c])
    && (forall fd :: fd in n.live ==>
          m.links[n.live[fd]] == if fd in r.readable then n.links[n.live[fd]].Echo(r.data[fd]) else n.links[n.live[fd]])
    && (listenfd in r.readable ==> m.links[|n.links|] == Link([], []))
    && (forall fd :: fd in m.live <==>
          (fd in n.live && !(fd in r.readable && r.data[fd] == [])) || (fd == r.newfd && listenfd in r.readable))
    && (forall fd :: fd in m.live ==> m.live[fd] == if fd in n.live then n.live[fd] else |n.links|)
  }

  /** The round's effect leaves nothing open: two servers that have it end in the same state. */
  lemma EchoesUnique(n: Net, listenfd: int, r: Round, m: Net, m': Net)
    requires Echoes(n, listenfd, r, m) && Echoes(n, listenfd, r, m')
    ensures m == m'
  {
    forall c | 0 <= c < |m.links|
      ensures m.links[c] == m'.links[c]
    {
      if c < |n.links| && Open(n, c) {
        var fd :| fd in n.live && n.live[fd] == c;
        assert m.links[n.live[fd]] == m'.links[n.live[fd]];
      }
    }
    forall fd
      ensures fd in m.live <==> fd in m'.live
      ensures fd in m.live ==> m.live[fd] == m'.live[fd]
    {
    }
    assert m.live == m'.live;
  }

  ghost predicate Echoed(n: Net) { forall c :: 0 <= c < |n.links| ==> n.links[c].sent == n.links[c].got }

  lemma EchoesKeeps(n: Net, listenfd: int, r: Round, m: Net)
    requires Echoes(n, listenfd, r, m)
    ensures NetOk(m)
    ensures Echoed(n) ==> Echoed(m)
  {
    if Echoed(n) {
      forall c | 0 <= c < |m.links|
        ensures m.links[c].sent == m.links[c].got
      {
        if Open(n, c) {
          var fd :| fd in n.live && n.live[fd] == c;
          assert m.links[n.live[fd]].sent == m.links[n.live[fd]].got;
        }
      }
    }
  }

  // ---------------------------------------------------------------- whole runs

  /** A run: the state before each round, and after the last one. */
  ghost predicate IsRun(trace: seq<Net>, listenfd: int, rounds: seq<Round>) {
    && |trace| == |rounds| + 1
    && forall k :: 0 <= k < |rounds| ==> Echoes(trace[k], listenfd, rounds[k], trace[k + 1])
  }

  /** Connection c is readable in the round, under descriptor fd. */
  ghost predicate Speaks(n: Net, r: Round, c: nat, fd: int) {
    fd in n.live && n.live[fd] == c && fd in r.readable && fd in r.data
  }

  /** d is what connection c's client says in the round. */
  ghost predicate Says(n: Net, r: Round, c: nat, d: seq<byte>) {
    if exists fd :: Speaks(n, r, c, fd) then exists fd :: Speaks(n, r, c, fd) && d == r.data[fd] else d == []
  }

  ghost predicate Speech(trace: seq<Net>, rounds: seq<Round>, c: nat, said: seq<seq<byte>>) {
    && |trace| == |rounds| + 1 && |said| == |rounds|
    && forall k :: 0 <= k < |rounds| ==> Says(trace[k], rounds[k], c, said[k])
  }

  /** What connection c's client says in each round of a run. */
  ghost function Heard(trace: seq<Net>, rounds: seq<Round>, c: nat): (said: seq<seq<byte>>)
    requires |trace| == |rounds| + 1
    ensures |said| == |rounds|
  {
    seq(|rounds|, k requires 0 <= k < |rounds| => HeardIn(trace[k], rounds[k], c))
  }

  ghost function HeardIn(n: Net, r: Round, c: nat): seq<byte> {
    if fd :| Speaks(n, r, c, fd) then r.data[fd] else []
  }

  lemma HeardIsSpeech(trace: seq<Net>, rounds: seq<Round>, c: nat)
    requires |trace| == |rounds| + 1
    ensures Speech(trace, rounds, c, Heard(trace, rounds, c))
  {
    forall k | 0 <= k < |rounds|
      ensures Says(trace[k], rounds[k], c, HeardIn(trace[k], rounds[k], c))
    {
    }
  }

  /** A connection has one descriptor, so a round has one thing its client says. */
  lemma SaysOneThing(n: Net, r: Round, c: nat, d: seq<byte>)
    requires NetOk(n)
    ensures Says(n, r, c, d) <==> d == HeardIn(n, r, c)
  {
  }

  lemma EchoesLink(n: Net, listenfd: int, r: Round, m: Net, c: nat, d: seq<byte>)
    requires Echoes(n, listenfd, r, m) && Says(n, r, c, d)
    ensures c < |n.links| ==> m.links[c] == n.links[c].Echo(d)
    ensures c >= |n.links| ==> d == [] && (c < |m.links| ==> m.links[c] == Link([], []))
  {
    if c < |n.links| && Open(n, c) {
      var fd :| fd in n.live && n.live[fd] == c;
      assert m.links[n.live[fd]] == if fd in r.readable then n.links[c].Echo(r.data[fd]) else n.links[c];
      assert Speaks(n, r, c, fd) <==> fd in r.readable;
    }
  }

  function Start(n: Net, c: nat): Link { if c < |n.links| then n.links[c] else Link([], []) }

  /**
   * Over any run, slots and descriptors reused or not, what a connection has received is what
   * its own client said, in order and once, and what it was sent is the same.
   */
  lemma {:induction false} RunEchoes(trace: seq<Net>, listenfd: int, rounds: seq<Round>, c: nat, said: seq<seq<byte>>)
    requires IsRun(trace, listenfd, rounds) && Speech(trace, rounds, c, said)
    ensures |trace[0].links| <= |trace[|rounds|].links|
    ensures if c < |trace[|rounds|].links| then trace[|rounds|].links[c] == Start(trace[0], c).Echo(Join(said))
            else Join(said) == []
    decreases |rounds|
  {
    if rounds != [] {
      var k := |rounds| - 1;
      RunEchoes(trace[..k + 1], listenfd, rounds[..k], c, said[..k]);
      assert Echoes(trace[k], listenfd, rounds[k], trace[k + 1]);
      EchoesLink(trace[k], listenfd, rounds[k], trace[k + 1], c, said[k]);
      hide Echoes, Says;
      EchoTwice(Start(trace[0], c), Join(said[..k]), said[k]);
    }
  }

  lemma EchoTwice(l: Link, d: seq<byte>, e: seq<byte>)
    ensures l.Echo(d).Echo(e) == l.Echo(d + e)
    ensures l.Echo([]) == l
  {
    Regroup(l.got, d, e);
    Regroup(l.sent, d, e);
  }


  // ---------------------------------------------------------------- the three views

  /** client[], maxi, maxfd and allset describe the same clients; `slot` says where each one is. */
  ghost predicate Tables(client: seq<int>, slot: map<int, nat>, maxi: int, maxfd: int, allset: set<int>,
                         listenfd: int) {
    && -1 <= maxi < |client|
    && listenfd !in slot && allset == slot.Keys + {listenfd}
    && (forall fd :: fd in slot ==> 0 <= fd && slot[fd] <= maxi && client[slot[fd]] == fd)
    && (forall j :: 0 <= j < |client| ==>
          client[j] >= -1 && (client[j] >= 0 ==> client[j] in slot && slot[client[j]] == j))
    && (forall fd :: fd in allset ==> fd <= maxfd)
  }

  /**
   * Occupied slots are pairwise distinct and hold exactly allset without the listening
   * descriptor; those beyond maxi are free; nothing in allset is above maxfd.
   */
  lemma ViewsAgree(client: seq<int>, slot: map<int, nat>, maxi: int, maxfd: int, allset: set<int>, listenfd: int)
    requires Tables(client, slot, maxi, maxfd, allset, listenfd)
    ensures forall i, j :: 0 <= i < j < |client| && client[i] >= 0 ==> client[i] != client[j]
    ensures forall j :: maxi < j < |client| ==> client[j] == -1
    ensures forall fd :: fd in allset - {listenfd} <==> fd >= 0 && fd in client
    ensures forall fd :: fd in allset ==> fd <= maxfd
  {
    forall fd | fd in slot
      ensures fd in client
    {
      assert client[slot[fd]] == fd;
    }
  }

  lemma AddKeeps(client: seq<int>, slot: map<int, nat>, maxi: int, maxfd: int, allset: set<int>, listenfd: int,
                 i: nat, fd: int)
    requires Tables(client, slot, maxi, maxfd, allset, listenfd)
    requires i < |client| && client[i] < 0 && fd >= 0 && fd !in allset
    ensures Tables(client[i := fd], slot[fd := i], Max(maxi, i), Max(maxfd, fd), allset + {fd}, listenfd)
  {
  }

  lemma DropKeeps(client: seq<int>, slot: map<int, nat>, maxi: int, maxfd: int, allset: set<int>, listenfd: int, i: nat)
    requires Tables(client, slot, maxi, maxfd, allset, listenfd)
    requires i < |client| && client[i] >= 0
    ensures Tables(client[i := -1], slot - {client[i]}, maxi, maxfd, allset - {client[i]}, listenfd)
  {
  }

  /** The descriptors in client[]. */
  ghost function Occupants(s: seq<int>): set<int> {
    set x | x in s && x >= 0
  }

  lemma OneMore(front: seq<int>, x: int)
    ensures Occupants(front + [x]) == if x >= 0 then Occupants(front) + {x} else Occupants(front)
  {
  }

  lemma {:induction false} OccupantsCount(s: seq<int>)
    requires forall i, j :: 0 <= i < j < |s| && s[i] >= 0 ==> s[i] != s[j]
    ensures |Occupants(s)| <= |s|
    ensures |Occupants(s)| == |s| <==> forall j :: 0 <= j < |s| ==> s[j] >= 0
  {
    if s != [] {
      var front, x := s[..|s| - 1], s[|s| - 1];
      assert s == front + [x];
      OneMore(front, x);
      OccupantsCount(front);
      assert x >= 0 ==> x !in Occupants(front);
      hide Occupants;
    }
  }

  /** No slot is free exactly when there are as many clients as slots. */
  lemma FullCount(client: seq<int>, slot: map<int, nat>, maxi: int, maxfd: int, allset: set<int>, listenfd: int)
    requires Tables(client, slot, maxi, maxfd, allset, listenfd)
    ensures |slot.Keys| == |client| <==> forall j :: 0 <= j < |client| ==> client[j] >= 0
  {
    ViewsAgree(client, slot, maxi, maxfd, allset, listenfd);
    OccupantsCount(client);
    assert slot.Keys == allset - {listenfd} == Occupants(client);
  }

  lemma {:induction false} SmallSet(s: set<int>, n: nat)
    requires forall x :: x in s ==> 0 <= x < n
    ensures |s| <= n
  {
    if n > 0 {
      SmallSet(s - {n - 1}, n - 1);
      assert n - 1 in s ==> s == s - {n - 1} + {n - 1};
      assert n - 1 !in s ==> s == s - {n - 1};
    } else {
      assert forall x :: x !in s;
      assert s == {};
    }
  }

  /** While descriptors fit in an fd_set there is always a free slot: "too many clients" cannot happen. */
  lemma NeverFull(n: Net, listenfd: int)
    requires 0 <= listenfd < FD_SETSIZE && listenfd !in n.live
    requires forall fd :: fd in n.live ==> 0 <= fd < FD_SETSIZE
    ensures |n.live.Keys| < FD_SETSIZE
  {
    SmallSet(n.live.Keys + {listenfd}, FD_SETSIZE);
  }

  // ---------------------------------------------------------------- one round, client by client

  function Served(n: Net, fd: int, d: seq<byte>): Net
    requires fd in n.live && n.live[fd] < |n.links|
  {
    Net(if d == [] then n.live - {fd} else n.live, n.links[n.live[fd] := n.links[n.live[fd]].Echo(d)])
  }

  function Received(n: Net, fd: int, d: seq<byte>): Net
    requires fd in n.live && n.live[fd] < |n.links|
  {
    var c := n.live[fd];
    n.(links := n.links[c := Link(n.links[c].got + d, n.links[c].sent)])
  }

  function Sent(n: Net, fd: int, d: seq<byte>): Net
    requires fd in n.live && n.live[fd] < |n.links|
  {
    var c := n.live[fd];
    n.(links := n.links[c := Link(n.links[c].got, n.links[c].sent + d)])
  }

  function Admitted(n: Net, fd: int): Net {
    Net(n.live[fd := |n.links|], n.links + [Link([], [])])
  }

  lemma NoneLeft(s: set<int>)
    requires |s| <= 0
    ensures s == {}
  {
  }

  lemma AdmittedOk(n: Net, fd: int)
    requires NetOk(n)
    ensures NetOk(Admitted(n, fd))
  {
  }

  /** The clients in `done` have been served, and no one else. */
  ghost predicate Partly(n: Net, data: map<int, seq<byte>>, done: set<int>, m: Net) {
    && NetOk(n) && |m.links| == |n.links| && done <= n.live.Keys && done <= data.Keys
    && (forall c :: 0 <= c < |n.links| && !Open(n, c) ==> m.links[c] == n.links[c])
    && (forall fd :: fd in n.live ==>
          m.links[n.live[fd]] == if fd in done then n.links[n.live[fd]].Echo(data[fd]) else n.links[n.live[fd]])
    && (forall fd :: fd in m.live <==> fd in n.live && !(fd in done && data[fd] == []))
    && (forall fd :: fd in m.live ==> m.live[fd] == n.live[fd])
  }

  lemma PartlyNone(n: Net, data: map<int, seq<byte>>)
    requires NetOk(n)
    ensures Partly(n, data, {}, n)
  {
  }

  lemma PartlyStep(n: Net, data: map<int, seq<byte>>, done: set<int>, m: Net, fd: int)
    requires Partly(n, data, done, m) && fd in n.live && fd in data && fd !in done
    ensures fd in m.live && m.live[fd] < |m.links|
    ensures Partly(n, data, done + {fd}, Served(m, fd, data[fd]))
  {
    var m' := Served(m, fd, data[fd]);
    assert fd in m.live && m.live[fd] == n.live[fd];
    forall gd | gd in n.live
      ensures m'.links[n.live[gd]] ==
              if gd in done + {fd} then n.links[n.live[gd]].Echo(data[gd]) else n.links[n.live[gd]]
    {
    }
  }

  /** Serving every readable client, after letting in the one that waits, is the round. */
  lemma PartlyAll(n: Net, listenfd: int, r: Round, n': Net, m: Net)
    requires Plausible(n, listenfd, r) && NetOk(n)
    requires n' == if listenfd in r.readable then Admitted(n, r.newfd) else n
    requires Partly(n', r.data, r.readable - {listenfd}, m)
    ensures Echoes(n, listenfd, r, m)
  {
    forall c | 0 <= c < |n.links| && !Open(n, c)
      ensures m.links[c] == n.links[c]
    {
      assert !Open(n', c);
    }
    forall fd | fd in n.live
      ensures m.links[n.live[fd]] ==
              if fd in r.readable then n.links[n.live[fd]].Echo(r.data[fd]) else n.links[n.live[fd]]
    {
      assert fd in n'.live && n'.live[fd] == n.live[fd];
    }
    if listenfd in r.readable {
      assert n'.live[r.newfd] == |n.links|;
    }
  }

  lemma RunStep(trace: seq<Net>, listenfd: int, rounds: seq<Round>, k: nat, m: Net)
    requires k < |rounds| && IsRun(trace, listenfd, rounds[..k]) && Echoes(trace[k], listenfd, rounds[k], m)
    ensures IsRun(trace + [m], listenfd, rounds[..k + 1])
  {
    hide Echoes;
  }

  // ---------------------------------------------------------------- the server

  /** Of the ready clients, those served sit in slots before i if they are still there; the others from i on. */
  ghost predicate Split(slot: map<int, nat>, all: set<int>, done: set<int>, i: int) {
    && done <= all
    && (forall fd :: fd in all && fd !in done ==> fd in slot && slot[fd] >= i)
    && (forall fd :: fd in done ==> fd !in slot || slot[fd] < i)
  }

  lemma SplitServed(client: seq<int>, slot: map<int, nat>, all: set<int>, done: set<int>, i: nat, slot': map<int, nat>)
    requires Split(slot, all, done, i)
    requires i < |client| && client[i] in all && client[i] in slot && slot[client[i]] == i
    requires forall x :: x in slot ==> slot[x] < |client| && client[slot[x]] == x
    requires slot'.Keys <= slot.Keys && forall x :: x in slot && x != client[i] ==> x in slot' && slot'[x] == slot[x]
    requires client[i] in slot' ==> slot'[client[i]] == i
    ensures client[i] !in done
    ensures Split(slot', all, done + {client[i]}, i + 1)
    ensures |all - (done + {client[i]})| == |all - done| - 1
  {
    var fd := client[i];
    assert fd !in done;
    assert all - (done + {fd}) == all - done - {fd};
  }

  lemma SplitPassed(client: seq<int>, slot: map<int, nat>, maxi: int, maxfd: int, allset: set<int>, listenfd: int,
                    all: set<int>, done: set<int>, i: nat)
    requires Tables(client, slot, maxi, maxfd, allset, listenfd) && i <= maxi
    requires Split(slot, all, done, i) && (client[i] < 0 || client[i] !in all)
    ensures Split(slot, all, done, i + 1)
  {
  }

  lemma NobodyAhead(client: seq<int>, slot: map<int, nat>, maxi: int, maxfd: int, allset: set<int>, listenfd: int,
                    all: set<int>, done: set<int>, i: nat)
    requires Tables(client, slot, maxi, maxfd, allset, listenfd)
    requires i > maxi && Split(slot, all, done, i)
    ensures done == all
  {
    assert forall fd :: fd in all ==> fd in done;
  }

  lemma Occupied(client: seq<int>, slot: map<int, nat>, maxi: int, maxfd: int, allset: set<int>, listenfd: int, i: nat)
    requires Tables(client, slot, maxi, maxfd, allset, listenfd) && i <= maxi
    ensures i < |client|
    ensures client[i] >= 0 ==> client[i] in slot && slot[client[i]] == i && client[i] != listenfd
    ensures forall x :: x in slot ==> slot[x] < |client| && client[slot[x]] == x
  {
  }

  class Server {
    const listenfd: int
    const client: array<int>
    const buf: array<byte>
    var maxi: int
    var maxfd: int
    var allset: set<int>
    var net: Net              // the kernel's side: connections and what has passed over them
    ghost var slot: map<int, nat>

    ghost predicate Valid()
      reads this, client
    {
      && listenfd >= 0 && client.Length == FD_SETSIZE && buf.Length == MAXLINE
      && Tables(client[..], slot, maxi, maxfd, allset, listenfd)
      && slot.Keys == net.live.Keys && NetOk(net)
    }

    constructor (listenfd: int)
      requires listenfd >= 0
      ensures Valid() && fresh(client) && fresh(buf) && this.listenfd == listenfd && net == Net(map[], [])
    {
      this.listenfd, maxfd, maxi := listenfd, listenfd, -1;
      client := new int[FD_SETSIZE](i => -1);
      buf := new byte[MAXLINE];
      allset, slot, net := {listenfd}, map[], Net(map[], []);
    }

    /** select(2) over descriptors below maxfd + 1: since nothing in allset is above maxfd, nobody is lost. */
    method Select(r: Round) returns (rset: set<int>, nready: int)
      requires Valid() && Plausible(net, listenfd, r)
      ensures rset == r.readable && nready == |rset| > 0
    {
      rset := set fd | fd in allset && fd < maxfd + 1 && fd in r.readable;
      nready := |rset|;
      assert rset == r.readable;
    }

    /** The first free slot, or FD_SETSIZE. */
    method FreeSlot() returns (i: nat)
      ensures i <= client.Length
      ensures forall j :: 0 <= j < i ==> client[j] >= 0
      ensures i < client.Length ==> client[i] < 0
    {
      i := 0;
      while i < client.Length && client[i] >= 0
        invariant i <= client.Length
        invariant forall j :: 0 <= j < i ==> client[j] >= 0
      {
        i := i + 1;
      }
    }

    /** The new descriptor goes into slot i and into allset, and maxfd and maxi are raised to it. */
    method Store(i: nat, connfd: int)
      requires i < client.Length && client[i] < 0 && connfd >= 0 && connfd !in allset
      requires Tables(client[..], slot, maxi, maxfd, allset, listenfd)
      modifies this`slot, this`allset, this`maxfd, this`maxi, client
      ensures Tables(client[..], slot, maxi, maxfd, allset, listenfd) && slot.Keys == old(slot).Keys + {connfd}
    {
      hide Tables;
      ghost var was := client[..];
      AddKeeps(was, slot, maxi, maxfd, allset, listenfd, i, connfd);
      client[i] := connfd;
      assert client[..] == was[i := connfd];
      slot := slot[connfd := i];
      allset := allset + {connfd};
      if connfd > maxfd {
        maxfd := connfd;
      }
      if i > maxi {
        maxi := i;
      }
    }

    /** A new connection; "too many clients" is reported exactly when every slot is taken. */
    method Admit(connfd: int) returns (full: bool)
      requires Valid() && connfd >= 0 && connfd !in net.live && connfd != listenfd
      modifies this, client
      ensures full <==> |old(net).live.Keys| == FD_SETSIZE
      ensures net == Admitted(old(net), connfd)
      ensures !full ==> Valid()
    {
      assert connfd !in allset;
      hide Tables, NetOk;
      FullCount(client[..], slot, maxi, maxfd, allset, listenfd);
      AdmittedOk(net, connfd);
      var i := FreeSlot();
      net := Admitted(net, connfd);
      full := i == FD_SETSIZE;
      if !full {
        Store(i, connfd);
      }
    }

    /** read(2) on a client: `d` arrives in the buffer; its length is the count returned. */
    method Read(sockfd: int, d: seq<byte>) returns (n: nat)
      requires sockfd in net.live && net.live[sockfd] < |net.links| && |d| <= buf.Length
      modifies this`net, buf
      ensures n == |d| && buf[..n] == d && net == Received(old(net), sockfd, d)
    {
      n := |d|;
      forall j | 0 <= j < n {
        buf[j] := d[j];
      }
      net := Received(net, sockfd, d);
    }

    /** Writen to a client, from the start of the buffer. */
    method Write(sockfd: int, n: nat)
      requires sockfd in net.live && net.live[sockfd] < |net.links| && n <= buf.Length
      modifies this`net
      ensures net == Sent(old(net), sockfd, buf[..n])
    {
      net := Sent(net, sockfd, buf[..n]);
    }

    /** One ready client: its octets are read and written back, or it is dropped at its end of file. */
    method Serve(i: nat, d: seq<byte>)
      requires Valid() && i < client.Length && client[i] >= 0 && |d| <= MAXLINE
      modifies this, client, buf
      ensures Valid() && maxi == old(maxi) && slot.Keys <= old(slot).Keys
      ensures forall fd :: fd in old(slot) && fd != old(client[i]) ==> fd in slot && slot[fd] == old(slot)[fd]
      ensures old(client[i]) in slot ==> slot[old(client[i])] == i
      ensures old(client[i]) in old(net).live && net == Served(old(net), old(client[i]), d)
    {
      var sockfd := client[i];
      var n := Read(sockfd, d);
      if n == 0 {
        EchoTwice(old(net).links[old(net).live[sockfd]], [], []);
        DropKeeps(client[..], slot, maxi, maxfd, allset, listenfd, i);
        net := net.(live := net.live - {sockfd});
        allset := allset - {sockfd};
        client[i] := -1;
        slot := slot - {sockfd};
        assert client[..] == old(client[..])[i := -1];
      } else {
        Write(sockfd, n);
      }
    }

    /** The ready client in slot i: one fewer is left, and none of those is behind. */
    method ServeReady(i: nat, data: map<int, seq<byte>>, ghost n: Net, ghost all: set<int>, ghost done: set<int>)
      returns (ghost now: set<int>)
      requires Valid() && i <= maxi && i < client.Length && client[i] >= 0 && client[i] in all
      requires client[i] in data && |data[client[i]]| <= MAXLINE
      requires Partly(n, data, done, net) && Split(slot, all, done, i)
      modifies this, client, buf
      ensures Valid() && maxi == old(maxi)
      ensures Partly(n, data, now, net) && Split(slot, all, now, i + 1)
      ensures |all - now| == |all - done| - 1
    {
      ghost var fd, was, before := client[i], client[..], slot;
      Occupied(was, slot, maxi, maxfd, allset, listenfd, i);
      SplitServed(was, slot, all, done, i, slot);
      assert fd in n.live;
      hide Tables, Partly;
      PartlyStep(n, data, done, net, fd);
      Serve(i, data[client[i]]);
      SplitServed(was, before, all, done, i, slot);
      now := done + {fd};
    }

    /**
     * The scan: nready always counts the ready clients in the slots still ahead, so leaving
     * when it runs out misses nobody.
     */
    method Scan(rset: set<int>, ready: int, data: map<int, seq<byte>>)
      requires Valid() && ready == |rset - {listenfd}| > 0
      requires rset <= net.live.Keys + {listenfd}
      requires forall fd :: fd in rset && fd != listenfd ==> fd in data && |data[fd]| <= MAXLINE
      modifies this, client, buf
      ensures Valid() && Partly(old(net), data, rset - {listenfd}, net)
    {
      hide Tables, Partly, NetOk;
      ghost var n, all := net, rset - {listenfd};
      ghost var done: set<int> := {};
      PartlyNone(net, data);
      var i, nready := 0, ready;
      assert all - done == all;
      while i <= maxi
        invariant Valid() && i >= 0 && Partly(n, data, done, net)
        invariant Split(slot, all, done, i) && nready == |all - done| > 0
        decreases maxi - i
      {
        Occupied(client[..], slot, maxi, maxfd, allset, listenfd, i);
        var sockfd := client[i];
        if sockfd >= 0 && sockfd in rset {
          done := ServeReady(i, data, n, all, done);
          nready := nready - 1;
          if nready <= 0 {
            assert done == all;
            return;
          }
        } else {
          SplitPassed(client[..], slot, maxi, maxfd, allset, listenfd, all, done, i);
        }
        i := i + 1;
      }
      NobodyAhead(client[..], slot, maxi, maxfd, allset, listenfd, all, done, i);
    }

    /** One turn of the endless loop. */
    method Turn(r: Round) returns (full: bool)
      requires Valid() && Plausible(net, listenfd, r)
      modifies this, client, buf
      ensures full <==> listenfd in r.readable && |old(net).live.Keys| == FD_SETSIZE
      ensures full ==> net == Admitted(old(net), r.newfd)
      ensures !full ==> Valid() && Echoes(old(net), listenfd, r, net)
    {
      hide Tables, Partly, NetOk, Echoes;
      full := false;
      var rset, nready := Select(r);
      if listenfd in rset {
        full := Admit(r.newfd);
        if full {
          return;
        }
        nready := nready - 1;
        if nready <= 0 {
          NoneLeft(rset - {listenfd});
          PartlyNone(net, r.data);
          PartlyAll(old(net), listenfd, r, net, net);
          return;
        }
      }
      ghost var n := net;
      assert nready == |rset - {listenfd}|;
      Scan(rset, nready, r.data);
      PartlyAll(old(net), listenfd, r, n, net);
    }

    /**
     * The endless loop, for as long as the schedule is one the kernel can produce and there is
     * room for the clients: every round leaves the views in step and echoes to those ready.
     */
    method Loop(rounds: seq<Round>) returns (turns: nat, full: bool, ghost trace: seq<Net>)
      requires Valid()
      modifies this, client, buf
      ensures turns <= |rounds| && IsRun(trace, listenfd, rounds[..turns]) && trace[0] == old(net)
      ensures !full ==>
                Valid() && trace[turns] == net && (turns < |rounds| ==> !Plausible(net, listenfd, rounds[turns]))
      ensures full ==> turns < |rounds| && listenfd in rounds[turns].readable && |trace[turns].live.Keys| == FD_SETSIZE
    {
      hide Tables, Plausible, Echoes;
      turns, full, trace := 0, false, [net];
      while turns < |rounds| && Plausible(net, listenfd, rounds[turns])
        invariant turns <= |rounds| && Valid()
        invariant IsRun(trace, listenfd, rounds[..turns]) && trace[0] == old(net) && trace[turns] == net
      {
        full := Turn(rounds[turns]);
        if full {
          return;
        }
        RunStep(trace, listenfd, rounds, turns, net);
        trace := trace + [net];
        turns := turns + 1;
      }
    }
  }

  /**
   * The whole program: from no client on, for any schedule, every connection there has been
   * got and was sent exactly what its own client said, in order.
   */
  method EchoServer(listenfd: int, rounds: seq<Round>)
    returns (server: Server, turns: nat, full: bool, ghost trace: seq<Net>)
    requires listenfd >= 0
    ensures turns <= |rounds| && IsRun(trace, listenfd, rounds[..turns]) && trace[0] == Net(map[], [])
    ensures !full ==> server.Valid() && trace[turns] == server.net
    ensures forall c :: 0 <= c < |trace[turns].links| ==>
              var heard := Join(Heard(trace, rounds[..turns], c));
              trace[turns].links[c] == Link(heard, heard)
  {
    hide IsRun, Heard, Join, Speech;
    server := new Server(listenfd);
    turns, full, trace := server.Loop(rounds);
    RunIsRun(trace, listenfd, rounds[..turns]);
    forall c | 0 <= c < |trace[turns].links|
      ensures var heard := Join(Heard(trace, rounds[..turns], c));
              trace[turns].links[c] == Link(heard, heard)
    {
      ghost var said := Heard(trace, rounds[..turns], c);
      HeardIsSpeech(trace, rounds[..turns], c);
      RunEchoes(trace, listenfd, rounds[..turns], c, said);
      assert [] + Join(said) == Join(said);
    }
  }

  lemma RunIsRun(trace: seq<Net>, listenfd: int, rounds: seq<Round>)
    requires IsRun(trace, listenfd, rounds)
    ensures |trace| == |rounds| + 1
  {
  }
}
