/**
 * The prefork pool as a state machine: workers and clients take small steps in any order.
 * A worker writes a reply in pieces of any size, a client reads what has arrived in pieces
 * of any size up to what it asks for, and any idle worker may accept the next connection.
 * Both timeouts are steps that may fire whenever what they wait for has not come.
 */
module Pool {
  import opened Octets
  import opened FileProtocol
  import opened FileServer
  import opened FileClient

  /** Workers 0 .. children-1 are forked with buflen + 5; worker `children` is the parent. */
  datatype Config = Config(disk: Disk, b: nat, children: nat) {
    function Chunk(w: nat): nat { if w == children then b else b + 5 }
  }

  datatype Owner = Queued | Held(w: nat) | Released(w: nat) | Expired(w: nat) | Left(w: nat)

  /**
   * One connection.  `rest` is what its worker has still to write, `wire` what is written and
   * not read, `got` what the client has read of the current reply, `history` everything
   * written so far; `origin` is the client's directory at the start.  `eof` is the client's
   * shutdown; it comes early when the client has given up waiting for a reply.
   */
  datatype Conn = Conn(names: seq<Name>, buflen: nat, origin: map<Name, seq<byte>>,
                       owner: Owner, sent: nat, awaiting: bool, pending: bool, eof: bool, gaveUp: bool,
                       rest: seq<byte>, wire: seq<byte>, got: seq<byte>, history: seq<byte>,
                       files: map<Name, seq<byte>>)
  {
    /** Requests a worker has taken, and replies the client has finished. */
    function Taken(): int { sent - if pending then 1 else 0 }
    function Finished(): int { sent - if awaiting then 1 else 0 }

    /** What the client's next read asks for: one octet, then three words, then min(size, buflen). */
    function Wanted(): int {
      if got == [] then 1
      else if |got| < HEADER then 4 - (|got| - 1) % 4
      else if |got| - HEADER < WordValue(got[5..9]) then Min(WordValue(got[5..9]), buflen)
      else 0
    }

    predicate ReplyRead() { |got| >= HEADER && |got| - HEADER >= WordValue(got[5..9]) }
  }

  datatype State = State(conns: seq<Conn>, queue: seq<nat>, workers: seq<Job>)

  datatype Job = Idle | On(c: nat)

  datatype Step =
    | Accept(w: nat)             // worker: accept
    | TakeRequest(w: nat)        // worker: Read a request, open the file
    | Abandon(w: nat)            // worker: the file cannot be opened; back to accept, not closing
    | WriteSome(w: nat, k: nat)  // worker: write some of the reply
    | Release(w: nat)            // worker: empty read, error_msg, close, back to accept
    | TimeOut(w: nat)            // worker: no request for 120 seconds, close, back to accept
    | SendRequest(c: nat)        // client: write the next request
    | ReadSome(c: nat, k: nat)   // client: one read
    | Finish(c: nat)             // client: receive_file returns
    | Hangup(c: nat)             // client: Shutdown after the last name
    | GiveUp(c: nat)             // client: no reply for 10 seconds, Shutdown

  predicate Timer(step: Step) { step.TimeOut? || step.GiveUp? }

  // ---------------------------------------------------------------- steps

  predicate WorkerOn(s: State, w: nat) {
    w < |s.workers| && s.workers[w].On? && s.workers[w].c < |s.conns|
  }

  predicate Enabled(cfg: Config, s: State, step: Step) {
    match step
    case Accept(w) => w < |s.workers| && s.workers[w].Idle? && s.queue != [] && s.queue[0] < |s.conns|
    case TakeRequest(w) =>
      WorkerOn(s, w) && var c := s.conns[s.workers[w].c];
      c.rest == [] && c.pending && 0 < c.sent <= |c.names| && c.names[c.sent - 1] in cfg.disk && cfg.b > 0
    case Abandon(w) =>
      WorkerOn(s, w) && var c := s.conns[s.workers[w].c];
      c.rest == [] && c.pending && 0 < c.sent <= |c.names| && c.names[c.sent - 1] !in cfg.disk
    case WriteSome(w, k) => WorkerOn(s, w) && 0 < k <= |s.conns[s.workers[w].c].rest|
    case Release(w) =>
      WorkerOn(s, w) && var c := s.conns[s.workers[w].c];
      c.rest == [] && !c.pending && c.eof
    case TimeOut(w) =>
      WorkerOn(s, w) && var c := s.conns[s.workers[w].c];
      c.rest == [] && !c.pending && !c.eof
    case SendRequest(i) =>
      i < |s.conns| && var c := s.conns[i];
      !c.awaiting && !c.eof && !c.owner.Expired? && c.sent < |c.names|
    case ReadSome(i, k) =>
      i < |s.conns| && var c := s.conns[i];
      c.awaiting && !c.eof && 0 < k <= c.Wanted() && k <= |c.wire|
    case Finish(i) =>
      i < |s.conns| && var c := s.conns[i];
      c.awaiting && !c.eof && 0 < c.sent <= |c.names| && c.ReplyRead()
    case Hangup(i) =>
      i < |s.conns| && var c := s.conns[i];
      !c.awaiting && !c.eof && c.sent == |c.names|
    case GiveUp(i) =>
      i < |s.conns| && var c := s.conns[i];
      c.awaiting && !c.eof && c.got == [] && c.wire == []
  }

  /** The connection a step touches. */
  function Target(s: State, step: Step): nat {
    match step
    case Accept(w) => if s.queue == [] then 0 else s.queue[0]
    case TakeRequest(w) => if WorkerOn(s, w) then s.workers[w].c else 0
    case Abandon(w) => if WorkerOn(s, w) then s.workers[w].c else 0
    case WriteSome(w, k) => if WorkerOn(s, w) then s.workers[w].c else 0
    case Release(w) => if WorkerOn(s, w) then s.workers[w].c else 0
    case TimeOut(w) => if WorkerOn(s, w) then s.workers[w].c else 0
    case SendRequest(c) => c
    case ReadSome(c, k) => c
    case Finish(c) => c
    case Hangup(c) => c
    case GiveUp(c) => c
  }

  /** What the step does to that connection. */
  function Advance(cfg: Config, c: Conn, step: Step): Conn {
    match step
    case Accept(w) => c.(owner := Held(w))
    case TakeRequest(w) =>
      if 0 < c.sent <= |c.names| && c.names[c.sent - 1] in cfg.disk && cfg.b > 0 then
        c.(pending := false, rest := Response(cfg.disk[c.names[c.sent - 1]], cfg.Chunk(w)))
      else c
    case WriteSome(w, k) =>
      if k > |c.rest| then c
      else c.(rest := c.rest[k..], wire := c.wire + c.rest[..k], history := c.history + c.rest[..k])
    case Release(w) => c.(owner := Released(w), history := c.history + ERR)
    case TimeOut(w) => c.(owner := Expired(w))
    case Abandon(w) => c.(owner := Left(w))
    case SendRequest(_) => c.(sent := c.sent + 1, awaiting := true, pending := true)
    case ReadSome(_, k) => if k <= |c.wire| then c.(wire := c.wire[k..], got := c.got + c.wire[..k]) else c
    case Finish(_) =>
      if 0 < c.sent <= |c.names| && c.ReplyRead() then
        var name := c.names[c.sent - 1];
        c.(awaiting := false, got := [], files := c.files[name := Overlay(Stored(c.files, name), c.got[HEADER..])])
      else c
    case Hangup(_) => c.(eof := true)
    case GiveUp(_) => c.(eof := true, gaveUp := true)
  }

  function Apply(cfg: Config, s: State, step: Step): State
    requires Enabled(cfg, s, step)
  {
    var i := Target(s, step);
    var conns := s.conns[i := Advance(cfg, s.conns[i], step)];
    match step
    case Accept(w) => State(conns, s.queue[1..], s.workers[w := On(i)])
    case Release(w) => State(conns, s.queue, s.workers[w := Idle])
    case TimeOut(w) => State(conns, s.queue, s.workers[w := Idle])
    case Abandon(w) => State(conns, s.queue, s.workers[w := Idle])
    case _ => s.(conns := conns)
  }

  // ---------------------------------------------------------------- one connection

  function BufSize(cfg: Config, c: Conn): (b: nat)
    ensures b >= cfg.b
  {
    if c.owner.Queued? then cfg.b else cfg.Chunk(c.owner.w)
  }

  ghost predicate Settled(cfg: Config) { cfg.b > 0 && CounterFits(cfg.disk) }

  /** The flags agree with each other and with the phase of the exchange. */
  ghost predicate PhaseOk(cfg: Config, c: Conn) {
    && c.buflen > 0 && c.sent <= |c.names| && AllRequestable(cfg.b, c.names)
    && (c.awaiting ==> c.sent > 0)
    && (c.pending ==> c.awaiting)
    && (!c.awaiting || c.pending ==> c.rest == c.wire == c.got == [])
    && (if c.owner.Queued? then c.Taken() == 0 else c.owner.w <= cfg.children)
    && (c.eof ==> if c.gaveUp then c.awaiting && c.got == [] else c.sent == |c.names| && !c.awaiting)
    && (c.gaveUp ==> c.eof)
    && (c.owner.Released? ==> c.eof && !c.pending && c.rest == [])
    && (c.owner.Expired? ==> !c.pending && c.rest == [] && !c.gaveUp)
    && (c.owner.Left? ==> c.pending && c.names[c.sent - 1] !in cfg.disk)
  }

  /** Read, in flight and unwritten octets together are the current reply. */
  ghost predicate ReplyOk(cfg: Config, c: Conn)
    requires Settled(cfg) && PhaseOk(cfg, c)
  {
    c.awaiting && !c.pending ==>
      var name := c.names[c.sent - 1];
      name in cfg.disk && c.got + c.wire + c.rest == Response(cfg.disk[name], BufSize(cfg, c))
  }

  /** Everything written so far and everything stored so far. */
  ghost predicate LedgerOk(cfg: Config, c: Conn)
    requires Settled(cfg) && PhaseOk(cfg, c)
  {
    var b := BufSize(cfg, c);
    var taken, finished := c.names[..c.Taken()], c.names[..c.Finished()];
    && AllServable(cfg.disk, b, taken)
    && (if c.owner.Released? then c.history == Responses(cfg.disk, b, taken) + ERR
        else c.history + c.rest == Responses(cfg.disk, b, taken))
    && AllServable(cfg.disk, b, finished) && AllComplete(cfg.disk, b, finished)
    && c.files == Fetched(c.origin, cfg.disk, b, finished)
  }

  ghost predicate ConnOk(cfg: Config, c: Conn) {
    Settled(cfg) && PhaseOk(cfg, c) && ReplyOk(cfg, c) && LedgerOk(cfg, c)
  }

  lemma {:induction false} ResponsesSnoc(disk: Disk, b: nat, names: seq<Name>, name: Name)
    requires b > 0 && AllServable(disk, b, names) && Servable(disk, b, name)
    ensures AllServable(disk, b, names + [name])
    ensures Responses(disk, b, names + [name]) == Responses(disk, b, names) + Response(disk[name], b)
  {
    hide Response;
    var longer := names + [name];
    if names == [] {
      OneReply(disk, b, [name]);
      assert longer == [name];
    } else {
      ServableAt(disk, b, names, 0);
      assert longer[0] == names[0] && longer[1..] == names[1..] + [name];
      ResponsesSnoc(disk, b, names[1..], name);
      Regroup(Response(disk[names[0]], b), Responses(disk, b, names[1..]), Response(disk[name], b));
    }
  }

  lemma AcceptKeeps(cfg: Config, c: Conn, w: nat)
    requires ConnOk(cfg, c) && c.owner.Queued? && w <= cfg.children
    ensures ConnOk(cfg, Advance(cfg, c, Accept(w)))
  {
    assert c.names[..0] == [];
  }

  /** A name that can be asked for and is on the disk can be served, by any worker. */
  lemma ServableHere(cfg: Config, c: Conn, k: nat)
    requires AllRequestable(cfg.b, c.names) && k < |c.names| && c.names[k] in cfg.disk
    ensures Servable(cfg.disk, cfg.b, c.names[k]) && Servable(cfg.disk, BufSize(cfg, c), c.names[k])
  {
    assert Requestable(cfg.b, c.names[k]);
  }

  lemma TakeRequestKeeps(cfg: Config, c: Conn)
    requires ConnOk(cfg, c) && c.owner.Held? && c.pending && c.rest == [] && c.names[c.sent - 1] in cfg.disk
    ensures ConnOk(cfg, Advance(cfg, c, TakeRequest(c.owner.w)))
  {
    hide Response, Responses, Fetched, AllComplete, AllServable, AllRequestable, Servable;
    var b, k := BufSize(cfg, c), c.sent - 1;
    ServableHere(cfg, c, k);
    OneMore(c.names, k);
    ResponsesSnoc(cfg.disk, b, c.names[..k], c.names[k]);
    assert c.history + [] == c.history;
  }

  lemma AbandonKeeps(cfg: Config, c: Conn, w: nat)
    requires ConnOk(cfg, c) && c.owner == Held(w) && c.pending && c.names[c.sent - 1] !in cfg.disk
    ensures ConnOk(cfg, Advance(cfg, c, Abandon(w)))
  {
    hide Response, Responses, Fetched, AllComplete, AllServable, AllRequestable;
  }

  lemma WriteKeeps(cfg: Config, c: Conn, w: nat, k: nat)
    requires ConnOk(cfg, c) && c.owner == Held(w) && k <= |c.rest|
    ensures ConnOk(cfg, Advance(cfg, c, WriteSome(w, k)))
  {
    hide Response, Responses, Fetched, AllComplete, AllServable, AllRequestable;
    MoveLeft(c.history, c.rest, k);
    MoveLeft(c.got + c.wire, c.rest, k);
    Regroup(c.got, c.wire, c.rest[..k]);
    assert (c.awaiting && !c.pending) || k == 0;
  }

  lemma MoveLeft(a: seq<byte>, b: seq<byte>, k: nat)
    requires k <= |b|
    ensures a + b[..k] + b[k..] == a + b
  {
  }

  lemma ReadKeeps(cfg: Config, c: Conn, i: nat, k: nat)
    requires ConnOk(cfg, c) && !c.eof && k <= |c.wire|
    ensures ConnOk(cfg, Advance(cfg, c, ReadSome(i, k)))
  {
    hide Response, Responses, Fetched, AllComplete, AllServable, AllRequestable;
    MoveLeft(c.got, c.wire, k);
    assert (c.awaiting && !c.pending) || k == 0;
  }

  lemma SendKeeps(cfg: Config, c: Conn, i: nat)
    requires ConnOk(cfg, c) && !c.awaiting && !c.eof && !c.owner.Expired? && c.sent < |c.names|
    ensures ConnOk(cfg, Advance(cfg, c, SendRequest(i)))
  {
    hide Response, Responses, Fetched, AllComplete, AllServable, AllRequestable;
  }

  lemma ReleaseKeeps(cfg: Config, c: Conn, w: nat)
    requires ConnOk(cfg, c) && c.owner == Held(w) && c.eof && !c.pending && c.rest == []
    ensures ConnOk(cfg, Advance(cfg, c, Release(w)))
  {
    hide Response, Responses, Fetched, AllComplete, AllServable, AllRequestable;
    assert c.history + c.rest == c.history;
  }

  lemma TimeOutKeeps(cfg: Config, c: Conn, w: nat)
    requires ConnOk(cfg, c) && c.owner == Held(w) && !c.pending && c.rest == [] && !c.eof
    ensures ConnOk(cfg, Advance(cfg, c, TimeOut(w)))
  {
    hide Response, Responses, Fetched, AllComplete, AllServable, AllRequestable;
  }

  lemma GiveUpKeeps(cfg: Config, c: Conn, i: nat)
    requires ConnOk(cfg, c) && c.awaiting && !c.eof && c.got == [] && c.wire == []
    ensures ConnOk(cfg, Advance(cfg, c, GiveUp(i)))
  {
    hide Response, Responses, Fetched, AllComplete, AllServable, AllRequestable;
    assert c.owner.Expired? ==> |c.got + c.wire + c.rest| >= HEADER;
  }

  lemma HangupKeeps(cfg: Config, c: Conn, i: nat)
    requires ConnOk(cfg, c) && !c.awaiting && !c.eof && c.sent == |c.names|
    ensures ConnOk(cfg, Advance(cfg, c, Hangup(i)))
  {
    hide Response, Responses, Fetched, AllComplete, AllServable, AllRequestable;
  }

  /** As many octets as the size field asks for are the whole reply, and only a complete file has that many. */
  lemma ReadWhole(f: File, b: nat, got: seq<byte>, wire: seq<byte>, rest: seq<byte>)
    requires b > 0 && |f.content| < WORD && got + wire + rest == Response(f, b)
    requires |got| >= HEADER && |got| - HEADER >= WordValue(got[5..9])
    ensures wire == rest == [] && Complete(|f.content|, b) && got == Response(f, b) && got[HEADER..] == f.content
  {
    var n, r := |f.content|, Response(f, b);
    hide Word, WordValue, Complete;
    HeaderFields(f);
    WordRoundTrip(n);
    DeliveryLaw(n, b);
    assert got[5..9] == r[5..9] == Header(f)[5..9];
    assert |got| + |wire| + |rest| == |r| == HEADER + Delivered(n, b);
    assert got + wire + rest == got;
    assert r[HEADER..] == f.content[..Delivered(n, b)];
  }

  lemma SizeRead(f: File, b: nat, got: seq<byte>, later: seq<byte>)
    requires b > 0 && |f.content| < WORD && got + later == Response(f, b) && |got| >= HEADER
    ensures WordValue(got[5..9]) == |f.content|
  {
    hide Word, WordValue;
    HeaderFields(f);
    WordRoundTrip(|f.content|);
    assert got[5..9] == Response(f, b)[5..9] == Header(f)[5..9];
  }

  /**
   * What the client asks for at each point of a reply: one octet, three words, and then the smaller of the
   * file's size and its own buffer at a time, until as many octets have come as the file has.
   */
  lemma WantedLaw(cfg: Config, c: Conn)
    requires ConnOk(cfg, c) && c.awaiting && !c.pending
    ensures c.names[c.sent - 1] in cfg.disk
    ensures var n, k := |cfg.disk[c.names[c.sent - 1]].content|, |c.got|;
            && (k == 0 ==> c.Wanted() == 1)
            && (0 < k < 13 ==> 1 <= c.Wanted() <= 4 && k + c.Wanted() in {5, 9, 13})
            && (13 <= k < 13 + n ==> c.Wanted() == if n < c.buflen then n else c.buflen)
            && (c.ReplyRead() <==> k >= 13 + n)
  {
    hide LedgerOk, Response, WordValue, AllRequestable;
    var f := cfg.disk[c.names[c.sent - 1]];
    if |c.got| >= HEADER {
      Regroup(c.got, c.wire, c.rest);
      SizeRead(f, BufSize(cfg, c), c.got, c.wire + c.rest);
    }
  }

  /** A client that has read its whole reply has read exactly it, and the file came complete. */
  lemma FinishedReply(cfg: Config, c: Conn)
    requires ConnOk(cfg, c) && c.awaiting && c.ReplyRead()
    ensures !c.pending && c.wire == c.rest == []
    ensures var name := c.names[c.sent - 1];
            && name in cfg.disk && Complete(|cfg.disk[name].content|, BufSize(cfg, c))
            && c.got == Response(cfg.disk[name], BufSize(cfg, c)) && c.got[HEADER..] == cfg.disk[name].content
  {
    hide LedgerOk, Response, Complete, WordValue, AllRequestable;
    var name := c.names[c.sent - 1];
    assert !c.pending && name in cfg.disk;
    ReadWhole(cfg.disk[name], BufSize(cfg, c), c.got, c.wire, c.rest);
  }

  lemma FinishLedger(cfg: Config, c: Conn)
    requires ConnOk(cfg, c) && c.awaiting && c.ReplyRead()
    ensures !c.pending && AllServable(cfg.disk, BufSize(cfg, c), c.names[..c.sent])
    ensures var files := c.files[c.names[c.sent - 1] := Overlay(Stored(c.files, c.names[c.sent - 1]), c.got[HEADER..])];
            && AllComplete(cfg.disk, BufSize(cfg, c), c.names[..c.sent])
            && files == Fetched(c.origin, cfg.disk, BufSize(cfg, c), c.names[..c.sent])
  {
    FinishedReply(cfg, c);
    var b, done, taken := BufSize(cfg, c), c.sent - 1, c.names[..c.sent];
    var f := cfg.disk[taken[done]];
    assert taken[..done] == c.names[..done] && taken[..c.sent] == taken;
    DeliveryLaw(|f.content|, b);
    assert f.content[..|f.content|] == f.content;
    hide Response, Responses, Fetched, AllServable, AllRequestable, AllComplete, Overlay, Stored, Delivered, Complete,
         WordValue;
    assert Progressed(c.origin, c.files, cfg.disk, b, taken, done);
    TurnDone(c.origin, c.files, cfg.disk, b, taken, done);
  }

  lemma FinishKeeps(cfg: Config, c: Conn, i: nat)
    requires ConnOk(cfg, c) && c.awaiting && !c.eof && c.ReplyRead()
    ensures ConnOk(cfg, Advance(cfg, c, Finish(i)))
  {
    hide Response, Responses, Fetched, AllServable, AllRequestable, AllComplete, Overlay, Stored, WordValue;
    FinishedReply(cfg, c);
    var d := Advance(cfg, c, Finish(i));
    assert PhaseOk(cfg, d) && ReplyOk(cfg, d);
    assert d.Taken() == c.Taken() == d.Finished() == c.sent && d.history == c.history && d.rest == c.rest;
    assert LedgerOk(cfg, d) by {
      FinishLedger(cfg, c);
    }
  }

  // ---------------------------------------------------------------- the whole pool

  /** Jobs, owners and the accept queue are three views of one assignment of connections. */
  ghost predicate AssignmentOk(cfg: Config, s: State) {
    && |s.workers| == cfg.children + 1
    && (forall w :: 0 <= w < |s.workers| && s.workers[w].On? ==>
          s.workers[w].c < |s.conns| && s.conns[s.workers[w].c].owner == Held(w))
    && (forall c :: 0 <= c < |s.conns| && s.conns[c].owner.Held? ==>
          s.conns[c].owner.w < |s.workers| && s.workers[s.conns[c].owner.w] == On(c))
    && (forall q :: 0 <= q < |s.queue| ==> s.queue[q] < |s.conns| && s.conns[s.queue[q]].owner.Queued?)
    && (forall c :: 0 <= c < |s.conns| && s.conns[c].owner.Queued? ==> c in s.queue)
    && (forall p, q :: 0 <= p < q < |s.queue| ==> s.queue[p] != s.queue[q])
  }

  ghost predicate Inv(cfg: Config, s: State) {
    AssignmentOk(cfg, s) && forall c :: 0 <= c < |s.conns| ==> ConnOk(cfg, s.conns[c])
  }

  lemma TargetKeeps(cfg: Config, s: State, step: Step)
    requires Inv(cfg, s) && Enabled(cfg, s, step)
    ensures Target(s, step) < |s.conns|
    ensures ConnOk(cfg, Advance(cfg, s.conns[Target(s, step)], step))
  {
    hide ConnOk, Advance;
    var i := Target(s, step);
    var c := s.conns[i];
    assert ConnOk(cfg, c);
    match step
    case Accept(w) => AcceptKeeps(cfg, c, w);
    case TakeRequest(w) => TakeRequestKeeps(cfg, c);
    case Abandon(w) => AbandonKeeps(cfg, c, w);
    case WriteSome(w, k) => WriteKeeps(cfg, c, w, k);
    case Release(w) => ReleaseKeeps(cfg, c, w);
    case SendRequest(_) => SendKeeps(cfg, c, i);
    case ReadSome(_, k) => ReadKeeps(cfg, c, i, k);
    case Finish(_) => FinishKeeps(cfg, c, i);
    case Hangup(_) => HangupKeeps(cfg, c, i);
    case TimeOut(w) => TimeOutKeeps(cfg, c, w);
    case GiveUp(_) => GiveUpKeeps(cfg, c, i);
  }

  lemma AcceptAssigns(cfg: Config, s: State, t: State, w: nat)
    requires AssignmentOk(cfg, s) && w < |s.workers| && s.workers[w].Idle? && s.queue != []
    requires |t.conns| == |s.conns| && t.workers == s.workers[w := On(s.queue[0])] && t.queue == s.queue[1..]
    requires forall c :: 0 <= c < |s.conns| ==>
               t.conns[c].owner == if c == s.queue[0] then Held(w) else s.conns[c].owner
    ensures AssignmentOk(cfg, t)
  {
    assert forall q :: 0 <= q < |t.queue| ==> t.queue[q] == s.queue[q + 1];
    forall c | 0 <= c < |t.conns| && t.conns[c].owner.Queued?
      ensures c in t.queue
    {
      var q :| 0 <= q < |s.queue| && s.queue[q] == c;
      assert t.queue[q - 1] == c;
    }
  }

  lemma ReleaseUnassigns(cfg: Config, s: State, t: State, w: nat, o: Owner)
    requires AssignmentOk(cfg, s) && w < |s.workers| && s.workers[w].On? && !o.Queued? && !o.Held?
    requires |t.conns| == |s.conns| && t.workers == s.workers[w := Idle] && t.queue == s.queue
    requires forall c :: 0 <= c < |s.conns| ==> t.conns[c].owner == if c == s.workers[w].c then o else s.conns[c].owner
    ensures AssignmentOk(cfg, t)
  {
  }

  lemma AdvanceOwner(cfg: Config, c: Conn, step: Step)
    ensures Advance(cfg, c, step).owner ==
            match step
            case Accept(w) => Held(w)
            case Release(w) => Released(w)
            case TimeOut(w) => Expired(w)
            case Abandon(w) => Left(w)
            case _ => c.owner
  {
    hide Response;
  }

  lemma AssignmentKept(cfg: Config, s: State, step: Step)
    requires AssignmentOk(cfg, s) && Enabled(cfg, s, step)
    ensures AssignmentOk(cfg, Apply(cfg, s, step))
  {
    hide AssignmentOk, Advance;
    var t := Apply(cfg, s, step);
    AdvanceOwner(cfg, s.conns[Target(s, step)], step);
    match step
    case Accept(w) => AcceptAssigns(cfg, s, t, w);
    case Release(w) => ReleaseUnassigns(cfg, s, t, w, Released(w));
    case TimeOut(w) => ReleaseUnassigns(cfg, s, t, w, Expired(w));
    case Abandon(w) => ReleaseUnassigns(cfg, s, t, w, Left(w));
    case _ =>
      assert forall c :: 0 <= c < |s.conns| ==> t.conns[c].owner == s.conns[c].owner;
      SameOwners(cfg, s, t);
  }

  lemma SameOwners(cfg: Config, s: State, t: State)
    requires AssignmentOk(cfg, s) && t.workers == s.workers && t.queue == s.queue && |t.conns| == |s.conns|
    requires forall c :: 0 <= c < |s.conns| ==> t.conns[c].owner == s.conns[c].owner
    ensures AssignmentOk(cfg, t)
  {
  }

  /** Every step, by any worker or client, keeps the invariant. */
  lemma StepKeeps(cfg: Config, s: State, step: Step)
    requires Inv(cfg, s) && Enabled(cfg, s, step)
    ensures Inv(cfg, Apply(cfg, s, step))
  {
    hide ConnOk, Advance, AssignmentOk, Enabled;
    TargetKeeps(cfg, s, step);
    AssignmentKept(cfg, s, step);
  }

  /** A run: each step enabled where it is taken. */
  ghost predicate Runs(cfg: Config, s: State, steps: seq<Step>, t: State)
    decreases |steps|
  {
    if steps == [] then s == t
    else Enabled(cfg, s, steps[0]) && Runs(cfg, Apply(cfg, s, steps[0]), steps[1..], t)
  }

  lemma {:induction false} RunKeeps(cfg: Config, s: State, steps: seq<Step>, t: State)
    requires Inv(cfg, s) && Runs(cfg, s, steps, t)
    ensures Inv(cfg, t)
    decreases |steps|
  {
    if steps != [] {
      StepKeeps(cfg, s, steps[0]);
      RunKeeps(cfg, Apply(cfg, s, steps[0]), steps[1..], t);
    }
  }

  /** A client that has connected: nothing sent, its arguments names it can ask for. */
  ghost predicate Fresh(cfg: Config, c: Conn) {
    && c.owner.Queued? && c.sent == 0 && !c.awaiting && !c.pending && !c.eof && !c.gaveUp
    && c.rest == c.wire == c.got == c.history == [] && c.files == c.origin
    && c.buflen > 0 && AllRequestable(cfg.b, c.names)
  }

  ghost predicate Initial(cfg: Config, s: State) {
    && Settled(cfg) && |s.workers| == cfg.children + 1
    && (forall w :: 0 <= w < |s.workers| ==> s.workers[w] == Idle)
    && s.queue == seq(|s.conns|, i => i)
    && forall c :: 0 <= c < |s.conns| ==> Fresh(cfg, s.conns[c])
  }

  lemma InitialOk(cfg: Config, s: State)
    requires Initial(cfg, s)
    ensures Inv(cfg, s)
  {
    forall c | 0 <= c < |s.conns|
      ensures ConnOk(cfg, s.conns[c]) && c in s.queue
    {
      assert Fresh(cfg, s.conns[c]) && s.queue[c] == c;
      assert s.conns[c].names[..0] == [];
    }
  }

  // ---------------------------------------------------------------- safety of every run

  /** What one connection keeps while it lives: its client, its worker, and all it was ever sent. */
  predicate Continues(c: Conn, d: Conn) {
    && d.names == c.names && d.buflen == c.buflen && d.origin == c.origin
    && (!c.owner.Queued? ==> !d.owner.Queued? && d.owner.w == c.owner.w)
    && c.history <= d.history
  }

  /** Connections wait in the order in which they came. */
  ghost predicate InOrder(s: State) {
    |s.queue| <= |s.conns| && forall q :: 0 <= q < |s.queue| ==> s.queue[q] == |s.conns| - |s.queue| + q
  }

  lemma {:induction false} OrderKept(cfg: Config, s: State, steps: seq<Step>, t: State)
    requires InOrder(s) && Runs(cfg, s, steps, t)
    ensures InOrder(t) && |t.conns| == |s.conns|
    decreases |steps|
  {
    if steps != [] {
      var u := Apply(cfg, s, steps[0]);
      assert |u.conns| == |s.conns| && (u.queue == s.queue || u.queue == s.queue[1..]);
      OrderKept(cfg, u, steps[1..], t);
    }
  }

  /** Whatever the interleaving, connections are accepted in the order in which they came. */
  lemma FirstComeFirstServed(cfg: Config, s: State, steps: seq<Step>, t: State)
    requires Initial(cfg, s) && Runs(cfg, s, steps, t)
    ensures |t.conns| == |s.conns|
    ensures forall i, j :: 0 <= i < j < |t.conns| && t.conns[i].owner.Queued? ==> t.conns[j].owner.Queued?
  {
    hide ConnOk, Runs;
    OrderKept(cfg, s, steps, t);
    InitialOk(cfg, s);
    RunKeeps(cfg, s, steps, t);
    forall i, j | 0 <= i < j < |t.conns| && t.conns[i].owner.Queued?
      ensures t.conns[j].owner.Queued?
    {
      var q :| 0 <= q < |t.queue| && t.queue[q] == i;
      assert t.queue[q + (j - i)] == j;
    }
  }

  lemma AdvanceContinues(cfg: Config, s: State, step: Step)
    requires AssignmentOk(cfg, s) && Enabled(cfg, s, step) && Target(s, step) < |s.conns|
    ensures Continues(s.conns[Target(s, step)], Advance(cfg, s.conns[Target(s, step)], step))
  {
  }

  lemma StepContinues(cfg: Config, s: State, step: Step)
    requires Inv(cfg, s) && Enabled(cfg, s, step)
    ensures var t := Apply(cfg, s, step);
            |t.conns| == |s.conns| && forall c :: 0 <= c < |s.conns| ==> Continues(s.conns[c], t.conns[c])
  {
    TargetKeeps(cfg, s, step);
    AdvanceContinues(cfg, s, step);
    forall c | 0 <= c < |s.conns|
      ensures Continues(s.conns[c], Apply(cfg, s, step).conns[c])
    {
      assert c != Target(s, step) ==> Apply(cfg, s, step).conns[c] == s.conns[c];
    }
  }

  lemma {:induction false} RunContinues(cfg: Config, s: State, steps: seq<Step>, t: State)
    requires Inv(cfg, s) && Runs(cfg, s, steps, t)
    ensures |t.conns| == |s.conns| && forall c :: 0 <= c < |s.conns| ==> Continues(s.conns[c], t.conns[c])
    decreases |steps|
  {
    if steps != [] {
      var u := Apply(cfg, s, steps[0]);
      StepKeeps(cfg, s, steps[0]);
      StepContinues(cfg, s, steps[0]);
      RunContinues(cfg, u, steps[1..], t);
      forall c | 0 <= c < |s.conns|
        ensures Continues(s.conns[c], t.conns[c])
      {
        assert Continues(s.conns[c], u.conns[c]) && Continues(u.conns[c], t.conns[c]);
      }
    }
  }

  /**
   * What a connection has been sent: its worker's replies to the requests it has taken, the last
   * perhaps not whole, and -ERR once the worker has closed it after the client's shutdown;
   * unless its client gave up it had then asked for all its names.
   */
  ghost predicate Sent(disk: Disk, b: nat, c: Conn)
    requires b > 0
  {
    && 0 <= c.Taken() <= |c.names| && AllServable(disk, b, c.names[..c.Taken()])
    && var replies := Responses(disk, b, c.names[..c.Taken()]);
       if c.owner.Released? then
         c.history == replies + [45, 69, 82, 82, 13, 10, 0] && (c.gaveUp || c.Taken() == |c.names|)
       else c.history <= replies
  }

  /** What its client has stored: the files of the finished replies, each of them complete. */
  ghost predicate Fetching(disk: Disk, b: nat, c: Conn, origin: map<Name, seq<byte>>)
    requires b > 0
  {
    && 0 <= c.Finished() <= c.Taken() <= |c.names| && AllServable(disk, b, c.names[..c.Finished()])
    && AllComplete(disk, b, c.names[..c.Finished()])
    && c.files == Fetched(origin, disk, b, c.names[..c.Finished()])
  }

  /**
   * Pool safety: in every state of every run, whatever the interleaving, a connection has one
   * worker, what it has been sent is a prefix of that worker's replies to that client alone
   * (all it asked for and the closing -ERR once it is released), and the client has stored exactly
   * the finished transfers, each of a complete file.
   */
  lemma PoolSafety(cfg: Config, s: State, steps: seq<Step>, t: State, i: nat)
    requires Initial(cfg, s) && Runs(cfg, s, steps, t) && i < |s.conns|
    ensures |t.conns| == |s.conns| && t.conns[i].names == s.conns[i].names
    ensures var c := t.conns[i];
            if c.owner.Queued? then c.history == [] && c.files == s.conns[i].files
            else
              && c.owner.w <= cfg.children
              && (c.owner.w < cfg.children ==>
                    Sent(cfg.disk, cfg.b + 5, c) && Fetching(cfg.disk, cfg.b + 5, c, s.conns[i].files))
              && (c.owner.w == cfg.children ==>
                    Sent(cfg.disk, cfg.b, c) && Fetching(cfg.disk, cfg.b, c, s.conns[i].files))
  {
    Reached(cfg, s, steps, t, i);
    hide Inv, Runs, Initial, AllRequestable, ConnOk;
    Kept(cfg, t.conns[i]);
  }

  lemma Kept(cfg: Config, c: Conn)
    requires ConnOk(cfg, c)
    ensures Sent(cfg.disk, BufSize(cfg, c), c) && Fetching(cfg.disk, BufSize(cfg, c), c, c.origin)
    ensures c.owner.Queued? ==> c.history == [] && c.files == c.origin
    ensures !c.owner.Queued? ==> c.owner.w <= cfg.children
  {
    hide Response, AllServable, AllComplete, AllRequestable;
    assert c.owner.Queued? ==> c.Taken() == c.Finished() == 0;
    assert c.names[..0] == [];
  }

  /** What a run has not changed about one connection. */
  lemma Reached(cfg: Config, s: State, steps: seq<Step>, t: State, i: nat)
    requires Initial(cfg, s) && Runs(cfg, s, steps, t) && i < |s.conns|
    ensures Inv(cfg, t) && |t.conns| == |s.conns| && ConnOk(cfg, t.conns[i])
    ensures t.conns[i].names == s.conns[i].names && t.conns[i].origin == s.conns[i].files
  {
    hide ConnOk, AssignmentOk, Runs;
    InitialOk(cfg, s);
    RunKeeps(cfg, s, steps, t);
    RunContinues(cfg, s, steps, t);
    assert Fresh(cfg, s.conns[i]) && Continues(s.conns[i], t.conns[i]);
  }

  // ---------------------------------------------------------------- does the worker matter?

  /** Parent and children send the same reply exactly when both lose nothing or lose equally. */
  lemma SameReply(f: File, b: nat)
    requires b >= HEADER
    ensures var n := |f.content|;
            Response(f, b) == Response(f, b + 5) <==>
              (Complete(n, b) && Complete(n, b + 5))
              || (!Complete(n, b) && !Complete(n, b + 5) && (n - 1) % b == (n - 1) % (b + 5))
  {
    var n := |f.content|;
    LossLaw(n, b);
    LossLaw(n, b + 5);
    assert |Response(f, b)| == HEADER + Delivered(n, b) && |Response(f, b + 5)| == HEADER + Delivered(n, b + 5);
  }

  lemma {:induction false} SameResponses(disk: Disk, b: nat, b': nat, names: seq<Name>)
    requires 0 < b <= b' && AllServable(disk, b, names) && AllComplete(disk, b, names) && AllComplete(disk, b', names)
    ensures AllServable(disk, b', names) && Responses(disk, b, names) == Responses(disk, b', names)
  {
    ServableMore(disk, b, b', names, |names|);
    assert names[..|names|] == names;
    if names != [] {
      var n := |disk[names[0]].content|;
      assert Servable(disk, b, names[0]);
      DeliveryLaw(n, b);
      DeliveryLaw(n, b');
      assert forall k :: 0 <= k < |names| - 1 ==> names[1..][k] == names[k + 1];
      SameResponses(disk, b, b', names[1..]);
    }
  }

  lemma {:induction false} SameFetched(files: map<Name, seq<byte>>, disk: Disk, b: nat, b': nat, names: seq<Name>)
    requires 0 < b <= b' && AllServable(disk, b, names) && AllComplete(disk, b, names) && AllComplete(disk, b', names)
    ensures AllServable(disk, b', names) && Fetched(files, disk, b, names) == Fetched(files, disk, b', names)
    decreases |names|
  {
    ServableMore(disk, b, b', names, |names|);
    assert names[..|names|] == names;
    if names != [] {
      var last, before := names[|names| - 1], names[..|names| - 1];
      assert names == before + [last];
      FetchedLast(files, disk, b, names);
      FetchedLast(files, disk, b', names);
      SameFetched(files, disk, b, b', before);
    }
  }

  // ---------------------------------------------------------------- liveness

  function Weight(cfg: Config, names: seq<Name>): nat {
    if names == [] then 0
    else 4 + 2 * Longest(cfg, names[0]) + Weight(cfg, names[1..])
  }

  function Longest(cfg: Config, name: Name): nat {
    HEADER + if name in cfg.disk then |cfg.disk[name].content| else 0
  }

  /** Steps a connection can still take part in, counting each octet once for writing and once for reading. */
  function Potential(cfg: Config, c: Conn): nat {
    (if c.sent <= |c.names| then Weight(cfg, c.names[c.sent..]) else 0)
    + (if c.pending && 0 < c.sent <= |c.names| then 1 + 2 * Longest(cfg, c.names[c.sent - 1]) else 0)
    + (if c.awaiting then 1 else 0) + 2 * |c.rest| + |c.wire| + (if c.eof then 0 else 1)
    + match c.owner case Queued => 2 case Held(_) => 1 case Released(_) => 0 case Expired(_) => 0 case Left(_) => 0
  }

  function TotalPotential(cfg: Config, conns: seq<Conn>): nat {
    if conns == [] then 0 else Potential(cfg, conns[0]) + TotalPotential(cfg, conns[1..])
  }

  lemma PotentialFalls(cfg: Config, s: State, step: Step)
    requires Inv(cfg, s) && Enabled(cfg, s, step)
    ensures Target(s, step) < |s.conns|
    ensures var c := s.conns[Target(s, step)]; Potential(cfg, Advance(cfg, c, step)) < Potential(cfg, c)
  {
    hide ConnOk, Potential, Advance;
    var c := s.conns[Target(s, step)];
    assert ConnOk(cfg, c);
    match step
    case SendRequest(i) => SendSpends(cfg, c, i);
    case TakeRequest(w) => TakeSpends(cfg, c, w);
    case WriteSome(_, _) => MoveSpends(cfg, c, step);
    case ReadSome(_, _) => MoveSpends(cfg, c, step);
    case Accept(_) => OwnerSpends(cfg, c, step);
    case Release(_) => OwnerSpends(cfg, c, step);
    case TimeOut(_) => OwnerSpends(cfg, c, step);
    case Abandon(_) => OwnerSpends(cfg, c, step);
    case _ => ClientSpends(cfg, c, step);
  }

  lemma OwnerSpends(cfg: Config, c: Conn, step: Step)
    requires step.Accept? || step.Release? || step.TimeOut? || step.Abandon?
    requires if step.Accept? then c.owner.Queued? else c.owner.Held?
    ensures Potential(cfg, Advance(cfg, c, step)) < Potential(cfg, c)
  {
    hide Weight, Longest, Response;
  }

  lemma MoveSpends(cfg: Config, c: Conn, step: Step)
    requires step.WriteSome? || step.ReadSome?
    requires 0 < step.k <= if step.WriteSome? then |c.rest| else |c.wire|
    ensures Potential(cfg, Advance(cfg, c, step)) < Potential(cfg, c)
  {
    hide Weight, Longest, Response;
  }

  lemma ClientSpends(cfg: Config, c: Conn, step: Step)
    requires step.Finish? || step.Hangup? || step.GiveUp?
    requires step.Finish? ==> c.awaiting && 0 < c.sent <= |c.names| && c.ReplyRead()
    requires !c.eof
    ensures Potential(cfg, Advance(cfg, c, step)) < Potential(cfg, c)
  {
    hide Weight, Longest, Response, WordValue, Overlay, Stored;
  }

  lemma TakeSpends(cfg: Config, c: Conn, w: nat)
    requires ConnOk(cfg, c) && c.pending && c.rest == [] && c.names[c.sent - 1] in cfg.disk
    ensures Potential(cfg, Advance(cfg, c, TakeRequest(w))) < Potential(cfg, c)
  {
    assert |Advance(cfg, c, TakeRequest(w)).rest| <= Longest(cfg, c.names[c.sent - 1]);
  }

  lemma SendSpends(cfg: Config, c: Conn, i: nat)
    requires ConnOk(cfg, c) && !c.awaiting && c.sent < |c.names|
    ensures Potential(cfg, Advance(cfg, c, SendRequest(i))) < Potential(cfg, c)
  {
    assert c.names[c.sent..][1..] == c.names[c.sent + 1..];
    hide Longest, Response, ReplyOk, LedgerOk, AllRequestable;
  }

  lemma {:induction false} TotalAfter(cfg: Config, conns: seq<Conn>, i: nat, c: Conn)
    requires i < |conns|
    ensures TotalPotential(cfg, conns[i := c]) ==
            TotalPotential(cfg, conns) - Potential(cfg, conns[i]) + Potential(cfg, c)
    decreases i
  {
    if i == 0 {
      assert conns[0 := c][1..] == conns[1..];
    } else {
      assert conns[i := c][1..] == conns[1..][i - 1 := c];
      TotalAfter(cfg, conns[1..], i - 1, c);
    }
  }

  /** No run is longer than the potential it starts with: every schedule comes to rest. */
  lemma {:induction false} RunsEnd(cfg: Config, s: State, steps: seq<Step>, t: State)
    requires Inv(cfg, s) && Runs(cfg, s, steps, t)
    ensures |steps| <= TotalPotential(cfg, s.conns)
    decreases |steps|
  {
    if steps != [] {
      var i := Target(s, steps[0]);
      StepKeeps(cfg, s, steps[0]);
      PotentialFalls(cfg, s, steps[0]);
      TotalAfter(cfg, s.conns, i, Advance(cfg, s.conns[i], steps[0]));
      RunsEnd(cfg, Apply(cfg, s, steps[0]), steps[1..], t);
    }
  }

  /** Nobody can move, or only because time passes. */
  ghost predicate AtRest(cfg: Config, s: State) { forall step :: !Timer(step) ==> !Enabled(cfg, s, step) }

  /** Nobody can move, however much time passes. */
  ghost predicate Final(cfg: Config, s: State) { forall step :: !Enabled(cfg, s, step) }

  /** No timeout fires in the run, or has fired on the connections. */
  ghost predicate Punctual(steps: seq<Step>) { forall step :: step in steps ==> !Timer(step) }

  predicate Patient(c: Conn) { !c.gaveUp && !c.owner.Expired? }

  ghost predicate AllPatient(conns: seq<Conn>) { forall c :: 0 <= c < |conns| ==> Patient(conns[c]) }

  lemma PunctualStep(cfg: Config, s: State, step: Step)
    requires Inv(cfg, s) && Enabled(cfg, s, step) && !Timer(step) && AllPatient(s.conns)
    ensures Inv(cfg, Apply(cfg, s, step)) && AllPatient(Apply(cfg, s, step).conns)
  {
    hide ConnOk, Inv, Advance, Patient, Enabled;
    StepKeeps(cfg, s, step);
    TargetKeeps(cfg, s, step);
    PatientStep(cfg, s.conns[Target(s, step)], step);
  }

  lemma {:induction false} PunctualRun(cfg: Config, s: State, steps: seq<Step>, t: State)
    requires Inv(cfg, s) && Runs(cfg, s, steps, t) && Punctual(steps) && AllPatient(s.conns)
    ensures AllPatient(t.conns)
    decreases |steps|
  {
    if steps != [] {
      hide ConnOk, Inv, Advance, Patient, Enabled, Apply, AllPatient;
      PunctualStep(cfg, s, steps[0]);
      PunctualRun(cfg, Apply(cfg, s, steps[0]), steps[1..], t);
    }
  }

  lemma PatientStep(cfg: Config, c: Conn, step: Step)
    requires Patient(c) && !Timer(step)
    ensures Patient(Advance(cfg, c, step))
  {
  }

  predicate Done(c: Conn) { c.owner.Released? && c.eof && !c.gaveUp }

  /** A held connection whose worker cannot move waits for its client to read or ask. */
  lemma WorkerAtRest(cfg: Config, s: State, i: nat)
    requires Inv(cfg, s) && AtRest(cfg, s) && i < |s.conns| && s.conns[i].owner.Held?
    ensures var c := s.conns[i]; !c.pending && !c.eof && c.rest == []
  {
    hide Response, Responses, Fetched, AllServable, AllRequestable, AllComplete;
    var c := s.conns[i];
    var w := c.owner.w;
    assert ConnOk(cfg, c) && s.workers[w] == On(i);
    assert !Enabled(cfg, s, WriteSome(w, 1)) && !Enabled(cfg, s, TakeRequest(w));
    assert !Enabled(cfg, s, Release(w)) && !Enabled(cfg, s, Abandon(w));
  }

  /** A held connection that cannot move is its client waiting for octets an incomplete transfer will not bring. */
  lemma HeldAtRest(cfg: Config, s: State, i: nat)
    requires Inv(cfg, s) && AtRest(cfg, s) && i < |s.conns| && s.conns[i].owner.Held?
    ensures var c := s.conns[i];
            c.sent > 0 && c.names[c.sent - 1] in cfg.disk
            && !Complete(|cfg.disk[c.names[c.sent - 1]].content|, BufSize(cfg, c))
  {
    hide Response, Responses, Fetched, AllServable, AllRequestable, AllComplete, Complete, BufSize, WordValue;
    var c := s.conns[i];
    WorkerAtRest(cfg, s, i);
    assert ConnOk(cfg, c);
    assert !Enabled(cfg, s, SendRequest(i)) && !Enabled(cfg, s, Hangup(i));
    assert !Enabled(cfg, s, Finish(i)) && !Enabled(cfg, s, ReadSome(i, 1));
    WantsMore(cfg, c);
    NothingMissing(cfg, c);
  }

  lemma WantsMore(cfg: Config, c: Conn)
    requires ConnOk(cfg, c) && !c.ReplyRead()
    ensures c.Wanted() > 0
  {
  }

  lemma NothingMissing(cfg: Config, c: Conn)
    requires ConnOk(cfg, c) && c.awaiting && !c.pending && c.rest == c.wire == [] && !c.ReplyRead()
    ensures !Complete(|cfg.disk[c.names[c.sent - 1]].content|, BufSize(cfg, c))
  {
    var b, f := BufSize(cfg, c), cfg.disk[c.names[c.sent - 1]];
    hide Responses, Fetched, Word;
    assert c.got + [] + [] == c.got == Response(f, b);
    HeaderFields(f);
    WordRoundTrip(|f.content|);
    DeliveryLaw(|f.content|, b);
    assert c.got[5..9] == Header(f)[5..9];
  }

  /**
   * How every run in which no timeout fires ends.  At rest, a connection that was accepted is done exactly when all its
   * client's files are complete for the worker that has it, and connections are left in the
   * queue only when every worker is held up by an incomplete file.
   */
  lemma PoolOutcome(cfg: Config, s: State, steps: seq<Step>, t: State)
    requires Initial(cfg, s) && Runs(cfg, s, steps, t) && Punctual(steps) && AtRest(cfg, t)
    ensures |steps| <= TotalPotential(cfg, s.conns) && |t.conns| == |s.conns|
    ensures forall i :: 0 <= i < |t.conns| && !t.conns[i].owner.Queued? ==>
              var c := t.conns[i];
              && c.owner.w <= cfg.children
              && (Done(c) <==>
                    AllComplete(cfg.disk, if c.owner.w < cfg.children then cfg.b + 5 else cfg.b, c.names))
    ensures (exists i :: 0 <= i < |t.conns| && t.conns[i].owner.Queued?) ==>
              AllWorkersHeldUp(cfg, t)
  {
    hide ConnOk, AssignmentOk, Enabled, AllComplete, BufSize, TotalPotential, Runs;
    InitialOk(cfg, s);
    RunsEnd(cfg, s, steps, t);
    RunKeeps(cfg, s, steps, t);
    RunContinues(cfg, s, steps, t);
    AllFresh(cfg, s);
    PunctualRun(cfg, s, steps, t);
    forall i | 0 <= i < |t.conns| && !t.conns[i].owner.Queued?
      ensures t.conns[i].owner.w <= cfg.children
      ensures Done(t.conns[i]) <==>
                AllComplete(cfg.disk, if t.conns[i].owner.w < cfg.children then cfg.b + 5 else cfg.b, t.conns[i].names)
    {
      Lengths(cfg, t.conns[i]);
      RestingConn(cfg, t, i);
    }
    forall i | 0 <= i < |t.conns| && t.conns[i].owner.Queued?
      ensures AllWorkersHeldUp(cfg, t)
    {
      RestingQueue(cfg, t, i);
    }
  }

  /** Children take buflen + 5, the parent buflen. */
  lemma Lengths(cfg: Config, c: Conn)
    requires ConnOk(cfg, c) && !c.owner.Queued?
    ensures c.owner.w <= cfg.children
    ensures BufSize(cfg, c) == if c.owner.w < cfg.children then cfg.b + 5 else cfg.b
  {
    hide ReplyOk, LedgerOk;
  }

  lemma AllFresh(cfg: Config, s: State)
    requires Initial(cfg, s)
    ensures AllPatient(s.conns)
  {
    assert forall c :: 0 <= c < |s.conns| ==> Fresh(cfg, s.conns[c]);
  }

  ghost predicate AllWorkersHeldUp(cfg: Config, t: State) {
    forall w :: 0 <= w <= cfg.children ==>
      w < |t.workers| && t.workers[w].On? && t.workers[w].c < |t.conns| && !Done(t.conns[t.workers[w].c])
  }

  lemma RestingQueue(cfg: Config, t: State, i: nat)
    requires Inv(cfg, t) && AtRest(cfg, t) && i < |t.conns| && t.conns[i].owner.Queued?
    ensures AllWorkersHeldUp(cfg, t)
  {
    hide ConnOk;
    assert i in t.queue;
    forall w | 0 <= w <= cfg.children
      ensures t.workers[w].On?
    {
      assert !Enabled(cfg, t, Accept(w));
    }
  }

  lemma SomebodyHeldUp(cfg: Config, t: State)
    requires AssignmentOk(cfg, t) && AllWorkersHeldUp(cfg, t)
    ensures exists c :: 0 <= c < |t.conns| && !t.conns[c].owner.Queued? && !Done(t.conns[c])
  {
    var c := t.workers[0].c;
    assert !t.conns[c].owner.Queued? && !Done(t.conns[c]);
  }

  lemma RestingConn(cfg: Config, t: State, i: nat)
    requires Inv(cfg, t) && AtRest(cfg, t) && i < |t.conns| && !t.conns[i].owner.Queued? && Patient(t.conns[i])
    ensures var c := t.conns[i]; Done(c) <==> AllComplete(cfg.disk, BufSize(cfg, c), c.names)
  {
    hide Response, Responses, Fetched, AllServable, AllRequestable, BufSize, Complete;
    var c := t.conns[i];
    assert ConnOk(cfg, c);
    if c.owner.Held? {
      HeldAtRest(cfg, t, i);
    } else {
      assert c.names[..|c.names|] == c.names;
    }
  }

  /** The conversation the single-process server has with a client that asks for names and shuts down. */
  lemma SingleProcess(disk: Disk, b: nat, names: seq<Name>, buf: seq<byte>)
    requires b > 0 && |buf| == b && AllServable(disk, b, names)
    ensures Fits(Requests(names), b)
    ensures Serve(disk, b, true, Requests(names), buf) == Transcript(Responses(disk, b, names), Rejected)
  {
    if names == [] {
      WipedEmptyRead(buf);
      hide ParseRequest, Filled;
      assert Requests(names) == [Segment([])];
    } else {
      SessionTranscript(disk, b, true, names, buf);
    }
  }

  /**
   * Pool non-interference: when every file is complete for both chunk sizes, every run that
   * comes to rest without a timeout has served every client, each with the octets of the
   * single-process server's conversation and the stored files it would give, whichever workers
   * took the connections.
   */
  lemma PoolDelivers(cfg: Config, s: State, steps: seq<Step>, t: State, i: nat, buf: seq<byte>)
    requires Initial(cfg, s) && Runs(cfg, s, steps, t) && Punctual(steps) && AtRest(cfg, t) && i < |s.conns| &&
             |buf| == cfg.b
    requires forall c :: 0 <= c < |s.conns| ==>
               AllComplete(cfg.disk, cfg.b, s.conns[c].names) && AllComplete(cfg.disk, cfg.b + 5, s.conns[c].names)
    ensures |t.conns| == |s.conns| && AllServable(cfg.disk, cfg.b, s.conns[i].names) && Done(t.conns[i])
    ensures Fits(Requests(s.conns[i].names), cfg.b)
    ensures t.conns[i].history == Serve(cfg.disk, cfg.b, true, Requests(s.conns[i].names), buf).replies + ERR
    ensures t.conns[i].files == Fetched(s.conns[i].files, cfg.disk, cfg.b, s.conns[i].names)
  {
    hide ConnOk, AllComplete, Enabled, Runs, TotalPotential, Responses, Fetched, AllServable, AllRequestable, Serve;
    PoolOutcome(cfg, s, steps, t);
    forall c | 0 <= c < |s.conns|
      ensures t.conns[c].names == s.conns[c].names && (!t.conns[c].owner.Queued? ==> Done(t.conns[c]))
    {
      Reached(cfg, s, steps, t, c);
    }
    Reached(cfg, s, steps, t, i);
    if t.conns[i].owner.Queued? {
      SomebodyHeldUp(cfg, t);
    }
    DoneConn(cfg, t.conns[i]);
    SingleProcess(cfg.disk, cfg.b, s.conns[i].names, buf);
  }

  lemma CompleteServable(cfg: Config, c: Conn)
    requires cfg.b > 0 && AllRequestable(cfg.b, c.names) && AllComplete(cfg.disk, cfg.b, c.names)
    ensures AllServable(cfg.disk, cfg.b, c.names)
  {
    assert forall i :: 0 <= i < |c.names| ==> Requestable(cfg.b, c.names[i]);
  }

  lemma DoneConn(cfg: Config, c: Conn)
    requires ConnOk(cfg, c) && Done(c)
    requires AllComplete(cfg.disk, cfg.b, c.names) && AllComplete(cfg.disk, cfg.b + 5, c.names)
    ensures AllServable(cfg.disk, cfg.b, c.names)
    ensures c.history == Responses(cfg.disk, cfg.b, c.names) + ERR
    ensures c.files == Fetched(c.origin, cfg.disk, cfg.b, c.names)
  {
    hide Response, Responses, Fetched, AllServable, AllRequestable, AllComplete;
    var b' := BufSize(cfg, c);
    assert AllServable(cfg.disk, cfg.b, c.names) by {
      CompleteServable(cfg, c);
    }
    SameResponses(cfg.disk, cfg.b, b', c.names);
    SameFetched(c.origin, cfg.disk, cfg.b, b', c.names);
    assert c.names[..|c.names|] == c.names;
    assert c.history + [] == c.history;
  }

  // ---------------------------------------------------------------- time

  /**
   * What a connection has come to when nobody can move any more: its client has all its files;
   * or gave up on a request before the reply began, with every file before it stored; or is
   * stuck in an incomplete file, or had more to ask, when its worker timed out.
   */
  ghost predicate Ended(disk: Disk, b: nat, c: Conn, origin: map<Name, seq<byte>>)
    requires b > 0
  {
    && !c.owner.Queued? && !c.owner.Held? && Fetching(disk, b, c, origin)
    && (c.Finished() == |c.names|
        || (c.gaveUp && (c.owner.Released? || c.owner.Left?) && c.got == [])
        || (c.owner.Expired? && c.awaiting && 0 < c.sent <= |c.names| && c.names[c.sent - 1] in disk
            && !Complete(|disk[c.names[c.sent - 1]].content|, b))
        || (c.owner.Expired? && !c.awaiting && c.sent < |c.names|))
  }

  /** A worker that waits for a request can time out. */
  lemma HeldCanExpire(cfg: Config, t: State, i: nat)
    requires Inv(cfg, t) && AtRest(cfg, t) && i < |t.conns| && t.conns[i].owner.Held?
    ensures Enabled(cfg, t, TimeOut(t.conns[i].owner.w))
  {
    WorkerAtRest(cfg, t, i);
    hide ConnOk;
    assert t.workers[t.conns[i].owner.w] == On(i);
  }

  lemma FinalWorkers(cfg: Config, t: State)
    requires Inv(cfg, t) && Final(cfg, t)
    ensures t.queue == [] && forall w :: 0 <= w < |t.workers| ==> t.workers[w] == Idle
    ensures forall i :: 0 <= i < |t.conns| ==> !t.conns[i].owner.Held? && !t.conns[i].owner.Queued?
  {
    hide ConnOk;
    forall i | 0 <= i < |t.conns| && t.conns[i].owner.Held?
      ensures Enabled(cfg, t, TimeOut(t.conns[i].owner.w))
    {
      HeldCanExpire(cfg, t, i);
    }
    assert forall w :: 0 <= w < |t.workers| ==> t.workers[w] == Idle;
    assert !Enabled(cfg, t, Accept(0));
  }

  /** A client that cannot move: waiting in vain, finished, given up, or cut off between two requests. */
  ghost predicate ClientStill(c: Conn) {
    if c.eof then true
    else if c.awaiting then !c.ReplyRead() && c.wire == [] && c.got != []
    else c.sent < |c.names| && c.owner.Expired?
  }

  lemma FinalClient(cfg: Config, t: State, i: nat)
    requires Inv(cfg, t) && Final(cfg, t) && i < |t.conns|
    ensures ClientStill(t.conns[i])
  {
    hide ReplyOk, LedgerOk, Response, Responses, Fetched, AllServable, AllRequestable, AllComplete, WordValue;
    var c := t.conns[i];
    assert ConnOk(cfg, c);
    assert !Enabled(cfg, t, Finish(i)) && !Enabled(cfg, t, ReadSome(i, 1));
    assert !Enabled(cfg, t, SendRequest(i)) && !Enabled(cfg, t, Hangup(i)) && !Enabled(cfg, t, GiveUp(i));
    if c.awaiting && !c.ReplyRead() {
      WantsMore(cfg, c);
    }
  }

  lemma StillEnded(cfg: Config, c: Conn)
    requires ConnOk(cfg, c) && ClientStill(c) && !c.owner.Held? && !c.owner.Queued?
    ensures Ended(cfg.disk, BufSize(cfg, c), c, c.origin)
  {
    Kept(cfg, c);
    if !c.eof && c.awaiting {
      NothingMissing(cfg, c);
    }
    hide Response, Responses, Fetched, AllServable, AllRequestable, AllComplete, Complete, BufSize, WordValue;
  }

  /**
   * Timeouts free every worker: any run that goes on until nobody can move, timeouts included,
   * has accepted every connection and left every worker idle, and each client has stored
   * exactly the complete files it finished, for one of the four reasons it may have stopped.
   */
  lemma PoolDrains(cfg: Config, s: State, steps: seq<Step>, t: State, i: nat)
    requires Initial(cfg, s) && Runs(cfg, s, steps, t) && Final(cfg, t) && i < |s.conns|
    ensures |steps| <= TotalPotential(cfg, s.conns)
    ensures t.queue == [] && forall w :: 0 <= w < |t.workers| ==> t.workers[w] == Idle
    ensures |t.conns| == |s.conns| && t.conns[i].names == s.conns[i].names
    ensures var c := t.conns[i];
            && !c.owner.Queued? && c.owner.w <= cfg.children
            && Ended(cfg.disk, if c.owner.w < cfg.children then cfg.b + 5 else cfg.b, c, s.conns[i].files)
  {
    hide AssignmentOk, Runs, TotalPotential, Ended, PhaseOk, ReplyOk, LedgerOk, AllServable, AllRequestable, Enabled;
    InitialOk(cfg, s);
    RunsEnd(cfg, s, steps, t);
    Reached(cfg, s, steps, t, i);
    FinalWorkers(cfg, t);
    FinalClient(cfg, t, i);
    StillEnded(cfg, t.conns[i]);
    Lengths(cfg, t.conns[i]);
  }
}
