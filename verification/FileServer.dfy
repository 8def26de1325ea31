/** The file server: send_file, service and its close discipline (pool and fork-per-connection variants). */
module FileServer {
  import opened Octets
  import opened Kernel
  import opened SockWrap
  import opened FileProtocol

  /** What select and the Read after it bring: nothing in time, or one segment (empty at shutdown). */
  datatype Arrival = Timeout | Segment(data: seq<byte>)

  datatype Exit = TimedOut | QuitSent | Rejected | NotOpened | Drained | Dropped | Spinning

  // ---------------------------------------------------------------- what service does

  /** Replies sent and the way the conversation ended. */
  datatype Transcript = Transcript(replies: seq<byte>, exit: Exit) {
    function After(sent: seq<byte>): Transcript { Transcript(sent + replies, exit) }
  }

  function Zeros(n: nat): (r: seq<byte>)
    ensures |r| == n
  {
    seq(n, _ => NUL)
  }

  /** The request buffer after Read; only the pool server wipes it first. */
  function Filled(buf: seq<byte>, data: seq<byte>, wipes: bool): (r: seq<byte>)
    requires |data| <= |buf|
    ensures |r| == |buf|
  {
    data + if wipes then Zeros(|buf| - |data|) else buf[|data|..]
  }

  ghost predicate Fits(arrivals: seq<Arrival>, b: nat) {
    forall i :: 0 <= i < |arrivals| && arrivals[i].Segment? ==> |arrivals[i].data| <= b
  }

  datatype Turn = Again | Done(exit: Exit)

  /** What one round of the loop does about a request: the reply's octets and whether the loop goes on. */
  function Reaction(disk: Disk, b: nat, command: Command, emptyRead: bool): (Turn, seq<byte>)
    requires b > 0
  {
    match command
    case Quit => (Done(QuitSent), [])
    case WrongCommand => (Done(Rejected), [])
    case WrongCount => (Done(Rejected), [])
    case Get(name) =>
      if name !in disk then (Done(NotOpened), [])
      else (if emptyRead then Done(Drained) else Again, Response(disk[name], b))
  }

  /** The conversation of service on a connection that never fails. */
  ghost function Serve(disk: Disk, b: nat, wipes: bool, arrivals: seq<Arrival>, buf: seq<byte>): Transcript
    requires b > 0 && |buf| == b && Fits(arrivals, b)
  {
    if arrivals == [] || arrivals[0].Timeout? then Transcript([], TimedOut)
    else
      var data := arrivals[0].data;
      var now := Filled(buf, data, wipes);
      var (turn, reply) := Reaction(disk, b, ParseRequest(now), data == []);
      match turn
      case Again => Serve(disk, b, wipes, arrivals[1..], now).After(reply)
      case Done(exit) => Transcript(reply, exit)
  }

  /** The loop condition `read > 0` never ends the pool server's loop: an empty read is always rejected first. */
  lemma {:induction false} NeverDrains(disk: Disk, b: nat, arrivals: seq<Arrival>, buf: seq<byte>)
    requires b > 0 && |buf| == b && Fits(arrivals, b)
    ensures Serve(disk, b, true, arrivals, buf).exit != Drained
  {
    if arrivals != [] && arrivals[0].Segment? {
      var data := arrivals[0].data;
      var now := Filled(buf, data, true);
      if data == [] {
        WipedEmptyRead(buf);
      } else {
        NeverDrains(disk, b, arrivals[1..], now);
      }
    }
  }

  /** A client that asks for the files one by one and then shuts its side down. */
  ghost function Requests(names: seq<Name>): seq<Arrival> {
    if names == [] then [Segment([])] else [Segment(FormatRequest(names[0]))] + Requests(names[1..])
  }

  predicate Servable(disk: Disk, b: nat, name: Name) {
    ValidName(name) && name in disk && |FormatRequest(name)| <= b
  }

  ghost predicate AllServable(disk: Disk, b: nat, names: seq<Name>) {
    forall i :: 0 <= i < |names| ==> Servable(disk, b, names[i])
  }

  lemma ServableMore(disk: Disk, b: nat, b': nat, names: seq<Name>, k: nat)
    requires AllServable(disk, b, names) && b <= b' && k <= |names|
    ensures AllServable(disk, b', names[..k])
  {
    forall i | 0 <= i < k
      ensures Servable(disk, b', names[..k][i])
    {
      assert Servable(disk, b, names[i]);
    }
  }

  lemma ServableAt(disk: Disk, b: nat, names: seq<Name>, i: nat)
    requires AllServable(disk, b, names) && i < |names|
    ensures Servable(disk, b, names[i]) && names[i] in disk
  {
  }

  ghost function Responses(disk: Disk, b: nat, names: seq<Name>): seq<byte>
    requires b > 0 && AllServable(disk, b, names)
  {
    if names == [] then []
    else
      assert Servable(disk, b, names[0]);
      Response(disk[names[0]], b) + Responses(disk, b, names[1..])
  }

  lemma {:induction false} RequestsFit(disk: Disk, b: nat, names: seq<Name>)
    requires AllServable(disk, b, names)
    ensures Fits(Requests(names), b)
  {
    if names != [] {
      assert Servable(disk, b, names[0]);
      RequestsFit(disk, b, names[1..]);
      assert Requests(names)[1..] == Requests(names[1..]);
    }
  }

  /** One arrival, seen through the command it parses to. */
  lemma ServeStep(disk: Disk, b: nat, wipes: bool, data: seq<byte>, rest: seq<Arrival>, buf: seq<byte>, name: Name)
    requires b > 0 && |buf| == b && Fits([Segment(data)] + rest, b) && Fits(rest, b)
    requires |data| <= b && ParseRequest(Filled(buf, data, wipes)) == Get(name) && name in disk
    ensures Serve(disk, b, wipes, [Segment(data)] + rest, buf) ==
            if data == [] then Transcript(Response(disk[name], b), Drained)
            else Serve(disk, b, wipes, rest, Filled(buf, data, wipes)).After(Response(disk[name], b))
  {
    hide ParseRequest, Response, Filled;
    var arrivals := [Segment(data)] + rest;
    assert arrivals[0] == Segment(data) && arrivals[1..] == rest;
  }

  /** One request of the client, whatever an earlier one left in the buffer. */
  lemma ServeRequest(disk: Disk, b: nat, wipes: bool, name: Name, rest: seq<Arrival>, buf: seq<byte>)
    returns (now: seq<byte>)
    requires b > 0 && |buf| == b && Servable(disk, b, name) && Fits([Segment(FormatRequest(name))] + rest, b) &&
             Fits(rest, b)
    ensures |now| == b && ParseRequest(now) == Get(name)
    ensures Serve(disk, b, wipes, [Segment(FormatRequest(name))] + rest, buf) ==
            Serve(disk, b, wipes, rest, now).After(Response(disk[name], b))
  {
    var req := FormatRequest(name);
    now := Filled(buf, req, wipes);
    ParseFormatted(name, now[|req|..]);
    assert now == req + now[|req|..];
    hide Serve, ParseRequest;
    ServeStep(disk, b, wipes, req, rest, buf, name);
  }

  /** The shutdown: rejected on a wiped buffer, otherwise taken for the last request again. */
  lemma ServeShutdown(disk: Disk, b: nat, wipes: bool, name: Name, buf: seq<byte>)
    requires b > 0 && |buf| == b && Servable(disk, b, name) && ParseRequest(buf) == Get(name)
    ensures Fits([Segment([])], b)
    ensures Serve(disk, b, wipes, [Segment([])], buf) ==
            if wipes then Transcript([], Rejected) else Transcript(Response(disk[name], b), Drained)
  {
    hide Response, ParseRequest, ValidName, FormatRequest;
    if wipes {
      WipedEmptyRead(buf);
      hide Filled;
    } else {
      assert Filled(buf, [], false) == buf && [Segment([])] + [] == [Segment([])];
      hide Serve, Filled;
      ServeStep(disk, b, wipes, [], [], buf, name);
    }
  }

  /** What the session should leave behind: every reply once, and the unwiped buffer's extra copy of the last. */
  ghost function SessionOutcome(disk: Disk, b: nat, wipes: bool, names: seq<Name>): Transcript
    requires b > 0 && names != [] && AllServable(disk, b, names)
  {
    var last := names[|names| - 1];
    assert Servable(disk, b, last);
    if wipes then Transcript(Responses(disk, b, names), Rejected)
    else Transcript(Responses(disk, b, names) + Response(disk[last], b), Drained)
  }

  lemma SessionNames(disk: Disk, b: nat, names: seq<Name>)
    requires names != [] && AllServable(disk, b, names)
    ensures Servable(disk, b, names[0]) && names[0] in disk && names[|names| - 1] in disk
  {
    assert Servable(disk, b, names[0]) && Servable(disk, b, names[|names| - 1]);
  }

  lemma SessionOutcomeStep(disk: Disk, b: nat, wipes: bool, names: seq<Name>)
    requires b > 0 && |names| > 1 && AllServable(disk, b, names)
    ensures Servable(disk, b, names[0])
    ensures SessionOutcome(disk, b, wipes, names) ==
            SessionOutcome(disk, b, wipes, names[1..]).After(Response(disk[names[0]], b))
  {
    hide Response, Servable;
    SessionNames(disk, b, names);
    assert names[1..][|names| - 2] == names[|names| - 1];
    var first, rest := Response(disk[names[0]], b), Responses(disk, b, names[1..]);
    RegroupReplies(first, rest, Response(disk[names[|names| - 1]], b), []);
  }

  /**
   * A client that asks for files and shuts down: the pool server answers each request and
   * rejects the shutdown; the server that does not wipe its buffer takes the shutdown for
   * the last request again and repeats that file.
   */
  lemma {:induction false} SessionTranscript(disk: Disk, b: nat, wipes: bool, names: seq<Name>, buf: seq<byte>)
    requires b > 0 && |buf| == b && names != [] && AllServable(disk, b, names)
    ensures Fits(Requests(names), b)
    ensures Serve(disk, b, wipes, Requests(names), buf) == SessionOutcome(disk, b, wipes, names)
  {
    RequestsFit(disk, b, names);
    RequestsFit(disk, b, names[1..]);
    assert Servable(disk, b, names[0]);
    var now := ServeRequest(disk, b, wipes, names[0], Requests(names[1..]), buf);
    if |names| == 1 {
      ServeShutdown(disk, b, wipes, names[0], now);
      assert Requests(names[1..]) == [Segment([])];
      OneReply(disk, b, names);
    } else {
      SessionTranscript(disk, b, wipes, names[1..], now);
      SessionOutcomeStep(disk, b, wipes, names);
    }
  }

  lemma OneReply(disk: Disk, b: nat, names: seq<Name>)
    requires b > 0 && |names| == 1 && AllServable(disk, b, names)
    ensures Servable(disk, b, names[0]) && Responses(disk, b, names) == Response(disk[names[0]], b)
  {
    assert Servable(disk, b, names[0]);
    assert Responses(disk, b, names[1..]) == [];
  }

  // ---------------------------------------------------------------- the connection

  /** The next check of the socket will report an error. */
  predicate Failing(sockErrors: seq<bool>) { sockErrors != [] && sockErrors[0] }

  /** How the coming checks of a connection and writes on it end; `stale` is errno == EINTR. */
  datatype Wire = Wire(errors: seq<bool>, plan: seq<Event>, stale: bool)

  predicate GoesOut(n: nat, w: Wire) { !Push(w.plan, n, w.stale).failed }

  /** A check, then a write of n octets. */
  function AfterWrite(n: nat, w: Wire): Wire {
    var r := Push(w.plan, n, w.stale);
    Wire(Rest(w.errors), r.plan, r.stale)
  }

  /** Octets of the round of send_file's loop that starts at file position `pos`. */
  function Block(size: nat, b: nat, pos: nat): (n: nat)
    requires b > 0 && HEADER + pos < size
    ensures 0 < n <= size - pos
  {
    Min(Min(size, b), size - pos)
  }

  /** Every write of the content goes out whole. */
  predicate AllWritten(size: nat, b: nat, pos: nat, w: Wire)
    requires b > 0
    decreases size - pos
  {
    HEADER + pos < size ==>
      var n := Block(size, b, pos);
      GoesOut(n, w) && AllWritten(size, b, pos + n, AfterWrite(n, w))
  }

  /** The socket is sound at every check of those rounds. */
  predicate AllSound(size: nat, b: nat, pos: nat, errors: seq<bool>)
    requires b > 0
    decreases size - pos
  {
    HEADER + pos < size ==> !Failing(errors) && AllSound(size, b, pos + Block(size, b, pos), Rest(errors))
  }

  datatype Ending = Whole | Closed | Endless

  /** How the content loop ends, and the connection it leaves behind. */
  datatype End = End(how: Ending, wire: Wire)

  /** The loop is over: the counter has reached the size, a check reports an error, or it spins. */
  predicate Over(size: nat, b: nat, pos: nat, tot: int, w: Wire)
    requires pos <= size
  {
    tot >= size || Failing(w.errors) || (Min(Min(size, b), size - pos) == 0 && w.errors == [])
  }

  /** The content loop from position `pos` on with counter `tot`: a failed write takes one off the counter. */
  function ContentEnd(size: nat, b: nat, pos: nat, tot: int, w: Wire): End
    requires b > 0 && pos <= size
    decreases size - pos, |w.errors|
  {
    var n := Min(Min(size, b), size - pos);
    if Over(size, b, pos, tot, w) then
      End(if tot >= size then Whole else if Failing(w.errors) then Closed else Endless, w)
    else ContentEnd(size, b, pos + n, tot + if GoesOut(n, w) then n else -1, AfterWrite(n, w))
  }

  lemma EndRound(size: nat, b: nat, pos: nat, tot: int, w: Wire)
    requires b > 0 && pos <= size && !Over(size, b, pos, tot, w)
    ensures var n := Min(Min(size, b), size - pos);
            ContentEnd(size, b, pos, tot, w) ==
            ContentEnd(size, b, pos + n, tot + if GoesOut(n, w) then n else -1, AfterWrite(n, w))
  {
    hide GoesOut, AfterWrite;
  }

  lemma EndOver(size: nat, b: nat, pos: nat, tot: int, w: Wire)
    requires b > 0 && pos <= size && Over(size, b, pos, tot, w)
    ensures ContentEnd(size, b, pos, tot, w) ==
            End(if tot >= size then Whole else if Failing(w.errors) then Closed else Endless, w)
  {
  }

  /** While every write goes out, only a check that reports an error ends the loop early. */
  lemma {:induction false} CleanEnd(size: nat, b: nat, pos: nat, w: Wire)
    requires b > 0 && pos <= size && AllWritten(size, b, pos, w)
    ensures ContentEnd(size, b, pos, HEADER + pos, w).how == if AllSound(size, b, pos, w.errors) then Whole else Closed
    decreases size - pos
  {
    hide ContentEnd, GoesOut, AfterWrite;
    if Over(size, b, pos, HEADER + pos, w) {
      EndOver(size, b, pos, HEADER + pos, w);
    } else {
      RoundOn(size, b, pos, w);
      EndRound(size, b, pos, HEADER + pos, w);
      hide AllWritten, AllSound;
      WriteChecks(Block(size, b, pos), w);
      CleanEnd(size, b, pos + Block(size, b, pos), AfterWrite(Block(size, b, pos), w));
    }
  }

  /** A counter that has fallen behind the octets read stays behind: the loop goes on until a check reports an error. */
  lemma {:induction false} ShortEnd(size: nat, b: nat, pos: nat, tot: int, w: Wire)
    requires b > 0 && pos <= size && tot < pos
    ensures ContentEnd(size, b, pos, tot, w).how == if true in w.errors then Closed else Endless
    decreases size - pos, |w.errors|
  {
    hide ContentEnd, GoesOut, AfterWrite;
    if Over(size, b, pos, tot, w) {
      EndOver(size, b, pos, tot, w);
    } else {
      var n := Min(Min(size, b), size - pos);
      EndRound(size, b, pos, tot, w);
      WriteChecks(n, w);
      assert true in w.errors <==> true in Rest(w.errors);
      ShortEnd(size, b, pos + n, tot + if GoesOut(n, w) then n else -1, AfterWrite(n, w));
    }
  }

  /** With at least 13 octets a block, a failed write puts the counter behind. */
  lemma {:induction false} UncleanEnd(size: nat, b: nat, pos: nat, w: Wire)
    requires b >= HEADER && pos <= size && !AllWritten(size, b, pos, w)
    ensures ContentEnd(size, b, pos, HEADER + pos, w).how == if true in w.errors then Closed else Endless
    decreases size - pos
  {
    hide ContentEnd, GoesOut, AfterWrite;
    if Over(size, b, pos, HEADER + pos, w) {
      EndOver(size, b, pos, HEADER + pos, w);
    } else {
      var n := Block(size, b, pos);
      RoundOn(size, b, pos, w);
      EndRound(size, b, pos, HEADER + pos, w);
      WriteChecks(n, w);
      hide AllWritten;
      assert true in w.errors <==> true in Rest(w.errors);
      if GoesOut(n, w) {
        UncleanEnd(size, b, pos + n, AfterWrite(n, w));
      } else {
        ShortEnd(size, b, pos + n, HEADER + pos - 1, AfterWrite(n, w));
      }
    }
  }

  function AfterHeader(w: Wire): Wire { AfterWrite(4, AfterWrite(4, AfterWrite(|OK|, w))) }

  /** The three fields of the header go out. */
  predicate HeaderSent(w: Wire) {
    var w1 := AfterWrite(|OK|, w);
    var w2 := AfterWrite(4, w1);
    && !Failing(w.errors) && GoesOut(|OK|, w)
    && !Failing(w1.errors) && GoesOut(4, w1)
    && !Failing(w2.errors) && GoesOut(4, w2)
  }

  function FileEnding(size: nat, b: nat, w: Wire): Ending
    requires b > 0
  {
    if HeaderSent(w) then ContentEnd(size, b, 0, HEADER, AfterHeader(w)).how else Closed
  }

  /** The connection after a whole file. */
  function AfterFile(size: nat, b: nat, w: Wire): Wire
    requires b > 0
  {
    ContentEnd(size, b, 0, HEADER, AfterHeader(w)).wire
  }

  /** With m rounds to go, m checks decide. */
  lemma {:induction false} SoundFrom(size: nat, b: nat, m: nat, pos: nat, errors: seq<bool>)
    requires b > 0 && pos <= size
    requires if m == 0 then HEADER + pos >= size else (m - 1) * b < size - HEADER - pos <= m * b
    ensures AllSound(size, b, pos, errors) <==> SoundFor(errors, m)
    decreases m
  {
    SoundForStep(errors, m);
    if m > 0 {
      OneRoundLess(m, b);
      if m > 1 {
        OneRoundLess(m - 1, b);
      } else {
        assert (m - 1) * b == 0;
      }
      hide SoundFor;
      SoundFrom(size, b, m - 1, pos + Block(size, b, pos), Rest(errors));
    }
  }

  /** None of the next m checks reports an error. */
  predicate SoundFor(errors: seq<bool>, m: nat) {
    forall i :: 0 <= i < m && i < |errors| ==> !errors[i]
  }

  lemma SoundForStep(errors: seq<bool>, m: nat)
    ensures SoundFor(errors, 0)
    ensures m > 0 ==> (SoundFor(errors, m) <==> !Failing(errors) && SoundFor(Rest(errors), m - 1))
  {
    if m > 0 && !Failing(errors) && SoundFor(Rest(errors), m - 1) {
      assert forall i :: 0 < i < |errors| ==> errors[i] == Rest(errors)[i - 1];
    }
    if m > 0 && SoundFor(errors, m) {
      assert forall i :: 0 <= i < |Rest(errors)| ==> Rest(errors)[i] == errors[i + 1];
    }
  }

  /** The writes of the header all go out. */
  predicate HeaderWritten(w: Wire) {
    GoesOut(|OK|, w) && GoesOut(4, AfterWrite(|OK|, w)) && GoesOut(4, AfterWrite(4, AfterWrite(|OK|, w)))
  }

  /**
   * A file goes out when its writes do and no error is reported by the checks of the header and of the
   * rounds, and for a buffer of at least 13 octets only then; the loop never ends only when the header went
   * out, a write of the content did not, and no check ever reports an error, and for such a buffer always then.
   */
  lemma FileLaw(size: nat, b: nat, w: Wire)
    requires b > 0
    ensures var good := HeaderWritten(w) && AllWritten(size, b, 0, AfterHeader(w)) &&
                        SoundFor(w.errors, 3 + Rounds(size, b));
            var stuck := HeaderWritten(w) && !AllWritten(size, b, 0, AfterHeader(w)) && true !in w.errors;
            && (good ==> FileEnding(size, b, w) == Whole)
            && (FileEnding(size, b, w) == Endless ==> stuck)
            && (b >= 13 ==> (FileEnding(size, b, w) == Whole <==> good))
            && (b >= 13 ==> (FileEnding(size, b, w) == Endless <==> stuck))
  {
    var m, e := Rounds(size, b), w.errors;
    HeaderChecks(w);
    RoundsAreRounds(size, b);
    SoundFrom(size, b, m, 0, Rest(Rest(Rest(e))));
    SoundForStep(e, m + 3);
    SoundForStep(Rest(e), m + 2);
    SoundForStep(Rest(Rest(e)), m + 1);
    hide AllWritten, AllSound, GoesOut, AfterWrite, AfterHeader, SoundFor, Rounds, ContentEnd;
    if AllWritten(size, b, 0, AfterHeader(w)) {
      CleanEnd(size, b, 0, AfterHeader(w));
    } else if b >= 13 {
      UncleanEnd(size, b, 0, AfterHeader(w));
    }
    if HeaderSent(w) {
      EndlessQuiet(size, b, 0, HEADER, AfterHeader(w));
    }
  }

  lemma HeaderChecks(w: Wire)
    ensures AfterHeader(w).errors == Rest(Rest(Rest(w.errors)))
    ensures HeaderSent(w) ==> (true in w.errors <==> true in AfterHeader(w).errors)
    ensures HeaderSent(w) <==> HeaderWritten(w) && SoundFor(w.errors, 3)
  {
    SoundForStep(w.errors, 3);
    SoundForStep(Rest(w.errors), 2);
    SoundForStep(Rest(Rest(w.errors)), 1);
    SoundForStep(Rest(Rest(Rest(w.errors))), 0);
    hide GoesOut, SoundFor;
  }

  /** A loop that never ends has no error left to be reported. */
  lemma {:induction false} EndlessQuiet(size: nat, b: nat, pos: nat, tot: int, w: Wire)
    requires b > 0 && pos <= size
    ensures ContentEnd(size, b, pos, tot, w).how == Endless ==> true !in w.errors
    decreases size - pos, |w.errors|
  {
    hide ContentEnd, GoesOut, AfterWrite;
    if Over(size, b, pos, tot, w) {
      EndOver(size, b, pos, tot, w);
    } else {
      var n := Min(Min(size, b), size - pos);
      EndRound(size, b, pos, tot, w);
      WriteChecks(n, w);
      assert true in w.errors ==> true in Rest(w.errors);
      EndlessQuiet(size, b, pos + n, tot + if GoesOut(n, w) then n else -1, AfterWrite(n, w));
    }
  }

  // ---------------------------------------------------------------- what goes out on any connection

  /** One header field: nothing after a reported error, otherwise as much as the writes carry. */
  function FieldOut(data: seq<byte>, w: Wire): (r: seq<byte>)
    ensures r <= data
  {
    if Failing(w.errors) then [] else data[..Push(w.plan, |data|, w.stale).moved]
  }

  function HeaderOut(f: File, w: Wire): seq<byte> {
    var size, time := Word(|f.content| % WORD), Word(f.mtime % WORD);
    var w1, w2 := AfterWrite(|OK|, w), AfterWrite(4, AfterWrite(|OK|, w));
    var ok1 := !Failing(w.errors) && GoesOut(|OK|, w);
    var ok2 := ok1 && !Failing(w1.errors) && GoesOut(4, w1);
    FieldOut(OK, w) + (if ok1 then FieldOut(size, w1) else []) + (if ok2 then FieldOut(time, w2) else [])
  }

  /** The content loop from position `pos` on with counter `tot`: each block as far as its write carries it. */
  function ContentOut(content: seq<byte>, b: nat, pos: nat, tot: int, w: Wire): (r: seq<byte>)
    requires b > 0 && pos <= |content|
    decreases |content| - pos, |w.errors|
  {
    var n := Min(Min(|content|, b), |content| - pos);
    if Over(|content|, b, pos, tot, w) then []
    else
      var r := Push(w.plan, n, w.stale);
      content[pos..pos + r.moved]
      + ContentOut(content, b, pos + n, tot + if r.failed then -1 else n, AfterWrite(n, w))
  }

  /** All that goes out for a file. */
  function FileOut(f: File, b: nat, w: Wire): seq<byte>
    requires b > 0
  {
    HeaderOut(f, w) + if HeaderSent(w) then ContentOut(f.content, b, 0, HEADER, AfterHeader(w)) else []
  }

  /** Octets of content that go out, whatever they are. */
  function SentCount(size: nat, b: nat, pos: nat, tot: int, w: Wire): nat
    requires b > 0 && pos <= size
    decreases size - pos, |w.errors|
  {
    var n := Min(Min(size, b), size - pos);
    if Over(size, b, pos, tot, w) then 0
    else
      var r := Push(w.plan, n, w.stale);
      r.moved + SentCount(size, b, pos + n, tot + if r.failed then -1 else n, AfterWrite(n, w))
  }

  /** Once the write of a block has been cut, no later block sends an octet. */
  predicate SilentAfterCut(size: nat, b: nat, pos: nat, tot: int, w: Wire)
    requires b > 0 && pos <= size
    decreases size - pos, |w.errors|
  {
    var n := Min(Min(size, b), size - pos);
    if Over(size, b, pos, tot, w) then true
    else if GoesOut(n, w) then SilentAfterCut(size, b, pos + n, tot + n, AfterWrite(n, w))
    else SentCount(size, b, pos + n, tot - 1, AfterWrite(n, w)) == 0
  }

  lemma ContentRoundOut(content: seq<byte>, b: nat, pos: nat, tot: int, w: Wire)
    requires b > 0 && pos <= |content| && !Over(|content|, b, pos, tot, w)
    ensures var n := Min(Min(|content|, b), |content| - pos);
            var r := Push(w.plan, n, w.stale);
            ContentOut(content, b, pos, tot, w) ==
            content[pos..pos + r.moved]
            + ContentOut(content, b, pos + n, tot + if r.failed then -1 else n, AfterWrite(n, w))
  {
    hide Push, AfterWrite;
  }

  lemma CountRound(size: nat, b: nat, pos: nat, tot: int, w: Wire)
    requires b > 0 && pos <= size && !Over(size, b, pos, tot, w)
    ensures var n := Min(Min(size, b), size - pos);
            var r := Push(w.plan, n, w.stale);
            SentCount(size, b, pos, tot, w) ==
            r.moved + SentCount(size, b, pos + n, tot + if r.failed then -1 else n, AfterWrite(n, w))
  {
    hide Push, AfterWrite;
  }

  lemma SilentRound(size: nat, b: nat, pos: nat, tot: int, w: Wire)
    requires b > 0 && pos <= size && !Over(size, b, pos, tot, w)
    ensures var n := Min(Min(size, b), size - pos);
            SilentAfterCut(size, b, pos, tot, w) <==>
            if GoesOut(n, w) then SilentAfterCut(size, b, pos + n, tot + n, AfterWrite(n, w))
            else SentCount(size, b, pos + n, tot - 1, AfterWrite(n, w)) == 0
  {
    hide GoesOut, AfterWrite, SentCount;
  }

  /** One round, in each of the three accounts of what goes out. */
  lemma OutRound(content: seq<byte>, b: nat, pos: nat, tot: int, w: Wire) returns (n: nat, moved: nat, next: int)
    requires b > 0 && pos <= |content| && !Over(|content|, b, pos, tot, w)
    ensures n == Min(Min(|content|, b), |content| - pos) && (n == 0 ==> w.errors != [])
    ensures AfterWrite(n, w).errors == Rest(w.errors)
    ensures moved == Push(w.plan, n, w.stale).moved <= n && (GoesOut(n, w) <==> moved == n)
    ensures next == tot + if GoesOut(n, w) then n else -1
    ensures ContentOut(content, b, pos, tot, w) ==
            content[pos..pos + moved] + ContentOut(content, b, pos + n, next, AfterWrite(n, w))
    ensures SentCount(|content|, b, pos, tot, w) == moved + SentCount(|content|, b, pos + n, next, AfterWrite(n, w))
    ensures SilentAfterCut(|content|, b, pos, tot, w) <==>
              if GoesOut(n, w) then SilentAfterCut(|content|, b, pos + n, next, AfterWrite(n, w))
              else SentCount(|content|, b, pos + n, next, AfterWrite(n, w)) == 0
  {
    hide Push, ContentOut, SentCount, SilentAfterCut;
    n := Min(Min(|content|, b), |content| - pos);
    PushExact(w.plan, n, w.stale);
    var r := Push(w.plan, n, w.stale);
    moved, next := r.moved, tot + if r.failed then -1 else n;
    ContentRoundOut(content, b, pos, tot, w);
    CountRound(|content|, b, pos, tot, w);
    SilentRound(|content|, b, pos, tot, w);
  }

  lemma OutOver(content: seq<byte>, b: nat, pos: nat, tot: int, w: Wire)
    requires b > 0 && pos <= |content| && Over(|content|, b, pos, tot, w)
    ensures ContentOut(content, b, pos, tot, w) == [] && SentCount(|content|, b, pos, tot, w) == 0
    ensures SilentAfterCut(|content|, b, pos, tot, w)
  {
  }

  lemma {:induction false} CleanOut(content: seq<byte>, b: nat, pos: nat, w: Wire)
    requires b > 0 && pos <= |content| && AllWritten(|content|, b, pos, w) && AllSound(|content|, b, pos, w.errors)
    ensures ContentOut(content, b, pos, HEADER + pos, w) == content[pos..Total(|content|, b, pos)]
    decreases |content| - pos
  {
    var size := |content|;
    hide ContentOut, AllWritten, AllSound, AfterWrite, GoesOut, SentCount, SilentAfterCut;
    if HEADER + pos < size {
      RoundOn(size, b, pos, w);
      hide Total;
      var n, moved, next := OutRound(content, b, pos, HEADER + pos, w);
      CleanOut(content, b, pos + n, AfterWrite(n, w));
      assert content[pos..pos + n] + content[pos + n..Total(size, b, pos + n)] == content[pos..Total(size, b, pos + n)];
    } else {
      OutOver(content, b, pos, HEADER + pos, w);
    }
  }

  /** When a file ends well and every write has gone out, its whole reply has. */
  lemma WholeOut(f: File, b: nat, w: Wire)
    requires b > 0 && FileEnding(|f.content|, b, w) == Whole && AllWritten(|f.content|, b, 0, AfterHeader(w))
    ensures FileOut(f, b, w) == Response(f, b)
  {
    hide ContentOut, ContentEnd, HeaderOut, Header, AllWritten, AllSound, AfterHeader;
    CleanEnd(|f.content|, b, 0, AfterHeader(w));
    CleanOut(f.content, b, 0, AfterHeader(w));
    DeliveryLaw(|f.content|, b);
    HeaderWhole(f, w);
  }

  lemma FieldWhole(data: seq<byte>, w: Wire)
    requires !Failing(w.errors) && GoesOut(|data|, w)
    ensures FieldOut(data, w) == data
  {
    PushExact(w.plan, |data|, w.stale);
  }

  lemma HeaderWhole(f: File, w: Wire)
    requires HeaderSent(w)
    ensures HeaderOut(f, w) == Header(f)
  {
    hide AfterWrite, GoesOut, FieldOut;
    FieldWhole(OK, w);
    FieldWhole(Word(|f.content| % WORD), AfterWrite(|OK|, w));
    FieldWhole(Word(f.mtime % WORD), AfterWrite(4, AfterWrite(|OK|, w)));
  }

  /** What goes out from a position on is as long as counted, and made of the octets from there on. */
  lemma {:induction false} OutShape(content: seq<byte>, b: nat, pos: nat, tot: int, w: Wire)
    requires b > 0 && pos <= |content|
    ensures |ContentOut(content, b, pos, tot, w)| == SentCount(|content|, b, pos, tot, w)
    ensures forall x :: x in ContentOut(content, b, pos, tot, w) ==> x in content[pos..]
    decreases |content| - pos, |w.errors|
  {
    hide ContentOut, SentCount, SilentAfterCut, AfterWrite, GoesOut;
    if Over(|content|, b, pos, tot, w) {
      OutOver(content, b, pos, tot, w);
    } else {
      var n, moved, next := OutRound(content, b, pos, tot, w);
      OutShape(content, b, pos + n, next, AfterWrite(n, w));
      OutOf(content, pos, n, moved, ContentOut(content, b, pos + n, next, AfterWrite(n, w)));
    }
  }

  lemma OutOf(content: seq<byte>, pos: nat, n: nat, moved: nat, later: seq<byte>)
    requires pos + n <= |content| && moved <= n && forall x :: x in later ==> x in content[pos + n..]
    ensures forall x :: x in content[pos..pos + moved] + later ==> x in content[pos..]
  {
    forall x | x in content[pos..pos + moved] + later
      ensures x in content[pos..]
    {
      if x in later {
        var i :| 0 <= i < |content[pos + n..]| && content[pos + n..][i] == x;
        assert content[pos..][n + i] == x;
      } else {
        var i :| 0 <= i < moved && content[pos..pos + moved][i] == x;
        assert content[pos..][i] == x;
      }
    }
  }

  lemma {:induction false} SilentIsPrefix(content: seq<byte>, b: nat, pos: nat, tot: int, w: Wire)
    requires b > 0 && pos <= |content| && SilentAfterCut(|content|, b, pos, tot, w)
    ensures ContentOut(content, b, pos, tot, w) <= content[pos..]
    decreases |content| - pos, |w.errors|
  {
    hide ContentOut, SentCount, SilentAfterCut, AfterWrite, GoesOut;
    if Over(|content|, b, pos, tot, w) {
      OutOver(content, b, pos, tot, w);
    } else {
      var n, moved, next := OutRound(content, b, pos, tot, w);
      if moved < n {
        OutShape(content, b, pos + n, next, AfterWrite(n, w));
      } else {
        SilentIsPrefix(content, b, pos + n, next, AfterWrite(n, w));
      }
      assert content[pos..pos + moved] + content[pos + moved..] == content[pos..];
    }
  }

  /** Zeros with a one at position p. */
  function Marked(size: nat, p: nat): (r: seq<byte>)
    requires p < size
    ensures |r| == size
  {
    seq(size, i => if i == p then 1 else 0)
  }

  /** Where an octet is missing, a file with a mark there tells. */
  lemma {:induction false} GapShows(size: nat, b: nat, pos: nat, tot: int, w: Wire) returns (p: nat)
    requires b > 0 && pos <= size && !SilentAfterCut(size, b, pos, tot, w)
    ensures pos <= p < size && !(ContentOut(Marked(size, p), b, pos, tot, w) <= Marked(size, p)[pos..])
    decreases size - pos, |w.errors|
  {
    hide ContentOut, SentCount, SilentAfterCut, AfterWrite, GoesOut, Marked, Push;
    var any := seq(size, i => NUL);
    if Over(size, b, pos, tot, w) {
      OutOver(any, b, pos, tot, w);
    }
    var n, moved, next := OutRound(any, b, pos, tot, w);
    if moved < n {
      p := pos + moved;
    } else {
      p := GapShows(size, b, pos + n, next, AfterWrite(n, w));
    }
    var content := Marked(size, p);
    var later := ContentOut(content, b, pos + n, next, AfterWrite(n, w));
    n, moved, next := OutRound(content, b, pos, tot, w);
    if moved < n {
      OutShape(content, b, pos + n, next, AfterWrite(n, w));
      MarkMissed(content, pos, p, n, later);
    } else {
      PrefixBehind(content, pos, n, later);
    }
  }

  lemma MarkMissed(content: seq<byte>, pos: nat, p: nat, n: nat, later: seq<byte>)
    requires pos <= p < pos + n <= |content| && content == Marked(|content|, p) && later != []
    requires forall x :: x in later ==> x in content[pos + n..]
    ensures !(content[pos..p] + later <= content[pos..])
  {
    assert later[0] in later && later[0] == 0;
    assert (content[pos..p] + later)[p - pos] == 0 && content[pos..][p - pos] == 1;
  }

  lemma PrefixBehind(content: seq<byte>, pos: nat, n: nat, later: seq<byte>)
    requires pos + n <= |content|
    ensures content[pos..pos + n] + later <= content[pos..] <==> later <= content[pos + n..]
  {
    var whole := content[pos..pos + n] + later;
    if whole <= content[pos..] {
      assert forall i :: 0 <= i < |later| ==>
               later[i] == whole[n + i] == content[pos..][n + i] == content[pos + n..][i];
    }
    if later <= content[pos + n..] {
      assert content[pos..pos + n] + content[pos + n..] == content[pos..];
    }
  }

  /**
   * What goes out of a file's content is a prefix of it, for every file of that size, exactly
   * when no octet follows a block whose write was cut.
   */
  lemma PrefixLaw(size: nat, b: nat, w: Wire)
    requires b > 0
    ensures (forall content: seq<byte> :: |content| == size ==> ContentOut(content, b, 0, HEADER, w) <= content) <==>
            SilentAfterCut(size, b, 0, HEADER, w)
  {
    hide ContentOut, SilentAfterCut;
    forall content: seq<byte> | |content| == size && SilentAfterCut(size, b, 0, HEADER, w)
      ensures ContentOut(content, b, 0, HEADER, w) <= content
    {
      SilentIsPrefix(content, b, 0, HEADER, w);
      assert content[0..] == content;
    }
    if !SilentAfterCut(size, b, 0, HEADER, w) {
      var p := GapShows(size, b, 0, HEADER, w);
      assert Marked(size, p)[0..] == Marked(size, p);
    }
  }

  lemma CutAfterOne(n: nat)
    requires n > 1
    ensures Push([Move(1), Fault], n, false) == Written(1, true, [], false)
    ensures Push([], n, false) == Written(n, false, [], false)
  {
    assert Push([Fault], n - 1, false) == Written(0, true, [], false);
    assert Push([], 0, false) == Written(0, false, [], false);
  }

  /** A write that moves one octet and then fails, followed by one that goes out: the rest of a block is missing. */
  lemma GapExample(size: nat, b: nat)
    requires b > 1 && size >= 2 * b && size > HEADER
    ensures !SilentAfterCut(size, b, 0, HEADER, Wire([], [Move(1), Fault], false))
  {
    var w := Wire([], [Move(1), Fault], false);
    CutAfterOne(b);
    hide Push, SentCount, SilentAfterCut;
    assert AfterWrite(b, w) == Wire([], [], false) && !GoesOut(b, w) && GoesOut(b, Wire([], [], false));
    SilentRound(size, b, 0, HEADER, w);
    CountRound(size, b, b, HEADER - 1, AfterWrite(b, w));
  }

  /** With blocks of fewer than 13 octets the 13 in the counter can make up for a failed write: the loop ends well. */
  lemma SmallBlocks()
    ensures var w := Wire([], [Fault], false);
            !AllWritten(14, 1, 0, w) && ContentEnd(14, 1, 0, HEADER, w).how == Whole
  {
    var w, next := Wire([], [Fault], false), Wire([], [], false);
    assert Push([Fault], 1, false) == Written(0, true, [], false);
    assert Push([], 0, false) == Written(0, false, [], false);
    assert Push([], 1, false) == Written(1, false, [], false);
    hide Push;
    assert AfterWrite(1, w) == AfterWrite(1, next) == next && !GoesOut(1, w) && GoesOut(1, next);
    hide ContentEnd;
    EndRound(14, 1, 0, HEADER, w);
    EndRound(14, 1, 1, HEADER - 1, next);
    EndRound(14, 1, 2, HEADER, next);
    EndOver(14, 1, 3, HEADER + 1, next);
  }

  /** What a round does about a request on a connection that may fail. */
  function TurnOn(disk: Disk, b: nat, command: Command, emptyRead: bool, w: Wire): Turn
    requires b > 0
  {
    match command
    case Quit => Done(QuitSent)
    case WrongCommand => Done(Rejected)
    case WrongCount => Done(Rejected)
    case Get(name) =>
      if name !in disk then Done(NotOpened)
      else
        match FileEnding(|disk[name].content|, b, w)
        case Whole => if emptyRead then Done(Drained) else Again
        case Closed => Done(Dropped)
        case Endless => Done(Spinning)
  }

  /** How service ends on any connection. */
  function Life(disk: Disk, b: nat, wipes: bool, arrivals: seq<Arrival>, buf: seq<byte>, w: Wire): Exit
    requires b > 0 && |buf| == b && Fits(arrivals, b)
  {
    if arrivals == [] || arrivals[0].Timeout? then TimedOut
    else if Failing(w.errors) then Dropped
    else
      var data := arrivals[0].data;
      var now, command := Filled(buf, data, wipes), ParseRequest(Filled(buf, data, wipes));
      var checked := w.(errors := Rest(w.errors));
      match TurnOn(disk, b, command, data == [], checked)
      case Done(exit) => exit
      case Again =>
        var size := if command.Get? && command.name in disk then |disk[command.name].content| else 0;
        Life(disk, b, wipes, arrivals[1..], now, AfterFile(size, b, checked))
  }

  /** What a request sends. */
  function RoundOut(disk: Disk, b: nat, command: Command, w: Wire): seq<byte>
    requires b > 0
  {
    match command
    case Quit => []
    case WrongCommand => ERR[..Max(WriteResult(w.plan, |ERR|), 0)]
    case WrongCount => ERR[..Max(WriteResult(w.plan, |ERR|), 0)]
    case Get(name) => if name in disk then FileOut(disk[name], b, w) else []
  }

  /** Everything service sends on any connection: what its requests send, one after the other. */
  function Said(disk: Disk, b: nat, wipes: bool, arrivals: seq<Arrival>, buf: seq<byte>, w: Wire): seq<byte>
    requires b > 0 && |buf| == b && Fits(arrivals, b)
  {
    if arrivals == [] || arrivals[0].Timeout? || Failing(w.errors) then []
    else
      var data := arrivals[0].data;
      var now, command := Filled(buf, data, wipes), ParseRequest(Filled(buf, data, wipes));
      var checked := w.(errors := Rest(w.errors));
      RoundOut(disk, b, command, checked)
      + if TurnOn(disk, b, command, data == [], checked) == Again && command.Get? && command.name in disk then
          Said(disk, b, wipes, arrivals[1..], now, AfterFile(|disk[command.name].content|, b, checked))
        else []
  }

  // ---------------------------------------------------------------- conversations, octet by octet

  /** On a buffer that is wiped first, nothing depends on what it held. */
  lemma WipedForgets(disk: Disk, b: nat, arrivals: seq<Arrival>, buf: seq<byte>, buf': seq<byte>, w: Wire)
    requires b > 0 && |buf| == |buf'| == b && Fits(arrivals, b)
    ensures Serve(disk, b, true, arrivals, buf) == Serve(disk, b, true, arrivals, buf')
    ensures Life(disk, b, true, arrivals, buf, w) == Life(disk, b, true, arrivals, buf', w)
    ensures Said(disk, b, true, arrivals, buf, w) == Said(disk, b, true, arrivals, buf', w)
  {
    if arrivals != [] && arrivals[0].Segment? {
      assert Filled(buf, arrivals[0].data, true) == Filled(buf', arrivals[0].data, true);
    }
    hide ParseRequest, TurnOn, Reaction, RoundOut, Response, Filled;
  }

  /** The buffer after a read: the octets that came, and behind them zeros or what was there before. */
  lemma FilledLaw(buf: seq<byte>, data: seq<byte>, wipes: bool)
    requires |data| <= |buf|
    ensures forall i :: 0 <= i < |buf| ==>
              Filled(buf, data, wipes)[i] == if i < |data| then data[i] else if wipes then 0 else buf[i]
  {
  }

  /** The line in the buffer is the one that came, if the buffer was wiped or the line was ended. */
  lemma LineSeen(buf: seq<byte>, data: seq<byte>, wipes: bool, gap: seq<byte>, word: seq<byte>, mid: seq<byte>,
                 name: seq<byte>, rest: seq<byte>)
    requires |data| <= |buf| && Words(data, gap, word, mid, name, rest) && (wipes || rest != [])
    ensures Words(Filled(buf, data, wipes), gap, word, mid, name, rest + Filled(buf, data, wipes)[|data|..])
    ensures [81, 85, 73, 84, 13, 10] <= Filled(buf, data, wipes) <==> [81, 85, 73, 84, 13, 10] <= data
  {
    var now := Filled(buf, data, wipes);
    var more := now[|data|..];
    assert now == data + more && (wipes && more != [] ==> more[0] == 0);
    assert rest != [] ==> (rest + more)[..1] == rest[..1];
    QuitInLine(data, more, gap, word, mid, name, rest);
  }

  lemma QuitInLine(data: seq<byte>, more: seq<byte>, gap: seq<byte>, word: seq<byte>, mid: seq<byte>,
                   name: seq<byte>, rest: seq<byte>)
    requires Words(data, gap, word, mid, name, rest)
    requires rest == [] ==> more == [] || more[0] == 0
    ensures [81, 85, 73, 84, 13, 10] <= data + more <==> [81, 85, 73, 84, 13, 10] <= data
  {
    var quit: seq<byte> := [81, 85, 73, 84, 13, 10];
    var now, at, end := data + more, |gap| + |word|, |data| - |rest|;
    assert rest == [] && more != [] ==> now[end] == 0;
    assert rest != [] ==> now[end] == rest[0] && rest[0] in rest[..1];
    assert name != [] ==> mid[0] in mid && now[at] == mid[0] && at < end;
    assert quit <= now ==> forall i :: 0 <= i < 6 ==> now[i] == quit[i];
  }

  /** The request buffer after a run of segments. */
  function BufferAfter(buf: seq<byte>, arrivals: seq<Arrival>, wipes: bool): (r: seq<byte>)
    requires forall i :: 0 <= i < |arrivals| ==> arrivals[i].Segment? && |arrivals[i].data| <= |buf|
    ensures |r| == |buf|
  {
    if arrivals == [] then buf
    else Filled(BufferAfter(buf, arrivals[..|arrivals| - 1], wipes), arrivals[|arrivals| - 1].data, wipes)
  }

  /**
   * The server's end of a connection.  Reading, writing, checking and closing all require it
   * open, so it is closed at most once; `atClose` keeps what had gone out and what was left to
   * read at that moment, and Untouched says that both are still so.
   */
  class Connection {
    const fd: Descriptor
    var arrivals: seq<Arrival>
    var sockErrors: seq<bool>  // what getsockopt(SO_ERROR) reports at each coming check
    var isOpen: bool
    ghost var atClose: (seq<byte>, seq<Arrival>)

    constructor (fd: Descriptor, arrivals: seq<Arrival>, sockErrors: seq<bool>)
      ensures this.fd == fd && this.arrivals == arrivals && this.sockErrors == sockErrors && isOpen
    {
      this.fd, this.arrivals, this.sockErrors, isOpen, atClose := fd, arrivals, sockErrors, true, ([], []);
    }

    /** Nothing has been written or read since the close. */
    ghost predicate Untouched()
      reads this`isOpen, this`atClose, this`arrivals, fd`output
    {
      !isOpen ==> atClose == (fd.output, arrivals)
    }

    /** No error is reported and no write fails; interruptions and short counts are allowed. */
    ghost predicate Healthy()
      reads this`sockErrors, fd`writePlan
    {
      true !in sockErrors && Reliable(fd.writePlan)
    }

    ghost function State(): Wire
      reads this`sockErrors, fd`writePlan, fd`interrupted
    {
      Wire(sockErrors, fd.writePlan, fd.interrupted)
    }

    method SockError() returns (e: bool)
      requires isOpen
      modifies this`sockErrors
      ensures e == Failing(old(sockErrors))
      ensures sockErrors == Rest(old(sockErrors))
      ensures old(Healthy()) ==> !e && Healthy()
    {
      e := sockErrors != [] && sockErrors[0];
      if sockErrors != [] {
        sockErrors := sockErrors[1..];
      }
    }

    method Send(buf: array<byte>, n: nat) returns (rc: int, ghost sent: seq<byte>)
      requires isOpen && n <= buf.Length
      modifies fd`output, fd`writePlan, fd`interrupted
      ensures fd.output == old(fd.output) + sent && sent <= buf[..n]
      ensures rc == (if sent == buf[..n] then n else -1)
      ensures var r := Push(old(fd.writePlan), n, old(fd.interrupted));
              && sent == buf[..r.moved] && (sent == buf[..n] <==> !r.failed)
              && fd.writePlan == r.plan && fd.interrupted == r.stale
      ensures old(Healthy()) ==> Healthy() && rc == n
    {
      PushExact(fd.writePlan, n, fd.interrupted);
      ghost var k;
      rc, k := Writen(fd, buf, n);
      sent := buf[..k];
      assert k == n <==> sent == buf[..n];
    }

    /** One write(2), however much of it goes out. */
    method WriteOnce(buf: array<byte>, n: nat) returns (rc: int)
      requires isOpen && n <= buf.Length
      modifies fd`output, fd`writePlan, fd`interrupted
      ensures rc == WriteResult(old(fd.writePlan), n) && fd.writePlan == Rest(old(fd.writePlan))
      ensures fd.output == old(fd.output) + buf[..Max(rc, 0)]
    {
      rc := fd.Write(buf, 0, n);
    }

    /** select: whether a segment has come before the timeout. */
    method Ready() returns (ready: bool)
      requires isOpen
      ensures ready == (arrivals != [] && arrivals[0].Segment?)
    {
      ready := arrivals != [] && arrivals[0].Segment?;
    }

    /** Read: the segment that has come. */
    method NextSegment() returns (data: seq<byte>)
      requires isOpen && arrivals != [] && arrivals[0].Segment?
      modifies this`arrivals
      ensures data == old(arrivals)[0].data && arrivals == old(arrivals)[1..]
    {
      data, arrivals := arrivals[0].data, arrivals[1..];
    }

    method Close()
      requires isOpen
      modifies this`isOpen, this`atClose
      ensures !isOpen && atClose == (fd.output, arrivals)
    {
      isOpen, atClose := false, (fd.output, arrivals);
    }
  }

  // ---------------------------------------------------------------- send_file

  /** One header field: check the socket, write, and close on either failure. */
  method SendField(conn: Connection, data: seq<byte>) returns (ok: bool, ghost sent: seq<byte>)
    requires conn.isOpen
    modifies conn`sockErrors, conn`isOpen, conn`atClose, conn.fd`output, conn.fd`writePlan, conn.fd`interrupted
    ensures conn.Untouched()
    ensures conn.isOpen == ok && sent <= data && (ok <==> sent == data && !Failing(old(conn.sockErrors)))
    ensures Failing(old(conn.sockErrors)) ==> sent == []
    ensures ok <==> !Failing(old(conn.sockErrors)) && GoesOut(|data|, old(conn.State()))
    ensures ok ==> conn.State() == AfterWrite(|data|, old(conn.State()))
    ensures sent == FieldOut(data, old(conn.State()))
    ensures conn.fd.output == old(conn.fd.output) + sent
    ensures old(conn.Healthy()) ==> ok && conn.Healthy()
  {
    sent := [];
    var e := conn.SockError();
    if e {
      conn.Close();
      return false, sent;
    }
    var buf := new byte[|data|](i requires 0 <= i < |data| => data[i]);
    assert buf[..|data|] == data;
    var rc;
    rc, sent := conn.Send(buf, |data|);
    ok := rc == |data|;
    if !ok {
      conn.Close();
    }
  }

  /** One round of the loop: fill the buffer from the file, check the socket, write. */
  method SendBlock(conn: Connection, file: Descriptor, buffer: array<byte>, toRead: nat)
    returns (gone: bool, bytesRead: nat, bytesSent: int, ghost chunk: seq<byte>, ghost sent: seq<byte>)
    requires conn.isOpen && conn.fd != file && toRead <= buffer.Length && Fault !in file.readPlan
    modifies conn`sockErrors, conn`isOpen, conn`atClose, conn.fd`output, conn.fd`writePlan, conn.fd`interrupted
    modifies file`input, file`readPlan, file`interrupted, buffer
    ensures Fault !in file.readPlan && conn.isOpen == !gone && gone == Failing(old(conn.sockErrors)) && conn.Untouched()
    ensures old(file.input) == chunk + file.input && |chunk| == bytesRead == Min(toRead, |old(file.input)|)
    ensures conn.fd.output == old(conn.fd.output) + sent && sent <= chunk
    ensures if gone then sent == [] else bytesSent == if sent == chunk then bytesRead else -1
    ensures !gone ==> sent == chunk[..Push(old(conn.fd.writePlan), bytesRead, old(conn.fd.interrupted)).moved]
    ensures conn.sockErrors == Rest(old(conn.sockErrors))
    ensures !gone ==> (sent == chunk <==> GoesOut(bytesRead, old(conn.State()))) &&
                      conn.State() == AfterWrite(bytesRead, old(conn.State()))
    ensures old(conn.Healthy()) ==> !gone && sent == chunk && conn.Healthy()
  {
    PullExact(file.readPlan, toRead, |file.input|);
    ghost var was := buffer[..];
    bytesSent, sent := 0, [];
    bytesRead, chunk := Readn(file, buffer, toRead);
    assert buffer[..bytesRead] == chunk;
    gone := conn.SockError();
    if gone {
      conn.Close();
    } else {
      bytesSent, sent := conn.Send(buffer, bytesRead);
    }
  }

  /** One more round of the loop, in each of the three accounts of it. */
  lemma RoundOn(size: nat, b: nat, pos: nat, w: Wire)
    requires b > 0 && HEADER + pos < size
    ensures var n := Block(size, b, pos);
            && n == Min(Min(size, b), size - pos)
            && (AllWritten(size, b, pos, w) <==> GoesOut(n, w) && AllWritten(size, b, pos + n, AfterWrite(n, w)))
            && (AllSound(size, b, pos, w.errors) <==> !Failing(w.errors) && AllSound(size, b, pos + n, Rest(w.errors)))
            && Total(size, b, pos) == Total(size, b, pos + n)
  {
  }

  /** The state between two rounds: `whole` is what will have gone out, `end` how it will have ended. */
  ghost predicate AtRound(conn: Connection, file: Descriptor, size: nat, b: nat, tot: int, content: seq<byte>,
                          whole: seq<byte>, end: End, taken: seq<byte>)
    requires b > 0
    reads conn`isOpen, conn`sockErrors, conn.fd`output, conn.fd`writePlan, conn.fd`interrupted
    reads file`input, file`readPlan
  {
    && conn.isOpen && Fault !in file.readPlan && content == taken + file.input && |content| == size
    && whole == conn.fd.output + ContentOut(content, b, |taken|, tot, conn.State())
    && end == ContentEnd(size, b, |taken|, tot, conn.State())
  }

  datatype Pass = Ahead | Gone | Looping

  lemma GoesOnOut(out: seq<byte>, content: seq<byte>, b: nat, pos: nat, tot: int, w: Wire, sent: seq<byte>)
    requires b > 0 && pos <= |content| && !Over(|content|, b, pos, tot, w)
    requires var n := Min(Min(|content|, b), |content| - pos);
             sent == content[pos..pos + n][..Push(w.plan, n, w.stale).moved]
    ensures var n := Min(Min(|content|, b), |content| - pos);
            out + ContentOut(content, b, pos, tot, w) ==
            out + sent + ContentOut(content, b, pos + n, tot + if GoesOut(n, w) then n else -1, AfterWrite(n, w))
  {
    hide Push, ContentOut, AfterWrite;
    var n := Min(Min(|content|, b), |content| - pos);
    var r := Push(w.plan, n, w.stale);
    ContentRoundOut(content, b, pos, tot, w);
    assert sent == content[pos..pos + r.moved];
    Regroup(out, sent, ContentOut(content, b, pos + n, tot + if r.failed then -1 else n, AfterWrite(n, w)));
  }

  /** One round of the content loop. */
  method ContentRound(conn: Connection, file: Descriptor, buffer: array<byte>, size: nat, tot: int,
                      ghost content: seq<byte>, ghost whole: seq<byte>, ghost end: End, ghost taken: seq<byte>)
    returns (pass: Pass, next: int, ghost taken': seq<byte>)
    requires conn.fd != file && buffer.Length > 0 && tot < size
    requires AtRound(conn, file, size, buffer.Length, tot, content, whole, end, taken)
    modifies conn`sockErrors, conn`isOpen, conn`atClose, conn.fd`output, conn.fd`writePlan, conn.fd`interrupted
    modifies file`input, file`readPlan, file`interrupted, buffer
    ensures conn.Untouched()
    ensures pass == Ahead ==> AtRound(conn, file, size, buffer.Length, next, content, whole, end, taken')
    ensures pass == Ahead ==> |file.input| < |old(file.input)| || |conn.sockErrors| < |old(conn.sockErrors)|
    ensures |file.input| <= |old(file.input)|
    ensures pass != Ahead ==> conn.fd.output == whole
    ensures pass == Gone ==> !conn.isOpen && end.how == Closed
    ensures pass == Looping ==> conn.isOpen && file.input == [] && conn.sockErrors == [] && end.how == Endless
  {
    hide ContentEnd, AfterWrite, GoesOut, ContentOut, Push;
    var quiet := conn.sockErrors == [];
    ghost var b, now, pos, out, sent := buffer.Length, conn.State(), |taken|, conn.fd.output, [];
    ghost var chunk;
    var gone, bytesRead, bytesSent;
    gone, bytesRead, bytesSent, chunk, sent := SendBlock(conn, file, buffer, Min(size, buffer.Length));
    next, taken' := tot + bytesSent, taken + chunk;
    Regroup(taken, chunk, file.input);
    if gone || (bytesRead == 0 && quiet) {
      OutOver(content, b, pos, tot, now);
      EndOver(size, b, pos, tot, now);
      assert out + [] == out;
      pass := if gone then Gone else Looping;
    } else {
      EndRound(size, b, pos, tot, now);
      assert content[pos..pos + bytesRead] == chunk;
      GoesOnOut(out, content, b, pos, tot, now, sent);
      pass := Ahead;
    }
  }

  /**
   * The content loop of send_file.  A failed write takes one off the counter and the loop goes
   * on; `spins` reports the state it then repeats for ever: the file is used up, a write of
   * the content has failed, and no check has an error left to report.
   */
  method SendContent(conn: Connection, file: Descriptor, buflen: nat) returns (ok: bool, spins: bool)
    requires conn.isOpen && conn.fd != file && buflen > 0 && Fault !in file.readPlan
    requires HEADER + |file.input| <= INTMAX
    modifies conn`sockErrors, conn`isOpen, conn`atClose, conn.fd`output, conn.fd`writePlan, conn.fd`interrupted
    modifies file`input, file`readPlan, file`interrupted
    ensures (conn.isOpen <==> ok || spins) && conn.Untouched()
    ensures spins ==> !ok && file.input == [] && conn.sockErrors == []
    ensures var end := ContentEnd(|old(file.input)|, buflen, 0, HEADER, old(conn.State()));
            && (ok <==> end.how == Whole) && (spins <==> end.how == Endless) && (ok ==> conn.State() == end.wire)
    ensures conn.fd.output ==
            old(conn.fd.output) + ContentOut(old(file.input), buflen, 0, HEADER, old(conn.State()))
  {
    hide ContentEnd, ContentOut, AtRound;
    ghost var content, w, taken := file.input, conn.State(), [];
    var size := |file.input|;
    var buffer := new byte[buflen];
    var tot: int := HEADER;
    var pass := Ahead;
    ghost var whole := conn.fd.output + ContentOut(content, buflen, 0, HEADER, w);
    ghost var end := ContentEnd(size, buflen, 0, HEADER, w);
    AtFirstRound(conn, file, size, buflen, content, whole, end);
    while tot < size && pass == Ahead
      invariant conn.Untouched()
      invariant pass == Ahead ==> AtRound(conn, file, size, buflen, tot, content, whole, end, taken)
      invariant pass != Ahead ==> conn.fd.output == whole
      invariant pass == Gone ==> !conn.isOpen && end.how == Closed
      invariant pass == Looping ==> conn.isOpen && file.input == [] && conn.sockErrors == [] && end.how == Endless
      decreases pass == Ahead, |file.input|, |conn.sockErrors|
    {
      pass, tot, taken := ContentRound(conn, file, buffer, size, tot, content, whole, end, taken);
    }
    if pass == Ahead {
      ContentDone(conn, file, size, buflen, tot, content, whole, end, taken);
    }
    ok, spins := pass == Ahead, pass == Looping;
  }

  lemma AtFirstRound(conn: Connection, file: Descriptor, size: nat, b: nat, content: seq<byte>, whole: seq<byte>,
                     end: End)
    requires b > 0 && conn.isOpen && Fault !in file.readPlan && content == file.input && |content| == size
    requires whole == conn.fd.output + ContentOut(content, b, 0, HEADER, conn.State())
    requires end == ContentEnd(size, b, 0, HEADER, conn.State())
    ensures AtRound(conn, file, size, b, HEADER, content, whole, end, [])
  {
    assert [] + file.input == file.input;
  }

  lemma ContentDone(conn: Connection, file: Descriptor, size: nat, b: nat, tot: int, content: seq<byte>,
                    whole: seq<byte>, end: End, taken: seq<byte>)
    requires b > 0 && tot >= size && AtRound(conn, file, size, b, tot, content, whole, end, taken)
    ensures conn.isOpen && conn.fd.output == whole && end == End(Whole, conn.State())
  {
    OutOver(content, b, |taken|, tot, conn.State());
    EndOver(size, b, |taken|, tot, conn.State());
    hide ContentOut, ContentEnd;
  }

  ghost predicate CounterFits(disk: Disk) {
    forall name :: name in disk ==> HEADER + |disk[name].content| <= INTMAX
  }

  lemma HeaderPieces(f: File, w: Wire)
    ensures var s1, s2, s3 := FieldOut(OK, w), FieldOut(Word(|f.content| % WORD), AfterWrite(|OK|, w)),
                              FieldOut(Word(f.mtime % WORD), AfterWrite(4, AfterWrite(|OK|, w)));
            var ok1 := !Failing(w.errors) && GoesOut(|OK|, w);
            var ok2 := !Failing(AfterWrite(|OK|, w).errors) && GoesOut(4, AfterWrite(|OK|, w));
            HeaderOut(f, w) == if !ok1 then s1 else if !ok2 then s1 + s2 else s1 + s2 + s3
  {
    hide AfterWrite, GoesOut, FieldOut;
    var s1, s2 := FieldOut(OK, w), FieldOut(Word(|f.content| % WORD), AfterWrite(|OK|, w));
    assert s1 + [] + [] == s1 && s1 + s2 + [] == s1 + s2;
  }

  /** send_file's header: stops at the first field that does not go out. */
  method SendHeader(conn: Connection, f: File) returns (ok: bool)
    requires conn.isOpen
    modifies conn`sockErrors, conn`isOpen, conn`atClose, conn.fd`output, conn.fd`writePlan, conn.fd`interrupted
    ensures conn.isOpen == ok == HeaderSent(old(conn.State())) && conn.Untouched()
    ensures ok ==> conn.State() == AfterHeader(old(conn.State())) && conn.fd.output == old(conn.fd.output) + Header(f)
    ensures conn.fd.output == old(conn.fd.output) + HeaderOut(f, old(conn.State()))
    ensures old(conn.fd.output) <= conn.fd.output
    ensures old(conn.Healthy()) ==> ok && conn.Healthy()
  {
    ghost var w, out := conn.State(), conn.fd.output;
    HeaderPieces(f, w);
    if HeaderSent(w) {
      HeaderWhole(f, w);
    }
    hide AfterWrite, GoesOut, FieldOut, HeaderOut, Header, Push, Word;
    ghost var s1, s2, s3;
    ok, s1 := SendField(conn, OK);
    if !ok {
      return;
    }
    ok, s2 := SendField(conn, Word(|f.content| % WORD));
    Regroup(out, s1, s2);
    if !ok {
      return;
    }
    ok, s3 := SendField(conn, Word(f.mtime % WORD));
    Regroup(out, s1 + s2, s3);
  }

  /**
   * send_file: an absent file leaves the connection open and untouched, and success and an
   * endless loop leave it open too; every other way out has closed it.
   */
  method SendFile(conn: Connection, disk: Disk, name: Name, buflen: nat, filePlan: seq<Event>)
    returns (ok: bool, spins: bool)
    requires conn.isOpen && buflen > 0 && Fault !in filePlan && CounterFits(disk)
    modifies conn`sockErrors, conn`isOpen, conn`atClose, conn.fd`output, conn.fd`writePlan, conn.fd`interrupted
    ensures name !in disk ==> !ok && !spins && conn.isOpen && conn.fd.output == old(conn.fd.output)
    ensures (name in disk ==> (conn.isOpen <==> ok || spins)) && conn.Untouched()
    ensures ok || spins ==> name in disk
    ensures spins ==> !ok && conn.sockErrors == []
    ensures name in disk ==>
              var size, w := |disk[name].content|, old(conn.State());
              && (ok <==> FileEnding(size, buflen, w) == Whole)
              && (spins <==> FileEnding(size, buflen, w) == Endless)
              && (ok ==> conn.State() == AfterFile(size, buflen, w))
    ensures name in disk ==> conn.fd.output == old(conn.fd.output) + FileOut(disk[name], buflen, old(conn.State()))
    ensures ok && (buflen >= HEADER || old(conn.Healthy())) ==>
              conn.fd.output == old(conn.fd.output) + Response(disk[name], buflen)
    ensures old(conn.fd.output) <= conn.fd.output
    ensures old(conn.Healthy()) ==> conn.Healthy() && !spins && (ok <==> name in disk)
  {
    hide ContentEnd, AfterHeader, HeaderSent, Header, HeaderOut, ContentOut;
    if name !in disk {
      return false, false;
    }
    var f := disk[name];
    SendFileReply(f, buflen, conn.State());
    hide Response;
    var file := new Descriptor(f.content, filePlan, []);
    spins := false;
    ok := SendHeader(conn, f);
    if ok {
      ok, spins := SendContent(conn, file, buflen);
    }
  }

  /** When what goes out for a file is its reply. */
  lemma SendFileReply(f: File, b: nat, w: Wire)
    requires b > 0
    ensures b >= HEADER && FileEnding(|f.content|, b, w) == Whole ==> FileOut(f, b, w) == Response(f, b)
    ensures SoundWire(w) ==>
              && FileEnding(|f.content|, b, w) == Whole && FileOut(f, b, w) == Response(f, b)
              && SoundWire(AfterFile(|f.content|, b, w))
  {
    hide FileOut, Response, FileEnding, AfterFile, SoundWire;
    if SoundWire(w) {
      SoundFile(f, b, w);
    } else if b >= HEADER && FileEnding(|f.content|, b, w) == Whole {
      FileLaw(|f.content|, b, w);
      WholeOut(f, b, w);
    }
  }

  // ---------------------------------------------------------------- service

  /** error_msg: one write of the seven octets, whatever it returns, then close. */
  method Reject(conn: Connection) returns (ghost cut: nat)
    requires conn.isOpen
    modifies conn`isOpen, conn`atClose, conn.fd`output, conn.fd`writePlan, conn.fd`interrupted
    ensures cut == Max(WriteResult(old(conn.fd.writePlan), |ERR|), 0)
    ensures !conn.isOpen && conn.Untouched() && conn.fd.output == old(conn.fd.output) + ERR[..cut]
  {
    var buf := new byte[|ERR|](i requires 0 <= i < |ERR| => ERR[i]);
    assert buf[..] == ERR;
    var rc := conn.WriteOnce(buf, |ERR|);
    conn.Close();
    cut := Max(rc, 0);
  }

  /** memset in the pool server, then Read. */
  method Fill(buf: array<byte>, data: seq<byte>, wipes: bool)
    requires |data| <= buf.Length
    modifies buf
    ensures buf[..] == Filled(old(buf[..]), data, wipes)
  {
    if wipes {
      forall i | 0 <= i < buf.Length {
        buf[i] := NUL;
      }
    }
    forall i | 0 <= i < |data| {
      buf[i] := data[i];
    }
  }

  /** The part of a round after the read: the branches on the request. */
  method React(conn: Connection, disk: Disk, buflen: nat, command: Command, emptyRead: bool, filePlan: seq<Event>)
    returns (turn: Turn, ghost reply: seq<byte>, ghost cut: nat)
    requires conn.isOpen && buflen > 0 && Fault !in filePlan && CounterFits(disk)
    modifies conn`sockErrors, conn`isOpen, conn`atClose, conn.fd`output, conn.fd`writePlan, conn.fd`interrupted
    ensures (conn.isOpen <==> turn == Again || turn.exit in {NotOpened, Spinning, Drained}) && conn.Untouched()
    ensures cut <= |ERR| && (cut > 0 ==> turn == Done(Rejected))
    ensures turn == Done(Rejected) ==>
              conn.fd.output == old(conn.fd.output) + ERR[..Max(WriteResult(old(conn.fd.writePlan), |ERR|), 0)]
    ensures turn == Again || turn == Done(Drained) ==> command.Get? && (turn == Again <==> !emptyRead)
    ensures turn != Done(TimedOut)
    ensures turn == Done(NotOpened) <==> command.Get? && command.name !in disk
    ensures turn == Done(Spinning) ==> command.Get? && command.name in disk && conn.sockErrors == []
    ensures (turn == Done(QuitSent) <==> command.Quit?) && (turn == Done(Rejected) <==> !command.Quit? && !command.Get?)
    ensures conn.fd.output == old(conn.fd.output) + RoundOut(disk, buflen, command, old(conn.State()))
    ensures turn == Again || turn == Done(Drained) ==> command.name in disk
    ensures buflen >= HEADER && (turn == Again || turn == Done(Drained)) ==>
              conn.fd.output == old(conn.fd.output) + Response(disk[command.name], buflen)
    ensures turn == TurnOn(disk, buflen, command, emptyRead, old(conn.State()))
    ensures turn == Again ==> conn.State() == AfterFile(|disk[command.name].content|, buflen, old(conn.State()))
    ensures old(conn.Healthy()) ==>
              && conn.fd.output == old(conn.fd.output) + reply + ERR[..cut]
              && (turn, reply) == Reaction(disk, buflen, command, emptyRead)
              && (turn == Again ==> conn.Healthy())
  {
    reply, cut := [], 0;
    match command {
      case Quit =>
        conn.Close();
        turn := Done(QuitSent);
      case Get(name) =>
        var ok, spins := SendFile(conn, disk, name, buflen, filePlan);
        if ok {
          reply := Response(disk[name], buflen);
          turn := if emptyRead then Done(Drained) else Again;
        } else {
          turn := Done(if spins then Spinning else if conn.isOpen then NotOpened else Dropped);
        }
      case _ =>
        cut := Reject(conn);
        turn := Done(Rejected);
    }
  }

  lemma WipedEmptyRead(buf: seq<byte>)
    ensures ParseRequest(Filled(buf, [], true)) == WrongCount
  {
    assert CString(Filled(buf, [], true)) == [];
  }

  /** A segment has come and the socket is sound: the round that reads it. */
  predicate Reads(arrivals: seq<Arrival>, sockErrors: seq<bool>) {
    arrivals != [] && arrivals[0].Segment? && !Failing(sockErrors)
  }

  /** What an exit says about the last request read and the state the connection is left in. */
  ghost predicate Means(exit: Exit, command: Command, disk: Disk, sockErrors: seq<bool>) {
    && (exit == NotOpened <==> command.Get? && command.name !in disk)
    && (exit == Spinning ==> command.Get? && command.name in disk && sockErrors == [])
    && (exit == QuitSent <==> command.Quit?)
    && (exit == Rejected <==> !command.Quit? && !command.Get?)
    && (exit == Drained ==> command.Get?)
  }

  /** The round that reads a segment, in both accounts of a conversation. */
  lemma SegmentRound(disk: Disk, b: nat, wipes: bool, arrivals: seq<Arrival>, buf: seq<byte>, w: Wire)
    requires b > 0 && |buf| == b && Fits(arrivals, b) && Reads(arrivals, w.errors)
    ensures Fits(arrivals[1..], b) && |arrivals[0].data| <= b
    ensures var data := arrivals[0].data;
            var now := Filled(buf, data, wipes);
            var command, checked := ParseRequest(now), w.(errors := Rest(w.errors));
            && Life(disk, b, wipes, arrivals, buf, w) ==
               (match TurnOn(disk, b, command, data == [], checked)
                case Done(exit) => exit
                case Again => Life(disk, b, wipes, arrivals[1..], now,
                                   AfterFile(|disk[command.name].content|, b, checked)))
            && Said(disk, b, wipes, arrivals, buf, w) ==
               RoundOut(disk, b, command, checked)
               + (if TurnOn(disk, b, command, data == [], checked) == Again && command.Get? && command.name in disk then
                    Said(disk, b, wipes, arrivals[1..], now, AfterFile(|disk[command.name].content|, b, checked))
                  else [])
            && Serve(disk, b, wipes, arrivals, buf) ==
               var (turn, reply) := Reaction(disk, b, command, data == []);
               (match turn
                case Again => Serve(disk, b, wipes, arrivals[1..], now).After(reply)
                case Done(exit) => Transcript(reply, exit))
  {
    hide Response, AfterFile, FileEnding, ParseRequest, Filled, RoundOut;
  }

  /** The rounds that read nothing. */
  lemma EmptyRound(disk: Disk, b: nat, wipes: bool, arrivals: seq<Arrival>, buf: seq<byte>, w: Wire)
    requires b > 0 && |buf| == b && Fits(arrivals, b) && !Reads(arrivals, w.errors)
    ensures if arrivals == [] || arrivals[0].Timeout?
            then Life(disk, b, wipes, arrivals, buf, w) == TimedOut &&
                Serve(disk, b, wipes, arrivals, buf) == Transcript([], TimedOut)
            else Failing(w.errors) && Life(disk, b, wipes, arrivals, buf, w) == Dropped
    ensures Said(disk, b, wipes, arrivals, buf, w) == []
  {
  }

  /**
   * One round, by what is in the buffer: QUIT and a line end, or fewer than two words or another first word than
   * GET..., or the name of a file that is not there or is.
   */
  lemma RoundLaw(disk: Disk, b: nat, wipes: bool, arrivals: seq<Arrival>, buf: seq<byte>, w: Wire, gap: seq<byte>,
                 word: seq<byte>, mid: seq<byte>, name: seq<byte>, rest: seq<byte>)
    requires b > 0 && |buf| == b && Fits(arrivals, b) && Reads(arrivals, w.errors)
    requires |arrivals[0].data| <= b && Words(Filled(buf, arrivals[0].data, wipes), gap, word, mid, name, rest)
    ensures Fits(arrivals[1..], b)
    ensures var now, checked := Filled(buf, arrivals[0].data, wipes), w.(errors := Rest(w.errors));
            var life, said := Life(disk, b, wipes, arrivals, buf, w), Said(disk, b, wipes, arrivals, buf, w);
            if [81, 85, 73, 84, 13, 10] <= now then life == QuitSent && said == []
            else if name == [] || !([71, 69, 84] <= word) then
              && life == Rejected
              && said == [45, 69, 82, 82, 13, 10, 0][..Max(WriteResult(w.plan, 7), 0)]
            else if name !in disk then life == NotOpened && said == []
            else
              var size := |disk[name].content|;
              match FileEnding(size, b, checked)
              case Closed => life == Dropped && said == FileOut(disk[name], b, checked)
              case Endless => life == Spinning && said == FileOut(disk[name], b, checked)
              case Whole =>
                if arrivals[0].data == [] then life == Drained && said == FileOut(disk[name], b, checked)
                else
                  var next := AfterFile(size, b, checked);
                  && life == Life(disk, b, wipes, arrivals[1..], now, next)
                  && said == FileOut(disk[name], b, checked) + Said(disk, b, wipes, arrivals[1..], now, next)
    ensures var checked := w.(errors := Rest(w.errors));
            name in disk && b >= 13 && FileEnding(|disk[name].content|, b, checked) == Whole ==>
              FileOut(disk[name], b, checked) == Response(disk[name], b)
  {
    var now, checked := Filled(buf, arrivals[0].data, wipes), w.(errors := Rest(w.errors));
    SegmentRound(disk, b, wipes, arrivals, buf, w);
    ParseLaw(now, gap, word, mid, name, rest);
    hide Life, Said, Serve, Reaction, Filled, ParseRequest, FileOut, Response, AfterFile, FileEnding;
    assert forall s: seq<byte> :: s + [] == s;
    if name in disk {
      SendFileReply(disk[name], b, checked);
    }
  }

  /** Requests for files, each in a segment of its own. */
  function Asks(names: seq<Name>): seq<Arrival> {
    if names == [] then [] else [Segment(FormatRequest(names[0]))] + Asks(names[1..])
  }

  /** The connection carries the replies to all of them whole. */
  ghost predicate Delivers(disk: Disk, b: nat, names: seq<Name>, w: Wire)
    requires b > 0
  {
    names != [] ==>
      && names[0] in disk && !Failing(w.errors)
      && FileEnding(|disk[names[0]].content|, b, w.(errors := Rest(w.errors))) == Whole
      && FileOut(disk[names[0]], b, w.(errors := Rest(w.errors))) == Response(disk[names[0]], b)
      && Delivers(disk, b, names[1..], AfterReply(|disk[names[0]].content|, b, w))
  }

  /** A check of the socket, then a whole reply. */
  function AfterReply(size: nat, b: nat, w: Wire): Wire
    requires b > 0
  {
    AfterFile(size, b, w.(errors := Rest(w.errors)))
  }

  ghost function AfterReplies(disk: Disk, b: nat, names: seq<Name>, w: Wire): Wire
    requires b > 0 && Delivers(disk, b, names, w)
  {
    if names == [] then w
    else AfterReplies(disk, b, names[1..], AfterReply(|disk[names[0]].content|, b, w))
  }

  /** A connection that never fails delivers every reply. */
  lemma {:induction false} SoundDelivers(disk: Disk, b: nat, names: seq<Name>, w: Wire)
    requires b > 0 && AllServable(disk, b, names) && true !in w.errors && Reliable(w.plan)
    ensures Delivers(disk, b, names, w)
  {
    if names != [] {
      ServableAt(disk, b, names, 0);
      var file, checked := disk[names[0]], w.(errors := Rest(w.errors));
      SoundFile(file, b, checked);
      hide AfterFile, FileEnding, FileOut, Response, Servable;
      assert AllServable(disk, b, names[1..]);
      SoundDelivers(disk, b, names[1..], AfterReply(|file.content|, b, w));
    }
  }

  ghost predicate SoundWire(w: Wire) { true !in w.errors && Reliable(w.plan) }

  lemma SoundWrite(n: nat, w: Wire)
    requires SoundWire(w)
    ensures !Failing(w.errors) && GoesOut(n, w) && SoundWire(AfterWrite(n, w))
  {
    hide Push;
    PushExact(w.plan, n, w.stale);
    assert w.errors != [] ==> w.errors[0] in w.errors;
  }

  lemma {:induction false} SoundContent(size: nat, b: nat, pos: nat, w: Wire)
    requires b > 0 && pos <= size && SoundWire(w)
    ensures AllWritten(size, b, pos, w) && AllSound(size, b, pos, w.errors)
    ensures SoundWire(ContentEnd(size, b, pos, HEADER + pos, w).wire)
    decreases size - pos
  {
    hide ContentEnd, GoesOut, AfterWrite, SoundWire;
    if HEADER + pos < size {
      var n := Block(size, b, pos);
      RoundOn(size, b, pos, w);
      SoundWrite(n, w);
      EndRound(size, b, pos, HEADER + pos, w);
      WriteChecks(n, w);
      hide AllWritten, AllSound;
      SoundContent(size, b, pos + n, AfterWrite(n, w));
    } else {
      EndOver(size, b, pos, HEADER + pos, w);
    }
  }

  lemma WriteChecks(n: nat, w: Wire)
    ensures AfterWrite(n, w).errors == Rest(w.errors)
  {
  }

  lemma SoundFile(f: File, b: nat, w: Wire)
    requires b > 0 && SoundWire(w)
    ensures FileEnding(|f.content|, b, w) == Whole && FileOut(f, b, w) == Response(f, b)
    ensures SoundWire(AfterFile(|f.content|, b, w))
  {
    hide AfterWrite, GoesOut, AllWritten, AllSound, ContentEnd, SoundWire, FileOut, Response;
    SoundWrite(|OK|, w);
    SoundWrite(4, AfterWrite(|OK|, w));
    SoundWrite(4, AfterWrite(4, AfterWrite(|OK|, w)));
    SoundContent(|f.content|, b, 0, AfterHeader(w));
    CleanEnd(|f.content|, b, 0, AfterHeader(w));
    WholeOut(f, b, w);
  }

  /** A finished request, then whatever comes next. */
  lemma GetThen(disk: Disk, b: nat, wipes: bool, name: Name, more: seq<Arrival>, buf: seq<byte>, w: Wire)
    returns (now: seq<byte>)
    requires b > 0 && |buf| == b && Servable(disk, b, name) && Fits(more, b) && Delivers(disk, b, [name], w)
    ensures Fits([Segment(FormatRequest(name))] + more, b) && |now| == b
    ensures var all, next := [Segment(FormatRequest(name))] + more, AfterReply(|disk[name].content|, b, w);
            && Life(disk, b, wipes, all, buf, w) == Life(disk, b, wipes, more, now, next)
            && Said(disk, b, wipes, all, buf, w) ==
               Response(disk[name], b) + Said(disk, b, wipes, more, now, next)
  {
    var data, all := FormatRequest(name), [Segment(FormatRequest(name))] + more;
    now := Filled(buf, data, wipes);
    assert Fits(all, b) && all[0] == Segment(data) && all[1..] == more && Reads(all, w.errors);
    RequestOctets(name);
    RequestWords(name, now[|data|..]);
    assert now == data + now[|data|..] && data != [] && now[0] == 71;
    hide Life, Said, Filled, Words, FileOut, Response, AfterFile, FileEnding, FormatRequest;
    RoundLaw(disk, b, wipes, all, buf, w, [], [71, 69, 84], [32], name, [13, 10] + now[|data|..]);
  }

  lemma AsksApart(names: seq<Name>, more: seq<Arrival>)
    ensures if names == [] then Asks(names) + more == more
            else Asks(names) + more == [Segment(FormatRequest(names[0]))] + (Asks(names[1..]) + more)
  {
    hide FormatRequest;
    if names != [] {
      var first: seq<Arrival>, later := [Segment(FormatRequest(names[0]))], Asks(names[1..]);
      assert Asks(names) == first + later;
      hide Asks;
      Regroup(first, later, more);
    }
  }

  lemma {:induction false} AsksFit(disk: Disk, b: nat, names: seq<Name>, more: seq<Arrival>)
    requires AllServable(disk, b, names) && Fits(more, b)
    ensures Fits(Asks(names) + more, b)
  {
    hide Asks, FormatRequest;
    AsksApart(names, more);
    if names != [] {
      assert Servable(disk, b, names[0]);
      AsksFit(disk, b, names[1..], more);
    }
  }

  lemma GetsStep(disk: Disk, b: nat, names: seq<Name>, w: Wire)
    requires b > 0 && names != [] && AllServable(disk, b, names) && Delivers(disk, b, names, w)
    ensures Servable(disk, b, names[0]) && names[0] in disk && AllServable(disk, b, names[1..])
    ensures Responses(disk, b, names) == Response(disk[names[0]], b) + Responses(disk, b, names[1..])
    ensures Delivers(disk, b, [names[0]], w)
    ensures var next := AfterReply(|disk[names[0]].content|, b, w);
            && Delivers(disk, b, names[1..], next)
            && AfterReplies(disk, b, names, w) == AfterReplies(disk, b, names[1..], next)
  {
    hide Response, AfterReply, FormatRequest, ValidName, FileEnding, FileOut;
    ServableAt(disk, b, names, 0);
    assert [names[0]][1..] == [];
  }

  /** Finished requests, then whatever comes next. */
  lemma {:induction false} GetsThen(disk: Disk, b: nat, wipes: bool, names: seq<Name>, more: seq<Arrival>,
                                    buf: seq<byte>, w: Wire)
    returns (now: seq<byte>)
    requires b > 0 && |buf| == b && AllServable(disk, b, names) && Fits(more, b) && Delivers(disk, b, names, w)
    ensures Fits(Asks(names) + more, b) && |now| == b
    ensures var all, next := Asks(names) + more, AfterReplies(disk, b, names, w);
            && Life(disk, b, wipes, all, buf, w) == Life(disk, b, wipes, more, now, next)
            && Said(disk, b, wipes, all, buf, w) ==
               Responses(disk, b, names) + Said(disk, b, wipes, more, now, next)
  {
    hide Life, Said, Response, AfterReply, FormatRequest, Servable, AllServable, Asks, Fits;
    AsksApart(names, more);
    if names == [] {
      now := buf;
      assert Responses(disk, b, names) == [] && AfterReplies(disk, b, names, w) == w;
    } else {
      var name, later := names[0], names[1..];
      GetsStep(disk, b, names, w);
      var next := AfterReply(|disk[name].content|, b, w);
      var mid := Asks(later) + more;
      hide Delivers, AfterReplies, Responses;
      AsksFit(disk, b, later, more);
      now := GetThen(disk, b, wipes, name, mid, buf, w);
      now := GetsThen(disk, b, wipes, later, more, now, next);
      Regroup(Response(disk[name], b), Responses(disk, b, later),
          Said(disk, b, wipes, more, now, AfterReplies(disk, b, names, w)));
    }
  }

  /**
   * How a conversation ends at the first line that is not the name of a file to be sent.  After the whole
   * replies to the requests before it, QUIT and a missing file send nothing; a line that is no request sends
   * as much of "-ERR\r\n" and its terminator as the next write moves.  The line is all that came in its segment if
   * the buffer is wiped, and must end in the segment otherwise.
   */
  lemma LastLine(disk: Disk, b: nat, wipes: bool, names: seq<Name>, line: seq<byte>, more: seq<Arrival>, buf: seq<byte>,
                 w: Wire, gap: seq<byte>, word: seq<byte>, mid: seq<byte>, name: seq<byte>, rest: seq<byte>)
    requires b > 0 && |buf| == b && AllServable(disk, b, names) && Delivers(disk, b, names, w)
    requires |line| <= b && Fits(more, b) && !Failing(AfterReplies(disk, b, names, w).errors)
    requires Words(line, gap, word, mid, name, rest) && (wipes || rest != [])
    ensures Fits(Asks(names) + ([Segment(line)] + more), b)
    ensures var all, replies := Asks(names) + ([Segment(line)] + more), Responses(disk, b, names);
            var life, said := Life(disk, b, wipes, all, buf, w), Said(disk, b, wipes, all, buf, w);
            var plan := AfterReplies(disk, b, names, w).plan;
            if [81, 85, 73, 84, 13, 10] <= line then life == QuitSent && said == replies
            else if name == [] || !([71, 69, 84] <= word) then
              && life == Rejected
              && said == replies + [45, 69, 82, 82, 13, 10, 0][..Max(WriteResult(plan, 7), 0)]
            else name !in disk ==> life == NotOpened && said == replies
  {
    hide Life, Said, Delivers, AfterReplies, Responses, AllServable, FileOut, Response, FileEnding, Words, Filled;
    var last, next := [Segment(line)] + more, AfterReplies(disk, b, names, w);
    assert Fits(last, b) && last[0] == Segment(line);
    var now := GetsThen(disk, b, wipes, names, last, buf, w);
    LineSeen(now, line, wipes, gap, word, mid, name, rest);
    RoundLaw(disk, b, wipes, last, now, next, gap, word, mid, name, rest + Filled(now, line, wipes)[|line|..]);
    assert Responses(disk, b, names) + [] == Responses(disk, b, names);
  }

  /** One round of the do-while loop. */
  method ServeOne(conn: Connection, disk: Disk, buf: array<byte>, wipes: bool, filePlan: seq<Event>)
    returns (turn: Turn, ghost reply: seq<byte>, ghost cut: nat)
    requires conn.isOpen && buf.Length > 0 && Fault !in filePlan && CounterFits(disk) && Fits(conn.arrivals, buf.Length)
    modifies conn, conn.fd`output, conn.fd`writePlan, conn.fd`interrupted, buf
    ensures Fits(conn.arrivals, buf.Length)
    ensures turn == Again ==> |conn.arrivals| < |old(conn.arrivals)|
    ensures (conn.isOpen <==> turn == Again || turn.exit in {NotOpened, Spinning, Drained}) && conn.Untouched()
    ensures cut <= |ERR| && (cut > 0 ==> turn == Done(Rejected))
    ensures turn == Done(Rejected) ==>
              conn.fd.output == old(conn.fd.output) + ERR[..Max(WriteResult(old(conn.fd.writePlan), |ERR|), 0)]
    ensures old(conn.Healthy()) ==>
              && conn.fd.output == old(conn.fd.output) + reply + ERR[..cut]
              && Serve(disk, buf.Length, wipes, old(conn.arrivals), old(buf[..])) ==
                 (match turn
                  case Again => Serve(disk, buf.Length, wipes, conn.arrivals, buf[..]).After(reply)
                  case Done(exit) => Transcript(reply, exit))
    ensures turn == Again && old(conn.Healthy()) ==> conn.Healthy()
    ensures old(conn.arrivals) == [] || old(conn.arrivals)[0].Timeout? ==> turn == Done(TimedOut)
    ensures old(conn.arrivals) != [] && old(conn.arrivals)[0].Segment? && Failing(old(conn.sockErrors)) ==>
              turn == Done(Dropped)
    ensures if Reads(old(conn.arrivals), old(conn.sockErrors))
            then
              && conn.arrivals == old(conn.arrivals)[1..]
              && buf[..] == Filled(old(buf[..]), old(conn.arrivals)[0].data, wipes)
              && (turn.Done? ==> Means(turn.exit, ParseRequest(buf[..]), disk, conn.sockErrors))
              && (turn == Done(Drained) ==> old(conn.arrivals)[0].data == [])
            else conn.fd.output == old(conn.fd.output) && conn.arrivals == old(conn.arrivals) && buf[..] == old(buf[..])
    ensures Life(disk, buf.Length, wipes, old(conn.arrivals), old(buf[..]), old(conn.State())) ==
              (match turn
               case Again => Life(disk, buf.Length, wipes, conn.arrivals, buf[..], conn.State())
               case Done(exit) => exit)
    ensures old(conn.fd.output)
              + Said(disk, buf.Length, wipes, old(conn.arrivals), old(buf[..]), old(conn.State())) ==
              conn.fd.output +
              (if turn == Again then Said(disk, buf.Length, wipes, conn.arrivals, buf[..], conn.State()) else [])
    ensures wipes ==> turn != Done(Drained)
  {
    hide Filled, Said, RoundOut, Serve, Life, Response, AfterFile, FileEnding, ParseRequest, TurnOn, Reaction;
    reply, cut := [], 0;
    ghost var w := conn.State();
    if !Reads(conn.arrivals, conn.sockErrors) {
      EmptyRound(disk, buf.Length, wipes, conn.arrivals, buf[..], w);
    } else {
      SegmentRound(disk, buf.Length, wipes, conn.arrivals, buf[..], w);
    }
    var ready := conn.Ready();
    if !ready {
      conn.Close();
      return Done(TimedOut), reply, cut;
    }
    var e := conn.SockError();
    if e {
      conn.Close();
      return Done(Dropped), reply, cut;
    }
    var data := conn.NextSegment();
    WipedEmptyRead(buf[..]);
    Fill(buf, data, wipes);
    ghost var out, command := conn.fd.output, ParseRequest(buf[..]);
    ghost var sent := RoundOut(disk, buf.Length, command, conn.State());
    turn, reply, cut := React(conn, disk, buf.Length, ParseRequest(buf[..]), data == [], filePlan);
    Regroup(out, sent, if turn == Again then Said(disk, buf.Length, wipes, conn.arrivals, buf[..], conn.State())
        else []);
  }

  /** The segments read so far and what they have left in the buffer. */
  ghost predicate ReadSoFar(arrivals: seq<Arrival>, rest: seq<Arrival>, n: nat, start: seq<byte>, buf: seq<byte>,
                            wipes: bool) {
    && n <= |arrivals| && rest == arrivals[n..] && |buf| == |start|
    && (forall i :: 0 <= i < n ==> arrivals[i].Segment? && |arrivals[i].data| <= |start|)
    && buf == BufferAfter(start, arrivals[..n], wipes)
  }

  lemma ReadOneMore(arrivals: seq<Arrival>, rest: seq<Arrival>, n: nat, start: seq<byte>, buf: seq<byte>, wipes: bool)
    requires ReadSoFar(arrivals, rest, n, start, buf, wipes)
    requires rest != [] && rest[0].Segment? && |rest[0].data| <= |start|
    ensures ReadSoFar(arrivals, rest[1..], n + 1, start, Filled(buf, rest[0].data, wipes), wipes)
    ensures n < |arrivals| && rest[0] == arrivals[n]
  {
    assert arrivals[..n + 1][..n] == arrivals[..n];
  }

  /**
   * service: closed at most once, and on every exit but three: a request for a file that
   * cannot be opened, the content loop that never ends, and without the wiping the end of
   * the input.  On any connection the exit is the one Life computes; on a healthy one the
   * conversation is the one Serve describes, from whatever malloc left in the buffer.
   */
  method Service(conn: Connection, disk: Disk, buflen: nat, wipes: bool, filePlan: seq<Event>)
    returns (exit: Exit, ghost start: seq<byte>, ghost cut: nat, ghost n: nat)
    requires conn.isOpen && buflen > 0 && Fault !in filePlan && CounterFits(disk) && Fits(conn.arrivals, buflen)
    modifies conn, conn.fd`output, conn.fd`writePlan, conn.fd`interrupted
    ensures |start| == buflen && cut <= |ERR| && (cut > 0 ==> exit == Rejected)
    ensures (conn.isOpen <==> exit in {NotOpened, Spinning, Drained}) && conn.Untouched()
    ensures wipes ==> exit != Drained
    ensures n <= |old(conn.arrivals)| && conn.arrivals == old(conn.arrivals)[n..]
    ensures forall i :: 0 <= i < n ==> old(conn.arrivals)[i].Segment? && |old(conn.arrivals)[i].data| <= buflen
    ensures exit !in {TimedOut, Dropped} ==>
              && n > 0
              && Means(exit, ParseRequest(BufferAfter(start, old(conn.arrivals)[..n], wipes)), disk, conn.sockErrors)
    ensures exit == Drained ==> n > 0 && old(conn.arrivals)[n - 1] == Segment([])
    ensures exit == Life(disk, buflen, wipes, old(conn.arrivals), start, old(conn.State()))
    ensures conn.fd.output ==
            old(conn.fd.output) + Said(disk, buflen, wipes, old(conn.arrivals), start, old(conn.State()))
    ensures old(conn.Healthy()) ==>
              var t := Serve(disk, buflen, wipes, old(conn.arrivals), start);
              conn.fd.output == old(conn.fd.output) + t.replies + ERR[..cut] && exit == t.exit
  {
    hide Said, Serve, Life, BufferAfter, ParseRequest, Filled, Means, ReadSoFar;
    var buf := new byte[buflen];
    start := buf[..];
    ghost var arrivals := conn.arrivals;
    ghost var healthy, output := conn.Healthy(), conn.fd.output;
    ghost var whole := Serve(disk, buflen, wipes, conn.arrivals, start);
    ghost var life := Life(disk, buflen, wipes, conn.arrivals, start, conn.State());
    ghost var said := output + Said(disk, buflen, wipes, conn.arrivals, start, conn.State());
    ghost var replies, reply := [], [];
    var turn := Again;
    cut, n := 0, 0;
    assert whole == whole.After([]);
    NothingRead(arrivals, start, wipes);
    while turn == Again
      invariant turn == Again ==> conn.isOpen && Fits(conn.arrivals, buflen) && cut == 0
      invariant (conn.isOpen <==> turn == Again || turn.exit in {NotOpened, Spinning, Drained}) && conn.Untouched()
      invariant wipes ==> turn != Done(Drained)
      invariant cut <= |ERR| && (cut > 0 ==> turn == Done(Rejected))
      invariant ReadSoFar(arrivals, conn.arrivals, n, start, buf[..], wipes)
      invariant turn == Done(Drained) ==> 0 < n <= |arrivals| && arrivals[n - 1] == Segment([])
      invariant turn.Done? && turn.exit !in {TimedOut, Dropped} ==>
                  n > 0 && Means(turn.exit, ParseRequest(buf[..]), disk, conn.sockErrors)
      invariant life == if turn.Done? then turn.exit
                      else Life(disk, buflen, wipes, conn.arrivals, buf[..], conn.State())
      invariant said == conn.fd.output + (if turn == Again then
                                              Said(disk, buflen, wipes, conn.arrivals, buf[..], conn.State()) else [])
      invariant healthy && turn != Again ==> conn.fd.output == output + replies + ERR[..cut]
      invariant healthy && turn == Again ==> conn.Healthy() && conn.fd.output == output + replies
      invariant healthy && turn == Again ==> whole == Serve(disk, buflen, wipes, conn.arrivals, buf[..]).After(replies)
      invariant healthy && turn != Again ==> whole == Transcript(replies, turn.exit)
      decreases turn == Again, |conn.arrivals|
    {
      ghost var rest, was, segment := conn.arrivals, buf[..], Reads(conn.arrivals, conn.sockErrors);
      turn, reply, cut := ServeOne(conn, disk, buf, wipes, filePlan);
      if segment {
        ReadOneMore(arrivals, rest, n, start, was, wipes);
        n := n + 1;
      }
      RegroupReplies(output, replies, reply, ERR[..cut]);
      replies := replies + reply;
      assert turn == Again ==> output + replies + ERR[..cut] == output + replies;
    }
    exit := turn.exit;
    assert conn.fd.output + [] == conn.fd.output;
    WhatWasRead(arrivals, conn.arrivals, n, start, buf[..], wipes);
  }

  lemma WhatWasRead(arrivals: seq<Arrival>, rest: seq<Arrival>, n: nat, start: seq<byte>, buf: seq<byte>, wipes: bool)
    requires ReadSoFar(arrivals, rest, n, start, buf, wipes)
    ensures n <= |arrivals| && rest == arrivals[n..]
    ensures forall i :: 0 <= i < n ==> arrivals[i].Segment? && |arrivals[i].data| <= |start|
    ensures buf == BufferAfter(start, arrivals[..n], wipes)
  {
  }

  lemma NothingRead(arrivals: seq<Arrival>, start: seq<byte>, wipes: bool)
    ensures ReadSoFar(arrivals, arrivals, 0, start, start, wipes)
  {
  }

  lemma RegroupReplies(a: seq<byte>, b: seq<byte>, c: seq<byte>, d: seq<byte>)
    ensures a + b + c + d == a + (b + c) + d
    ensures forall t: Transcript :: t.After(c).After(b) == t.After(b + c)
  {
    forall t: Transcript
      ensures t.After(c).After(b) == t.After(b + c)
    {
      assert b + (c + t.replies) == b + c + t.replies;
    }
  }
}
