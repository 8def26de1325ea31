/**
 * The environment of every component: a descriptor with the bytes that read(2) has still
 * to deliver, the bytes that write(2) has accepted, and a schedule saying how each coming
 * call ends.  Schedules are arbitrary finite sequences; once one runs out, calls move as
 * much as they can.
 */
module Kernel {
  import opened Octets

  /** How one system call ends: EINTR, another error, or at most n bytes moved. */
  datatype Event = Interrupt | Fault | Move(n: nat)

  /** What read(2) returns.  With bytes available it moves at least one; zero means end of stream. */
  function ReadResult(ev: seq<Event>, want: nat, avail: nat): (rc: int)
    ensures -1 <= rc <= want && rc <= avail
    ensures rc == 0 ==> want == 0 || avail == 0
  {
    if ev == [] then Min(want, avail)
    else match ev[0]
      case Interrupt => -1
      case Fault => -1
      case Move(k) => Min(Max(k, 1), Min(want, avail))
  }

  /** What write(2) returns; a zero leaves errno as it was. */
  function WriteResult(ev: seq<Event>, want: nat): (rc: int)
    ensures -1 <= rc <= want
  {
    if ev == [] then want
    else match ev[0]
      case Interrupt => -1
      case Fault => -1
      case Move(k) => Min(k, want)
  }

  /** No write fails; interruptions and short counts are allowed. */
  ghost predicate Reliable(plan: seq<Event>) {
    Fault !in plan && Move(0) !in plan
  }

  class Descriptor {
    var input: seq<byte>
    var output: seq<byte>
    var readPlan: seq<Event>
    var writePlan: seq<Event>
    var interrupted: bool  // errno == EINTR; successful calls do not touch errno

    constructor (input: seq<byte>, readPlan: seq<Event>, writePlan: seq<Event>)
      ensures this.input == input && this.readPlan == readPlan && this.writePlan == writePlan
      ensures output == [] && !interrupted
    {
      this.input, this.readPlan, this.writePlan := input, readPlan, writePlan;
      output, interrupted := [], false;
    }

    /** read(2): `chunk` moves from the front of the input into the buffer. */
    method Read(buf: array<byte>, at: nat, n: nat) returns (rc: int, ghost chunk: seq<byte>)
      requires at + n <= buf.Length
      modifies this`input, this`readPlan, this`interrupted, buf
      ensures rc == ReadResult(old(readPlan), n, |old(input)|) && readPlan == Rest(old(readPlan))
      ensures interrupted == if rc < 0 then old(readPlan)[0].Interrupt? else old(interrupted)
      ensures |chunk| == Max(rc, 0) && old(input) == chunk + input
      ensures buf[..] == Blit(old(buf[..]), at, chunk)
    {
      rc := ReadResult(readPlan, n, |input|);
      if rc < 0 {
        interrupted := readPlan[0].Interrupt?;
      }
      readPlan := Rest(readPlan);
      var moved := Max(rc, 0);
      chunk := input[..moved];
      forall i | 0 <= i < moved {
        buf[at + i] := input[i];
      }
      input := input[moved..];
    }

    /** write(2): the octets moved are appended to the output. */
    method Write(buf: array<byte>, at: nat, n: nat) returns (rc: int)
      requires at + n <= buf.Length
      modifies this`output, this`writePlan, this`interrupted
      ensures rc == WriteResult(old(writePlan), n) && writePlan == Rest(old(writePlan))
      ensures interrupted == if rc < 0 then old(writePlan)[0].Interrupt? else old(interrupted)
      ensures output == old(output) + buf[at..at + Max(rc, 0)]
    {
      rc := WriteResult(writePlan, n);
      if rc < 0 {
        interrupted := writePlan[0].Interrupt?;
      }
      writePlan := Rest(writePlan);
      output := output + buf[at..at + Max(rc, 0)];
    }
  }
}
