# Verification of the socket programs

This project models the programs of the repository that do real work over sockets and proves what
they do for every input, every schedule of short counts and interruptions, and every interleaving of
processes. `read`, `write`, `accept`, `select`, `malloc` and the file system are an environment: streams
of octets and an arbitrary schedule that says how each coming call ends.

| file | what it models |
|---|---|
| `Octets.dfy` | octets, C strings, big-endian words, stores into a buffer |
| `Kernel.dfy` | a descriptor: its two streams, the schedule of its calls, `errno` |
| `SockWrap.dfy` | the stream library: `readn`, `writen`, `sendn`, `readline`, `readline_unbuffered` |
| `FileProtocol.dfy` | requests and replies of the file service, and how much of a file a reply carries |
| `FileServer.dfy` | `send_file`, `service`, and the end of a connection, for the pool server and the fork-per-connection server |
| `FileClient.dfy` | `receive_file`, the request loop, and a whole session of client and server |
| `Pool.dfy` | the prefork pool: workers and clients interleaved in any order |
| `SelectEcho.dfy` | the select-driven echo server with its three tables |
| `SumService.dfy` | the line-by-line sum service |
| `Xdr.dfy` | the wire types, after RFC 4506 sections 4.2, 4.5, 4.13 and 4.14 |
| `SquareServices.dfy` | the three square services, their heap, and the stream client |

Programs that change state are methods over classes and arrays; each is tied to a function of its inputs,
and the laws are lemmas about those functions. `dafny verify dfyconfig.toml` checks everything.

## What the code turns out to do

Where the code does not meet what one would expect of it, the exact condition under which it does is
proved for all inputs.

* **An incomplete file.** The loop of `send_file` starts its counter at 13, because the header is counted into it.
  A file of `size` octets arrives whole exactly when `size == 0` or `(size - 1) % buflen >= 13`; otherwise
  its last `(size - 1) % buflen + 1` octets, between 1 and 13 of them, are never sent
  (`FileProtocol.DeliveryLaw`, `LossLaw`), and the client waits for them (`FileClient.RequestLoop`), in the pool until
  its worker times out (`Pool.PoolOutcome`, `PoolDrains`).
* **Parent and children differ.** The children of the pool use `buflen + 5`. They send what the parent sends
  exactly when both lose nothing or both lose the same (`Pool.SameReply`).
* **A shutdown taken for a request.** The fork-per-connection server does not clear its buffer, so the
  empty read at the client's shutdown leaves the last request in it and the last file is sent once more. The pool
  server clears the buffer and answers `-ERR` (`FileServer.SessionTranscript`).
* **A read across two replies.** Each read of `receive_file` asks for `min(size, buflen)` and not for what is left.
  It stops at the end of its file for every segmentation exactly when nothing else can be in the stream or each
  read asks for one octet at most (`FileClient.TakeLockStep`, `LockStepNeeded`).
* **Longer destinations.** The client opens its files without truncating them: it ends with the server's octets
  exactly when no destination was longer (`FileClient.SessionExact`).
* **The unbuffered line reader gives up on EINTR**, exactly when one of the calls it needs is interrupted or fails;
  the buffered one repeats the call (`SockWrap.ReadlineUnbuffered`, `AgreeOverRuns`).
* **One block lost.** The stream square service loses a heap block exactly when the octets that arrive, before the
  stream ends or a read is disturbed, stop inside the items of a request whose array was granted
  (`SquareServices.StreamService`, `Child`). The datagram service never loses one (`AllocService`, `AllocServer`).
* **Squares.** They are exact for magnitudes up to 3037000499 and no others; the client, which prints 32 bits,
  shows the square itself exactly for operands below 65536 (`SquareServices.SquareLaw`, `ShownExactly`).
* **An answer cut short.** `prot_a` sends its error answer with one `send` and ignores the count. Writes that never fail
  but may be short deliver all answers exactly when no line is wrong: a first write of one octet cuts the error answer
  (`SumService.ReliableLaw`, `CuttingCuts`). For each schedule of writes the condition is `SumService.OutputLaw`'s.
* **A transfer that never ends.** A failed write takes one off the counter of `send_file`. With a buffer of at least
  13 octets the loop then never reaches its end: it runs until a check reports a socket error, and for ever if none does
  (`FileServer.SendContent`, `FileLaw`). Blocks sent after the one that was cut leave a gap: what goes out is a prefix of
  the file for every file exactly when no octet follows a cut block (`FileServer.PrefixLaw`, `GapExample`).
* **A connection left open.** A request for a file that is not there ends the service without a reply and without a
  close (`FileServer.Service`); in the pool the worker goes on and the client gives up (`Pool.PoolDrains`).
* **Any word that begins with GET.** The server compares three octets of the first word, so `GETX name` is served like
  `GET name`; every other first word, and a line of fewer than two words, is refused (`FileProtocol.ParseLaw`). Without the
  clearing, a line that does not end in its segment goes on in what the buffer held (`FileServer.LineSeen`).
* **Numbers that are no 16 bits.** The sum service takes signs and any number of digits: `-1` counts as 65535, and so does
  every number from 2^64 on (`SumService.ScanLaw`, `TwoOperands`).

## Model

| member | source | states |
|---|---|---|
| SockWrap.PullExact | lab3/es3/sockwrap.c:236-264 | a read loop that does not fail returns everything asked for or everything there was; it never fails on an interruption |
| SockWrap.PullFails | lab3/es3/sockwrap.c:236-264 | a read loop fails exactly when an error comes in the schedule before the counts have brought enough or a read has met the end of the stream |
| SockWrap.NextBroken | lab3/es3/sockwrap.c:286-293 | for one more octet that is: the first event that is not an interruption is an error |
| SockWrap.Readn | lab3/es3/sockwrap.c:236-264 | the octets moved are a prefix of the stream, stored in order at the start of the buffer; moved and left together are the old stream; ends for every schedule |
| SockWrap.PushExact | lab3/es3/sockwrap.c:382-406 | a write loop moves everything or fails, and fails only on an error or a zero count |
| SockWrap.PushFails | lab3/es3/sockwrap.c:382-439 | a write loop fails exactly when an error, or a zero count while errno is not EINTR, comes in the schedule before the counts have carried everything |
| SockWrap.Writen | lab3/es3/sockwrap.c:382-439 | the octets sent are a prefix of the buffer, the whole of it exactly when the call does not return -1; how many they are and the errno left behind depend on the schedule alone |
| SockWrap.LineLenUnique | lab3/es3/sockwrap.c:310-327 | a line's length is the only one that stops at the first newline, the end of the stream or the room |
| SockWrap.LineLaw | lab3/es3/sockwrap.c:304-330 | at most maxlen-1 octets are stored and the terminator fits; 0 only at the end of the stream, k for a line that ends in newline, k+1 for one that is cut |
| SockWrap.LineReader.Refill | lab3/es3/sockwrap.c:286-296 | a refill loses nothing and fails exactly when an error comes in the schedule before any read that is not interrupted; whether one of the later refills for any number of octets will fail is decided by what is left of the schedule |
| SockWrap.LineReader.NextBuffered | lab3/es3/sockwrap.c:298-300 | the octet handed out is the next unread one |
| SockWrap.LineReader.MyRead | lab3/es3/sockwrap.c:278-301 | one octet of the unread input, 0 exactly at its end, -1 with nothing lost exactly when the cache is empty and the refill meets an error; interruptions never end a call |
| SockWrap.LineReader.Readline | lab3/es3/sockwrap.c:304-330 | the next line of the unread input with its terminator, and the rest stays unread; -1 exactly when an error meets one of the refills that bring the octets the line needs beyond those in the cache |
| SockWrap.RecvByte | lab3/es3/sockwrap.c:351 | one octet, the end, or an error exactly when the call is interrupted or fails |
| SockWrap.ReadlineUnbuffered | lab3/es3/sockwrap.c:343-369 | the next line of the stream; -1 exactly when a recv it needs is interrupted or fails; a successful call uses exactly the recv calls its line needs |
| SockWrap.LinesArePrefix | lab3/es3/sockwrap.c:304-330 | over any run of calls no octet is dropped, repeated or reordered |
| SockWrap.SameLine | lab3/es3/sockwrap.c:304-369 | one call of each reader on the same unread input gives the same value, the same stored octets and the same rest |
| SockWrap.AgreeOverRuns | lab3/es3/sockwrap.c:278-369 | the buffered reader gives the answers of the unbuffered one over any run of calls, any refill sizes and any interruptions |
| FileProtocol.ParseFormatted | lab3/es3/server.c:123-145 | the server reads back the name the client printed, whatever follows it in the buffer |
| FileProtocol.ParseLaw | lab3/es3/server.c:135-160 | the requests served, octet by octet: QUIT with its line end at the front, or else a first word that begins with GET and then a second one, the name; any other first word is a wrong command and fewer than two words are a wrong count, whatever follows |
| FileProtocol.EveryBuffer | lab3/es3/server.c:144 | every content of the buffer is of the form that law speaks of |
| FileProtocol.ParsedIsToken | lab3/es3/server.c:144 | a name the server accepts is not empty and holds no blank and no NUL |
| FileProtocol.RequestRoundTrip | lab2/lab2.3/source/client1/client1_main.c:43-48 | printing and parsing undo each other for exactly the names that are tokens other than QUIT |
| FileProtocol.HeaderFields | lab3/es3/server.c:184-243 | the header starts with a plus sign and holds the file's size at octets 5 to 8 and its modification time in the last four |
| FileProtocol.HeaderOctets | lab3/es3/server.c:184-243 | a header on the wire: +OK and its line end, then the size and the time modulo 2^32, most significant octet first |
| Octets.WordOctet | lab3/es3/server.c:184-192 | octet i of a word is v / 256^(3-i) mod 256 |
| FileProtocol.TotalFrom | lab3/es3/server.c:245-264 | from any position the loop goes on for as many rounds as the octets short of the header's share need |
| FileProtocol.RoundsAreRounds | lab3/es3/server.c:245-264 | the number of rounds is the least that covers the size less 13 |
| FileProtocol.CompleteRounds | lab3/es3/server.c:245-264 | that many rounds reach the end of the file exactly when it is empty or the last round carries at least 14 octets |
| FileProtocol.DeliveryLaw | lab3/es3/server.c:219-264 | the loop delivers min(size, buflen * ceil((size-13)/buflen)) octets, the whole file if and only if size = 0 or (size-1) mod buflen >= 13 |
| FileProtocol.LossLaw | lab3/es3/server.c:219-264 | what an incomplete transfer loses is exactly the last (size-1) mod buflen + 1 octets |
| FileServer.SendField | lab3/es3/server.c:211-227 | a header field goes out whole, or the connection is closed and the caller told; after a reported socket error nothing is sent |
| FileServer.SendBlock | lab3/es3/server.c:246-261 | one round sends exactly what it read from the file, or reports -1, or closes exactly on a reported socket error |
| FileServer.SendContent | lab3/es3/server.c:219-264 | on any connection and for any buffer, what goes out, how the loop ends and the connection it leaves are functions of what the connection has ahead of it: each block goes out as far as its write carries it, and a failed write takes one off the counter; endless means the file is used up and no check has an error left |
| FileServer.FileLaw | lab3/es3/server.c:194-264 | a file goes out whole if all its writes do and none of the checks of the header and of the rounds reports an error, and the loop never ends only if the header went out, a write of the content failed, and no check ever reports an error; for a buffer of at least 13 octets both are if and only if |
| FileServer.WholeOut | lab3/es3/server.c:194-264 | a file that ends well with every write gone out has sent exactly its whole reply |
| FileServer.PrefixLaw | lab3/es3/server.c:245-264 | what goes out of the content is a prefix of it, for every file of the size, if and only if no later block sends an octet once a block has been cut |
| FileServer.GapExample | lab3/es3/server.c:260-261 | a write that moves one octet and fails, with the next one going out, leaves a gap: the result of the failed write is added to the counter and the loop goes on |
| FileServer.SoundFrom | lab3/es3/server.c:254-259 | the loop checks the socket once a round, for as many rounds as the delivery law counts |
| FileServer.ShortEnd | lab3/es3/server.c:245-262 | a counter that has fallen behind the octets read stays behind: the loop goes on until a check reports an error, and for ever if none does |
| FileServer.UncleanEnd | lab3/es3/server.c:245-262 | with blocks of 13 octets or more one failed write of the content puts the counter behind |
| FileServer.SmallBlocks | lab3/es3/server.c:245-262 | with smaller blocks it may not: a write of one octet fails and the loop still ends well |
| FileServer.SendHeader | lab3/es3/server.c:194-243 | the three fields go out, or the connection is closed at the first that does not, for exactly the schedules stated |
| FileServer.SendFile | lab3/es3/server.c:167-268 | an absent file leaves the connection open and untouched; for a present one what goes out and how it ends are functions of what the connection has ahead of it; every way out but success and the endless loop has closed it |
| FileServer.Reject | lab3/es3/server.c:275-286 | one write of the seven octets while the connection is open, as much of it as the call moves, and then the close, after which nothing has been written |
| FileServer.React | lab3/es3/server.c:135-160 | each request is answered by its own branch on any connection, with exactly the octets that branch sends, and the connection is left as its schedules say; a turn that goes on has, for a buffer of at least 13 octets, sent the whole reply; not opened if and only if a file was asked for that is not there |
| FileServer.WipedEmptyRead | lab3/es3/server.c:123-158 | a zero-length read on a cleared buffer is always a wrong request |
| FileServer.ServeOne | lab3/es3/server.c:106-162 | one turn of the loop is one step of the conversation on any connection, in what it sends and in how it ends; a rejected request sends as much of the seven octets as the next write moves; a timeout or a reported error closes without an octet sent; nothing is read or written after a close |
| FileServer.Service | lab3/es3/server.c:93-165 | on any connection and for any buffer, the exit and every octet sent are functions of the arrivals, the disk and the schedules, which RoundLaw and LastLine give octet by octet; closed at most once, nothing read or written after the close; the exit is rejected, quit or not opened if and only if the last request read is wrong, a QUIT or for a file that is not there, unless a timeout or an error came first |
| FileServer.RoundLaw | lab3/es3/server.c:106-162 | a round by the octets in the buffer: QUIT and its line end close without a reply; fewer than two words or a first word that does not begin with GET exit rejected after as much of -ERR as the next write moves; a missing file sends nothing; for a file that is there the conversation goes on exactly if it ends well and the segment was not empty, and for a buffer of at least 13 octets it has then sent its whole reply |
| FileServer.LineSeen | lab3/es3/server.c:123-144 | the line in the buffer is the one that came, whatever was there before, if the buffer is cleared or the line was ended in its segment |
| FileServer.GetsThen | lab3/es3/server.c:106-162 | requests for files whose replies go out whole send exactly those replies in order and leave the rest of the conversation as if it came alone |
| FileServer.LastLine | lab3/es3/server.c:135-160 | a conversation that ends, after any number of finished requests, with a line that is no request exits rejected, and its last octets are as much of -ERR, line end and terminator as the next write moves; with QUIT or a missing file it has sent the finished replies and nothing else |
| FileServer.SoundDelivers | lab3/es3/server.c:194-264 | on a connection that never fails, with short counts and interruptions, every reply goes out whole |
| FileServer.WipedForgets | lab3/es3/server.c:123 | with the clearing neither the conversation nor what is sent nor the exit depends on what the buffer held |
| FileServer.NeverDrains | lab3/es3/server.c:162 | the loop condition never ends the pool server's loop |
| FileServer.ServeRequest | lab3/es3/server.c:123-151 | a request of the client is answered with the file's reply, whatever earlier requests left in the buffer |
| FileServer.ServeShutdown | lab2/lab2.3/source/server2/server2_main.c:121-157 | the shutdown is rejected on a cleared buffer and otherwise taken for the last request again |
| FileServer.SessionTranscript | lab2/lab2.3/source/server2/server2_main.c:104-157 | for any list of servable names, the whole conversation of either server |
| FileClient.TakeLockStep | lab2/lab2.3/source/client1/client1_main.c:110-118 | while no later reply is in the stream, the loop takes exactly what has come, for every segmentation |
| FileClient.TakeBounds | lab2/lab2.3/source/client1/client1_main.c:110-118 | otherwise it takes at least its file and runs past it by less than one read |
| FileClient.LockStepNeeded | lab2/lab2.3/source/client1/client1_main.c:112 | with more in the stream, no segmentation makes it overrun if and only if a read asks for one octet at most |
| FileClient.ReceiveBlock | lab2/lab2.3/source/client1/client1_main.c:112-117 | the octets read are the ones written, right after those of the rounds before |
| FileClient.ReceiveContent | lab2/lab2.3/source/client1/client1_main.c:108-118 | what is stored is what was taken off the stream, in order; without a later reply in the stream the loop ends exactly when the whole file has come |
| FileClient.ReceiveFile | lab2/lab2.3/source/client1/client1_main.c:82-125 | in lock step it consumes its own reply and nothing more, and stores exactly its content |
| FileClient.ResponseShape | lab2/lab2.3/source/client1/client1_main.c:88-94 | the server's reply has the fields where the client reads them |
| FileClient.Ask | lab2/lab2.3/source/client1/client1_main.c:43-50 | a request brings exactly the reply of the file asked for, or nothing when the server does not have it |
| FileClient.TakeReply | lab2/lab2.3/source/client1/client1_main.c:59-67 | the first octet decides the branch; a file reply is stored and used up exactly |
| FileClient.Exchange | lab2/lab2.3/source/client1/client1_main.c:43-74 | a turn in lock step ends in lock step with an empty stream, the delivered prefix stored, and goes on exactly when the file is complete; a file the server does not have brings no reply and leaves the directory alone |
| FileClient.FetchedComplete | lab2/lab2.3/source/client1/client1_main.c:40-75 | complete transfers, repeated names included, overlay each name once and touch no other |
| FileClient.SessionExact | lab2/lab2.3/source/client1/client1_main.c:99-118 | after complete transfers every name holds exactly the server's octets if and only if no destination was longer |
| FileClient.LoopGoesOn | lab2/lab2.3/source/client1/client1_main.c:40-75 | one more turn, and the three ways it can go |
| FileClient.LoopEnds | lab2/lab2.3/source/client1/client1_main.c:40-75 | all turns go through if and only if the server has every file and each is complete |
| FileClient.RequestLoop | lab2/lab2.3/source/client1/client1_main.c:40-75 | for any names and any segmentation the loop finishes with the transfers of all of them exactly when every file is there and complete, and otherwise stays in the first incomplete one or gives up at the first missing one, with everything before stored |
| Pool.AcceptKeeps | lab3/es3/server.c:83-86 | accepting keeps the connection's invariant |
| Pool.TakeRequestKeeps | lab3/es3/server.c:124-151 | a request taken starts exactly the reply of the file asked for |
| Pool.AbandonKeeps | lab3/es3/server.c:145-151 | a request for a file that is not there leaves the connection open and unanswered, and everything before it as it was |
| Pool.WriteKeeps | lab3/es3/server.c:245-264 | however a reply is cut into writes, read, in flight and unwritten octets are together that reply |
| Pool.ReadKeeps | lab2/lab2.3/source/client1/client1_main.c:112-117 | however the client's reads are cut, the same |
| Pool.WantedLaw | lab2/lab2.3/source/client1/client1_main.c:59-118 | at each point of a reply the client asks for one octet, three words, then min(size, buflen) at a time, and has its reply exactly after 13 + size octets, size being that of the file on the server |
| Pool.FinishedReply | lab2/lab2.3/source/client1/client1_main.c:110-118 | a client that has read all it asks for has read its whole reply and nothing else, and the file came complete |
| Pool.FinishKeeps | lab2/lab2.3/source/client1/client1_main.c:117-124 | finishing a transfer adds exactly that file to what the client has stored |
| Pool.ReleaseKeeps | lab3/es3/server.c:157-164 | the worker leaves with all replies sent and the closing -ERR after them |
| Pool.TimeOutKeeps | lab3/es3/server.c:109-132 | a worker that times out leaves its client with the replies sent so far |
| Pool.GiveUpKeeps | lab2/lab2.3/source/client1/client1_main.c:54-77 | a client that gives up has read nothing of the reply, and everything before it is stored |
| Pool.StepKeeps | lab3/es3/server.c:66-91 | every step of any worker or client keeps the invariant of the pool: one worker a connection, one connection a worker, queue without repeats |
| Pool.RunKeeps | lab3/es3/server.c:66-91 | so does every run |
| Pool.FirstComeFirstServed | lab3/es3/server.c:83-86 | in every state of every run, a connection still waiting has all later ones waiting behind it |
| Pool.InitialOk | lab3/es3/server.c:66-71 | the invariant holds when the pool starts |
| Pool.PoolSafety | lab3/es3/server.c:66-165 | in every state of every run, timeouts and missing files included, an accepted connection has been sent a prefix of its own worker's replies to it alone, in blocks of buflen + 5 for a child and of buflen for the parent, with the whole of them and -ERR once it is released; its client has stored exactly its finished transfers, each of a complete file; one that waits has been sent nothing |
| Pool.SameReply | lab3/es3/server.c:66-71 | parent and children send the same reply exactly when both lose nothing or both lose the same number of octets |
| Pool.SameResponses | lab3/es3/server.c:66-71 | for files complete for both buffer lengths, whole reply streams are the same |
| Pool.SameFetched | lab3/es3/server.c:66-71 | and so is what the client stores |
| Pool.RunsEnd | lab3/es3/server.c:83-91 | no run, timeouts included, is longer than a bound computed from its start: every schedule comes to rest |
| Pool.HeldAtRest | lab3/es3/server.c:245-264 | before a timeout, a connection that cannot move is one whose client waits for octets an incomplete transfer will not bring |
| Pool.PoolOutcome | lab3/es3/server.c:66-165 | at rest before any timeout, an accepted connection is done if and only if all its files are there and complete, for buflen + 5 if a child has it and for buflen if the parent has, and connections are left waiting only when every worker is held up |
| Pool.PoolDelivers | lab3/es3/server.c:66-165 | with files complete for both lengths every interleaving in which no timeout fires ends with every client served, with exactly the octets of the single-process server's conversation with it and the files it would store |
| Pool.PoolDrains | lab3/es3/server.c:83-151 | timeouts free every worker: when nobody can move any more, no connection is waiting and no worker is busy, and each client has all its files, gave up before a reply began, is stuck in an incomplete file, or was cut off between two requests, with exactly its finished files stored; complete means for buflen + 5 if a child had it and for buflen if the parent had |
| Pool.SingleProcess | lab3/es3/server.c:93-165 | the single-process server's conversation with any client is its replies in order and then the rejected shutdown |
| SelectEcho.EchoesUnique | README.md:112-147 | the effect of a round determines the state after it |
| SelectEcho.EchoesKeeps | README.md:112-147 | descriptors keep standing for different connections, and what was echoed stays so |
| SelectEcho.RunEchoes | README.md:112-147 | over any run, with slots and descriptors reused, each connection has been sent exactly what its own client said, in order and once |
| SelectEcho.SaysOneThing | README.md:133-147 | in a round a connection says one thing, under the one descriptor it has |
| SelectEcho.ViewsAgree | README.md:104-110 | occupied slots are distinct, hold exactly allset without the listening descriptor, are free beyond maxi, and nothing is above maxfd |
| SelectEcho.AddKeeps | README.md:118-129 | adding a client keeps the three tables in step |
| SelectEcho.DropKeeps | README.md:138-141 | so does dropping one |
| SelectEcho.FullCount | README.md:123-124 | no slot is free exactly when there are FD_SETSIZE clients |
| SelectEcho.NeverFull | README.md:123-124 | with descriptors below FD_SETSIZE there is always a free slot |
| SelectEcho.PartlyStep | README.md:136-144 | serving one more ready client changes that client's connection and no other |
| SelectEcho.PartlyAll | README.md:115-147 | admitting the waiting client and serving all ready ones is the round's effect |
| SelectEcho.SplitServed | README.md:136-146 | serving slot i leaves one ready client fewer, all of them in later slots |
| SelectEcho.NobodyAhead | README.md:133 | beyond maxi no ready client is left |
| SelectEcho.Server.constructor | README.md:104-110 | the tables start in step with no client |
| SelectEcho.Server.Select | README.md:113-114 | asking only below maxfd + 1 loses no readable descriptor, and nready counts them |
| SelectEcho.Server.FreeSlot | README.md:118-122 | the first free slot, or FD_SETSIZE when there is none |
| SelectEcho.Server.Store | README.md:120-129 | the tables include the new client and stay in step |
| SelectEcho.Server.Admit | README.md:115-129 | a new connection with nothing said; too many clients exactly when FD_SETSIZE are connected |
| SelectEcho.Server.Serve | README.md:134-143 | the octets read are the octets written back; an empty read drops the client; no other client or slot changes |
| SelectEcho.Server.ServeReady | README.md:136-146 | nready falls by one and still counts the ready clients ahead |
| SelectEcho.Server.Scan | README.md:133-147 | every ready client is served once and nobody else, although the scan stops when nready runs out |
| SelectEcho.Server.Turn | README.md:112-148 | a round has its effect and keeps the tables, a fresh connection is not read from, and the early continue misses nobody |
| SelectEcho.Server.Loop | README.md:112-148 | any number of rounds is a run of such effects |
| SelectEcho.EchoServer | README.md:104-148 | from the start, for any schedule, every connection there has ever been got and was sent exactly what its own client said, in order |
| SumService.ScanDecimal | lab1/test_server/server_test.c:72 | scanning a printed number gives it back, whatever blanks precede and whatever follows |
| SumService.ScanLaw | lab1/test_server/server_test.c:72 | a conversion of blanks, at most one sign and digits gives 65535 from 2^64 on and otherwise the value or its negation modulo 65536, and leaves what follows the digits |
| SumService.NumberLaw | lab1/test_server/server_test.c:72 | a conversion finds a number exactly where blanks, at most one sign and a digit begin the text |
| SumService.DecimalDigit | lab1/test_server/server_test.c:100 | a printed number is its decimal digits, most significant first, without leading zeros |
| SumService.ReplyLaw | lab1/test_server/server_test.c:72-111 | for operands of 16 bits the answer is their sum in decimal and a line end, or overflow exactly when it exceeds 65535 |
| SumService.NoOperand | lab1/test_server/server_test.c:72-81 | a line that does not begin with a number is answered wrong operands |
| SumService.OneOperand | lab1/test_server/server_test.c:72-81 | a line that begins with a number is answered wrong operands if and only if no number follows the first |
| SumService.TwoOperands | lab1/test_server/server_test.c:72-111 | a line that begins with two numbers, signed or beyond 16 bits too, is answered with the sum of the two values stored, or overflow exactly when that exceeds 65535 |
| SumService.AnswerReadBack | lab1/test_server/server_test.c:88-105 | a client that scans the answer gets the sum back, and no number when there was none |
| SumService.RequestIsPiece | lab1/test_server/server_test.c:58 | a request is one piece of the stream, whatever comes after it |
| SumService.PiecesLaw | lab1/test_server/server_test.c:58 | the pieces joined are the input; each has 1 to 254 octets, no newline but at its end, and one there unless it has 254 octets or is the last |
| SumService.SessionLaw | lab1/test_server/server_test.c:52-111 | any list of requests is answered sum by sum, in order |
| SumService.TerminatorHarmless | lab1/test_server/server_test.c:67-68 | the extra terminator stays inside the buffer and never changes the string |
| SumService.SendAll | lab1/test_server/server_test.c:91 | what goes out is the prefix the schedule carries through sendn |
| SumService.SendWrong | lab1/test_server/server_test.c:74-79 | what goes out is as much as the one send moves |
| SumService.SendSum | lab1/test_server/server_test.c:100-105 | the sum is printed inside the line's own buffer and what goes out is the prefix the schedule carries |
| SumService.AnswerLine | lab1/test_server/server_test.c:67-110 | the answer that NoOperand, OneOperand and TwoOperands give for the line that was read goes out, as far as the schedule carries it and no further |
| SumService.ReadPiece | lab1/test_server/server_test.c:58-65 | the next piece of the input, or nothing when the input ends or a recv is disturbed |
| SumService.ProtA | lab1/test_server/server_test.c:45-112 | input, schedules and errno determine the output: the pieces before the first disturbed recv are answered in order, each by the laws for its line and as far as the writes carry it |
| SumService.OutputLaw | lab1/test_server/server_test.c:74-106 | the output is the concatenation of the answers if and only if the schedule carries each whole: the next write for the wrong-operands message, no stop too early for the others |
| SumService.CarriesOne | lab1/test_server/server_test.c:74-105 | an answer goes out whole exactly when its condition on the schedule holds |
| SumService.ReliableLaw | lab1/test_server/server_test.c:74-105 | writes that never fail deliver the answers whole, however short they are, if and only if no line is wrong |
| SumService.CuttingCuts | lab1/test_server/server_test.c:74-75 | a schedule without failures that cuts the first wrong-operands message after one octet |
| SumService.AmpleCarries | lab1/test_server/server_test.c:74-105 | writes that each move 16 octets or more always deliver everything |
| SumService.AnsweredLaw | lab1/test_server/server_test.c:58-65 | all pieces are answered if and only if none of the recv calls they take is disturbed |
| Xdr.HyperRoundTrip | lab2/es4/xdr/4-SquareSequences/types.xdr:5 | decoding undoes encoding of a hyper; its octets are given by HyperOctets |
| Xdr.HyperOnto | lab2/es4/xdr/4-SquareSequences/types.xdr:5 | every eight octets encode exactly one hyper |
| Xdr.HyperOctets | lab2/es4/xdr/4-SquareSequences/types.xdr:5 | octet i of a hyper is u / 256^(7-i) mod 256, u being its two's complement: most significant octet first |
| Xdr.HyperDecodes | lab2/es4/xdr/4-SquareSequences/types.xdr:5 | eight octets decode to the number they stand for, most significant first, less 2^64 from 2^63 on |
| Xdr.SeqItems | lab2/es4/xdr/4-SquareSequences/types.xdr:6 | a sequence on the wire: its count in four octets, then its items in order, eight octets each |
| Xdr.SeqRoundTrip | lab2/es4/xdr/4-SquareSequences/types.xdr:6 | a sequence followed by anything decodes to itself and leaves exactly what followed |
| Xdr.SeqOnto | lab2/es4/xdr/4-SquareSequences/types.xdr:6 | input decodes exactly when its count is at most 100 and its items are all there, and has no second encoding |
| Xdr.ResponseRoundTrip | lab2/es4/xdr/4-SquareSequences/types.xdr:9-12 | the same for a response |
| Xdr.ReplyLength | lab2/es4/xdr/5-SquareSequencesTCP/client/SquareClient.c:119-121 | a reply to n items takes 2*(4+8n) octets: 40 exactly for n = 2, and always fits 65536 |
| SquareServices.SquareLaw | lab2/es4/xdr/3-SquareSequencesAlloc/SquareServer.c:146 | the 64-bit square is exact if and only if the magnitude is at most 3037000499, and always right modulo 2^64, so also modulo 2^32 |
| SquareServices.AnswerLaw | lab2/es4/xdr/4-SquareSequences/SquareServer.c:126-147 | whatever follows a request is ignored, and its answer decodes to the request and its squares |
| SquareServices.AnswerWire | lab2/es4/xdr/4-SquareSequences/SquareServer.c:126-147 | octet by octet: an answer is the request's count and items, the count again, and for each item x its square modulo 2^64, all most significant octet first; there is one exactly for a count of at most 100 with that many items behind it |
| SquareServices.AnswerOfPrefix | lab2/es4/xdr/4-SquareSequences/SquareServer.c:56 | cutting a datagram at 804 octets or more does not change its answer |
| SquareServices.CopyAndSquare | lab2/es4/xdr/3-SquareSequencesAlloc/SquareServer.c:144-147 | the copy equals the request and the other block its squares |
| SquareServices.Respond | lab2/es4/xdr/3-SquareSequencesAlloc/SquareServer.c:144-182 | the reply is encoded from live blocks, all three blocks are freed once on each way out, and the datagram sent is the answer |
| SquareServices.AllocService | lab2/es4/xdr/3-SquareSequencesAlloc/SquareServer.c:96-183 | under every failure of malloc, decoding, encoding or sending the heap ends as it began, no block is decoded into, encoded from, loaded or stored unless live, and the answer is sent exactly when nothing failed |
| SquareServices.MallocCalls | lab2/es4/xdr/3-SquareSequencesAlloc/SquareServer.c:103-142 | one to three calls of malloc for a datagram, each only if the one before was granted and the request decoded |
| SquareServices.ReplyFits | lab2/es4/xdr/4-SquareSequences/SquareServer.c:136-144 | the encoding error cannot happen |
| SquareServices.BuffersSuffice | lab2/es4/xdr/3-SquareSequencesAlloc/SquareServer.c:55 | neither buffer limit ever changes an answer |
| SquareServices.AllocServer | lab2/es4/xdr/3-SquareSequencesAlloc/SquareServer.c:52-62 | any run of datagrams under any failures leaves the heap as it began, and each datagram gets its own answer exactly when its mallocs and its send succeed |
| SquareServices.PlentyOfMemory | lab2/es4/xdr/3-SquareSequencesAlloc/SquareServer.c:52-62 | with memory to spare every accepted datagram gets its answer |
| SquareServices.ArrayService | lab2/es4/xdr/4-SquareSequences/SquareServer.c:97-160 | the same answer, although the request is decoded into the array the reply is encoded from |
| SquareServices.ReadItems | lab2/es4/xdr/5-SquareSequencesTCP/server/SquareServer.c:172 | the items of a request in order into a live block, failing exactly when the octets that arrive run out |
| SquareServices.DecodeStream | lab2/es4/xdr/5-SquareSequencesTCP/server/SquareServer.c:169-175 | decodes what the codec decodes of the octets that arrive, and leaves a block behind exactly when those stop inside the items, under any schedule of reads and of malloc |
| SquareServices.Flush | lab2/es4/xdr/5-SquareSequencesTCP/server/SquareServer.c:209 | as much of the reply goes out as the schedule of writes carries |
| SquareServices.RespondOnStream | lab2/es4/xdr/5-SquareSequencesTCP/server/SquareServer.c:194-214 | the answer, encoded from live blocks, goes out as far as the writes carry it, and then the three blocks are freed |
| SquareServices.AnswerStream | lab2/es4/xdr/5-SquareSequencesTCP/server/SquareServer.c:179-214 | success exactly when both blocks were granted and encoding worked; the request's block is freed on every way out |
| SquareServices.InFile.Get | lab2/es4/xdr/5-SquareSequencesTCP/server/SquareServer.c:156-159 | buffered reads hand out the octets that arrive, in order, and fall short only when no more are coming |
| SquareServices.InFile.Refill | lab2/es4/xdr/5-SquareSequencesTCP/server/SquareServer.c:156-159 | a refill brings something unless the stream has ended or the call is disturbed |
| SquareServices.StreamService | lab2/es4/xdr/5-SquareSequencesTCP/server/SquareServer.c:145-215 | result, output and heap are functions of the octets that arrive and of the schedules; the blocks that were there stay, and one more stays exactly when what arrives stops inside the items of a request whose array was granted |
| SquareServices.Outcomes | lab2/es4/xdr/5-SquareSequencesTCP/server/SquareServer.c:172-192 | which requests are answered, and which malloc calls are made for them |
| SquareServices.ArrivedAnswer | lab2/es4/xdr/5-SquareSequencesTCP/server/SquareServer.c:172-176 | a request that decodes as it arrives is answered like the whole input |
| SquareServices.Undisturbed | lab2/es4/xdr/5-SquareSequencesTCP/server/SquareServer.c:145-215 | without disturbance everything arrives, the whole answer goes out, and only a truncated request loses a block |
| SquareServices.Child | lab2/es4/xdr/5-SquareSequencesTCP/server/SquareServer.c:117-140 | under any schedules each client of a run gets what its own request is due, and the heap grows by one block for each request that stops inside its items as it arrives, and by nothing else |
| SquareServices.ServicesAgree | lab2/es4/xdr/4-SquareSequences/SquareServer.c:97-160 | heap copies, shared arrays and stream give the same octets for every request |
| SquareServices.Ask | lab2/es4/xdr/5-SquareSequencesTCP/client/SquareClient.c:100-115 | the request for two operands goes out whole on a reliable connection |
| SquareServices.Hear | lab2/es4/xdr/5-SquareSequencesTCP/client/SquareClient.c:117-148 | exactly 40 octets are taken off the stream and decoded, or nothing is shown |
| SquareServices.ShownLaw | lab2/es4/xdr/5-SquareSequencesTCP/client/SquareClient.c:117-145 | the reply to two operands is exactly the 40 octets the client waits for and shows their squares modulo 2^32 |
| SquareServices.ShownExactly | lab2/es4/xdr/5-SquareSequencesTCP/client/SquareClient.c:137-144 | what is shown is the square itself exactly for operands below 65536 |
| SquareServices.Converse | lab2/es4/xdr/5-SquareSequencesTCP/client/SquareClient.c:99-145 | client and service together show both squares, whatever the sizes in which the octets travel |

## Left out

- Socket set-up, name resolution, socket options, address printing, tracing, `errlib.c` and the wrappers that only exit on an error: a failure that exits is the end of the modelled run.
- Time: a timeout may fire whenever what is waited for has not come, its length is not modelled; `Pool.PoolOutcome` and `Pool.PoolDelivers` are about runs in which none fires, `Pool.PoolSafety` and `Pool.PoolDrains` about all. Signals, `fork` itself and exit codes: a process is an index.
- `r == EBADF` after `select` (lab3/es3/server.c:111-115): over one descriptor `select` returns -1, 0 or 1 and never that number, so the branch is dead.
- A request that fills the whole buffer without a terminator, and names longer than the arrays `command` and `filename`: the model scans the buffer as far as it goes and bounds no token.
- A request that arrives in two segments: one read is one request, as the code assumes.
- Errors while reading the file in `send_file`, and the file descriptors it never closes.
- A file that changes while it is sent; sizes at which the counter of `send_file` would pass the largest int.
- `manage_error` and what the client does after a rejected request or a QUIT among its names: the modelled client stops there.
- lab2/lab2.3/source/server1, the interactive client of lab3/es2, and the unfinished programs of lab1 and lab2.
- The cache of `my_read` used on two descriptors in turn: it is one static buffer, and the model reads one descriptor.
- Readiness after `select`: a descriptor reported ready holds octets or its end, and reads and writes of the echo server do not fail (they would end the process).
- Descriptors of the echo server above FD_SETSIZE are ordinary members of the set; `FD_SET` gives no such promise.
- `sscanf("%hu")` for numbers beyond 16 bits follows the GNU library; the language leaves it open. A signed square that overflows is cut to 64 bits; the language leaves that open too.
- The XDR library itself is not part of this model: its calls are the codec of the RFC, the array decoder allocates when it is given a null pointer, and the two FILE objects that are never closed are not modelled.
- The main loop of the stream client: one conversation is modelled, with a reply that holds two operands.
- FileServer.FileLaw: for a buffer of fewer than 13 octets the condition on the schedules goes one way only, because a counter that starts at 13 can make up for failed writes of smaller blocks (FileServer.SmallBlocks); the loop itself is exact for every buffer.
- FileClient.ReceiveFile: for a reply shorter than its header it states only that what is stored came off the stream.
- FileClient.RequestLoop: the server at the other end answers at once, and each request finds its buffer cleared; the pool model has replies written and read in pieces.
- Pool.ReleaseKeeps: the closing -ERR goes out whole; a failing or short write of it is modelled in FileServer.Reject.
- Pool.PoolSafety: every name a client asks for is a token other than QUIT whose request fits the smaller buffer; it need not be on the disk.
- Pool.PoolOutcome: the same names as in Pool.PoolSafety.
- Pool.PoolDelivers: the same names as in Pool.PoolSafety, and all of them are on the disk.
- Pool.PoolDrains: the same names as in Pool.PoolSafety; writes to a client that has given up still count as sent, and what a client tries after its worker has timed out is not modelled.
- `errno` is kept for each descriptor; one that an interrupted call on another descriptor left behind is not seen. It matters only to a write that returns zero.
- SquareServices.StreamService: an encoding failure sends nothing; octets an earlier flush may have sent are not modelled.
