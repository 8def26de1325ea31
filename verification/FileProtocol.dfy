/** The file-transfer protocol: requests, replies, and how much of a file send_file delivers. */
module FileProtocol {
  import opened Octets

  type Name = seq<byte>

  datatype File = File(content: seq<byte>, mtime: nat)

  type Disk = map<Name, File>

  const HEADER := 13
  const INTMAX := 0x7fff_ffff

  const OK: seq<byte> := [43, 79, 75, 13, 10]              // "+OK\r\n"
  const ERR: seq<byte> := [45, 69, 82, 82, 13, 10, 0]      // "-ERR\r\n" and its terminator
  const QUIT: seq<byte> := [81, 85, 73, 84]                // "QUIT"
  const GET: seq<byte> := [71, 69, 84]                     // "GET"

  // ---------------------------------------------------------------- requests

  datatype Command = Quit | Get(name: Name) | WrongCommand | WrongCount

  /** What the client prints for a command-line argument. */
  function FormatRequest(name: Name): seq<byte> {
    if name == QUIT then QUIT + CRLF else GET + [SPACE] + name + CRLF
  }

  function Token(s: seq<byte>): (r: seq<byte>)
    ensures r <= s && forall c :: c in r ==> !Blank(c) && c in s
  {
    if s == [] || Blank(s[0]) then [] else [s[0]] + Token(s[1..])
  }

  /** sscanf "%s %s": the first two tokens, empty where the string ends too soon. */
  function Scan(s: seq<byte>): (r: (seq<byte>, seq<byte>))
    ensures forall c :: c in r.1 ==> !Blank(c) && c in s
  {
    var a := SkipBlanks(s);
    var command := Token(a);
    var tail := a[|command|..];
    assert forall c :: c in tail ==> c in a && c in s;
    (command, Token(SkipBlanks(tail)))
  }

  /** strncmp against "QUIT\r\n", then sscanf "%s %s\r\n" and strncmp against "GET". */
  function ParseRequest(data: seq<byte>): Command {
    var s := CString(data);
    var (command, filename) := Scan(s);
    if QUIT + CRLF <= s then Quit
    else if command == [] || filename == [] then WrongCount
    else if GET <= command then Get(filename)
    else WrongCommand
  }

  predicate ValidName(name: Name) {
    name != [] && name != QUIT && NUL !in name && forall c :: c in name ==> !Blank(c)
  }

  lemma {:induction false} TokenEnds(t: seq<byte>, rest: seq<byte>)
    requires (forall x :: x in t ==> !Blank(x)) && (rest == [] || Blank(rest[0]))
    ensures Token(t + rest) == t
  {
    if t == [] {
      assert t + rest == rest;
    } else {
      assert (t + rest)[1..] == t[1..] + rest;
      TokenEnds(t[1..], rest);
    }
  }

  /** Octets that %s takes: no white space and no NUL. */
  ghost predicate Dense(s: seq<byte>) {
    forall c :: c in s ==> c !in {0, 9, 10, 11, 12, 13, 32}
  }

  /** A buffer of white space, a word, white space, a second word, and then a NUL, white space or its end. */
  ghost predicate Words(data: seq<byte>, gap: seq<byte>, word: seq<byte>, mid: seq<byte>, name: seq<byte>,
                        rest: seq<byte>) {
    && data == gap + (word + (mid + (name + rest)))
    && Spaces(gap) && Dense(word) && Spaces(mid) && Dense(name)
    && (word == [] ==> mid == []) && (mid == [] ==> name == [])
    && (rest == [] || rest[0] == 0 || (name != [] && Spaces(rest[..1])))
  }

  lemma ScanWords(gap: seq<byte>, word: seq<byte>, mid: seq<byte>, name: seq<byte>, rest: seq<byte>)
    requires Words(gap + (word + (mid + (name + rest))), gap, word, mid, name, rest) && NUL !in rest
    ensures Scan(gap + (word + (mid + (name + rest)))) == (word, name)
  {
    hide SkipBlanks, Token;
    var b := name + rest;
    var a := word + (mid + b);
    assert word != [] ==> a[0] == word[0] && word[0] in word;
    assert mid != [] ==> (mid + b)[0] == mid[0] && mid[0] in mid;
    assert name != [] ==> b[0] == name[0] && name[0] in name;
    assert rest != [] ==> rest[0] in rest && rest[0] in rest[..1];
    BlanksSkipped(gap, a);
    TokenEnds(word, mid + b);
    assert a[|word|..] == mid + b;
    BlanksSkipped(mid, b);
    TokenEnds(name, rest);
  }

  lemma WordsText(data: seq<byte>, gap: seq<byte>, word: seq<byte>, mid: seq<byte>, name: seq<byte>, rest: seq<byte>)
    requires Words(data, gap, word, mid, name, rest)
    ensures CString(data) == gap + (word + (mid + (name + CString(rest))))
    ensures Words(CString(data), gap, word, mid, name, CString(rest))
  {
    hide CString;
    CStringOfPrefix(name, rest);
    CStringOfPrefix(mid, name + rest);
    CStringOfPrefix(word, mid + (name + rest));
    CStringOfPrefix(gap, word + (mid + (name + rest)));
    assert CString(rest) != [] ==> CString(rest)[..1] == rest[..1];
  }

  /**
   * Which requests are served: QUIT and a line end at the front, or else a first word that begins with
   * GET and a second one, the file's name.  Every other buffer is an error.
   */
  lemma ParseLaw(data: seq<byte>, gap: seq<byte>, word: seq<byte>, mid: seq<byte>, name: seq<byte>, rest: seq<byte>)
    requires Words(data, gap, word, mid, name, rest)
    ensures ParseRequest(data) ==
            if [81, 85, 73, 84, 13, 10] <= data then Quit
            else if name == [] then WrongCount
            else if [71, 69, 84] <= word then Get(name)
            else WrongCommand
  {
    WordsText(data, gap, word, mid, name, rest);
    ScanWords(gap, word, mid, name, CString(rest));
    hide CString, Scan, Words;
    QuitFirst(data);
  }

  lemma QuitFirst(data: seq<byte>)
    ensures QUIT + CRLF <= CString(data) <==> [81, 85, 73, 84, 13, 10] <= data
  {
    hide CString;
    assert QUIT + CRLF == [81, 85, 73, 84, 13, 10] && NUL !in QUIT + CRLF;
    PrefixOfCString(QUIT + CRLF, data);
  }

  /** Every buffer is of that form. */
  lemma EveryBuffer(data: seq<byte>)
    returns (gap: seq<byte>, word: seq<byte>, mid: seq<byte>, name: seq<byte>, rest: seq<byte>)
    ensures Words(data, gap, word, mid, name, rest)
  {
    var a, b, c;
    gap, a := SpacesFirst(data);
    word, b := DenseFirst(a);
    mid, c := SpacesFirst(b);
    name, rest := DenseFirst(c);
    if word == [] {
      mid, name, rest := [], [], a;
    } else if mid == [] {
      name, rest := [], b;
    }
  }

  lemma SpacesFirst(s: seq<byte>) returns (gap: seq<byte>, rest: seq<byte>)
    ensures s == gap + rest && Spaces(gap) && (rest == [] || !Spaces(rest[..1]))
  {
    if s == [] || !Spaces(s[..1]) {
      gap, rest := [], s;
    } else {
      gap, rest := SpacesFirst(s[1..]);
      gap := s[..1] + gap;
    }
  }

  lemma DenseFirst(s: seq<byte>) returns (word: seq<byte>, rest: seq<byte>)
    ensures s == word + rest && Dense(word) && (rest == [] || !Dense(rest[..1]))
  {
    if s == [] || !Dense(s[..1]) {
      word, rest := [], s;
    } else {
      word, rest := DenseFirst(s[1..]);
      word := s[..1] + word;
    }
  }

  /** A request as octets: QUIT and a line end, or GET, a space, the name and a line end. */
  lemma RequestOctets(name: Name)
    ensures FormatRequest(name) ==
            if name == [81, 85, 73, 84] then [81, 85, 73, 84, 13, 10] else [71, 69, 84, 32] + name + [13, 10]
  {
  }

  lemma RequestWords(name: Name, stale: seq<byte>)
    requires ValidName(name)
    ensures Words([71, 69, 84, 32] + name + [13, 10] + stale, [], [71, 69, 84], [32], name, [13, 10] + stale)
  {
    assert ([13, 10] + stale)[..1] == [13];
  }

  /** The server reads back the name the client printed, whatever the buffer holds after it. */
  lemma ParseFormatted(name: Name, stale: seq<byte>)
    requires ValidName(name)
    ensures ParseRequest(FormatRequest(name) + stale) == Get(name)
  {
    RequestOctets(name);
    RequestWords(name, stale);
    hide ParseRequest, FormatRequest, Words;
    ParseLaw(FormatRequest(name) + stale, [], [71, 69, 84], [32], name, [13, 10] + stale);
  }

  /** A name the server accepts is a token, so it can hold neither blanks nor NUL. */
  lemma ParsedIsToken(data: seq<byte>, name: Name)
    requires ParseRequest(data) == Get(name)
    ensures name != [] && NUL !in name && forall c :: c in name ==> !Blank(c)
  {
    hide CString, Scan;
    var s := CString(data);
    assert name == Scan(s).1;
  }

  lemma QuitIsQuit()
    ensures ParseRequest(FormatRequest(QUIT)) == Quit
  {
    var s := QUIT + CRLF;
    assert s == [81, 85, 73, 84, 13, 10] && NUL !in s;
  }

  /** Printing and parsing undo each other for exactly the valid names. */
  lemma RequestRoundTrip(name: Name)
    ensures ParseRequest(FormatRequest(name)) == Get(name) <==> ValidName(name)
  {
    hide ParseRequest, FormatRequest;
    if ValidName(name) {
      ParseFormatted(name, []);
      assert FormatRequest(name) + [] == FormatRequest(name);
    } else if ParseRequest(FormatRequest(name)) == Get(name) {
      ParsedIsToken(FormatRequest(name), name);
      QuitIsQuit();
    }
  }

  // ---------------------------------------------------------------- replies

  /** "+OK\r\n", the size and the modification time; both are cut to 32 bits. */
  function Header(f: File): (r: seq<byte>)
    ensures |r| == HEADER
  {
    OK + Word(|f.content| % WORD) + Word(f.mtime % WORD)
  }

  lemma HeaderFields(f: File)
    requires |f.content| < WORD
    ensures Header(f)[0] == 43 && Header(f)[5..9] == Word(|f.content|) && Header(f)[9..] == Word(f.mtime % WORD)
  {
    FieldsApart(OK, Word(|f.content|), Word(f.mtime % WORD));
  }

  lemma FieldsApart(ok: seq<byte>, size: seq<byte>, time: seq<byte>)
    requires |ok| == 5 && |size| == |time| == 4
    ensures (ok + size + time)[0] == ok[0] && (ok + size + time)[..5] == ok
    ensures (ok + size + time)[5..9] == size && (ok + size + time)[9..] == time
  {
  }

  /** A header on the wire: "+OK\r\n", then size and time, most significant octet first. */
  lemma HeaderOctets(f: File)
    ensures Header(f)[..5] == [43, 79, 75, 13, 10]
    ensures Big(Header(f)[5..9]) == |f.content| % 0x1_0000_0000
    ensures Big(Header(f)[9..]) == f.mtime % 0x1_0000_0000
  {
    hide Word, Big;
    WordBig(|f.content| % WORD);
    WordBig(f.mtime % WORD);
    FieldsApart(OK, Word(|f.content| % WORD), Word(f.mtime % WORD));
  }

  /** Rounds of send_file's loop; its counter starts at 13 because it also counts the header. */
  function Rounds(size: nat, b: nat): nat
    requires b > 0
  {
    if size <= HEADER then 0 else (size - HEADER + b - 1) / b
  }

  /** Octets of content send_file delivers. */
  function Delivered(size: nat, b: nat): (n: nat)
    requires b > 0
    ensures n <= size
  {
    Min(size, b * Rounds(size, b))
  }

  /** The file size for which the loop stops only after the last octet. */
  predicate Complete(size: nat, b: nat)
    requires b > 0
  {
    size == 0 || (size - 1) % b >= HEADER
  }

  function Response(f: File, b: nat): (r: seq<byte>)
    requires b > 0
    ensures |r| >= HEADER
  {
    Header(f) + f.content[..Delivered(|f.content|, b)]
  }

  /** Where the file position ends up when the loop goes on from `pos`, one read of min(size, b) a round. */
  function Total(size: nat, b: nat, pos: nat): (r: nat)
    requires b > 0 && pos <= size
    ensures pos <= r <= size
    decreases size - pos
  {
    if HEADER + pos >= size then pos
    else Total(size, b, pos + Min(Min(size, b), size - pos))
  }

  /** n rounds carry everything but the header's share, and n - 1 do not. */
  ghost predicate IsRounds(size: nat, b: nat, n: nat) {
    if size <= HEADER then n == 0 else n > 0 && (n - 1) * b < size - HEADER <= n * b
  }

  lemma RoundsAreRounds(size: nat, b: nat)
    requires b > 0
    ensures IsRounds(size, b, Rounds(size, b))
  {
    if size > HEADER {
      var x, n := size - HEADER, Rounds(size, b);
      assert x + b - 1 == b * n + (x + b - 1) % b;
      assert (n - 1) * b == b * n - b && n * b == b * n;
      if n == 0 {
        assert false;
      }
    }
  }

  /** With m rounds still to go from `pos`, the loop carries m * b octets more or all there are. */
  lemma {:induction false} TotalFrom(size: nat, b: nat, m: nat, pos: nat)
    requires b > 0 && pos <= size
    requires if m == 0 then HEADER + pos >= size else (m - 1) * b < size - HEADER - pos <= m * b
    ensures Total(size, b, pos) == Min(size, pos + m * b)
    decreases m
  {
    if m > 0 {
      OneRoundLess(m, b);
      if pos + b <= size {
        if m > 1 {
          OneRoundLess(m - 1, b);
        }
        TotalFrom(size, b, m - 1, pos + b);
      } else {
        assert Total(size, b, size) == size;
      }
    }
  }

  lemma OneRoundLess(m: nat, b: nat)
    requires m > 0
    ensures (m - 1) * b == m * b - b >= 0
  {
  }

  /** n rounds reach the end exactly when the last round carries at least 14 octets. */
  lemma CompleteRounds(size: nat, b: nat, n: nat)
    requires b > 0 && IsRounds(size, b, n)
    ensures size <= n * b <==> Complete(size, b)
    ensures size > HEADER && !Complete(size, b) && b >= HEADER ==> n * b == size - 1 - (size - 1) % b
  {
    if size > HEADER {
      LastRound(size, b, n, (size - 1) / b, (size - 1) % b);
    } else if size > 0 {
      RemainderAtMost(size - 1, b);
    }
  }

  lemma LastRound(size: nat, b: nat, n: nat, q: nat, r: nat)
    requires r < b && size - 1 == q * b + r
    requires size > HEADER && IsRounds(size, b, n)
    ensures size <= n * b <==> r >= HEADER
    ensures r < HEADER <= b ==> n * b == size - 1 - r
  {
    SameRound(b, n, q, r);
  }

  lemma RemainderAtMost(x: nat, b: nat)
    requires b > 0
    ensures x % b <= x
  {
    var q := x / b;
    assert x == q * b + x % b && q * b >= 0;
  }

  /** Locates size - 13 between the multiples of b around size - 1. */
  lemma SameRound(b: nat, n: nat, q: nat, r: nat)
    requires r < b && n > 0 && (n - 1) * b < q * b + r + 1 - HEADER <= n * b
    ensures r >= HEADER ==> n * b == q * b + b
    ensures r < HEADER ==> n * b <= q * b
    ensures r < HEADER <= b ==> n * b == q * b
  {
    OneRoundLess(n, b);
    OneRoundLess(q + 1, b);
    Times(q + 1, n - 1, b);
    if q > 0 {
      OneRoundLess(q, b);
      Times(n, q - 1, b);
    }
  }

  /**
   * Exact delivery law of send_file: the loop ends after ceil((size - 13) / b) rounds, so it
   * delivers min(size, b * rounds) octets, and the whole file exactly when it is empty or its
   * last round carries at least 14 octets.
   */
  lemma DeliveryLaw(size: nat, b: nat)
    requires b > 0
    ensures Total(size, b, 0) == Delivered(size, b)
    ensures Delivered(size, b) == size <==> Complete(size, b)
  {
    var n := Rounds(size, b);
    RoundsAreRounds(size, b);
    assert 0 * b == 0 && n * b == b * n;
    hide Rounds;
    TotalFrom(size, b, n, 0);
    CompleteRounds(size, b, n);
  }

  /** An incomplete transfer loses the last 1 to 13 octets, as many as the last round would carry. */
  lemma LossLaw(size: nat, b: nat)
    requires b >= HEADER
    ensures size - Delivered(size, b) == if Complete(size, b) then 0 else (size - 1) % b + 1
  {
    var n := Rounds(size, b);
    RoundsAreRounds(size, b);
    assert n * b == b * n;
    CompleteRounds(size, b, n);
    if 0 < size <= HEADER {
      assert (size - 1) % b == size - 1;
    }
  }
}
