/** prot_a, the service that answers each line with the sum of its two operands. */
module SumService {
  import opened Octets
  import opened Kernel
  import opened SockWrap

  const MAXBUFL := 255
  const MAX_UINT16 := 0xffff
  const ULONG := 0x1_0000_0000_0000_0000

  // "wrong operands\r\n"
  const WRONG: seq<byte> := [119, 114, 111, 110, 103, 32, 111, 112, 101, 114, 97, 110, 100, 115] + CRLF
  // "overflow\r\n"
  const OVERFLOW: seq<byte> := [111, 118, 101, 114, 102, 108, 111, 119] + CRLF

  // ---------------------------------------------------------------- numbers

  predicate Digit(c: byte) { 48 <= c <= 57 }

  function DigitLen(s: seq<byte>): (k: nat)
    ensures k <= |s| && forall i :: 0 <= i < k ==> Digit(s[i])
  {
    if s == [] || !Digit(s[0]) then 0 else 1 + DigitLen(s[1..])
  }

  function DigitsValue(s: seq<byte>): nat
    requires forall i :: 0 <= i < |s| ==> Digit(s[i])
  {
    if s == [] then 0
    else
      var c := s[|s| - 1];
      assert Digit(c);
      10 * DigitsValue(s[..|s| - 1]) + (c - 48) as nat
  }

  /** "%u". */
  function Decimal(v: nat): (r: seq<byte>)
    ensures r != [] && forall i :: 0 <= i < |r| ==> Digit(r[i])
  {
    (if v < 10 then [] else Decimal(v / 10)) + [(48 + v % 10) as byte]
  }

  /** strtoul and the cut to 16 bits, as the GNU library converts for "%hu". */
  function Short(negative: bool, v: nat): (r: nat)
    ensures r <= MAX_UINT16
  {
    if v >= ULONG then MAX_UINT16 else if negative then (ULONG - v) % 0x1_0000 else v % 0x1_0000
  }

  datatype Scanned = NoNumber | Number(value: nat, rest: seq<byte>)

  /** One "%hu": blanks, a sign if there is one, digits. */
  function ScanShort(s: seq<byte>): (r: Scanned)
    ensures r.Number? ==> r.value <= MAX_UINT16
  {
    var a := SkipBlanks(s);
    var signed := a != [] && (a[0] == 43 || a[0] == 45);
    var b := if signed then a[1..] else a;
    var k := DigitLen(b);
    if k == 0 then NoNumber else Number(Short(signed && a[0] == 45, DigitsValue(b[..k])), b[k..])
  }

  lemma {:induction false} DecimalValue(v: nat)
    ensures DigitsValue(Decimal(v)) == v
  {
    var front := if v < 10 then [] else Decimal(v / 10);
    assert Decimal(v) == front + [(48 + v % 10) as byte];
    assert (front + [(48 + v % 10) as byte])[..|front|] == front;
    if v >= 10 {
      DecimalValue(v / 10);
    }
  }

  lemma {:induction false} DigitsEnd(s: seq<byte>, rest: seq<byte>)
    requires forall i :: 0 <= i < |s| ==> Digit(s[i])
    requires rest == [] || !Digit(rest[0])
    ensures DigitLen(s + rest) == |s|
  {
    if s == [] {
      assert s + rest == rest;
    } else {
      assert (s + rest)[1..] == s[1..] + rest;
      DigitsEnd(s[1..], rest);
    }
  }

  ghost predicate Digits(s: seq<byte>) {
    forall i :: 0 <= i < |s| ==> 48 <= s[i] <= 57
  }

  /** What a conversion accepts as a number: at most one sign, and digits. */
  ghost predicate Numeral(sign: seq<byte>, d: seq<byte>) {
    sign in {[], [43], [45]} && d != [] && Digits(d)
  }

  /** The 16 bits it stores: 65535 for 2^64 and beyond, otherwise the value or its negation modulo 65536. */
  ghost function Operand(sign: seq<byte>, d: seq<byte>): (v: nat)
    requires Digits(d)
    ensures v < 0x1_0000
  {
    var v: int := DigitsValue(d);
    if v >= 0x1_0000_0000_0000_0000 then 65535 else (if sign == [45] then -v else v) % 0x1_0000
  }

  lemma ShortIsOperand(sign: seq<byte>, d: seq<byte>)
    requires Digits(d)
    ensures Short(sign == [45], DigitsValue(d)) == Operand(sign, d)
  {
    hide DigitsValue;
    Negated(DigitsValue(d));
  }

  lemma Negated(v: int)
    ensures (ULONG - v) % 0x1_0000 == -v % 0x1_0000
  {
    var q, r := -v / 0x1_0000, -v % 0x1_0000;
    assert ULONG - v == (q + 0x1_0000_0000_0000) * 0x1_0000 + r;
  }

  lemma ScanSigned(s: seq<byte>, sign: seq<byte>, d: seq<byte>, rest: seq<byte>)
    requires Numeral(sign, d) && SkipBlanks(s) == sign + (d + rest) && DigitLen(d + rest) == |d|
    ensures ScanShort(s) == Number(Short(sign == [45], DigitsValue(d)), rest)
  {
    hide SkipBlanks, DigitsValue;
    var a := sign + (d + rest);
    assert (d + rest)[..|d|] == d && (d + rest)[|d|..] == rest && (d + rest)[0] == d[0];
    if sign == [] {
      assert a == d + rest;
    } else {
      assert a[0] == sign[0] && a[1..] == d + rest;
    }
  }

  /** The value and the rest of every text that starts with a number. */
  lemma ScanLaw(gap: seq<byte>, sign: seq<byte>, d: seq<byte>, rest: seq<byte>)
    requires Spaces(gap) && Numeral(sign, d) && (rest == [] || !Digits(rest[..1]))
    ensures ScanShort(gap + (sign + (d + rest))) == Number(Operand(sign, d), rest)
  {
    hide SkipBlanks, DigitsValue, ScanShort, Operand, Short;
    var a := sign + (d + rest);
    assert a[0] == if sign == [] then d[0] else sign[0];
    BlanksSkipped(gap, a);
    DigitsEnd(d, rest);
    ShortIsOperand(sign, d);
    ScanSigned(gap + a, sign, d, rest);
  }

  /** White space, at most one sign, and a digit. */
  ghost predicate StartsNumber(s: seq<byte>) {
    exists k :: 0 <= k < |s| && Spaces(s[..k]) && StartsNumeral(s[k..])
  }

  ghost predicate StartsNumeral(s: seq<byte>) {
    || (s != [] && 48 <= s[0] <= 57)
    || (|s| > 1 && s[0] in {43, 45} && 48 <= s[1] <= 57)
  }

  /** A conversion finds a number exactly where one starts. */
  lemma NumberLaw(s: seq<byte>)
    ensures ScanShort(s).Number? <==> StartsNumber(s)
  {
    var a := SkipBlanks(s);
    var gap := SkippedGap(s);
    assert a == s[|gap|..] && gap == s[..|gap|];
    ScanStarts(s);
    hide ScanShort, SkipBlanks, StartsNumeral, Spaces;
    if k :| 0 <= k < |s| && Spaces(s[..k]) && StartsNumeral(s[k..]) {
      StartsAt(s, k);
    }
  }

  lemma StartsAt(s: seq<byte>, k: nat)
    requires k < |s| && Spaces(s[..k]) && StartsNumeral(s[k..])
    ensures SkipBlanks(s) == s[k..]
  {
    hide SkipBlanks;
    assert s == s[..k] + s[k..];
    BlanksSkipped(s[..k], s[k..]);
  }

  lemma ScanStarts(s: seq<byte>)
    ensures ScanShort(s).Number? <==> StartsNumeral(SkipBlanks(s))
  {
    hide SkipBlanks, DigitsValue, Short;
  }

  lemma {:induction false} SkippedGap(s: seq<byte>) returns (gap: seq<byte>)
    ensures Spaces(gap) && s == gap + SkipBlanks(s)
  {
    gap := [];
    if s != [] && Blank(s[0]) {
      gap := SkippedGap(s[1..]);
      gap := [s[0]] + gap;
    }
  }

  /** A text that starts with a number, taken apart. */
  lemma EveryNumber(s: seq<byte>) returns (gap: seq<byte>, sign: seq<byte>, d: seq<byte>, rest: seq<byte>)
    requires StartsNumber(s)
    ensures s == gap + (sign + (d + rest)) && Spaces(gap) && Numeral(sign, d) && (rest == [] || !Digits(rest[..1]))
  {
    var k :| 0 <= k < |s| && Spaces(s[..k]) && StartsNumeral(s[k..]);
    gap := s[..k];
    sign, d, rest := EveryNumeral(s[k..]);
  }

  lemma EveryNumeral(s: seq<byte>) returns (sign: seq<byte>, d: seq<byte>, rest: seq<byte>)
    requires StartsNumeral(s)
    ensures s == sign + (d + rest) && Numeral(sign, d) && (rest == [] || !Digits(rest[..1]))
  {
    sign := if 48 <= s[0] <= 57 then [] else [s[0]];
    d, rest := DigitsFirst(s[|sign|..]);
  }

  lemma {:induction false} DigitsFirst(s: seq<byte>) returns (d: seq<byte>, rest: seq<byte>)
    ensures s == d + rest && Digits(d) && (rest == [] || !Digits(rest[..1]))
    ensures s != [] && 48 <= s[0] <= 57 ==> d != []
  {
    d, rest := [], s;
    if s != [] && 48 <= s[0] <= 57 {
      d, rest := DigitsFirst(s[1..]);
      d := [s[0]] + d;
    }
  }

  /** Printing and scanning undo each other, whatever blanks come before and whatever follows the digits. */
  lemma ScanDecimal(gap: seq<byte>, v: nat, rest: seq<byte>)
    requires v <= MAX_UINT16 && Spaces(gap) && (rest == [] || !Digit(rest[0]))
    ensures ScanShort(gap + (Decimal(v) + rest)) == Number(v, rest)
  {
    hide Decimal, DigitsValue, ScanShort;
    var d := Decimal(v);
    DecimalOperand(v);
    assert [] + (d + rest) == d + rest;
    ScanLaw(gap, [], d, rest);
  }

  // ---------------------------------------------------------------- one line

  /** The sum and the 16-bit test. */
  function Answer(a: nat, b: nat): seq<byte> {
    if a + b > MAX_UINT16 then OVERFLOW else Decimal(a + b) + CRLF
  }

  /** The answer to a line: sscanf "%hu %hu", then the sum if both operands are there. */
  function Reply(line: seq<byte>): seq<byte> {
    var first := ScanShort(CString(line));
    var second := if first.Number? then ScanShort(SkipBlanks(first.rest)) else NoNumber;
    if second.NoNumber? then WRONG else Answer(first.value, second.value)
  }

  /** A line with two operands, blanks before, between and anything but a digit after them. */
  function OperandLine(gap: seq<byte>, a: nat, mid: seq<byte>, b: nat, tail: seq<byte>): seq<byte> {
    gap + (Decimal(a) + (mid + (Decimal(b) + tail)))
  }

  lemma DecimalIsText(v: nat)
    ensures NUL !in Decimal(v)
  {
    var d := Decimal(v);
    assert forall i :: 0 <= i < |d| ==> Digit(d[i]);
  }

  lemma NumeralText(gap: seq<byte>, sign: seq<byte>, d: seq<byte>, tail: seq<byte>)
    requires Spaces(gap) && Numeral(sign, d)
    ensures CString(gap + (sign + (d + tail))) == gap + (sign + (d + CString(tail)))
    ensures tail == [] || !Digits(tail[..1]) ==> CString(tail) == [] || !Digits(CString(tail)[..1])
  {
    hide CString;
    CStringOfPrefix(d, tail);
    CStringOfPrefix(sign, d + tail);
    CStringOfPrefix(gap, sign + (d + tail));
  }

  lemma {:induction false} SkipTwice(s: seq<byte>)
    ensures SkipBlanks(SkipBlanks(s)) == SkipBlanks(s)
  {
    if s != [] {
      SkipTwice(s[1..]);
    }
  }

  /** What makes an answer of the operands there are. */
  function Sum(first: Scanned, second: Scanned): seq<byte> {
    if first.Number? && second.Number? then Answer(first.value, second.value) else WRONG
  }

  lemma ReplyParts(line: seq<byte>)
    ensures var first := ScanShort(CString(line));
            Reply(line) == Sum(first, if first.Number? then ScanShort(first.rest) else NoNumber)
  {
    hide ScanShort, Answer;
    var first := ScanShort(CString(line));
    if first.Number? {
      ScanSkipped(first.rest);
    }
  }

  lemma ScanSkipped(s: seq<byte>)
    ensures ScanShort(SkipBlanks(s)) == ScanShort(s)
  {
    hide SkipBlanks, DigitLen, DigitsValue, Short;
    SkipTwice(s);
  }

  lemma AnswersRight(a: nat, b: nat)
    ensures Answer(a, b) != WRONG
  {
    assert Digit(Decimal(a + b)[0]);
  }

  /** A line that starts with no number is answered "wrong operands\r\n". */
  lemma NoOperand(line: seq<byte>)
    requires !StartsNumber(CString(line))
    ensures Reply(line) == [119, 114, 111, 110, 103, 32, 111, 112, 101, 114, 97, 110, 100, 115, 13, 10]
  {
    NumberLaw(CString(line));
    hide CString, ScanShort, StartsNumber;
  }

  /** A line that starts with a number is answered so exactly when no number follows the first. */
  lemma OneOperand(gap: seq<byte>, sign: seq<byte>, d: seq<byte>, tail: seq<byte>)
    requires Spaces(gap) && Numeral(sign, d) && (tail == [] || !Digits(tail[..1]))
    ensures Reply(gap + (sign + (d + tail))) ==
            [119, 114, 111, 110, 103, 32, 111, 112, 101, 114, 97, 110, 100, 115, 13, 10]
            <==> !StartsNumber(CString(tail))
  {
    hide CString, ScanShort, Reply, StartsNumber, Answer, Operand, Digits;
    var line := gap + (sign + (d + tail));
    ReplyParts(line);
    NumeralText(gap, sign, d, tail);
    ScanLaw(gap, sign, d, CString(tail));
    NumberLaw(CString(tail));
    var second := ScanShort(CString(tail));
    if second.Number? {
      AnswersRight(Operand(sign, d), second.value);
    }
  }

  /** A line with two numbers is answered with their sum, or "overflow\r\n" exactly when it needs more than 16 bits. */
  lemma TwoOperands(gap: seq<byte>, sign: seq<byte>, d: seq<byte>, mid: seq<byte>, sign': seq<byte>, d': seq<byte>,
                    tail: seq<byte>)
    requires Spaces(gap) && Numeral(sign, d) && Spaces(mid) && Numeral(sign', d')
    requires (mid != [] || sign' != []) && (tail == [] || !Digits(tail[..1]))
    ensures var v := Operand(sign, d) + Operand(sign', d');
            Reply(gap + (sign + (d + (mid + (sign' + (d' + tail)))))) ==
            if v > 65535 then [111, 118, 101, 114, 102, 108, 111, 119, 13, 10] else Decimal(v) + [13, 10]
  {
    hide CString, ScanShort, Reply, Operand, Decimal;
    var rest := mid + (sign' + (d' + tail));
    assert rest[0] == if mid != [] then mid[0] else sign'[0];
    assert mid != [] ==> mid[0] in mid;
    ReplyParts(gap + (sign + (d + rest)));
    NumeralText(gap, sign, d, rest);
    NumeralText(mid, sign', d', tail);
    ScanLaw(gap, sign, d, mid + (sign' + (d' + CString(tail))));
    ScanLaw(mid, sign', d', CString(tail));
  }

  /** For operands of 16 bits the answer is their sum, or "overflow" exactly when it does not fit. */
  lemma ReplyLaw(gap: seq<byte>, a: nat, mid: seq<byte>, b: nat, tail: seq<byte>)
    requires a <= MAX_UINT16 && b <= MAX_UINT16
    requires Spaces(gap) && Spaces(mid) && mid != [] && (tail == [] || !Digit(tail[0]))
    ensures Reply(OperandLine(gap, a, mid, b, tail)) == Answer(a, b)
    ensures Answer(a, b) ==
            if a + b > 65535 then [111, 118, 101, 114, 102, 108, 111, 119, 13, 10] else Decimal(a + b) + [13, 10]
  {
    hide Decimal, Reply, DigitsValue;
    DecimalOperand(a);
    DecimalOperand(b);
    var x, y := Decimal(a), Decimal(b);
    assert [] + (x + (mid + ([] + (y + tail)))) == x + (mid + (y + tail));
    TwoOperands(gap, [], x, mid, [], y, tail);
  }

  lemma DecimalOperand(v: nat)
    requires v <= MAX_UINT16
    ensures Numeral([], Decimal(v)) && Operand([], Decimal(v)) == v
  {
    DecimalValue(v);
    var d := Decimal(v);
    assert forall i :: 0 <= i < |d| ==> Digit(d[i]);
  }

  lemma NoDigits(s: seq<byte>)
    requires s != [] && !Blank(s[0]) && !Digit(s[0]) && s[0] != 43 && s[0] != 45
    ensures ScanShort(s) == NoNumber
  {
    hide DigitsValue;
  }

  /** A client that scans the answer gets the sum back, and no number when there was none to give. */
  lemma AnswerReadBack(a: nat, b: nat)
    ensures ScanShort(Answer(a, b)) == if a + b <= MAX_UINT16 then Number(a + b, CRLF) else NoNumber
    ensures ScanShort(WRONG) == NoNumber
  {
    hide ScanShort, Decimal;
    if a + b <= MAX_UINT16 {
      ScanDecimal([], a + b, CRLF);
      assert [] + Answer(a, b) == Answer(a, b);
    } else {
      NoDigits(OVERFLOW);
    }
    NoDigits(WRONG);
  }

  // ---------------------------------------------------------------- the stream

  /** The input cut after every newline, or after 254 octets without one. */
  function Pieces(s: seq<byte>): (r: seq<seq<byte>>)
    decreases |s|
  {
    if s == [] then []
    else
      var k := LineLen(s, MAXBUFL - 1);
      [s[..k]] + Pieces(s[k..])
  }

  function Replies(pieces: seq<seq<byte>>): (r: seq<seq<byte>>)
    ensures |r| == |pieces| && forall i :: 0 <= i < |pieces| ==> r[i] == Reply(pieces[i])
  {
    seq(|pieces|, i requires 0 <= i < |pieces| => Reply(pieces[i]))
  }

  lemma PiecesStep(s: seq<byte>, piece: seq<byte>, rest: seq<byte>)
    requires s != [] && s == piece + rest && |piece| == LineLen(s, MAXBUFL - 1)
    ensures Pieces(s) == [piece] + Pieces(rest)
  {
    assert s[..|piece|] == piece && s[|piece|..] == rest;
  }

  /** What the wire carries for each line; two operands in decimal, as a client sends them. */
  function Request(ops: (nat, nat)): seq<byte> {
    OperandLine([], ops.0, [SPACE], ops.1, CRLF)
  }

  function Requests(ops: seq<(nat, nat)>): seq<byte> {
    if ops == [] then [] else Request(ops[0]) + Requests(ops[1..])
  }

  function Answers(ops: seq<(nat, nat)>): (r: seq<seq<byte>>)
    ensures |r| == |ops|
  {
    if ops == [] then [] else [Answer(ops[0].0, ops[0].1)] + Answers(ops[1..])
  }

  function PowerOfTen(n: nat): (r: nat)
    ensures r > 0
  {
    if n == 0 then 1 else 10 * PowerOfTen(n - 1)
  }

  lemma {:induction false} DecimalLen(v: nat, n: nat)
    requires n > 0 && v < PowerOfTen(n)
    ensures |Decimal(v)| <= n
  {
    if v >= 10 {
      assert PowerOfTen(0) == 1;
      DecimalLen(v / 10, n - 1);
    }
  }

  /** A printed number: its decimal digits, most significant first, and no leading zero. */
  lemma {:induction false} DecimalDigit(v: nat, i: nat)
    requires i < |Decimal(v)|
    ensures Decimal(v)[i] as nat == 48 + v / PowerOfTen(|Decimal(v)| - 1 - i) % 10
    ensures Decimal(v)[0] == 48 ==> v == 0 && |Decimal(v)| == 1
  {
    var front, k := if v < 10 then [] else Decimal(v / 10), |Decimal(v)| - 1;
    assert Decimal(v) == front + [(48 + v % 10) as byte];
    if v >= 10 {
      DecimalDigit(v / 10, if i < k then i else 0);
    }
    if i < k {
      DivideTwice(v, 10, PowerOfTen(k - 1 - i));
    } else {
      assert PowerOfTen(0) == 1;
    }
  }

  /** A piece: no newline but perhaps at its end, where there is one in all but the last of fewer than 254 octets. */
  ghost predicate IsPiece(p: seq<byte>, last: bool) {
    && 1 <= |p| <= 254 && (forall j :: 0 <= j < |p| - 1 ==> p[j] != 10)
    && (last || |p| == 254 || p[|p| - 1] == 10)
  }

  ghost predicate ArePieces(ps: seq<seq<byte>>) {
    forall i :: 0 <= i < |ps| ==> IsPiece(ps[i], i == |ps| - 1)
  }

  lemma FirstPiece(p: seq<byte>, ps: seq<seq<byte>>)
    requires IsPiece(p, ps == []) && ArePieces(ps)
    ensures ArePieces([p] + ps)
  {
    var all := [p] + ps;
    hide IsPiece;
    forall i | 0 <= i < |all|
      ensures IsPiece(all[i], i == |all| - 1)
    {
      assert i > 0 ==> all[i] == ps[i - 1] && IsPiece(ps[i - 1], i - 1 == |ps| - 1);
    }
  }

  /** The pieces are the input, cut after every newline and after every 254 octets without one. */
  lemma {:induction false} PiecesLaw(s: seq<byte>)
    ensures Join(Pieces(s)) == s && ArePieces(Pieces(s))
    decreases |s|
  {
    if s != [] {
      var k := LineLen(s, MAXBUFL - 1);
      LineLenUnique(s, MAXBUFL - 1, k);
      var piece, rest := s[..k], s[k..];
      PiecesLaw(rest);
      JoinCons(piece, Pieces(rest));
      assert rest == [] ==> Pieces(rest) == [];
      hide LineLen, Join, Pieces;
      assert s == piece + rest;
      assert forall j :: 0 <= j < k ==> piece[j] == s[j];
      PiecesStep(s, piece, rest);
      FirstPiece(piece, Pieces(rest));
    }
  }

  /** A request is one piece of the stream, whatever comes after it. */
  lemma RequestIsPiece(ops: (nat, nat), rest: seq<byte>)
    requires ops.0 <= MAX_UINT16 && ops.1 <= MAX_UINT16
    ensures LineLen(Request(ops) + rest, MAXBUFL - 1) == |Request(ops)|
  {
    var x, y, s := Decimal(ops.0), Decimal(ops.1), Request(ops) + rest;
    assert PowerOfTen(5) == 100000;
    DecimalLen(ops.0, 5);
    DecimalLen(ops.1, 5);
    hide Decimal, PowerOfTen;
    assert s == x + [SPACE] + y + CRLF + rest;
    var k := |x| + |y| + 3;
    assert forall i :: 0 <= i < k - 1 ==> s[i] in x || s[i] == SPACE || s[i] in y || s[i] == RETURN;
    LineLenUnique(s, MAXBUFL - 1, k);
  }

  lemma RepliesCons(piece: seq<byte>, pieces: seq<seq<byte>>)
    ensures Replies([piece] + pieces) == [Reply(piece)] + Replies(pieces)
  {
    hide Reply;
  }

  /** A whole session of well-formed requests is answered sum by sum, in order. */
  lemma {:induction false} SessionLaw(ops: seq<(nat, nat)>)
    requires forall i :: 0 <= i < |ops| ==> ops[i].0 <= MAX_UINT16 && ops[i].1 <= MAX_UINT16
    ensures Replies(Pieces(Requests(ops))) == Answers(ops)
  {
    if ops != [] {
      hide Reply, Answer, Request, Pieces, Replies;
      var line, rest := Request(ops[0]), Requests(ops[1..]);
      RequestIsPiece(ops[0], rest);
      PiecesStep(line + rest, line, rest);
      RepliesCons(line, Pieces(rest));
      RequestAnswered(ops[0]);
      SessionLaw(ops[1..]);
    } else {
      assert Pieces(Requests(ops)) == [];
    }
  }

  lemma RequestAnswered(ops: (nat, nat))
    requires ops.0 <= MAX_UINT16 && ops.1 <= MAX_UINT16
    ensures Reply(Request(ops)) == Answer(ops.0, ops.1)
  {
    hide Decimal, Reply, OperandLine;
    ReplyLaw([], ops.0, [SPACE], ops.1, CRLF);
  }

  // ---------------------------------------------------------------- what goes in and what goes out

  /** The pieces prot_a takes: it ends at the first recv that is interrupted or fails. */
  function Answered(s: seq<byte>, plan: seq<Event>): seq<seq<byte>>
    decreases |s|
  {
    var calls := Recvs(s, MAXBUFL);
    if s == [] || !Uninterrupted(plan, calls) then []
    else
      var k := LineLen(s, MAXBUFL - 1);
      [s[..k]] + Answered(s[k..], Drop(plan, calls))
  }

  /** recv calls it takes to get all the pieces. */
  function AllRecvs(s: seq<byte>): nat
    decreases |s|
  {
    if s == [] then 0 else Recvs(s, MAXBUFL) + AllRecvs(s[LineLen(s, MAXBUFL - 1)..])
  }

  lemma UndisturbedTwice(plan: seq<Event>, a: nat, b: nat)
    ensures Uninterrupted(plan, a + b) <==> Uninterrupted(plan, a) && Uninterrupted(Drop(plan, a), b)
  {
    if Uninterrupted(plan, a) && Uninterrupted(Drop(plan, a), b) {
      forall i | 0 <= i < a + b && i < |plan|
        ensures plan[i].Move?
      {
        assert i >= a ==> plan[i] == Drop(plan, a)[i - a];
      }
    }
    if Uninterrupted(plan, a + b) {
      assert forall i :: 0 <= i < |Drop(plan, a)| ==> Drop(plan, a)[i] == plan[i + a];
    }
  }

  /**
   * The pieces answered come first in the input, and are all of it exactly when none of the recv calls
   * they take is disturbed.
   */
  lemma {:induction false} AnsweredLaw(s: seq<byte>, plan: seq<Event>)
    ensures Answered(s, plan) <= Pieces(s)
    ensures Answered(s, plan) == Pieces(s) <==> Uninterrupted(plan, AllRecvs(s))
    decreases |s|
  {
    if s != [] {
      var calls, rest := Recvs(s, MAXBUFL), s[LineLen(s, MAXBUFL - 1)..];
      UndisturbedTwice(plan, calls, AllRecvs(rest));
      if Uninterrupted(plan, calls) {
        AnsweredLaw(rest, Drop(plan, calls));
      }
    }
  }

  /** One answer on its way out: a single send for WRONG, sendn for the others. */
  function SendOne(reply: seq<byte>, plan: seq<Event>, stale: bool): (w: Written)
    ensures w.moved <= |reply|
  {
    if reply == WRONG then
      var rc := WriteResult(plan, |WRONG|);
      Written(Max(rc, 0), rc < |WRONG|, Rest(plan), if rc < 0 then plan[0].Interrupt? else stale)
    else Push(plan, |reply|, stale)
  }

  /** What goes out for each answer in turn under a schedule of writes. */
  function Sends(replies: seq<seq<byte>>, plan: seq<Event>, stale: bool): (r: seq<seq<byte>>)
    ensures |r| == |replies| && forall i :: 0 <= i < |r| ==> r[i] <= replies[i]
  {
    if replies == [] then []
    else
      var w := SendOne(replies[0], plan, stale);
      [replies[0][..w.moved]] + Sends(replies[1..], w.plan, w.stale)
  }

  /** The schedule carries the whole answer: its next event for WRONG; for others no event stops the loop too early. */
  ghost predicate Carries(reply: seq<byte>, plan: seq<Event>, stale: bool) {
    if reply == WRONG then plan == [] || (plan[0].Move? && plan[0].n >= |WRONG|)
    else forall f :: 0 <= f < |plan| && Stops(plan, f, stale) ==> Carried(plan[..f]) >= |reply|
  }

  ghost predicate CarriesAll(replies: seq<seq<byte>>, plan: seq<Event>, stale: bool) {
    if replies == [] then true
    else
      var w := SendOne(replies[0], plan, stale);
      Carries(replies[0], plan, stale) && CarriesAll(replies[1..], w.plan, w.stale)
  }

  lemma CarriesOne(reply: seq<byte>, plan: seq<Event>, stale: bool)
    ensures Carries(reply, plan, stale) <==> SendOne(reply, plan, stale).moved == |reply|
  {
    PushFails(plan, |reply|, stale);
    PushExact(plan, |reply|, stale);
    hide Push, Stops, Carried;
  }

  lemma SameHead<T>(x: T, a: seq<T>, y: T, b: seq<T>)
    ensures [x] + a == [y] + b <==> x == y && a == b
  {
    assert ([x] + a)[0] == x && ([y] + b)[0] == y && ([x] + a)[1..] == a && ([y] + b)[1..] == b;
  }

  lemma {:induction false} SendsWhole(replies: seq<seq<byte>>, plan: seq<Event>, stale: bool)
    ensures Sends(replies, plan, stale) == replies <==> CarriesAll(replies, plan, stale)
  {
    if replies != [] {
      var w := SendOne(replies[0], plan, stale);
      CarriesOne(replies[0], plan, stale);
      SendsWhole(replies[1..], w.plan, w.stale);
      hide SendOne, Carries;
      var rest := Sends(replies[1..], w.plan, w.stale);
      assert replies == [replies[0]] + replies[1..];
      SameHead(replies[0][..w.moved], rest, replies[0], replies[1..]);
      assert replies[0][..|replies[0]|] == replies[0];
    }
  }

  lemma CutShort(a: seq<byte>, x: seq<byte>, b: seq<byte>, y: seq<byte>)
    requires |a| <= |b| && x <= y
    ensures |a + x| <= |b + y|
    ensures a + x == b + y <==> a == b && x == y
  {
    if a + x == b + y {
      assert |a| == |b| && |x| == |y|;
      assert a == (a + x)[..|a|] && b == (b + y)[..|a|];
    }
  }

  lemma SameParts<T>(a: seq<T>, b: seq<T>)
    requires |a| == |b| > 0
    ensures a == b <==> a[..|a| - 1] == b[..|a| - 1] && a[|a| - 1] == b[|a| - 1]
  {
    assert a == a[..|a| - 1] + [a[|a| - 1]] && b == b[..|a| - 1] + [b[|a| - 1]];
  }

  lemma {:induction false} JoinPrefixes(sent: seq<seq<byte>>, whole: seq<seq<byte>>)
    requires |sent| == |whole| && forall i :: 0 <= i < |sent| ==> sent[i] <= whole[i]
    ensures |Join(sent)| <= |Join(whole)|
    ensures Join(sent) == Join(whole) <==> sent == whole
  {
    if sent != [] {
      var k := |sent| - 1;
      JoinPrefixes(sent[..k], whole[..k]);
      CutShort(Join(sent[..k]), sent[k], Join(whole[..k]), whole[k]);
      SameParts(sent, whole);
    }
  }

  /** The output is the concatenation of the answers exactly when the schedule carries each of them whole. */
  lemma OutputLaw(replies: seq<seq<byte>>, plan: seq<Event>, stale: bool)
    ensures Join(Sends(replies, plan, stale)) == Join(replies) <==> CarriesAll(replies, plan, stale)
  {
    JoinPrefixes(Sends(replies, plan, stale), replies);
    SendsWhole(replies, plan, stale);
  }

  /** Each write moves a whole answer. */
  ghost predicate Ample(plan: seq<Event>) {
    forall e :: e in plan ==> e.Move? && e.n >= |WRONG|
  }

  /** No answer is empty or longer than WRONG. */
  lemma ReplyBounds(line: seq<byte>)
    ensures 0 < |Reply(line)| <= |WRONG|
  {
    assert PowerOfTen(5) == 100000;
    var first := ScanShort(CString(line));
    var second := if first.Number? then ScanShort(SkipBlanks(first.rest)) else NoNumber;
    if second.Number? && first.value + second.value <= MAX_UINT16 {
      DecimalLen(first.value + second.value, 5);
    }
  }

  /** Answers as prot_a gives them. */
  ghost predicate AnswerSized(replies: seq<seq<byte>>) {
    forall i :: 0 <= i < |replies| ==> 0 < |replies[i]| <= |WRONG|
  }

  lemma {:induction false} AmpleCarries(replies: seq<seq<byte>>, plan: seq<Event>, stale: bool)
    requires AnswerSized(replies) && Ample(plan)
    ensures CarriesAll(replies, plan, stale)
  {
    if replies != [] {
      var w := SendOne(replies[0], plan, stale);
      assert plan != [] ==> plan[0] in plan;
      PushNone(Rest(plan), stale);
      CarriesOne(replies[0], plan, stale);
      AmpleCarries(replies[1..], w.plan, w.stale);
    }
  }

  lemma {:induction false} ReliableCarries(replies: seq<seq<byte>>, plan: seq<Event>, stale: bool)
    requires Reliable(plan) && WRONG !in replies
    ensures CarriesAll(replies, plan, stale)
  {
    if replies != [] {
      var w := SendOne(replies[0], plan, stale);
      PushExact(plan, |replies[0]|, stale);
      CarriesOne(replies[0], plan, stale);
      ReliableCarries(replies[1..], w.plan, w.stale);
    }
  }

  /** Whole answers up to the first WRONG, then a send that moves one octet of it. */
  function Cutting(replies: seq<seq<byte>>): seq<Event> {
    if replies == [] then [] else if replies[0] == WRONG then [Move(1)] else [Move(|WRONG|)] + Cutting(replies[1..])
  }

  lemma {:induction false} CuttingCuts(replies: seq<seq<byte>>, stale: bool)
    requires AnswerSized(replies)
    ensures Reliable(Cutting(replies))
    ensures WRONG in replies ==> !CarriesAll(replies, Cutting(replies), stale)
  {
    if replies != [] && replies[0] != WRONG {
      CuttingCuts(replies[1..], stale);
      var plan := Cutting(replies);
      assert plan[1..] == Cutting(replies[1..]);
      PushNone(plan[1..], stale);
    }
  }

  /**
   * Writes that never fail deliver a session's answers whole, however short they are,
   * exactly when no line is wrong: sendn finishes an answer, the single send of WRONG may not.
   */
  lemma ReliableLaw(pieces: seq<seq<byte>>)
    ensures (forall plan, stale :: Reliable(plan) ==>
              Join(Sends(Replies(pieces), plan, stale)) == Join(Replies(pieces))) <==>
            WRONG !in Replies(pieces)
  {
    var replies := Replies(pieces);
    forall i | 0 <= i < |pieces|
      ensures 0 < |replies[i]| <= |WRONG|
    {
      ReplyBounds(pieces[i]);
    }
    hide Reply, Replies, Sends, CarriesAll, Cutting, Join;
    forall plan, stale | Reliable(plan) && WRONG !in replies
      ensures Join(Sends(replies, plan, stale)) == Join(replies)
    {
      ReliableCarries(replies, plan, stale);
      OutputLaw(replies, plan, stale);
    }
    CuttingCuts(replies, false);
    OutputLaw(replies, Cutting(replies), false);
  }

  // ---------------------------------------------------------------- the service

  lemma {:induction false} CStringStops(s: seq<byte>, rest: seq<byte>)
    ensures CString(s + [NUL] + rest) == CString(s)
  {
    if s == [] {
      assert s + [NUL] + rest == [NUL] + rest;
    } else {
      assert (s + [NUL] + rest)[1..] == s[1..] + [NUL] + rest;
      CStringStops(s[1..], rest);
    }
  }

  /** The extra terminator falls on the reader's own one or just beyond it, so the string stays the same. */
  lemma TerminatorHarmless(was: seq<byte>, piece: seq<byte>, at: nat)
    requires |piece| < |was| && |piece| <= at <= |piece| + 1 && at < |was|
    ensures CString(Blit(was, 0, piece + [NUL])[at := NUL]) == CString(piece)
  {
    var t := Blit(was, 0, piece + [NUL])[at := NUL];
    var k := |piece| + 1;
    assert t[..k] == piece + [NUL];
    assert t == piece + [NUL] + t[k..];
    CStringStops(piece, t[k..]);
  }

  method Message(text: seq<byte>) returns (a: array<byte>)
    ensures fresh(a) && a[..] == text
  {
    a := new byte[|text|](i requires 0 <= i < |text| => text[i]);
  }

  /** sendn: all of the text unless a write fails. */
  method SendAll(fd: Descriptor, text: seq<byte>) returns (ghost sent: seq<byte>)
    requires text != WRONG
    modifies fd`output, fd`writePlan, fd`interrupted
    ensures fd.output == old(fd.output) + sent
    ensures var w := SendOne(text, old(fd.writePlan), old(fd.interrupted));
            sent == text[..w.moved] && fd.writePlan == w.plan && fd.interrupted == w.stale
  {
    hide Push;
    var msg := Message(text);
    var rc;
    ghost var n;
    rc, n := Writen(fd, msg, |text|);
    sent := text[..n];
  }

  /** send: one write, whose count is not acted upon. */
  method SendWrong(fd: Descriptor) returns (ghost sent: seq<byte>)
    modifies fd`output, fd`writePlan, fd`interrupted
    ensures fd.output == old(fd.output) + sent
    ensures var w := SendOne(WRONG, old(fd.writePlan), old(fd.interrupted));
            sent == WRONG[..w.moved] && fd.writePlan == w.plan && fd.interrupted == w.stale
  {
    var text := WRONG;
    var msg := Message(text);
    var rc := fd.Write(msg, 0, |text|);
    sent := text[..Max(rc, 0)];
  }

  /** snprintf "%u\r\n" into the line's own buffer, then sendn from it. */
  method SendSum(fd: Descriptor, buf: array<byte>, res: nat) returns (ghost sent: seq<byte>)
    requires res <= MAX_UINT16 && buf.Length == MAXBUFL + 1
    modifies buf, fd`output, fd`writePlan, fd`interrupted
    ensures fd.output == old(fd.output) + sent
    ensures var text := Decimal(res) + CRLF;
            var w := SendOne(text, old(fd.writePlan), old(fd.interrupted));
            sent == text[..w.moved] && fd.writePlan == w.plan && fd.interrupted == w.stale
  {
    assert PowerOfTen(5) == 100000;
    DecimalLen(res, 5);
    hide Decimal, Push, PowerOfTen;
    var text := Decimal(res) + CRLF;
    forall i | 0 <= i < |text| {
      buf[i] := text[i];
    }
    buf[|text|] := NUL;
    assert buf[..|text|] == text;
    var rc;
    ghost var n;
    rc, n := Writen(fd, buf, |text|);
    sent := text[..n];
    assert buf[..n] == sent;
  }

  /** One line: scan it, add, test, answer. */
  method AnswerLine(fd: Descriptor, buf: array<byte>, nread: nat, ghost was: seq<byte>, ghost piece: seq<byte>)
    returns (ghost sent: seq<byte>)
    requires nread < buf.Length == |was| == MAXBUFL + 1 && |piece| <= nread <= |piece| + 1
    requires buf[..] == Blit(was, 0, piece + [NUL])
    modifies buf, fd`output, fd`writePlan, fd`interrupted
    ensures fd.output == old(fd.output) + sent
    ensures var w := SendOne(Reply(piece), old(fd.writePlan), old(fd.interrupted));
            sent == Reply(piece)[..w.moved] && fd.writePlan == w.plan && fd.interrupted == w.stale
  {
    TerminatorHarmless(was, piece, nread);
    buf[nread] := NUL;
    assert buf[..] == Blit(was, 0, piece + [NUL])[nread := NUL];
    hide CString, ScanShort, Blit, SkipBlanks, SendOne;
    var first := ScanShort(CString(buf[..]));
    var second := if first.Number? then ScanShort(SkipBlanks(first.rest)) else NoNumber;
    if second.NoNumber? {
      sent := SendWrong(fd);
      return;
    }
    var res := first.value + second.value;
    if res > MAX_UINT16 {
      sent := SendAll(fd, OVERFLOW);
      return;
    }
    sent := SendSum(fd, buf, res);
  }

  /** readline_unbuffered with the room prot_a gives it: the next piece, or nothing when there is none to answer. */
  method ReadPiece(fd: Descriptor, buf: array<byte>) returns (nread: int, ghost piece: seq<byte>)
    requires buf.Length == MAXBUFL + 1
    modifies buf, fd`input, fd`readPlan, fd`interrupted
    ensures nread <= MAXBUFL
    ensures nread <= 0 ==> Answered(old(fd.input), old(fd.readPlan)) == []
    ensures nread > 0 ==> |piece| <= nread <= |piece| + 1 && buf[..] == Blit(old(buf[..]), 0, piece + [NUL])
    ensures nread > 0 ==> Answered(old(fd.input), old(fd.readPlan)) == [piece] + Answered(fd.input, fd.readPlan)
    ensures nread > 0 ==> |fd.input| < |old(fd.input)| && fd.interrupted == old(fd.interrupted)
  {
    hide Uninterrupted, Recvs, Drop;
    ghost var s := fd.input;
    nread, piece := ReadlineUnbuffered(fd, buf, MAXBUFL);
    LineLaw(s, MAXBUFL);
    assert nread > 0 ==> s[|piece|..] == fd.input;
  }

  lemma SendsNext(reply: seq<byte>, replies: seq<seq<byte>>, plan: seq<Event>, stale: bool)
    ensures var w := SendOne(reply, plan, stale);
            Sends([reply] + replies, plan, stale) == [reply[..w.moved]] + Sends(replies, w.plan, w.stale)
  {
    hide SendOne;
    assert ([reply] + replies)[1..] == replies;
  }

  lemma JoinNext(sent: seq<seq<byte>>, out: seq<byte>)
    ensures Join<byte>([]) == [] && Join(sent + [out]) == Join(sent) + out
  {
    assert (sent + [out])[..|sent|] == sent;
  }

  /**
   * prot_a: the input is cut into pieces and each is answered, whatever the sizes in which it
   * arrives; the answers follow one another on the output as far as the writes carry them.
   */
  method ProtA(fd: Descriptor) returns (rc: int, ghost pieces: seq<seq<byte>>, ghost sent: seq<seq<byte>>)
    modifies fd
    ensures rc == 0 && pieces == Answered(old(fd.input), old(fd.readPlan))
    ensures sent == Sends(Replies(pieces), old(fd.writePlan), old(fd.interrupted))
    ensures fd.output == old(fd.output) + Join(sent)
  {
    hide Reply, Answered, SendOne, Sends, Replies, Join;
    ghost var output := fd.output;
    ghost var all, out := Answered(fd.input, fd.readPlan), [];
    ghost var whole := Sends(Replies(all), fd.writePlan, fd.interrupted);
    pieces, sent := [], [];
    JoinNext([], []);
    var buf := new byte[MAXBUFL + 1];
    while true
      invariant all == pieces + Answered(fd.input, fd.readPlan)
      invariant whole == sent + Sends(Replies(Answered(fd.input, fd.readPlan)), fd.writePlan, fd.interrupted)
      invariant fd.output == output + Join(sent)
      decreases |fd.input|
    {
      ghost var was, todo, plan, stale := buf[..], Answered(fd.input, fd.readPlan), fd.writePlan, fd.interrupted;
      ghost var piece;
      var nread;
      nread, piece := ReadPiece(fd, buf);
      if nread <= 0 {
        NothingSent(plan, stale);
        return 0, pieces, sent;
      }
      ghost var later := Answered(fd.input, fd.readPlan);
      RepliesCons(piece, later);
      SendsNext(Reply(piece), Replies(later), plan, stale);
      out := AnswerLine(fd, buf, nread, was, piece);
      Regroup(pieces, [piece], later);
      Regroup(sent, [out], Sends(Replies(later), fd.writePlan, fd.interrupted));
      JoinNext(sent, out);
      Regroup(output, Join(sent), out);
      pieces, sent := pieces + [piece], sent + [out];
    }
  }

  lemma NothingSent(plan: seq<Event>, stale: bool)
    ensures Sends(Replies([]), plan, stale) == []
  {
  }
}
