/** The response parser accepts exactly a grammar: what it takes off the front of a buffer is a
    spelled response, and every spelled response is taken, whatever follows it. */
module ResponseGrammar {
  import opened Prelude
  import opened Wire
  import opened Framing
  import opened Response
  import opened RequestGrammar

  // ---------------------------------------------------------------------------------------
  // Signed numbers
  // ---------------------------------------------------------------------------------------

  /** A sign that suits the number, any number of zeros, and the decimal form of its size. */
  ghost predicate SpellsInt(s: Bytes, n: int) {
    exists sign, zeros: nat :: SpelledWith(s, n, sign, zeros)
  }

  predicate SpelledWith(s: Bytes, n: int, sign: Bytes, zeros: nat) {
    SignSuits(sign, n) && s == Spelling(sign, zeros, Size(n))
  }

  function Size(n: int): nat {
    if n < 0 then -n else n
  }

  predicate SignSuits(sign: Bytes, n: int) {
    || (n >= 0 && (sign == [] || sign == [PLUS]))
    || (n <= 0 && sign == [MINUS])
  }

  /** Exactly the spellings of a number that fits a signed word are read, as that number. */
  lemma IntExact(s: Bytes, n: i64)
    ensures ParseI64(s) == Some(n) <==> SpellsInt(s, n)
  {
    hide Digits, Magnitude;
    if ParseI64(s) == Some(n) {
      IntSpelled(s, n);
    }
    if SpellsInt(s, n) {
      IntRead(s, n);
    }
  }

  lemma IntSpelled(s: Bytes, n: i64)
    requires ParseI64(s) == Some(n)
    ensures SpellsInt(s, n)
  {
    hide Digits, Magnitude;
    var signed := s[0] == PLUS || s[0] == MINUS;
    var sign := if signed then [s[0]] else [];
    var digits := if signed then s[1..] else s;
    assert s == sign + digits;
    var zeros := LeadingZeros(digits);
    assert Magnitude(digits) == Some(Size(n));
    assert SpelledWith(s, n, sign, zeros);
  }

  lemma IntRead(s: Bytes, n: i64)
    requires SpellsInt(s, n)
    ensures ParseI64(s) == Some(n)
  {
    hide Digits, Magnitude;
    var sign, zeros: nat :| SpelledWith(s, n, sign, zeros);
    var digits := Zeros(zeros) + Digits(Size(n));
    ZerosAddNothing(zeros, Size(n));
    FirstIsDigit(digits);
    assert s == sign + digits;
    assert s[|sign|..] == digits;
  }

  lemma NumberTaken(s: Bytes, n: i64)
    requires Number(s) == Success(n)
    ensures SpellsInt(s, n)
  {
    hide ParseI64, ValidUtf8, SpellsInt;
    IntExact(s, n);
  }

  lemma SpelledNumber(s: Bytes, n: i64)
    requires SpellsInt(s, n)
    ensures Number(s) == Success(n) && !HasCrlf(s)
  {
    hide ParseI64, SpellsInt, ValidUtf8, Plain;
    IntExact(s, n);
    NumbersArePlain(s);
    PlainText(s);
  }

  // ---------------------------------------------------------------------------------------
  // Responses
  // ---------------------------------------------------------------------------------------

  /** A header line with a number. */
  ghost predicate IsNumberLine(p: Bytes, prefix: byte, n: int) {
    exists s :: SpellsInt(s, n) && p == [prefix] + s + CRLF
  }

  ghost predicate IsResponse(p: Bytes, r: Response)
    decreases r, 0
  {
    match r
    case Ok => p == [PLUS] + OK_BODY + CRLF
    case Error(msg) => !HasCrlf(msg) && p == [MINUS] + msg + CRLF
    case Null => IsNumberLine(p, CSTRING_BYTE, -1)
    case Integer(n) => IsNumberLine(p, INTEGER_BYTE, n)
    case Cstr(bytes) => IsBulk(p, bytes)
    case Array(items) =>
      && |items| < WORD / 2
      && exists n :: 0 <= n <= |p| && IsNumberLine(p[..n], ARRAY_BYTE, |items|) && AreResponses(p[n..], items)
  }

  ghost predicate IsBulk(p: Bytes, bytes: Bytes) {
    && |bytes| <= MAX_COMPLEX_STRING_LENGTH
    && exists h :: IsNumberLine(h, CSTRING_BYTE, |bytes|) && p == h + bytes + CRLF
  }

  ghost predicate AreResponses(p: Bytes, items: seq<Response>)
    decreases items, 1
  {
    if items == [] then p == []
    else exists n :: 0 <= n <= |p| && IsResponse(p[..n], items[0]) && AreResponses(p[n..], items[1..])
  }

  // ---------------------------------------------------------------------------------------
  // Every spelled response is taken
  // ---------------------------------------------------------------------------------------

  lemma BodyIsTaken(c: byte, s: Bytes, more: Bytes)
    requires c != CR && !HasCrlf(s)
    ensures Body([c] + s + CRLF + more) == Some(Parsed(s, |s| + 3))
  {
    var line := [c] + s;
    PrefixedLine(c, s);
    LineRoundTrip(line, more);
    assert line[1..] == s;
  }

  lemma NumberLineIsTaken(p: Bytes, prefix: byte, n: i64, more: Bytes)
    requires IsNumberLine(p, prefix, n) && prefix != CR
    ensures p != [] && p[0] == prefix
    ensures Body(p + more).Some? && Body(p + more).value.used == |p|
    ensures Number(Body(p + more).value.data) == Success(n)
  {
    hide SpellsInt, Body, Number;
    var s :| SpellsInt(s, n) && p == [prefix] + s + CRLF;
    SpelledNumber(s, n);
    BodyIsTaken(prefix, s, more);
  }

  lemma BulkIsTaken(p: Bytes, bytes: Bytes, more: Bytes)
    requires IsBulk(p, bytes)
    ensures ParseResponse(p + more) == Complete(Cstr(bytes), |p|)
  {
    hide IsNumberLine, Body, Number, ParseItems;
    var h :| IsNumberLine(h, CSTRING_BYTE, |bytes|) && p == h + bytes + CRLF;
    var rest := bytes + CRLF + more;
    NumberLineIsTaken(h, CSTRING_BYTE, |bytes|, rest);
    PayloadRoundTrip(h, bytes, more);
    assert p + more == h + rest == h + bytes + CRLF + more;
    assert (p + more)[0] == CSTRING_BYTE;
  }

  lemma LineIsTaken(p: Bytes, r: Response, more: Bytes)
    requires IsResponse(p, r) && !r.Cstr? && !r.Array?
    ensures ParseResponse(p + more) == Complete(r, |p|)
  {
    hide IsNumberLine, Body, Number, ParseItems;
    match r {
      case Ok =>
        BodyIsTaken(PLUS, OK_BODY, more);
      case Error(msg) =>
        BodyIsTaken(MINUS, msg, more);
      case Null =>
        NumberLineIsTaken(p, CSTRING_BYTE, -1, more);
      case Integer(n) =>
        NumberLineIsTaken(p, INTEGER_BYTE, n, more);
    }
    assert (p + more)[0] == p[0];
  }

  lemma ArrayIsTaken(h: Bytes, rest: Bytes, items: seq<Response>, more: Bytes)
    requires |items| < WORD / 2 && IsNumberLine(h, ARRAY_BYTE, |items|)
    requires ParseItems(rest + more, |items|) == Complete(items, |rest|)
    ensures ParseResponse(h + (rest + more)) == Complete(Array(items), |h| + |rest|)
  {
    hide IsNumberLine, Body, Number, ParseItems;
    NumberLineIsTaken(h, ARRAY_BYTE, |items|, rest + more);
    DropPrefix(h, rest + more);
    assert (h + (rest + more))[0] == ARRAY_BYTE;
  }

  lemma Rejoin(p: Bytes, n: nat, more: Bytes)
    requires n <= |p|
    ensures p[..n] + (p[n..] + more) == p + more
  {
  }

  lemma {:induction false} ResponseIsTaken(p: Bytes, r: Response, more: Bytes)
    requires IsResponse(p, r)
    ensures ParseResponse(p + more) == Complete(r, |p|)
    decreases r, 0
  {
    hide ParseResponse, ParseItems, IsNumberLine, IsBulk, AreResponses;
    match r {
      case Cstr(bytes) => BulkIsTaken(p, bytes, more);
      case Array(items) =>
        var n :| 0 <= n <= |p| && IsNumberLine(p[..n], ARRAY_BYTE, |items|) && AreResponses(p[n..], items);
        ItemsAreTaken(p[n..], items, more);
        ArrayIsTaken(p[..n], p[n..], items, more);
        Rejoin(p, n, more);
      case _ => LineIsTaken(p, r, more);
    }
  }

  lemma {:induction false} ItemsAreTaken(p: Bytes, items: seq<Response>, more: Bytes)
    requires AreResponses(p, items)
    ensures ParseItems(p + more, |items|) == Complete(items, |p|)
    decreases items, 1
  {
    hide ParseResponse, IsResponse;
    if items != [] {
      var n :| 0 <= n <= |p| && IsResponse(p[..n], items[0]) && AreResponses(p[n..], items[1..]);
      var rest := p[n..] + more;
      assert p + more == p[..n] + rest;
      ResponseIsTaken(p[..n], items[0], rest);
      DropPrefix(p[..n], rest);
      ItemsAreTaken(p[n..], items[1..], more);
      assert [items[0]] + items[1..] == items;
    }
  }

  // ---------------------------------------------------------------------------------------
  // Only spelled responses are taken
  // ---------------------------------------------------------------------------------------

  lemma BodyTaken(b: Bytes)
    requires b != [] && b[0] != CR && Body(b).Some?
    ensures var body := Body(b).value;
            b[..body.used] == [b[0]] + body.data + CRLF
  {
    var line := ParseLine(b).value;
    assert !CrlfAt(b, 0);
    assert line.data == [b[0]] + line.data[1..];
    assert b[..line.used] == line.data + CRLF;
  }

  lemma NumberLineTaken(b: Bytes, n: i64)
    requires b != [] && b[0] != CR && Body(b).Some? && Number(Body(b).value.data) == Success(n)
    ensures IsNumberLine(b[..Body(b).value.used], b[0], n)
  {
    hide SpellsInt, Body, Number;
    BodyTaken(b);
    NumberTaken(Body(b).value.data, n);
  }

  lemma BulkTaken(b: Bytes)
    requires b != [] && b[0] == CSTRING_BYTE && ParseResponse(b).Complete? && ParseResponse(b).value.Cstr?
    ensures IsBulk(b[..ParseResponse(b).used], ParseResponse(b).value.bytes)
  {
    hide IsNumberLine, Body, Number, ParseItems;
    var body := Body(b).value;
    var n := Number(body.data).value;
    NumberLineTaken(b, n);
    assert b[..body.used + n + 2] == b[..body.used] + b[body.used..body.used + n] + CRLF;
  }

  lemma LineTaken(b: Bytes)
    requires ParseResponse(b).Complete? && !ParseResponse(b).value.Cstr? && !ParseResponse(b).value.Array?
    ensures IsResponse(b[..ParseResponse(b).used], ParseResponse(b).value)
  {
    hide IsNumberLine, Body, Number, ParseItems;
    BodyTaken(b);
    if b[0] == MINUS {
      BodyIsOneLine(b);
    } else if b[0] != PLUS {
      NumberLineTaken(b, Number(Body(b).value.data).value);
    }
  }

  lemma {:induction false} ResponseTaken(b: Bytes)
    requires ParseResponse(b).Complete?
    ensures IsResponse(b[..ParseResponse(b).used], ParseResponse(b).value)
    decreases |b|, 0
  {
    hide IsNumberLine, IsBulk, Body, Number, ParseItems, AreResponses;
    var r := ParseResponse(b);
    if r.value.Array? {
      var body := Body(b).value;
      var n := ArrayLength(body).value;
      NumberLineTaken(b, n);
      ItemsTaken(b[body.used..], n);
      var p, rest := b[..r.used], b[body.used..][..r.used - body.used];
      assert p[..body.used] == b[..body.used] && p[body.used..] == rest;
    } else if r.value.Cstr? {
      BulkTaken(b);
    } else {
      LineTaken(b);
    }
  }

  lemma {:induction false} ItemsTaken(b: Bytes, count: nat)
    requires ParseItems(b, count).Complete?
    ensures AreResponses(b[..ParseItems(b, count).used], ParseItems(b, count).value)
    decreases |b|, 1
  {
    hide ParseResponse, IsResponse;
    if count > 0 {
      var first := ParseResponse(b);
      var rest := ParseItems(b[first.used..], count - 1);
      ResponseTaken(b);
      ItemsTaken(b[first.used..], count - 1);
      var p := b[..first.used + rest.used];
      assert p[..first.used] == b[..first.used] && p[first.used..] == b[first.used..][..rest.used];
      assert ([first.value] + rest.value)[1..] == rest.value;
    }
  }

  /** The parser takes `used` bytes as the response `r` exactly when these bytes spell it. */
  lemma ResponseExact(b: Bytes, r: Response, used: nat)
    ensures ParseResponse(b) == Complete(r, used) <==> used <= |b| && IsResponse(b[..used], r)
  {
    hide ParseResponse, IsResponse;
    if ParseResponse(b) == Complete(r, used) {
      ResponseTaken(b);
    }
    if used <= |b| && IsResponse(b[..used], r) {
      ResponseIsTaken(b[..used], r, b[used..]);
      assert b[..used] + b[used..] == b;
    }
  }

  // ---------------------------------------------------------------------------------------
  // Refusals
  // ---------------------------------------------------------------------------------------

  /** Which faults of a first line are refused at once, and with which error. */
  lemma ResponseRefused(b: Bytes, n: i64)
    requires b != []
    ensures b[0] !in PREFIXES ==>
              ParseResponse(b) == Broken(UnexpectedPrefix(b[0]))
    ensures b[0] in PREFIXES && !HasCrlf(b) ==> ParseResponse(b) == Waiting
    ensures b[0] in PREFIXES && HasCrlf(b) ==>
              var body := Body(b).value.data;
              && (b[0] == PLUS && body != OK_BODY ==> ParseResponse(b) == Broken(UnexpectedSstr(body)))
              && (b[0] != PLUS && !ValidUtf8(body) ==> ParseResponse(b) == Broken(InvalidUtf8))
              && (b[0] in {CSTRING_BYTE, INTEGER_BYTE, ARRAY_BYTE} && ValidUtf8(body) ==>
                    (forall m: i64 :: !SpellsInt(body, m)) ==> ParseResponse(b) == Broken(InvalidInt))
              && (SpellsInt(body, n) ==>
                    && (b[0] == ARRAY_BYTE && n < 0 ==> ParseResponse(b) == Broken(InvalidArrayLength(n)))
                    && (b[0] == CSTRING_BYTE && n < -1 ==> ParseResponse(b) == Broken(InvalidCStringLength(n)))
                    && (b[0] == CSTRING_BYTE && n > MAX_COMPLEX_STRING_LENGTH ==>
                          ParseResponse(b) == Broken(CStringTooLong(n))))
  {
    hide ParseI64, ValidUtf8, SpellsInt, ParseItems;
    if b[0] in PREFIXES && HasCrlf(b) {
      var body := Body(b).value.data;
      if SpellsInt(body, n) {
        SpelledNumber(body, n);
      }
      if ParseI64(body).Some? {
        IntExact(body, ParseI64(body).value);
      }
    }
  }

  /** The fault of a first line with prefix `c`, of which `body` is the rest without the CRLF. */
  ghost predicate BodyFault(c: byte, body: Bytes, e: ParseError) {
    if c == PLUS then body != OK_BODY && e == UnexpectedSstr(body)
    else if !ValidUtf8(body) then e == InvalidUtf8
    else
      && c != MINUS
      && (|| (e == InvalidInt && forall n: i64 :: !SpellsInt(body, n))
          || exists n: i64 :: SpellsInt(body, n) && LengthFault(c, n, e))
  }

  predicate LengthFault(c: byte, n: i64, e: ParseError) {
    || (c == ARRAY_BYTE && n < 0 && e == InvalidArrayLength(n))
    || (c == CSTRING_BYTE && n < -1 && e == InvalidCStringLength(n))
    || (c == CSTRING_BYTE && n > MAX_COMPLEX_STRING_LENGTH && e == CStringTooLong(n))
  }

  ghost predicate LineIsFaulty(b: Bytes, e: ParseError) {
    exists c, body, rest :: FirstLineOf(b, c, body, rest) && BodyFault(c, body, e)
  }

  ghost predicate FirstLineOf(b: Bytes, c: byte, body: Bytes, rest: Bytes) {
    c in PREFIXES && b == [c] + body + CRLF + rest && !HasCrlf(body)
  }

  /** The header of a bulk string and as many bytes as it announces, without a CRLF after them. */
  ghost predicate BulkUnclosed(b: Bytes) {
    exists h, bytes, rest :: UnclosedAfter(b, h, bytes, rest)
  }

  ghost predicate UnclosedAfter(b: Bytes, h: Bytes, bytes: Bytes, rest: Bytes) {
    && IsNumberLine(h, CSTRING_BYTE, |bytes|) && |bytes| <= MAX_COMPLEX_STRING_LENGTH
    && b == h + (bytes + rest) && 2 <= |rest| && rest[..2] != CRLF
  }

  /** A response with a fault: an unknown prefix, a faulty first line, an unclosed bulk string, or
      the header of an array before faulty elements. */
  ghost predicate IsFaulty(b: Bytes, e: ParseError)
    decreases |b|, 0
  {
    || (b != [] && b[0] !in PREFIXES && e == UnexpectedPrefix(b[0]))
    || LineIsFaulty(b, e)
    || (e == MissingCrlf && BulkUnclosed(b))
    || exists n, count: i64 ::
         0 < n <= |b| && 0 <= count && IsNumberLine(b[..n], ARRAY_BYTE, count) && AreFaulty(b[n..], count, e)
  }

  /** Some spelled responses, fewer than `count`, and then a faulty one. */
  ghost predicate AreFaulty(b: Bytes, count: nat, e: ParseError)
    decreases |b|, 1
  {
    && 0 < count
    && (|| IsFaulty(b, e)
        || exists n, r :: 0 < n <= |b| && IsResponse(b[..n], r) && AreFaulty(b[n..], count - 1, e))
  }

  /** Without its payload or elements, what a first line is worth. */
  lemma LineVerdict(b: Bytes, e: ParseError)
    requires b != [] && b[0] in PREFIXES && Body(b).Some?
    ensures var body := Body(b).value.data;
            BodyFault(b[0], body, e) ==> ParseResponse(b) == Broken(e)
    ensures var body := Body(b).value.data;
            ParseResponse(b) == Broken(e) && !BodyFault(b[0], body, e) ==>
              && Number(body).Success? && 0 <= Number(body).value
              && (b[0] == CSTRING_BYTE || b[0] == ARRAY_BYTE)
              && (b[0] == CSTRING_BYTE ==> Number(body).value <= MAX_COMPLEX_STRING_LENGTH)
  {
    hide ParseI64, ValidUtf8, SpellsInt, ParseItems, Body;
    var body := Body(b).value.data;
    NumberVerdict(body);
  }

  /** How a number reads, in terms of its spelling. */
  lemma NumberVerdict(s: Bytes)
    ensures !ValidUtf8(s) ==> Number(s) == Failure(InvalidUtf8)
    ensures ValidUtf8(s) && (forall n: i64 :: !SpellsInt(s, n)) ==> Number(s) == Failure(InvalidInt)
    ensures forall n: i64 :: SpellsInt(s, n) <==> Number(s) == Success(n)
  {
    hide ParseI64, ValidUtf8, SpellsInt;
    forall n: i64
      ensures SpellsInt(s, n) <==> Number(s) == Success(n)
    {
      IntExact(s, n);
      if SpellsInt(s, n) {
        SpelledNumber(s, n);
      }
    }
    if ReadI64(s).Success? {
      assert SpellsInt(s, ReadI64(s).value);
    }
  }

  lemma LineFaultBreaks(b: Bytes, e: ParseError)
    requires LineIsFaulty(b, e)
    ensures ParseResponse(b) == Broken(e)
  {
    hide ParseResponse, BodyFault, Body;
    var c, body, rest :| FirstLineOf(b, c, body, rest) && BodyFault(c, body, e);
    BodyIsTaken(c, body, rest);
    LineVerdict(b, e);
  }

  lemma UnclosedBreaks(b: Bytes)
    requires BulkUnclosed(b)
    ensures ParseResponse(b) == Broken(MissingCrlf)
  {
    hide IsNumberLine, Body, Number, ParseItems;
    var h, bytes, rest :| UnclosedAfter(b, h, bytes, rest);
    NumberLineIsTaken(h, CSTRING_BYTE, |bytes|, bytes + rest);
    var end := |h| + |bytes|;
    assert b[0] == CSTRING_BYTE;
    assert b[end..end + 2] == rest[..2];
  }

  lemma {:induction false} FaultBreaks(b: Bytes, e: ParseError)
    requires IsFaulty(b, e)
    ensures ParseResponse(b) == Broken(e)
    decreases |b|, 0
  {
    hide Body, Number, ParseItems, IsNumberLine, LineIsFaulty, BulkUnclosed, AreFaulty;
    if LineIsFaulty(b, e) {
      LineFaultBreaks(b, e);
    } else if e == MissingCrlf && BulkUnclosed(b) {
      UnclosedBreaks(b);
    } else if !(b != [] && b[0] !in PREFIXES && e == UnexpectedPrefix(b[0])) {
      var n, count: i64 :|
        0 < n <= |b| && 0 <= count && IsNumberLine(b[..n], ARRAY_BYTE, count) && AreFaulty(b[n..], count, e);
      FaultBreaksItems(b[n..], count, e);
      NumberLineIsTaken(b[..n], ARRAY_BYTE, count, b[n..]);
      assert b[..n] + b[n..] == b;
    }
  }

  lemma {:induction false} FaultBreaksItems(b: Bytes, count: nat, e: ParseError)
    requires AreFaulty(b, count, e)
    ensures ParseItems(b, count) == Broken(e)
    decreases |b|, 1
  {
    hide ParseResponse, IsFaulty, IsResponse;
    if IsFaulty(b, e) {
      FaultBreaks(b, e);
    } else {
      var n, r :| 0 < n <= |b| && IsResponse(b[..n], r) && AreFaulty(b[n..], count - 1, e);
      FaultBreaksItems(b[n..], count - 1, e);
      ResponseIsTaken(b[..n], r, b[n..]);
      assert b[..n] + b[n..] == b;
    }
  }

  /** With the header of a bulk string read, all that can be wrong is its end. */
  lemma UnclosedFound(b: Bytes, e: ParseError)
    requires b != [] && b[0] == CSTRING_BYTE && Body(b).Some? && Number(Body(b).value.data).Success?
    requires 0 <= Number(Body(b).value.data).value <= MAX_COMPLEX_STRING_LENGTH
    requires ParseResponse(b) == Broken(e)
    ensures e == MissingCrlf && BulkUnclosed(b)
  {
    hide IsNumberLine, Body, Number, ParseItems, UnclosedAfter;
    var start, n := Body(b).value.used, Number(Body(b).value.data).value;
    NumberLineTaken(b, n);
    assert TakePayload(b, start, n) == Broken(e);
    PayloadUnclosed(b, start, n, e);
  }

  lemma PayloadUnclosed(b: Bytes, start: nat, n: nat, e: ParseError)
    requires start <= |b| && IsNumberLine(b[..start], CSTRING_BYTE, n) && n <= MAX_COMPLEX_STRING_LENGTH
    requires TakePayload(b, start, n) == Broken(e)
    ensures e == MissingCrlf && BulkUnclosed(b)
  {
    hide IsNumberLine;
    var end := start + n;
    DropTake(b, end, 2);
    assert b == b[..start] + (b[start..end] + b[end..]);
    UnclosedWith(b, b[..start], b[start..end], b[end..]);
  }

  lemma UnclosedWith(b: Bytes, h: Bytes, bytes: Bytes, rest: Bytes)
    requires UnclosedAfter(b, h, bytes, rest)
    ensures BulkUnclosed(b)
  {
    hide UnclosedAfter;
  }

  lemma {:induction false} BreakIsFault(b: Bytes, e: ParseError)
    requires ParseResponse(b) == Broken(e)
    ensures IsFaulty(b, e)
    decreases |b|, 0
  {
    hide Body, Number, ParseItems, IsNumberLine, BodyFault, BulkUnclosed, AreFaulty;
    if b[0] in PREFIXES {
      var body := Body(b).value;
      var n := body.used;
      BodyTaken(b);
      LineVerdict(b, e);
      if BodyFault(b[0], body.data, e) {
        BodyIsOneLine(b);
        assert b == b[..n] + b[n..];
        assert FirstLineOf(b, b[0], body.data, b[n..]);
      } else if b[0] == CSTRING_BYTE {
        UnclosedFound(b, e);
      } else {
        var count := Number(body.data).value;
        NumberLineTaken(b, count);
        BreakIsFaultInItems(b[n..], count, e);
      }
    }
  }

  lemma {:induction false} BreakIsFaultInItems(b: Bytes, count: nat, e: ParseError)
    requires ParseItems(b, count) == Broken(e)
    ensures AreFaulty(b, count, e)
    decreases |b|, 1
  {
    hide ParseResponse, IsFaulty, IsResponse;
    if ParseResponse(b) == Broken(e) {
      BreakIsFault(b, e);
    } else {
      var n, r := ParseResponse(b).used, ParseResponse(b).value;
      ResponseTaken(b);
      BreakIsFaultInItems(b[n..], count - 1, e);
      assert IsResponse(b[..n], r);
    }
  }

  /** The parser refuses a buffer with the error `e` exactly when the buffer is spelled correctly,
      at any depth of nesting, up to a part with that fault. What is neither this nor a spelled
      response is incomplete. */
  lemma RefusalExact(b: Bytes, e: ParseError)
    ensures ParseResponse(b) == Broken(e) <==> IsFaulty(b, e)
  {
    hide ParseResponse, IsFaulty;
    if ParseResponse(b) == Broken(e) {
      BreakIsFault(b, e);
    }
    if IsFaulty(b, e) {
      FaultBreaks(b, e);
    }
  }
}
