/** The response protocol as values: trees of replies, their printer and the recursive parser. */
module Response {
  import opened Prelude
  import opened Wire
  import opened Framing

  const INTEGER_BYTE: byte := 58
  const PREFIXES: set<byte> := {PLUS, MINUS, CSTRING_BYTE, INTEGER_BYTE, ARRAY_BYTE}
  const OK_BODY: Bytes := [79, 75]
  const NULL_BODY: Bytes := [MINUS, 49]

  datatype Response =
    | Ok
    | Error(msg: Utf8)
    | Cstr(bytes: Bytes)
    | Null
    | Integer(n: i64)
    | Array(items: seq<Response>)

  datatype ParseError =
    | MissingCrlf
    | InvalidUtf8
    | InvalidInt
    | UnexpectedPrefix(got: byte)
    | UnexpectedSstr(body: Bytes)
    | CStringTooLong(length: nat)
    | InvalidCStringLength(found: i64)
    | InvalidArrayLength(found: i64)
    | Poisoned
    | UnexpectedEof

  type Outcome = Step<Response, ParseError>

  // ---------------------------------------------------------------------------------------
  // Printing
  // ---------------------------------------------------------------------------------------

  function PrefixByte(r: Response): byte {
    match r
    case Ok => PLUS
    case Error(_) => MINUS
    case Cstr(_) | Null => CSTRING_BYTE
    case Integer(_) => INTEGER_BYTE
    case Array(_) => ARRAY_BYTE
  }

  /** The first line of a printed response, without its prefix byte. */
  function FirstLine(r: Response): Bytes {
    match r
    case Ok => OK_BODY
    case Error(msg) => msg
    case Cstr(bytes) => PrintI64(|bytes|)
    case Null => NULL_BODY
    case Integer(n) => PrintI64(n)
    case Array(items) => PrintI64(|items|)
  }

  function PrintLine(r: Response): Bytes {
    [PrefixByte(r)] + FirstLine(r) + CRLF
  }

  function Print(r: Response): Bytes
    decreases r, 0
  {
    match r
    case Cstr(bytes) => PrintLine(r) + bytes + CRLF
    case Array(items) => PrintLine(r) + PrintItems(items)
    case _ => PrintLine(r)
  }

  function PrintItems(items: seq<Response>): Bytes
    decreases items, 1
  {
    if items == [] then [] else Print(items[0]) + PrintItems(items[1..])
  }

  // ---------------------------------------------------------------------------------------
  // Parsing
  // ---------------------------------------------------------------------------------------

  /** The first line without its prefix byte. A buffer that starts with a prefix byte does not
      start with CRLF, so there is a byte to leave out. */
  function Body(b: Bytes): (r: Option<Parsed<Bytes>>)
    requires b != [] && b[0] != CR
    ensures r.Some? ==> 3 <= r.value.used <= |b|
  {
    match ParseLine(b)
    case None => None
    case Some(line) =>
      assert line.data != [] by { assert !CrlfAt(b, 0); }
      Some(Parsed(line.data[1..], line.used))
  }

  function ParseResponse(b: Bytes): (r: Outcome)
    ensures r.Complete? ==> 3 <= r.used <= |b|
    decreases |b|, 0
  {
    if b == [] then Waiting
    else if b[0] !in PREFIXES then Broken(UnexpectedPrefix(b[0]))
    else
      match Body(b)
      case None => Waiting
      case Some(body) =>
        if b[0] == PLUS then OkLine(body)
        else if b[0] == MINUS then ErrorLine(body)
        else if b[0] == CSTRING_BYTE then TakeCstr(b, body)
        else if b[0] == INTEGER_BYTE then IntegerLine(body)
        else
          match ArrayLength(body)
          case Failure(e) => Broken(e)
          case Success(length) => ArrayOf(body.used, ParseItems(b[body.used..], length))
  }

  /** `count` responses one after the other. */
  function ParseItems(b: Bytes, count: nat): (r: Step<seq<Response>, ParseError>)
    ensures r.Complete? ==> r.used <= |b| && |r.value| == count
    decreases |b|, 1
  {
    if count == 0 then Complete([], 0)
    else
      match ParseResponse(b)
      case Waiting => Waiting
      case Broken(e) => Broken(e)
      case Complete(item, used) => After([item], used, ParseItems(b[used..], count - 1))
  }

  function ArrayOf(used: nat, items: Step<seq<Response>, ParseError>): Outcome {
    match items
    case Waiting => Waiting
    case Broken(e) => Broken(e)
    case Complete(responses, n) => Complete(Array(responses), used + n)
  }

  function OkLine(body: Parsed<Bytes>): Outcome {
    if body.data == OK_BODY then Complete(Ok, body.used) else Broken(UnexpectedSstr(body.data))
  }

  function ErrorLine(body: Parsed<Bytes>): Outcome {
    if ValidUtf8(body.data) then Complete(Error(body.data), body.used) else Broken(InvalidUtf8)
  }

  function Number(body: Bytes): Result<i64, ParseError> {
    match ReadI64(body)
    case Failure(NotUtf8) => Failure(InvalidUtf8)
    case Failure(NotANumber) => Failure(InvalidInt)
    case Success(n) => Success(n)
  }

  function IntegerLine(body: Parsed<Bytes>): Outcome {
    match Number(body.data)
    case Failure(e) => Broken(e)
    case Success(n) => Complete(Integer(n), body.used)
  }

  function ArrayLength(body: Parsed<Bytes>): Result<nat, ParseError> {
    match Number(body.data)
    case Failure(e) => Failure(e)
    case Success(n) => if n < 0 then Failure(InvalidArrayLength(n)) else Success(n)
  }

  function TakeCstr(b: Bytes, body: Parsed<Bytes>): (r: Outcome)
    requires 3 <= body.used <= |b|
    ensures r.Complete? ==> 3 <= r.used <= |b|
  {
    match Number(body.data)
    case Failure(e) => Broken(e)
    case Success(n) =>
      if n == -1 then Complete(Null, body.used)
      else if n < 0 then Broken(InvalidCStringLength(n))
      else if n > MAX_COMPLEX_STRING_LENGTH then Broken(CStringTooLong(n))
      else TakePayload(b, body.used, n)
  }

  function TakePayload(b: Bytes, start: nat, length: nat): (r: Outcome)
    ensures r.Complete? ==> r.used == start + length + 2 <= |b|
  {
    var end := start + length + 2;
    if end > |b| then Waiting
    else if b[start + length..end] != CRLF then Broken(MissingCrlf)
    else Complete(Cstr(b[start..start + length]), end)
  }

  // ---------------------------------------------------------------------------------------
  // Verdicts are final
  // ---------------------------------------------------------------------------------------

  lemma BodyLocal(b: Bytes, more: Bytes)
    requires b != [] && b[0] != CR && Body(b).Some?
    ensures Body(b + more) == Body(b)
  {
    LineLocal(b, more);
  }

  lemma CstrLocal(b: Bytes, body: Parsed<Bytes>, more: Bytes)
    requires 3 <= body.used <= |b| && TakeCstr(b, body) != Waiting
    ensures TakeCstr(b + more, body) == TakeCstr(b, body)
  {
    var n := Number(body.data);
    if n.Success? && 0 <= n.value && body.used + n.value + 2 <= |b| {
      var start, data, end := body.used, body.used + n.value, body.used + n.value + 2;
      assert (b + more)[data..end] == b[data..end];
      assert (b + more)[start..data] == b[start..data];
    }
  }

  lemma {:induction false} ResponseLocal(b: Bytes, more: Bytes)
    requires ParseResponse(b) != Waiting
    ensures ParseResponse(b + more) == ParseResponse(b)
    decreases |b|, 0
  {
    hide TakeCstr, OkLine, ErrorLine, IntegerLine, ArrayLength, Body, ParseItems;
    if b[0] in PREFIXES {
      BodyLocal(b, more);
      var body := Body(b).value;
      if b[0] == CSTRING_BYTE {
        CstrLocal(b, body, more);
      } else if b[0] == ARRAY_BYTE && ArrayLength(body).Success? {
        DropAppend(b, more, body.used);
        ItemsLocal(b[body.used..], ArrayLength(body).value, more);
      }
    }
  }

  lemma {:induction false} ItemsLocal(b: Bytes, count: nat, more: Bytes)
    requires ParseItems(b, count) != Waiting
    ensures ParseItems(b + more, count) == ParseItems(b, count)
    decreases |b|, 1
  {
    hide ParseResponse;
    if count > 0 {
      ResponseLocal(b, more);
      match ParseResponse(b) {
        case Broken(_) =>
        case Complete(item, used) =>
          DropAppend(b, more, used);
          ItemsLocal(b[used..], count - 1, more);
      }
    }
  }

  lemma ResponsesLocal()
    ensures Local(ParseResponse)
  {
    hide ParseResponse;
    forall b, more | ParseResponse(b) != Waiting
      ensures Extended(ParseResponse, b, more)
    {
      ResponseLocal(b, more);
    }
    assert ParseResponse([]) == Waiting by { NothingWaits(); }
  }

  lemma NothingWaits()
    ensures ParseResponse([]) == Waiting
  {
  }

  /** The responses of a whole stream, parsed at once, and how it ends. */
  ghost function Responses(stream: Bytes): (seq<Response>, End<ParseError>) {
    ResponsesLocal();
    Frames(ParseResponse, stream)
  }

  // ---------------------------------------------------------------------------------------
  // Round trips
  // ---------------------------------------------------------------------------------------

  /** The responses that survive printing: no error text contains CRLF, and all lengths are in
      range. */
  ghost predicate Sendable(r: Response) {
    match r
    case Error(msg) => !HasCrlf(msg)
    case Cstr(bytes) => |bytes| <= MAX_COMPLEX_STRING_LENGTH
    case Array(items) => |items| < WORD / 2 && forall i :: 0 <= i < |items| ==> Sendable(items[i])
    case _ => true
  }

  lemma BodyRoundTrip(r: Response, rest: Bytes)
    requires r.Error? ==> !HasCrlf(r.msg)
    ensures Body(PrintLine(r) + rest) == Some(Parsed(FirstLine(r), |PrintLine(r)|))
  {
    var line := [PrefixByte(r)] + FirstLine(r);
    assert !HasCrlf(FirstLine(r)) by { FirstLineIsOne(r); }
    PrefixedLine(PrefixByte(r), FirstLine(r));
    LineRoundTrip(line, rest);
    assert PrintLine(r) == line + CRLF;
    assert line[1..] == FirstLine(r);
  }

  lemma FirstLineIsOne(r: Response)
    requires r.Error? ==> !HasCrlf(r.msg)
    ensures !HasCrlf(FirstLine(r))
  {
    match r {
      case Integer(n) => NumberOnLine(n);
      case Cstr(bytes) => NumberOnLine(|bytes|);
      case Array(items) => NumberOnLine(|items|);
      case _ =>
    }
  }

  lemma NumberRead(n: i64)
    ensures Number(PrintI64(n)) == Success(n)
  {
    NumberOnLine(n);
  }

  lemma NullRead()
    ensures Number(NULL_BODY) == Success(-1)
  {
    assert Digits(1) == [49];
    assert PrintI64(-1) == NULL_BODY;
    NumberOnLine(-1);
  }

  lemma CstrRoundTrip(r: Response, rest: Bytes)
    requires r.Cstr? && Sendable(r)
    ensures ParseResponse(Print(r) + rest) == Complete(r, |Print(r)|)
  {
    hide Body, Number;
    var b := Print(r) + rest;
    var line := PrintLine(r);
    assert b == line + (r.bytes + CRLF + rest);
    BodyRoundTrip(r, r.bytes + CRLF + rest);
    NumberRead(|r.bytes|);
    PayloadRoundTrip(line, r.bytes, rest);
    assert b == line + r.bytes + CRLF + rest;
    assert b[0] == CSTRING_BYTE;
  }

  lemma PayloadRoundTrip(line: Bytes, bytes: Bytes, rest: Bytes)
    ensures TakePayload(line + bytes + CRLF + rest, |line|, |bytes|)
         == Complete(Cstr(bytes), |line| + |bytes| + 2)
  {
    var b := line + bytes + CRLF + rest;
    assert b[|line|..|line| + |bytes|] == bytes;
    assert b[|line| + |bytes|..|line| + |bytes| + 2] == CRLF;
  }

  lemma LineRoundTrips(r: Response, rest: Bytes)
    requires Sendable(r) && !r.Cstr? && !r.Array?
    ensures ParseResponse(Print(r) + rest) == Complete(r, |Print(r)|)
  {
    hide Body, Number, ParseItems;
    BodyRoundTrip(r, rest);
    NullRead();
    if r.Integer? {
      NumberRead(r.n);
    }
    assert (Print(r) + rest)[0] == PrefixByte(r);
  }

  /** An array is read back if its elements are. */
  lemma ArrayRoundTrip(r: Response, rest: Bytes)
    requires r.Array? && |r.items| < WORD / 2
    requires ParseItems(PrintItems(r.items) + rest, |r.items|) == Complete(r.items, |PrintItems(r.items)|)
    ensures ParseResponse(Print(r) + rest) == Complete(r, |Print(r)|)
  {
    hide Body, Number, ParseItems, PrintItems;
    var tail := PrintItems(r.items) + rest;
    assert Print(r) + rest == PrintLine(r) + tail;
    BodyRoundTrip(r, tail);
    NumberRead(|r.items|);
    DropPrefix(PrintLine(r), tail);
    assert (Print(r) + rest)[0] == ARRAY_BYTE;
  }

  lemma {:induction false} PrintedIsRead(r: Response, rest: Bytes)
    requires Sendable(r)
    ensures ParseResponse(Print(r) + rest) == Complete(r, |Print(r)|)
    decreases r, 0
  {
    match r {
      case Cstr(_) => CstrRoundTrip(r, rest);
      case Array(items) =>
        ItemsAreRead(items, rest);
        ArrayRoundTrip(r, rest);
      case _ => LineRoundTrips(r, rest);
    }
  }

  lemma {:induction false} ItemsAreRead(items: seq<Response>, rest: Bytes)
    requires forall i :: 0 <= i < |items| ==> Sendable(items[i])
    ensures ParseItems(PrintItems(items) + rest, |items|) == Complete(items, |PrintItems(items)|)
    decreases items, 1
  {
    hide Print, ParseResponse;
    if items != [] {
      var tail := PrintItems(items[1..]) + rest;
      var b := PrintItems(items) + rest;
      assert b == Print(items[0]) + tail;
      PrintedIsRead(items[0], tail);
      assert b[|Print(items[0])|..] == tail;
      ItemsAreRead(items[1..], rest);
      assert [items[0]] + items[1..] == items;
    }
  }

  /** Whatever the parser produces survives printing. */
  lemma {:induction false} ParsedIsSendable(b: Bytes)
    requires ParseResponse(b).Complete?
    ensures Sendable(ParseResponse(b).value)
    decreases |b|, 0
  {
    hide ReadI64, Body, ParseItems;
    var body := Body(b).value;
    if b[0] == ARRAY_BYTE {
      ItemsAreSendable(b[body.used..], ArrayLength(body).value);
    } else if b[0] == MINUS {
      BodyIsOneLine(b);
    }
  }

  lemma BodyIsOneLine(b: Bytes)
    requires b != [] && b[0] != CR && Body(b).Some?
    ensures !HasCrlf(Body(b).value.data)
  {
    var line := ParseLine(b).value.data;
    assert !CrlfAt(b, 0);
    forall i: nat
      ensures !CrlfAt(line[1..], i)
    {
      assert !CrlfAt(line, i + 1);
    }
  }

  lemma {:induction false} ItemsAreSendable(b: Bytes, count: nat)
    requires ParseItems(b, count).Complete?
    ensures forall i :: 0 <= i < count ==> Sendable(ParseItems(b, count).value[i])
    decreases |b|, 1
  {
    hide ParseResponse;
    if count > 0 {
      ParsedIsSendable(b);
      ItemsAreSendable(b[ParseResponse(b).used..], count - 1);
    }
  }

  /** A printed response of any shape is read back, whatever bytes follow, and consumes exactly
      its own bytes, if and only if it is sendable. */
  lemma ResponseRoundTrip(r: Response, more: Bytes)
    ensures Sendable(r) <==> ParseResponse(Print(r) + more) == Complete(r, |Print(r)|)
  {
    hide ParseResponse, Print, Sendable;
    if Sendable(r) {
      PrintedIsRead(r, more);
    } else if ParseResponse(Print(r) + more) == Complete(r, |Print(r)|) {
      ParsedIsSendable(Print(r) + more);
    }
  }

  /** An error text with a CRLF inside is cut short by the reader. */
  lemma ErrorTextIsCut(head: Utf8, tail: Bytes, more: Bytes)
    requires !HasCrlf(head) && ValidUtf8(head + CRLF + tail)
    ensures ParseResponse(Print(Error(head + CRLF + tail)) + more) == Complete(Error(head), |head| + 3)
  {
    hide ParseResponse, Print, ValidUtf8, HasCrlf;
    PrintError(head + CRLF + tail);
    PrintError(head);
    Regroup([MINUS], head, CRLF, tail, more);
    PrintedIsRead(Error(head), tail + CRLF + more);
  }

  lemma Regroup(prefix: Bytes, head: Bytes, crlf: Bytes, tail: Bytes, more: Bytes)
    ensures prefix + (head + crlf + tail) + crlf + more == prefix + head + crlf + (tail + crlf + more)
  {
  }

  lemma PrintError(msg: Utf8)
    ensures Print(Error(msg)) == [MINUS] + msg + CRLF
  {
  }

  lemma ResponsePrints(r: Response, printed: Bytes)
    requires Sendable(r) && printed == Print(r)
    ensures Prints(ParseResponse, printed, r)
  {
    hide ParseResponse, Print, Sendable;
    forall more
      ensures Reads(ParseResponse, printed, r, more)
    {
      PrintedIsRead(r, more);
    }
  }

  /** Responses printed one after the other are read back as they are if and only if all of them
      are sendable; and no strict prefix of a printed response is taken for a complete or a
      malformed one. */
  lemma PrintedResponsesFrame(responses: seq<Response>)
    ensures Responses(PrintItems(responses)) == (responses, Clean) <==>
            forall i :: 0 <= i < |responses| ==> Sendable(responses[i])
    ensures forall i, n :: 0 <= i < |responses| && Sendable(responses[i]) && 0 <= n < |Print(responses[i])| ==>
                             ParseResponse(Print(responses[i])[..n]) == Waiting
  {
    hide ParseResponse, Print, Sendable, Frames;
    ResponsesLocal();
    if forall i :: 0 <= i < |responses| ==> Sendable(responses[i]) {
      SendableFrame(responses);
    }
    ReadIsSendable(PrintItems(responses));
    forall i, n | 0 <= i < |responses| && Sendable(responses[i]) && 0 <= n < |Print(responses[i])|
      ensures ParseResponse(Print(responses[i])[..n]) == Waiting
    {
      ResponsePrints(responses[i], Print(responses[i]));
      PrefixWaits(ParseResponse, Print(responses[i]), responses[i], n);
    }
  }

  lemma SendableFrame(responses: seq<Response>)
    requires forall i :: 0 <= i < |responses| ==> Sendable(responses[i])
    ensures Responses(PrintItems(responses)) == (responses, Clean)
  {
    hide ParseResponse, Print, Sendable;
    ResponsesLocal();
    var printed := seq(|responses|, i requires 0 <= i < |responses| => Print(responses[i]));
    forall i | 0 <= i < |responses|
      ensures Prints(ParseResponse, printed[i], responses[i])
    {
      ResponsePrints(responses[i], printed[i]);
    }
    FramesOfPrinted(ParseResponse, printed, responses);
    FlattenIsPrintItems(responses);
  }

  /** Whatever is read from a stream is sendable. */
  lemma ReadIsSendable(stream: Bytes)
    ensures forall i :: 0 <= i < |Responses(stream).0| ==> Sendable(Responses(stream).0[i])
  {
    hide ParseResponse, Sendable, Frames;
    ResponsesLocal();
    forall b | ParseResponse(b).Complete?
      ensures Sendable(ParseResponse(b).value)
    {
      ParsedIsSendable(b);
    }
    FramesAll(ParseResponse, stream, r => Sendable(r));
  }

  lemma {:induction false} FlattenIsPrintItems(responses: seq<Response>)
    ensures Flatten(seq(|responses|, i requires 0 <= i < |responses| => Print(responses[i]))) == PrintItems(responses)
  {
    hide Print;
    if responses != [] {
      FlattenIsPrintItems(responses[1..]);
      assert seq(|responses|, i requires 0 <= i < |responses| => Print(responses[i]))[1..]
          == seq(|responses[1..]|, i requires 0 <= i < |responses[1..]| => Print(responses[1..][i]));
    }
  }
}
