/** The request protocol as values: a parser of the bytes at the start of a buffer, the printer,
    and how the two fit together. A request is an array of bulk strings. */
module Request {
  import opened Prelude
  import opened Wire
  import opened Framing

  const MAX_ARRAY_LENGTH := 1024 * 1024

  datatype RequestError =
    | MissingFirstByte
    | ExpectedArray(got: byte)
    | MissingCrlf
    | InvalidUtf8
    | InvalidInt
    | ArrayTooLong(length: nat)
    | ExpectedCString(got: byte)
    | CStringTooLong(length: nat)
    | Poisoned
    | UnexpectedEof

  type Args = seq<Bytes>

  /** The two headers of the protocol: prefix byte, limit and errors. */
  datatype Header = ArrayHeader | CStringHeader {
    function Prefix(): byte {
      match this case ArrayHeader => ARRAY_BYTE case CStringHeader => CSTRING_BYTE
    }

    function Limit(): nat {
      match this case ArrayHeader => MAX_ARRAY_LENGTH case CStringHeader => MAX_COMPLEX_STRING_LENGTH
    }

    function Expected(got: byte): RequestError {
      match this case ArrayHeader => ExpectedArray(got) case CStringHeader => ExpectedCString(got)
    }

    function TooLong(length: nat): RequestError {
      match this case ArrayHeader => ArrayTooLong(length) case CStringHeader => CStringTooLong(length)
    }
  }

  // ---------------------------------------------------------------------------------------
  // Parsing
  // ---------------------------------------------------------------------------------------

  /** The errors that bytes can cause; the others concern the end of the stream and reuse. */
  predicate Malformed(e: RequestError) {
    e != Poisoned && e != UnexpectedEof
  }

  function ParseHeader(b: Bytes, header: Header): (r: Step<nat, RequestError>)
    ensures r.Complete? ==> 3 <= r.used <= |b| && r.value <= header.Limit()
    ensures r.Broken? ==> Malformed(r.error)
  {
    match ParseLine(b)
    case None => Waiting
    case Some(line) =>
      if line.data == [] then Broken(MissingFirstByte)
      else if line.data[0] != header.Prefix() then Broken(header.Expected(line.data[0]))
      else
        match ReadU64(line.data[1..])
        case Failure(NotUtf8) => Broken(InvalidUtf8)
        case Failure(NotANumber) => Broken(InvalidInt)
        case Success(length) =>
          if length > header.Limit() then Broken(header.TooLong(length))
          else Complete(length, line.used)
  }

  function ParseCstr(b: Bytes): (r: Step<Bytes, RequestError>)
    ensures r.Complete? ==> 5 <= r.used <= |b| && |r.value| <= MAX_COMPLEX_STRING_LENGTH
    ensures r.Broken? ==> Malformed(r.error)
  {
    match ParseHeader(b, CStringHeader)
    case Waiting => Waiting
    case Broken(e) => Broken(e)
    case Complete(length, start) => TakeCstr(b, start, length)
  }

  /** The `length` bytes from `start`, which a CRLF must follow. */
  function TakeCstr(b: Bytes, start: nat, length: nat): Step<Bytes, RequestError> {
    var end := start + length + 2;
    if end > |b| then Waiting
    else if b[start + length..end] != CRLF then Broken(MissingCrlf)
    else Complete(b[start..start + length], end)
  }

  lemma CstrBounded()
    ensures Bounded(ParseCstr)
  {
  }

  /** `count` bulk strings one after the other. */
  ghost function ParseArgs(b: Bytes, count: nat): (r: Step<Args, RequestError>)
    ensures r.Complete? ==> r.used <= |b| && |r.value| == count
  {
    CstrBounded();
    Many(ParseCstr, b, count)
  }

  /** An array header and as many bulk strings as it announces. */
  ghost function ParseRequest(b: Bytes): (r: Step<Args, RequestError>)
    ensures r.Complete? ==> 3 <= r.used <= |b|
  {
    match ParseHeader(b, ArrayHeader)
    case Waiting => Waiting
    case Broken(e) => Broken(e)
    case Complete(count, start) => After([], start, ParseArgs(b[start..], count))
  }

  lemma RequestErrors(b: Bytes)
    requires ParseRequest(b).Broken?
    ensures Malformed(ParseRequest(b).error)
  {
    hide ParseCstr, ParseHeader;
    CstrBounded();
    var h := ParseHeader(b, ArrayHeader);
    if h.Complete? {
      ManyErrors(ParseCstr, b[h.used..], h.value, e => Malformed(e));
    }
  }

  // ---------------------------------------------------------------------------------------
  // Verdicts are final
  // ---------------------------------------------------------------------------------------

  lemma HeaderLocal(b: Bytes, header: Header, more: Bytes)
    requires ParseHeader(b, header) != Waiting
    ensures ParseHeader(b + more, header) == ParseHeader(b, header)
  {
    LineLocal(b, more);
  }

  lemma CstrVerdictFinal(b: Bytes, more: Bytes)
    requires ParseCstr(b) != Waiting
    ensures ParseCstr(b + more) == ParseCstr(b)
  {
    HeaderLocal(b, CStringHeader, more);
    var h := ParseHeader(b, CStringHeader);
    if h.Complete? {
      TakeVerdictFinal(b, h.used, h.value, more);
    }
  }

  lemma TakeVerdictFinal(b: Bytes, start: nat, length: nat, more: Bytes)
    requires TakeCstr(b, start, length) != Waiting
    ensures TakeCstr(b + more, start, length) == TakeCstr(b, start, length)
  {
    var data, end := start + length, start + length + 2;
    assert (b + more)[data..end] == b[data..end];
    assert (b + more)[start..data] == b[start..data];
  }

  lemma CstrLocal()
    ensures Local(ParseCstr)
  {
    forall b, more | ParseCstr(b) != Waiting
      ensures Extended(ParseCstr, b, more)
    {
      CstrVerdictFinal(b, more);
    }
  }

  lemma CstrsVerdictFinal(b: Bytes, count: nat, more: Bytes)
    requires ParseArgs(b, count) != Waiting
    ensures ParseArgs(b + more, count) == ParseArgs(b, count)
  {
    CstrLocal();
    ManyLocal(ParseCstr, b, count, more);
  }

  lemma RequestVerdictFinal(b: Bytes, more: Bytes)
    requires ParseRequest(b) != Waiting
    ensures ParseRequest(b + more) == ParseRequest(b)
  {
    HeaderLocal(b, ArrayHeader, more);
    var h := ParseHeader(b, ArrayHeader);
    if h.Complete? {
      DropAppend(b, more, h.used);
      CstrsVerdictFinal(b[h.used..], h.value, more);
    }
  }

  lemma RequestLocal()
    ensures Local(ParseRequest)
  {
    forall b, more | ParseRequest(b) != Waiting
      ensures Extended(ParseRequest, b, more)
    {
      RequestVerdictFinal(b, more);
    }
  }

  /** The requests of a whole stream, parsed at once, and how it ends. */
  ghost function Requests(stream: Bytes): (seq<Args>, End<RequestError>) {
    RequestLocal();
    Frames(ParseRequest, stream)
  }

  // ---------------------------------------------------------------------------------------
  // Printing
  // ---------------------------------------------------------------------------------------

  function PrintHeader(prefix: byte, length: nat): Bytes {
    [prefix] + Digits(length) + CRLF
  }

  function PrintCstr(cstr: Bytes): Bytes {
    PrintHeader(CSTRING_BYTE, |cstr|) + cstr + CRLF
  }

  function PrintCstrs(args: Args): (r: seq<Bytes>)
    ensures |r| == |args|
    ensures forall i :: 0 <= i < |args| ==> r[i] == PrintCstr(args[i])
  {
    seq(|args|, i requires 0 <= i < |args| => PrintCstr(args[i]))
  }

  function PrintRequest(args: Args): Bytes {
    PrintHeader(ARRAY_BYTE, |args|) + Flatten(PrintCstrs(args))
  }

  method AppendHeader(buf: Bytes, prefix: byte, length: nat) returns (out: Bytes)
    ensures out == buf + PrintHeader(prefix, length)
  {
    out := buf + [prefix];
    out := out + Digits(length);
    out := out + CRLF;
  }

  method AppendCstr(buf: Bytes, cstr: Bytes) returns (out: Bytes)
    ensures out == buf + PrintCstr(cstr)
  {
    out := AppendHeader(buf, CSTRING_BYTE, |cstr|);
    out := out + cstr;
    out := out + CRLF;
  }

  /** Printing into a growing buffer. */
  method ToBytes(cstrs: Args) returns (buf: Bytes)
    ensures buf == PrintRequest(cstrs)
  {
    buf := AppendHeader([], ARRAY_BYTE, |cstrs|);
    for i := 0 to |cstrs|
      invariant buf == PrintHeader(ARRAY_BYTE, |cstrs|) + Flatten(PrintCstrs(cstrs[..i]))
    {
      PrintOneMore(cstrs, i);
      buf := AppendCstr(buf, cstrs[i]);
    }
    assert cstrs[..|cstrs|] == cstrs;
  }

  lemma PrintOneMore(args: Args, i: nat)
    requires i < |args|
    ensures Flatten(PrintCstrs(args[..i + 1])) == Flatten(PrintCstrs(args[..i])) + PrintCstr(args[i])
  {
    assert PrintCstrs(args[..i + 1]) == PrintCstrs(args[..i]) + [PrintCstr(args[i])];
    FlattenSnoc(PrintCstrs(args[..i]), PrintCstr(args[i]));
  }

  /** The requests that fit the limits of the protocol. */
  ghost predicate Sendable(args: Args) {
    && |args| <= MAX_ARRAY_LENGTH
    && forall i :: 0 <= i < |args| ==> |args[i]| <= MAX_COMPLEX_STRING_LENGTH
  }

  lemma HeaderRoundTrip(header: Header, length: nat, rest: Bytes)
    requires length <= header.Limit()
    ensures ParseHeader(PrintHeader(header.Prefix(), length) + rest, header)
         == Complete(length, |PrintHeader(header.Prefix(), length)|)
  {
    var line := [header.Prefix()] + Digits(length);
    NumberOnLine(length);
    assert line[1..] == Digits(length);
    PrefixedLine(header.Prefix(), Digits(length));
    LineRoundTrip(line, rest);
    assert PrintHeader(header.Prefix(), length) == line + CRLF;
  }

  lemma CstrRoundTrip(cstr: Bytes, rest: Bytes)
    requires |cstr| <= MAX_COMPLEX_STRING_LENGTH
    ensures ParseCstr(PrintCstr(cstr) + rest) == Complete(cstr, |PrintCstr(cstr)|)
  {
    var header := PrintHeader(CSTRING_BYTE, |cstr|);
    var b := PrintCstr(cstr) + rest;
    assert b == header + (cstr + CRLF + rest);
    HeaderRoundTrip(CStringHeader, |cstr|, cstr + CRLF + rest);
    TakeRoundTrip(header, cstr, rest);
  }

  lemma TakeRoundTrip(header: Bytes, cstr: Bytes, rest: Bytes)
    ensures TakeCstr(header + cstr + CRLF + rest, |header|, |cstr|) == Complete(cstr, |header| + |cstr| + 2)
  {
    var b := header + cstr + CRLF + rest;
    assert b[|header|..|header| + |cstr|] == cstr;
    assert b[|header| + |cstr|..|header| + |cstr| + 2] == CRLF;
  }

  lemma CstrsPrint(args: Args)
    requires Sendable(args)
    ensures forall i :: 0 <= i < |args| ==> Prints(ParseCstr, PrintCstrs(args)[i], args[i])
  {
    forall i | 0 <= i < |args|
      ensures Prints(ParseCstr, PrintCstrs(args)[i], args[i])
    {
      forall more
        ensures Reads(ParseCstr, PrintCstr(args[i]), args[i], more)
      {
        CstrRoundTrip(args[i], more);
      }
    }
  }

  /** What the parser accepts is within the limits. */
  lemma ParsedIsSendable(b: Bytes)
    requires ParseRequest(b).Complete?
    ensures Sendable(ParseRequest(b).value)
  {
    var h := ParseHeader(b, ArrayHeader);
    CstrBounded();
    ManyAll(ParseCstr, b[h.used..], h.value, cstr => |cstr| <= MAX_COMPLEX_STRING_LENGTH);
    var args := ParseArgs(b[h.used..], h.value).value;
    assert [] + args == args;
  }

  /** A printed request is read back, whatever bytes follow, exactly when it is in the limits. */
  lemma RequestRoundTrip(args: Args, more: Bytes)
    ensures Sendable(args) <==>
            ParseRequest(PrintRequest(args) + more) == Complete(args, |PrintRequest(args)|)
  {
    hide Sendable, ParseRequest, PrintRequest;
    if Sendable(args) {
      PrintedIsRead(args, more);
    } else if ParseRequest(PrintRequest(args) + more) == Complete(args, |PrintRequest(args)|) {
      ParsedIsSendable(PrintRequest(args) + more);
    }
  }

  lemma PrintedIsRead(args: Args, more: Bytes)
    requires Sendable(args)
    ensures ParseRequest(PrintRequest(args) + more) == Complete(args, |PrintRequest(args)|)
  {
    hide ParseHeader, ParseCstr, PrintHeader, PrintCstrs, Flatten, Many;
    var header := PrintHeader(ARRAY_BYTE, |args|);
    var rest := Flatten(PrintCstrs(args)) + more;
    assert PrintRequest(args) + more == header + rest;
    HeaderRoundTrip(ArrayHeader, |args|, rest);
    DropPrefix(header, rest);
    CstrBounded();
    CstrsPrint(args);
    ManyPrinted(ParseCstr, PrintCstrs(args), args, more);
    assert [] + args == args;
  }

  lemma RequestPrints(args: Args)
    requires Sendable(args)
    ensures Prints(ParseRequest, PrintRequest(args), args)
  {
    hide ParseRequest, PrintRequest, Sendable;
    forall more
      ensures Reads(ParseRequest, PrintRequest(args), args, more)
    {
      RequestRoundTrip(args, more);
    }
  }

  /** Requests printed one after the other are told apart again, in order, if and only if all of
      them are within the limits; and no strict prefix of a printed request is taken for a
      complete or a malformed one. */
  lemma PrintedRequestsFrame(requests: seq<Args>)
    ensures Requests(Flatten(Printed(requests))) == (requests, Clean) <==>
            forall i :: 0 <= i < |requests| ==> Sendable(requests[i])
    ensures forall i, n :: 0 <= i < |requests| && Sendable(requests[i]) && 0 <= n < |PrintRequest(requests[i])| ==>
                             ParseRequest(PrintRequest(requests[i])[..n]) == Waiting
  {
    hide ParseRequest, PrintRequest, Sendable, Frames;
    RequestLocal();
    forall i | 0 <= i < |requests| && Sendable(requests[i])
      ensures Prints(ParseRequest, PrintRequest(requests[i]), requests[i])
    {
      RequestPrints(requests[i]);
    }
    if forall i :: 0 <= i < |requests| ==> Sendable(requests[i]) {
      FramesOfPrinted(ParseRequest, Printed(requests), requests);
    }
    ReadIsSendable(Flatten(Printed(requests)));
    forall i, n | 0 <= i < |requests| && Sendable(requests[i]) && 0 <= n < |PrintRequest(requests[i])|
      ensures ParseRequest(PrintRequest(requests[i])[..n]) == Waiting
    {
      PrefixWaits(ParseRequest, PrintRequest(requests[i]), requests[i], n);
    }
  }

  /** Whatever is read from a stream is within the limits. */
  lemma ReadIsSendable(stream: Bytes)
    ensures forall i :: 0 <= i < |Requests(stream).0| ==> Sendable(Requests(stream).0[i])
  {
    hide ParseRequest, Sendable, Frames;
    RequestLocal();
    forall b | ParseRequest(b).Complete?
      ensures Sendable(ParseRequest(b).value)
    {
      ParsedIsSendable(b);
    }
    FramesAll(ParseRequest, stream, args => Sendable(args));
  }

  function Printed(requests: seq<Args>): (r: seq<Bytes>)
    ensures |r| == |requests|
    ensures forall i :: 0 <= i < |requests| ==> r[i] == PrintRequest(requests[i])
  {
    seq(|requests|, i requires 0 <= i < |requests| => PrintRequest(requests[i]))
  }
}
