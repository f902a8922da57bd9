/** The response codec as it runs: printing into a growing buffer, parsing arrays in a loop, and
    a decoder that parses its buffer afresh whenever more bytes have arrived. */
module ResponseReader {
  import opened Prelude
  import opened Wire
  import opened Framing
  import opened Response

  lemma {:induction false} PrintItemsSnoc(items: seq<Response>, last: Response)
    ensures PrintItems(items + [last]) == PrintItems(items) + Print(last)
  {
    hide Print;
    if items == [] {
      assert [last][1..] == [];
      assert Print(last) + [] == [] + Print(last);
    } else {
      assert (items + [last])[1..] == items[1..] + [last];
      PrintItemsSnoc(items[1..], last);
    }
  }

  method ToBytes(r: Response) returns (buf: Bytes)
    ensures buf == Print(r)
    decreases r
  {
    buf := [PrefixByte(r)];
    match r {
      case Ok => buf := buf + OK_BODY;
      case Error(msg) => buf := buf + msg;
      case Cstr(bytes) =>
        buf := buf + Digits(|bytes|);
        buf := buf + CRLF;
        buf := buf + bytes;
      case Null => buf := buf + NULL_BODY;
      case Integer(n) => buf := buf + PrintI64(n);
      case Array(items) =>
        buf := buf + Digits(|items|);
        buf := buf + CRLF;
        buf := AppendAll(buf, items);
        return;
    }
    buf := buf + CRLF;
  }

  method AppendAll(start: Bytes, items: seq<Response>) returns (buf: Bytes)
    ensures buf == start + PrintItems(items)
    decreases items
  {
    hide Print;
    buf := start;
    for i := 0 to |items|
      invariant buf == start + PrintItems(items[..i])
    {
      var printed := ToBytes(items[i]);
      PrintItemsSnoc(items[..i], items[i]);
      assert items[..i + 1] == items[..i] + [items[i]];
      buf := buf + printed;
    }
    assert items[..|items|] == items;
  }

  method Parse(bytes: Bytes) returns (r: Outcome)
    ensures r == ParseResponse(bytes)
    decreases |bytes|, 1
  {
    hide Number, ParseLine, ParseItems;
    if bytes == [] {
      return Waiting;
    }
    if bytes[0] !in PREFIXES {
      return Broken(UnexpectedPrefix(bytes[0]));
    }
    if bytes[0] == ARRAY_BYTE {
      r := ParseArray(bytes);
      return;
    }
    var body := Body(bytes);
    match body {
      case None => return Waiting;
      case Some(line) =>
        r := if bytes[0] == PLUS then OkLine(line)
        else if bytes[0] == MINUS then ErrorLine(line)
        else if bytes[0] == CSTRING_BYTE then TakeCstr(bytes, line)
        else IntegerLine(line);
    }
  }

  method ParseArray(bytes: Bytes) returns (r: Outcome)
    requires bytes != [] && bytes[0] == ARRAY_BYTE
    ensures r == ParseResponse(bytes)
    decreases |bytes|, 0
  {
    hide Number, ParseLine, ParseItems, ArrayLength;
    var body := Body(bytes);
    if body.None? {
      return Waiting;
    }
    var length := ArrayLength(body.value);
    if length.Failure? {
      return Broken(length.error);
    }
    r := ParseElements(bytes[body.value.used..], body.value.used, length.value);
  }

  /** The elements of an array are parsed one after the other; the loop gives up as soon as one
      of them is incomplete or malformed. */
  method ParseElements(bytes: Bytes, headerLength: nat, length: nat) returns (r: Outcome)
    ensures r == ArrayOf(headerLength, ParseItems(bytes, length))
    decreases |bytes|, 2
  {
    hide ParseResponse, ParseItems;
    var responses: seq<Response> := [];
    var numBytesParsed: nat := 0;
    AfterNothing(ParseItems(bytes, length));
    assert bytes[0..] == bytes;
    for i := 0 to length
      invariant numBytesParsed <= |bytes|
      invariant ParseItems(bytes, length)
             == After(responses, numBytesParsed, ParseItems(bytes[numBytesParsed..], length - i))
    {
      ghost var rest := bytes[numBytesParsed..];
      ItemsStep(rest, length - i);
      var parsed := Parse(bytes[numBytesParsed..]);
      if !parsed.Complete? {
        return if parsed.Waiting? then Waiting else Broken(parsed.error);
      }
      AfterAfter(responses, numBytesParsed, [parsed.value], parsed.used,
                 ParseItems(rest[parsed.used..], length - i - 1));
      assert rest[parsed.used..] == bytes[numBytesParsed + parsed.used..];
      numBytesParsed := numBytesParsed + parsed.used;
      responses := responses + [parsed.value];
    }
    NoItems(bytes[numBytesParsed..]);
    assert responses + [] == responses;
    return Complete(Array(responses), headerLength + numBytesParsed);
  }

  lemma NoItems(b: Bytes)
    ensures ParseItems(b, 0) == Complete([], 0)
  {
  }

  lemma ItemsStep(b: Bytes, count: nat)
    requires 0 < count
    ensures ParseItems(b, count) ==
            match ParseResponse(b)
            case Waiting => Waiting
            case Broken(e) => Broken(e)
            case Complete(item, used) => After([item], used, ParseItems(b[used..], count - 1))
  {
    hide ParseResponse;
  }

  class ResponseDecoder {
    var buffer: Bytes
    var poisoned: bool

    constructor ()
      ensures buffer == [] && !poisoned
    {
      buffer, poisoned := [], false;
    }

    method ValidateEof() returns (r: Result<(), ParseError>)
      ensures r == if poisoned then Failure(Poisoned)
                   else if buffer != [] then Failure(UnexpectedEof) else Success(())
    {
      if poisoned {
        return Failure(Poisoned);
      }
      if buffer != [] {
        return Failure(UnexpectedEof);
      }
      return Success(());
    }

    method DecodeNext() returns (r: Result<Option<Response>, ParseError>)
      modifies this
      ensures old(poisoned) ==> r == Failure(Poisoned) && poisoned && buffer == old(buffer)
      ensures !old(poisoned) ==> r == Answer(ParseResponse(old(buffer))) && poisoned == r.Failure?
      ensures !old(poisoned) ==>
                buffer == match ParseResponse(old(buffer))
                          case Complete(_, used) => old(buffer)[used..]
                          case _ => old(buffer)
    {
      hide ParseResponse;
      if poisoned {
        return Failure(Poisoned);
      }
      var parsed := Parse(buffer);
      match parsed {
        case Waiting => return Success(None);
        case Broken(e) =>
          poisoned := true;
          return Failure(e);
        case Complete(response, used) =>
          buffer := buffer[used..];
          return Success(Some(response));
      }
    }
  }

  /** Reads responses from a source that delivers its bytes in chunks. */
  class ResponseReader {
    var chunks: seq<Bytes>
    const decoder: ResponseDecoder

    /** The bytes that are still to be decoded. */
    ghost function Stream(): Bytes
      reads this, decoder
    {
      decoder.buffer + Flatten(chunks)
    }

    constructor (chunks: seq<Bytes>)
      ensures fresh(decoder) && !decoder.poisoned
      ensures this.chunks == chunks && Stream() == Flatten(chunks)
    {
      this.chunks := chunks;
      decoder := new ResponseDecoder();
    }

    /** The next response of the stream, None at its end. Neither depends on how it was cut. */
    method ReadNext() returns (r: Result<Option<Response>, ParseError>)
      requires !decoder.poisoned && forall i :: 0 <= i < |chunks| ==> chunks[i] != []
      modifies this`chunks, decoder
      ensures forall i :: 0 <= i < |chunks| ==> chunks[i] != []
      ensures match ParseResponse(old(Stream()))
              case Complete(response, used) =>
                r == Success(Some(response)) && Stream() == old(Stream())[used..] && !decoder.poisoned
              case Broken(e) => r == Failure(e) && decoder.poisoned
              case Waiting =>
                r == (if old(Stream()) == [] then Success(None) else Failure(UnexpectedEof))
                && Stream() == old(Stream()) && !decoder.poisoned
    {
      hide ParseResponse;
      ghost var stream := Stream();
      while true
        invariant !decoder.poisoned && Stream() == stream
        invariant forall i :: 0 <= i < |chunks| ==> chunks[i] != []
        decreases |chunks|
      {
        ghost var buffer, rest := decoder.buffer, Flatten(chunks);
        if ParseResponse(buffer) != Waiting {
          ResponseLocal(buffer, rest);
        }
        r := decoder.DecodeNext();
        if r.Failure? {
          return r;
        }
        if r.value.Some? {
          DropAppend(buffer, rest, ParseResponse(buffer).used);
          return r;
        }
        if chunks == [] {
          assert buffer + [] == buffer;
          var eof := decoder.ValidateEof();
          match eof {
            case Failure(e) => return Failure(e);
            case Success(_) => return Success(None);
          }
        }
        assert buffer + (chunks[0] + Flatten(chunks[1..])) == (buffer + chunks[0]) + Flatten(chunks[1..]);
        decoder.buffer := decoder.buffer + chunks[0];
        chunks := chunks[1..];
      }
    }
  }

  /** Reading a stream to its end: however it is cut into chunks, the responses and the way it
      ends are those of parsing all of its bytes at once. */
  method ReadAll(chunks: seq<Bytes>) returns (responses: seq<Response>, end: End<ParseError>)
    requires forall i :: 0 <= i < |chunks| ==> chunks[i] != []
    ensures (responses, end) == Responses(Flatten(chunks))
  {
    hide ParseResponse, Frames, FramesAfter, Flatten;
    ResponsesLocal();
    var reader := new ResponseReader(chunks);
    responses := [];
    ghost var whole := Frames(ParseResponse, Flatten(chunks));
    FramesAfterNone(ParseResponse, Flatten(chunks));
    while true
      invariant !reader.decoder.poisoned && forall i :: 0 <= i < |reader.chunks| ==> reader.chunks[i] != []
      invariant fresh(reader) && fresh(reader.decoder)
      invariant FramesAfter(ParseResponse, responses, reader.Stream()) == whole
      decreases |reader.Stream()|
    {
      ghost var stream := reader.Stream();
      FramesAfterOne(ParseResponse, responses, stream);
      if ParseResponse(stream).Broken? {
        ResponseErrors(stream);
      }
      var next := reader.ReadNext();
      match next {
        case Success(Some(response)) =>
          responses := responses + [response];
        case Success(None) => return responses, Clean;
        case Failure(UnexpectedEof) => return responses, Truncated;
        case Failure(e) => return responses, Failed(e);
      }
    }
  }

  /** Bytes cause other errors than the end of the stream and reuse do. */
  lemma {:induction false} ResponseErrors(b: Bytes)
    requires ParseResponse(b).Broken?
    ensures ParseResponse(b).error != UnexpectedEof && ParseResponse(b).error != Poisoned
    decreases |b|, 0
  {
    hide ReadI64, Body, ParseItems;
    if b[0] == ARRAY_BYTE {
      var body := Body(b).value;
      if ArrayLength(body).Success? {
        ItemErrors(b[body.used..], ArrayLength(body).value);
      }
    }
  }

  lemma {:induction false} ItemErrors(b: Bytes, count: nat)
    requires ParseItems(b, count).Broken?
    ensures ParseItems(b, count).error != UnexpectedEof && ParseItems(b, count).error != Poisoned
    decreases |b|, 1
  {
    hide ParseResponse;
    match ParseResponse(b) {
      case Broken(_) => ResponseErrors(b);
      case Complete(_, used) => ItemErrors(b[used..], count - 1);
    }
  }
}
