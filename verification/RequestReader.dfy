/** The incremental request decoder: cursor, buffer and partial arguments survive between chunks.
    It is proved to agree with parsing the whole stream at once. */
module RequestReader {
  import opened Prelude
  import opened Wire
  import opened Framing
  import opened Request

  /** The state kept between chunks is what parsing the buffer from scratch gives. */
  ghost predicate Resumed(buffer: Bytes, count: nat, args: Args, cursor: nat) {
    var h := ParseHeader(buffer, ArrayHeader);
    && h.Complete? && h.value == count && |args| <= count
    && h.used <= cursor <= |buffer|
    && ParseArgs(buffer[h.used..], |args|) == Complete(args, cursor - h.used)
  }

  /** What is left to parse determines the outcome of parsing from scratch. */
  lemma ResumedOutcome(buffer: Bytes, count: nat, args: Args, cursor: nat)
    requires Resumed(buffer, count, args, cursor)
    ensures ParseRequest(buffer) == After(args, cursor, ParseArgs(buffer[cursor..], count - |args|))
  {
    hide ParseHeader, ParseCstr;
    var start := ParseHeader(buffer, ArrayHeader).used;
    ManyResume(ParseCstr, buffer[start..], |args|, count);
    assert buffer[start..][cursor - start..] == buffer[cursor..];
    AfterAfter([], start, args, cursor - start, ParseArgs(buffer[cursor..], count - |args|));
    assert [] + args == args;
  }

  lemma ResumedOneMore(buffer: Bytes, count: nat, args: Args, cursor: nat, cstr: Bytes, used: nat)
    requires Resumed(buffer, count, args, cursor) && |args| < count
    requires ParseCstr(buffer[cursor..]) == Complete(cstr, used)
    ensures Resumed(buffer, count, args + [cstr], cursor + used)
  {
    hide ParseHeader, ParseCstr, Many;
    var start := ParseHeader(buffer, ArrayHeader).used;
    assert buffer[start..][cursor - start..] == buffer[cursor..];
    ManySnoc(ParseCstr, buffer[start..], args, cursor - start, cstr, used);
  }

  lemma ResumedFirst(buffer: Bytes, count: nat, start: nat)
    requires ParseHeader(buffer, ArrayHeader) == Complete(count, start)
    ensures Resumed(buffer, count, [], start)
  {
    hide ParseHeader, ParseCstr;
    CstrBounded();
  }

  /** With all arguments there, or none to be had at the cursor, the outcome is known. */
  lemma ResumedVerdict(buffer: Bytes, count: nat, args: Args, cursor: nat)
    requires Resumed(buffer, count, args, cursor)
    ensures |args| == count ==> ParseRequest(buffer) == Complete(args, cursor)
    ensures |args| < count ==>
              match ParseCstr(buffer[cursor..])
              case Waiting => ParseRequest(buffer) == Waiting
              case Broken(e) => ParseRequest(buffer) == Broken(e)
              case Complete(_, _) => true
  {
    hide ParseHeader, ParseCstr;
    ResumedOutcome(buffer, count, args, cursor);
    assert args + [] == args;
  }

  lemma ResumedMoreBytes(buffer: Bytes, count: nat, args: Args, cursor: nat, more: Bytes)
    requires Resumed(buffer, count, args, cursor)
    ensures Resumed(buffer + more, count, args, cursor)
  {
    hide ParseHeader, ParseCstr;
    var start := ParseHeader(buffer, ArrayHeader).used;
    HeaderLocal(buffer, ArrayHeader, more);
    DropAppend(buffer, more, start);
    CstrsVerdictFinal(buffer[start..], |args|, more);
  }

  lemma CursorInside(buffer: Bytes, count: nat, args: Args, cursor: nat)
    requires Resumed(buffer, count, args, cursor)
    ensures cursor <= |buffer| && |args| <= count
  {
  }

  lemma NoBytesWait()
    ensures ParseCstr([]) == Waiting
  {
    CstrLocal();
  }

  /** Taking a payload out of the buffer or out of its rest from the cursor on. */
  lemma TakeFromRest(buffer: Bytes, cursor: nat, start: nat, length: nat)
    requires cursor <= |buffer|
    ensures TakeCstr(buffer[cursor..], start, length) ==
            var data := cursor + start;
            var end := data + length + 2;
            if end > |buffer| then Waiting
            else if buffer[data + length..end] != CRLF then Broken(MissingCrlf)
            else Complete(buffer[data..data + length], start + length + 2)
  {
    var rest, data, end := buffer[cursor..], cursor + start, cursor + start + length + 2;
    if end <= |buffer| {
      assert buffer[data + length..end] == rest[start + length..start + length + 2];
      assert buffer[data..data + length] == rest[start..start + length];
    }
  }

  class RequestDecoder {
    var cursor: nat
    var expectedArgCount: Option<nat>
    var buffer: Bytes
    var args: Args
    var poisoned: bool

    ghost predicate Valid()
      reads this
    {
      !poisoned ==>
        match expectedArgCount
        case None => cursor == 0 && args == []
        case Some(count) => Resumed(buffer, count, args, cursor)
    }

    constructor ()
      ensures Valid() && buffer == [] && !poisoned
    {
      cursor, expectedArgCount, buffer, args, poisoned := 0, None, [], [], false;
    }

    method Extend(chunk: Bytes)
      requires Valid()
      modifies this`buffer
      ensures Valid() && buffer == old(buffer) + chunk
    {
      if !poisoned && expectedArgCount.Some? {
        ResumedMoreBytes(buffer, expectedArgCount.value, args, cursor, chunk);
      }
      buffer := buffer + chunk;
    }

    method ValidateEof() returns (r: Result<(), RequestError>)
      ensures r == if poisoned then Failure(Poisoned)
                   else if buffer != [] then Failure(UnexpectedEof) else Success(())
    {
      if poisoned {
        return Failure(Poisoned);
      }
      if buffer != [] {
        return Failure(UnexpectedEof);
      }
      return Success(());
    }

    /** One request, or None when the buffer does not hold a whole one yet. */
    method DecodeNext() returns (r: Result<Option<Args>, RequestError>)
      requires Valid()
      modifies this
      ensures Valid()
      ensures old(poisoned) ==> r == Failure(Poisoned) && poisoned && buffer == old(buffer)
      ensures !old(poisoned) ==> r == Answer(ParseRequest(old(buffer))) && poisoned == r.Failure?
      ensures !old(poisoned) ==>
                buffer == match ParseRequest(old(buffer))
                          case Complete(_, used) => old(buffer)[used..]
                          case _ => old(buffer)
    {
      hide ParseHeader, ParseCstr, ParseRequest;
      if poisoned {
        return Failure(Poisoned);
      }
      r := DecodeBuffered();
      if r.Failure? {
        poisoned := true;
      }
    }

    method DecodeBuffered() returns (r: Result<Option<Args>, RequestError>)
      requires Valid() && !poisoned
      modifies this`cursor, this`expectedArgCount, this`buffer, this`args
      ensures r == Answer(ParseRequest(old(buffer)))
      ensures r.Success? ==> Valid()
      ensures buffer == match ParseRequest(old(buffer))
                        case Complete(_, used) => old(buffer)[used..]
                        case _ => old(buffer)
    {
      hide ParseHeader, ParseCstr, Resumed;
      if expectedArgCount.None? {
        match ParseHeader(buffer, ArrayHeader) {
          case Waiting => return Success(None);
          case Broken(e) => return Failure(e);
          case Complete(count, used) =>
            ResumedFirst(buffer, count, used);
            expectedArgCount := Some(count);
            cursor := used;
        }
      }
      var count := expectedArgCount.value;
      CursorInside(buffer, count, args, cursor);
      while |args| < count
        invariant buffer == old(buffer) && expectedArgCount == Some(count)
        invariant |args| <= count && Resumed(buffer, count, args, cursor)
        decreases count - |args|
      {
        ResumedVerdict(buffer, count, args, cursor);
        var cstr := ParseCstrHere();
        match cstr {
          case Failure(e) => return Failure(e);
          case Success(None) => return Success(None);
          case Success(Some(arg)) => args := args + [arg];
        }
      }
      ResumedVerdict(buffer, count, args, cursor);
      CursorInside(buffer, count, args, cursor);
      var request := TakeRequest();
      return Success(Some(request));
    }

    /** The bulk string at the cursor. */
    method ParseCstrHere() returns (r: Result<Option<Bytes>, RequestError>)
      requires expectedArgCount.Some? && |args| < expectedArgCount.value
      requires Resumed(buffer, expectedArgCount.value, args, cursor)
      modifies this`cursor
      ensures old(cursor) <= |buffer| && r == Answer(ParseCstr(buffer[old(cursor)..]))
      ensures r.Success? && r.value.Some? ==>
                Resumed(buffer, expectedArgCount.value, args + [r.value.value], cursor)
      ensures r == Success(None) ==> cursor == old(cursor)
    {
      hide ParseHeader, TakeCstr, Resumed;
      CursorInside(buffer, expectedArgCount.value, args, cursor);
      if cursor >= |buffer| {
        NoBytesWait();
        assert buffer[cursor..] == [];
        return Success(None);
      }
      match ParseHeader(buffer[cursor..], CStringHeader) {
        case Waiting => return Success(None);
        case Broken(e) => return Failure(e);
        case Complete(length, used) =>
          TakeFromRest(buffer, cursor, used, length);
          var dataStart := cursor + used;
          var end := dataStart + length + 2;
          if end > |buffer| {
            return Success(None);
          }
          if buffer[dataStart + length..end] != CRLF {
            return Failure(MissingCrlf);
          }
          var cstr := buffer[dataStart..dataStart + length];
          ResumedOneMore(buffer, expectedArgCount.value, args, cursor, cstr, used + length + 2);
          cursor := end;
          return Success(Some(cstr));
      }
    }

    method TakeRequest() returns (request: Args)
      requires cursor <= |buffer|
      modifies this`cursor, this`expectedArgCount, this`buffer, this`args
      ensures request == old(args) && buffer == old(buffer)[old(cursor)..]
      ensures cursor == 0 && expectedArgCount == None && args == []
    {
      buffer := buffer[cursor..];
      cursor := 0;
      expectedArgCount := None;
      request := args;
      args := [];
    }
  }

  /** Reads requests from a source that delivers its bytes in chunks. */
  class RequestReader {
    var chunks: seq<Bytes>
    const decoder: RequestDecoder

    ghost predicate Valid()
      reads this, decoder
    {
      decoder.Valid() && forall i :: 0 <= i < |chunks| ==> chunks[i] != []
    }

    /** The bytes that are still to be decoded. */
    ghost function Stream(): Bytes
      reads this, decoder
    {
      decoder.buffer + Flatten(chunks)
    }

    constructor (chunks: seq<Bytes>)
      requires forall i :: 0 <= i < |chunks| ==> chunks[i] != []
      ensures Valid() && fresh(decoder) && !decoder.poisoned && Stream() == Flatten(chunks)
    {
      this.chunks := chunks;
      decoder := new RequestDecoder();
    }

    /** The next chunk; none when the source is exhausted. */
    method Read() returns (chunk: Bytes)
      modifies this`chunks
      ensures if old(chunks) == [] then chunk == [] && chunks == []
              else chunk == old(chunks)[0] && chunks == old(chunks)[1..]
    {
      if chunks == [] {
        return [];
      }
      chunk := chunks[0];
      chunks := chunks[1..];
    }

    /** The next request of the stream, None at its end. Neither depends on how it was cut. */
    method ReadNext() returns (r: Result<Option<Args>, RequestError>)
      requires Valid() && !decoder.poisoned
      modifies this`chunks, decoder
      ensures Valid()
      ensures match ParseRequest(old(Stream()))
              case Complete(request, used) =>
                r == Success(Some(request)) && Stream() == old(Stream())[used..] && !decoder.poisoned
              case Broken(e) => r == Failure(e) && decoder.poisoned
              case Waiting =>
                r == (if old(Stream()) == [] then Success(None) else Failure(UnexpectedEof))
                && Stream() == old(Stream()) && !decoder.poisoned
    {
      hide ParseRequest;
      ghost var stream := Stream();
      while true
        invariant Valid() && !decoder.poisoned && Stream() == stream
        decreases |chunks|
      {
        ghost var rest := Flatten(chunks);
        if ParseRequest(decoder.buffer) != Waiting {
          RequestVerdictFinal(decoder.buffer, rest);
        }
        ghost var buffer := decoder.buffer;
        r := decoder.DecodeNext();
        if r.Failure? {
          return r;
        }
        if r.value.Some? {
          DropAppend(buffer, rest, ParseRequest(buffer).used);
          return r;
        }
        var chunk := Read();
        if chunk == [] {
          assert buffer + [] == buffer;
          var eof := decoder.ValidateEof();
          match eof {
            case Failure(e) => return Failure(e);
            case Success(_) => return Success(None);
          }
        }
        assert buffer + (chunk + Flatten(chunks)) == (buffer + chunk) + Flatten(chunks);
        decoder.Extend(chunk);
      }
    }
  }

  /** Reading a stream to its end: however it is cut into chunks, the requests and the way it
      ends are those of parsing all of its bytes at once. */
  method ReadAll(chunks: seq<Bytes>) returns (requests: seq<Args>, end: End<RequestError>)
    requires forall i :: 0 <= i < |chunks| ==> chunks[i] != []
    ensures (requests, end) == Requests(Flatten(chunks))
  {
    hide ParseRequest, Frames, FramesAfter, Flatten, Resumed;
    RequestLocal();
    var reader := new RequestReader(chunks);
    requests := [];
    ghost var whole := Frames(ParseRequest, Flatten(chunks));
    FramesAfterNone(ParseRequest, Flatten(chunks));
    while true
      invariant reader.Valid() && !reader.decoder.poisoned
      invariant fresh(reader) && fresh(reader.decoder)
      invariant FramesAfter(ParseRequest, requests, reader.Stream()) == whole
      decreases |reader.Stream()|
    {
      ghost var stream := reader.Stream();
      FramesAfterOne(ParseRequest, requests, stream);
      if ParseRequest(stream).Broken? {
        RequestErrors(stream);
      }
      var next := reader.ReadNext();
      match next {
        case Success(Some(request)) =>
          requests := requests + [request];
        case Success(None) => return requests, Clean;
        case Failure(UnexpectedEof) => return requests, Truncated;
        case Failure(e) => return requests, Failed(e);
      }
    }
  }
}
