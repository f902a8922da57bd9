/** One client connection: requests are decoded from the client's chunks and each is answered
    before the next is read. */
module Connection {
  import opened Prelude
  import opened Wire
  import opened Framing
  import Req = Request
  import opened RequestReader
  import opened Response
  import opened Command
  import opened Store
  import opened Restore
  import opened Server
  import ErrorTexts

  type Texts = ErrorTexts.Texts

  /** What a connection does not decide itself: for the `i`-th request the reading of the clock
      and the error of the disk, if an append fails; and the texts of errors. */
  datatype Setting = Setting(clock: nat -> u64, disk: nat -> Option<Utf8>, texts: Texts)

  /** The server after a request; one that stands for no command changes nothing. */
  function Served(s: State, request: Args, now: u64, disk: Option<Utf8>): State {
    match TryFrom(request, now)
    case Failure(_) => s
    case Success(c) => NextState(s, Event(Request(c, disk), now))
  }

  ghost predicate IsAnswer(r: Response, request: Args, s: State, now: u64, disk: Option<Utf8>, texts: Texts) {
    match TryFrom(request, now)
    case Failure(e) => r == Error(texts.ofCommand(e))
    case Success(c) => Answers(r, Told(c, disk, s.store, now))
  }

  /** A refused request is answered with the text of its error and changes nothing; so is a write
      that cannot be appended, with the disk's error. Any other gets the reply of its command. */
  lemma AnswerSpelled(r: Response, request: Args, s: State, now: u64, disk: Option<Utf8>, texts: Texts)
    requires IsAnswer(r, request, s, now, disk, texts)
    ensures match TryFrom(request, now)
            case Failure(e) => r == Error(texts.ofCommand(e)) && Served(s, request, now, disk) == s
            case Success(c) =>
              if disk.Some? && (c.Set? || c.MSet? || c.Del? || c.ExpireAt?)
              then r == Error(disk.value) && Served(s, request, now, disk) == s
              else Answers(r, ReplyTo(c, s.store, now))
                   && Served(s, request, now, disk).store == Effect(c, s.store, now)
  {
    hide TryFrom, ReplyTo, IsWriteOp;
    if TryFrom(request, now).Success? {
      WriteOps(TryFrom(request, now).value);
    }
  }

  /** The server after a sequence of requests. */
  function ServedAll(s: State, requests: seq<Args>, setting: Setting): State {
    if requests == [] then s
    else
      var n := |requests| - 1;
      Served(ServedAll(s, requests[..n], setting), requests[n], setting.clock(n), setting.disk(n))
  }

  /** Each request is answered in turn, by the server as the requests before it left it. */
  ghost predicate Conversation(responses: seq<Response>, requests: seq<Args>, s: State, setting: Setting) {
    && |responses| == |requests|
    && forall i :: 0 <= i < |requests| ==> AnsweredInTurn(responses, requests, s, setting, i)
  }

  ghost predicate AnsweredInTurn(
    responses: seq<Response>, requests: seq<Args>, s: State, setting: Setting, i: nat)
    requires i < |responses| && i < |requests|
  {
    IsAnswer(responses[i], requests[i], ServedAll(s, requests[..i], setting),
             setting.clock(i), setting.disk(i), setting.texts)
  }

  /** The report that closes a connection whose stream does not end between requests. */
  function Report(end: End<Req.RequestError>, texts: Texts): seq<Response> {
    match end
    case Clean => []
    case Truncated => [Error(texts.ofRequest(Req.UnexpectedEof))]
    case Failed(e) => [Error(texts.ofRequest(e))]
  }

  /** The responses of a whole connection: the answers to the requests that the client's bytes
      hold, in order, and a report at the end if the bytes do not end cleanly. */
  ghost predicate Transcript(responses: seq<Response>, bytes: Bytes, s: State, setting: Setting) {
    var (requests, end) := Req.Requests(bytes);
    && |requests| <= |responses|
    && Conversation(responses[..|requests|], requests, s, setting)
    && responses[|requests|..] == Report(end, setting.texts)
  }

  /** After the answers a connection is closed without a word if its stream ends between requests,
      and otherwise with exactly one error, which names what is wrong with the stream. */
  lemma ConnectionEnds(responses: seq<Response>, bytes: Bytes, s: State, setting: Setting)
    requires Transcript(responses, bytes, s, setting)
    ensures var (requests, end) := Req.Requests(bytes);
            match end
            case Clean => |responses| == |requests|
            case Truncated =>
              && |responses| == |requests| + 1
              && responses[|requests|] == Error(setting.texts.ofRequest(Req.UnexpectedEof))
            case Failed(e) =>
              && |responses| == |requests| + 1
              && responses[|requests|] == Error(setting.texts.ofRequest(e))
  {
    hide Req.Requests, Conversation;
    var n := |Req.Requests(bytes).0|;
    assert |responses[n..]| == |responses| - n;
    assert |responses| > n ==> responses[n..][0] == responses[n];
  }

  lemma ConversationGoesOn(
    responses: seq<Response>, requests: seq<Args>, s: State, setting: Setting, r: Response, request: Args)
    requires Conversation(responses, requests, s, setting)
    requires IsAnswer(r, request, ServedAll(s, requests, setting),
                      setting.clock(|requests|), setting.disk(|requests|), setting.texts)
    ensures Conversation(responses + [r], requests + [request], s, setting)
    ensures ServedAll(s, requests + [request], setting)
         == Served(ServedAll(s, requests, setting), request, setting.clock(|requests|), setting.disk(|requests|))
  {
    hide IsAnswer, Served;
    var all := requests + [request];
    assert all[..|requests|] == requests;
    forall i | 0 <= i < |all|
      ensures AnsweredInTurn(responses + [r], all, s, setting, i)
    {
      if i < |requests| {
        assert AnsweredInTurn(responses, requests, s, setting, i);
        assert all[..i] == requests[..i];
      }
    }
  }

  /** However a client's bytes are cut into chunks, the responses are those of the transcript. */
  method ServeConnection(server: ServerState, chunks: seq<Bytes>, setting: Setting)
    returns (responses: seq<Response>)
    requires server.Valid() && forall i :: 0 <= i < |chunks| ==> chunks[i] != []
    modifies server`wal, server`log, server.keyStore, server.keyStore.buckets
    ensures server.Valid()
    ensures server.Abstract() == ServedAll(old(server.Abstract()), Req.Requests(Flatten(chunks)).0, setting)
    ensures Transcript(responses, Flatten(chunks), old(server.Abstract()), setting)
  {
    hide Req.ParseRequest, TryFrom, Flatten, LogBytes, Loggable, Resumed, NextState, Told, Answers,
      FramesAfter, Frames, ServedAll, Conversation;
    ghost var s := server.Abstract();
    var reader := new RequestReader(chunks);
    ghost var seen: seq<Args>, whole := [], Req.Requests(Flatten(chunks));
    responses := [];
    ConversationBegins(s, setting, Flatten(chunks));
    while true
      invariant reader.Valid() && !reader.decoder.poisoned && fresh(reader) && fresh(reader.decoder)
      invariant server.Valid()
      invariant server.keyStore.buckets == old(server.keyStore.buckets) || fresh(server.keyStore.buckets)
      invariant Rest(seen, reader.Stream()) == whole
      invariant server.Abstract() == ServedAll(s, seen, setting)
      invariant |responses| == |seen| && Conversation(responses, seen, s, setting)
      decreases |reader.Stream()|
    {
      RestStep(seen, reader.Stream());
      var next := reader.ReadNext();
      match next {
        case Failure(e) =>
          responses := responses + [Error(setting.texts.ofRequest(e))];
          assert responses[..|seen|] == responses[..|responses| - 1];
          return;
        case Success(None) =>
          assert responses[..|seen|] == responses;
          return;
        case Success(Some(request)) =>
          var i := |responses|;
          var r := AnswerRequest(server, request, setting.clock(i), setting.disk(i), setting.texts);
          ConversationGoesOn(responses, seen, s, setting, r, request);
          responses := responses + [r];
          seen := seen + [request];
      }
    }
  }

  method AnswerRequest(server: ServerState, request: Args, now: u64, disk: Option<Utf8>, texts: Texts)
    returns (r: Response)
    requires server.Valid() && Req.Sendable(request)
    modifies server`wal, server`log, server.keyStore, server.keyStore.buckets
    ensures server.Valid()
    ensures server.keyStore.buckets == old(server.keyStore.buckets) || fresh(server.keyStore.buckets)
    ensures server.Abstract() == Served(old(server.Abstract()), request, now, disk)
    ensures IsAnswer(r, request, old(server.Abstract()), now, disk, texts)
  {
    hide Req.Sendable, TryFrom, LogBytes, Loggable, NextState, Told, Answers;
    var handled := server.Handle(request, now, disk);
    match handled {
      case Failure(e) => r := Error(texts.ofCommand(e));
      case Success(response) => r := response;
    }
  }

  /** The requests of a stream of which `seen` came first and `stream` is left. */
  ghost function Rest(seen: seq<Args>, stream: Bytes): (seq<Args>, End<Req.RequestError>) {
    Req.RequestLocal();
    FramesAfter(Req.ParseRequest, seen, stream)
  }

  lemma RestStep(seen: seq<Args>, stream: Bytes)
    ensures match Req.ParseRequest(stream)
            case Waiting => Rest(seen, stream) == (seen, if stream == [] then Clean else Truncated)
            case Broken(e) => Rest(seen, stream) == (seen, Failed(e))
            case Complete(request, used) =>
              Rest(seen, stream) == Rest(seen + [request], stream[used..]) && Req.Sendable(request)
  {
    hide Req.ParseRequest, FramesAfter, Req.Sendable;
    Req.RequestLocal();
    FramesAfterOne(Req.ParseRequest, seen, stream);
    if Req.ParseRequest(stream).Complete? {
      Req.ParsedIsSendable(stream);
    }
  }

  lemma ConversationBegins(s: State, setting: Setting, bytes: Bytes)
    ensures ServedAll(s, [], setting) == s && Conversation([], [], s, setting)
    ensures Rest([], bytes) == Req.Requests(bytes)
  {
    hide Req.ParseRequest;
    Req.RequestLocal();
    FramesAfterNone(Req.ParseRequest, bytes);
  }
}
