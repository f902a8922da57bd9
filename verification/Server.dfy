/** The server: a log of bytes, a hash table, and the steps that run under one lock each. The
    log always reads back as the write commands that were applied. */
module Server {
  import opened Prelude
  import opened Wire
  import opened Framing
  import Req = Request
  import opened RequestReader
  import opened Response
  import opened Command
  import opened Store
  import opened Restore
  import Apply
  import KS = KeyStore

  type Args = Req.Args

  // ---------------------------------------------------------------------------------------
  // The log as bytes
  // ---------------------------------------------------------------------------------------

  ghost predicate Loggable(log: Log) {
    forall i :: 0 <= i < |log| ==> WellFormed(log[i]) && IsWriteOp(log[i])
  }

  function PartsOf(log: Log): (r: seq<Args>)
    ensures |r| == |log|
    ensures forall i :: 0 <= i < |log| ==> r[i] == Parts(log[i])
  {
    seq(|log|, i requires 0 <= i < |log| => Parts(log[i]))
  }

  function LogBytes(log: Log): Bytes {
    Flatten(Req.Printed(PartsOf(log)))
  }

  lemma LogSnoc(base: Bytes, log: Log, c: Command)
    requires Loggable(log) && WellFormed(c) && IsWriteOp(c)
    ensures Loggable(log + [c]) && base + LogBytes(log + [c]) == base + LogBytes(log) + PrintCommand(c)
  {
    hide WellFormed, IsWriteOp, LogBytes, PrintCommand;
    LogBytesSnoc(log, c);
    Prepend(base, LogBytes(log), PrintCommand(c));
  }

  lemma LogBytesSnoc(log: Log, c: Command)
    ensures LogBytes(log + [c]) == LogBytes(log) + PrintCommand(c)
  {
    assert Req.Printed(PartsOf(log + [c])) == Req.Printed(PartsOf(log)) + [PrintCommand(c)];
    FlattenSnoc(Req.Printed(PartsOf(log)), PrintCommand(c));
  }

  datatype RestoreError = BadRequest(request: Req.RequestError) | BadCommand(command: CommandError)

  /** The commands that requests stand for; the first that stands for none is an error. */
  function CommandsOf(requests: seq<Args>, now: u64): Result<Log, CommandError> {
    if requests == [] then Success([])
    else
      match CommandsOf(requests[..|requests| - 1], now)
      case Failure(e) => Failure(e)
      case Success(log) =>
        match TryFrom(requests[|requests| - 1], now)
        case Failure(e) => Failure(e)
        case Success(c) => Success(log + [c])
  }

  /** The commands in a log file, or why it cannot be restored. */
  ghost function Restorable(bytes: Bytes, now: u64): Result<Log, RestoreError>
  {
    var (requests, end) := Req.Requests(bytes);
    match CommandsOf(requests, now)
    case Failure(e) => Failure(BadCommand(e))
    case Success(log) =>
      match end
      case Clean => Success(log)
      case Truncated => Failure(BadRequest(Req.UnexpectedEof))
      case Failed(e) => Failure(BadRequest(e))
  }

  /** The first request that stands for no command decides. */
  lemma {:induction false} CommandsOfFails(requests: seq<Args>, more: seq<Args>, now: u64)
    requires CommandsOf(requests, now).Failure?
    ensures CommandsOf(requests + more, now) == CommandsOf(requests, now)
    decreases |more|
  {
    hide TryFrom;
    if more == [] {
      assert requests + more == requests;
    } else {
      CommandsOfFails(requests, more[..|more| - 1], now);
      assert (requests + more)[..|requests + more| - 1] == requests + more[..|more| - 1];
    }
  }

  /** No request of a log stands for a read command. */
  ghost predicate NoReads(requests: seq<Args>, now: u64) {
    forall i :: 0 <= i < |requests| ==> NoRead(requests[i], now)
  }

  ghost predicate NoRead(request: Args, now: u64) {
    TryFrom(request, now).Success? ==> IsWriteOp(TryFrom(request, now).value)
  }

  lemma {:induction false} CommandsOfParts(log: Log, now: u64)
    requires forall i :: 0 <= i < |log| ==> WellFormed(log[i])
    ensures CommandsOf(PartsOf(log), now) == Success(log)
  {
    hide TryFrom, Parts;
    if log != [] {
      var front, last := log[..|log| - 1], log[|log| - 1];
      CommandsOfParts(front, now);
      assert PartsOf(log)[..|log| - 1] == PartsOf(front);
      WellFormedRoundTrip(last, now);
      assert front + [last] == log;
    }
  }

  lemma LogFrames(log: Log)
    requires forall i :: 0 <= i < |log| ==> WellFormed(log[i])
    ensures Req.Requests(LogBytes(log)) == (PartsOf(log), Clean)
  {
    hide WellFormed, Parts, Req.Requests;
    forall i | 0 <= i < |log|
      ensures Req.Sendable(PartsOf(log)[i])
    {
      PartsAreSendable(log[i]);
    }
    Req.PrintedRequestsFrame(PartsOf(log));
  }

  /** The log decodes, at any time, to exactly the commands that were appended, in order, with
      no read among them: a replay never meets one. */
  lemma LogFidelity(log: Log, now: u64)
    requires Loggable(log)
    ensures Restorable(LogBytes(log), now) == Success(log)
    ensures NoReads(Req.Requests(LogBytes(log)).0, now)
  {
    hide WellFormed, Parts, Req.Requests, TryFrom, CommandsOf, IsWriteOp, LogBytes;
    LogFrames(log);
    CommandsOfParts(log, now);
    forall i | 0 <= i < |log|
      ensures NoRead(Parts(log[i]), now)
    {
      WellFormedRoundTrip(log[i], now);
    }
  }

  /** A log file found at the start and the commands appended to it since: it reads back as the
      commands of the file, then these. */
  lemma AppendedFile(base: Bytes, log: Log, now: u64)
    requires Restorable(base, now).Success? && NoReads(Req.Requests(base).0, now) && Loggable(log)
    ensures Restorable(base + LogBytes(log), now) == Success(Restorable(base, now).value + log)
    ensures NoReads(Req.Requests(base + LogBytes(log)).0, now)
  {
    hide WellFormed, Req.ParseRequest, TryFrom, CommandsOf, IsWriteOp, LogBytes, Frames;
    var requests := Req.Requests(base).0;
    Req.RequestLocal();
    FramesAppend(Req.ParseRequest, base, LogBytes(log));
    LogFrames(log);
    CommandsOfMore(requests, log, now);
    LogFidelity(log, now);
    forall i | 0 <= i < |requests + PartsOf(log)|
      ensures NoRead((requests + PartsOf(log))[i], now)
    {
      assert i < |requests| ==> NoRead(requests[i], now);
      assert i >= |requests| ==> NoRead(PartsOf(log)[i - |requests|], now);
    }
  }

  /** Whether a file can be restored does not depend on the time: a server that started once can
      start again. */
  lemma StartsAnyTime(bytes: Bytes, now: u64, t: u64)
    requires Restorable(bytes, now).Success? && NoReads(Req.Requests(bytes).0, now)
    ensures Restorable(bytes, t).Success? && NoReads(Req.Requests(bytes).0, t)
  {
    hide TryFrom, CommandsOf, Req.Requests, IsWriteOp;
    var requests := Req.Requests(bytes).0;
    AcceptedAnyTime(requests, now, t);
    forall i | 0 <= i < |requests|
      ensures NoRead(requests[i], t)
    {
      assert NoRead(requests[i], now);
      SameKindAnyTime(requests[i], now, t);
    }
  }

  lemma {:induction false} AcceptedAnyTime(requests: seq<Args>, now: u64, t: u64)
    requires CommandsOf(requests, now).Success?
    ensures CommandsOf(requests, t).Success?
    decreases |requests|
  {
    hide TryFrom;
    if requests != [] {
      AcceptedAnyTime(requests[..|requests| - 1], now, t);
      SameKindAnyTime(requests[|requests| - 1], now, t);
    }
  }

  lemma SameKindAnyTime(request: Args, now: u64, t: u64)
    ensures TryFrom(request, now).Success? <==> TryFrom(request, t).Success?
    ensures TryFrom(request, now).Success? ==>
              (IsWriteOp(TryFrom(request, now).value) <==> IsWriteOp(TryFrom(request, t).value))
  {
    hide ValidUtf8, ParseU64, Entries;
  }

  lemma {:induction false} CommandsOfMore(requests: seq<Args>, log: Log, now: u64)
    requires CommandsOf(requests, now).Success? && forall i :: 0 <= i < |log| ==> WellFormed(log[i])
    ensures CommandsOf(requests + PartsOf(log), now) == Success(CommandsOf(requests, now).value + log)
    decreases |log|
  {
    hide TryFrom, Parts;
    if log == [] {
      assert requests + PartsOf(log) == requests;
      assert CommandsOf(requests, now).value + log == CommandsOf(requests, now).value;
    } else {
      var front, last := log[..|log| - 1], log[|log| - 1];
      var all := requests + PartsOf(log);
      CommandsOfMore(requests, front, now);
      WellFormedRoundTrip(last, now);
      assert all[..|all| - 1] == requests + PartsOf(front) && all[|all| - 1] == Parts(last);
      assert CommandsOf(requests, now).value + log == (CommandsOf(requests, now).value + front) + [last];
    }
  }

  lemma WellFormedRoundTrip(c: Command, now: u64)
    requires WellFormed(c)
    ensures TryFrom(Parts(c), now) == Success(c)
  {
    hide TryFrom, Parts;
    PartsRoundTrip(c, now);
  }

  lemma PartsAreSendable(c: Command)
    requires WellFormed(c)
    ensures Req.Sendable(Parts(c))
  {
  }

  // ---------------------------------------------------------------------------------------
  // Restoring
  // ---------------------------------------------------------------------------------------

  /** Of the log file `bytes`, the requests `seen` were read, which stand for the commands `log`;
      `stream` is left. */
  ghost predicate Restoring(bytes: Bytes, seen: seq<Args>, stream: Bytes, log: Log, now: u64) {
    && Local(Req.ParseRequest)
    && NoReads(Req.Requests(bytes).0, now)
    && FramesAfter(Req.ParseRequest, seen, stream) == Req.Requests(bytes)
    && CommandsOf(seen, now) == Success(log)
  }

  lemma RestoreBegins(bytes: Bytes, now: u64)
    requires NoReads(Req.Requests(bytes).0, now)
    ensures Restoring(bytes, [], bytes, [], now)
  {
    hide Req.ParseRequest;
    Req.RequestLocal();
    FramesAfterNone(Req.ParseRequest, bytes);
  }

  /** What the next thing read from the log file tells about it. */
  lemma RestoreStep(bytes: Bytes, seen: seq<Args>, stream: Bytes, log: Log, now: u64)
    requires Restoring(bytes, seen, stream, log, now)
    ensures match Req.ParseRequest(stream)
            case Waiting =>
              Restorable(bytes, now) ==
              (if stream == [] then Success(log) else Failure(BadRequest(Req.UnexpectedEof)))
            case Broken(e) => Restorable(bytes, now) == Failure(BadRequest(e))
            case Complete(request, used) =>
              match TryFrom(request, now)
              case Failure(e) => Restorable(bytes, now) == Failure(BadCommand(e))
              case Success(c) =>
                IsWriteOp(c) && Restoring(bytes, seen + [request], stream[used..], log + [c], now)
  {
    hide TryFrom, Req.ParseRequest, Frames, CommandsOf, IsWriteOp;
    FramesAfterOne(Req.ParseRequest, seen, stream);
    match Req.ParseRequest(stream) {
      case Complete(request, used) =>
        var rest := Frames(Req.ParseRequest, stream[used..]).0;
        assert ((seen + [request]) + rest)[|seen|] == request;
        assert NoRead(Req.Requests(bytes).0[|seen|], now);
        CommandsOfSnoc(seen, request, rest, log, now);
      case _ =>
    }
  }

  /** One more request of a log being restored. */
  lemma CommandsOfSnoc(seen: seq<Args>, request: Args, rest: seq<Args>, log: Log, now: u64)
    requires CommandsOf(seen, now) == Success(log)
    ensures match TryFrom(request, now)
            case Failure(e) => CommandsOf((seen + [request]) + rest, now) == Failure(e)
            case Success(c) => CommandsOf(seen + [request], now) == Success(log + [c])
  {
    hide TryFrom;
    assert (seen + [request])[..|seen|] == seen;
    if TryFrom(request, now).Failure? {
      CommandsOfFails(seen + [request], rest, now);
    }
  }

  /** Reads a log to its end and applies its commands to an empty table. The log must not hold
      read commands, which the table cannot be written with. */
  method RestoreKeystore(chunks: seq<Bytes>, hasher: Bytes -> u64, now: u64)
    returns (r: Result<Apply.Table, RestoreError>)
    requires forall i :: 0 <= i < |chunks| ==> chunks[i] != []
    requires NoReads(Req.Requests(Flatten(chunks)).0, now)
    ensures r.Failure? ==> Restorable(Flatten(chunks), now) == Failure(r.error)
    ensures r.Success? ==>
              && Restorable(Flatten(chunks), now).Success?
              && r.value.Valid() && fresh(r.value) && fresh(r.value.buckets)
              && r.value.Contents == Replay(Restorable(Flatten(chunks), now).value, now)
  {
    hide TryFrom, Req.ParseRequest, Restoring, Restorable, NoReads, Resumed, Effect, Flatten;
    var reader := new RequestReader(chunks);
    var table := new KS.KeyStore<Bytes, StoredValue>(hasher);
    ghost var bytes, seen, log: Log := Flatten(chunks), [], [];
    RestoreBegins(bytes, now);
    while true
      invariant reader.Valid() && !reader.decoder.poisoned && fresh(reader) && fresh(reader.decoder)
      invariant table.Valid() && fresh(table) && fresh(table.buckets)
      invariant Restoring(bytes, seen, reader.Stream(), log, now) && table.Contents == Replay(log, now)
      decreases |reader.Stream()|
    {
      RestoreStep(bytes, seen, reader.Stream(), log, now);
      var next := reader.ReadNext();
      match next {
        case Failure(e) =>
          return Failure(BadRequest(e));
        case Success(None) =>
          return Success(table);
        case Success(Some(request)) =>
          var command := TryFrom(request, now);
          match command {
            case Failure(e) => return Failure(BadCommand(e));
            case Success(c) =>
              var _ := Apply.ApplyWrite(c, table, now);
              ReplaySnoc(log, c, now);
              seen, log := seen + [request], log + [c];
          }
      }
    }
  }

  // ---------------------------------------------------------------------------------------
  // The server
  // ---------------------------------------------------------------------------------------

  class ServerState {
    var wal: Bytes
    var keyStore: Apply.Table
    /** The log file that the first start found, and the commands appended to it since. */
    ghost var base: Bytes
    ghost var log: Log

    ghost predicate Valid()
      reads this, keyStore, keyStore.buckets
    {
      keyStore.Valid() && Loggable(log) && wal == base + LogBytes(log)
    }

    ghost function Abstract(): State
      reads this, keyStore
    {
      State(log, keyStore.Contents)
    }

    /** Starts from a log file, read in chunks: from any file that does not make the program panic.
        The file is `base`, as a first start found it, and the commands `log` appended to it. */
    constructor FromWal(chunks: seq<Bytes>, hasher: Bytes -> u64, now: u64, ghost base: Bytes, ghost log: Log)
      requires forall i :: 0 <= i < |chunks| ==> chunks[i] != []
      requires Restorable(base, now).Success? && NoReads(Req.Requests(base).0, now)
      requires Loggable(log) && Flatten(chunks) == base + LogBytes(log)
      ensures Valid() && fresh(keyStore) && fresh(keyStore.buckets)
      ensures wal == Flatten(chunks) && this.base == base
      ensures Abstract() == State(log, Replay(Restorable(base, now).value + log, now))
    {
      hide Restorable, LogBytes, Loggable, NoReads;
      AppendedFile(base, log, now);
      var restored := RestoreKeystore(chunks, hasher, now);
      this.wal := Flatten(chunks);
      this.keyStore := restored.value;
      this.base := base;
      this.log := log;
    }

    /** Appends a write command to the log, then applies it. When the append fails, `diskError`
        is what the disk reports, and nothing changes. */
    method Write(c: Command, now: u64, diskError: Option<Utf8>) returns (r: Response)
      requires Valid() && WellFormed(c) && IsWriteOp(c)
      modifies this`wal, this`log, keyStore, keyStore.buckets
      ensures Valid() && (keyStore.buckets == old(keyStore.buckets) || fresh(keyStore.buckets))
      ensures Abstract() == NextState(old(Abstract()), Event(Request(c, diskError), now))
      ensures Answers(r, Told(c, diskError, old(keyStore.Contents), now))
      ensures wal == old(wal) + (if diskError.None? then PrintCommand(c) else [])
    {
      hide WellFormed, IsWriteOp, Effect, WriteReply, LogBytes, Loggable, PrintCommand;
      if diskError.Some? {
        assert wal + [] == wal;
        return Error(diskError.value);
      }
      var bytes := ToBytes(c);
      wal := wal + bytes;
      LogSnoc(base, log, c);
      log := log + [c];
      r := Apply.ApplyWrite(c, keyStore, now);
    }

    method Read(c: Command, now: u64) returns (r: Response)
      requires Valid() && !IsWriteOp(c)
      ensures Answers(r, ReadReply(c, keyStore.Contents, now))
    {
      r := Apply.ApplyRead(c, keyStore, now);
    }

    /** Removes the expired keys, found in one pass over the table, and counts them. */
    method RemoveExpired(now: u64) returns (removed: nat)
      requires Valid()
      modifies keyStore`len, keyStore`Contents, keyStore.buckets
      ensures Valid() && keyStore.buckets == old(keyStore.buckets)
      ensures Abstract() == NextState(old(Abstract()), Event(Cleanup, now))
      ensures removed == |old(keyStore.Contents)| - |keyStore.Contents|
    {
      hide LogBytes, Loggable, KeysOf, ExpiredSet, Live;
      ghost var m := keyStore.Contents;
      var expired := CollectExpired(keyStore, now);
      removed := |expired|;
      KeysOfNone(m);
      for i := 0 to |expired|
        invariant Valid() && keyStore.Contents == m - KeysOf(expired[..i])
      {
        KeysOfSnoc(expired, i, m);
        var _ := keyStore.Del(expired[i]);
      }
      assert expired[..|expired|] == expired;
      LiveIsRest(expired, m, now);
    }

    /** What the connection loop does with a decoded request. */
    method Handle(request: Args, now: u64, diskError: Option<Utf8>) returns (r: Result<Response, CommandError>)
      requires Valid() && Req.Sendable(request)
      modifies this`wal, this`log, keyStore, keyStore.buckets
      ensures Valid() && (keyStore.buckets == old(keyStore.buckets) || fresh(keyStore.buckets))
      ensures match TryFrom(request, now)
              case Failure(e) => r == Failure(e) && Abstract() == old(Abstract())
              case Success(c) =>
                && r.Success? && Answers(r.value, Told(c, diskError, old(keyStore.Contents), now))
                && Abstract() == NextState(old(Abstract()), Event(Request(c, diskError), now))
    {
      hide WellFormed, Req.Sendable, TryFrom, IsWriteOp, Effect, ReadReply, WriteReply, LogBytes, Loggable;
      var command := TryFrom(request, now);
      match command {
        case Failure(e) => return Failure(e);
        case Success(c) =>
          AcceptedIsWellFormed(request, now, c);
          var response: Response;
          if IsWriteOp(c) {
            response := Write(c, now, diskError);
          } else {
            response := Read(c, now);
          }
          return Success(response);
      }
    }
  }

  ghost function ExpiredSet(m: Store, now: u64): set<Bytes> {
    set k | k in m && IsExpired(m[k], now)
  }

  function ExpiredKeys(pairs: seq<(Bytes, StoredValue)>, now: u64): seq<Bytes> {
    if pairs == [] then []
    else
      var (k, v) := pairs[|pairs| - 1];
      ExpiredKeys(pairs[..|pairs| - 1], now) + (if IsExpired(v, now) then [k] else [])
  }

  /** One pass over the table finds each expired key once. */
  method CollectExpired(table: Apply.Table, now: u64) returns (expired: seq<Bytes>)
    requires table.Valid()
    ensures multiset(expired) == multiset(ExpiredSet(table.Contents, now))
  {
    hide KS.Pairs, ExpiredSet;
    var pairs := table.Iter();
    expired := [];
    for i := 0 to |pairs|
      invariant expired == ExpiredKeys(pairs[..i], now)
    {
      assert pairs[..i + 1][..i] == pairs[..i];
      if IsExpired(pairs[i].1, now) {
        expired := expired + [pairs[i].0];
      }
    }
    assert pairs[..|pairs|] == pairs;
    ExpiredKeysOnce(pairs, table.Contents, now);
  }

  lemma {:induction false} ExpiredKeysOnce(pairs: seq<(Bytes, StoredValue)>, m: Store, now: u64)
    requires multiset(pairs) == multiset(m.Items)
    ensures multiset(ExpiredKeys(pairs, now)) == multiset(ExpiredSet(m, now))
    decreases |pairs|
  {
    hide ExpiredSet;
    if pairs == [] {
      KS.NoPairs(pairs, m);
      NoneExpired(now);
    } else {
      var k := pairs[|pairs| - 1].0;
      KS.LastPair(pairs, m);
      ExpiredKeysOnce(pairs[..|pairs| - 1], m - {k}, now);
      ExpiredWithout(m, k, now);
    }
  }

  lemma NoneExpired(now: u64)
    ensures ExpiredSet(map[], now) == {}
  {
  }

  lemma ExpiredWithout(m: Store, k: Bytes, now: u64)
    requires k in m
    ensures k !in ExpiredSet(m - {k}, now)
    ensures ExpiredSet(m, now) == ExpiredSet(m - {k}, now) + (if IsExpired(m[k], now) then {k} else {})
  {
  }

  lemma KeysOfNone(m: Store)
    ensures m - KeysOf([]) == m
  {
  }

  lemma KeysOfSnoc(keys: seq<Bytes>, i: nat, m: Store)
    requires i < |keys|
    ensures m - KeysOf(keys[..i + 1]) == (m - KeysOf(keys[..i])) - {keys[i]}
  {
    assert KeysOf(keys[..i + 1]) == KeysOf(keys[..i]) + {keys[i]};
  }

  lemma ExpiredCount(m: Store, now: u64)
    ensures |ExpiredSet(m, now)| == |m| - |Live(m, now)|
  {
    assert m.Keys == Live(m, now).Keys + ExpiredSet(m, now);
    assert Live(m, now).Keys !! ExpiredSet(m, now);
    assert |m.Keys| == |m| && |Live(m, now).Keys| == |Live(m, now)|;
  }

  /** Without the expired keys, the live part is left. */
  lemma LiveIsRest(expired: seq<Bytes>, m: Store, now: u64)
    requires multiset(expired) == multiset(ExpiredSet(m, now))
    ensures m - KeysOf(expired) == Live(m, now) && |expired| == |m| - |Live(m, now)|
  {
    ExpiredCount(m, now);
    assert |multiset(expired)| == |expired|;
    assert forall k :: k in expired <==> k in multiset(expired);
    assert KeysOf(expired) == ExpiredSet(m, now);
  }

  // ---------------------------------------------------------------------------------------
  // Whole runs of the server
  // ---------------------------------------------------------------------------------------

  const READ_CHUNK_SIZE := 8192

  /** A file as a reader with a fixed chunk size delivers it. */
  function CutUp(b: Bytes): (chunks: seq<Bytes>)
    ensures Flatten(chunks) == b
    ensures forall i :: 0 <= i < |chunks| ==> 0 < |chunks[i]| <= READ_CHUNK_SIZE
    decreases |b|
  {
    if b == [] then []
    else if |b| <= READ_CHUNK_SIZE then
      assert b + [] == b;
      [b]
    else [b[..READ_CHUNK_SIZE]] + CutUp(b[READ_CHUNK_SIZE..])
  }

  ghost predicate AllAnswered(responses: seq<Response>, replies: seq<Reply>) {
    && |responses| == |replies|
    && forall i :: 0 <= i < |responses| ==> Answers(responses[i], replies[i])
  }

  /** A well-formed command is what every accepted request gives. */
  ghost predicate Acceptable(e: Event) {
    e.step.Request? ==> WellFormed(e.step.command)
  }

  /** The server refines its state machine: over any run of requests, cleanups and restarts, each
      restart reading the log back into a table with a hash function of its own, the responses
      are those of the finite map, and the log holds the bytes of the writes. */
  method RunServer(events: seq<Event>, hashers: nat -> (Bytes -> u64))
    returns (responses: seq<Response>, wal: Bytes)
    requires forall i :: 0 <= i < |events| ==> Acceptable(events[i])
    ensures AllAnswered(responses, Replies(events))
    ensures wal == LogBytes(Run(events).log)
  {
    hide Acceptable, LogBytes, Loggable, AllAnswered, Answers, NextState, Told, Run, Replies;
    EmptyRun();
    EmptyFile(0);
    responses := [];
    ghost var none: Log := [];
    var server := new ServerState.FromWal([], hashers(0), 0, [], none);
    for i := 0 to |events|
      invariant server.Valid() && fresh(server) && fresh(server.keyStore) && fresh(server.keyStore.buckets)
      invariant server.base == [] && server.Abstract() == Run(events[..i])
      invariant AllAnswered(responses, Replies(events[..i]))
    {
      var next, response := Advance(server, events[i], hashers(i + 1));
      server := next;
      if response.Some? {
        responses := responses + [response.value];
      }
      RunOneMore(events, i, response);
    }
    assert events[..|events|] == events;
    wal := server.wal;
  }

  method Advance(server: ServerState, e: Event, hasher: Bytes -> u64)
    returns (next: ServerState, response: Option<Response>)
    requires server.Valid() && server.base == [] && Acceptable(e)
    modifies server, server.keyStore, server.keyStore.buckets
    ensures next.Valid() && next.base == [] && next.Abstract() == NextState(old(server.Abstract()), e)
    ensures next == server || fresh(next)
    ensures next.keyStore == old(server.keyStore) || fresh(next.keyStore)
    ensures next.keyStore.buckets == old(server.keyStore.buckets) || fresh(next.keyStore.buckets)
    ensures Responds(response, e, old(server.Abstract()))
  {
    hide Acceptable, LogBytes, Loggable, NextState, Told, Answers;
    next, response := server, None;
    match e.step {
      case Request(c, disk) =>
        var r := Respond(server, c, disk, e.time);
        response := Some(r);
      case Cleanup =>
        var _ := server.RemoveExpired(e.time);
      case Restart =>
        next := RestartFrom(server, hasher, e.time);
    }
  }

  /** A new server over the log of an old one. */
  method RestartFrom(server: ServerState, hasher: Bytes -> u64, now: u64) returns (next: ServerState)
    requires server.Valid() && server.base == []
    ensures next.Valid() && next.base == [] && fresh(next) && fresh(next.keyStore) && fresh(next.keyStore.buckets)
    ensures next.Abstract() == NextState(server.Abstract(), Event(Restart, now))
  {
    hide LogBytes, Loggable;
    EmptyFile(now);
    assert [] + server.log == server.log;
    next := new ServerState.FromWal(CutUp(server.wal), hasher, now, [], server.log);
  }

  method Respond(server: ServerState, c: Command, disk: Option<Utf8>, now: u64) returns (r: Response)
    requires server.Valid() && Acceptable(Event(Request(c, disk), now))
    modifies server`wal, server`log, server.keyStore, server.keyStore.buckets
    ensures server.Valid()
    ensures server.keyStore.buckets == old(server.keyStore.buckets) || fresh(server.keyStore.buckets)
    ensures server.Abstract() == NextState(old(server.Abstract()), Event(Request(c, disk), now))
    ensures Answers(r, Told(c, disk, old(server.Abstract()).store, now))
  {
    hide WellFormed, LogBytes, Loggable, IsWriteOp, Effect, ReadReply, WriteReply;
    if IsWriteOp(c) {
      r := server.Write(c, now, disk);
    } else {
      r := server.Read(c, now);
    }
  }

  /** An empty log file restores to nothing. */
  lemma EmptyFile(now: u64)
    ensures Restorable([], now) == Success([]) && NoReads(Req.Requests([]).0, now)
  {
    hide TryFrom;
    Req.RequestLocal();
  }

  lemma EmptyRun()
    ensures Loggable([]) && LogBytes([]) == [] && Flatten([]) == []
    ensures Run([]) == State([], map[]) && AllAnswered([], Replies([]))
  {
  }

  /** A request is answered; the other steps say nothing. */
  ghost predicate Responds(response: Option<Response>, e: Event, s: State) {
    match e.step
    case Request(c, disk) => response.Some? && Answers(response.value, Told(c, disk, s.store, e.time))
    case _ => response.None?
  }

  lemma RunOneMore(events: seq<Event>, i: nat, response: Option<Response>)
    requires i < |events| && Responds(response, events[i], Run(events[..i]))
    ensures Run(events[..i + 1]) == NextState(Run(events[..i]), events[i])
    ensures forall responses :: AllAnswered(responses, Replies(events[..i])) ==>
                                  AllAnswered(if response.Some? then responses + [response.value] else responses,
                                              Replies(events[..i + 1]))
  {
    hide NextState, Told, Answers;
    assert events[..i + 1][..i] == events[..i];
  }
}
