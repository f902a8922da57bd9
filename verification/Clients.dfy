/** Several clients at once: each connection is a task of its own, and the tasks take turns, in any
    order, with each other and with the periodic cleanup. Every turn holds the lock. */
module Clients {
  import opened Prelude
  import opened Wire
  import opened Framing
  import Req = Request
  import opened RequestReader
  import opened Response
  import opened Command
  import opened Store
  import opened Restore
  import opened Server
  import opened Connection

  /** A turn: a client's task reads and answers one request, or the cleanup runs. */
  datatype Turn = Serve(client: nat, time: u64, disk: Option<Utf8>) | Sweep(time: u64)

  /** How many of the turns are those of client `c`. */
  function TurnsOf(turns: seq<Turn>, c: nat): (n: nat)
    ensures n <= |turns|
  {
    if turns == [] then 0
    else
      var last := turns[|turns| - 1];
      TurnsOf(turns[..|turns| - 1], c) + (if last.Serve? && last.client == c then 1 else 0)
  }

  /** The server after some turns, when client `c` asks the requests `asked[c]`, one in a turn. */
  function StateAfter(s: State, asked: seq<seq<Args>>, turns: seq<Turn>): State {
    if turns == [] then s
    else
      var front := turns[..|turns| - 1];
      TurnTaken(StateAfter(s, asked, front), asked, front, turns[|turns| - 1])
  }

  /** The server after one more turn. */
  function TurnTaken(s: State, asked: seq<seq<Args>>, before: seq<Turn>, turn: Turn): State {
    match turn
    case Sweep(time) => NextState(s, Event(Cleanup, time))
    case Serve(c, time, disk) =>
      if c < |asked| && TurnsOf(before, c) < |asked[c]| then Served(s, asked[c][TurnsOf(before, c)], time, disk) else s
  }

  /** In turn `k` a client asks its next request. */
  predicate Asks(turns: seq<Turn>, k: nat, c: nat, requests: seq<Args>) {
    && k < |turns| && turns[k].Serve? && turns[k].client == c
    && TurnsOf(turns[..k], c) < |requests|
  }

  /** What client `c` has been sent: in each of its turns the answer to its next request, by the
      server as all turns before left it; after the last request, the report on the stream. */
  ghost predicate Heard(
    sent: seq<Response>, c: nat, asked: seq<seq<Args>>, end: End<Req.RequestError>, s: State, turns: seq<Turn>,
    texts: Texts)
    requires c < |asked|
  {
    && HeardAll(sent, TurnsOf(turns, c), |asked[c]|, Report(end, texts))
    && forall k: nat :: Asks(turns, k, c, asked[c]) ==> HeardInTurn(sent, c, asked, s, turns, k, texts)
  }

  predicate HeardAll(sent: seq<Response>, n: nat, total: nat, report: seq<Response>) {
    if n <= total then |sent| == n else |sent| >= total && sent[total..] == report
  }

  ghost predicate HeardInTurn(
    sent: seq<Response>, c: nat, asked: seq<seq<Args>>, s: State, turns: seq<Turn>, k: nat, texts: Texts)
    requires c < |asked| && Asks(turns, k, c, asked[c])
  {
    var i := TurnsOf(turns[..k], c);
    && i < |sent|
    && IsAnswer(sent[i], asked[c][i], StateAfter(s, asked, turns[..k]), turns[k].time, turns[k].disk, texts)
  }

  /** A client that has had a turn after its last request has been told how its stream ended. */
  lemma SessionEnds(
    sent: seq<Response>, c: nat, asked: seq<seq<Args>>, end: End<Req.RequestError>, s: State, turns: seq<Turn>,
    texts: Texts)
    requires c < |asked| && Heard(sent, c, asked, end, s, turns, texts) && |asked[c]| < TurnsOf(turns, c)
    ensures var n := |asked[c]|;
            match end
            case Clean => |sent| == n
            case Truncated => |sent| == n + 1 && sent[n] == Error(texts.ofRequest(Req.UnexpectedEof))
            case Failed(e) => |sent| == n + 1 && sent[n] == Error(texts.ofRequest(e))
  {
    hide TurnsOf, HeardInTurn;
    var n := |asked[c]|;
    assert |sent[n..]| == |sent| - n;
    assert |sent| > n ==> sent[n..][0] == sent[n];
  }

  // ---------------------------------------------------------------------------------------
  // One connection
  // ---------------------------------------------------------------------------------------

  class Session {
    const reader: RequestReader
    var open: bool
    var sent: seq<Response>

    ghost predicate Valid()
      reads this, reader, reader.decoder
    {
      reader.Valid() && (open ==> !reader.decoder.poisoned)
    }

    /** After `n` turns of a client that sends `bytes`. */
    ghost predicate Follows(bytes: Bytes, n: nat, texts: Texts)
      reads this, reader, reader.decoder
    {
      var (asked, end) := Req.Requests(bytes);
      && HeardAll(sent, n, |asked|, Report(end, texts))
      && (open <==> n <= |asked|)
      && (open ==> Rest(asked[..n], reader.Stream()) == (asked, end))
    }

    constructor (chunks: seq<Bytes>, ghost texts: Texts)
      requires forall i :: 0 <= i < |chunks| ==> chunks[i] != []
      ensures Valid() && Follows(Flatten(chunks), 0, texts) && sent == []
      ensures fresh(reader) && fresh(reader.decoder)
    {
      reader := new RequestReader(chunks);
      open := true;
      sent := [];
      new;
      RestAtFirst(Flatten(chunks));
    }

    /** The next request, or the end of the connection, with a report if there is one to make. */
    method Next(texts: Texts, ghost bytes: Bytes, ghost n: nat) returns (request: Option<Args>)
      requires Valid() && Follows(bytes, n, texts)
      modifies this`open, this`sent, reader`chunks, reader.decoder
      ensures Valid()
      ensures var requests := Req.Requests(bytes).0;
              if n < |requests|
              then request == Some(requests[n]) && Req.Sendable(requests[n]) && open && sent == old(sent)
                   && Rest(requests[..n + 1], reader.Stream()) == Req.Requests(bytes)
              else request.None? && Follows(bytes, n + 1, texts)
                   && |requests| <= |sent| && |requests| <= |old(sent)|
                   && sent[..|requests|] == old(sent)[..|requests|]
    {
      hide Req.ParseRequest, Req.Requests, Resumed, Rest, Flatten, Req.Sendable;
      if !open {
        return None;
      }
      ghost var stream := reader.Stream();
      RestStep(Req.Requests(bytes).0[..n], stream);
      RestEnds(bytes, n, stream);
      var next := reader.ReadNext();
      match next {
        case Failure(e) =>
          sent := sent + [Error(texts.ofRequest(e))];
          open := false;
          return None;
        case Success(None) =>
          open := false;
          return None;
        case Success(Some(r)) =>
          return Some(r);
      }
    }

    /** One round of the connection's loop. */
    method Step(server: ServerState, time: u64, disk: Option<Utf8>, texts: Texts, ghost bytes: Bytes, ghost n: nat)
      requires Valid() && Follows(bytes, n, texts) && server.Valid()
      modifies this`open, this`sent, reader`chunks, reader.decoder
      modifies server`wal, server`log, server.keyStore, server.keyStore.buckets
      ensures Valid() && Follows(bytes, n + 1, texts) && server.Valid()
      ensures server.keyStore.buckets == old(server.keyStore.buckets) || fresh(server.keyStore.buckets)
      ensures var requests := Req.Requests(bytes).0;
              if n < |requests|
              then |sent| == n + 1 && sent[..n] == old(sent)
                   && server.Abstract() == Served(old(server.Abstract()), requests[n], time, disk)
                   && IsAnswer(sent[n], requests[n], old(server.Abstract()), time, disk, texts)
              else server.Abstract() == old(server.Abstract())
                   && |requests| <= |sent| && |requests| <= |old(sent)|
                   && sent[..|requests|] == old(sent)[..|requests|]
    {
      hide Req.ParseRequest, Req.Requests, Req.Sendable, TryFrom, LogBytes, Loggable, Served, IsAnswer, Rest, Report,
        Resumed, Flatten, NextState, Told;
      var request := Next(texts, bytes, n);
      if request.Some? {
        var r := AnswerRequest(server, request.value, time, disk, texts);
        sent := sent + [r];
      }
    }
  }

  lemma RestAtFirst(bytes: Bytes)
    ensures var requests := Req.Requests(bytes).0; Rest(requests[..0], bytes) == Req.Requests(bytes)
  {
    hide Req.ParseRequest;
    Req.RequestLocal();
    FramesAfterNone(Req.ParseRequest, bytes);
  }

  /** Of a client's stream `n` requests were read and `stream` is left: what comes next. */
  lemma RestEnds(bytes: Bytes, n: nat, stream: Bytes)
    requires n <= |Req.Requests(bytes).0| && Rest(Req.Requests(bytes).0[..n], stream) == Req.Requests(bytes)
    ensures var (requests, end) := Req.Requests(bytes);
            match Req.ParseRequest(stream)
            case Waiting => n == |requests| && end == (if stream == [] then Clean else Truncated)
            case Broken(e) => n == |requests| && end == Failed(e)
            case Complete(request, used) =>
              n < |requests| && request == requests[n] && Rest(requests[..n + 1], stream[used..]) == (requests, end)
  {
    hide Req.ParseRequest, Req.Requests, Frames;
    var requests := Req.Requests(bytes).0;
    RestStep(requests[..n], stream);
    match Req.ParseRequest(stream) {
      case Complete(request, used) =>
        RestContains(requests[..n] + [request], stream[used..]);
        assert requests[..n + 1] == requests[..n] + [request];
      case _ =>
    }
  }

  lemma RestContains(seen: seq<Args>, stream: Bytes)
    ensures |seen| <= |Rest(seen, stream).0| && Rest(seen, stream).0[..|seen|] == seen
  {
    hide Req.ParseRequest, Frames;
    Req.RequestLocal();
  }

  // ---------------------------------------------------------------------------------------
  // All clients
  // ---------------------------------------------------------------------------------------

  ghost function Asked(streams: seq<Bytes>): (asked: seq<seq<Args>>)
    ensures |asked| == |streams| && forall c :: 0 <= c < |streams| ==> asked[c] == Req.Requests(streams[c]).0
  {
    seq(|streams|, c requires 0 <= c < |streams| => Req.Requests(streams[c]).0)
  }

  function Streams(chunks: seq<seq<Bytes>>): (streams: seq<Bytes>)
    ensures |streams| == |chunks| && forall c :: 0 <= c < |chunks| ==> streams[c] == Flatten(chunks[c])
  {
    seq(|chunks|, c requires 0 <= c < |chunks| => Flatten(chunks[c]))
  }

  /** No two sessions share anything. */
  ghost predicate Separate(sessions: seq<Session>) {
    forall c, d :: 0 <= c < d < |sessions| ==> Apart(sessions[c], sessions[d])
  }

  ghost predicate Apart(x: Session, y: Session) {
    x != y && x.reader != y.reader && x.reader.decoder != y.reader.decoder
  }

  method OpenAll(chunks: seq<seq<Bytes>>, ghost texts: Texts) returns (sessions: seq<Session>)
    requires forall c, i :: 0 <= c < |chunks| && 0 <= i < |chunks[c]| ==> chunks[c][i] != []
    ensures |sessions| == |chunks| && Separate(sessions)
    ensures forall c :: 0 <= c < |chunks| ==>
                          && fresh(sessions[c]) && fresh(sessions[c].reader) && fresh(sessions[c].reader.decoder)
                          && sessions[c].Valid() && sessions[c].sent == []
                          && sessions[c].Follows(Flatten(chunks[c]), 0, texts)
  {
    hide Req.Requests, Flatten, Rest, HeardAll, Report, Resumed;
    sessions := [];
    for i := 0 to |chunks|
      invariant |sessions| == i && Separate(sessions)
      invariant forall c :: 0 <= c < i ==>
                              && fresh(sessions[c]) && fresh(sessions[c].reader) && fresh(sessions[c].reader.decoder)
                              && sessions[c].Valid() && sessions[c].sent == []
                              && sessions[c].Follows(Flatten(chunks[c]), 0, texts)
    {
      var session := new Session(chunks[i], texts);
      sessions := sessions + [session];
    }
  }

  lemma TurnsSnoc(turns: seq<Turn>, k: nat, c: nat)
    requires k < |turns|
    ensures TurnsOf(turns[..k + 1], c) ==
            TurnsOf(turns[..k], c) + (if turns[k].Serve? && turns[k].client == c then 1 else 0)
  {
    assert turns[..k + 1][..k] == turns[..k];
  }

  lemma StateSnoc(s: State, asked: seq<seq<Args>>, turns: seq<Turn>, k: nat)
    requires k < |turns|
    ensures StateAfter(s, asked, turns[..k + 1])
         == TurnTaken(StateAfter(s, asked, turns[..k]), asked, turns[..k], turns[k])
  {
    hide TurnTaken;
    assert turns[..k + 1][..k] == turns[..k];
  }

  /** A turn of the cleanup or of another client changes nothing of what a client has been sent. */
  lemma HeardByOther(
    sent: seq<Response>, c: nat, asked: seq<seq<Args>>, end: End<Req.RequestError>, s: State, turns: seq<Turn>, k: nat,
    texts: Texts)
    requires c < |asked| && k < |turns| && !(turns[k].Serve? && turns[k].client == c)
    requires Heard(sent, c, asked, end, s, turns[..k], texts)
    ensures Heard(sent, c, asked, end, s, turns[..k + 1], texts)
  {
    hide IsAnswer, StateAfter, TurnsOf, HeardAll, Report;
    var so := turns[..k + 1];
    TurnsSnoc(turns, k, c);
    forall j: nat | Asks(so, j, c, asked[c])
      ensures HeardInTurn(sent, c, asked, s, so, j, texts)
    {
      assert so[..j] == turns[..k][..j];
      assert Asks(turns[..k], j, c, asked[c]);
      assert HeardInTurn(sent, c, asked, s, turns[..k], j, texts);
    }
  }

  /** In its own turn a client is sent one more response. */
  lemma HeardOwn(
    sent: seq<Response>, sent': seq<Response>, c: nat, asked: seq<seq<Args>>, end: End<Req.RequestError>, s: State,
    turns: seq<Turn>, k: nat, texts: Texts)
    requires c < |asked| && k < |turns| && turns[k].Serve? && turns[k].client == c
    requires Heard(sent, c, asked, end, s, turns[..k], texts)
    requires HeardAll(sent', TurnsOf(turns[..k], c) + 1, |asked[c]|, Report(end, texts))
    requires var n := TurnsOf(turns[..k], c);
             if n < |asked[c]|
             then |sent'| == n + 1 && sent'[..n] == sent
                  && IsAnswer(sent'[n], asked[c][n], StateAfter(s, asked, turns[..k]),
                              turns[k].time, turns[k].disk, texts)
             else |asked[c]| <= |sent| && |asked[c]| <= |sent'| && sent'[..|asked[c]|] == sent[..|asked[c]|]
    ensures Heard(sent', c, asked, end, s, turns[..k + 1], texts)
  {
    hide IsAnswer, StateAfter, TurnsOf, Report;
    TurnsSnoc(turns, k, c);
    var n := TurnsOf(turns[..k], c);
    var so := turns[..k + 1];
    forall j: nat | Asks(so, j, c, asked[c])
      ensures HeardInTurn(sent', c, asked, s, so, j, texts)
    {
      assert so[..j] == turns[..k][..j];
      assert turns[..k][..k] == turns[..k];
      if j < k {
        assert Asks(turns[..k], j, c, asked[c]);
        assert HeardInTurn(sent, c, asked, s, turns[..k], j, texts);
        var i := TurnsOf(turns[..j], c);
        assert turns[..k][..j] == turns[..j];
        assert sent'[i] == sent[i] by {
          if n < |asked[c]| {
            assert sent'[..n][i] == sent'[i];
          } else {
            assert sent'[..|asked[c]|][i] == sent'[i];
            assert sent[..|asked[c]|][i] == sent[i];
          }
        }
      }
    }
  }

  /** What is known of the session of client `c` after some turns. */
  ghost predicate InTurn(session: Session, c: nat, streams: seq<Bytes>, s: State, turns: seq<Turn>, texts: Texts)
    requires c < |streams|
    reads session, session.reader, session.reader.decoder
  {
    && session.Valid() && session.Follows(streams[c], TurnsOf(turns, c), texts)
    && Heard(session.sent, c, Asked(streams), Req.Requests(streams[c]).1, s, turns, texts)
  }

  lemma NoTurnsYet(sessions: seq<Session>, streams: seq<Bytes>, s: State, texts: Texts)
    requires |sessions| == |streams|
    requires forall c :: 0 <= c < |sessions| ==>
                           sessions[c].Valid() && sessions[c].sent == [] && sessions[c].Follows(streams[c], 0, texts)
    ensures StateAfter(s, Asked(streams), []) == s
    ensures forall c :: 0 <= c < |sessions| ==> InTurn(sessions[c], c, streams, s, [], texts)
  {
    hide Req.Requests, Rest, Resumed;
  }

  ghost function Readers(sessions: seq<Session>): set<RequestReader> {
    set c | 0 <= c < |sessions| :: sessions[c].reader
  }

  ghost function Decoders(sessions: seq<Session>): set<RequestDecoder> {
    set c | 0 <= c < |sessions| :: sessions[c].reader.decoder
  }

  method TakeTurn(
    server: ServerState, sessions: seq<Session>, turns: seq<Turn>, k: nat, texts: Texts,
    ghost streams: seq<Bytes>, ghost s: State)
    requires server.Valid() && |sessions| == |streams| && Separate(sessions)
    requires k < |turns| && (turns[k].Serve? ==> turns[k].client < |sessions|)
    requires server.Abstract() == StateAfter(s, Asked(streams), turns[..k])
    requires forall c :: 0 <= c < |sessions| ==> InTurn(sessions[c], c, streams, s, turns[..k], texts)
    modifies server`wal, server`log, server.keyStore, server.keyStore.buckets
    modifies sessions, Readers(sessions), Decoders(sessions)
    ensures server.Valid()
    ensures server.keyStore.buckets == old(server.keyStore.buckets) || fresh(server.keyStore.buckets)
    ensures server.Abstract() == StateAfter(s, Asked(streams), turns[..k + 1])
    ensures forall c :: 0 <= c < |sessions| ==> InTurn(sessions[c], c, streams, s, turns[..k + 1], texts)
  {
    hide Req.Requests, Heard, StateAfter, TurnsOf, LogBytes, Loggable, Rest, HeardAll, Resumed, Served, IsAnswer;
    StateSnoc(s, Asked(streams), turns, k);
    match turns[k] {
      case Sweep(time) =>
        var _ := server.RemoveExpired(time);
      case Serve(c, time, disk) =>
        ghost var sentBefore := sessions[c].sent;
        sessions[c].Step(server, time, disk, texts, streams[c], TurnsOf(turns[..k], c));
        HeardOwn(sentBefore, sessions[c].sent, c, Asked(streams), Req.Requests(streams[c]).1, s, turns, k, texts);
        TurnsSnoc(turns, k, c);
    }
    forall d | 0 <= d < |sessions|
      ensures InTurn(sessions[d], d, streams, s, turns[..k + 1], texts)
    {
      if !(turns[k].Serve? && turns[k].client == d) {
        if turns[k].Serve? {
          var c := turns[k].client;
          assert if c < d then Apart(sessions[c], sessions[d]) else Apart(sessions[d], sessions[c]);
        }
        assert old(InTurn(sessions[d], d, streams, s, turns[..k], texts));
        assert InTurn(sessions[d], d, streams, s, turns[..k], texts);
        HeardByOther(sessions[d].sent, d, Asked(streams), Req.Requests(streams[d]).1, s, turns, k, texts);
        TurnsSnoc(turns, k, d);
      }
    }
  }

  method AllSent(sessions: seq<Session>) returns (sent: seq<seq<Response>>)
    ensures |sent| == |sessions| && forall c :: 0 <= c < |sessions| ==> sent[c] == sessions[c].sent
  {
    sent := [];
    for c := 0 to |sessions|
      invariant |sent| == c && forall d :: 0 <= d < c ==> sent[d] == sessions[d].sent
    {
      sent := sent + [sessions[c].sent];
    }
  }

  /** However the clients' bytes are cut and whatever the order of the turns: every client is sent
      the answers to its own requests, in order, each by the server as all turns before left it,
      and at the end the report on its stream. */
  method ServeClients(server: ServerState, chunks: seq<seq<Bytes>>, turns: seq<Turn>, texts: Texts)
    returns (sent: seq<seq<Response>>)
    requires server.Valid()
    requires forall c, i :: 0 <= c < |chunks| && 0 <= i < |chunks[c]| ==> chunks[c][i] != []
    requires forall k :: 0 <= k < |turns| && turns[k].Serve? ==> turns[k].client < |chunks|
    modifies server`wal, server`log, server.keyStore, server.keyStore.buckets
    ensures server.Valid()
    ensures server.Abstract() == StateAfter(old(server.Abstract()), Asked(Streams(chunks)), turns)
    ensures |sent| == |chunks|
    ensures forall c :: 0 <= c < |chunks| ==>
                          Heard(sent[c], c, Asked(Streams(chunks)), Req.Requests(Streams(chunks)[c]).1,
                                old(server.Abstract()), turns, texts)
  {
    hide Req.Requests, Heard, StateAfter, TurnsOf, TurnTaken, LogBytes, Loggable, Rest, HeardAll, Resumed;
    ghost var streams, s := Streams(chunks), server.Abstract();
    var sessions := OpenAll(chunks, texts);
    NoTurnsYet(sessions, streams, s, texts);
    for k := 0 to |turns|
      invariant server.Valid() && server.Abstract() == StateAfter(s, Asked(streams), turns[..k])
      invariant server.keyStore.buckets == old(server.keyStore.buckets) || fresh(server.keyStore.buckets)
      invariant Separate(sessions)
      invariant forall c :: 0 <= c < |sessions| ==>
                              fresh(sessions[c]) && fresh(sessions[c].reader) && fresh(sessions[c].reader.decoder)
      invariant forall c :: 0 <= c < |sessions| ==> InTurn(sessions[c], c, streams, s, turns[..k], texts)
    {
      TakeTurn(server, sessions, turns, k, texts, streams, s);
    }
    assert turns[..|turns|] == turns;
    sent := AllSent(sessions);
  }

  // ---------------------------------------------------------------------------------------
  // Turns as a run
  // ---------------------------------------------------------------------------------------

  /** The step of the server's state machine that a turn makes, if it makes one. */
  function EventsIn(asked: seq<seq<Args>>, before: seq<Turn>, turn: Turn): seq<Event> {
    match turn
    case Sweep(time) => [Event(Cleanup, time)]
    case Serve(c, time, disk) =>
      if c < |asked| && TurnsOf(before, c) < |asked[c]| then
        match TryFrom(asked[c][TurnsOf(before, c)], time)
        case Failure(_) => []
        case Success(command) => [Event(Request(command, disk), time)]
      else []
  }

  function EventsOf(asked: seq<seq<Args>>, turns: seq<Turn>): seq<Event> {
    if turns == [] then []
    else
      var front := turns[..|turns| - 1];
      EventsOf(asked, front) + EventsIn(asked, front, turns[|turns| - 1])
  }

  /** The clock never goes back from turn to turn, and reads at most `now` at the end. */
  ghost predicate TurnsTimed(turns: seq<Turn>, now: u64) {
    && (forall i, j :: 0 <= i < j < |turns| ==> turns[i].time <= turns[j].time)
    && (forall i :: 0 <= i < |turns| ==> turns[i].time <= now)
  }

  /** Whatever the order of the turns, they are a run of the server's state machine: all that is
      proved of runs, of restarts and of cleanups, holds for several clients at once. */
  lemma {:induction false} TurnsAreRun(streams: seq<Bytes>, turns: seq<Turn>, now: u64)
    requires TurnsTimed(turns, now)
    ensures StateAfter(INITIAL, Asked(streams), turns) == Run(EventsOf(Asked(streams), turns))
    ensures Timed(EventsOf(Asked(streams), turns), now)
    ensures forall i :: 0 <= i < |EventsOf(Asked(streams), turns)| ==> Acceptable(EventsOf(Asked(streams), turns)[i])
    decreases |turns|
  {
    hide Asked, EventsIn, TurnTaken, NextState, Run, Timed, TurnsTimed, TurnsOf, Acceptable;
    if turns == [] {
      NothingRuns(now);
    } else {
      var asked, front, last := Asked(streams), turns[..|turns| - 1], turns[|turns| - 1];
      TurnsTimedFront(turns, now);
      TurnsAreRun(streams, front, last.time);
      var events, more := EventsOf(asked, front), EventsIn(asked, front, last);
      TurnIsStep(StateAfter(INITIAL, asked, front), streams, front, last);
      if more == [] {
        assert events + more == events;
        TimedLater(events, last.time, now);
      } else {
        assert more == [more[0]];
        RunSnoc(events, more[0]);
        TimedSnoc(events, more[0], now);
      }
    }
  }

  lemma NothingRuns(now: u64)
    ensures Run([]) == INITIAL && Timed([], now)
  {
  }

  lemma TurnsTimedFront(turns: seq<Turn>, now: u64)
    requires turns != [] && TurnsTimed(turns, now)
    ensures TurnsTimed(turns[..|turns| - 1], turns[|turns| - 1].time) && turns[|turns| - 1].time <= now
  {
  }

  lemma TimedLater(events: seq<Event>, now: u64, t: u64)
    requires Timed(events, now) && now <= t
    ensures Timed(events, t)
  {
  }

  lemma TimedSnoc(events: seq<Event>, e: Event, now: u64)
    requires Timed(events, e.time) && e.time <= now
    ensures Timed(events + [e], now)
  {
    var all := events + [e];
    forall i, j | 0 <= i < j < |all|
      ensures all[i].time <= all[j].time
    {
      if j == |events| && events != [] {
        assert i < |events| - 1 ==> events[i].time <= events[|events| - 1].time;
      }
    }
  }

  lemma TurnIsStep(s: State, streams: seq<Bytes>, before: seq<Turn>, turn: Turn)
    ensures var events := EventsIn(Asked(streams), before, turn);
            if events == [] then TurnTaken(s, Asked(streams), before, turn) == s
            else |events| == 1 && events[0].time == turn.time && Acceptable(events[0])
                 && TurnTaken(s, Asked(streams), before, turn) == NextState(s, events[0])
  {
    hide Req.Requests, TryFrom, TurnsOf, WellFormed, Req.Sendable, NextState;
    match turn {
      case Sweep(_) =>
      case Serve(c, time, disk) =>
        if c < |streams| && TurnsOf(before, c) < |Asked(streams)[c]| {
          var request := Asked(streams)[c][TurnsOf(before, c)];
          Req.ReadIsSendable(streams[c]);
          if TryFrom(request, time).Success? {
            AcceptedIsWellFormed(request, time, TryFrom(request, time).value);
          }
        }
    }
  }

  /** The turn in which a client asks its `i`-th request. */
  lemma {:induction false} TurnOf(turns: seq<Turn>, c: nat, i: nat, requests: seq<Args>) returns (k: nat)
    requires i < TurnsOf(turns, c) && i < |requests|
    ensures Asks(turns, k, c, requests) && TurnsOf(turns[..k], c) == i
    decreases |turns|
  {
    var n := |turns| - 1;
    if i < TurnsOf(turns[..n], c) {
      k := TurnOf(turns[..n], c, i, requests);
      assert turns[..n][..k] == turns[..k];
    } else {
      k := n;
    }
  }
}
