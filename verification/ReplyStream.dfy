/** What a client reads: the printed responses of the server, one after the other. They are read
    back as sent exactly when no text that an error quotes holds a CRLF. */
module ReplyStream {
  import opened Prelude
  import opened Wire
  import opened Framing
  import Req = Request
  import Res = Response
  import opened Command
  import opened Store
  import opened Restore
  import opened Server
  import opened Connection
  import opened Clients
  import opened ErrorTexts
  import opened Spelled
  import opened ClientView

  /** All keys and values keep the limit of a bulk string. */
  ghost predicate Small(m: Store) {
    forall k :: k in m ==> |k| <= MAX_COMPLEX_STRING_LENGTH && |m[k].bytes| <= MAX_COMPLEX_STRING_LENGTH
  }

  ghost predicate SmallEntry(entry: (Bytes, Bytes)) {
    |entry.0| <= MAX_COMPLEX_STRING_LENGTH && |entry.1| <= MAX_COMPLEX_STRING_LENGTH
  }

  lemma {:induction false} SpreadSmall(entries: seq<(Bytes, Bytes)>)
    requires forall i :: 0 <= i < |Spread(entries)| ==> |Spread(entries)[i]| <= MAX_COMPLEX_STRING_LENGTH
    ensures forall i :: 0 <= i < |entries| ==> SmallEntry(entries[i])
  {
    if entries != [] {
      var front, last := entries[..|entries| - 1], entries[|entries| - 1];
      var n := |Spread(front)|;
      assert Spread(entries)[n] == last.0 && Spread(entries)[n + 1] == last.1;
      assert forall i :: 0 <= i < n ==> Spread(entries)[i] == Spread(front)[i];
      SpreadSmall(front);
    }
  }

  lemma {:induction false} PutAllSmall(m: Store, entries: seq<(Bytes, Bytes)>)
    requires Small(m) && forall i :: 0 <= i < |entries| ==> SmallEntry(entries[i])
    ensures Small(PutAll(m, entries))
  {
    if entries != [] {
      PutAllSmall(m, entries[..|entries| - 1]);
      assert SmallEntry(entries[|entries| - 1]);
    }
  }

  lemma EffectSmall(c: Command, m: Store, now: u64)
    requires WellFormed(c) && Small(m)
    ensures Small(Effect(c, m, now))
  {
    hide Spread, PutAll;
    assert forall i :: 0 <= i < |Arguments(c)| ==> Arguments(c)[i] == Parts(c)[i + 1];
    match c {
      case Set(key, value) =>
        assert Arguments(c)[0] == key && Arguments(c)[1] == value;
      case MSet(entries) =>
        SpreadSmall(entries);
        PutAllSmall(m, entries);
      case _ =>
    }
  }

  lemma {:induction false} ReplaySmall(log: Log, t: u64)
    requires forall i :: 0 <= i < |log| ==> WellFormed(log[i])
    ensures Small(Replay(log, t))
  {
    hide WellFormed, Effect;
    if log != [] {
      ReplaySmall(log[..|log| - 1], t);
      EffectSmall(log[|log| - 1], Replay(log[..|log| - 1], t), t);
    }
  }

  lemma {:induction false} RunSmall(events: seq<Event>)
    requires forall i :: 0 <= i < |events| ==> Acceptable(events[i])
    ensures Small(Run(events).store)
    ensures forall i :: 0 <= i < |Run(events).log| ==> WellFormed(Run(events).log[i])
  {
    hide WellFormed, Effect;
    if events != [] {
      var front, last := events[..|events| - 1], events[|events| - 1];
      RunSmall(front);
      var s := Run(front);
      assert Acceptable(last);
      match last.step {
        case Request(c, _) => EffectSmall(c, s.store, last.time);
        case Cleanup =>
        case Restart => ReplaySmall(s.log, last.time);
      }
    }
  }

  lemma GetReplySendable(key: Bytes, m: Store, now: u64)
    requires Small(m)
    ensures Res.Sendable(GetReply(key, m, now))
  {
  }

  /** A listing of fewer than 2^63 small pairs can be sent. */
  lemma PairsSendable(r: Res.Response, pairs: map<Bytes, Bytes>)
    requires Answers(r, AllPairs(pairs)) && |pairs| < WORD / 2
    requires forall k :: k in pairs ==> |k| <= MAX_COMPLEX_STRING_LENGTH && |pairs[k]| <= MAX_COMPLEX_STRING_LENGTH
    ensures Res.Sendable(r)
  {
    var listed := set k | k in pairs :: PairResponse(k, pairs[k]);
    ImageNotLarger(pairs.Keys, pairs);
    assert |r.items| == |multiset(r.items)| == |listed|;
    forall i | 0 <= i < |r.items|
      ensures Res.Sendable(r.items[i])
    {
      assert r.items[i] in multiset(r.items);
      assert r.items[i] in listed;
      var k :| k in pairs && r.items[i] == PairResponse(k, pairs[k]);
      var pair := r.items[i].items;
      assert pair == [Res.Cstr(k), Res.Cstr(pairs[k])];
      assert Res.Sendable(pair[0]) && Res.Sendable(pair[1]);
    }
  }

  lemma {:induction false} ImageNotLarger(keys: set<Bytes>, pairs: map<Bytes, Bytes>)
    requires keys <= pairs.Keys
    ensures |set k | k in keys && k in pairs :: PairResponse(k, pairs[k])| <= |keys|
    ensures keys == pairs.Keys ==>
              (set k | k in pairs :: PairResponse(k, pairs[k]))
              == (set k | k in keys && k in pairs :: PairResponse(k, pairs[k]))
    decreases |keys|
  {
    if keys != {} {
      var j :| j in keys;
      var rest := keys - {j};
      ImageNotLarger(rest, pairs);
      var image := set k | k in keys && k in pairs :: PairResponse(k, pairs[k]);
      var image' := set k | k in rest && k in pairs :: PairResponse(k, pairs[k]);
      assert image <= image' + {PairResponse(j, pairs[j])};
      SubsetNotLarger(image, image' + {PairResponse(j, pairs[j])});
    }
  }

  lemma {:induction false} SubsetNotLarger<T>(a: set<T>, b: set<T>)
    requires a <= b
    ensures |a| <= |b|
  {
    assert b == a + (b - a);
  }

  /** Every reply to a well-formed command can be sent. */
  lemma ReplySendable(c: Command, m: Store, now: u64, r: Res.Response)
    requires WellFormed(c) && Small(m) && |m| < WORD / 2
    requires Answers(r, ReplyTo(c, m, now))
    ensures Res.Sendable(r)
  {
    hide AsI64;
    if !IsWriteOp(c) {
      WriteOps(c);
      match c {
        case Get(key) => GetReplySendable(key, m, now);
        case MGet(keys) =>
          assert |Parts(c)| == |keys| + 1;
          forall i | 0 <= i < |keys|
            ensures Res.Sendable(GetReplies(keys, m, now)[i])
          {
            GetReplySendable(keys[i], m, now);
          }
        case GetAll =>
          var pairs := ReadReply(c, m, now).pairs;
          assert pairs.Keys <= m.Keys;
          SubsetNotLarger(pairs.Keys, m.Keys);
          PairsSendable(r, pairs);
        case Ttl(_) =>
      }
    }
  }

  // ---------------------------------------------------------------------------------------
  // From bytes to bytes
  // ---------------------------------------------------------------------------------------

  /** A client that sends SET and then GET for the same key is sent `OK` and the value, whatever
      the server held before. */
  lemma SetThenGet(responses: seq<Res.Response>, k: Bytes, v: Bytes, s: State, setting: Setting)
    requires |k| <= 536_870_912 && |v| <= 536_870_912 && setting.disk(0) == None
    requires Transcript(responses, Message([Text("SET"), k, v]) + Message([Text("GET"), k]), s, setting)
    ensures Res.PrintItems(responses) == Text("+OK\r\n") + Bulk(v)
  {
    hide Text, Message, Bulk, TryFrom, Req.Requests, Res.Print, IsAnswer, Res.PrintItems, ReplyTo, Effect;
    var set', get := [Text("SET"), k, v], [Text("GET"), k];
    ShortWords(k, v);
    TwoRequests(set', get);
    var first := Served(s, set', setting.clock(0), None);
    var both: seq<Args> := [set', get];
    assert both[..0] == [] && both[..1] == [set'];
    OneServed(s, set', setting);
    assert AnsweredInTurn(responses[..2], both, s, setting, 0);
    assert AnsweredInTurn(responses[..2], both, s, setting, 1);
    RequestsSpelled(k, v, [], setting.clock(0));
    RequestsSpelled(k, v, [], setting.clock(1));
    AnswerSpelled(responses[0], set', s, setting.clock(0), None, setting.texts);
    AnswerSpelled(responses[1], get, first, setting.clock(1), setting.disk(1), setting.texts);
    SetAndExpireAnswer(k, v, [], 0, s.store, setting.clock(0));
    SetAndExpireAt(s.store, k, v, 0, setting.clock(0));
    Visible(first.store, k, setting.clock(1), StoredValue(v, None));
    GetAnswer(k, first.store, setting.clock(1));
    assert responses == [Res.Ok, Res.Cstr(v)] by { assert responses[2..] == []; }
    PrintTwo(v);
  }

  lemma ShortWords(k: Bytes, v: Bytes)
    requires |k| <= 536_870_912 && |v| <= 536_870_912
    ensures Req.Sendable([Text("SET"), k, v]) && Req.Sendable([Text("GET"), k])
  {
    hide Text;
    NamesSpelled();
  }

  lemma TwoRequests(a: Args, b: Args)
    requires Req.Sendable(a) && Req.Sendable(b)
    ensures Req.Requests(Message(a) + Message(b)) == ([a, b], Clean)
  {
    hide Req.Requests, Req.Sendable, Req.PrintRequest, Message;
    RequestSpelled(a);
    RequestSpelled(b);
    Req.PrintedRequestsFrame([a, b]);
    FlattenTwo(Req.Printed([a, b]));
  }

  lemma FlattenTwo(pieces: seq<Bytes>)
    requires |pieces| == 2
    ensures Flatten(pieces) == pieces[0] + pieces[1]
  {
    var rest := pieces[1..];
    assert rest[0] == pieces[1] && Flatten(rest[1..]) == [];
  }

  lemma OneServed(s: State, a: Args, setting: Setting)
    ensures ServedAll(s, [a], setting) == Served(s, a, setting.clock(0), setting.disk(0))
    ensures ServedAll(s, [], setting) == s
  {
    hide Served;
    var one: seq<Args> := [a];
    assert one[..0] == [];
  }

  lemma PrintTwo(v: Bytes)
    ensures Res.PrintItems([Res.Ok, Res.Cstr(v)]) == Text("+OK\r\n") + Bulk(v)
  {
    hide Text, Bulk, Res.Print, Res.PrintItems;
    var all := [Res.Ok, Res.Cstr(v)];
    ResponseSpelled([], v, 0, all);
    assert all[1..] == [Res.Cstr(v)] && all[1..][1..] == [];
    ResponseSpelled([], v, 0, all[1..]);
    assert Bulk(v) + [] == Bulk(v);
  }

  // ---------------------------------------------------------------------------------------
  // Accepted requests
  // ---------------------------------------------------------------------------------------

  /** A write that is answered with a disk error whose text holds a CRLF. */
  ghost predicate Garbled(c: Command, disk: Option<Utf8>) {
    Rejected(c, disk) && HasCrlf(disk.value)
  }

  /** What a client is told about a well-formed command can be sent, save such an error. */
  lemma ToldSendable(c: Command, disk: Option<Utf8>, m: Store, now: u64, r: Res.Response)
    requires WellFormed(c) && Small(m) && |m| < WORD / 2
    requires Answers(r, Told(c, disk, m, now))
    ensures Res.Sendable(r) <==> !Garbled(c, disk)
  {
    hide WellFormed, Small, ReplyTo, IsWriteOp;
    if !Rejected(c, disk) {
      ReplySendable(c, m, now, r);
    }
  }

  ghost predicate GarbledEvent(e: Event) {
    e.step.Request? && Garbled(e.step.command, e.step.disk)
  }

  /** Over any run in which the store stays below 2^63 keys, all responses to accepted requests
      can be sent unless a disk error with a CRLF in its text is among them. */
  lemma {:induction false} ResponsesSendable(events: seq<Event>, responses: seq<Res.Response>)
    requires forall i :: 0 <= i < |events| ==> Acceptable(events[i])
    requires forall i :: 0 <= i <= |events| ==> |Run(events[..i]).store| < WORD / 2
    requires AllAnswered(responses, Replies(events))
    ensures (forall i :: 0 <= i < |responses| ==> Res.Sendable(responses[i])) <==>
            (forall i :: 0 <= i < |events| ==> !GarbledEvent(events[i]))
    decreases |events|
  {
    hide WellFormed, Answers, Run, Small, Told, Res.Sendable, Garbled;
    if events != [] {
      var front, last := events[..|events| - 1], events[|events| - 1];
      assert forall i :: 0 <= i <= |front| ==> front[..i] == events[..i];
      assert front[..|front|] == front;
      assert events == front + [last];
      assert Acceptable(last);
      match last.step {
        case Request(c, disk) =>
          var n := |responses| - 1;
          assert responses == responses[..n] + [responses[n]];
          assert AllAnswered(responses[..n], Replies(front));
          ResponsesSendable(front, responses[..n]);
          assert |Run(front).store| < WORD / 2;
          RunSmall(front);
          ToldSendable(c, disk, Run(front).store, last.time, responses[n]);
        case _ => ResponsesSendable(front, responses);
      }
    }
  }

  /** A client that reads the printed responses of such a run gets exactly these responses if and
      only if no disk error with a CRLF in its text is among them. */
  lemma ClientReadsReplies(events: seq<Event>, responses: seq<Res.Response>)
    requires forall i :: 0 <= i < |events| ==> Acceptable(events[i])
    requires forall i :: 0 <= i <= |events| ==> |Run(events[..i]).store| < WORD / 2
    requires AllAnswered(responses, Replies(events))
    ensures Res.Responses(Res.PrintItems(responses)) == (responses, Clean) <==>
            forall i :: 0 <= i < |events| ==> !GarbledEvent(events[i])
  {
    hide Acceptable, AllAnswered, Run, Replies, Res.Sendable, GarbledEvent;
    ResponsesSendable(events, responses);
    Res.PrintedResponsesFrame(responses);
  }

  // ---------------------------------------------------------------------------------------
  // Requests as they come
  // ---------------------------------------------------------------------------------------

  /** A request that stands for a write. */
  predicate IsWriteRequest(request: Args) {
    && Objection(request).None?
    && request != [] && request[0] in {SET_NAME, MSET_NAME, DEL_NAME, EXPIRE_NAME, EXPIREAT_NAME}
  }

  /** A request whose response is cut: it is refused with a CRLF in the quoted text, or it is a
      write and the disk's error has a CRLF in its text. */
  ghost predicate CutShort(request: Args, disk: Option<Utf8>) {
    QuotesCrlf(request) || (IsWriteRequest(request) && disk.Some? && HasCrlf(disk.value))
  }

  lemma WriteByName(request: Args, now: u64)
    requires TryFrom(request, now).Success?
    ensures IsWriteRequest(request) <==> IsWriteOp(TryFrom(request, now).value)
  {
    hide ValidUtf8, ParseU64;
    RefusedExactly(request, now);
  }

  /** The answer to a decoded request, accepted or refused, is read back as sent exactly when it
      is not one of these. */
  lemma AnswerSendable(r: Res.Response, request: Args, s: State, now: u64, disk: Option<Utf8>, texts: Texts)
    requires IsAnswer(r, request, s, now, disk, texts) && QuotePayloads(texts)
    requires Req.Sendable(request) && Small(s.store) && |s.store| < WORD / 2
    ensures Res.Sendable(r) <==> !CutShort(request, disk)
  {
    hide TryFrom, QuotePayloads, QuotesCrlf, Told, Answers, WellFormed, Req.Sendable, Small, Objection, HasCrlf,
      IsWriteRequest;
    match TryFrom(request, now) {
      case Failure(e) =>
        RefusalText(request, now, texts);
        RefusedIsNoWrite(request, now);
      case Success(c) =>
        AcceptedIsWellFormed(request, now, c);
        AcceptedQuotesNothing(request, now);
        WriteByName(request, now);
        ToldSendable(c, disk, s.store, now, r);
    }
  }

  lemma RefusedIsNoWrite(request: Args, now: u64)
    requires TryFrom(request, now).Failure?
    ensures !IsWriteRequest(request)
  {
    hide TryFrom, Objection;
    RefusedExactly(request, now);
  }

  lemma ServedSmall(s: State, request: Args, now: u64, disk: Option<Utf8>)
    requires Req.Sendable(request) && Small(s.store)
    ensures Small(Served(s, request, now, disk).store)
  {
    hide TryFrom, WellFormed, Small, Req.Sendable, Effect;
    match TryFrom(request, now) {
      case Failure(_) =>
      case Success(c) =>
        AcceptedIsWellFormed(request, now, c);
        EffectSmall(c, s.store, now);
    }
  }

  lemma {:induction false} ServedAllSmall(s: State, requests: seq<Args>, setting: Setting)
    requires Small(s.store) && forall i :: 0 <= i < |requests| ==> Req.Sendable(requests[i])
    ensures Small(ServedAll(s, requests, setting).store)
    decreases |requests|
  {
    hide Small, Served, Req.Sendable;
    if requests != [] {
      var n := |requests| - 1;
      ServedAllSmall(s, requests[..n], setting);
      ServedSmall(ServedAll(s, requests[..n], setting), requests[n], setting.clock(n), setting.disk(n));
    }
  }

  /** A report at the end of a connection is always read back. */
  lemma ReportSendable(end: End<Req.RequestError>, texts: Texts)
    requires QuotePayloads(texts)
    ensures forall i :: 0 <= i < |Report(end, texts)| ==> Res.Sendable(Report(end, texts)[i])
  {
  }

  /** A client that reads all responses of its connection gets exactly these responses if and only
      if none of its requests is answered with an error that quotes a CRLF. */
  lemma ClientReadsConnection(responses: seq<Res.Response>, bytes: Bytes, s: State, setting: Setting)
    requires Transcript(responses, bytes, s, setting) && QuotePayloads(setting.texts) && Small(s.store)
    requires forall i :: 0 <= i <= |Req.Requests(bytes).0| ==>
                           |ServedAll(s, Req.Requests(bytes).0[..i], setting).store| < WORD / 2
    ensures Res.Responses(Res.PrintItems(responses)) == (responses, Clean) <==>
            forall i :: 0 <= i < |Req.Requests(bytes).0| ==> !CutShort(Req.Requests(bytes).0[i], setting.disk(i))
  {
    hide QuotePayloads, Small, ServedAll, IsAnswer, CutShort, Res.Sendable, Req.Sendable, Req.Requests, Report;
    var requests, end := Req.Requests(bytes).0, Req.Requests(bytes).1;
    var n := |requests|;
    Req.ReadIsSendable(bytes);
    forall i | 0 <= i < n
      ensures Res.Sendable(responses[i]) <==> !CutShort(requests[i], setting.disk(i))
    {
      assert AnsweredInTurn(responses[..n], requests, s, setting, i);
      ServedAllSmall(s, requests[..i], setting);
      AnswerSendable(responses[i], requests[i], ServedAll(s, requests[..i], setting),
                     setting.clock(i), setting.disk(i), setting.texts);
    }
    ReportSendable(end, setting.texts);
    forall i | n <= i < |responses|
      ensures Res.Sendable(responses[i])
    {
      assert responses[i] == Report(end, setting.texts)[i - n];
    }
    Res.PrintedResponsesFrame(responses);
  }

  lemma {:induction false} StateAfterSmall(s: State, streams: seq<Bytes>, turns: seq<Turn>)
    requires Small(s.store)
    ensures Small(StateAfter(s, Asked(streams), turns).store)
    decreases |turns|
  {
    hide Small, Served, Req.Requests, Req.Sendable, TurnsOf;
    if turns != [] {
      var front, asked := turns[..|turns| - 1], Asked(streams);
      var s' := StateAfter(s, asked, front);
      StateAfterSmall(s, streams, front);
      match turns[|turns| - 1] {
        case Sweep(time) => LiveSmall(s'.store, time);
        case Serve(c, time, disk) =>
          if c < |asked| && TurnsOf(front, c) < |asked[c]| {
            Req.ReadIsSendable(streams[c]);
            ServedSmall(s', asked[c][TurnsOf(front, c)], time, disk);
          }
      }
    }
  }

  lemma LiveSmall(m: Store, now: u64)
    requires Small(m)
    ensures Small(Live(m, now))
  {
  }

  /** The same with several clients that take turns: each of them reads exactly what it was sent if
      and only if none of its own requests is answered with such an error. */
  lemma EachClientReads(
    sent: seq<Res.Response>, c: nat, streams: seq<Bytes>, s: State, turns: seq<Turn>, texts: Texts)
    requires c < |streams| && Heard(sent, c, Asked(streams), Req.Requests(streams[c]).1, s, turns, texts)
    requires QuotePayloads(texts) && Small(s.store)
    requires forall k :: 0 <= k <= |turns| ==> |StateAfter(s, Asked(streams), turns[..k]).store| < WORD / 2
    ensures Res.Responses(Res.PrintItems(sent)) == (sent, Clean) <==>
            forall k: nat :: Asks(turns, k, c, Asked(streams)[c]) ==>
                               !CutShort(Asked(streams)[c][TurnsOf(turns[..k], c)], turns[k].disk)
  {
    hide QuotePayloads, Small, StateAfter, IsAnswer, CutShort, Res.Sendable, Req.Sendable, Req.Requests, Report,
      TurnsOf;
    var asked, end := Asked(streams), Req.Requests(streams[c]).1;
    Req.ReadIsSendable(streams[c]);
    ReportSendable(end, texts);
    forall k: nat | Asks(turns, k, c, asked[c])
      ensures var i := TurnsOf(turns[..k], c);
              i < |sent| && (Res.Sendable(sent[i]) <==> !CutShort(asked[c][i], turns[k].disk))
    {
      var i := TurnsOf(turns[..k], c);
      assert HeardInTurn(sent, c, asked, s, turns, k, texts);
      StateAfterSmall(s, streams, turns[..k]);
      AnswerSendable(sent[i], asked[c][i], StateAfter(s, asked, turns[..k]), turns[k].time, turns[k].disk, texts);
    }
    forall i | 0 <= i < |sent|
      ensures (exists k: nat :: Asks(turns, k, c, asked[c]) && TurnsOf(turns[..k], c) == i) || Res.Sendable(sent[i])
    {
      if i < |asked[c]| {
        var k := TurnOf(turns, c, i, asked[c]);
      } else {
        assert sent[i] == Report(end, texts)[i - |asked[c]|];
      }
    }
    Res.PrintedResponsesFrame(sent);
  }

  /** Two requests of that kind. One is named by text with a CRLF inside, the other gives such
      text for an expiration. */
  lemma EchoedNameIsCut(name: Utf8, args: Args, now: u64, texts: Texts, more: Bytes)
    requires HasCrlf(name) && QuotePayloads(texts)
    ensures TryFrom([name] + args, now) == Failure(UnrecognizedCommand(name))
    ensures var r := Res.Error(texts.ofCommand(UnrecognizedCommand(name)));
            Res.ParseResponse(Res.Print(r) + more) != Complete(r, |Res.Print(r)|)
  {
    hide Res.ParseResponse, Res.Print, ValidUtf8, QuotePayloads;
    var i: nat :| CrlfAt(name, i);
    assert ArityOf(name).None?;
    assert QuotesCrlf([name] + args);
    RefusalText([name] + args, now, texts);
    Res.ResponseRoundTrip(Res.Error(texts.ofCommand(UnrecognizedCommand(name))), more);
  }

  lemma EchoedExpirationIsCut(name: Utf8, key: Bytes, text: Utf8, now: u64, texts: Texts, more: Bytes)
    requires HasCrlf(text) && QuotePayloads(texts) && (name == EXPIRE_NAME || name == EXPIREAT_NAME)
    ensures TryFrom([name, key, text], now) == Failure(InvalidExpiration(text))
    ensures var r := Res.Error(texts.ofCommand(InvalidExpiration(text)));
            Res.ParseResponse(Res.Print(r) + more) != Complete(r, |Res.Print(r)|)
  {
    hide Res.ParseResponse, Res.Print, ValidUtf8, QuotePayloads, TryFrom, ParseU64, HasCrlf;
    BreaksAreNoNumbers(text);
    RefusedExactly([name, key, text], now);
    RefusalText([name, key, text], now, texts);
    Res.ResponseRoundTrip(Res.Error(texts.ofCommand(InvalidExpiration(text))), more);
  }
}
