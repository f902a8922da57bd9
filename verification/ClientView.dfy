/** What a client is told, in the words of the protocol: every reply spelled out, for every store,
    and tied to the history of the run that led to the store. */
module ClientView {
  import opened Prelude
  import Wire
  import opened Response
  import opened Command
  import opened Store
  import opened Restore

  // ---------------------------------------------------------------------------------------
  // The store
  // ---------------------------------------------------------------------------------------

  /** A value is visible until the clock reaches its deadline. */
  lemma Visible(m: Store, k: Bytes, now: u64, v: StoredValue)
    ensures View(m, k, now) == Some(v) <==>
            k in m && m[k] == v && (v.expiresAt == None || now < v.expiresAt.value)
    ensures View(m, k, now) == Some(v) <==> k in Live(m, now) && Live(m, now)[k] == v
  {
  }

  /** SET and EXPIREAT, in full. */
  lemma SetAndExpireAt(m: Store, k: Bytes, v: Bytes, deadline: u64, now: u64)
    ensures Effect(Set(k, v), m, now) == m[k := StoredValue(v, None)]
    ensures Effect(ExpireAt(k, deadline), m, now) ==
            match View(m, k, now)
            case None => m - {k}
            case Some(stored) => m[k := StoredValue(stored.bytes, Some(deadline))]
  {
    if k !in m {
      assert m - {k} == m;
    }
  }

  /** MSET and DEL, key by key. */
  lemma MSetAndDel(m: Store, entries: seq<(Bytes, Bytes)>, keys: seq<Bytes>, now: u64, k: Bytes)
    ensures var r := Effect(Del(keys), m, now);
            (k in r <==> k in m && k !in keys) && (k in r ==> r[k] == m[k])
    ensures var r := Effect(MSet(entries), m, now);
            && (forall i :: 0 <= i < |entries| && LastFor(entries, i, k) ==>
                              k in r && r[k] == StoredValue(entries[i].1, None))
            && ((forall i :: 0 <= i < |entries| ==> entries[i].0 != k) ==>
                  (k in r <==> k in m) && (k in m ==> r[k] == m[k]))
  {
    PutAllMeaning(m, entries, k);
    forall i | 0 <= i < |entries| && LastFor(entries, i, k)
      ensures Writes(MSet(entries), k) && Written(MSet(entries), k) == entries[i].1
    {
      LastValueIs(entries, i, k);
    }
  }

  /** Entry `i` is the last one for key `k`. */
  predicate LastFor(entries: seq<(Bytes, Bytes)>, i: nat, k: Bytes) {
    && i < |entries| && entries[i].0 == k
    && forall j :: i < j < |entries| ==> entries[j].0 != k
  }

  lemma {:induction false} LastValueIs(entries: seq<(Bytes, Bytes)>, i: nat, k: Bytes)
    requires LastFor(entries, i, k)
    ensures LastValue(entries, k) == entries[i].1
    decreases |entries|
  {
    if i < |entries| - 1 {
      assert entries[..|entries| - 1][i].0 == k;
      LastValueIs(entries[..|entries| - 1], i, k);
    }
  }

  /** A cleanup leaves exactly the entries whose deadline, if any, is still ahead. A write whose
      append fails changes nothing and is answered with the disk's error. */
  lemma CleanupAndFailedAppend(s: State, k: Bytes, c: Command, text: Wire.Utf8, now: u64)
    ensures var r := NextState(s, Event(Cleanup, now));
            && r.log == s.log
            && (k in r.store <==> k in s.store && (s.store[k].expiresAt == None || now < s.store[k].expiresAt.value))
            && (k in r.store ==> r.store[k] == s.store[k])
    ensures c.Set? || c.MSet? || c.Del? || c.ExpireAt? ==>
              && NextState(s, Event(Request(c, Some(text)), now)) == s
              && Told(c, Some(text), s.store, now) == Exactly(Error(text))
              && NextState(s, Event(Request(c, None), now)) == State(s.log + [c], Effect(c, s.store, now))
    ensures c.Get? || c.MGet? || c.GetAll? || c.Ttl? ==> NextState(s, Event(Request(c, None), now)) == s
  {
    WriteOps(c);
  }

  /** A restart keeps the log, and leaves exactly the keys whose last write in the log is not
      followed by a deletion and all of whose later deadlines are still ahead at that time. */
  lemma RestartShows(s: State, k: Bytes, now: u64)
    ensures var r := NextState(s, Event(Restart, now));
            && r.log == s.log
            && (View(r.store, k, now).Some? <==>
                exists i: nat :: LastWrite(s.log, k, i) && NoneOver(s.log, k, i, now))
  {
    ReplayView(s.log, k, now);
  }

  // ---------------------------------------------------------------------------------------
  // Reads
  // ---------------------------------------------------------------------------------------

  predicate ShowsBytes(m: Store, k: Bytes, now: u64, v: Bytes) {
    View(m, k, now).Some? && View(m, k, now).value.bytes == v
  }

  /** GET answers the bytes under a live key, and null exactly if there is none. */
  lemma GetAnswer(k: Bytes, m: Store, now: u64)
    ensures forall v :: ReplyTo(Get(k), m, now) == Exactly(Cstr(v)) <==> ShowsBytes(m, k, now, v)
    ensures ReplyTo(Get(k), m, now) == Exactly(Null) <==> View(m, k, now).None?
  {
    WriteOps(Get(k));
  }

  /** MGET answers in each position what GET answers for the key there. */
  lemma MGetAnswer(keys: seq<Bytes>, m: Store, now: u64) returns (items: seq<Response>)
    ensures ReplyTo(MGet(keys), m, now) == Exactly(Array(items)) && |items| == |keys|
    ensures forall i, v :: 0 <= i < |keys| ==> (items[i] == Cstr(v) <==> ShowsBytes(m, keys[i], now, v))
    ensures forall i :: 0 <= i < |keys| ==> (items[i] == Null <==> View(m, keys[i], now).None?)
  {
    WriteOps(MGet(keys));
    items := GetReplies(keys, m, now);
  }

  /** TTL answers -2 without a live key and -1 without a deadline, and the two largest deadlines
      read the same; any other deadline is answered as the signed word with its bits. */
  lemma TtlAnswer(k: Bytes, m: Store, now: u64)
    ensures var v := View(m, k, now);
            var reply := ReplyTo(Ttl(k), m, now);
            && (reply == Exactly(Integer(-2)) <==>
                v == None || v.value.expiresAt == Some(0xFFFF_FFFF_FFFF_FFFE))
            && (reply == Exactly(Integer(-1)) <==>
                v.Some? && (v.value.expiresAt == None || v.value.expiresAt == Some(0xFFFF_FFFF_FFFF_FFFF)))
            && (v.Some? && v.value.expiresAt.Some? ==>
                  var d := v.value.expiresAt.value;
                  reply == Exactly(Integer(if d < 0x8000_0000_0000_0000 then d else d - 0x1_0000_0000_0000_0000)))
  {
    WriteOps(Ttl(k));
  }

  /** GETALL answers an array of pairs: each live key with its bytes once, and nothing else. */
  lemma GetAllAnswer(r: Response, m: Store, now: u64)
    requires Answers(r, ReplyTo(GetAll, m, now))
    ensures r.Array? && |r.items| == |Live(m, now)|
    ensures forall k, v :: multiset(r.items)[Array([Cstr(k), Cstr(v)])] == if ShowsBytes(m, k, now, v) then 1 else 0
  {
    WriteOps(GetAll);
    var pairs := ReplyTo(GetAll, m, now).pairs;
    var listed := Listed(pairs);
    assert pairs.Keys == Live(m, now).Keys;
    ListedSize(pairs);
    assert |r.items| == |multiset(r.items)| == |listed|;
    forall k, v
      ensures Array([Cstr(k), Cstr(v)]) in listed <==> ShowsBytes(m, k, now, v)
    {
      PairSpelled(k, v);
      if ShowsBytes(m, k, now, v) {
        assert k in pairs && pairs[k] == v;
      }
      if Array([Cstr(k), Cstr(v)]) in listed {
        var j :| j in pairs && Array([Cstr(k), Cstr(v)]) == PairResponse(j, pairs[j]);
        SamePair(k, v, j, pairs[j]);
      }
    }
  }

  lemma PairSpelled(k: Bytes, v: Bytes)
    ensures PairResponse(k, v) == Array([Cstr(k), Cstr(v)])
  {
  }

  ghost function Listed(pairs: map<Bytes, Bytes>): set<Response> {
    set k | k in pairs :: PairResponse(k, pairs[k])
  }

  lemma {:induction false} ListedSize(pairs: map<Bytes, Bytes>)
    ensures |Listed(pairs)| == |pairs|
    decreases |pairs|
  {
    hide Listed;
    if pairs == map[] {
      NothingListed();
    } else {
      var j :| j in pairs;
      ListedSize(pairs - {j});
      ListedWithout(pairs, j);
      assert pairs.Keys == (pairs - {j}).Keys + {j};
    }
  }

  lemma NothingListed()
    ensures Listed(map[]) == {}
  {
  }

  lemma ListedWithout(pairs: map<Bytes, Bytes>, j: Bytes)
    requires j in pairs
    ensures PairResponse(j, pairs[j]) !in Listed(pairs - {j})
    ensures Listed(pairs) == Listed(pairs - {j}) + {PairResponse(j, pairs[j])}
  {
    hide PairResponse;
    var own, rest := PairResponse(j, pairs[j]), pairs - {j};
    forall k | k in rest
      ensures PairResponse(k, rest[k]) != own
    {
      SamePair(k, rest[k], j, pairs[j]);
    }
    forall r | r in Listed(pairs)
      ensures r in Listed(rest) + {own}
    {
      var k :| k in pairs && r == PairResponse(k, pairs[k]);
      assert k != j ==> k in rest && rest[k] == pairs[k];
    }
  }

  lemma SamePair(k: Bytes, v: Bytes, j: Bytes, w: Bytes)
    ensures PairResponse(k, v) == PairResponse(j, w) ==> k == j && v == w
  {
    assert PairResponse(k, v).items[0] == Cstr(k) && PairResponse(k, v).items[1] == Cstr(v);
    assert PairResponse(j, w).items[0] == Cstr(j) && PairResponse(j, w).items[1] == Cstr(w);
  }

  // ---------------------------------------------------------------------------------------
  // Writes
  // ---------------------------------------------------------------------------------------

  /** SET and MSET answer `OK`; EXPIREAT answers 1 for a live key and 0 otherwise. */
  lemma SetAndExpireAnswer(k: Bytes, v: Bytes, entries: seq<(Bytes, Bytes)>, deadline: u64, m: Store, now: u64)
    ensures ReplyTo(Set(k, v), m, now) == Exactly(Ok)
    ensures ReplyTo(MSet(entries), m, now) == Exactly(Ok)
    ensures ReplyTo(ExpireAt(k, deadline), m, now) == Exactly(Integer(if View(m, k, now).Some? then 1 else 0))
  {
    WriteOps(Set(k, v));
    WriteOps(MSet(entries));
    WriteOps(ExpireAt(k, deadline));
  }

  /** DEL answers by how many live keys the store has fewer than before. */
  lemma DelAnswer(keys: seq<Bytes>, m: Store, now: u64)
    ensures var n := |Live(m, now)| - |Live(Effect(Del(keys), m, now), now)|;
            && 0 <= n
            && (n < 0x8000_0000_0000_0000 ==> ReplyTo(Del(keys), m, now) == Exactly(Integer(n)))
  {
    hide Effect, LiveAmong, Live, ReplyTo;
    LiveFewer(keys, m, now);
    if |LiveAmong(keys, m, now)| < 0x8000_0000_0000_0000 {
      DelReply(keys, m, now);
    }
  }

  lemma LiveFewer(keys: seq<Bytes>, m: Store, now: u64)
    ensures |LiveAmong(keys, m, now)| == |Live(m, now)| - |Live(Effect(Del(keys), m, now), now)|
  {
    hide Effect, LiveAmong, Live, IsLive;
    LiveAfterDel(keys, m, now);
    SizeLeft(Live(m, now), Live(Effect(Del(keys), m, now), now), LiveAmong(keys, m, now));
  }

  lemma SizeLeft(m: Store, m': Store, gone: set<Bytes>)
    requires gone <= m.Keys && m'.Keys == m.Keys - gone
    ensures |gone| == |m| - |m'|
  {
    RestSize(m.Keys, gone);
    assert |m.Keys| == |m| && |m'.Keys| == |m'|;
  }

  lemma DelReply(keys: seq<Bytes>, m: Store, now: u64)
    requires |LiveAmong(keys, m, now)| < 0x8000_0000_0000_0000
    ensures ReplyTo(Del(keys), m, now) == Exactly(Integer(|LiveAmong(keys, m, now)|))
  {
    hide LiveAmong;
    WriteOps(Del(keys));
  }

  lemma LiveAfterDel(keys: seq<Bytes>, m: Store, now: u64)
    ensures LiveAmong(keys, m, now) <= Live(m, now).Keys
    ensures Live(Effect(Del(keys), m, now), now).Keys == Live(m, now).Keys - LiveAmong(keys, m, now)
  {
    var after := Effect(Del(keys), m, now);
    forall k
      ensures k in Live(after, now) <==> k in Live(m, now) && k !in LiveAmong(keys, m, now)
    {
      assert k in after <==> k in m && k !in keys;
    }
  }

  lemma RestSize<T>(all: set<T>, some: set<T>)
    requires some <= all
    ensures |all - some| == |all| - |some|
  {
    assert all == (all - some) + some;
  }

  // ---------------------------------------------------------------------------------------
  // Over runs
  // ---------------------------------------------------------------------------------------

  /** The command writes `v` under `k`, and nothing else under `k` after it. */
  ghost predicate Puts(c: Command, k: Bytes, v: Bytes) {
    || c == Set(k, v)
    || (c.MSet? && exists i :: 0 <= i < |c.entries| && LastFor(c.entries, i, k) && c.entries[i].1 == v)
  }

  /** Entry `i` of the log put `v` under `k`; since then `k` was neither written nor deleted. */
  ghost predicate PutLast(log: Log, k: Bytes, v: Bytes, i: nat) {
    && i < |log| && Puts(log[i], k, v)
    && forall j, w :: i < j < |log| ==> !Puts(log[j], k, w) && !(log[j].Del? && k in log[j].keys)
  }

  /** What a command puts is what it is said to write. */
  lemma PutsIsWritten(c: Command, k: Bytes, v: Bytes)
    ensures Puts(c, k, v) <==> Writes(c, k) && Written(c, k) == v
  {
    if c.MSet? && Writes(c, k) {
      var i := LastIndex(c.entries, k);
      LastValueIs(c.entries, i, k);
    }
    if c.MSet? && Puts(c, k, v) {
      var i :| 0 <= i < |c.entries| && LastFor(c.entries, i, k) && c.entries[i].1 == v;
      LastValueIs(c.entries, i, k);
    }
  }

  lemma {:induction false} LastIndex(entries: seq<(Bytes, Bytes)>, k: Bytes) returns (i: nat)
    requires exists j :: 0 <= j < |entries| && entries[j].0 == k
    ensures LastFor(entries, i, k)
    decreases |entries|
  {
    if entries[|entries| - 1].0 == k {
      i := |entries| - 1;
    } else {
      var front := entries[..|entries| - 1];
      var j :| 0 <= j < |entries| && entries[j].0 == k;
      assert front[j].0 == k;
      i := LastIndex(front, k);
    }
  }

  lemma PutLastIsLastWrite(log: Log, k: Bytes, v: Bytes, i: nat)
    requires LastWrite(log, k, i) && v == Written(log[i], k)
    ensures PutLast(log, k, v, i)
  {
    PutsIsWritten(log[i], k, v);
    forall j, w | i < j < |log|
      ensures !Puts(log[j], k, w) && !(log[j].Del? && k in log[j].keys)
    {
      PutsIsWritten(log[j], k, w);
    }
  }

  /** Whatever a run did, restarts, cleanups and failed appends included: a key that its store
      shows holds the bytes of the last write of the key in the log. */
  lemma ShownWasPut(events: seq<Event>, k: Bytes, t: u64) returns (i: nat)
    requires Timed(events, t) && View(Run(events).store, k, t).Some?
    ensures PutLast(Run(events).log, k, View(Run(events).store, k, t).value.bytes, i)
  {
    hide Run, Effect, Nominal, PutLast;
    var log := Run(events).log;
    StoreIsNominal(events, k, t);
    i := NominalHasWrite(log, k);
    NominalMeaning(log, k, i);
    PutLastIsLastWrite(log, k, Written(log[i], k), i);
  }

  /** The reply to a last request of a run. */
  ghost function LastReply(events: seq<Event>, c: Command, t: u64): Reply {
    var replies := Replies(events + [Event(Request(c, None), t)]);
    assert replies != [] by { RepliesSnoc(events, Event(Request(c, None), t)); }
    replies[|replies| - 1]
  }

  lemma LastReplyIs(events: seq<Event>, c: Command, t: u64)
    ensures LastReply(events, c, t) == ReplyTo(c, Run(events).store, t)
  {
    hide Run;
    RepliesSnoc(events, Event(Request(c, None), t));
  }

  /** After any run, GET answers `v` exactly if the store shows the key with bytes `v`, which then
      are those that the last write of the key put there; it answers null exactly if the key is
      not live. */
  lemma GetAfterRun(events: seq<Event>, k: Bytes, t: u64)
    requires Timed(events, t)
    ensures forall v :: LastReply(events, Get(k), t) == Exactly(Cstr(v)) <==> ShowsBytes(Run(events).store, k, t, v)
    ensures forall v :: LastReply(events, Get(k), t) == Exactly(Cstr(v)) ==>
                          exists i: nat :: PutLast(Run(events).log, k, v, i)
    ensures LastReply(events, Get(k), t) == Exactly(Null) <==> !IsLive(Run(events).store, k, t)
  {
    hide Run, ReplyTo, PutLast, LastReply;
    LastReplyIs(events, Get(k), t);
    GetAnswer(k, Run(events).store, t);
    if View(Run(events).store, k, t).Some? {
      var i := ShownWasPut(events, k, t);
    }
  }

  /** The same for each position of MGET. */
  lemma MGetAfterRun(events: seq<Event>, keys: seq<Bytes>, t: u64) returns (items: seq<Response>)
    requires Timed(events, t)
    ensures LastReply(events, MGet(keys), t) == Exactly(Array(items)) && |items| == |keys|
    ensures forall i, v :: 0 <= i < |keys| ==> (items[i] == Cstr(v) <==> ShowsBytes(Run(events).store, keys[i], t, v))
    ensures forall i, v :: 0 <= i < |keys| && items[i] == Cstr(v) ==>
                             exists j: nat :: PutLast(Run(events).log, keys[i], v, j)
    ensures forall i :: 0 <= i < |keys| ==> (items[i] == Null <==> !IsLive(Run(events).store, keys[i], t))
  {
    hide Run, ReplyTo, PutLast, LastReply;
    LastReplyIs(events, MGet(keys), t);
    items := MGetAnswer(keys, Run(events).store, t);
    forall i | 0 <= i < |keys| && View(Run(events).store, keys[i], t).Some?
      ensures exists j: nat :: PutLast(Run(events).log, keys[i], View(Run(events).store, keys[i], t).value.bytes, j)
    {
      var j := ShownWasPut(events, keys[i], t);
    }
  }
}
