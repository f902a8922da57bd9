/** What commands mean on the finite map from keys to values with deadlines, and what a client
    can see of it. A deadline is over when the clock has reached it. */
module Store {
  import opened Prelude
  import opened Response
  import opened Command

  datatype StoredValue = StoredValue(bytes: Bytes, expiresAt: Option<u64>)

  type Store = map<Bytes, StoredValue>

  predicate IsExpired(v: StoredValue, now: u64) {
    v.expiresAt.Some? && v.expiresAt.value <= now
  }

  predicate IsLive(m: Store, k: Bytes, now: u64) {
    k in m && !IsExpired(m[k], now)
  }

  /** The part of the store that clients can see. */
  function Live(m: Store, now: u64): (r: Store)
    ensures forall k :: k in r <==> IsLive(m, k, now)
  {
    map k | k in m && !IsExpired(m[k], now) :: m[k]
  }

  /** Conversion to a signed word keeps the low 64 bits. */
  function AsI64(n: nat): i64 {
    var low := n % WORD;
    if low < WORD / 2 then low else low - WORD
  }

  // ---------------------------------------------------------------------------------------
  // Writes
  // ---------------------------------------------------------------------------------------

  function Fresh(bytes: Bytes): StoredValue {
    StoredValue(bytes, None)
  }

  /** Writing pairs from left to right. */
  function PutAll(m: Store, entries: seq<(Bytes, Bytes)>): Store {
    if entries == [] then m
    else
      var last := entries[|entries| - 1];
      PutAll(m, entries[..|entries| - 1])[last.0 := Fresh(last.1)]
  }

  function KeysOf(keys: seq<Bytes>): set<Bytes> {
    set k | k in keys
  }

  /** An expired value is removed before the key is used. */
  function Ejected(m: Store, k: Bytes, now: u64): Store {
    if k in m && IsExpired(m[k], now) then m - {k} else m
  }

  /** The store after a write command. */
  function Effect(c: Command, m: Store, now: u64): Store {
    match c
    case Set(key, value) => m[key := Fresh(value)]
    case MSet(entries) => PutAll(m, entries)
    case Del(keys) => m - KeysOf(keys)
    case ExpireAt(key, deadline) =>
      var m' := Ejected(m, key, now);
      if key in m' then m'[key := m'[key].(expiresAt := Some(deadline))] else m'
    case _ => m
  }

  /** The keys of a list that are live, each counted once. */
  function LiveAmong(keys: seq<Bytes>, m: Store, now: u64): set<Bytes> {
    set k | k in keys && IsLive(m, k, now)
  }

  function WriteReply(c: Command, m: Store, now: u64): Response {
    match c
    case Del(keys) => Integer(AsI64(|LiveAmong(keys, m, now)|))
    case ExpireAt(key, _) => Integer(if IsLive(m, key, now) then 1 else 0)
    case _ => Ok
  }

  // ---------------------------------------------------------------------------------------
  // Reads
  // ---------------------------------------------------------------------------------------

  /** A reply as its reader takes it: GETALL lists pairs in no particular order. */
  datatype Reply = Exactly(response: Response) | AllPairs(pairs: map<Bytes, Bytes>)

  function GetReply(key: Bytes, m: Store, now: u64): Response {
    if IsLive(m, key, now) then Cstr(m[key].bytes) else Null
  }

  function GetReplies(keys: seq<Bytes>, m: Store, now: u64): (r: seq<Response>)
    ensures |r| == |keys|
    ensures forall i :: 0 <= i < |keys| ==> r[i] == GetReply(keys[i], m, now)
  {
    seq(|keys|, i requires 0 <= i < |keys| => GetReply(keys[i], m, now))
  }

  function TtlReply(key: Bytes, m: Store, now: u64): Response {
    if !IsLive(m, key, now) then Integer(-2)
    else match m[key].expiresAt case None => Integer(-1) case Some(deadline) => Integer(AsI64(deadline))
  }

  function ReadReply(c: Command, m: Store, now: u64): Reply {
    match c
    case Get(key) => Exactly(GetReply(key, m, now))
    case MGet(keys) => Exactly(Array(GetReplies(keys, m, now)))
    case Ttl(key) => Exactly(TtlReply(key, m, now))
    case _ => AllPairs(map k | k in Live(m, now) :: m[k].bytes)
  }

  function ReplyTo(c: Command, m: Store, now: u64): Reply {
    if IsWriteOp(c) then Exactly(WriteReply(c, m, now)) else ReadReply(c, m, now)
  }

  function PairResponse(key: Bytes, value: Bytes): Response {
    Array([Cstr(key), Cstr(value)])
  }

  /** `r` is the reply; for GETALL it lists every live pair exactly once. */
  ghost predicate Answers(r: Response, reply: Reply) {
    match reply
    case Exactly(response) => r == response
    case AllPairs(pairs) =>
      r.Array? && multiset(r.items) == multiset(set k | k in pairs :: PairResponse(k, pairs[k]))
  }

  // ---------------------------------------------------------------------------------------
  // One key at a time
  // ---------------------------------------------------------------------------------------

  /** What is visible under one key. */
  function View(m: Store, k: Bytes, now: u64): Option<StoredValue> {
    if IsLive(m, k, now) then Some(m[k]) else None
  }

  function AsOf(v: Option<StoredValue>, t: u64): Option<StoredValue> {
    if v.Some? && !IsExpired(v.value, t) then v else None
  }

  predicate Writes(c: Command, k: Bytes) {
    match c
    case Set(key, _) => key == k
    case MSet(entries) => exists i :: 0 <= i < |entries| && entries[i].0 == k
    case _ => false
  }

  /** The value a write command leaves under a key: the last one in its list. */
  function Written(c: Command, k: Bytes): Bytes
    requires Writes(c, k)
  {
    match c
    case Set(_, value) => value
    case MSet(entries) => LastValue(entries, k)
  }

  function LastValue(entries: seq<(Bytes, Bytes)>, k: Bytes): Bytes
    requires exists i :: 0 <= i < |entries| && entries[i].0 == k
  {
    var last := entries[|entries| - 1];
    if last.0 == k then last.1 else LastValue(entries[..|entries| - 1], k)
  }

  predicate Deletes(c: Command, k: Bytes) {
    c.Del? && k in c.keys
  }

  predicate Expires(c: Command, k: Bytes) {
    c.ExpireAt? && c.key == k
  }

  /** What a command makes of the visible value of a key, were deadlines never over. */
  function Evolve(c: Command, k: Bytes, v: Option<StoredValue>): Option<StoredValue> {
    if Writes(c, k) then Some(Fresh(Written(c, k)))
    else if Deletes(c, k) then None
    else if Expires(c, k) && v.Some? then Some(v.value.(expiresAt := Some(c.deadline)))
    else v
  }

  /** MSET is the fold from left to right: the last duplicate wins, deadlines are cleared and
      other keys are untouched. */
  lemma {:induction false} PutAllMeaning(m: Store, entries: seq<(Bytes, Bytes)>, k: Bytes)
    ensures var r := PutAll(m, entries);
            if Writes(MSet(entries), k) then k in r && r[k] == Fresh(Written(MSet(entries), k))
            else (k in r <==> k in m) && (k in m ==> r[k] == m[k])
  {
    if entries != [] {
      var front, last := entries[..|entries| - 1], entries[|entries| - 1];
      PutAllMeaning(m, front, k);
      if last.0 != k && Writes(MSet(entries), k) {
        var i :| 0 <= i < |entries| && entries[i].0 == k;
        assert front[i].0 == k;
      }
      assert forall i :: 0 <= i < |front| ==> front[i] == entries[i];
    }
  }

  /** The visible value of a key at time `t`, after a command at an earlier or equal time. */
  lemma StepView(c: Command, m: Store, k: Bytes, now: u64, t: u64)
    requires now <= t
    ensures View(Effect(c, m, now), k, t) == AsOf(Evolve(c, k, View(m, k, now)), t)
  {
    match c {
      case MSet(entries) => PutAllMeaning(m, entries, k);
      case _ =>
    }
  }

  /** What is visible later is what is visible now, less what expires in between. */
  lemma ViewLater(m: Store, k: Bytes, now: u64, t: u64)
    requires now <= t
    ensures View(m, k, t) == AsOf(View(m, k, now), t)
  {
  }

  lemma LiveByView(m: Store, m': Store, now: u64)
    ensures Live(m, now) == Live(m', now) <==> forall k :: View(m, k, now) == View(m', k, now)
  {
    var l, l' := Live(m, now), Live(m', now);
    if l == l' {
      forall k
        ensures View(m, k, now) == View(m', k, now)
      {
        assert k in l <==> k in l';
        assert k in l ==> l[k] == l'[k];
      }
    }
    if forall k :: View(m, k, now) == View(m', k, now) {
      forall k
        ensures k in l <==> k in l'
        ensures k in l ==> l[k] == l'[k]
      {
        assert View(m, k, now) == View(m', k, now);
      }
    }
  }

  /** No reply tells two stores with the same live part from one another. */
  lemma ReplyFromLive(c: Command, m: Store, m': Store, now: u64)
    requires Live(m, now) == Live(m', now)
    ensures ReplyTo(c, m, now) == ReplyTo(c, m', now)
  {
    LiveByView(m, m', now);
    assert forall k :: View(m, k, now) == View(m', k, now);
    match c {
      case Del(keys) =>
        forall k
          ensures IsLive(m, k, now) == IsLive(m', k, now)
        {
          assert View(m, k, now) == View(m', k, now);
        }
        assert LiveAmong(keys, m, now) == LiveAmong(keys, m', now);
      case MGet(keys) =>
        forall i | 0 <= i < |keys|
          ensures GetReply(keys[i], m, now) == GetReply(keys[i], m', now)
        {
          assert View(m, keys[i], now) == View(m', keys[i], now);
        }
        assert GetReplies(keys, m, now) == GetReplies(keys, m', now);
      case GetAll =>
        forall k | k in Live(m, now)
          ensures k in m && k in m' && m[k].bytes == m'[k].bytes
        {
          assert View(m, k, now) == View(m', k, now);
        }
        assert (map k | k in Live(m, now) :: m[k].bytes) == (map k | k in Live(m', now) :: m'[k].bytes);
      case Get(key) => assert View(m, key, now) == View(m', key, now);
      case Ttl(key) => assert View(m, key, now) == View(m', key, now);
      case ExpireAt(key, _) => assert View(m, key, now) == View(m', key, now);
      case _ =>
    }
  }

  /** TTL reports the deadline exactly below 2^63. From there on the report is negative, and the
      largest two deadlines read as `no deadline` and `no such key`. */
  lemma TtlReport(key: Bytes, m: Store, now: u64)
    requires IsLive(m, key, now) && m[key].expiresAt.Some?
    ensures var deadline := m[key].expiresAt.value;
            var report := TtlReply(key, m, now);
            && report.Integer?
            && (report.n == deadline <==> deadline < WORD / 2)
            && (report.n < 0 <==> deadline >= WORD / 2)
            && (report.n == -1 <==> deadline == WORD - 1)
            && (report.n == -2 <==> deadline == WORD - 2)
  {
  }
}
