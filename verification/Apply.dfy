/** Commands applied to the hash table. Each method is proved against what the command means on
    the finite map that the table denotes. */
module Apply {
  import opened Prelude
  import opened Response
  import opened Command
  import opened Store
  import KS = KeyStore

  type Table = KS.KeyStore<Bytes, StoredValue>

  method EjectIfExpired(table: Table, key: Bytes, now: u64)
    requires table.Valid()
    modifies table`len, table`Contents, table.buckets
    ensures table.Valid() && table.Contents == Ejected(old(table.Contents), key, now)
  {
    var stored := table.Get(key);
    if stored.Some? && IsExpired(stored.value, now) {
      var _ := table.Del(key);
    }
  }

  /** The reply counts the distinct live keys of the list; exactly the listed keys are removed. */
  method ApplyDel(keys: seq<Bytes>, table: Table, now: u64) returns (r: Response)
    requires table.Valid()
    modifies table`len, table`Contents, table.buckets
    ensures table.Valid() && table.Contents == old(table.Contents) - KeysOf(keys)
    ensures r == Integer(AsI64(|LiveAmong(keys, old(table.Contents), now)|))
  {
    hide Ejected, LiveAmong, KeysOf;
    var count := 0;
    ghost var m := table.Contents;
    DelNone(m, now);
    for i := 0 to |keys|
      invariant table.Valid() && table.Contents == m - KeysOf(keys[..i])
      invariant count == |LiveAmong(keys[..i], m, now)|
    {
      DelOneMore(keys, i, m, now);
      EjectIfExpired(table, keys[i], now);
      var removed := table.Del(keys[i]);
      if removed.Some? {
        count := count + 1;
      }
    }
    assert keys[..|keys|] == keys;
    return Integer(AsI64(count));
  }

  lemma DelNone(m: Store, now: u64)
    ensures m - KeysOf([]) == m && LiveAmong([], m, now) == {}
  {
  }

  /** The next key of a DEL list counts if it is live and was not listed before. */
  lemma DelOneMore(keys: seq<Bytes>, i: nat, m: Store, now: u64)
    requires i < |keys|
    ensures var k, rest := keys[i], m - KeysOf(keys[..i]);
            var counts := k in Ejected(rest, k, now);
            && Ejected(rest, k, now) - {k} == m - KeysOf(keys[..i + 1])
            && |LiveAmong(keys[..i + 1], m, now)| == |LiveAmong(keys[..i], m, now)| + (if counts then 1 else 0)
  {
    hide KeysOf, LiveAmong;
    var k, listed := keys[i], KeysOf(keys[..i]);
    ListOneMore(keys, i, m, now);
    var rest := m - listed;
    assert rest - {k} == m - (listed + {k});
    assert Ejected(rest, k, now) - {k} == rest - {k};
    assert k in Ejected(rest, k, now) <==> IsLive(m, k, now) && k !in listed;
    var counted := LiveAmong(keys[..i], m, now);
    assert k in counted ==> counted + {k} == counted;
    assert k !in counted ==> |counted + {k}| == |counted| + 1;
  }

  lemma ListOneMore(keys: seq<Bytes>, i: nat, m: Store, now: u64)
    requires i < |keys|
    ensures KeysOf(keys[..i + 1]) == KeysOf(keys[..i]) + {keys[i]}
    ensures LiveAmong(keys[..i + 1], m, now) ==
            LiveAmong(keys[..i], m, now) + (if IsLive(m, keys[i], now) then {keys[i]} else {})
    ensures keys[i] in LiveAmong(keys[..i], m, now) <==> IsLive(m, keys[i], now) && keys[i] in KeysOf(keys[..i])
  {
    hide IsLive;
    assert keys[..i + 1] == keys[..i] + [keys[i]];
  }

  method ApplySet(key: Bytes, value: Bytes, table: Table) returns (r: Response)
    requires table.Valid()
    modifies table, table.buckets
    ensures table.Valid() && (table.buckets == old(table.buckets) || fresh(table.buckets))
    ensures table.Contents == old(table.Contents)[key := Fresh(value)] && r == Ok
  {
    var _ := table.Insert(key, Fresh(value));
    return Ok;
  }

  method ApplyMSet(entries: seq<(Bytes, Bytes)>, table: Table) returns (r: Response)
    requires table.Valid()
    modifies table, table.buckets
    ensures table.Valid() && (table.buckets == old(table.buckets) || fresh(table.buckets))
    ensures table.Contents == PutAll(old(table.Contents), entries) && r == Ok
  {
    for i := 0 to |entries|
      invariant table.Valid() && (table.buckets == old(table.buckets) || fresh(table.buckets))
      invariant table.Contents == PutAll(old(table.Contents), entries[..i])
    {
      assert entries[..i + 1][..i] == entries[..i];
      var _ := table.Insert(entries[i].0, Fresh(entries[i].1));
    }
    assert entries[..|entries|] == entries;
    return Ok;
  }

  method ApplyExpireAt(key: Bytes, deadline: u64, table: Table, now: u64) returns (r: Response)
    requires table.Valid()
    modifies table`len, table`Contents, table.buckets
    ensures table.Valid() && table.Contents == Effect(ExpireAt(key, deadline), old(table.Contents), now)
    ensures r == Integer(if IsLive(old(table.Contents), key, now) then 1 else 0)
  {
    EjectIfExpired(table, key, now);
    var found := table.GetMut(key, (value: StoredValue) => value.(expiresAt := Some(deadline)));
    return Integer(if found then 1 else 0);
  }

  method ApplyWrite(c: Command, table: Table, now: u64) returns (r: Response)
    requires table.Valid() && IsWriteOp(c)
    modifies table, table.buckets
    ensures table.Valid() && (table.buckets == old(table.buckets) || fresh(table.buckets))
    ensures table.Contents == Effect(c, old(table.Contents), now)
    ensures r == WriteReply(c, old(table.Contents), now)
  {
    WriteOps(c);
    match c {
      case Del(keys) => r := ApplyDel(keys, table, now);
      case Set(key, value) => r := ApplySet(key, value, table);
      case MSet(entries) => r := ApplyMSet(entries, table);
      case ExpireAt(key, deadline) => r := ApplyExpireAt(key, deadline, table, now);
    }
  }

  method ApplyGet(key: Bytes, table: Table, now: u64) returns (r: Response)
    requires table.Valid()
    ensures r == GetReply(key, table.Contents, now)
  {
    var stored := table.Get(key);
    if stored.Some? && !IsExpired(stored.value, now) {
      return Cstr(stored.value.bytes);
    }
    return Null;
  }

  method ApplyMGet(keys: seq<Bytes>, table: Table, now: u64) returns (r: Response)
    requires table.Valid()
    ensures r == Array(GetReplies(keys, table.Contents, now))
  {
    var items := [];
    for i := 0 to |keys|
      invariant items == GetReplies(keys[..i], table.Contents, now)
    {
      var item := ApplyGet(keys[i], table, now);
      items := items + [item];
    }
    assert keys[..|keys|] == keys;
    return Array(items);
  }

  method ApplyTtl(key: Bytes, table: Table, now: u64) returns (r: Response)
    requires table.Valid()
    ensures r == TtlReply(key, table.Contents, now)
  {
    var stored := table.Get(key);
    if stored.None? || IsExpired(stored.value, now) {
      return Integer(-2);
    }
    match stored.value.expiresAt {
      case None => return Integer(-1);
      case Some(deadline) => return Integer(AsI64(deadline));
    }
  }

  /** The live ones of the iterated pairs, as responses. */
  function Rendered(pairs: seq<(Bytes, StoredValue)>, now: u64): seq<Response> {
    if pairs == [] then []
    else
      var (k, v) := pairs[|pairs| - 1];
      Rendered(pairs[..|pairs| - 1], now) + (if IsExpired(v, now) then [] else [PairResponse(k, v.bytes)])
  }

  ghost function LivePairs(m: Store, now: u64): set<Response> {
    set k | k in m && !IsExpired(m[k], now) :: PairResponse(k, m[k].bytes)
  }

  /** An iteration that yields every stored pair once renders every live pair once. */
  lemma {:induction false} RenderedOnce(pairs: seq<(Bytes, StoredValue)>, m: Store, now: u64)
    requires multiset(pairs) == multiset(m.Items)
    ensures multiset(Rendered(pairs, now)) == multiset(LivePairs(m, now))
    decreases |pairs|
  {
    hide LivePairs;
    if pairs == [] {
      KS.NoPairs(pairs, m);
      NoLivePairs(now);
    } else {
      var k := pairs[|pairs| - 1].0;
      KS.LastPair(pairs, m);
      RenderedOnce(pairs[..|pairs| - 1], m - {k}, now);
      LivePairsWithout(m, k, now);
    }
  }

  lemma NoLivePairs(now: u64)
    ensures LivePairs(map[], now) == {}
  {
  }

  lemma LivePairsWithout(m: Store, k: Bytes, now: u64)
    requires k in m
    ensures multiset(LivePairs(m, now)) ==
            multiset(LivePairs(m - {k}, now)) +
            (if IsExpired(m[k], now) then multiset{} else multiset{PairResponse(k, m[k].bytes)})
  {
    var m' := m - {k};
    var all, rest, own := LivePairs(m, now), LivePairs(m', now), PairResponse(k, m[k].bytes);
    forall r | r in rest
      ensures r in all && r != own
    {
      var j :| j in m' && !IsExpired(m'[j], now) && r == PairResponse(j, m'[j].bytes);
      assert j in m && m[j] == m'[j];
      assert r.items[0] == Cstr(j) && own.items[0] == Cstr(k);
    }
    forall r | r in all
      ensures r in rest || (r == own && !IsExpired(m[k], now))
    {
      var j :| j in m && !IsExpired(m[j], now) && r == PairResponse(j, m[j].bytes);
      if j != k {
        assert j in m' && m'[j] == m[j];
      }
    }
    assert all == if IsExpired(m[k], now) then rest else rest + {own};
  }

  /** GETALL lists each live pair exactly once. */
  method ApplyGetAll(table: Table, now: u64) returns (r: Response)
    requires table.Valid()
    ensures Answers(r, ReadReply(GetAll, table.Contents, now))
  {
    hide KS.Pairs;
    var pairs := table.Iter();
    var items := [];
    for i := 0 to |pairs|
      invariant items == Rendered(pairs[..i], now)
    {
      assert pairs[..i + 1][..i] == pairs[..i];
      var (key, value) := pairs[i];
      if !IsExpired(value, now) {
        items := items + [PairResponse(key, value.bytes)];
      }
    }
    assert pairs[..|pairs|] == pairs;
    RenderedOnce(pairs, table.Contents, now);
    AllPairsAreLive(table.Contents, now);
    return Array(items);
  }

  lemma AllPairsAreLive(m: Store, now: u64)
    ensures var pairs := ReadReply(GetAll, m, now).pairs;
            (set k | k in pairs :: PairResponse(k, pairs[k])) == LivePairs(m, now)
  {
    var pairs := ReadReply(GetAll, m, now).pairs;
    assert forall k :: k in pairs <==> k in m && !IsExpired(m[k], now);
    assert forall k :: k in pairs ==> pairs[k] == m[k].bytes;
    forall r
      ensures r in (set k | k in pairs :: PairResponse(k, pairs[k])) <==> r in LivePairs(m, now)
    {
    }
  }

  method ApplyRead(c: Command, table: Table, now: u64) returns (r: Response)
    requires table.Valid() && !IsWriteOp(c)
    ensures Answers(r, ReadReply(c, table.Contents, now))
  {
    WriteOps(c);
    match c {
      case Get(key) => r := ApplyGet(key, table, now);
      case MGet(keys) => r := ApplyMGet(keys, table, now);
      case GetAll => r := ApplyGetAll(table, now);
      case Ttl(key) => r := ApplyTtl(key, table, now);
    }
  }
}
