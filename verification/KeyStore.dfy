/** The Robin Hood hash table: probing insertion with displacement, deletion by backward shift,
    early-stopping lookup and doubling at three quarters load. Every method is proved against
    the finite map `Contents`, for every hash function. */
module KeyStore {
  import opened Prelude
  import opened Bits
  import opened RobinHood

  const START_CAPACITY := 16

  /** Masking the probe sum by the capacity steps round the table from the home bucket, and
      adding modulo 2^64 first, as a release build does, selects the same bucket. */
  lemma ProbeIndex(hash: u64, psl: nat, capacity: nat)
    requires IsPow2(capacity) && psl < capacity
    ensures BitAnd(hash + psl, capacity - 1) == Around(Home(hash, capacity), psl, capacity)
    ensures capacity <= WORD ==> BitAnd((hash + psl) % WORD, capacity - 1) == BitAnd(hash + psl, capacity - 1)
  {
    MaskIsRemainder(hash, capacity);
    MaskIsRemainder(hash + psl, capacity);
    MaskIsRemainder((hash + psl) % WORD, capacity);
    SumRemainder(hash, psl, capacity);
    if capacity <= WORD {
      WrappingKeepsRemainder(hash + psl, capacity);
    }
  }

  lemma SumRemainder(h: nat, d: nat, n: nat)
    requires d < n
    ensures (h + d) % n == Around(h % n, d, n)
  {
    var q, r := h / n, h % n;
    assert h == n * q + r;
    if r + d < n {
      QuotientUnique(h + d, n, q, r + d);
    } else {
      assert n * (q + 1) == n * q + n;
      QuotientUnique(h + d, n, q + 1, r + d - n);
    }
  }

  /** The occupied slots of a bucket array, in slot order, as `iter` yields them. */
  function Pairs<K, V>(b: Table<K, V>): seq<(K, V)> {
    if b == [] then []
    else
      Pairs(b[..|b| - 1]) +
      match b[|b| - 1]
      case None => []
      case Some(e) => [(e.key, e.value)]
  }

  lemma LayoutIsDistinct<K, V>(b: Table<K, V>, hash: K -> u64)
    requires Layout(b, hash)
    ensures Distinct(b)
  {
  }

  /** Iteration yields every stored pair exactly once. */
  lemma {:induction false} PairsListMap<K, V>(b: Table<K, V>, m: map<K, V>)
    requires Distinct(b) && Denotes(b, m)
    ensures multiset(Pairs(b)) == multiset(m.Items)
  {
    if b == [] {
      assert forall k :: k in m ==> Holds(b, k);
      assert m == map[];
    } else {
      var last := b[|b| - 1];
      DropLast(b, m);
      PairsListMap(b[..|b| - 1], Without(m, last));
      DenotesAt(b, m, |b| - 1);
      match last {
        case None =>
        case Some(e) => ItemsWithout(m, e.key);
      }
    }
  }

  lemma ItemsWithout<K, V>(m: map<K, V>, k: K)
    requires k in m
    ensures multiset(m.Items) == multiset((m - {k}).Items) + multiset{(k, m[k])}
  {
    forall p | p in m.Items
      ensures p in (m - {k}).Items + {(k, m[k])}
    {
      assert p.0 != k ==> p.0 in m - {k} && (m - {k})[p.0] == p.1;
    }
    assert m.Items == (m - {k}).Items + {(k, m[k])};
    assert (k, m[k]) !in (m - {k}).Items;
  }

  /** Taking the last pair off a listing of a map leaves a listing of the map without its key. */
  lemma LastPair<K, V>(pairs: seq<(K, V)>, m: map<K, V>)
    requires pairs != [] && multiset(pairs) == multiset(m.Items)
    ensures var (k, v) := pairs[|pairs| - 1];
            k in m && m[k] == v && multiset(pairs[..|pairs| - 1]) == multiset((m - {k}).Items)
  {
    var front, last := pairs[..|pairs| - 1], pairs[|pairs| - 1];
    assert pairs == front + [last];
    assert last in multiset(m.Items);
    assert last in m.Items && last == (last.0, m[last.0]);
    ItemsWithout(m, last.0);
    assert multiset(pairs) == multiset(front) + multiset{last};
    assert multiset(front) == multiset(pairs) - multiset{last};
  }

  lemma NoPairs<K, V>(pairs: seq<(K, V)>, m: map<K, V>)
    requires pairs == [] && multiset(pairs) == multiset(m.Items)
    ensures m == map[]
  {
    assert |m.Items| == |multiset(m.Items)| == 0;
    SomeItem(m);
  }

  lemma SomeItem<K, V>(m: map<K, V>)
    ensures m != map[] ==> m.Items != {}
  {
    if m != map[] {
      assert m.Keys != {};
      var k :| k in m.Keys;
      assert (k, m[k]) in m.Items;
    }
  }

  class KeyStore<K(==), V(==)> {
    const hasher: K -> u64
    var len: nat
    var buckets: array<Option<Entry<K, V>>>
    ghost var Contents: map<K, V>
    /** The largest size so far. */
    ghost var peak: nat

    /** Everything but the load bound, which `Insert` exceeds for a moment. */
    ghost predicate Sound()
      reads this, buckets
    {
      && START_CAPACITY <= buckets.Length && IsPow2(buckets.Length)
      && Layout(buckets[..], hasher)
      && Denotes(buckets[..], Contents)
      && len == |Contents|
    }

    ghost predicate Valid()
      reads this, buckets
    {
      Sound() && 4 * len < 3 * buckets.Length && len <= peak && SizedFor(peak, buckets.Length)
    }

    constructor (hasher: K -> u64)
      ensures Valid() && fresh(buckets)
      ensures Contents == map[] && peak == 0 && buckets.Length == 16 && this.hasher == hasher
    {
      this.hasher := hasher;
      len := 0;
      buckets := new Option<Entry<K, V>>[START_CAPACITY](_ => None);
      Contents := map[];
      peak := 0;
      new;
      assert IsPow2(2) && IsPow2(4) && IsPow2(8);
    }

    method Put(index: nat, slot: Option<Entry<K, V>>)
      requires index < buckets.Length
      modifies buckets
      ensures buckets[..] == old(buckets[..])[index := slot]
    {
      buckets[index] := slot;
    }

    /** The entry of bucket `next`, demoted, swaps places with the hole before it. */
    method PullBack(idx: nat, next: nat, x: Entry<K, V>)
      requires idx < buckets.Length && next < buckets.Length && idx != next
      requires buckets[idx].None? && buckets[next] == Some(x) && 0 < x.psl
      modifies buckets
      ensures buckets[..] == old(buckets[..])[idx := Some(Demoted(x))][next := None]
    {
      buckets[next] := Some(Demoted(x));
      SwapSlots(idx, next);
    }

    method SwapSlots(i: nat, j: nat)
      requires i < buckets.Length && j < buckets.Length
      modifies buckets
      ensures buckets[..] == old(buckets[..])[i := old(buckets[j])][j := old(buckets[i])]
    {
      buckets[i], buckets[j] := buckets[j], buckets[i];
    }

    method GetBucketIndex(hash: u64, psl: nat) returns (index: nat)
      requires IsPow2(buckets.Length) && psl < buckets.Length
      ensures index == Around(Home(hash, buckets.Length), psl, buckets.Length)
    {
      index := BitAnd(hash + psl, buckets.Length - 1);
      ProbeIndex(hash, psl, buckets.Length);
    }

    method NextIndex(index: nat) returns (next: nat)
      requires IsPow2(buckets.Length) && index < buckets.Length
      ensures next == Around(index, 1, buckets.Length)
    {
      var mask := buckets.Length - 1;
      next := BitAnd(index + 1, mask);
      NextSlot(index, buckets.Length);
    }

    /** Lookup of a slot, stopping at the first empty or richer slot. */
    method IndexOf(key: K) returns (r: Option<nat>)
      requires Valid()
      ensures r.None? <==> key !in Contents
      ensures r.Some? ==>
                r.value < buckets.Length && Stores(buckets[..], r.value, key)
                && buckets[r.value].value.value == Contents[key]
    {
      hide BitAnd, Layout, Denotes, Distinct, Placed, Ordered;
      ghost var b, n := buckets[..], buckets.Length;
      ghost var z := EmptySlot(b, hasher, Contents);
      var hash := hasher(key);
      var psl := 0;
      while true
        invariant psl < n
        invariant forall j :: 0 <= j < psl ==> Misses(b, hasher, key, j)
        decreases n - psl
      {
        var index := GetBucketIndex(hash, psl);
        match buckets[index] {
          case None =>
            EarlyStop(b, hasher, key, psl);
            AbsentKey(b, Contents, key);
            return None;
          case Some(e) =>
            if e.psl < psl {
              EarlyStop(b, hasher, key, psl);
              AbsentKey(b, Contents, key);
              return None;
            }
            if e.hash == hash && e.key == key {
              DenotesAt(b, Contents, index);
              assert Stores(b, index, key);
              return Some(index);
            }
        }
        NextMiss(b, hasher, key, psl, z);
        psl := psl + 1;
      }
    }

    method Get(key: K) returns (r: Option<V>)
      requires Valid()
      ensures r == if key in Contents then Some(Contents[key]) else None
    {
      var index := IndexOf(key);
      match index {
        case None => return None;
        case Some(i) => return Some(buckets[i].value.value);
      }
    }

    /** `get_mut` lends out one value; `update` is what the borrower makes of it. */
    method GetMut(key: K, update: V -> V) returns (found: bool)
      requires Valid()
      modifies this`Contents, buckets
      ensures Valid()
      ensures found <==> key in old(Contents)
      ensures Contents == if found then old(Contents)[key := update(old(Contents)[key])] else old(Contents)
    {
      var index := IndexOf(key);
      match index {
        case None => return false;
        case Some(i) =>
          Assign(i, update(buckets[i].value.value));
          return true;
      }
    }

    /** Replaces the value of an occupied bucket. */
    method Assign(i: nat, value: V)
      requires Valid() && i < buckets.Length && buckets[i].Some?
      modifies this`Contents, buckets
      ensures Valid() && old(buckets[i].value.key) in old(Contents)
      ensures Contents == old(Contents)[old(buckets[i].value.key) := value]
    {
      var e := buckets[i].value;
      Revalue(buckets[..], hasher, Contents, i, value);
      Put(i, Some(e.(value := value)));
      Contents := Contents[e.key := value];
      assert Contents.Keys == old(Contents).Keys;
    }

    /** Every stored pair, each once, in slot order. */
    method Iter() returns (pairs: seq<(K, V)>)
      requires Valid()
      ensures pairs == Pairs(buckets[..])
      ensures multiset(pairs) == multiset(Contents.Items)
    {
      hide Layout;
      pairs := [];
      for i := 0 to buckets.Length
        invariant pairs == Pairs(buckets[..i])
      {
        assert buckets[..i + 1][..i] == buckets[..i];
        match buckets[i] {
          case None =>
          case Some(e) => pairs := pairs + [(e.key, e.value)];
        }
      }
      assert buckets[..buckets.Length] == buckets[..];
      LayoutIsDistinct(buckets[..], hasher);
      PairsListMap(buckets[..], Contents);
    }

    method Insert(key: K, value: V) returns (r: Option<V>)
      requires Valid()
      modifies this, buckets
      ensures Valid() && (buckets == old(buckets) || fresh(buckets))
      ensures Contents == old(Contents)[key := value]
      ensures r == if key in old(Contents) then Some(old(Contents)[key]) else None
      ensures Grown(old(buckets.Length), buckets.Length, |Contents|)
      ensures peak == Larger(old(peak), |Contents|)
    {
      hide BitAnd, IsPow2, Layout, Denotes, Distinct, Placed, Ordered, SizedFor, Grown, Larger;
      ghost var m, m0 := Contents, Contents;
      ghost var z := EmptySlot(buckets[..], hasher, m);
      ghost var displaced := false;
      var entry := Entry(key, value, 0, hasher(key));
      var index: nat := GetBucketIndex(entry.hash, entry.psl);
      while true
        invariant buckets == old(buckets) && Contents == m0 && len == old(len) && peak == old(peak)
        invariant InFlight(buckets[..], hasher, m, entry, index, z)
        // the table with the entry in flight is the old map with the new pair
        invariant m[entry.key := entry.value] == m0[key := value]
        // before the first swap the key has only been missed; from then on it was absent
        invariant if displaced then key !in m0 && entry.key !in m
                  else m == m0 && entry.key == key && Searched(buckets[..], hasher, key, entry.psl)
        decreases Distance(index, z, buckets.Length)
      {
        ghost var b := buckets[..];
        if Psl(b, index) < entry.psl && !displaced {
          EarlyStop(b, hasher, key, entry.psl);
          AbsentKey(b, m, key);
        }
        match buckets[index] {
          case None =>
            assert |m[entry.key := entry.value]| == |m| + 1;
            Land(index, entry, m);
            return None;
          case Some(e) =>
            DenotesAt(b, m, index);
            if e.hash == entry.hash && e.key == entry.key {
              Assign(index, entry.value);
              NoGrowth(len, peak, buckets.Length);
              return Some(e.value);
            }
            if !displaced && entry.psl <= e.psl {
              NextMiss(b, hasher, key, entry.psl, z);
            }
            displaced := displaced || e.psl < entry.psl;
            entry, m := SwapRicher(index, entry, m, z);
        }
        index := GetBucketIndex(entry.hash, entry.psl);
      }
    }

    /** An entry in flight meets an occupied bucket: it trades places with a richer entry, and
        whichever of the two is left in flight goes on to the next bucket. */
    method SwapRicher(index: nat, entry: Entry<K, V>, ghost m: map<K, V>, ghost z: nat)
      returns (next: Entry<K, V>, ghost m': map<K, V>)
      requires InFlight(buckets[..], hasher, m, entry, index, z) && buckets[index].Some?
      requires buckets[index].value.psl < entry.psl ==> entry.key !in m
      modifies buckets
      ensures InFlight(buckets[..], hasher, m', next, Around(index, 1, buckets.Length), z)
      ensures Distance(Around(index, 1, buckets.Length), z, buckets.Length) < Distance(index, z, buckets.Length)
      ensures m'[next.key := next.value] == m[entry.key := entry.value]
      ensures if old(buckets[index]).value.psl < entry.psl
              then next.key !in m' && buckets[..] == old(buckets[..])[index := Some(entry)]
              else next == entry.(psl := entry.psl + 1) && m' == m && buckets[..] == old(buckets[..])
    {
      var e := buckets[index].value;
      next, m' := entry, m;
      if e.psl < entry.psl {
        Settle(buckets[..], hasher, m, index, entry);
        m' := Without(m, buckets[index])[entry.key := entry.value];
        Put(index, Some(entry));
        next := e;
      }
      NextProbe(buckets[..], hasher, index, next, z);
      next := next.(psl := next.psl + 1);
    }

    /** The last step of an insertion: the entry in flight takes an empty bucket. */
    method Land(index: nat, entry: Entry<K, V>, ghost m: map<K, V>)
      requires SizedFor(peak, buckets.Length) && 4 * len < 3 * buckets.Length && len <= peak
      requires Layout(buckets[..], hasher) && Denotes(buckets[..], m) && len == |m|
      requires index < buckets.Length && buckets[index].None? && entry.key !in m
      requires Sits(entry, index, buckets.Length, hasher) && Fits(buckets[..], index, entry.psl)
      modifies this, buckets
      ensures Valid() && (buckets == old(buckets) || fresh(buckets))
      ensures Contents == m[entry.key := entry.value]
      ensures Grown(old(buckets.Length), buckets.Length, |Contents|)
      ensures peak == Larger(old(peak), |Contents|)
    {
      hide ShouldResize, IsPow2, Layout, Denotes;
      Settle(buckets[..], hasher, m, index, entry);
      Put(index, Some(entry));
      len := len + 1;
      Contents := m[entry.key := entry.value];
      GrowthFits(peak, len, buckets.Length);
      peak := Larger(peak, len);
      if ShouldResize(len, buckets.Length) {
        Resize();
      }
    }

    /** Insertion that compares no keys, for an entry whose key is known to be absent. */
    method InsertEntry(newEntry: Entry<K, V>, ghost known: map<K, V>)
      requires IsPow2(buckets.Length) && Layout(buckets[..], hasher) && Denotes(buckets[..], known)
      requires |known| < buckets.Length
      requires newEntry.key !in known && newEntry.hash == hasher(newEntry.key)
      modifies buckets
      ensures Layout(buckets[..], hasher)
      ensures Denotes(buckets[..], known[newEntry.key := newEntry.value])
    {
      ghost var m := known;
      ghost var z := EmptySlot(buckets[..], hasher, m);
      var entry := newEntry.(psl := 0);
      ghost var at: nat := Home(entry.hash, buckets.Length);
      while true
        invariant InFlight(buckets[..], hasher, m, entry, at, z) && entry.key !in m
        invariant m[entry.key := entry.value] == known[newEntry.key := newEntry.value]
        decreases Distance(at, z, buckets.Length)
      {
        var index := GetBucketIndex(entry.hash, entry.psl);
        if buckets[index].None? {
          Settle(buckets[..], hasher, m, index, entry);
          Put(index, Some(entry));
          return;
        }
        entry, m := SwapRicher(index, entry, m, z);
        at := Around(index, 1, buckets.Length);
      }
    }

    /** Reinserts every entry into an array twice as large. */
    method Resize()
      requires Sound()
      modifies this`buckets
      ensures Sound() && fresh(buckets) && buckets.Length == 2 * old(buckets.Length)
    {
      hide BitAnd, Denotes;
      var oldBuckets := buckets;
      ghost var b := oldBuckets[..];
      var newCapacity := buckets.Length * 2;
      buckets := new Option<Entry<K, V>>[newCapacity](_ => None);
      ghost var m: map<K, V> := map[];
      EmptyTable(buckets[..], hasher);
      NoSlots(b[..0]);
      for i := 0 to oldBuckets.Length
        invariant fresh(buckets) && buckets.Length == newCapacity && IsPow2(newCapacity)
        invariant oldBuckets[..] == b
        invariant Layout(buckets[..], hasher) && Denotes(buckets[..], m)
        invariant Denotes(b[..i], m) && |m| <= i
      {
        GrowPrefix(b, i, m);
        match oldBuckets[i] {
          case None =>
          case Some(e) =>
            assert InPlace(b, hasher, i);
            InsertEntry(e, m);
            m := m[e.key := e.value];
        }
      }
      assert b[..|b|] == b;
      DenotesOne(b, m, Contents);
    }

    /** Deletion searches as a lookup does, then closes the gap. */
    method Del(key: K) returns (r: Option<V>)
      requires Valid()
      modifies this`len, this`Contents, buckets
      ensures Valid()
      ensures r == if key in old(Contents) then Some(old(Contents)[key]) else None
      ensures Contents == old(Contents) - {key}
      ensures r.None? ==> buckets[..] == old(buckets[..])
      ensures r.Some? ==> Removed(old(buckets[..]), buckets[..], key)
    {
      hide Layout, Denotes, Removed;
      var found := IndexOf(key);
      match found {
        case None => return None;
        case Some(index) =>
          ghost var z := EmptySlot(buckets[..], hasher, Contents);
          var e := buckets[index].value;
          Remove(index, e, z);
          return Some(e.value);
      }
    }

    /** The inner part of deletion: empty the slot, then shift the following run back. */
    method Remove(index: nat, e: Entry<K, V>, ghost z: nat)
      requires Valid() && index < buckets.Length && buckets[index] == Some(e)
      requires z < buckets.Length && buckets[z].None?
      modifies this`len, this`Contents, buckets
      ensures Valid() && Contents == old(Contents) - {e.key}
      ensures Removed(old(buckets[..]), buckets[..], e.key)
    {
      hide BitAnd, IsPow2, Layout, Denotes, Removed, Closing, SizedFor;
      ghost var before, g := buckets[..], e;
      ghost var run: nat := 0;
      ClosingStarts(before, hasher, Contents, index, e, z);
      Put(index, None);
      len := len - 1;
      Contents := Contents - {e.key};
      var idx: nat := index;
      while true
        invariant len == |Contents| && Contents == old(Contents) - {e.key}
        invariant idx < buckets.Length && buckets[idx].None?
        invariant Closing(before, buckets[..], hasher, Contents, index, idx, run, g, z)
        decreases Distance(idx, z, buckets.Length)
      {
        var next := NextIndex(idx);
        if buckets[next].None? || buckets[next].value.psl == 0 {
          ClosingEnds(before, buckets[..], hasher, Contents, index, idx, run, g, z);
          return;
        }
        var x := buckets[next].value;
        ClosingStep(before, buckets[..], hasher, Contents, index, idx, run, g, z, x);
        PullBack(idx, next, x);
        idx, run, g := next, run + 1, x;
      }
    }
  }

  // ---------------------------------------------------------------------------------------
  // Capacity
  // ---------------------------------------------------------------------------------------

  /** The capacity of a table that has never held more than `peak` entries: the smallest that the
      load test lets it keep. */
  ghost predicate SizedFor(peak: nat, capacity: nat) {
    && START_CAPACITY <= capacity && IsPow2(capacity)
    && !ShouldResize(peak, capacity)
    && (START_CAPACITY < capacity ==> ShouldResize(peak, capacity / 2))
  }

  function Larger(a: nat, b: nat): nat {
    if a < b then b else a
  }

  /** The largest size determines the capacity. */
  lemma OneCapacity(peak: nat, a: nat, b: nat)
    requires SizedFor(peak, a) && SizedFor(peak, b)
    ensures a == b
  {
    hide IsPow2, ShouldResize;
    if a < b {
      SmallerIsFuller(peak, a, b);
    } else if b < a {
      SmallerIsFuller(peak, b, a);
    }
  }

  /** What fills half a table fills every smaller one. */
  lemma SmallerIsFuller(len: nat, a: nat, b: nat)
    requires IsPow2(a) && IsPow2(b) && START_CAPACITY <= a < b && ShouldResize(len, b / 2)
    ensures ShouldResize(len, a)
  {
    Pow2Gap(a, b);
    LoadTest(len, a);
    LoadTest(len, b / 2);
  }

  lemma MoreIsFuller(peak: nat, size: nat, capacity: nat)
    requires IsPow2(capacity) && START_CAPACITY < capacity && peak <= size && ShouldResize(peak, capacity / 2)
    ensures ShouldResize(size, capacity / 2)
  {
    LoadTest(peak, capacity / 2);
    LoadTest(size, capacity / 2);
  }

  /** One more entry, and the growth it may cause. */
  lemma GrowthFits(peak: nat, size: nat, capacity: nat)
    requires SizedFor(peak, capacity) && 0 < size <= peak + 1 && 4 * (size - 1) < 3 * capacity
    ensures var after := if ShouldResize(size, capacity) then 2 * capacity else capacity;
            SizedFor(Larger(peak, size), after) && 4 * size < 3 * after
    ensures ShouldResize(size, capacity) <==> 4 * size >= 3 * capacity - Early(capacity)
  {
    hide ShouldResize, IsPow2;
    Pow2Doubles(capacity);
    LoadTest(size, capacity);
    LoadTest(size, 2 * capacity);
    assert 2 * capacity / 2 == capacity;
    if size <= peak {
      LoadTest(peak, capacity);
    } else if START_CAPACITY < capacity {
      MoreIsFuller(peak, size, capacity);
    }
  }

  lemma NoGrowth(len: nat, peak: nat, capacity: nat)
    requires len <= peak && SizedFor(peak, capacity)
    ensures Grown(capacity, capacity, len) && Larger(peak, len) == peak
  {
    LoadTest(peak, capacity);
  }

  /** A capacity doubles when the table becomes three quarters full, less the share by which
      rounding brings this forward, and stays as it is otherwise. */
  ghost predicate Grown(before: nat, after: nat, size: nat) {
    after == if 4 * size >= 3 * before - Early(before) then 2 * before else before
  }

  /** A well-formed table with an empty slot, and an entry on its way that fits at slot `i`. */
  ghost predicate InFlight<K, V>(b: Table<K, V>, hash: K -> u64, m: map<K, V>, e: Entry<K, V>, i: nat, z: nat) {
    && Layout(b, hash) && Denotes(b, m)
    && z < |b| && b[z].None?
    && i < |b| && Sits(e, i, |b|, hash) && Fits(b, i, e.psl)
  }

  ghost predicate Searched<K, V>(b: Table<K, V>, hash: K -> u64, k: K, d: nat)
    requires d < |b|
  {
    forall j :: 0 <= j < d ==> Misses(b, hash, k, j)
  }

  lemma NextSlot(i: nat, n: nat)
    requires IsPow2(n) && i < n
    ensures BitAnd(i + 1, n - 1) == Around(i, 1, n)
  {
    MaskIsRemainder(i + 1, n);
    if i + 1 == n {
      QuotientUnique(i + 1, n, 1, 0);
    } else {
      QuotientUnique(i + 1, n, 0, i + 1);
    }
  }

  /** Going on one slot from a slot before `z`. */
  lemma Onward(i: nat, run: nat, z: nat, n: nat)
    requires i < n && run < n && z < n && Around(i, run, n) != z
    requires run + Distance(Around(i, run, n), z, n) == Distance(i, z, n)
    ensures run + 1 < n && Around(Around(i, run, n), 1, n) == Around(i, run + 1, n)
    ensures Distance(Around(i, run + 1, n), z, n) == Distance(Around(i, run, n), z, n) - 1
  {
  }

  /** The slots already moved back and the slots not reached yet. */
  ghost predicate Shifting<K, V>(before: Table<K, V>, b: Table<K, V>, i: nat, run: nat) {
    && |before| == |b| && i < |b| && run < |b|
    && (forall o :: 0 <= o < run ==> MovedBack(before, b, i, o))
    && (forall o :: run < o < |b| ==> Kept(before, b, i, o))
  }

  lemma ShiftStart<K, V>(before: Table<K, V>, i: nat)
    requires i < |before|
    ensures Shifting(before, before[i := None], i, 0)
  {
  }

  lemma ShiftTracked<K, V>(before: Table<K, V>, b: Table<K, V>, i: nat, run: nat,
                           idx: nat, next: nat, x: Entry<K, V>)
    requires Shifting(before, b, i, run) && run + 1 < |b|
    requires idx == Around(i, run, |b|) && next == Around(i, run + 1, |b|)
    requires b[next] == Some(x) && 0 < x.psl
    ensures Shifting(before, b[idx := Some(Demoted(x))][next := None], i, run + 1)
  {
    var b' := b[idx := Some(Demoted(x))][next := None];
    assert Kept(before, b, i, run + 1);
    forall o | 0 <= o < run + 1
      ensures MovedBack(before, b', i, o)
    {
      if o < run {
        assert MovedBack(before, b, i, o);
      }
    }
    forall o | run + 1 < o < |b|
      ensures Kept(before, b', i, o)
    {
      assert Kept(before, b, i, o);
    }
  }

  lemma ShiftComplete<K, V>(before: Table<K, V>, b: Table<K, V>, i: nat, run: nat)
    requires Shifting(before, b, i, run) && run + 1 < |b|
    requires Psl(b, Around(i, run + 1, |b|)) <= 0 && b[Around(i, run, |b|)].None?
    requires before[i].Some?
    ensures Removed(before, b, before[i].value.key)
  {
    assert Kept(before, b, i, run + 1);
    assert Stores(before, i, before[i].value.key) && ShiftedBack(before, b, i, run);
  }

  /** A deletion under way: the hole has moved `run` slots from `index` to `idx`, and the table
      would be in order if `g` filled it. */
  ghost predicate Closing<K, V>(before: Table<K, V>, b: Table<K, V>, hash: K -> u64, m: map<K, V>,
                                index: nat, idx: nat, run: nat, g: Entry<K, V>, z: nat) {
    && Shifting(before, b, index, run) && before[index].Some?
    && idx == Around(index, run, |b|) && b[idx].None? && Ordered(b[idx := Some(g)])
    && Placed(b, hash) && Distinct(b) && Denotes(b, m)
    && z < |b| && b[z].None? && idx != z
    && run + Distance(idx, z, |b|) == Distance(index, z, |b|)
  }

  lemma ClosingStarts<K, V>(before: Table<K, V>, hash: K -> u64, m: map<K, V>, index: nat, e: Entry<K, V>, z: nat)
    requires Layout(before, hash) && Denotes(before, m) && index < |before| && before[index] == Some(e)
    requires z < |before| && before[z].None?
    ensures Closing(before, before[index := None], hash, m - {e.key}, index, index, 0, e, z)
    ensures |m - {e.key}| == |m| - 1
  {
    hide Placed, Distinct, Ordered, Denotes, Shifting;
    DenotesAt(before, m, index);
    Vacate(before, m, index);
    RewritePlaced(before, hash, index, None);
    ShiftStart(before, index);
    assert before[index := None][index := Some(e)] == before;
    assert m.Keys == (m - {e.key}).Keys + {e.key};
  }

  lemma ClosingStep<K, V>(before: Table<K, V>, b: Table<K, V>, hash: K -> u64, m: map<K, V>,
                          index: nat, idx: nat, run: nat, g: Entry<K, V>, z: nat, x: Entry<K, V>)
    requires 1 < |b| && idx < |b| && Closing(before, b, hash, m, index, idx, run, g, z)
    requires b[Around(idx, 1, |b|)] == Some(x) && 0 < x.psl
    ensures var next := Around(idx, 1, |b|);
            && idx != next
            && Closing(before, b[idx := Some(Demoted(x))][next := None], hash, m, index, next, run + 1, x, z)
            && Distance(next, z, |b|) < Distance(idx, z, |b|)
  {
    hide Placed, Distinct, Ordered, Denotes;
    var next := Around(idx, 1, |b|);
    Onward(index, run, z, |b|);
    ShiftStep(b, hash, m, idx, g, next, x);
    ShiftTracked(before, b, index, run, idx, next, x);
  }

  lemma ClosingEnds<K, V>(before: Table<K, V>, b: Table<K, V>, hash: K -> u64, m: map<K, V>,
                          index: nat, idx: nat, run: nat, g: Entry<K, V>, z: nat)
    requires 1 < |b| && idx < |b| && Closing(before, b, hash, m, index, idx, run, g, z)
    requires Psl(b, Around(idx, 1, |b|)) <= 0
    ensures Layout(b, hash) && Denotes(b, m) && Removed(before, b, before[index].value.key)
  {
    hide Placed, Distinct, Ordered, Denotes, Removed;
    Onward(index, run, z, |b|);
    ShiftEnd(b, idx, g);
    ShiftComplete(before, b, index, run);
  }

  // ---------------------------------------------------------------------------------------
  // Whole runs
  // ---------------------------------------------------------------------------------------

  datatype Op<K, !V> =
    | InsertOp(key: K, value: V)
    | DelOp(key: K)
    | GetOp(key: K)
    | UpdateOp(key: K, update: V -> V)

  /** An operation on a finite map: the new map and the answer. */
  function Apply<K, V>(op: Op<K, V>, m: map<K, V>): (r: (map<K, V>, Option<V>)) {
    var stored := if op.key in m then Some(m[op.key]) else None;
    match op
    case InsertOp(k, v) => (m[k := v], stored)
    case DelOp(k) => (m - {k}, stored)
    case GetOp(k) => (m, stored)
    case UpdateOp(k, f) => if k in m then (m[k := f(m[k])], Some(f(m[k]))) else (m, None)
  }

  /** The map after a sequence of operations, and their answers. */
  function ApplyAll<K, V>(ops: seq<Op<K, V>>): (map<K, V>, seq<Option<V>>) {
    if ops == [] then (map[], [])
    else
      var (m, answers) := ApplyAll(ops[..|ops| - 1]);
      var (m', answer) := Apply(ops[|ops| - 1], m);
      (m', answers + [answer])
  }

  /** The largest size of the map during a sequence of operations. */
  ghost function Peak<K, V>(ops: seq<Op<K, V>>): nat {
    if ops == [] then 0 else Larger(Peak(ops[..|ops| - 1]), |ApplyAll(ops).0|)
  }

  /** For every hash function and every sequence of operations, resizes included, the table
      answers as the finite map does, its `len` is the size of that map, and its capacity is
      determined by the largest size that the map ever had. */
  method RunOps<K(==), V(==)>(hasher: K -> u64, ops: seq<Op<K, V>>)
    returns (answers: seq<Option<V>>, len: nat, capacity: nat)
    ensures answers == ApplyAll(ops).1
    ensures len == |ApplyAll(ops).0|
    ensures SizedFor(Peak(ops), capacity)
  {
    hide SizedFor;
    var store := new KeyStore<K, V>(hasher);
    answers := [];
    for i := 0 to |ops|
      invariant store.Valid() && fresh(store) && fresh(store.buckets)
      invariant store.Contents == ApplyAll(ops[..i]).0 && answers == ApplyAll(ops[..i]).1
      invariant store.peak == Peak(ops[..i])
    {
      assert ops[..i + 1][..i] == ops[..i];
      var answer := RunOp(store, ops[i]);
      answers := answers + [answer];
    }
    assert ops[..|ops|] == ops;
    len := store.len;
    capacity := store.buckets.Length;
  }

  method RunOp<K(==), V(==)>(store: KeyStore<K, V>, op: Op<K, V>) returns (answer: Option<V>)
    requires store.Valid()
    modifies store, store.buckets
    ensures store.Valid() && (store.buckets == old(store.buckets) || fresh(store.buckets))
    ensures (store.Contents, answer) == Apply(op, old(store.Contents))
    ensures store.peak == Larger(old(store.peak), |store.Contents|)
  {
    hide SizedFor, Layout, Denotes, IsPow2;
    match op {
      case InsertOp(k, v) => answer := store.Insert(k, v);
      case DelOp(k) => answer := store.Del(k);
      case GetOp(k) => answer := store.Get(k);
      case UpdateOp(k, f) =>
        var found := store.GetMut(k, f);
        answer := store.Get(k);
    }
  }
}
