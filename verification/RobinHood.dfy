/** The bucket array as a value: its layout invariant, the map it denotes, and what one probe
    step does to both. Nothing here depends on how the hash function behaves. */
module RobinHood {
  import opened Prelude
  import opened Bits

  datatype Entry<K, V> = Entry(key: K, value: V, psl: nat, hash: u64)

  type Table<K, V> = seq<Option<Entry<K, V>>>

  // ---------------------------------------------------------------------------------------
  // Circular positions
  // ---------------------------------------------------------------------------------------

  /** The slot `o` places after slot `i` in a circle of `n` slots. */
  function Around(i: nat, o: nat, n: nat): (r: nat)
    requires i < n && o <= n
    ensures r < n
  {
    if i + o < n then i + o else i + o - n
  }

  /** The slot `o` places before slot `i`. */
  function Back(i: nat, o: nat, n: nat): (r: nat)
    requires i < n && o <= n
    ensures r < n
  {
    if o <= i then i - o else i + n - o
  }

  /** How many slots lie between `i` and a later slot `z`, going round. */
  function Distance(i: nat, z: nat, n: nat): nat
    requires i < n && z < n
  {
    if i <= z then z - i else z + n - i
  }

  /** The bucket a hash is probed at first. */
  function Home(hash: u64, n: nat): (r: nat)
    requires 0 < n
    ensures r < n
  {
    BitAnd(hash, n - 1)
  }

  // ---------------------------------------------------------------------------------------
  // The invariant
  // ---------------------------------------------------------------------------------------

  /** Probe sequence length of a slot, with -1 standing for an empty slot. */
  function Psl<K, V>(b: Table<K, V>, i: nat): int
    requires i < |b|
  {
    if b[i].None? then -1 else b[i].value.psl
  }

  /** An entry that has probed `d` slots may be put in slot `i`: its predecessor is at most
      one probe richer. */
  ghost predicate Fits<K, V>(b: Table<K, V>, i: nat, d: int)
    requires i < |b|
  {
    d <= Psl(b, Back(i, 1, |b|)) + 1
  }

  ghost predicate InOrder<K, V>(b: Table<K, V>, i: nat)
    requires i < |b|
  {
    Fits(b, i, Psl(b, i))
  }

  /** An entry carries the hash of its key and sits `psl` slots after its home. */
  ghost predicate Sits<K, V>(e: Entry<K, V>, i: nat, n: nat, hash: K -> u64)
    requires i < n
  {
    e.psl < n && e.hash == hash(e.key) && i == Around(Home(e.hash, n), e.psl, n)
  }

  ghost predicate InPlace<K, V>(b: Table<K, V>, hash: K -> u64, i: nat)
    requires i < |b|
  {
    b[i].Some? ==> Sits(b[i].value, i, |b|, hash)
  }

  ghost predicate Differ<K, V>(b: Table<K, V>, i: nat, j: nat)
    requires i < |b| && j < |b|
  {
    b[i].Some? && b[j].Some? ==> b[i].value.key != b[j].value.key
  }

  ghost predicate Placed<K, V>(b: Table<K, V>, hash: K -> u64) {
    forall i :: 0 <= i < |b| ==> InPlace(b, hash, i)
  }

  /** A psl grows by at most one from a slot to the next: an entry away from home has an
      occupied predecessor that is not much richer. */
  ghost predicate Ordered<K, V>(b: Table<K, V>) {
    forall i :: 0 <= i < |b| ==> InOrder(b, i)
  }

  ghost predicate Distinct<K, V>(b: Table<K, V>) {
    forall i, j :: 0 <= i < j < |b| ==> Differ(b, i, j)
  }

  ghost predicate Layout<K, V>(b: Table<K, V>, hash: K -> u64) {
    1 < |b| && Placed(b, hash) && Ordered(b) && Distinct(b)
  }

  ghost predicate Stores<K, V>(b: Table<K, V>, i: nat, k: K)
    requires i < |b|
  {
    b[i].Some? && b[i].value.key == k
  }

  ghost predicate Holds<K, V>(b: Table<K, V>, k: K) {
    exists i :: 0 <= i < |b| && Stores(b, i, k)
  }

  ghost predicate Agrees<K, V>(b: Table<K, V>, m: map<K, V>, i: nat)
    requires i < |b|
  {
    b[i].Some? ==> b[i].value.key in m && m[b[i].value.key] == b[i].value.value
  }

  /** The table denotes the map `m`. */
  ghost predicate Denotes<K, V>(b: Table<K, V>, m: map<K, V>) {
    && (forall i :: 0 <= i < |b| ==> Agrees(b, m, i))
    && (forall k :: k in m ==> Holds(b, k))
  }

  // ---------------------------------------------------------------------------------------
  // Consequences of the order
  // ---------------------------------------------------------------------------------------

  /** Behind an entry that has probed `d` slots, the `o`-th slot back has psl at least `d - o`. */
  lemma {:induction false} Trail<K, V>(b: Table<K, V>, i: nat, d: int, o: nat)
    requires Ordered(b) && i < |b| && Fits(b, i, d) && 1 <= o <= |b|
    ensures Psl(b, Back(i, o, |b|)) >= d - o
  {
    if o > 1 {
      var j := Back(i, o - 1, |b|);
      Trail(b, i, d, o - 1);
      assert InOrder(b, j);
      assert Back(j, 1, |b|) == Back(i, o, |b|);
    }
  }

  /** With an empty slot somewhere, nothing ever probes as many slots as there are. */
  lemma ProbesAreShort<K, V>(b: Table<K, V>, i: nat, d: int, z: nat)
    requires Ordered(b) && i < |b| && Fits(b, i, d)
    requires z < |b| && b[z].None?
    ensures d < |b|
  {
    var o := if z < i then i - z else i + |b| - z;
    Trail(b, i, d, o);
  }

  /** The `j`-th slot probed for `k` holds some other key. */
  ghost predicate Misses<K, V>(b: Table<K, V>, hash: K -> u64, k: K, j: nat)
    requires j < |b|
  {
    var i := Around(Home(hash(k), |b|), j, |b|);
    b[i].Some? && b[i].value.key != k
  }

  /** Every stored key is met before the probe could stop. */
  lemma StoredIsFound<K, V>(b: Table<K, V>, hash: K -> u64, i: nat, d: nat)
    requires Layout(b, hash) && i < |b| && b[i].Some? && d < b[i].value.psl
    ensures d < |b| && Psl(b, Around(Home(hash(b[i].value.key), |b|), d, |b|)) >= d
  {
    var p := b[i].value.psl;
    assert InPlace(b, hash, i) && InOrder(b, i);
    Trail(b, i, p, p - d);
    assert Back(i, p - d, |b|) == Around(Home(hash(b[i].value.key), |b|), d, |b|);
  }

  /** The early stop of a lookup is exact: having met only other keys so far, an empty slot or
      an entry richer than the probe distance means the key is nowhere in the table. */
  lemma EarlyStop<K, V>(b: Table<K, V>, hash: K -> u64, k: K, d: nat)
    requires Layout(b, hash) && d < |b|
    requires forall j :: 0 <= j < d ==> Misses(b, hash, k, j)
    requires Psl(b, Around(Home(hash(k), |b|), d, |b|)) < d
    ensures !Holds(b, k)
  {
    forall i | 0 <= i < |b|
      ensures !Stores(b, i, k)
    {
      assert InPlace(b, hash, i);
      if b[i].Some? {
        var p := b[i].value.psl;
        if p < d {
          assert Misses(b, hash, k, p);
        } else if d < p {
          StoredIsFound(b, hash, i, d);
        }
      }
    }
  }

  // ---------------------------------------------------------------------------------------
  // Writing one slot
  // ---------------------------------------------------------------------------------------

  /** Putting a poorer entry into a slot keeps the order. */
  lemma PoorerFits<K, V>(b: Table<K, V>, i: nat, e: Entry<K, V>)
    requires Ordered(b) && 1 < |b| && i < |b|
    requires Fits(b, i, e.psl) && Psl(b, i) <= e.psl
    ensures Ordered(b[i := Some(e)])
  {
    var b' := b[i := Some(e)];
    forall j | 0 <= j < |b|
      ensures InOrder(b', j)
    {
      assert InOrder(b, j);
    }
  }

  /** Rewriting a slot with an entry that sits well. */
  lemma RewritePlaced<K, V>(b: Table<K, V>, hash: K -> u64, i: nat, x: Option<Entry<K, V>>)
    requires Placed(b, hash) && i < |b| && (x.Some? ==> Sits(x.value, i, |b|, hash))
    ensures Placed(b[i := x], hash)
  {
    var b' := b[i := x];
    forall j | 0 <= j < |b|
      ensures InPlace(b', hash, j)
    {
      assert InPlace(b, hash, j);
    }
  }

  function Without<K, V>(m: map<K, V>, x: Option<Entry<K, V>>): map<K, V> {
    if x.Some? then m - {x.value.key} else m
  }

  /** Emptying a slot. */
  lemma Vacate<K, V>(b: Table<K, V>, m: map<K, V>, i: nat)
    requires Distinct(b) && Denotes(b, m) && i < |b|
    ensures Distinct(b[i := None]) && Denotes(b[i := None], Without(m, b[i]))
  {
    var b', m' := b[i := None], Without(m, b[i]);
    forall j, l | 0 <= j < l < |b|
      ensures Differ(b', j, l)
    {
      assert Differ(b, j, l);
    }
    forall j | 0 <= j < |b|
      ensures Agrees(b', m', j)
    {
      assert Agrees(b, m, j);
      assert if j < i then Differ(b, j, i) else i < j ==> Differ(b, i, j);
    }
    forall k | k in m'
      ensures Holds(b', k)
    {
      assert Holds(b, k);
      var j :| 0 <= j < |b| && Stores(b, j, k);
      assert Stores(b', j, k);
    }
  }

  /** Filling an empty slot with a new key. */
  lemma Fill<K, V>(b: Table<K, V>, m: map<K, V>, i: nat, e: Entry<K, V>)
    requires Distinct(b) && Denotes(b, m) && i < |b| && b[i].None? && e.key !in m
    ensures Distinct(b[i := Some(e)]) && Denotes(b[i := Some(e)], m[e.key := e.value])
  {
    var b', m' := b[i := Some(e)], m[e.key := e.value];
    forall j, l | 0 <= j < l < |b|
      ensures Differ(b', j, l)
    {
      assert Differ(b, j, l) && Agrees(b, m, j) && Agrees(b, m, l);
    }
    forall j | 0 <= j < |b|
      ensures Agrees(b', m', j)
    {
      assert Agrees(b, m, j);
    }
    forall k | k in m'
      ensures Holds(b', k)
    {
      if k == e.key {
        assert Stores(b', i, k);
      } else {
        assert Holds(b, k);
        var j :| 0 <= j < |b| && Stores(b, j, k);
        assert Stores(b', j, k);
      }
    }
  }

  /** Overwriting a slot whose entry (if any) leaves with its key. */
  lemma Overwrite<K, V>(b: Table<K, V>, m: map<K, V>, i: nat, e: Entry<K, V>)
    requires Distinct(b) && Denotes(b, m) && i < |b|
    requires e.key !in m || (b[i].Some? && b[i].value.key == e.key)
    ensures Distinct(b[i := Some(e)]) && Denotes(b[i := Some(e)], Without(m, b[i])[e.key := e.value])
  {
    Vacate(b, m, i);
    Fill(b[i := None], Without(m, b[i]), i, e);
    assert b[i := None][i := Some(e)] == b[i := Some(e)];
  }

  /** Placing an in-flight entry: into an empty slot, or swapped with a richer entry which then
      flies on. The table with the in-flight entry always denotes the same map. */
  lemma Settle<K, V>(b: Table<K, V>, hash: K -> u64, m: map<K, V>, i: nat, e: Entry<K, V>)
    requires Layout(b, hash) && Denotes(b, m) && i < |b|
    requires Sits(e, i, |b|, hash) && e.key !in m
    requires Fits(b, i, e.psl) && Psl(b, i) < e.psl
    ensures Layout(b[i := Some(e)], hash)
    ensures Denotes(b[i := Some(e)], Without(m, b[i])[e.key := e.value])
    ensures b[i].Some? ==>
              var x := b[i].value;
              var m' := Without(m, b[i])[e.key := e.value];
              x.key !in m' && m'[x.key := x.value] == m[e.key := e.value] && Sits(x, i, |b|, hash)
  {
    PoorerFits(b, i, e);
    RewritePlaced(b, hash, i, Some(e));
    Overwrite(b, m, i, e);
    assert Agrees(b, m, i) && InPlace(b, hash, i);
  }

  /** Replacing the value stored under a key. */
  lemma Revalue<K, V>(b: Table<K, V>, hash: K -> u64, m: map<K, V>, i: nat, v: V)
    requires Layout(b, hash) && Denotes(b, m) && i < |b| && b[i].Some?
    ensures var e := b[i].value.(value := v);
            Layout(b[i := Some(e)], hash) && Denotes(b[i := Some(e)], m[e.key := v])
    ensures b[i].value.key in m && m[b[i].value.key] == b[i].value.value
  {
    var e := b[i].value.(value := v);
    assert InOrder(b, i) && InPlace(b, hash, i) && Agrees(b, m, i);
    PoorerFits(b, i, e);
    RewritePlaced(b, hash, i, Some(e));
    Overwrite(b, m, i, e);
    assert (m - {e.key})[e.key := v] == m[e.key := v];
  }

  /** Slot `i` now holds an entry no richer than `e`, which flies on to the next slot. */
  lemma NextProbe<K, V>(b: Table<K, V>, hash: K -> u64, i: nat, e: Entry<K, V>, z: nat)
    requires Layout(b, hash) && i < |b| && z < |b| && b[z].None?
    requires Sits(e, i, |b|, hash) && e.psl <= Psl(b, i)
    ensures Sits(e.(psl := e.psl + 1), Around(i, 1, |b|), |b|, hash)
    ensures Fits(b, Around(i, 1, |b|), e.psl + 1)
    ensures Distance(Around(i, 1, |b|), z, |b|) < Distance(i, z, |b|)
  {
    var next := Around(i, 1, |b|);
    assert Back(next, 1, |b|) == i;
    ProbesAreShort(b, next, e.psl + 1, z);
  }

  /** A lookup for `k` moves on from its `d`-th probe. */
  lemma NextMiss<K, V>(b: Table<K, V>, hash: K -> u64, k: K, d: nat, z: nat)
    requires Layout(b, hash) && d < |b| && z < |b| && b[z].None?
    requires var i := Around(Home(hash(k), |b|), d, |b|);
             Psl(b, i) >= d && !(b[i].value.hash == hash(k) && b[i].value.key == k)
    ensures d + 1 < |b| && Misses(b, hash, k, d)
  {
    var i := Around(Home(hash(k), |b|), d, |b|);
    var next := Around(i, 1, |b|);
    assert InPlace(b, hash, i);
    assert Back(next, 1, |b|) == i;
    ProbesAreShort(b, next, d + 1, z);
  }

  // ---------------------------------------------------------------------------------------
  // Backward shift
  // ---------------------------------------------------------------------------------------

  function Demoted<K, V>(e: Entry<K, V>): (r: Entry<K, V>)
    requires 0 < e.psl
  {
    e.(psl := e.psl - 1)
  }

  /** `after` is `before` with the entry of slot `i` removed and exactly the `run` slots that
      follow it moved back by one: the maximal run of entries away from home. */
  ghost predicate ShiftedBack<K, V>(before: Table<K, V>, after: Table<K, V>, i: nat, run: nat) {
    var n := |before|;
    && |after| == n && i < n && run + 1 < n
    && Psl(before, Around(i, run + 1, n)) <= 0
    && (forall o :: 0 <= o < run ==> MovedBack(before, after, i, o))
    && after[Around(i, run, n)].None?
    && (forall o :: run < o < n ==> Kept(before, after, i, o))
  }

  /** `after` is `before` without the entry of `k`, closed up by a backward shift. */
  ghost predicate Removed<K, V>(before: Table<K, V>, after: Table<K, V>, k: K) {
    exists i, run :: 0 <= i < |before| && Stores(before, i, k) && ShiftedBack(before, after, i, run)
  }

  /** The slot `o` places after `i` received the demoted entry of its successor. */
  ghost predicate MovedBack<K, V>(before: Table<K, V>, after: Table<K, V>, i: nat, o: nat)
    requires i < |before| == |after| && o < |before|
  {
    var n := |before|;
    var source := before[Around(i, o + 1, n)];
    source.Some? && 0 < source.value.psl && after[Around(i, o, n)] == Some(Demoted(source.value))
  }

  ghost predicate Kept<K, V>(before: Table<K, V>, after: Table<K, V>, i: nat, o: nat)
    requires i < |before| == |after| && o < |before|
  {
    after[Around(i, o, |before|)] == before[Around(i, o, |before|)]
  }

  /** One iteration of the shift. `b` has a hole at `i`; filling the hole with the ghost entry
      `g` would make it ordered. The entry after the hole moves into it. */
  lemma ShiftStep<K, V>(b: Table<K, V>, hash: K -> u64, m: map<K, V>, i: nat, g: Entry<K, V>,
                        next: nat, x: Entry<K, V>)
    requires 1 < |b| && Placed(b, hash) && Distinct(b) && Denotes(b, m)
    requires i < |b| && b[i].None? && Ordered(b[i := Some(g)])
    requires next == Around(i, 1, |b|) && b[next] == Some(x) && 0 < x.psl
    ensures var b' := b[i := Some(Demoted(x))][next := None];
            Placed(b', hash) && Distinct(b') && Denotes(b', m) && Ordered(b'[next := Some(x)])
  {
    var b1 := b[next := None];
    var b' := b[i := Some(Demoted(x))][next := None];
    assert b' == b1[i := Some(Demoted(x))];
    assert InPlace(b, hash, next) && Agrees(b, m, next);
    RewritePlaced(b, hash, next, None);
    RewritePlaced(b1, hash, i, Some(Demoted(x)));
    Vacate(b, m, next);
    Fill(b1, m - {x.key}, i, Demoted(x));
    assert (m - {x.key})[x.key := x.value] == m;
    ShiftKeepsOrder(b, i, g);
    assert b'[next := Some(x)] == b[i := Some(Demoted(x))];
  }

  lemma ShiftKeepsOrder<K, V>(b: Table<K, V>, i: nat, g: Entry<K, V>)
    requires 1 < |b| && i < |b| && Ordered(b[i := Some(g)])
    requires Psl(b, Around(i, 1, |b|)) > 0
    ensures Ordered(b[i := Some(Demoted(b[Around(i, 1, |b|)].value))])
  {
    var next := Around(i, 1, |b|);
    var full := b[i := Some(g)];
    var full' := b[i := Some(Demoted(b[next].value))];
    forall j | 0 <= j < |b|
      ensures InOrder(full', j)
    {
      assert InOrder(full, j) && InOrder(full, next);
      assert Back(next, 1, |b|) == i;
      assert j != next ==> Back(j, 1, |b|) != i;
    }
  }

  /** The shift ends where nothing leans on the hole any more. */
  lemma ShiftEnd<K, V>(b: Table<K, V>, i: nat, g: Entry<K, V>)
    requires 1 < |b| && i < |b| && b[i].None? && Ordered(b[i := Some(g)])
    requires Psl(b, Around(i, 1, |b|)) <= 0
    ensures Ordered(b)
  {
    var full := b[i := Some(g)];
    forall j | 0 <= j < |b|
      ensures InOrder(b, j)
    {
      assert InOrder(full, j);
      assert j != Around(i, 1, |b|) ==> Back(j, 1, |b|) != i;
    }
  }

  // ---------------------------------------------------------------------------------------
  // Counting
  // ---------------------------------------------------------------------------------------

  function Occupied<K, V>(b: Table<K, V>): nat {
    if b == [] then 0
    else Occupied(b[..|b| - 1]) + (if b[|b| - 1].Some? then 1 else 0)
  }

  /** The map of a table without its last slot. */
  lemma DropLast<K, V>(b: Table<K, V>, m: map<K, V>)
    requires Distinct(b) && Denotes(b, m) && b != []
    ensures var front, m' := b[..|b| - 1], Without(m, b[|b| - 1]);
            Distinct(front) && Denotes(front, m')
  {
    var front, m' := b[..|b| - 1], Without(m, b[|b| - 1]);
    forall i, j | 0 <= i < j < |front|
      ensures Differ(front, i, j)
    {
      assert Differ(b, i, j);
    }
    forall i | 0 <= i < |front|
      ensures Agrees(front, m', i)
    {
      assert Agrees(b, m, i) && Differ(b, i, |b| - 1);
    }
    forall k | k in m'
      ensures Holds(front, k)
    {
      assert Holds(b, k);
      var j :| 0 <= j < |b| && Stores(b, j, k);
      assert Stores(front, j, k);
    }
  }

  /** The number of occupied slots is the size of the denoted map. */
  lemma {:induction false} OccupiedIsSize<K, V>(b: Table<K, V>, m: map<K, V>)
    requires Distinct(b) && Denotes(b, m)
    ensures Occupied(b) == |m|
  {
    if b == [] {
      assert forall k :: k in m ==> Holds(b, k);
      assert m == map[];
    } else {
      var last := b[|b| - 1];
      DropLast(b, m);
      OccupiedIsSize(b[..|b| - 1], Without(m, last));
      assert Agrees(b, m, |b| - 1);
      if last.Some? {
        assert m.Keys == Without(m, last).Keys + {last.value.key};
      }
    }
  }

  lemma {:induction false} OccupiedBound<K, V>(b: Table<K, V>)
    ensures Occupied(b) <= |b|
    ensures Occupied(b) < |b| ==> exists z :: 0 <= z < |b| && b[z].None?
  {
    if b != [] {
      var front := b[..|b| - 1];
      OccupiedBound(front);
      if b[|b| - 1].Some? && Occupied(b) < |b| {
        var z :| 0 <= z < |front| && front[z].None?;
        assert b[z].None?;
      }
    }
  }

  /** A map smaller than the table leaves a slot empty. */
  lemma EmptySlot<K, V>(b: Table<K, V>, hash: K -> u64, m: map<K, V>) returns (z: nat)
    requires Layout(b, hash) && Denotes(b, m) && |m| < |b|
    ensures z < |b| && b[z].None?
  {
    OccupiedIsSize(b, m);
    OccupiedBound(b);
    z :| 0 <= z < |b| && b[z].None?;
  }

  lemma EmptyTable<K, V>(b: Table<K, V>, hash: K -> u64)
    requires 1 < |b| && forall i :: 0 <= i < |b| ==> b[i].None?
    ensures Layout(b, hash) && Denotes(b, map[])
  {
  }

  lemma NoSlots<K, V>(b: Table<K, V>)
    requires b == []
    ensures Denotes(b, map[])
  {
  }

  lemma DenotesAt<K, V>(b: Table<K, V>, m: map<K, V>, i: nat)
    requires Denotes(b, m) && i < |b|
    ensures Agrees(b, m, i)
  {
  }

  lemma AbsentKey<K, V>(b: Table<K, V>, m: map<K, V>, k: K)
    requires Denotes(b, m) && !Holds(b, k)
    ensures k !in m
  {
  }

  /** A table denotes one map only. */
  lemma DenotesOne<K, V>(b: Table<K, V>, m: map<K, V>, m': map<K, V>)
    requires Denotes(b, m) && Denotes(b, m')
    ensures m == m'
  {
    forall k | k in m
      ensures k in m' && m[k] == m'[k]
    {
      assert Holds(b, k);
      var i :| 0 <= i < |b| && Stores(b, i, k);
      assert Agrees(b, m, i) && Agrees(b, m', i);
    }
    forall k | k in m'
      ensures k in m
    {
      assert Holds(b, k);
      var i :| 0 <= i < |b| && Stores(b, i, k);
      assert Agrees(b, m, i);
    }
  }

  /** One more slot of a table: its key is not among those of the slots before it. */
  lemma GrowPrefix<K, V>(b: Table<K, V>, i: nat, m: map<K, V>)
    requires Distinct(b) && i < |b| && Denotes(b[..i], m)
    ensures b[i].Some? ==> b[i].value.key !in m
    ensures Denotes(b[..i + 1], if b[i].Some? then m[b[i].value.key := b[i].value.value] else m)
  {
    var b', m' := b[..i + 1], if b[i].Some? then m[b[i].value.key := b[i].value.value] else m;
    forall k | k in m
      ensures Holds(b', k) && !Stores(b, i, k)
    {
      assert Holds(b[..i], k);
      var j :| 0 <= j < i && Stores(b[..i], j, k);
      assert Differ(b, j, i);
      assert Stores(b', j, k);
    }
    if b[i].Some? {
      assert Stores(b', i, b[i].value.key) && Stores(b, i, b[i].value.key);
    }
    forall j | 0 <= j < i + 1
      ensures Agrees(b', m', j)
    {
      if j < i {
        assert Agrees(b[..i], m, j) && Differ(b, j, i);
      }
    }
  }
}
