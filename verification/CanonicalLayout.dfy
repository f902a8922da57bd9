/** The slots and psl values of a table are determined by the home buckets of its entries alone:
    the order in which keys were inserted and deleted leaves no trace. */
module CanonicalLayout {
  import opened Prelude
  import opened RobinHood
  import KS = KeyStore

  /** The home buckets of the occupied slots, in a table of capacity `n`. */
  function Homes<K, V>(b: Table<K, V>, n: nat): seq<nat>
    requires 0 < n
  {
    if b == [] then []
    else
      Homes(b[..|b| - 1], n) +
      match b[|b| - 1]
      case None => []
      case Some(e) => [Home(e.hash, n)]
  }

  function CountIn(s: seq<nat>, x: set<nat>): nat {
    if s == [] then 0
    else CountIn(s[..|s| - 1], x) + (if s[|s| - 1] in x then 1 else 0)
  }

  lemma {:induction false} CountWithout(s: seq<nat>, x: set<nat>, i: nat)
    requires i < |s|
    ensures CountIn(s, x) == CountIn(s[..i] + s[i + 1..], x) + (if s[i] in x then 1 else 0)
  {
    if i == |s| - 1 {
      assert s[..i] + s[i + 1..] == s[..|s| - 1];
    } else {
      var front := s[..|s| - 1];
      CountWithout(front, x, i);
      var rest := s[..i] + s[i + 1..];
      assert rest[..|rest| - 1] == front[..i] + front[i + 1..];
    }
  }

  /** Counting does not see the order. */
  lemma {:induction false} CountPermuted(s: seq<nat>, t: seq<nat>, x: set<nat>)
    requires multiset(s) == multiset(t)
    ensures CountIn(s, x) == CountIn(t, x)
    decreases |s|
  {
    if s == [] {
      assert |t| == |multiset(t)| == 0;
    } else {
      var last, front := s[|s| - 1], s[..|s| - 1];
      assert s == front + [last];
      assert last in multiset(t);
      var i :| 0 <= i < |t| && t[i] == last;
      var rest := t[..i] + t[i + 1..];
      RemoveAt(t, i);
      assert multiset(front) + multiset{last} == multiset(s);
      assert multiset(front) == multiset(s) - multiset{last} == multiset(rest);
      CountPermuted(front, rest, x);
      CountWithout(t, x, i);
    }
  }

  lemma RemoveAt(t: seq<nat>, i: nat)
    requires i < |t|
    ensures multiset(t[..i] + t[i + 1..]) + multiset{t[i]} == multiset(t)
  {
    assert t == t[..i] + [t[i]] + t[i + 1..];
  }

  /** If every slot of `y` holds an entry with home in `x`, there are at least `|y|` such homes. */
  lemma {:induction false} AtLeast<K, V>(b: Table<K, V>, n: nat, x: set<nat>, y: set<nat>)
    requires 0 < n
    requires forall i :: i in y ==> i < |b| && b[i].Some? && Home(b[i].value.hash, n) in x
    ensures |y| <= CountIn(Homes(b, n), x)
  {
    if b != [] {
      var last, front := b[|b| - 1], b[..|b| - 1];
      AtLeast(front, n, x, y - {|b| - 1});
      HomesLast(b, n);
    } else {
      assert y == {};
    }
  }

  /** If every entry with home in `x` sits in a slot of `y`, there are at most `|y|` such homes. */
  lemma {:induction false} AtMost<K, V>(b: Table<K, V>, n: nat, x: set<nat>, y: set<nat>)
    requires 0 < n
    requires forall i :: 0 <= i < |b| && b[i].Some? && Home(b[i].value.hash, n) in x ==> i in y
    ensures CountIn(Homes(b, n), x) <= |y|
  {
    if b != [] {
      var front := b[..|b| - 1];
      HomesLast(b, n);
      if b[|b| - 1].Some? && Home(b[|b| - 1].value.hash, n) in x {
        AtMost(front, n, x, y - {|b| - 1});
      } else {
        AtMost(front, n, x, y);
      }
    }
  }

  lemma HomesLast<K, V>(b: Table<K, V>, n: nat)
    requires 0 < n && b != []
    ensures match b[|b| - 1]
            case None => Homes(b, n) == Homes(b[..|b| - 1], n)
            case Some(e) =>
              forall x :: CountIn(Homes(b, n), x) ==
                          CountIn(Homes(b[..|b| - 1], n), x) + (if Home(e.hash, n) in x then 1 else 0)
  {
    match b[|b| - 1] {
      case None =>
      case Some(e) =>
        var s := Homes(b[..|b| - 1], n);
        assert Homes(b, n) == s + [Home(e.hash, n)];
        assert (s + [Home(e.hash, n)])[..|s|] == s;
    }
  }

  /** The nearest empty slot at or before slot `i`, as an offset back from it. */
  lemma {:induction false} NearestEmpty<K, V>(b: Table<K, V>, i: nat, from: nat, z: nat) returns (r: nat)
    requires i < |b| && from <= z <= |b| && b[Back(i, z, |b|)].None?
    ensures from <= r <= z && b[Back(i, r, |b|)].None?
    ensures forall o :: from <= o < r ==> b[Back(i, o, |b|)].Some?
    decreases z - from
  {
    if b[Back(i, from, |b|)].None? {
      r := from;
    } else {
      r := NearestEmpty(b, i, from + 1, z);
    }
  }

  /** The slots from `lo` to `hi - 1` places before slot `i`. */
  function Arc(i: nat, lo: nat, hi: nat, n: nat): (s: set<nat>)
    requires i < n && hi <= n
    ensures forall j :: j in s ==> j < n
  {
    set o | lo <= o < hi :: Back(i, o, n)
  }

  /** In a run that began after the empty slot `r` places back, the entry `o` places back has its
      home inside the run and at or before the home of the entry of slot `i`. */
  lemma HomeInRun<K, V>(b: Table<K, V>, hash: K -> u64, i: nat, o: nat, r: nat)
    requires Layout(b, hash) && i < |b| && o < r <= |b|
    requires b[Back(i, r, |b|)].None? && b[Back(i, o, |b|)].Some?
    requires 0 <= Psl(b, i)
    ensures Home(b[Back(i, o, |b|)].value.hash, |b|) in Arc(i, Psl(b, i), r, |b|)
  {
    var n, q := |b|, Psl(b, i);
    var j := Back(i, o, n);
    var p := b[j].value.psl;
    assert InOrder(b, i) && InOrder(b, j) && InPlace(b, hash, j);
    if 0 < o {
      Trail(b, i, q, o);
    }
    Trail(b, j, p, r - o);
    assert Back(j, r - o, n) == Back(i, r, n);
    assert Back(i, o + p, n) == Home(b[j].value.hash, n);
  }

  /** An entry whose home is `o` places before slot `i` sits before slot `i`, when slot `i` is
      richer than `o`. */
  lemma SlotBefore<K, V>(a: Table<K, V>, hash: K -> u64, i: nat, j: nat, o: nat)
    requires Layout(a, hash) && i < |a| && j < |a| && o < |a|
    requires a[j].Some? && Home(a[j].value.hash, |a|) == Back(i, o, |a|)
    requires Psl(a, i) < o
    ensures a[j].value.psl < o
  {
    var n, p := |a|, a[j].value.psl;
    assert InPlace(a, hash, j) && InOrder(a, j);
    if o <= p {
      assert Back(j, p - o, n) == i;
      if o < p {
        Trail(a, j, p, p - o);
      }
    }
  }

  /** In `b`, a run up to slot `i` supplies a home at or before the home of `i` for each slot. */
  lemma RunSupplies<K, V>(b: Table<K, V>, hash: K -> u64, i: nat, r: nat)
    requires Layout(b, hash) && i < |b| && 0 <= Psl(b, i) && r <= |b| && b[Back(i, r, |b|)].None?
    requires forall o :: 0 <= o < r ==> b[Back(i, o, |b|)].Some?
    ensures |Arc(i, 0, r, |b|)| <= CountIn(Homes(b, |b|), Arc(i, Psl(b, i), r, |b|))
  {
    hide Home, Homes;
    var n := |b|;
    forall j | j in Arc(i, 0, r, n)
      ensures b[j].Some? && Home(b[j].value.hash, n) in Arc(i, Psl(b, i), r, n)
    {
      var o :| 0 <= o < r && j == Back(i, o, n);
      HomeInRun(b, hash, i, o, r);
    }
    AtLeast(b, n, Arc(i, Psl(b, i), r, n), Arc(i, 0, r, n));
  }

  /** In `a`, whose slot `i` is richer than `q`, the entries with homes between `q` and `r - 1`
      places before `i` all sit in these `r` slots without slot `i` itself. */
  lemma RunHasNoRoom<K, V>(a: Table<K, V>, hash: K -> u64, i: nat, q: nat, r: nat)
    requires Layout(a, hash) && i < |a| && Psl(a, i) < q && 0 < r <= |a|
    ensures CountIn(Homes(a, |a|), Arc(i, q, r, |a|)) < |Arc(i, 0, r, |a|)|
  {
    hide Home, Homes;
    var n := |a|;
    var homes, slots := Arc(i, q, r, n), Arc(i, 0, r, n);
    forall j | 0 <= j < n && a[j].Some? && Home(a[j].value.hash, n) in homes
      ensures j in slots - {i}
    {
      var o :| q <= o < r && Home(a[j].value.hash, n) == Back(i, o, n);
      SlotBefore(a, hash, i, j, o);
      assert InPlace(a, hash, j);
      assert Back(i, o - a[j].value.psl, n) == j;
    }
    AtMost(a, n, homes, slots - {i});
    assert Back(i, 0, n) == i;
    assert i in slots;
  }

  /** No slot of one table is poorer than the same slot of the other: it would have more homes
      before it than the other table has room for. */
  lemma NoPoorer<K, V, L, W>(a: Table<K, V>, b: Table<L, W>, hash: K -> u64, hash': L -> u64, i: nat)
    requires Layout(a, hash) && Layout(b, hash') && |a| == |b|
    requires multiset(Homes(a, |a|)) == multiset(Homes(b, |b|))
    requires exists z :: 0 <= z < |b| && b[z].None?
    requires i < |a|
    ensures Psl(b, i) <= Psl(a, i)
  {
    hide Home, Homes, Arc, Layout;
    var n, q := |b|, Psl(b, i);
    if Psl(a, i) < q {
      var z :| 0 <= z < n && b[z].None?;
      var offset := if z <= i then i - z else i + n - z;
      assert Back(i, offset, n) == z && Back(i, 0, n) == i;
      var r := NearestEmpty(b, i, 0, offset);
      RunSupplies(b, hash', i, r);
      RunHasNoRoom(a, hash, i, q, r);
      CountPermuted(Homes(a, n), Homes(b, n), Arc(i, q, r, n));
    }
  }

  /** Two tables of one capacity holding the same multiset of home buckets have the same
      occupied slots and the same psl at every slot. */
  lemma Canonical<K, V, L, W>(a: Table<K, V>, b: Table<L, W>, hash: K -> u64, hash': L -> u64)
    requires Layout(a, hash) && Layout(b, hash') && |a| == |b|
    requires exists z :: 0 <= z < |a| && a[z].None?
    requires exists z :: 0 <= z < |b| && b[z].None?
    requires multiset(Homes(a, |a|)) == multiset(Homes(b, |b|))
    ensures forall i :: 0 <= i < |a| ==> Psl(a, i) == Psl(b, i)
  {
    forall i | 0 <= i < |a|
      ensures Psl(a, i) == Psl(b, i)
    {
      NoPoorer(a, b, hash, hash', i);
      NoPoorer(b, a, hash', hash, i);
    }
  }

  // ---------------------------------------------------------------------------------------
  // Tables with the same keys
  // ---------------------------------------------------------------------------------------

  ghost predicate Hashed<K, V>(b: Table<K, V>, hash: K -> u64) {
    forall i :: 0 <= i < |b| && b[i].Some? ==> b[i].value.hash == hash(b[i].value.key)
  }

  ghost function HomeOf<K, V>(slot: Option<Entry<K, V>>, n: nat): multiset<nat>
    requires 0 < n
  {
    match slot
    case None => multiset{}
    case Some(e) => multiset{Home(e.hash, n)}
  }

  lemma HomesSnoc<K, V>(b: Table<K, V>, n: nat)
    requires 0 < n && b != []
    ensures multiset(Homes(b, n)) == multiset(Homes(b[..|b| - 1], n)) + HomeOf(b[|b| - 1], n)
  {
    hide Home;
  }

  lemma {:induction false} HomesVacated<K, V>(b: Table<K, V>, n: nat, j: nat)
    requires 0 < n && j < |b|
    ensures multiset(Homes(b, n)) == multiset(Homes(b[j := None], n)) + HomeOf(b[j], n)
  {
    hide Homes, HomeOf;
    var front, b' := b[..|b| - 1], b[j := None];
    HomesSnoc(b, n);
    HomesSnoc(b', n);
    if j == |b| - 1 {
      assert b'[..|b| - 1] == front;
      EmptyHasNoHome<K, V>(n);
    } else {
      HomesVacated(front, n, j);
      assert b'[..|b| - 1] == front[j := None];
    }
  }

  lemma EmptyHasNoHome<K, V>(n: nat)
    requires 0 < n
    ensures HomeOf<K, V>(None, n) == multiset{}
  {
  }

  lemma {:induction false} HomesOfNothing<K, V>(b: Table<K, V>, n: nat)
    requires 0 < n && forall i :: 0 <= i < |b| ==> b[i].None?
    ensures Homes(b, n) == []
  {
    if b != [] {
      HomesOfNothing(b[..|b| - 1], n);
    }
  }

  /** The multiset of home buckets is a function of the key set. */
  lemma {:induction false} SameKeysSameHomes<K, V>(
    a: Table<K, V>, b: Table<K, V>, m: map<K, V>, m': map<K, V>, hash: K -> u64, n: nat)
    requires 0 < n && Hashed(a, hash) && Hashed(b, hash)
    requires Distinct(a) && Denotes(a, m) && Distinct(b) && Denotes(b, m')
    requires m.Keys == m'.Keys
    ensures multiset(Homes(a, n)) == multiset(Homes(b, n))
    decreases |a|
  {
    if a == [] {
      assert forall k :: k in m ==> Holds(a, k);
      assert m'.Keys == {};
      forall i | 0 <= i < |b|
        ensures b[i].None?
      {
        assert Agrees(b, m', i);
      }
      HomesOfNothing(b, n);
    } else {
      hide Homes, Home;
      var last, front := a[|a| - 1], a[..|a| - 1];
      HomesSnoc(a, n);
      DropLast(a, m);
      assert Agrees(a, m, |a| - 1);
      match last {
        case None => SameKeysSameHomes(front, b, m, m', hash, n);
        case Some(e) =>
          assert Holds(b, e.key);
          var j :| 0 <= j < |b| && Stores(b, j, e.key);
          Vacate(b, m', j);
          SameKeysSameHomes(front, b[j := None], m - {e.key}, m' - {e.key}, hash, n);
          HomesVacated(b, n, j);
      }
    }
  }

  lemma LayoutIsHashed<K, V>(b: Table<K, V>, hash: K -> u64)
    requires Layout(b, hash)
    ensures Hashed(b, hash)
  {
    forall i | 0 <= i < |b| && b[i].Some?
      ensures b[i].value.hash == hash(b[i].value.key)
    {
      assert InPlace(b, hash, i);
    }
  }

  /** Two stores with the same hash function that hold the same keys and have never been larger
      than one another have the same capacity, the same occupied slots and the same psl
      everywhere, whatever insertions and deletions led to them. */
  lemma HistoryLeavesNoTrace<K, V>(s: KS.KeyStore<K, V>, t: KS.KeyStore<K, V>)
    requires s.Valid() && t.Valid()
    requires s.hasher == t.hasher && s.Contents.Keys == t.Contents.Keys && s.peak == t.peak
    ensures s.buckets.Length == t.buckets.Length
    ensures forall i :: 0 <= i < s.buckets.Length ==> Psl(s.buckets[..], i) == Psl(t.buckets[..], i)
  {
    KS.OneCapacity(s.peak, s.buckets.Length, t.buckets.Length);
    SameCapacitySameLayout(s, t);
  }

  lemma SameCapacitySameLayout<K, V>(s: KS.KeyStore<K, V>, t: KS.KeyStore<K, V>)
    requires s.Valid() && t.Valid()
    requires s.hasher == t.hasher && s.Contents.Keys == t.Contents.Keys
    requires s.buckets.Length == t.buckets.Length
    ensures forall i :: 0 <= i < s.buckets.Length ==> Psl(s.buckets[..], i) == Psl(t.buckets[..], i)
  {
    var a, b := s.buckets[..], t.buckets[..];
    var y := EmptySlot(a, s.hasher, s.Contents);
    var z := EmptySlot(b, t.hasher, t.Contents);
    LayoutIsHashed(a, s.hasher);
    LayoutIsHashed(b, t.hasher);
    SameKeysSameHomes(a, b, s.Contents, t.Contents, s.hasher, |a|);
    Canonical(a, b, s.hasher, t.hasher);
  }
}
