/** Linear probing on values: what a table of slots means, and why probing finds it. */
module ProbeTable {

  type Byte = b: int | 0 <= b < 256

  /** A string's bytes; the NUL that follows them in memory is not among them. */
  type Key = seq<Byte>

  const UINT32: nat := 0x1_0000_0000

  datatype Entry<V> = Vacant | Occupied(key: Key, value: V)

  /** The bytes a C string reader sees: up to the first NUL. */
  function CString(s: Key): Key {
    if s == [] || s[0] == 0 then [] else [s[0]] + CString(s[1..])
  }

  /** djb2 on 32 bits. */
  function Djb2(s: Key): (h: nat)
    ensures h < UINT32
  {
    if s == [] then 5381 else (33 * Djb2(s[..|s| - 1]) + s[|s| - 1]) % UINT32
  }

  function Power33(k: nat): nat { if k == 0 then 1 else 33 * Power33(k - 1) }

  /** The bytes weighed by powers of 33, the last one counting ones. */
  function Weighed(s: Key): nat {
    if s == [] then 0 else s[0] * Power33(|s| - 1) + Weighed(s[1..])
  }

  /** The hash is a polynomial in 33, modulo 2^32. */
  lemma {:induction false} Djb2Is(s: Key)
    ensures Djb2(s) == (5381 * Power33(|s|) + Weighed(s)) % UINT32
  {
    if s != [] {
      var front, c := s[..|s| - 1], s[|s| - 1];
      Djb2Is(front);
      WeighedSnoc(front, c);
      assert s == front + [c];
      var n := 5381 * Power33(|front|) + Weighed(front);
      assert 33 * n + c == 5381 * Power33(|s|) + Weighed(s);
      Reduce(n, c);
    }
  }

  lemma Reduce(n: nat, c: nat)
    ensures (33 * (n % UINT32) + c) % UINT32 == (33 * n + c) % UINT32
  {
    var q := n / UINT32;
    assert n == q * UINT32 + n % UINT32;
    assert 33 * n + c == (33 * (n % UINT32) + c) + (33 * q) * UINT32;
    Wrap(33 * (n % UINT32) + c, 33 * q);
  }

  lemma Wrap(a: nat, q: nat)
    ensures (a + q * UINT32) % UINT32 == a % UINT32
  {
  }

  lemma {:induction false} WeighedSnoc(s: Key, c: Byte)
    ensures Weighed(s + [c]) == 33 * Weighed(s) + c
  {
    if s == [] {
      assert s + [c] == [c];
      assert [c][1..] == [];
      assert Power33(0) == 1;
    } else {
      assert (s + [c])[1..] == s[1..] + [c];
      WeighedSnoc(s[1..], c);
      assert Power33(|s|) == 33 * Power33(|s| - 1);
      Distribute(s[0], Power33(|s| - 1));
    }
  }

  lemma Distribute(a: nat, p: nat)
    ensures a * (33 * p) == 33 * (a * p)
  {
  }

  /** The slot where probing for a key starts. */
  function Home(key: Key, cap: nat): (i: nat)
    requires cap > 0
    ensures i < cap
  {
    Djb2(CString(key)) % cap
  }

  /** d slots after `home`, wrapping around. */
  function At(home: nat, d: nat, cap: nat): (i: nat)
    requires home < cap && d < cap
    ensures i < cap
  {
    if home + d < cap then home + d else home + d - cap
  }

  /** How far slot i is from `home`. */
  function Dist(home: nat, i: nat, cap: nat): (d: nat)
    requires home < cap && i < cap
    ensures d < cap && At(home, d, cap) == i
  {
    if home <= i then i - home else i + cap - home
  }

  lemma NextSlot(home: nat, d: nat, cap: nat)
    requires home < cap && d + 1 < cap
    ensures (At(home, d, cap) + 1) % cap == At(home, d + 1, cap)
  {
    var i := At(home, d, cap);
    if i + 1 == cap {
      assert (i + 1) % cap == 0;
    } else {
      assert (i + 1) % cap == i + 1;
    }
  }

  // ---------- what a table means ----------

  ghost predicate DistinctKeys<V>(t: seq<Entry<V>>) {
    forall i, j :: 0 <= i < j < |t| && t[i].Occupied? && t[j].Occupied? ==> t[i].key != t[j].key
  }

  /** Every slot between a key's home and the key is occupied. */
  ghost predicate Reachable<V>(t: seq<Entry<V>>, i: nat)
    requires i < |t| && t[i].Occupied?
  {
    var home := Home(t[i].key, |t|);
    forall d: nat | d < Dist(home, i, |t|) :: t[At(home, d, |t|)].Occupied?
  }

  ghost predicate Probed<V>(t: seq<Entry<V>>) {
    DistinctKeys(t) && forall i :: 0 <= i < |t| && t[i].Occupied? ==> Reachable(t, i)
  }

  /** The occupied slots are exactly the bindings of m. */
  ghost predicate Lists<V>(t: seq<Entry<V>>, m: map<Key, V>) {
    && (forall i :: 0 <= i < |t| && t[i].Occupied? ==> t[i].key in m && m[t[i].key] == t[i].value)
    && (forall k :: k in m ==> exists i :: 0 <= i < |t| && t[i].Occupied? && t[i].key == k)
  }

  ghost function CountOf<V>(t: seq<Entry<V>>): nat {
    if t == [] then 0 else CountOf(t[..|t| - 1]) + if t[|t| - 1].Occupied? then 1 else 0
  }

  /** The first d slots of the probe path are taken by other keys. */
  ghost predicate PathTaken<V>(t: seq<Entry<V>>, key: Key, d: nat)
    requires 0 < |t| && d <= |t|
  {
    forall e: nat | e < d :: t[At(Home(key, |t|), e, |t|)].Occupied? && t[At(Home(key, |t|), e, |t|)].key != key
  }

  /** Where probing for key stops: on the key, or on the first vacant slot. */
  ghost predicate StopsAt<V>(t: seq<Entry<V>>, key: Key, i: nat)
    requires i < |t|
  {
    && PathTaken(t, key, Dist(Home(key, |t|), i, |t|))
    && (t[i].Occupied? ==> t[i].key == key)
  }

  // ---------- why probing works ----------

  /** Stopping on a vacant slot means the key is nowhere. */
  lemma MissIsAbsent<V>(t: seq<Entry<V>>, key: Key, i: nat, m: map<Key, V>)
    requires Probed(t) && Lists(t, m) && i < |t| && StopsAt(t, key, i)
    ensures t[i].Occupied? <==> key in m
    ensures t[i].Occupied? ==> m[key] == t[i].value
  {
    if key in m {
      var j :| 0 <= j < |t| && t[j].Occupied? && t[j].key == key;
      var home := Home(key, |t|);
      var di, dj := Dist(home, i, |t|), Dist(home, j, |t|);
      assert Reachable(t, j);
      assert forall e: nat | e < di :: At(home, e, |t|) != j;
      assert forall e: nat | e < dj :: t[At(home, e, |t|)].Occupied?;
      assert At(home, di, |t|) == i;
    }
  }

  /** Storing at the slot where probing stops updates the map and nothing else. */
  lemma StoreUpdates<V>(t: seq<Entry<V>>, key: Key, value: V, i: nat, m: map<Key, V>)
    requires Probed(t) && Lists(t, m) && i < |t| && StopsAt(t, key, i)
    ensures Probed(t[i := Occupied(key, value)])
    ensures Lists(t[i := Occupied(key, value)], m[key := value])
  {
    StoreProbed(t, key, value, i, m);
    StoreLists(t, key, value, i, m);
  }

  lemma StoreProbed<V>(t: seq<Entry<V>>, key: Key, value: V, i: nat, m: map<Key, V>)
    requires Probed(t) && Lists(t, m) && i < |t| && StopsAt(t, key, i)
    ensures Probed(t[i := Occupied(key, value)])
  {
    MissIsAbsent(t, key, i, m);
    var t' := t[i := Occupied(key, value)];
    forall j | 0 <= j < |t'| && t'[j].Occupied? ensures Reachable(t', j) {
      if j == i {
        assert t'[j].key == key;
      } else {
        assert Reachable(t, j);
      }
    }
  }

  lemma StoreLists<V>(t: seq<Entry<V>>, key: Key, value: V, i: nat, m: map<Key, V>)
    requires Probed(t) && Lists(t, m) && i < |t| && StopsAt(t, key, i)
    ensures Lists(t[i := Occupied(key, value)], m[key := value])
  {
    MissIsAbsent(t, key, i, m);
    hide Probed;
    var t', m' := t[i := Occupied(key, value)], m[key := value];
    forall k | k in m' ensures exists j :: 0 <= j < |t'| && t'[j].Occupied? && t'[j].key == k {
      if k == key {
        assert t'[i].key == k;
      } else {
        var j :| 0 <= j < |t| && t[j].Occupied? && t[j].key == k;
        assert t'[j].key == k;
      }
    }
  }

  lemma {:induction false} StoreCounts<V>(t: seq<Entry<V>>, i: nat, e: Entry<V>)
    requires i < |t| && e.Occupied?
    ensures CountOf(t[i := e]) == CountOf(t) + if t[i].Vacant? then 1 else 0
  {
    var n := |t| - 1;
    if i == n {
      assert t[i := e][..n] == t[..n];
    } else {
      assert t[i := e][..n] == t[..n][i := e];
      StoreCounts(t[..n], i, e);
    }
  }

  /** A table that is not full has a vacant slot for probing to stop at. */
  lemma {:induction false} VacantSlot<V>(t: seq<Entry<V>>) returns (i: nat)
    requires CountOf(t) < |t|
    ensures i < |t| && t[i].Vacant?
  {
    var n := |t| - 1;
    if t[n].Vacant? { i := n; } else { i := VacantSlot(t[..n]); }
  }

  lemma {:induction false} CountMono<V>(t: seq<Entry<V>>, i: nat)
    requires i < |t|
    ensures CountOf(t[..i + 1]) == CountOf(t[..i]) + (if t[i].Occupied? then 1 else 0) <= CountOf(t)
    decreases |t| - i
  {
    assert t[..i + 1][..i] == t[..i];
    if i + 1 < |t| {
      CountMono(t, i + 1);
    } else {
      assert t[..i + 1] == t;
    }
  }

  lemma {:induction false} AllVacant<V>(t: seq<Entry<V>>)
    requires forall i :: 0 <= i < |t| ==> t[i] == Vacant
    ensures CountOf(t) == 0 && Probed(t) && Lists(t, map[])
  {
    if t != [] { AllVacant(t[..|t| - 1]); }
  }

  /** A table lists one map only. */
  lemma ListsUnique<V>(t: seq<Entry<V>>, a: map<Key, V>, b: map<Key, V>)
    requires Lists(t, a) && Lists(t, b)
    ensures a == b
  {
    forall k | k in a ensures k in b && b[k] == a[k] {
      var i :| 0 <= i < |t| && t[i].Occupied? && t[i].key == k;
    }
    forall k | k in b ensures k in a {
      var i :| 0 <= i < |t| && t[i].Occupied? && t[i].key == k;
    }
  }

  lemma ListsSnoc<V>(t: seq<Entry<V>>, i: nat, m: map<Key, V>)
    requires i < |t| && DistinctKeys(t) && Lists(t[..i], m)
    ensures t[i].Vacant? ==> Lists(t[..i + 1], m)
    ensures t[i].Occupied? ==> t[i].key !in m && Lists(t[..i + 1], m[t[i].key := t[i].value])
  {
    var s := t[..i + 1];
    assert forall j :: 0 <= j < i ==> s[j] == t[..i][j] == t[j];
    if t[i].Occupied? {
      var m' := m[t[i].key := t[i].value];
      forall k | k in m' ensures exists j :: 0 <= j < |s| && s[j].Occupied? && s[j].key == k {
        if k == t[i].key {
          assert s[i].key == k;
        } else {
          var j :| 0 <= j < i && t[..i][j].Occupied? && t[..i][j].key == k;
          assert s[j].key == k;
        }
      }
      assert forall j :: 0 <= j < i && t[..i][j].Occupied? ==> t[..i][j].key != t[i].key;
    } else {
      forall k | k in m ensures exists j :: 0 <= j < |s| && s[j].Occupied? && s[j].key == k {
        var j :| 0 <= j < i && t[..i][j].Occupied? && t[..i][j].key == k;
        assert s[j].key == k;
      }
    }
  }

  /** A table of distinct keys has as many occupied slots as its map has bindings. */
  lemma {:induction false} CountIsSize<V>(t: seq<Entry<V>>, i: nat) returns (m: map<Key, V>)
    requires i <= |t| && DistinctKeys(t)
    ensures Lists(t[..i], m) && |m| == CountOf(t[..i])
  {
    hide DistinctKeys;
    if i == 0 {
      m := map[];
    } else {
      hide Lists;
      m := CountIsSize(t, i - 1);
      ListsSnoc(t, i - 1, m);
      assert t[..i][..i - 1] == t[..i - 1];
      if t[i - 1].Occupied? { m := m[t[i - 1].key := t[i - 1].value]; }
    }
  }

  /** What `ts_hashmap_for_each` visits, in slot order. */
  ghost function Pairs<V>(t: seq<Entry<V>>): seq<(Key, V)> {
    if t == [] then []
    else Pairs(t[..|t| - 1]) + if t[|t| - 1].Occupied? then [(t[|t| - 1].key, t[|t| - 1].value)] else []
  }

  lemma {:induction false} PairsMembers<V>(t: seq<Entry<V>>, k: Key, v: V)
    ensures (k, v) in Pairs(t) <==> Occupied(k, v) in t
  {
    if t != [] {
      var n := |t| - 1;
      PairsMembers(t[..n], k, v);
      assert t == t[..n] + [t[n]];
    }
  }

  lemma {:induction false} PairsDistinct<V>(t: seq<Entry<V>>)
    requires DistinctKeys(t)
    ensures |Pairs(t)| == CountOf(t)
    ensures forall i, j :: 0 <= i < j < |Pairs(t)| ==> Pairs(t)[i].0 != Pairs(t)[j].0
  {
    if t != [] {
      var n := |t| - 1;
      PairsDistinct(t[..n]);
      if t[n].Occupied? {
        forall i | 0 <= i < |Pairs(t[..n])| ensures Pairs(t[..n])[i].0 != t[n].key {
          var p := Pairs(t[..n])[i];
          PairsMembers(t[..n], p.0, p.1);
          var j :| 0 <= j < n && t[..n][j] == Occupied(p.0, p.1);
          assert t[j].key == p.0;
        }
      }
    }
  }

  /** The visit meets every binding of the map, and each key once. */
  lemma PairsAreBindings<V>(t: seq<Entry<V>>, m: map<Key, V>)
    requires DistinctKeys(t) && Lists(t, m)
    ensures |Pairs(t)| == CountOf(t) == |m|
    ensures forall k, v :: (k, v) in Pairs(t) <==> k in m && m[k] == v
    ensures forall i, j :: 0 <= i < j < |Pairs(t)| ==> Pairs(t)[i].0 != Pairs(t)[j].0
  {
    PairsDistinct(t);
    var m' := CountIsSize(t, |t|);
    assert t[..|t|] == t;
    ListsUnique(t, m, m');
    forall k, v ensures (k, v) in Pairs(t) <==> k in m && m[k] == v {
      PairsMembers(t, k, v);
    }
  }
}
