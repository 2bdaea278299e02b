/** The open-addressing hash map: an entry array filled by probe loops and doubled at
    three quarters load, refining a finite map. */
module HashMaps {
  import opened Basics
  import opened ProbeTable

  const INITIAL_CAPACITY: nat := 64

  /** `(int32_t)(capacity * 0.75)`. */
  function MaxLoad(cap: nat): (n: nat)
    ensures 4 * n <= 3 * cap < 4 * n + 4
  {
    cap * 3 / 4
  }

  lemma AddWraps(x: nat, y: nat)
    ensures (x % UINT32 + y) % UINT32 == (x + y) % UINT32
  {
    var q, r := x / UINT32, x % UINT32;
    assert x + y == (r + y) + q * UINT32;
    var q' := (r + y) / UINT32;
    assert (x + y) / UINT32 == q + q';
  }

  /** `((hash << 5) + hash) + c` on uint32_t. */
  function Mix(hash: nat, c: Byte): (h: nat)
    ensures h == (33 * hash + c) % UINT32
  {
    AddWraps(hash * 32, hash);
    AddWraps(hash * 32 + hash, c);
    ((hash * 32 % UINT32 + hash) % UINT32 + c) % UINT32
  }

  /** The hash of a string's bytes up to the first NUL. */
  method HashString(s: Key) returns (hash: nat)
    ensures hash == Djb2(CString(s))
  {
    hide Mix;
    hash := 5381;
    var i := 0;
    while i < |s| && s[i] != 0
      invariant i <= |s| && CString(s) == s[..i] + CString(s[i..])
      invariant hash == Djb2(s[..i])
      decreases |s| - i
    {
      assert s[i..] == [s[i]] + s[i + 1..];
      assert s[..i + 1][..i] == s[..i] && s[..i + 1] == s[..i] + [s[i]];
      hash := Mix(hash, s[i]);
      i := i + 1;
    }
    assert s[..i] + [] == s[..i];
  }

  class HashMap<V(0)> {
    var size: nat
    var entries: array<Entry<V>>
    ghost var contents: map<Key, V>

    ghost predicate Valid()
      reads this, entries
    {
      && entries.Length >= INITIAL_CAPACITY
      && size == CountOf(entries[..])
      && size <= MaxLoad(entries.Length)
      && Probed(entries[..]) && Lists(entries[..], contents)
    }

    constructor ()
      ensures Valid() && contents == map[] && entries.Length == INITIAL_CAPACITY && fresh(entries)
    {
      var es := new Entry<V>[INITIAL_CAPACITY](_ => Vacant);
      AllVacant(es[..]);
      size := 0;
      entries := es;
      contents := map[];
    }

    /** The probe loop: stops on the key or on the first vacant slot.  The load bound
        guarantees there is one. */
    method Probe(key: Key) returns (idx: nat)
      requires entries.Length > 0 && CountOf(entries[..]) < entries.Length
      ensures idx < entries.Length && StopsAt(entries[..], key, idx)
    {
      var hash := HashString(key);
      idx := hash % entries.Length;
      ghost var d := 0;
      ghost var home := idx;
      ghost var vacant := VacantSlot(entries[..]);
      while entries[idx].Occupied? && entries[idx].key != key
        invariant d < entries.Length && idx == At(home, d, entries.Length)
        invariant home == Home(key, entries.Length)
        invariant PathTaken(entries[..], key, d)
        invariant d <= Dist(home, vacant, entries.Length)
        decreases Dist(home, vacant, entries.Length) - d
      {
        NextSlot(home, d, entries.Length);
        idx := (idx + 1) % entries.Length;
        d := d + 1;
      }
    }

    method Get(key: Key) returns (r: Option<V>)
      requires Valid()
      ensures r == if key in contents then Some(contents[key]) else None
    {
      NotFull();
      var idx := Probe(key);
      MissIsAbsent(entries[..], key, idx, contents);
      r := if entries[idx].Occupied? then Some(entries[idx].value) else None;
    }

    method Has(key: Key) returns (found: bool)
      requires Valid()
      ensures found <==> key in contents
    {
      NotFull();
      var idx := Probe(key);
      MissIsAbsent(entries[..], key, idx, contents);
      found := entries[idx].Occupied?;
    }

    lemma NotFull()
      requires Valid()
      ensures CountOf(entries[..]) < entries.Length
    {
    }

    /** Whether the next `Set` would first double the table. */
    predicate Loaded()
      reads this
    {
      size >= MaxLoad(entries.Length)
    }

    method Set(key: Key, value: V)
      requires Valid()
      modifies this, entries
      ensures Valid() && contents == old(contents)[key := value]
      ensures entries == old(entries) || fresh(entries)
      ensures !old(Loaded()) ==> entries == old(entries)
      ensures size <= old(size) + 1
      decreases if Loaded() then 2 else 0
    {
      if size >= MaxLoad(entries.Length) {
        Resize();
      }
      NotFull();
      var idx := Probe(key);
      var isNew := entries[idx].Vacant?;
      StoreUpdates(entries[..], key, value, idx, contents);
      StoreCounts(entries[..], idx, Occupied(key, value));
      ghost var t := entries[..][idx := Occupied(key, value)];
      entries[idx] := Occupied(key, value);
      if isNew { size := size + 1; }
      contents := contents[key := value];
      assert entries[..] == t;
    }

    /** Doubles the table and re-inserts everything; none of the insertions doubles it
        again. */
    method Resize()
      requires Valid() && Loaded()
      modifies this
      ensures Valid() && contents == old(contents) && !Loaded() && size <= old(size)
      ensures fresh(entries) && entries.Length == 2 * old(entries.Length)
      decreases 1
    {
      var oldEntries := entries;
      var oldCapacity := entries.Length;
      ghost var all, m := entries[..], contents;
      var es := new Entry<V>[2 * oldCapacity](_ => Vacant);
      AllVacant(es[..]);
      entries := es;
      size := 0;
      contents := map[];
      var i := 0;
      while i < oldCapacity
        invariant i <= oldCapacity && oldEntries[..] == all
        invariant Valid() && entries == es && fresh(es)
        invariant Lists(all[..i], contents)
        invariant size <= CountOf(all[..i])
      {
        CountMono(all, i);
        ListsSnoc(all, i, contents);
        if oldEntries[i].Occupied? {
          Set(oldEntries[i].key, oldEntries[i].value);
        }
        i := i + 1;
      }
      assert all[..oldCapacity] == all;
      ListsUnique(all, contents, m);
    }

    /** The calls `ts_hashmap_for_each` makes, in order. */
    method ForEach() returns (visited: seq<(Key, V)>)
      requires Valid()
      ensures |visited| == |contents| == size
      ensures forall k, v :: (k, v) in visited <==> k in contents && contents[k] == v
      ensures forall i, j :: 0 <= i < j < |visited| ==> visited[i].0 != visited[j].0
    {
      visited := [];
      ghost var t := entries[..];
      var i := 0;
      while i < entries.Length
        invariant i <= entries.Length && visited == Pairs(t[..i])
      {
        assert t[..i + 1][..i] == t[..i];
        if entries[i].Occupied? {
          visited := visited + [(entries[i].key, entries[i].value)];
        }
        i := i + 1;
      }
      assert t[..i] == t;
      PairsAreBindings(t, contents);
    }

    method Count() returns (count: nat)
      requires Valid()
      ensures count == size == |contents|
    {
      count := 0;
      ghost var t := entries[..];
      var i := 0;
      while i < entries.Length
        invariant i <= entries.Length && count == CountOf(t[..i])
      {
        CountMono(t, i);
        if entries[i].Occupied? { count := count + 1; }
        i := i + 1;
      }
      assert t[..i] == t;
      PairsAreBindings(t, contents);
    }
  }
}
