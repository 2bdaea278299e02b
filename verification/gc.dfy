/** The mark-sweep collector: an intrusive list of headers, a recursive kind-aware
    marker, a pointer-rewriting sweep, and byte accounting that paces collections. */
module Gc {
  import opened Basics
  import opened GcGraph

  const MIB: nat := 1024 * 1024
  const MIN_THRESHOLD: nat := 256 * 1024
  const MAX_ROOTS: nat := 256

  /** An object header; `addr` is the payload address that follows it. */
  class GcHeader {
    const addr: nat
    const size: nat
    var next: GcHeader?
    var marked: bool
    var body: Body

    constructor (addr: nat, size: nat, body: Body)
      ensures this.addr == addr && this.size == size && this.body == body
      ensures next == null && !marked
    {
      this.addr, this.size, this.body := addr, size, body;
      next, marked := null, false;
    }

    function AsObj(): Obj
      reads this`body
    {
      Obj(addr, size, body)
    }
  }

  ghost function Snapshot(list: seq<GcHeader>): (objs: seq<Obj>)
    reads list`body
    ensures |objs| == |list|
    ensures forall i :: 0 <= i < |list| ==> objs[i] == list[i].AsObj()
  {
    if list == [] then [] else [list[0].AsObj()] + Snapshot(list[1..])
  }

  ghost function MarksOf(list: seq<GcHeader>): (bits: seq<bool>)
    reads list`marked
    ensures |bits| == |list|
    ensures forall i :: 0 <= i < |list| ==> bits[i] == list[i].marked
  {
    if list == [] then [] else [list[0].marked] + MarksOf(list[1..])
  }

  lemma {:induction false} SnapshotRemove(list: seq<GcHeader>, k: nat)
    requires k < |list|
    ensures Snapshot(RemoveAt(list, k)) == RemoveAt(Snapshot(list), k)
    ensures MarksOf(RemoveAt(list, k)) == RemoveAt(MarksOf(list), k)
  {
    hide Snapshot, MarksOf;
    var left := RemoveAt(list, k);
    forall i | 0 <= i < |left|
      ensures Snapshot(left)[i] == RemoveAt(Snapshot(list), k)[i] && MarksOf(left)[i] == RemoveAt(MarksOf(list), k)[i]
    {
      assert left[i] == list[Skip(i, k)];
    }
  }

  /** What headers look like does not depend on where they are linked. */
  twostate lemma SameValues(list: seq<GcHeader>)
    requires forall h :: h in list ==> h.body == old(h.body) && h.marked == old(h.marked)
    ensures Snapshot(list) == old(Snapshot(list)) && MarksOf(list) == old(MarksOf(list))
  {
    hide Snapshot, MarksOf;
    assert forall i :: 0 <= i < |list| ==> Snapshot(list)[i] == old(Snapshot(list)[i]);
  }

  lemma SnapshotFirst(h: GcHeader, list: seq<GcHeader>)
    ensures Snapshot([h] + list) == [h.AsObj()] + Snapshot(list)
    ensures MarksOf([h] + list) == [h.marked] + MarksOf(list)
  {
    assert ([h] + list)[1..] == list;
  }

  /** A registered `void**` root: a location whose current word is a root. */
  class RootSlot {
    var word: Word

    constructor (word: Word) { this.word := word; }
  }

  /** The root words a collection starts from: non-null registered slots, then the
      writable static data, then the stack if its bottom is known. */
  function SlotContents(roots: seq<RootSlot>): seq<Word>
    reads roots`word
  {
    if roots == [] then [] else SlotContents(roots[..|roots| - 1]) + OneSlotContents(roots[|roots| - 1])
  }

  function OneSlotContents(slot: RootSlot): seq<Word>
    reads slot`word
  {
    if slot.word != 0 then [slot.word] else []
  }

  lemma SlotContentsSnoc(roots: seq<RootSlot>, i: nat)
    requires i < |roots|
    ensures SlotContents(roots[..i + 1]) == SlotContents(roots[..i]) + OneSlotContents(roots[i])
  {
    assert roots[..i + 1][..i] == roots[..i];
  }

  lemma {:induction false} SlotContentsHolds(roots: seq<RootSlot>, slot: RootSlot)
    requires slot in roots && slot.word != 0
    ensures slot.word in SlotContents(roots)
  {
    if slot in roots[..|roots| - 1] {
      SlotContentsHolds(roots[..|roots| - 1], slot);
    } else {
      assert roots[|roots| - 1] == slot && OneSlotContents(slot) == [slot.word];
    }
  }

  lemma {:induction false} SlotOf(roots: seq<RootSlot>, w: Word) returns (slot: RootSlot)
    requires w in SlotContents(roots)
    ensures slot in roots && slot.word == w && w != 0
  {
    if w in SlotContents(roots[..|roots| - 1]) {
      slot := SlotOf(roots[..|roots| - 1], w);
    } else {
      slot := roots[|roots| - 1];
    }
  }

  function Pace(live: nat): (threshold: nat)
    ensures threshold == 1024 * 1024 || threshold == 2 * live
    ensures threshold >= 1024 * 1024 && threshold >= 2 * live
  {
    if live * 2 < MIB then MIB else live * 2
  }

  /** The heap as a sweep finds it. */
  datatype SweepStart = SweepStart(list: seq<GcHeader>, objs: seq<Obj>, marks: seq<bool>, finalized: seq<GcHeader>)

  class Collector {
    var head: GcHeader?
    var bytesLive: int
    var bytesSinceCollect: nat
    var objectCount: int
    var threshold: nat
    var collectCount: nat
    var collecting: bool
    var roots: seq<RootSlot>

    ghost var list: seq<GcHeader>
    ghost var headers: set<GcHeader>       // the members of list
    ghost var finalized: seq<GcHeader>     // every object freed so far, in order
    ghost var liveAtCollect: nat           // bytes live right after the last collection
    ghost var lastAlloc: nat               // bytes of the latest allocation
    ghost var tuned: bool                  // ts_gc_set_threshold has been called

    ghost function Objs(): (objs: seq<Obj>)
      reads this`list, list`body
      ensures |objs| == |list|
      ensures forall i :: 0 <= i < |list| ==> objs[i] == list[i].AsObj()
    {
      Snapshot(list)
    }

    ghost function NodeAt(i: nat): GcHeader?
      reads this`list
    {
      if i < |list| then list[i] else null
    }

    ghost function MarkBits(): (bits: seq<bool>)
      reads this`list, list`marked
      ensures |bits| == |list|
      ensures forall i :: 0 <= i < |list| ==> bits[i] == list[i].marked
    {
      MarksOf(list)
    }

    ghost function MarkedSet(): set<nat>
      reads this`list, list`marked
    {
      TrueAt(MarkBits())
    }

    ghost function UnmarkedSet(): set<nat>
      reads this`list, list`marked
    {
      FalseAt(MarkBits())
    }

    /** The intrusive list spells out `list`, without sharing, over disjoint blocks. */
    ghost predicate Linked()
      reads this`head, this`list, this`headers, list`next, list`body
    {
      Chained() && WellPlaced(Objs())
    }

    ghost predicate Chained()
      reads this`head, this`list, this`headers, list`next
    {
      && Distinct(list)
      && headers == (set h | h in list)
      && head == NodeAt(0)
      && (forall i {:trigger list[i].next} :: 0 <= i < |list| ==> list[i].next == NodeAt(i + 1))
    }

    ghost predicate Accounted()
      reads this`bytesLive, this`objectCount, this`list, list`body
    {
      bytesLive == TotalBytes(Objs()) && objectCount == |list|
    }

    /** Allocation pressure stays within one allocation of the adaptive threshold. */
    ghost predicate Paced()
      reads this`bytesLive, this`bytesSinceCollect, this`threshold, this`collectCount
      reads this`liveAtCollect, this`lastAlloc, this`tuned
    {
      && bytesLive <= liveAtCollect + bytesSinceCollect
      && (!tuned ==> bytesSinceCollect < threshold + lastAlloc)
      && (!tuned && collectCount > 0 ==> threshold == Pace(liveAtCollect))
      && (collectCount == 0 ==> liveAtCollect == 0 && (!tuned ==> threshold == 4 * MIB))
    }

    /** The heap between collections: linked, counted, unmarked, nothing finalised. */
    ghost predicate Settled()
      reads this`head, this`list, this`headers, this`bytesLive, this`objectCount, this`finalized
      reads list`next, list`body, list`marked
    {
      Linked() && Accounted() && MarkedSet() == {} && OnceOnly(list, finalized)
    }

    ghost predicate Valid()
      reads this, list
    {
      Settled() && Paced() && |roots| <= MAX_ROOTS && !collecting
    }

    constructor ()
      ensures Valid() && list == [] && finalized == [] && roots == [] && collectCount == 0 && !tuned
    {
      head := null;
      bytesLive, bytesSinceCollect, objectCount := 0, 0, 0;
      threshold := 4 * MIB;
      collectCount := 0;
      collecting := false;
      roots := [];
      list, headers, finalized := [], {}, [];
      liveAtCollect, lastAlloc, tuned := 0, 0, false;
    }

    /** The object whose payload holds p, interior pointers included. */
    method FindObject(p: Word) returns (h: GcHeader?, ghost k: nat)
      requires Linked()
      ensures h == null ==> HitsNone(Objs(), p)
      ensures h != null ==> HitsOnly(Objs(), p, k) && k < |list| && h == list[k]
    {
      k := 0;
      if p == 0 { return null, 0; }
      h := head;
      while h != null
        invariant k <= |list| && h == NodeAt(k)
        invariant forall i :: 0 <= i < k ==> !Contains(Objs()[i], p)
        decreases |list| - k
      {
        assert Objs()[k] == list[k].AsObj();
        if h.addr == p || h.addr <= p < h.addr + h.size {
          forall i: nat | i < |list| && Contains(Objs()[i], p) ensures i == k {
            ResolvesUniquely(Objs(), i, k, p);
          }
          return;
        }
        h := h.next;
        k := k + 1;
      }
    }

    method ScanRange(ws: seq<Word>, ghost grey: set<nat>)
      requires Linked() && ClosedExcept(Objs(), MarkedSet(), grey)
      modifies headers`marked
      ensures Marks(Objs(), old(MarkedSet()), MarkedSet(), ws, grey)
      ensures UnmarkedSet() <= old(UnmarkedSet())
      decreases UnmarkedSet(), 1
    {
      hide Marks, MarksFrom, ClosedExcept, HitsOnly, HitsNone, Linked, MarkBits, UnmarkedSet, Objs;
      ghost var objs := Objs();
      MarksNothing(objs, MarkedSet(), grey);
      var i := 0;
      while i < |ws|
        invariant i <= |ws|
        invariant Objs() == objs && Linked()
        invariant Marks(objs, old(MarkedSet()), MarkedSet(), ws[..i], grey)
        invariant UnmarkedSet() <= old(UnmarkedSet())
      {
        var candidate := ws[i];
        ghost var before := MarkedSet();
        MarksClosed(objs, old(MarkedSet()), before, ws[..i], grey);
        var h, k := FindObject(candidate);
        if h == null {
          MarksNoTarget(objs, before, candidate, grey);
        } else {
          if !h.marked {
            MarkObject(h, k, grey);
          } else {
            MarksAgain(objs, before, k, grey);
          }
          MarksWord(objs, before, MarkedSet(), candidate, k, grey);
        }
        MarksThen(objs, old(MarkedSet()), before, MarkedSet(), ws[..i], [candidate], grey);
        assert ws[..i + 1] == ws[..i] + [candidate];
        i := i + 1;
      }
      assert ws[..|ws|] == ws;
    }

    /** A word whose target is handed to the marker without a look at its mark. */
    method ScanKey(key: Word, ghost grey: set<nat>)
      requires Linked() && ClosedExcept(Objs(), MarkedSet(), grey)
      modifies headers`marked
      ensures Marks(Objs(), old(MarkedSet()), MarkedSet(), [key], grey)
      ensures UnmarkedSet() <= old(UnmarkedSet())
      decreases UnmarkedSet(), 1
    {
      hide Marks, MarksFrom, ClosedExcept, HitsOnly, HitsNone, Linked, MarkBits, UnmarkedSet, Objs;
      ghost var objs, before := Objs(), MarkedSet();
      var h, k := FindObject(key);
      if h == null {
        MarksNoTarget(objs, before, key, grey);
      } else {
        MarkObject(h, k, grey);
        MarksWord(objs, before, MarkedSet(), key, k, grey);
      }
    }

    method ScanSlot(slot: Slot, ghost grey: set<nat>)
      requires Linked() && ClosedExcept(Objs(), MarkedSet(), grey)
      modifies headers`marked
      ensures Marks(Objs(), old(MarkedSet()), MarkedSet(), OneSlotWords(slot), grey)
      ensures UnmarkedSet() <= old(UnmarkedSet())
      decreases UnmarkedSet(), 2
    {
      hide Marks, MarksFrom, ClosedExcept, HitsOnly, HitsNone, Linked, MarkBits, UnmarkedSet, Objs;
      ghost var objs, before := Objs(), MarkedSet();
      if !slot.occupied {
        MarksNothing(objs, before, grey);
        return;
      }
      ScanKey(slot.key, grey);
      ghost var mid := MarkedSet();
      MarksClosed(objs, before, mid, [slot.key], grey);
      ScanRange(CellWords([slot.value]), grey);
      MarksThen(objs, before, mid, MarkedSet(), [slot.key], CellWords([slot.value]), grey);
    }

    method ScanSlots(slots: seq<Slot>, ghost grey: set<nat>)
      requires Linked() && ClosedExcept(Objs(), MarkedSet(), grey)
      modifies headers`marked
      ensures Marks(Objs(), old(MarkedSet()), MarkedSet(), SlotWords(slots), grey)
      ensures UnmarkedSet() <= old(UnmarkedSet())
      decreases UnmarkedSet(), 3
    {
      hide Marks, MarksFrom, ClosedExcept, HitsOnly, HitsNone, Linked, MarkBits, UnmarkedSet, Objs;
      ghost var objs := Objs();
      MarksNothing(objs, MarkedSet(), grey);
      var i := 0;
      while i < |slots|
        invariant i <= |slots|
        invariant Objs() == objs && Linked()
        invariant Marks(objs, old(MarkedSet()), MarkedSet(), SlotWords(slots[..i]), grey)
        invariant UnmarkedSet() <= old(UnmarkedSet())
      {
        ghost var before := MarkedSet();
        MarksClosed(objs, old(MarkedSet()), before, SlotWords(slots[..i]), grey);
        ScanSlot(slots[i], grey);
        MarksThen(objs, old(MarkedSet()), before, MarkedSet(), SlotWords(slots[..i]), OneSlotWords(slots[i]), grey);
        SlotWordsSnoc(slots, i);
        i := i + 1;
      }
      assert slots[..|slots|] == slots;
    }

    /** The kind-aware scan of one payload. */
    method ScanBody(b: Body, ghost grey: set<nat>)
      requires Linked() && ClosedExcept(Objs(), MarkedSet(), grey)
      modifies headers`marked
      ensures Marks(Objs(), old(MarkedSet()), MarkedSet(), Scanned(b), grey)
      ensures UnmarkedSet() <= old(UnmarkedSet())
      decreases UnmarkedSet(), 4
    {
      hide Marks, MarksFrom, ClosedExcept, HitsOnly, HitsNone, Linked, MarkBits, UnmarkedSet, Objs;
      ghost var objs, before := Objs(), MarkedSet();
      MarksNothing(objs, before, grey);
      match b {
        case Raw(words) =>
          ScanRange(words, grey);
        case Str(_) =>
        case Arr(items, length) =>
          if items.Some? && length > 0 {
            ScanRange(CellWords(InUse(items.value, length)), grey);
          }
        case HashMap(slots) =>
          if slots.Some? {
            ScanSlots(slots.value, grey);
          }
        case Closure(captured) =>
          if captured.Some? && |captured.value| > 0 {
            ScanRange(CellWords(captured.value), grey);
          }
        case Promise(r, f, j, n, next) =>
          ScanRange(CellWords([r, f, j, n]), grey);
          ghost var mid := MarkedSet();
          MarksClosed(objs, before, mid, CellWords([r, f, j, n]), grey);
          ScanKey(next, grey);
          MarksThen(objs, before, mid, MarkedSet(), CellWords([r, f, j, n]), [next], grey);
      }
    }

    method SetMark(h: GcHeader, bit: bool, ghost k: nat)
      requires Linked() && k < |list| && list[k] == h
      modifies h`marked
      ensures MarkBits() == old(MarkBits())[k := bit]
    {
      h.marked := bit;
      forall i | 0 <= i < |list| && i != k ensures list[i] != h {
        if i < k { assert list[i] != list[k]; } else { assert list[k] != list[i]; }
      }
    }

    method MarkObject(h: GcHeader, ghost k: nat, ghost grey: set<nat>)
      requires Linked() && ClosedExcept(Objs(), MarkedSet(), grey)
      requires k < |list| && list[k] == h
      modifies headers`marked
      ensures MarksFrom(Objs(), old(MarkedSet()), MarkedSet(), k, grey)
      ensures UnmarkedSet() <= old(UnmarkedSet())
      decreases UnmarkedSet(), 0
    {
      hide Marks, MarksFrom, ClosedExcept, WellPlaced, Distinct, Scanned, Snapshot;
      ghost var objs, before := Objs(), MarkedSet();
      assert objs[k] == h.AsObj();
      if h.marked {
        MarksAgain(objs, before, k, grey);
        return;
      }
      SetMark(h, true, k);
      assert MarkedSet() == before + {k} && UnmarkedSet() == old(UnmarkedSet()) - {k} && k in old(UnmarkedSet());
      GreyStart(objs, before, k, grey);
      ScanBody(h.body, grey + {k});
      MarksObject(objs, before, MarkedSet(), k, grey);
    }

    ghost function RootWords(statics: seq<Word>, stack: Option<seq<Word>>): seq<Word>
      reads this`roots, roots`word
    {
      SlotContents(roots) + statics + if stack.Some? then stack.value else []
    }

    method ScanRoots()
      requires Linked() && MarkedSet() == {}
      modifies headers`marked
      ensures Marks(Objs(), {}, MarkedSet(), SlotContents(roots), {})
    {
      hide Marks, MarksFrom, ClosedExcept, Linked, MarkBits, UnmarkedSet, Objs;
      ghost var objs := Objs();
      NothingClosed(objs);
      MarksNothing(objs, {}, {});
      var i := 0;
      while i < |roots|
        invariant i <= |roots|
        invariant Objs() == objs && Linked()
        invariant Marks(objs, {}, MarkedSet(), SlotContents(roots[..i]), {})
      {
        ghost var before, slots := MarkedSet(), SlotContents(roots[..i]);
        MarksClosed(objs, {}, before, slots, {});
        if roots[i].word != 0 {
          ScanKey(roots[i].word, {});
        } else {
          MarksNothing(objs, before, {});
        }
        MarksThen(objs, {}, before, MarkedSet(), slots, OneSlotContents(roots[i]), {});
        SlotContentsSnoc(roots, i);
        i := i + 1;
      }
      assert roots[..|roots|] == roots;
    }

    /** Roots, static data and stack, in that order, starting with no marks. */
    method MarkRoots(statics: seq<Word>, stack: Option<seq<Word>>)
      requires Linked() && MarkedSet() == {}
      modifies headers`marked
      ensures MarkedSet() == LiveSet(Objs(), RootWords(statics, stack))
    {
      hide Marks, MarksFrom, ClosedExcept, Linked, Live, MarkBits, UnmarkedSet, Objs;
      ghost var objs, slots := Objs(), SlotContents(roots);
      ScanRoots();
      ghost var m1 := MarkedSet();
      MarksClosed(objs, {}, m1, slots, {});
      ScanRange(statics, {});
      ghost var m2 := MarkedSet();
      MarksThen(objs, {}, m1, m2, slots, statics, {});
      MarksClosed(objs, {}, m2, slots + statics, {});
      if stack.Some? {
        ScanRange(stack.value, {});
        MarksThen(objs, {}, m2, MarkedSet(), slots + statics, stack.value, {});
      } else {
        assert slots + statics + [] == slots + statics;
      }
      ClosedSetIsLiveSet(objs, RootWords(statics, stack), MarkedSet());
    }

    /** Takes one object off the list by rewriting a single pointer. */
    method Unlink(h: GcHeader, prev: GcHeader?, ghost k: nat)
      requires Chained()
      requires k < |list| && list[k] == h && prev == if k > 0 then list[k - 1] else null
      modifies this`head, this`list, this`headers, headers`next
      ensures Chained()
      ensures list == RemoveAt(old(list), k) && headers == old(headers) - {h} && h !in list
    {
      ghost var l := list;
      assert Distinct(RemoveAt(l, k)) && h !in RemoveAt(l, k) && headers - {h} == set x | x in RemoveAt(l, k) by {
        RemoveAtMembers(l, k);
      }
      if prev != null { prev.next := h.next; } else { head := h.next; }
      list := RemoveAt(list, k);
      headers := headers - {h};
      forall i | 0 <= i < |list| ensures list[i].next == NodeAt(i + 1) {
        assert list[i] == l[Skip(i, k)];
        assert Skip(i, k) == k - 1 ==> list[i] == prev;
        assert Skip(i, k) != k - 1 ==> list[i] != prev;
      }
    }

    /** What the list without one object looks like as values. */
    lemma WithoutOne(k: nat)
      requires Linked() && k < |list|
      ensures var left := RemoveAt(list, k);
        && Snapshot(left) == RemoveAt(Objs(), k) && MarksOf(left) == RemoveAt(MarkBits(), k)
        && WellPlaced(Snapshot(left)) && TotalBytes(Objs()) == TotalBytes(Snapshot(left)) + list[k].size + HDR_SIZE
    {
      SnapshotRemove(list, k);
      hide Snapshot, MarksOf, WellPlaced, TotalBytes, RemoveAt, Chained;
      WithoutOnePlaced(Objs(), k);
      WithoutOneBytes(Objs(), k);
    }

    /** The same seen on the heap's contents. */
    method Detach(h: GcHeader, prev: GcHeader?, ghost k: nat)
      requires Linked() && k < |list| && list[k] == h && prev == if k > 0 then list[k - 1] else null
      modifies this`head, this`list, this`headers, headers`next
      ensures Linked()
      ensures list == RemoveAt(old(list), k) && headers == old(headers) - {h} && h !in list
      ensures Objs() == RemoveAt(old(Objs()), k) && MarkBits() == RemoveAt(old(MarkBits()), k)
      ensures TotalBytes(old(Objs())) == TotalBytes(Objs()) + h.size + HDR_SIZE
    {
      WithoutOne(k);
      ghost var left := RemoveAt(list, k);
      NextOf(k);
      hide *;
      Relink(h, prev, k, left);
      SameValues(left);
      LinkedAgain(left);
    }

    /** `Unlink`, as seen by the list's values. */
    method Relink(h: GcHeader, prev: GcHeader?, ghost k: nat, ghost left: seq<GcHeader>)
      requires Linked() && k < |list| && list[k] == h && prev == if k > 0 then list[k - 1] else null
      requires left == RemoveAt(list, k)
      modifies this`head, this`list, this`headers, headers`next
      ensures Chained() && list == left && headers == old(headers) - {h} && h !in list
      ensures forall x :: x in left ==> x.body == old(x.body) && x.marked == old(x.marked)
    {
      hide Snapshot, MarksOf, WellPlaced, RemoveAt;
      Unlink(h, prev, k);
    }

    lemma LinkedAgain(left: seq<GcHeader>)
      requires Chained() && list == left && WellPlaced(Snapshot(left))
      ensures Linked() && Objs() == Snapshot(left) && MarkBits() == MarksOf(left)
    {
      hide Chained, WellPlaced, Snapshot, MarksOf;
    }

    /** Unlinks, uncounts and finalises one object of the list. */
    method FreeHeader(h: GcHeader, prev: GcHeader?, ghost k: nat)
      requires Linked() && Accounted()
      requires k < |list| && list[k] == h && prev == if k > 0 then list[k - 1] else null
      modifies this`head, this`bytesLive, this`objectCount, this`list, this`headers, this`finalized
      modifies headers`next, h`body
      ensures Linked() && Accounted()
      ensures list == RemoveAt(old(list), k) && headers == old(headers) - {h} && h !in list
      ensures Objs() == RemoveAt(old(Objs()), k) && MarkBits() == RemoveAt(old(MarkBits()), k)
      ensures finalized == old(finalized) + [h] && h.body == Released(old(h.body))
      ensures bytesLive + h.size + HDR_SIZE == old(bytesLive) && objectCount + 1 == old(objectCount)
    {
      hide Linked, TotalBytes, Objs, MarkBits, RemoveAt, Released;
      Detach(h, prev, k);
      bytesLive := if bytesLive >= h.size + HDR_SIZE then bytesLive - (h.size + HDR_SIZE) else 0;
      if objectCount > 0 { objectCount := objectCount - 1; }
      h.body := Released(h.body);
      finalized := finalized + [h];
    }

    lemma NextOf(k: nat)
      requires Linked() && k < |list|
      ensures list[k].next == NodeAt(k + 1) && list[k] in headers
    {
    }

    ghost function PrevAt(k: nat): GcHeader?
      requires k <= |list|
      reads this`list
    {
      if k > 0 then list[k - 1] else null
    }

    /** Sweeps the object at position k of the list. */
    method SweepOne(h: GcHeader, prev: GcHeader?, ghost k: nat)
      returns (next: GcHeader?, prev': GcHeader?, ghost k': nat)
      requires Linked() && Accounted() && k < |list| && list[k] == h && prev == PrevAt(k)
      modifies this`head, this`bytesLive, this`objectCount, this`list, this`headers, this`finalized
      modifies headers`next, h`body, h`marked
      ensures Linked() && Accounted() && headers <= old(headers)
      ensures k' == k + (if old(h.marked) then 1 else 0) <= |list|
      ensures next == NodeAt(k') && prev' == PrevAt(k')
      ensures list == Stay(old(list), k, old(h.marked)) && Objs() == Stay(old(Objs()), k, old(h.marked))
      ensures MarkBits() == StayBits(old(MarkBits()), k, old(h.marked))
      ensures finalized == old(finalized) + Gone(h, old(h.marked))
    {
      hide Linked, Accounted, Objs;
      NextOf(k);
      next := h.next;
      if !h.marked {
        FreeHeader(h, prev, k);
        prev', k' := prev, k;
      } else {
        SetMark(h, false, k);
        prev', k' := h, k + 1;
      }
    }

    /** The sweep's loop invariant after i objects, at position k of the list. */
    ghost predicate Sweeping(w: SweepStart, i: nat, k: nat, freed: seq<GcHeader>, freedObjs: seq<Obj>)
      reads this, list
    {
      && i <= |w.list| == |w.objs| == |w.marks|
      && k == SweptPrefix(w.list, w.marks, i) == SweptPrefix(w.objs, w.marks, i) <= |list|
      && Linked() && Accounted()
      && Swept(w.list, w.marks, i, list, MarkBits(), freed)
      && Swept(w.objs, w.marks, i, Objs(), MarkBits(), freedObjs)
      && finalized == w.finalized + freed
    }

    method SweepStep(h: GcHeader, prev: GcHeader?, ghost w: SweepStart, ghost i: nat, ghost k: nat,
                     ghost freed: seq<GcHeader>, ghost freedObjs: seq<Obj>)
      returns (next: GcHeader?, prev': GcHeader?, ghost k': nat, ghost freed': seq<GcHeader>,
               ghost freedObjs': seq<Obj>)
      requires Sweeping(w, i, k, freed, freedObjs) && k < |list| && h == list[k] && prev == PrevAt(k)
      modifies this`head, this`bytesLive, this`objectCount, this`list, this`headers, this`finalized
      modifies headers`next, headers`body, headers`marked
      ensures headers <= old(headers) && i < |w.list| && Sweeping(w, i + 1, k', freed', freedObjs')
      ensures k' <= |list| && next == NodeAt(k') && prev' == PrevAt(k')
    {
      SweepAt(w, i, k, freed, freedObjs);
      ghost var l, o, b, marked := list, Objs(), MarkBits(), h.marked;
      hide Linked, Accounted, Swept, SweptPrefix, Select, MarkBits, Objs, Stay, StayBits, Gone;
      NextOf(k);
      freed', freedObjs' := freed + Gone(h, marked), freedObjs + Gone(w.objs[i], marked);
      next, prev', k' := SweepOne(h, prev, k);
      SweepMoved(w, i, k, freed, freedObjs, l, o, b);
    }

    /** The object to sweep next, and its mark. */
    lemma SweepAt(w: SweepStart, i: nat, k: nat, freed: seq<GcHeader>, freedObjs: seq<Obj>)
      requires Sweeping(w, i, k, freed, freedObjs) && k < |list|
      ensures i < |w.list| && Linked() && Accounted() && finalized == w.finalized + freed
      ensures list[k] == w.list[i] && list[k].marked == MarkBits()[k] == w.marks[i]
      ensures SweptAt(w, i, k, list, Objs(), MarkBits(), freed, freedObjs)
    {
      hide Linked, Accounted, Swept, Select;
      SweptHere(w.list, w.marks, i, list, MarkBits(), freed);
    }

    /** The sweep's invariant on the values of the heap alone. */
    ghost predicate SweptAt(w: SweepStart, i: nat, k: nat, l: seq<GcHeader>, o: seq<Obj>, b: seq<bool>,
                            freed: seq<GcHeader>, freedObjs: seq<Obj>) {
      && i <= |w.list| == |w.objs| == |w.marks| && |l| == |o| == |b|
      && k == SweptPrefix(w.list, w.marks, i) == SweptPrefix(w.objs, w.marks, i) <= |l|
      && Swept(w.list, w.marks, i, l, b, freed) && Swept(w.objs, w.marks, i, o, b, freedObjs)
    }

    lemma SweepMoved(w: SweepStart, i: nat, k: nat, freed: seq<GcHeader>, freedObjs: seq<Obj>,
                     l: seq<GcHeader>, o: seq<Obj>, b: seq<bool>)
      requires SweptAt(w, i, k, l, o, b, freed, freedObjs) && i < |w.list| && k < |l|
      requires Linked() && Accounted() && list == Stay(l, k, w.marks[i]) && Objs() == Stay(o, k, w.marks[i])
      requires MarkBits() == StayBits(b, k, w.marks[i])
      requires finalized == w.finalized + freed + Gone(w.list[i], w.marks[i])
      ensures Sweeping(w, i + 1, k + (if w.marks[i] then 1 else 0), freed + Gone(w.list[i], w.marks[i]),
                       freedObjs + Gone(w.objs[i], w.marks[i]))
    {
      SweptStep(w.list, w.marks, i, l, b, freed);
      SweptStep(w.objs, w.marks, i, o, b, freedObjs);
      ConcatAssoc(w.finalized, freed, Gone(w.list[i], w.marks[i]));
      hide Linked, Accounted, Swept, Select, MarkBits, Objs, Gone, RemoveAt;
    }

    lemma SweepBegin(w: SweepStart)
      requires Linked() && Accounted() && w == SweepStart(list, Objs(), MarkBits(), finalized)
      ensures Sweeping(w, 0, 0, [], []) && head == NodeAt(0)
    {
      SweptStart(w.list, w.marks);
      SweptStart(w.objs, w.marks);
    }

    lemma SweepDone(w: SweepStart, i: nat, k: nat, freed: seq<GcHeader>, freedObjs: seq<Obj>)
      requires Sweeping(w, i, k, freed, freedObjs) && k == |list|
      ensures list == Select(w.list, TrueAt(w.marks)) && Objs() == Select(w.objs, TrueAt(w.marks))
      ensures finalized == w.finalized + Select(w.list, FalseAt(w.marks)) && MarkedSet() == {}
      ensures Linked() && Accounted()
    {
      hide Linked, Accounted, Select, Swept;
      SweptHere(w.list, w.marks, i, list, MarkBits(), freed);
      assert i == |w.list|;
      SweptAll(w.list, w.marks, list, MarkBits(), freed);
      SweptAll(w.objs, w.marks, Objs(), MarkBits(), freedObjs);
    }

    /** One pass over the list: unmarked objects are unlinked and finalised, the
        others lose their mark and keep their place. */
    method Sweep()
      requires Linked() && Accounted()
      modifies this`head, this`bytesLive, this`objectCount, this`list, this`headers, this`finalized
      modifies headers`next, headers`body, headers`marked
      ensures Linked() && Accounted() && headers <= old(headers)
      ensures list == Select(old(list), old(MarkedSet())) && MarkedSet() == {}
      ensures Objs() == Select(old(Objs()), old(MarkedSet()))
      ensures finalized == old(finalized) + Select(old(list), old(UnmarkedSet()))
    {
      hide Linked, Accounted, Sweeping, Select, TrueAt, FalseAt;
      ghost var w := SweepStart(list, Objs(), MarkBits(), finalized);
      ghost var i: nat, k: nat, freed: seq<GcHeader>, freedObjs: seq<Obj> := 0, 0, [], [];
      SweepBegin(w);
      var prev: GcHeader? := null;
      var h := head;
      while h != null
        invariant k <= |list| && h == NodeAt(k) && prev == PrevAt(k) && i <= |w.list|
        invariant Sweeping(w, i, k, freed, freedObjs) && headers <= old(headers)
        decreases |w.list| - i
      {
        h, prev, k, freed, freedObjs := SweepStep(h, prev, w, i, k, freed, freedObjs);
        i := i + 1;
      }
      SweepDone(w, i, k, freed, freedObjs);
    }

    /** Clears every mark bit. */
    method ClearMarks()
      requires Linked()
      modifies headers`marked
      ensures MarkedSet() == {}
    {
      var h := head;
      ghost var k := 0;
      while h != null
        invariant k <= |list| && h == NodeAt(k)
        invariant forall i :: 0 <= i < k ==> !list[i].marked
        decreases |list| - k
      {
        h.marked := false;
        h := h.next;
        k := k + 1;
      }
    }

    lemma UnmarkedIsGarbage(words: seq<Word>)
      requires MarkedSet() == LiveSet(Objs(), words)
      ensures UnmarkedSet() == GarbageSet(Objs(), words)
    {
      LiveOrGarbage(Objs(), words, MarkBits());
    }

    /** Mark, then sweep. */
    method MarkAndSweep(statics: seq<Word>, stack: Option<seq<Word>>)
      requires Linked() && Accounted()
      modifies this`head, this`bytesLive, this`objectCount, this`list, this`headers, this`finalized
      modifies headers
      ensures Linked() && Accounted() && headers <= old(headers) && MarkedSet() == {}
      ensures list == Select(old(list), LiveSet(old(Objs()), old(RootWords(statics, stack))))
      ensures Objs() == Survivors(old(Objs()), old(RootWords(statics, stack)))
      ensures finalized == old(finalized) + Select(old(list), GarbageSet(old(Objs()), old(RootWords(statics, stack))))
    {
      hide Linked, Accounted, Select, LiveSet, GarbageSet, RootWords, Objs, MarkedSet, UnmarkedSet;
      ClearMarks();
      MarkRoots(statics, stack);
      UnmarkedIsGarbage(RootWords(statics, stack));
      Sweep();
    }

    /** The same, with the bookkeeping of which objects are gone for good. */
    method Reclaim(statics: seq<Word>, stack: Option<seq<Word>>)
      requires Settled()
      modifies this`head, this`bytesLive, this`objectCount, this`list, this`headers, this`finalized
      modifies headers
      ensures Settled() && bytesLive >= 0 && headers <= old(headers)
      ensures list == Select(old(list), LiveSet(old(Objs()), old(RootWords(statics, stack))))
      ensures Objs() == Survivors(old(Objs()), old(RootWords(statics, stack)))
      ensures finalized == old(finalized) + Select(old(list), GarbageSet(old(Objs()), old(RootWords(statics, stack))))
    {
      RetireGarbage(list, finalized, Objs(), RootWords(statics, stack));
      hide Linked, Select, LiveSet, GarbageSet, RootWords, OnceOnly, MarkedSet, Objs;
      MarkAndSweep(statics, stack);
    }

    /** Restarts the allocation count and adapts the threshold: at least 1 MiB, else
        twice what is live. */
    method Repace()
      requires bytesLive >= 0
      modifies this`bytesSinceCollect, this`collectCount, this`threshold, this`liveAtCollect
      ensures Paced() && collectCount == old(collectCount) + 1 && bytesSinceCollect == 0
      ensures threshold == Pace(bytesLive) && liveAtCollect == bytesLive
    {
      bytesSinceCollect := 0;
      collectCount := collectCount + 1;
      var nextThreshold := bytesLive * 2;
      if nextThreshold < MIB { nextThreshold := MIB; }
      threshold := nextThreshold;
      liveAtCollect := bytesLive;
    }

    /** A full collection.  What is left is what the roots reach, in the old order;
        every other object is finalised once, in list order. */
    method Collect(statics: seq<Word>, stack: Option<seq<Word>>)
      requires Valid()
      modifies this, headers
      ensures Valid() && headers <= old(headers)
      ensures list == Select(old(list), LiveSet(old(Objs()), old(RootWords(statics, stack))))
      ensures Objs() == Survivors(old(Objs()), old(RootWords(statics, stack)))
      ensures finalized == old(finalized) + Select(old(list), GarbageSet(old(Objs()), old(RootWords(statics, stack))))
      ensures collectCount == old(collectCount) + 1 && bytesSinceCollect == 0
      ensures threshold == Pace(bytesLive) && liveAtCollect == bytesLive
      ensures roots == old(roots) && tuned == old(tuned) && lastAlloc == old(lastAlloc)
    {
      hide Settled, Select, LiveSet, GarbageSet, RootWords, Survivors, Objs, Paced;
      if collecting { return; }
      collecting := true;
      Reclaim(statics, stack);
      Repace();
      collecting := false;
    }

    method Prepend(h: GcHeader)
      requires Chained() && h !in list && !h.marked
      modifies this`head, this`list, this`headers, h`next
      ensures Chained() && list == [h] + old(list) && headers == old(headers) + {h}
      ensures Objs() == [h.AsObj()] + old(Objs()) && MarkBits() == [false] + old(MarkBits())
    {
      SnapshotFirst(h, list);
      ghost var l := list;
      h.next := head;
      head := h;
      list := [h] + list;
      headers := headers + {h};
      hide Snapshot, MarksOf, Chained, Distinct;
      SameValues(list);
      ChainedBehind(h, l);
    }

    lemma ChainedBehind(h: GcHeader, l: seq<GcHeader>)
      requires Distinct(l) && h !in l && list == [h] + l && head == h && headers == (set x | x in l) + {h}
      requires h.next == if l == [] then null else l[0]
      requires forall i {:trigger l[i].next} :: 0 <= i < |l| ==> l[i].next == if i + 1 < |l| then l[i + 1] else null
      ensures Chained()
    {
      forall i | 0 <= i < |list| ensures list[i].next == NodeAt(i + 1) {
        assert i > 0 ==> list[i] == l[i - 1];
      }
    }

    method LinkFirst(h: GcHeader)
      requires Settled() && Fits(Objs(), h.addr, h.size) && h !in list && h !in finalized && !h.marked
      modifies this`head, this`list, this`headers, h`next
      ensures Linked() && MarkedSet() == {} && OnceOnly(list, finalized)
      ensures TotalBytes(Objs()) == bytesLive + h.size + HDR_SIZE && |list| == objectCount + 1
      ensures list == [h] + old(list) && headers == old(headers) + {h} && Objs() == [h.AsObj()] + old(Objs())
    {
      WithOne(Objs(), h.AsObj());
      AddClear(MarkBits());
      assert OnceOnly([h] + list, finalized);
      hide Chained, WellPlaced, TotalBytes, Fits, OnceOnly, TrueAt, Objs, MarkBits;
      Prepend(h);
    }

    /** Links and counts a zeroed block that malloc has just returned. */
    method Insert(addr: nat, size: nat, kind: Kind)
      requires Settled() && Fits(Objs(), addr, size)
      modifies this`head, this`list, this`headers, this`bytesLive, this`bytesSinceCollect, this`objectCount,
          this`lastAlloc
      ensures Settled()
      ensures Objs() == [Obj(addr, size, ZeroBody(kind, size))] + old(Objs())
      ensures |list| > 0 && fresh(list[0]) && list[1..] == old(list) && headers == old(headers) + {list[0]}
      ensures bytesLive == old(bytesLive) + HDR_SIZE + size && lastAlloc == HDR_SIZE + size
      ensures bytesSinceCollect == old(bytesSinceCollect) + HDR_SIZE + size
    {
      var total := HDR_SIZE + size;
      var h := new GcHeader(addr, size, ZeroBody(kind, size));
      hide Linked, ZeroBody, TotalBytes, Fits, OnceOnly, MarkedSet, Objs;
      LinkFirst(h);
      bytesLive := bytesLive + total;
      bytesSinceCollect := bytesSinceCollect + total;
      objectCount := objectCount + 1;
      lastAlloc := total;
    }

    /** The heap malloc is first asked in: collected if allocation pressure is high. */
    ghost function AfterPressure(statics: seq<Word>, stack: Option<seq<Word>>): seq<Obj>
      reads this, list, roots
    {
      if bytesSinceCollect >= threshold then Survivors(Objs(), RootWords(statics, stack)) else Objs()
    }

    /** The heap the new block joins: collected once more if malloc first refused. */
    ghost function AfterMalloc(first: Option<nat>, statics: seq<Word>, stack: Option<seq<Word>>): seq<Obj>
      reads this, list, roots
    {
      var base := AfterPressure(statics, stack);
      if first.Some? then base else Survivors(base, RootWords(statics, stack))
    }

    /** Collects under allocation pressure. */
    method CollectIfPressed(statics: seq<Word>, stack: Option<seq<Word>>)
      requires Valid()
      modifies this, headers
      ensures Valid() && headers <= old(headers) && Objs() == old(AfterPressure(statics, stack))
      ensures RootWords(statics, stack) == old(RootWords(statics, stack)) && tuned == old(tuned)
      ensures bytesSinceCollect < threshold || bytesSinceCollect == 0
    {
      hide Settled, Survivors, Objs;
      if bytesSinceCollect >= threshold && !collecting {
        Collect(statics, stack);
      }
    }

    /** The two attempts to get a block from malloc, with the collections between. */
    method Obtain(statics: seq<Word>, stack: Option<seq<Word>>, first: Option<nat>, second: Option<nat>)
      returns (p: Option<nat>)
      requires Valid()
      modifies this, headers
      ensures Valid() && p == (if first.Some? then first else second)
      ensures Objs() == old(AfterMalloc(first, statics, stack)) && tuned == old(tuned)
      ensures bytesSinceCollect < threshold || bytesSinceCollect == 0
    {
      hide Settled, Survivors, RootWords, Objs, AfterPressure;
      CollectIfPressed(statics, stack);
      p := first;
      if p.None? {
        if !collecting {
          Collect(statics, stack);
          p := second;
        }
      }
    }

    /** Allocation.  `first` and `second` are what malloc answers before and after the
        emergency collection. */
    method AllocKind(size: nat, kind: Kind, statics: seq<Word>, stack: Option<seq<Word>>,
                     first: Option<nat>, second: Option<nat>) returns (p: Option<nat>)
      requires Valid()
      requires var answer := if first.Some? then first else second;
        answer.Some? ==> Fits(AfterMalloc(first, statics, stack), answer.value, size)
      modifies this, headers
      ensures Valid() && p == (if first.Some? then first else second)
      ensures p.Some? ==> Objs() == [Obj(p.value, size, ZeroBody(kind, size))] + old(AfterMalloc(first, statics, stack))
      ensures p.None? ==> Objs() == old(AfterMalloc(first, statics, stack))
      ensures p.Some? && !tuned && collectCount > 0 ==>
        bytesLive < liveAtCollect + Pace(liveAtCollect) + HDR_SIZE + size
      ensures p.Some? && !tuned && collectCount == 0 ==> bytesLive < 4 * MIB + HDR_SIZE + size
    {
      hide Settled, Fits, Objs, AfterMalloc, ZeroBody;
      p := Obtain(statics, stack, first, second);
      if p.None? { return; }
      Insert(p.value, size, kind);
    }

    /** Releases the object at position k of the list. */
    method Release(h: GcHeader, prev: GcHeader?, ghost k: nat)
      requires Settled() && k < |list| && list[k] == h && prev == PrevAt(k)
      modifies this`head, this`bytesLive, this`objectCount, this`list, this`headers, this`finalized
      modifies headers
      ensures Settled() && bytesLive <= old(bytesLive)
      ensures list == RemoveAt(old(list), k) && Objs() == RemoveAt(old(Objs()), k)
      ensures finalized == old(finalized) + [old(list)[k]]
    {
      NextOf(k);
      assert Distinct(list);
      hide Linked, Accounted, OnceOnly, TrueAt, Objs, MarkBits;
      RetireOne(list, finalized, k);
      RemoveClear(MarkBits(), k);
      FreeHeader(h, prev, k);
    }

    /** Immediate release of one object; any other pointer goes to plain free. */
    method FreeObject(ptr: Word) returns (managed: bool, ghost k: nat)
      requires Valid()
      modifies this, headers
      ensures Valid()
      ensures managed <==> exists i :: 0 <= i < |old(list)| && old(list)[i].addr == ptr
      ensures managed ==>
        (&& k < |old(list)| && old(list)[k].addr == ptr
         && list == RemoveAt(old(list), k) && Objs() == RemoveAt(old(Objs()), k)
         && finalized == old(finalized) + [old(list)[k]])
      ensures !managed ==> list == old(list) && Objs() == old(Objs()) && finalized == old(finalized)
    {
      hide Accounted, WellPlaced, OnceOnly, MarkedSet, Objs;
      k := 0;
      managed := false;
      var prev: GcHeader? := null;
      var h := head;
      while h != null
        invariant k <= |list| && h == NodeAt(k) && prev == PrevAt(k)
        invariant forall i :: 0 <= i < k ==> list[i].addr != ptr
        decreases |list| - k
      {
        if h.addr == ptr {
          Release(h, prev, k);
          managed := true;
          return;
        }
        prev := h;
        h := h.next;
        k := k + 1;
      }
    }

    method IsManaged(ptr: Word) returns (found: bool)
      requires Valid()
      ensures found <==> exists i :: 0 <= i < |list| && Contains(Objs()[i], ptr)
    {
      var h, k := FindObject(ptr);
      found := h != null;
    }

    /** Registers a slot: afterwards it is a root exactly if there was room or it was one
        already; roots beyond the table's capacity are silently dropped. */
    method AddRoot(slot: RootSlot?)
      requires Valid()
      modifies this`roots
      ensures Valid()
      ensures roots == if slot != null && |old(roots)| < MAX_ROOTS then old(roots) + [slot] else old(roots)
      ensures slot != null ==> (slot in roots <==> |old(roots)| < MAX_ROOTS || slot in old(roots))
    {
      if slot == null { return; }
      if |roots| < MAX_ROOTS {
        roots := roots + [slot];
        assert roots[|roots| - 1] == slot;
      }
    }

    /** The object a registered slot points at, or into, is live to every collection. */
    lemma RegisteredRootLives(slot: RootSlot, statics: seq<Word>, stack: Option<seq<Word>>, j: nat)
      requires slot in roots && j < |list| && Contains(Objs()[j], slot.word)
      ensures j in LiveSet(Objs(), RootWords(statics, stack))
    {
      SlotContentsHolds(roots, slot);
      SurvivorsClosed(Objs(), RootWords(statics, stack));
      assert slot.word in RootWords(statics, stack);
    }

    /** A collection starts from the words of the static data, those of the stack if its bottom is
        known, and what is in the registered slots, null excepted; from no others. */
    lemma RootWordsExactly(statics: seq<Word>, stack: Option<seq<Word>>, w: Word)
      ensures w in RootWords(statics, stack) <==>
        || w in statics || (stack.Some? && w in stack.value)
        || exists slot :: slot in roots && slot.word == w && w != 0
    {
      if w in SlotContents(roots) { var slot := SlotOf(roots, w); }
      if slot :| slot in roots && slot.word == w && w != 0 { SlotContentsHolds(roots, slot); }
    }

    /** The first registration of the slot is overwritten by the last one. */
    method RemoveRoot(slot: RootSlot?) returns (ghost i: nat)
      requires Valid()
      modifies this`roots
      ensures Valid()
      ensures slot !in old(roots) ==> roots == old(roots)
      ensures slot in old(roots) ==>
        (i < |old(roots)| && old(roots)[i] == slot && slot !in old(roots)[..i] && roots == LastOver(old(roots), i))
    {
      hide Settled, Paced;
      i := 0;
      if slot == null { return; }
      var n := 0;
      while n < |roots|
        invariant n <= |roots| && roots == old(roots)
        invariant slot !in roots[..n]
      {
        if roots[n] == slot {
          i := n;
          roots := roots[n := roots[|roots| - 1]][..|roots| - 1];
          return;
        }
        n := n + 1;
      }
    }

    method SetThreshold(bytes: nat)
      requires Valid()
      modifies this`threshold, this`tuned
      ensures Valid() && tuned && threshold == if bytes < MIN_THRESHOLD then MIN_THRESHOLD else bytes
    {
      threshold := if bytes < MIN_THRESHOLD then MIN_THRESHOLD else bytes;
      tuned := true;
    }
  }
}
