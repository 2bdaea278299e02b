/** What keeps an object alive, field by field, and that nothing else does. */
module GcLiveness {
  import opened Basics
  import opened GcGraph

  /** A word points at an object exactly if it is the payload's address or lies inside it. */
  lemma PointsInto(o: Obj, p: Word)
    requires o.addr > 0
    ensures Contains(o, p) <==> p == o.addr || (o.addr < p && p - o.addr < o.size)
  {
  }

  lemma {:induction false} CellWordsExactly(cells: seq<Cell>, w: Word)
    ensures w in CellWords(cells) <==>
      exists k :: 0 <= k < |cells| && (w == cells[k].tag || w == cells[k].payload)
  {
    if cells != [] {
      var rest := cells[1..];
      CellWordsExactly(rest, w);
      assert forall k :: 0 <= k < |rest| ==> rest[k] == cells[k + 1];
      if w in CellWords(rest) {
        var k :| 0 <= k < |rest| && (w == rest[k].tag || w == rest[k].payload);
        assert cells[k + 1] == rest[k];
      }
    }
  }

  lemma {:induction false} SlotOf(slots: seq<Slot>, w: Word) returns (k: nat)
    requires w in SlotWords(slots)
    ensures k < |slots| && slots[k].occupied && HasWord(slots[k], w)
  {
    hide HasWord;
    var n := |slots| - 1;
    OneSlotExactly(slots[n], w);
    if w in SlotWords(slots[..n]) {
      k := SlotOf(slots[..n], w);
    } else {
      k := n;
    }
  }

  lemma {:induction false} SlotHas(slots: seq<Slot>, k: nat, w: Word)
    requires k < |slots| && slots[k].occupied && HasWord(slots[k], w)
    ensures w in SlotWords(slots)
  {
    hide HasWord;
    var n := |slots| - 1;
    if k < n {
      assert slots[..n][k] == slots[k];
      SlotHas(slots[..n], k, w);
    } else {
      OneSlotExactly(slots[n], w);
    }
  }

  ghost predicate HasWord(slot: Slot, w: Word) {
    w == slot.key || w == slot.value.tag || w == slot.value.payload
  }

  lemma OneSlotExactly(slot: Slot, w: Word)
    ensures w in OneSlotWords(slot) <==> slot.occupied && HasWord(slot, w)
  {
    CellWordsExactly([slot.value], w);
    assert [slot.value][0] == slot.value;
    hide CellWords;
  }

  /** Object i refers to object j exactly through a word of a raw payload, a value of an array
      below its length, a key or value of an occupied slot, a captured value, or a value or the
      link of a promise.  A string refers to nothing, nor do slack capacity and vacant slots. */
  lemma EdgeExactly(objs: seq<Obj>, i: nat, j: nat)
    requires i < |objs| && j < |objs|
    ensures Edge(objs, i, j) <==> match objs[i].body
      case Raw(words) => exists k :: 0 <= k < |words| && Contains(objs[j], words[k])
      case Str(_) => false
      case Arr(items, length) =>
        items.Some? && exists k ::
          && 0 <= k < |items.value| && k < length
          && (Contains(objs[j], items.value[k].tag) || Contains(objs[j], items.value[k].payload))
      case HashMap(slots) =>
        slots.Some? && exists k ::
          && 0 <= k < |slots.value| && slots.value[k].occupied
          && (Contains(objs[j], slots.value[k].key) || Contains(objs[j], slots.value[k].value.tag)
              || Contains(objs[j], slots.value[k].value.payload))
      case Closure(captured) =>
        captured.Some? && exists k ::
          && 0 <= k < |captured.value|
          && (Contains(objs[j], captured.value[k].tag) || Contains(objs[j], captured.value[k].payload))
      case Promise(result, onFulfilled, onRejected, onFinally, next) =>
        || Contains(objs[j], result.tag) || Contains(objs[j], result.payload)
        || Contains(objs[j], onFulfilled.tag) || Contains(objs[j], onFulfilled.payload)
        || Contains(objs[j], onRejected.tag) || Contains(objs[j], onRejected.payload)
        || Contains(objs[j], onFinally.tag) || Contains(objs[j], onFinally.payload)
        || Contains(objs[j], next)
  {
    match objs[i].body {
      case Raw(words) => RawEdge(objs, i, j);
      case Str(_) =>
      case Arr(items, length) => if items.Some? { ArrayEdge(objs, i, j); }
      case HashMap(slots) => if slots.Some? { SlotEdge(objs, i, j); }
      case Closure(captured) => if captured.Some? { CellsHit(objs, captured.value, j); }
      case Promise(r, f, q, n, next) => PromiseEdge(objs, i, j);
    }
  }

  lemma RawEdge(objs: seq<Obj>, i: nat, j: nat)
    requires i < |objs| && j < |objs| && objs[i].body.Raw?
    ensures Edge(objs, i, j) <==>
      exists k :: 0 <= k < |objs[i].body.words| && Contains(objs[j], objs[i].body.words[k])
  {
    hide Contains;
  }

  lemma CellsHit(objs: seq<Obj>, cells: seq<Cell>, j: nat)
    requires j < |objs|
    ensures Hits(objs, CellWords(cells), j) <==>
      exists k :: 0 <= k < |cells| && (Contains(objs[j], cells[k].tag) || Contains(objs[j], cells[k].payload))
  {
    hide Contains;
    if Hits(objs, CellWords(cells), j) {
      var w :| w in CellWords(cells) && Contains(objs[j], w);
      CellWordsExactly(cells, w);
    }
    if k :| 0 <= k < |cells| && (Contains(objs[j], cells[k].tag) || Contains(objs[j], cells[k].payload)) {
      assert cells[k] in cells;
    }
  }

  lemma ArrayEdge(objs: seq<Obj>, i: nat, j: nat)
    requires i < |objs| && j < |objs| && objs[i].body.Arr? && objs[i].body.items.Some?
    ensures var cells, length := objs[i].body.items.value, objs[i].body.length;
      Edge(objs, i, j) <==>
      exists k ::
        && 0 <= k < |cells| && k < length
        && (Contains(objs[j], cells[k].tag) || Contains(objs[j], cells[k].payload))
  {
    var cells, length := objs[i].body.items.value, objs[i].body.length;
    var used := InUse(cells, length);
    CellsHit(objs, used, j);
    assert forall k :: 0 <= k < |used| ==> used[k] == cells[k];
    assert |used| == if length <= |cells| then length else |cells|;
    hide Hits, CellWords, Contains;
    forall k | 0 <= k < |cells| && k < length ensures used[k] == cells[k] {
    }
  }

  lemma SlotEdge(objs: seq<Obj>, i: nat, j: nat)
    requires i < |objs| && j < |objs| && objs[i].body.HashMap? && objs[i].body.slots.Some?
    ensures var slots := objs[i].body.slots.value;
      Edge(objs, i, j) <==>
      exists k ::
        && 0 <= k < |slots| && slots[k].occupied
        && (Contains(objs[j], slots[k].key) || Contains(objs[j], slots[k].value.tag)
            || Contains(objs[j], slots[k].value.payload))
  {
    hide Contains, SlotWords;
    var slots := objs[i].body.slots.value;
    if Edge(objs, i, j) {
      var w :| w in SlotWords(slots) && Contains(objs[j], w);
      var k := SlotOf(slots, w);
    }
    forall k | 0 <= k < |slots| && slots[k].occupied
      ensures slots[k].key in SlotWords(slots)
      ensures slots[k].value.tag in SlotWords(slots) && slots[k].value.payload in SlotWords(slots)
    {
      SlotHas(slots, k, slots[k].key);
      SlotHas(slots, k, slots[k].value.tag);
      SlotHas(slots, k, slots[k].value.payload);
    }
  }

  lemma PromiseEdge(objs: seq<Obj>, i: nat, j: nat)
    requires i < |objs| && j < |objs| && objs[i].body.Promise?
    ensures var b := objs[i].body;
      Edge(objs, i, j) <==>
      || Contains(objs[j], b.result.tag) || Contains(objs[j], b.result.payload)
      || Contains(objs[j], b.onFulfilled.tag) || Contains(objs[j], b.onFulfilled.payload)
      || Contains(objs[j], b.onRejected.tag) || Contains(objs[j], b.onRejected.payload)
      || Contains(objs[j], b.onFinally.tag) || Contains(objs[j], b.onFinally.payload)
      || Contains(objs[j], b.next)
  {
    var b := objs[i].body;
    var cells := [b.result, b.onFulfilled, b.onRejected, b.onFinally];
    CellsHit(objs, cells, j);
    HitsConcat(objs, CellWords(cells), [b.next]);
    hide CellWords, Contains;
    assert Hits(objs, [b.next], j) <==> Contains(objs[j], b.next) by { assert b.next in [b.next]; }
    hide Hits;
    assert cells[0] == b.result && cells[1] == b.onFulfilled && cells[2] == b.onRejected && cells[3] == b.onFinally;
  }

  /** What a live closure has captured is live, ... */
  lemma CapturedLives(objs: seq<Obj>, roots: seq<Word>, i: nat, k: nat, j: nat)
    requires i in LiveSet(objs, roots) && j < |objs| && objs[i].body.Closure? && objs[i].body.captured.Some?
    requires k < |objs[i].body.captured.value|
    requires var c := objs[i].body.captured.value[k]; Contains(objs[j], c.tag) || Contains(objs[j], c.payload)
    ensures j in LiveSet(objs, roots)
  {
    hide Contains, Scanned;
    EdgeExactly(objs, i, j);
    hide Edge;
    LiveStep(objs, roots, i, j);
  }

  /** ... what a live array holds below its length, ... */
  lemma ElementLives(objs: seq<Obj>, roots: seq<Word>, i: nat, k: nat, j: nat)
    requires i in LiveSet(objs, roots) && j < |objs| && objs[i].body.Arr? && objs[i].body.items.Some?
    requires k < |objs[i].body.items.value| && k < objs[i].body.length
    requires var c := objs[i].body.items.value[k]; Contains(objs[j], c.tag) || Contains(objs[j], c.payload)
    ensures j in LiveSet(objs, roots)
  {
    hide Contains, Scanned;
    EdgeExactly(objs, i, j);
    hide Edge;
    LiveStep(objs, roots, i, j);
  }

  /** ... the keys and values of a live map, ... */
  lemma BindingLives(objs: seq<Obj>, roots: seq<Word>, i: nat, k: nat, j: nat)
    requires i in LiveSet(objs, roots) && j < |objs| && objs[i].body.HashMap? && objs[i].body.slots.Some?
    requires k < |objs[i].body.slots.value| && objs[i].body.slots.value[k].occupied
    requires var s := objs[i].body.slots.value[k];
      Contains(objs[j], s.key) || Contains(objs[j], s.value.tag) || Contains(objs[j], s.value.payload)
    ensures j in LiveSet(objs, roots)
  {
    hide Contains, Scanned;
    EdgeExactly(objs, i, j);
    hide Edge;
    LiveStep(objs, roots, i, j);
  }

  /** ... what a live promise holds and the promise derived from it, ... */
  lemma PromiseLives(objs: seq<Obj>, roots: seq<Word>, i: nat, j: nat)
    requires i in LiveSet(objs, roots) && j < |objs| && objs[i].body.Promise?
    requires var b := objs[i].body;
      || Contains(objs[j], b.result.tag) || Contains(objs[j], b.result.payload)
      || Contains(objs[j], b.onFulfilled.tag) || Contains(objs[j], b.onFulfilled.payload)
      || Contains(objs[j], b.onRejected.tag) || Contains(objs[j], b.onRejected.payload)
      || Contains(objs[j], b.onFinally.tag) || Contains(objs[j], b.onFinally.payload)
      || Contains(objs[j], b.next)
    ensures j in LiveSet(objs, roots)
  {
    hide Contains, Scanned;
    EdgeExactly(objs, i, j);
    hide Edge;
    LiveStep(objs, roots, i, j);
  }

  /** ... and what a word of a live raw block points at. */
  lemma RawLives(objs: seq<Obj>, roots: seq<Word>, i: nat, k: nat, j: nat)
    requires i in LiveSet(objs, roots) && j < |objs| && objs[i].body.Raw?
    requires k < |objs[i].body.words| && Contains(objs[j], objs[i].body.words[k])
    ensures j in LiveSet(objs, roots)
  {
    hide Contains, Scanned;
    EdgeExactly(objs, i, j);
    hide Edge;
    LiveStep(objs, roots, i, j);
  }

  /** The live set is the least set that holds what the root words point at and whatever its
      members refer to. */
  lemma LiveIsLeast(objs: seq<Obj>, roots: seq<Word>, s: set<nat>)
    requires forall j: nat, w :: j < |objs| && w in roots && Contains(objs[j], w) ==> j in s
    requires forall i: nat, j: nat :: i < |objs| && j < |objs| && i in s && Edge(objs, i, j) ==> j in s
    ensures LiveSet(objs, roots) <= s
  {
    forall j | j in LiveSet(objs, roots) ensures j in s {
      var p := LivePath(objs, roots, j);
      ClosedHoldsPath(objs, s, p);
    }
  }

  /** A zeroed block refers to nothing. */
  lemma FreshRefersToNothing(objs: seq<Obj>, i: nat, j: nat, kind: Kind, size: nat)
    requires i < |objs| && j < |objs| && objs[i].body == ZeroBody(kind, size)
    ensures !Edge(objs, i, j)
  {
    EdgeExactly(objs, i, j);
    hide Edge, Hits;
  }
}
