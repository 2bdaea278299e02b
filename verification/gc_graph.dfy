/** The collector's view of the heap as values: blocks, the words each kind scans,
    and reachability along those words.  Nothing here mutates; `Gc.Collector` is
    the in-place collector proved against these definitions. */
module GcGraph {
  import opened Basics

  /** A machine word that may or may not be a pointer. */
  type Word = nat

  /** sizeof(GcHeader), already a multiple of the pointer size on LP64. */
  const HDR_SIZE: nat := 24

  /** sizeof(void*). */
  const WORD_SIZE: nat := 8

  datatype Kind = RawKind | StringKind | ArrayKind | HashMapKind | ClosureKind | PromiseKind

  /** A tagged Value in memory: its tag word and its payload word. */
  datatype Cell = Cell(tag: Word, payload: Word)

  datatype Slot = Slot(occupied: bool, key: Word, value: Cell)

  /** What the payload of an object holds, by kind.  `None` is a null buffer pointer. */
  datatype Body =
    | Raw(words: seq<Word>)
    | Str(data: Option<Word>)
    | Arr(items: Option<seq<Cell>>, length: nat)
    | HashMap(slots: Option<seq<Slot>>)
    | Closure(captured: Option<seq<Cell>>)
    | Promise(result: Cell, onFulfilled: Cell, onRejected: Cell, onFinally: Cell, next: Word)

  /** A tracked block: payload address, payload size, contents. */
  datatype Obj = Obj(addr: nat, size: nat, body: Body)

  const NULL_CELL := Cell(0, 0)

  /** The contents of a freshly zeroed payload. */
  function ZeroBody(kind: Kind, size: nat): Body {
    match kind
    case RawKind => Raw(seq(size / WORD_SIZE, _ => 0))
    case StringKind => Str(None)
    case ArrayKind => Arr(None, 0)
    case HashMapKind => HashMap(None)
    case ClosureKind => Closure(None)
    case PromiseKind => Promise(NULL_CELL, NULL_CELL, NULL_CELL, NULL_CELL, 0)
  }

  /** The buffers a finaliser returns to malloc become null. */
  function Released(b: Body): Body {
    match b
    case Raw(_) => b
    case Str(_) => Str(None)
    case Arr(_, n) => Arr(None, n)
    case HashMap(_) => HashMap(None)
    case Closure(_) => Closure(None)
    case Promise(_, _, _, _, _) => b
  }

  /** The array elements in use; slack capacity past `length` is not scanned. */
  function InUse(items: seq<Cell>, length: nat): seq<Cell> {
    if length <= |items| then items[..length] else items
  }

  function CellWords(cells: seq<Cell>): (ws: seq<Word>)
    ensures forall c :: c in cells ==> c.tag in ws && c.payload in ws
  {
    if cells == [] then [] else
      var ws := CellWords(cells[1..]);
      assert forall c :: c in cells ==> c == cells[0] || c in cells[1..];
      [cells[0].tag, cells[0].payload] + ws
  }

  function OneSlotWords(slot: Slot): seq<Word> {
    if slot.occupied then [slot.key] + CellWords([slot.value]) else []
  }

  function SlotWords(slots: seq<Slot>): seq<Word> {
    if slots == [] then [] else SlotWords(slots[..|slots| - 1]) + OneSlotWords(slots[|slots| - 1])
  }

  lemma SlotWordsSnoc(slots: seq<Slot>, i: nat)
    requires i < |slots|
    ensures SlotWords(slots[..i + 1]) == SlotWords(slots[..i]) + OneSlotWords(slots[i])
  {
    assert slots[..i + 1][..i] == slots[..i];
  }

  /** The words through which an object keeps others alive. */
  function Scanned(b: Body): seq<Word> {
    match b
    case Raw(words) => words
    case Str(_) => []
    case Arr(items, length) => if items.Some? then CellWords(InUse(items.value, length)) else []
    case HashMap(slots) => if slots.Some? then SlotWords(slots.value) else []
    case Closure(captured) => if captured.Some? then CellWords(captured.value) else []
    case Promise(r, f, j, n, next) => CellWords([r, f, j, n]) + [next]
  }

  /** p points at the payload, or strictly inside it. */
  ghost predicate Contains(o: Obj, p: Word) {
    p != 0 && (p == o.addr || o.addr <= p < o.addr + o.size)
  }

  /** Header and payload of two blocks do not overlap: the allocator's promise. */
  predicate Apart(a: nat, aSize: nat, b: nat, bSize: nat) {
    a + aSize + HDR_SIZE <= b || b + bSize + HDR_SIZE <= a
  }

  ghost predicate WellPlaced(objs: seq<Obj>) {
    && (forall i :: 0 <= i < |objs| ==> HDR_SIZE <= objs[i].addr)
    && (forall i, j :: 0 <= i < j < |objs| ==> Apart(objs[i].addr, objs[i].size, objs[j].addr, objs[j].size))
  }

  /** An allocator answer that overlaps no block of the heap. */
  ghost predicate Fits(objs: seq<Obj>, addr: nat, size: nat) {
    HDR_SIZE <= addr && forall i :: 0 <= i < |objs| ==> Apart(addr, size, objs[i].addr, objs[i].size)
  }

  /** Block bounds make a word resolve to at most one object, so the first hit in
      list order is the only one, interior pointers included. */
  lemma ResolvesUniquely(objs: seq<Obj>, i: nat, j: nat, p: Word)
    requires WellPlaced(objs)
    requires i < |objs| && j < |objs| && Contains(objs[i], p) && Contains(objs[j], p)
    ensures i == j
  {
  }

  ghost predicate HitsOnly(objs: seq<Obj>, p: Word, k: nat) {
    && k < |objs| && Contains(objs[k], p)
    && forall i: nat | i < |objs| && Contains(objs[i], p) :: i == k
  }

  ghost predicate HitsNone(objs: seq<Obj>, p: Word) {
    forall i: nat | i < |objs| :: !Contains(objs[i], p)
  }

  /** Some word of ws resolves to object j. */
  ghost predicate Hits(objs: seq<Obj>, ws: seq<Word>, j: nat)
    requires j < |objs|
  {
    exists w :: w in ws && Contains(objs[j], w)
  }

  lemma HitsConcat(objs: seq<Obj>, a: seq<Word>, b: seq<Word>)
    ensures forall j | 0 <= j < |objs| :: Hits(objs, a + b, j) <==> Hits(objs, a, j) || Hits(objs, b, j)
  {
  }

  ghost predicate Edge(objs: seq<Obj>, i: nat, j: nat)
    requires i < |objs| && j < |objs|
  {
    Hits(objs, Scanned(objs[i].body), j)
  }

  ghost predicate IsPath(objs: seq<Obj>, p: seq<nat>) {
    && p != []
    && (forall i :: 0 <= i < |p| ==> p[i] < |objs|)
    && (forall i :: 0 <= i < |p| - 1 ==> Edge(objs, p[i], p[i + 1]))
  }

  ghost predicate Reaches(objs: seq<Obj>, i: nat, j: nat) {
    exists p :: IsPath(objs, p) && p[0] == i && p[|p| - 1] == j
  }

  /** Reachable from a root word. */
  ghost predicate Live(objs: seq<Obj>, roots: seq<Word>, j: nat) {
    exists r :: 0 <= r < |objs| && Hits(objs, roots, r) && Reaches(objs, r, j)
  }

  ghost function LiveSet(objs: seq<Obj>, roots: seq<Word>): set<nat> {
    set j: nat | j < |objs| && Live(objs, roots, j)
  }

  ghost function GarbageSet(objs: seq<Obj>, roots: seq<Word>): set<nat> {
    set j: nat | j < |objs| && !Live(objs, roots, j)
  }

  lemma ReachesSelf(objs: seq<Obj>, i: nat)
    requires i < |objs|
    ensures Reaches(objs, i, i)
  {
    assert IsPath(objs, [i]);
  }

  lemma ReachesStep(objs: seq<Obj>, i: nat, k: nat, j: nat)
    requires i < |objs| && k < |objs| && Edge(objs, i, k) && Reaches(objs, k, j)
    ensures Reaches(objs, i, j)
  {
    hide Edge;
    var p :| IsPath(objs, p) && p[0] == k && p[|p| - 1] == j;
    var q := [i] + p;
    forall x | 0 <= x < |q| - 1 ensures Edge(objs, q[x], q[x + 1]) {
      if x > 0 { assert q[x] == p[x - 1] && q[x + 1] == p[x]; }
    }
    assert IsPath(objs, q) && q[0] == i && q[|q| - 1] == j;
  }

  /** Every successor of a member outside `grey` is a member: the marker's invariant,
      where `grey` are the objects still on the recursion stack. */
  ghost predicate ClosedExcept(objs: seq<Obj>, marked: set<nat>, grey: set<nat>) {
    forall i, j | 0 <= i < |objs| && 0 <= j < |objs| && i in marked && i !in grey && Edge(objs, i, j) :: j in marked
  }

  lemma {:induction false} ClosedHoldsPath(objs: seq<Obj>, marked: set<nat>, p: seq<nat>)
    requires ClosedExcept(objs, marked, {}) && IsPath(objs, p) && p[0] in marked
    ensures p[|p| - 1] in marked
  {
    if |p| > 1 {
      assert Edge(objs, p[0], p[1]);
      var t := p[1..];
      forall x | 0 <= x < |t| - 1 ensures Edge(objs, t[x], t[x + 1]) {
        assert Edge(objs, p[x + 1], p[x + 2]);
      }
      ClosedHoldsPath(objs, marked, t);
    }
  }

  /** A set that holds the root targets, is closed under edges and contains only
      reachable objects is exactly the set of live objects. */
  lemma ClosedSetIsLiveSet(objs: seq<Obj>, roots: seq<Word>, marked: set<nat>)
    requires Marks(objs, {}, marked, roots, {})
    ensures marked == LiveSet(objs, roots)
  {
    forall j: nat | j < |objs| && Live(objs, roots, j) ensures j in marked {
      var r :| 0 <= r < |objs| && Hits(objs, roots, r) && Reaches(objs, r, j);
      var p :| IsPath(objs, p) && p[0] == r && p[|p| - 1] == j;
      ClosedHoldsPath(objs, marked, p);
    }
  }

  /** What marking through `ws` achieves, from one set of marked objects to the next:
      the targets of ws are marked, no mark is lost, all but the grey objects have
      their successors marked, and only objects reachable from ws are new. */
  ghost predicate Marks(objs: seq<Obj>, before: set<nat>, after: set<nat>, ws: seq<Word>, grey: set<nat>) {
    && before <= after
    && ClosedExcept(objs, after, grey)
    && (forall j: nat | j < |objs| :: Hits(objs, ws, j) ==> j in after)
    && (forall j | j in after && j !in before :: j < |objs| && Live(objs, ws, j))
  }

  /** The same for marking one object. */
  ghost predicate MarksFrom(objs: seq<Obj>, before: set<nat>, after: set<nat>, k: nat, grey: set<nat>) {
    && before <= after && k in after
    && ClosedExcept(objs, after, grey)
    && (forall j | j in after && j !in before :: j < |objs| && Reaches(objs, k, j))
  }

  lemma LiveMono(objs: seq<Obj>, a: seq<Word>, b: seq<Word>, j: nat)
    requires Live(objs, a, j) && forall w :: w in a ==> w in b
    ensures Live(objs, b, j)
  {
    var r :| 0 <= r < |objs| && Hits(objs, a, r) && Reaches(objs, r, j);
    assert Hits(objs, b, r);
  }

  lemma MarksThen(objs: seq<Obj>, s0: set<nat>, s1: set<nat>, s2: set<nat>, a: seq<Word>, b: seq<Word>, grey: set<nat>)
    requires Marks(objs, s0, s1, a, grey) && Marks(objs, s1, s2, b, grey)
    ensures Marks(objs, s0, s2, a + b, grey)
  {
    HitsConcat(objs, a, b);
    forall j | j in s2 && j !in s0 ensures j < |objs| && Live(objs, a + b, j) {
      if j in s1 { LiveMono(objs, a, a + b, j); } else { LiveMono(objs, b, a + b, j); }
    }
  }

  lemma MarksClosed(objs: seq<Obj>, s0: set<nat>, s1: set<nat>, ws: seq<Word>, grey: set<nat>)
    requires Marks(objs, s0, s1, ws, grey)
    ensures ClosedExcept(objs, s1, grey) && s0 <= s1
  {
  }

  lemma NothingClosed(objs: seq<Obj>)
    ensures ClosedExcept(objs, {}, {})
  {
  }

  /** An object turns grey when it is marked and pushed on the recursion stack. */
  lemma GreyStart(objs: seq<Obj>, s: set<nat>, k: nat, grey: set<nat>)
    requires ClosedExcept(objs, s, grey)
    ensures ClosedExcept(objs, s + {k}, grey + {k})
  {
  }

  /** Finding an already marked target changes nothing. */
  lemma MarksAgain(objs: seq<Obj>, s: set<nat>, k: nat, grey: set<nat>)
    requires ClosedExcept(objs, s, grey) && k in s
    ensures MarksFrom(objs, s, s, k, grey)
  {
  }

  lemma MarksNothing(objs: seq<Obj>, s: set<nat>, grey: set<nat>)
    requires ClosedExcept(objs, s, grey)
    ensures Marks(objs, s, s, [], grey)
  {
  }

  /** A word that hits only object k, once k has been marked. */
  lemma MarksWord(objs: seq<Obj>, s0: set<nat>, s1: set<nat>, w: Word, k: nat, grey: set<nat>)
    requires HitsOnly(objs, w, k)
    requires MarksFrom(objs, s0, s1, k, grey)
    ensures Marks(objs, s0, s1, [w], grey)
  {
    assert w in [w];
    assert Hits(objs, [w], k);
  }

  lemma MarksNoTarget(objs: seq<Obj>, s: set<nat>, w: Word, grey: set<nat>)
    requires ClosedExcept(objs, s, grey)
    requires HitsNone(objs, w)
    ensures Marks(objs, s, s, [w], grey)
  {
  }

  /** Blackening: once everything k scans is marked, k leaves the grey set. */
  lemma MarksObject(objs: seq<Obj>, s0: set<nat>, s1: set<nat>, k: nat, grey: set<nat>)
    requires k < |objs|
    requires Marks(objs, s0 + {k}, s1, Scanned(objs[k].body), grey + {k})
    ensures MarksFrom(objs, s0, s1, k, grey)
  {
    forall j | j in s1 && j !in s0 ensures j < |objs| && Reaches(objs, k, j) {
      if j == k {
        ReachesSelf(objs, k);
      } else {
        var r :| 0 <= r < |objs| && Hits(objs, Scanned(objs[k].body), r) && Reaches(objs, r, j);
        ReachesStep(objs, k, r, j);
      }
    }
  }

  /** The elements whose index is kept, in order. */
  ghost function Select<T>(s: seq<T>, keep: set<nat>): (r: seq<T>)
    ensures |r| <= |s|
    ensures forall x :: x in r ==> x in s
  {
    if s == [] then []
    else
      var n := |s| - 1;
      Select(s[..n], keep) + if n in keep then [s[n]] else []
  }

  /** The kept positions below n, in increasing order. */
  ghost function Kept(n: nat, keep: set<nat>): seq<nat> {
    if n == 0 then [] else Kept(n - 1, keep) + if n - 1 in keep then [n - 1] else []
  }

  /** Selection keeps relative order and is indexed by `Kept`, whatever the elements. */
  lemma {:induction false} SelectAt<T>(s: seq<T>, keep: set<nat>)
    ensures |Select(s, keep)| == |Kept(|s|, keep)|
    ensures forall i :: 0 <= i < |Select(s, keep)| ==>
      && Kept(|s|, keep)[i] < |s| && Kept(|s|, keep)[i] in keep
      && Select(s, keep)[i] == s[Kept(|s|, keep)[i]]
    ensures forall i, j :: 0 <= i < j < |Kept(|s|, keep)| ==> Kept(|s|, keep)[i] < Kept(|s|, keep)[j]
    ensures forall k :: 0 <= k < |s| && k in keep ==> k in Kept(|s|, keep)
  {
    if s != [] {
      SelectAt(s[..|s| - 1], keep);
    }
  }

  lemma {:induction false} SelectSnoc<T>(s: seq<T>, keep: set<nat>, i: nat)
    requires i < |s|
    ensures Select(s[..i + 1], keep) == Select(s[..i], keep) + if i in keep then [s[i]] else []
  {
    assert s[..i + 1][..i] == s[..i];
  }

  lemma ConcatAssoc<T>(a: seq<T>, b: seq<T>, c: seq<T>)
    ensures (a + b) + c == a + (b + c)
  {
  }

  ghost function TrueAt(bits: seq<bool>): set<nat> { set i: nat | i < |bits| && bits[i] }

  ghost function FalseAt(bits: seq<bool>): set<nat> { set i: nat | i < |bits| && !bits[i] }

  /** The sweep's invariant, on values.  The list started as `start` with mark bits
      `marks`; i of its elements have been swept, and now it holds the marked ones
      among them, with marks cleared, followed by the elements still to sweep. */
  ghost predicate Swept<T>(start: seq<T>, marks: seq<bool>, i: nat, now: seq<T>, bits: seq<bool>, freed: seq<T>) {
    && i <= |start| == |marks|
    && now == Select(start[..i], TrueAt(marks)) + start[i..]
    && bits == seq(|Select(start[..i], TrueAt(marks))|, _ => false) + marks[i..]
    && freed == Select(start[..i], FalseAt(marks))
  }

  /** How many of the swept elements survived: the sweep's position in the list. */
  ghost function SweptPrefix<T>(start: seq<T>, marks: seq<bool>, i: nat): nat
    requires i <= |start|
  {
    |Select(start[..i], TrueAt(marks))|
  }

  lemma SweptStart<T>(start: seq<T>, marks: seq<bool>)
    requires |start| == |marks|
    ensures Swept(start, marks, 0, start, marks, []) && SweptPrefix(start, marks, 0) == 0
  {
  }

  lemma SweptHere<T>(start: seq<T>, marks: seq<bool>, i: nat, now: seq<T>, bits: seq<bool>, freed: seq<T>)
    requires Swept(start, marks, i, now, bits, freed)
    ensures |now| == |bits| == SweptPrefix(start, marks, i) + |start| - i
    ensures i < |start| ==> var k := SweptPrefix(start, marks, i); now[k] == start[i] && bits[k] == marks[i]
  {
  }

  /** One sweep step at position k: a marked element stays, an unmarked one goes. */
  ghost function Stay<T>(now: seq<T>, k: nat, marked: bool): seq<T>
    requires k < |now|
  {
    if marked then now else RemoveAt(now, k)
  }

  ghost function StayBits(bits: seq<bool>, k: nat, marked: bool): seq<bool>
    requires k < |bits|
  {
    if marked then bits[k := false] else RemoveAt(bits, k)
  }

  ghost function Gone<T>(x: T, marked: bool): seq<T> { if marked then [] else [x] }

  lemma SweptStep<T>(start: seq<T>, marks: seq<bool>, i: nat, now: seq<T>, bits: seq<bool>, freed: seq<T>)
    requires Swept(start, marks, i, now, bits, freed) && i < |start|
    ensures SweptPrefix(start, marks, i + 1) == SweptPrefix(start, marks, i) + if marks[i] then 1 else 0
    ensures var k := SweptPrefix(start, marks, i);
      && k < |now| == |bits| && now[k] == start[i] && bits[k] == marks[i]
      && Swept(start, marks, i + 1, Stay(now, k, marks[i]), StayBits(bits, k, marks[i]),
               freed + Gone(start[i], marks[i]))
  {
    SelectSnoc(start, TrueAt(marks), i);
    SelectSnoc(start, FalseAt(marks), i);
  }

  lemma SweptAll<T>(start: seq<T>, marks: seq<bool>, now: seq<T>, bits: seq<bool>, freed: seq<T>)
    requires Swept(start, marks, |start|, now, bits, freed)
    ensures now == Select(start, TrueAt(marks)) && freed == Select(start, FalseAt(marks))
    ensures |bits| == |now| && TrueAt(bits) == {}
  {
    assert start[..|start|] == start;
  }

  ghost predicate Distinct<T>(s: seq<T>) {
    forall i, j :: 0 <= i < j < |s| ==> s[i] != s[j]
  }

  /** Where position i of a list came from when position k was taken out. */
  ghost function Skip(i: nat, k: nat): nat { if i < k then i else i + 1 }

  ghost function RemoveAt<T>(s: seq<T>, k: nat): (r: seq<T>)
    requires k < |s|
    ensures |r| == |s| - 1
    ensures forall i :: 0 <= i < |r| ==> r[i] == s[Skip(i, k)]
  {
    s[..k] + s[k + 1..]
  }

  lemma RemoveAtMembers<T>(s: seq<T>, k: nat)
    requires k < |s| && Distinct(s)
    ensures Distinct(RemoveAt(s, k)) && s[k] !in RemoveAt(s, k)
    ensures (set x | x in RemoveAt(s, k)) == (set x | x in s) - {s[k]}
  {
    var r := RemoveAt(s, k);
    forall x | x in s && x != s[k] ensures x in r {
      var i :| 0 <= i < |s| && s[i] == x;
      assert r[if i < k then i else i - 1] == x;
    }
  }

  /** Taking one block out of a heap. */
  lemma WithoutOnePlaced(objs: seq<Obj>, k: nat)
    requires WellPlaced(objs) && k < |objs|
    ensures WellPlaced(RemoveAt(objs, k))
  {
    var r := RemoveAt(objs, k);
    forall i, j | 0 <= i < j < |r| ensures Apart(r[i].addr, r[i].size, r[j].addr, r[j].size) {
      assert r[i] == objs[Skip(i, k)] && r[j] == objs[Skip(j, k)] && Skip(i, k) < Skip(j, k);
    }
  }

  lemma {:induction false} WithoutOneBytes(objs: seq<Obj>, k: nat)
    requires k < |objs|
    ensures TotalBytes(objs) == TotalBytes(RemoveAt(objs, k)) + objs[k].size + HDR_SIZE
  {
    if k == 0 {
      assert RemoveAt(objs, 0) == objs[1..];
    } else {
      assert RemoveAt(objs, k) == [objs[0]] + RemoveAt(objs[1..], k - 1);
      WithoutOneBytes(objs[1..], k - 1);
    }
  }

  /** What one collection leaves on the list. */
  ghost function Survivors(objs: seq<Obj>, roots: seq<Word>): seq<Obj> {
    Select(objs, LiveSet(objs, roots))
  }

  /** Bytes of a list of blocks, headers included. */
  ghost function TotalBytes(objs: seq<Obj>): nat {
    if objs == [] then 0 else objs[0].size + HDR_SIZE + TotalBytes(objs[1..])
  }

  lemma {:induction false} TotalBytesConcat(a: seq<Obj>, b: seq<Obj>)
    ensures TotalBytes(a + b) == TotalBytes(a) + TotalBytes(b)
  {
    if a == [] {
      assert a + b == b;
    } else {
      assert (a + b)[1..] == a[1..] + b;
      TotalBytesConcat(a[1..], b);
    }
  }

  /** No object is finalised twice, nor while it is still listed. */
  ghost predicate OnceOnly<T>(list: seq<T>, finalized: seq<T>) {
    Distinct(finalized) && forall x :: x in list ==> x !in finalized
  }

  lemma LiveOrGarbage(objs: seq<Obj>, roots: seq<Word>, bits: seq<bool>)
    requires |bits| == |objs| && TrueAt(bits) == LiveSet(objs, roots)
    ensures FalseAt(bits) == GarbageSet(objs, roots)
  {
    forall j: nat | j < |objs| ensures j in FalseAt(bits) <==> j in GarbageSet(objs, roots) {
      assert j in TrueAt(bits) <==> j in LiveSet(objs, roots);
    }
  }

  /** Moving the garbage from the list to the finalised objects keeps them disjoint. */
  lemma RetireGarbage<T>(list: seq<T>, finalized: seq<T>, objs: seq<Obj>, roots: seq<Word>)
    requires Distinct(list) && OnceOnly(list, finalized) && |list| == |objs|
    ensures OnceOnly(Select(list, LiveSet(objs, roots)), finalized + Select(list, GarbageSet(objs, roots)))
  {
    var live, dead := LiveSet(objs, roots), GarbageSet(objs, roots);
    SelectAt(list, live);
    SelectAt(list, dead);
    var gone := Select(list, dead);
    forall i, j | 0 <= i < j < |finalized + gone| ensures (finalized + gone)[i] != (finalized + gone)[j] {
      if |finalized| <= i {
        assert Kept(|list|, dead)[i - |finalized|] < Kept(|list|, dead)[j - |finalized|];
      } else if |finalized| <= j {
        assert gone[j - |finalized|] in list;
      }
    }
  }

  lemma RetireOne<T>(list: seq<T>, finalized: seq<T>, k: nat)
    requires Distinct(list) && OnceOnly(list, finalized) && k < |list|
    ensures OnceOnly(RemoveAt(list, k), finalized + [list[k]])
  {
    RemoveAtMembers(list, k);
    assert list[k] in list;
  }

  lemma AddClear(bits: seq<bool>)
    requires TrueAt(bits) == {}
    ensures TrueAt([false] + bits) == {}
  {
    forall i | 0 <= i < |bits| ensures !bits[i] {
      assert i !in TrueAt(bits);
    }
  }

  lemma RemoveClear(bits: seq<bool>, k: nat)
    requires TrueAt(bits) == {} && k < |bits|
    ensures TrueAt(RemoveAt(bits, k)) == {}
  {
    forall i | 0 <= i < |bits| ensures !bits[i] {
      assert i !in TrueAt(bits);
    }
  }

  /** Putting one block in front of a heap. */
  lemma WithOne(objs: seq<Obj>, o: Obj)
    requires WellPlaced(objs) && Fits(objs, o.addr, o.size)
    ensures WellPlaced([o] + objs) && TotalBytes([o] + objs) == o.size + HDR_SIZE + TotalBytes(objs)
  {
    assert ([o] + objs)[1..] == objs;
  }

  lemma ReachesThen(objs: seq<Obj>, i: nat, k: nat, j: nat)
    requires k < |objs| && j < |objs| && Reaches(objs, i, k) && Edge(objs, k, j)
    ensures Reaches(objs, i, j)
  {
    hide Edge;
    var p :| IsPath(objs, p) && p[0] == i && p[|p| - 1] == k;
    var q := p + [j];
    forall x | 0 <= x < |q| - 1 ensures Edge(objs, q[x], q[x + 1]) {
      if x < |p| - 1 { assert Edge(objs, p[x], p[x + 1]); }
    }
    assert IsPath(objs, q) && q[0] == i && q[|q| - 1] == j;
  }

  lemma LiveStep(objs: seq<Obj>, roots: seq<Word>, i: nat, j: nat)
    requires i in LiveSet(objs, roots) && j < |objs| && Edge(objs, i, j)
    ensures j in LiveSet(objs, roots)
  {
    var r :| 0 <= r < |objs| && Hits(objs, roots, r) && Reaches(objs, r, i);
    ReachesThen(objs, r, i, j);
  }

  /** Everything an object that survived points at survives with it, and an object is
      kept exactly when some chain of words leads to it from a root. */
  lemma SurvivorsClosed(objs: seq<Obj>, roots: seq<Word>)
    ensures ClosedExcept(objs, LiveSet(objs, roots), {})
    ensures forall j: nat | j < |objs| :: Hits(objs, roots, j) ==> j in LiveSet(objs, roots)
  {
    forall i: nat, j: nat | i < |objs| && j < |objs| && i in LiveSet(objs, roots) && Edge(objs, i, j)
      ensures j in LiveSet(objs, roots)
    {
      LiveStep(objs, roots, i, j);
    }
    forall j: nat | j < |objs| && Hits(objs, roots, j) ensures j in LiveSet(objs, roots) {
      ReachesSelf(objs, j);
    }
  }

  /** Selection keeps the words between the objects it keeps. */
  lemma SelectEdges(objs: seq<Obj>, keep: set<nat>, i: nat, j: nat)
    requires i < |Select(objs, keep)| && j < |Select(objs, keep)|
    ensures |Kept(|objs|, keep)| == |Select(objs, keep)| && Kept(|objs|, keep)[i] < |objs|
    ensures Kept(|objs|, keep)[j] < |objs|
    ensures Edge(objs, Kept(|objs|, keep)[i], Kept(|objs|, keep)[j]) ==> Edge(Select(objs, keep), i, j)
  {
    SelectAt(objs, keep);
  }

  lemma SelectHits(objs: seq<Obj>, keep: set<nat>, ws: seq<Word>, i: nat)
    requires i < |Select(objs, keep)|
    ensures |Kept(|objs|, keep)| == |Select(objs, keep)| && Kept(|objs|, keep)[i] < |objs|
    ensures Hits(objs, ws, Kept(|objs|, keep)[i]) ==> Hits(Select(objs, keep), ws, i)
  {
    SelectAt(objs, keep);
  }

  /** The old positions of what stays live after the collection. */
  ghost function StillLive(objs: seq<Obj>, roots: seq<Word>): set<nat> {
    var at := Kept(|objs|, LiveSet(objs, roots));
    set i: nat | i < |at| && i in LiveSet(Survivors(objs, roots), roots) :: at[i]
  }

  lemma StillLiveStep(objs: seq<Obj>, roots: seq<Word>, i: nat, j: nat)
    requires i < |Survivors(objs, roots)| && i in LiveSet(Survivors(objs, roots), roots)
    requires j < |objs| && i < |Kept(|objs|, LiveSet(objs, roots))|
    requires Kept(|objs|, LiveSet(objs, roots))[i] < |objs| && Edge(objs, Kept(|objs|, LiveSet(objs, roots))[i], j)
    ensures j in StillLive(objs, roots)
  {
    var live, left := LiveSet(objs, roots), Survivors(objs, roots);
    var at := Kept(|objs|, live);
    SelectAt(objs, live);
    LiveStep(objs, roots, at[i], j);
    var j' :| 0 <= j' < |at| && at[j'] == j;
    SelectEdges(objs, live, i, j');
    LiveStep(left, roots, i, j');
  }

  lemma StillLiveClosed(objs: seq<Obj>, roots: seq<Word>)
    ensures ClosedExcept(objs, StillLive(objs, roots), {})
  {
    var at := Kept(|objs|, LiveSet(objs, roots));
    SelectAt(objs, LiveSet(objs, roots));
    hide Edge, LiveSet, Kept, Select;
    forall a: nat, j: nat | a < |objs| && j < |objs| && a in StillLive(objs, roots) && Edge(objs, a, j)
      ensures j in StillLive(objs, roots)
    {
      var i: nat :| i < |at| && i in LiveSet(Survivors(objs, roots), roots) && at[i] == a;
      StillLiveStep(objs, roots, i, j);
    }
  }

  lemma LivePath(objs: seq<Obj>, roots: seq<Word>, j: nat) returns (p: seq<nat>)
    requires j in LiveSet(objs, roots)
    ensures IsPath(objs, p) && Hits(objs, roots, p[0]) && p[|p| - 1] == j
    ensures p[0] in LiveSet(objs, roots)
  {
    var r :| 0 <= r < |objs| && Hits(objs, roots, r) && Reaches(objs, r, j);
    p :| IsPath(objs, p) && p[0] == r && p[|p| - 1] == j;
    hide Hits, Edge, IsPath;
    ReachesSelf(objs, r);
  }

  lemma StillLiveAll(objs: seq<Obj>, roots: seq<Word>, j: nat)
    requires j in LiveSet(objs, roots)
    ensures j in StillLive(objs, roots)
  {
    var live, left := LiveSet(objs, roots), Survivors(objs, roots);
    var at := Kept(|objs|, live);
    SelectAt(objs, live);
    SurvivorsClosed(objs, roots);
    SurvivorsClosed(left, roots);
    StillLiveClosed(objs, roots);
    var p := LivePath(objs, roots, j);
    var r := p[0];
    hide Hits, LiveSet, Kept, Select, ClosedExcept, IsPath, Live, Edge;
    var r' :| 0 <= r' < |at| && at[r'] == r;
    SelectHits(objs, live, roots, r');
    assert r in StillLive(objs, roots);
    ClosedHoldsPath(objs, StillLive(objs, roots), p);
  }

  /** A second collection with the same roots frees nothing: no survivor owed its life
      to an object that was swept. */
  lemma CollectTwice(objs: seq<Obj>, roots: seq<Word>)
    ensures Survivors(Survivors(objs, roots), roots) == Survivors(objs, roots)
  {
    var live, left := LiveSet(objs, roots), Survivors(objs, roots);
    var at := Kept(|objs|, live);
    SelectAt(objs, live);
    hide LiveSet, Kept, Select;
    forall i: nat | i < |left| ensures i in LiveSet(left, roots) {
      StillLiveAll(objs, roots, at[i]);
      var i': nat :| i' < |at| && i' in LiveSet(left, roots) && at[i'] == at[i];
      assert i' == i;
    }
    SelectEverything(left, LiveSet(left, roots));
  }

  lemma {:induction false} SelectEverything<T>(s: seq<T>, keep: set<nat>)
    requires forall i: nat | i < |s| :: i in keep
    ensures Select(s, keep) == s
  {
    if s != [] { SelectEverything(s[..|s| - 1], keep); }
  }

  /** Overwriting one element with the last one, then dropping the last. */
  function LastOver<T>(s: seq<T>, i: nat): seq<T>
    requires i < |s|
  {
    s[i := s[|s| - 1]][..|s| - 1]
  }

  lemma LastOverRemoves<T>(s: seq<T>, i: nat)
    requires i < |s|
    ensures multiset(LastOver(s, i)) == multiset(s) - multiset{s[i]}
  {
    var n := |s| - 1;
    assert s == s[..n] + [s[n]];
    if i < n {
      assert s[..n] == s[..i] + [s[i]] + s[i + 1..n];
      assert LastOver(s, i) == s[..i] + [s[n]] + s[i + 1..n];
    } else {
      assert LastOver(s, i) == s[..n];
    }
  }
}
