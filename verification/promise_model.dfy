/** What promises mean, without any promise objects: a promise is a root that someone
    settles, or is derived from another by `then`, and its outcome is a fold of handlers. */
module PromiseModel {

  /** Handlers are total functions on values of an arbitrary type. */
  datatype Handler<!V> = NotCallable | Callable(f: V -> V)

  datatype Outcome<+V> = Unsettled | Resolved(value: V) | Failed(error: V)

  /** The outcome of `then(p, onFulfilled, onRejected)` from that of p.  Either handler
      recovers: what it returns fulfils the derived promise. */
  function Chain<V>(o: Outcome<V>, onFulfilled: Handler<V>, onRejected: Handler<V>): Outcome<V> {
    match o
    case Unsettled => Unsettled
    case Resolved(v) => if onFulfilled.Callable? then Resolved(onFulfilled.f(v)) else o
    case Failed(e) => if onRejected.Callable? then Resolved(onRejected.f(e)) else o
  }

  /** How often `then` handlers run on a promise with this outcome. */
  function HandlerCalls<V>(o: Outcome<V>, onFulfilled: Handler<V>, onRejected: Handler<V>): nat {
    match o
    case Unsettled => 0
    case Resolved(_) => if onFulfilled.Callable? then 1 else 0
    case Failed(_) => if onRejected.Callable? then 1 else 0
  }

  datatype Origin<!V> = Root | Derived(parent: nat, onFulfilled: Handler<V>, onRejected: Handler<V>)

  /** Promises in creation order, and what each root has been settled with. */
  datatype World<!V> = World(origins: seq<Origin<V>>, settled: seq<Outcome<V>>)

  datatype Event<!V> =
    | New
    | Then(parent: nat, onFulfilled: Handler<V>, onRejected: Handler<V>)
    | ThenOnValue(value: V)
    | Settle(root: nat, outcome: Outcome<V>)

  ghost predicate WellFormed<V>(w: World<V>) {
    && |w.settled| == |w.origins|
    && (forall j :: 0 <= j < |w.origins| && w.origins[j].Derived? ==> w.origins[j].parent < j)
    && (forall i, j :: 0 <= i < j < |w.origins| && w.origins[i].Derived? && w.origins[j].Derived? ==>
          w.origins[i].parent != w.origins[j].parent)
  }

  ghost predicate HasChild<V>(w: World<V>, i: nat) {
    exists j :: 0 <= j < |w.origins| && w.origins[j].Derived? && w.origins[j].parent == i
  }

  /** One registration per promise, and only roots are settled from outside. */
  ghost predicate Allowed<V>(w: World<V>, e: Event<V>) {
    match e
    case New => true
    case Then(i, _, _) => i < |w.origins| && !HasChild(w, i)
    case ThenOnValue(_) => true
    case Settle(i, o) => i < |w.origins| && w.origins[i].Root? && o != Unsettled
  }

  ghost function Step<V>(w: World<V>, e: Event<V>): World<V>
    requires WellFormed(w) && Allowed(w, e)
    ensures WellFormed(Step(w, e))
  {
    match e
    case New => World(w.origins + [Root], w.settled + [Unsettled])
    case Then(i, f, r) => World(w.origins + [Derived(i, f, r)], w.settled + [Unsettled])
    case ThenOnValue(v) => World(w.origins + [Root], w.settled + [Resolved(v)])
    case Settle(i, o) => if w.settled[i] == Unsettled then w.(settled := w.settled[i := o]) else w
  }

  ghost predicate Proper<V>(w: World<V>, es: seq<Event<V>>)
    requires WellFormed(w)
    decreases |es|
  {
    es == [] || (Allowed(w, es[0]) && Proper(Step(w, es[0]), es[1..]))
  }

  ghost function Replay<V>(w: World<V>, es: seq<Event<V>>): World<V>
    requires WellFormed(w) && Proper(w, es)
    ensures WellFormed(Replay(w, es))
    decreases |es|
  {
    if es == [] then w else Replay(Step(w, es[0]), es[1..])
  }

  /** The meaning of promise j: a fold of handlers from its root. */
  ghost function Eval<V>(w: World<V>, j: nat): Outcome<V>
    requires WellFormed(w) && j < |w.origins|
    decreases j
  {
    match w.origins[j]
    case Root => w.settled[j]
    case Derived(i, f, r) => Chain(Eval(w, i), f, r)
  }

  ghost function Empty<V>(): World<V> { World([], []) }

  /** The attachments and creations of a schedule, without its settlements. */
  ghost function Creations<V>(es: seq<Event<V>>): seq<Event<V>> {
    if es == [] then []
    else (if es[0].Settle? then [] else [es[0]]) + Creations(es[1..])
  }

  /** What the schedule first settles promise i with, if anything. */
  ghost function FirstSettlement<V>(es: seq<Event<V>>, i: nat): Outcome<V> {
    if es == [] then Unsettled
    else if es[0].Settle? && es[0].root == i && es[0].outcome != Unsettled then es[0].outcome
    else FirstSettlement(es[1..], i)
  }

  ghost function Created<V>(e: Event<V>): (Origin<V>, Outcome<V>) {
    match e
    case New => (Root, Unsettled)
    case Then(i, f, r) => (Derived(i, f, r), Unsettled)
    case ThenOnValue(v) => (Root, Resolved(v))
    case Settle(_, _) => (Root, Unsettled)
  }

  ghost function Earlier<V>(o: Outcome<V>, later: Outcome<V>): Outcome<V> {
    if o == Unsettled then later else o
  }

  /** A whole run in closed form: creations decide the shape, first settlements the rest. */
  lemma {:induction false} ReplayClosed<V>(w: World<V>, es: seq<Event<V>>)
    requires WellFormed(w) && Proper(w, es)
    ensures var r := Replay(w, es);
      && |r.origins| == |w.origins| + |Creations(es)|
      && (forall j :: 0 <= j < |w.origins| ==>
            r.origins[j] == w.origins[j] && r.settled[j] == Earlier(w.settled[j], FirstSettlement(es, j)))
      && (forall j :: |w.origins| <= j < |r.origins| ==>
            var c := Created(Creations(es)[j - |w.origins|]);
            r.origins[j] == c.0 && r.settled[j] == Earlier(c.1, FirstSettlement(es, j)))
    decreases |es|
  {
    if es != [] {
      ReplayClosed(Step(w, es[0]), es[1..]);
      hide Proper, WellFormed, Allowed;
    }
  }

  /** Schedules that create and attach alike and settle each root alike, in whatever
      interleaving, leave every promise with the same outcome. */
  lemma InterleavingIrrelevant<V>(a: seq<Event<V>>, b: seq<Event<V>>)
    requires Proper(Empty(), a) && Proper(Empty(), b)
    requires Creations(a) == Creations(b)
    requires forall i: nat :: FirstSettlement(a, i) == FirstSettlement(b, i)
    ensures Replay(Empty(), a) == Replay(Empty(), b)
    ensures forall j: nat | j < |Replay(Empty(), a).origins| ::
      Eval(Replay(Empty(), a), j) == Eval(Replay(Empty(), b), j)
  {
    ReplayClosed(Empty(), a);
    ReplayClosed(Empty(), b);
    var ra, rb := Replay(Empty(), a), Replay(Empty(), b);
    assert ra.origins == rb.origins && ra.settled == rb.settled;
  }

  /** Attaching before or after the root settles makes no difference, and neither loses
      the right to happen. */
  lemma SettleThenCommute<V>(w: World<V>, i: nat, f: Handler<V>, r: Handler<V>, k: nat, o: Outcome<V>)
    requires WellFormed(w) && Allowed(w, Then(i, f, r)) && Allowed(w, Settle(k, o))
    ensures Allowed(Step(w, Settle(k, o)), Then(i, f, r)) && Allowed(Step(w, Then(i, f, r)), Settle(k, o))
    ensures Step(Step(w, Settle(k, o)), Then(i, f, r)) == Step(Step(w, Then(i, f, r)), Settle(k, o))
  {
    var s, t := Step(w, Settle(k, o)), Step(w, Then(i, f, r));
    assert Step(s, Then(i, f, r)).settled == Step(t, Settle(k, o)).settled;
  }

  /** Derived promises settle exactly when their root does: nothing on a chain is left
      pending once its head is settled, however long the chain. */
  lemma {:induction false} SettledWithRoot<V>(w: World<V>, j: nat)
    requires WellFormed(w) && j < |w.origins|
    ensures RootOf(w, j) < |w.origins| && w.origins[RootOf(w, j)].Root?
    ensures Eval(w, j) == Unsettled <==> w.settled[RootOf(w, j)] == Unsettled
    decreases j
  {
    if w.origins[j].Derived? { SettledWithRoot(w, w.origins[j].parent); }
  }

  ghost function RootOf<V>(w: World<V>, j: nat): nat
    requires WellFormed(w) && j < |w.origins|
    decreases j
  {
    if w.origins[j].Root? then j else RootOf(w, w.origins[j].parent)
  }

  // ---------- whole chains ----------

  /** Some promise derived on the way from the root to j, j included, has a rejection handler. */
  ghost predicate Caught<V>(w: World<V>, j: nat)
    requires WellFormed(w) && j < |w.origins|
    decreases j
  {
    w.origins[j].Derived? && (w.origins[j].onRejected.Callable? || Caught(w, w.origins[j].parent))
  }

  /** A rejection comes through a chain, unchanged, exactly if nothing on the way handles it. */
  lemma {:induction false} RejectionPasses<V>(w: World<V>, j: nat, e: V)
    requires WellFormed(w) && j < |w.origins|
    ensures RootOf(w, j) < |w.origins|
    ensures Eval(w, j) == Failed(e) <==> w.settled[RootOf(w, j)] == Failed(e) && !Caught(w, j)
    decreases j
  {
    if w.origins[j].Derived? { RejectionPasses(w, w.origins[j].parent, e); }
  }

  /** The first promise on the way from the root to j that has a rejection handler. */
  ghost function Catcher<V>(w: World<V>, j: nat): (c: nat)
    requires WellFormed(w) && j < |w.origins| && Caught(w, j)
    ensures c <= j && w.origins[c].Derived? && w.origins[c].onRejected.Callable?
    ensures !Caught(w, w.origins[c].parent)
    decreases j
  {
    if Caught(w, w.origins[j].parent) then Catcher(w, w.origins[j].parent) else j
  }

  /** The fulfilment handlers of the promises derived behind c on the way to j, in chain order. */
  ghost function HandlersBehind<V>(w: World<V>, c: nat, j: nat): seq<V -> V>
    requires WellFormed(w) && j < |w.origins|
    decreases j
  {
    if j == c || w.origins[j].Root? then []
    else
      var before := HandlersBehind(w, c, w.origins[j].parent);
      if w.origins[j].onFulfilled.Callable? then before + [w.origins[j].onFulfilled.f] else before
  }

  /** The value handed from each function to the next. */
  ghost function InTurn<V>(fs: seq<V -> V>, v: V): V {
    if fs == [] then v else fs[|fs| - 1](InTurn(fs[..|fs| - 1], v))
  }

  lemma InTurnSnoc<V>(fs: seq<V -> V>, f: V -> V, v: V)
    ensures InTurn(fs + [f], v) == f(InTurn(fs, v))
  {
    assert (fs + [f])[..|fs|] == fs;
  }

  /** Behind a resolved root the fulfilment handlers run in chain order, and no rejection
      handler has any part in it. */
  lemma {:induction false} ValuePasses<V>(w: World<V>, j: nat, v: V)
    requires WellFormed(w) && j < |w.origins| && RootOf(w, j) < |w.origins| && w.settled[RootOf(w, j)] == Resolved(v)
    ensures Eval(w, j) == Resolved(InTurn(HandlersBehind(w, RootOf(w, j), j), v))
    decreases j
  {
    SettledWithRoot(w, j);
    if w.origins[j].Derived? {
      var i := w.origins[j].parent;
      ValuePasses(w, i, v);
      assert HandlersBehind(w, RootOf(w, j), i) == HandlersBehind(w, RootOf(w, i), i);
      if w.origins[j].onFulfilled.Callable? {
        InTurnSnoc(HandlersBehind(w, RootOf(w, i), i), w.origins[j].onFulfilled.f, v);
      }
    }
  }

  /** Behind a rejected root the first rejection handler on the way turns the error into a value,
      and the fulfilment handlers behind it run on that, in chain order. */
  lemma {:induction false} RejectionCaught<V>(w: World<V>, j: nat, e: V)
    requires WellFormed(w) && j < |w.origins| && RootOf(w, j) < |w.origins|
    requires w.settled[RootOf(w, j)] == Failed(e) && Caught(w, j)
    ensures var c := Catcher(w, j);
      Eval(w, j) == Resolved(InTurn(HandlersBehind(w, c, j), w.origins[c].onRejected.f(e)))
    decreases j
  {
    var c, i := Catcher(w, j), w.origins[j].parent;
    if c == j {
      RejectionPasses(w, i, e);
    } else {
      RejectionCaught(w, i, e);
      if w.origins[j].onFulfilled.Callable? {
        InTurnSnoc(HandlersBehind(w, c, i), w.origins[j].onFulfilled.f, w.origins[c].onRejected.f(e));
      }
    }
  }

  /** Once a promise is settled nothing that happens later changes it. */
  lemma SettledForGood<V>(w: World<V>, es: seq<Event<V>>, j: nat)
    requires WellFormed(w) && Proper(w, es) && j < |w.origins| && Eval(w, j) != Unsettled
    ensures j < |Replay(w, es).origins| && Eval(Replay(w, es), j) == Eval(w, j)
  {
    ReplayClosed(w, es);
    SettledWithRoot(w, j);
    SameEval(w, Replay(w, es), j);
  }

  lemma {:induction false} SameEval<V>(w: World<V>, r: World<V>, j: nat)
    requires WellFormed(w) && WellFormed(r) && j < |w.origins| <= |r.origins|
    requires forall i :: 0 <= i < |w.origins| ==> r.origins[i] == w.origins[i]
    requires RootOf(w, j) < |w.origins| && r.settled[RootOf(w, j)] == w.settled[RootOf(w, j)]
    ensures Eval(r, j) == Eval(w, j)
    decreases j
  {
    if w.origins[j].Derived? { SameEval(w, r, w.origins[j].parent); }
  }
}
