/** The promise engine: settling a promise runs its handler and settles, recursively,
    the promise `then` derived from it. */
module Promises {
  import opened PromiseModel

  datatype State = PENDING | FULFILLED | REJECTED

  class Promise<V> {
    var state: State
    var result: V
    var onFulfilled: Handler<V>
    var onRejected: Handler<V>
    var thenPromise: Promise?<V>
    ghost var calls: nat          // handler invocations so far

    constructor (undefined: V)
      ensures Outcome() == Unsettled && calls == 0 && thenPromise == null
      ensures onFulfilled == onRejected == NotCallable
    {
      state, result := PENDING, undefined;
      onFulfilled, onRejected, thenPromise := NotCallable, NotCallable, null;
      calls := 0;
    }

    ghost function Outcome(): Outcome<V>
      reads this`state, this`result
    {
      match state
      case PENDING => Unsettled
      case FULFILLED => Resolved(result)
      case REJECTED => Failed(result)
    }

    /** The derived promise has the outcome its registration prescribes, and the
        handler has run once if it should have and not otherwise. */
    ghost predicate Consistent()
      reads this, thenPromise
    {
      && calls == HandlerCalls(Outcome(), onFulfilled, onRejected)
      && (thenPromise != null ==> thenPromise.Outcome() == Chain(Outcome(), onFulfilled, onRejected))
      && (thenPromise == null ==> onFulfilled == onRejected == NotCallable)
    }
  }

  /** A set of promises closed under `thenPromise`, each derived from at most one. */
  ghost predicate Closed<V>(S: set<Promise<V>>)
    reads S
  {
    && (forall p :: p in S && p.thenPromise != null ==> p.thenPromise in S)
    && (forall p, q :: p in S && q in S && p.thenPromise != null && p.thenPromise == q.thenPromise ==> p == q)
    && (forall p :: p in S ==> p.thenPromise != p)
  }

  ghost predicate ConsistentExcept<V>(S: set<Promise<V>>, exempt: Promise?<V>)
    requires Closed(S)
    reads S
  {
    forall p :: p in S && p != exempt ==> p.Consistent()
  }

  ghost predicate IsRoot<V>(S: set<Promise<V>>, p: Promise<V>)
    reads S
  {
    forall q :: q in S ==> q.thenPromise != p
  }

  ghost function Pending<V>(S: set<Promise<V>>): set<Promise<V>>
    reads S
  {
    set p | p in S && p.state == PENDING
  }

  /** p may become o: its parent, if settled consistently, already demands that. */
  ghost predicate MayBecome<V>(S: set<Promise<V>>, p: Promise<V>, o: Outcome<V>)
    requires Closed(S)
    reads S
  {
    forall q :: q in S ==>
      if q.thenPromise == p then Chain(q.Outcome(), q.onFulfilled, q.onRejected) == o
        && q.calls == HandlerCalls(q.Outcome(), q.onFulfilled, q.onRejected)
      else q.Consistent()
  }

  method RunHandlers<V>(p: Promise<V>, ghost S: set<Promise<V>>)
    requires Closed(S) && p in S && p.state != PENDING && p.calls == 0
    requires ConsistentExcept(S, p)
    requires p.thenPromise != null ==> p.thenPromise.state == PENDING
    requires p.thenPromise == null ==> p.onFulfilled == p.onRejected == NotCallable
    modifies S`state, S`result, S`calls
    ensures ConsistentExcept(S, null)
    ensures forall q :: q in S && old(q.state) != PENDING ==> q.Outcome() == old(q.Outcome())
    ensures forall q :: q in S && IsRoot(S, q) ==> q.Outcome() == old(q.Outcome())
    decreases Pending(S), 1
  {
    if p.state == FULFILLED {
      if p.onFulfilled.Callable? {
        var out := p.onFulfilled.f(p.result);
        p.calls := p.calls + 1;
        if p.thenPromise != null {
          Resolve(p.thenPromise, out, S);
        }
      } else if p.thenPromise != null {
        Resolve(p.thenPromise, p.result, S);
      }
    } else {
      if p.onRejected.Callable? {
        var out := p.onRejected.f(p.result);
        p.calls := p.calls + 1;
        if p.thenPromise != null {
          Resolve(p.thenPromise, out, S);
        }
      } else if p.thenPromise != null {
        Reject(p.thenPromise, p.result, S);
      }
    }
  }

  method Resolve<V>(p: Promise<V>, v: V, ghost S: set<Promise<V>>)
    requires Closed(S) && p in S
    requires if p.state == PENDING then MayBecome(S, p, Resolved(v)) else ConsistentExcept(S, null)
    modifies S`state, S`result, S`calls
    ensures ConsistentExcept(S, null)
    ensures p.Outcome() == if old(p.state) == PENDING then Resolved(v) else old(p.Outcome())
    ensures forall q :: q in S && old(q.state) != PENDING ==> q.Outcome() == old(q.Outcome())
    ensures forall q :: q in S && q != p && IsRoot(S, q) ==> q.Outcome() == old(q.Outcome())
    decreases Pending(S), 0
  {
    if p.state != PENDING { return; }
    p.state := FULFILLED;
    p.result := v;
    assert Pending(S) == old(Pending(S)) - {p};
    RunHandlers(p, S);
  }

  method Reject<V>(p: Promise<V>, err: V, ghost S: set<Promise<V>>)
    requires Closed(S) && p in S
    requires if p.state == PENDING then MayBecome(S, p, Failed(err)) else ConsistentExcept(S, null)
    modifies S`state, S`result, S`calls
    ensures ConsistentExcept(S, null)
    ensures p.Outcome() == if old(p.state) == PENDING then Failed(err) else old(p.Outcome())
    ensures forall q :: q in S && old(q.state) != PENDING ==> q.Outcome() == old(q.Outcome())
    ensures forall q :: q in S && q != p && IsRoot(S, q) ==> q.Outcome() == old(q.Outcome())
    decreases Pending(S), 0
  {
    if p.state != PENDING { return; }
    p.state := REJECTED;
    p.result := err;
    assert Pending(S) == old(Pending(S)) - {p};
    RunHandlers(p, S);
  }

  /** Registers handlers and the derived promise; a promise already settled runs its
      handler at once, and that can only settle `next`. */
  method Attach<V>(p: Promise<V>, onFulfilled: Handler<V>, onRejected: Handler<V>, next: Promise<V>)
    requires p != next && p.Consistent() && p.thenPromise == null
    requires next.Consistent() && next.Outcome() == Unsettled && next.thenPromise == null
    modifies p`onFulfilled, p`onRejected, p`thenPromise, p`state, p`result, p`calls
    modifies next`state, next`result, next`calls
    ensures p.Consistent() && next.Consistent() && p.Outcome() == old(p.Outcome())
    ensures p.thenPromise == next && p.onFulfilled == onFulfilled && p.onRejected == onRejected
  {
    p.onFulfilled := onFulfilled;
    p.onRejected := onRejected;
    p.thenPromise := next;
    if p.state != PENDING {
      RunHandlers(p, {p, next});
    }
  }

  /** `then` and, with `NotCallable` as first handler, `catch`. */
  method Then<V>(p: Promise<V>, onFulfilled: Handler<V>, onRejected: Handler<V>, undefined: V, ghost S: set<Promise<V>>)
    returns (next: Promise<V>)
    requires Closed(S) && p in S && ConsistentExcept(S, null) && p.thenPromise == null
    modifies p
    ensures fresh(next) && p.thenPromise == next && next.thenPromise == null
    ensures p.onFulfilled == onFulfilled && p.onRejected == onRejected && p.Outcome() == old(p.Outcome())
    ensures Closed(S + {next}) && ConsistentExcept(S + {next}, null)
  {
    next := new Promise(undefined);
    Attach(p, onFulfilled, onRejected, next);
    forall q | q in S && q != p ensures q.Consistent() && q.thenPromise != next {
      assert old(q.Consistent());
    }
  }

  /** `then` on something that is not a promise: a promise already fulfilled with it. */
  method ThenOnPlainValue<V>(v: V, undefined: V) returns (next: Promise<V>)
    ensures fresh(next) && next.Outcome() == Resolved(v) && next.thenPromise == null
    ensures next.Consistent()
  {
    next := new Promise(undefined);
    Resolve(next, v, {next});
  }

  ghost function Members<V>(ps: seq<Promise<V>>): set<Promise<V>> { set p | p in ps }

  /** Object j stands for promise j of the world. */
  ghost predicate Stands<V>(ps: seq<Promise<V>>, w: World<V>, j: nat)
    requires WellFormed(w) && j < |ps| == |w.origins|
    reads ps
  {
    && (match w.origins[j]
        case Root => IsRoot(Members(ps), ps[j]) && ps[j].Outcome() == w.settled[j]
        case Derived(i, f, r) => ps[i].thenPromise == ps[j] && ps[i].onFulfilled == f && ps[i].onRejected == r)
    && (!HasChild(w, j) ==> ps[j].thenPromise == null)
  }

  /** The promise objects, in creation order, stand for the world w. */
  ghost predicate Mirrors<V>(ps: seq<Promise<V>>, w: World<V>)
    requires WellFormed(w)
    reads ps
  {
    && |ps| == |w.origins|
    && (forall i, j :: 0 <= i < j < |ps| ==> ps[i] != ps[j])
    && Closed(Members(ps)) && ConsistentExcept(Members(ps), null)
    && (forall j :: 0 <= j < |ps| ==> Stands(ps, w, j))
  }

  /** Whatever the order of events so far, each promise object holds the fold of the
      handlers from its root, and each registered handler that applies has run once. */
  lemma {:induction false} MirrorsEval<V>(ps: seq<Promise<V>>, w: World<V>, j: nat)
    requires WellFormed(w) && Mirrors(ps, w) && j < |ps|
    ensures ps[j].Outcome() == Eval(w, j)
    ensures ps[j].calls == HandlerCalls(Eval(w, j), ps[j].onFulfilled, ps[j].onRejected)
    decreases j
  {
    assert ps[j] in Members(ps) && ps[j].Consistent() && Stands(ps, w, j);
    if w.origins[j].Derived? {
      var i := w.origins[j].parent;
      MirrorsEval(ps, w, i);
      assert ps[i] in Members(ps) && ps[i].Consistent();
    }
  }

  /** A new root joins the world. */
  lemma MirrorsRoot<V>(ps: seq<Promise<V>>, w: World<V>, e: Event<V>, p: Promise<V>)
    requires WellFormed(w) && Mirrors(ps, w) && p !in ps && Allowed(w, e)
    requires p.Consistent() && p.thenPromise == null
    requires forall q :: q in ps ==> q.thenPromise != p
    requires Step(w, e) == World(w.origins + [Root], w.settled + [p.Outcome()])
    ensures Mirrors(ps + [p], Step(w, e))
  {
    var w' := Step(w, e);
    assert Members(ps + [p]) == Members(ps) + {p};
    forall j | 0 <= j < |ps + [p]| ensures Stands(ps + [p], w', j) {
      if j < |ps| {
        assert Stands(ps, w, j) && ps[j] in ps;
        if w.origins[j].Derived? { assert ps[w.origins[j].parent] in ps; }
        if HasChild(w, j) {
          var c :| 0 <= c < |w.origins| && w.origins[c].Derived? && w.origins[c].parent == j;
          assert w'.origins[c] == w.origins[c];
        }
      }
    }
  }

  method PerformThen<V>(ps: seq<Promise<V>>, i: nat, f: Handler<V>, r: Handler<V>, undefined: V, ghost w: World<V>)
    returns (ps': seq<Promise<V>>)
    requires WellFormed(w) && Mirrors(ps, w) && Allowed(w, Event.Then(i, f, r))
    modifies ps
    ensures Mirrors(ps', Step(w, Event.Then(i, f, r)))
    ensures forall i :: 0 <= i < |ps'| ==> ps'[i] in ps || fresh(ps'[i])
  {
    assert Stands(ps, w, i);
    var next := Then(ps[i], f, r, undefined, Members(ps));
    ps' := ps + [next];
    assert Members(ps') == Members(ps) + {next};
    ghost var w' := Step(w, Event.Then(i, f, r));
    forall j | 0 <= j < |ps'| ensures Stands(ps', w', j) {
      if j < |ps| {
        assert old(Stands(ps, w, j)) && ps[j] in ps;
        if w.origins[j].Derived? { assert ps[w.origins[j].parent] in ps; }
        if HasChild(w, j) {
          var c :| 0 <= c < |w.origins| && w.origins[c].Derived? && w.origins[c].parent == j;
          assert w'.origins[c] == w.origins[c];
        }
        if j == i { assert w'.origins[|ps|].parent == i; }
      }
    }
  }

  /** Settles a root from outside. */
  method SettleRoot<V>(p: Promise<V>, o: Outcome<V>, ghost S: set<Promise<V>>)
    requires Closed(S) && p in S && IsRoot(S, p) && ConsistentExcept(S, null) && o != Unsettled
    modifies S`state, S`result, S`calls
    ensures ConsistentExcept(S, null)
    ensures p.Outcome() == Earlier(old(p.Outcome()), o)
    ensures forall q :: q in S && q != p && IsRoot(S, q) ==> q.Outcome() == old(q.Outcome())
  {
    if o.Resolved? {
      Resolve(p, o.value, S);
    } else {
      Reject(p, o.error, S);
    }
  }

  method PerformSettle<V>(ps: seq<Promise<V>>, i: nat, o: Outcome<V>, ghost w: World<V>)
    requires WellFormed(w) && Mirrors(ps, w) && Allowed(w, Event.Settle(i, o))
    modifies ps
    ensures Mirrors(ps, Step(w, Event.Settle(i, o)))
  {
    assert Stands(ps, w, i);
    SettleRoot(ps[i], o, Members(ps));
    ghost var w' := Step(w, Event.Settle(i, o));
    SettleShape(w, i, o);
    hide ConsistentExcept, Closed, HasChild, WellFormed, Allowed, Step, IsRoot, Promise.Consistent;
    forall j | 0 <= j < |ps| ensures Stands(ps, w', j) {
      assert old(Stands(ps, w, j)) && ps[j] in Members(ps);
    }
  }

  /** Settling leaves the shape of the world as it is. */
  lemma SettleShape<V>(w: World<V>, i: nat, o: Outcome<V>)
    requires WellFormed(w) && Allowed(w, Event.Settle(i, o))
    ensures var w' := Step(w, Event.Settle(i, o));
      && w'.origins == w.origins && w'.settled == w.settled[i := Earlier(w.settled[i], o)] && WellFormed(w')
      && forall j: nat :: HasChild(w, j) == HasChild(w', j)
  {
  }

  method Perform<V>(ps: seq<Promise<V>>, e: Event<V>, undefined: V, ghost w: World<V>) returns (ps': seq<Promise<V>>)
    requires WellFormed(w) && Mirrors(ps, w) && Allowed(w, e)
    modifies ps
    ensures Mirrors(ps', Step(w, e))
    ensures forall i :: 0 <= i < |ps'| ==> ps'[i] in ps || fresh(ps'[i])
  {
    hide WellFormed, Mirrors;
    match e {
      case New =>
        var p := new Promise(undefined);
        MirrorsRoot(ps, w, e, p);
        ps' := ps + [p];
      case Then(i, f, r) =>
        ps' := PerformThen(ps, i, f, r, undefined, w);
      case ThenOnValue(v) =>
        var p := ThenOnPlainValue(v, undefined);
        MirrorsRoot(ps, w, e, p);
        ps' := ps + [p];
      case Settle(i, o) =>
        PerformSettle(ps, i, o, w);
        ps' := ps;
    }
  }

  /** Any schedule of creations, attachments and settlements ends with every promise
      holding its meaning, which depends on the schedule only through `Replay`. */
  method Run<V>(events: seq<Event<V>>, undefined: V) returns (ps: seq<Promise<V>>)
    requires Proper(Empty(), events)
    ensures |ps| == |Replay(Empty(), events).origins|
    ensures forall j :: 0 <= j < |ps| ==>
      && ps[j].Outcome() == Eval(Replay(Empty(), events), j)
      && ps[j].calls <= 1
      && (ps[j].calls == 1 <==> (ps[j].Outcome().Resolved? && ps[j].onFulfilled.Callable?)
                                || (ps[j].Outcome().Failed? && ps[j].onRejected.Callable?))
    ensures forall j :: 0 <= j < |ps| ==> match Replay(Empty(), events).origins[j]
      case Root => true
      case Derived(i, f, r) => ps[i].thenPromise == ps[j] && ps[i].onFulfilled == f && ps[i].onRejected == r
  {
    ps := [];
    ghost var w := Empty();
    var k := 0;
    while k < |events|
      invariant k <= |events| && WellFormed(w) && Proper(w, events[k..])
      invariant Mirrors(ps, w)
      invariant Replay(w, events[k..]) == Replay(Empty(), events)
      invariant forall i :: 0 <= i < |ps| ==> fresh(ps[i])
    {
      hide Mirrors;
      assert events[k..][1..] == events[k + 1..];
      ps := Perform(ps, events[k], undefined, w);
      w := Step(w, events[k]);
      k := k + 1;
    }
    forall j | 0 <= j < |ps|
      ensures ps[j].Outcome() == Eval(w, j)
      ensures ps[j].calls == HandlerCalls(Eval(w, j), ps[j].onFulfilled, ps[j].onRejected)
      ensures Stands(ps, w, j)
    {
      MirrorsEval(ps, w, j);
    }
  }
}
