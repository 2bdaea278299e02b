/** The timer list: a singly linked list, new timers in front, walked by a poll while the
    callbacks it calls add and clear timers. */
module Timers {
  import opened TimerModel

  class TsTimer {
    const id: int
    const repeating: bool
    const interval: real
    const callback: int
    var active: bool
    var nextFire: real
    var next: TsTimer?

    constructor (id: int, repeating: bool, interval: real, nextFire: real, callback: int, next: TsTimer?)
      ensures View() == Timer(id, true, repeating, nextFire, interval, callback) && this.next == next
    {
      this.id, this.repeating, this.interval, this.callback := id, repeating, interval, callback;
      this.active, this.nextFire, this.next := true, nextFire, next;
    }

    ghost function View(): Timer
      reads this`active, this`nextFire
    {
      Timer(id, active, repeating, nextFire, interval, callback)
    }
  }

  ghost function Views(list: seq<TsTimer>): (r: seq<Timer>)
    reads list`active, list`nextFire
    ensures |r| == |list|
  {
    if list == [] then [] else [list[0].View()] + Views(list[1..])
  }

  lemma {:induction false} NodeView(list: seq<TsTimer>, p: nat)
    requires p < |list|
    ensures Views(list)[p] == list[p].View()
  {
    if p > 0 { NodeView(list[1..], p - 1); }
  }

  lemma AllViews(list: seq<TsTimer>)
    ensures forall i :: 0 <= i < |list| ==> Views(list)[i] == list[i].View()
  {
    forall i | 0 <= i < |list| ensures Views(list)[i] == list[i].View() {
      NodeView(list, i);
    }
  }

  lemma {:induction false} ViewsDrop(list: seq<TsTimer>, p: nat)
    requires p < |list|
    ensures Views(list[..p] + list[p + 1..]) == Views(list)[..p] + Views(list)[p + 1..]
  {
    if p == 0 {
      assert list[..0] + list[1..] == list[1..];
    } else {
      ViewsDrop(list[1..], p - 1);
      var shorter := list[..p] + list[p + 1..];
      assert shorter[1..] == list[1..][..p - 1] + list[1..][p..];
    }
  }

  lemma ViewsAre(list: seq<TsTimer>, r: seq<Timer>)
    requires |r| == |list| && forall i :: 0 <= i < |list| ==> list[i].View() == r[i]
    ensures Views(list) == r
  {
    AllViews(list);
    hide Views;
  }

  lemma AllActiveNodes(list: seq<TsTimer>)
    requires forall i :: 0 <= i < |list| ==> list[i].active
    ensures ActiveOnes(Views(list)) == Views(list)
  {
    AllViews(list);
    AllActive(Views(list));
  }

  lemma ViewsFirst(t: TsTimer, list: seq<TsTimer>)
    ensures Views([t] + list) == [t.View()] + Views(list)
  {
    assert ([t] + list)[1..] == list;
  }

  /** Clearing finds the first timer with the number. */
  lemma {:induction false} DeactivateFirst(timers: seq<Timer>, id: int, k: nat)
    requires k <= |timers| && forall i :: 0 <= i < k ==> timers[i].id != id
    requires k < |timers| ==> timers[k].id == id
    ensures Deactivate(timers, id) == if k < |timers| then timers[k := timers[k].(active := false)] else timers
  {
    if k > 0 {
      DeactivateFirst(timers[1..], id, k - 1);
      assert timers == [timers[0]] + timers[1..];
    }
  }

  class TimerList {
    var timers: TsTimer?
    var nextId: int
    var ticks: nat            // clock readings so far
    var log: seq<Event>
    ghost var list: seq<TsTimer>
    ghost var nodes: set<TsTimer>

    constructor ()
      ensures Linked() && View() == World([], 1, 0, []) && nodes == {}
    {
      timers, nextId, ticks, log, list, nodes := null, 1, 0, [], [], {};
    }

    ghost function NodeAt(i: nat): TsTimer?
      reads this`list
    {
      if i < |list| then list[i] else null
    }

    ghost predicate Linked()
      reads this`timers, this`list, this`nodes, nodes`next
    {
      && (forall i :: 0 <= i < |list| ==> list[i] in nodes)
      && (forall i, j :: 0 <= i < j < |list| ==> list[i] != list[j])
      && timers == NodeAt(0)
      && (forall i {:trigger list[i].next} :: 0 <= i < |list| ==> list[i].next == NodeAt(i + 1))
    }

    ghost function View(): World
      reads this, list`active, list`nextFire
    {
      World(Views(list), nextId, ticks, log)
    }

    method Now(o: Outside) returns (now: real)
      modifies this`ticks
      ensures now == o.clock(old(ticks)) && ticks == old(ticks) + 1
    {
      now := o.clock(ticks);
      ticks := ticks + 1;
    }

    /** Puts a node that points at the head in front. */
    method Link(t: TsTimer)
      requires Linked() && t !in nodes && t.next == timers
      modifies this`timers, this`list, this`nodes
      ensures Linked() && list == [t] + old(list) && nodes == old(nodes) + {t}
    {
      timers := t;
      list := [t] + list;
      nodes := nodes + {t};
    }

    /** `ts_timer_add`. */
    method Add(o: Outside, delayMs: real, repeating: bool, callback: int) returns (id: int)
      requires Linked()
      modifies this
      ensures Linked() && View() == AddTimer(old(View()), o, delayMs, repeating, callback)
      ensures id == old(nextId) && Behind(old(list), list) && old(nodes) <= nodes && fresh(nodes - old(nodes))
    {
      hide Linked, Views;
      var delay := delayMs;
      if delay < 0.0 { delay := 0.0; }
      id := nextId;
      nextId := nextId + 1;
      var now := Now(o);
      var t := new TsTimer(id, repeating, delay, now + delay, callback, timers);
      OwnFields();
      Link(t);
      log := log + [Added(id, repeating, delayMs, now)];
      ViewsFirst(t, old(list));
    }

    /** Nodes are allocated, and the list stands when nothing it reads changes. */
    twostate lemma OwnFields()
      requires old(Linked()) && nodes == old(nodes) && list == old(list) && timers == old(timers)
      requires forall t :: t in nodes ==> t.next == old(t.next)
      ensures Linked()
    {
    }

    /** The first timer with that number. */
    method Find(id: int) returns (t: TsTimer?, ghost k: nat)
      requires Linked()
      ensures k <= |list| && t == NodeAt(k)
      ensures forall i :: 0 <= i < k ==> list[i].id != id
      ensures t != null ==> t.id == id
    {
      t, k := timers, 0;
      while t != null
        invariant k <= |list| && t == NodeAt(k)
        invariant forall i :: 0 <= i < k ==> list[i].id != id
        decreases |list| - k
      {
        if t.id == id { return; }
        t := t.next;
        k := k + 1;
      }
    }

    /** `ts_timer_clear`. */
    method Clear(id: int)
      requires Linked()
      modifies this`log, nodes`active
      ensures Linked() && View() == ClearTimer(old(View()), id)
    {
      var t, k := Find(id);
      AllViews(list);
      DeactivateFirst(Views(list), id, k);
      OneNode(k);
      hide Deactivate, Views, Linked;
      log := log + [Cleared(id)];
      if t != null {
        ghost var was := Views(list);
        t.active := false;
        ViewsAre(list, was[k := t.View()]);
      }
      OwnFields();
    }

    /** A node of the list is one of the nodes, and stands in one place. */
    lemma OneNode(k: nat)
      requires Linked() && k <= |list|
      ensures k < |list| ==> list[k] in nodes && forall i :: 0 <= i < |list| && i != k ==> list[i] != list[k]
    {
    }

    method Perform(o: Outside, a: Action)
      requires Linked()
      modifies this, nodes`active
      ensures Linked() && View() == Act(old(View()), o, a)
      ensures Behind(old(list), list) && old(nodes) <= nodes && fresh(nodes - old(nodes))
    {
      hide Linked;
      match a {
        case Add(delay, repeating, callback) => var id := Add(o, delay, repeating, callback);
        case Clear(id) => Clear(id);
      }
    }

    method PerformAll(o: Outside, actions: seq<Action>)
      requires Linked()
      modifies this, nodes`active
      ensures Linked() && View() == ActAll(old(View()), o, actions)
      ensures Behind(old(list), list) && old(nodes) <= nodes && fresh(nodes - old(nodes))
      decreases |actions|
    {
      hide Linked, View, Act, Behind;
      if actions == [] {
        BehindItself(list);
        return;
      }
      PerformAll(o, actions[..|actions| - 1]);
      ghost var was := list;
      Perform(o, actions[|actions| - 1]);
      BehindTwice(old(list), was, list);
    }

    /** The call of a timer's callback. */
    method CallBack(o: Outside, t: TsTimer)
      requires Linked()
      modifies this, nodes`active
      ensures Linked() && Behind(old(list), list) && old(nodes) <= nodes && fresh(nodes - old(nodes))
      ensures View() == ActAll(old(View()).(log := old(log) + [Fired(t.id)]), o, o.script(t.callback, |old(log)|))
      ensures |log| > |old(log)|
    {
      hide Linked, Views, Act, ActAll;
      var actions := o.script(t.callback, |log|);
      log := log + [Fired(t.id)];
      ActAllLog(View(), o, actions);
      PerformAll(o, actions);
    }

    /** One due timer: a one-shot stops being active first, an interval is set again after. */
    method FireTimer(o: Outside, t: TsTimer, ghost k: nat)
      requires Linked() && 1 <= k <= |list| && list[|list| - k] == t
      modifies this, nodes`active, nodes`nextFire
      ensures Linked() && Behind(old(list), list) && old(nodes) <= nodes && fresh(nodes - old(nodes))
      ensures View() == Fire(old(View()), o, k)
      ensures |log| > |old(log)|
    {
      hide Linked, Behind, Views, Call, Put;
      Member(t, k);
      if t.repeating { FireInterval(o, t, k); } else { FireOnce(o, t, k); }
    }

    method FireOnce(o: Outside, t: TsTimer, ghost k: nat)
      requires Linked() && 1 <= k <= |list| && list[|list| - k] == t
      modifies this, nodes`active, nodes`nextFire
      ensures Linked() && Behind(old(list), list) && old(nodes) <= nodes && fresh(nodes - old(nodes))
      ensures View() == Call(Put(old(View()), k, At(old(View()), k).(active := false)), o, k)
      ensures |log| > |old(log)|
    {
      hide Linked, Behind, Views, Act, ActAll, Call;
      Member(t, k);
      StopOneShot(t, k);
      Member(t, k);
      CallIs(View(), o, k);
      CallBack(o, t);
    }

    method FireInterval(o: Outside, t: TsTimer, ghost k: nat)
      requires Linked() && 1 <= k <= |list| && list[|list| - k] == t
      modifies this, nodes`active, nodes`nextFire
      ensures Linked() && Behind(old(list), list) && old(nodes) <= nodes && fresh(nodes - old(nodes))
      ensures var called := Call(old(View()), o, k);
        View() == if At(called, k).active
          then
            Put(called, k, At(called, k).(due := o.clock(called.ticks) + At(called, k).interval))
            .(ticks := called.ticks + 1)
          else called
      ensures |log| > |old(log)|
    {
      hide Linked, Behind, Views, Act, ActAll, Call;
      Member(t, k);
      CallIs(View(), o, k);
      CallBack(o, t);
      BehindAt(old(list), list, k);
      Member(t, k);
      if t.active {
        var now := Now(o);
        Reschedule(t, now + t.interval, k);
      }
    }

    lemma Member(t: TsTimer, k: nat)
      requires Linked() && 1 <= k <= |list| && list[|list| - k] == t
      ensures t in nodes && t.View() == At(View(), k)
    {
      NodeView(list, |list| - k);
    }

    method Reschedule(t: TsTimer, due: real, ghost k: nat)
      requires Linked() && 1 <= k <= |list| && list[|list| - k] == t
      modifies t`nextFire
      ensures Linked() && View() == Put(old(View()), k, At(old(View()), k).(due := due))
    {
      ghost var was := Views(list);
      AllViews(list);
      hide Views;
      t.nextFire := due;
      ViewsAre(list, was[|list| - k := t.View()]);
    }

    method StopOneShot(t: TsTimer, ghost k: nat)
      requires Linked() && 1 <= k <= |list| && list[|list| - k] == t
      modifies t`active
      ensures Linked() && View() == Put(old(View()), k, At(old(View()), k).(active := false))
    {
      ghost var was := Views(list);
      AllViews(list);
      hide Views;
      t.active := false;
      ViewsAre(list, was[|list| - k := t.View()]);
    }

    /** `ts_timers_pending`. */
    method AnyPending() returns (pending: bool)
      requires Linked()
      ensures pending == Pending(View().timers)
    {
      var t := timers;
      ghost var k := 0;
      while t != null
        invariant k <= |list| && t == NodeAt(k)
        invariant forall i :: 0 <= i < k ==> !list[i].active
        decreases |list| - k
      {
        NodeView(list, k);
        if t.active { assert View().timers[k].active; return true; }
        t := t.next;
        k := k + 1;
      }
      AllViews(list);
      pending := false;
    }

    /** Unlinks one node. */
    method Unlink(t: TsTimer, prev: TsTimer?, ghost p: nat)
      requires Linked() && p < |list| && list[p] == t && prev == (if p > 0 then list[p - 1] else null)
      modifies this`timers, this`list, this`nodes, nodes`next
      ensures Linked() && list == old(list)[..p] + old(list)[p + 1..] && nodes == old(nodes) - {t}
      ensures (if p > 0 then list[p - 1].next else timers) == NodeAt(p)
    {
      ghost var l := list;
      if prev == null { timers := t.next; } else { prev.next := t.next; }
      list := l[..p] + l[p + 1..];
      nodes := nodes - {t};
      assert forall i :: 0 <= i < |list| ==> list[i] == if i < p then l[i] else l[i + 1];
    }

    method DropNode(t: TsTimer, prev: TsTimer?, ghost p: nat)
      requires Linked() && p < |list| && list[p] == t && prev == (if p > 0 then list[p - 1] else null) && !t.active
      modifies this`timers, this`list, this`nodes, nodes`next
      ensures Linked() && list == old(list)[..p] + old(list)[p + 1..] && nodes == old(nodes) - {t}
      ensures ActiveOnes(Views(list)) == ActiveOnes(old(Views(list)))
    {
      NodeView(list, p);
      hide Linked, ActiveOnes, Views;
      DropInactive(Views(list), p);
      ViewsDrop(list, p);
      Unlink(t, prev, p);
    }

    /** `ts_timers_gc_inactive`. */
    method GcInactive()
      requires Linked()
      modifies this`timers, this`list, this`nodes, nodes`next
      ensures Linked() && nodes <= old(nodes)
      ensures View() == old(View()).(timers := ActiveOnes(old(View()).timers))
    {
      hide Linked, ActiveOnes, Views;
      var prev: TsTimer? := null;
      ghost var p: nat := 0;
      var t := timers;
      HeadIs();
      while t != null
        invariant Linked() && nodes <= old(nodes) && p <= |list|
        invariant prev == (if p > 0 then list[p - 1] else null) && t == NodeAt(p)
        invariant forall i :: 0 <= i < p ==> list[i].active
        invariant ActiveOnes(Views(list)) == ActiveOnes(old(Views(list)))
        decreases |list| - p
      {
        NextIs(t, p);
        var next := t.next;
        if !t.active {
          DropNode(t, prev, p);
        } else {
          prev := t;
          p := p + 1;
        }
        t := next;
      }
      AllActiveNodes(list);
    }

    lemma HeadIs()
      requires Linked()
      ensures timers == NodeAt(0)
    {
    }

    lemma NextIs(t: TsTimer, p: nat)
      requires Linked() && p < |list| && list[p] == t
      ensures t.next == NodeAt(p + 1)
    {
    }

    /** The walk comes to one timer. */
    method PollTurn(o: Outside, t: TsTimer, now: real, ghost k: nat) returns (fired: bool)
      requires Linked() && 1 <= k <= |list| && list[|list| - k] == t
      modifies this, nodes`active, nodes`nextFire
      ensures Linked() && old(nodes) <= nodes && fresh(nodes - old(nodes))
      ensures View() == Turn(old(View()), o, now, k)
      ensures 1 <= k <= |list| && list[|list| - k] == t
      ensures if fired then |log| > |old(log)| else log == old(log)
    {
      hide Linked, Views, Fire, Behind;
      Member(t, k);
      BehindItself(list);
      fired := t.active && t.nextFire <= now + 0.5;
      if fired { FireTimer(o, t, k); }
      BehindAt(old(list), list, k);
    }

    /** `ts_timers_poll`, without its sleep. */
    method PollOnce(o: Outside) returns (fired: bool)
      requires Linked()
      modifies this, nodes
      ensures Linked() && fresh(nodes - old(nodes))
      ensures View() == Poll(old(View()), o)
      ensures fired == (log != old(log))
    {
      hide Linked, Views, Turn, Pass, ActiveOnes;
      fired := false;
      var pending := AnyPending();
      if !pending { return; }
      var now := Now(o);
      ghost var start := View();
      var t := timers;
      ghost var k: nat := |list|;
      HeadIs();
      while t != null
        invariant Linked() && k <= |list| && old(nodes) <= nodes && fresh(nodes - old(nodes))
        invariant t == NodeAt(|list| - k)
        invariant Pass(start, o, now, |start.timers|) == Pass(View(), o, now, k)
        invariant if fired then |log| > |old(log)| else log == old(log)
        decreases k
      {
        PassTurn(View(), o, now, k);
        var called := PollTurn(o, t, now, k);
        fired := fired || called;
        NextIs(t, |list| - k);
        t := t.next;
        k := k - 1;
      }
      PassTurn(View(), o, now, 0);
      GcInactive();
    }
  }

  lemma CallIs(w: World, o: Outside, k: nat)
    requires 1 <= k <= |w.timers|
    ensures Call(w, o, k) == ActAll(w.(log := w.log + [Fired(At(w, k).id)]), o, o.script(At(w, k).callback, |w.log|))
  {
  }

  lemma PassTurn(w: World, o: Outside, now: real, k: nat)
    requires k <= |w.timers|
    ensures Pass(w, o, now, k) == if k == 0 then w else Pass(Turn(w, o, now, k), o, now, k - 1)
  {
  }

  lemma {:induction false} DropInactive(timers: seq<Timer>, p: nat)
    requires p < |timers| && !timers[p].active
    ensures ActiveOnes(timers[..p] + timers[p + 1..]) == ActiveOnes(timers)
  {
    if p == 0 {
      assert timers[..0] + timers[1..] == timers[1..];
    } else {
      var shorter := timers[..p] + timers[p + 1..];
      assert shorter[1..] == timers[1..][..p - 1] + timers[1..][p..];
      DropInactive(timers[1..], p - 1);
    }
  }

  lemma {:induction false} AllActive(timers: seq<Timer>)
    requires forall i :: 0 <= i < |timers| ==> timers[i].active
    ensures ActiveOnes(timers) == timers
  {
    if timers != [] { AllActive(timers[1..]); }
  }

  lemma BehindAt(a: seq<TsTimer>, b: seq<TsTimer>, k: nat)
    requires Behind(a, b) && 1 <= k <= |a|
    ensures k <= |b| && b[|b| - k] == a[|a| - k]
  {
  }

  /** The nodes of `before` are still there, behind new ones. */
  ghost predicate Behind(before: seq<TsTimer>, list: seq<TsTimer>) {
    |before| <= |list| && list[|list| - |before|..] == before
  }

  lemma BehindItself(a: seq<TsTimer>)
    ensures Behind(a, a)
  {
  }

  lemma BehindTwice(a: seq<TsTimer>, b: seq<TsTimer>, c: seq<TsTimer>)
    requires Behind(a, b) && Behind(b, c)
    ensures Behind(a, c)
  {
  }
}
