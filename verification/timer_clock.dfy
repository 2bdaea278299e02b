/** When timers fire: at which readings of the clock, in one pass and over whole runs. */
module TimerClock {
  import opened TimerModel

  function AtLeastZero(delay: real): real { if delay >= 0.0 then delay else 0.0 }

  /** A pass made after a timer has been added fires it exactly if its delay, or 0 for a negative
      one, is over, to half a millisecond. */
  lemma FiresWhenDue(w: World, o: Outside, delay: real, repeating: bool, callback: int, now: real)
    requires Inv(w)
    ensures var r := Act(w, o, Add(delay, repeating, callback));
      var after := Pass(r, o, now, |r.timers|);
      && Extends(after.log, r.log)
      && Times(New(after.log, r.log), w.nextId)
         == if (if delay >= 0.0 then delay else 0.0) <= now - o.clock(w.ticks) + 0.5 then 1 else 0
  {
    var r := Act(w, o, Add(delay, repeating, callback));
    AddInv(w, o, delay, repeating, callback);
    PassExact(r, o, now, |r.timers|);
    ReachedHere(r, o, now, |r.timers|);
    assert New(r.log, r.log) == [];
    hide Inv, Pass, Extends, Times, New;
  }

  /** A clock that does not go back. */
  ghost predicate Steady(o: Outside) { forall i: nat, j: nat :: i <= j ==> o.clock(i) <= o.clock(j) }

  // ---------- no timer fires early ----------

  /** The timer with this number has the interval d and, if active, is not due before `from`. */
  ghost predicate Waits(w: World, o: Outside, id: int, d: real, from: real) {
    && id < w.nextId && from <= o.clock(w.ticks) + d
    && forall t :: t in w.timers && t.id == id ==> t.interval == d && (t.active ==> t.due >= from)
  }

  /** The timer an addition has set waits its delay. */
  ghost predicate Honoured(w: World, o: Outside, e: Event) {
    e.Added? ==> Waits(w, o, e.id, AtLeastZero(e.delay), e.at + AtLeastZero(e.delay))
  }

  /** From w to r time has passed, no timer has become due sooner, and every timer added on the
      way waits its delay. */
  ghost predicate Sound(w: World, r: World, o: Outside) {
    && Extends(r.log, w.log) && w.ticks <= r.ticks
    && (forall id, d, from :: Waits(w, o, id, d, from) ==> Waits(r, o, id, d, from))
    && (forall e :: e in New(r.log, w.log) ==> Honoured(r, o, e))
  }

  lemma SoundStill(w: World, o: Outside)
    ensures Sound(w, w, o)
  {
    NothingNew(w.log);
  }

  lemma SoundThen(w: World, m: World, r: World, o: Outside)
    requires Sound(w, m, o) && Sound(m, r, o)
    ensures Sound(w, r, o)
  {
    NewAppends(w.log, m.log, r.log);
    hide Waits;
    forall e | e in New(r.log, w.log) ensures Honoured(r, o, e) {
      if e in New(m.log, w.log) { assert Honoured(m, o, e); }
    }
  }

  lemma AddSound(w: World, o: Outside, delay: real, repeating: bool, callback: int)
    requires Steady(o) && Inv(w)
    ensures Sound(w, AddTimer(w, o, delay, repeating, callback), o)
  {
    var r := AddTimer(w, o, delay, repeating, callback);
    assert o.clock(w.ticks) <= o.clock(r.ticks);
    assert r.timers[0].id == w.nextId && forall t :: t in r.timers ==> t == r.timers[0] || t in w.timers;
    assert NonNegative(delay) == AtLeastZero(delay);
    assert New(r.log, w.log) == [Added(w.nextId, repeating, delay, o.clock(w.ticks))];
    forall t | t in w.timers ensures t.id < w.nextId {
    }
  }

  lemma {:induction false} DeactivatedFrom(timers: seq<Timer>, id: int, t: Timer)
    requires t in Deactivate(timers, id)
    ensures t in timers || exists t0 :: t0 in timers && t0.(active := false) == t
  {
    if timers[0].id == id {
      assert timers[0] in timers;
    } else if t != timers[0] {
      DeactivatedFrom(timers[1..], id, t);
    }
  }

  lemma ClearSound(w: World, o: Outside, id: int)
    ensures Sound(w, ClearTimer(w, id), o)
  {
    var r := ClearTimer(w, id);
    assert New(r.log, w.log) == [Cleared(id)];
    forall t | t in r.timers ensures t in w.timers || exists t0 :: t0 in w.timers && t0.(active := false) == t {
      DeactivatedFrom(w.timers, id, t);
    }
  }

  lemma {:induction false} ActAllSound(w: World, o: Outside, actions: seq<Action>)
    requires Steady(o) && Inv(w)
    ensures Sound(w, ActAll(w, o, actions), o)
  {
    hide Inv, Sound, Steady;
    if actions == [] {
      SoundStill(w, o);
    } else {
      var some := actions[..|actions| - 1];
      var before := ActAll(w, o, some);
      ActAllSound(w, o, some);
      ActAllInv(w, o, some);
      match actions[|actions| - 1] {
        case Add(delay, repeating, callback) => AddSound(before, o, delay, repeating, callback);
        case Clear(id) => ClearSound(before, o, id);
      }
      SoundThen(w, before, ActAll(w, o, actions), o);
    }
  }

  /** Changing one timer without making it due sooner. */
  lemma PutSound(w: World, o: Outside, k: nat, t: Timer, ticks: nat, log: seq<Event>)
    requires Steady(o) && 1 <= k <= |w.timers| && w.ticks <= ticks
    requires t.id == At(w, k).id && t.interval == At(w, k).interval
    requires t.active ==>
      At(w, k).active && (t.due == At(w, k).due || t.due >= o.clock(w.ticks) + t.interval)
    requires Extends(log, w.log) && forall e :: e in New(log, w.log) ==> e.Fired?
    ensures Sound(w, Put(w, k, t).(ticks := ticks, log := log), o)
  {
    var r := Put(w, k, t).(ticks := ticks, log := log);
    assert o.clock(w.ticks) <= o.clock(ticks);
    forall x | x in r.timers ensures x == t || x in w.timers {
    }
    assert At(w, k) in w.timers;
  }

  lemma TurnSound(w: World, o: Outside, now: real, k: nat)
    requires Steady(o) && Inv(w) && 1 <= k <= |w.timers|
    ensures Sound(w, Turn(w, o, now, k), o)
  {
    hide Inv, Sound, Steady;
    if !Due(At(w, k), now) {
      SoundStill(w, o);
    } else {
      FireSound(w, o, k);
    }
  }

  lemma FireSound(w: World, o: Outside, k: nat)
    requires Steady(o) && Inv(w) && 1 <= k <= |w.timers| && At(w, k).active
    ensures Sound(w, Fire(w, o, k), o)
  {
    hide Inv, Steady, Sound;
    var begun := Begun(w, k);
    BeginSound(w, o, k);
    var actions := o.script(At(w, k).callback, |w.log|);
    var called := ActAll(begun, o, actions);
    FireIs(w, o, k);
    ActAllSound(begun, o, actions);
    ActAllFollows(begun, o, actions);
    CalledInterval(begun, called, k);
    SoundThen(w, begun, called, o);
    var after := At(called, k);
    if At(w, k).repeating && after.active {
      NothingNew(called.log);
      PutSound(called, o, k, after.(due := o.clock(called.ticks) + after.interval), called.ticks + 1, called.log);
      SoundThen(w, called, Fire(w, o, k), o);
    }
  }

  lemma BeginSound(w: World, o: Outside, k: nat)
    requires Steady(o) && Inv(w) && 1 <= k <= |w.timers| && At(w, k).active
    ensures Sound(w, Begun(w, k), o) && Inv(Begun(w, k))
  {
    var t := At(w, k);
    assert Put(w, k, t) == w && New(Begun(w, k).log, w.log) == [Fired(t.id)];
    FiringInv(w, k);
    hide Inv, Steady, Sound;
    PutSound(w, o, k, if t.repeating then t else t.(active := false), w.ticks, Begun(w, k).log);
  }

  lemma CalledInterval(begun: World, called: World, k: nat)
    requires Follows(begun, called) && 1 <= k <= |begun.timers|
    ensures k <= |called.timers|
    ensures At(called, k).id == At(begun, k).id && At(called, k).interval == At(begun, k).interval
    ensures At(called, k).active ==> At(begun, k).active
  {
  }

  lemma {:induction false} PassSound(w: World, o: Outside, now: real, k: nat)
    requires Steady(o) && Inv(w) && k <= |w.timers|
    ensures Sound(w, Pass(w, o, now, k), o)
    decreases k
  {
    hide Inv, Sound, Steady, Turn;
    if k == 0 {
      SoundStill(w, o);
    } else {
      var m := Turn(w, o, now, k);
      TurnInv(w, o, now, k);
      TurnSound(w, o, now, k);
      PassSound(m, o, now, k - 1);
      SoundThen(w, m, Pass(m, o, now, k - 1), o);
    }
  }

  lemma TickSound(w: World, o: Outside)
    requires Steady(o)
    ensures Sound(w, w.(ticks := w.ticks + 1), o)
  {
    assert o.clock(w.ticks) <= o.clock(w.ticks + 1);
    NothingNew(w.log);
  }

  lemma DropSound(w: World, o: Outside)
    requires Inv(w)
    ensures Sound(w, w.(timers := ActiveOnes(w.timers)), o)
  {
    ActiveMembers(w.timers);
    NothingNew(w.log);
  }

  lemma PollSound(w: World, o: Outside)
    requires Steady(o) && Inv(w)
    ensures Sound(w, Poll(w, o), o)
  {
    if !Pending(w.timers) {
      SoundStill(w, o);
    } else {
      var ticked := w.(ticks := w.ticks + 1);
      TickInv(w);
      hide Inv, Sound, Steady, Pass, ActiveOnes;
      var passed := Pass(ticked, o, o.clock(w.ticks), |w.timers|);
      TickSound(w, o);
      PassSound(ticked, o, o.clock(w.ticks), |w.timers|);
      PassInv(ticked, o, o.clock(w.ticks), |w.timers|);
      DropSound(passed, o);
      SoundThen(w, ticked, passed, o);
      SoundThen(w, passed, Poll(w, o), o);
    }
  }

  lemma CommandSound(o: Outside, commands: seq<Command>, k: nat)
    requires Steady(o) && k < |commands|
    ensures Sound(Run(o, commands[..k]), Run(o, commands[..k + 1]), o)
  {
    var w := Run(o, commands[..k]);
    RunInv(o, commands[..k]);
    assert commands[..k + 1][..k] == commands[..k];
    hide Inv, Sound, Steady, Poll;
    match commands[k] {
      case Do(Add(delay, repeating, callback)) => AddSound(w, o, delay, repeating, callback);
      case Do(Clear(id)) => ClearSound(w, o, id);
      case PollNow => PollSound(w, o);
    }
  }

  lemma {:induction false} RunSound(o: Outside, commands: seq<Command>, a: nat, b: nat)
    requires Steady(o) && a <= b <= |commands|
    ensures Sound(Run(o, commands[..a]), Run(o, commands[..b]), o)
    decreases b
  {
    hide Sound, Steady, Run;
    if a == b {
      SoundStill(Run(o, commands[..a]), o);
    } else {
      RunSound(o, commands, a, b - 1);
      CommandSound(o, commands, b - 1);
      SoundThen(Run(o, commands[..a]), Run(o, commands[..b - 1]), Run(o, commands[..b]), o);
    }
  }

  /** What a poll logs. */
  ghost function Polled(w: World, o: Outside): seq<Event>
    requires |w.log| <= |Poll(w, o).log|
  {
    New(Poll(w, o).log, w.log)
  }

  /** A timer that a poll fires was in the list, active and due. */
  lemma FiredWasDue(w: World, o: Outside, id: int) returns (j: nat)
    requires Inv(w) && Extends(Poll(w, o).log, w.log) && Fired(id) in Polled(w, o)
    ensures 1 <= j <= |w.timers| && At(w, j).id == id && Due(At(w, j), o.clock(w.ticks)) && Pending(w.timers)
  {
    var ticked := w.(ticks := w.ticks + 1);
    var now := o.clock(w.ticks);
    assert Inv(ticked);
    assert Pending(w.timers) by { NothingNew(w.log); }
    FiredTimes(Polled(w, o), id);
    PollIs(w, o);
    hide Inv, Pass, Extends, New, Times, Poll, ActiveOnes;
    if i :| 1 <= i <= |w.timers| && At(w, i).id == id {
      j := i;
      PassExact(ticked, o, now, j);
    } else {
      forall i | 1 <= i <= |w.timers| ensures At(ticked, i).id != id {
        assert At(ticked, i) == At(w, i);
      }
      OthersSilent(ticked, o, now, |w.timers|, id);
      assert false;
    }
  }

  /** In every run: no timer fires before its delay, or 0 for a negative one, is over, to half a
      millisecond, whether it was set by the program or by a callback. */
  lemma NeverEarly(o: Outside, commands: seq<Command>, p: nat, e: Event)
    requires Steady(o) && p < |commands| && commands[p] == PollNow
    requires var w := Run(o, commands[..p]);
      e in w.log && e.Added? && Extends(Poll(w, o).log, w.log) && Fired(e.id) in Polled(w, o)
    ensures var now := o.clock(Run(o, commands[..p]).ticks);
      now - e.at >= (if e.delay >= 0.0 then e.delay else 0.0) - 0.5
  {
    var w := Run(o, commands[..p]);
    RunInv(o, commands[..p]);
    FromStart(o, commands[..p], e);
    var j := FiredWasDue(w, o, e.id);
    assert At(w, j) in w.timers;
  }

  lemma FromStart(o: Outside, commands: seq<Command>, e: Event)
    requires Steady(o) && e in Run(o, commands).log
    ensures Honoured(Run(o, commands), o, e)
  {
    RunSound(o, commands, 0, |commands|);
    assert commands[..0] == [] && commands[..|commands|] == commands;
    assert New(Run(o, commands).log, []) == Run(o, commands).log;
    hide Honoured, Steady;
  }

  // ---------- intervals ----------

  /** A timer that has just been fired waits its interval, counted from any reading before. */
  lemma FiredWaits(w: World, o: Outside, k: nat, now: real)
    requires Steady(o) && Inv(w) && 1 <= k <= |w.timers| && At(w, k).active && now <= o.clock(w.ticks)
    ensures Waits(Fire(w, o, k), o, At(w, k).id, At(w, k).interval, now + At(w, k).interval)
  {
    hide Sound, ActAll, Act, Follows, Fire, Inv, Steady, Waits;
    var t := At(w, k);
    var begun := Begun(w, k);
    BeginSound(w, o, k);
    BegunAt(w, k);
    FireIs(w, o, k);
    hide Begun, At, Put;
    var actions := o.script(t.callback, |w.log|);
    var called := ActAll(begun, o, actions);
    ActAllSound(begun, o, actions);
    ActAllFollows(begun, o, actions);
    ActAllInv(begun, o, actions);
    CalledInterval(begun, called, k);
    LaterReading(w, begun, called, o);
    CalledWaits(called, o, k, now, Fire(w, o, k));
  }

  lemma LaterReading(w: World, begun: World, called: World, o: Outside)
    requires Steady(o) && Sound(w, begun, o) && Sound(begun, called, o)
    ensures o.clock(w.ticks) <= o.clock(called.ticks)
  {
  }

  lemma BegunAt(w: World, k: nat)
    requires 1 <= k <= |w.timers|
    ensures At(Begun(w, k), k).id == At(w, k).id && At(Begun(w, k), k).interval == At(w, k).interval
    ensures !At(w, k).repeating ==> !At(Begun(w, k), k).active
  {
  }

  /** The only timer with its number. */
  lemma OneOfItsNumber(w: World, k: nat, t: Timer)
    requires Inv(w) && 1 <= k <= |w.timers| && t in w.timers && t.id == At(w, k).id
    ensures t == At(w, k) && t.id < w.nextId
  {
  }

  /** A timer that the call has stopped, or that is set again after it, waits its interval. */
  lemma CalledWaits(called: World, o: Outside, k: nat, now: real, r: World)
    requires Steady(o) && Inv(called) && 1 <= k <= |called.timers| && now <= o.clock(called.ticks)
    requires var t := At(called, k);
      r == if t.active
        then Put(called, k, t.(due := o.clock(called.ticks) + t.interval)).(ticks := called.ticks + 1)
        else called
    ensures var t := At(called, k); Waits(r, o, t.id, t.interval, now + t.interval)
  {
    var t := At(called, k);
    assert o.clock(called.ticks) <= o.clock(called.ticks + 1);
    RescheduleInv(called, k, o.clock(called.ticks) + t.interval, called.ticks + 1);
    PutAt(called, k, t.(due := o.clock(called.ticks) + t.interval), called.ticks + 1);
    hide Inv, Steady, Put, At;
    OnlyWaits(r, o, k, now + t.interval);
  }

  lemma PutAt(w: World, k: nat, t: Timer, ticks: nat)
    requires 1 <= k <= |w.timers|
    ensures var r := Put(w, k, t).(ticks := ticks);
      |r.timers| == |w.timers| && At(r, k) == t && r.ticks == ticks
  {
  }

  /** One timer decides for its number. */
  lemma OnlyWaits(r: World, o: Outside, k: nat, from: real)
    requires Inv(r) && 1 <= k <= |r.timers| && from <= o.clock(r.ticks) + At(r, k).interval
    requires At(r, k).active ==> At(r, k).due >= from
    ensures Waits(r, o, At(r, k).id, At(r, k).interval, from)
  {
    hide Inv;
    forall x | x in r.timers && x.id == At(r, k).id ensures x == At(r, k) {
      OneOfItsNumber(r, k, x);
    }
    OneOfItsNumber(r, k, At(r, k));
  }

  lemma {:induction false} ReachedSound(w: World, o: Outside, now: real, k: nat, j: nat)
    requires Steady(o) && Inv(w) && j <= k <= |w.timers|
    ensures Sound(w, Reached(w, o, now, k, j), o)
    decreases k
  {
    hide Inv, Sound, Steady, Turn;
    if k == j {
      SoundStill(w, o);
    } else {
      var m := Turn(w, o, now, k);
      TurnInv(w, o, now, k);
      TurnSound(w, o, now, k);
      ReachedSound(m, o, now, k - 1, j);
      SoundThen(w, m, Reached(m, o, now, k - 1, j), o);
    }
  }

  /** When the walk comes to a timer that the pass fires, it is active and due. */
  lemma ReachedDue(w: World, o: Outside, now: real, j: nat)
    requires Inv(w) && 1 <= j <= |w.timers|
    requires Extends(Pass(w, o, now, |w.timers|).log, w.log)
    requires Times(New(Pass(w, o, now, |w.timers|).log, w.log), At(w, j).id) > 0
    ensures var r := Reached(w, o, now, |w.timers|, j);
      && |r.timers| >= |w.timers| && Inv(r) && Due(At(r, j), now)
      && At(r, j).id == At(w, j).id && At(r, j).interval == At(w, j).interval
      && Pass(w, o, now, |w.timers|) == Pass(r, o, now, j)
  {
    hide Inv, Pass, Extends, Times, New, Turn;
    PassExact(w, o, now, j);
    ReachedSince(w, o, now, |w.timers|, j);
    PassFromReached(w, o, now, |w.timers|, j);
  }

  /** After a pass that has fired a timer it waits its interval from the pass's reading. */
  lemma PassWaits(w: World, o: Outside, now: real, j: nat)
    requires Steady(o) && Inv(w) && 1 <= j <= |w.timers| && now <= o.clock(w.ticks)
    requires Extends(Pass(w, o, now, |w.timers|).log, w.log)
    requires Times(New(Pass(w, o, now, |w.timers|).log, w.log), At(w, j).id) > 0
    ensures var d := At(w, j).interval; Waits(Pass(w, o, now, |w.timers|), o, At(w, j).id, d, now + d)
    ensures Inv(Pass(w, o, now, |w.timers|))
  {
    hide Inv, Pass, Extends, Times, New, Steady, Sound, Waits, Turn;
    PassInv(w, o, now, |w.timers|);
    ReachedDue(w, o, now, j);
    var r := Reached(w, o, now, |w.timers|, j);
    ReachedSound(w, o, now, |w.timers|, j);
    ReadLater(w, r, o);
    FiredWaits(r, o, j, now);
    PassTurned(r, o, now, j);
    TurnInv(r, o, now, j);
    var m := Turn(r, o, now, j);
    var d := At(w, j).interval;
    PassSound(m, o, now, j - 1);
    StillWaits(m, Pass(w, o, now, |w.timers|), o, At(w, j).id, d, now + d);
  }

  /** After a poll likewise. */
  lemma PolledWaits(w: World, o: Outside, id: int) returns (d: real)
    requires Steady(o) && Inv(w) && Extends(Poll(w, o).log, w.log) && Fired(id) in Polled(w, o)
    ensures Waits(Poll(w, o), o, id, d, o.clock(w.ticks) + d)
    ensures exists t :: t in w.timers && t.id == id && t.interval == d
  {
    var j := FiredWasDue(w, o, id);
    var ticked := w.(ticks := w.ticks + 1);
    var now := o.clock(w.ticks);
    TickInv(w);
    AsInPass(w, o, id, j);
    assert At(w, j) in w.timers && now <= o.clock(ticked.ticks);
    d := At(w, j).interval;
    hide Inv, Pass, Extends, Times, New, Steady, Sound, Waits, Poll, Polled, At;
    PassWaits(ticked, o, now, j);
    var passed := Pass(ticked, o, now, |w.timers|);
    DropSound(passed, o);
    StillWaits(passed, Poll(w, o), o, id, d, now + d);
  }

  lemma TickInv(w: World)
    requires Inv(w)
    ensures Inv(w.(ticks := w.ticks + 1))
  {
  }

  /** What a poll logs is what its pass logs. */
  lemma AsInPass(w: World, o: Outside, id: int, j: nat)
    requires Extends(Poll(w, o).log, w.log) && Fired(id) in Polled(w, o)
    requires Pending(w.timers) && 1 <= j <= |w.timers| && At(w, j).id == id
    ensures var ticked := w.(ticks := w.ticks + 1);
      var passed := Pass(ticked, o, o.clock(w.ticks), |w.timers|);
      && At(ticked, j) == At(w, j)
      && Extends(passed.log, ticked.log) && Times(New(passed.log, ticked.log), At(ticked, j).id) > 0
      && Poll(w, o) == passed.(timers := ActiveOnes(passed.timers))
  {
    FiredTimes(Polled(w, o), id);
    PollIs(w, o);
    hide Pass, Times, Poll, ActiveOnes;
  }

  lemma FiredTimes(log: seq<Event>, id: int)
    requires Fired(id) in log
    ensures Times(log, id) > 0
  {
  }

  lemma PollIs(w: World, o: Outside)
    requires Pending(w.timers)
    ensures var passed := Pass(w.(ticks := w.ticks + 1), o, o.clock(w.ticks), |w.timers|);
      Poll(w, o) == passed.(timers := ActiveOnes(passed.timers)) && Poll(w, o).log == passed.log
  {
  }

  lemma ReadLater(w: World, r: World, o: Outside)
    requires Steady(o) && Sound(w, r, o)
    ensures o.clock(w.ticks) <= o.clock(r.ticks)
  {
  }

  lemma PassTurned(r: World, o: Outside, now: real, j: nat)
    requires 1 <= j <= |r.timers| && Due(At(r, j), now)
    ensures Turn(r, o, now, j) == Fire(r, o, j)
    ensures Pass(r, o, now, j) == Pass(Turn(r, o, now, j), o, now, j - 1)
  {
  }

  lemma StillWaits(w: World, r: World, o: Outside, id: int, d: real, from: real)
    requires Sound(w, r, o) && Waits(w, o, id, d, from)
    ensures Waits(r, o, id, d, from)
  {
  }

  /** In every run: two polls that fire the same timer are its delay apart, to half a
      millisecond. */
  lemma FiringsApart(o: Outside, commands: seq<Command>, q: nat, p: nat, e: Event)
    requires Steady(o) && q < p < |commands| && commands[q] == PollNow && commands[p] == PollNow
    requires var w := Run(o, commands[..q]);
      e in w.log && e.Added? && Extends(Poll(w, o).log, w.log) && Fired(e.id) in Polled(w, o)
    requires var w := Run(o, commands[..p]);
      Extends(Poll(w, o).log, w.log) && Fired(e.id) in Polled(w, o)
    ensures var first, second := o.clock(Run(o, commands[..q]).ticks), o.clock(Run(o, commands[..p]).ticks);
      second - first >= (if e.delay >= 0.0 then e.delay else 0.0) - 0.5
  {
    var w, r := Run(o, commands[..q]), Run(o, commands[..p]);
    RunInv(o, commands[..q]);
    RunInv(o, commands[..p]);
    FromStart(o, commands[..q], e);
    var d := PolledWaits(w, o, e.id);
    assert commands[..q + 1][..q] == commands[..q];
    assert Run(o, commands[..q + 1]) == Poll(w, o);
    RunSound(o, commands[..p], q + 1, p);
    assert commands[..p][..q + 1] == commands[..q + 1] && commands[..p][..p] == commands[..p];
    var j := FiredWasDue(r, o, e.id);
    assert At(r, j) in r.timers;
    hide Run, Poll, Steady, Inv;
  }
}
