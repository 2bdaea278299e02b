/** Timers as a list that callbacks may change while a poll walks it. */
module TimerModel {

  datatype Timer = Timer(id: int, active: bool, repeating: bool, due: real, interval: real, callback: int)

  /** What a callback may do: set a timer, or clear one by number. */
  datatype Action = Add(delay: real, repeating: bool, callback: int) | Clear(id: int)

  /** An addition is logged with the delay asked for and the reading of the clock it made. */
  datatype Event = Added(id: int, repeating: bool, delay: real, at: real) | Cleared(id: int) | Fired(id: int)

  /** The clock's readings, and what each call does: the callback, and how much has happened
      before it, decide. */
  datatype Outside = Outside(clock: nat -> real, script: (int, nat) -> seq<Action>)

  datatype World = World(timers: seq<Timer>, nextId: int, ticks: nat, log: seq<Event>)

  // ---------- the operations ----------

  function NonNegative(delay: real): real { if delay < 0.0 then 0.0 else delay }

  function AddTimer(w: World, o: Outside, delay: real, repeating: bool, callback: int): World {
    var d := NonNegative(delay);
    World([Timer(w.nextId, true, repeating, o.clock(w.ticks) + d, d, callback)] + w.timers,
          w.nextId + 1, w.ticks + 1, w.log + [Added(w.nextId, repeating, delay, o.clock(w.ticks))])
  }

  /** The first timer with that number stops being active. */
  function Deactivate(timers: seq<Timer>, id: int): (r: seq<Timer>)
    ensures |r| == |timers|
  {
    if timers == [] then []
    else if timers[0].id == id then [timers[0].(active := false)] + timers[1..]
    else [timers[0]] + Deactivate(timers[1..], id)
  }

  function ClearTimer(w: World, id: int): World {
    w.(timers := Deactivate(w.timers, id), log := w.log + [Cleared(id)])
  }

  function Act(w: World, o: Outside, a: Action): World {
    match a
    case Add(delay, repeating, callback) => AddTimer(w, o, delay, repeating, callback)
    case Clear(id) => ClearTimer(w, id)
  }

  function ActAll(w: World, o: Outside, actions: seq<Action>): World
    decreases |actions|
  {
    if actions == [] then w else Act(ActAll(w, o, actions[..|actions| - 1]), o, actions[|actions| - 1])
  }

  /** Timers are added in front, so a timer keeps its place counted from the end. */
  function At(w: World, k: nat): Timer
    requires 1 <= k <= |w.timers|
  {
    w.timers[|w.timers| - k]
  }

  function Put(w: World, k: nat, t: Timer): World
    requires 1 <= k <= |w.timers|
  {
    w.(timers := w.timers[|w.timers| - k := t])
  }

  lemma {:induction false} ActAllGrows(w: World, o: Outside, actions: seq<Action>)
    ensures |ActAll(w, o, actions).timers| >= |w.timers|
  {
    if actions != [] { ActAllGrows(w, o, actions[..|actions| - 1]); }
  }

  lemma {:induction false} ActAllLog(w: World, o: Outside, actions: seq<Action>)
    ensures |ActAll(w, o, actions).log| >= |w.log|
    decreases |actions|
  {
    if actions != [] { ActAllLog(w, o, actions[..|actions| - 1]); }
  }

  /** The call of the timer in place k. */
  function Call(w: World, o: Outside, k: nat): (r: World)
    requires 1 <= k <= |w.timers|
    ensures |r.timers| >= |w.timers|
  {
    var t := At(w, k);
    var actions := o.script(t.callback, |w.log|);
    ActAllGrows(w.(log := w.log + [Fired(t.id)]), o, actions);
    ActAll(w.(log := w.log + [Fired(t.id)]), o, actions)
  }

  function Fire(w: World, o: Outside, k: nat): (r: World)
    requires 1 <= k <= |w.timers|
    ensures |r.timers| >= |w.timers|
  {
    var t := At(w, k);
    if t.repeating then
      var called := Call(w, o, k);
      var after := At(called, k);
      if after.active
      then Put(called, k, after.(due := o.clock(called.ticks) + after.interval)).(ticks := called.ticks + 1)
      else called
    else Call(Put(w, k, t.(active := false)), o, k)
  }

  predicate Due(t: Timer, now: real) { t.active && t.due <= now + 0.5 }

  function Turn(w: World, o: Outside, now: real, k: nat): (r: World)
    requires 1 <= k <= |w.timers|
    ensures |r.timers| >= |w.timers|
  {
    if Due(At(w, k), now) then Fire(w, o, k) else w
  }

  /** The walk over the last k timers. */
  function Pass(w: World, o: Outside, now: real, k: nat): World
    requires k <= |w.timers|
    decreases k
  {
    if k == 0 then w else Pass(Turn(w, o, now, k), o, now, k - 1)
  }

  function ActiveOnes(timers: seq<Timer>): seq<Timer> {
    if timers == [] then [] else (if timers[0].active then [timers[0]] else []) + ActiveOnes(timers[1..])
  }

  predicate Pending(timers: seq<Timer>) { exists i :: 0 <= i < |timers| && timers[i].active }

  /** One poll, without its sleep. */
  function Poll(w: World, o: Outside): World {
    if !Pending(w.timers) then w
    else
      var after := Pass(w.(ticks := w.ticks + 1), o, o.clock(w.ticks), |w.timers|);
      after.(timers := ActiveOnes(after.timers))
  }

  // ---------- the life of one timer, read off the log ----------

  datatype Life = Unborn | Live(repeating: bool) | Over | Broken

  function Next(l: Life, e: Event): Life {
    match e
    case Added(_, repeating, _, _) => if l.Unborn? then Live(repeating) else Broken
    case Cleared(_) => if l.Live? then Over else l
    case Fired(_) => if l == Live(true) then l else if l == Live(false) then Over else Broken
  }

  function LifeOf(log: seq<Event>, id: int): Life {
    if log == [] then Unborn
    else
      var before := LifeOf(log[..|log| - 1], id);
      var e := log[|log| - 1];
      if e.id == id then Next(before, e) else before
  }

  lemma LifeStep(log: seq<Event>, e: Event, id: int)
    ensures LifeOf(log + [e], id) == if e.id == id then Next(LifeOf(log, id), e) else LifeOf(log, id)
  {
    assert (log + [e])[..|log|] == log;
  }

  ghost predicate Descending(timers: seq<Timer>) {
    forall i, j :: 0 <= i < j < |timers| ==> timers[i].id > timers[j].id
  }

  ghost predicate Holds(timers: seq<Timer>, id: int, repeating: bool) {
    exists i :: 0 <= i < |timers| && timers[i].id == id && timers[i].active && timers[i].repeating == repeating
  }

  /** The list holds an active timer exactly while the log says it is live, and the log never
      goes wrong. */
  ghost predicate Inv(w: World) {
    && Descending(w.timers)
    && (forall i :: 0 <= i < |w.timers| ==> w.timers[i].id < w.nextId)
    && (forall id :: id >= w.nextId ==> LifeOf(w.log, id) == Unborn)
    && (forall id :: LifeOf(w.log, id) != Broken)
    && (forall id, repeating :: Holds(w.timers, id, repeating) <==> LifeOf(w.log, id) == Live(repeating))
  }

  lemma StartInv()
    ensures Inv(World([], 1, 0, []))
  {
  }

  lemma AddInv(w: World, o: Outside, delay: real, repeating: bool, callback: int)
    requires Inv(w)
    ensures Inv(AddTimer(w, o, delay, repeating, callback))
  {
    var r := AddTimer(w, o, delay, repeating, callback);
    forall id ensures LifeOf(r.log, id) == if id == w.nextId then Live(repeating) else LifeOf(w.log, id) {
      LifeStep(w.log, Added(w.nextId, repeating, delay, o.clock(w.ticks)), id);
    }
    forall id, rep
      ensures Holds(r.timers, id, rep) <==> Holds(w.timers, id, rep) || (id == w.nextId && rep == repeating)
    {
      if Holds(w.timers, id, rep) {
        var i :| 0 <= i < |w.timers| && w.timers[i].id == id && w.timers[i].active && w.timers[i].repeating == rep;
        assert r.timers[i + 1] == w.timers[i];
      }
      if id == w.nextId && rep == repeating {
        assert r.timers[0].id == id;
      }
    }
  }

  lemma {:induction false} DeactivateAt(timers: seq<Timer>, id: int, i: nat)
    requires Descending(timers) && i < |timers|
    ensures Deactivate(timers, id)[i] == if timers[i].id == id then timers[i].(active := false) else timers[i]
  {
    if timers[0].id != id && i > 0 { DeactivateAt(timers[1..], id, i - 1); }
  }

  lemma ClearInv(w: World, id: int)
    requires Inv(w)
    ensures Inv(ClearTimer(w, id))
  {
    var r := ClearTimer(w, id);
    forall i | 0 <= i < |w.timers|
      ensures r.timers[i] == if w.timers[i].id == id then w.timers[i].(active := false) else w.timers[i]
    {
      DeactivateAt(w.timers, id, i);
    }
    forall other
      ensures LifeOf(r.log, other) == if other == id then Next(LifeOf(w.log, id), Cleared(id)) else LifeOf(w.log, other)
    {
      LifeStep(w.log, Cleared(id), other);
    }
    forall other, rep ensures Holds(r.timers, other, rep) <==> other != id && Holds(w.timers, other, rep) {
    }
  }

  lemma {:induction false} ActAllInv(w: World, o: Outside, actions: seq<Action>)
    requires Inv(w)
    ensures Inv(ActAll(w, o, actions))
  {
    hide Inv;
    if actions != [] {
      var before := ActAll(w, o, actions[..|actions| - 1]);
      ActAllInv(w, o, actions[..|actions| - 1]);
      match actions[|actions| - 1] {
        case Add(delay, repeating, callback) => AddInv(before, o, delay, repeating, callback);
        case Clear(id) => ClearInv(before, id);
      }
    }
  }

  /** The start of a call: the timer fires, and a one-shot is over. */
  lemma FiringInv(w: World, k: nat)
    requires Inv(w) && 1 <= k <= |w.timers| && At(w, k).active
    ensures var t := At(w, k);
      Inv(Put(w, k, if t.repeating then t else t.(active := false)).(log := w.log + [Fired(t.id)]))
  {
    var t, at := At(w, k), |w.timers| - k;
    var r := Put(w, k, if t.repeating then t else t.(active := false)).(log := w.log + [Fired(t.id)]);
    assert Holds(w.timers, t.id, t.repeating) by { assert w.timers[at].active; }
    forall id ensures LifeOf(r.log, id) == if id == t.id && !t.repeating then Over else LifeOf(w.log, id) {
      LifeStep(w.log, Fired(t.id), id);
    }
    forall id, rep ensures Holds(r.timers, id, rep) <==> Holds(w.timers, id, rep) && (id == t.id ==> t.repeating) {
      if Holds(w.timers, id, rep) && (id == t.id ==> t.repeating) {
        var i :| 0 <= i < |w.timers| && w.timers[i].id == id && w.timers[i].active && w.timers[i].repeating == rep;
        assert r.timers[i] == w.timers[i];
      }
    }
  }

  lemma RescheduleInv(w: World, k: nat, due: real, ticks: nat)
    requires Inv(w) && 1 <= k <= |w.timers|
    ensures Inv(Put(w, k, At(w, k).(due := due)).(ticks := ticks))
  {
    var r := Put(w, k, At(w, k).(due := due));
    forall id, rep ensures Holds(r.timers, id, rep) <==> Holds(w.timers, id, rep) {
      if Holds(w.timers, id, rep) {
        var i :| 0 <= i < |w.timers| && w.timers[i].id == id && w.timers[i].active && w.timers[i].repeating == rep;
        assert r.timers[i].id == id && r.timers[i].active;
      }
    }
  }

  lemma TurnInv(w: World, o: Outside, now: real, k: nat)
    requires Inv(w) && 1 <= k <= |w.timers|
    ensures Inv(Turn(w, o, now, k))
  {
    hide Inv;
    if Due(At(w, k), now) {
      var t := At(w, k);
      FiringInv(w, k);
      var begun := if t.repeating then w else Put(w, k, t.(active := false));
      assert Put(w, k, t) == w;
      ActAllInv(begun.(log := w.log + [Fired(t.id)]), o, o.script(t.callback, |w.log|));
      var called := Call(begun, o, k);
      RescheduleInv(called, k, o.clock(called.ticks) + At(called, k).interval, called.ticks + 1);
    }
  }

  lemma {:induction false} PassInv(w: World, o: Outside, now: real, k: nat)
    requires Inv(w) && k <= |w.timers|
    ensures Inv(Pass(w, o, now, k))
    decreases k
  {
    if k > 0 {
      hide Inv, Turn;
      TurnInv(w, o, now, k);
      PassInv(Turn(w, o, now, k), o, now, k - 1);
    }
  }

  lemma {:induction false} ActiveMembers(timers: seq<Timer>)
    requires Descending(timers)
    ensures Descending(ActiveOnes(timers))
    ensures forall t :: t in ActiveOnes(timers) <==> t in timers && t.active
  {
    if timers != [] {
      var rest := timers[1..];
      ActiveMembers(rest);
      assert timers == [timers[0]] + rest;
      forall t | t in ActiveOnes(rest) ensures t.id < timers[0].id {
        assert t in rest;
      }
    }
  }

  lemma CollectInv(w: World)
    requires Inv(w)
    ensures Inv(w.(timers := ActiveOnes(w.timers)))
  {
    ActiveMembers(w.timers);
    var r := ActiveOnes(w.timers);
    forall i | 0 <= i < |r| ensures r[i].id < w.nextId {
      assert r[i] in w.timers;
    }
    forall id, rep ensures Holds(r, id, rep) <==> Holds(w.timers, id, rep) {
      ActiveHolds(w.timers, id, rep);
    }
    hide Holds, ActiveOnes;
  }

  lemma ActiveHolds(timers: seq<Timer>, id: int, rep: bool)
    requires Descending(timers)
    ensures Holds(ActiveOnes(timers), id, rep) <==> Holds(timers, id, rep)
  {
    ActiveMembers(timers);
    var r := ActiveOnes(timers);
    hide ActiveOnes;
    if Holds(r, id, rep) {
      var i :| 0 <= i < |r| && r[i].id == id && r[i].active && r[i].repeating == rep;
      assert r[i] in timers;
    }
    if Holds(timers, id, rep) {
      var i :| 0 <= i < |timers| && timers[i].id == id && timers[i].active && timers[i].repeating == rep;
      assert timers[i] in r;
    }
  }

  lemma PollInv(w: World, o: Outside)
    requires Inv(w)
    ensures Inv(Poll(w, o))
  {
    if Pending(w.timers) {
      assert Inv(w.(ticks := w.ticks + 1));
      hide Inv;
      PassInv(w.(ticks := w.ticks + 1), o, o.clock(w.ticks), |w.timers|);
      CollectInv(Pass(w.(ticks := w.ticks + 1), o, o.clock(w.ticks), |w.timers|));
    }
  }

  // ---------- whole runs ----------

  datatype Command = Do(action: Action) | PollNow

  ghost function Run(o: Outside, commands: seq<Command>): World {
    if commands == [] then World([], 1, 0, [])
    else
      var w := Run(o, commands[..|commands| - 1]);
      match commands[|commands| - 1]
      case Do(a) => Act(w, o, a)
      case PollNow => Poll(w, o)
  }

  lemma {:induction false} RunInv(o: Outside, commands: seq<Command>)
    ensures Inv(Run(o, commands))
  {
    if commands == [] {
      StartInv();
    } else {
      hide Inv;
      RunInv(o, commands[..|commands| - 1]);
      var w := Run(o, commands[..|commands| - 1]);
      match commands[|commands| - 1] {
        case Do(Add(delay, repeating, callback)) => AddInv(w, o, delay, repeating, callback);
        case Do(Clear(id)) => ClearInv(w, id);
        case PollNow => PollInv(w, o);
      }
    }
  }

  /** Stages of a life that are never left again. */
  predicate Stage(l: Life, s: nat) {
    match s
    case 0 => !l.Unborn?
    case 1 => !l.Unborn? && l != Live(true)
    case 2 => l.Over? || l.Broken?
    case _ => l.Broken?
  }

  lemma {:induction false} StageKept(log: seq<Event>, i: nat, id: int, s: nat)
    requires i <= |log| && Stage(LifeOf(log[..i], id), s)
    ensures Stage(LifeOf(log, id), s)
  {
    if i == |log| {
      assert log[..i] == log;
    } else {
      assert log[..|log| - 1][..i] == log[..i];
      StageKept(log[..|log| - 1], i, id, s);
    }
  }

  /** The life just after event i, from a stage reached by event h. */
  lemma StageAt(log: seq<Event>, h: nat, i: nat, id: int, s: nat)
    requires h < i < |log| && Stage(LifeOf(log[..h + 1], id), s) && log[i].id == id
    ensures Stage(LifeOf(log[..i], id), s)
    ensures LifeOf(log[..i + 1], id) == Next(LifeOf(log[..i], id), log[i])
  {
    assert log[..i][..h + 1] == log[..h + 1];
    StageKept(log[..i], h + 1, id, s);
    assert log[..i + 1] == log[..i] + [log[i]];
    LifeStep(log[..i], log[i], id);
  }

  lemma BirthStage(log: seq<Event>, a: nat, id: int, repeating: bool)
    requires a < |log| && log[a].Added? && log[a].id == id && log[a].repeating == repeating
    ensures Stage(LifeOf(log[..a + 1], id), 0)
    ensures !repeating ==> Stage(LifeOf(log[..a + 1], id), 1)
  {
    assert log[..a + 1] == log[..a] + [log[a]];
    LifeStep(log[..a], log[a], id);
  }

  /** In every run: once a timer has been cleared it never fires again. */
  lemma ClearedNeverFires(o: Outside, commands: seq<Command>, a: nat, c: nat, f: nat, id: int)
    requires var log := Run(o, commands).log;
      a < c < f < |log| && log[a].Added? && log[a].id == id && log[c] == Cleared(id)
    ensures Run(o, commands).log[f] != Fired(id)
  {
    var log := Run(o, commands).log;
    RunInv(o, commands);
    if log[f] == Fired(id) {
      BirthStage(log, a, id, log[a].repeating);
      StageAt(log, a, c, id, 0);
      StageAt(log, c, f, id, 2);
      StageKept(log, f + 1, id, 3);
      assert false;
    }
  }

  /** In every run: a one-shot timer fires at most once. */
  lemma OneShotFiresOnce(o: Outside, commands: seq<Command>, a: nat, f: nat, g: nat, id: int)
    requires var log := Run(o, commands).log;
      a < f < g < |log| && log[a].Added? && log[a].id == id && !log[a].repeating && log[f] == Fired(id)
    ensures Run(o, commands).log[g] != Fired(id)
  {
    var log := Run(o, commands).log;
    RunInv(o, commands);
    if log[g] == Fired(id) {
      BirthStage(log, a, id, false);
      StageAt(log, a, f, id, 1);
      StageAt(log, f, g, id, 2);
      StageKept(log, g + 1, id, 3);
      assert false;
    }
  }

  // ---------- one pass, exactly ----------

  ghost predicate Extends(later: seq<Event>, log: seq<Event>) {
    |log| <= |later| && later[..|log|] == log
  }

  ghost function New(later: seq<Event>, log: seq<Event>): seq<Event>
    requires |log| <= |later|
  {
    later[|log|..]
  }

  ghost function Times(log: seq<Event>, id: int): nat { multiset(log)[Fired(id)] }

  /** t as it is after these events: cleared or not. */
  ghost function Since(t: Timer, events: seq<Event>): Timer {
    t.(active := t.active && Cleared(t.id) !in events)
  }

  lemma NewAppends(a: seq<Event>, b: seq<Event>, c: seq<Event>)
    requires Extends(b, a) && Extends(c, b)
    ensures Extends(c, a) && New(c, a) == New(b, a) + New(c, b)
  {
  }

  lemma TimesAppend(a: seq<Event>, b: seq<Event>, c: seq<Event>, id: int)
    requires Extends(b, a) && Extends(c, b)
    ensures Extends(c, a) && |a| <= |b| <= |c| && Times(New(c, a), id) == Times(New(b, a), id) + Times(New(c, b), id)
  {
    NewAppends(a, b, c);
  }

  lemma SinceAppend(t: Timer, a: seq<Event>, b: seq<Event>, c: seq<Event>)
    requires Extends(b, a) && Extends(c, b)
    ensures |a| <= |b| <= |c| && Since(Since(t, New(b, a)), New(c, b)) == Since(t, New(c, a))
  {
    NewAppends(a, b, c);
  }

  lemma NothingNew(a: seq<Event>)
    ensures Extends(a, a) && New(a, a) == []
  {
  }

  /** r comes from w by actions alone: timers of w keep their places and change only by being
      cleared, and nothing fires. */
  ghost predicate Follows(w: World, r: World) {
    && Extends(r.log, w.log) && |r.timers| >= |w.timers|
    && (forall id :: Fired(id) !in New(r.log, w.log))
    && (forall k :: 1 <= k <= |w.timers| ==> At(r, k) == Since(At(w, k), New(r.log, w.log)))
  }

  lemma ActFollows(w: World, m: World, o: Outside, a: Action)
    requires Inv(m) && Follows(w, m)
    ensures Follows(w, Act(m, o, a))
  {
    var r := Act(m, o, a);
    var e := if a.Clear? then Cleared(a.id) else Added(m.nextId, a.repeating, a.delay, o.clock(m.ticks));
    assert r.log == m.log + [e];
    assert New(r.log, w.log) == New(m.log, w.log) + [e];
    forall k | 1 <= k <= |w.timers| ensures At(r, k) == Since(At(w, k), New(r.log, w.log)) {
      ActAt(m, o, a, e, k);
    }
  }

  lemma ActAt(m: World, o: Outside, a: Action, e: Event, k: nat)
    requires Inv(m) && 1 <= k <= |m.timers|
    requires e == if a.Clear? then Cleared(a.id) else Added(m.nextId, a.repeating, a.delay, o.clock(m.ticks))
    ensures |Act(m, o, a).timers| >= |m.timers| && At(Act(m, o, a), k) == Since(At(m, k), [e])
  {
    if a.Clear? { DeactivateAt(m.timers, a.id, |m.timers| - k); }
  }

  lemma {:induction false} ActAllFollows(w: World, o: Outside, actions: seq<Action>)
    requires Inv(w)
    ensures Follows(w, ActAll(w, o, actions))
  {
    if actions == [] {
      assert New(w.log, w.log) == [];
    } else {
      hide Inv, Follows;
      var some := actions[..|actions| - 1];
      ActAllInv(w, o, some);
      ActAllFollows(w, o, some);
      ActFollows(w, ActAll(w, o, some), o, actions[|actions| - 1]);
    }
  }

  /** What a turn does to the other timers and to the log. */
  ghost predicate Turned(w: World, r: World, k: nat, due: bool)
    requires 1 <= k <= |w.timers|
  {
    && Extends(r.log, w.log) && |r.timers| >= |w.timers|
    && (forall id :: Times(New(r.log, w.log), id) == if due && id == At(w, k).id then 1 else 0)
    && (forall j :: 1 <= j <= |w.timers| && j != k ==> At(r, j) == Since(At(w, j), New(r.log, w.log)))
  }

  lemma TurnedAt(w: World, r: World, k: nat, due: bool, j: nat)
    requires 1 <= k <= |w.timers| && Turned(w, r, k, due) && 1 <= j <= |w.timers| && j != k
    ensures Extends(r.log, w.log) && |r.timers| >= |w.timers| && |w.log| <= |r.log|
    ensures At(r, j) == Since(At(w, j), New(r.log, w.log))
  {
  }

  lemma TurnedTimes(w: World, r: World, k: nat, due: bool, id: int)
    requires 1 <= k <= |w.timers| && Turned(w, r, k, due)
    ensures Extends(r.log, w.log) && |r.timers| >= |w.timers| && |w.log| <= |r.log|
    ensures Times(New(r.log, w.log), id) == if due && id == At(w, k).id then 1 else 0
  {
  }

  lemma TurnTurned(w: World, o: Outside, now: real, k: nat)
    requires Inv(w) && 1 <= k <= |w.timers|
    ensures Turned(w, Turn(w, o, now, k), k, Due(At(w, k), now))
  {
    if !Due(At(w, k), now) {
      NothingNew(w.log);
    } else {
      FireTurned(w, o, k);
    }
  }

  lemma FireTurned(w: World, o: Outside, k: nat)
    requires Inv(w) && 1 <= k <= |w.timers| && At(w, k).active
    ensures Turned(w, Fire(w, o, k), k, true)
  {
    hide Inv, Follows, Turned, Fire, ActAll, Act;
    var begun := Begun(w, k);
    FiringInv(w, k);
    BegunElsewhere(w, k);
    FireIs(w, o, k);
    hide Begun;
    var actions := o.script(At(w, k).callback, |w.log|);
    var called := ActAll(begun, o, actions);
    ActAllFollows(begun, o, actions);
    CallTurned(w, begun, called, k);
    OneMorePut(w, called, k, Fire(w, o, k));
  }

  lemma BegunElsewhere(w: World, k: nat)
    requires 1 <= k <= |w.timers|
    ensures Begun(w, k).log == w.log + [Fired(At(w, k).id)]
    ensures forall j :: 1 <= j <= |w.timers| && j != k ==> At(Begun(w, k), j) == At(w, j)
  {
  }

  /** The world in which the callback of the timer in place k starts. */
  ghost function Begun(w: World, k: nat): (r: World)
    requires 1 <= k <= |w.timers|
    ensures |r.timers| == |w.timers|
  {
    var t := At(w, k);
    Put(w, k, if t.repeating then t else t.(active := false)).(log := w.log + [Fired(t.id)])
  }

  lemma FireIs(w: World, o: Outside, k: nat)
    requires 1 <= k <= |w.timers|
    ensures var t := At(w, k);
      var called := ActAll(Begun(w, k), o, o.script(t.callback, |w.log|));
      && |called.timers| >= |w.timers|
      && Fire(w, o, k) == if t.repeating && At(called, k).active
           then Put(called, k, At(called, k).(due := o.clock(called.ticks) + At(called, k).interval))
                .(ticks := called.ticks + 1)
           else called
  {
    ActAllGrows(Begun(w, k), o, o.script(At(w, k).callback, |w.log|));
    assert Put(w, k, At(w, k)) == w;
    hide ActAll;
  }

  lemma OneMorePut(w: World, called: World, k: nat, r: World)
    requires 1 <= k <= |w.timers| <= |called.timers| && Turned(w, called, k, true)
    requires r.log == called.log && |r.timers| == |called.timers|
    requires forall j :: 1 <= j <= |called.timers| && j != k ==> At(r, j) == At(called, j)
    ensures Turned(w, r, k, true)
  {
  }

  lemma CallTurned(w: World, begun: World, called: World, k: nat)
    requires 1 <= k <= |w.timers| && |begun.timers| == |w.timers|
    requires begun.log == w.log + [Fired(At(w, k).id)]
    requires forall j :: 1 <= j <= |w.timers| && j != k ==> At(begun, j) == At(w, j)
    requires Follows(begun, called)
    ensures Turned(w, called, k, true)
  {
    var id := At(w, k).id;
    var later := New(called.log, begun.log);
    NewAppends(w.log, begun.log, called.log);
    assert New(called.log, w.log) == [Fired(id)] + later;
    forall other ensures Times(New(called.log, w.log), other) == if other == id then 1 else 0 {
      assert Fired(other) !in later;
      assert multiset(New(called.log, w.log)) == multiset([Fired(id)]) + multiset(later);
    }
    forall j | 1 <= j <= |w.timers| && j != k ensures At(called, j) == Since(At(w, j), New(called.log, w.log)) {
      assert At(called, j) == Since(At(begun, j), later);
    }
  }

  /** The world when the walk over the last k timers reaches place j. */
  ghost function Reached(w: World, o: Outside, now: real, k: nat, j: nat): World
    requires j <= k <= |w.timers|
    decreases k
  {
    if k == j then w else Reached(Turn(w, o, now, k), o, now, k - 1, j)
  }

  lemma {:induction false} PassFromReached(w: World, o: Outside, now: real, k: nat, j: nat)
    requires j <= k <= |w.timers|
    ensures var r := Reached(w, o, now, k, j); |r.timers| >= |w.timers| && Pass(w, o, now, k) == Pass(r, o, now, j)
    decreases k
  {
    if k > j { PassFromReached(Turn(w, o, now, k), o, now, k - 1, j); }
  }

  /** Until the walk reaches it, a timer changes only by being cleared, and does not fire. */
  lemma {:induction false} ReachedSince(w: World, o: Outside, now: real, k: nat, j: nat)
    requires Inv(w) && 1 <= j <= k <= |w.timers|
    ensures var r := Reached(w, o, now, k, j);
      && Inv(r) && |r.timers| >= |w.timers| && Extends(r.log, w.log)
      && Times(New(r.log, w.log), At(w, j).id) == 0
      && At(r, j) == Since(At(w, j), New(r.log, w.log))
    decreases k
  {
    if k == j {
      NothingSince(w, j);
      hide *;
      ReachedHere(w, o, now, j);
    } else {
      DifferentIds(w, j, k);
      hide Inv, Turn, Turned, Times, New, Extends, At, Since, Due;
      var m := Turn(w, o, now, k);
      TurnInv(w, o, now, k);
      TurnTurned(w, o, now, k);
      TurnedAt(w, m, k, Due(At(w, k), now), j);
      TurnedTimes(w, m, k, Due(At(w, k), now), At(w, j).id);
      ReachedSince(m, o, now, k - 1, j);
      var r := Reached(m, o, now, k - 1, j);
      TimesAppend(w.log, m.log, r.log, At(w, j).id);
      SinceAppend(At(w, j), w.log, m.log, r.log);
    }
  }

  lemma NothingSince(w: World, j: nat)
    requires 1 <= j <= |w.timers|
    ensures New(w.log, w.log) == [] && Extends(w.log, w.log)
    ensures Times([], At(w, j).id) == 0 && Since(At(w, j), []) == At(w, j)
  {
  }

  lemma ReachedHere(w: World, o: Outside, now: real, j: nat)
    requires Inv(w) && 1 <= j <= |w.timers|
    ensures Reached(w, o, now, j, j) == w
  {
    hide Inv;
  }

  lemma DifferentIds(w: World, j: nat, k: nat)
    requires Inv(w) && 1 <= j < k <= |w.timers|
    ensures At(w, j).id < At(w, k).id
  {
  }

  /** A number that none of the last k timers has does not fire. */
  lemma {:induction false} OthersSilent(w: World, o: Outside, now: real, k: nat, id: int)
    requires Inv(w) && k <= |w.timers|
    requires forall j :: 1 <= j <= k ==> At(w, j).id != id
    ensures Extends(Pass(w, o, now, k).log, w.log) && Times(New(Pass(w, o, now, k).log, w.log), id) == 0
    decreases k
  {
    if k == 0 {
      assert New(w.log, w.log) == [];
    } else {
      hide Inv, Turn, Turned, Times, New, Extends, At;
      var m := Turn(w, o, now, k);
      TurnInv(w, o, now, k);
      TurnTurned(w, o, now, k);
      TurnedTimes(w, m, k, Due(At(w, k), now), id);
      forall j | 1 <= j <= k - 1 ensures At(m, j).id != id {
        TurnedAt(w, m, k, Due(At(w, k), now), j);
      }
      OthersSilent(m, o, now, k - 1, id);
      TimesAppend(w.log, m.log, Pass(m, o, now, k - 1).log, id);
    }
  }

  /** A pass fires a timer of its start exactly once if it was active and due and no callback
      cleared it before the walk reached it, and not at all otherwise. */
  lemma PassExact(w: World, o: Outside, now: real, j: nat)
    requires Inv(w) && 1 <= j <= |w.timers|
    ensures var t := At(w, j);
      var reached, after := Reached(w, o, now, |w.timers|, j), Pass(w, o, now, |w.timers|);
      && Extends(reached.log, w.log) && Extends(after.log, w.log)
      && Times(New(after.log, w.log), t.id)
         == if Due(t, now) && Cleared(t.id) !in New(reached.log, w.log) then 1 else 0
  {
    hide Inv, Turn, Turned, Times, New, Extends, At;
    var n, id := |w.timers|, At(w, j).id;
    var r := Reached(w, o, now, n, j);
    ReachedSince(w, o, now, n, j);
    PassFromReached(w, o, now, n, j);
    var m := Turn(r, o, now, j);
    TurnInv(r, o, now, j);
    TurnTurned(r, o, now, j);
    TurnedTimes(r, m, j, Due(At(r, j), now), id);
    forall i | 1 <= i <= j - 1 ensures At(m, i).id != id {
      DifferentIds(r, i, j);
      TurnedAt(r, m, j, Due(At(r, j), now), i);
    }
    OthersSilent(m, o, now, j - 1, id);
    TimesAppend(r.log, m.log, Pass(m, o, now, j - 1).log, id);
    TimesAppend(w.log, r.log, Pass(m, o, now, j - 1).log, id);
  }

  /** A timer added during a pass does not fire in it. */
  lemma LaterTimersWait(w: World, o: Outside, now: real, id: int)
    requires Inv(w) && id >= w.nextId
    ensures Extends(Pass(w, o, now, |w.timers|).log, w.log)
    ensures Fired(id) !in New(Pass(w, o, now, |w.timers|).log, w.log)
  {
    OthersSilent(w, o, now, |w.timers|, id);
  }
}
