/**
 * Several clocks that share their handlers, over a whole run (clock.cc): registering,
 * unregistering and firing in the order in which the simulation makes activities happen.
 */
module ClockRun {
  import opened Clock

  /** Clock c called its handlers at this time, as its cycle of this number. */
  datatype Tick = Tick(c: nat, time: nat, cycle: nat)

  /** What an activity of the simulation does to a clock. */
  datatype Event = Registers(c: nat, h: nat) | Unregisters(c: nat, h: nat) | Fires(c: nat, answers: seq<bool>)

  datatype Step = Step(m: Moment, event: Event)

  /**
   * How a run ends. TwoClocks: a handler that is active on one clock was registered with another,
   * a fatal error. OtherClock: a handler was to be unregistered from a clock it is not active on.
   */
  datatype End = Finished | TwoClocks | OtherClock

  // ------------------------------------------------ clocks and handlers at one time

  datatype HandlerView = HandlerView(clock: Clock?, active: bool, index: int)

  datatype ClockView = ClockView(clock: Clock, period: nat, priority: int, currentCycle: nat, scheduled: bool,
                                 vector: seq<Handler>, queued: multiset<nat>, lastCycle: int)

  type Views = map<Handler, HandlerView>

  ghost function ViewsOf(handlers: seq<Handler>): Views
    reads handlers
  {
    map h | h in handlers :: HandlerView(h.clock, h.active, h.index)
  }

  ghost function ViewOf(c: Clock): ClockView
    reads c
  {
    ClockView(c, c.period, c.priority, c.currentCycle, c.scheduled, c.handlers, c.queued, c.lastCycle)
  }

  ghost function SetOf(handlers: seq<Handler>): set<Handler> {
    set h | h in handlers
  }

  /** What Clock.VectorOk says. */
  ghost predicate VectorIn(clock: Clock, vector: seq<Handler>, w: Views) {
    && (forall h :: h in vector ==> h in w)
    && (forall i :: 0 <= i < |vector| ==> w[vector[i]] == HandlerView(clock, true, i))
    && forall h :: h in w && w[h].clock == clock && h !in vector ==> !w[h].active && w[h].index == -1
  }

  lemma VectorOkIsIn(clock: Clock, handlers: seq<Handler>)
    ensures clock.VectorOk(SetOf(handlers)) <==> VectorIn(clock, clock.handlers, ViewsOf(handlers))
  {
    var w := ViewsOf(handlers);
    if VectorIn(clock, clock.handlers, w) {
      forall i | 0 <= i < |clock.handlers|
        ensures clock.handlers[i].active && clock.handlers[i].index == i && clock.handlers[i].clock == clock
      {
        assert w[clock.handlers[i]] == HandlerView(clock, true, i);
      }
    }
  }

  /** What Clock.TimingOk and Clock.After say. */
  ghost predicate TimingIn(v: ClockView, at: Moment) {
    && v.period > 0 && -1 <= v.lastCycle <= v.currentCycle
    && v.queued == (if v.scheduled then multiset{(v.currentCycle + 1) * v.period} else multiset{})
    && (v.lastCycle >= 0 ==> NotBefore(at, v.lastCycle * v.period, v.priority))
  }

  lemma TimingOkIsIn(clock: Clock, at: Moment)
    ensures clock.TimingOk() && clock.After(at) <==> TimingIn(ViewOf(clock), at)
  {
  }

  ghost predicate ClockIn(v: ClockView, w: Views, at: Moment) {
    VectorIn(v.clock, v.vector, w) && TimingIn(v, at)
  }

  // ------------------------------------------------ what every step keeps

  /** A handler without a clock is not active, the clock of any other is one of these, and no clock is there twice. */
  ghost predicate Shared(cs: seq<ClockView>, w: Views) {
    && (forall h :: h in w && w[h].clock == null ==> !w[h].active && w[h].index == -1)
    && (forall h :: h in w && w[h].clock != null ==> exists c :: 0 <= c < |cs| && cs[c].clock == w[h].clock)
    && forall c, d :: 0 <= c < d < |cs| ==> cs[c].clock != cs[d].clock
  }

  /** The ticks of each clock so far are at multiples of its period, as cycles that go up. */
  ghost predicate TicksIn(cs: seq<ClockView>, ticks: seq<Tick>) {
    && (forall k :: 0 <= k < |ticks| ==>
          && ticks[k].c < |cs| && ticks[k].time == ticks[k].cycle * cs[ticks[k].c].period
          && ticks[k].cycle <= cs[ticks[k].c].lastCycle)
    && forall k, l :: 0 <= k < l < |ticks| && ticks[k].c == ticks[l].c ==> ticks[k].cycle < ticks[l].cycle
  }

  ghost predicate Together(cs: seq<ClockView>, w: Views, at: Moment, ticks: seq<Tick>) {
    Shared(cs, w) && TicksIn(cs, ticks) && forall c :: 0 <= c < |cs| ==> ClockIn(cs[c], w, at)
  }

  ghost predicate AllIn(cs: seq<ClockView>, w: Views, at: Moment, ticks: seq<Tick>) {
    Together(cs, w, at, ticks)
  }

  /** The handlers that change belong to this clock afterwards, and belonged to it or were inactive before. */
  ghost predicate OnlyHandlersOf(clock: Clock, w: Views, w': Views) {
    && w'.Keys == w.Keys
    && forall h :: h in w && w'[h] != w[h] ==> w'[h].clock == clock && (w[h].clock == clock || !w[h].active)
  }

  /** No handler changes its clock, and those of other clocks do not change at all. */
  lemma OnlyThose(clock: Clock, w: Views, w': Views)
    requires w'.Keys == w.Keys
    requires forall h :: h in w ==> w'[h].clock == w[h].clock && (w[h].clock != clock ==> w'[h] == w[h])
    ensures OnlyHandlersOf(clock, w, w')
  {
  }

  lemma VectorUnaffected(v: ClockView, clock: Clock, w: Views, w': Views)
    requires VectorIn(v.clock, v.vector, w) && OnlyHandlersOf(clock, w, w') && v.clock != clock
    ensures VectorIn(v.clock, v.vector, w')
  {
  }

  /** One clock and its handlers change. */
  lemma OneClockChanged(cs: seq<ClockView>, w: Views, at: Moment, ticks: seq<Tick>, c: nat, v: ClockView, w': Views)
    requires AllIn(cs, w, at, ticks) && c < |cs| && v.clock == cs[c].clock && v.period == cs[c].period
    requires v.lastCycle >= cs[c].lastCycle && ClockIn(v, w', at) && OnlyHandlersOf(v.clock, w, w')
    ensures AllIn(cs[c := v], w', at, ticks)
  {
    var cs' := cs[c := v];
    forall d | 0 <= d < |cs'| ensures ClockIn(cs'[d], w', at) {
      if d != c { VectorUnaffected(cs[d], v.clock, w, w'); }
    }
    forall h | h in w' && w'[h].clock != null ensures exists d :: 0 <= d < |cs'| && cs'[d].clock == w'[h].clock {
      if w'[h] == w[h] {
        var d :| 0 <= d < |cs| && cs[d].clock == w[h].clock;
        assert cs'[d].clock == w'[h].clock;
      } else {
        assert cs'[c].clock == w'[h].clock;
      }
    }
  }

  lemma TickAdded(cs: seq<ClockView>, cs': seq<ClockView>, ticks: seq<Tick>, tick: Tick)
    requires TicksIn(cs, ticks) && |cs'| == |cs| && tick.c < |cs|
    requires forall c :: 0 <= c < |cs| ==> cs'[c].period == cs[c].period && cs'[c].lastCycle >= cs[c].lastCycle
    requires tick.time == tick.cycle * cs'[tick.c].period && cs[tick.c].lastCycle < tick.cycle <= cs'[tick.c].lastCycle
    ensures TicksIn(cs', ticks + [tick])
  {
  }

  /** A clock fires. */
  lemma OneClockFired(cs: seq<ClockView>, w: Views, at: Moment, ticks: seq<Tick>, c: nat, v: ClockView, w': Views)
    requires AllIn(cs, w, at, ticks) && c < |cs| && v.clock == cs[c].clock && v.period == cs[c].period
    requires cs[c].lastCycle < v.currentCycle == v.lastCycle && at.now == v.currentCycle * v.period
    requires ClockIn(v, w', at) && OnlyHandlersOf(v.clock, w, w')
    ensures AllIn(cs[c := v], w', at, ticks + [Tick(c, at.now, v.currentCycle)])
  {
    OneClockChanged(cs, w, at, ticks, c, v, w');
    TickAdded(cs, cs[c := v], ticks, Tick(c, at.now, v.currentCycle));
  }

  lemma LaterMoment(cs: seq<ClockView>, w: Views, at: Moment, ticks: seq<Tick>, m: Moment)
    requires AllIn(cs, w, at, ticks) && NotBefore(m, at.now, at.priority)
    ensures AllIn(cs, w, m, ticks)
  {
    forall c | 0 <= c < |cs| ensures ClockIn(cs[c], w, m) {
      var v := cs[c];
      assert ClockIn(v, w, at);
      if v.lastCycle >= 0 { StillNotBefore(at, m, v.lastCycle * v.period, v.priority); }
    }
  }

  // ------------------------------------------------ one clock among the handlers of all

  method RegisterOn(clock: Clock, h: Handler, at: Moment, handlers: seq<Handler>) returns (fatal: bool)
    requires ClockIn(ViewOf(clock), ViewsOf(handlers), at) && h in handlers
    requires h.clock == null ==> !h.active && h.index == -1
    modifies clock, h
    ensures ClockIn(ViewOf(clock), ViewsOf(handlers), at) && clock.lastCycle == old(clock.lastCycle)
    ensures OnlyHandlersOf(clock, old(ViewsOf(handlers)), ViewsOf(handlers))
  {
    VectorOkIsIn(clock, handlers);
    TimingOkIsIn(clock, at);
    fatal := clock.RegisterHandler(h, at, SetOf(handlers));
    VectorOkIsIn(clock, handlers);
    TimingOkIsIn(clock, at);
  }

  method UnregisterFrom(clock: Clock, h: Handler, ghost at: Moment, ghost handlers: seq<Handler>)
    requires ClockIn(ViewOf(clock), ViewsOf(handlers), at) && h in handlers && (h.active ==> h.clock == clock)
    modifies clock, handlers
    ensures ClockIn(ViewOf(clock), ViewsOf(handlers), at) && clock.lastCycle == old(clock.lastCycle)
    ensures OnlyHandlersOf(clock, old(ViewsOf(handlers)), ViewsOf(handlers))
  {
    VectorOkIsIn(clock, handlers);
    ghost var w := ViewsOf(handlers);
    var empty := clock.UnregisterHandler(h, SetOf(handlers));
    VectorOkIsIn(clock, handlers);
    OnlyThose(clock, w, ViewsOf(handlers));
  }

  method FireClock(clock: Clock, answers: seq<bool>, at: Moment, handlers: seq<Handler>)
    requires ClockIn(ViewOf(clock), ViewsOf(handlers), at) && clock.scheduled && |answers| == |clock.handlers|
    requires at.now in clock.queued && at.priority == clock.priority
    modifies clock, handlers
    ensures ClockIn(ViewOf(clock), ViewsOf(handlers), at)
    ensures OnlyHandlersOf(clock, old(ViewsOf(handlers)), ViewsOf(handlers))
    ensures if |answers| == 0 then clock.lastCycle == old(clock.lastCycle)
            else at.now == clock.currentCycle * clock.period
                 && old(clock.lastCycle) < clock.currentCycle == clock.lastCycle
  {
    VectorOkIsIn(clock, handlers);
    TimingOkIsIn(clock, at);
    ghost var w := ViewsOf(handlers);
    var calls := clock.Execute(at, answers, SetOf(handlers));
    VectorOkIsIn(clock, handlers);
    TimingOkIsIn(clock, at);
    OnlyThose(clock, w, ViewsOf(handlers));
  }

  /** An active handler that is called no more: its index was that of one unregistered from a wrong clock. */
  method WrongEntryErased(m: Moment) returns (a: Clock, g: Handler)
    ensures g.active && g.clock == a && g !in a.handlers && !a.VectorOk({g})
  {
    a := new Clock(1, 0);
    var b := new Clock(2, 0);
    g := new Handler();
    var h := new Handler();
    var fatal := a.RegisterHandler(g, m, {g, h});
    fatal := b.RegisterHandler(h, m, {g, h});
    assert a.handlers == [g] && h.index == 0;
    var empty := a.UnregisterHandler(h, {g, h});
  }

  // ------------------------------------------------ the run

  /** The simulation makes activities happen in the order of their times, and of their priorities at one time. */
  ghost predicate InOrder(at: Moment, steps: seq<Step>) {
    && (|steps| > 0 ==> NotBefore(steps[0].m, at.now, at.priority))
    && forall i :: 0 < i < |steps| ==> NotBefore(steps[i].m, steps[i - 1].m.now, steps[i - 1].m.priority)
  }

  ghost predicate Extends(before: seq<Tick>, after: seq<Tick>) {
    |before| <= |after| && after[..|before|] == before
  }

  lemma ExtendsTwice(a: seq<Tick>, b: seq<Tick>, c: seq<Tick>)
    requires Extends(a, b) && Extends(b, c)
    ensures Extends(a, c)
  {
    assert c[..|a|] == b[..|a|];
  }

  class Simulation {
    const clocks: seq<Clock>
    const handlers: seq<Handler>
    /** The moment of the last activity. */
    var at: Moment
    ghost var ticks: seq<Tick>
    /** The clocks and the handlers as they are. */
    ghost var cs: seq<ClockView>
    ghost var w: Views

    ghost predicate Mirrored()
      reads this, clocks, handlers
    {
      |cs| == |clocks| && (forall c :: 0 <= c < |clocks| ==> cs[c] == ViewOf(clocks[c])) && w == ViewsOf(handlers)
    }

    ghost predicate Valid()
      reads this, clocks, handlers
    {
      Mirrored() && AllIn(cs, w, at, ticks)
    }

    constructor (clocks: seq<Clock>, handlers: seq<Handler>, at: Moment)
      requires forall c, d :: 0 <= c < d < |clocks| ==> clocks[c] != clocks[d]
      requires forall c :: c in clocks ==> c.TimingOk() && c.handlers == [] && c.lastCycle == -1
      requires forall h :: h in handlers ==> h.clock == null && !h.active && h.index == -1
      ensures Valid() && this.clocks == clocks && this.handlers == handlers && this.at == at && ticks == []
    {
      this.clocks, this.handlers, this.at, ticks := clocks, handlers, at, [];
      cs, w := seq(|clocks|, c requires 0 <= c < |clocks| reads clocks => ViewOf(clocks[c])), ViewsOf(handlers);
      new;
      forall c | 0 <= c < |clocks| ensures ClockIn(cs[c], w, at) {
        assert clocks[c] in clocks;
        TimingOkIsIn(clocks[c], at);
      }
    }

    /** In every run, a clock's ticks come at multiples of its period, each later than the one before. */
    lemma TicksInOrder(k: nat, l: nat)
      requires Valid() && k < l < |ticks| && ticks[k].c == ticks[l].c
      ensures ticks[k].c < |clocks| && ticks[k].time == ticks[k].cycle * clocks[ticks[k].c].period
      ensures ticks[k].cycle < ticks[l].cycle && ticks[k].time < ticks[l].time
    {
      var clock := clocks[ticks[k].c];
      assert ClockIn(cs[ticks[k].c], w, at);
      ProductGrows(clock.period, ticks[k].cycle + 1, ticks[l].cycle);
      assert (ticks[k].cycle + 1) * clock.period == ticks[k].time + clock.period;
    }

    /** The simulation goes on to a later activity, or one at the same time of no lower priority. */
    method Advance(m: Moment)
      requires Valid() && NotBefore(m, at.now, at.priority)
      modifies this`at
      ensures Valid() && at == m
    {
      LaterMoment(cs, w, at, ticks, m);
      at := m;
    }

    /** Clocks or handlers have changed. */
    ghost method Mirror(cs': seq<ClockView>, w': Views, ticks': seq<Tick>)
      requires |cs'| == |clocks| && forall d :: 0 <= d < |clocks| ==> cs'[d] == ViewOf(clocks[d])
      requires w' == ViewsOf(handlers) && AllIn(cs', w', at, ticks')
      modifies this`cs, this`w, this`ticks
      ensures Valid() && ticks == ticks'
    {
      cs, w, ticks := cs', w', ticks';
    }

    /** No clock is there twice. */
    lemma OtherClocks(c: nat)
      requires Valid() && c < |clocks|
      ensures ClockIn(cs[c], w, at) && forall d :: 0 <= d < |clocks| && d != c ==> clocks[d] != clocks[c]
    {
    }

    /** registerHandler, on any of the clocks. */
    method Register(c: nat, h: Handler) returns (fatal: bool)
      requires Valid() && c < |clocks| && h in handlers
      modifies this`cs, this`w, this`ticks, clocks[c], h
      ensures Valid() && ticks == old(ticks)
    {
      OtherClocks(c);
      assert h in w;
      fatal := RegisterOn(clocks[c], h, at, handlers);
      OneClockChanged(cs, w, at, ticks, c, ViewOf(clocks[c]), ViewsOf(handlers));
      Mirror(cs[c := ViewOf(clocks[c])], ViewsOf(handlers), ticks);
    }

    /**
     * unregisterHandler, on any clock for which the source does not index past its vector. All
     * vectors stay right exactly if the handler is active on no other clock.
     */
    method Unregister(c: nat, h: Handler)
      requires Valid() && h in handlers && c < |clocks| && (h.active ==> 0 <= h.index < |clocks[c].handlers|)
      modifies this`cs, this`w, this`ticks, clocks[c], handlers
      ensures if !old(h.active) || old(h.clock) == clocks[c] then Valid() && ticks == old(ticks)
              else !clocks[c].VectorOk(SetOf(handlers))
    {
      OtherClocks(c);
      VectorOkIsIn(clocks[c], handlers);
      if h.active && h.clock != clocks[c] {
        var empty := clocks[c].UnregisterHandler(h, SetOf(handlers));
        return;
      }
      UnregisterFrom(clocks[c], h, at, handlers);
      OneClockChanged(cs, w, at, ticks, c, ViewOf(clocks[c]), ViewsOf(handlers));
      Mirror(cs[c := ViewOf(clocks[c])], ViewsOf(handlers), ticks);
    }

    /** execute, when the clock's time has come. */
    method Fire(c: nat, answers: seq<bool>)
      requires Valid() && c < |clocks| && clocks[c].scheduled && |answers| == |clocks[c].handlers|
      requires at.now in clocks[c].queued && at.priority == clocks[c].priority
      modifies this`cs, this`w, this`ticks, clocks[c], handlers
      ensures Valid()
      ensures ticks == old(ticks) + if |answers| == 0 then [] else [Tick(c, at.now, clocks[c].currentCycle)]
    {
      OtherClocks(c);
      FireClock(clocks[c], answers, at, handlers);
      if |answers| > 0 {
        OneClockFired(cs, w, at, ticks, c, ViewOf(clocks[c]), ViewsOf(handlers));
        Mirror(cs[c := ViewOf(clocks[c])], ViewsOf(handlers), ticks + [Tick(c, at.now, clocks[c].currentCycle)]);
      } else {
        OneClockChanged(cs, w, at, ticks, c, ViewOf(clocks[c]), ViewsOf(handlers));
        Mirror(cs[c := ViewOf(clocks[c])], ViewsOf(handlers), ticks);
      }
    }

    /**
     * A run of any activities, up to a fatal error or the first time a handler is unregistered from
     * a clock that is not the one it is active on. A clock fires only if it is queued for the moment.
     */
    method Play(steps: seq<Step>) returns (end: End)
      requires Valid() && InOrder(at, steps)
      modifies this`at, this`cs, this`w, this`ticks, clocks, handlers
      ensures Valid() && Extends(old(ticks), ticks)
    {
      ghost var before := ticks;
      for i := 0 to |steps|
        invariant Valid() && Extends(before, ticks)
        invariant i < |steps| ==> NotBefore(steps[i].m, at.now, at.priority)
      {
        ghost var sofar := ticks;
        end := Perform(steps[i].m, steps[i].event);
        ExtendsTwice(before, sofar, ticks);
        if end != Finished {
          return end;
        }
      }
      return Finished;
    }

    method Perform(m: Moment, event: Event) returns (end: End)
      requires Valid() && NotBefore(m, at.now, at.priority)
      modifies this`at, this`cs, this`w, this`ticks, clocks, handlers
      ensures Valid() && at == m && Extends(old(ticks), ticks)
    {
      Advance(m);
      if event.c >= |clocks| {
        return Finished;
      }
      match event
      case Registers(c, h) => end := TryRegister(c, h);
      case Unregisters(c, h) => end := TryUnregister(c, h);
      case Fires(c, answers) => end := TryFire(c, answers);
    }

    method TryRegister(c: nat, h: nat) returns (end: End)
      requires Valid() && c < |clocks|
      modifies this`cs, this`w, this`ticks, clocks, handlers
      ensures Valid() && Extends(old(ticks), ticks)
    {
      if h >= |handlers| {
        return Finished;
      }
      var fatal := Register(c, handlers[h]);
      return if fatal then TwoClocks else Finished;
    }

    method TryUnregister(c: nat, h: nat) returns (end: End)
      requires Valid() && c < |clocks|
      modifies this`cs, this`w, this`ticks, clocks, handlers
      ensures Valid() && Extends(old(ticks), ticks)
      ensures end == OtherClock <==> h < |handlers| && old(handlers[h].active && handlers[h].clock != clocks[c])
    {
      if h >= |handlers| {
        return Finished;
      }
      if handlers[h].active && handlers[h].clock != clocks[c] {
        return OtherClock;
      }
      OwnIndex(c, handlers[h]);
      Unregister(c, handlers[h]);
      return Finished;
    }

    lemma OwnIndex(c: nat, h: Handler)
      requires Valid() && c < |clocks| && h in handlers && (h.active ==> h.clock == clocks[c])
      ensures h.active ==> 0 <= h.index < |clocks[c].handlers|
    {
      OtherClocks(c);
      assert h in w && w[h] == HandlerView(h.clock, h.active, h.index);
    }

    method TryFire(c: nat, answers: seq<bool>) returns (end: End)
      requires Valid() && c < |clocks|
      modifies this`cs, this`w, this`ticks, clocks, handlers
      ensures Valid() && Extends(old(ticks), ticks)
    {
      OtherClocks(c);
      var clock := clocks[c];
      if clock.scheduled && |answers| == |clock.handlers| && at.priority == clock.priority
         && at.now == (clock.currentCycle + 1) * clock.period {
        Fire(c, answers);
      }
      return Finished;
    }
  }
}
