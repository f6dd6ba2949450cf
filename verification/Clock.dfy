/**
 * A clock and the handlers it calls (clock.cc, clock.h). A handler's answer is an input:
 * true means that it wants no more calls. Handlers do not register or unregister during a
 * tick. The simulation is its current time and priority and the activities queued for the clock.
 */
module Clock {
  class Handler {
    var clock: Clock?
    var active: bool
    var index: int

    constructor ()
      ensures clock == null && !active && index == -1
    {
      clock, active, index := null, false, -1;
    }

    method MarkAsActive(i: int)
      modifies this`active, this`index
      ensures active && index == i
    {
      active, index := true, i;
    }

    method MarkAsInactive()
      modifies this`active, this`index
      ensures !active && index == -1
    {
      active, index := false, -1;
    }
  }

  /** Where the simulation is: time and priority of the current activity, and whether the run has ended. */
  datatype Moment = Moment(now: nat, priority: int, endSim: bool)

  /** Activities are executed in the order of their time, then of their priority. */
  predicate NotBefore(m: Moment, time: nat, priority: int) {
    time < m.now || (time == m.now && priority <= m.priority)
  }

  /** The order of the simulation is one: what comes after a later moment comes after an earlier one. */
  lemma StillNotBefore(m: Moment, later: Moment, time: nat, priority: int)
    requires NotBefore(m, time, priority) && NotBefore(later, m.now, m.priority)
    ensures NotBefore(later, time, priority)
  {
  }

  /** The handlers that answered false, in order. */
  function Remaining(handlers: seq<Handler>, answers: seq<bool>): (r: seq<Handler>)
    requires |handlers| == |answers|
    ensures |r| <= |handlers|
  {
    if |handlers| == 0 then []
    else if answers[|answers| - 1] then Remaining(handlers[..|handlers| - 1], answers[..|answers| - 1])
    else Remaining(handlers[..|handlers| - 1], answers[..|answers| - 1]) + [handlers[|handlers| - 1]]
  }

  /** Answering one more handler. */
  lemma RemainingStep(handlers: seq<Handler>, answers: seq<bool>, n: nat)
    requires n < |handlers| == |answers|
    ensures Remaining(handlers[..n + 1], answers[..n + 1])
            == Remaining(handlers[..n], answers[..n]) + (if answers[n] then [] else [handlers[n]])
  {
    assert handlers[..n + 1][..n] == handlers[..n] && answers[..n + 1][..n] == answers[..n];
  }

  /** Nobody drops out as long as every answer is false. */
  lemma {:induction false} AllRemain(handlers: seq<Handler>, answers: seq<bool>, n: nat)
    requires n <= |handlers| == |answers| && forall i :: 0 <= i < n ==> !answers[i]
    ensures Remaining(handlers[..n], answers[..n]) == handlers[..n]
  {
    if n > 0 {
      AllRemain(handlers, answers, n - 1);
      RemainingStep(handlers, answers, n - 1);
    }
  }

  /** The handlers that remain are exactly those that answered false. */
  lemma {:induction false} RemainingMembers(handlers: seq<Handler>, answers: seq<bool>, h: Handler)
    requires |handlers| == |answers|
    ensures h in Remaining(handlers, answers) <==> exists i :: 0 <= i < |handlers| && handlers[i] == h && !answers[i]
    decreases |handlers|
  {
    if |handlers| > 0 {
      var n := |handlers| - 1;
      RemainingMembers(handlers[..n], answers[..n], h);
      if i :| 0 <= i < |handlers| && handlers[i] == h && !answers[i] {
        if i < n { assert handlers[..n][i] == h && !answers[..n][i]; }
      }
    }
  }

  /** The first n handlers, each called once with the given cycle. */
  function Log(handlers: seq<Handler>, n: nat, cycle: nat): (calls: seq<(Handler, nat)>)
    requires n <= |handlers|
    ensures |calls| == n && forall i :: 0 <= i < n ==> calls[i] == (handlers[i], cycle)
  {
    seq(n, i requires 0 <= i < n => (handlers[i], cycle))
  }

  lemma LogStep(handlers: seq<Handler>, n: nat, cycle: nat)
    requires n < |handlers|
    ensures Log(handlers, n + 1, cycle) == Log(handlers, n, cycle) + [(handlers[n], cycle)]
  {
  }

  class Clock {
    const period: nat
    const priority: int
    var currentCycle: nat
    var scheduled: bool
    var handlers: seq<Handler>
    /** Specification only: the times for which the simulation has the clock queued, and the cycle of the last tick. */
    ghost var queued: multiset<nat>
    ghost var lastCycle: int

    /** The vector and the handlers agree, and the other handlers of this clock are inactive. */
    ghost predicate VectorOk(known: set<Handler>)
      reads this, known
    {
      && (forall h :: h in handlers ==> h in known)
      && (forall i :: 0 <= i < |handlers| ==>
            handlers[i].active && handlers[i].index == i && handlers[i].clock == this)
      && forall h :: h in known && h.clock == this && h !in handlers ==> !h.active && h.index == -1
    }

    /** The clock is queued once, for its next cycle, while it is scheduled, and not at all otherwise. */
    ghost predicate TimingOk()
      reads this
    {
      && period > 0 && -1 <= lastCycle <= currentCycle
      && queued == if scheduled then multiset{(currentCycle + 1) * period} else multiset{}
    }

    /** The simulation has not gone back behind the last tick. */
    ghost predicate After(m: Moment)
      reads this
    {
      lastCycle >= 0 ==> NotBefore(m, lastCycle * period, priority)
    }

    constructor (period: nat, priority: int)
      requires period > 0
      ensures this.period == period && this.priority == priority && !scheduled && handlers == [] && TimingOk()
      ensures lastCycle == -1
    {
      this.period, this.priority := period, priority;
      currentCycle, scheduled, handlers, queued, lastCycle := 0, false, [], multiset{}, -1;
    }

    /** The clock may still tick at the current time: the activity that schedules it comes before it. */
    predicate TicksNow(m: Moment)
      requires period > 0
    {
      m.priority < priority && m.now != 0 && !m.endSim && m.now % period == 0
    }

    /** Queues the clock for the first cycle it has not missed. */
    method Schedule(m: Moment)
      requires TimingOk() && !scheduled && After(m)
      modifies this`currentCycle, this`scheduled, this`queued
      ensures TimingOk() && scheduled
      ensures var next := (currentCycle + 1) * period;
              if TicksNow(m) then next == m.now else m.now < next <= m.now + period
    {
      currentCycle := m.now / period;
      var next := currentCycle * period + period;
      FirstCycle(m.now, period, currentCycle);
      if m.priority < priority && m.now != 0 && !m.endSim {
        if m.now % period == 0 {
          next := m.now;
          currentCycle := currentCycle - 1;
        }
      }
      NotMissed(m, period, lastCycle, priority);
      assert next == (currentCycle + 1) * period;
      queued := queued + multiset{next};
      scheduled := true;
    }

    method UpdateCurrentCycle(m: Moment)
      requires TimingOk() && !scheduled && After(m)
      modifies this`currentCycle
      ensures TimingOk() && currentCycle == m.now / period
    {
      currentCycle := m.now / period;
      NotMissed(m, period, lastCycle, priority);
    }

    /** getNextCycle: when scheduled, the cycle for which the clock is queued. */
    method GetNextCycle(m: Moment) returns (cycle: nat)
      requires TimingOk() && After(m)
      modifies this`currentCycle
      ensures TimingOk() && cycle > lastCycle
      ensures scheduled ==> currentCycle == old(currentCycle) && queued == multiset{cycle * period}
      ensures !scheduled ==> cycle == m.now / period + 1
    {
      if !scheduled {
        UpdateCurrentCycle(m);
      }
      cycle := currentCycle + 1;
    }

    /** Puts a handler at the end of the vector. */
    method Append(handler: Handler, ghost known: set<Handler>)
      requires VectorOk(known) && handler !in handlers && handler.clock == this
      modifies this`handlers, handler`active, handler`index
      ensures VectorOk(known + {handler}) && handlers == old(handlers) + [handler] && handler.active
    {
      handler.MarkAsActive(|handlers|);
      handlers := handlers + [handler];
    }

    /** The part of registerHandler that settles which clock a handler belongs to. */
    method Adopt(handler: Handler, ghost known: set<Handler>) returns (fatal: bool)
      requires VectorOk(known) && handler in known && (handler.clock == null ==> !handler.active && handler.index == -1)
      modifies handler
      ensures fatal <==> old(handler.clock) != this && old(handler.clock) != null && old(handler.active)
      ensures fatal ==> unchanged(handler)
      ensures !fatal ==> VectorOk(known) && handler.clock == this && (handler.active <==> handler in handlers)
    {
      if handler.clock != this {
        if handler.clock == null {
          handler.clock := this;
        } else if handler.active {
          return true;
        } else {
          handler.clock := this;
          handler.MarkAsInactive();
        }
      }
      return false;
    }

    /**
     * registerHandler. A handler that is active on another clock is a fatal error; one that is
     * inactive there changes clocks; one that is active here is left as it is.
     */
    method RegisterHandler(handler: Handler, m: Moment, ghost known: set<Handler>) returns (fatal: bool)
      requires VectorOk(known) && TimingOk() && After(m) && handler in known
      requires handler.clock == null ==> !handler.active && handler.index == -1
      modifies this, handler
      ensures fatal <==> old(handler.clock) != this && old(handler.clock) != null && old(handler.active)
      ensures VectorOk(known) && TimingOk() && lastCycle == old(lastCycle)
      ensures fatal ==> handlers == old(handlers) && scheduled == old(scheduled) && unchanged(handler)
      ensures !fatal ==> handler.clock == this && handler.active && handler in handlers
      ensures !fatal ==>
                handlers == old(handlers)
                || (handler !in old(handlers) && handlers == old(handlers) + [handler] && scheduled)
      ensures old(scheduled) ==> scheduled && queued == old(queued) && currentCycle == old(currentCycle)
    {
      fatal := Adopt(handler, known);
      if fatal {
        return;
      }
      if handler.active {
        return;
      }
      Append(handler, known);
      assert known + {handler} == known;
      if !scheduled {
        Schedule(m);
      }
    }

    /** registerHandler_restart: a handler that was active in the checkpoint comes back into the vector. */
    method RegisterHandlerRestart(handler: Handler, m: Moment, ghost known: set<Handler>)
      requires VectorOk(known) && TimingOk() && After(m) && handler !in known
      requires !handler.active ==> handler.index == -1
      modifies this, handler
      ensures VectorOk(known + {handler}) && TimingOk() && handler.clock == this
              && handler.active == old(handler.active)
      ensures handlers == if handler.active then old(handlers) + [handler] else old(handlers)
      ensures old(scheduled) ==> scheduled && queued == old(queued)
    {
      handler.clock := this;
      if !handler.active {
        return;
      }
      Append(handler, known);
      if !scheduled {
        Schedule(m);
      }
    }

    /** isHandlerRegistered. */
    method IsHandlerRegistered(handler: Handler) returns (found: bool)
      ensures found <==> handler in handlers
    {
      for i := 0 to |handlers|
        invariant handler !in handlers[..i]
      {
        if handlers[i] == handler {
          return true;
        }
        assert handlers[..i + 1] == handlers[..i] + [handlers[i]];
      }
      assert handlers[..|handlers|] == handlers;
      return false;
    }

    /** All but one of the handlers are still in the vector, and those from n on still have the index they had. */
    ghost predicate MovingUp(handler: Handler, known: set<Handler>, was: seq<Handler>, place: nat, n: nat)
      requires place < |was|
      reads this, known, handler
    {
      && (forall h :: h in was ==> h in known) && handlers == was[..place] + was[place + 1..]
      && (forall i, j :: 0 <= i < j < |was| ==> was[i] != was[j])
      && (forall i :: 0 <= i < |handlers| ==>
            handlers[i].active && handlers[i].clock == this
            && handlers[i].index == if place <= i && n <= i then i + 1 else i)
      && !handler.active && handler.index == -1 && handler !in handlers
      && (if handler.clock == this then was[place] == handler else was[place].active && was[place].clock == this)
      && forall h :: h in known && h.clock == this && h !in was ==> !h.active && h.index == -1
    }

    /** The entry at the handler's index is erased, whose ever it is. */
    method Erase(handler: Handler, ghost known: set<Handler>) returns (index: nat)
      requires VectorOk(known) && handler in known && handler.active && 0 <= handler.index < |handlers|
      modifies this`handlers, handler`active, handler`index
      ensures index == old(handler.index) && MovingUp(handler, known, old(handlers), index, index)
    {
      index := handler.index;
      if handler.clock == this {
        assert handler in handlers;
        ghost var i :| 0 <= i < |handlers| && handlers[i] == handler;
        assert index == i;
      }
      handlers := handlers[..index] + handlers[index + 1..];
      handler.MarkAsInactive();
    }

    /** The handler behind moves up by one. */
    method MoveUp(next: Handler, index: nat, ghost handler: Handler, ghost known: set<Handler>, ghost was: seq<Handler>,
                  ghost place: nat)
      requires place < |was| && place <= index < |handlers| && handlers[index] == next
      requires MovingUp(handler, known, was, place, index)
      modifies next`index
      ensures MovingUp(handler, known, was, place, index + 1)
    {
      assert forall i :: 0 <= i < |handlers| && i != index ==> handlers[i] != next;
      next.index := index;
    }

    /** At the end the vector is right exactly if the entry erased was the handler's own. */
    lemma MovedUp(handler: Handler, known: set<Handler>, was: seq<Handler>, place: nat)
      requires place < |was| && handler in known && MovingUp(handler, known, was, place, |handlers|)
      ensures VectorOk(known) <==> handler.clock == this
    {
      var gone := was[place];
      assert gone !in handlers;
      if handler.clock == this {
        forall h | h in was && h != gone ensures h in handlers {
          var i :| 0 <= i < |was| && was[i] == h;
          assert handlers[if i < place then i else i - 1] == h;
        }
      } else {
        assert gone in was;
      }
    }

    /**
     * unregisterHandler: the entry at the handler's index leaves the vector, and all behind it move
     * up. That is the handler's own entry exactly if it is registered here; if it is active on
     * another clock, the source erases whoever is at that index, and the vector is wrong.
     */
    method UnregisterHandler(handler: Handler, ghost known: set<Handler>) returns (empty: bool)
      requires VectorOk(known) && handler in known && (handler.active ==> 0 <= handler.index < |handlers|)
      modifies this`handlers, set h | h in handlers :: h`index, handler`active, handler`index
      ensures VectorOk(known) <==> !old(handler.active) || handler.clock == this
      ensures !handler.active && handler !in handlers
      ensures handlers == if old(handler.active)
                          then old(handlers)[..old(handler.index)] + old(handlers)[old(handler.index) + 1..]
                          else old(handlers)
      ensures old(handler.active) && handler.clock == this ==> old(handlers)[old(handler.index)] == handler
      ensures forall h :: h in known && h.clock != this && h != handler ==>
                h.active == old(h.active) && h.index == old(h.index)
      ensures !old(handler.active) ==> forall h :: h in known ==> h.active == old(h.active) && h.index == old(h.index)
      ensures empty <==> handlers == []
    {
      assert forall h :: h in handlers ==> h.clock == this && h.active;
      if handler.active {
        ghost var was := handlers;
        var index := Erase(handler, known);
        ghost var place := index;
        while index < |handlers|
          invariant place <= index <= |handlers| && handlers == was[..place] + was[place + 1..]
          invariant MovingUp(handler, known, was, place, index)
        {
          MoveUp(handlers[index], index, handler, known, was, place);
          index := index + 1;
        }
        MovedUp(handler, known, was, place);
      }
      empty := |handlers| == 0;
    }

    /** The first n handlers have been called, and `kept` of them are at the front of the vector. */
    ghost predicate Settled(known: set<Handler>, was: seq<Handler>, answers: seq<bool>, n: nat, kept: nat)
      requires n <= |was| == |answers|
      reads this, known
    {
      && |handlers| == |was| && (forall h :: h in was ==> h in known)
      && kept <= n && handlers[..kept] == Remaining(was[..n], answers[..n])
      && (forall i :: n <= i < |was| ==>
            handlers[i] == was[i] && was[i].active && was[i].index == i && was[i].clock == this)
      && (forall i :: 0 <= i < kept ==>
            handlers[i] in known && handlers[i].active && handlers[i].index == i && handlers[i].clock == this)
      && (forall i :: 0 <= i < n && answers[i] ==> !was[i].active && was[i].index == -1)
      && forall h :: h in known && h.clock == this && h !in was ==> !h.active && h.index == -1
    }

    /** How far a tick has come. */
    ghost predicate Ticking(known: set<Handler>, was: seq<Handler>, answers: seq<bool>, n: nat, kept: nat)
      requires n <= |was| == |answers|
      reads this, known
    {
      Settled(known, was, answers, n, kept)
    }

    /** The first handler to drop out. */
    method FirstDrop(handler: Handler, n: nat, answers: seq<bool>, ghost known: set<Handler>)
      requires VectorOk(known) && n < |handlers| == |answers| && answers[n] && forall i :: 0 <= i < n ==> !answers[i]
      requires handlers[n] == handler
      modifies handler`active, handler`index
      ensures Ticking(known, handlers, answers, n + 1, n)
    {
      assert forall i :: 0 <= i < |handlers| && i != n ==> handlers[i] != handler;
      AllRemain(handlers, answers, n);
      RemainingStep(handlers, answers, n);
      handler.MarkAsInactive();
    }

    /** The first loop of execute: up to the first handler that drops out. */
    method CallUntilDrop(cycle: nat, answers: seq<bool>, ghost known: set<Handler>)
      returns (n: nat, calls: seq<(Handler, nat)>)
      requires VectorOk(known) && |answers| == |handlers|
      modifies set h | h in handlers :: h`active, set h | h in handlers :: h`index
      ensures n <= |handlers| && (forall i :: 0 <= i < n ==> !answers[i])
      ensures n < |handlers| ==>
                answers[n] && calls == Log(handlers, n + 1, cycle)
                && Ticking(known, handlers, answers, n + 1, n)
      ensures n == |handlers| ==> calls == Log(handlers, n, cycle) && VectorOk(known)
    {
      n, calls := 0, [];
      while n < |handlers|
        invariant n <= |handlers| && VectorOk(known) && calls == Log(handlers, n, cycle)
        invariant forall i :: 0 <= i < n ==> !answers[i]
      {
        LogStep(handlers, n, cycle);
        calls := calls + [(handlers[n], cycle)];
        if answers[n] {
          FirstDrop(handlers[n], n, answers, known);
          break;
        }
        n := n + 1;
      }
    }

    /** One handler of the second loop: it drops out, or moves up to the gap. */
    method Settle(handler: Handler, drops: bool, copy: nat, ghost n: nat, ghost was: seq<Handler>,
                  ghost answers: seq<bool>, ghost known: set<Handler>) returns (next: nat)
      requires copy < n < |was| == |answers| && handler == was[n] && drops == answers[n]
      requires Ticking(known, was, answers, n, copy)
      modifies this`handlers, handler`active, handler`index
      ensures copy <= next <= n && Ticking(known, was, answers, n + 1, next)
    {
      RemainingStep(was, answers, n);
      if drops {
        handler.MarkAsInactive();
        next := copy;
      } else {
        handler.index := copy;
        ghost var front := handlers[..copy];
        handlers := handlers[copy := handler];
        next := copy + 1;
        assert handlers[..copy] == front && handlers[..next] == front + [handler];
      }
    }

    /** Calls one handler of the second loop, and settles where it goes. */
    method CallAndSettle(handler: Handler, answer: bool, cycle: nat, copy: nat, calls: seq<(Handler, nat)>,
                         ghost n: nat, ghost was: seq<Handler>, ghost answers: seq<bool>, ghost known: set<Handler>)
      returns (next: nat, more: seq<(Handler, nat)>)
      requires copy < n < |was| == |answers| && handler == was[n] && answer == answers[n]
      requires Ticking(known, was, answers, n, copy) && calls == Log(was, n, cycle)
      modifies this`handlers, handler`active, handler`index
      ensures copy <= next <= n && Ticking(known, was, answers, n + 1, next) && more == Log(was, n + 1, cycle)
    {
      LogStep(was, n, cycle);
      more := calls + [(handler, cycle)];
      next := Settle(handler, answer, copy, n, was, answers, known);
    }

    /** The empty slots at the end go. */
    method Shrink(copy: nat, ghost was: seq<Handler>, ghost answers: seq<bool>, ghost known: set<Handler>)
      requires |was| == |answers| && copy <= |handlers| && Ticking(known, was, answers, |was|, copy)
      modifies this`handlers
      ensures VectorOk(known) && handlers == Remaining(was, answers)
    {
      handlers := handlers[..copy];
      assert was[..|was|] == was && answers[..|was|] == answers;
      forall h | h in was && h !in handlers ensures !h.active && h.index == -1 {
        RemainingMembers(was, answers, h);
        var i :| 0 <= i < |was| && was[i] == h;
        assert answers[i];
      }
    }

    /** The second loop of execute: calls the rest, and moves those that stay up to the gap. */
    method CallAndCompact(cycle: nat, answers: seq<bool>, gap: nat, before: seq<(Handler, nat)>,
                          ghost known: set<Handler>)
      returns (copy: nat, calls: seq<(Handler, nat)>)
      requires gap < |handlers| == |answers| && Ticking(known, handlers, answers, gap + 1, gap)
      requires before == Log(handlers, gap + 1, cycle)
      modifies this`handlers, set h | h in handlers :: h`active, set h | h in handlers :: h`index
      ensures Ticking(known, old(handlers), answers, |answers|, copy) && calls == Log(old(handlers), |answers|, cycle)
    {
      ghost var was := handlers;
      copy, calls := gap, before;
      for n := gap + 1 to |answers|
        invariant copy < n && Ticking(known, was, answers, n, copy) && calls == Log(was, n, cycle)
      {
        var handler := handlers[n];
        copy, calls := CallAndSettle(handler, answers[n], cycle, copy, calls, n, was, answers, known);
      }
    }

    /**
     * execute: with no handlers the clock stops. Otherwise every handler is called once, in
     * order, with the cycle that belongs to the current time; those that answer true leave
     * the vector; and the clock is queued for one period later.
     */
    method Execute(m: Moment, answers: seq<bool>, ghost known: set<Handler>) returns (calls: seq<(Handler, nat)>)
      requires VectorOk(known) && TimingOk() && scheduled && |answers| == |handlers|
      requires m.now in queued && m.priority == priority
      modifies this, set h | h in handlers :: h`active, set h | h in handlers :: h`index
      ensures VectorOk(known) && TimingOk() && After(m)
      ensures old(handlers) == [] ==> !scheduled && calls == [] && handlers == [] && lastCycle == old(lastCycle)
      ensures old(handlers) != [] ==>
                && scheduled && queued == multiset{m.now + period}
                && currentCycle * period == m.now && lastCycle == currentCycle && lastCycle > old(lastCycle)
      ensures calls == Log(old(handlers), |old(handlers)|, currentCycle)
      ensures handlers == Remaining(old(handlers), answers)
      ensures forall h :: h in known && h.clock != this ==> h.active == old(h.active) && h.index == old(h.index)
    {
      assert forall h :: h in handlers ==> h.clock == this;
      if |handlers| == 0 {
        Stop(m);
        return [];
      }
      StartTick(m);
      calls := CallHandlers(currentCycle, answers, known);
      FinishTick(m);
    }

    /** Taken out of the queue, the clock is not put back. */
    method Stop(m: Moment)
      requires TimingOk() && scheduled && m.now in queued
      modifies this`queued, this`scheduled
      ensures TimingOk() && After(m) && !scheduled
    {
      BeforeNext(lastCycle, currentCycle, period, m.now);
      queued := queued - multiset{m.now};
      scheduled := false;
    }

    /** Taken out of the queue, the clock goes on to the next cycle. */
    method StartTick(m: Moment)
      requires TimingOk() && scheduled && m.now in queued && m.priority == priority
      modifies this`queued, this`currentCycle, this`lastCycle
      ensures queued == multiset{} && period > 0 && currentCycle * period == m.now
      ensures lastCycle == currentCycle > old(lastCycle) && After(m)
    {
      queued := queued - multiset{m.now};
      currentCycle := currentCycle + 1;
      lastCycle := currentCycle;
    }

    /** The next time to fire. */
    method FinishTick(m: Moment)
      requires scheduled && queued == multiset{} && period > 0 && currentCycle * period == m.now
               && lastCycle == currentCycle
      modifies this`queued
      ensures TimingOk() && queued == multiset{m.now + period}
    {
      var next := m.now + period;
      NextTick(m.now, currentCycle, period);
      queued := queued + multiset{next};
    }

    /** The two loops of execute. */
    method CallHandlers(cycle: nat, answers: seq<bool>, ghost known: set<Handler>) returns (calls: seq<(Handler, nat)>)
      requires VectorOk(known) && |answers| == |handlers|
      modifies this`handlers, set h | h in handlers :: h`active, set h | h in handlers :: h`index
      ensures VectorOk(known) && handlers == Remaining(old(handlers), answers)
      ensures calls == Log(old(handlers), |old(handlers)|, cycle)
    {
      var n;
      n, calls := CallUntilDrop(cycle, answers, known);
      if n < |handlers| {
        ghost var was := handlers;
        var copy;
        copy, calls := CallAndCompact(cycle, answers, n, calls, known);
        Shrink(copy, was, answers, known);
      } else {
        AllRemain(handlers, answers, n);
        assert handlers[..n] == handlers && answers[..n] == answers;
      }
    }
  }

  lemma NextTick(now: nat, cycle: nat, period: nat)
    requires now == cycle * period
    ensures now + period == (cycle + 1) * period
  {
  }

  lemma BeforeNext(last: int, cycle: nat, period: nat, now: nat)
    requires -1 <= last <= cycle && now == (cycle + 1) * period && period > 0
    ensures last >= 0 ==> last * period < now
  {
    if last >= 0 { ProductGrows(period, last, cycle); }
  }

  lemma FirstCycle(now: nat, period: nat, cycle: nat)
    requires period > 0 && cycle == now / period
    ensures cycle * period <= now < cycle * period + period == (cycle + 1) * period
    ensures now % period == 0 ==> now == cycle * period
    ensures now != 0 && now % period == 0 ==> cycle > 0 && now == (cycle - 1 + 1) * period
  {
    assert now == cycle * period + now % period;
  }

  /** The last tick is no later than the current cycle, and earlier if the clock may still tick now. */
  lemma NotMissed(m: Moment, period: nat, last: int, priority: int)
    requires period > 0 && last >= -1 && (last >= 0 ==> NotBefore(m, last * period, priority))
    ensures last <= m.now / period
    ensures m.priority < priority && m.now != 0 && m.now % period == 0 ==> last <= m.now / period - 1
  {
    var cycle := m.now / period;
    FirstCycle(m.now, period, cycle);
    if last >= 0 {
      if last > cycle { ProductGrows(period, cycle + 1, last); }
      if last == cycle { assert last * period == cycle * period; }
    }
  }

  lemma ProductGrows(period: nat, a: nat, b: nat)
    requires a <= b
    ensures a * period <= b * period
  {
  }
}
