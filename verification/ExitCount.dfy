/**
 * When a simulation may end (exit.cc, exit.h, baseComponent.cc, baseComponent.h): the state
 * bits of primary components, the reference counts they lead to, and the check that ends
 * the run. A component sets its bits first and counts under the lock afterwards; in between,
 * other threads may do anything.
 */
module ExitCount {
  import opened Wrappers

  // ------------------------------------------------ the state bits of a component

  const PRIMARY: bv8 := 1
  const DO_NOT_END_SIM: bv8 := 2
  const OK_TO_END_SIM: bv8 := 4
  const EXTENSION: bv8 := 8

  predicate Has(state: bv8, bit: bv8) {
    state & bit != 0
  }

  function SetAsPrimary(state: bv8): bv8 {
    state | PRIMARY
  }

  function SetDoNotEndSim(state: bv8): bv8 {
    (state | DO_NOT_END_SIM) & !OK_TO_END_SIM
  }

  function SetOKToEndSim(state: bv8): bv8 {
    (state | OK_TO_END_SIM) & !DO_NOT_END_SIM
  }

  /** The two end states exclude each other. */
  predicate Exclusive(state: bv8) {
    !(Has(state, DO_NOT_END_SIM) && Has(state, OK_TO_END_SIM))
  }

  /** The setters change exactly the bits they are meant to, and keep the end states exclusive. */
  lemma BitsSet(state: bv8)
    ensures Has(SetDoNotEndSim(state), DO_NOT_END_SIM) && !Has(SetDoNotEndSim(state), OK_TO_END_SIM)
    ensures Has(SetOKToEndSim(state), OK_TO_END_SIM) && !Has(SetOKToEndSim(state), DO_NOT_END_SIM)
    ensures Has(SetDoNotEndSim(state), PRIMARY) <==> Has(state, PRIMARY)
    ensures Has(SetOKToEndSim(state), PRIMARY) <==> Has(state, PRIMARY)
    ensures Has(SetDoNotEndSim(state), EXTENSION) <==> Has(state, EXTENSION)
    ensures Has(SetOKToEndSim(state), EXTENSION) <==> Has(state, EXTENSION)
    ensures Has(SetAsPrimary(state), PRIMARY)
    ensures Has(SetAsPrimary(state), DO_NOT_END_SIM) <==> Has(state, DO_NOT_END_SIM)
    ensures Has(SetAsPrimary(state), OK_TO_END_SIM) <==> Has(state, OK_TO_END_SIM)
  {
  }

  // ------------------------------------------------ the counts

  const U32: nat := 0x1_0000_0000

  /** The state of Exit, with the times for which the simulation has it queued. */
  datatype ExitState = ExitState(singleRank: bool, refCount: nat, threadCounts: seq<nat>, endTime: nat,
                           queued: multiset<nat>, stops: multiset<(nat, nat)>, ended: Option<nat>)

  function RefInc(e: ExitState, thread: nat): ExitState
    requires thread < |e.threadCounts|
  {
    e.(refCount := e.refCount + 1, threadCounts := e.threadCounts[thread := e.threadCounts[thread] + 1])
  }

  /** An unsigned count below 1 wraps. */
  function OneLess(count: nat): nat {
    if count == 0 then U32 - 1 else count - 1
  }

  /** refDec; None is the fatal error of a count that is already 0. */
  function RefDec(e: ExitState, thread: nat, now: nat, independent: bool): Option<ExitState>
    requires thread < |e.threadCounts|
  {
    if e.refCount == 0 then None
    else
      var counts := e.threadCounts[thread := OneLess(e.threadCounts[thread])];
      var d := e.(refCount := e.refCount - 1, threadCounts := counts);
      if d.singleRank && |counts| == 1 && d.refCount == 0 then
        Some(d.(endTime := now, queued := d.queued + multiset{now + 1}))
      else if counts[thread] == 0 then
        Some(d.(endTime := if now > d.endTime then now else d.endTime,
                stops := if independent then d.stops + multiset{(thread, now)} else d.stops))
      else Some(d)
  }

  /** check, on a single rank. */
  function Check(e: ExitState): ExitState {
    if e.refCount > 0 then e else e.(ended := Some(e.endTime))
  }

  /** Exit. Every method holds the lock for its whole body. */
  class Exit {
    const singleRank: bool
    var refCount: nat
    var threadCounts: array<nat>
    var endTime: nat
    var ended: Option<nat>
    ghost var queued: multiset<nat>
    ghost var stops: multiset<(nat, nat)>

    ghost function View(): ExitState
      reads this, threadCounts
    {
      ExitState(singleRank, refCount, threadCounts[..], endTime, queued, stops, ended)
    }

    constructor (numThreads: nat, singleRank: bool)
      requires numThreads > 0
      ensures View() == ExitState(singleRank, 0, seq(numThreads, _ => 0), 0, multiset{}, multiset{}, None)
      ensures fresh(threadCounts)
    {
      this.singleRank := singleRank;
      refCount, endTime, ended, queued, stops := 0, 0, None, multiset{}, multiset{};
      threadCounts := new nat[numThreads](_ => 0);
    }

    method RefIncrement(thread: nat)
      requires thread < threadCounts.Length
      modifies this`refCount, threadCounts
      ensures View() == RefInc(old(View()), thread)
    {
      refCount := refCount + 1;
      threadCounts[thread] := threadCounts[thread] + 1;
    }

    method RefDecrement(thread: nat, now: nat, independent: bool) returns (fatal: bool)
      requires thread < threadCounts.Length
      modifies this`refCount, this`endTime, this`queued, this`stops, threadCounts
      ensures fatal <==> RefDec(old(View()), thread, now, independent).None?
      ensures View() == if fatal then old(View()) else RefDec(old(View()), thread, now, independent).value
    {
      if refCount == 0 {
        return true;
      }
      refCount := refCount - 1;
      threadCounts[thread] := if threadCounts[thread] == 0 then U32 - 1 else threadCounts[thread] - 1;
      if singleRank && threadCounts.Length == 1 && refCount == 0 {
        endTime := now;
        queued := queued + multiset{now + 1};
      } else if threadCounts[thread] == 0 {
        var endTimeNew := now;
        if endTimeNew > endTime {
          endTime := endTimeNew;
        }
        if independent {
          stops := stops + multiset{(thread, now)};
        }
      }
      return false;
    }

    /** check, on a single rank: the run ends if nothing is counted any more. */
    method CheckEnd()
      modifies this`ended
      ensures View() == Check(old(View()))
    {
      if refCount == 0 {
        ended := Some(endTime);
      }
    }
  }

  // ------------------------------------------------ components

  /** What a component's thread has still to do for it. */
  datatype Pending = Settled | ToIncrement | ToDecrement

  datatype Component = Component(thread: nat, state: bv8, pending: Pending)

  /** The components, the counters, and (for the specification) when a thread's count has dropped to 0. */
  datatype System = System(comps: seq<Component>, exit: ExitState, drops: seq<nat>)

  /** registerAsPrimaryComponent, before wire-up is finished. */
  function Register(c: Component): Component {
    if Has(c.state, PRIMARY) then c else c.(state := SetAsPrimary(c.state))
  }

  /** primaryComponentDoNotEndSim up to the call of refInc. */
  function DoNotEnd(c: Component): Component {
    if !Has(c.state, PRIMARY) || Has(c.state, DO_NOT_END_SIM) then c
    else c.(state := SetDoNotEndSim(c.state), pending := ToIncrement)
  }

  /** primaryComponentOKToEndSim up to the call of refDec. */
  function OKToEnd(c: Component): Component {
    if !Has(c.state, PRIMARY) || Has(c.state, OK_TO_END_SIM) then c
    else c.(state := SetOKToEndSim(c.state), pending := ToDecrement)
  }

  /** The end-of-simulation calls of a component, each made whole on the component's own thread. */
  class BaseComponent {
    const thread: nat
    const exit: Exit
    var componentState: bv8

    constructor (thread: nat, exit: Exit)
      ensures this.thread == thread && this.exit == exit && componentState == 0
    {
      this.thread, this.exit, componentState := thread, exit, 0;
    }

    function View(): Component
      reads this
    {
      Component(thread, componentState, Settled)
    }

    /** After wire-up this is a fatal error; a second call only warns. */
    method RegisterAsPrimaryComponent(wireUpFinished: bool) returns (fatal: bool)
      modifies this
      ensures fatal <==> wireUpFinished
      ensures View() == if fatal then old(View()) else Register(old(View()))
    {
      if wireUpFinished {
        return true;
      }
      if componentState & PRIMARY == 0 {
        componentState := componentState | PRIMARY;
      }
      return false;
    }

    method PrimaryComponentDoNotEndSim()
      requires thread < exit.threadCounts.Length
      modifies this, exit`refCount, exit.threadCounts
      ensures var c := DoNotEnd(old(View()));
              && View() == c.(pending := Settled)
              && exit.View() == if c.pending == ToIncrement then RefInc(old(exit.View()), thread) else old(exit.View())
    {
      if componentState & PRIMARY == 0 {
        return;
      }
      if componentState & DO_NOT_END_SIM != 0 {
        return;
      }
      componentState := componentState | DO_NOT_END_SIM;
      componentState := componentState & !OK_TO_END_SIM;
      exit.RefIncrement(thread);
    }

    method PrimaryComponentOKToEndSim(now: nat, independent: bool) returns (fatal: bool)
      requires thread < exit.threadCounts.Length
      modifies this, exit`refCount, exit`endTime, exit`queued, exit`stops, exit.threadCounts
      ensures var c, e := OKToEnd(old(View())), RefDec(old(exit.View()), thread, now, independent);
              && View() == c.(pending := Settled)
              && (fatal <==> c.pending == ToDecrement && e.None?)
              && exit.View() == if c.pending == ToDecrement && e.Some? then e.value else old(exit.View())
    {
      if componentState & PRIMARY == 0 {
        return false;
      }
      if componentState & OK_TO_END_SIM != 0 {
        return false;
      }
      componentState := componentState | OK_TO_END_SIM;
      componentState := componentState & !DO_NOT_END_SIM;
      fatal := exit.RefDecrement(thread, now, independent);
    }
  }

  /** A primary component that has never called primaryComponentDoNotEndSim. */
  predicate NeverHeld(c: Component) {
    Has(c.state, PRIMARY) && !Has(c.state, DO_NOT_END_SIM) && !Has(c.state, OK_TO_END_SIM)
  }

  /**
   * Steps of the system; the time and the kind of thread come from the simulation. A check is
   * made when a queued Exit comes up, or by the SyncManager.
   */
  datatype Action =
    | Registers(i: nat) | HoldsEnd(i: nat) | ReleasesEnd(i: nat) | Counts(i: nat, now: nat, independent: bool)
    | FiresQueued(time: nat) | ChecksAtSync

  predicate OneThread(e: ExitState) {
    e.singleRank && |e.threadCounts| == 1
  }

  /**
   * A component makes one call at a time, and OKToEndSim only after DoNotEndSim. Time does
   * not go back on a thread. With one thread, a check comes only from the queue.
   */
  predicate Allowed(s: System, a: Action) {
    match a
    case Registers(i) => i < |s.comps| && s.comps[i].pending == Settled
    case HoldsEnd(i) => i < |s.comps| && s.comps[i].pending == Settled
    case ReleasesEnd(i) => i < |s.comps| && s.comps[i].pending == Settled && !NeverHeld(s.comps[i])
    case Counts(i, now, _) =>
      i < |s.comps| && s.comps[i].pending != Settled && (OneThread(s.exit) ==> now >= s.exit.endTime)
    case FiresQueued(time) => time in s.exit.queued
    case ChecksAtSync => s.exit.singleRank && !OneThread(s.exit)
  }

  function Put(s: System, i: nat, c: Component): System
    requires i < |s.comps|
  {
    s.(comps := s.comps[i := c])
  }

  predicate OnThreads(s: System) {
    forall i :: 0 <= i < |s.comps| ==> s.comps[i].thread < |s.exit.threadCounts|
  }

  /** The state after a step; None is a fatal error. */
  function Next(s: System, a: Action): Option<System>
    requires Allowed(s, a) && OnThreads(s)
  {
    match a
    case Registers(i) => Some(Put(s, i, Register(s.comps[i])))
    case HoldsEnd(i) => Some(Put(s, i, DoNotEnd(s.comps[i])))
    case ReleasesEnd(i) => Some(Put(s, i, OKToEnd(s.comps[i])))
    case Counts(i, now, independent) => Count(s, i, now, independent)
    case FiresQueued(time) => Some(s.(exit := Check(s.exit.(queued := s.exit.queued - multiset{time}))))
    case ChecksAtSync => Some(s.(exit := Check(s.exit)))
  }

  /** The call of refInc or refDec that a component's thread still has to make. */
  function Count(s: System, i: nat, now: nat, independent: bool): Option<System>
    requires i < |s.comps| && s.comps[i].thread < |s.exit.threadCounts|
  {
    var c := s.comps[i];
    var done := Put(s, i, c.(pending := Settled));
    if c.pending == ToIncrement then Some(done.(exit := RefInc(s.exit, c.thread)))
    else match RefDec(s.exit, c.thread, now, independent)
         case None => None
         case Some(e) =>
           Some(done.(exit := e, drops := if e.threadCounts[c.thread] == 0 then s.drops + [now] else s.drops))
  }

  // ------------------------------------------------ the invariant

  /** The counters include this component. */
  predicate Counted(c: Component) {
    (Has(c.state, DO_NOT_END_SIM) && c.pending != ToIncrement) || c.pending == ToDecrement
  }

  function One(b: bool): nat {
    if b then 1 else 0
  }

  /** How many components are counted. */
  function Total(comps: seq<Component>): nat {
    if |comps| == 0 then 0 else One(Counted(comps[0])) + Total(comps[1..])
  }

  /** How many of a thread are. */
  function TotalOf(comps: seq<Component>, thread: nat): nat {
    if |comps| == 0 then 0 else One(Counted(comps[0]) && comps[0].thread == thread) + TotalOf(comps[1..], thread)
  }

  function Sum(counts: seq<nat>): nat {
    if |counts| == 0 then 0 else counts[0] + Sum(counts[1..])
  }

  lemma {:induction false} TotalUpdate(comps: seq<Component>, i: nat, c: Component)
    requires i < |comps|
    ensures Total(comps[i := c]) + One(Counted(comps[i])) == Total(comps) + One(Counted(c))
    decreases |comps|
  {
    if i == 0 {
      assert comps[0 := c][1..] == comps[1..];
    } else {
      TotalUpdate(comps[1..], i - 1, c);
      assert comps[i := c][1..] == comps[1..][i - 1 := c];
    }
  }

  lemma {:induction false} TotalOfUpdate(comps: seq<Component>, i: nat, c: Component, thread: nat)
    requires i < |comps|
    ensures TotalOf(comps[i := c], thread) + One(Counted(comps[i]) && comps[i].thread == thread)
            == TotalOf(comps, thread) + One(Counted(c) && c.thread == thread)
    decreases |comps|
  {
    if i == 0 {
      assert comps[0 := c][1..] == comps[1..];
    } else {
      TotalOfUpdate(comps[1..], i - 1, c, thread);
      assert comps[i := c][1..] == comps[1..][i - 1 := c];
    }
  }

  lemma {:induction false} SumUpdate(counts: seq<nat>, i: nat, n: nat)
    requires i < |counts|
    ensures Sum(counts[i := n]) + counts[i] == Sum(counts) + n
    decreases |counts|
  {
    if i == 0 {
      assert counts[0 := n][1..] == counts[1..];
    } else {
      SumUpdate(counts[1..], i - 1, n);
      assert counts[i := n][1..] == counts[1..][i - 1 := n];
    }
  }

  /** The end states are exclusive, only primary components have one, and who is about to count has just changed it. */
  predicate ComponentOk(c: Component, threads: nat) {
    && c.thread < threads && Exclusive(c.state)
    && (Has(c.state, DO_NOT_END_SIM) || Has(c.state, OK_TO_END_SIM) ==> Has(c.state, PRIMARY))
    && (c.pending == ToIncrement ==> Has(c.state, DO_NOT_END_SIM))
    && (c.pending == ToDecrement ==> Has(c.state, OK_TO_END_SIM))
  }

  /** The counters are those of the components. */
  ghost predicate CountsOk(s: System) {
    && s.exit.refCount == Total(s.comps)
    && (forall t :: 0 <= t < |s.exit.threadCounts| ==> s.exit.threadCounts[t] == TotalOf(s.comps, t))
    && Sum(s.exit.threadCounts) == s.exit.refCount
  }

  /** The end time is the latest at which a thread's count has dropped to 0. */
  ghost predicate EndTimeOk(s: System) {
    && (forall k :: 0 <= k < |s.drops| ==> s.drops[k] <= s.exit.endTime)
    && (if s.drops == [] then s.exit.endTime == 0 else s.exit.endTime in s.drops)
  }

  /** With one thread, once the count has dropped to 0 it is up again, or a check is queued, or the run has ended. */
  ghost predicate CheckPending(s: System) {
    OneThread(s.exit) && s.drops != [] ==> s.exit.refCount > 0 || s.exit.queued != multiset{} || s.exit.ended.Some?
  }

  ghost predicate Inv(s: System) {
    && (forall i :: 0 <= i < |s.comps| ==> ComponentOk(s.comps[i], |s.exit.threadCounts|))
    && CountsOk(s) && EndTimeOk(s) && CheckPending(s)
  }

  /** Before any call. */
  function Init(threads: seq<nat>, numThreads: nat, singleRank: bool): System {
    System(seq(|threads|, i requires 0 <= i < |threads| => Component(threads[i], 0, Settled)),
           ExitState(singleRank, 0, seq(numThreads, _ => 0), 0, multiset{}, multiset{}, None), [])
  }

  lemma {:induction false} NobodyCounted(comps: seq<Component>, t: nat)
    requires forall i :: 0 <= i < |comps| ==> !Counted(comps[i])
    ensures Total(comps) == 0 && TotalOf(comps, t) == 0
  {
    if |comps| > 0 {
      NobodyCounted(comps[1..], t);
    }
  }

  lemma {:induction false} SumOfZeros(counts: seq<nat>)
    requires forall i :: 0 <= i < |counts| ==> counts[i] == 0
    ensures Sum(counts) == 0
  {
    if |counts| > 0 {
      SumOfZeros(counts[1..]);
    }
  }

  lemma InitInv(threads: seq<nat>, numThreads: nat, singleRank: bool)
    requires forall i :: 0 <= i < |threads| ==> threads[i] < numThreads
    ensures Inv(Init(threads, numThreads, singleRank))
  {
    var s := Init(threads, numThreads, singleRank);
    NobodyCounted(s.comps, 0);
    forall t | 0 <= t < numThreads ensures s.exit.threadCounts[t] == TotalOf(s.comps, t) { NobodyCounted(s.comps, t); }
    SumOfZeros(s.exit.threadCounts);
  }

  // ------------------------------------------------ every step

  lemma StateChangeKeeps(s: System, i: nat, c: Component)
    requires Inv(s) && i < |s.comps| && ComponentOk(c, |s.exit.threadCounts|)
    requires c.thread == s.comps[i].thread && (Counted(c) <==> Counted(s.comps[i]))
    ensures Inv(Put(s, i, c))
  {
    TotalUpdate(s.comps, i, c);
    forall t | 0 <= t < |s.exit.threadCounts| ensures s.exit.threadCounts[t] == TotalOf(s.comps[i := c], t) {
      TotalOfUpdate(s.comps, i, c, t);
    }
  }

  /** A counted component is counted in total and on its thread. */
  lemma {:induction false} CountedSomewhere(comps: seq<Component>, i: nat)
    requires i < |comps| && Counted(comps[i])
    ensures Total(comps) > 0 && TotalOf(comps, comps[i].thread) > 0
    decreases |comps|
  {
    if i > 0 {
      CountedSomewhere(comps[1..], i - 1);
    }
  }

  lemma CountersAfter(s: System, i: nat, c: Component, e: ExitState, delta: int)
    requires CountsOk(s) && i < |s.comps| && c.thread == s.comps[i].thread < |s.exit.threadCounts| == |e.threadCounts|
    requires One(Counted(c)) == One(Counted(s.comps[i])) + delta
    requires s.exit.threadCounts[c.thread] + delta >= 0
    requires e.refCount == s.exit.refCount + delta
    requires e.threadCounts == s.exit.threadCounts[c.thread := s.exit.threadCounts[c.thread] + delta]
    ensures CountsOk(s.(comps := s.comps[i := c], exit := e))
  {
    TotalUpdate(s.comps, i, c);
    forall t | 0 <= t < |e.threadCounts| ensures e.threadCounts[t] == TotalOf(s.comps[i := c], t) {
      TotalOfUpdate(s.comps, i, c, t);
    }
    SumUpdate(s.exit.threadCounts, c.thread, s.exit.threadCounts[c.thread] + delta);
  }

  /** Counting never fails, never wraps, and settles the component. */
  lemma CountKeeps(s: System, i: nat, now: nat, independent: bool)
    requires Inv(s) && Allowed(s, Counts(i, now, independent)) && s.comps[i].thread < |s.exit.threadCounts|
    ensures Count(s, i, now, independent).Some? && Inv(Count(s, i, now, independent).value)
  {
    var c := s.comps[i];
    var c' := c.(pending := Settled);
    assert ComponentOk(c, |s.exit.threadCounts|);
    if c.pending == ToIncrement {
      CountersAfter(s, i, c', RefInc(s.exit, c.thread), 1);
    } else {
      CountedSomewhere(s.comps, i);
      var e := RefDec(s.exit, c.thread, now, independent).value;
      CountersAfter(s, i, c', e, -1);
      DecrementTimes(s, s.(comps := s.comps[i := c'], exit := e,
                           drops := if e.threadCounts[c.thread] == 0 then s.drops + [now] else s.drops),
                     c.thread, now, independent);
    }
  }

  lemma DecrementTimes(s: System, s': System, thread: nat, now: nat, independent: bool)
    requires EndTimeOk(s) && CheckPending(s) && thread < |s.exit.threadCounts| && s.exit.threadCounts[thread] > 0
    requires RefDec(s.exit, thread, now, independent) == Some(s'.exit) && (OneThread(s.exit) ==> now >= s.exit.endTime)
    requires Sum(s'.exit.threadCounts) == s'.exit.refCount
    requires s'.drops == if s'.exit.threadCounts[thread] == 0 then s.drops + [now] else s.drops
    ensures EndTimeOk(s') && CheckPending(s')
  {
    if s'.exit.threadCounts[thread] == 0 {
      assert s'.drops[|s.drops|] == now;
      if OneThread(s.exit) {
        assert s'.exit.threadCounts[1..] == [];
        assert now + 1 in s'.exit.queued;
      } else if s'.exit.endTime == s.exit.endTime && s.drops != [] {
        assert s.exit.endTime in s.drops;
      }
      ZeroIfAllZero(s'.exit.threadCounts, thread);
    } else if s'.exit.refCount == 0 {
      SomethingCounted(s'.exit.threadCounts, thread);
    }
  }

  lemma ZeroIfAllZero(counts: seq<nat>, t: nat)
    requires t < |counts|
    ensures |counts| == 1 ==> Sum(counts) == counts[0]
  {
    if |counts| == 1 { assert counts[1..] == []; }
  }

  lemma {:induction false} SomethingCounted(counts: seq<nat>, t: nat)
    requires t < |counts|
    ensures Sum(counts) >= counts[t]
    decreases |counts|
  {
    if t > 0 { SomethingCounted(counts[1..], t - 1); }
  }

  lemma CallKeeps(s: System, i: nat, c: Component)
    requires Inv(s) && i < |s.comps| && s.comps[i].pending == Settled
    requires c == Register(s.comps[i]) || c == DoNotEnd(s.comps[i])
             || (c == OKToEnd(s.comps[i]) && !NeverHeld(s.comps[i]))
    ensures Inv(Put(s, i, c))
  {
    BitsSet(s.comps[i].state);
    assert ComponentOk(s.comps[i], |s.exit.threadCounts|);
    StateChangeKeeps(s, i, c);
  }

  /** No step fails, and every step keeps the invariant. */
  lemma StepKeeps(s: System, a: Action)
    requires Inv(s) && OnThreads(s) && Allowed(s, a)
    ensures Next(s, a).Some? && Inv(Next(s, a).value) && OnThreads(Next(s, a).value)
  {
    match a {
      case Registers(i) => CallKeeps(s, i, Register(s.comps[i]));
      case HoldsEnd(i) => CallKeeps(s, i, DoNotEnd(s.comps[i]));
      case ReleasesEnd(i) => CallKeeps(s, i, OKToEnd(s.comps[i]));
      case Counts(i, now, independent) => CountKeeps(s, i, now, independent);
      case FiresQueued(_) =>
      case ChecksAtSync =>
    }
  }

  ghost predicate Run(threads: seq<nat>, numThreads: nat, singleRank: bool, actions: seq<Action>, states: seq<System>) {
    && (forall i :: 0 <= i < |threads| ==> threads[i] < numThreads)
    && |states| == |actions| + 1 && states[0] == Init(threads, numThreads, singleRank)
    && forall k :: 0 <= k < |actions| ==>
         OnThreads(states[k]) && Allowed(states[k], actions[k]) && Next(states[k], actions[k]) == Some(states[k + 1])
  }

  /** Every interleaving keeps the invariant. */
  lemma {:induction false} RunInv(threads: seq<nat>, numThreads: nat, singleRank: bool, actions: seq<Action>,
                                  states: seq<System>, k: nat)
    requires Run(threads, numThreads, singleRank, actions, states) && k < |states|
    ensures Inv(states[k]) && OnThreads(states[k])
    decreases k
  {
    if k == 0 {
      InitInv(threads, numThreads, singleRank);
    } else {
      RunInv(threads, numThreads, singleRank, actions, states, k - 1);
      StepKeeps(states[k - 1], actions[k - 1]);
    }
  }

  // ------------------------------------------------ what it means

  /** How many components hold up the end. */
  function Holding(comps: seq<Component>): nat {
    if |comps| == 0 then 0 else One(Has(comps[0].state, DO_NOT_END_SIM)) + Holding(comps[1..])
  }

  /** When no call is under way, what is counted is the components that hold up the end. */
  lemma {:induction false} SettledCount(comps: seq<Component>)
    requires forall i :: 0 <= i < |comps| ==> comps[i].pending == Settled
    ensures Total(comps) == Holding(comps)
  {
    if |comps| > 0 {
      SettledCount(comps[1..]);
    }
  }

  lemma NobodyCountedIfNone(comps: seq<Component>)
    requires Total(comps) == 0
    ensures forall i :: 0 <= i < |comps| ==> !Counted(comps[i])
  {
    forall i | 0 <= i < |comps| ensures !Counted(comps[i]) {
      if Counted(comps[i]) { CountedSomewhere(comps, i); }
    }
  }

  /**
   * A check that ends the run, whatever calls are under way, finds no component holding it up but
   * those that are still to be counted, and ends it at the latest time a thread ran out.
   */
  lemma EndsOnlyWhenAllAgree(s: System, a: Action)
    requires Inv(s) && OnThreads(s) && Allowed(s, a)
    requires s.exit.ended == None && Next(s, a).Some? && Next(s, a).value.exit.ended.Some?
    ensures s.exit.refCount == 0
    ensures forall i :: 0 <= i < |s.comps| ==>
              !Has(s.comps[i].state, DO_NOT_END_SIM) || s.comps[i].pending == ToIncrement
    ensures (forall i :: 0 <= i < |s.comps| ==> s.comps[i].pending == Settled) ==> Holding(s.comps) == 0
    ensures Next(s, a).value.exit.ended == Some(s.exit.endTime)
    ensures forall k :: 0 <= k < |s.drops| ==> s.drops[k] <= s.exit.endTime
  {
    NobodyCountedIfNone(s.comps);
    if forall i :: 0 <= i < |s.comps| ==> s.comps[i].pending == Settled { SettledCount(s.comps); }
  }

  /**
   * A primary component that says it is OK to end without ever having held the end: the call
   * is a fatal error if nothing is counted, and otherwise takes away another component's count.
   */
  lemma ReleaseWithoutHold(s: System, i: nat, now: nat, independent: bool)
    requires Inv(s) && i < |s.comps| && s.comps[i].pending == Settled && NeverHeld(s.comps[i])
    requires s.comps[i].thread < |s.exit.threadCounts|
    ensures var after := Count(Put(s, i, OKToEnd(s.comps[i])), i, now, independent);
            && (after.None? <==> s.exit.refCount == 0)
            && (after.Some? ==> after.value.exit.refCount == Total(after.value.comps) - 1)
  {
    var c := OKToEnd(s.comps[i]);
    BitsSet(s.comps[i].state);
    var comps := s.comps[i := c];
    TotalUpdate(s.comps, i, c);
    TotalUpdate(comps, i, c.(pending := Settled));
  }

  /**
   * Releasing the end keeps the counters right if and only if the component has called DoNotEndSim
   * before, or has no say.
   */
  lemma ReleaseKeepsIff(s: System, i: nat)
    requires Inv(s) && i < |s.comps| && s.comps[i].pending == Settled
    ensures Inv(Put(s, i, OKToEnd(s.comps[i]))) <==> !NeverHeld(s.comps[i])
  {
    if NeverHeld(s.comps[i]) {
      TotalUpdate(s.comps, i, OKToEnd(s.comps[i]));
    } else {
      CallKeeps(s, i, OKToEnd(s.comps[i]));
    }
  }

  // ------------------------------------------------ how often a check is queued

  /** Step k counts a call of primaryComponentDoNotEndSim. */
  predicate CountsHold(actions: seq<Action>, states: seq<System>, k: nat)
    requires k < |actions| < |states|
  {
    && actions[k].Counts? && actions[k].i < |states[k].comps|
    && states[k].comps[actions[k].i].pending == ToIncrement
  }

  /** Step k counts a call of primaryComponentOKToEndSim after which nothing holds up the end. */
  predicate CountsLastRelease(actions: seq<Action>, states: seq<System>, k: nat)
    requires k < |actions| < |states|
  {
    && actions[k].Counts? && actions[k].i < |states[k].comps|
    && states[k].comps[actions[k].i].pending == ToDecrement && states[k + 1].exit.refCount == 0
  }

  /** How often Exit has been put into the queue. */
  function Insertions(states: seq<System>, k: nat): nat
    requires k < |states|
  {
    if k == 0 then 0
    else Insertions(states, k - 1) + One(|states[k].exit.queued| > |states[k - 1].exit.queued|)
  }

  lemma OnlyThread(s: System, i: nat)
    requires OnThreads(s) && OneThread(s.exit) && i < |s.comps|
    ensures s.comps[i].thread == 0
  {
  }

  /** With one thread, a step queues a check exactly if it drops the count to 0. */
  lemma QueueStep(s: System, a: Action)
    requires Inv(s) && OnThreads(s) && OneThread(s.exit) && Allowed(s, a)
    ensures Next(s, a).Some? && OneThread(Next(s, a).value.exit)
    ensures var s' := Next(s, a).value;
            var drop := a.Counts? && s.comps[a.i].pending == ToDecrement && s'.exit.refCount == 0;
            && (|s'.exit.queued| > |s.exit.queued| <==> drop) && |s'.drops| == |s.drops| + One(drop)
            && (s'.exit.refCount > s.exit.refCount <==> a.Counts? && s.comps[a.i].pending == ToIncrement)
            && (drop ==> s.exit.refCount > 0)
  {
    StepKeeps(s, a);
    var s' := Next(s, a).value;
    if a.Counts? {
      OnlyThread(s, a.i);
      ZeroIfAllZero(s'.exit.threadCounts, 0);
    } else if a.FiresQueued? {
      assert s.exit.queued == (s.exit.queued - multiset{a.time}) + multiset{a.time};
    }
  }

  /** In a run of one thread, Exit is put into the queue once for each time the count drops to 0. */
  lemma {:induction false} QueuedOncePerDrop(threads: seq<nat>, actions: seq<Action>, states: seq<System>, k: nat)
    requires Run(threads, 1, true, actions, states) && k < |states|
    ensures OneThread(states[k].exit) && Insertions(states, k) == |states[k].drops|
    decreases k
  {
    if k > 0 {
      QueuedOncePerDrop(threads, actions, states, k - 1);
      RunInv(threads, 1, true, actions, states, k - 1);
      QueueStep(states[k - 1], actions[k - 1]);
    }
  }

  /** For each step, whether it counts a hold. */
  function Holds(actions: seq<Action>, states: seq<System>): (holds: seq<bool>)
    requires |actions| < |states|
    ensures |holds| == |actions|
  {
    seq(|actions|, k requires 0 <= k < |actions| => CountsHold(actions, states, k))
  }

  /** For each step, whether it counts a last release. */
  function LastReleases(actions: seq<Action>, states: seq<System>): (releases: seq<bool>)
    requires |actions| < |states|
    ensures |releases| == |actions|
  {
    seq(|actions|, k requires 0 <= k < |actions| => CountsLastRelease(actions, states, k))
  }

  /** Everything has been released, and something holds the end again. */
  predicate HeldAgain(holds: seq<bool>, releases: seq<bool>, d: nat, h: nat) {
    d < h && d < |releases| && releases[d] && h < |holds| && holds[h]
  }

  /** Everything is released, something holds the end again, everything is released. */
  predicate ReleasedTwice(holds: seq<bool>, releases: seq<bool>, d: nat, h: nat, r: nat) {
    HeldAgain(holds, releases, d, h) && h < r < |releases| && releases[r]
  }

  /** How the count goes up and down with the steps. */
  ghost predicate Counting(holds: seq<bool>, releases: seq<bool>, counts: seq<nat>) {
    && |holds| == |releases| && |counts| == |releases| + 1
    && forall k :: 0 <= k < |releases| ==>
         (releases[k] ==> counts[k + 1] == 0 < counts[k]) && (counts[k + 1] > counts[k] <==> holds[k])
  }

  function Trues(b: seq<bool>): nat {
    if |b| == 0 then 0 else Trues(b[..|b| - 1]) + One(b[|b| - 1])
  }

  lemma {:induction false} AnyTrue(b: seq<bool>) returns (d: nat)
    requires Trues(b) > 0
    ensures d < |b| && b[d]
  {
    if b[|b| - 1] {
      d := |b| - 1;
    } else {
      d := AnyTrue(b[..|b| - 1]);
    }
  }

  lemma {:induction false} TrueCounted(b: seq<bool>, d: nat)
    requires d < |b| && b[d]
    ensures Trues(b) >= Trues(b[..d]) + 1
    decreases |b|
  {
    if d == |b| - 1 {
    } else {
      TrueCounted(b[..|b| - 1], d);
      assert b[..|b| - 1][..d] == b[..d];
    }
  }

  /** After a last release, only a later hold makes the count positive. */
  lemma {:induction false} HeldAfterRelease(holds: seq<bool>, releases: seq<bool>, counts: seq<nat>)
    returns (d: nat, h: nat)
    requires Counting(holds, releases, counts) && Trues(releases) > 0 && counts[|releases|] > 0
    ensures HeldAgain(holds, releases, d, h)
    decreases |releases|
  {
    var k := |releases| - 1;
    if counts[k] > 0 {
      d, h := HeldAfterRelease(holds[..k], releases[..k], counts[..k + 1]);
    } else {
      d := AnyTrue(releases[..k]);
      h := k;
    }
  }

  /** A second last release comes after a hold that comes after the first. */
  lemma {:induction false} ReleasedAgain(holds: seq<bool>, releases: seq<bool>, counts: seq<nat>)
    returns (d: nat, h: nat, r: nat)
    requires Counting(holds, releases, counts) && Trues(releases) > 1
    ensures ReleasedTwice(holds, releases, d, h, r)
    decreases |releases|
  {
    var k := |releases| - 1;
    if Trues(releases[..k]) > 1 {
      d, h, r := ReleasedAgain(holds[..k], releases[..k], counts[..k + 1]);
    } else {
      assert releases[k] && counts[k + 1] == 0 < counts[k];
      r := k;
      d, h := HeldAfterRelease(holds[..k], releases[..k], counts[..k + 1]);
    }
  }

  /** What a step of a run of one thread does. */
  lemma StepOfRun(threads: seq<nat>, actions: seq<Action>, states: seq<System>, k: nat)
    requires Run(threads, 1, true, actions, states) && k < |actions|
    ensures Insertions(states, k + 1) == Insertions(states, k) + One(CountsLastRelease(actions, states, k))
    ensures states[k + 1].exit.refCount > states[k].exit.refCount <==> CountsHold(actions, states, k)
    ensures CountsLastRelease(actions, states, k) ==> states[k + 1].exit.refCount == 0 < states[k].exit.refCount
  {
    RunInv(threads, 1, true, actions, states, k);
    QueuedOncePerDrop(threads, actions, states, k);
    QueueStep(states[k], actions[k]);
  }

  lemma RunCounting(threads: seq<nat>, actions: seq<Action>, states: seq<System>, counts: seq<nat>)
    requires Run(threads, 1, true, actions, states) && |counts| == |states|
    requires forall k :: 0 <= k < |states| ==> counts[k] == states[k].exit.refCount
    ensures Counting(Holds(actions, states), LastReleases(actions, states), counts)
  {
    forall k | 0 <= k < |actions|
      ensures LastReleases(actions, states)[k] ==> counts[k + 1] == 0 < counts[k]
      ensures counts[k + 1] > counts[k] <==> Holds(actions, states)[k]
    {
      StepOfRun(threads, actions, states, k);
    }
  }

  /** Exit is put into the queue exactly at the last releases. */
  lemma {:induction false} QueuedAtLastReleases(threads: seq<nat>, actions: seq<Action>, states: seq<System>, k: nat)
    requires Run(threads, 1, true, actions, states) && k <= |actions|
    ensures Insertions(states, k) == Trues(LastReleases(actions, states)[..k])
    decreases k
  {
    if k > 0 {
      QueuedAtLastReleases(threads, actions, states, k - 1);
      StepOfRun(threads, actions, states, k - 1);
      assert LastReleases(actions, states)[..k][..k - 1] == LastReleases(actions, states)[..k - 1];
    }
  }

  /**
   * The comment that Exit only gets put into the queue once is right for exactly those runs in
   * which, once everything has been released and something holds the end again, it never comes
   * to the point again that everything is released.
   */
  lemma QueuedOnceIff(threads: seq<nat>, actions: seq<Action>, states: seq<System>)
    requires Run(threads, 1, true, actions, states)
    ensures Insertions(states, |actions|) <= 1 <==>
              !exists d: nat, h: nat, r: nat ::
                ReleasedTwice(Holds(actions, states), LastReleases(actions, states), d, h, r)
  {
    var counts := seq(|states|, k requires 0 <= k < |states| => states[k].exit.refCount);
    RunCounting(threads, actions, states, counts);
    QueuedAtLastReleases(threads, actions, states, |actions|);
    assert LastReleases(actions, states)[..|actions|] == LastReleases(actions, states);
    ReleasedOnceIff(Holds(actions, states), LastReleases(actions, states), counts);
  }

  lemma ReleasedOnceIff(holds: seq<bool>, releases: seq<bool>, counts: seq<nat>)
    requires Counting(holds, releases, counts)
    ensures Trues(releases) <= 1 <==> !exists d: nat, h: nat, r: nat :: ReleasedTwice(holds, releases, d, h, r)
  {
    if Trues(releases) > 1 {
      var d, h, r := ReleasedAgain(holds, releases, counts);
    }
    if d: nat, h: nat, r: nat :| ReleasedTwice(holds, releases, d, h, r) {
      TrueCounted(releases[..r], d);
      TrueCounted(releases, r);
    }
  }

  /** A run with one component on one thread, where nothing ends. */
  function Alone(state: bv8, pending: Pending, count: nat, endTime: nat, queued: multiset<nat>,
                 drops: seq<nat>): System {
    System([Component(0, state, pending)], ExitState(true, count, [count], endTime, queued, multiset{}, None), drops)
  }

  const HELD: bv8 := PRIMARY | DO_NOT_END_SIM
  const RELEASED: bv8 := PRIMARY | OK_TO_END_SIM

  lemma AloneSteps(state: bv8, now: nat, endTime: nat, queued: multiset<nat>, drops: seq<nat>)
    requires state == PRIMARY || state == RELEASED
    ensures Next(Alone(0, Settled, 0, endTime, queued, drops), Registers(0))
            == Some(Alone(PRIMARY, Settled, 0, endTime, queued, drops))
    ensures Next(Alone(state, Settled, 0, endTime, queued, drops), HoldsEnd(0))
            == Some(Alone(HELD, ToIncrement, 0, endTime, queued, drops))
    ensures endTime <= now ==>
              Next(Alone(HELD, ToIncrement, 0, endTime, queued, drops), Counts(0, now, false))
              == Some(Alone(HELD, Settled, 1, endTime, queued, drops))
    ensures Next(Alone(HELD, Settled, 1, endTime, queued, drops), ReleasesEnd(0))
            == Some(Alone(RELEASED, ToDecrement, 1, endTime, queued, drops))
    ensures endTime <= now ==>
              Next(Alone(RELEASED, ToDecrement, 1, endTime, queued, drops), Counts(0, now, false))
              == Some(Alone(RELEASED, Settled, 0, now, queued + multiset{now + 1}, drops + [now]))
  {
    assert forall x: Component, y: Component :: [x][0 := y] == [y];
    assert forall x: nat, y: nat :: [x][0 := y] == [y];
  }

  lemma RunExtended(threads: seq<nat>, actions: seq<Action>, states: seq<System>, a: Action, next: System)
    requires Run(threads, 1, true, actions, states)
    requires OnThreads(states[|actions|]) && Allowed(states[|actions|], a) && Next(states[|actions|], a) == Some(next)
    ensures Run(threads, 1, true, actions + [a], states + [next])
  {
  }

  /** The component holds the end, and releases it. */
  lemma HoldAndRelease(actions: seq<Action>, states: seq<System>, state: bv8, now: nat, endTime: nat,
                       queued: multiset<nat>, drops: seq<nat>) returns (actions': seq<Action>, states': seq<System>)
    requires Run([0], 1, true, actions, states) && (state == PRIMARY || state == RELEASED) && endTime <= now
    requires states[|actions|] == Alone(state, Settled, 0, endTime, queued, drops)
    ensures Run([0], 1, true, actions', states')
    ensures states'[|actions'|] == Alone(RELEASED, Settled, 0, now, queued + multiset{now + 1}, drops + [now])
  {
    var s1 := Alone(HELD, ToIncrement, 0, endTime, queued, drops);
    var s2 := Alone(HELD, Settled, 1, endTime, queued, drops);
    var s3 := Alone(RELEASED, ToDecrement, 1, endTime, queued, drops);
    var s4 := Alone(RELEASED, Settled, 0, now, queued + multiset{now + 1}, drops + [now]);
    AloneSteps(state, now, endTime, queued, drops);
    RunExtended([0], actions, states, HoldsEnd(0), s1);
    actions', states' := actions + [HoldsEnd(0)], states + [s1];
    RunExtended([0], actions', states', Counts(0, now, false), s2);
    actions', states' := actions' + [Counts(0, now, false)], states' + [s2];
    RunExtended([0], actions', states', ReleasesEnd(0), s3);
    actions', states' := actions' + [ReleasesEnd(0)], states' + [s3];
    RunExtended([0], actions', states', Counts(0, now, false), s4);
    actions', states' := actions' + [Counts(0, now, false)], states' + [s4];
  }

  /** A run in which Exit is put into the queue twice: the end is held again before the check is made. */
  lemma QueuedTwice(now: nat, later: nat) returns (actions: seq<Action>, states: seq<System>)
    requires now <= later
    ensures Run([0], 1, true, actions, states)
    ensures states[|actions|].exit.queued == multiset{now + 1, later + 1} && Insertions(states, |actions|) == 2
  {
    var s0, s1 := Init([0], 1, true), Alone(PRIMARY, Settled, 0, 0, multiset{}, []);
    assert s0 == Alone(0, Settled, 0, 0, multiset{}, []);
    AloneSteps(PRIMARY, 0, 0, multiset{}, []);
    RunExtended([0], [], [s0], Registers(0), s1);
    actions, states := HoldAndRelease([] + [Registers(0)], [s0] + [s1], PRIMARY, now, 0, multiset{}, []);
    assert multiset{} + multiset{now + 1} == multiset{now + 1} && [] + [now] == [now];
    actions, states := HoldAndRelease(actions, states, RELEASED, later, now, multiset{now + 1}, [now]);
    QueuedOncePerDrop([0], actions, states, |actions|);
  }

  /**
   * With one thread, the run is to end when the count last dropped to 0, and nothing is queued
   * before the first time.
   */
  lemma {:induction false} LastDrop(threads: seq<nat>, actions: seq<Action>, states: seq<System>, k: nat)
    requires Run(threads, 1, true, actions, states) && k < |states|
    ensures OneThread(states[k].exit)
    ensures var s := states[k];
            if s.drops == [] then s.exit.queued == multiset{} else s.exit.endTime == s.drops[|s.drops| - 1]
    decreases k
  {
    if k > 0 {
      LastDrop(threads, actions, states, k - 1);
      RunInv(threads, 1, true, actions, states, k - 1);
      LastDropKept(states[k - 1], actions[k - 1]);
    }
  }

  lemma LastDropKept(s: System, a: Action)
    requires Inv(s) && OnThreads(s) && OneThread(s.exit) && Allowed(s, a)
    requires if s.drops == [] then s.exit.queued == multiset{} else s.exit.endTime == s.drops[|s.drops| - 1]
    ensures Next(s, a).Some? && OneThread(Next(s, a).value.exit)
    ensures var s' := Next(s, a).value;
            if s'.drops == [] then s'.exit.queued == multiset{} else s'.exit.endTime == s'.drops[|s'.drops| - 1]
  {
    StepKeeps(s, a);
    if a.Counts? {
      OnlyThread(s, a.i);
      ZeroIfAllZero(Next(s, a).value.exit.threadCounts, 0);
    }
  }

  /**
   * However often it is queued, every check of a run finds something that holds up the end and
   * changes nothing, or ends the run at the time of the last drop.
   */
  lemma EachCheck(threads: seq<nat>, actions: seq<Action>, states: seq<System>, k: nat)
    requires Run(threads, 1, true, actions, states) && k < |actions| && actions[k].FiresQueued?
    ensures var s, s' := states[k], states[k + 1];
            && s.drops != [] && s'.comps == s.comps && s'.drops == s.drops
            && s'.exit == s.exit.(queued := s.exit.queued - multiset{actions[k].time},
                                  ended := if s.exit.refCount > 0 then s.exit.ended else Some(s.drops[|s.drops| - 1]))
  {
    LastDrop(threads, actions, states, k);
  }

  /** A check after another changes nothing any more, if nothing has been counted in between. */
  lemma SecondCheckChangesNothing(threads: seq<nat>, actions: seq<Action>, states: seq<System>, i: nat, j: nat)
    requires Run(threads, 1, true, actions, states) && i < j < |actions|
    requires actions[i].FiresQueued? && actions[j].FiresQueued?
    requires forall k :: i < k < j ==> !actions[k].Counts?
    ensures states[j + 1]
            == states[j].(exit := states[j].exit.(queued := states[j].exit.queued - multiset{actions[j].time}))
  {
    NothingCounted(threads, actions, states, i, j);
  }

  lemma {:induction false} NothingCounted(threads: seq<nat>, actions: seq<Action>, states: seq<System>, i: nat, j: nat)
    requires Run(threads, 1, true, actions, states) && i < j <= |actions| && actions[i].FiresQueued?
    requires forall k :: i < k < j ==> !actions[k].Counts?
    ensures states[j].exit.refCount == 0 ==> states[j].exit.ended == Some(states[j].exit.endTime)
    decreases j
  {
    if j > i + 1 {
      NothingCounted(threads, actions, states, i, j - 1);
    }
  }
}
