/**
 * Progress of the link-ID exchange (main.cc), whatever links the ranks have loaded: no run
 * comes to a state in which some rank still waits and none can go on, and every run ends.
 */
module ExchangeProgress {
  import opened ExchangeSteps
  import opened LinkExchange
  import opened Schedule
  import opened Wrappers

  // ------------------------------------------------ what does not depend on names

  ghost predicate NodeShape(t: Table, s: State, r: nat)
    requires s.Running? && |s.nodes| == |t| && r < |t|
  {
    var n, x := |t|, s.nodes[r];
    && 1 <= x.iter <= Rounds(n) + 1 && (x.iter == Rounds(n) + 1 ==> x.phase == Ready)
    && SameLabels(t[r], x.links) && (x.phase.Got? ==> RecvFrom(n, r, x.iter).Some?)
  }

  /** A message is under way from a to b exactly if a has sent it and b has not matched it. */
  ghost predicate ChannelShape(t: Table, s: State, a: nat, b: nat)
    requires s.Running? && |s.nodes| == |t| && a < |t| && b < |t|
  {
    match Slot(|t|, a, b)
    case None => Channel(s, a, b) == []
    case Some(k) =>
      && (HasMatched(s, b, k) ==> HasPosted(s, a, k))
      && |Channel(s, a, b)| == if HasPosted(s, a, k) && !HasMatched(s, b, k) then 1 else 0
  }

  ghost predicate Shape(t: Table, s: State) {
    s.Running? ==>
      && |s.nodes| == |t|
      && (forall r :: 0 <= r < |t| ==> NodeShape(t, s, r))
      && forall a, b :: 0 <= a < |t| && 0 <= b < |t| ==> ChannelShape(t, s, a, b)
  }

  lemma InitShape(t: Table)
    ensures Shape(t, Init(t))
  {
    var s := Init(t);
    forall r | 0 <= r < |t| ensures NodeShape(t, s, r) { }
    forall a, b | 0 <= a < |t| && 0 <= b < |t| ensures ChannelShape(t, s, a, b) { EveryPairOnce(|t|, a, b); }
  }

  lemma UntouchedShape(t: Table, s: State, s': State, a: nat, b: nat)
    requires s.Running? && s'.Running? && |s.nodes| == |s'.nodes| == |t|
    requires a < |t| && b < |t| && ChannelShape(t, s, a, b) && Channel(s', a, b) == Channel(s, a, b)
    requires Slot(|t|, a, b).Some? ==>
               var k := Slot(|t|, a, b).value;
               (HasPosted(s', a, k) <==> HasPosted(s, a, k)) && (HasMatched(s', b, k) <==> HasMatched(s, b, k))
    ensures ChannelShape(t, s', a, b)
  {
  }

  lemma PostShape(t: Table, s: State, s': State, r: nat)
    requires s.Running? && Shape(t, s) && Post(s, s', r)
    ensures Shape(t, s')
  {
    var n, x := |t|, s.nodes[r];
    assert NodeShape(t, s, r);
    forall q | 0 <= q < n ensures NodeShape(t, s', q) { assert NodeShape(t, s, q); }
    forall a, b | 0 <= a < n && 0 <= b < n ensures ChannelShape(t, s', a, b) {
      SlotInvertsSchedule(n, r, b, x.iter);
      EveryPairOnce(n, a, b);
      assert ChannelShape(t, s, a, b);
      if a == r && SendTo(n, r, x.iter) == Some(b) {
        assert |Channel(s', r, b)| == |Channel(s, r, b)| + 1;
      } else {
        UntouchedShape(t, s, s', a, b);
      }
    }
  }

  lemma MatchShape(t: Table, s: State, s': State, r: nat)
    requires s.Running? && Shape(t, s) && Match(s, s', r)
    ensures Shape(t, s')
  {
    var n, x := |t|, s.nodes[r];
    assert NodeShape(t, s, r);
    var p := RecvFrom(n, r, x.iter).value;
    SlotInvertsSchedule(n, p, r, x.iter);
    assert ChannelShape(t, s, p, r);
    forall q | 0 <= q < n ensures NodeShape(t, s', q) { assert NodeShape(t, s, q); }
    forall a, b | 0 <= a < n && 0 <= b < n ensures ChannelShape(t, s', a, b) {
      SlotInvertsSchedule(n, a, r, x.iter);
      EveryPairOnce(n, a, b);
      if a != p || b != r {
        assert ChannelShape(t, s, a, b);
        UntouchedShape(t, s, s', a, b);
      }
    }
  }

  /** Reconciling changes IDs only. */
  lemma ReconciledLabels(x: seq<Link>, links: seq<Link>, from: nat, msg: seq<Entry>)
    requires SameLabels(x, links) && Reconciled(links, from, msg).Ok?
    ensures SameLabels(x, Reconciled(links, from, msg).value)
  {
    WalkSucceeds(links, from, WalkStart(links, from), msg);
  }

  /** A rank that has nothing to receive goes on with what it holds. */
  lemma FinishWithout(s: State, s': State, r: nat, buffered: bool)
    requires s.Running? && r < |s.nodes| && s.nodes[r].iter <= Rounds(|s.nodes|)
    requires RecvFrom(|s.nodes|, r, s.nodes[r].iter) == None
    ensures Finish(s, s', r, buffered) <==>
              && (buffered || SendDone(s, r)) && s.nodes[r].phase == Posted
              && s' == Running(s.nodes[r := Node(s.nodes[r].iter + 1, Ready, s.nodes[r].links)], s.channels)
  {
  }

  /** A rank whose message reconciles goes on with the outcome. */
  lemma FinishWith(s: State, s': State, r: nat, buffered: bool, p: nat, links: seq<Link>)
    requires s.Running? && r < |s.nodes| && s.nodes[r].iter <= Rounds(|s.nodes|)
    requires RecvFrom(|s.nodes|, r, s.nodes[r].iter) == Some(p)
    requires s.nodes[r].phase.Got? ==> Reconciled(s.nodes[r].links, p, s.nodes[r].phase.msg) == Ok(links)
    ensures Finish(s, s', r, buffered) <==>
              && (buffered || SendDone(s, r)) && s.nodes[r].phase.Got?
              && s' == Running(s.nodes[r := Node(s.nodes[r].iter + 1, Ready, links)], s.channels)
  {
  }

  /** Rank r goes on from iteration k to the next. */
  ghost predicate GoesOn(t: Table, s: State, s': State, r: nat, k: nat, links: seq<Link>)
    requires s.Running? && |s.nodes| == |t| && r < |t|
  {
    && 1 <= k == s.nodes[r].iter <= Rounds(|t|) && s.nodes[r].phase != Ready
    && (RecvFrom(|t|, r, k).Some? ==> s.nodes[r].phase.Got?)
    && s' == Running(s.nodes[r := Node(k + 1, Ready, links)], s.channels)
  }

  /** Finishing an iteration aborts, or goes on with the same links but for their IDs. */
  lemma FinishGoesOn(t: Table, s: State, s': State, r: nat, k: nat) returns (links: seq<Link>)
    requires s.Running? && |s.nodes| == |t| && r < |t| && NodeShape(t, s, r) && Finish(s, s', r, true)
    requires k == s.nodes[r].iter
    ensures s'.Running? ==> GoesOn(t, s, s', r, k, links) && SameLabels(t[r], links)
  {
    var x := s.nodes[r];
    links := x.links;
    match RecvFrom(|t|, r, k)
    case None => FinishWithout(s, s', r, true);
    case Some(p) =>
      if Reconciled(x.links, p, x.phase.msg).Ok? {
        links := Reconciled(x.links, p, x.phase.msg).value;
        ReconciledLabels(t[r], x.links, p, x.phase.msg);
        FinishWith(s, s', r, true, p, links);
      }
  }

  lemma GoesOnShape(t: Table, s: State, s': State, r: nat, k: nat, links: seq<Link>)
    requires s.Running? && Shape(t, s) && r < |t| && GoesOn(t, s, s', r, k, links) && SameLabels(t[r], links)
    ensures Shape(t, s')
  {
    forall q | 0 <= q < |t| ensures NodeShape(t, s', q) { assert NodeShape(t, s, q); }
    forall a, b | 0 <= a < |t| && 0 <= b < |t| ensures ChannelShape(t, s', a, b) {
      assert ChannelShape(t, s, a, b);
      SlotInvertsSchedule(|t|, a, r, k);
      EveryPairOnce(|t|, a, b);
      UntouchedShape(t, s, s', a, b);
    }
  }

  lemma {:induction false} RunShape(t: Table, run: seq<State>, k: nat)
    requires Run(t, run) && k < |run|
    ensures Shape(t, run[k])
    decreases k
  {
    if k == 0 {
      InitShape(t);
    } else {
      RunShape(t, run, k - 1);
      var s, s' := run[k - 1], run[k];
      assert Step(s, s');
      var r: nat :| Post(s, s', r) || Match(s, s', r) || Finish(s, s', r, true);
      if Post(s, s', r) {
        PostShape(t, s, s', r);
      } else if Match(s, s', r) {
        MatchShape(t, s, s', r);
      } else if s'.Running? {
        assert NodeShape(t, s, r);
        var links := FinishGoesOn(t, s, s', r, s.nodes[r].iter);
        GoesOnShape(t, s, s', r, s.nodes[r].iter, links);
      }
    }
  }

  // ------------------------------------------------ no deadlock

  /** A rank that no other rank is behind. */
  lemma {:induction false} Hindmost(nodes: seq<Node>) returns (r: nat)
    requires |nodes| > 0
    ensures r < |nodes| && forall q :: 0 <= q < |nodes| ==> nodes[r].iter <= nodes[q].iter
  {
    if |nodes| == 1 {
      r := 0;
    } else {
      var q := Hindmost(nodes[1..]);
      assert forall i :: 1 <= i < |nodes| ==> nodes[i] == nodes[1..][i - 1];
      r := if nodes[0].iter <= nodes[q + 1].iter then 0 else q + 1;
    }
  }

  /**
   * No deadlock: in every state of a run in which some rank is not done, some rank can step,
   * even if no message is ever buffered.
   */
  lemma NeverStuck(t: Table, s: State)
    requires AllSorted(t) && s.Running? && Shape(t, s) && !AllDone(s)
    ensures exists s' :: UnbufferedStep(s, s')
  {
    var r := Hindmost(s.nodes);
    var x := s.nodes[r];
    assert NodeShape(t, s, r);
    if x.phase == Ready {
      CanPost(t, s, r);
    } else if x.phase.Got? {
      CanFinishOrUnblock(t, s, r);
    } else {
      match RecvFrom(|t|, r, x.iter) {
        case None => CanFinishOrUnblock(t, s, r);
        case Some(p) => CanMatchOrUnblock(t, s, r, p);
      }
    }
  }

  lemma CanPost(t: Table, s: State, r: nat)
    requires AllSorted(t) && s.Running? && Shape(t, s) && r < |t|
    requires s.nodes[r].phase == Ready && s.nodes[r].iter <= Rounds(|t|)
    ensures exists s' :: UnbufferedStep(s, s')
  {
    assert NodeShape(t, s, r) && RankSorted(t, r);
    var to := SendTo(|t|, r, s.nodes[r].iter);
    if to.Some? {
      SameOrder(t[r], s.nodes[r].links, to.value);
      BlockAtLower(t[r], to.value);
    }
    PostTo(s, r, to);
  }

  lemma PostTo(s: State, r: nat, to: Option<nat>)
    requires s.Running? && r < |s.nodes| && s.nodes[r].phase == Ready && s.nodes[r].iter <= Rounds(|s.nodes|)
    requires to == SendTo(|s.nodes|, r, s.nodes[r].iter) && (to.Some? ==> Count(s.nodes[r].links, to.value) >= 0)
    ensures exists s' :: UnbufferedStep(s, s')
  {
    var x := s.nodes[r];
    var nodes := s.nodes[r := x.(phase := Posted)];
    var s' := Running(nodes, if to.None? then s.channels
                             else s.channels[(r, to.value) := Channel(s, r, to.value) + [Outgoing(x.links, to.value)]]);
    assert Post(s, s', r) && UnbufferedStep(s, s');
  }

  lemma CanMatchOrUnblock(t: Table, s: State, r: nat, p: nat)
    requires AllSorted(t) && s.Running? && Shape(t, s) && r < |t|
    requires s.nodes[r].phase == Posted && s.nodes[r].iter <= Rounds(|t|)
    requires RecvFrom(|t|, r, s.nodes[r].iter) == Some(p) && s.nodes[r].iter <= s.nodes[p].iter
    ensures exists s' :: UnbufferedStep(s, s')
  {
    var n, k := |t|, s.nodes[r].iter;
    assert NodeShape(t, s, r) && NodeShape(t, s, p);
    SlotInvertsSchedule(n, p, r, k);
    assert ChannelShape(t, s, p, r);
    if HasPosted(s, p, k) {
      var s' := Running(s.nodes[r := s.nodes[r].(phase := Got(Channel(s, p, r)[0]))],
                        s.channels[(p, r) := Channel(s, p, r)[1..]]);
      assert Match(s, s', r) && UnbufferedStep(s, s');
    } else {
      CanPost(t, s, p);
    }
  }

  lemma CanFinishOrUnblock(t: Table, s: State, r: nat)
    requires AllSorted(t) && s.Running? && Shape(t, s) && r < |t| && s.nodes[r].iter <= Rounds(|t|)
    requires forall q :: 0 <= q < |t| ==> s.nodes[r].iter <= s.nodes[q].iter
    requires s.nodes[r].phase.Got? || (s.nodes[r].phase == Posted && RecvFrom(|t|, r, s.nodes[r].iter) == None)
    ensures exists s' :: UnbufferedStep(s, s')
  {
    var n, x := |t|, s.nodes[r];
    assert NodeShape(t, s, r);
    if SendDone(s, r) {
      FinishTo(s, n, r, x.iter);
    } else {
      var d := SendTo(n, r, x.iter).value;
      SlotInvertsSchedule(n, r, d, x.iter);
      assert ChannelShape(t, s, r, d) && NodeShape(t, s, d);
      if s.nodes[d].phase == Ready {
        CanPost(t, s, d);
      } else {
        CanMatchOrUnblock(t, s, d, r);
      }
    }
  }

  /** A rank that waits for nothing finishes its iteration, or aborts the job. */
  lemma FinishTo(s: State, n: nat, r: nat, k: nat)
    requires s.Running? && r < |s.nodes| == n && 1 <= k == s.nodes[r].iter <= Rounds(n) && SendDone(s, r)
    requires if RecvFrom(n, r, k).None? then s.nodes[r].phase == Posted else s.nodes[r].phase.Got?
    ensures exists s' :: UnbufferedStep(s, s')
  {
    var x := s.nodes[r];
    match RecvFrom(n, r, k)
    case None => StepWithout(s, Running(s.nodes[r := Node(k + 1, Ready, x.links)], s.channels), r);
    case Some(p) =>
      match Reconciled(x.links, p, x.phase.msg)
      case Ok(links) => StepWith(s, Running(s.nodes[r := Node(k + 1, Ready, links)], s.channels), r, p, links);
      case Err(e) => assert Finish(s, Aborted(e), r, false) && UnbufferedStep(s, Aborted(e));
  }

  lemma StepWithout(s: State, s': State, r: nat)
    requires s.Running? && r < |s.nodes| && s.nodes[r].iter <= Rounds(|s.nodes|) && SendDone(s, r)
    requires RecvFrom(|s.nodes|, r, s.nodes[r].iter) == None && s.nodes[r].phase == Posted
    requires s' == Running(s.nodes[r := Node(s.nodes[r].iter + 1, Ready, s.nodes[r].links)], s.channels)
    ensures UnbufferedStep(s, s')
  {
    FinishWithout(s, s', r, false);
  }

  lemma StepWith(s: State, s': State, r: nat, p: nat, links: seq<Link>)
    requires s.Running? && r < |s.nodes| && s.nodes[r].iter <= Rounds(|s.nodes|) && SendDone(s, r)
    requires RecvFrom(|s.nodes|, r, s.nodes[r].iter) == Some(p) && s.nodes[r].phase.Got?
    requires Reconciled(s.nodes[r].links, p, s.nodes[r].phase.msg) == Ok(links)
    requires s' == Running(s.nodes[r := Node(s.nodes[r].iter + 1, Ready, links)], s.channels)
    ensures UnbufferedStep(s, s')
  {
    FinishWith(s, s', r, false, p, links);
  }

  // ------------------------------------------------ every run ends

  /** How far a rank is in its loop. */
  function Progress(x: Node): nat {
    3 * x.iter + match x.phase case Ready => 0 case Posted => 1 case Got(_) => 2
  }

  function TotalProgress(nodes: seq<Node>): nat {
    if |nodes| == 0 then 0 else Progress(nodes[0]) + TotalProgress(nodes[1..])
  }

  lemma {:induction false} ProgressOfUpdate(nodes: seq<Node>, r: nat, x: Node)
    requires r < |nodes|
    ensures TotalProgress(nodes[r := x]) == TotalProgress(nodes) - Progress(nodes[r]) + Progress(x)
  {
    if r > 0 {
      ProgressOfUpdate(nodes[1..], r - 1, x);
      assert nodes[r := x][1..] == nodes[1..][r - 1 := x];
    } else {
      assert nodes[r := x][1..] == nodes[1..];
    }
  }

  lemma {:induction false} ProgressBound(nodes: seq<Node>, bound: nat)
    requires forall r :: 0 <= r < |nodes| ==> Progress(nodes[r]) <= bound
    ensures TotalProgress(nodes) <= |nodes| * bound
  {
    if |nodes| > 0 {
      assert forall r :: 0 <= r < |nodes[1..]| ==> nodes[1..][r] == nodes[r + 1];
      ProgressBound(nodes[1..], bound);
      assert |nodes| * bound == (|nodes| - 1) * bound + bound;
    }
  }

  /** Posting and matching get the rank further. */
  lemma PostOrMatchMoves(s: State, s': State, r: nat)
    requires s.Running? && (Post(s, s', r) || Match(s, s', r))
    ensures s'.Running? && r < |s.nodes| == |s'.nodes|
    ensures s'.nodes == s.nodes[r := s'.nodes[r]] && Progress(s'.nodes[r]) > Progress(s.nodes[r])
  {
  }

  /** Every step aborts the job or gets some rank further. */
  lemma StepProgresses(t: Table, s: State, s': State)
    requires s.Running? && Shape(t, s) && Step(s, s') && s'.Running?
    ensures TotalProgress(s'.nodes) > TotalProgress(s.nodes)
  {
    var r: nat :| Post(s, s', r) || Match(s, s', r) || Finish(s, s', r, true);
    if Finish(s, s', r, true) {
      assert NodeShape(t, s, r);
      var links := FinishGoesOn(t, s, s', r, s.nodes[r].iter);
    } else {
      PostOrMatchMoves(s, s', r);
    }
    ProgressOfUpdate(s.nodes, r, s'.nodes[r]);
  }

  /** Every run is short: after that many steps, the job has been aborted or all ranks have left the loop. */
  lemma RunsAreBounded(t: Table, run: seq<State>)
    requires Run(t, run)
    ensures |run| <= |t| * (3 * Rounds(|t|) + 3) + if run[|run| - 1].Running? then 1 else 2
  {
    if run[|run| - 1].Running? {
      RunningBound(t, run, |run| - 1);
    } else {
      assert Step(run[|run| - 2], run[|run| - 1]);
      RunningBound(t, run, |run| - 2);
    }
  }

  lemma RunningBound(t: Table, run: seq<State>, k: nat)
    requires Run(t, run) && k < |run| && run[k].Running?
    ensures k <= |t| * (3 * Rounds(|t|) + 3)
  {
    RunProgress(t, run, k);
    RunShape(t, run, k);
    var s := run[k];
    forall r | 0 <= r < |t| ensures Progress(s.nodes[r]) <= 3 * Rounds(|t|) + 3 { assert NodeShape(t, s, r); }
    ProgressBound(s.nodes, 3 * Rounds(|t|) + 3);
  }

  lemma {:induction false} RunProgress(t: Table, run: seq<State>, k: nat)
    requires Run(t, run) && k < |run| && run[k].Running?
    ensures TotalProgress(run[k].nodes) >= k
    decreases k
  {
    if k > 0 {
      StepOfRun(t, run, k - 1, k);
      RunProgress(t, run, k - 1);
      RunShape(t, run, k - 1);
      StepProgresses(t, run[k - 1], run[k]);
    }
  }

  lemma StepOfRun(t: Table, run: seq<State>, i: nat, k: nat)
    requires Run(t, run) && k == i + 1 < |run|
    ensures Step(run[i], run[k]) && run[i].Running?
  {
  }

  /** A run that cannot go on has aborted, or all ranks are done. */
  lemma StuckIsOver(t: Table, run: seq<State>)
    requires AllSorted(t) && Run(t, run) && Stuck(run[|run| - 1])
    ensures run[|run| - 1].Aborted? || AllDone(run[|run| - 1])
  {
    var s := run[|run| - 1];
    RunShape(t, run, |run| - 1);
    if s.Running? && !AllDone(s) {
      NeverStuck(t, s);
      var s' :| UnbufferedStep(s, s');
      UnbufferedIsStep(s, s');
    }
  }
}
