/**
 * The link-ID exchange between all ranks, step by step (main.cc). Ranks run their loops
 * asynchronously; a send completes when its receiver has matched it, or earlier if the
 * message was buffered. The size and the data message of one send form one entry of the
 * channel from sender to receiver.
 */
module ExchangeSteps {
  import opened LinkExchange
  import opened Schedule
  import opened Wrappers

  /** The link vectors of all ranks. */
  type Table = seq<seq<Link>>

  /** Ready: at the loop head. Posted: sends issued. Got: the receive has been matched. */
  datatype Phase = Ready | Posted | Got(msg: seq<Entry>)

  /** A rank: the iteration it is in, its place in the loop body, its links. */
  datatype Node = Node(iter: nat, phase: Phase, links: seq<Link>)

  datatype State = Running(nodes: seq<Node>, channels: map<(nat, nat), seq<seq<Entry>>>) | Aborted(error: Error)

  /** Messages sent from a to b and not yet matched. */
  function Channel(s: State, a: nat, b: nat): seq<seq<Entry>>
    requires s.Running?
  {
    if (a, b) in s.channels then s.channels[(a, b)] else []
  }

  // ------------------------------------------------ order and labels

  ghost predicate RankSorted(t: Table, r: nat)
    requires r < |t|
  {
    Sorted(t[r])
  }

  ghost predicate AllSorted(t: Table) {
    forall r :: 0 <= r < |t| ==> RankSorted(t, r)
  }

  /** The same links but for their IDs. */
  ghost predicate SameLabels(x: seq<Link>, y: seq<Link>) {
    |x| == |y| && forall i :: 0 <= i < |x| ==> y[i].remote == x[i].remote && y[i].name == x[i].name
  }

  lemma {:induction false} SameLower(x: seq<Link>, y: seq<Link>, rank: nat)
    requires |x| == |y| && forall i :: 0 <= i < |x| ==> x[i].remote == y[i].remote
    ensures Lower(x, rank) == Lower(y, rank)
  {
  }

  /** IDs play no part in the order. */
  lemma SameOrder(x: seq<Link>, y: seq<Link>, p: nat)
    requires Sorted(x) && |x| == |y| && forall i :: 0 <= i < |x| ==>
               y[i].remote == x[i].remote
               && y[i].name == x[i].name
    ensures Sorted(y) && Lower(y, p) == Lower(x, p) && Count(y, p) == Count(x, p)
  {
    SameLower(x, y, p);
    SameLower(x, y, p + 1);
  }

  // ------------------------------------------------ steps

  function Init(t: Table): State {
    Running(seq(|t|, r requires 0 <= r < |t| => Node(1, Ready, t[r])), map[])
  }

  /** A rank issues its send for the iteration, if it has one. */
  ghost predicate Post(s: State, s': State, r: nat)
    requires s.Running?
  {
    var n := |s.nodes|;
    && r < n && s.nodes[r].phase == Ready && s.nodes[r].iter <= Rounds(n)
    && var x := s.nodes[r];
       match SendTo(n, r, x.iter)
       case None =>
         s' == Running(s.nodes[r := x.(phase := Posted)], s.channels)
       case Some(d) =>
         && Count(x.links, d) >= 0
         && s' == Running(s.nodes[r := x.(phase := Posted)],
                          s.channels[(r, d) := Channel(s, r, d) + [Outgoing(x.links, d)]])
  }

  /** A rank matches the first message of the channel it receives from. */
  ghost predicate Match(s: State, s': State, r: nat)
    requires s.Running?
  {
    var n := |s.nodes|;
    && r < n && s.nodes[r].phase == Posted && s.nodes[r].iter <= Rounds(n)
    && match RecvFrom(n, r, s.nodes[r].iter)
       case None => false
       case Some(p) =>
         && |Channel(s, p, r)| > 0
         && s' == Running(s.nodes[r := s.nodes[r].(phase := Got(Channel(s, p, r)[0]))],
                          s.channels[(p, r) := Channel(s, p, r)[1..]])
  }

  /** The rank's own send of this iteration, if any, has been matched. */
  ghost predicate SendDone(s: State, r: nat)
    requires s.Running? && r < |s.nodes| && s.nodes[r].iter <= Rounds(|s.nodes|)
  {
    var n := |s.nodes|;
    SendTo(n, r, s.nodes[r].iter).Some? ==> Channel(s, r, SendTo(n, r, s.nodes[r].iter).value) == []
  }

  /** A rank waits for its requests, reconciles what it received, and goes on; errors are fatal. */
  ghost predicate Finish(s: State, s': State, r: nat, buffered: bool)
    requires s.Running?
  {
    var n := |s.nodes|;
    && r < n && s.nodes[r].iter <= Rounds(n)
    && (buffered || SendDone(s, r))
    && var x := s.nodes[r];
       match RecvFrom(n, r, x.iter)
       case None =>
         x.phase == Posted && s' == Running(s.nodes[r := Node(x.iter + 1, Ready, x.links)], s.channels)
       case Some(p) =>
         && x.phase.Got?
         && match Reconciled(x.links, p, x.phase.msg)
            case Ok(links) => s' == Running(s.nodes[r := Node(x.iter + 1, Ready, links)], s.channels)
            case Err(e) => s' == Aborted(e)
  }

  ghost predicate Step(s: State, s': State) {
    s.Running? && exists r: nat :: Post(s, s', r) || Match(s, s', r) || Finish(s, s', r, true)
  }

  /** A step that needs no buffering. */
  ghost predicate UnbufferedStep(s: State, s': State) {
    s.Running? && exists r: nat :: Post(s, s', r) || Match(s, s', r) || Finish(s, s', r, false)
  }

  ghost predicate Run(t: Table, run: seq<State>) {
    && |run| > 0 && run[0] == Init(t)
    && forall i :: 0 <= i < |run| - 1 ==> Step(run[i], run[i + 1])
  }

  // ------------------------------------------------ how far a run has come

  /** a has issued its send of iteration k. */
  predicate HasPosted(s: State, a: nat, k: nat)
    requires s.Running? && a < |s.nodes|
  {
    s.nodes[a].iter > k || (s.nodes[a].iter == k && s.nodes[a].phase != Ready)
  }

  /** b has matched its receive of iteration k. */
  predicate HasMatched(s: State, b: nat, k: nat)
    requires s.Running? && b < |s.nodes|
  {
    s.nodes[b].iter > k || (s.nodes[b].iter == k && s.nodes[b].phase.Got?)
  }

  ghost predicate AllDone(s: State) {
    s.Running? && forall r :: 0 <= r < |s.nodes| ==> s.nodes[r].iter > Rounds(|s.nodes|)
  }

  /** No rank can step. */
  ghost predicate Stuck(s: State) {
    !exists s' :: Step(s, s')
  }

  lemma UnbufferedIsStep(s: State, s': State)
    requires UnbufferedStep(s, s')
    ensures Step(s, s')
  {
    var r: nat :| Post(s, s', r) || Match(s, s', r) || Finish(s, s', r, false);
    if Finish(s, s', r, false) {
      assert Finish(s, s', r, true);
    }
  }
}
