/**
 * The distribution of the graph over all ranks (main.cc): the loop of one rank, and all
 * ranks running it at once, receiving from whichever source sends first.
 */
module GraphScatter {
  import opened GraphDistribution
  import opened Wrappers

  datatype Message = Message(src: nat, dest: nat, ranks: seq<nat>, graph: Graph)

  // ------------------------------------------------ one rank

  /** What a rank still has to send, and what it keeps. */
  datatype Outcome = Outcome(sent: seq<Message>, ranks: seq<nat>, graph: Graph)

  /** Sending the upper half away until only the first rank is left. */
  ghost function HandOut(g: Graph, n: nat, me: nat, hi: nat): (r: Outcome)
    requires Loaded(g, n) && me < hi <= n
    decreases hi
  {
    if hi - me == 1 then Outcome([], Interval(me, hi), Part(g, n, me, hi))
    else
      var mid := me + (hi - me) / 2;
      var rest := HandOut(g, n, me, mid);
      rest.(sent := [Message(me, mid, Interval(mid, hi), Part(g, n, mid, hi))] + rest.sent)
  }

  function Prepend(sent: seq<Message>, o: Outcome): Outcome {
    o.(sent := sent + o.sent)
  }

  /** The first half of an interval, and the rest. */
  lemma HalfIntervals(me: nat, mid: nat, top: nat, ranks: seq<nat>, half: nat)
    requires me <= mid < top && mid == me + half && ranks == Interval(me, top)
    ensures ranks[..half] == Interval(me, mid) && ranks[half..] == Interval(mid, top)
  {
  }

  /** One pass of the loop: the ranks and the graph in halves. */
  lemma Halve(g: Graph, n: nat, me: nat, mid: nat, top: nat, ranks: seq<nat>, graph: Graph, half: nat)
    requires Loaded(g, n) && me < top <= n && top - me > 1 && half == (top - me) / 2 && mid == me + half
    requires ranks == Interval(me, top) && graph == Part(g, n, me, top)
    ensures ranks[..half] == Interval(me, mid) && ranks[half..] == Interval(mid, top)
    ensures Closed(graph)
    ensures SplitGraph(graph, ranks[..half], ranks[half..]) == (Part(g, n, me, mid), Part(g, n, mid, top))
  {
    HalfIntervals(me, mid, top, ranks, half);
    SplitsIntoParts(g, n, me, mid, top);
  }

  /** What is still to be sent, with that message taken off. */
  lemma HandOutStep(g: Graph, n: nat, me: nat, mid: nat, top: nat, ranks: seq<nat>)
    requires Loaded(g, n) && me < top <= n && top - me > 1 && mid == me + (top - me) / 2 && ranks == Interval(mid, top)
    ensures HandOut(g, n, me, top)
            == Prepend([Message(me, mid, ranks, Part(g, n, mid, top))], HandOut(g, n, me, mid))
  {
  }

  lemma PrependTwice(a: seq<Message>, b: seq<Message>, o: Outcome)
    ensures Prepend(a, Prepend(b, o)) == Prepend(a + b, o)
  {
    assert a + (b + o.sent) == (a + b) + o.sent;
  }

  /** Splitting the rank space in half. */
  method SplitRanks(n: nat) returns (mine: seq<nat>, yours: seq<nat>)
    ensures mine == Interval(0, n)[..n / 2] && yours == Interval(0, n)[n / 2..]
  {
    mine, yours := [], [];
    for i := 0 to n / 2
      invariant mine == Interval(0, n)[..i]
    {
      mine := mine + [i];
    }
    for i := n / 2 to n
      invariant yours == Interval(0, n)[n / 2..i]
    {
      yours := yours + [i];
    }
  }

  /** Rank 0 splits the rank space and its graph before it enters the loop. */
  method FirstSplit(n: nat, whole: Graph) returns (mine: seq<nat>, ours: Graph, message: Message)
    requires n > 1 && Loaded(whole, n)
    ensures mine == Interval(0, n / 2) && ours == Part(whole, n, 0, n / 2)
    ensures HandOut(whole, n, 0, n) == Prepend([message], HandOut(whole, n, 0, n / 2))
  {
    var yours;
    mine, yours := SplitRanks(n);
    WholeIsPart(whole, n);
    Halve(whole, n, 0, n / 2, n, Interval(0, n), whole, n / 2);
    HandOutStep(whole, n, 0, n / 2, n, Interval(0, n)[n / 2..]);
    var (kept, theirs) := SplitGraph(whole, mine, yours);
    ours := kept;
    message := Message(0, yours[0], yours, theirs);
  }

  /** What rank `me` holds once it has sent `sent`: the ranks up to top and their part of the graph. */
  ghost predicate Holds(g: Graph, n: nat, me: nat, hi: nat, top: nat, sent: seq<Message>, ranks: seq<nat>, graph: Graph)
    requires Loaded(g, n)
  {
    && me < top <= hi <= n && ranks == Interval(me, top) && graph == Part(g, n, me, top)
    && HandOut(g, n, me, hi) == Prepend(sent, HandOut(g, n, me, top))
  }

  /** One pass of the loop. */
  method SendUpperHalf(n: nat, me: nat, ranks: seq<nat>, graph: Graph, ghost whole: Graph, ghost hi: nat,
                       ghost top: nat, ghost sent: seq<Message>)
    returns (message: Message, mine: seq<nat>, ours: Graph, ghost mid: nat)
    requires Loaded(whole, n) && Holds(whole, n, me, hi, top, sent, ranks, graph) && |ranks| > 1
    ensures Holds(whole, n, me, hi, mid, sent + [message], mine, ours) && |mine| < |ranks|
  {
    var half := |ranks| / 2;
    mid := me + half;
    Halve(whole, n, me, mid, top, ranks, graph, half);
    mine := ranks[..half];
    var yours := ranks[half..];
    var (kept, theirs) := SplitGraph(graph, mine, yours);
    ours := kept;
    message := Message(me, yours[0], yours, theirs);
    HandOutStep(whole, n, me, mid, top, yours);
    PrependTwice(sent, [message], HandOut(whole, n, me, mid));
  }

  /** A rank's part of the distribution: rank 0 starts with the whole graph, any other with what it received. */
  method Scatter(n: nat, me: nat, received: Option<(seq<nat>, Graph)>, whole: Graph, ghost hi: nat)
    returns (sent: seq<Message>, ranks: seq<nat>, graph: Graph)
    requires n > 1 && me < hi <= n && Loaded(whole, n)
    requires me == 0 ==> received == None && hi == n
    requires me > 0 ==> received == Some((Interval(me, hi), Part(whole, n, me, hi)))
    ensures Outcome(sent, ranks, graph) == HandOut(whole, n, me, hi)
    ensures ranks == [me] && graph == Part(whole, n, me, me + 1)
  {
    sent := [];
    ghost var top: nat := hi;
    if me == 0 {
      var message;
      ranks, graph, message := FirstSplit(n, whole);
      sent := [message];
      top := n / 2;
    } else {
      ranks, graph := received.value.0, received.value.1;
      StartsWith(whole, n, me, hi, ranks, graph);
    }
    while |ranks| != 1
      invariant Holds(whole, n, me, hi, top, sent, ranks, graph)
      decreases |ranks|
    {
      var message;
      message, ranks, graph, top := SendUpperHalf(n, me, ranks, graph, whole, hi, top, sent);
      sent := sent + [message];
    }
    EndsWith(whole, n, me, hi, top, sent, ranks, graph);
  }

  lemma StartsWith(g: Graph, n: nat, me: nat, hi: nat, ranks: seq<nat>, graph: Graph)
    requires Loaded(g, n) && me < hi <= n && ranks == Interval(me, hi) && graph == Part(g, n, me, hi)
    ensures Holds(g, n, me, hi, hi, [], ranks, graph)
  {
    assert [] + HandOut(g, n, me, hi).sent == HandOut(g, n, me, hi).sent;
  }

  lemma EndsWith(g: Graph, n: nat, me: nat, hi: nat, top: nat, sent: seq<Message>, ranks: seq<nat>, graph: Graph)
    requires Loaded(g, n) && Holds(g, n, me, hi, top, sent, ranks, graph) && |ranks| == 1
    ensures HandOut(g, n, me, hi) == Outcome(sent, ranks, graph) && ranks == [me] && graph == Part(g, n, me, me + 1)
  {
    assert sent + [] == sent;
  }

  lemma WholeIsPart(g: Graph, n: nat)
    requires Loaded(g, n)
    ensures Part(g, n, 0, n) == g
  {
    assert Part(g, n, 0, n).comps == g.comps;
    assert Part(g, n, 0, n).links == g.links;
  }

  // ------------------------------------------------ all ranks

  datatype Node = Awaiting | Holding(ranks: seq<nat>, graph: Graph)

  /** The ranks, the messages under way to each of them, and who has sent to whom so far. */
  datatype State = State(nodes: seq<Node>, mail: seq<seq<Message>>, log: seq<(nat, nat)>)

  function Init(g: Graph, n: nat): State
    requires n > 0
  {
    State(seq(n, r => if r == 0 then Holding(Interval(0, n), g) else Awaiting), seq(n, _ => []), [])
  }

  ghost predicate Shaped(s: State, n: nat) {
    |s.nodes| == n && |s.mail| == n
  }

  /** A rank that holds more than one part sends the upper half away. */
  ghost predicate Split(s: State, s': State, n: nat, r: nat)
    requires Shaped(s, n)
  {
    && r < n && s.nodes[r].Holding? && |s.nodes[r].ranks| > 1 && Closed(s.nodes[r].graph)
    && var ranks := s.nodes[r].ranks;
       var ours, theirs := ranks[..|ranks| / 2], ranks[|ranks| / 2..];
       var (kept, sub) := SplitGraph(s.nodes[r].graph, ours, theirs);
       var d := theirs[0];
       && d < n
       && s' == State(s.nodes[r := Holding(ours, kept)],
                      s.mail[d := s.mail[d] + [Message(r, d, theirs, sub)]],
                      s.log + [(r, d)])
  }

  /** A waiting rank receives some message that is under way to it. */
  ghost predicate Receive(s: State, s': State, n: nat, d: nat, i: nat)
    requires Shaped(s, n)
  {
    && d < n && s.nodes[d].Awaiting? && i < |s.mail[d]|
    && s' == State(s.nodes[d := Holding(s.mail[d][i].ranks, s.mail[d][i].graph)],
                   s.mail[d := s.mail[d][..i] + s.mail[d][i + 1..]],
                   s.log)
  }

  ghost predicate Step(s: State, s': State, n: nat) {
    && Shaped(s, n)
    && ((exists r: nat :: Split(s, s', n, r)) || (exists d: nat, i: nat :: Receive(s, s', n, d, i)))
  }

  ghost predicate Run(g: Graph, n: nat, run: seq<State>) {
    && n > 0 && |run| > 0 && run[0] == Init(g, n)
    && forall k :: 0 <= k < |run| - 1 ==> Step(run[k], run[k + 1], n)
  }

  // ------------------------------------------------ the invariant

  /** Rank d has been handed its part, even if the message has not been received yet. */
  predicate Served(s: State, d: nat)
    requires d < |s.nodes| == |s.mail|
  {
    s.nodes[d].Holding? || |s.mail[d]| > 0
  }

  /** The ranks rank d holds or is about to receive. */
  function RanksOf(s: State, d: nat): seq<nat>
    requires d < |s.nodes| == |s.mail| && Served(s, d)
  {
    if s.nodes[d].Holding? then s.nodes[d].ranks else s.mail[d][0].ranks
  }

  function GraphOf(s: State, d: nat): Graph
    requires d < |s.nodes| == |s.mail| && Served(s, d)
  {
    if s.nodes[d].Holding? then s.nodes[d].graph else s.mail[d][0].graph
  }

  /** Where the range of a served rank ends. */
  function End(s: State, d: nat): nat
    requires d < |s.nodes| == |s.mail| && Served(s, d)
  {
    d + |RanksOf(s, d)|
  }

  /**
   * A served rank has the range from itself up to the next served rank, or to the last rank,
   * and exactly that part of the graph. At most one message is ever under way to a rank.
   */
  ghost predicate NodeOk(g: Graph, n: nat, s: State, d: nat)
    requires Loaded(g, n) && Shaped(s, n) && d < n
  {
    && |s.mail[d]| <= 1
    && (s.nodes[d].Holding? ==> s.mail[d] == [])
    && (Served(s, d) ==>
          && d < End(s, d) <= n
          && RanksOf(s, d) == Interval(d, End(s, d))
          && GraphOf(s, d) == Part(g, n, d, End(s, d))
          && (End(s, d) < n ==> Served(s, End(s, d)))
          && forall e :: d < e < End(s, d) ==> !Served(s, e))
  }

  /** The receivers in the log are the served ranks other than 0, each once. */
  ghost predicate LogOk(n: nat, s: State)
    requires Shaped(s, n)
  {
    && (forall k :: 0 <= k < |s.log| ==> 0 < s.log[k].1 < n && s.log[k].0 < n && Served(s, s.log[k].1))
    && (forall d :: 0 < d < n && Served(s, d) ==> exists k :: 0 <= k < |s.log| && s.log[k].1 == d)
    && forall j, k :: 0 <= j < k < |s.log| ==> s.log[j].1 != s.log[k].1
  }

  ghost predicate Inv(g: Graph, n: nat, s: State)
    requires Loaded(g, n)
  {
    && n > 0 && Shaped(s, n) && Served(s, 0)
    && (forall d :: 0 <= d < n ==> NodeOk(g, n, s, d))
    && LogOk(n, s)
  }

  lemma InitInv(g: Graph, n: nat)
    requires Loaded(g, n) && n > 0
    ensures Inv(g, n, Init(g, n))
  {
    WholeIsPart(g, n);
  }

  lemma SplitKeeps(g: Graph, n: nat, s: State, s': State, r: nat)
    requires Loaded(g, n) && Inv(g, n, s) && Split(s, s', n, r)
    ensures Inv(g, n, s')
  {
    var hi := End(s, r);
    var ranks := s.nodes[r].ranks;
    var mid := r + |ranks| / 2;
    assert NodeOk(g, n, s, r);
    assert ranks[..|ranks| / 2] == Interval(r, mid) && ranks[|ranks| / 2..] == Interval(mid, hi);
    SplitsIntoParts(g, n, r, mid, hi);
    assert [] + [Message(r, mid, Interval(mid, hi), Part(g, n, mid, hi))]
           == [Message(r, mid, Interval(mid, hi), Part(g, n, mid, hi))];
    assert NodeOk(g, n, s, mid) && !Served(s, mid) && s.mail[mid] == [];
    forall d | 0 <= d < n ensures NodeOk(g, n, s', d) {
      SplitNodeOk(g, n, s, s', r, mid, hi, d);
    }
    SplitLogOk(n, s, s', r, mid);
  }

  /** The state after rank r has sent the ranks mid..hi to rank mid. */
  ghost predicate HandedOver(g: Graph, n: nat, s: State, s': State, r: nat, mid: nat, hi: nat)
    requires Loaded(g, n) && Shaped(s, n) && Shaped(s', n)
  {
    && r < mid < hi <= n && s.nodes[r].Holding? && hi == End(s, r) && !Served(s, mid)
    && s'.nodes == s.nodes[r := Holding(Interval(r, mid), Part(g, n, r, mid))]
    && s'.mail == s.mail[mid := [Message(r, mid, Interval(mid, hi), Part(g, n, mid, hi))]]
  }

  lemma SplitNodeOk(g: Graph, n: nat, s: State, s': State, r: nat, mid: nat, hi: nat, d: nat)
    requires Loaded(g, n) && Inv(g, n, s) && Shaped(s', n) && d < n && HandedOver(g, n, s, s', r, mid, hi)
    ensures NodeOk(g, n, s', d)
  {
    assert NodeOk(g, n, s, d) && NodeOk(g, n, s, r);
    if d == r || d == mid {
      assert Served(s', d) && End(s', r) == mid && End(s', mid) == hi;
      forall e | d < e < End(s', d) ensures !Served(s', e) { assert !Served(s, e); }
    } else {
      SplitOtherOk(g, n, s, s', r, mid, hi, d);
    }
  }

  lemma SplitOtherOk(g: Graph, n: nat, s: State, s': State, r: nat, mid: nat, hi: nat, d: nat)
    requires Loaded(g, n) && Inv(g, n, s) && Shaped(s', n) && d < n && HandedOver(g, n, s, s', r, mid, hi)
    requires d != r && d != mid
    ensures NodeOk(g, n, s', d)
  {
    assert NodeOk(g, n, s, d) && NodeOk(g, n, s, r);
    if Served(s', d) {
      assert Served(s, d) && !(r < d < hi) && End(s', d) == End(s, d);
      assert Served(s, r);
      assert !(d < mid < End(s, d));
      forall e | d < e < End(s', d) ensures !Served(s', e) { assert !Served(s, e); }
    }
  }

  lemma SplitLogOk(n: nat, s: State, s': State, r: nat, mid: nat)
    requires Shaped(s, n) && Shaped(s', n) && LogOk(n, s) && r < mid < n && !Served(s, mid)
    requires s'.log == s.log + [(r, mid)]
    requires forall d :: 0 <= d < n ==> (Served(s', d) <==> Served(s, d) || d == mid)
    ensures LogOk(n, s')
  {
    forall d | 0 < d < n && Served(s', d) ensures exists k :: 0 <= k < |s'.log| && s'.log[k].1 == d {
      if d == mid {
        assert s'.log[|s.log|].1 == d;
      } else {
        var k :| 0 <= k < |s.log| && s.log[k].1 == d;
        assert s'.log[k].1 == d;
      }
    }
  }

  lemma ReceiveKeeps(g: Graph, n: nat, s: State, s': State, d: nat, i: nat)
    requires Loaded(g, n) && Inv(g, n, s) && Receive(s, s', n, d, i)
    ensures Inv(g, n, s')
  {
    assert NodeOk(g, n, s, d);
    var m := s.mail[d][0];
    assert s'.mail[d] == [];
    forall e | 0 <= e < n ensures NodeOk(g, n, s', e) && (Served(s', e) <==> Served(s, e)) {
      assert NodeOk(g, n, s, e);
      if e == d {
        ReceivedOk(g, n, s, s', d, m);
      } else {
        BystanderOk(g, n, s, s', d, m, e);
      }
    }
  }

  /** The state after rank d has received the message m, the only one under way to it. */
  ghost predicate Delivered(n: nat, s: State, s': State, d: nat, m: Message)
    requires Shaped(s, n) && Shaped(s', n) && d < n
  {
    && s.nodes[d].Awaiting? && s.mail[d] == [m]
    && s'.nodes == s.nodes[d := Holding(m.ranks, m.graph)] && s'.mail == s.mail[d := []]
  }

  lemma DeliveredServes(n: nat, s: State, s': State, d: nat, m: Message, e: nat)
    requires Shaped(s, n) && Shaped(s', n) && d < n && e < n && Delivered(n, s, s', d, m)
    ensures Served(s', e) <==> Served(s, e)
    ensures Served(s, e) ==> RanksOf(s', e) == RanksOf(s, e) && GraphOf(s', e) == GraphOf(s, e)
  {
  }

  lemma ReceivedOk(g: Graph, n: nat, s: State, s': State, d: nat, m: Message)
    requires Loaded(g, n) && Shaped(s, n) && Shaped(s', n) && d < n && Delivered(n, s, s', d, m) && NodeOk(g, n, s, d)
    ensures NodeOk(g, n, s', d) && (Served(s', d) <==> Served(s, d))
  {
    forall e | 0 <= e < n ensures Served(s', e) <==> Served(s, e) { DeliveredServes(n, s, s', d, m, e); }
  }

  lemma BystanderOk(g: Graph, n: nat, s: State, s': State, d: nat, m: Message, e: nat)
    requires Loaded(g, n) && Shaped(s, n) && Shaped(s', n) && d < n && e < n && e != d
    requires Delivered(n, s, s', d, m) && NodeOk(g, n, s, e)
    ensures NodeOk(g, n, s', e) && (Served(s', e) <==> Served(s, e))
  {
    forall f | 0 <= f < n ensures Served(s', f) <==> Served(s, f) { DeliveredServes(n, s, s', d, m, f); }
  }

  lemma {:induction false} RunInv(g: Graph, n: nat, run: seq<State>, k: nat)
    requires Loaded(g, n) && Run(g, n, run) && k < |run|
    ensures Inv(g, n, run[k])
    decreases k
  {
    if k == 0 {
      InitInv(g, n);
    } else {
      RunInv(g, n, run, k - 1);
      var s, s' := run[k - 1], run[k];
      assert Step(s, s', n);
      if r: nat :| Split(s, s', n, r) {
        SplitKeeps(g, n, s, s', r);
      } else {
        var d: nat, i: nat :| Receive(s, s', n, d, i);
        ReceiveKeeps(g, n, s, s', d, i);
      }
    }
  }

  // ------------------------------------------------ the end of a run

  /** No rank can step. */
  ghost predicate Stuck(s: State, n: nat) {
    !exists s' :: Step(s, s', n)
  }

  /** A served rank that cannot step has received its part and has nothing left to send. */
  lemma StuckRankIsDone(g: Graph, n: nat, s: State, d: nat)
    requires Loaded(g, n) && Inv(g, n, s) && d < n && Served(s, d) && Stuck(s, n)
    ensures s.nodes[d] == Holding([d], Part(g, n, d, d + 1)) && (d + 1 < n ==> Served(s, d + 1))
  {
    assert NodeOk(g, n, s, d);
    if s.nodes[d].Awaiting? {
      var m := s.mail[d][0];
      var s' := State(s.nodes[d := Holding(m.ranks, m.graph)], s.mail[d := s.mail[d][..0] + s.mail[d][0 + 1..]], s.log);
      assert Receive(s, s', n, d, 0);
      assert Step(s, s', n);
    } else if |s.nodes[d].ranks| > 1 {
      CanSplit(g, n, s, d);
    }
  }

  lemma CanSplit(g: Graph, n: nat, s: State, r: nat)
    requires Loaded(g, n) && Inv(g, n, s) && r < n && s.nodes[r].Holding? && |s.nodes[r].ranks| > 1
    ensures exists s' :: Step(s, s', n)
  {
    assert NodeOk(g, n, s, r);
    PartIsClosed(g, n, r, End(s, r));
    var ranks := s.nodes[r].ranks;
    var ours, theirs := ranks[..|ranks| / 2], ranks[|ranks| / 2..];
    var (kept, sub) := SplitGraph(s.nodes[r].graph, ours, theirs);
    var d := theirs[0];
    var s' := State(s.nodes[r := Holding(ours, kept)], s.mail[d := s.mail[d] + [Message(r, d, theirs, sub)]],
      s.log + [(r, d)]);
    assert Split(s, s', n, r);
    assert Step(s, s', n);
  }

  lemma {:induction false} AllRanksDone(g: Graph, n: nat, s: State, d: nat)
    requires Loaded(g, n) && Inv(g, n, s) && d < n && Stuck(s, n)
    ensures Served(s, d) && s.nodes[d] == Holding([d], Part(g, n, d, d + 1))
    decreases d
  {
    if d > 0 {
      AllRanksDone(g, n, s, d - 1);
      StuckRankIsDone(g, n, s, d - 1);
    }
    StuckRankIsDone(g, n, s, d);
  }

  /** How often rank d appears as a receiver in the log. */
  function Receipts(log: seq<(nat, nat)>, d: nat): nat {
    if |log| == 0 then 0 else Receipts(log[1..], d) + if log[0].1 == d then 1 else 0
  }

  lemma {:induction false} ReceiptsOfDistinct(log: seq<(nat, nat)>, d: nat)
    requires forall j, k :: 0 <= j < k < |log| ==> log[j].1 != log[k].1
    ensures Receipts(log, d) == if exists k :: 0 <= k < |log| && log[k].1 == d then 1 else 0
  {
    if |log| > 0 {
      var rest := log[1..];
      assert forall k :: 0 <= k < |rest| ==> rest[k] == log[k + 1];
      ReceiptsOfDistinct(rest, d);
      if k :| 0 <= k < |rest| && rest[k].1 == d {
        assert log[k + 1].1 == d;
      }
    }
  }

  /** The receivers in a log, as a set. */
  function Receivers(log: seq<(nat, nat)>): (ds: set<nat>)
    ensures forall d :: d in ds <==> exists k :: 0 <= k < |log| && log[k].1 == d
  {
    set k | 0 <= k < |log| :: log[k].1
  }

  lemma {:induction false} ReceiversOfDistinct(log: seq<(nat, nat)>)
    requires forall j, k :: 0 <= j < k < |log| ==> log[j].1 != log[k].1
    ensures |Receivers(log)| == |log|
    decreases |log|
  {
    if |log| > 0 {
      var rest, d := log[..|log| - 1], log[|log| - 1].1;
      ReceiversOfDistinct(rest);
      assert d !in Receivers(rest);
      assert Receivers(log) == Receivers(rest) + {d} by {
        forall e ensures e in Receivers(log) <==> e in Receivers(rest) + {d} {
          if k :| 0 <= k < |rest| && rest[k].1 == e { assert log[k].1 == e; }
          if k :| 0 <= k < |log| && log[k].1 == e { assert k < |rest| ==> rest[k].1 == e; }
        }
      }
    } else {
      assert Receivers(log) == {};
    }
  }

  /** The ranks other than 0. */
  function Others(n: nat): (ds: set<nat>)
    requires n > 0
    ensures |ds| == n - 1 && forall d :: d in ds <==> 0 < d < n
  {
    if n == 1 then {} else Others(n - 1) + {n - 1}
  }

  /** No more than n - 1 subgraphs are ever sent. */
  lemma SendsBounded(g: Graph, n: nat, s: State)
    requires Loaded(g, n) && Inv(g, n, s)
    ensures |s.log| <= n - 1
  {
    ReceiversOfDistinct(s.log);
    Contained(Receivers(s.log), Others(n));
  }

  lemma Contained(a: set<nat>, b: set<nat>)
    requires forall d :: d in a ==> d in b
    ensures |a| <= |b| && (a == b || |a| < |b|)
    decreases a
  {
    if x :| x in a {
      Contained(a - {x}, b - {x});
      assert a == (a - {x}) + {x} && b == (b - {x}) + {x};
    } else if y :| y in b {
    }
  }

  /**
   * When no rank can step, each has exactly its own part of the graph, every rank but 0 has
   * received exactly one message, and n - 1 messages were sent in all.
   */
  lemma ScatterCompletes(g: Graph, n: nat, run: seq<State>)
    requires Loaded(g, n) && Run(g, n, run) && Stuck(run[|run| - 1], n)
    ensures var s := run[|run| - 1];
            && Shaped(s, n)
            && (forall d :: 0 <= d < n ==> s.nodes[d] == Holding([d], Part(g, n, d, d + 1)))
            && |s.log| == n - 1
            && forall d :: 0 <= d < n ==> Receipts(s.log, d) == if d == 0 then 0 else 1
  {
    var s := run[|run| - 1];
    RunInv(g, n, run, |run| - 1);
    forall d | 0 <= d < n
      ensures Served(s, d) && s.nodes[d] == Holding([d], Part(g, n, d, d + 1))
      ensures Receipts(s.log, d) == if d == 0 then 0 else 1
    {
      AllRanksDone(g, n, s, d);
      ReceiptsOfDistinct(s.log, d);
    }
    ReceiversOfDistinct(s.log);
    forall d ensures d in Receivers(s.log) <==> d in Others(n) {
      if d in Others(n) { assert Served(s, d); }
    }
    Contained(Others(n), Receivers(s.log));
    Contained(Receivers(s.log), Others(n));
  }

  /**
   * Nothing is lost or duplicated: a component ends on exactly the rank it is placed on, and
   * a link on exactly the ranks of its ends, whole if they agree, with the local end first
   * and the other end's rank recorded if not.
   */
  lemma OwnPart(g: Graph, n: nat, r: nat)
    requires Loaded(g, n) && r < n
    ensures var part := Part(g, n, r, r + 1);
            && (forall c :: c in part.comps <==> c in g.comps && g.comps[c].rank == r)
            && (forall c :: c in part.comps ==> part.comps[c] == g.comps[c])
            && forall i :: i in g.links ==>
                 var l := g.links[i];
                 var r0, r1 := g.comps[l.component.0].rank, g.comps[l.component.1].rank;
                 && (i in part.links <==> r0 == r || r1 == r)
                 && (r0 == r1 == r ==> part.links[i] == l)
                 && (r0 == r != r1 ==> part.links[i].nonlocal && part.links[i].component == (l.component.0, r1)
                                       && part.links[i].latency.0 == l.latency.0 && part.links[i].port.0 == l.port.0)
                 && (r1 == r != r0 ==> part.links[i].nonlocal && part.links[i].component == (l.component.1, r0)
                                       && part.links[i].latency.0 == l.latency.1 && part.links[i].port.0 == l.port.1)
  {
  }

  // ------------------------------------------------ termination

  /** How many ranks have received their part. */
  function Holders(nodes: seq<Node>): nat {
    if |nodes| == 0 then 0 else Holders(nodes[1..]) + if nodes[0].Holding? then 1 else 0
  }

  lemma {:induction false} HoldersOfUpdate(nodes: seq<Node>, d: nat, x: Node)
    requires d < |nodes| && x.Holding?
    ensures Holders(nodes[d := x]) == Holders(nodes) + if nodes[d].Holding? then 0 else 1
    ensures Holders(nodes) <= |nodes|
  {
    var rest := nodes[1..];
    if d > 0 {
      HoldersOfUpdate(rest, d - 1, x);
      assert nodes[d := x][1..] == rest[d - 1 := x];
    } else {
      assert nodes[d := x][1..] == rest;
      if |rest| > 0 { HoldersOfUpdate(rest, 0, x); }
    }
  }

  lemma {:induction false} HoldersAtStart(n: nat, nodes: seq<Node>)
    requires |nodes| == n && forall d :: 0 <= d < n ==> nodes[d].Awaiting?
    ensures Holders(nodes) == 0
  {
    if n > 0 {
      HoldersAtStart(n - 1, nodes[1..]);
    }
  }

  /** Every step is one send or one receipt. */
  lemma {:induction false} StepsCounted(g: Graph, n: nat, run: seq<State>, k: nat)
    requires Loaded(g, n) && Run(g, n, run) && k < |run|
    ensures Shaped(run[k], n) && |run[k].log| + Holders(run[k].nodes) == k + 1
    decreases k
  {
    if k == 0 {
      var nodes := run[0].nodes;
      HoldersAtStart(n - 1, nodes[1..]);
    } else {
      StepsCounted(g, n, run, k - 1);
      RunInv(g, n, run, k - 1);
      RunInv(g, n, run, k);
      var s, s' := run[k - 1], run[k];
      assert Step(s, s', n);
      if r: nat :| Split(s, s', n, r) {
        HoldersOfUpdate(s.nodes, r, s'.nodes[r]);
      } else {
        var d: nat, i: nat :| Receive(s, s', n, d, i);
        HoldersOfUpdate(s.nodes, d, s'.nodes[d]);
      }
    }
  }

  /** Every run ends: n - 1 sends and n - 1 receipts are all there can be. */
  lemma RunsAreBounded(g: Graph, n: nat, run: seq<State>)
    requires Loaded(g, n) && Run(g, n, run)
    ensures |run| <= 2 * (n - 1) + 1
  {
    var s := run[|run| - 1];
    StepsCounted(g, n, run, |run| - 1);
    RunInv(g, n, run, |run| - 1);
    SendsBounded(g, n, s);
    assert Served(s, 0) && NodeOk(g, n, s, 0);
    HoldersOfUpdate(s.nodes, 0, Holding([], g));
  }
}
