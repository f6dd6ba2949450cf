/**
 * The link-ID exchange when the ranks do not agree on their links (main.cc): in which runs a
 * rank reports an error, whatever the tables are, as long as each rank has sorted its own.
 */
module ExchangeMismatch {
  import opened ExchangeProgress
  import opened ExchangeProtocol
  import opened ExchangeSteps
  import opened LinkExchange
  import opened Schedule
  import opened Wrappers

  /** The message names the links of x with rank `to`, in order. */
  ghost predicate Labelled(x: seq<Link>, to: nat, msg: seq<Entry>) {
    |msg| == Count(x, to) && NamesFrom(x, Lower(x, to), msg)
  }

  /** More names are sent than are expected, and those too many name the links that follow. */
  ghost predicate OverrunBy(x: seq<Link>, from: nat, y: seq<Link>, to: nat) {
    && 0 < Count(x, from) < Count(y, to) && Lower(x, from) + Count(y, to) <= |x|
    && NamesAt(x, Lower(x, from), Count(y, to)) == NamesAt(y, Lower(y, to), Count(y, to))
  }

  /** Rank r takes what rank p sends without an error. */
  ghost predicate Passes(t: Table, r: nat, p: nat)
    requires r < |t| && p < |t|
  {
    Agree(t[r], p, t[p], r) || OverrunBy(t[r], p, t[p], r)
  }

  // ------------------------------------------------ one reconciliation

  lemma SentLabelled(x: seq<Link>, links: seq<Link>, to: nat)
    requires Sorted(x) && SameLabels(x, links)
    ensures Count(links, to) >= 0 && Labelled(x, to, Outgoing(links, to))
  {
    SameOrder(x, links, to);
    BlockAtLower(x, to);
  }

  lemma LabelledSorted(y: seq<Link>, to: nat, msg: seq<Entry>)
    requires Sorted(y) && Labelled(y, to, msg)
    ensures SortedEntries(msg) && forall name :: Sends(msg, name) <==> Expects(y, to, name)
  {
    var lo := Lower(y, to);
    BlockAtLower(y, to);
    forall i, j | 0 <= i < j < |msg| ensures Less(msg[i].name, msg[j].name) {
      assert y[lo + i].remote == y[lo + j].remote == to;
    }
    forall name ensures Sends(msg, name) <==> Expects(y, to, name) {
      LabelledSends(y, to, lo, msg, name);
    }
  }

  lemma LabelledSends(y: seq<Link>, to: nat, lo: nat, msg: seq<Entry>, name: string)
    requires Block(y, to, lo, |msg|) && NamesFrom(y, lo, msg)
    ensures Sends(msg, name) <==> Expects(y, to, name)
  {
    if Sends(msg, name) {
      var j :| 0 <= j < |msg| && msg[j].name == name;
      assert y[lo + j].remote == to && y[lo + j].name == name;
    }
    if Expects(y, to, name) {
      var i :| 0 <= i < |y| && y[i].remote == to && y[i].name == name;
      assert msg[i - lo].name == name;
    }
  }

  lemma SameExpectations(x: seq<Link>, links: seq<Link>, from: nat, name: string)
    requires SameLabels(x, links)
    ensures Expects(links, from, name) <==> Expects(x, from, name)
  {
    if Expects(x, from, name) {
      var i :| 0 <= i < |x| && x[i].remote == from && x[i].name == name;
      assert links[i].remote == from && links[i].name == name;
    }
    if Expects(links, from, name) {
      var i :| 0 <= i < |links| && links[i].remote == from && links[i].name == name;
      assert x[i].remote == from && x[i].name == name;
    }
  }

  lemma SameNamesIff(x: seq<Link>, links: seq<Link>, from: nat, y: seq<Link>, to: nat, msg: seq<Entry>)
    requires SameLabels(x, links) && Sorted(y) && Labelled(y, to, msg)
    ensures SameNames(links, from, msg) <==> Agree(x, from, y, to)
  {
    LabelledSorted(y, to, msg);
    forall name ensures Expects(links, from, name) <==> Expects(x, from, name) {
      SameExpectations(x, links, from, name);
    }
    assert forall name :: Sends(msg, name) <==> Expects(y, to, name);
  }

  lemma OverrunsIff(x: seq<Link>, links: seq<Link>, from: nat, y: seq<Link>, to: nat, msg: seq<Entry>)
    requires Sorted(x) && SameLabels(x, links) && Labelled(y, to, msg)
    ensures Overruns(links, from, msg) <==> OverrunBy(x, from, y, to)
  {
    SameOrder(x, links, from);
    LabelledNames(y, Lower(y, to), msg);
    if Lower(x, from) + |msg| <= |x| { SameNamesAt(x, links, Lower(x, from), msg); }
  }

  lemma LabelledNames(y: seq<Link>, lo: nat, msg: seq<Entry>)
    requires NamesFrom(y, lo, msg)
    ensures NamesAt(y, lo, |msg|) == Names(msg)
  {
  }

  lemma SameNamesAt(x: seq<Link>, links: seq<Link>, lo: nat, msg: seq<Entry>)
    requires SameLabels(x, links) && lo + |msg| <= |x|
    ensures NamesFrom(links, lo, msg) <==> NamesAt(x, lo, |msg|) == Names(msg)
  {
    assert NamesAt(x, lo, |msg|) == NamesAt(links, lo, |msg|);
    if NamesAt(x, lo, |msg|) == Names(msg) {
      forall i | 0 <= i < |msg| ensures msg[i].name == links[lo + i].name {
        assert Names(msg)[i] == NamesAt(links, lo, |msg|)[i];
      }
    }
  }

  /** Whether a reconciliation reports an error depends on the names only. */
  lemma ReconciledIff(x: seq<Link>, links: seq<Link>, from: nat, y: seq<Link>, to: nat, msg: seq<Entry>)
    requires Sorted(x) && Sorted(y) && SameLabels(x, links) && Labelled(y, to, msg)
    ensures Reconciled(links, from, msg).Ok? <==> Agree(x, from, y, to) || OverrunBy(x, from, y, to)
    ensures Reconciled(links, from, msg).Ok? ==> SameLabels(x, Reconciled(links, from, msg).value)
  {
    SameOrder(x, links, from);
    LabelledSorted(y, to, msg);
    WalkDetectsMismatch(links, from, msg);
    SameNamesIff(x, links, from, y, to, msg);
    OverrunsIff(x, links, from, y, to, msg);
    WalkSucceeds(links, from, WalkStart(links, from), msg);
  }

  // ------------------------------------------------ all runs

  /** What holds of a rank that is still running: its labels, its message, and what it has received so far. */
  ghost predicate RankOk(t: Table, x: Node, r: nat)
    requires r < |t|
  {
    && 1 <= x.iter && SameLabels(t[r], x.links)
    && (x.phase.Got? ==> x.iter <= Rounds(|t|) && Receives(t, r, x.iter, x.phase.msg))
    && forall p :: 0 <= p < |t| && Slot(|t|, p, r).Some? && Slot(|t|, p, r).value < x.iter ==> Passes(t, r, p)
  }

  /** The message is the one that r should get in iteration k. */
  ghost predicate Receives(t: Table, r: nat, k: nat, msg: seq<Entry>)
    requires r < |t| && k <= Rounds(|t|)
  {
    RecvFrom(|t|, r, k).Some? && Labelled(t[RecvFrom(|t|, r, k).value], r, msg)
  }

  ghost predicate ChannelLabelled(t: Table, s: State, a: nat, b: nat)
    requires s.Running? && a < |t|
  {
    AllLabelled(t[a], b, Channel(s, a, b))
  }

  ghost predicate AllLabelled(x: seq<Link>, to: nat, msgs: seq<seq<Entry>>) {
    forall i :: 0 <= i < |msgs| ==> Labelled(x, to, msgs[i])
  }

  ghost predicate Sound(t: Table, s: State) {
    s.Running? ==>
      && |s.nodes| == |t|
      && (forall r :: 0 <= r < |t| ==> RankOk(t, s.nodes[r], r))
      && forall a, b :: 0 <= a < |t| && 0 <= b < |t| ==> ChannelLabelled(t, s, a, b)
  }

  lemma InitSound(t: Table)
    ensures Sound(t, Init(t))
  {
    forall r | 0 <= r < |t| ensures RankOk(t, Init(t).nodes[r], r) {
      forall p | 0 <= p < |t| && Slot(|t|, p, r).Some? ensures Slot(|t|, p, r).value >= 1 { EveryPairOnce(|t|, p, r); }
    }
  }

  lemma PostSound(t: Table, s: State, s': State, r: nat)
    requires AllSorted(t) && s.Running? && Sound(t, s) && Post(s, s', r)
    ensures Sound(t, s')
  {
    assert RankOk(t, s.nodes[r], r) && RankSorted(t, r);
    forall q | 0 <= q < |t| ensures RankOk(t, s'.nodes[q], q) { assert RankOk(t, s.nodes[q], q); }
    forall a, b | 0 <= a < |t| && 0 <= b < |t| ensures ChannelLabelled(t, s', a, b) {
      assert ChannelLabelled(t, s, a, b);
      if Channel(s', a, b) != Channel(s, a, b) { SentLabelled(t[r], s.nodes[r].links, b); }
    }
  }

  lemma MatchSound(t: Table, s: State, s': State, r: nat)
    requires AllSorted(t) && s.Running? && Sound(t, s) && Match(s, s', r)
    ensures Sound(t, s')
  {
    var p := RecvFrom(|t|, r, s.nodes[r].iter).value;
    assert RankOk(t, s.nodes[r], r) && ChannelLabelled(t, s, p, r);
    forall q | 0 <= q < |t| ensures RankOk(t, s'.nodes[q], q) { assert RankOk(t, s.nodes[q], q); }
    forall a, b | 0 <= a < |t| && 0 <= b < |t| ensures ChannelLabelled(t, s', a, b) {
      assert ChannelLabelled(t, s, a, b);
      assert Channel(s', a, b) == if (a, b) == (p, r) then Channel(s, p, r)[1..] else Channel(s, a, b);
    }
  }

  /** What comes of finishing an iteration, as far as errors go. */
  lemma FinishSound(t: Table, s: State, s': State, r: nat)
    requires AllSorted(t) && s.Running? && Sound(t, s) && Finish(s, s', r, true)
    ensures Sound(t, s')
    ensures s'.Aborted? ==> exists p :: 0 <= p < |t| && Slot(|t|, p, r).Some? && !Passes(t, r, p)
  {
    var x := s.nodes[r];
    assert RankOk(t, x, r);
    RankFinished(t, x, r, x.iter);
    if s'.Running? {
      forall q | 0 <= q < |t| ensures RankOk(t, s'.nodes[q], q) { assert RankOk(t, s.nodes[q], q); }
      forall a, b | 0 <= a < |t| && 0 <= b < |t| ensures ChannelLabelled(t, s', a, b) {
        assert ChannelLabelled(t, s, a, b) && Channel(s', a, b) == Channel(s, a, b);
      }
    }
  }

  lemma RankFinished(t: Table, x: Node, r: nat, k: nat)
    requires AllSorted(t) && r < |t| && RankOk(t, x, r) && k == x.iter <= Rounds(|t|)
    requires RecvFrom(|t|, r, k).Some? ==> x.phase.Got?
    ensures match RecvFrom(|t|, r, k)
            case None => RankOk(t, Node(k + 1, Ready, x.links), r)
            case Some(p) =>
              && p < |t| && Slot(|t|, p, r) == Some(k)
              && match Reconciled(x.links, p, x.phase.msg)
                 case Ok(links) => RankOk(t, Node(k + 1, Ready, links), r)
                 case Err(_) => !Passes(t, r, p)
  {
    match RecvFrom(|t|, r, k)
    case None => NothingReceived(t, x, r, k);
    case Some(p) =>
      SlotInvertsSchedule(|t|, p, r, k);
      assert RankSorted(t, r) && RankSorted(t, p);
      ReconciledIff(t[r], x.links, p, t[p], r, x.phase.msg);
      if Passes(t, r, p) {
        PairPassed(t, x, r, k, p, Reconciled(x.links, p, x.phase.msg).value);
      }
  }

  lemma NothingReceived(t: Table, x: Node, r: nat, k: nat)
    requires r < |t| && RankOk(t, x, r) && k == x.iter <= Rounds(|t|) && RecvFrom(|t|, r, k) == None
    ensures RankOk(t, Node(k + 1, Ready, x.links), r)
  {
    forall q | 0 <= q < |t| && Slot(|t|, q, r).Some? && Slot(|t|, q, r).value < k + 1 ensures Passes(t, r, q) {
      SlotInvertsSchedule(|t|, q, r, k);
    }
  }

  lemma PairPassed(t: Table, x: Node, r: nat, k: nat, p: nat, links: seq<Link>)
    requires r < |t| && RankOk(t, x, r) && k == x.iter <= Rounds(|t|) && p < |t| && RecvFrom(|t|, r, k) == Some(p)
    requires Passes(t, r, p) && SameLabels(t[r], links)
    ensures RankOk(t, Node(k + 1, Ready, links), r)
  {
    forall q | 0 <= q < |t| && Slot(|t|, q, r).Some? && Slot(|t|, q, r).value < k + 1 ensures Passes(t, r, q) {
      SlotInvertsSchedule(|t|, q, r, k);
    }
  }

  /** Whatever the tables: in every state, what has been received so far passed. */
  lemma {:induction false} RunSound(t: Table, run: seq<State>, k: nat)
    requires AllSorted(t) && Run(t, run) && k < |run|
    ensures Sound(t, run[k])
    ensures run[k].Aborted? ==> exists r, p :: 0 <= r < |t| && 0 <= p < |t| && Slot(|t|, p, r).Some? && !Passes(t, r, p)
    decreases k
  {
    if k == 0 {
      InitSound(t);
    } else {
      RunSound(t, run, k - 1);
      var s, s' := run[k - 1], run[k];
      assert Step(s, s');
      var r: nat :| Post(s, s', r) || Match(s, s', r) || Finish(s, s', r, true);
      if Post(s, s', r) {
        PostSound(t, s, s', r);
      } else if Match(s, s', r) {
        MatchSound(t, s, s', r);
      } else {
        FinishSound(t, s, s', r);
      }
    }
  }

  /**
   * Whatever links the ranks have loaded: an exchange that completes has reported no error
   * although some pair disagrees only where a walk overran, and one that aborts does so
   * because some pair disagrees and its walk does not overrun.
   */
  lemma CompletedOrReported(t: Table, run: seq<State>)
    requires AllSorted(t) && Run(t, run)
    ensures var last := run[|run| - 1];
            && (last.Running? && AllDone(last) ==>
                  |last.nodes| == |t|
                  && forall r, p :: 0 <= r < |t| && 0 <= p < |t| && Slot(|t|, p, r).Some? ==> Passes(t, r, p))
            && (last.Aborted? ==>
                  exists r, p :: 0 <= r < |t| && 0 <= p < |t| && Slot(|t|, p, r).Some? && !Passes(t, r, p))
  {
    RunSound(t, run, |run| - 1);
    var last := run[|run| - 1];
    if last.Running? && AllDone(last) {
      forall r, p | 0 <= r < |t| && 0 <= p < |t| && Slot(|t|, p, r).Some? ensures Passes(t, r, p) {
        assert RankOk(t, last.nodes[r], r);
        EveryPairOnce(|t|, p, r);
      }
    }
  }

  /**
   * Whatever links the ranks have loaded, a run that cannot go on has completed if every receiving
   * pair agrees or overruns, and has aborted with an error if some pair does neither.
   */
  lemma DisagreementReported(t: Table, run: seq<State>)
    requires AllSorted(t) && Run(t, run) && Stuck(run[|run| - 1])
    ensures var last := run[|run| - 1];
            var passes := forall r, p :: 0 <= r < |t| && 0 <= p < |t| && Slot(|t|, p, r).Some? ==> Passes(t, r, p);
            && (AllDone(last) <==> passes) && (last.Aborted? <==> !passes)
  {
    StuckIsOver(t, run);
    CompletedOrReported(t, run);
  }
}
