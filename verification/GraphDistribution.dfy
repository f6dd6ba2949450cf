/**
 * Handing out the configuration graph after a serial load (main.cc, configGraph.cc): rank 0
 * starts with every rank's part; whoever holds more than one part sends the upper half of
 * its ranks, with their subgraph, to the lowest of them. A std::set of ranks is an
 * ascending sequence, and sending the rank set and the subgraph is one step.
 */
module GraphDistribution {
  import opened Wrappers

  // ------------------------------------------------ the graph

  /** RankInfo: where a component is placed. */
  datatype Place = Place(rank: nat, thread: nat)

  /**
   * A link. If it is nonlocal, only its first end is in this graph: component[1] is the
   * remote rank, latency[1] the remote thread and port[1] is empty.
   */
  datatype Link = Link(component: (nat, nat), port: (string, string), latency: (nat, nat), nonlocal: bool)
  {
    function SetAsNonLocal(whichLocal: nat, remote: Place): Link {
      if whichLocal == 1 then
        Link((component.1, remote.rank), (port.1, ""), (latency.1, remote.thread), true)
      else
        Link((component.0, remote.rank), (port.0, ""), (latency.0, remote.thread), true)
    }
  }

  /** Components and links by ID. */
  datatype Graph = Graph(comps: map<nat, Place>, links: map<nat, Link>)

  /** The ends of every link are components of the graph; a nonlocal link has one such end. */
  ghost predicate Closed(g: Graph) {
    forall i :: i in g.links ==>
      g.links[i].component.0 in g.comps && (g.links[i].nonlocal || g.links[i].component.1 in g.comps)
  }

  /** The link filter of splitGraph: what stays of a link, and what moves to the new graph. */
  function FilterLink(comps: map<nat, Place>, link: Link, ours: seq<nat>, theirs: seq<nat>)
    : (Option<Link>, Option<Link>)
    requires link.component.0 in comps && (link.nonlocal || link.component.1 in comps)
  {
    var p0 := comps[link.component.0];
    var p1 := if link.nonlocal then None else Some(comps[link.component.1]);
    var ours0, theirs0 := p0.rank in ours, p0.rank in theirs;
    var ours1, theirs1 := p1.Some? && p1.value.rank in ours, p1.Some? && p1.value.rank in theirs;
    if !(ours0 || ours1) && !(theirs0 || theirs1) then
      (None, None)
    else if !(theirs0 || theirs1) then
      (Some(if p1.Some? && ours0 != ours1 then Detach(link, ours0, p0, p1.value) else link), None)
    else if !(ours0 || ours1) then
      (None, Some(if p1.Some? && theirs0 != theirs1 then Detach(link, theirs0, p0, p1.value) else link))
    else if p1.None? then
      (Some(link), Some(link)) // both sets hold the local end: not for disjoint sets
    else if theirs0 then
      (Some(link.SetAsNonLocal(1, p0)), Some(link.SetAsNonLocal(0, p1.value)))
    else
      (Some(link.SetAsNonLocal(0, p1.value)), Some(link.SetAsNonLocal(1, p0)))
  }

  /** Keep the end that is in the set, and record where the other one is. */
  function Detach(link: Link, first: bool, p0: Place, p1: Place): Link {
    if first then link.SetAsNonLocal(0, p1) else link.SetAsNonLocal(1, p0)
  }

  /** splitGraph: the graph that stays and the new one. */
  function SplitGraph(g: Graph, ours: seq<nat>, theirs: seq<nat>): (Graph, Graph)
    requires Closed(g)
  {
    (Graph(map c | c in g.comps && g.comps[c].rank in ours :: g.comps[c],
           map i | i in g.links && FilterLink(g.comps, g.links[i], ours, theirs).0.Some?
             :: FilterLink(g.comps, g.links[i], ours, theirs).0.value),
     Graph(map c | c in g.comps && g.comps[c].rank !in ours && g.comps[c].rank in theirs :: g.comps[c],
           map i | i in g.links && FilterLink(g.comps, g.links[i], ours, theirs).1.Some?
             :: FilterLink(g.comps, g.links[i], ours, theirs).1.value))
  }

  // ------------------------------------------------ the part of the graph for a range of ranks

  /** The graph the user configured: all links are whole and all components are placed on a rank of the job. */
  ghost predicate Loaded(g: Graph, n: nat) {
    && (forall c :: c in g.comps ==> g.comps[c].rank < n)
    && forall i :: i in g.links ==>
         !g.links[i].nonlocal && g.links[i].component.0 in g.comps && g.links[i].component.1 in g.comps
  }

  /** A link as the ranks lo..hi see it: gone, whole, or with only their end. */
  function Seen(comps: map<nat, Place>, link: Link, lo: nat, hi: nat): Option<Link>
    requires link.component.0 in comps && link.component.1 in comps
  {
    var p0, p1 := comps[link.component.0], comps[link.component.1];
    if lo <= p0.rank < hi then
      Some(if lo <= p1.rank < hi then link else link.SetAsNonLocal(0, p1))
    else if lo <= p1.rank < hi then Some(link.SetAsNonLocal(1, p0))
    else None
  }

  /** The part of the whole graph g that the ranks lo..hi need. */
  ghost function Part(g: Graph, n: nat, lo: nat, hi: nat): (part: Graph)
    requires Loaded(g, n)
  {
    Graph(map c | c in g.comps && lo <= g.comps[c].rank < hi :: g.comps[c],
          map i | i in g.links && Seen(g.comps, g.links[i], lo, hi).Some? :: Seen(g.comps, g.links[i], lo, hi).value)
  }

  /** The ranks lo, lo + 1, ..., hi - 1. */
  function Interval(lo: nat, hi: nat): (s: seq<nat>)
    requires lo <= hi
    ensures |s| == hi - lo && forall i :: 0 <= i < |s| ==> s[i] == lo + i
  {
    seq(hi - lo, i requires 0 <= i < hi - lo => lo + i)
  }

  lemma InInterval(lo: nat, hi: nat, r: nat)
    requires lo <= hi
    ensures r in Interval(lo, hi) <==> lo <= r < hi
  {
    var s := Interval(lo, hi);
    if lo <= r < hi {
      assert s[r - lo] == r;
    }
  }

  lemma PartIsClosed(g: Graph, n: nat, lo: nat, hi: nat)
    requires Loaded(g, n)
    ensures Closed(Part(g, n, lo, hi))
  {
  }

  /** Filtering what the ranks lo..hi see of a link gives what each half of them sees. */
  lemma FilterSeen(comps: map<nat, Place>, sub: map<nat, Place>, link: Link, lo: nat, mid: nat, hi: nat)
    requires lo <= mid <= hi && !link.nonlocal
    requires link.component.0 in comps && link.component.1 in comps && Seen(comps, link, lo, hi).Some?
    requires forall c :: c in comps && lo <= comps[c].rank < hi ==> c in sub && sub[c] == comps[c]
    requires Seen(comps, link, lo, hi).value.component.0 in sub
    requires Seen(comps, link, lo, hi).value.nonlocal || Seen(comps, link, lo, hi).value.component.1 in sub
    ensures FilterLink(sub, Seen(comps, link, lo, hi).value, Interval(lo, mid), Interval(mid, hi))
            == (Seen(comps, link, lo, mid), Seen(comps, link, mid, hi))
  {
    var r0, r1 := comps[link.component.0].rank, comps[link.component.1].rank;
    InInterval(lo, mid, r0);
    InInterval(mid, hi, r0);
    InInterval(lo, mid, r1);
    InInterval(mid, hi, r1);
  }

  lemma SplitComps(g: Graph, n: nat, lo: nat, mid: nat, hi: nat, whole: Graph, split: (Graph, Graph))
    requires Loaded(g, n) && lo <= mid <= hi && whole == Part(g, n, lo, hi) && Closed(whole)
    requires split == SplitGraph(whole, Interval(lo, mid), Interval(mid, hi))
    ensures split.0.comps == Part(g, n, lo, mid).comps && split.1.comps == Part(g, n, mid, hi).comps
  {
    forall c
      ensures PlaceOf(split.0, c) == PlaceOf(Part(g, n, lo, mid), c)
      ensures PlaceOf(split.1, c) == PlaceOf(Part(g, n, mid, hi), c)
    {
      if c in g.comps {
        InInterval(lo, mid, g.comps[c].rank);
        InInterval(mid, hi, g.comps[c].rank);
      }
    }
    SameComps(split.0, Part(g, n, lo, mid));
    SameComps(split.1, Part(g, n, mid, hi));
  }

  function PlaceOf(g: Graph, c: nat): Option<Place> {
    if c in g.comps then Some(g.comps[c]) else None
  }

  lemma SameComps(a: Graph, b: Graph)
    requires forall c :: PlaceOf(a, c) == PlaceOf(b, c)
    ensures a.comps == b.comps
  {
    forall c
      ensures c in a.comps <==> c in b.comps
      ensures c in a.comps ==> a.comps[c] == b.comps[c]
    {
      assert PlaceOf(a, c) == PlaceOf(b, c);
    }
  }

  /** Splitting the part for lo..hi gives the parts for lo..mid and mid..hi. */
  lemma SplitsIntoParts(g: Graph, n: nat, lo: nat, mid: nat, hi: nat)
    requires Loaded(g, n) && lo <= mid <= hi
    ensures Closed(Part(g, n, lo, hi))
    ensures SplitGraph(Part(g, n, lo, hi), Interval(lo, mid), Interval(mid, hi))
            == (Part(g, n, lo, mid), Part(g, n, mid, hi))
  {
    var whole := Part(g, n, lo, hi);
    PartIsClosed(g, n, lo, hi);
    var split := SplitGraph(whole, Interval(lo, mid), Interval(mid, hi));
    SplitComps(g, n, lo, mid, hi, whole, split);
    forall i
      ensures LinkOf(split.0, i) == LinkOf(Part(g, n, lo, mid), i)
      ensures LinkOf(split.1, i) == LinkOf(Part(g, n, mid, hi), i)
    {
      SplitLink(g, n, lo, mid, hi, whole, split, i);
    }
    SameGraph(split.0, Part(g, n, lo, mid));
    SameGraph(split.1, Part(g, n, mid, hi));
  }

  function LinkOf(g: Graph, i: nat): Option<Link> {
    if i in g.links then Some(g.links[i]) else None
  }

  lemma SameGraph(a: Graph, b: Graph)
    requires a.comps == b.comps && forall i :: LinkOf(a, i) == LinkOf(b, i)
    ensures a == b
  {
    forall i ensures i in a.links <==> i in b.links
    ensures i in a.links ==> a.links[i] == b.links[i] {
      assert LinkOf(a, i) == LinkOf(b, i);
    }
    assert a.links == b.links;
  }

  lemma SplitLink(g: Graph, n: nat, lo: nat, mid: nat, hi: nat, whole: Graph, split: (Graph, Graph), i: nat)
    requires Loaded(g, n) && lo <= mid <= hi && whole == Part(g, n, lo, hi) && Closed(whole)
    requires split == SplitGraph(whole, Interval(lo, mid), Interval(mid, hi))
    ensures LinkOf(split.0, i) == LinkOf(Part(g, n, lo, mid), i)
    ensures LinkOf(split.1, i) == LinkOf(Part(g, n, mid, hi), i)
  {
    if i in whole.links {
      FilterSeen(g.comps, whole.comps, g.links[i], lo, mid, hi);
    }
  }
}
