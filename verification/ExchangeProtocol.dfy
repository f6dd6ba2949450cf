/**
 * The link-ID exchange of ranks that agree on the links they share (main.cc): every run ends
 * with one ID at both ends of each link.
 */
module ExchangeProtocol {
  import opened ExchangeProgress
  import opened ExchangeSteps
  import opened LinkExchange
  import opened Schedule
  import opened Wrappers

  // ------------------------------------------------ the input

  /** Every vector is sorted, names only other ranks, and partners agree on the shared names. */
  ghost predicate Consistent(t: Table) {
    && (forall r :: 0 <= r < |t| ==> RankSorted(t, r))
    && (forall r, i :: 0 <= r < |t| && 0 <= i < |t[r]| ==> t[r][i].remote < |t| && t[r][i].remote != r)
    && forall a, b :: 0 <= a < |t| && 0 <= b < |t| && a != b ==> PartnersAgree(t, a, b)
  }

  ghost predicate PartnersAgree(t: Table, a: nat, b: nat)
    requires a < |t| && b < |t|
  {
    Agree(t[a], b, t[b], a)
  }

  /** The links x shares with rank b and those y shares with rank a have the same names. */
  ghost predicate Agree(x: seq<Link>, b: nat, y: seq<Link>, a: nat) {
    forall name :: Expects(x, b, name) <==> Expects(y, a, name)
  }

  /** Partners that agree on the set of shared names list them in the same order. */
  lemma AgreeInOrder(x: seq<Link>, b: nat, lo: nat, c: nat, y: seq<Link>, a: nat, lo': nat, c': nat)
    requires Sorted(x) && Sorted(y) && Agree(x, b, y, a)
    requires Block(x, b, lo, c) && Block(y, a, lo', c')
    ensures c == c' && forall i :: lo <= i < lo + c ==> x[i].name == y[lo' + (i - lo)].name
  {
    var s, t := NamesAt(x, lo, c), NamesAt(y, lo', c');
    forall name
      ensures name in s <==> Expects(x, b, name)
      ensures name in t <==> Expects(y, a, name)
    {
      NamesOfBlock(x, b, lo, c, name);
      NamesOfBlock(y, a, lo', c', name);
    }
    BlockAscends(x, b, lo, c);
    BlockAscends(y, a, lo', c');
    AscendingUnique(s, t);
    forall i | lo <= i < lo + c ensures x[i].name == y[lo' + (i - lo)].name {
      assert s[i - lo] == t[i - lo];
    }
  }

  lemma BlockAscends(links: seq<Link>, rank: nat, lo: nat, count: nat)
    requires Sorted(links) && Block(links, rank, lo, count)
    ensures Ascending(NamesAt(links, lo, count))
  {
    var s := NamesAt(links, lo, count);
    forall i, j | 0 <= i < j < |s| ensures Less(s[i], s[j]) {
      assert links[lo + i].remote == links[lo + j].remote;
    }
  }

  // ------------------------------------------------ what a rank holds in iteration k

  /** The position of the other end of link i of rank r in its partner's vector. */
  function Partner(t: Table, r: nat, i: nat): int
    requires r < |t| && i < |t[r]| && t[r][i].remote < |t|
  {
    var p := t[r][i].remote;
    Lower(t[p], r) + (i - Lower(t[r], p))
  }

  /** The two ends of a link are partners of each other and have the same name. */
  lemma PartnerIsMutual(t: Table, r: nat, i: nat)
    requires Consistent(t) && r < |t| && i < |t[r]|
    ensures var p, j := t[r][i].remote, Partner(t, r, i);
            && 0 <= j < |t[p]| && t[p][j].remote == r && t[p][j].name == t[r][i].name
            && Partner(t, p, j) == i
  {
    var p := t[r][i].remote;
    assert RankSorted(t, r) && RankSorted(t, p) && PartnersAgree(t, r, p);
    OtherEnd(t[r], p, t[p], r, i, Lower(t[r], p), Lower(t[p], r));
  }

  lemma OtherEnd(x: seq<Link>, b: nat, y: seq<Link>, a: nat, i: nat, lo: nat, lo': nat)
    requires Sorted(x) && Sorted(y) && Agree(x, b, y, a) && i < |x| && x[i].remote == b
    requires lo == Lower(x, b) && lo' == Lower(y, a)
    ensures lo <= i && lo' + (i - lo) < |y| && y[lo' + (i - lo)].remote == a && y[lo' + (i - lo)].name == x[i].name
  {
    BlockAtLower(x, b);
    BlockAtLower(y, a);
    AgreeInOrder(x, b, lo, Count(x, b), y, a, lo', Count(y, a));
  }

  /** The ID of link i of rank r at the start of iteration k: the sender's once it has sent it. */
  ghost function IdAt(t: Table, r: nat, i: nat, k: nat): nat
    requires Consistent(t) && r < |t| && i < |t[r]|
  {
    PartnerIsMutual(t, r, i);
    var p := t[r][i].remote;
    if Slot(|t|, p, r).Some? && Slot(|t|, p, r).value < k then t[p][Partner(t, r, i)].id else t[r][i].id
  }

  ghost function LinksAt(t: Table, r: nat, k: nat): (links: seq<Link>)
    requires Consistent(t) && r < |t|
    ensures |links| == |t[r]|
    ensures forall i :: 0 <= i < |links| ==> links[i] == t[r][i].(id := IdAt(t, r, i, k))
  {
    seq(|t[r]|, i requires 0 <= i < |t[r]| => t[r][i].(id := IdAt(t, r, i, k)))
  }

  // ------------------------------------------------ the invariant

  ghost predicate NodeOk(t: Table, s: State, r: nat)
    requires Consistent(t) && s.Running? && |s.nodes| == |t| && r < |t|
  {
    var n, x := |t|, s.nodes[r];
    && 1 <= x.iter <= Rounds(n) + 1
    && (x.iter == Rounds(n) + 1 ==> x.phase == Ready)
    && x.links == LinksAt(t, r, x.iter)
    && (x.phase.Got? ==> RecvFrom(n, r, x.iter).Some? && x.phase.msg == Sent(t, RecvFrom(n, r, x.iter).value, r))
  }

  /** The message a sends to b: the original IDs of a's links with b. */
  ghost function Sent(t: Table, a: nat, b: nat): seq<Entry>
    requires Consistent(t) && a < |t|
  {
    assert RankSorted(t, a);
    LowerSplits(t[a], b);
    Outgoing(t[a], b)
  }

  /** At most one message is ever under way between two ranks, and it is the right one. */
  ghost predicate ChannelOk(t: Table, s: State, a: nat, b: nat)
    requires Consistent(t) && s.Running? && |s.nodes| == |t| && a < |t| && b < |t|
  {
    match Slot(|t|, a, b)
    case None => Channel(s, a, b) == []
    case Some(k) =>
      && (HasMatched(s, b, k) ==> HasPosted(s, a, k))
      && Channel(s, a, b) == if HasPosted(s, a, k) && !HasMatched(s, b, k) then [Sent(t, a, b)] else []
  }

  ghost predicate Inv(t: Table, s: State)
    requires Consistent(t)
  {
    && s.Running? && |s.nodes| == |t|
    && (forall r :: 0 <= r < |t| ==> NodeOk(t, s, r))
    && forall a, b :: 0 <= a < |t| && 0 <= b < |t| ==> ChannelOk(t, s, a, b)
  }

  lemma InitInv(t: Table)
    requires Consistent(t)
    ensures Inv(t, Init(t))
  {
    var s := Init(t);
    forall r | 0 <= r < |t| ensures NodeOk(t, s, r) {
      forall i | 0 <= i < |t[r]| ensures IdAt(t, r, i, 1) == t[r][i].id {
        EveryPairOnce(|t|, t[r][i].remote, r);
      }
      assert LinksAt(t, r, 1) == t[r];
    }
    forall a, b | 0 <= a < |t| && 0 <= b < |t| ensures ChannelOk(t, s, a, b) {
      EveryPairOnce(|t|, a, b);
    }
  }

  /** Before it has received from d, a rank sends d its original IDs. */
  lemma SendsOriginal(t: Table, r: nat, k: nat, d: nat)
    requires Consistent(t) && r < |t| && 1 <= k <= Rounds(|t|) && SendTo(|t|, r, k) == Some(d)
    ensures Count(LinksAt(t, r, k), d) >= 0 && Outgoing(LinksAt(t, r, k), d) == Sent(t, r, d)
  {
    SlotInvertsSchedule(|t|, r, d, k);
    EveryPairOnce(|t|, r, d);
    assert RankSorted(t, r);
    LowerSplits(t[r], d);
    var y := LinksAt(t, r, k);
    forall i | 0 <= i < |y| && y[i].remote == d ensures y[i].id == t[r][i].id { }
    OutgoingSame(t[r], y, d);
  }

  /** What is sent depends on the IDs of the links with that rank only. */
  lemma OutgoingSame(x: seq<Link>, y: seq<Link>, d: nat)
    requires Sorted(x) && |x| == |y|
    requires forall i :: 0 <= i < |x| ==> y[i].remote == x[i].remote && y[i].name == x[i].name
    requires forall i :: 0 <= i < |y| && y[i].remote == d ==> y[i].id == x[i].id
    ensures Count(x, d) >= 0 && Count(y, d) >= 0 && Outgoing(y, d) == Outgoing(x, d)
  {
    SameLower(x, y, d);
    SameLower(x, y, d + 1);
    LowerSplits(x, d);
    OutgoingAt(x, y, d, Lower(x, d), Count(x, d), Outgoing(x, d), Outgoing(y, d));
  }

  lemma OutgoingAt(x: seq<Link>, y: seq<Link>, d: nat, lo: nat, c: nat, m: seq<Entry>, n: seq<Entry>)
    requires |x| == |y| && lo + c <= |x| && |m| == |n| == c
    requires forall i :: lo <= i < lo + c ==> y[i].name == x[i].name && y[i].id == x[i].id
    requires forall i :: 0 <= i < c ==>
               m[i] == Entry(x[lo + i].name, x[lo + i].id)
               && n[i] == Entry(y[lo + i].name, y[lo + i].id)
    ensures m == n
  {
  }

  // ------------------------------------------------ every step keeps the invariant

  /** A channel stays right if its messages and what its ends have posted and matched are as before. */
  lemma UntouchedChannel(t: Table, s: State, s': State, a: nat, b: nat)
    requires Consistent(t) && s.Running? && s'.Running? && |s.nodes| == |s'.nodes| == |t|
    requires a < |t| && b < |t| && ChannelOk(t, s, a, b)
    requires Channel(s', a, b) == Channel(s, a, b)
    requires Slot(|t|, a, b).Some? ==>
               var k := Slot(|t|, a, b).value;
               (HasPosted(s', a, k) <==> HasPosted(s, a, k)) && (HasMatched(s', b, k) <==> HasMatched(s, b, k))
    ensures ChannelOk(t, s', a, b)
  {
  }

  lemma PostKeeps(t: Table, s: State, s': State, r: nat)
    requires Consistent(t) && Inv(t, s) && Post(s, s', r)
    ensures Inv(t, s')
  {
    var n, x := |t|, s.nodes[r];
    assert NodeOk(t, s, r);
    forall q | 0 <= q < n ensures NodeOk(t, s', q) { assert NodeOk(t, s, q); }
    forall a, b | 0 <= a < n && 0 <= b < n ensures ChannelOk(t, s', a, b) {
      SlotInvertsSchedule(n, r, b, x.iter);
      EveryPairOnce(n, a, b);
      if a == r && SendTo(n, r, x.iter) == Some(b) {
        PostedChannel(t, s, s', r, b);
      } else {
        assert ChannelOk(t, s, a, b);
        UntouchedChannel(t, s, s', a, b);
      }
    }
  }

  /** The message is the only one in its channel. */
  lemma PostedChannel(t: Table, s: State, s': State, r: nat, b: nat)
    requires Consistent(t) && Inv(t, s) && Post(s, s', r) && SendTo(|t|, r, s.nodes[r].iter) == Some(b) && b < |t|
    ensures ChannelOk(t, s', r, b)
  {
    var k := s.nodes[r].iter;
    assert NodeOk(t, s, r) && ChannelOk(t, s, r, b);
    SlotInvertsSchedule(|t|, r, b, k);
    EveryPairOnce(|t|, r, b);
    SendsOriginal(t, r, k, b);
    assert Channel(s', r, b) == [] + [Sent(t, r, b)];
  }

  lemma MatchKeeps(t: Table, s: State, s': State, r: nat)
    requires Consistent(t) && Inv(t, s) && Match(s, s', r)
    ensures Inv(t, s')
  {
    var n, x := |t|, s.nodes[r];
    assert NodeOk(t, s, r);
    var p := RecvFrom(n, r, x.iter).value;
    SlotInvertsSchedule(n, p, r, x.iter);
    assert ChannelOk(t, s, p, r);
    forall q | 0 <= q < n ensures NodeOk(t, s', q) { assert NodeOk(t, s, q); }
    forall a, b | 0 <= a < n && 0 <= b < n ensures ChannelOk(t, s', a, b) {
      SlotInvertsSchedule(n, a, r, x.iter);
      EveryPairOnce(n, a, b);
      if a != p || b != r {
        assert ChannelOk(t, s, a, b);
        UntouchedChannel(t, s, s', a, b);
      }
    }
  }

  /** A message that names the partner's block from its start to its end is taken over as it is. */
  lemma ReconcileBlock(links: seq<Link>, p: nat, lo: nat, c: nat, msg: seq<Entry>)
    requires Sorted(links) && lo == Lower(links, p) && c == Count(links, p) && |msg| == c && NamesFrom(links, lo, msg)
    ensures Reconciled(links, p, msg) == Ok(WithIds(links, lo, msg))
  {
    BlockAtLower(links, p);
    WalkSucceeds(links, p, WalkStart(links, p), msg);
    assert c == 0 ==> WithIds(links, WalkStart(links, p), msg) == WithIds(links, lo, msg);
  }

  /** The entries name c links of x from lo on, in order, and carry the IDs of those of y from lo' on. */
  ghost predicate Carries(x: seq<Link>, lo: nat, c: nat, y: seq<Link>, lo': nat, msg: seq<Entry>) {
    && |msg| == c && lo + c <= |x| && lo' + c <= |y|
    && forall i :: 0 <= i < c ==> msg[i].name == x[lo + i].name && msg[i].id == y[lo' + i].id
  }

  lemma OutgoingCarries(y: seq<Link>, r: nat, lo: nat, c: nat, msg: seq<Entry>)
    requires lo == Lower(y, r) && c == Count(y, r) && lo + c <= |y| && msg == Outgoing(y, r)
    ensures Carries(y, lo, c, y, lo, msg)
  {
  }

  lemma SentBlock(x: seq<Link>, p: nat, lo: nat, c: nat, y: seq<Link>, r: nat, lo': nat, c': nat, msg: seq<Entry>)
    requires Sorted(x) && Sorted(y) && Agree(x, p, y, r)
    requires Block(x, p, lo, c) && Block(y, r, lo', c')
    requires Carries(y, lo', c', y, lo', msg)
    ensures Carries(x, lo, c, y, lo', msg)
  {
    AgreeInOrder(x, p, lo, c, y, r, lo', c');
    forall i | 0 <= i < c ensures msg[i].name == x[lo + i].name {
      assert x[lo + i].name == y[lo' + (lo + i - lo)].name;
    }
  }

  /** How one ID changes in the iteration in which r receives from p. */
  lemma IdAfter(t: Table, r: nat, i: nat, k: nat, p: nat)
    requires Consistent(t) && r < |t| && i < |t[r]| && p < |t| && Slot(|t|, p, r) == Some(k)
    requires t[r][i].remote == p ==> 0 <= Partner(t, r, i) < |t[p]|
    ensures IdAt(t, r, i, k + 1) == if t[r][i].remote == p then t[p][Partner(t, r, i)].id else IdAt(t, r, i, k)
  {
    var q := t[r][i].remote;
    if q != p && Slot(|t|, q, r) == Some(k) {
      SlotIsInjective(|t|, p, q, r);
    }
  }

  /** Putting the partner's IDs into its block is the change from iteration k to k + 1. */
  lemma BlockTakesIds(t: Table, r: nat, k: nat, p: nat, lo: nat, c: nat, lo': nat, msg: seq<Entry>)
    requires Consistent(t) && r < |t| && p < |t| && Slot(|t|, p, r) == Some(k)
    requires lo == Lower(t[r], p) && lo' == Lower(t[p], r) && Block(t[r], p, lo, c)
             && Carries(t[r], lo, c, t[p], lo', msg)
    ensures WithIds(LinksAt(t, r, k), lo, msg) == LinksAt(t, r, k + 1)
  {
    var before, after := LinksAt(t, r, k), LinksAt(t, r, k + 1);
    forall i | 0 <= i < |t[r]|
      ensures after[i] == before[i].(id := if lo <= i < lo + c then msg[i - lo].id else before[i].id)
    {
      IdOfBlock(t, r, i, k, p, lo, c, lo', msg);
    }
    ReplacedIds(before, after, lo, msg);
  }

  lemma ReplacedIds(before: seq<Link>, after: seq<Link>, lo: nat, msg: seq<Entry>)
    requires |before| == |after| && lo + |msg| <= |before|
    requires forall i :: 0 <= i < |after| ==>
               after[i] == before[i].(id := if lo <= i < lo + |msg| then msg[i - lo].id else before[i].id)
    ensures WithIds(before, lo, msg) == after
  {
  }

  lemma IdOfBlock(t: Table, r: nat, i: nat, k: nat, p: nat, lo: nat, c: nat, lo': nat, msg: seq<Entry>)
    requires Consistent(t) && r < |t| && i < |t[r]| && p < |t| && Slot(|t|, p, r) == Some(k)
    requires lo == Lower(t[r], p) && lo' == Lower(t[p], r) && Block(t[r], p, lo, c)
             && Carries(t[r], lo, c, t[p], lo', msg)
    ensures IdAt(t, r, i, k + 1) == if lo <= i < lo + c then msg[i - lo].id else IdAt(t, r, i, k)
  {
    if t[r][i].remote == p {
      assert Partner(t, r, i) == lo' + (i - lo);
    }
    IdAfter(t, r, i, k, p);
  }

  lemma SlotIsInjective(n: nat, p: nat, q: nat, r: nat)
    requires p < n && q < n && r < n && Slot(n, p, r).Some? && Slot(n, p, r) == Slot(n, q, r)
    ensures p == q
  {
  }

  /** Reconciling with the partner's message turns the links of iteration k into those of k + 1. */
  lemma ReceivesPartnerIds(t: Table, r: nat, k: nat, p: nat)
    requires Consistent(t) && r < |t| && 1 <= k <= Rounds(|t|) && RecvFrom(|t|, r, k) == Some(p)
    ensures Reconciled(LinksAt(t, r, k), p, Sent(t, p, r)) == Ok(LinksAt(t, r, k + 1))
  {
    SlotInvertsSchedule(|t|, p, r, k);
    EveryPairOnce(|t|, p, r);
    assert RankSorted(t, r) && RankSorted(t, p);
    BlockAtLower(t[r], p);
    BlockAtLower(t[p], r);
    ReceivesBlock(t, r, k, p, Lower(t[r], p), Count(t[r], p), Lower(t[p], r), Count(t[p], r),
                  LinksAt(t, r, k), Sent(t, p, r));
  }

  lemma ReceivesBlock(t: Table, r: nat, k: nat, p: nat, lo: nat, c: nat, lo': nat, c': nat,
                      links: seq<Link>, msg: seq<Entry>)
    requires Consistent(t) && r < |t| && p < |t| && p != r && Slot(|t|, p, r) == Some(k)
    requires lo == Lower(t[r], p) && c == Count(t[r], p) && lo' == Lower(t[p], r) && c' == Count(t[p], r)
    requires Block(t[r], p, lo, c) && Block(t[p], r, lo', c')
    requires links == LinksAt(t, r, k) && msg == Sent(t, p, r)
    ensures Reconciled(links, p, msg) == Ok(LinksAt(t, r, k + 1))
  {
    assert RankSorted(t, r) && RankSorted(t, p) && PartnersAgree(t, r, p);
    OutgoingCarries(t[p], r, lo', c', msg);
    SentBlock(t[r], p, lo, c, t[p], r, lo', c', msg);
    BlockTakesIds(t, r, k, p, lo, c, lo', msg);
    CarriedBlock(t[r], links, p, lo, c, t[p], lo', msg);
  }

  lemma CarriedBlock(x: seq<Link>, links: seq<Link>, p: nat, lo: nat, c: nat, y: seq<Link>, lo': nat, msg: seq<Entry>)
    requires Sorted(x) && lo == Lower(x, p) && c == Count(x, p) && Carries(x, lo, c, y, lo', msg)
    requires |x| == |links| && forall i :: 0 <= i < |x| ==> links[i].remote == x[i].remote && links[i].name == x[i].name
    ensures Reconciled(links, p, msg) == Ok(WithIds(links, lo, msg))
  {
    SameOrder(x, links, p);
    ReconcileBlock(links, p, lo, c, msg);
  }

  /** What a rank holds once it is done with an iteration. */
  lemma Received(t: Table, x: Node, r: nat, k: nat)
    requires Consistent(t) && r < |t| && k == x.iter && 1 <= k <= Rounds(|t|) && x.links == LinksAt(t, r, k)
    requires x.phase.Got? ==> RecvFrom(|t|, r, k).Some? && x.phase.msg == Sent(t, RecvFrom(|t|, r, k).value, r)
    ensures RecvFrom(|t|, r, k) == None ==> x.links == LinksAt(t, r, k + 1)
    ensures RecvFrom(|t|, r, k).Some? && x.phase.Got? ==>
              Reconciled(x.links, RecvFrom(|t|, r, k).value, x.phase.msg) == Ok(LinksAt(t, r, k + 1))
  {
    match RecvFrom(|t|, r, k) {
      case None => KeepsWithoutReceive(t, r, k);
      case Some(p) =>
        if x.phase.Got? {
          ReceivedFrom(t, r, k, p, x.links, x.phase.msg);
        }
    }
  }

  lemma ReceivedFrom(t: Table, r: nat, k: nat, p: nat, links: seq<Link>, msg: seq<Entry>)
    requires Consistent(t) && r < |t| && 1 <= k <= Rounds(|t|) && RecvFrom(|t|, r, k) == Some(p)
    requires links == LinksAt(t, r, k) && msg == Sent(t, p, r)
    ensures Reconciled(links, p, msg) == Ok(LinksAt(t, r, k + 1))
  {
    ReceivesPartnerIds(t, r, k, p);
  }

  /** Rank r goes on from iteration k to the next with the links it should hold. */
  ghost predicate Moved(t: Table, s: State, s': State, r: nat, k: nat)
    requires Consistent(t) && s.Running? && |s.nodes| == |t| && r < |t|
  {
    && 1 <= k == s.nodes[r].iter <= Rounds(|t|) && s.nodes[r].phase != Ready
    && (RecvFrom(|t|, r, k).Some? ==> s.nodes[r].phase.Got?)
    && s' == Running(s.nodes[r := Node(k + 1, Ready, LinksAt(t, r, k + 1))], s.channels)
  }

  /** What a rank holds when it goes on to the next iteration. */
  lemma FinishMoves(t: Table, s: State, s': State, r: nat, k: nat, buffered: bool)
    requires Consistent(t) && s.Running? && |s.nodes| == |t| && r < |t| && NodeOk(t, s, r) && Finish(s, s', r, buffered)
    requires k == s.nodes[r].iter
    ensures Moved(t, s, s', r, k)
  {
    Received(t, s.nodes[r], r, k);
    match RecvFrom(|t|, r, k) {
      case None => FinishWithout(s, s', r, buffered);
      case Some(p) => FinishWith(s, s', r, buffered, p, LinksAt(t, r, k + 1));
    }
  }

  /** Going on to the next iteration leaves every channel right. */
  lemma MovedChannel(t: Table, s: State, s': State, r: nat, k: nat, a: nat, b: nat)
    requires Consistent(t) && s.Running? && |s.nodes| == |t| && r < |t| && a < |t| && b < |t| && ChannelOk(t, s, a, b)
    requires 1 <= k == s.nodes[r].iter <= Rounds(|t|) && s.nodes[r].phase != Ready
    requires RecvFrom(|t|, r, k).Some? ==> s.nodes[r].phase.Got?
    requires s'.Running? && s'.channels == s.channels && |s'.nodes| == |t|
    requires s'.nodes == s.nodes[r := Node(k + 1, Ready, s'.nodes[r].links)]
    ensures ChannelOk(t, s', a, b)
  {
    SlotInvertsSchedule(|t|, a, r, k);
    EveryPairOnce(|t|, a, b);
    UntouchedChannel(t, s, s', a, b);
  }

  lemma KeepsWithoutReceive(t: Table, r: nat, k: nat)
    requires Consistent(t) && r < |t| && 1 <= k <= Rounds(|t|) && RecvFrom(|t|, r, k) == None
    ensures LinksAt(t, r, k + 1) == LinksAt(t, r, k)
  {
    forall i | 0 <= i < |t[r]| ensures IdAt(t, r, i, k + 1) == IdAt(t, r, i, k) {
      SlotInvertsSchedule(|t|, t[r][i].remote, r, k);
    }
  }

  /** A rank that goes on as it should keeps the invariant. */
  lemma MovedKeeps(t: Table, s: State, s': State, r: nat, k: nat)
    requires Consistent(t) && Inv(t, s) && r < |t| && Moved(t, s, s', r, k)
    ensures Inv(t, s')
  {
    forall q | 0 <= q < |t| ensures NodeOk(t, s', q) { assert NodeOk(t, s, q); }
    forall a, b | 0 <= a < |t| && 0 <= b < |t| ensures ChannelOk(t, s', a, b) {
      assert ChannelOk(t, s, a, b);
      MovedChannel(t, s, s', r, k, a, b);
    }
  }

  lemma FinishKeeps(t: Table, s: State, s': State, r: nat, buffered: bool)
    requires Consistent(t) && Inv(t, s) && Finish(s, s', r, buffered)
    ensures Inv(t, s')
  {
    assert NodeOk(t, s, r);
    FinishMoves(t, s, s', r, s.nodes[r].iter, buffered);
    MovedKeeps(t, s, s', r, s.nodes[r].iter);
  }

  /** Consistent inputs never abort, and every reachable state satisfies the invariant. */
  lemma {:induction false} RunInv(t: Table, run: seq<State>, k: nat)
    requires Consistent(t) && Run(t, run) && k < |run|
    ensures Inv(t, run[k])
    decreases k
  {
    if k == 0 {
      InitInv(t);
    } else {
      RunInv(t, run, k - 1);
      var s, s' := run[k - 1], run[k];
      assert Step(s, s');
      var r: nat :| Post(s, s', r) || Match(s, s', r) || Finish(s, s', r, true);
      if Post(s, s', r) {
        PostKeeps(t, s, s', r);
      } else if Match(s, s', r) {
        MatchKeeps(t, s, s', r);
      } else {
        FinishKeeps(t, s, s', r, true);
      }
    }
  }

  // ------------------------------------------------ the result

  /** No two link ends of the job start with the same ID. */
  ghost predicate UniqueIds(t: Table) {
    forall r, i, q, j :: 0 <= r < |t| && 0 <= i < |t[r]| && 0 <= q < |t| && 0 <= j < |t[q]| && t[r][i].id == t[q][j].id
      ==> r == q && i == j
  }

  /** IDs that carry the rank in the top 32 bits and a counter of the rank below are unique. */
  lemma RankPrefixedIds(t: Table, counter: (nat, nat) -> nat)
    requires forall r, i :: 0 <= r < |t| && 0 <= i < |t[r]| ==>
               0 < counter(r, i) < 0x1_0000_0000 && t[r][i].id == r * 0x1_0000_0000 + counter(r, i)
    requires forall r, i, j :: 0 <= r < |t| && 0 <= i < j < |t[r]| ==> counter(r, i) != counter(r, j)
    ensures UniqueIds(t)
  {
  }

  /** Once all ranks are done, each holds its links with the IDs after the last iteration. */
  lemma DoneLinks(t: Table, s: State, r: nat)
    requires Consistent(t) && Inv(t, s) && AllDone(s) && r < |t|
    ensures s.nodes[r].links == LinksAt(t, r, Rounds(|t|) + 1)
  {
    assert NodeOk(t, s, r);
  }

  /** The final ID of a link end is the initial ID of whichever end was on the sending rank. */
  lemma FinalId(t: Table, r: nat, i: nat)
    requires Consistent(t) && r < |t| && i < |t[r]|
    ensures var p, j := t[r][i].remote, Partner(t, r, i);
            && 0 <= j < |t[p]|
            && IdAt(t, r, i, Rounds(|t|) + 1) == if Slot(|t|, r, p).Some? then t[r][i].id else t[p][j].id
  {
    PartnerIsMutual(t, r, i);
    EveryPairOnce(|t|, t[r][i].remote, r);
  }

  /**
   * When all ranks have left the exchange, both ends of every cross-rank link carry the same
   * ID, and nothing but IDs has changed.
   */
  lemma EndsAgree(t: Table, s: State, r: nat, i: nat)
    requires Consistent(t) && Inv(t, s) && AllDone(s) && r < |t| && i < |t[r]|
    ensures var p, j := t[r][i].remote, Partner(t, r, i);
            && |s.nodes[r].links| == |t[r]| && 0 <= j < |t[p]| == |s.nodes[p].links|
            && s.nodes[r].links[i].remote == p && s.nodes[p].links[j].remote == r
            && s.nodes[r].links[i].name == t[r][i].name == s.nodes[p].links[j].name
            && s.nodes[r].links[i].id == s.nodes[p].links[j].id
  {
    PartnerIsMutual(t, r, i);
    var p, j := t[r][i].remote, Partner(t, r, i);
    DoneLinks(t, s, r);
    DoneLinks(t, s, p);
    FinalId(t, r, i);
    FinalId(t, p, j);
    EveryPairOnce(|t|, r, p);
  }

  /** Two link ends finish with the same ID only if they are the two ends of one link. */
  lemma DistinctLinksKeepDistinctIds(t: Table, s: State, r: nat, i: nat, q: nat, j: nat)
    requires Consistent(t) && UniqueIds(t) && Inv(t, s) && AllDone(s)
    requires r < |t| && i < |t[r]| && q < |t| && j < |t[q]|
    ensures |s.nodes[r].links| == |t[r]| && |s.nodes[q].links| == |t[q]|
    ensures s.nodes[r].links[i].id == s.nodes[q].links[j].id <==>
              (q == r && j == i) || (q == t[r][i].remote && j == Partner(t, r, i))
  {
    DoneLinks(t, s, r);
    DoneLinks(t, s, q);
    EndsAgree(t, s, r, i);
    FinalId(t, r, i);
    FinalId(t, q, j);
    PartnerIsMutual(t, r, i);
    PartnerIsMutual(t, q, j);
  }

  /** The whole run: it never aborts, and if it cannot go on, every link has one ID at both ends. */
  lemma ExchangeReconciles(t: Table, run: seq<State>)
    requires Consistent(t) && Run(t, run)
    requires Stuck(run[|run| - 1])
    ensures run[|run| - 1].Running? && AllDone(run[|run| - 1])
    ensures forall r, i :: 0 <= r < |t| && 0 <= i < |t[r]| ==>
              var nodes, p, j := run[|run| - 1].nodes, t[r][i].remote, Partner(t, r, i);
              && |nodes| == |t| && |nodes[r].links| == |t[r]| && 0 <= j < |nodes[p].links|
              && nodes[p].links[j].name == nodes[r].links[i].name && nodes[p].links[j].id == nodes[r].links[i].id
  {
    var s := run[|run| - 1];
    RunInv(t, run, |run| - 1);
    assert AllSorted(t);
    StuckIsOver(t, run);
    forall r, i | 0 <= r < |t| && 0 <= i < |t[r]|
      ensures var nodes, p, j := s.nodes, t[r][i].remote, Partner(t, r, i);
              && |nodes| == |t| && |nodes[r].links| == |t[r]| && 0 <= j < |nodes[p].links|
              && nodes[p].links[j].name == nodes[r].links[i].name && nodes[p].links[j].id == nodes[r].links[i].id
    {
      EndsAgree(t, s, r, i);
    }
  }
}
