/**
 * Restoring links from a checkpoint (link.cc, linkPair.h): the two ends of a link are
 * unpacked one by one, in either order and perhaps in different simulations, and have to
 * find each other and their latencies again. Attached tools and pending events are left out.
 */
module LinkRestart {
  import opened Wrappers

  /** RankInfo. */
  datatype Rank = Rank(rank: nat, thread: nat)

  /** Link::Type, as far as it matters here. */
  datatype Type = UNINITIALIZED | HANDLER | POLL | SYNC

  /** Where a link puts its events: nowhere yet, the TimeVortex, a polling queue with its contents, a sync queue. */
  datatype Queue = NoQueue | TimeVortex | Polling(contents: seq<nat>) | SyncQueue(to: Rank)

  /** Whether the link was connected to itself, to a link of its partition, or to another partition. */
  datatype Kind = Self | Regular | Sync

  /** What was saved for one end of a link. The queue and the handler are those of its pair link. */
  datatype Record = Record(kind: Kind, rank: Rank, pairRank: Rank, id: nat, linkType: Type, mode: nat, tag: nat,
                           queue: seq<nat>, deliveryInfo: nat, handler: nat, timeBase: nat, latency: nat,
                           pairLatency: nat)

  /** The fields of a link at one time. */
  datatype Fields = Fields(sendQueue: Queue, deliveryInfo: nat, defaultTimeBase: nat, latency: nat, pairLink: Link?,
                           linkType: Type, mode: nat, tag: nat, id: nat)

  class Link {
    var sendQueue: Queue
    var deliveryInfo: nat
    var defaultTimeBase: nat
    var latency: nat
    var pairLink: Link?
    var linkType: Type
    var mode: nat
    var tag: nat
    var id: nat

    constructor ()
      ensures latency == 1 && pairLink == null && linkType == UNINITIALIZED && sendQueue == NoQueue
    {
      sendQueue, deliveryInfo, defaultTimeBase, latency, pairLink := NoQueue, 0, 0, 1, null;
      linkType, mode, tag, id := UNINITIALIZED, 0, 0xFFFF_FFFF, 0;
    }

    function View(): Fields
      reads this
    {
      Fields(sendQueue, deliveryInfo, defaultTimeBase, latency, pairLink, linkType, mode, tag, id)
    }

    /** SelfLink. */
    constructor ToSelf()
      ensures latency == 0 && pairLink == this && linkType == UNINITIALIZED && sendQueue == NoQueue
    {
      sendQueue, deliveryInfo, defaultTimeBase, latency, pairLink := NoQueue, 0, 0, 0, this;
      linkType, mode, tag, id := UNINITIALIZED, 0, 0xFFFF_FFFF, 0;
    }
  }

  /** LinkPair: two links that are each other's pair. */
  method LinkPair() returns (left: Link, right: Link)
    ensures fresh(left) && fresh(right) && left != right
    ensures left.pairLink == right && right.pairLink == left
    ensures left.latency == 1 && right.latency == 1
  {
    left := new Link();
    right := new Link();
    left.pairLink := right;
    right.pairLink := left;
  }

  /** The latency that was added on the receiving side, which only links to other partitions save. */
  function ReceiveLatency(r: Record): nat {
    if r.kind == Sync then r.pairLatency else 0
  }

  /** The queue and the handler that the link's pair gets. */
  function QueueOf(r: Record): Queue {
    if r.linkType == POLL then Polling(r.queue) else TimeVortex
  }

  /** The two links made for an ID: the first record unpacked became the left one, the second the right one. */
  datatype Pair = Pair(left: Link, right: Link, first: Record, second: Option<Record>)

  /** The fields that a link gets from its own record. */
  predicate Restored(r: Record, link: Fields) {
    && link.id == r.id && link.linkType == r.linkType && link.mode == r.mode
    && link.tag == r.tag && link.defaultTimeBase == r.timeBase
  }

  /** The fields that the pair of a link gets from the link's record. */
  predicate Feeds(r: Record, pair: Fields) {
    pair.sendQueue == QueueOf(r) && (r.linkType != POLL ==> pair.deliveryInfo == r.handler)
  }

  /** The two pairs have no link in common. */
  predicate Disjoint(p: Pair, q: Pair) {
    p.left != q.left && p.left != q.right && p.right != q.left && p.right != q.right
  }

  /** Links of different IDs are different links. */
  ghost predicate Apart(pairs: map<nat, Pair>) {
    forall id, id' :: id in pairs && id' in pairs && id != id' ==> Disjoint(pairs[id], pairs[id'])
  }

  lemma ApartWithSecond(pairs: map<nat, Pair>, id: nat, r: Record)
    requires Apart(pairs) && id in pairs
    ensures Apart(pairs[id := pairs[id].(second := Some(r))])
  {
    var after := pairs[id := pairs[id].(second := Some(r))];
    forall i, j | i in after && j in after && i != j ensures Disjoint(after[i], after[j]) {
      assert Disjoint(pairs[i], pairs[j]);
    }
  }

  lemma ApartWithNew(pairs: map<nat, Pair>, id: nat, p: Pair)
    requires Apart(pairs) && id !in pairs && forall i :: i in pairs ==> Disjoint(pairs[i], p)
    ensures Apart(pairs[id := p])
  {
  }

  /** Who the simulation is, and how it was restarted. */
  datatype Setting = Setting(rank: Rank, sameParallelism: bool, serial: bool)
  {
    /** getRankForLinkOnRestart. */
    function RankOnRestart(saved: Rank): Rank {
      if serial then Rank(0, 0) else saved
    }

    /** Where the other end of a link is restored. */
    function PairRankOnRestart(r: Record): Rank {
      RankOnRestart(if r.kind == Sync then r.pairRank else r.rank)
    }

    /** The other end is restored in another simulation. */
    predicate IsRestartSync(r: Record) {
      r.kind != Self && sameParallelism && rank != PairRankOnRestart(r)
    }

    /**
     * The two links of an ID are each other's pair and hold what was saved of the ends restored
     * so far. While only one is, its pair is a placeholder, which the tracker holds.
     */
    predicate Consistent(id: nat, p: Pair, left: Fields, right: Fields, held: Option<Link>) {
      && p.left != p.right && left.pairLink == p.right && right.pairLink == p.left
      && p.first.id == id && p.first.kind != Self && Restored(p.first, left) && Feeds(p.first, right)
      && match p.second
         case None =>
           && held == Some(p.right)
           && left.latency == p.first.latency && right.latency == ReceiveLatency(p.first)
           && (IsRestartSync(p.first) ==>
                 && left.sendQueue == SyncQueue(PairRankOnRestart(p.first))
                 && right.linkType == SYNC && right.id == id && right.mode == p.first.mode
                 && right.tag == p.first.tag && right.defaultTimeBase == 1)
         case Some(second) =>
           && held == None && second.id == id && second.kind != Self
           && !IsRestartSync(p.first) && !IsRestartSync(second)
           && Restored(second, right) && Feeds(second, left)
           && left.latency == p.first.latency + ReceiveLatency(second)
           && right.latency == second.latency + ReceiveLatency(p.first)
    }
  }

  /** The link that the tracker holds for an ID. */
  function Held(tracker: map<nat, Link>, id: nat): Option<Link> {
    if id in tracker then Some(tracker[id]) else None
  }

  /** The tracker without an ID. */
  function Erase(tracker: map<nat, Link>, id: nat): map<nat, Link> {
    map i | i in tracker && i != id :: tracker[i]
  }

  lemma EraseOne(tracker: map<nat, Link>, id: nat)
    ensures Held(Erase(tracker, id), id) == None
    ensures forall i :: i != id ==> Held(Erase(tracker, id), i) == Held(tracker, i)
  {
  }

  /** Everything restored so far is consistent; w has the fields of all links. */
  ghost predicate AllConsistent(c: Setting, pairs: map<nat, Pair>, w: map<Link, Fields>, tracker: map<nat, Link>) {
    && (forall id :: id in tracker ==> id in pairs)
    && Apart(pairs)
    && forall id :: id in pairs ==> ConsistentAt(c, pairs, w, tracker, id)
  }

  ghost predicate ConsistentAt(c: Setting, pairs: map<nat, Pair>, w: map<Link, Fields>, tracker: map<nat, Link>,
                               id: nat)
    requires id in pairs
  {
    && pairs[id].left in w && pairs[id].right in w
    && c.Consistent(id, pairs[id], w[pairs[id].left], w[pairs[id].right], Held(tracker, id))
  }

  /** Only the links of one ID have changed, and they are consistent. */
  lemma OneIdChanged(c: Setting, pairs: map<nat, Pair>, w: map<Link, Fields>, tracker: map<nat, Link>,
                     pairs': map<nat, Pair>, w': map<Link, Fields>, tracker': map<nat, Link>, id: nat)
    requires AllConsistent(c, pairs, w, tracker) && Apart(pairs') && id in pairs' && pairs' == pairs[id := pairs'[id]]
    requires forall i :: i != id ==> Held(tracker', i) == Held(tracker, i)
    requires forall l :: l in w && l != pairs'[id].left && l != pairs'[id].right ==> l in w' && w'[l] == w[l]
    requires ConsistentAt(c, pairs', w', tracker', id)
    ensures AllConsistent(c, pairs', w', tracker')
  {
    forall i | i in pairs' ensures ConsistentAt(c, pairs', w', tracker', i) {
      if i != id {
        assert ConsistentAt(c, pairs, w, tracker, i);
        assert Disjoint(pairs'[i], pairs'[id]);
      }
    }
    forall i | i in tracker' ensures i in pairs' {
      assert i != id ==> Held(tracker, i).Some?;
    }
  }

  /** The second end of an ID has been restored, and the tracker has let go of it. */
  lemma SecondAdded(c: Setting, pairs: map<nat, Pair>, w: map<Link, Fields>, tracker: map<nat, Link>,
                    w': map<Link, Fields>, id: nat, p: Pair, r: Record)
    requires AllConsistent(c, pairs, w, tracker) && id in pairs && pairs[id] == p
    requires w'.Keys == w.Keys && forall l :: l in w && l != p.left && l != p.right ==> w'[l] == w[l]
    requires p.left in w && p.right in w && c.Consistent(id, p.(second := Some(r)), w'[p.left], w'[p.right], None)
    ensures AllConsistent(c, pairs[id := p.(second := Some(r))], w', Erase(tracker, id))
  {
    ApartWithSecond(pairs, id, r);
    EraseOne(tracker, id);
    OneIdChanged(c, pairs, w, tracker, pairs[id := p.(second := Some(r))], w', Erase(tracker, id), id);
  }

  // ------------------------------------------------ what is preserved

  /** The latency from the end of one record to that of the other: sent there, and added on receipt here. */
  function Direction(sender: Record, receiver: Record): nat {
    sender.latency + ReceiveLatency(receiver)
  }

  /** Restored in two simulations, the sending link and the placeholder at the receiver add up to it. */
  lemma SplitLatencies(c: Setting, id: nat, p: Pair, left: Fields, right: Fields, held: Option<Link>,
                       c': Setting, p': Pair, left': Fields, right': Fields, held': Option<Link>)
    requires c.Consistent(id, p, left, right, held) && p.second.None?
    requires c'.Consistent(id, p', left', right', held') && p'.second.None?
    ensures left.latency + right'.latency == Direction(p.first, p'.first)
    ensures left'.latency + right.latency == Direction(p'.first, p.first)
  {
  }

  /** Two links send alike; the handler only matters if the receiver has one. */
  predicate SameBehaviour(l: Fields, m: Fields, receiver: Record) {
    && l.latency == m.latency && l.sendQueue == m.sendQueue
    && (receiver.linkType != POLL ==> l.deliveryInfo == m.deliveryInfo)
    && l.id == m.id && l.linkType == m.linkType && l.mode == m.mode && l.tag == m.tag
    && l.defaultTimeBase == m.defaultTimeBase
  }

  // ------------------------------------------------ saving

  /** A link as the checkpoint writer finds it, next to its pair. */
  predicate Packable(link: Fields, pair: Fields) {
    && (link.linkType == POLL ==> pair.sendQueue.Polling?)
    && (pair.linkType == SYNC ==> link.sendQueue.SyncQueue?)
  }

  /** What is saved of a link on rank `rank`; `self` if it is its own pair. */
  function Pack(rank: Rank, self: bool, link: Fields, pair: Fields): Record
    requires Packable(link, pair)
  {
    var kind := if self then Self else if pair.linkType == SYNC then Sync else Regular;
    Record(kind, rank, if kind == Sync then link.sendQueue.to else rank, link.id, link.linkType, link.mode, link.tag,
           if link.linkType == POLL then pair.sendQueue.contents else [], pair.deliveryInfo, pair.deliveryInfo,
           link.defaultTimeBase, link.latency, pair.latency)
  }

  /** A running pair within one partition: each end's queue is what the other end's type calls for. */
  predicate Running(link: Fields, pair: Fields) {
    && Packable(link, pair) && link.linkType != SYNC && pair.linkType != SYNC && link.id == pair.id
    && (pair.linkType != POLL ==> link.sendQueue == TimeVortex)
  }

  /** Saving both ends of a link and restoring them in one simulation gives the link back. */
  lemma SaveAndRestore(c: Setting, rank: Rank, a: Fields, b: Fields, p: Pair, left: Fields, right: Fields,
                       held: Option<Link>)
    requires Running(a, b) && Running(b, a)
    requires p.first == Pack(rank, false, a, b) && p.second == Some(Pack(rank, false, b, a))
    requires c.Consistent(a.id, p, left, right, held)
    ensures SameBehaviour(left, a, p.second.value) && SameBehaviour(right, b, p.first)
  {
  }

  /**
   * Saving a link between partitions and restoring both ends in one simulation keeps each
   * direction's total latency.
   */
  lemma SyncJoined(c: Setting, rankA: Rank, a: Fields, pairOfA: Fields, rankB: Rank, b: Fields, pairOfB: Fields,
                   p: Pair, left: Fields, right: Fields, held: Option<Link>)
    requires Packable(a, pairOfA) && Packable(b, pairOfB) && pairOfA.linkType == SYNC && pairOfB.linkType == SYNC
    requires p.first == Pack(rankA, false, a, pairOfA) && p.second == Some(Pack(rankB, false, b, pairOfB))
    requires c.Consistent(a.id, p, left, right, held)
    ensures left.latency == a.latency + pairOfB.latency && right.latency == b.latency + pairOfA.latency
  {
  }

  /** One simulation being restarted. */
  class Restart {
    const setting: Setting
    /** link_restart_tracking. */
    var tracker: map<nat, Link>
    /** event_handler_restart_tracking. */
    var handlers: map<nat, nat>
    /** What has been restored so far, by ID. */
    ghost var pairs: map<nat, Pair>
    ghost var links: set<Link>

    constructor (setting: Setting)
      ensures Valid() && pairs == map[] && tracker == map[] && this.setting == setting
    {
      this.setting := setting;
      tracker, handlers, pairs, links := map[], map[], map[], {};
    }

    /** The fields of all links made so far. */
    ghost function Snapshot(): map<Link, Fields>
      reads this, links
    {
      map l | l in links :: l.View()
    }

    ghost predicate Valid()
      reads this, links
    {
      AllConsistent(setting, pairs, Snapshot(), tracker)
    }

    /** The tracker holds an ID exactly while one end of that link has been restored here. */
    lemma TrackedWhileOneEnd(id: nat)
      requires Valid()
      ensures id in tracker <==> id in pairs && pairs[id].second.None?
    {
      if id in pairs {
        assert ConsistentAt(setting, pairs, Snapshot(), tracker, id);
      }
    }

    /**
     * Whatever has been restored in whatever order: an ID with both ends here is one link with
     * each direction's whole latency, and one with a single end here is what the tracker holds.
     */
    lemma RestoredLink(id: nat)
      requires Valid() && id in pairs
      ensures var p := pairs[id];
              && p.left.pairLink == p.right && p.right.pairLink == p.left && p.left.id == id
              && match p.second
                 case Some(second) =>
                   && p.left.latency == Direction(p.first, second) && p.right.latency == Direction(second, p.first)
                   && p.right.id == id && id !in tracker
                 case None =>
                   && p.left.latency == p.first.latency && p.right.latency == ReceiveLatency(p.first)
                   && id in tracker && tracker[id] == p.right
    {
      var w, p := Snapshot(), pairs[id];
      assert ConsistentAt(setting, pairs, w, tracker, id);
      assert w[p.left] == p.left.View() && w[p.right] == p.right.View();
    }

    /**
     * Unpacks one end of a link. Each end is unpacked once, and in one simulation only: an end
     * whose other end is restored elsewhere is the only one of its link here.
     */
    method Unpack(r: Record) returns (s: Link)
      requires Valid()
      requires r.kind != Self && r.id in pairs ==>
                 pairs[r.id].second.None? && !setting.IsRestartSync(r) && !setting.IsRestartSync(pairs[r.id].first)
      modifies this, links
      ensures Valid()
      ensures r.kind == Self ==>
                fresh(s) && s.pairLink == s && s.latency == r.latency && pairs == old(pairs)
                && tracker == old(tracker)
      ensures r.kind == Self ==> s.id == r.id && s.linkType == r.linkType && s.sendQueue == QueueOf(r)
      ensures r.kind != Self && r.id !in old(pairs) ==>
                r.id in pairs && pairs == old(pairs)[r.id := pairs[r.id]] && pairs[r.id].left == s
                && pairs[r.id].first == r && pairs[r.id].second == None
                && tracker == old(tracker)[r.id := pairs[r.id].right]
      ensures r.kind != Self && r.id in old(pairs) ==>
                pairs == old(pairs)[r.id := old(pairs)[r.id].(second := Some(r))] && pairs[r.id].right == s
                && tracker == Erase(old(tracker), r.id)
    {
      if r.kind == Self {
        s := new Link.ToSelf();
        RestoreFields(s, s, r);
      } else if !setting.IsRestartSync(r) && r.id in tracker {
        s := UnpackSecond(r);
      } else {
        s := UnpackFirst(r);
      }
    }

    /** The other end is already here: take its pair from the tracker. */
    method UnpackSecond(r: Record) returns (s: Link)
      requires Valid() && r.kind != Self && r.id in tracker && !setting.IsRestartSync(r)
      requires r.id in pairs && pairs[r.id].second.None? && !setting.IsRestartSync(pairs[r.id].first)
      modifies this, links
      ensures Valid()
      ensures pairs == old(pairs)[r.id := old(pairs)[r.id].(second := Some(r))] && pairs[r.id].right == s
      ensures tracker == Erase(old(tracker), r.id)
    {
      ghost var p, w, pairsBefore, trackerBefore := pairs[r.id], Snapshot(), pairs, tracker;
      assert ConsistentAt(setting, pairs, w, tracker, r.id);
      s := tracker[r.id];
      RestoreSecond(s, s.pairLink, r, p);
      tracker := Erase(tracker, r.id);
      pairs := pairs[r.id := p.(second := Some(r))];
      SecondAdded(setting, pairsBefore, w, trackerBefore, Snapshot(), r.id, p, r);
    }

    /** Unpacks the second end into the placeholder that was made with the first. */
    method RestoreSecond(s: Link, pair: Link, r: Record, ghost p: Pair)
      requires setting.Consistent(r.id, p, pair.View(), s.View(), Some(s)) && p.left == pair && p.second == None
      requires r.kind != Self && !setting.IsRestartSync(r) && !setting.IsRestartSync(p.first)
      modifies s, pair, this`handlers
      ensures setting.Consistent(r.id, p.(second := Some(r)), pair.View(), s.View(), None)
    {
      RestoreFields(s, pair, r);
    }

    /** The first end, or the only one here: make a pair and let the tracker hold the other end. */
    method UnpackFirst(r: Record) returns (s: Link)
      requires Valid() && r.kind != Self && r.id !in pairs
      modifies this
      ensures Valid() && fresh(s)
      ensures r.id in pairs && pairs == old(pairs)[r.id := pairs[r.id]] && pairs[r.id].left == s
      ensures pairs[r.id].first == r && pairs[r.id].second == None && tracker == old(tracker)[r.id := pairs[r.id].right]
    {
      ghost var w, pairsBefore, trackerBefore := Snapshot(), pairs, tracker;
      var right;
      s, right := RestoreFirst(r);
      tracker := tracker[r.id := right];
      pairs := pairs[r.id := Pair(s, right, r, None)];
      links := links + {s, right};
      forall i | i in pairsBefore ensures Disjoint(pairsBefore[i], pairs[r.id]) {
        assert ConsistentAt(setting, pairsBefore, w, trackerBefore, i);
      }
      ApartWithNew(pairsBefore, r.id, pairs[r.id]);
      OneIdChanged(setting, pairsBefore, w, trackerBefore, pairs, Snapshot(), tracker, r.id);
    }

    /** Unpacks an end into the left link of a new pair. */
    method RestoreFirst(r: Record) returns (left: Link, right: Link)
      requires r.kind != Self
      modifies this`handlers
      ensures fresh(left) && fresh(right)
      ensures setting.Consistent(r.id, Pair(left, right, r, None), left.View(), right.View(), Some(right))
    {
      left, right := LinkPair();
      left.latency := 0;
      right.latency := 0;
      RestoreFields(left, right, r);
      if setting.IsRestartSync(r) {
        right.linkType := SYNC;
        right.mode := left.mode;
        right.tag := left.tag;
        right.defaultTimeBase := 1;
        right.id := left.id;
        left.sendQueue := SyncQueue(setting.PairRankOnRestart(r));
      }
    }

    /** The fields that are unpacked for every kind of link, into the link and its pair. */
    method RestoreFields(s: Link, pair: Link, r: Record)
      requires s.pairLink == pair
      modifies s, pair, this`handlers
      ensures Restored(r, s.View()) && Feeds(r, pair.View())
      ensures s.pairLink == pair && pair.pairLink == old(pair.pairLink)
      ensures s == pair ==> s.latency == old(s.latency) + r.latency + ReceiveLatency(r)
      ensures s != pair ==>
                s.latency == old(s.latency) + r.latency
                && pair.latency == old(pair.latency) + ReceiveLatency(r)
      ensures s != pair ==> s.sendQueue == old(s.sendQueue) && s.deliveryInfo == old(s.deliveryInfo)
      ensures s != pair ==>
                pair.id == old(pair.id) && pair.linkType == old(pair.linkType)
                && pair.mode == old(pair.mode) && pair.tag == old(pair.tag)
                && pair.defaultTimeBase == old(pair.defaultTimeBase)
    {
      s.id := r.id;
      s.linkType := r.linkType;
      s.mode := r.mode;
      s.tag := r.tag;
      if s.linkType == POLL {
        s.pairLink.sendQueue := Polling(r.queue);
      } else {
        s.pairLink.sendQueue := TimeVortex;
        s.pairLink.deliveryInfo := r.handler;
        handlers := handlers[r.deliveryInfo := r.handler];
      }
      s.defaultTimeBase := r.timeBase;
      s.latency := s.latency + r.latency;
      if r.kind == Sync {
        s.pairLink.latency := s.pairLink.latency + r.pairLatency;
      }
    }
  }

  /**
   * Two simulations that have unpacked the same two ends of a link, in opposite orders and among
   * whatever else: what each end does is the same in both.
   */
  lemma OrderDoesNotMatter(x: Restart, y: Restart, id: nat)
    requires x.Valid() && y.Valid() && id in x.pairs && id in y.pairs
    requires x.pairs[id].second == Some(y.pairs[id].first) && y.pairs[id].second == Some(x.pairs[id].first)
    ensures var p, q := x.pairs[id], y.pairs[id];
            && SameBehaviour(p.left.View(), q.right.View(), q.first)
            && SameBehaviour(p.right.View(), q.left.View(), p.first)
  {
    var v, w := x.Snapshot(), y.Snapshot();
    assert ConsistentAt(x.setting, x.pairs, v, x.tracker, id) && ConsistentAt(y.setting, y.pairs, w, y.tracker, id);
    assert v[x.pairs[id].left] == x.pairs[id].left.View() && v[x.pairs[id].right] == x.pairs[id].right.View();
    assert w[y.pairs[id].left] == y.pairs[id].left.View() && w[y.pairs[id].right] == y.pairs[id].right.View();
  }
}
