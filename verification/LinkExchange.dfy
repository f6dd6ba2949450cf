/**
 * Reconciling link IDs after a parallel load (main.cc): each rank sends the names and IDs of
 * the links it shares with a partner, and the partner walks its own sorted links alongside.
 */
module LinkExchange {
  import opened Wrappers

  /** One end of a link that crosses ranks: the partner's rank, the link's name and its ID. */
  datatype Link = Link(remote: nat, name: string, id: nat)

  datatype Entry = Entry(name: string, id: nat)

  /** Unexpected: the partner sent a link not known here. Missing: a known link was not sent. */
  datatype Error = Unexpected(name: string) | Missing(name: string)

  type Walked = Result<seq<Link>, Error>

  // ------------------------------------------------ the order of link_vector

  /** std::string's operator<. */
  predicate Less(s: string, t: string) {
    if |t| == 0 then false
    else if |s| == 0 then true
    else s[0] < t[0] || (s[0] == t[0] && Less(s[1..], t[1..]))
  }

  lemma {:induction false} LessIsTotal(s: string, t: string)
    ensures Less(s, t) || Less(t, s) || s == t
    ensures !(Less(s, t) && Less(t, s)) && !Less(s, s)
    decreases |s|
  {
    if |s| > 0 {
      LessIsTotal(s[1..], s[1..]);
      if |t| > 0 {
        LessIsTotal(s[1..], t[1..]);
        assert s[0] == t[0] && s[1..] == t[1..] ==> s == [s[0]] + s[1..] == [t[0]] + t[1..] == t;
      }
    }
  }

  lemma {:induction false} LessIsTransitive(s: string, t: string, u: string)
    requires Less(s, t) && Less(t, u)
    ensures Less(s, u)
    decreases |s|
  {
    if |s| > 0 && s[0] == t[0] == u[0] {
      LessIsTransitive(s[1..], t[1..], u[1..]);
    }
  }

  /** Sorted by partner and then by name, with no two links of one partner sharing a name. */
  ghost predicate Sorted(links: seq<Link>) {
    forall i, j :: 0 <= i < j < |links| ==>
      links[i].remote < links[j].remote
      || (links[i].remote == links[j].remote && Less(links[i].name, links[j].name))
  }

  /** std::lower_bound on the partner rank. */
  function Lower(links: seq<Link>, rank: nat): (k: nat)
    ensures k <= |links|
    ensures forall i :: 0 <= i < k ==> links[i].remote < rank
    ensures k < |links| ==> links[k].remote >= rank
  {
    if |links| == 0 || links[0].remote >= rank then 0 else 1 + Lower(links[1..], rank)
  }

  /** The links shared with one partner lie between its lower bound and the next rank's. */
  lemma LowerSplits(links: seq<Link>, rank: nat)
    requires Sorted(links)
    ensures Lower(links, rank) <= Lower(links, rank + 1)
    ensures forall i :: 0 <= i < |links| ==>
              (Lower(links, rank) <= i < Lower(links, rank + 1) <==> links[i].remote == rank)
  {
    var lo, hi := Lower(links, rank), Lower(links, rank + 1);
    forall i | 0 <= i < |links|
      ensures lo <= i < hi <==> links[i].remote == rank
    {
      if lo < i { assert links[lo].remote <= links[i].remote; }
      if hi < i { assert links[hi].remote <= links[i].remote; }
    }
  }

  /** How many links are shared with a partner. */
  function Count(links: seq<Link>, rank: nat): int {
    Lower(links, rank + 1) - Lower(links, rank)
  }

  // ------------------------------------------------ what is sent

  /** The names and IDs of the links shared with rank `to`, in order. */
  function Outgoing(links: seq<Link>, to: nat): (msg: seq<Entry>)
    requires Count(links, to) >= 0
    ensures |msg| == Count(links, to)
    ensures forall i :: 0 <= i < |msg| ==>
              msg[i] == Entry(links[Lower(links, to) + i].name, links[Lower(links, to) + i].id)
  {
    seq(Count(links, to), i requires 0 <= i < Count(links, to) =>
      Entry(links[Lower(links, to) + i].name, links[Lower(links, to) + i].id))
  }

  /** The packing loop of the sender. */
  method Pack(links: seq<Link>, to: nat) returns (msg: seq<Entry>)
    requires Sorted(links)
    ensures Count(links, to) >= 0 && msg == Outgoing(links, to)
  {
    LowerSplits(links, to);
    var lo := Lower(links, to);
    var i := lo;
    msg := [];
    while i < |links| && links[i].remote == to
      invariant lo <= i <= Lower(links, to + 1) && |msg| == i - lo
      invariant forall j :: 0 <= j < |msg| ==> msg[j] == Entry(links[lo + j].name, links[lo + j].id)
    {
      msg := msg + [Entry(links[i].name, links[i].id)];
      i := i + 1;
    }
  }

  // ------------------------------------------------ the receiver's walk

  /** The walk from position pos: every entry must name the next local link, whose ID it replaces. */
  function Walk(links: seq<Link>, from: nat, pos: nat, msg: seq<Entry>): Walked
    requires pos <= |links|
    decreases |msg|
  {
    if |msg| == 0 then
      if pos < |links| && links[pos].remote == from then Err(Missing(links[pos].name)) else Ok(links)
    else if pos == |links| then Err(Unexpected(msg[0].name))
    else if msg[0].name != links[pos].name then
      if Less(msg[0].name, links[pos].name) then Err(Unexpected(msg[0].name)) else Err(Missing(links[pos].name))
    else Walk(links[pos := links[pos].(id := msg[0].id)], from, pos + 1, msg[1..])
  }

  /** Where the walk starts: at the partner's first link, or at the end if there is none. */
  function WalkStart(links: seq<Link>, from: nat): (k: nat)
    ensures k <= |links|
  {
    var lower := Lower(links, from);
    if lower < |links| && links[lower].remote != from then |links| else lower
  }

  function Reconciled(links: seq<Link>, from: nat, msg: seq<Entry>): Walked {
    Walk(links, from, WalkStart(links, from), msg)
  }

  /** The receiving half of one iteration, updating the IDs in place as the source does. */
  method Reconcile(links: array<Link>, from: nat, msg: seq<Entry>) returns (error: Option<Error>)
    modifies links
    ensures match Reconciled(old(links[..]), from, msg)
            case Ok(updated) => error == None && links[..] == updated
            case Err(e) => error == Some(e)
  {
    var pos := 0;
    while pos < links.Length && links[pos].remote < from
      invariant 0 <= pos <= links.Length
      invariant Lower(links[..], from) == pos + Lower(links[pos..], from)
    {
      assert links[pos..][1..] == links[pos + 1..];
      pos := pos + 1;
    }
    if pos < links.Length && links[pos].remote != from {
      pos := links.Length;
    }
    assert pos == WalkStart(links[..], from);
    for i := 0 to |msg|
      invariant 0 <= pos <= links.Length
      invariant Reconciled(old(links[..]), from, msg) == Walk(links[..], from, pos, msg[i..])
    {
      assert msg[i..][0] == msg[i] && msg[i..][1..] == msg[i + 1..];
      if pos == links.Length {
        return Some(Unexpected(msg[i].name));
      }
      if msg[i].name != links[pos].name {
        if Less(msg[i].name, links[pos].name) {
          return Some(Unexpected(msg[i].name));
        } else {
          return Some(Missing(links[pos].name));
        }
      }
      ghost var before := links[..];
      links[pos] := links[pos].(id := msg[i].id);
      assert links[..] == before[pos := before[pos].(id := msg[i].id)];
      pos := pos + 1;
    }
    assert msg[|msg|..] == [];
    if pos < links.Length && links[pos].remote == from {
      return Some(Missing(links[pos].name));
    }
    return None;
  }

  // ------------------------------------------------ when the walk succeeds

  /** The entries name the links from pos on, one by one. */
  predicate NamesFrom(links: seq<Link>, pos: nat, msg: seq<Entry>) {
    pos + |msg| <= |links| && forall i :: 0 <= i < |msg| ==> msg[i].name == links[pos + i].name
  }

  /** The links from pos on, with the IDs of the entries. */
  function WithIds(links: seq<Link>, pos: nat, msg: seq<Entry>): (updated: seq<Link>)
    requires pos + |msg| <= |links|
    ensures |updated| == |links|
    ensures forall i :: 0 <= i < |links| ==>
              updated[i] == if pos <= i < pos + |msg| then links[i].(id := msg[i - pos].id) else links[i]
  {
    seq(|links|, i requires 0 <= i < |links| =>
      if pos <= i < pos + |msg| then links[i].(id := msg[i - pos].id) else links[i])
  }

  /** The walk succeeds exactly if the names match to the end and the partner's links are used up. */
  lemma {:induction false} WalkSucceeds(links: seq<Link>, from: nat, pos: nat, msg: seq<Entry>)
    requires pos <= |links|
    ensures Walk(links, from, pos, msg).Ok? <==>
              NamesFrom(links, pos, msg)
              && (pos + |msg| < |links| ==> links[pos + |msg|].remote != from)
    ensures Walk(links, from, pos, msg).Ok? ==> Walk(links, from, pos, msg).value == WithIds(links, pos, msg)
    decreases |msg|
  {
    if |msg| == 0 {
      assert WithIds(links, pos, msg) == links;
    } else if pos < |links| && msg[0].name == links[pos].name {
      var next, rest := links[pos := links[pos].(id := msg[0].id)], msg[1..];
      WalkSucceeds(next, from, pos + 1, rest);
      NamesStep(links, next, pos, msg);
      if pos + |msg| <= |links| {
        assert WithIds(next, pos + 1, rest) == WithIds(links, pos, msg);
      }
    }
  }

  lemma NamesStep(links: seq<Link>, next: seq<Link>, pos: nat, msg: seq<Entry>)
    requires |msg| > 0 && pos < |links| == |next| && msg[0].name == links[pos].name
    requires forall i :: pos < i < |links| ==> next[i] == links[i]
    ensures NamesFrom(links, pos, msg) <==> NamesFrom(next, pos + 1, msg[1..])
  {
    if NamesFrom(next, pos + 1, msg[1..]) {
      forall i | 0 <= i < |msg|
        ensures msg[i].name == links[pos + i].name
      {
        if i > 0 { assert msg[1..][i - 1].name == next[pos + 1 + (i - 1)].name; }
      }
    }
    if NamesFrom(links, pos, msg) {
      forall i | 0 <= i < |msg| - 1
        ensures msg[1..][i].name == next[pos + 1 + i].name
      {
        assert msg[i + 1].name == links[pos + (i + 1)].name;
      }
    }
  }

  /** Some link shared with `from` has this name. */
  predicate Expects(links: seq<Link>, from: nat, name: string) {
    exists i :: 0 <= i < |links| && links[i].remote == from && links[i].name == name
  }

  /** Some entry has this name. */
  predicate Sends(msg: seq<Entry>, name: string) {
    exists j :: 0 <= j < |msg| && msg[j].name == name
  }

  /** The names the partner sends are exactly those of the links shared with it. */
  ghost predicate SameNames(links: seq<Link>, from: nat, msg: seq<Entry>) {
    forall name :: Expects(links, from, name) <==> Sends(msg, name)
  }

  ghost predicate SortedEntries(msg: seq<Entry>) {
    forall i, j :: 0 <= i < j < |msg| ==> Less(msg[i].name, msg[j].name)
  }

  /**
   * The walk passes the end of the partner's links: surplus entries happen to name the
   * local links that follow, which are shared with other ranks.
   */
  ghost predicate Overruns(links: seq<Link>, from: nat, msg: seq<Entry>) {
    && 0 < Count(links, from) < |msg|
    && NamesFrom(links, Lower(links, from), msg)
  }

  function Names(msg: seq<Entry>): (s: seq<string>)
    ensures |s| == |msg| && forall i :: 0 <= i < |s| ==> s[i] == msg[i].name
  {
    seq(|msg|, i requires 0 <= i < |msg| => msg[i].name)
  }

  /** The names of `count` links from lo on. */
  function NamesAt(links: seq<Link>, lo: nat, count: nat): (s: seq<string>)
    requires lo + count <= |links|
    ensures |s| == count && forall i :: 0 <= i < |s| ==> s[i] == links[lo + i].name
  {
    seq(count, i requires 0 <= i < count => links[lo + i].name)
  }

  /** The links shared with `from` are exactly the `count` ones from lo on. */
  ghost predicate Block(links: seq<Link>, from: nat, lo: nat, count: nat) {
    && lo + count <= |links|
    && forall i :: 0 <= i < |links| ==> (links[i].remote == from <==> lo <= i < lo + count)
  }

  ghost predicate Ascending(s: seq<string>) {
    forall i, j :: 0 <= i < j < |s| ==> Less(s[i], s[j])
  }

  /** Ascending sequences with the same elements are equal. */
  lemma {:induction false} AscendingUnique(s: seq<string>, t: seq<string>)
    requires Ascending(s) && Ascending(t)
    requires (forall x :: x in s ==> x in t) && (forall x :: x in t ==> x in s)
    ensures s == t
    decreases |s|
  {
    assert |t| > 0 ==> t[0] in s;
    if |s| > 0 {
      assert s[0] in t;
      SameHead(s, t);
      forall x | x in s[1..] ensures x in t[1..] { TailMember(s, t, x); }
      forall x | x in t[1..] ensures x in s[1..] { TailMember(t, s, x); }
      AscendingUnique(s[1..], t[1..]);
      assert s == [s[0]] + s[1..] && t == [t[0]] + t[1..];
    }
  }

  lemma SameHead(s: seq<string>, t: seq<string>)
    requires Ascending(s) && Ascending(t) && |s| > 0 && |t| > 0 && s[0] in t && t[0] in s
    ensures s[0] == t[0]
  {
    var i :| 0 <= i < |t| && t[i] == s[0];
    var j :| 0 <= j < |s| && s[j] == t[0];
    LessIsTotal(s[0], t[0]);
  }

  lemma TailMember(s: seq<string>, t: seq<string>, x: string)
    requires Ascending(s) && |s| > 0 && |t| > 0 && s[0] == t[0] && x in s[1..] && x in t
    ensures x in t[1..]
  {
    var i :| 0 <= i < |s[1..]| && s[1..][i] == x;
    assert Less(s[0], s[i + 1]);
    LessIsTotal(x, x);
    var j :| 0 <= j < |t| && t[j] == x;
    assert t[1..][j - 1] == x;
  }

  lemma NamesOfBlock(links: seq<Link>, from: nat, lo: nat, count: nat, name: string)
    requires Block(links, from, lo, count)
    ensures name in NamesAt(links, lo, count) <==> Expects(links, from, name)
  {
    var s := NamesAt(links, lo, count);
    if Expects(links, from, name) {
      var i :| 0 <= i < |links| && links[i].remote == from && links[i].name == name;
      assert s[i - lo] == name;
    }
    if name in s {
      var i :| 0 <= i < |s| && s[i] == name;
      assert links[lo + i].remote == from && links[lo + i].name == name;
    }
  }

  lemma NamesOfEntries(msg: seq<Entry>, name: string)
    ensures name in Names(msg) <==> Sends(msg, name)
  {
    if Sends(msg, name) {
      var j :| 0 <= j < |msg| && msg[j].name == name;
      assert Names(msg)[j] == name;
    }
  }

  /** Same names as sets is same names in order, because both sides are sorted. */
  lemma SameNamesInOrder(links: seq<Link>, from: nat, lo: nat, count: nat, msg: seq<Entry>)
    requires Sorted(links) && SortedEntries(msg) && Block(links, from, lo, count)
    ensures SameNames(links, from, msg) <==> NamesAt(links, lo, count) == Names(msg)
  {
    var s, t := NamesAt(links, lo, count), Names(msg);
    forall name
      ensures name in s <==> Expects(links, from, name)
      ensures name in t <==> Sends(msg, name)
    {
      NamesOfBlock(links, from, lo, count, name);
      NamesOfEntries(msg, name);
    }
    if SameNames(links, from, msg) {
      assert Ascending(s) by {
        forall i, j | 0 <= i < j < |s| ensures Less(s[i], s[j]) {
          assert links[lo + i].remote == links[lo + j].remote;
        }
      }
      AscendingUnique(s, t);
    }
  }

  lemma SamePointwise(links: seq<Link>, lo: nat, count: nat, msg: seq<Entry>)
    requires lo + count <= |links|
    ensures NamesAt(links, lo, count) == Names(msg) <==> |msg| == count && NamesFrom(links, lo, msg)
  {
    var s, t := NamesAt(links, lo, count), Names(msg);
    if s == t {
      forall i | 0 <= i < |msg| ensures msg[i].name == links[lo + i].name {
        assert s[i] == t[i];
      }
    }
  }

  /** The partner's block, and where the walk starts. */
  lemma BlockAtLower(links: seq<Link>, from: nat)
    requires Sorted(links)
    ensures Count(links, from) >= 0 && Block(links, from, Lower(links, from), Count(links, from))
    ensures WalkStart(links, from) == if Count(links, from) > 0 then Lower(links, from) else |links|
  {
    LowerSplits(links, from);
  }

  /**
   * When the walk reports no error: the partner sent exactly the names expected from it, or
   * the walk overran into the links shared with other ranks.
   */
  lemma WalkDetectsMismatch(links: seq<Link>, from: nat, msg: seq<Entry>)
    requires Sorted(links) && SortedEntries(msg)
    ensures Reconciled(links, from, msg).Ok? <==> SameNames(links, from, msg) || Overruns(links, from, msg)
  {
    BlockAtLower(links, from);
    var lo, c := Lower(links, from), Count(links, from);
    WalkSucceeds(links, from, WalkStart(links, from), msg);
    SameNamesInOrder(links, from, lo, c, msg);
    SamePointwise(links, lo, c, msg);
    WalkCases(links, from, lo, c, msg);
  }

  lemma WalkCases(links: seq<Link>, from: nat, lo: nat, c: nat, msg: seq<Entry>)
    requires Block(links, from, lo, c)
    ensures c > 0 ==>
              (NamesFrom(links, lo, msg) && (lo + |msg| < |links| ==> links[lo + |msg|].remote != from)
               <==> NamesFrom(links, lo, msg) && |msg| >= c)
    ensures c == 0 ==> (NamesFrom(links, |links|, msg) <==> |msg| == 0) && (|msg| == 0 ==> NamesFrom(links, lo, msg))
  {
  }

  /** Without an entry named like a link to some other rank, every mismatch is reported. */
  lemma MismatchReported(links: seq<Link>, from: nat, msg: seq<Entry>)
    requires Sorted(links) && SortedEntries(msg)
    requires forall i, j :: 0 <= i < |links| && 0 <= j < |msg| && links[i].name == msg[j].name ==>
               links[i].remote == from
    ensures Reconciled(links, from, msg).Ok? <==> SameNames(links, from, msg)
  {
    WalkDetectsMismatch(links, from, msg);
    BlockAtLower(links, from);
    if Overruns(links, from, msg) {
      NamedByOther(links, from, Lower(links, from), Count(links, from), msg);
    }
  }

  lemma NamedByOther(links: seq<Link>, from: nat, lo: nat, c: nat, msg: seq<Entry>)
    requires Block(links, from, lo, c) && c < |msg| && NamesFrom(links, lo, msg)
    ensures exists i, j :: 0 <= i < |links| && 0 <= j < |msg| && links[i].name == msg[j].name && links[i].remote != from
  {
    assert links[lo + c].name == msg[c].name && links[lo + c].remote != from;
  }

  /**
   * A mismatch that goes unnoticed: rank p sends two links where one is shared with it, and
   * the second has the name of the next local link, which is shared with another rank. The
   * walk succeeds and gives that link the ID of rank p's link.
   */
  lemma OverrunGoesUnnoticed(links: seq<Link>, p: nat, msg: seq<Entry>)
    requires Sorted(links) && |links| == 2 && links[0].remote == p < links[1].remote
    requires SortedEntries(msg) && |msg| == 2 && msg[0].name == links[0].name && msg[1].name == links[1].name
    ensures !SameNames(links, p, msg)
    ensures Reconciled(links, p, msg) == Ok(WithIds(links, 0, msg))
  {
    BlockAtLower(links, p);
    WalkSucceeds(links, p, WalkStart(links, p), msg);
    SameNamesInOrder(links, p, Lower(links, p), Count(links, p), msg);
    SamePointwise(links, Lower(links, p), Count(links, p), msg);
    OneLinkBlock(links, p, Lower(links, p), Count(links, p));
  }

  lemma OneLinkBlock(links: seq<Link>, p: nat, lo: nat, c: nat)
    requires |links| == 2 && links[0].remote == p != links[1].remote && Block(links, p, lo, c)
    ensures lo == 0 && c == 1
  {
  }
}
