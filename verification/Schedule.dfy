/**
 * The all-pairs schedule of the link-ID exchange (main.cc): in iteration k every rank sends
 * to the rank k places after it and receives from the rank k places before it, around a ring.
 */
module Schedule {
  import opened Wrappers

  /** The rank k places after r, wrapping once. */
  function After(n: nat, r: nat, k: nat): nat
    requires r < n && k <= n
  {
    if r + k < n then r + k else r + k - n
  }

  /** The rank k places before r, wrapping once. */
  function Before(n: nat, r: nat, k: nat): nat
    requires r < n && k <= n
  {
    if k <= r then r - k else r + n - k
  }

  /** With an even number of ranks the last iteration pairs opposite ranks, one way only. */
  predicate Opposite(n: nat, k: nat) {
    2 * k == n
  }

  function SendTo(n: nat, r: nat, k: nat): Option<nat>
    requires r < n && k <= n
  {
    if Opposite(n, k) && After(n, r, k) < n / 2 then None else Some(After(n, r, k))
  }

  function RecvFrom(n: nat, r: nat, k: nat): Option<nat>
    requires r < n && k <= n
  {
    if Opposite(n, k) && Before(n, r, k) >= n / 2 then None else Some(Before(n, r, k))
  }

  /** How many iterations exchange data. */
  function Rounds(n: nat): nat {
    n / 2
  }

  /** The loop control of the exchange, recording whom each iteration sends to and receives from. */
  method Plan(n: nat, me: nat) returns (plan: seq<(Option<nat>, Option<nat>)>)
    requires me < n
    ensures |plan| == Rounds(n)
    ensures forall i :: 0 <= i < |plan| ==> plan[i] == (SendTo(n, me, i + 1), RecvFrom(n, me, i + 1))
  {
    plan := [];
    var sendRank, recvRank := me, me;
    var done := false;
    while !done
      invariant |plan| <= Rounds(n)
      invariant forall i :: 0 <= i < |plan| ==> plan[i] == (SendTo(n, me, i + 1), RecvFrom(n, me, i + 1))
      invariant !done ==> 2 * |plan| < n && sendRank == After(n, me, |plan|) && recvRank == Before(n, me, |plan|)
      invariant done ==> |plan| == Rounds(n)
      decreases Rounds(n) - |plan|, !done
    {
      sendRank := sendRank + 1;
      if sendRank == n {
        sendRank := 0;
      }
      if sendRank == recvRank {
        break;
      }
      recvRank := if recvRank == 0 then n - 1 else recvRank - 1;
      var send, recv := Some(sendRank), Some(recvRank);
      if sendRank == recvRank {
        if sendRank >= n / 2 {
          recv := None;
        } else {
          send := None;
        }
        done := true;
      }
      plan := plan + [(send, recv)];
    }
  }

  /** The iteration in which a sends to b, if it is a that sends. */
  function Slot(n: nat, a: nat, b: nat): Option<nat>
    requires a < n && b < n
  {
    var k := if a <= b then b - a else b + n - a;
    if k == 0 || 2 * k > n || (2 * k == n && b < n / 2) then None else Some(k)
  }

  /** Slot is the inverse of the schedule: a sends to b in exactly that iteration. */
  lemma SlotInvertsSchedule(n: nat, a: nat, b: nat, k: nat)
    requires a < n && b < n && 1 <= k <= Rounds(n)
    ensures SendTo(n, a, k) == Some(b) <==> Slot(n, a, b) == Some(k)
    ensures RecvFrom(n, b, k) == Some(a) <==> Slot(n, a, b) == Some(k)
  {
  }

  /**
   * Every unordered pair of distinct ranks exchanges exactly once and in exactly one
   * direction, within the iterations of the loop, and no rank exchanges with itself.
   */
  lemma EveryPairOnce(n: nat, a: nat, b: nat)
    requires a < n && b < n
    ensures Slot(n, a, b).Some? ==> 1 <= Slot(n, a, b).value <= Rounds(n)
    ensures a != b ==> (Slot(n, a, b).Some? <==> Slot(n, b, a).None?)
    ensures a == b ==> Slot(n, a, b).None?
  {
  }
}
