/**
 * What every interleaving of allocations and deletions keeps (mempool.cc): no block is lost,
 * handed out twice or put on a list for another size, the lists stay within their limits,
 * and the header words tell exactly which blocks are in use.
 */
module MemPoolSafety {
  import opened MemPool
  import opened MemPoolSystem
  import opened Wrappers

  // ------------------------------------------------ a new pool

  lemma PerArenaPositive(alloc: nat)
    requires 0 < alloc <= ARENA_SIZE
    ensures ARENA_SIZE / alloc > 0
  {
  }

  lemma OpenKeeps(s: State, s': State, t: nat, size: nat)
    requires Inv(s) && OpenStep(s, s', t, size)
    ensures Inv(s')
  {
    OpenPlaced(s, s', t, size);
    OpenCarved(s, s', t, size);
    OpenPools(s, s', t, size);
    var p := NewPool(size + WORD, s.cacheAlign);
    PoolBalanceAppend(s.threads[t], p);
    BalanceUpdate(s.threads, t, s.threads[t] + [p]);
  }

  lemma OpenPlaced(s: State, s': State, t: nat, size: nat)
    requires Placed(s) && OpenStep(s, s', t, size)
    ensures Placed(s')
  {
    forall b, l ensures At(s', b, l) <==> At(s, b, l) { }
    forall b, l | At(s', b, l) ensures b in s'.origin && RightSize(s', b, l) { assert At(s, b, l); }
    forall b | b in s'.origin ensures exists l :: At(s', b, l) {
      var l :| At(s, b, l);
      assert At(s', b, l);
    }
  }

  lemma OpenPools(s: State, s': State, t: nat, size: nat)
    requires PoolsOk(s) && OpenStep(s, s', t, size)
    ensures PoolsOk(s')
  {
    PerArenaPositive(AllocSize(size + WORD, s.cacheAlign));
    forall u: nat, q: nat | HasPool(s', u, q) ensures PoolOk(s', u, q) {
      if HasPool(s, u, q) { assert PoolOk(s, u, q); }
    }
  }

  // ------------------------------------------------ arenas under an operation

  /** Arena a is the same in both states. */
  ghost predicate SameArena(s: State, s': State, a: ArenaId) {
    && (HasArena(s', a) <==> HasArena(s, a))
    && (HasArena(s, a) ==>
          && Base(s', a) == Base(s, a)
          && s'.threads[a.t][a.q].allocSize == s.threads[a.t][a.q].allocSize
          && s'.threads[a.t][a.q].elemSize == s.threads[a.t][a.q].elemSize)
  }

  /** With the same arenas, the blocks are as before. */
  lemma SameArenasCarved(s: State, s': State)
    requires Carved(s) && s'.origin == s.origin && forall a :: SameArena(s, s', a)
    ensures Carved(s')
  {
    forall a, c | HasArena(s', a) && HasArena(s', c) && a != c ensures Apart(Base(s', a), Base(s', c)) {
      assert SameArena(s, s', a) && SameArena(s, s', c);
    }
    forall a | HasArena(s', a) ensures Base(s', a) % PAGE == 0 { assert SameArena(s, s', a); }
    forall b, a, j: nat | IsBlock(s', b, a, j) ensures b in s'.origin && s'.origin[b] == s'.threads[a.t][a.q].elemSize {
      assert SameArena(s, s', a) && IsBlock(s, b, a, j);
    }
    forall b | b in s'.origin ensures exists a, j :: IsBlock(s', b, a, j) {
      var a, j :| IsBlock(s, b, a, j);
      assert SameArena(s, s', a) && IsBlock(s', b, a, j);
    }
  }

  lemma OpenCarved(s: State, s': State, t: nat, size: nat)
    requires Carved(s) && OpenStep(s, s', t, size)
    ensures Carved(s')
  {
    forall a ensures SameArena(s, s', a) { }
    SameArenasCarved(s, s');
  }

  lemma NoNewArena(s: State, s': State, t: nat, q: nat)
    requires Carved(s) && OnlyPool(s, s', t, q) && s'.origin == s.origin
    requires s'.threads[t][q].arenas == s.threads[t][q].arenas
             && s'.threads[t][q].allocSize == s.threads[t][q].allocSize
    ensures Carved(s')
  {
    forall a ensures SameArena(s, s', a) { }
    SameArenasCarved(s, s');
  }

  /** A new arena where nothing was mapped. */
  lemma NewArena(s: State, s': State, t: nat, q: nat, base: nat, blocks: seq<nat>)
    requires Carved(s) && OnlyPool(s, s', t, q) && Unmapped(s, base)
    requires var p, p' := s.threads[t][q], s'.threads[t][q];
             && p'.arenas == p.arenas + [base] && p'.allocSize == p.allocSize > 0
             && blocks == Blocks(base, p.allocSize, p.PerArena())
             && s'.origin == s.origin + MapOf(blocks, p.elemSize)
    requires forall i :: 0 <= i < |blocks| ==> blocks[i] !in s.origin
    ensures Carved(s')
  {
    var id := ArenaId(t, q, |s.threads[t][q].arenas|);
    forall a | a != id ensures SameArena(s, s', a) { }
    assert HasArena(s', id) && !HasArena(s, id) && Base(s', id) == base;
    forall b, j: nat ensures IsBlock(s', b, id, j) <==> j < |blocks| && blocks[j] == b { }
    OneMoreArena(s, s', id, base, s.threads[t][q].elemSize, blocks);
  }

  lemma OneMoreArena(s: State, s': State, id: ArenaId, base: nat, size: nat, blocks: seq<nat>)
    requires Carved(s) && Unmapped(s, base) && forall a :: a != id ==> SameArena(s, s', a)
    requires HasArena(s', id) && !HasArena(s, id) && Base(s', id) == base && s'.threads[id.t][id.q].elemSize == size
    requires forall b, j: nat :: IsBlock(s', b, id, j) <==> j < |blocks| && blocks[j] == b
    requires s'.origin == s.origin + MapOf(blocks, size)
    requires forall i :: 0 <= i < |blocks| ==> blocks[i] !in s.origin
    ensures Carved(s')
  {
    forall a, c | HasArena(s', a) && HasArena(s', c) && a != c ensures Apart(Base(s', a), Base(s', c)) {
      assert a != id ==> SameArena(s, s', a);
      assert c != id ==> SameArena(s, s', c);
    }
    forall a | HasArena(s', a) ensures Base(s', a) % PAGE == 0 { assert a != id ==> SameArena(s, s', a); }
    forall b, a, j: nat | IsBlock(s', b, a, j) ensures b in s'.origin && s'.origin[b] == s'.threads[a.t][a.q].elemSize {
      if a == id {
        assert blocks[j] == b;
      } else {
        assert SameArena(s, s', a) && IsBlock(s, b, a, j) && b in s.origin && b !in blocks;
      }
    }
    forall b | b in s'.origin ensures exists a, j :: IsBlock(s', b, a, j) {
      OldOrNewBlock(s, s', id, blocks, b);
    }
  }

  lemma OldOrNewBlock(s: State, s': State, id: ArenaId, blocks: seq<nat>, b: nat)
    requires Carved(s) && (forall a :: a != id ==> SameArena(s, s', a)) && !HasArena(s, id)
    requires forall c, j: nat :: IsBlock(s', c, id, j) <==> j < |blocks| && blocks[j] == c
    requires b in s.origin || b in blocks
    ensures exists a, j :: IsBlock(s', b, a, j)
  {
    if b in s.origin {
      var a, j :| IsBlock(s, b, a, j);
      assert SameArena(s, s', a) && IsBlock(s', b, a, j);
    } else {
      var j: nat :| j < |blocks| && blocks[j] == b;
      assert IsBlock(s', b, id, j);
    }
  }

  /** The blocks of a range that overlaps no arena are new, and all different. */
  lemma FreshBlocks(s: State, base: nat, alloc: nat, count: nat)
    requires Carved(s) && PoolsOk(s) && Unmapped(s, base)
    requires alloc > 0 && count == ARENA_SIZE / alloc
    ensures forall i, j :: 0 <= i < j < count ==> Blocks(base, alloc, count)[i] != Blocks(base, alloc, count)[j]
    ensures forall i :: 0 <= i < count ==> Blocks(base, alloc, count)[i] !in s.origin
  {
    var blocks := Blocks(base, alloc, count);
    forall i, j | 0 <= i < j < count ensures blocks[i] != blocks[j] {
      BlocksApart(base, alloc, i, j);
    }
    forall i | 0 <= i < count ensures blocks[i] !in s.origin {
      var b := blocks[i];
      InsideArena(base, alloc, count, i);
      if b in s.origin {
        var a, j :| IsBlock(s, b, a, j);
        assert PoolOk(s, a.t, a.q);
        InsideArena(Base(s, a), s.threads[a.t][a.q].allocSize, s.threads[a.t][a.q].PerArena(), j);
      }
    }
  }

  // ------------------------------------------------ allocation

  /** What malloc hands out on thread t from pool q. */
  function Handed(s: State, t: nat, q: nat, mapped: Option<nat>): Malloced
    requires HasPool(s, t, q) && 0 < s.threads[t][q].allocSize <= ARENA_SIZE
  {
    Malloc(s.threads[t][q], Lists(s.store, s.threads[t][q].elemSize), mapped)
  }

  /** A block that was not in use and has the right size. */
  ghost predicate Available(s: State, s': State, b: nat, elemSize: nat) {
    b !in s.live && b in s'.origin && s'.origin[b] == elemSize
  }

  lemma NothingMapped(m: map<nat, nat>, value: nat)
    ensures m + MapOf([], value) == m
  {
  }

  lemma NewFromFree(s: State, s': State, t: nat, q: nat, mapped: Option<nat>)
    requires Placed(s) && NewStep(s, s', t, q, mapped) && |s.threads[t][q].freelist| > 0
    ensures Placed(s') && s'.origin == s.origin && Handed(s, t, q, mapped).block.Some?
    ensures Available(s, s', Handed(s, t, q, mapped).block.value, s.threads[t][q].elemSize)
  {
    var b, i := Handed(s, t, q, mapped).block.value, |s.threads[t][q].freelist| - 1;
    NothingMapped(s.origin, s.threads[t][q].elemSize);
    assert At(s, b, OnFree(t, q, i));
    FreeToLive(s, s', t, q, b);
    assert !At(s, b, Live);
  }

  lemma NewFromOverflow(s: State, s': State, t: nat, q: nat, mapped: Option<nat>)
    requires Placed(s) && NewStep(s, s', t, q, mapped) && s.threads[t][q].freelist == []
             && |s.threads[t][q].overflow| > 0
    ensures Placed(s') && s'.origin == s.origin && Handed(s, t, q, mapped).block.Some?
    ensures Available(s, s', Handed(s, t, q, mapped).block.value, s.threads[t][q].elemSize)
  {
    var b, i := Handed(s, t, q, mapped).block.value, |s.threads[t][q].overflow| - 1;
    NothingMapped(s.origin, s.threads[t][q].elemSize);
    assert At(s, b, OnOverflow(t, q, i));
    OverflowToLive(s, s', t, q, b);
    assert !At(s, b, Live);
  }

  /** The state in between: the overflow list has taken over a shared list. */
  function Taken(s: State, t: nat, q: nat, list: seq<nat>, rest: seq<seq<nat>>): State
    requires HasPool(s, t, q)
  {
    var p := s.threads[t][q];
    Put(s, t, q, p.(overflow := list)).(store := WithLists(s.store, p.elemSize, rest))
  }

  lemma ChangedLists(s: State, s': State, size: nat, lists: seq<seq<nat>>)
    requires OneShelfEach(s.store) && s'.store == WithLists(s.store, size, lists)
    ensures OnlyLists(s, s', size, lists) && OneShelfEach(s'.store)
  {
    forall e ensures Lists(s'.store, e) == if e == size then lists else Lists(s.store, e) {
      ListsOfWithLists(s.store, size, lists, e);
    }
    ListsOfWithLists(s.store, size, lists, size);
  }

  /** Changing the same pool twice. */
  lemma ChangedTwice(s: State, mid: State, s': State, t: nat, q: nat, p1: Pool, p2: Pool)
    requires HasPool(s, t, q) && mid.threads == Put(s, t, q, p1).threads && s'.threads == Put(s, t, q, p2).threads
    requires p1.elemSize == p2.elemSize
    ensures OnlyPool(mid, s', t, q)
  {
    assert mid.threads[t][q := p2] == s.threads[t][q := p2];
    assert s'.threads == mid.threads[t := mid.threads[t][q := p2]];
  }

  /** What an allocation from a shared list changes, seen from the state in between. */
  lemma SharedShape(s: State, mid: State, s': State, t: nat, q: nat, mapped: Option<nat>, rest: seq<seq<nat>>,
                    list: seq<nat>, b: nat)
    requires NewStep(s, s', t, q, mapped) && |list| > 0 && b == list[|list| - 1]
    requires s.threads[t][q].freelist == [] && s.threads[t][q].overflow == []
    requires Lists(s.store, s.threads[t][q].elemSize) == rest + [list] && mid == Taken(s, t, q, list, rest)
    ensures Handed(s, t, q, mapped).block == Some(b)
    ensures OnlyPool(mid, s', t, q) && s'.store == mid.store && s'.origin == s.origin && s'.live == s.live + {b}
    ensures list == s'.threads[t][q].overflow + [b] && s'.threads[t][q].freelist == []
  {
    assert (rest + [list])[..|rest|] == rest;
    NothingMapped(s.origin, s.threads[t][q].elemSize);
    ChangedTwice(s, mid, s', t, q, mid.threads[t][q], s'.threads[t][q]);
  }

  /** A list leaves the shared store for an overflow list, and its last block is handed out. */
  lemma ListThenBlock(s: State, mid: State, s': State, t: nat, q: nat, rest: seq<seq<nat>>, list: seq<nat>, b: nat)
    requires Placed(s) && OneShelfEach(s.store) && HasPool(s, t, q)
    requires s.threads[t][q].freelist == [] && s.threads[t][q].overflow == []
    requires Lists(s.store, s.threads[t][q].elemSize) == rest + [list] && mid == Taken(s, t, q, list, rest)
    requires OnlyPool(mid, s', t, q) && s'.store == mid.store && s'.origin == s.origin && s'.live == s.live + {b}
    requires list == s'.threads[t][q].overflow + [b] && s'.threads[t][q].freelist == []
    ensures Placed(s') && Available(s, s', b, s.threads[t][q].elemSize)
  {
    ChangedLists(s, mid, s.threads[t][q].elemSize, rest);
    SharedToOverflow(s, mid, t, q, rest);
    OverflowToLive(mid, s', t, q, b);
    assert At(mid, b, OnOverflow(t, q, |list| - 1));
    assert !At(mid, b, Live);
  }

  lemma NewFromShared(s: State, s': State, t: nat, q: nat, mapped: Option<nat>)
    requires Placed(s) && StoreOk(s) && PoolsOk(s) && NewStep(s, s', t, q, mapped)
    requires s.threads[t][q].freelist == [] && s.threads[t][q].overflow == []
    requires |Lists(s.store, s.threads[t][q].elemSize)| > 0
    ensures Placed(s') && s'.origin == s.origin && Handed(s, t, q, mapped).block.Some?
    ensures Available(s, s', Handed(s, t, q, mapped).block.value, s.threads[t][q].elemSize)
  {
    SharedListsFull(s, t, q);
    var lists := Lists(s.store, s.threads[t][q].elemSize);
    var rest, list := lists[..|lists| - 1], lists[|lists| - 1];
    var mid, b := Taken(s, t, q, list, rest), list[|list| - 1];
    SharedShape(s, mid, s', t, q, mapped, rest, list, b);
    ListThenBlock(s, mid, s', t, q, rest, list, b);
  }

  /** The state in between: a new arena is on the freelist. */
  function WithArena(s: State, t: nat, q: nat, base: nat): State
    requires HasPool(s, t, q) && 0 < s.threads[t][q].allocSize
  {
    var p := s.threads[t][q];
    Put(s, t, q, Carve(p, base)).(origin := s.origin + MapOf(Blocks(base, p.allocSize, p.PerArena()), p.elemSize))
  }

  lemma ArenaPlaced(s: State, t: nat, q: nat, base: nat, blocks: seq<nat>)
    requires Placed(s) && Carved(s) && PoolsOk(s) && HasPool(s, t, q) && Unmapped(s, base)
    requires PoolOk(s, t, q) && blocks == Blocks(base, s.threads[t][q].allocSize, s.threads[t][q].PerArena())
    ensures Placed(WithArena(s, t, q, base)) && Carved(WithArena(s, t, q, base))
  {
    var p, mid := s.threads[t][q], WithArena(s, t, q, base);
    FreshBlocks(s, base, p.allocSize, p.PerArena());
    CarvedToFree(s, mid, t, q, blocks);
    NewArena(s, mid, t, q, base, blocks);
  }

  /** The first block handed out from a new arena is its last one. */
  lemma ArenaShape(s: State, s': State, t: nat, q: nat, base: nat, b: nat)
    requires NewStep(s, s', t, q, Some(base))
    requires s.threads[t][q].freelist == [] && s.threads[t][q].overflow == []
    requires |Lists(s.store, s.threads[t][q].elemSize)| == 0
    requires b == base + s.threads[t][q].allocSize * (s.threads[t][q].PerArena() - 1)
    ensures var p := s.threads[t][q];
            && Handed(s, t, q, Some(base)).block == Some(b)
            && s'.threads == Put(s, t, q, PopFree(Carve(p.(numAlloc := p.numAlloc + 1), base)).0).threads
            && s'.origin == WithArena(s, t, q, base).origin && s'.store == s.store && s'.live == s.live + {b}
  {
    PerArenaPositive(s.threads[t][q].allocSize);
  }

  lemma NewFromArena(s: State, s': State, t: nat, q: nat, base: nat, b: nat)
    requires Placed(s) && Carved(s) && PoolsOk(s) && NewStep(s, s', t, q, Some(base))
    requires s.threads[t][q].freelist == [] && s.threads[t][q].overflow == []
    requires |Lists(s.store, s.threads[t][q].elemSize)| == 0
    requires b == base + s.threads[t][q].allocSize * (s.threads[t][q].PerArena() - 1)
    ensures Placed(s') && Carved(s') && Available(s, s', b, s.threads[t][q].elemSize)
    ensures Handed(s, t, q, Some(base)).block == Some(b)
    ensures s'.origin == WithArena(s, t, q, base).origin
  {
    assert PoolOk(s, t, q);
    ArenaShape(s, s', t, q, base, b);
    ArenaPlaced(s, t, q, base, Blocks(base, s.threads[t][q].allocSize, s.threads[t][q].PerArena()));
    ArenaBlock(s, WithArena(s, t, q, base), s', t, q, base, b);
  }

  /** Handing out the last block of a freelist, in a state reached on the way. */
  lemma HandOutLast(mid: State, s': State, t: nat, q: nat, b: nat)
    requires Placed(mid) && Carved(mid) && OnlyPool(mid, s', t, q)
    requires var p, p' := mid.threads[t][q], s'.threads[t][q];
             p.freelist == p'.freelist + [b] && p'.overflow == p.overflow && p'.arenas == p.arenas
             && p'.allocSize == p.allocSize
    requires s'.origin == mid.origin && s'.store == mid.store && s'.live == mid.live + {b}
    ensures Placed(s') && Carved(s') && Available(mid, s', b, mid.threads[t][q].elemSize)
  {
    assert At(mid, b, OnFree(t, q, |s'.threads[t][q].freelist|));
    assert !At(mid, b, Live);
    FreeToLive(mid, s', t, q, b);
    NoNewArena(mid, s', t, q);
  }

  lemma ArenaBlock(s: State, mid: State, s': State, t: nat, q: nat, base: nat, b: nat)
    requires HasPool(s, t, q) && 0 < s.threads[t][q].allocSize <= ARENA_SIZE && s.threads[t][q].freelist == []
    requires b == base + s.threads[t][q].allocSize * (s.threads[t][q].PerArena() - 1)
    requires mid == WithArena(s, t, q, base) && Placed(mid) && Carved(mid)
    requires var p := s.threads[t][q];
             s'.threads == Put(s, t, q, PopFree(Carve(p.(numAlloc := p.numAlloc + 1), base)).0).threads
    requires s'.origin == mid.origin && s'.store == s.store && s'.live == s.live + {b}
    ensures Placed(s') && Carved(s') && Available(s, s', b, s.threads[t][q].elemSize)
  {
    var p := s.threads[t][q];
    PerArenaPositive(p.allocSize);
    var p1, p2 := Carve(p, base), PopFree(Carve(p.(numAlloc := p.numAlloc + 1), base)).0;
    var blocks := Blocks(base, p.allocSize, p.PerArena());
    assert p.freelist + blocks == blocks == blocks[..|blocks| - 1] + [b];
    assert p1.freelist == p2.freelist + [b];
    ChangedTwice(s, mid, s', t, q, p1, p2);
    HandOutLast(mid, s', t, q, b);
  }

  lemma NewFails(s: State, s': State, t: nat, q: nat)
    requires Placed(s) && NewStep(s, s', t, q, None)
    requires s.threads[t][q].freelist == [] && s.threads[t][q].overflow == []
    requires |Lists(s.store, s.threads[t][q].elemSize)| == 0
    ensures Placed(s') && s'.origin == s.origin && Handed(s, t, q, None).block == None
  {
    NothingMapped(s.origin, s.threads[t][q].elemSize);
    forall x, l ensures At(s', x, l) <==> At(s, x, l) { }
    forall x, l | At(s', x, l) ensures x in s'.origin && RightSize(s', x, l) { assert At(s, x, l); }
    forall x | x in s'.origin ensures exists l :: At(s', x, l) {
      var l :| At(s, x, l);
      assert At(s', x, l);
    }
  }

  lemma NewFromMapped(s: State, s': State, t: nat, q: nat, mapped: Option<nat>)
    requires Placed(s) && Carved(s) && PoolsOk(s) && NewStep(s, s', t, q, mapped) && mapped.Some?
    requires s.threads[t][q].freelist == [] && s.threads[t][q].overflow == []
    requires |Lists(s.store, s.threads[t][q].elemSize)| == 0
    ensures Placed(s') && Carved(s') && Handed(s, t, q, mapped).block.Some?
    ensures Available(s, s', Handed(s, t, q, mapped).block.value, s.threads[t][q].elemSize)
  {
    assert PoolOk(s, t, q);
    var b := mapped.value + s.threads[t][q].allocSize * LastBlock(s, t, q);
    NewFromArena(s, s', t, q, mapped.value, b);
  }

  /** An allocation puts every block where it belongs. */
  lemma NewPlaces(s: State, s': State, t: nat, q: nat, mapped: Option<nat>)
    requires Inv(s) && NewStep(s, s', t, q, mapped)
    ensures Placed(s') && Carved(s')
    ensures Handed(s, t, q, mapped).block.Some? ==>
              Available(s, s', Handed(s, t, q, mapped).block.value, s.threads[t][q].elemSize)
  {
    var p := s.threads[t][q];
    if |p.freelist| > 0 {
      NewFromFree(s, s', t, q, mapped);
      NoNewArena(s, s', t, q);
    } else if |p.overflow| > 0 {
      NewFromOverflow(s, s', t, q, mapped);
      NoNewArena(s, s', t, q);
    } else if |Lists(s.store, p.elemSize)| > 0 {
      NewFromShared(s, s', t, q, mapped);
      NewFromSharedArenas(s, s', t, q, mapped);
    } else if mapped.Some? {
      NewFromMapped(s, s', t, q, mapped);
    } else {
      NewFails(s, s', t, q);
      NoNewArena(s, s', t, q);
    }
  }

  function LastBlock(s: State, t: nat, q: nat): (j: nat)
    requires HasPool(s, t, q) && 0 < s.threads[t][q].allocSize <= ARENA_SIZE
    ensures j == s.threads[t][q].PerArena() - 1
  {
    PerArenaPositive(s.threads[t][q].allocSize);
    s.threads[t][q].PerArena() - 1
  }

  lemma NewFromSharedArenas(s: State, s': State, t: nat, q: nat, mapped: Option<nat>)
    requires Inv(s) && NewStep(s, s', t, q, mapped) && s'.origin == s.origin
    requires s.threads[t][q].freelist == [] && s.threads[t][q].overflow == []
    requires |Lists(s.store, s.threads[t][q].elemSize)| > 0
    ensures Carved(s')
  {
    SharedListsFull(s, t, q);
    NoNewArena(s, s', t, q);
  }

  /** A shared list of a pool's size is as long as that pool's full overflow list. */
  lemma SharedListsFull(s: State, t: nat, q: nat)
    requires StoreOk(s) && PoolsOk(s) && HasPool(s, t, q)
    ensures s.threads[t][q].allocSize > 0
    ensures forall k :: 0 <= k < |Lists(s.store, s.threads[t][q].elemSize)| ==>
              |Lists(s.store, s.threads[t][q].elemSize)[k]| == s.threads[t][q].PerArena() > 0
  {
    assert PoolOk(s, t, q);
    PerArenaPositive(s.threads[t][q].allocSize);
  }

  /** What malloc does to the numbers of one pool. */
  ghost predicate MallocFits(p: Pool, lists: seq<seq<nat>>, r: Malloced)
    requires p.allocSize > 0
  {
    && r.pool.elemSize == p.elemSize && r.pool.allocSize == p.allocSize
    && r.pool.maxFree == |r.pool.arenas| * p.PerArena()
    && |r.pool.freelist| <= r.pool.maxFree && |r.pool.overflow| < p.PerArena()
    && r.pool.numAlloc == p.numAlloc + 1 && r.pool.numFree == p.numFree
    && (r.lists == lists || (|lists| > 0 && r.lists == lists[..|lists| - 1]))
  }

  lemma MallocBounds(p: Pool, lists: seq<seq<nat>>, mapped: Option<nat>)
    requires 0 < p.allocSize <= ARENA_SIZE && p.maxFree == |p.arenas| * p.PerArena()
    requires |p.freelist| <= p.maxFree && |p.overflow| < p.PerArena()
    requires forall k :: 0 <= k < |lists| ==> |lists[k]| == p.PerArena()
    ensures MallocFits(p, lists, Malloc(p, lists, mapped))
  {
    PerArenaPositive(p.allocSize);
    OneMore(|p.arenas|, p.PerArena());
  }

  lemma OneMore(n: nat, per: nat)
    ensures (n + 1) * per == n * per + per
  {
  }

  /** A pool replaced by one of the same size within its bounds. */
  lemma PoolReplaced(s: State, s': State, t: nat, q: nat)
    requires PoolsOk(s) && OnlyPool(s, s', t, q) && s'.cacheAlign == s.cacheAlign && PoolOk(s', t, q)
    ensures PoolsOk(s')
  {
    forall u: nat, r: nat | HasPool(s', u, r) ensures PoolOk(s', u, r) {
      if u != t || r != q { assert PoolOk(s, u, r); }
    }
    forall u: nat, r: nat, v: nat | HasPool(s', u, r) && HasPool(s', u, v) && r < v
      ensures s'.threads[u][r].elemSize != s'.threads[u][v].elemSize
    {
      assert HasPool(s, u, r) && HasPool(s, u, v);
    }
  }

  lemma StoreChanged(s: State, s': State, size: nat, lists: seq<seq<nat>>)
    requires StoreOk(s) && s'.cacheAlign == s.cacheAlign && s'.store == Shelved(s.store, size, lists)
    requires forall k :: 0 <= k < |lists| ==> |lists[k]| == ARENA_SIZE / AllocSize(size, s.cacheAlign)
    ensures StoreOk(s')
  {
    if |lists| != |Lists(s.store, size)| {
      ChangedLists(s, s', size, lists);
    }
  }

  /** The count of one pool changes as the number of blocks in use and failures does. */
  lemma BalanceReplaced(s: State, s': State, t: nat, q: nat, allocs: int)
    requires OnlyPool(s, s', t, q)
    requires var p, p' := s.threads[t][q], s'.threads[t][q];
             p'.numAlloc - p'.numFree == p.numAlloc - p.numFree + allocs
    ensures Balance(s'.threads) == Balance(s.threads) + allocs
  {
    var pools := s.threads[t][q := s'.threads[t][q]];
    PoolBalanceUpdate(s.threads[t], q, s'.threads[t][q]);
    BalanceUpdate(s.threads, t, pools);
  }

  /** The blocks carved by an allocation. */
  function NewBlocks(s: State, t: nat, q: nat, mapped: Option<nat>): seq<nat>
    requires HasPool(s, t, q) && 0 < s.threads[t][q].allocSize <= ARENA_SIZE
  {
    var p := s.threads[t][q];
    if |Handed(s, t, q, mapped).pool.arenas| > |p.arenas| && mapped.Some?
    then Blocks(mapped.value, p.allocSize, p.PerArena())
    else []
  }

  lemma NewBlocksAreNew(s: State, t: nat, q: nat, mapped: Option<nat>)
    requires Carved(s) && PoolsOk(s) && HasPool(s, t, q) && 0 < s.threads[t][q].allocSize <= ARENA_SIZE
    requires mapped.Some? ==> Unmapped(s, mapped.value)
    ensures forall b :: b in NewBlocks(s, t, q, mapped) ==> b !in s.origin
  {
    if mapped.Some? {
      FreshBlocks(s, mapped.value, s.threads[t][q].allocSize, s.threads[t][q].PerArena());
    }
  }

  lemma HeadersGrow(s: State, s': State, blocks: seq<nat>, size: nat, block: Option<nat>)
    requires HeadersOk(s) && size > WORD
    requires forall b :: b in blocks ==> b !in s.origin
    requires forall b :: b in s.live ==> b in s.origin
    requires s'.origin == s.origin + MapOf(blocks, size)
    requires block.None? ==> s'.header == s.header + MapOf(blocks, 0) && s'.live == s.live
    requires block.Some? ==>
               s'.header == (s.header + MapOf(blocks, 0))[block.value := size - WORD]
               && s'.live == s.live + {block.value}
    requires block.Some? ==> Available(s, s', block.value, size)
    ensures HeadersOk(s')
  {
  }

  lemma LiveIsCarved(s: State)
    requires Placed(s)
    ensures forall b :: b in s.live ==> b in s.origin
  {
    forall b | b in s.live ensures b in s.origin { assert At(s, b, Live); }
  }

  /** The whole effect of an allocation. */
  ghost predicate Allocated(s: State, s': State, t: nat, q: nat, r: Malloced, blocks: seq<nat>)
    requires HasPool(s, t, q) && s.threads[t][q].elemSize > WORD
  {
    var p := s.threads[t][q];
    && s'.cacheAlign == s.cacheAlign
    && s'.threads == Put(s, t, q, r.pool).threads
    && s'.store == Shelved(s.store, p.elemSize, r.lists)
    && s'.origin == s.origin + MapOf(blocks, p.elemSize)
    && (r.block.None? ==>
         s'.header == s.header + MapOf(blocks, 0) && s'.live == s.live
         && s'.failures == s.failures + 1)
    && (r.block.Some? ==> s'.header == (s.header + MapOf(blocks, 0))[r.block.value := p.elemSize - WORD]
                          && s'.live == s.live + {r.block.value} && s'.failures == s.failures)
  }

  lemma NewAllocates(s: State, s': State, t: nat, q: nat, mapped: Option<nat>)
    requires NewStep(s, s', t, q, mapped) && s.threads[t][q].elemSize > WORD
    ensures Allocated(s, s', t, q, Handed(s, t, q, mapped), NewBlocks(s, t, q, mapped))
  {
  }

  lemma NewKeeps(s: State, s': State, t: nat, q: nat, mapped: Option<nat>)
    requires Inv(s) && NewStep(s, s', t, q, mapped)
    ensures Inv(s')
  {
    assert PoolOk(s, t, q);
    NewPlaces(s, s', t, q, mapped);
    NewAllocates(s, s', t, q, mapped);
    NewBlocksAreNew(s, t, q, mapped);
    SharedListsFull(s, t, q);
    MallocBounds(s.threads[t][q], Lists(s.store, s.threads[t][q].elemSize), mapped);
    AllocatedHeaders(s, s', t, q, Handed(s, t, q, mapped), NewBlocks(s, t, q, mapped));
    AllocatedNumbers(s, s', t, q, Handed(s, t, q, mapped), NewBlocks(s, t, q, mapped));
  }

  lemma AllocatedHeaders(s: State, s': State, t: nat, q: nat, r: Malloced, blocks: seq<nat>)
    requires Placed(s) && HeadersOk(s) && HasPool(s, t, q) && s.threads[t][q].elemSize > WORD
    requires Allocated(s, s', t, q, r, blocks)
    requires forall b :: b in blocks ==> b !in s.origin
    requires r.block.Some? ==> Available(s, s', r.block.value, s.threads[t][q].elemSize)
    ensures HeadersOk(s')
  {
    LiveIsCarved(s);
    HeadersGrow(s, s', blocks, s.threads[t][q].elemSize, r.block);
  }

  lemma AllocatedNumbers(s: State, s': State, t: nat, q: nat, r: Malloced, blocks: seq<nat>)
    requires PoolsOk(s) && StoreOk(s) && Balanced(s) && HasPool(s, t, q) && PoolOk(s, t, q)
    requires Allocated(s, s', t, q, r, blocks)
    requires r.block.Some? ==> Available(s, s', r.block.value, s.threads[t][q].elemSize)
    requires MallocFits(s.threads[t][q], Lists(s.store, s.threads[t][q].elemSize), r)
    ensures PoolsOk(s') && StoreOk(s') && Balanced(s')
  {
    SharedListsFull(s, t, q);
    PoolReplaced(s, s', t, q);
    StoreChanged(s, s', s.threads[t][q].elemSize, r.lists);
    BalanceReplaced(s, s', t, q, 1);
  }

  // ------------------------------------------------ deletion

  /** A header that is not 0 belongs to a block in use, and holds its size. */
  lemma HeaderTells(s: State, b: nat)
    requires HeadersOk(s) && b in s.header
    ensures b in s.origin && (s.header[b] != 0 <==> b in s.live)
    ensures s.header[b] != 0 ==> s.origin[b] == s.header[b] + WORD
  {
  }

  lemma DeleteToFree(s: State, s': State, t: nat, q: nat, b: nat)
    requires Placed(s) && HeadersOk(s) && DeleteStep(s, s', t, q, b)
    requires |s.threads[t][q].freelist| < s.threads[t][q].maxFree
    ensures Placed(s')
  {
    HeaderTells(s, b);
    LiveToFree(s, s', t, q, b);
  }

  lemma DeleteToOverflow(s: State, s': State, t: nat, q: nat, b: nat)
    requires Placed(s) && HeadersOk(s) && DeleteStep(s, s', t, q, b)
    requires |s.threads[t][q].freelist| >= s.threads[t][q].maxFree
    requires |s.threads[t][q].overflow| + 1 != s.threads[t][q].PerArena()
    ensures Placed(s')
  {
    HeaderTells(s, b);
    LiveToOverflow(s, s', t, q, b);
  }

  /** The state in between: the overflow list is full. */
  function Filled(s: State, t: nat, q: nat, b: nat): State
    requires HasPool(s, t, q)
  {
    var p := s.threads[t][q];
    Put(s, t, q, p.(overflow := p.overflow + [b])).(live := s.live - {b})
  }

  lemma DeleteToShared(s: State, s': State, t: nat, q: nat, b: nat)
    requires Placed(s) && HeadersOk(s) && StoreOk(s) && DeleteStep(s, s', t, q, b)
    requires |s.threads[t][q].freelist| >= s.threads[t][q].maxFree
    requires |s.threads[t][q].overflow| + 1 == s.threads[t][q].PerArena()
    ensures Placed(s')
  {
    var p := s.threads[t][q];
    var lists, mid := Lists(s.store, p.elemSize), Filled(s, t, q, b);
    HeaderTells(s, b);
    LiveToOverflow(s, mid, t, q, b);
    ChangedLists(mid, s', p.elemSize, lists + [p.overflow + [b]]);
    ChangedTwice(s, mid, s', t, q, mid.threads[t][q], s'.threads[t][q]);
    OverflowToShared(mid, s', t, q, lists + [p.overflow + [b]]);
  }

  /** The whole effect of a deletion. */
  ghost predicate Deleted(s: State, s': State, t: nat, q: nat, b: nat, r: (Pool, seq<seq<nat>>))
    requires HasPool(s, t, q)
  {
    && s'.cacheAlign == s.cacheAlign && s'.origin == s.origin && s'.failures == s.failures
    && s'.threads == Put(s, t, q, r.0).threads
    && s'.store == Shelved(s.store, s.threads[t][q].elemSize, r.1)
    && s'.header == s.header[b := 0] && s'.live == s.live - {b}
  }

  lemma DeleteDeletes(s: State, s': State, t: nat, q: nat, b: nat)
    requires DeleteStep(s, s', t, q, b)
    ensures Deleted(s, s', t, q, b, Free(s.threads[t][q], Lists(s.store, s.threads[t][q].elemSize), b))
  {
  }

  /** What free does to the numbers of one pool. */
  ghost predicate FreeFits(p: Pool, lists: seq<seq<nat>>, r: (Pool, seq<seq<nat>>))
    requires p.allocSize > 0
  {
    && r.0.elemSize == p.elemSize && r.0.allocSize == p.allocSize && r.0.arenas == p.arenas && r.0.maxFree == p.maxFree
    && |r.0.freelist| <= r.0.maxFree && |r.0.overflow| < p.PerArena()
    && r.0.numAlloc == p.numAlloc && r.0.numFree == p.numFree + 1
    && (r.1 == lists || (|r.1| == |lists| + 1 && r.1[..|lists|] == lists && |r.1[|lists|]| == p.PerArena()))
  }

  lemma FreeBounds(p: Pool, lists: seq<seq<nat>>, b: nat)
    requires 0 < p.allocSize <= ARENA_SIZE && |p.freelist| <= p.maxFree && |p.overflow| < p.PerArena()
    ensures FreeFits(p, lists, Free(p, lists, b))
  {
    PerArenaPositive(p.allocSize);
  }

  lemma DeletedNumbers(s: State, s': State, t: nat, q: nat, b: nat, r: (Pool, seq<seq<nat>>))
    requires PoolsOk(s) && StoreOk(s) && Balanced(s) && HasPool(s, t, q) && PoolOk(s, t, q) && b in s.live
    requires Deleted(s, s', t, q, b, r)
    requires FreeFits(s.threads[t][q], Lists(s.store, s.threads[t][q].elemSize), r)
    ensures PoolsOk(s') && StoreOk(s') && Balanced(s')
  {
    var lists := Lists(s.store, s.threads[t][q].elemSize);
    SharedListsFull(s, t, q);
    PoolReplaced(s, s', t, q);
    assert forall k :: 0 <= k < |r.1| && k < |lists| ==> r.1[k] == lists[k];
    StoreChanged(s, s', s.threads[t][q].elemSize, r.1);
    BalanceReplaced(s, s', t, q, -1);
  }

  lemma DeletePlaces(s: State, s': State, t: nat, q: nat, b: nat)
    requires Placed(s) && HeadersOk(s) && StoreOk(s) && DeleteStep(s, s', t, q, b)
    ensures Placed(s')
  {
    var p := s.threads[t][q];
    if |p.freelist| < p.maxFree {
      DeleteToFree(s, s', t, q, b);
    } else if |p.overflow| + 1 != p.PerArena() {
      DeleteToOverflow(s, s', t, q, b);
    } else {
      DeleteToShared(s, s', t, q, b);
    }
  }

  lemma DeletedHeaders(s: State, s': State, t: nat, q: nat, b: nat)
    requires HeadersOk(s) && DeleteStep(s, s', t, q, b)
    ensures HeadersOk(s')
  {
    HeaderTells(s, b);
  }

  lemma DeleteKeeps(s: State, s': State, t: nat, q: nat, b: nat)
    requires Inv(s) && DeleteStep(s, s', t, q, b)
    ensures Inv(s')
  {
    var p := s.threads[t][q];
    assert PoolOk(s, t, q);
    HeaderTells(s, b);
    DeletePlaces(s, s', t, q, b);
    DeletedHeaders(s, s', t, q, b);
    var lists := Lists(s.store, p.elemSize);
    DeleteDeletes(s, s', t, q, b);
    FreeBounds(p, lists, b);
    DeletedNumbers(s, s', t, q, b, Free(p, lists, b));
    NoNewArena(s, s', t, q);
  }

  // ------------------------------------------------ every run

  /** Every interleaving of the threads' operations keeps the invariant. */
  lemma {:induction false} RunInv(threads: nat, cacheAlign: bool, run: seq<State>, k: nat)
    requires Run(threads, cacheAlign, run) && k < |run|
    ensures Inv(run[k])
    decreases k
  {
    if k == 0 {
      InitInv(threads, cacheAlign);
    } else {
      RunInv(threads, cacheAlign, run, k - 1);
      var s, s' := run[k - 1], run[k];
      assert Step(s, s');
      if t: nat, size: nat :| OpenStep(s, s', t, size) {
        OpenKeeps(s, s', t, size);
      } else if t: nat, q: nat, mapped :| NewStep(s, s', t, q, mapped) {
        NewKeeps(s, s', t, q, mapped);
      } else {
        var t: nat, q: nat, b: nat :| DeleteStep(s, s', t, q, b);
        DeleteKeeps(s, s', t, q, b);
      }
    }
  }

  // ------------------------------------------------ reports

  /** getMemPoolUsage: the number of active entries over all pools of all threads. */
  method ActiveEntries(threads: seq<seq<Pool>>) returns (active: int)
    ensures active == Balance(threads)
  {
    var alloced, freed := 0, 0;
    for t := 0 to |threads|
      invariant alloced - freed + Balance(threads[t..]) == Balance(threads)
    {
      assert threads[t..][0] == threads[t] && threads[t..][1..] == threads[t + 1..];
      var pools := threads[t];
      ghost var before := alloced - freed;
      for q := 0 to |pools|
        invariant alloced - freed + PoolBalance(pools[q..]) == before + PoolBalance(pools)
      {
        assert pools[q..][0] == pools[q] && pools[q..][1..] == pools[q + 1..];
        alloced := alloced + pools[q].numAlloc;
        freed := freed + pools[q].numFree;
      }
    }
    active := alloced - freed;
  }

  /** In every reachable state the number reported is that of the blocks in use, plus failed allocations. */
  lemma ActiveEntriesAreLive(threads: nat, cacheAlign: bool, run: seq<State>, k: nat)
    requires Run(threads, cacheAlign, run) && k < |run|
    ensures Balance(run[k].threads) == |run[k].live| + run[k].failures
  {
    RunInv(threads, cacheAlign, run, k);
  }

  /** Block i of arena a comes before block j of arena k of pool q of thread t. */
  predicate Before(a: ArenaId, i: nat, t: nat, q: nat, k: nat, j: nat) {
    a.t < t || (a.t == t && (a.q < q || (a.q == q && (a.k < k || (a.k == k && i < j)))))
  }

  /** b is a block with a header that is not 0, in the part of the traversal already done. */
  ghost predicate Listed(s: State, b: nat, t: nat, q: nat, k: nat, j: nat) {
    b in s.header && s.header[b] != 0 && exists a, i :: IsBlock(s, b, a, i) && Before(a, i, t, q, k, j)
  }

  /** What has been reported so far: those blocks, each once. */
  ghost predicate Reported(s: State, found: seq<nat>, t: nat, q: nat, k: nat, j: nat) {
    && (forall b :: b in found <==> Listed(s, b, t, q, k, j))
    && forall m, n :: 0 <= m < n < |found| ==> found[m] != found[n]
  }

  /** Moving on past places where there are no blocks. */
  lemma ReportedOn(s: State, found: seq<nat>, t: nat, q: nat, k: nat, j: nat, t': nat, q': nat, k': nat, j': nat)
    requires Reported(s, found, t, q, k, j)
    requires forall a, i :: (exists b :: IsBlock(s, b, a, i)) ==>
               (Before(a, i, t', q', k', j') <==> Before(a, i, t, q, k, j))
    ensures Reported(s, found, t', q', k', j')
  {
    forall b ensures Listed(s, b, t', q', k', j') <==> Listed(s, b, t, q, k, j) {
      if Listed(s, b, t, q, k, j) {
        var a, i :| IsBlock(s, b, a, i) && Before(a, i, t, q, k, j);
        assert Before(a, i, t', q', k', j');
      }
      if Listed(s, b, t', q', k', j') {
        var a, i :| IsBlock(s, b, a, i) && Before(a, i, t', q', k', j');
        assert Before(a, i, t, q, k, j);
      }
    }
  }

  /** Looking at one more block. */
  lemma ReportedOneMore(s: State, found: seq<nat>, t: nat, q: nat, k: nat, j: nat, b: nat)
    requires Carved(s) && PoolsOk(s) && Reported(s, found, t, q, k, j)
    requires IsBlock(s, b, ArenaId(t, q, k), j) && b in s.header
    ensures Reported(s, if s.header[b] != 0 then found + [b] else found, t, q, k, j + 1)
  {
    var after := if s.header[b] != 0 then found + [b] else found;
    forall c ensures c in after <==> Listed(s, c, t, q, k, j + 1) {
      if Listed(s, c, t, q, k, j) {
        var a, i :| IsBlock(s, c, a, i) && Before(a, i, t, q, k, j);
        assert Before(a, i, t, q, k, j + 1);
      }
      if Listed(s, c, t, q, k, j + 1) && !Listed(s, c, t, q, k, j) {
        var a, i :| IsBlock(s, c, a, i) && Before(a, i, t, q, k, j + 1);
        assert a == ArenaId(t, q, k) && i == j && c == b;
      }
      if c == b && s.header[b] != 0 {
        assert Before(ArenaId(t, q, k), j, t, q, k, j + 1);
      }
    }
    NotListedYet(s, t, q, k, j, b);
  }

  lemma NotListedYet(s: State, t: nat, q: nat, k: nat, j: nat, b: nat)
    requires Carved(s) && PoolsOk(s) && IsBlock(s, b, ArenaId(t, q, k), j)
    ensures !Listed(s, b, t, q, k, j)
  {
    if Listed(s, b, t, q, k, j) {
      var a, i :| IsBlock(s, b, a, i) && Before(a, i, t, q, k, j);
      assert PoolOk(s, t, q);
      BlocksDisjoint(s, b, a, i, b, ArenaId(t, q, k), j);
    }
  }

  lemma ReportedAll(s: State, found: seq<nat>)
    requires Carved(s) && HeadersOk(s) && Placed(s) && Reported(s, found, |s.threads|, 0, 0, 0)
    ensures forall b :: b in found <==> b in s.live
  {
    LiveIsCarved(s);
    forall b ensures Listed(s, b, |s.threads|, 0, 0, 0) <==> b in s.live {
      if b in s.live {
        var a, i :| IsBlock(s, b, a, i);
        assert Before(a, i, |s.threads|, 0, 0, 0);
      }
    }
  }

  /** The blocks of one arena whose header is not 0. */
  method UndeletedInArena(s: State, t: nat, q: nat, k: nat, before: seq<nat>) returns (found: seq<nat>)
    requires Carved(s) && PoolsOk(s) && HeadersOk(s) && HasArena(s, ArenaId(t, q, k)) && Reported(s, before, t, q, k, 0)
    ensures Reported(s, found, t, q, k + 1, 0)
  {
    found := before;
    var p := s.threads[t][q];
    assert PoolOk(s, t, q);
    for j := 0 to p.PerArena()
      invariant Reported(s, found, t, q, k, j)
    {
      var b := p.arenas[k] + p.allocSize * j;
      assert IsBlock(s, b, ArenaId(t, q, k), j);
      ReportedOneMore(s, found, t, q, k, j, b);
      if s.header[b] != 0 {
        found := found + [b];
      }
    }
    ReportedOn(s, found, t, q, k, p.PerArena(), t, q, k + 1, 0);
  }

  /** printUndeletedMemPoolItems: the blocks whose header is not 0, arena by arena. */
  method Undeleted(s: State) returns (found: seq<nat>)
    requires Carved(s) && PoolsOk(s) && HeadersOk(s) && Placed(s)
    ensures forall b :: b in found <==> b in s.live
    ensures forall m, n :: 0 <= m < n < |found| ==> found[m] != found[n]
  {
    found := [];
    for t := 0 to |s.threads|
      invariant Reported(s, found, t, 0, 0, 0)
    {
      for q := 0 to |s.threads[t]|
        invariant Reported(s, found, t, q, 0, 0)
      {
        for k := 0 to |s.threads[t][q].arenas|
          invariant Reported(s, found, t, q, k, 0)
        {
          found := UndeletedInArena(s, t, q, k, found);
        }
        ReportedOn(s, found, t, q, |s.threads[t][q].arenas|, 0, t, q + 1, 0, 0);
      }
      ReportedOn(s, found, t, |s.threads[t]|, 0, 0, t + 1, 0, 0, 0);
    }
    ReportedAll(s, found);
  }
}
