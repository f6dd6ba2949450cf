/**
 * All threads allocating and deleting items through their pools (mempool.cc). A thread's
 * pools and the blocks it holds are touched by that thread only, and each operation enters
 * the shared store at most once, under its lock: an operation is one step.
 */
module MemPoolSystem {
  import opened MemPool
  import opened Wrappers

  /**
   * The pools of each thread, the shared store and the header words. For the specification:
   * the element size each block was carved for, the blocks in use, and how often mmap failed.
   */
  datatype State = State(cacheAlign: bool, threads: seq<seq<Pool>>, store: seq<Shelf>, header: map<nat, nat>,
                         origin: map<nat, nat>, live: set<nat>, failures: nat)

  predicate HasPool(s: State, t: nat, q: nat) {
    t < |s.threads| && q < |s.threads[t]|
  }

  // ------------------------------------------------ where a block is

  /** In use, or on a free list of pool q of thread t, or on a shared list of an element size. */
  datatype Location =
    | Live | OnFree(t: nat, q: nat, i: nat) | OnOverflow(t: nat, q: nat, i: nat) | OnShared(size: nat, k: nat, i: nat)

  predicate At(s: State, b: nat, l: Location) {
    match l
    case Live => b in s.live
    case OnFree(t, q, i) => HasPool(s, t, q) && i < |s.threads[t][q].freelist| && s.threads[t][q].freelist[i] == b
    case OnOverflow(t, q, i) => HasPool(s, t, q) && i < |s.threads[t][q].overflow| && s.threads[t][q].overflow[i] == b
    case OnShared(size, k, i) =>
      var lists := Lists(s.store, size);
      k < |lists| && i < |lists[k]| && lists[k][i] == b
  }

  /** A free list holds blocks of its own element size only. */
  predicate RightSize(s: State, b: nat, l: Location)
    requires At(s, b, l) && b in s.origin
  {
    match l
    case Live => true
    case OnFree(t, q, _) => s.origin[b] == s.threads[t][q].elemSize
    case OnOverflow(t, q, _) => s.origin[b] == s.threads[t][q].elemSize
    case OnShared(size, _, _) => s.origin[b] == size
  }

  /** Every block that was ever carved is in exactly one place, and that is a place for its size. */
  ghost predicate Placed(s: State) {
    && (forall b, l :: At(s, b, l) ==> b in s.origin && RightSize(s, b, l))
    && (forall b, l, m :: At(s, b, l) && At(s, b, m) ==> l == m)
    && forall b :: b in s.origin ==> exists l :: At(s, b, l)
  }

  // ------------------------------------------------ moving blocks

  /** Only pool q of thread t may have changed, and not its element size. */
  ghost predicate OnlyPool(s: State, s': State, t: nat, q: nat) {
    && HasPool(s, t, q) && HasPool(s', t, q)
    && s'.threads == s.threads[t := s.threads[t][q := s'.threads[t][q]]]
    && s'.threads[t][q].elemSize == s.threads[t][q].elemSize
  }

  ghost predicate SameLists(s: State, s': State) {
    forall size :: Lists(s'.store, size) == Lists(s.store, size)
  }

  /** One block has gone from one place to another. */
  ghost predicate Moved(s: State, s': State, b: nat, from: Location, to: Location) {
    && At(s, b, from) && s'.origin == s.origin
    && forall x, l :: At(s', x, l) <==> if x == b then l == to else At(s, x, l)
  }

  lemma MoveKeepsPlaced(s: State, s': State, b: nat, from: Location, to: Location)
    requires Placed(s) && Moved(s, s', b, from, to) && RightSizes(s, s')
    requires b in s.origin && At(s', b, to) && RightSize(s', b, to)
    ensures Placed(s')
  {
    forall x, l | At(s', x, l) ensures x in s'.origin && RightSize(s', x, l) {
      if x != b { assert At(s, x, l); }
    }
    forall x | x in s'.origin ensures exists l :: At(s', x, l) {
      if x == b {
        assert At(s', x, to);
      } else {
        var l :| At(s, x, l);
        assert At(s', x, l);
      }
    }
  }

  /** The pools keep their element sizes. */
  ghost predicate RightSizes(s: State, s': State) {
    && s'.origin == s.origin
    && forall t: nat, q: nat :: HasPool(s', t, q) ==>
         HasPool(s, t, q) && s'.threads[t][q].elemSize == s.threads[t][q].elemSize
  }

  lemma OnlyPoolRightSizes(s: State, s': State, t: nat, q: nat)
    requires OnlyPool(s, s', t, q) && s'.origin == s.origin
    ensures RightSizes(s, s')
  {
    forall u: nat, r: nat | HasPool(s', u, r)
      ensures HasPool(s, u, r) && s'.threads[u][r].elemSize == s.threads[u][r].elemSize
    {
    }
  }

  /** The last block of the freelist is handed out. */
  lemma FreeToLive(s: State, s': State, t: nat, q: nat, b: nat)
    requires Placed(s) && OnlyPool(s, s', t, q) && SameLists(s, s') && s'.origin == s.origin
    requires s.threads[t][q].freelist == s'.threads[t][q].freelist + [b]
    requires s'.threads[t][q].overflow == s.threads[t][q].overflow
    requires s'.live == s.live + {b}
    ensures Placed(s')
  {
    var from := OnFree(t, q, |s'.threads[t][q].freelist|);
    assert At(s, b, from);
    forall x, l ensures At(s', x, l) <==> if x == b then l == Live else At(s, x, l) {
      if At(s', x, l) && l != Live { assert At(s, x, l); }
      if At(s, x, l) && x != b { assert l != from; }
    }
    OnlyPoolRightSizes(s, s', t, q);
    MoveKeepsPlaced(s, s', b, from, Live);
  }

  /** The last block of the overflow list is handed out. */
  lemma OverflowToLive(s: State, s': State, t: nat, q: nat, b: nat)
    requires Placed(s) && OnlyPool(s, s', t, q) && SameLists(s, s') && s'.origin == s.origin
    requires s.threads[t][q].overflow == s'.threads[t][q].overflow + [b]
    requires s'.threads[t][q].freelist == s.threads[t][q].freelist
    requires s'.live == s.live + {b}
    ensures Placed(s')
  {
    var from := OnOverflow(t, q, |s'.threads[t][q].overflow|);
    assert At(s, b, from);
    forall x, l ensures At(s', x, l) <==> if x == b then l == Live else At(s, x, l) {
      if At(s', x, l) && l != Live { assert At(s, x, l); }
      if At(s, x, l) && x != b { assert l != from; }
    }
    OnlyPoolRightSizes(s, s', t, q);
    MoveKeepsPlaced(s, s', b, from, Live);
  }

  /** A block in use goes on the freelist of a pool of its size. */
  lemma LiveToFree(s: State, s': State, t: nat, q: nat, b: nat)
    requires Placed(s) && OnlyPool(s, s', t, q) && SameLists(s, s') && s'.origin == s.origin
    requires b in s.live && b in s.origin && s.origin[b] == s.threads[t][q].elemSize
    requires s'.threads[t][q].freelist == s.threads[t][q].freelist + [b]
    requires s'.threads[t][q].overflow == s.threads[t][q].overflow
    requires s'.live == s.live - {b}
    ensures Placed(s')
  {
    var to := OnFree(t, q, |s.threads[t][q].freelist|);
    assert At(s, b, Live);
    forall x, l ensures At(s', x, l) <==> if x == b then l == to else At(s, x, l) {
      if At(s', x, l) && l != to { assert At(s, x, l); }
    }
    OnlyPoolRightSizes(s, s', t, q);
    MoveKeepsPlaced(s, s', b, Live, to);
  }

  /** A block in use goes on the overflow list of a pool of its size. */
  lemma LiveToOverflow(s: State, s': State, t: nat, q: nat, b: nat)
    requires Placed(s) && OnlyPool(s, s', t, q) && SameLists(s, s') && s'.origin == s.origin
    requires b in s.live && b in s.origin && s.origin[b] == s.threads[t][q].elemSize
    requires s'.threads[t][q].overflow == s.threads[t][q].overflow + [b]
    requires s'.threads[t][q].freelist == s.threads[t][q].freelist
    requires s'.live == s.live - {b}
    ensures Placed(s')
  {
    var to := OnOverflow(t, q, |s.threads[t][q].overflow|);
    assert At(s, b, Live);
    forall x, l ensures At(s', x, l) <==> if x == b then l == to else At(s, x, l) {
      if At(s', x, l) && l != to { assert At(s, x, l); }
    }
    OnlyPoolRightSizes(s, s', t, q);
    MoveKeepsPlaced(s, s', b, Live, to);
  }

  /** A whole list changes places with the last shared list of its size. */
  function Swapped(l: Location, t: nat, q: nat, size: nat, k: nat): Location {
    match l
    case OnOverflow(u, r, i) => if u == t && r == q then OnShared(size, k, i) else l
    case OnShared(e, j, i) => if e == size && j == k then OnOverflow(t, q, i) else l
    case _ => l
  }

  lemma SwapKeepsPlaced(s: State, s': State, t: nat, q: nat, size: nat, k: nat)
    requires Placed(s) && RightSizes(s, s') && HasPool(s', t, q) && s'.threads[t][q].elemSize == size
    requires forall x, l :: At(s', x, l) <==> At(s, x, Swapped(l, t, q, size, k))
    ensures Placed(s')
  {
    forall x, l | At(s', x, l) ensures x in s'.origin && RightSize(s', x, l) {
      assert At(s, x, Swapped(l, t, q, size, k));
    }
    forall x, l, m | At(s', x, l) && At(s', x, m) ensures l == m {
      assert At(s, x, Swapped(l, t, q, size, k)) && At(s, x, Swapped(m, t, q, size, k));
    }
    forall x | x in s'.origin ensures exists l :: At(s', x, l) {
      var l :| At(s, x, l);
      assert At(s', x, Swapped(l, t, q, size, k));
    }
  }

  /** Only the lists of one size may have changed. */
  ghost predicate OnlyLists(s: State, s': State, size: nat, lists: seq<seq<nat>>) {
    && Lists(s'.store, size) == lists
    && forall e :: e != size ==> Lists(s'.store, e) == Lists(s.store, e)
  }

  /** An empty overflow list takes over the last shared list. */
  lemma SharedToOverflow(s: State, s': State, t: nat, q: nat, rest: seq<seq<nat>>)
    requires Placed(s) && OnlyPool(s, s', t, q) && s'.origin == s.origin && s'.live == s.live
    requires s.threads[t][q].overflow == [] && s'.threads[t][q].freelist == s.threads[t][q].freelist
    requires OnlyLists(s, s', s.threads[t][q].elemSize, rest)
    requires Lists(s.store, s.threads[t][q].elemSize) == rest + [s'.threads[t][q].overflow]
    ensures Placed(s')
  {
    var size, k := s.threads[t][q].elemSize, |rest|;
    OnlyPoolRightSizes(s, s', t, q);
    forall x, l ensures At(s', x, l) <==> At(s, x, Swapped(l, t, q, size, k)) {
    }
    SwapKeepsPlaced(s, s', t, q, size, k);
  }

  /** A full overflow list goes to the shared store. */
  lemma OverflowToShared(s: State, s': State, t: nat, q: nat, lists: seq<seq<nat>>)
    requires Placed(s) && OnlyPool(s, s', t, q) && s'.origin == s.origin && s'.live == s.live
    requires s'.threads[t][q].overflow == [] && s'.threads[t][q].freelist == s.threads[t][q].freelist
    requires OnlyLists(s, s', s.threads[t][q].elemSize, lists)
    requires lists == Lists(s.store, s.threads[t][q].elemSize) + [s.threads[t][q].overflow]
    ensures Placed(s')
  {
    var size, k := s.threads[t][q].elemSize, |lists| - 1;
    OnlyPoolRightSizes(s, s', t, q);
    forall x, l ensures At(s', x, l) <==> At(s, x, Swapped(l, t, q, size, k)) {
    }
    SwapKeepsPlaced(s, s', t, q, size, k);
  }

  /** The blocks of a new arena go on the freelist. */
  lemma CarvedToFree(s: State, s': State, t: nat, q: nat, blocks: seq<nat>)
    requires Placed(s) && OnlyPool(s, s', t, q) && SameLists(s, s') && s'.live == s.live
    requires s'.threads[t][q].overflow == s.threads[t][q].overflow
    requires s'.threads[t][q].freelist == s.threads[t][q].freelist + blocks
    requires forall i, j :: 0 <= i < j < |blocks| ==> blocks[i] != blocks[j]
    requires forall i :: 0 <= i < |blocks| ==> blocks[i] !in s.origin
    requires s'.origin == s.origin + map b | b in blocks :: s.threads[t][q].elemSize
    ensures Placed(s')
  {
    var n := |s.threads[t][q].freelist|;
    forall x, l ensures At(s', x, l) <==>
                        At(s, x, l) || (l.OnFree? && l.t == t && l.q == q && n <= l.i < n + |blocks|
                          && blocks[l.i - n] == x)
    {
    }
    forall x, l | At(s', x, l) ensures x in s'.origin && RightSize(s', x, l) {
      if At(s, x, l) { assert x in s.origin && x !in blocks; }
    }
    forall x, l, m | At(s', x, l) && At(s', x, m) ensures l == m {
      if x in blocks { assert !At(s, x, l) && !At(s, x, m); }
    }
    forall x | x in s'.origin ensures exists l :: At(s', x, l) {
      if x in s.origin {
        var l :| At(s, x, l);
        assert At(s', x, l);
      } else {
        var i: nat :| i < |blocks| && blocks[i] == x;
        assert At(s', x, OnFree(t, q, n + i));
      }
    }
  }

  // ------------------------------------------------ arenas

  /** The address range of arena k of pool q of thread t. */
  datatype ArenaId = ArenaId(t: nat, q: nat, k: nat)

  predicate HasArena(s: State, a: ArenaId) {
    HasPool(s, a.t, a.q) && a.k < |s.threads[a.t][a.q].arenas|
  }

  function Base(s: State, a: ArenaId): nat
    requires HasArena(s, a)
  {
    s.threads[a.t][a.q].arenas[a.k]
  }

  /** b is block j of arena a. */
  predicate IsBlock(s: State, b: nat, a: ArenaId, j: nat) {
    && HasArena(s, a)
    && var p := s.threads[a.t][a.q];
       p.allocSize > 0 && j < p.PerArena() && b == Base(s, a) + p.allocSize * j
  }

  /** The size of a page, to which mmap aligns. */
  const PAGE: nat := 4096

  /** What mmap may return: a page-aligned range that overlaps no arena. */
  ghost predicate Unmapped(s: State, base: nat) {
    && base % PAGE == 0
    && forall a :: HasArena(s, a) ==> Apart(base, Base(s, a))
  }

  predicate Apart(base: nat, other: nat) {
    base + ARENA_SIZE <= other || other + ARENA_SIZE <= base
  }

  /** The arenas overlap nowhere, and their blocks are exactly what was carved. */
  ghost predicate Carved(s: State) {
    && (forall a :: HasArena(s, a) ==> Base(s, a) % PAGE == 0)
    && (forall a, c :: HasArena(s, a) && HasArena(s, c) && a != c ==> Apart(Base(s, a), Base(s, c)))
    && (forall b, a, j :: IsBlock(s, b, a, j) ==> b in s.origin && s.origin[b] == s.threads[a.t][a.q].elemSize)
    && forall b :: b in s.origin ==> exists a, j :: IsBlock(s, b, a, j)
  }

  /** Block j of count lies inside the arena. */
  lemma InsideArena(base: nat, alloc: nat, count: nat, j: nat)
    requires alloc > 0 && count == ARENA_SIZE / alloc && j < count
    ensures base <= base + alloc * j && base + alloc * j + alloc <= base + ARENA_SIZE
  {
    assert alloc * j + alloc == alloc * (j + 1);
    assert alloc * (j + 1) <= alloc * count by { MulMonotone(alloc, j + 1, count); }
  }

  lemma MulMonotone(x: nat, y: nat, z: nat)
    requires y <= z
    ensures x * y <= x * z
  {
  }

  /** Different blocks of one arena do not overlap. */
  lemma BlocksApart(base: nat, alloc: nat, i: nat, j: nat)
    requires i < j
    ensures base + alloc * i + alloc <= base + alloc * j
  {
    MulMonotone(alloc, i + 1, j);
  }

  /** Blocks lie inside their arena, do not overlap, and fill whole cache lines if so configured. */
  lemma BlocksDisjoint(s: State, b: nat, a: ArenaId, i: nat, c: nat, d: ArenaId, j: nat)
    requires Carved(s) && PoolsOk(s) && IsBlock(s, b, a, i) && IsBlock(s, c, d, j)
    ensures Base(s, a) <= b && b + s.threads[a.t][a.q].allocSize <= Base(s, a) + ARENA_SIZE
    ensures s.cacheAlign ==> b % CACHE_LINE == 0
    ensures (a != d || i != j) ==>
              b + s.threads[a.t][a.q].allocSize <= c || c + s.threads[d.t][d.q].allocSize <= b
  {
    var p, r := s.threads[a.t][a.q], s.threads[d.t][d.q];
    assert PoolOk(s, a.t, a.q) && PoolOk(s, d.t, d.q);
    InsideArena(Base(s, a), p.allocSize, p.PerArena(), i);
    InsideArena(Base(s, d), r.allocSize, r.PerArena(), j);
    if a == d && i < j {
      BlocksApart(Base(s, a), p.allocSize, i, j);
    } else if a == d && j < i {
      BlocksApart(Base(s, a), p.allocSize, j, i);
    }
    if s.cacheAlign {
      AlignedBlock(Base(s, a), p.allocSize, i);
    }
  }

  lemma AlignedBlock(base: nat, alloc: nat, i: nat)
    requires base % PAGE == 0 && alloc % CACHE_LINE == 0
    ensures (base + alloc * i) % CACHE_LINE == 0
  {
    WholeLines(base / CACHE_LINE, alloc / CACHE_LINE, i);
  }

  lemma WholeLines(u: nat, v: nat, i: nat)
    ensures (CACHE_LINE * u + CACHE_LINE * v * i) % CACHE_LINE == 0
  {
    assert CACHE_LINE * u + CACHE_LINE * v * i == CACHE_LINE * (u + v * i);
  }

  // ------------------------------------------------ the pools

  /** The element size decides the block size, of which at least one fits in an arena. */
  ghost predicate PoolOk(s: State, t: nat, q: nat)
    requires HasPool(s, t, q)
  {
    var p := s.threads[t][q];
    && p.elemSize > WORD
    && p.allocSize == AllocSize(p.elemSize, s.cacheAlign) <= ARENA_SIZE
    && p.maxFree == |p.arenas| * p.PerArena()
    && |p.freelist| <= p.maxFree
    && |p.overflow| < p.PerArena()
  }

  ghost predicate PoolsOk(s: State) {
    && (forall t: nat, q: nat :: HasPool(s, t, q) ==> PoolOk(s, t, q))
    && forall t: nat, q: nat, r: nat :: HasPool(s, t, q) && HasPool(s, t, r) && q < r ==>
         s.threads[t][q].elemSize != s.threads[t][r].elemSize
  }

  /** Shared lists are full, and there is one shelf for each size. */
  ghost predicate StoreOk(s: State) {
    && OneShelfEach(s.store)
    && forall size, k :: 0 <= k < |Lists(s.store, size)| ==>
         |Lists(s.store, size)[k]| == ARENA_SIZE / AllocSize(size, s.cacheAlign)
  }

  /** The header word of a block is the item's size while it is in use, and 0 otherwise. */
  ghost predicate HeadersOk(s: State) {
    && s.header.Keys == s.origin.Keys
    && forall b :: b in s.origin ==>
         s.origin[b] > WORD && s.header[b] == if b in s.live then s.origin[b] - WORD else 0
  }

  // ------------------------------------------------ counting

  function PoolBalance(pools: seq<Pool>): int {
    if |pools| == 0 then 0 else pools[0].numAlloc - pools[0].numFree + PoolBalance(pools[1..])
  }

  /** Allocations minus frees, over all pools of all threads. */
  function Balance(threads: seq<seq<Pool>>): int {
    if |threads| == 0 then 0 else PoolBalance(threads[0]) + Balance(threads[1..])
  }

  lemma {:induction false} PoolBalanceUpdate(pools: seq<Pool>, q: nat, p: Pool)
    requires q < |pools|
    ensures PoolBalance(pools[q := p])
            == PoolBalance(pools) - (pools[q].numAlloc - pools[q].numFree) + (p.numAlloc - p.numFree)
  {
    if q > 0 {
      PoolBalanceUpdate(pools[1..], q - 1, p);
      assert pools[q := p][1..] == pools[1..][q - 1 := p];
    } else {
      assert pools[q := p][1..] == pools[1..];
    }
  }

  lemma {:induction false} BalanceUpdate(threads: seq<seq<Pool>>, t: nat, pools: seq<Pool>)
    requires t < |threads|
    ensures Balance(threads[t := pools]) == Balance(threads) - PoolBalance(threads[t]) + PoolBalance(pools)
  {
    if t > 0 {
      BalanceUpdate(threads[1..], t - 1, pools);
      assert threads[t := pools][1..] == threads[1..][t - 1 := pools];
    } else {
      assert threads[t := pools][1..] == threads[1..];
    }
  }

  lemma {:induction false} PoolBalanceAppend(pools: seq<Pool>, p: Pool)
    ensures PoolBalance(pools + [p]) == PoolBalance(pools) + (p.numAlloc - p.numFree)
  {
    if |pools| > 0 {
      PoolBalanceAppend(pools[1..], p);
      assert (pools + [p])[1..] == pools[1..] + [p];
    }
  }

  /** Every allocation not yet freed is a block in use or was a failure of mmap. */
  ghost predicate Balanced(s: State) {
    Balance(s.threads) == |s.live| + s.failures
  }

  ghost predicate Inv(s: State) {
    Placed(s) && Carved(s) && PoolsOk(s) && StoreOk(s) && HeadersOk(s) && Balanced(s)
  }

  // ------------------------------------------------ steps

  function Put(s: State, t: nat, q: nat, p: Pool): State
    requires HasPool(s, t, q)
  {
    s.(threads := s.threads[t := s.threads[t][q := p]])
  }

  function MapOf(blocks: seq<nat>, value: nat): (m: map<nat, nat>)
    ensures forall b :: b in m <==> b in blocks
    ensures forall b :: b in m ==> m[b] == value
  {
    map b | b in blocks :: value
  }

  /** getMemPool creates a pool when a thread first asks for a size. */
  function Open(s: State, t: nat, size: nat): State
    requires t < |s.threads|
  {
    s.(threads := s.threads[t := s.threads[t] + [NewPool(size + WORD, s.cacheAlign)]])
  }

  /** getMemPool: the first pool for the size, created if the thread has none. */
  method GetMemPool(pools: seq<Pool>, size: nat, cacheAlign: bool) returns (after: seq<Pool>, q: nat)
    ensures q < |after| && after[q].elemSize == size + WORD
    ensures forall r :: 0 <= r < q ==> after[r].elemSize != size + WORD
    ensures after == pools || (q == |pools| && after == pools + [NewPool(size + WORD, cacheAlign)])
  {
    for r := 0 to |pools|
      invariant forall i :: 0 <= i < r ==> pools[i].elemSize != size + WORD
    {
      if pools[r].elemSize == size + WORD {
        return pools, r;
      }
    }
    return pools + [NewPool(size + WORD, cacheAlign)], |pools|;
  }

  /** The store after an operation of a pool has left `lists` for its size. */
  function Shelved(store: seq<Shelf>, size: nat, lists: seq<seq<nat>>): seq<Shelf> {
    if |lists| == |Lists(store, size)| then store else WithLists(store, size, lists)
  }

  /** operator new on thread t, whose pool for the size is q. */
  function New(s: State, t: nat, q: nat, mapped: Option<nat>): State
    requires HasPool(s, t, q) && 0 < s.threads[t][q].allocSize <= ARENA_SIZE
  {
    var p := s.threads[t][q];
    var r := Malloc(p, Lists(s.store, p.elemSize), mapped);
    var blocks := if |r.pool.arenas| > |p.arenas| && mapped.Some?
                  then Blocks(mapped.value, p.allocSize, p.PerArena()) else [];
    var s1 := Put(s, t, q, r.pool).(store := Shelved(s.store, p.elemSize, r.lists),
                                    origin := s.origin + MapOf(blocks, p.elemSize),
                                    header := s.header + MapOf(blocks, 0));
    match r.block
    case None => s1.(failures := s.failures + 1)
    case Some(b) =>
      s1.(header := s1.header[b := if p.elemSize >= WORD then p.elemSize - WORD else 0], live := s1.live + {b})
  }

  /** operator delete on thread t of a block whose header is not 0; the thread's pool for its size is q. */
  function Delete(s: State, t: nat, q: nat, b: nat): State
    requires HasPool(s, t, q) && s.threads[t][q].allocSize > 0
  {
    var p := s.threads[t][q];
    var (p', lists) := Free(p, Lists(s.store, p.elemSize), b);
    Put(s, t, q, p').(store := Shelved(s.store, p.elemSize, lists), header := s.header[b := 0], live := s.live - {b})
  }

  ghost predicate OpenStep(s: State, s': State, t: nat, size: nat) {
    && t < |s.threads| && size > 0 && AllocSize(size + WORD, s.cacheAlign) <= ARENA_SIZE
    && (forall q :: 0 <= q < |s.threads[t]| ==> s.threads[t][q].elemSize != size + WORD)
    && s' == Open(s, t, size)
  }

  ghost predicate NewStep(s: State, s': State, t: nat, q: nat, mapped: Option<nat>) {
    && HasPool(s, t, q) && 0 < s.threads[t][q].allocSize <= ARENA_SIZE
    && (mapped.Some? ==> Unmapped(s, mapped.value))
    && s' == New(s, t, q, mapped)
  }

  /** Any thread may delete an item, whichever thread allocated it. A header of 0 is a fatal error instead. */
  ghost predicate DeleteStep(s: State, s': State, t: nat, q: nat, b: nat) {
    && HasPool(s, t, q) && s.threads[t][q].allocSize > 0
    && b in s.header && s.header[b] != 0 && s.threads[t][q].elemSize == s.header[b] + WORD
    && s' == Delete(s, t, q, b)
  }

  ghost predicate Step(s: State, s': State) {
    || (exists t: nat, size: nat :: OpenStep(s, s', t, size))
    || (exists t: nat, q: nat, mapped :: NewStep(s, s', t, q, mapped))
    || (exists t: nat, q: nat, b: nat :: DeleteStep(s, s', t, q, b))
  }

  function Init(threads: nat, cacheAlign: bool): State {
    State(cacheAlign, seq(threads, _ => []), [], map[], map[], {}, 0)
  }

  ghost predicate Run(threads: nat, cacheAlign: bool, run: seq<State>) {
    && |run| > 0 && run[0] == Init(threads, cacheAlign)
    && forall k :: 0 <= k < |run| - 1 ==> Step(run[k], run[k + 1])
  }

  lemma {:induction false} InitBalance(threads: seq<seq<Pool>>)
    requires forall t :: 0 <= t < |threads| ==> threads[t] == []
    ensures Balance(threads) == 0
  {
    if |threads| > 0 {
      InitBalance(threads[1..]);
    }
  }

  lemma InitInv(threads: nat, cacheAlign: bool)
    ensures Inv(Init(threads, cacheAlign))
  {
    InitBalance(Init(threads, cacheAlign).threads);
  }
}
