/**
 * The memory pool of one item size on one thread, and the shared store through which threads
 * pass on full lists of free blocks (mempool.cc). A block is its address; an arena is the
 * address mmap returned.
 */
module MemPool {
  import opened Wrappers

  /** Bytes mapped at a time: 2 << 20. */
  const ARENA_SIZE: nat := 2097152

  /** Two words per item: the size that delete reads, and the one getMemPool adds. */
  const WORD: nat := 8

  const CACHE_LINE: nat := 64

  /** The bytes one block takes up. */
  function AllocSize(elemSize: nat, cacheAlign: bool): (bytes: nat)
    ensures elemSize + WORD <= bytes < elemSize + WORD + CACHE_LINE
    ensures if cacheAlign then bytes % CACHE_LINE == 0 else bytes == elemSize + WORD
  {
    var plain := elemSize + WORD;
    if cacheAlign && plain % CACHE_LINE != 0 then plain + CACHE_LINE - plain % CACHE_LINE else plain
  }

  /** The state of a pool. */
  datatype Pool = Pool(elemSize: nat, allocSize: nat, maxFree: nat, freelist: seq<nat>, overflow: seq<nat>,
                       arenas: seq<nat>, numAlloc: nat, numFree: nat)
  {
    /** Blocks in an arena, and in a full overflow list. */
    function PerArena(): nat
      requires allocSize > 0
    {
      ARENA_SIZE / allocSize
    }
  }

  function NewPool(elemSize: nat, cacheAlign: bool): Pool {
    Pool(elemSize, AllocSize(elemSize, cacheAlign), 0, [], [], [], 0, 0)
  }

  /** The blocks of an arena. */
  function Blocks(base: nat, allocSize: nat, count: nat): (blocks: seq<nat>)
    ensures |blocks| == count && forall i :: 0 <= i < count ==> blocks[i] == base + allocSize * i
  {
    seq(count, i requires 0 <= i < count => base + allocSize * i)
  }

  /** A new arena: its blocks go on the freelist, whose limit grows. */
  function Carve(p: Pool, base: nat): Pool
    requires p.allocSize > 0
  {
    p.(arenas := p.arenas + [base], freelist := p.freelist + Blocks(base, p.allocSize, p.PerArena()),
       maxFree := p.maxFree + p.PerArena())
  }

  function PopFree(p: Pool): (Pool, Option<nat>)
    requires |p.freelist| > 0
  {
    (p.(freelist := p.freelist[..|p.freelist| - 1]), Some(p.freelist[|p.freelist| - 1]))
  }

  function PopOverflow(p: Pool): (Pool, Option<nat>)
    requires |p.overflow| > 0
  {
    (p.(overflow := p.overflow[..|p.overflow| - 1]), Some(p.overflow[|p.overflow| - 1]))
  }

  /** What malloc leaves behind: the pool, the shared lists of its element size, and the block. */
  datatype Malloced = Malloced(pool: Pool, lists: seq<seq<nat>>, block: Option<nat>)

  /** The block taken when the freelist and the overflow list are both empty. */
  function Refill(p: Pool, lists: seq<seq<nat>>, mapped: Option<nat>): Malloced
    requires 0 < p.allocSize <= ARENA_SIZE
  {
    var taken := if |lists| > 0 then p.(overflow := lists[|lists| - 1]) else p;
    var rest := if |lists| > 0 then lists[..|lists| - 1] else lists;
    if |taken.overflow| > 0 then
      Malloced(PopOverflow(taken).0, rest, PopOverflow(taken).1)
    else match mapped
      case None => Malloced(taken, rest, None)
      case Some(base) => var carved := Carve(taken, base); Malloced(PopFree(carved).0, rest, PopFree(carved).1)
  }

  /** The result of malloc if a call of mmap would give `mapped`. An arena holds at least one block. */
  function Malloc(before: Pool, lists: seq<seq<nat>>, mapped: Option<nat>): Malloced
    requires 0 < before.allocSize <= ARENA_SIZE
  {
    var p := before.(numAlloc := before.numAlloc + 1);
    if |p.freelist| > 0 then
      Malloced(PopFree(p).0, lists, PopFree(p).1)
    else if |p.overflow| > 0 then
      Malloced(PopOverflow(p).0, lists, PopOverflow(p).1)
    else Refill(p, lists, mapped)
  }

  /** The result of free: the pool and the shared lists of its element size. */
  function Free(before: Pool, lists: seq<seq<nat>>, block: nat): (Pool, seq<seq<nat>>)
    requires before.allocSize > 0
  {
    var p := before.(numFree := before.numFree + 1);
    if |p.freelist| < p.maxFree then (p.(freelist := p.freelist + [block]), lists)
    else if |p.overflow| + 1 == p.PerArena() then (p.(overflow := []), lists + [p.overflow + [block]])
    else (p.(overflow := p.overflow + [block]), lists)
  }

  // ------------------------------------------------ the shared store

  /** The full lists of one element size. */
  datatype Shelf = Shelf(size: nat, lists: seq<seq<nat>>)

  /** One shelf for each element size. */
  ghost predicate OneShelfEach(store: seq<Shelf>) {
    forall i, j :: 0 <= i < j < |store| ==> store[i].size != store[j].size
  }

  /** The place of the shelf for a size: past the end if there is none. */
  function ShelfOf(store: seq<Shelf>, size: nat): (z: nat)
    ensures z <= |store| && forall i :: 0 <= i < z ==> store[i].size != size
    ensures z < |store| ==> store[z].size == size
  {
    if |store| == 0 || store[0].size == size then 0 else 1 + ShelfOf(store[1..], size)
  }

  /** The lists of a size. */
  function Lists(store: seq<Shelf>, size: nat): seq<seq<nat>> {
    var z := ShelfOf(store, size);
    if z < |store| then store[z].lists else []
  }

  /** The store with the lists of a size changed; a shelf is added if there is none. */
  function WithLists(store: seq<Shelf>, size: nat, lists: seq<seq<nat>>): seq<Shelf> {
    var z := ShelfOf(store, size);
    if z < |store| then store[z := Shelf(size, lists)]
    else if lists == [] then store
    else store + [Shelf(size, lists)]
  }

  /** Changing the lists of one size does that, and leaves the lists of every other size alone. */
  lemma ListsOfWithLists(store: seq<Shelf>, size: nat, lists: seq<seq<nat>>, other: nat)
    requires OneShelfEach(store)
    ensures OneShelfEach(WithLists(store, size, lists))
    ensures Lists(WithLists(store, size, lists), other) == if other == size then lists else Lists(store, other)
  {
    var after := WithLists(store, size, lists);
    var z, y, x := ShelfOf(store, size), ShelfOf(store, other), ShelfOf(after, other);
    if y < |store| {
      assert after[y].size == other;
    }
    if z < |store| {
      assert after[z].size == size;
    } else if lists != [] {
      assert after[|store|].size == size;
    }
    if x < |store| {
      assert store[x].size == other;
    }
  }

  /** OverflowFreeList. Every method holds the spinlock for its whole body. */
  class OverflowFreeList {
    var store: seq<Shelf>

    constructor ()
      ensures store == []
    {
      store := [];
    }

    method Insert(size: nat, list: seq<nat>)
      requires OneShelfEach(store)
      modifies this
      ensures store == WithLists(old(store), size, Lists(old(store), size) + [list])
    {
      ghost var before, z := store, ShelfOf(store, size);
      var found := false;
      var i := 0;
      while i < |store|
        invariant 0 <= i <= |store| == |before|
        invariant found <==> z < i
        invariant store == if found then before[z := Shelf(size, before[z].lists + [list])] else before
      {
        if store[i].size == size {
          assert i == z;
          found := true;
          store := store[i := Shelf(size, store[i].lists + [list])];
        }
        i := i + 1;
      }
      if !found {
        store := store + [Shelf(size, [list])];
        assert [] + [list] == [list];
      }
    }

    /** Takes out the list inserted last; false if there is none. */
    method Remove(size: nat) returns (found: bool, list: seq<nat>)
      requires OneShelfEach(store)
      modifies this
      ensures var lists := Lists(old(store), size);
              && (found <==> |lists| > 0)
              && (found ==> list == lists[|lists| - 1] && store == WithLists(old(store), size, lists[..|lists| - 1]))
              && (!found ==> list == [] && store == old(store))
    {
      ghost var before, z := store, ShelfOf(store, size);
      ghost var lists := Lists(store, size);
      found, list := false, [];
      var i := 0;
      while i < |store|
        invariant 0 <= i <= |store| == |before|
        invariant found <==> z < i && |lists| > 0
        invariant found ==> list == lists[|lists| - 1] && store == before[z := Shelf(size, lists[..|lists| - 1])]
        invariant !found ==> list == [] && store == before
      {
        if store[i].size == size {
          assert i == z;
          if |store[i].lists| > 0 {
            list := store[i].lists[|store[i].lists| - 1];
            store := store[i := Shelf(size, store[i].lists[..|store[i].lists| - 1])];
            found := true;
          }
        }
        i := i + 1;
      }
    }
  }

  // ------------------------------------------------ the pool

  /** MemPoolNoMutex. Only its own thread calls it. */
  class MemPoolNoMutex {
    var elemSize: nat
    var allocSize: nat
    var maxFree: nat
    var maxOverflow: nat
    var freelist: seq<nat>
    var overflow: seq<nat>
    var arenas: seq<nat>
    var numAlloc: nat
    var numFree: nat

    function View(): Pool
      reads this
    {
      Pool(elemSize, allocSize, maxFree, freelist, overflow, arenas, numAlloc, numFree)
    }

    /** One block fits in an arena. */
    ghost predicate Valid()
      reads this
    {
      0 < allocSize <= ARENA_SIZE && maxOverflow == View().PerArena()
    }

    constructor (elementSize: nat, cacheAlign: bool)
      requires AllocSize(elementSize, cacheAlign) <= ARENA_SIZE
      ensures Valid() && View() == NewPool(elementSize, cacheAlign)
    {
      elemSize := elementSize;
      maxFree, freelist, overflow, arenas, numAlloc, numFree := 0, [], [], [], 0, 0;
      var alloc := elementSize + WORD;
      if cacheAlign {
        var remainder := (elementSize + WORD) % CACHE_LINE;
        alloc := if remainder == 0 then elementSize + WORD else elementSize + WORD + CACHE_LINE - remainder;
      }
      allocSize, maxOverflow := alloc, ARENA_SIZE / alloc;
    }

    /** Maps a new arena and puts its blocks on the freelist; false if mmap fails. */
    method AllocPool(mapped: Option<nat>) returns (ok: bool)
      requires Valid()
      modifies `freelist, `arenas, `maxFree
      ensures Valid() && (ok <==> mapped.Some?)
      ensures View() == if ok then Carve(old(View()), mapped.value) else old(View())
    {
      if mapped.None? {
        return false;
      }
      var base := mapped.value;
      arenas := arenas + [base];
      var count := ARENA_SIZE / allocSize;
      ghost var before, blocks := freelist, Blocks(base, allocSize, count);
      for i := 0 to count
        modifies `freelist
        invariant freelist == before + blocks[..i]
      {
        assert blocks[..i + 1] == blocks[..i] + [blocks[i]];
        freelist := freelist + [base + allocSize * i];
      }
      maxFree := maxFree + count;
      return true;
    }

    /** Takes the last block off the freelist. */
    method PopFreelist() returns (block: nat)
      requires |freelist| > 0
      modifies `freelist
      ensures (View(), Some(block)) == PopFree(old(View()))
    {
      block := freelist[|freelist| - 1];
      freelist := freelist[..|freelist| - 1];
    }

    /** Takes the last block off the overflow list. */
    method PopOverflowList() returns (block: nat)
      requires |overflow| > 0
      modifies `overflow
      ensures (View(), Some(block)) == PopOverflow(old(View()))
    {
      block := overflow[|overflow| - 1];
      overflow := overflow[..|overflow| - 1];
    }

    /** malloc. */
    method Alloc(shared: OverflowFreeList, mapped: Option<nat>) returns (block: Option<nat>)
      requires Valid() && OneShelfEach(shared.store)
      modifies this, shared
      ensures Valid()
      ensures var r := Malloc(old(View()), Lists(old(shared.store), elemSize), mapped);
              && View() == r.pool && block == r.block
              && shared.store == if |Lists(old(shared.store), elemSize)| > |r.lists|
                                 then WithLists(old(shared.store), elemSize, r.lists) else old(shared.store)
    {
      numAlloc := numAlloc + 1;
      if |freelist| > 0 {
        var b := PopFreelist();
        return Some(b);
      }
      if |overflow| > 0 {
        var b := PopOverflowList();
        return Some(b);
      }
      block := AllocRefill(shared, mapped);
    }

    /** The part of malloc that asks for the shared lists and then for a new arena. */
    method AllocRefill(shared: OverflowFreeList, mapped: Option<nat>) returns (block: Option<nat>)
      requires Valid() && OneShelfEach(shared.store)
      modifies `freelist, `overflow, `arenas, `maxFree, shared
      ensures Valid()
      ensures var r := Refill(old(View()), Lists(old(shared.store), elemSize), mapped);
              && View() == r.pool && block == r.block
              && shared.store == if |Lists(old(shared.store), elemSize)| > |r.lists|
                                 then WithLists(old(shared.store), elemSize, r.lists) else old(shared.store)
    {
      var found, list := shared.Remove(elemSize);
      if found {
        overflow := list;
      }
      if |overflow| > 0 {
        var b := PopOverflowList();
        return Some(b);
      }
      var ok := AllocPool(mapped);
      if !ok {
        return None;
      }
      var b := PopFreelist();
      return Some(b);
    }

    method Release(shared: OverflowFreeList, block: nat)
      requires Valid() && OneShelfEach(shared.store)
      modifies this, shared
      ensures Valid()
      ensures var r := Free(old(View()), Lists(old(shared.store), elemSize), block);
              && View() == r.0
              && shared.store == if |r.1| > |Lists(old(shared.store), elemSize)|
                                 then WithLists(old(shared.store), elemSize, r.1) else old(shared.store)
    {
      numFree := numFree + 1;
      if |freelist| >= maxFree {
        overflow := overflow + [block];
        if |overflow| == maxOverflow {
          shared.Insert(elemSize, overflow);
          overflow := [];
        }
      } else {
        freelist := freelist + [block];
      }
    }
  }
}
