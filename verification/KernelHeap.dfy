/** The kernel heap: `kmalloc` and `kfree` as the steps that run under the lock or on one CPU. */
module KernelHeap {
  import opened HeapBlocks
  import opened HeapBins
  import HeapLists

  const MIN_SPLIT := HDR + 16

  const GROW_BYTES := 65536

  const CAPACITY := HEAP_MAX - HEAP_START

  /** Everything but the totals. */
  ghost predicate HeapOk(c: Chain, bins: seq<seq<nat>>, caches: Caches) {
    ChainOk(c) && NoAdjacent(c.hdrs, 0) && FreeOk(Sizes(c.hdrs, Free), bins) && CachesOk(Sizes(c.hdrs, Cached), caches)
  }

  /** Taking a free block out of its bin. */
  lemma TakeFree(c: Chain, bins: seq<seq<nat>>, caches: Caches, a: nat)
    requires HeapOk(c, bins, caches) && Has(c.hdrs, a, Free)
    ensures var d, rest := SetState(c, a, Used), Unlink(bins, a, Bin(c.hdrs[a].size));
            HeapOk(d, rest, caches) && Live(d.hdrs) == Live(c.hdrs)[a := Piece(c.hdrs[a].size, false)]
  {
    var d := SetState(c, a, Used);
    SetStateKeeps(c, a, Used);
    SetStateApart(c, a, Used);
    SetStateSizes(c, a, Used, Free);
    SetStateSizes(c, a, Used, Cached);
    SetStateLive(c, a, Used);
    FreeUnlink(Sizes(c.hdrs, Free), bins, a, Bin(c.hdrs[a].size), Sizes(d.hdrs, Free));
    assert Sizes(c.hdrs, Cached) - {a} == Sizes(c.hdrs, Cached);
  }

  // ---- freeing and coalescing ----

  /** Block `a` is free but not yet in a bin; everything else is in order. */
  ghost predicate HalfOk(c: Chain, bins: seq<seq<nat>>, caches: Caches, a: nat) {
    && ChainOk(c) && NoAdjacent(c.hdrs, a) && Has(c.hdrs, a, Free)
    && FreeOk(Sizes(c.hdrs, Free) - {a}, bins) && CachesOk(Sizes(c.hdrs, Cached), caches)
  }

  lemma MarkFree(c: Chain, bins: seq<seq<nat>>, caches: Caches, a: nat)
    requires HeapOk(c, bins, caches) && Has(c.hdrs, a, Claimed)
    ensures HalfOk(SetState(c, a, Free), bins, caches, a) && Live(SetState(c, a, Free).hdrs) == Live(c.hdrs) - {a}
    ensures Total(Live(c.hdrs)) == Total(Live(SetState(c, a, Free).hdrs)) + c.hdrs[a].size
  {
    TotalRemove(Live(c.hdrs), a);
    SetStateKeeps(c, a, Free);
    SetStateApart(c, a, Free);
    SetStateSizes(c, a, Free, Free);
    SetStateSizes(c, a, Free, Cached);
    SetStateLive(c, a, Free);
    assert Sizes(c.hdrs, Cached) - {a} == Sizes(c.hdrs, Cached);
    assert Sizes(c.hdrs, Free)[a := c.hdrs[a].size] - {a} == Sizes(c.hdrs, Free);
  }

  lemma MapSwap(m: map<nat, nat>, a: nat, n: nat, v: nat)
    requires a != n
    ensures (m - {n})[a := v] - {a} == m - {a} - {n}
    ensures (m - {a})[n := v] - {n} == m - {n} - {a}
  {}

  lemma MergeNext(c: Chain, bins: seq<seq<nat>>, caches: Caches, a: nat, n: nat, b: nat, d: Chain)
    requires HalfOk(c, bins, caches, a) && n == c.hdrs[a].next && Has(c.hdrs, n, Free) && d == Join(c, a)
    requires b == Bin(c.hdrs[n].size)
    ensures HalfOk(d, Unlink(bins, n, b), caches, a) && AfterOk(d.hdrs, a)
    ensures Live(d.hdrs) == Live(c.hdrs) && d.hdrs[a].prev == c.hdrs[a].prev
  {
    NullIsNoBlock(c);
    JoinKeeps(c, a);
    JoinAfter(c, a);
    JoinStates(c, a);
    JoinSame(c, a);
    var free: map<nat, nat> := Sizes(c.hdrs, Free);
    MapSwap(free, a, n, d.hdrs[a].size);
    FreeUnlink(free - {a}, bins, n, b, Sizes(d.hdrs, Free) - {a});
  }

  lemma AnyBut(c: Chain, but: nat)
    requires ChainOk(c) && NoAdjacent(c.hdrs, 0)
    ensures NoAdjacent(c.hdrs, but)
  {
    NullIsNoBlock(c);
    forall x {:trigger NotBothFree(c.hdrs, x)} | x in c.hdrs && x != but && c.hdrs[x].next != but
      ensures NotBothFree(c.hdrs, x)
    {
      assert c.hdrs[x].next != 0 ==> NotBothFree(c.hdrs, x);
    }
  }

  lemma MergePrevStates(c: Chain, bins: seq<seq<nat>>, a: nat, p: nat, b: nat, d: Chain)
    requires ChainOk(c) && Has(c.hdrs, a, Free) && Has(c.hdrs, p, Free) && c.hdrs[p].next == a && d == Join(c, p)
    requires b == Bin(c.hdrs[p].size)
    requires FreeOk(Sizes(c.hdrs, Free) - {a}, bins)
    ensures Has(d.hdrs, p, Free) && FreeOk(Sizes(d.hdrs, Free) - {p}, Unlink(bins, p, b))
    ensures Sizes(d.hdrs, Cached) == Sizes(c.hdrs, Cached) && Live(d.hdrs) == Live(c.hdrs)
  {
    NullIsNoBlock(c);
    JoinStates(c, p);
    JoinSame(c, p);
    var free, after: map<nat, nat> := Sizes(c.hdrs, Free), Sizes(d.hdrs, Free);
    MapSwap(free, p, a, d.hdrs[p].size);
    assert after - {p} == free - {a} - {p};
    FreeUnlink(free - {a}, bins, p, b, after - {p});
  }

  lemma MergePrev(c: Chain, bins: seq<seq<nat>>, caches: Caches, a: nat, p: nat, b: nat, d: Chain)
    requires HalfOk(c, bins, caches, a) && AfterOk(c.hdrs, a) && p == c.hdrs[a].prev && Has(c.hdrs, p, Free)
    requires c.hdrs[p].next == a && d == Join(c, p) && b == Bin(c.hdrs[p].size)
    ensures HalfOk(d, Unlink(bins, p, b), caches, p) && NoAdjacent(d.hdrs, 0)
    ensures Live(d.hdrs) == Live(c.hdrs)
  {
    assert ChainOk(d) && NoAdjacent(d.hdrs, 0) by { NullIsNoBlock(c); JoinKeeps(c, p); JoinBefore(c, p, a); }
    AnyBut(d, p);
    MergePrevStates(c, bins, a, p, b, d);
  }

  lemma Relink(c: Chain, bins: seq<seq<nat>>, caches: Caches, a: nat)
    requires HalfOk(c, bins, caches, a) && NoAdjacent(c.hdrs, 0)
    ensures HeapOk(c, Link(bins, a, Bin(c.hdrs[a].size)), caches)
  {
    var free: map<nat, nat> := Sizes(c.hdrs, Free);
    assert (free - {a})[a := free[a]] == free;
    FreeLink(free - {a}, bins, a, free[a], Bin(free[a]), free);
  }

  lemma PrevLink(c: Chain, a: nat)
    requires ChainOk(c) && a in c.hdrs
    ensures c.hdrs[a].prev != 0 <==> c.hdrs[a].prev in c.hdrs
    ensures c.hdrs[a].prev != 0 ==> c.hdrs[c.hdrs[a].prev].next == a && c.hdrs[a].prev < a
    ensures c.hdrs[a].next != 0 <==> c.hdrs[a].next in c.hdrs
    ensures c.hdrs[a].next != a
  {
    NullIsNoBlock(c);
    assert PrevOk(c, a) && NextOk(c, a) && SizeOk(c, a);
  }

  /** The free path marks the block free last; joining first makes no difference. */
  lemma MarkLast(c: Chain, a: nat)
    requires ChainOk(c) && a in c.hdrs && c.hdrs[a].next in c.hdrs
    ensures Join(SetState(c, a, Free), a) == SetState(Join(c, a), a, Free)
  {}

  lemma MarkAbsorbed(c: Chain, p: nat, a: nat)
    requires ChainOk(c) && p in c.hdrs && a in c.hdrs && c.hdrs[p].next == a
    ensures Join(SetState(c, a, Free), p) == Join(c, p)
  {
    NullIsNoBlock(c);
    NextBlock(c, p);
    assert Join(SetState(c, a, Free), p).hdrs == Join(c, p).hdrs;
  }

  lemma SplitMarked(c: Chain, a: nat, size: nat)
    requires ChainOk(c) && a in c.hdrs && size + HDR <= c.hdrs[a].size
    ensures Split(SetState(c, a, Used), a, size) == SetState(Split(c, a, size), a, Used)
  {}

  /** Block `a` was handed out, for at least `size` bytes, and no other live block changed. */
  ghost predicate Given(live: map<nat, Piece>, hdrs: Hdrs, a: nat, size: nat) {
    Has(hdrs, a, Used) && a !in live && size <= hdrs[a].size && Live(hdrs) == live[a := Piece(hdrs[a].size, false)]
  }

  lemma TakeWhole(c: Chain, bins: seq<seq<nat>>, caches: Caches, a: nat, d: Chain, b: nat)
    requires HeapOk(c, bins, caches) && Has(c.hdrs, a, Free) && d == SetState(c, a, Used) && b == Bin(c.hdrs[a].size)
    ensures HeapOk(d, Unlink(bins, a, b), caches) && a !in Live(c.hdrs)
    ensures Live(d.hdrs) == Live(c.hdrs)[a := Piece(c.hdrs[a].size, false)]
    ensures Total(Live(d.hdrs)) == Total(Live(c.hdrs)) + c.hdrs[a].size
  {
    TakeFree(c, bins, caches, a);
    TotalAdd(Live(c.hdrs), a, Piece(c.hdrs[a].size, false));
  }

  lemma PartChain(c: Chain, a: nat, size: nat, d: Chain)
    requires ChainOk(c) && NoAdjacent(c.hdrs, 0) && Has(c.hdrs, a, Free) && size % 16 == 0
    requires size + HDR <= c.hdrs[a].size
    requires a in Split(c, a, size).hdrs && d == SetState(Split(c, a, size), a, Used)
    ensures ChainOk(d) && NoAdjacent(d.hdrs, 0)
  {
    var m := SetState(c, a, Used);
    SplitMarked(c, a, size);
    SetStateKeeps(c, a, Used);
    SetStateApart(c, a, Used);
    NullIsNoBlock(c);
    assert NextOk(c, a) && SizeOk(c, a) && (c.hdrs[a].next != 0 ==> NotBothFree(c.hdrs, a));
    SplitKeeps(m, a, size);
    SplitNeighbours(m, a, size);
  }

  lemma PartFree(c: Chain, a: nat, size: nat, t: nat, rest: nat, d: Chain, free: map<nat, nat>, after: map<nat, nat>)
    requires ChainOk(c) && Has(c.hdrs, a, Free) && c.hdrs[a].size == size + HDR + rest && t == a + HDR + size
    requires a in Split(c, a, size).hdrs && d == SetState(Split(c, a, size), a, Used)
    requires free == Sizes(c.hdrs, Free) && after == Sizes(d.hdrs, Free)
    ensures a in free && free[a] == c.hdrs[a].size && t !in free
    ensures after == (free - {a})[t := rest]
  {
    var m := SetState(c, a, Used);
    Inside(c, a, t);
    SetStateSizes(c, a, Used, Free);
    SplitMarked(c, a, size);
    SetStateKeeps(c, a, Used);
    SplitStates(m, a, size);
  }

  lemma PartBins(c: Chain, bins: seq<seq<nat>>, a: nat, size: nat, t: nat, rest: nat, d: Chain, b: nat, k: nat)
    requires ChainOk(c) && FreeOk(Sizes(c.hdrs, Free), bins) && Has(c.hdrs, a, Free)
    requires c.hdrs[a].size == size + HDR + rest && t == a + HDR + size
    requires a in Split(c, a, size).hdrs && d == SetState(Split(c, a, size), a, Used)
    requires b == Bin(c.hdrs[a].size) && k == Bin(rest)
    ensures FreeOk(Sizes(d.hdrs, Free), Link(Unlink(bins, a, b), t, k))
  {
    var free, after := Sizes(c.hdrs, Free), Sizes(d.hdrs, Free);
    PartFree(c, a, size, t, rest, d, free, after);
    FreeMove(free, bins, a, b, t, rest, k, after);
  }

  lemma CarvedTotal(live: map<nat, Piece>, a: nat, full: Piece, part: Piece, after: map<nat, Piece>)
    requires a !in live && after == live[a := full][a := part]
    ensures after == live[a := part] && Total(after) == Total(live) + part.size
  {
    assert live[a := full][a := part] == live[a := part];
    TotalAdd(live, a, part);
  }

  lemma PartLive(c: Chain, a: nat, size: nat, d: Chain)
    requires ChainOk(c) && Has(c.hdrs, a, Free) && size + HDR <= c.hdrs[a].size
    requires a in Split(c, a, size).hdrs && d == SetState(Split(c, a, size), a, Used)
    ensures a !in Live(c.hdrs) && Sizes(d.hdrs, Cached) == Sizes(c.hdrs, Cached)
    ensures Live(d.hdrs) == Live(c.hdrs)[a := Piece(size, false)] && Total(Live(d.hdrs)) == Total(Live(c.hdrs)) + size
  {
    var m := SetState(c, a, Used);
    SplitMarked(c, a, size);
    SetStateKeeps(c, a, Used);
    SetStateLive(c, a, Used);
    SetStateSizes(c, a, Used, Cached);
    assert Sizes(c.hdrs, Cached) - {a} == Sizes(c.hdrs, Cached);
    SplitStates(m, a, size);
    CarvedTotal(Live(c.hdrs), a, Piece(c.hdrs[a].size, false), Piece(size, false), Live(d.hdrs));
  }

  lemma TakePart(c: Chain, bins: seq<seq<nat>>, caches: Caches, a: nat, size: nat, t: nat, rest: nat, cut: Chain,
                 d: Chain, b: nat, k: nat)
    requires HeapOk(c, bins, caches) && Has(c.hdrs, a, Free) && size % 16 == 0
    requires c.hdrs[a].size == size + HDR + rest && t == a + HDR + size
    requires cut == Split(c, a, size) && a in cut.hdrs && d == SetState(cut, a, Used)
    requires b == Bin(c.hdrs[a].size) && k == Bin(rest)
    ensures HeapOk(d, Link(Unlink(bins, a, b), t, k), caches) && a !in Live(c.hdrs)
    ensures Live(d.hdrs) == Live(c.hdrs)[a := Piece(size, false)] && Total(Live(d.hdrs)) == Total(Live(c.hdrs)) + size
  {
    PartChain(c, a, size, d);
    PartBins(c, bins, a, size, t, rest, d, b, k);
    PartLive(c, a, size, d);
  }

  /** The free blocks in bins `first` to `bin` - 1 are too small. */
  ghost predicate TooSmall(hdrs: Hdrs, size: nat, first: nat, bin: nat) {
    forall x {:trigger Has(hdrs, x, Free)} :: Has(hdrs, x, Free) && first <= Bin(hdrs[x].size) < bin ==>
         hdrs[x].size < size
  }

  lemma BinEntries(hdrs: Hdrs, bins: seq<seq<nat>>, bin: nat)
    requires FreeOk(Sizes(hdrs, Free), bins) && bin < BIN_COUNT
    ensures forall x :: x in bins[bin] <==> Has(hdrs, x, Free) && Bin(hdrs[x].size) == bin
  {}

  lemma NoFit(hdrs: Hdrs, bins: seq<seq<nat>>, size: nat, first: nat, bin: nat)
    requires FreeOk(Sizes(hdrs, Free), bins) && bin < BIN_COUNT && TooSmall(hdrs, size, first, bin)
    requires forall x :: x in bins[bin] ==> x in hdrs && hdrs[x].size < size
    ensures TooSmall(hdrs, size, first, bin + 1)
  {}

  lemma BinGrows(small: nat, large: nat)
    requires small <= large
    ensures Bin(small) <= Bin(large)
  {
    BinMonotone((small + 15) / 16, (large + 15) / 16, 0);
  }

  lemma SearchComplete(hdrs: Hdrs, size: nat, first: nat)
    requires first == Bin(size) && TooSmall(hdrs, size, first, BIN_COUNT)
    ensures forall x :: Has(hdrs, x, Free) ==> hdrs[x].size < size
  {
    forall x | Has(hdrs, x, Free) ensures hdrs[x].size < size {
      if hdrs[x].size >= size { BinGrows(size, hdrs[x].size); }
    }
  }

  function RoundPage(x: nat): (r: nat)
    ensures r % 4096 == 0 && x <= r < x + 4096
  {
    (x + 4095) / 4096 * 4096
  }

  function Round16(x: nat): (r: nat)
    ensures r % 16 == 0 && x <= r < x + 16
  {
    (x + 15) / 16 * 16
  }

  lemma TailBlock(c: Chain)
    requires ChainOk(c)
    ensures c.tail != 0 <==> c.tail in c.hdrs
    ensures c.tail != 0 <==> c.brk > HEAP_START
  {
    NullIsNoBlock(c);
  }

  lemma TailBins(h: Hdrs, d: Hdrs, a: nat, was: nat, size: nat, bins: seq<seq<nat>>, b: nat, k: nat)
    requires Has(h, a, Free) && h[a].size == was && Sizes(d, Free) == Sizes(h, Free)[a := size]
    requires FreeOk(Sizes(h, Free), bins) && b == Bin(was) && k == Bin(size)
    ensures FreeOk(Sizes(d, Free), Link(Unlink(bins, a, b), a, k))
  {
    var free, after: map<nat, nat> := Sizes(h, Free), Sizes(d, Free);
    assert after == (free - {a})[a := size];
    FreeMove(free, bins, a, b, a, size, k, after);
  }

  lemma GrowTail(c: Chain, bins: seq<seq<nat>>, caches: Caches, need: nat, d: Chain, b: nat, k: nat)
    requires HeapOk(c, bins, caches) && Has(c.hdrs, c.tail, Free) && need % 16 == 0 && need > 0
    requires c.brk + need <= HEAP_MAX
    requires d == Extend(c, need) && b == Bin(c.hdrs[c.tail].size) && k == Bin(c.hdrs[c.tail].size + need)
    ensures HeapOk(d, Link(Unlink(bins, c.tail, b), c.tail, k), caches)
    ensures Live(d.hdrs) == Live(c.hdrs) && Total(Live(d.hdrs)) == Total(Live(c.hdrs))
  {
    assert ChainOk(d) by { NullIsNoBlock(c); TailBlock(c); ExtendKeeps(c, need); }
    ExtendStates(c, need, d.hdrs);
    TailBins(c.hdrs, d.hdrs, c.tail, c.hdrs[c.tail].size, c.hdrs[c.tail].size + need, bins, b, k);
  }

  lemma GrowNewStates(c: Chain, bins: seq<seq<nat>>, need: nat, d: Chain, b: nat)
    requires ChainOk(c) && NoAdjacent(c.hdrs, 0) && FreeOk(Sizes(c.hdrs, Free), bins) && !Has(c.hdrs, c.tail, Free)
    requires need >= HDR
    requires d == Append(c, need) && b == Bin(need - HDR)
    ensures NoAdjacent(d.hdrs, 0) && FreeOk(Sizes(d.hdrs, Free), Link(bins, c.brk, b))
    ensures Sizes(d.hdrs, Cached) == Sizes(c.hdrs, Cached)
    ensures Live(d.hdrs) == Live(c.hdrs) && Total(Live(d.hdrs)) == Total(Live(c.hdrs))
  {
    AppendStates(c, need, d.hdrs);
    FreeLink(Sizes(c.hdrs, Free), bins, c.brk, need - HDR, b, Sizes(d.hdrs, Free));
  }

  lemma GrowNew(c: Chain, bins: seq<seq<nat>>, caches: Caches, need: nat, d: Chain, b: nat)
    requires HeapOk(c, bins, caches) && !Has(c.hdrs, c.tail, Free) && need % 16 == 0 && need >= HDR
    requires c.brk + need <= HEAP_MAX
    requires d == Append(c, need) && b == Bin(need - HDR)
    ensures HeapOk(d, Link(bins, c.brk, b), caches)
    ensures Live(d.hdrs) == Live(c.hdrs) && Total(Live(d.hdrs)) == Total(Live(c.hdrs))
  {
    assert ChainOk(d) by { AppendKeeps(c, need); }
    GrowNewStates(c, bins, need, d, b);
  }

  lemma ClaimKeeps(c: Chain, bins: seq<seq<nat>>, caches: Caches, a: nat)
    requires HeapOk(c, bins, caches) && Has(c.hdrs, a, Used)
    ensures HeapOk(SetState(c, a, Claimed), bins, caches)
    ensures Live(SetState(c, a, Claimed).hdrs) == Live(c.hdrs)[a := Piece(c.hdrs[a].size, true)]
    ensures Total(Live(SetState(c, a, Claimed).hdrs)) == Total(Live(c.hdrs))
  {
    SetStateKeeps(c, a, Claimed);
    SetStateApart(c, a, Claimed);
    SetStateSizes(c, a, Claimed, Free);
    SetStateSizes(c, a, Claimed, Cached);
    SetStateLive(c, a, Claimed);
    assert Sizes(c.hdrs, Cached) - {a} == Sizes(c.hdrs, Cached) && Sizes(c.hdrs, Free) - {a} == Sizes(c.hdrs, Free);
    TotalSame(Live(c.hdrs), a, Piece(c.hdrs[a].size, true));
  }

  lemma ToCache(c: Chain, bins: seq<seq<nat>>, caches: Caches, cpu: nat, cls: nat, a: nat)
    requires HeapOk(c, bins, caches) && Has(c.hdrs, a, Claimed) && cpu < |caches| && cls < CLASS_COUNT
    requires c.hdrs[a].size == ClassSize(cls) && |caches[cpu][cls]| < CACHE_LIMIT
    ensures HeapOk(SetState(c, a, Cached), bins, SetCache(caches, cpu, cls, [a] + caches[cpu][cls]))
    ensures Live(SetState(c, a, Cached).hdrs) == Live(c.hdrs) - {a}
    ensures Total(Live(c.hdrs)) == Total(Live(SetState(c, a, Cached).hdrs)) + c.hdrs[a].size
  {
    TotalRemove(Live(c.hdrs), a);
    SetStateKeeps(c, a, Cached);
    SetStateApart(c, a, Cached);
    SetStateSizes(c, a, Cached, Free);
    SetStateSizes(c, a, Cached, Cached);
    SetStateLive(c, a, Cached);
    assert Sizes(c.hdrs, Free) - {a} == Sizes(c.hdrs, Free);
    CachePush(Sizes(c.hdrs, Cached), caches, cpu, cls, a);
  }

  lemma FromCache(c: Chain, bins: seq<seq<nat>>, caches: Caches, cpu: nat, cls: nat, size: nat, a: nat, d: Chain,
                  after: Caches)
    requires HeapOk(c, bins, caches) && cpu < |caches| && cls < CLASS_COUNT && caches[cpu][cls] != []
    requires a == caches[cpu][cls][0]
    requires a in c.hdrs && d == SetState(c, a, Used) && size == ClassSize(cls)
    requires after == SetCache(caches, cpu, cls, caches[cpu][cls][1..])
    ensures HeapOk(d, bins, after) && Given(Live(c.hdrs), d.hdrs, a, size)
    ensures Total(Live(d.hdrs)) == Total(Live(c.hdrs)) + size
  {
    CachePop(Sizes(c.hdrs, Cached), caches, cpu, cls);
    SetStateKeeps(c, a, Used);
    SetStateApart(c, a, Used);
    SetStateSizes(c, a, Used, Free);
    SetStateSizes(c, a, Used, Cached);
    SetStateLive(c, a, Used);
    assert Sizes(c.hdrs, Free) - {a} == Sizes(c.hdrs, Free);
    TotalAdd(Live(c.hdrs), a, Piece(size, false));
  }

  /** What is in a cache is a block. */
  lemma CachedBlock(c: Chain, caches: Caches, cpu: nat, cls: nat)
    requires CachesOk(Sizes(c.hdrs, Cached), caches) && cpu < |caches| && cls < CLASS_COUNT && caches[cpu][cls] != []
    ensures caches[cpu][cls][0] in c.hdrs
  {
    CachePop(Sizes(c.hdrs, Cached), caches, cpu, cls);
  }

  /** The CPU has a cached block of the size. */
  predicate CacheServes(size: nat, caches: Caches, cpu: nat) {
    && 0 < size <= 16 * CLASS_COUNT && size % 16 == 0
    && cpu < |caches| && |caches[cpu]| == CLASS_COUNT && caches[cpu][size / 16 - 1] != []
  }

  /** A block of the size goes to the CPU's cache when it is freed. */
  predicate Cacheable(size: nat, caches: Caches, cpu: nat) {
    && 0 < size <= 16 * CLASS_COUNT && size % 16 == 0
    && cpu < |caches| && |caches[cpu]| == CLASS_COUNT && |caches[cpu][size / 16 - 1]| < CACHE_LIMIT
  }

  // ---- where the blocks stand that go into and out of the lists ----

  lemma BlockReady(c: Chain, bins: seq<seq<nat>>, caches: Caches, a: nat, b: nat)
    requires HeapOk(c, bins, caches) && Has(c.hdrs, a, Free) && b == Bin(c.hdrs[a].size)
    ensures b < |bins| && a in bins[b]
  {
    InBin(Sizes(c.hdrs, Free), bins, a);
  }

  lemma TailReady(c: Chain, bins: seq<seq<nat>>, caches: Caches, b: nat)
    requires HeapOk(c, bins, caches) && Has(c.hdrs, c.tail, Free) && b == Bin(c.hdrs[c.tail].size)
    ensures c.tail != 0 && b < |bins| && c.tail in bins[b] && Unbinned(Unlink(bins, c.tail, b), c.tail)
  {
    NullIsNoBlock(c);
    MovedOut(Sizes(c.hdrs, Free), bins, c.tail, b, c.tail);
  }

  lemma BreakReady(c: Chain, bins: seq<seq<nat>>, caches: Caches)
    requires HeapOk(c, bins, caches) && HEAP_START <= c.brk
    ensures c.brk != 0 && Unbinned(bins, c.brk)
  {
    assert c.brk in c.hdrs ==> SizeOk(c, c.brk);
    NotInBin(Sizes(c.hdrs, Free), bins, c.brk);
  }

  lemma PartReady(c: Chain, bins: seq<seq<nat>>, caches: Caches, a: nat, size: nat, t: nat, b: nat)
    requires HeapOk(c, bins, caches) && Has(c.hdrs, a, Free) && size + HDR <= c.hdrs[a].size && t == a + HDR + size
    requires b == Bin(c.hdrs[a].size)
    ensures t != 0 && b < |bins| && a in bins[b] && Unbinned(Unlink(bins, a, b), t)
  {
    Inside(c, a, t);
    MovedOut(Sizes(c.hdrs, Free), bins, a, b, t);
  }

  lemma NeighbourReady(c: Chain, bins: seq<seq<nat>>, caches: Caches, a: nat, n: nat, b: nat)
    requires HalfOk(c, bins, caches, a) && n != a && Has(c.hdrs, n, Free) && b == Bin(c.hdrs[n].size)
    ensures b < |bins| && n in bins[b]
  {
    InBin(Sizes(c.hdrs, Free) - {a}, bins, n);
  }

  lemma MergedReady(c: Chain, bins: seq<seq<nat>>, caches: Caches, a: nat)
    requires HalfOk(c, bins, caches, a)
    ensures a != 0 && Unbinned(bins, a)
  {
    NullIsNoBlock(c);
    NotInBin(Sizes(c.hdrs, Free) - {a}, bins, a);
  }

  /** No free block is large enough. */
  ghost predicate NoneFits(hdrs: Hdrs, size: nat) {
    forall x :: Has(hdrs, x, Free) ==> hdrs[x].size < size
  }

  /** What the heap grows by for a block of this size: whole pages, and at least `GROW_BYTES`, has room below the end
      of the heap. */
  predicate CanGrow(brk: nat, size: nat) {
    && size + HDR <= CAPACITY
    && brk + RoundPage(if size + HDR < GROW_BYTES then GROW_BYTES else size + HDR) <= HEAP_MAX
  }

  class Heap {
    var hdrs: map<nat, Hdr>
    var brk: nat
    var tail: nat
    const lists: HeapLists.FreeLists // the size bins
    var caches: Caches
    var mallocTotal: nat
    var freeTotal: nat

    ghost function Blocks(): Chain
      reads this
    {
      Chain(hdrs, brk, tail)
    }

    ghost predicate Valid()
      reads this, lists
    {
      lists.Valid() && HeapOk(Blocks(), lists.lists, caches) && mallocTotal == freeTotal + Total(Live(hdrs))
    }

    constructor (cpus: nat)
      ensures Valid() && |caches| == cpus && Live(hdrs) == map[] && fresh(lists)
    {
      hdrs, brk, tail := map[], HEAP_START, 0;
      lists := new HeapLists.FreeLists(BIN_COUNT);
      caches := seq(cpus, _ => seq(CLASS_COUNT, _ => []));
      mallocTotal, freeTotal := 0, 0;
      new;
      assert Sizes(hdrs, Free) == map[] && Sizes(hdrs, Cached) == map[] && Live(hdrs) == map[];
    }

    /** The claim at the start of `kfree`: only one of several frees of a block gets it. */
    method Claim(a: nat) returns (ok: bool)
      requires Valid() && a in hdrs
      modifies this`hdrs
      ensures Valid() && ok == (old(hdrs)[a].state == Used)
      ensures Live(hdrs) == if ok then old(Live(hdrs))[a := Piece(old(hdrs)[a].size, true)] else old(Live(hdrs))
      ensures Blocks() == if ok then SetState(old(Blocks()), a, Claimed) else old(Blocks())
    {
      if hdrs[a].state != Used { return false; }
      ClaimKeeps(Blocks(), lists.lists, caches, a);
      hdrs := hdrs[a := hdrs[a].(state := Claimed)];
      ok := true;
    }

    /** The small path of `kfree`. */
    method FreeToCache(cpu: nat, a: nat) returns (ok: bool)
      requires Valid() && cpu < |caches| && Has(hdrs, a, Claimed)
      modifies this`hdrs, this`caches, this`freeTotal
      ensures Valid() && |caches| == |old(caches)|
      ensures ok == old(Cacheable(hdrs[a].size, caches, cpu))
      ensures ok ==> Live(hdrs) == old(Live(hdrs)) - {a} && Has(hdrs, a, Cached)
      ensures !ok ==> Blocks() == old(Blocks()) && caches == old(caches)
    {
      var size := hdrs[a].size;
      if size == 0 || size > 16 * CLASS_COUNT || size % 16 != 0 { return false; }
      var cls := size / 16 - 1;
      if |caches[cpu][cls]| >= CACHE_LIMIT { return false; }
      ToCache(Blocks(), lists.lists, caches, cpu, cls, a);
      caches := SetCache(caches, cpu, cls, [a] + caches[cpu][cls]);
      hdrs := hdrs[a := hdrs[a].(state := Cached)];
      freeTotal := freeTotal + size;
      ok := true;
    }

    /** The small path of `kmalloc`. */
    method TakeFromCache(cpu: nat, size: nat) returns (a: nat, ok: bool)
      requires Valid() && cpu < |caches| && size % 16 == 0 && 0 < size <= 16 * CLASS_COUNT
      modifies this`hdrs, this`caches, this`mallocTotal
      ensures Valid() && |caches| == |old(caches)|
      ensures ok == old(CacheServes(size, caches, cpu))
      ensures ok ==> a == old(caches)[cpu][size / 16 - 1][0] && Given(old(Live(hdrs)), hdrs, a, size)
      ensures !ok ==> Blocks() == old(Blocks()) && lists.lists == old(lists.lists) && caches == old(caches)
    {
      var cls := size / 16 - 1;
      if caches[cpu][cls] == [] { return 0, false; }
      a := caches[cpu][cls][0];
      CachedBlock(Blocks(), caches, cpu, cls);
      caches := SetCache(caches, cpu, cls, caches[cpu][cls][1..]);
      hdrs := hdrs[a := hdrs[a].(state := Used)];
      mallocTotal := mallocTotal + size;
      FromCache(old(Blocks()), lists.lists, old(caches), cpu, cls, size, a, Blocks(), caches);
      ok := true;
    }

    /** Merging the headers of `x` and the block after it. */
    method Absorb(x: nat)
      requires x in hdrs && hdrs[x].next in hdrs
      modifies this`hdrs, this`tail
      ensures Blocks() == Join(old(Blocks()), x)
    {
      var b := hdrs[x].next;
      var h, g := hdrs[x], hdrs[b];
      hdrs := SetPrev(hdrs - {b}, g.next, x)[x := h.(size := h.size + HDR + g.size, next := g.next)];
      if tail == b { tail := x; }
    }

    /** First half of coalescing: the block after. */
    method JoinWithNext(a: nat, ghost live: map<nat, Piece>)
      requires lists.Valid() && ChainOk(Blocks()) && a in hdrs
      requires HalfOk(SetState(Blocks(), a, Free), lists.lists, caches, a)
      requires Live(SetState(Blocks(), a, Free).hdrs) == live
      modifies this`hdrs, this`tail, lists
      ensures lists.Valid() && ChainOk(Blocks()) && a in hdrs
      ensures HalfOk(SetState(Blocks(), a, Free), lists.lists, caches, a)
      ensures AfterOk(SetState(Blocks(), a, Free).hdrs, a)
      ensures Live(SetState(Blocks(), a, Free).hdrs) == live
    {
      ghost var was := Blocks();
      ghost var marked := SetState(was, a, Free);
      PrevLink(was, a);
      var n := hdrs[a].next;
      if n != 0 && hdrs[n].state == Free {
        NextBlock(was, a);
        var b := Bin(hdrs[n].size);
        MergeNext(marked, lists.lists, caches, a, n, b, Join(marked, a));
        MarkLast(was, a);
        JoinKeeps(was, a);
        NeighbourReady(marked, lists.lists, caches, a, n, b);
        lists.Remove(n, b);
        Absorb(a);
      }
    }

    method JoinIntoPrev(a: nat, p: nat, ghost live: map<nat, Piece>)
      requires lists.Valid() && ChainOk(Blocks()) && a in hdrs
      requires HalfOk(SetState(Blocks(), a, Free), lists.lists, caches, a)
      requires Live(SetState(Blocks(), a, Free).hdrs) == live
      requires AfterOk(SetState(Blocks(), a, Free).hdrs, a) && p == hdrs[a].prev && p != a && Has(hdrs, p, Free)
      requires hdrs[p].next == a
      modifies this`hdrs, this`tail, lists
      ensures lists.Valid() && p in hdrs && HalfOk(SetState(Blocks(), p, Free), lists.lists, caches, p)
      ensures NoAdjacent(SetState(Blocks(), p, Free).hdrs, 0)
      ensures Live(SetState(Blocks(), p, Free).hdrs) == live
    {
      ghost var marked := SetState(Blocks(), a, Free);
      var b := Bin(hdrs[p].size);
      MergePrev(marked, lists.lists, caches, a, p, b, Join(marked, p));
      MarkAbsorbed(Blocks(), p, a);
      NeighbourReady(marked, lists.lists, caches, a, p, b);
      lists.Remove(p, b);
      Absorb(p);
      assert SetState(Blocks(), p, Free).hdrs == Blocks().hdrs;
    }

    /** Second half: the block before, or nothing. Returns the block that is now to go into a bin. */
    method JoinWithPrev(a: nat, ghost live: map<nat, Piece>) returns (blk: nat)
      requires lists.Valid() && ChainOk(Blocks()) && a in hdrs
      requires HalfOk(SetState(Blocks(), a, Free), lists.lists, caches, a)
      requires Live(SetState(Blocks(), a, Free).hdrs) == live
      requires AfterOk(SetState(Blocks(), a, Free).hdrs, a)
      modifies this`hdrs, this`tail, lists
      ensures lists.Valid() && blk in hdrs && HalfOk(SetState(Blocks(), blk, Free), lists.lists, caches, blk)
      ensures NoAdjacent(SetState(Blocks(), blk, Free).hdrs, 0)
      ensures Live(SetState(Blocks(), blk, Free).hdrs) == live
    {
      ghost var was := Blocks();
      PrevLink(was, a);
      var p := hdrs[a].prev;
      if p != 0 && hdrs[p].state == Free {
        JoinIntoPrev(a, p, live);
        return p;
      }
      NoJoin(SetState(was, a, Free), a);
      blk := a;
    }

    method Finish(blk: nat, ghost live: map<nat, Piece>)
      requires lists.Valid() && blk in hdrs && Live(SetState(Blocks(), blk, Free).hdrs) == live
      requires blk in hdrs && HalfOk(SetState(Blocks(), blk, Free), lists.lists, caches, blk)
      requires NoAdjacent(SetState(Blocks(), blk, Free).hdrs, 0)
      modifies this`hdrs, lists
      ensures lists.Valid() && HeapOk(Blocks(), lists.lists, caches) && Live(hdrs) == live
      ensures Total(Live(hdrs)) == Total(live)
    {
      hdrs := hdrs[blk := hdrs[blk].(state := Free)];
      Relink(Blocks(), lists.lists, caches, blk);
      MergedReady(Blocks(), lists.lists, caches, blk);
      lists.Insert(blk, Bin(hdrs[blk].size));
    }

    method Coalesce(a: nat, ghost live: map<nat, Piece>)
      requires lists.Valid() && ChainOk(Blocks()) && a in hdrs
      requires HalfOk(SetState(Blocks(), a, Free), lists.lists, caches, a)
      requires Live(SetState(Blocks(), a, Free).hdrs) == live
      modifies this`hdrs, this`tail, lists
      ensures lists.Valid() && HeapOk(Blocks(), lists.lists, caches) && Live(hdrs) == live
      ensures Total(Live(hdrs)) == Total(live)
    {
      JoinWithNext(a, live);
      var blk := JoinWithPrev(a, live);
      Finish(blk, live);
    }

    /** The locked part of `kfree`: coalesce with free neighbours and put the result in its bin. */
    method FreeToBins(a: nat)
      requires Valid() && Has(hdrs, a, Claimed)
      modifies this`hdrs, this`tail, lists, this`freeTotal
      ensures Valid() && Live(hdrs) == old(Live(hdrs)) - {a}
    {
      MarkFree(Blocks(), lists.lists, caches, a);
      ghost var live := Live(SetState(Blocks(), a, Free).hdrs);
      freeTotal := freeTotal + hdrs[a].size;
      Coalesce(a, live);
    }

    /** `kfree`. A pointer that is not in use (a second free) is ignored. */
    method Kfree(cpu: nat, ptr: nat)
      requires Valid() && cpu < |caches| && (ptr != 0 ==> ptr >= HDR && ptr - HDR in hdrs)
      modifies this, lists
      ensures Valid() && |caches| == |old(caches)|
      ensures Live(hdrs) == if ptr != 0 && old(hdrs)[ptr - HDR].state == Used then old(Live(hdrs)) - {ptr - HDR}
                            else old(Live(hdrs))
    {
      if ptr == 0 { return; }
      var a := ptr - HDR;
      var claimed := Claim(a);
      if !claimed { return; }
      assert old(Live(hdrs))[a := Piece(old(hdrs)[a].size, true)] - {a} == old(Live(hdrs)) - {a};
      var cached := FreeToCache(cpu, a);
      if cached { return; }
      FreeToBins(a);
    }

    // ---- allocating ----

    /** The first block of a bin that fits, following the links. */
    method FirstFit(b: nat, size: nat) returns (a: nat, found: bool)
      requires lists.Valid() && b < |lists.heads| && forall x :: x in lists.lists[b] ==> x in hdrs
      ensures found ==> a in lists.lists[b] && hdrs[a].size >= size
      ensures !found ==> forall x :: x in lists.lists[b] ==> hdrs[x].size < size
    {
      ghost var list, i := lists.lists[b], 0;
      lists.First(b);
      a := lists.heads[b];
      while a != 0
        invariant i <= |list| && a == HeapLists.Nth(list, i) && (a != 0 ==> i < |list|) && (i < |list| ==> a != 0)
        invariant forall j :: 0 <= j < i ==> hdrs[list[j]].size < size
        decreases |list| - i
      {
        if hdrs[a].size >= size { return a, true; }
        lists.Following(b, i);
        a, i := lists.links[a].next, i + 1;
      }
      found := false;
    }

    /** `find_fit`: the bins upwards from that of the size; none exactly when no free block fits. */
    method FindFit(size: nat) returns (a: nat, found: bool)
      requires lists.Valid() && FreeOk(Sizes(hdrs, Free), lists.lists)
      ensures found ==> Has(hdrs, a, Free) && hdrs[a].size >= size
      ensures !found ==> forall x :: Has(hdrs, x, Free) ==> hdrs[x].size < size
    {
      var first := BinForSize(size);
      for bin := first to BIN_COUNT
        invariant TooSmall(hdrs, size, first, bin)
      {
        BinEntries(hdrs, lists.lists, bin);
        a, found := FirstFit(bin, size);
        if found { return; }
        NoFit(hdrs, lists.lists, size, first, bin);
      }
      SearchComplete(hdrs, size, first);
      a, found := 0, false;
    }

    /** The last block, free, goes to the bin of its new size. */
    method MoveTail(b: nat, k: nat)
      requires Valid() && Has(hdrs, tail, Free) && b == Bin(hdrs[tail].size) && k < BIN_COUNT
      modifies lists
      ensures lists.Valid() && lists.lists == Link(Unlink(old(lists.lists), tail, b), tail, k)
    {
      TailReady(Blocks(), lists.lists, caches, b);
      lists.Remove(tail, b);
      lists.Insert(tail, k);
    }

    method GrowLast(need: nat)
      requires Valid() && Has(hdrs, tail, Free) && need % 16 == 0 && need > 0 && brk + need <= HEAP_MAX
      modifies this`hdrs, this`brk, lists
      ensures Valid() && Live(hdrs) == old(Live(hdrs)) && Blocks() == Extend(old(Blocks()), need)
    {
      var b, k := Bin(hdrs[tail].size), Bin(hdrs[tail].size + need);
      MoveTail(b, k);
      hdrs := hdrs[tail := hdrs[tail].(size := hdrs[tail].size + need)];
      brk := brk + need;
      GrowTail(old(Blocks()), old(lists.lists), caches, need, Blocks(), b, k);
    }

    method GrowBlock(need: nat)
      requires Valid() && !Has(hdrs, tail, Free) && need % 16 == 0 && need >= HDR && brk + need <= HEAP_MAX
      modifies this`hdrs, this`brk, this`tail, lists
      ensures Valid() && Live(hdrs) == old(Live(hdrs)) && Blocks() == Append(old(Blocks()), need)
    {
      TailBlock(Blocks());
      var blk := Hdr(need - HDR, Free, tail, 0);
      if tail != 0 { hdrs := hdrs[tail := hdrs[tail].(next := brk)]; }
      hdrs := hdrs[brk := blk];
      tail := brk;
      var b := Bin(need - HDR);
      BreakReady(old(Blocks()), lists.lists, caches);
      lists.Insert(brk, b);
      brk := brk + need;
      GrowNew(old(Blocks()), old(lists.lists), caches, need, Blocks(), b);
    }

    /** `heap_grow`: more memory at the break, joined to the last block if that is free. */
    method Grow(minPayload: nat, mapped: bool) returns (a: nat, ok: bool)
      requires Valid()
      modifies this`hdrs, this`brk, this`tail, lists
      ensures Valid() && Live(hdrs) == old(Live(hdrs))
      ensures ok <==> mapped && CanGrow(old(brk), minPayload)
      ensures ok ==> Has(hdrs, a, Free) && hdrs[a].size >= minPayload
      ensures !ok ==> Blocks() == old(Blocks()) && lists.lists == old(lists.lists)
    {
      a, ok := 0, false;
      if minPayload > CAPACITY - HDR { return; }
      var need := minPayload + HDR;
      if need < GROW_BYTES { need := GROW_BYTES; }
      need := RoundPage(need);
      if need > HEAP_MAX - brk { return; }
      if !mapped { return; } // a page could not be had or mapped
      TailBlock(Blocks());
      if tail != 0 && hdrs[tail].state == Free {
        a := tail;
        GrowLast(need);
      } else {
        a := brk;
        GrowBlock(need);
      }
      ok := true;
    }

    /** The headers of a block in use and of the rest cut off it. */
    method Cut(a: nat, size: nat, t: nat, rest: nat) returns (ghost cut: Chain)
      requires a in hdrs && hdrs[a].size == size + HDR + rest && t == a + HDR + size
      modifies this`hdrs, this`tail
      ensures cut == Split(old(Blocks()), a, size) && a in cut.hdrs && Blocks() == SetState(cut, a, Used)
      ensures a in hdrs && hdrs[a].size == size && hdrs[a].state == Used
    {
      hdrs := CutHdrs(hdrs, a, size, t, rest);
      if tail == a { tail := t; }
      cut := Blocks();
      hdrs := hdrs[a := hdrs[a].(state := Used)];
    }

    method UsePart(a: nat, size: nat)
      requires Valid() && Has(hdrs, a, Free) && hdrs[a].size >= size + HDR && size % 16 == 0
      modifies this`hdrs, this`tail, lists, this`mallocTotal
      ensures Valid() && Given(old(Live(hdrs)), hdrs, a, size) && hdrs[a].size == size
    {
      var t := a + HDR + size;
      var rest: nat := hdrs[a].size - size - HDR;
      var b, k := Bin(hdrs[a].size), Bin(rest);
      ghost var cut := Cut(a, size, t, rest);
      PartReady(old(Blocks()), lists.lists, caches, a, size, t, b);
      lists.Remove(a, b);
      lists.Insert(t, k);
      mallocTotal := mallocTotal + size;
      TakePart(old(Blocks()), old(lists.lists), caches, a, size, t, rest, cut, Blocks(), b, k);
    }

    method UseWhole(a: nat)
      requires Valid() && Has(hdrs, a, Free)
      modifies this`hdrs, lists, this`mallocTotal
      ensures Valid() && Given(old(Live(hdrs)), hdrs, a, old(hdrs)[a].size) && hdrs[a].size == old(hdrs)[a].size
    {
      var b := Bin(hdrs[a].size);
      BlockReady(Blocks(), lists.lists, caches, a, b);
      lists.Remove(a, b);
      hdrs := hdrs[a := hdrs[a].(state := Used)];
      mallocTotal := mallocTotal + hdrs[a].size;
      TakeWhole(old(Blocks()), old(lists.lists), caches, a, Blocks(), b);
    }

    /** The part of `kmalloc` after a block was found: unlink it and cut off what is too much. */
    method Carve(a: nat, size: nat)
      requires Valid() && Has(hdrs, a, Free) && hdrs[a].size >= size && size % 16 == 0
      modifies this`hdrs, this`tail, lists, this`mallocTotal
      ensures Valid() && Given(old(Live(hdrs)), hdrs, a, size) && hdrs[a].size < size + MIN_SPLIT
    {
      if hdrs[a].size >= size + MIN_SPLIT {
        UsePart(a, size);
      } else {
        UseWhole(a);
      }
    }

    /** The locked part of `kmalloc`. */
    method MallocLocked(size: nat, mapped: bool) returns (a: nat, ok: bool)
      requires Valid() && size % 16 == 0
      modifies this`hdrs, this`brk, this`tail, lists, this`mallocTotal
      ensures Valid()
      ensures if ok then Given(old(Live(hdrs)), hdrs, a, size) else Live(hdrs) == old(Live(hdrs))
      ensures !ok <==> NoneFits(old(hdrs), size) && !(mapped && CanGrow(old(brk), size))
    {
      a, ok := FindFit(size);
      if !ok {
        a, ok := Grow(size, mapped);
        if !ok { return; }
      }
      Carve(a, size);
    }

    /** `kmalloc`: null for a request of 0 bytes or beyond the heap's capacity, or when no free block fits and
        the heap cannot grow; else a block of its own. */
    method Kmalloc(cpu: nat, request: nat, mapped: bool) returns (ptr: nat)
      requires Valid() && cpu < |caches|
      modifies this, lists
      ensures Valid() && |caches| == |old(caches)|
      ensures ptr == 0 ==> Live(hdrs) == old(Live(hdrs))
      ensures ptr != 0 ==> ptr >= HDR && Given(old(Live(hdrs)), hdrs, ptr - HDR, request)
      ensures ptr == 0 <==>
                || request == 0 || request > CAPACITY
                || (!old(CacheServes(Round16(request), caches, cpu)) && NoneFits(old(hdrs), Round16(request))
                    && !(mapped && CanGrow(old(brk), Round16(request))))
    {
      if request == 0 || request > CAPACITY { return 0; }
      var size := Round16(request);
      var a, ok := 0, false;
      if size <= 16 * CLASS_COUNT {
        a, ok := TakeFromCache(cpu, size);
      }
      if !ok { a, ok := MallocLocked(size, mapped); }
      ptr := if ok then a + HDR else 0;
    }
  }

  /** Blocks handed out do not overlap, headers included, and lie inside the heap. */
  lemma LiveApart(c: Chain, a: nat, b: nat)
    requires ChainOk(c) && a in Live(c.hdrs) && b in Live(c.hdrs) && a != b
    ensures HEAP_START <= a && a + HDR + Live(c.hdrs)[a].size <= c.brk && (a + HDR) % 16 == 0
    ensures a + HDR + Live(c.hdrs)[a].size <= b || b + HDR + Live(c.hdrs)[b].size <= a
  {
    assert SizeOk(c, a) && Apart(c, a, b) && Apart(c, b, a);
  }
}
