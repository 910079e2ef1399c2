/** Size bins and per-CPU caches of the kernel heap: lists of block addresses. */
module HeapBins {

  const BIN_COUNT := 32

  const CLASS_COUNT := 16

  const CACHE_LIMIT := 32

  // ---- the bin of a size ----

  /** The loop of `bin_for_size` from a given point on. */
  function BinFrom(units: nat, bin: nat): (r: nat)
    requires bin < BIN_COUNT
    ensures bin <= r < BIN_COUNT
    decreases BIN_COUNT - bin
  {
    if units > 1 && bin + 1 < BIN_COUNT then BinFrom((units + 1) / 2, bin + 1) else bin
  }

  function Bin(size: nat): (r: nat)
    ensures r < BIN_COUNT
  {
    BinFrom((size + 15) / 16, 0)
  }

  /** `bin_for_size`. */
  method BinForSize(size: nat) returns (bin: nat)
    ensures bin == Bin(size)
  {
    var units: nat := (size + 15) / 16;
    bin := 0;
    while units > 1 && bin + 1 < BIN_COUNT
      invariant bin < BIN_COUNT && BinFrom(units, bin) == Bin(size)
      decreases BIN_COUNT - bin
    {
      units := (units + 1) / 2;
      bin := bin + 1;
    }
  }

  function Pow(k: nat): nat {
    if k == 0 then 1 else 2 * Pow(k - 1)
  }

  lemma {:induction false} PowPositive(k: nat)
    ensures Pow(k) >= 1
  {
    if k > 0 { PowPositive(k - 1); }
  }

  /** Below the last bin, a bin holds the sizes between two powers of two. */
  lemma {:induction false} BinMeaning(units: nat, bin: nat)
    requires bin < BIN_COUNT && units >= 1
    ensures var r := BinFrom(units, bin);
            && (r < BIN_COUNT - 1 ==> units <= Pow(r - bin))
            && (r > bin ==> units > Pow(r - bin - 1))
    decreases BIN_COUNT - bin
  {
    var r := BinFrom(units, bin);
    if units > 1 && bin + 1 < BIN_COUNT {
      BinMeaning((units + 1) / 2, bin + 1);
      assert Pow(r - bin) == 2 * Pow(r - bin - 1);
      if r > bin + 1 { assert Pow(r - bin - 1) == 2 * Pow(r - bin - 2); }
    }
  }

  /** A larger block is never in a smaller bin, so a search upwards from the bin of a size misses nothing. */
  lemma {:induction false} BinMonotone(a: nat, b: nat, bin: nat)
    requires a <= b && bin < BIN_COUNT
    ensures BinFrom(a, bin) <= BinFrom(b, bin)
    decreases BIN_COUNT - bin
  {
    if a > 1 && bin + 1 < BIN_COUNT { BinMonotone((a + 1) / 2, (b + 1) / 2, bin + 1); }
  }

  // ---- lists ----

  predicate Distinct(s: seq<nat>) {
    forall i, j :: 0 <= i < j < |s| ==> s[i] != s[j]
  }

  /** Unlinking a block from its list. */
  function Without(s: seq<nat>, a: nat): seq<nat> {
    if s == [] then [] else if s[0] == a then s[1..] else [s[0]] + Without(s[1..], a)
  }

  lemma {:induction false} WithoutIs(s: seq<nat>, a: nat)
    requires Distinct(s)
    ensures Distinct(Without(s, a)) && forall x :: x in Without(s, a) <==> x in s && x != a
  {
    if s != [] {
      var t := s[1..];
      assert s == [s[0]] + t && Distinct(t);
      assert s[0] !in t;
      WithoutIs(t, a);
    }
  }

  lemma PushIs(s: seq<nat>, a: nat)
    requires Distinct(s) && a !in s
    ensures Distinct([a] + s) && forall x :: x in [a] + s <==> x == a || x in s
  {}

  // ---- bins ----

  /** The list holds each block of bin `b` once. `where` maps blocks to their bins. */
  ghost predicate BinOk(where: map<nat, nat>, list: seq<nat>, b: nat) {
    Distinct(list) && forall a {:trigger a in list} :: a in list <==> a in where && where[a] == b
  }

  /** Every block is once in its bin, and nothing else is in a bin. */
  ghost predicate BinsOk(where: map<nat, nat>, bins: seq<seq<nat>>) {
    && |bins| == BIN_COUNT
    && forall b :: 0 <= b < BIN_COUNT ==> BinOk(where, bins[b], b)
  }

  /** Free blocks with their sizes to free blocks with their bins. */
  ghost function BinMap(free: map<nat, nat>): map<nat, nat> {
    map a | a in free :: if a in free then Bin(free[a]) else 0
  }

  lemma BinMapRemove(free: map<nat, nat>, a: nat)
    requires a in free
    ensures BinMap(free - {a}) == BinMap(free) - {a} && a in BinMap(free) && BinMap(free)[a] == Bin(free[a])
  {}

  lemma BinMapAdd(free: map<nat, nat>, a: nat, size: nat)
    ensures BinMap(free[a := size]) == BinMap(free)[a := Bin(size)]
    ensures a in BinMap(free) <==> a in free
  {}

  function Unlink(bins: seq<seq<nat>>, a: nat, b: nat): seq<seq<nat>>
    requires b < |bins|
  {
    bins[b := Without(bins[b], a)]
  }

  function Link(bins: seq<seq<nat>>, a: nat, b: nat): seq<seq<nat>>
    requires b < |bins|
  {
    bins[b := [a] + bins[b]]
  }

  lemma UnlinkKeeps(where: map<nat, nat>, bins: seq<seq<nat>>, a: nat, b: nat, after: map<nat, nat>)
    requires BinsOk(where, bins) && a in where && where[a] == b < BIN_COUNT && after == where - {a}
    ensures BinsOk(after, Unlink(bins, a, b))
  {
    assert BinOk(where, bins[b], b);
    WithoutIs(bins[b], a);
    forall k | 0 <= k < BIN_COUNT ensures BinOk(after, Unlink(bins, a, b)[k], k) { assert BinOk(where, bins[k], k); }
  }

  lemma LinkKeeps(where: map<nat, nat>, bins: seq<seq<nat>>, a: nat, b: nat, after: map<nat, nat>)
    requires BinsOk(where, bins) && a !in where && b < BIN_COUNT && after == where[a := b]
    ensures BinsOk(after, Link(bins, a, b))
  {
    assert BinOk(where, bins[b], b) && a !in bins[b];
    PushIs(bins[b], a);
    forall k | 0 <= k < BIN_COUNT ensures BinOk(after, Link(bins, a, b)[k], k) { assert BinOk(where, bins[k], k); }
  }

  /** The blocks in bins are the free blocks. */
  ghost predicate FreeOk(free: map<nat, nat>, bins: seq<seq<nat>>) {
    BinsOk(BinMap(free), bins)
  }

  /** Block `a` is in no list. */
  ghost predicate Unbinned(bins: seq<seq<nat>>, a: nat) {
    forall b :: 0 <= b < |bins| ==> a !in bins[b]
  }

  lemma InBin(free: map<nat, nat>, bins: seq<seq<nat>>, a: nat)
    requires FreeOk(free, bins) && a in free
    ensures Bin(free[a]) < |bins| && a in bins[Bin(free[a])]
  {
    assert BinOk(BinMap(free), bins[Bin(free[a])], Bin(free[a]));
  }

  lemma NotInBin(free: map<nat, nat>, bins: seq<seq<nat>>, a: nat)
    requires FreeOk(free, bins) && a !in free
    ensures Unbinned(bins, a)
  {
    forall b | 0 <= b < |bins| ensures a !in bins[b] { assert BinOk(BinMap(free), bins[b], b); }
  }

  lemma FreeUnlink(free: map<nat, nat>, bins: seq<seq<nat>>, a: nat, b: nat, after: map<nat, nat>)
    requires FreeOk(free, bins) && a in free && b == Bin(free[a]) && after == free - {a}
    ensures FreeOk(after, Unlink(bins, a, b))
  {
    BinMapRemove(free, a);
    UnlinkKeeps(BinMap(free), bins, a, b, BinMap(after));
  }

  /** A block taken out of its list can go into another, and so can one that was in none. */
  lemma MovedOut(free: map<nat, nat>, bins: seq<seq<nat>>, a: nat, b: nat, t: nat)
    requires FreeOk(free, bins) && a in free && b == Bin(free[a]) && (t == a || t !in free)
    ensures b < |bins| && a in bins[b] && Unbinned(Unlink(bins, a, b), t)
  {
    InBin(free, bins, a);
    FreeUnlink(free, bins, a, b, free - {a});
    NotInBin(free - {a}, Unlink(bins, a, b), t);
  }

  lemma FreeLink(free: map<nat, nat>, bins: seq<seq<nat>>, a: nat, size: nat, b: nat, after: map<nat, nat>)
    requires FreeOk(free, bins) && a !in free && b == Bin(size) && after == free[a := size]
    ensures FreeOk(after, Link(bins, a, b))
  {
    BinMapAdd(free, a, size);
    LinkKeeps(BinMap(free), bins, a, b, BinMap(after));
  }

  /** One free block leaves its bin and one enters (perhaps the same with another size). */
  lemma FreeMove(free: map<nat, nat>, bins: seq<seq<nat>>, a: nat, b: nat, t: nat, size: nat, c: nat,
                 after: map<nat, nat>)
    requires FreeOk(free, bins) && a in free && b == Bin(free[a]) && (t == a || t !in free) && c == Bin(size)
    requires after == (free - {a})[t := size]
    ensures FreeOk(after, Link(Unlink(bins, a, b), t, c))
  {
    FreeUnlink(free, bins, a, b, free - {a});
    FreeLink(free - {a}, Unlink(bins, a, b), t, size, c, after);
  }

  // ---- caches ----

  type Caches = seq<seq<seq<nat>>> // by CPU and class

  function ClassSize(cls: nat): nat {
    16 * (cls + 1)
  }

  ghost predicate CacheOk(cached: map<nat, nat>, list: seq<nat>, cls: nat) {
    Distinct(list) && |list| <= CACHE_LIMIT && forall a :: a in list ==> a in cached && cached[a] == ClassSize(cls)
  }

  ghost predicate InCache(caches: Caches, cpu: nat, cls: nat, a: nat) {
    cpu < |caches| && cls < |caches[cpu]| && a in caches[cpu][cls]
  }

  ghost predicate InSomeCache(caches: Caches, a: nat) {
    exists cpu, cls :: InCache(caches, cpu, cls, a)
  }

  /** Every cached block is once in one cache of its class, and nothing else is in a cache. */
  ghost predicate CachesOk(cached: map<nat, nat>, caches: Caches) {
    && (forall cpu :: 0 <= cpu < |caches| ==> |caches[cpu]| == CLASS_COUNT)
    && (forall cpu, cls :: 0 <= cpu < |caches| && 0 <= cls < CLASS_COUNT ==> CacheOk(cached, caches[cpu][cls], cls))
    && (forall a :: a in cached ==> InSomeCache(caches, a))
    && (forall a, cpu, cls, cpu', cls' :: InCache(caches, cpu, cls, a) && InCache(caches, cpu', cls', a) ==>
         cpu == cpu' && cls == cls')
  }

  function SetCache(caches: Caches, cpu: nat, cls: nat, list: seq<nat>): Caches
    requires cpu < |caches| && cls < |caches[cpu]|
  {
    caches[cpu := caches[cpu][cls := list]]
  }

  lemma SetCacheIn(caches: Caches, cpu: nat, cls: nat, list: seq<nat>, cpu': nat, cls': nat, a: nat)
    requires cpu < |caches| && cls < |caches[cpu]|
    ensures InCache(SetCache(caches, cpu, cls, list), cpu', cls', a)
       <==> if cpu' == cpu && cls' == cls then a in list else InCache(caches, cpu', cls', a)
  {}

  /** Freeing a block into a cache that is not full. */
  lemma CachePush(cached: map<nat, nat>, caches: Caches, cpu: nat, cls: nat, a: nat)
    requires CachesOk(cached, caches) && cpu < |caches| && cls < CLASS_COUNT && a !in cached
    requires |caches[cpu][cls]| < CACHE_LIMIT
    ensures CachesOk(cached[a := ClassSize(cls)], SetCache(caches, cpu, cls, [a] + caches[cpu][cls]))
  {
    var list := [a] + caches[cpu][cls];
    var after := SetCache(caches, cpu, cls, list);
    var cached' := cached[a := ClassSize(cls)];
    assert CacheOk(cached, caches[cpu][cls], cls);
    PushIs(caches[cpu][cls], a);
    forall p, k, x ensures InCache(after, p, k, x) <==> if p == cpu && k == cls then x == a || InCache(caches, p, k, x)
                                                        else InCache(caches, p, k, x) {
      if p >= 0 && k >= 0 && x >= 0 { SetCacheIn(caches, cpu, cls, list, p, k, x); }
    }
    forall x | x in cached' ensures InSomeCache(after, x) {
      if x == a { assert InCache(after, cpu, cls, a); }
      else { var p, k :| InCache(caches, p, k, x); assert InCache(after, p, k, x); }
    }
    forall p, k | 0 <= p < |after| && 0 <= k < CLASS_COUNT ensures CacheOk(cached', after[p][k], k) {
      assert CacheOk(cached, caches[p][k], k);
    }
    forall p: nat, k: nat ensures !InCache(caches, p, k, a) {
      assert InCache(caches, p, k, a) ==> CacheOk(cached, caches[p][k], k);
    }
  }

  /** Taking the first block of a cache. */
  lemma CachePop(cached: map<nat, nat>, caches: Caches, cpu: nat, cls: nat)
    requires CachesOk(cached, caches) && cpu < |caches| && cls < CLASS_COUNT && caches[cpu][cls] != []
    ensures var a := caches[cpu][cls][0];
            a in cached && cached[a] == ClassSize(cls)
            && CachesOk(cached - {a}, SetCache(caches, cpu, cls, caches[cpu][cls][1..]))
  {
    var list := caches[cpu][cls];
    var a, rest := list[0], list[1..];
    var after := SetCache(caches, cpu, cls, rest);
    assert CacheOk(cached, list, cls) && a in list;
    assert forall x :: x in rest <==> x in list && x != a by { assert list == [a] + rest; }
    forall p, k, x ensures InCache(after, p, k, x) <==> InCache(caches, p, k, x) && !(p == cpu && k == cls && x == a) {
      if p >= 0 && k >= 0 && x >= 0 { SetCacheIn(caches, cpu, cls, rest, p, k, x); }
    }
    assert InCache(caches, cpu, cls, a);
    forall x | x in cached - {a} ensures InSomeCache(after, x) {
      var p, k :| InCache(caches, p, k, x);
      assert InCache(after, p, k, x);
    }
    forall p, k | 0 <= p < |after| && 0 <= k < CLASS_COUNT ensures CacheOk(cached - {a}, after[p][k], k) {
      assert CacheOk(cached, caches[p][k], k);
      assert forall x :: x in after[p][k] ==> InCache(after, p, k, x);
    }
  }
}
