/**
 * The boundary-linked blocks of the kernel heap: headers by address, with the address-order links.
 */
module HeapBlocks {

  const HDR := 48

  const HEAP_START: nat := 0xffff_9100_0000_0000

  const HEAP_MAX: nat := 0xffff_9200_0000_0000

  /** The four values of the `free` word: 0, 1, 2 and 3. */
  datatype BlockState = Used | Free | Claimed | Cached

  /** A block header; 0 is the null link. */
  datatype Hdr = Hdr(size: nat, state: BlockState, prev: nat, next: nat)

  type Hdrs = map<nat, Hdr>

  /** All headers, the break, and the last block. */
  datatype Chain = Chain(hdrs: Hdrs, brk: nat, tail: nat)

  function End(hdrs: Hdrs, a: nat): nat
    requires a in hdrs
  {
    a + HDR + hdrs[a].size
  }

  predicate SizeOk(c: Chain, a: nat)
    requires a in c.hdrs
  {
    HEAP_START <= a && a % 16 == 0 && c.hdrs[a].size % 16 == 0 && End(c.hdrs, a) <= c.brk
  }

  predicate NextOk(c: Chain, a: nat)
    requires a in c.hdrs
  {
    var end := End(c.hdrs, a);
    if end == c.brk then c.hdrs[a].next == 0 && c.tail == a
    else c.hdrs[a].next == end && end in c.hdrs && c.hdrs[end].prev == a
  }

  predicate PrevOk(c: Chain, a: nat)
    requires a in c.hdrs
  {
    if a == HEAP_START then c.hdrs[a].prev == 0
    else c.hdrs[a].prev in c.hdrs && c.hdrs[a].prev < a && c.hdrs[c.hdrs[a].prev].next == a
  }

  ghost predicate Apart(c: Chain, a: nat, b: nat)
    requires a in c.hdrs && b in c.hdrs
  {
    a < b ==> End(c.hdrs, a) <= b
  }

  /** The blocks tile the heap from its start to the break. */
  ghost predicate ChainOk(c: Chain) {
    && HEAP_START <= c.brk <= HEAP_MAX
    && (forall a {:trigger SizeOk(c, a)} :: a in c.hdrs ==> SizeOk(c, a))
    && (forall a {:trigger NextOk(c, a)} :: a in c.hdrs ==> NextOk(c, a))
    && (forall a {:trigger PrevOk(c, a)} :: a in c.hdrs ==> PrevOk(c, a))
    && (forall a, b {:trigger Apart(c, a, b)} :: a in c.hdrs && b in c.hdrs ==> Apart(c, a, b))
    && (if c.brk == HEAP_START then c.hdrs == map[] && c.tail == 0
        else HEAP_START in c.hdrs && c.tail in c.hdrs && End(c.hdrs, c.tail) == c.brk)
  }

  /** Every address of the heap lies in a block ... */
  lemma {:induction false} Covered(c: Chain, x: nat, from: nat) returns (a: nat)
    requires ChainOk(c) && from in c.hdrs && from <= x < c.brk
    ensures a in c.hdrs && a <= x < End(c.hdrs, a)
    decreases c.brk - from
  {
    assert NextOk(c, from);
    if x < End(c.hdrs, from) { a := from; } else { a := Covered(c, x, End(c.hdrs, from)); }
  }

  /** ... and in only one. */
  lemma Tiling(c: Chain, x: nat)
    requires ChainOk(c) && HEAP_START <= x < c.brk
    ensures exists a :: a in c.hdrs && a <= x < End(c.hdrs, a)
    ensures forall a, b :: a in c.hdrs && b in c.hdrs && a <= x < End(c.hdrs, a) && b <= x < End(c.hdrs, b) ==> a == b
  {
    var a := Covered(c, x, HEAP_START);
    forall a, b | a in c.hdrs && b in c.hdrs && a <= x < End(c.hdrs, a) && b <= x < End(c.hdrs, b) ensures a == b {
      assert Apart(c, a, b) && Apart(c, b, a);
    }
  }

  // ---- changing the chain ----

  function SetState(c: Chain, a: nat, state: BlockState): Chain
    requires a in c.hdrs
  {
    c.(hdrs := c.hdrs[a := c.hdrs[a].(state := state)])
  }

  lemma SetStateKeeps(c: Chain, a: nat, state: BlockState)
    requires ChainOk(c) && a in c.hdrs
    ensures ChainOk(SetState(c, a, state))
  {
    var d := SetState(c, a, state);
    forall x | x in d.hdrs ensures SizeOk(d, x) && NextOk(d, x) && PrevOk(d, x) {
      assert SizeOk(c, x) && NextOk(c, x) && PrevOk(c, x);
    }
    forall x, y | x in d.hdrs && y in d.hdrs ensures Apart(d, x, y) { assert Apart(c, x, y); }
  }

  function SetPrev(hdrs: Hdrs, a: nat, prev: nat): Hdrs {
    if a in hdrs then hdrs[a := hdrs[a].(prev := prev)] else hdrs
  }

  /** The headers after block `a` was cut to `size` and a free block of `rest` bytes made at `t`. */
  function CutHdrs(hdrs: Hdrs, a: nat, size: nat, t: nat, rest: nat): Hdrs
    requires a in hdrs
  {
    var h := hdrs[a];
    SetPrev(hdrs, h.next, t)[t := Hdr(rest, Free, a, h.next)][a := h.(size := size, next := t)]
  }

  /** Cutting block `a` down to `size`; the rest becomes a free block. */
  function Split(c: Chain, a: nat, size: nat): Chain
    requires a in c.hdrs && size + HDR <= c.hdrs[a].size
  {
    var t := a + HDR + size;
    Chain(CutHdrs(c.hdrs, a, size, t, c.hdrs[a].size - size - HDR), c.brk, if c.tail == a then t else c.tail)
  }

  /** No header lies inside a block. */
  lemma Inside(c: Chain, a: nat, t: nat)
    requires ChainOk(c) && a in c.hdrs && a < t < End(c.hdrs, a)
    ensures t !in c.hdrs
  {
    assert t in c.hdrs ==> Apart(c, a, t);
  }

  lemma SplitNext(c: Chain, a: nat, size: nat, x: nat)
    requires ChainOk(c) && a in c.hdrs && size + HDR <= c.hdrs[a].size && x in Split(c, a, size).hdrs
    ensures NextOk(Split(c, a, size), x)
  {
    var t := a + HDR + size;
    Inside(c, a, t);
    assert NextOk(c, a) && SizeOk(c, a);
    if x != t { assert NextOk(c, x); }
  }

  lemma SplitPrev(c: Chain, a: nat, size: nat, x: nat)
    requires ChainOk(c) && a in c.hdrs && size + HDR <= c.hdrs[a].size && x in Split(c, a, size).hdrs
    ensures PrevOk(Split(c, a, size), x)
  {
    var t := a + HDR + size;
    Inside(c, a, t);
    assert NextOk(c, a) && SizeOk(c, a);
    if x != t { assert PrevOk(c, x); }
  }

  lemma SplitSizes(c: Chain, a: nat, size: nat, x: nat)
    requires ChainOk(c) && a in c.hdrs && size + HDR <= c.hdrs[a].size && size % 16 == 0 && x in Split(c, a, size).hdrs
    ensures SizeOk(Split(c, a, size), x)
  {
    var t := a + HDR + size;
    Inside(c, a, t);
    assert SizeOk(c, a);
    if x != t { assert SizeOk(c, x); }
  }

  lemma SplitApart(c: Chain, a: nat, size: nat, x: nat, y: nat)
    requires ChainOk(c) && a in c.hdrs && size + HDR <= c.hdrs[a].size
    requires x in Split(c, a, size).hdrs && y in Split(c, a, size).hdrs
    ensures Apart(Split(c, a, size), x, y)
  {
    var t := a + HDR + size;
    Inside(c, a, t);
    assert x != t ==> Apart(c, a, x) && Apart(c, x, a) && (y != t ==> Apart(c, x, y));
    assert y != t ==> Apart(c, a, y);
  }

  lemma SplitKeeps(c: Chain, a: nat, size: nat)
    requires ChainOk(c) && a in c.hdrs && size + HDR <= c.hdrs[a].size && size % 16 == 0
    ensures ChainOk(Split(c, a, size)) && a + HDR + size !in c.hdrs
  {
    var d := Split(c, a, size);
    Inside(c, a, a + HDR + size);
    assert NextOk(c, a) && SizeOk(c, a) && Apart(c, a, c.tail);
    forall x {:trigger SizeOk(d, x)} | x in d.hdrs ensures SizeOk(d, x) { SplitSizes(c, a, size, x); }
    forall x {:trigger NextOk(d, x)} | x in d.hdrs ensures NextOk(d, x) { SplitNext(c, a, size, x); }
    forall x {:trigger PrevOk(d, x)} | x in d.hdrs ensures PrevOk(d, x) { SplitPrev(c, a, size, x); }
    forall x, y {:trigger Apart(d, x, y)} | x in d.hdrs && y in d.hdrs
      ensures Apart(d, x, y)
    {
      SplitApart(c, a, size, x, y);
    }
  }

  /** Merging block `a` with the block after it. */
  function Join(c: Chain, a: nat): Chain
    requires a in c.hdrs && c.hdrs[a].next in c.hdrs
  {
    var b := c.hdrs[a].next;
    var h, g := c.hdrs[a], c.hdrs[b];
    var hdrs := SetPrev(c.hdrs - {b}, g.next, a)[a := h.(size := h.size + HDR + g.size, next := g.next)];
    Chain(hdrs, c.brk, if c.tail == b then a else c.tail)
  }

  lemma NextBlock(c: Chain, a: nat)
    requires ChainOk(c) && a in c.hdrs && c.hdrs[a].next != 0
    ensures var b := c.hdrs[a].next; b == End(c.hdrs, a) && b in c.hdrs && c.hdrs[b].prev == a && a < b
  {
    assert NextOk(c, a);
  }

  lemma JoinNext(c: Chain, a: nat, x: nat)
    requires ChainOk(c) && a in c.hdrs && c.hdrs[a].next != 0 && c.hdrs[a].next in c.hdrs && x in Join(c, a).hdrs
    ensures NextOk(Join(c, a), x)
  {
    NextBlock(c, a);
    var b := c.hdrs[a].next;
    assert NextOk(c, b) && SizeOk(c, b) && NextOk(c, x) && PrevOk(c, x);
  }

  lemma JoinPrev(c: Chain, a: nat, x: nat)
    requires ChainOk(c) && a in c.hdrs && c.hdrs[a].next != 0 && c.hdrs[a].next in c.hdrs && x in Join(c, a).hdrs
    ensures PrevOk(Join(c, a), x)
  {
    NextBlock(c, a);
    var b := c.hdrs[a].next;
    assert PrevOk(c, x) && NextOk(c, b) && SizeOk(c, b);
  }

  lemma JoinSizes(c: Chain, a: nat, x: nat)
    requires ChainOk(c) && a in c.hdrs && c.hdrs[a].next != 0 && c.hdrs[a].next in c.hdrs && x in Join(c, a).hdrs
    ensures SizeOk(Join(c, a), x)
  {
    NextBlock(c, a);
    assert SizeOk(c, x) && SizeOk(c, a) && SizeOk(c, c.hdrs[a].next);
  }

  lemma JoinApart(c: Chain, a: nat, x: nat, y: nat)
    requires ChainOk(c) && a in c.hdrs && c.hdrs[a].next != 0 && c.hdrs[a].next in c.hdrs && x in Join(c, a).hdrs
    requires y in Join(c, a).hdrs
    ensures Apart(Join(c, a), x, y)
  {
    NextBlock(c, a);
    assert Apart(c, x, y) && Apart(c, c.hdrs[a].next, y) && Apart(c, a, y);
  }

  lemma JoinKeeps(c: Chain, a: nat)
    requires ChainOk(c) && a in c.hdrs && c.hdrs[a].next != 0
    ensures c.hdrs[a].next in c.hdrs && a < c.hdrs[a].next && ChainOk(Join(c, a))
  {
    NextBlock(c, a);
    var b := c.hdrs[a].next;
    var d := Join(c, a);
    assert NextOk(c, b) && SizeOk(c, a) && SizeOk(c, b) && Apart(c, b, c.tail);
    forall x {:trigger SizeOk(d, x)} | x in d.hdrs ensures SizeOk(d, x) { JoinSizes(c, a, x); }
    forall x {:trigger NextOk(d, x)} | x in d.hdrs ensures NextOk(d, x) { JoinNext(c, a, x); }
    forall x {:trigger PrevOk(d, x)} | x in d.hdrs ensures PrevOk(d, x) { JoinPrev(c, a, x); }
    forall x, y {:trigger Apart(d, x, y)} | x in d.hdrs && y in d.hdrs ensures Apart(d, x, y) { JoinApart(c, a, x, y); }
  }

  /** Growing the last block. */
  function Extend(c: Chain, need: nat): Chain
    requires c.tail in c.hdrs
  {
    var h := c.hdrs[c.tail];
    Chain(c.hdrs[c.tail := h.(size := h.size + need)], c.brk + need, c.tail)
  }

  lemma ExtendKeeps(c: Chain, need: nat)
    requires ChainOk(c) && c.tail in c.hdrs && c.brk > HEAP_START && need % 16 == 0 && need > 0
    requires c.brk + need <= HEAP_MAX
    ensures ChainOk(Extend(c, need))
  {
    var d := Extend(c, need);
    forall x {:trigger SizeOk(d, x)} | x in d.hdrs ensures SizeOk(d, x) { assert SizeOk(c, x) && SizeOk(c, c.tail); }
    forall x {:trigger NextOk(d, x)} | x in d.hdrs
      ensures NextOk(d, x)
    {
      assert NextOk(c, x) && NextOk(c, c.tail) && SizeOk(c, x);
    }
    forall x {:trigger PrevOk(d, x)} | x in d.hdrs ensures PrevOk(d, x) { assert PrevOk(c, x); }
    forall x, y {:trigger Apart(d, x, y)} | x in d.hdrs && y in d.hdrs ensures Apart(d, x, y) {
      assert Apart(c, x, y) && SizeOk(c, x) && SizeOk(c, y);
    }
  }

  /** A new free block at the break. */
  function Append(c: Chain, need: nat): Chain
    requires need >= HDR
  {
    var blk := Hdr(need - HDR, Free, c.tail, 0);
    var hdrs := if c.tail in c.hdrs then c.hdrs[c.tail := c.hdrs[c.tail].(next := c.brk)] else c.hdrs;
    Chain(hdrs[c.brk := blk], c.brk + need, c.brk)
  }

  lemma AppendKeeps(c: Chain, need: nat)
    requires ChainOk(c) && need % 16 == 0 && need >= HDR && c.brk + need <= HEAP_MAX
    ensures ChainOk(Append(c, need)) && c.brk !in c.hdrs && c.brk % 16 == 0
  {
    var d := Append(c, need);
    assert c.brk in c.hdrs ==> SizeOk(c, c.brk);
    assert c.tail in c.hdrs ==> SizeOk(c, c.tail) && NextOk(c, c.tail);
    forall x {:trigger SizeOk(d, x)} | x in d.hdrs ensures SizeOk(d, x) { assert x != c.brk ==> SizeOk(c, x); }
    forall x {:trigger NextOk(d, x)} | x in d.hdrs
      ensures NextOk(d, x)
    {
      assert x != c.brk ==> NextOk(c, x) && SizeOk(c, x);
    }
    forall x {:trigger PrevOk(d, x)} | x in d.hdrs ensures PrevOk(d, x) { assert x != c.brk ==> PrevOk(c, x); }
    forall x, y {:trigger Apart(d, x, y)} | x in d.hdrs && y in d.hdrs ensures Apart(d, x, y) {
      assert x != c.brk ==> SizeOk(c, x) && (y != c.brk ==> Apart(c, x, y));
      assert y != c.brk ==> SizeOk(c, y);
    }
  }

  // ---- which blocks are in which state ----

  predicate Has(hdrs: Hdrs, a: nat, s: BlockState) {
    a in hdrs && hdrs[a].state == s
  }

  /** The blocks in a state, with their sizes. */
  ghost function Sizes(hdrs: Hdrs, s: BlockState): map<nat, nat> {
    map a | a in hdrs && Has(hdrs, a, s) :: if Has(hdrs, a, s) then hdrs[a].size else 0
  }

  predicate IsLive(hdrs: Hdrs, a: nat) {
    Has(hdrs, a, Used) || Has(hdrs, a, Claimed)
  }

  /** A block handed out: its size, and whether a free has claimed it and not finished. */
  datatype Piece = Piece(size: nat, claimed: bool)

  const NO_PIECE := Piece(0, false)

  /** The blocks handed out: in use, or claimed by a free that has not finished. */
  ghost function Live(hdrs: Hdrs): map<nat, Piece> {
    map a | a in hdrs && IsLive(hdrs, a) :: if IsLive(hdrs, a) then Piece(hdrs[a].size, hdrs[a].state == Claimed)
                                            else NO_PIECE
  }

  lemma LiveIs(hdrs: Hdrs, a: nat)
    requires a in Live(hdrs)
    ensures IsLive(hdrs, a) && Live(hdrs)[a] == Piece(hdrs[a].size, hdrs[a].state == Claimed)
  {}

  /** The sizes of live blocks, summed up. */
  ghost function Total(m: map<nat, Piece>): nat {
    if m == map[] then 0 else var a :| a in m; m[a].size + Total(m - {a})
  }

  lemma {:induction false} TotalRemove(m: map<nat, Piece>, a: nat)
    requires a in m
    ensures Total(m) == m[a].size + Total(m - {a})
    decreases |m|
  {
    var b :| b in m && Total(m) == m[b].size + Total(m - {b});
    if b != a {
      TotalRemove(m - {b}, a);
      TotalRemove(m - {a}, b);
      assert m - {b} - {a} == m - {a} - {b};
    }
  }

  lemma TotalAdd(m: map<nat, Piece>, a: nat, p: Piece)
    requires a !in m
    ensures Total(m[a := p]) == Total(m) + p.size
  {
    TotalRemove(m[a := p], a);
    assert m[a := p] - {a} == m;
  }

  lemma TotalSame(m: map<nat, Piece>, a: nat, p: Piece)
    requires a in m && p.size == m[a].size
    ensures Total(m[a := p]) == Total(m)
  {
    TotalRemove(m, a);
    TotalRemove(m[a := p], a);
    assert m[a := p] - {a} == m - {a};
  }

  /** Block `a` and the block after it are not both free. */
  predicate NotBothFree(hdrs: Hdrs, a: nat)
    requires a in hdrs
  {
    hdrs[a].state == Free && hdrs[a].next in hdrs ==> hdrs[hdrs[a].next].state != Free
  }

  /** No two adjacent free blocks, except perhaps beside block `but`. */
  ghost predicate NoAdjacent(hdrs: Hdrs, but: nat) {
    forall a {:trigger NotBothFree(hdrs, a)} :: a in hdrs && a != but && hdrs[a].next != but ==> NotBothFree(hdrs, a)
  }

  lemma SetStateSizes(c: Chain, a: nat, state: BlockState, s: BlockState)
    requires a in c.hdrs
    ensures var after := SetState(c, a, state).hdrs;
            Sizes(after, s) == if s == state then Sizes(c.hdrs, s)[a := c.hdrs[a].size] else Sizes(c.hdrs, s) - {a}
  {}

  lemma SetStateLive(c: Chain, a: nat, state: BlockState)
    requires a in c.hdrs
    ensures var after := SetState(c, a, state).hdrs;
            Live(after) == if state == Used || state == Claimed then Live(c.hdrs)[a := Piece(c.hdrs[a].size, state == Claimed)] else Live(c.hdrs) - {a}
  {}

  /** The headers agree on the size and state of every block but `a` and `b`. */
  ghost predicate SameBut(h: Hdrs, d: Hdrs, a: nat, b: nat) {
    && (forall x :: x in h && x != a && x != b ==> x in d)
    && (forall x :: x in d && x != a && x != b ==> x in h && d[x].size == h[x].size && d[x].state == h[x].state)
  }

  lemma SplitSame(c: Chain, a: nat, size: nat)
    requires ChainOk(c) && a in c.hdrs && size + HDR <= c.hdrs[a].size
    ensures var d, t := Split(c, a, size).hdrs, a + HDR + size;
            && t !in c.hdrs && t != a && SameBut(c.hdrs, d, a, t) && t in d && a in d
            && d[t].state == Free && d[t].size == c.hdrs[a].size - size - HDR && d[a].state == c.hdrs[a].state
            && d[a].size == size
  {
    Inside(c, a, a + HDR + size);
    assert NextOk(c, a) && SizeOk(c, a);
  }

  lemma JoinSame(c: Chain, a: nat)
    requires ChainOk(c) && a in c.hdrs && c.hdrs[a].next in c.hdrs && c.hdrs[a].next != 0
    ensures var d, b := Join(c, a).hdrs, c.hdrs[a].next;
            && SameBut(c.hdrs, d, a, b) && a in d && b !in d && a != b
            && d[a].state == c.hdrs[a].state && d[a].size == c.hdrs[a].size + HDR + c.hdrs[b].size
  {
    NextBlock(c, a);
    assert NextOk(c, c.hdrs[a].next) && SizeOk(c, c.hdrs[a].next);
  }

  /** What a change at two blocks does to the blocks in a state. */
  lemma SizesBut(h: Hdrs, d: Hdrs, a: nat, b: nat, s: BlockState)
    requires SameBut(h, d, a, b)
    ensures Sizes(d, s) - {a, b} == Sizes(h, s) - {a, b}
  {}

  lemma LiveBut(h: Hdrs, d: Hdrs, a: nat, b: nat)
    requires SameBut(h, d, a, b)
    ensures Live(d) - {a, b} == Live(h) - {a, b}
  {}

  lemma TwoBut<V>(m: map<nat, V>, n: map<nat, V>, a: nat, b: nat)
    requires m - {a, b} == n - {a, b}
    ensures a !in m && a !in n && b !in m && b !in n ==> n == m
    ensures b !in m && a in n && b !in n ==> n == m[a := n[a]]
    ensures a !in m && a !in n && b in n ==> n == m[b := n[b]]
    ensures a in n && b !in n ==> n == (m - {b})[a := n[a]]
  {
    assert forall x :: x in m && x != a && x != b ==>
         x in n - {a, b} && (n - {a, b})[x] == n[x] && (m - {a, b})[x] == m[x];
    assert forall x :: x in n && x != a && x != b ==> x in m - {a, b};
  }

  /** Splitting a block in use leaves a free block. */
  lemma SplitStates(c: Chain, a: nat, size: nat)
    requires ChainOk(c) && a in c.hdrs && size + HDR <= c.hdrs[a].size && c.hdrs[a].state == Used
    ensures var d, t := Split(c, a, size).hdrs, a + HDR + size;
            && Live(d) == Live(c.hdrs)[a := Piece(size, false)] && Sizes(d, Cached) == Sizes(c.hdrs, Cached)
            && Sizes(d, Free) == Sizes(c.hdrs, Free)[t := c.hdrs[a].size - size - HDR]
  {
    var d, t := Split(c, a, size).hdrs, a + HDR + size;
    SplitSame(c, a, size);
    LiveBut(c.hdrs, d, a, t);
    TwoBut(Live(c.hdrs), Live(d), a, t);
    SizesBut(c.hdrs, d, a, t, Cached);
    TwoBut(Sizes(c.hdrs, Cached), Sizes(d, Cached), a, t);
    SizesBut(c.hdrs, d, a, t, Free);
    TwoBut(Sizes(c.hdrs, Free), Sizes(d, Free), a, t);
  }

  /** Joining two free blocks leaves one. */
  lemma JoinStates(c: Chain, a: nat)
    requires ChainOk(c) && a in c.hdrs && c.hdrs[a].next in c.hdrs && c.hdrs[a].state == Free
    requires c.hdrs[c.hdrs[a].next].state == Free
    requires c.hdrs[a].next != 0
    ensures var d, b := Join(c, a).hdrs, c.hdrs[a].next;
            && Live(d) == Live(c.hdrs) && Sizes(d, Cached) == Sizes(c.hdrs, Cached)
            && Sizes(d, Free) == (Sizes(c.hdrs, Free) - {b})[a := c.hdrs[a].size + HDR + c.hdrs[b].size]
  {
    var d, b := Join(c, a).hdrs, c.hdrs[a].next;
    JoinSame(c, a);
    LiveBut(c.hdrs, d, a, b);
    TwoBut(Live(c.hdrs), Live(d), a, b);
    SizesBut(c.hdrs, d, a, b, Cached);
    TwoBut(Sizes(c.hdrs, Cached), Sizes(d, Cached), a, b);
    SizesBut(c.hdrs, d, a, b, Free);
    TwoBut(Sizes(c.hdrs, Free), Sizes(d, Free), a, b);
  }

  // ---- what the operations do to neighbours ----

  lemma NullIsNoBlock(c: Chain)
    requires ChainOk(c)
    ensures 0 !in c.hdrs
  {
    assert 0 in c.hdrs ==> SizeOk(c, 0);
  }

  lemma SetStateApart(c: Chain, a: nat, state: BlockState)
    requires a in c.hdrs && NoAdjacent(c.hdrs, 0) && ChainOk(c)
    ensures NoAdjacent(SetState(c, a, state).hdrs, if state == Free then a else 0)
  {
    var d := SetState(c, a, state).hdrs;
    var but := if state == Free then a else 0;
    NullIsNoBlock(c);
    forall x {:trigger NotBothFree(d, x)} | x in d && x != but && d[x].next != but ensures NotBothFree(d, x) {
      assert c.hdrs[x].next != 0 ==> NotBothFree(c.hdrs, x);
    }
  }

  lemma SplitNeighbours(c: Chain, a: nat, size: nat)
    requires ChainOk(c) && NoAdjacent(c.hdrs, 0) && a in c.hdrs && size + HDR <= c.hdrs[a].size
    requires c.hdrs[a].state == Used
    requires c.hdrs[a].next in c.hdrs ==> c.hdrs[c.hdrs[a].next].state != Free
    ensures NoAdjacent(Split(c, a, size).hdrs, 0)
  {
    var d, t := Split(c, a, size).hdrs, a + HDR + size;
    SplitSame(c, a, size);
    NullIsNoBlock(c);
    assert NextOk(c, a) && SizeOk(c, a);
    forall x {:trigger NotBothFree(d, x)} | x in d && x != 0 && d[x].next != 0 ensures NotBothFree(d, x) {
      if x != t && x != a {
        assert NotBothFree(c.hdrs, x) && NextOk(c, x) && SizeOk(c, x);
      }
    }
  }

  /** The block after `a` is not free. */
  predicate AfterOk(hdrs: Hdrs, a: nat)
    requires a in hdrs
  {
    hdrs[a].next in hdrs ==> hdrs[hdrs[a].next].state != Free
  }

  /** Joining the freed block with the free block after it. */
  lemma JoinAfter(c: Chain, a: nat)
    requires ChainOk(c) && a in c.hdrs && NoAdjacent(c.hdrs, a) && c.hdrs[a].next != 0 && c.hdrs[a].next in c.hdrs
    requires c.hdrs[c.hdrs[a].next].state == Free
    ensures a in Join(c, a).hdrs && NoAdjacent(Join(c, a).hdrs, a) && AfterOk(Join(c, a).hdrs, a)
  {
    var d, b := Join(c, a).hdrs, c.hdrs[a].next;
    JoinSame(c, a);
    NextBlock(c, a);
    NullIsNoBlock(c);
    assert NextOk(c, b) && SizeOk(c, b);
    assert c.hdrs[b].next != 0 ==> NotBothFree(c.hdrs, b);
    forall x {:trigger NotBothFree(d, x)} | x in d && x != a && d[x].next != a ensures NotBothFree(d, x) {
      assert NextOk(c, x) && NotBothFree(c.hdrs, x);
    }
  }

  /** Joining the free block before with the freed block. */
  lemma JoinBefore(c: Chain, p: nat, a: nat)
    requires ChainOk(c) && p in c.hdrs && a in c.hdrs && c.hdrs[p].next == a && NoAdjacent(c.hdrs, a)
    requires AfterOk(c.hdrs, a)
    requires c.hdrs[p].state == Free && a != 0
    ensures p in Join(c, p).hdrs && NoAdjacent(Join(c, p).hdrs, 0)
  {
    var d := Join(c, p).hdrs;
    JoinSame(c, p);
    NextBlock(c, p);
    assert NextOk(c, a) && SizeOk(c, a);
    forall x {:trigger NotBothFree(d, x)} | x in d && x != 0 && d[x].next != 0 ensures NotBothFree(d, x) {
      assert NextOk(c, x) && PrevOk(c, a);
      if x != p { assert NotBothFree(c.hdrs, x); }
    }
  }

  /** Nothing to join: the freed block stands between blocks that are not free. */
  lemma NoJoin(c: Chain, a: nat)
    requires ChainOk(c) && a in c.hdrs && NoAdjacent(c.hdrs, a) && AfterOk(c.hdrs, a)
    requires c.hdrs[a].prev in c.hdrs ==> c.hdrs[c.hdrs[a].prev].state != Free
    ensures NoAdjacent(c.hdrs, 0)
  {
    forall x {:trigger NotBothFree(c.hdrs, x)} | x in c.hdrs && x != 0 && c.hdrs[x].next != 0
      ensures NotBothFree(c.hdrs, x)
    {
      assert NextOk(c, x);
    }
  }

  // ---- growing ----

  lemma OneBut<V>(m: map<nat, V>, n: map<nat, V>, a: nat)
    requires m - {a, a} == n - {a, a}
    ensures a !in m && a !in n ==> n == m
    ensures a in n ==> n == m[a := n[a]]
  {
    assert forall x :: x in m && x != a ==> x in n - {a, a} && (n - {a, a})[x] == n[x] && (m - {a, a})[x] == m[x];
    assert forall x :: x in n && x != a ==> x in m - {a, a};
  }

  lemma ExtendStates(c: Chain, need: nat, d: Hdrs)
    requires ChainOk(c) && c.tail in c.hdrs && c.hdrs[c.tail].state == Free && NoAdjacent(c.hdrs, 0)
    requires d == Extend(c, need).hdrs
    ensures NoAdjacent(d, 0) && Live(d) == Live(c.hdrs) && Sizes(d, Cached) == Sizes(c.hdrs, Cached)
    ensures Sizes(d, Free) == Sizes(c.hdrs, Free)[c.tail := c.hdrs[c.tail].size + need]
  {
    var a := c.tail;
    assert SameBut(c.hdrs, d, a, a);
    LiveBut(c.hdrs, d, a, a);
    SizesBut(c.hdrs, d, a, a, Cached);
    SizesBut(c.hdrs, d, a, a, Free);
    OneBut(Live(c.hdrs), Live(d), a);
    OneBut(Sizes(c.hdrs, Cached), Sizes(d, Cached), a);
    OneBut(Sizes(c.hdrs, Free), Sizes(d, Free), a);
    forall x {:trigger NotBothFree(d, x)} | x in d && x != 0 && d[x].next != 0 ensures NotBothFree(d, x) {
      assert NotBothFree(c.hdrs, x);
    }
  }

  lemma AppendNeighbours(c: Chain, need: nat)
    requires ChainOk(c) && need >= HDR && NoAdjacent(c.hdrs, 0) && (c.tail in c.hdrs ==> c.hdrs[c.tail].state != Free)
    ensures NoAdjacent(Append(c, need).hdrs, 0)
  {
    var d, a := Append(c, need).hdrs, c.brk;
    NullIsNoBlock(c);
    assert a in c.hdrs ==> SizeOk(c, a);
    forall x {:trigger NotBothFree(d, x)} | x in d && x != 0 && d[x].next != 0 ensures NotBothFree(d, x) {
      if x != a {
        assert NextOk(c, x) && SizeOk(c, x);
        if x != c.tail { assert NotBothFree(c.hdrs, x); }
      }
    }
  }

  lemma AppendStates(c: Chain, need: nat, d: Hdrs)
    requires ChainOk(c) && need >= HDR && NoAdjacent(c.hdrs, 0) && (c.tail in c.hdrs ==> c.hdrs[c.tail].state != Free)
    requires d == Append(c, need).hdrs
    ensures NoAdjacent(d, 0) && Live(d) == Live(c.hdrs) && Sizes(d, Cached) == Sizes(c.hdrs, Cached)
    ensures Sizes(d, Free) == Sizes(c.hdrs, Free)[c.brk := need - HDR] && c.brk !in c.hdrs
  {
    var a := c.brk;
    assert a in c.hdrs ==> SizeOk(c, a);
    assert SameBut(c.hdrs, d, a, a);
    LiveBut(c.hdrs, d, a, a);
    SizesBut(c.hdrs, d, a, a, Cached);
    SizesBut(c.hdrs, d, a, a, Free);
    OneBut(Live(c.hdrs), Live(d), a);
    OneBut(Sizes(c.hdrs, Cached), Sizes(d, Cached), a);
    OneBut(Sizes(c.hdrs, Free), Sizes(d, Free), a);
    AppendNeighbours(c, need);
  }
}
