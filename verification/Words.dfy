/**
 * 64-bit words, their bits, and the aligned blocks of 2^order bits inside them.
 *
 * Positions inside a word are 7-bit vectors (0..64) so that facts about shifts and masks are
 * pure bit-vector facts; module `Rows` translates them to sets of ordinary integers.
 */
module Words {
  import opened Blocks

  const ALL_ONES: bv64 := 0xFFFF_FFFF_FFFF_FFFF

  /** Bit `i` of `v`, counted from the least significant end. */
  predicate Bit(v: bv64, i: bv7)
    requires i < 64
  {
    (v >> i) & 1 == 1
  }

  /** The aligned block of `w` bits at `q`, selected by the mask `low`, holds no set bit of `v`. */
  predicate FreeAt(v: bv64, low: bv64, w: bv7, q: bv7) {
    q < 64 && q & (w - 1) == 0 && v & (low << q) == 0
  }

  /** `p` is the lowest free block, or 64 when there is none. */
  ghost predicate LowestFree(v: bv64, low: bv64, w: bv7, p: bv7) {
    && p <= 64
    && (p < 64 ==> FreeAt(v, low, w, p))
    && forall q: bv7 :: FreeAt(v, low, w, q) ==> p <= q
  }

  /** The same without masks: the aligned block of `w` bits at `q` has no set bit ... */
  ghost predicate ClearAt(v: bv64, w: bv7, q: bv7) {
    q < 64 && q & (w - 1) == 0 && forall i: bv7 :: q <= i <= q + (w - 1) && i < 64 ==> !Bit(v, i)
  }

  ghost predicate LowestClear(v: bv64, w: bv7, p: bv7) {
    && p <= 64
    && (p < 64 ==> ClearAt(v, w, p))
    && forall q: bv7 :: ClearAt(v, w, q) ==> p <= q
  }

  /** ... and `r` is `v` with the `w` bits at `p` set, if `p` is a position at all. */
  ghost predicate Filled(v: bv64, w: bv7, p: bv7, r: bv64) {
    forall i: bv7 :: i < 64 ==> (Bit(r, i) <==> Bit(v, i) || (p < 64 && p <= i <= p + (w - 1)))
  }

  /** `p` is the index of the lowest set bit of `v`. */
  predicate LowestBit(v: bv64, p: bv7) {
    p < 64 && Bit(v, p) && v & ((1 as bv64 << p) - 1) == 0
  }

  /** `trailing_zeros`: the index of the lowest set bit, 64 for zero. */
  method TrailingZeros(v: bv64) returns (p: bv7)
    ensures if v == 0 then p == 64 else LowestBit(v, p)
  {
    if v == 0 { return 64; }
    var x := v;
    p := 0;
    if x & 0xFFFF_FFFF == 0 { x, p := x >> 32, p + 32; }
    if x & 0xFFFF == 0 { x, p := x >> 16, p + 16; }
    if x & 0xFF == 0 { x, p := x >> 8, p + 8; }
    if x & 0xF == 0 { x, p := x >> 4, p + 4; }
    if x & 0x3 == 0 { x, p := x >> 2, p + 2; }
    if x & 0x1 == 0 { p := p + 1; }
  }

  // ---- bitwise operators, bit by bit ----

  lemma BitOr(v: bv64, w: bv64, i: bv7)
    requires i < 64
    ensures Bit(v | w, i) == (Bit(v, i) || Bit(w, i))
  {}

  lemma BitAnd(v: bv64, w: bv64, i: bv7)
    requires i < 64
    ensures Bit(v & w, i) == (Bit(v, i) && Bit(w, i))
  {}

  /** `low` holds the lowest `w` bits. */
  predicate MaskPair(low: bv64, w: bv7) {
    || (w == 1 && low == 0x1)
    || (w == 2 && low == 0x3)
    || (w == 4 && low == 0xF)
    || (w == 8 && low == 0xFF)
    || (w == 16 && low == 0xFFFF)
    || (w == 32 && low == 0xFFFF_FFFF)
    || (w == 64 && low == ALL_ONES)
  }

  lemma BitMask(low: bv64, w: bv7, p: bv7, i: bv7)
    requires MaskPair(low, w) && p < 64 && p & (w - 1) == 0 && i < 64
    ensures Bit(low << p, i) == (p <= i <= p + (w - 1))
  {
    if w == 1 {} else if w == 2 {} else if w == 4 {} else if w == 8 {} else if w == 16 {} else {}
  }

  /** Setting the block at `p` sets its bits and no others. */
  lemma OrBlockBit(v: bv64, low: bv64, w: bv7, p: bv7, i: bv7)
    requires MaskPair(low, w) && p < 64 && p & (w - 1) == 0 && i < 64
    ensures Bit(v | (low << p), i) == (Bit(v, i) || p <= i <= p + (w - 1))
  {
    BitMask(low, w, p, i);
    BitOr(v, low << p, i);
  }

  lemma FindBit(v: bv64) returns (p: bv7)
    requires v != 0
    ensures p < 64 && Bit(v, p)
  {
    var x := v;
    p := 0;
    if x & 0xFFFF_FFFF == 0 { x, p := x >> 32, p + 32; }
    if x & 0xFFFF == 0 { x, p := x >> 16, p + 16; }
    if x & 0xFF == 0 { x, p := x >> 8, p + 8; }
    if x & 0xF == 0 { x, p := x >> 4, p + 4; }
    if x & 0x3 == 0 { x, p := x >> 2, p + 2; }
    if x & 0x1 == 0 { p := p + 1; }
  }

  /** An aligned block that is not free has a set bit. */
  lemma UsedBlockBit(v: bv64, low: bv64, w: bv7, p: bv7) returns (i: bv7)
    requires MaskPair(low, w) && p < 64 && p & (w - 1) == 0 && v & (low << p) != 0
    ensures i < 64 && Bit(v, i) && p <= i <= p + (w - 1)
  {
    i := FindBit(v & (low << p));
    BitAnd(v, low << p, i);
    BitMask(low, w, p, i);
  }

  /** Masks and bits say the same. */
  lemma FreeIsClear(v: bv64, low: bv64, w: bv7, q: bv7)
    requires MaskPair(low, w) && FreeAt(v, low, w, q)
    ensures ClearAt(v, w, q)
  {}

  lemma UsedIsNotClear(v: bv64, low: bv64, w: bv7, q: bv7)
    requires MaskPair(low, w) && q < 64 && q & (w - 1) == 0 && v & (low << q) != 0
    ensures !ClearAt(v, w, q)
  {
    var i := UsedBlockBit(v, low, w, q);
  }

  lemma LowestInBits(v: bv64, low: bv64, w: bv7, p: bv7)
    requires MaskPair(low, w) && LowestFree(v, low, w, p)
    ensures LowestClear(v, w, p)
  {
    if p < 64 { FreeIsClear(v, low, w, p); }
    forall q: bv7 | ClearAt(v, w, q) ensures p <= q {
      if v & (low << q) != 0 { UsedIsNotClear(v, low, w, q); }
      assert FreeAt(v, low, w, q);
    }
  }

  lemma FilledInBits(v: bv64, low: bv64, w: bv7, p: bv7, r: bv64)
    requires MaskPair(low, w) && LowestFree(v, low, w, p)
    requires r == if p < 64 then v | (low << p) else v
    ensures Filled(v, w, p, r)
  {
    if p < 64 {
      forall i: bv7 | i < 64 ensures Bit(r, i) <==> Bit(v, i) || p <= i <= p + (w - 1) { OrBlockBit(v, low, w, p, i); }
    }
  }

  // ---- the searches ----

  /** The candidate words of the search for one, two, four, eight and sixteen zero bits. */
  function Candidates1(v: bv64): bv64 { !v }
  function Candidates2(v: bv64): bv64 { !((v | (v >> 1)) | 0xaaaa_aaaa_aaaa_aaaa) }
  function Candidates4(v: bv64): bv64 { (((v - 0x1111_1111_1111_1111) & !v) >> 3) & 0x1111_1111_1111_1111 }
  function Candidates8(v: bv64): bv64 { (((v - 0x0101_0101_0101_0101) & !v) >> 7) & 0x0101_0101_0101_0101 }
  function Candidates16(v: bv64): bv64 { (((v - 0x0001_0001_0001_0001) & !v) >> 15) & 0x0001_0001_0001_0001 }

  /** `m` is the candidate word of the search for blocks of `w` bits. */
  predicate CandidateWord(v: bv64, m: bv64, low: bv64, w: bv7) {
    || (m == Candidates1(v) && low == 0x1 && w == 1)
    || (m == Candidates2(v) && low == 0x3 && w == 2)
    || (m == Candidates4(v) && low == 0xF && w == 4)
    || (m == Candidates8(v) && low == 0xFF && w == 8)
    || (m == Candidates16(v) && low == 0xFFFF && w == 16)
  }

  // A free block is always a candidate, whatever is borrowed from the blocks below it; and only
  // a free block borrows from the block above it, so the lowest candidate is free.

  lemma Free1(v: bv64, q: bv7)
    ensures FreeAt(v, 0x1, 1, q) ==> Bit(Candidates1(v), q)
    ensures LowestBit(Candidates1(v), q) ==> FreeAt(v, 0x1, 1, q)
  {}

  lemma Free2(v: bv64, q: bv7)
    ensures FreeAt(v, 0x3, 2, q) ==> Bit(Candidates2(v), q)
    ensures LowestBit(Candidates2(v), q) ==> FreeAt(v, 0x3, 2, q)
  {}

  lemma Free4(v: bv64, q: bv7)
    ensures FreeAt(v, 0xF, 4, q) ==> Bit(Candidates4(v), q)
    ensures LowestBit(Candidates4(v), q) ==> FreeAt(v, 0xF, 4, q)
  {}

  lemma Free8(v: bv64, q: bv7)
    ensures FreeAt(v, 0xFF, 8, q) ==> Bit(Candidates8(v), q)
    ensures LowestBit(Candidates8(v), q) ==> FreeAt(v, 0xFF, 8, q)
  {}

  lemma Free16(v: bv64, q: bv7)
    ensures FreeAt(v, 0xFFFF, 16, q) ==> Bit(Candidates16(v), q)
    ensures LowestBit(Candidates16(v), q) ==> FreeAt(v, 0xFFFF, 16, q)
  {}

  /** No free block is missed, and the lowest candidate is no false one. */
  lemma FreeCandidates(v: bv64, m: bv64, low: bv64, w: bv7, q: bv7)
    requires CandidateWord(v, m, low, w)
    ensures FreeAt(v, low, w, q) ==> Bit(m, q)
    ensures LowestBit(m, q) ==> FreeAt(v, low, w, q)
  {
    Free1(v, q); Free2(v, q); Free4(v, q); Free8(v, q); Free16(v, q);
  }

  lemma LowestCandidate(v: bv64, m: bv64, low: bv64, w: bv7, p: bv7)
    requires if m == 0 then p == 64 else LowestBit(m, p) && FreeAt(v, low, w, p)
    requires forall q: bv7 :: FreeAt(v, low, w, q) ==> Bit(m, q)
    ensures LowestFree(v, low, w, p)
  {}

  lemma Search(v: bv64, m: bv64, low: bv64, w: bv7, p: bv7)
    requires CandidateWord(v, m, low, w)
    requires if m == 0 then p == 64 else LowestBit(m, p)
    ensures LowestFree(v, low, w, p)
  {
    forall q: bv7 ensures FreeAt(v, low, w, q) ==> Bit(m, q) { FreeCandidates(v, m, low, w, q); }
    if m != 0 { FreeCandidates(v, m, low, w, p); }
    LowestCandidate(v, m, low, w, p);
  }

  method SetLowest(v: bv64, m: bv64, low: bv64, w: bv7) returns (r: bv64, pos: bv7)
    requires CandidateWord(v, m, low, w) && MaskPair(low, w)
    ensures LowestClear(v, w, pos) && Filled(v, w, pos, r)
  {
    pos := TrailingZeros(m);
    Search(v, m, low, w, pos);
    r := v;
    if pos < 64 { r := r | (low << pos); }
    LowestInBits(v, low, w, pos);
    FilledInBits(v, low, w, pos, r);
  }

  lemma FreeHalves(v: bv64, q: bv7)
    ensures FreeAt(v, 0xFFFF_FFFF, 32, q) <==> (q == 0 && v & 0xFFFF_FFFF == 0) || (q == 32 && v >> 32 == 0)
  {}

  method SetHalf(v: bv64) returns (r: bv64, pos: bv7)
    ensures LowestClear(v, 32, pos) && Filled(v, 32, pos, r)
  {
    forall q: bv7
      ensures FreeAt(v, 0xFFFF_FFFF, 32, q) <==> (q == 0 && v & 0xFFFF_FFFF == 0) || (q == 32 && v >> 32 == 0)
    {
      FreeHalves(v, q);
    }
    r, pos := v, 64;
    if v & 0xFFFF_FFFF == 0 {
      r, pos := r | 0xFFFF_FFFF, 0;
    } else if v >> 32 == 0 {
      r, pos := r | (0xFFFF_FFFF << 32), 32;
    }
    LowestInBits(v, 0xFFFF_FFFF, 32, pos);
    FilledInBits(v, 0xFFFF_FFFF, 32, pos, r);
  }

  method SetWhole(v: bv64) returns (r: bv64, pos: bv7)
    ensures LowestClear(v, 64, pos) && Filled(v, 64, pos, r)
  {
    r, pos := v, 64;
    if v == 0 { r, pos := ALL_ONES, 0; }
    LowestInBits(v, ALL_ONES, 64, pos);
    FilledInBits(v, ALL_ONES, 64, pos, r);
  }

  predicate IsWidth(w: bv7) {
    w == 1 || w == 2 || w == 4 || w == 8 || w == 16 || w == 32 || w == 64
  }

  /** Sets the lowest aligned block of `w` = 2^order zero bits of a row and reports where it is. */
  method FirstZerosAligned(v: bv64, order: nat) returns (found: bool, r: bv64, pos: bv7, ghost w: bv7)
    requires order <= 6
    ensures IsWidth(w) && w as nat == Pow2(order)
    ensures LowestClear(v, w, pos) && Filled(v, w, pos, r) && found == (pos < 64)
  {
    match order {
      case 0 => w := 1; r, pos := SetLowest(v, Candidates1(v), 0x1, 1);
      case 1 => w := 2; r, pos := SetLowest(v, Candidates2(v), 0x3, 2);
      case 2 => w := 4; r, pos := SetLowest(v, Candidates4(v), 0xF, 4);
      case 3 => w := 8; r, pos := SetLowest(v, Candidates8(v), 0xFF, 8);
      case 4 => w := 16; r, pos := SetLowest(v, Candidates16(v), 0xFFFF, 16);
      case 5 => w := 32; r, pos := SetHalf(v);
      case _ => w := 64; r, pos := SetWhole(v);
    }
    found := pos < 64;
  }
}
