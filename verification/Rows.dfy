/**
 * One row of a bitfield: the 64-bit word holding bits 64r .. 64r + 63 of a set of positions, and what the
 * word search of module `Words` means for that set.
 */
module Rows {
  import opened Blocks
  import opened Words

  /** Position `p` of row `r` in the whole field. */
  function Place(r: nat, p: bv7): nat {
    64 * r + p as nat
  }

  /** `v` holds the bits of row `r` below position `k`. */
  ghost predicate HoldsBelow(field: set<nat>, r: nat, k: bv7, v: bv64) {
    forall p: bv7 :: p < 64 ==> (Bit(v, p) <==> p < k && Place(r, p) in field)
  }

  /** `v` is the word of row `r`. */
  ghost predicate IsRow(field: set<nat>, r: nat, v: bv64) {
    forall p: bv7 :: p < 64 ==> (Bit(v, p) <==> Place(r, p) in field)
  }

  lemma OneMoreBit(w: bv64, k: bv7, p: bv7)
    requires k < 64 && p < 64
    ensures Bit(w | (1 << k), p) <==> Bit(w, p) || p == k
  {}

  lemma Successor(p: bv7, k: bv7)
    requires k < 64
    ensures p < k + 1 <==> p < k || p == k
  {}

  lemma NextWord(field: set<nat>, r: nat, k: bv7, v: bv64, v': bv64)
    requires k < 64 && HoldsBelow(field, r, k, v)
    requires forall p: bv7 :: p < 64 ==> (Bit(v', p) <==> Bit(v, p) || (p == k && Place(r, k) in field))
    ensures HoldsBelow(field, r, k + 1, v')
  {
    forall p: bv7 | p < 64 ensures Bit(v', p) <==> p < k + 1 && Place(r, p) in field { Successor(p, k); }
  }

  method AddBit(v: bv64, k: bv7, isSet: bool) returns (v': bv64)
    requires k < 64
    ensures forall p: bv7 :: p < 64 ==> (Bit(v', p) <==> Bit(v, p) || (p == k && isSet))
  {
    v' := v;
    if isSet {
      v' := v | (1 << k);
      forall p: bv7 | p < 64 ensures Bit(v', p) <==> Bit(v, p) || p == k { OneMoreBit(v, k, p); }
    }
  }

  /** Loads the word of row `r`. */
  method LoadRow(field: set<nat>, r: nat) returns (v: bv64)
    ensures IsRow(field, r, v)
  {
    v := 0;
    var k: bv7 := 0;
    while k < 64
      invariant k <= 64 && HoldsBelow(field, r, k, v)
      decreases 64 - k as nat
    {
      var w := v;
      v := AddBit(w, k, Place(r, k) in field);
      NextWord(field, r, k, w, v);
      k := k + 1;
    }
  }

  lemma PlaceOrder(r: nat, p: bv7, q: bv7)
    ensures Place(r, p) <= Place(r, q) <==> p <= q
  {}

  /** Every position of the row is a place. */
  lemma PlaceOf(r: nat, i: nat)
    requires 64 * r <= i < 64 * r + 64
    ensures var p := (i - 64 * r) as bv7; p < 64 && Place(r, p) == i
  {}

  lemma BlockEnd(w: bv7, p: bv7)
    requires IsWidth(w) && p < 64 && p & (w - 1) == 0
    ensures p + (w - 1) < 64 && (p + (w - 1)) as nat == p as nat + w as nat - 1
  {}

  lemma MaskAligned(w: bv7, p: bv7)
    requires IsWidth(w) && p < 64
    ensures p & (w - 1) == 0 <==> p as nat % w as nat == 0
  {}

  lemma PlaceMod(r: nat, p: bv7)
    requires p < 64
    ensures Place(r, p) % 64 == p as nat
  {}

  lemma PlaceAligned(r: nat, order: nat, w: bv7, p: bv7)
    requires order <= 6 && IsWidth(w) && w as nat == Pow2(order) && p < 64
    ensures Aligned(Place(r, p), order) <==> p & (w - 1) == 0
    ensures Aligned(Place(r, p), order) ==> Place(r, p) + Pow2(order) <= 64 * r + 64
  {
    MaskAligned(w, p);
    AlignedInRow(Place(r, p), order);
    PlaceMod(r, p);
  }

  lemma PlaceInBlock(r: nat, w: bv7, p: bv7, k: bv7)
    requires IsWidth(w) && p < 64 && p & (w - 1) == 0
    ensures Place(r, k) in Block(Place(r, p), w as nat) <==> p <= k <= p + (w - 1)
  {
    BlockEnd(w, p);
    PlaceOrder(r, p, k);
    PlaceOrder(r, k, p + (w - 1));
  }

  lemma BlockInRow(r: nat, w: bv7, p: bv7, i: nat)
    requires IsWidth(w) && p < 64 && p & (w - 1) == 0 && i in Block(Place(r, p), w as nat)
    ensures 64 * r <= i < 64 * r + 64
  {}

  lemma ClearPlace(field: set<nat>, r: nat, v: bv64, w: bv7, p: bv7, i: nat)
    requires IsRow(field, r, v) && IsWidth(w) && ClearAt(v, w, p) && i in Block(Place(r, p), w as nat)
    ensures i !in field
  {
    BlockInRow(r, w, p, i);
    PlaceOf(r, i);
    PlaceInBlock(r, w, p, (i - 64 * r) as bv7);
  }

  /** The word is clear on a block exactly when the set is. */
  lemma ClearInSet(field: set<nat>, r: nat, v: bv64, w: bv7, p: bv7)
    requires IsRow(field, r, v) && IsWidth(w) && p < 64 && p & (w - 1) == 0
    ensures ClearAt(v, w, p) <==> Block(Place(r, p), w as nat) !! field
  {
    if ClearAt(v, w, p) {
      forall i | i in Block(Place(r, p), w as nat) ensures i !in field { ClearPlace(field, r, v, w, p, i); }
    } else {
      var k: bv7 :| p <= k <= p + (w - 1) && k < 64 && Bit(v, k);
      PlaceInBlock(r, w, p, k);
    }
  }

  /** Filling a block of the word adds the block to the set and nothing else. */
  lemma FilledInSet(field: set<nat>, r: nat, v: bv64, w: bv7, p: bv7, v': bv64)
    requires IsRow(field, r, v) && IsWidth(w) && p < 64 && p & (w - 1) == 0 && Filled(v, w, p, v')
    ensures IsRow(field + Block(Place(r, p), w as nat), r, v')
  {
    var field' := field + Block(Place(r, p), w as nat);
    forall q: bv7 | q < 64 ensures Bit(v', q) <==> Place(r, q) in field' { PlaceInBlock(r, w, p, q); }
  }
}
