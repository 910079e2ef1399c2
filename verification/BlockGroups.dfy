/**
 * Block groups of an ext2 volume: one bitmap and one free count per group, the free count of the
 * superblock, and the search hints. Device operations succeed.
 */
module BlockGroups {
  import opened Blocks

  /** The counts that shadow the bitmaps. `bpg` is blocks per group. */
  datatype Groups = Groups(bpg: nat, total: nat, bitmaps: seq<set<nat>>, free: seq<nat>, sbFree: nat)

  function GroupSize(bpg: nat, total: nat, groups: nat, g: nat): nat
    requires g < groups
  {
    if g < groups - 1 then bpg
    else if total > (groups - 1) * bpg then total - (groups - 1) * bpg
    else 0
  }

  /** Number of blocks of group `g` that exist. */
  function Size(v: Groups, g: nat): nat
    requires g < |v.bitmaps|
  {
    GroupSize(v.bpg, v.total, |v.bitmaps|, g)
  }

  ghost predicate GroupOk(v: Groups, g: nat)
    requires g < |v.bitmaps| == |v.free|
  {
    Size(v, g) <= v.bpg && v.bitmaps[g] <= Block(0, Size(v, g)) && v.free[g] == Size(v, g) - |v.bitmaps[g]|
  }

  function Sum(s: seq<nat>): nat {
    if s == [] then 0 else Sum(s[..|s| - 1]) + s[|s| - 1]
  }

  lemma {:induction false} SumUpdate(s: seq<nat>, i: nat, x: nat)
    requires i < |s|
    ensures Sum(s[i := x]) == Sum(s) - s[i] + x
    ensures s[i] <= Sum(s)
  {
    var last := |s| - 1;
    if i == last {
      assert s[i := x][..last] == s[..last];
    } else {
      SumUpdate(s[..last], i, x);
      assert s[i := x][..last] == s[..last][i := x];
    }
  }

  /** Each count is the number of clear bits it stands for, and block 0 is reserved. */
  ghost predicate GroupsOk(v: Groups) {
    && v.bpg > 0 && |v.bitmaps| == |v.free| > 0
    && (forall g :: 0 <= g < |v.bitmaps| ==> GroupOk(v, g))
    && v.sbFree == Sum(v.free)
    && 0 in v.bitmaps[0]
  }

  ghost predicate InUse(v: Groups, b: nat)
    requires v.bpg > 0
  {
    b / v.bpg < |v.bitmaps| && b % v.bpg in v.bitmaps[b / v.bpg]
  }

  /** The block numbers in use. */
  ghost function Used(v: Groups): set<nat>
    requires v.bpg > 0
  {
    set b: nat | b < |v.bitmaps| * v.bpg && InUse(v, b)
  }

  /** Block number of bit `i` of group `g`. */
  function Number(bpg: nat, g: nat, i: nat): nat {
    g * bpg + i
  }

  lemma NumberUnique(bpg: nat, g: nat, i: nat)
    requires i < bpg
    ensures (g * bpg + i) / bpg == g && (g * bpg + i) % bpg == i
  {
    ModUnique(g * bpg + i, bpg, g, i);
    var q := (g * bpg + i) / bpg;
    assert q * bpg == g * bpg;
    if q < g { MulAtLeast(bpg, g - q); }
    if g < q { MulAtLeast(bpg, q - g); }
  }

  lemma NumberBound(bpg: nat, groups: nat, b: nat)
    requires bpg > 0 && b / bpg < groups
    ensures b < groups * bpg
  {
    var g := b / bpg;
    assert b == g * bpg + b % bpg;
    MulAtLeast(bpg, groups - g);
    assert bpg * (groups - g) == groups * bpg - g * bpg;
  }

  lemma UsedIff(v: Groups, b: nat)
    requires v.bpg > 0
    ensures b in Used(v) <==> InUse(v, b)
  {
    if InUse(v, b) { NumberBound(v.bpg, |v.bitmaps|, b); }
  }

  /** A group has a zero count exactly when all its bits are set. */
  lemma FullGroup(v: Groups, g: nat)
    requires GroupsOk(v) && g < |v.bitmaps|
    ensures v.free[g] == 0 <==> v.bitmaps[g] == Block(0, Size(v, g))
  {
    assert GroupOk(v, g);
    BlockSize(0, Size(v, g));
    var rest := Block(0, Size(v, g)) - v.bitmaps[g];
    assert Block(0, Size(v, g)) == v.bitmaps[g] + rest;
  }

  /** Setting or clearing one bit with its counts. */
  function Flip(v: Groups, g: nat, i: nat, set_: bool): Groups
    requires g < |v.bitmaps| == |v.free| && (set_ ==> v.free[g] > 0 && v.sbFree > 0)
  {
    if set_ then v.(bitmaps := v.bitmaps[g := v.bitmaps[g] + {i}], free := v.free[g := v.free[g] - 1], sbFree := v.sbFree - 1)
    else v.(bitmaps := v.bitmaps[g := v.bitmaps[g] - {i}], free := v.free[g := v.free[g] + 1], sbFree := v.sbFree + 1)
  }

  lemma FlipCounts(v: Groups, g: nat, i: nat, set_: bool)
    requires GroupsOk(v) && g < |v.bitmaps| && i < Size(v, g) && (i in v.bitmaps[g] <==> !set_) && !(g == 0 && i == 0)
    requires set_ ==> v.free[g] > 0 && v.sbFree > 0
    ensures GroupsOk(Flip(v, g, i, set_))
  {
    var w := Flip(v, g, i, set_);
    SumUpdate(v.free, g, w.free[g]);
    assert GroupOk(v, g);
    assert Within(i, 0, Size(v, g));
    forall h | 0 <= h < |w.bitmaps| ensures GroupOk(w, h) { assert GroupOk(v, h); }
  }

  lemma NumberIs(bpg: nat, g: nat, i: nat, x: nat)
    requires i < bpg
    ensures x == g * bpg + i <==> x / bpg == g && x % bpg == i
  {
    NumberUnique(bpg, g, i);
    assert x == (x / bpg) * bpg + x % bpg;
  }

  lemma FlipPoint(v: Groups, g: nat, i: nat, set_: bool, x: nat)
    requires v.bpg > 0 && g < |v.bitmaps| == |v.free| && i < v.bpg && (set_ ==> v.free[g] > 0 && v.sbFree > 0)
    ensures x in Used(Flip(v, g, i, set_)) <==> (if x == g * v.bpg + i then set_ else x in Used(v))
  {
    NumberIs(v.bpg, g, i, x);
    UsedIff(v, x);
    UsedIff(Flip(v, g, i, set_), x);
  }

  lemma FlipUsed(v: Groups, g: nat, i: nat, set_: bool)
    requires v.bpg > 0 && g < |v.bitmaps| == |v.free| && i < v.bpg && (i in v.bitmaps[g] <==> !set_)
    requires !(g == 0 && i == 0)
    requires set_ ==> v.free[g] > 0 && v.sbFree > 0
    ensures var b := g * v.bpg + i; b != 0 && Used(Flip(v, g, i, set_)) == if set_ then Used(v) + {b} else Used(v) - {b}
    ensures (g * v.bpg + i in Used(v)) <==> !set_
  {
    var b := g * v.bpg + i;
    NumberUnique(v.bpg, g, i);
    UsedIff(v, b);
    forall x: nat ensures x in Used(Flip(v, g, i, set_)) <==> (if x == b then set_ else x in Used(v)) {
      FlipPoint(v, g, i, set_, x);
    }
    if g > 0 { MulAtLeast(v.bpg, g); }
  }

  lemma FlipKeeps(v: Groups, g: nat, i: nat, set_: bool)
    requires GroupsOk(v) && g < |v.bitmaps| && i < Size(v, g) && (i in v.bitmaps[g] <==> !set_) && !(g == 0 && i == 0)
    ensures set_ ==> v.free[g] > 0 && v.sbFree > 0
    ensures GroupsOk(Flip(v, g, i, set_))
    ensures var b := g * v.bpg + i; b != 0 && Used(Flip(v, g, i, set_)) == if set_ then Used(v) + {b} else Used(v) - {b}
    ensures (g * v.bpg + i in Used(v)) <==> !set_
  {
    assert GroupOk(v, g);
    SumUpdate(v.free, g, 0);
    FullGroup(v, g);
    assert i in Block(0, Size(v, g));
    FlipCounts(v, g, i, set_);
    FlipUsed(v, g, i, set_);
  }

  /** A clear bit was set with its counts: one more block in use. */
  lemma Taken(v: Groups, g: nat, i: nat, w: Groups)
    requires GroupsOk(v) && g < |v.bitmaps| && i < Size(v, g) && i !in v.bitmaps[g]
    requires w == v.(bitmaps := v.bitmaps[g := v.bitmaps[g] + {i}],
                     free := v.free[g := if v.free[g] > 0 then v.free[g] - 1
                                         else 0], sbFree := if v.sbFree > 0 then v.sbFree - 1 else 0)
    ensures GroupsOk(w) && v.free[g] > 0
    ensures var b := Number(v.bpg, g, i); b != 0 && b !in Used(v) && Used(w) == Used(v) + {b}
  {
    FlipKeeps(v, g, i, true);
  }

  /** The bit of a block in use was cleared with its counts. */
  lemma Returned(v: Groups, b: nat, w: Groups)
    requires GroupsOk(v) && b != 0 && b in Used(v)
    requires var g := b / v.bpg;
             g < |v.bitmaps|
             && w == v.(bitmaps := v.bitmaps[g := v.bitmaps[g] - {b % v.bpg}], free := v.free[g := v.free[g] + 1], sbFree := v.sbFree + 1)
    ensures GroupsOk(w) && Used(w) == Used(v) - {b}
  {
    UsedIff(v, b);
    var g := b / v.bpg;
    assert GroupOk(v, g) && b % v.bpg in Block(0, Size(v, g));
    NumberIs(v.bpg, g, b % v.bpg, b);
    FlipKeeps(v, g, b % v.bpg, false);
  }

  /** `free_block` on any number: exactly that of a block in use keeps the counts right. */
  lemma Cleared(v: Groups, b: nat, w: Groups)
    requires GroupsOk(v) && b != 0 && b / v.bpg < |v.bitmaps|
    requires var g := b / v.bpg;
             w == v.(bitmaps := v.bitmaps[g := v.bitmaps[g] - {b % v.bpg}], free := v.free[g := v.free[g] + 1], sbFree := v.sbFree + 1)
    ensures if b in Used(v) then GroupsOk(w) && Used(w) == Used(v) - {b} else !GroupsOk(w) && w.bitmaps == v.bitmaps
  {
    UsedIff(v, b);
    var g := b / v.bpg;
    if b in Used(v) {
      Returned(v, b, w);
    } else {
      assert w.bitmaps[g] == v.bitmaps[g] && GroupOk(v, g);
      assert !GroupOk(w, g);
    }
  }

  /** The blocks in use determine the bitmaps and every count. */
  lemma UsedDetermines(v: Groups, w: Groups)
    requires GroupsOk(v) && GroupsOk(w) && v.bpg == w.bpg && v.total == w.total && |v.bitmaps| == |w.bitmaps|
    requires Used(v) == Used(w)
    ensures v == w
  {
    forall g | 0 <= g < |v.bitmaps| ensures v.bitmaps[g] == w.bitmaps[g] && v.free[g] == w.free[g] {
      assert GroupOk(v, g) && GroupOk(w, g);
      forall i: nat ensures i in v.bitmaps[g] <==> i in w.bitmaps[g] {
        if i < v.bpg {
          NumberUnique(v.bpg, g, i);
          UsedIff(v, Number(v.bpg, g, i));
          UsedIff(w, Number(v.bpg, g, i));
        }
      }
    }
    assert v.bitmaps == w.bitmaps && v.free == w.free;
  }

  // ---- conservation ----

  /** Blocks in use in the first `k` groups. */
  ghost function UsedIn(v: Groups, k: nat): set<nat>
    requires v.bpg > 0
  {
    set b: nat | b < k * v.bpg && InUse(v, b)
  }

  ghost function Shifted(s: set<nat>, off: nat): set<nat> {
    set i | i in s :: off + i
  }

  lemma {:induction false} ShiftedSize(s: set<nat>, off: nat)
    ensures |Shifted(s, off)| == |s|
  {
    if s != {} {
      var x :| x in s;
      ShiftedSize(s - {x}, off);
      forall y | y in Shifted(s, off) ensures y in Shifted(s - {x}, off) + {off + x} {
        var i :| i in s && y == off + i;
        assert i != x ==> i in s - {x};
      }
      assert Shifted(s, off) == Shifted(s - {x}, off) + {off + x};
    }
  }

  /** All blocks of the first `k` groups. */
  function Sizes(bpg: nat, total: nat, groups: nat, k: nat): nat
    requires k <= groups
  {
    if k == 0 then 0 else Sizes(bpg, total, groups, k - 1) + GroupSize(bpg, total, groups, k - 1)
  }

  lemma UsedInNext(v: Groups, k: nat)
    requires GroupsOk(v) && k < |v.bitmaps|
    ensures UsedIn(v, k + 1) == UsedIn(v, k) + Shifted(v.bitmaps[k], k * v.bpg)
    ensures UsedIn(v, k) !! Shifted(v.bitmaps[k], k * v.bpg)
  {
    assert GroupOk(v, k);
    forall b: nat ensures b in UsedIn(v, k + 1) <==> b in UsedIn(v, k) || b in Shifted(v.bitmaps[k], k * v.bpg) {
      assert (k + 1) * v.bpg == k * v.bpg + v.bpg;
      if k * v.bpg <= b < k * v.bpg + v.bpg { NumberIs(v.bpg, k, b - k * v.bpg, b); }
    }
  }

  lemma UsedInStep(v: Groups, k: nat)
    requires GroupsOk(v) && k < |v.bitmaps|
    ensures |UsedIn(v, k + 1)| == |UsedIn(v, k)| + |v.bitmaps[k]|
  {
    var below, here := UsedIn(v, k), Shifted(v.bitmaps[k], k * v.bpg);
    UsedInNext(v, k);
    ShiftedSize(v.bitmaps[k], k * v.bpg);
    assert |below + here| == |below| + |here|;
  }

  lemma {:induction false} UsedInCount(v: Groups, k: nat)
    requires GroupsOk(v) && k <= |v.bitmaps|
    ensures |UsedIn(v, k)| + Sum(v.free[..k]) == Sizes(v.bpg, v.total, |v.bitmaps|, k)
  {
    if k == 0 {
      assert UsedIn(v, 0) == {};
    } else {
      UsedInCount(v, k - 1);
      UsedInStep(v, k - 1);
      assert GroupOk(v, k - 1);
      assert v.free[..k][..k - 1] == v.free[..k - 1];
    }
  }

  /** Blocks in use and the superblock's free count always add up to the blocks of the volume. */
  lemma UsedCount(v: Groups)
    requires GroupsOk(v)
    ensures |Used(v)| + v.sbFree == Sizes(v.bpg, v.total, |v.bitmaps|, |v.bitmaps|)
  {
    UsedInCount(v, |v.bitmaps|);
    assert v.free[..|v.bitmaps|] == v.free;
    assert Used(v) == UsedIn(v, |v.bitmaps|);
  }
}
