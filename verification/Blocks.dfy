/** Runs of consecutive frames, and the powers of two that size and align them. */
module Blocks {

  predicate Within(i: nat, p: nat, n: nat) {
    p <= i < p + n
  }

  /** The positions p, p + 1, ..., p + n - 1. */
  function Block(p: nat, n: nat): set<nat> {
    set i: nat | p <= i < p + n && Within(i, p, n)
  }

  lemma {:induction false} BlockSize(p: nat, n: nat)
    ensures |Block(p, n)| == n
  {
    if n > 0 {
      BlockSize(p, n - 1);
      assert Block(p, n) == Block(p, n - 1) + {p + n - 1};
    }
  }

  /** 2^order, up to the order of a tree. */
  function Pow2(order: nat): (n: nat)
    requires order <= 12
    ensures n > 0
  {
    match order
    case 0 => 1
    case 1 => 2
    case 2 => 4
    case 3 => 8
    case 4 => 16
    case 5 => 32
    case 6 => 64
    case 7 => 128
    case 8 => 256
    case 9 => 512
    case 10 => 1024
    case 11 => 2048
    case _ => 4096
  }

  predicate Aligned(p: nat, order: nat)
    requires order <= 12
  {
    p % Pow2(order) == 0
  }

  lemma {:induction false} MulAtLeast(n: int, d: int)
    requires 0 < n && 1 <= d
    ensures n <= n * d
    decreases d
  {}

  lemma ModUnique(x: int, n: int, q: int, r: int)
    requires 0 <= r < n && x == n * q + r
    ensures x % n == r
  {
    var k, m := x / n, x % n;
    assert n * k + m == n * q + r;
    if k < q {
      assert n * (q - k) == n * q - n * k;
      MulAtLeast(n, q - k);
    } else if q < k {
      assert n * (k - q) == n * k - n * q;
      MulAtLeast(n, k - q);
    }
  }

  /** Reducing by a multiple first does not change the remainder. */
  lemma ModOfMod(x: nat, n: nat, m: nat)
    requires n > 0 && m > 0
    ensures n * m > 0 && (x % (n * m)) % n == x % n
  {
    var big := n * m;
    assert big > 0;
    var a, b := x / big, x % big;
    assert x == big * a + b && big * a == n * (m * a);
    assert b == n * (b / n) + b % n;
    assert n * (m * a) + n * (b / n) == n * (m * a + b / n);
    ModUnique(x, n, m * a + b / n, b % n);
  }

  lemma MultipleAligned(n: nat, m: nat, r: nat)
    requires n > 0
    ensures (n * m * r) % n == 0
  {
    assert n * m * r == n * (m * r);
    ModUnique(n * m * r, n, m * r, 0);
  }

  lemma Divisors(order: nat)
    requires order <= 9
    ensures Pow2(order) * Pow2(9 - order) == 512
    ensures order <= 6 ==> Pow2(order) * Pow2(6 - order) == 64
  {}

  /** Aligned positions are a whole number of blocks apart. */
  lemma NextAligned(p: nat, q: nat, n: nat)
    requires n > 0 && p % n == 0
    ensures (p + n) % n == 0
    ensures q % n == 0 && p < q ==> p + n <= q
  {
    assert p == n * (p / n);
    ModUnique(p + n, n, p / n + 1, 0);
    if q % n == 0 && p < q < p + n {
      ModUnique(q, n, p / n, q - p);
    }
  }

  /** An aligned block of at most a child lies inside one child, at an aligned offset. */
  lemma AlignedInChild(frame: nat, order: nat)
    requires order <= 9
    ensures Aligned(frame, order) <==> Aligned(frame % 512, order)
    ensures Aligned(frame, order) ==> frame % 512 + Pow2(order) <= 512
  {
    Divisors(order);
    ModOfMod(frame, Pow2(order), Pow2(9 - order));
    if Aligned(frame, order) {
      var n := Pow2(order);
      ModUnique(512, n, Pow2(9 - order), 0);
      NextAligned(frame % 512, 512, n);
    }
  }

  /** An aligned block of at most a row lies inside one row. */
  lemma AlignedInRow(p: nat, order: nat)
    requires order <= 6
    ensures Aligned(p, order) <==> Aligned(p % 64, order)
    ensures Aligned(p, order) ==> p % 64 + Pow2(order) <= 64
  {
    Divisors(order);
    ModOfMod(p, Pow2(order), Pow2(6 - order));
    if Aligned(p, order) {
      var n := Pow2(order);
      ModUnique(64, n, Pow2(6 - order), 0);
      NextAligned(p % 64, 64, n);
    }
  }

  lemma RemoveBlock(s: set<nat>, p: nat, n: nat)
    requires Block(p, n) <= s
    ensures |s - Block(p, n)| == |s| - n
  {
    BlockSize(p, n);
    assert s == (s - Block(p, n)) + Block(p, n);
  }

  lemma AddBlock(s: set<nat>, p: nat, n: nat)
    requires Block(p, n) !! s
    ensures |s + Block(p, n)| == |s| + n
  {
    BlockSize(p, n);
  }

  lemma SplitBlock(p: nat, a: nat, b: nat)
    ensures Block(p, a + b) == Block(p, a) + Block(p + a, b)
    ensures Block(p, a) !! Block(p + a, b)
  {}

  /** Steps from `start` to `r` going up and wrapping around at `len` (the order of `for_offsetted`). */
  function Distance(start: nat, r: nat, len: nat): nat
    requires start < len && r < len
  {
    if r >= start then r - start else r + len - start
  }

  /** The element visited by step `i` of a wrapping loop. */
  function Offsetted(start: nat, i: nat, len: nat): (r: nat)
    requires start < len && i < len
    ensures r < len && Distance(start, r, len) == i
  {
    if start + i < len then start + i else start + i - len
  }

  /** ... which is how the source computes it. */
  lemma OffsettedMod(start: nat, i: nat, len: nat)
    requires start < len && i < len
    ensures Offsetted(start, i, len) == (start + i) % len
  {}
}
