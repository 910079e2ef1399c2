/**
 * The lower allocator: per child a free counter, a huge flag and a 512-bit field.
 *
 * The abstract state is the plain set of free frames.
 */
module LowerAllocator {
  import opened Blocks
  import opened Bitfield

  const CHILD_SIZE := 512

  const TREE_CHILDREN := 8

  const TREE_SIZE := 4096

  const HUGE_ORDER := 9

  datatype Child = Child(free: nat, huge: bool)

  const FREE_CHILD := Child(CHILD_SIZE, false)

  const HUGE_CHILD := Child(0, true)

  datatype Result = Ok(frame: nat) | OutOfMemory | BadArgument

  // ---- children ----

  /** `child_inc`: fails on a huge child or when the counter would exceed the child. */
  function ChildInc(c: Child, order: nat): (r: (bool, Child))
    requires order <= 9
  {
    if c.huge || c.free + Pow2(order) > CHILD_SIZE then (false, c) else (true, c.(free := c.free + Pow2(order)))
  }

  function ChildDec(c: Child, order: nat): (r: (bool, Child))
    requires order <= 9
  {
    if !c.huge && c.free >= Pow2(order) then (true, c.(free := c.free - Pow2(order))) else (false, c)
  }

  // ---- several children at once (orders above 9) ----

  predicate AllAre(children: seq<Child>, base: nat, n: nat, c: Child)
    requires base + n <= |children|
  {
    forall k :: base <= k < base + n ==> children[k] == c
  }

  ghost predicate Replaced(children: seq<Child>, children': seq<Child>, base: nat, n: nat, c: Child)
    requires base + n <= |children|
  {
    |children'| == |children| && forall k :: 0 <= k < |children| ==> children'[k] == if base <= k < base + n then c
                                                                                     else children[k]
  }

  /** The children after `k` turns of the undo loop that follows a failure on child `base + j`. */
  ghost predicate Undone(children: seq<Child>, children': seq<Child>, base: nat, j: nat, k: nat, expected: Child,
                         desired: Child) {
    |children'| == |children| && forall i :: 0 <= i < |children| ==>
      children'[i] == if base <= i < base + j && i + k <= base + j then desired
                      else if k > 0 && i == base + j && children[i] == desired then expected
                      else children[i]
  }

  /** How many children from `base` on are `c`. */
  function FirstNot(children: seq<Child>, base: nat, n: nat, c: Child): (j: nat)
    requires base + n <= |children|
    ensures j <= n && AllAre(children, base, j, c) && (j < n ==> children[base + j] != c)
    decreases n
  {
    if n == 0 || children[base] != c then 0 else 1 + FirstNot(children, base + 1, n - 1, c)
  }

  lemma FirstNotIs(children: seq<Child>, base: nat, n: nat, c: Child, j: nat)
    requires base + n <= |children| && j < n && AllAre(children, base, j, c) && children[base + j] != c
    ensures FirstNot(children, base, n, c) == j
  {}

  /** What a failed update of `n` children leaves: nothing changed if it failed on the first child; otherwise the first
      child stays changed, and the child it failed on turns from the desired value to the expected one. */
  function Mangled(children: seq<Child>, base: nat, n: nat, expected: Child, desired: Child): (m: seq<Child>)
    requires base + n <= |children|
    ensures |m| == |children| && forall i :: 0 <= i < |children| && !(base <= i < base + n) ==> m[i] == children[i]
  {
    var j := FirstNot(children, base, n, expected);
    if j == 0 || j == n then children
    else children[base := desired][base + j := if children[base + j] == desired then expected else children[base + j]]
  }

  /** Compare-and-swaps `n` consecutive children, with the undo loop as written: it walks the indices
      base + j, ..., base + 1 instead of base + j - 1, ..., base. So a failure undoes everything exactly when it
      happens on the first child. */
  method TryUpdateHuge(children: seq<Child>, base: nat, n: nat, expected: Child, desired: Child)
    returns (ok: bool, children': seq<Child>)
    requires base + n <= |children| && expected != desired
    ensures ok <==> AllAre(children, base, n, expected)
    ensures ok ==> Replaced(children, children', base, n, desired)
    ensures !ok ==> (children' == children <==> children[base] != expected)
    ensures !ok ==> children' == Mangled(children, base, n, expected, desired)
  {
    children' := children;
    var j := 0;
    while j < n
      invariant j <= n && AllAre(children, base, j, expected) && Replaced(children, children', base, j, desired)
    {
      if children'[base + j] == expected {
        children' := children'[base + j := desired];
      } else {
        var k := 0;
        while k < j
          invariant k <= j && Undone(children, children', base, j, k, expected, desired)
        {
          var i := base + (j - k);
          if children'[i] == desired { children' := children'[i := expected]; }
          k := k + 1;
        }
        FirstNotIs(children, base, n, expected, j);
        return false, children';
      }
      j := j + 1;
    }
    ok := true;
  }

  /** A free and an allocated child trade places when both are asked for at once. */
  method HugeUndoMisses() returns (ok: bool, children': seq<Child>)
    ensures !ok && children' == [HUGE_CHILD, FREE_CHILD]
  {
    var children := [FREE_CHILD, HUGE_CHILD];
    FirstNotIs(children, 0, 2, FREE_CHILD, 1);
    ok, children' := TryUpdateHuge(children, 0, 2, FREE_CHILD, HUGE_CHILD);
  }

  /** The documented behaviour, with the undo walking the indices that were changed. */
  method TryUpdateHugeIntended(children: seq<Child>, base: nat, n: nat, expected: Child, desired: Child)
    returns (ok: bool, children': seq<Child>)
    requires base + n <= |children| && expected != desired
    ensures ok <==> AllAre(children, base, n, expected)
    ensures ok ==> Replaced(children, children', base, n, desired)
    ensures !ok ==> children' == children
  {
    children' := children;
    var j := 0;
    while j < n
      invariant j <= n && AllAre(children, base, j, expected) && Replaced(children, children', base, j, desired)
    {
      if children'[base + j] == expected {
        children' := children'[base + j := desired];
      } else {
        var k := 0;
        while k < j
          invariant k <= j && Replaced(children, children', base, j - k, desired)
        {
          var i := base + (j - k - 1);
          if children'[i] == desired { children' := children'[i := expected]; }
          k := k + 1;
        }
        return false, children';
      }
      j := j + 1;
    }
    ok := true;
  }

  /** The groups of `n` children that make up a tree. */
  predicate GroupSize(n: nat) { n == 1 || n == 2 || n == 4 || n == 8 }

  function Huges(order: nat): (n: nat)
    requires 9 <= order <= 12
    ensures GroupSize(n) && Pow2(order) == 512 * n
  {
    Pow2(order - 9)
  }

  /** How many groups a tree has. */
  function Groups(n: nat): (m: nat)
    requires GroupSize(n)
    ensures m > 0 && m * n == 8
  {
    if n == 1 then 8 else if n == 2 then 4 else if n == 4 then 2 else 1
  }

  function GroupAt(t: nat, n: nat, g: nat): (b: nat)
    requires GroupSize(n) && g < Groups(n)
    ensures 8 * t <= b && b + n <= 8 * t + 8
  {
    8 * t + if n == 1 then g else if n == 2 then 2 * g else if n == 4 then 4 * g else 0
  }

  /** The group of tree `t` that child `i` is in. */
  function GroupIndex(t: nat, n: nat, i: nat): (g: nat)
    requires GroupSize(n) && 8 * t <= i < 8 * t + 8
    ensures g < Groups(n)
  {
    var j := i - 8 * t;
    if n == 1 then j else if n == 2 then j / 2 else if n == 4 then j / 4 else 0
  }

  lemma GroupsApart(t: nat, n: nat, g: nat, h: nat)
    requires GroupSize(n) && g < Groups(n) && h < Groups(n) && g != h
    ensures GroupAt(t, n, g) + n <= GroupAt(t, n, h) || GroupAt(t, n, h) + n <= GroupAt(t, n, g)
  {}

  lemma MangledLocal(c: seq<Child>, d: seq<Child>, b: nat, n: nat, expected: Child, desired: Child)
    requires b + n <= |c| == |d| && forall i :: b <= i < b + n ==> c[i] == d[i]
    ensures forall i :: b <= i < b + n ==>
              Mangled(c, b, n, expected, desired)[i] == Mangled(d, b, n, expected, desired)[i]
  {
    var j := FirstNot(c, b, n, expected);
    if j < n {
      assert AllAre(d, b, j, expected);
      FirstNotIs(d, b, n, expected, j);
    } else {
      assert AllAre(d, b, n, expected);
    }
  }

  /** A group that begins with a free child is all free. */
  predicate GroupWhole(children: seq<Child>, b: nat, n: nat)
    requires 0 < n && b + n <= |children|
  {
    children[b] == FREE_CHILD ==> AllAre(children, b, n, FREE_CHILD)
  }

  predicate TreeWhole(children: seq<Child>, order: nat, t: nat)
    requires order <= 12
  {
    order > 9 ==> 8 * t + 8 <= |children| && forall g :: 0 <= g < Groups(Huges(order)) ==>
         GroupWhole(children, GroupAt(t, Huges(order), g), Huges(order))
  }

  predicate Inside(bases: seq<nat>, n: nat, len: nat) {
    forall i :: 0 <= i < |bases| ==> bases[i] + n <= len
  }

  /** The children after the groups at `bases` could not be taken, one after the other. */
  function Scan(children: seq<Child>, bases: seq<nat>, n: nat): (m: seq<Child>)
    requires Inside(bases, n, |children|)
    ensures |m| == |children|
  {
    if bases == [] then children
    else Mangled(Scan(children, bases[..|bases| - 1], n), bases[|bases| - 1], n, FREE_CHILD, HUGE_CHILD)
  }

  predicate Apart(b: nat, c: nat, n: nat) { b + n <= c || c + n <= b }

  ghost predicate AllApart(bases: seq<nat>, n: nat) {
    forall i, j :: 0 <= i < j < |bases| ==> Apart(bases[i], bases[j], n)
  }

  /** A group is mangled by its own turn only. */
  lemma {:induction false} ScanOther(children: seq<Child>, bases: seq<nat>, n: nat, b: nat)
    requires Inside(bases, n, |children|) && b + n <= |children|
    requires forall i :: 0 <= i < |bases| ==> Apart(b, bases[i], n)
    ensures forall i :: b <= i < b + n ==> Scan(children, bases, n)[i] == children[i]
  {
    if bases != [] { ScanOther(children, bases[..|bases| - 1], n, b); }
  }

  ghost predicate NoneFree(children: seq<Child>, bases: seq<nat>, n: nat)
    requires Inside(bases, n, |children|)
  {
    forall i :: 0 <= i < |bases| ==> !AllAre(children, bases[i], n, FREE_CHILD)
  }

  lemma SameGroup(c: seq<Child>, d: seq<Child>, b: nat, n: nat, child: Child)
    requires b + n <= |c| == |d| && forall i :: b <= i < b + n ==> c[i] == d[i]
    ensures AllAre(c, b, n, child) <==> AllAre(d, b, n, child)
  {}

  lemma ScanNext(children: seq<Child>, bases: seq<nat>, n: nat, b: nat)
    requires Inside(bases + [b], n, |children|) && Inside(bases, n, |children|) && b + n <= |children|
    ensures Scan(children, bases + [b], n) == Mangled(Scan(children, bases, n), b, n, FREE_CHILD, HUGE_CHILD)
  {
    assert (bases + [b])[..|bases|] == bases;
  }

  lemma OneMore(s: seq<nat>, i: nat)
    requires i < |s|
    ensures s[..i + 1] == s[..i] + [s[i]]
  {}

  lemma ScanStep(children: seq<Child>, bases: seq<nat>, n: nat, i: nat, now: seq<Child>, ok: bool, after: seq<Child>)
    requires Inside(bases, n, |children|) && AllApart(bases, n) && i < |bases|
    requires now == Scan(children, bases[..i], n) && NoneFree(children, bases[..i], n)
    requires (ok <==> AllAre(now, bases[i], n, FREE_CHILD))
    requires !ok ==> after == Mangled(now, bases[i], n, FREE_CHILD, HUGE_CHILD)
    ensures ok <==> AllAre(children, bases[i], n, FREE_CHILD)
    ensures !ok ==> after == Scan(children, bases[..i + 1], n) && NoneFree(children, bases[..i + 1], n)
  {
    ScanOther(children, bases[..i], n, bases[i]);
    SameGroup(now, children, bases[i], n, FREE_CHILD);
    OneMore(bases, i);
    ScanNext(children, bases[..i], n, bases[i]);
  }

  lemma {:induction false} ScanAt(children: seq<Child>, bases: seq<nat>, n: nat, k: nat)
    requires Inside(bases, n, |children|) && AllApart(bases, n) && k < |bases|
    ensures var b := bases[k];
            forall i :: b <= i < b + n ==>
                 Scan(children, bases, n)[i] == Mangled(children, b, n, FREE_CHILD, HUGE_CHILD)[i]
  {
    var last := |bases| - 1;
    if k == last {
      ScanOther(children, bases[..last], n, bases[k]);
      MangledLocal(Scan(children, bases[..last], n), children, bases[k], n, FREE_CHILD, HUGE_CHILD);
    } else {
      ScanAt(children, bases[..last], n, k);
      assert Apart(bases[k], bases[last], n);
    }
  }

  ghost predicate AllWhole(children: seq<Child>, bases: seq<nat>, n: nat)
    requires 0 < n && Inside(bases, n, |children|)
  {
    forall i :: 0 <= i < |bases| ==> GroupWhole(children, bases[i], n)
  }

  lemma {:induction false} ScanUnchanged(children: seq<Child>, bases: seq<nat>, n: nat)
    requires 0 < n && Inside(bases, n, |children|) && NoneFree(children, bases, n) && AllWhole(children, bases, n)
    ensures Scan(children, bases, n) == children
  {
    if bases != [] {
      ScanUnchanged(children, bases[..|bases| - 1], n);
      var b := bases[|bases| - 1];
      assert GroupWhole(children, b, n) && !AllAre(children, b, n, FREE_CHILD);
    }
  }

  /** Failing to take groups changes nothing exactly when each of them begins with a child that is not free. */
  lemma ScanSame(children: seq<Child>, bases: seq<nat>, n: nat)
    requires 0 < n && Inside(bases, n, |children|) && AllApart(bases, n) && NoneFree(children, bases, n)
    ensures Scan(children, bases, n) == children <==> AllWhole(children, bases, n)
  {
    if AllWhole(children, bases, n) {
      ScanUnchanged(children, bases, n);
    } else {
      var k :| 0 <= k < |bases| && !GroupWhole(children, bases[k], n);
      var b := bases[k];
      ScanAt(children, bases, n, k);
      assert 0 < FirstNot(children, b, n, FREE_CHILD) < n;
      assert Mangled(children, b, n, FREE_CHILD, HUGE_CHILD)[b] == HUGE_CHILD;
    }
  }

  /** The groups of tree `t` in wrapping order from the one of child `i`. */
  function Visit(t: nat, n: nat, i: nat): (bases: seq<nat>)
    requires GroupSize(n) && 8 * t <= i < 8 * t + 8
    ensures |bases| == Groups(n) && Inside(bases, n, 8 * t + 8)
  {
    seq(Groups(n), k requires 0 <= k < Groups(n) => GroupAt(t, n, Offsetted(GroupIndex(t, n, i), k, Groups(n))))
  }

  lemma VisitsAll(t: nat, n: nat, i: nat)
    requires GroupSize(n) && 8 * t <= i < 8 * t + 8
    ensures AllApart(Visit(t, n, i), n)
    ensures forall g :: 0 <= g < Groups(n) ==> GroupAt(t, n, g) in Visit(t, n, i)
  {
    var m, first := Groups(n), GroupIndex(t, n, i);
    forall g | 0 <= g < m ensures GroupAt(t, n, g) in Visit(t, n, i) {
      assert Offsetted(first, Distance(first, g, m), m) == g;
      assert Visit(t, n, i)[Distance(first, g, m)] == GroupAt(t, n, g);
    }
    forall j, k | 0 <= j < k < m ensures Apart(Visit(t, n, i)[j], Visit(t, n, i)[k], n) {
      GroupsApart(t, n, Offsetted(first, j, m), Offsetted(first, k, m));
    }
  }

  // ---- the representation ----

  /** Number of frames of child `i` that exist. */
  function Limit(frames: nat, i: nat): nat
    requires 512 * i <= frames
  {
    if frames - 512 * i < 512 then frames - 512 * i else 512
  }

  /** A huge child has an empty field; otherwise the counter counts the clear bits, and bits of
      frames beyond the end are set. */
  ghost predicate ChildOk(c: Child, field: set<nat>, limit: nat) {
    && field <= Block(0, 512)
    && (if c.huge then c.free == 0 && field == {}
        else c.free == 512 - |field| && forall p :: limit <= p < 512 ==> p in field)
  }

  ghost predicate Shape(frames: nat, children: seq<Child>, fields: seq<set<nat>>) {
    && |fields| == (frames + 511) / 512
    && |children| == 8 * ((|fields| + 7) / 8)
    && forall i :: |fields| <= i < |children| ==> children[i] == HUGE_CHILD
  }

  ghost predicate Consistent(frames: nat, children: seq<Child>, fields: seq<set<nat>>) {
    && Shape(frames, children, fields)
    && forall i :: 0 <= i < |fields| ==> ChildOk(children[i], fields[i], Limit(frames, i))
  }

  ghost predicate IsFree(children: seq<Child>, fields: seq<set<nat>>, f: nat)
    requires |fields| <= |children| && f / 512 < |fields|
  {
    !children[f / 512].huge && f % 512 !in fields[f / 512]
  }

  /** The abstract state. */
  ghost function FreeFrames(frames: nat, children: seq<Child>, fields: seq<set<nat>>): set<nat>
    requires Shape(frames, children, fields)
  {
    set f: nat | f < frames && IsFree(children, fields, f)
  }

  /** Sum of the child counters of a tree. */
  function TreeFree(children: seq<Child>, t: nat): nat
    requires 8 * t + 8 <= |children|
  {
    var c := children[8 * t..8 * t + 8];
    c[0].free + c[1].free + c[2].free + c[3].free + c[4].free + c[5].free + c[6].free + c[7].free
  }

  // ---- what each kind of update does to the abstract state ----

  lemma FullFieldSize(field: set<nat>)
    requires field <= Block(0, 512)
    ensures |field| <= 512
    ensures |field| == 512 <==> field == Block(0, 512)
  {
    BlockSize(0, 512);
    var rest := Block(0, 512) - field;
    assert Block(0, 512) == field + rest;
  }

  /** Allocating a clear block inside a child. */
  lemma TakeBlock(frames: nat, children: seq<Child>, fields: seq<set<nat>>, i: nat, pos: nat, n: nat)
    requires Consistent(frames, children, fields) && i < |fields| && !children[i].huge
    requires 0 < n && pos + n <= 512 && Block(pos, n) !! fields[i]
    ensures children[i].free >= n
    ensures var cs := children[i := Child(children[i].free - n, false)]; var fs := fields[i := fields[i] + Block(pos, n)];
            Consistent(frames, cs, fs)
            && Block(512 * i + pos, n) <= FreeFrames(frames, children, fields)
            && FreeFrames(frames, cs, fs) == FreeFrames(frames, children, fields) - Block(512 * i + pos, n)
  {
    var field := fields[i];
    AddBlock(field, pos, n);
    FullFieldSize(field + Block(pos, n));
    var cs := children[i := Child(children[i].free - n, false)];
    var fs := fields[i := field + Block(pos, n)];
    var limit := Limit(frames, i);
    assert ChildOk(cs[i], fs[i], limit);
    assert pos + n - 1 in Block(pos, n);
    assert pos + n <= limit;
    forall f: nat | f in Block(512 * i + pos, n) ensures f in FreeFrames(frames, children, fields) {
      assert f / 512 == i && f % 512 in Block(pos, n);
    }
    forall f: nat | f < frames
      ensures IsFree(cs, fs, f) <==> IsFree(children, fields, f) && f !in Block(512 * i + pos, n)
    {
      if f / 512 == i { assert f % 512 in Block(pos, n) <==> f in Block(512 * i + pos, n); }
    }
  }

  /** Freeing a set block inside a child. */
  lemma ReturnBlock(frames: nat, children: seq<Child>, fields: seq<set<nat>>, i: nat, pos: nat, n: nat)
    requires Consistent(frames, children, fields) && i < |fields| && !children[i].huge
    requires 0 < n && 512 * i + pos + n <= frames && pos + n <= 512 && Block(pos, n) <= fields[i]
    ensures children[i].free + n <= 512
    ensures var cs := children[i := Child(children[i].free + n, false)]; var fs := fields[i := fields[i] - Block(pos, n)];
            Consistent(frames, cs, fs)
            && Block(512 * i + pos, n) !! FreeFrames(frames, children, fields)
            && FreeFrames(frames, cs, fs) == FreeFrames(frames, children, fields) + Block(512 * i + pos, n)
  {
    var field := fields[i];
    RemoveBlock(field, pos, n);
    FullFieldSize(field);
    var cs := children[i := Child(children[i].free + n, false)];
    var fs := fields[i := field - Block(pos, n)];
    assert ChildOk(cs[i], fs[i], Limit(frames, i));
    forall f: nat | f in Block(512 * i + pos, n) ensures f < frames && f / 512 == i && f % 512 in Block(pos, n) {
    }
    forall f: nat | f < frames
      ensures IsFree(cs, fs, f) <==> IsFree(children, fields, f) || f in Block(512 * i + pos, n)
    {
      if f / 512 == i { assert f % 512 in Block(pos, n) <==> f in Block(512 * i + pos, n); }
    }
  }

  /** A free child is wholly inside the managed range and has an empty field. */
  lemma FreeChild(frames: nat, children: seq<Child>, fields: seq<set<nat>>, i: nat)
    requires Consistent(frames, children, fields) && i < |children| && children[i] == FREE_CHILD
    ensures i < |fields| && fields[i] == {} && 512 * i + 512 <= frames
  {
    assert fields[i] == {};
    assert 511 !in fields[i];
  }

  /** Splitting a huge child changes its representation only. */
  lemma SplitHuge(frames: nat, children: seq<Child>, fields: seq<set<nat>>, i: nat)
    requires Consistent(frames, children, fields) && i < |fields| && children[i].huge
    ensures var cs := children[i := Child(0, false)]; var fs := fields[i := Block(0, 512)];
            Consistent(frames, cs, fs) && FreeFrames(frames, cs, fs) == FreeFrames(frames, children, fields)
  {
    BlockSize(0, 512);
    var cs, fs := children[i := Child(0, false)], fields[i := Block(0, 512)];
    assert ChildOk(cs[i], fs[i], Limit(frames, i));
    forall f: nat | f < frames ensures IsFree(cs, fs, f) <==> IsFree(children, fields, f) {
      if f / 512 == i { assert f % 512 in Block(0, 512); }
    }
  }

  // ---- the allocator ----

  /** An aligned block of free frames. */
  ghost predicate FreeRun(free: set<nat>, order: nat, frame: nat)
    requires order <= 12
  {
    Aligned(frame, order) && Block(frame, Pow2(order)) <= free
  }

  /** A free run lies inside one child and is a clear block of its field; a whole child is free when
      its entry is the free child. */
  lemma RunInChild(frames: nat, children: seq<Child>, fields: seq<set<nat>>, order: nat, frame: nat)
    requires Consistent(frames, children, fields) && order <= 9
    requires FreeRun(FreeFrames(frames, children, fields), order, frame)
    ensures var i := frame / 512;
            i < |fields| && !children[i].huge && FreeBlock(fields[i], order, frame % 512)
            && children[i].free >= Pow2(order) && (order == 9 ==> children[i] == FREE_CHILD)
  {
    var i, pos, n := frame / 512, frame % 512, Pow2(order);
    AlignedInChild(frame, order);
    assert frame in Block(frame, n);
    forall p | p in Block(pos, n) ensures p !in fields[i] {
      var f := 512 * i + p;
      assert f in Block(frame, n);
      assert f / 512 == i && f % 512 == p;
    }
    TakeBlock(frames, children, fields, i, pos, n);
  }

  function ChildOf(frame: nat): nat { frame / 512 }

  function TreeOf(frame: nat): nat { frame / TREE_SIZE }

  lemma PlaceInChild(i: nat, pos: nat, frame: nat)
    requires pos < 512 && frame == 512 * i + pos
    ensures frame / 512 == i && frame % 512 == pos
  {}

  lemma TreePlace(t: nat, rest: nat, frame: nat)
    requires rest < 4096 && frame == 4096 * t + rest
    ensures TreeOf(frame) == t
  {}

  /** An aligned block of whole children is a group of its tree. */
  lemma GroupOf(order: nat, frame: nat) returns (g: nat)
    requires 9 <= order <= 12 && Aligned(frame, order)
    ensures g < Groups(Huges(order)) && frame == 512 * ChildOf(frame)
    ensures ChildOf(frame) == GroupAt(TreeOf(frame), Huges(order), g)
  {
    var q := frame / Pow2(order);
    var m := Groups(Huges(order));
    g := q % m;
    var t := q / m;
    assert q == m * t + g;
    PlaceInChild(q * Huges(order), 0, frame);
    TreePlace(t, Pow2(order) * g, frame);
  }

  lemma GroupFrame(order: nat, t: nat, g: nat)
    requires 9 <= order <= 12 && g < Groups(Huges(order))
    ensures var b := GroupAt(t, Huges(order), g); Aligned(512 * b, order) && ChildOf(512 * b) == b && TreeOf(512 * b) == t
  {
    var b := GroupAt(t, Huges(order), g);
    PlaceInChild(b, 0, 512 * b);
    if order == 9 {
      assert 512 * b == 4096 * t + 512 * g;
    } else if order == 10 {
      assert 512 * b == 1024 * (4 * t + g);
    } else if order == 11 {
      assert 512 * b == 2048 * (2 * t + g);
    }
  }

  lemma FrameInBlock(f: nat, b: nat, n: nat)
    ensures f in Block(512 * b, 512 * n) <==> b <= f / 512 < b + n
  {}

  /** Taking or returning `n` whole children. */
  lemma TakeGroup(frames: nat, children: seq<Child>, fields: seq<set<nat>>, b: nat, n: nat, children': seq<Child>)
    requires Consistent(frames, children, fields) && 0 < n && b + n <= |children| && AllAre(children, b, n, FREE_CHILD)
    requires Replaced(children, children', b, n, HUGE_CHILD)
    ensures Consistent(frames, children', fields) && 512 * b + 512 * n <= frames
    ensures Block(512 * b, 512 * n) <= FreeFrames(frames, children, fields)
    ensures FreeFrames(frames, children', fields) == FreeFrames(frames, children, fields) - Block(512 * b, 512 * n)
  {
    forall i | b <= i < b + n ensures i < |fields| && fields[i] == {} && 512 * i + 512 <= frames {
      FreeChild(frames, children, fields, i);
    }
    assert 512 * (b + n - 1) + 512 <= frames;
    forall f: nat ensures f in Block(512 * b, 512 * n) <==> b <= f / 512 < b + n { FrameInBlock(f, b, n); }
  }

  lemma ReturnGroup(frames: nat, children: seq<Child>, fields: seq<set<nat>>, b: nat, n: nat, children': seq<Child>)
    requires Consistent(frames, children, fields) && b + n <= |children| && AllAre(children, b, n, HUGE_CHILD)
    requires 512 * b + 512 * n <= frames && Replaced(children, children', b, n, FREE_CHILD)
    ensures Consistent(frames, children', fields)
    ensures Block(512 * b, 512 * n) !! FreeFrames(frames, children, fields)
    ensures FreeFrames(frames, children', fields) == FreeFrames(frames, children, fields) + Block(512 * b, 512 * n)
  {
    forall f: nat ensures f in Block(512 * b, 512 * n) <==> b <= f / 512 < b + n { FrameInBlock(f, b, n); }
  }

  lemma ChildOfRun(frames: nat, children: seq<Child>, fields: seq<set<nat>>, order: nat, frame: nat, k: nat)
    requires Consistent(frames, children, fields) && 9 <= order <= 12 && frame == 512 * ChildOf(frame)
    requires FreeRun(FreeFrames(frames, children, fields), order, frame)
    requires ChildOf(frame) <= k < ChildOf(frame) + Huges(order)
    ensures k < |children| && children[k] == FREE_CHILD
  {
    forall f | f in Block(512 * k, 512)
      ensures f in FreeFrames(frames, children, fields)
    {
      assert f in Block(frame, Pow2(order));
    }
    PlaceInChild(k, 0, 512 * k);
    RunInChild(frames, children, fields, 9, 512 * k);
  }

  /** A free run of whole children is a group of free children. */
  lemma RunIsGroup(frames: nat, children: seq<Child>, fields: seq<set<nat>>, order: nat, frame: nat)
    requires Consistent(frames, children, fields) && 9 <= order <= 12 && Aligned(frame, order)
    ensures FreeRun(FreeFrames(frames, children, fields), order, frame)
            <==> ChildOf(frame) + Huges(order) <= |children|
                 && AllAre(children, ChildOf(frame), Huges(order), FREE_CHILD)
  {
    var g := GroupOf(order, frame);
    var b, n := ChildOf(frame), Huges(order);
    var free := FreeFrames(frames, children, fields);
    if FreeRun(free, order, frame) {
      forall k: nat | b <= k < b + n
        ensures k < |children| && children[k] == FREE_CHILD
      {
        ChildOfRun(frames, children, fields, order, frame, k);
      }
      ChildOfRun(frames, children, fields, order, frame, b + n - 1);
    }
    if b + n <= |children| && AllAre(children, b, n, FREE_CHILD) {
      var children' := seq(|children|, i requires 0 <= i < |children| => if b <= i < b + n then HUGE_CHILD
                                                                         else children[i]);
      TakeGroup(frames, children, fields, b, n, children');
    }
  }

  /** A failed update of managed children keeps the representation. */
  lemma MangledKeeps(frames: nat, children: seq<Child>, fields: seq<set<nat>>, b: nat, n: nat, expected: Child,
                     desired: Child)
    requires Consistent(frames, children, fields) && b + n <= |children| && 512 * b + 512 * n <= frames
    requires (expected == FREE_CHILD && desired == HUGE_CHILD) || (expected == HUGE_CHILD && desired == FREE_CHILD)
    ensures Consistent(frames, Mangled(children, b, n, expected, desired), fields)
  {
    var m := Mangled(children, b, n, expected, desired);
    forall i | 0 <= i < |fields| ensures ChildOk(m[i], fields[i], Limit(frames, i)) {
      assert ChildOk(children[i], fields[i], Limit(frames, i));
      if children[i] == FREE_CHILD { FreeChild(frames, children, fields, i); }
    }
  }

  /** Child `i` has no free run of the order. */
  ghost predicate Exhausted(free: set<nat>, i: nat, order: nat)
    requires order <= 9
  {
    forall p: nat :: FreeRun(free, order, p) ==> ChildOf(p) != i
  }

  lemma ChildIsExhausted(frames: nat, children: seq<Child>, fields: seq<set<nat>>, i: nat, order: nat)
    requires Consistent(frames, children, fields) && order < 9 && i < |children|
    requires !ChildDec(children[i], order).0 || (i < |fields| && forall q: nat :: !FreeBlock(fields[i], order, q))
    ensures Exhausted(FreeFrames(frames, children, fields), i, order)
  {
    forall p: nat | FreeRun(FreeFrames(frames, children, fields), order, p) ensures ChildOf(p) != i {
      RunInChild(frames, children, fields, order, p);
    }
  }

  lemma TreeOfChild(frame: nat)
    ensures 8 * TreeOf(frame) <= ChildOf(frame) < 8 * TreeOf(frame) + 8
  {}

  lemma TreeExhausted(free: set<nat>, t: nat, order: nat)
    requires order <= 9 && forall k :: 8 * t <= k < 8 * t + 8 ==> Exhausted(free, k, order)
    ensures forall p: nat :: FreeRun(free, order, p) ==> TreeOf(p) != t
  {
    forall p: nat | FreeRun(free, order, p) ensures TreeOf(p) != t {
      TreeOfChild(p);
      assert TreeOf(p) == t ==> Exhausted(free, ChildOf(p), order);
    }
  }

  ghost predicate Swapped(children: seq<Child>, children': seq<Child>, b: nat, n: nat, expected: Child,
                          desired: Child) {
    b + n <= |children| && AllAre(children, b, n, expected) && Replaced(children, children', b, n, desired)
  }

  /** One allocation from child `i` on: what it takes and how the entries change. */
  ghost predicate Took(free: set<nat>, children: seq<Child>, i: nat, order: nat, frame: nat, free': set<nat>,
                       children': seq<Child>)
    requires order <= 12 && i < |children|
  {
    && FreeRun(free, order, frame) && ChildOf(frame) == i
    && free' == free - Block(frame, Pow2(order))
    && |children'| == |children|
    && if order < 9 then children' == children[i := children'[i]] && children'[i].free == children[i].free - Pow2(order)
       else Swapped(children, children', i, Huges(order), FREE_CHILD, HUGE_CHILD)
  }

  lemma FrameOf(i: nat, pos: nat, order: nat)
    requires order <= 9 && Aligned(pos, order) && pos < 512
    ensures Aligned(512 * i + pos, order) && ChildOf(512 * i + pos) == i
  {
    PlaceInChild(i, pos, 512 * i + pos);
    AlignedInChild(512 * i + pos, order);
  }

  lemma TookBlock(frames: nat, children: seq<Child>, fields: seq<set<nat>>, i: nat, pos: nat, order: nat,
                  children': seq<Child>, fields': seq<set<nat>>)
    requires Consistent(frames, children, fields) && i < |fields| && order < 9 && Aligned(pos, order)
    requires pos + Pow2(order) <= 512
    requires ChildDec(children[i], order).0 && Block(pos, Pow2(order)) !! fields[i]
    requires children' == children[i := ChildDec(children[i], order).1]
    requires fields' == fields[i := fields[i] + Block(pos, Pow2(order))]
    ensures Consistent(frames, children', fields')
    ensures Took(FreeFrames(frames, children, fields), children, i, order, 512 * i + pos, FreeFrames(frames, children', fields'), children')
  {
    TakeBlock(frames, children, fields, i, pos, Pow2(order));
    FrameOf(i, pos, order);
  }

  /** Child `i` is one of the whole children of the block. */
  predicate IsWhole(i: nat, order: nat, frame: nat) {
    9 <= order <= 12 && ChildOf(frame) <= i < ChildOf(frame) + Huges(order)
  }

  /** Huge children stay huge, and an allocation of whole children makes them huge. */
  ghost predicate HugeKept(children: seq<Child>, children': seq<Child>, order: nat, frame: nat) {
    && |children'| == |children|
    && forall i :: 0 <= i < |children| && (children[i] == HUGE_CHILD || IsWhole(i, order, frame)) ==>
         children'[i] == HUGE_CHILD
  }

  /** `init_field`: row by row, the first `free` bits are clear. */
  method InitField(free: nat) returns (field: set<nat>)
    requires free <= 512
    ensures field == Block(free, 512 - free)
  {
    field := {};
    var left := free;
    var r := 0;
    while r < FIELD_N
      invariant r <= FIELD_N
      invariant left == if free >= 64 * r then free - 64 * r else 0
      invariant field == if free >= 64 * r then {} else Block(free, 64 * r - free)
    {
      if left >= 64 {
        left := left - 64;
      } else if left > 0 {
        field := field + Block(64 * r + left, 64 - left);
        left := 0;
      } else {
        field := field + Block(64 * r, 64);
      }
      r := r + 1;
    }
  }

  /** One free: what it returns and how the entries change. */
  ghost predicate Gave(free: set<nat>, children: seq<Child>, order: nat, frame: nat, free': set<nat>,
                       children': seq<Child>)
    requires order <= 12
  {
    var i := ChildOf(frame);
    && Block(frame, Pow2(order)) !! free && free' == free + Block(frame, Pow2(order))
    && i < |children| && |children'| == |children|
    && if order < 9 then children' == children[i := children'[i]] && children'[i].free == children[i].free + Pow2(order)
       else Swapped(children, children', i, Huges(order), HUGE_CHILD, FREE_CHILD)
  }

  lemma GaveBlock(frames: nat, children: seq<Child>, fields: seq<set<nat>>, frame: nat, order: nat,
                  children': seq<Child>, fields': seq<set<nat>>)
    requires Consistent(frames, children, fields) && order < 9 && frame + Pow2(order) <= frames
    requires frame % 512 + Pow2(order) <= 512
    requires var i := ChildOf(frame);
             !children[i].huge && Block(frame % 512, Pow2(order)) <= fields[i]
             && children' == children[i := ChildInc(children[i], order).1]
             && fields' == fields[i := fields[i] - Block(frame % 512, Pow2(order))]
    ensures ChildInc(children[ChildOf(frame)], order).0 && Consistent(frames, children', fields')
    ensures Gave(FreeFrames(frames, children, fields), children, order, frame, FreeFrames(frames, children', fields'), children')
  {
    ReturnBlock(frames, children, fields, ChildOf(frame), frame % 512, Pow2(order));
  }

  lemma AllocatedIsSet(frames: nat, children: seq<Child>, fields: seq<set<nat>>, frame: nat, n: nat)
    requires Consistent(frames, children, fields) && frame + n <= frames && frame % 512 + n <= 512 && 0 < n
    requires !children[ChildOf(frame)].huge
    ensures Block(frame, n) !! FreeFrames(frames, children, fields) <==> Block(frame % 512, n) <= fields[ChildOf(frame)]
  {
    var i, pos := ChildOf(frame), frame % 512;
    forall p | p in Block(pos, n) ensures p in fields[i] <==> 512 * i + p !in FreeFrames(frames, children, fields) {
      var f := 512 * i + p;
      assert f / 512 == i && f % 512 == p;
    }
    if Block(frame, n) !! FreeFrames(frames, children, fields) {
      forall p | p in Block(pos, n) ensures p in fields[i] { assert 512 * i + p in Block(frame, n); }
    }
    if Block(pos, n) <= fields[i] {
      forall f | f in Block(frame, n) ensures f !in FreeFrames(frames, children, fields) {
        assert f - 512 * i in Block(pos, n);
      }
    }
  }

  lemma AllocatedInHuge(frames: nat, children: seq<Child>, fields: seq<set<nat>>, frame: nat, n: nat)
    requires Consistent(frames, children, fields) && frame + n <= frames && frame % 512 + n <= 512 && 0 < n
    requires children[ChildOf(frame)].huge
    ensures Block(frame, n) !! FreeFrames(frames, children, fields)
  {}

  lemma RunAt(frames: nat, children: seq<Child>, fields: seq<set<nat>>, order: nat, frame: nat)
    requires Consistent(frames, children, fields) && order <= 9 && Aligned(frame, order)
    requires frame + Pow2(order) <= frames
    ensures var i := ChildOf(frame);
            FreeRun(FreeFrames(frames, children, fields), order, frame)
            <==> ChildDec(children[i], order).0 && BlockIs(fields[i], frame % 512, Pow2(order), false)
  {
    var i, pos, n := ChildOf(frame), frame % 512, Pow2(order);
    AlignedInChild(frame, order);
    if FreeRun(FreeFrames(frames, children, fields), order, frame) {
      RunInChild(frames, children, fields, order, frame);
    }
    if ChildDec(children[i], order).0 && BlockIs(fields[i], pos, n, false) {
      TakeBlock(frames, children, fields, i, pos, n);
    }
  }

  /** Replacing a group of a tree moves that tree's sum only. */
  lemma TreeSwapped(children: seq<Child>, children': seq<Child>, t: nat, n: nat, g: nat, expected: Child,
                    desired: Child)
    requires GroupSize(n) && g < Groups(n) && Swapped(children, children', GroupAt(t, n, g), n, expected, desired)
    ensures forall u :: 0 <= u && 8 * u + 8 <= |children| ==>
              TreeFree(children', u) == TreeFree(children, u) + if u == t then n * desired.free - n * expected.free
                                                                else 0
  {}

  lemma TreeTook(free: set<nat>, children: seq<Child>, i: nat, order: nat, frame: nat, free': set<nat>,
                 children': seq<Child>, tree: nat)
    requires order <= 12 && i < |children| && 8 * tree <= i < 8 * tree + 8
    requires Took(free, children, i, order, frame, free', children')
    ensures HugeKept(children, children', order, frame) && TreeOf(frame) == tree
    ensures forall t :: 0 <= t && 8 * t + 8 <= |children| ==>
              TreeFree(children', t) == TreeFree(children, t) - if t == tree then Pow2(order) else 0
  {
    if order >= 9 {
      var g := GroupOf(order, frame);
      TreeSwapped(children, children', tree, Huges(order), g, FREE_CHILD, HUGE_CHILD);
    }
  }

  /** What the scan for a group of whole children does: `k` groups are tried in vain, and left mangled. */
  ghost predicate ScanOutcome(children: seq<Child>, bases: seq<nat>, n: nat, r: Result, k: nat, children': seq<Child>)
    requires Inside(bases, n, |children|)
  {
    && k <= |bases| && NoneFree(children, bases[..k], n)
    && if r.Ok? then
         && k < |bases| && r.frame == 512 * bases[k] && AllAre(children, bases[k], n, FREE_CHILD)
         && Swapped(Scan(children, bases[..k], n), children', bases[k], n, FREE_CHILD, HUGE_CHILD)
       else r.OutOfMemory? && k == |bases| && children' == Scan(children, bases, n)
  }

  ghost predicate HugeOutcome(children: seq<Child>, start: nat, order: nat, r: Result, k: nat, children': seq<Child>)
    requires 9 <= order <= 12
  {
    var t := TreeOf(start);
    8 * t + 8 <= |children|
    && ScanOutcome(children, Visit(t, Huges(order), ChildOf(start)), Huges(order), r, k, children')
  }

  /** The tree of a managed frame has its children. */
  lemma TreeInside(frames: nat, children: seq<Child>, fields: seq<set<nat>>, start: nat)
    requires Shape(frames, children, fields) && start < frames
    ensures 8 * TreeOf(start) + 8 <= |children|
  {}

  lemma NoRun(frames: nat, children: seq<Child>, fields: seq<set<nat>>, t: nat, order: nat, i: nat)
    requires Consistent(frames, children, fields) && 9 <= order <= 12 && 8 * t <= i < 8 * t + 8 <= |children|
    requires NoneFree(children, Visit(t, Huges(order), i), Huges(order))
    ensures forall p: nat :: FreeRun(FreeFrames(frames, children, fields), order, p) ==> TreeOf(p) != t
  {
    VisitsAll(t, Huges(order), i);
    forall p: nat | FreeRun(FreeFrames(frames, children, fields), order, p) ensures TreeOf(p) != t {
      var g := GroupOf(order, p);
      RunIsGroup(frames, children, fields, order, p);
      assert GroupAt(t, Huges(order), g) in Visit(t, Huges(order), i);
    }
  }

  lemma WholeGroups(children: seq<Child>, t: nat, order: nat, i: nat)
    requires 9 <= order <= 12 && 8 * t <= i < 8 * t + 8 <= |children|
    ensures TreeWhole(children, order, t) <==> AllWhole(children, Visit(t, Huges(order), i), Huges(order))
  {
    VisitsAll(t, Huges(order), i);
  }

  /** An allocation in tree `t`: all that changes is the block taken, or nothing. */
  ghost predicate Got(free: set<nat>, children: seq<Child>, order: nat, t: nat, r: Result, free': set<nat>,
                      children': seq<Child>)
    requires order <= 12
  {
    && |children'| == |children|
    && (if r.Ok? then free' == free - Block(r.frame, Pow2(order)) && HugeKept(children, children', order, r.frame)
        else children' == children)
    && forall u :: 0 <= u && 8 * u + 8 <= |children| ==>
         TreeFree(children', u) == TreeFree(children, u) - if r.Ok? && u == t then Pow2(order) else 0
  }

  /** A scan that found a group, when no group of the tree is partly free from its first child on. */
  lemma GroupTook(frames: nat, children: seq<Child>, fields: seq<set<nat>>, start: nat, order: nat, r: Result, k: nat,
                  children': seq<Child>)
    requires Consistent(frames, children, fields) && 9 <= order <= 12 && r.Ok?
    requires HugeOutcome(children, start, order, r, k, children')
    ensures FreeRun(FreeFrames(frames, children, fields), order, r.frame) && TreeOf(r.frame) == TreeOf(start)
    ensures |children'| == |children|
    ensures TreeWhole(children, order, TreeOf(start)) ==>
              Consistent(frames, children', fields)
              && Got(FreeFrames(frames, children, fields), children, order, TreeOf(start), r, FreeFrames(frames, children', fields), children')
  {
    var n, t, i := Huges(order), TreeOf(start), ChildOf(start);
    var bases := Visit(t, n, i);
    GroupFrame(order, t, Offsetted(GroupIndex(t, n, i), k, Groups(n)));
    RunIsGroup(frames, children, fields, order, r.frame);
    if TreeWhole(children, order, t) {
      WholeGroups(children, t, order, i);
      ScanUnchanged(children, bases[..k], n);
      TakeGroup(frames, children, fields, ChildOf(r.frame), n, children');
      TreeTook(FreeFrames(frames, children, fields), children, ChildOf(r.frame), order, r.frame,
               FreeFrames(frames, children', fields), children', t);
    }
  }

  lemma GroupMissed(frames: nat, children: seq<Child>, fields: seq<set<nat>>, start: nat, order: nat, r: Result, k: nat,
                    children': seq<Child>)
    requires Consistent(frames, children, fields) && 9 <= order <= 12 && !r.Ok?
    requires HugeOutcome(children, start, order, r, k, children')
    ensures forall p: nat :: FreeRun(FreeFrames(frames, children, fields), order, p) ==> TreeOf(p) != TreeOf(start)
    ensures |children'| == |children| && (children' == children <==> TreeWhole(children, order, TreeOf(start)))
  {
    var n, t, i := Huges(order), TreeOf(start), ChildOf(start);
    var bases := Visit(t, n, i);
    assert bases[..k] == bases;
    NoRun(frames, children, fields, t, order, i);
    WholeGroups(children, t, order, i);
    VisitsAll(t, n, i);
    ScanSame(children, bases, n);
  }

  lemma TreeUpdates(children: seq<Child>, i: nat, c: Child)
    requires i < |children|
    ensures forall t :: 0 <= t && 8 * t + 8 <= |children| ==>
              TreeFree(children[i := c], t) == TreeFree(children, t) + if i / 8 == t then c.free - children[i].free
                                                                       else 0
  {}

  lemma TreeGave(free: set<nat>, children: seq<Child>, order: nat, frame: nat, free': set<nat>, children': seq<Child>)
    requires order <= 12 && Aligned(frame, order) && Gave(free, children, order, frame, free', children')
    ensures forall t :: 0 <= t && 8 * t + 8 <= |children| ==>
              TreeFree(children', t) == TreeFree(children, t) + if t == TreeOf(frame) then Pow2(order) else 0
  {
    if order < 9 {
      TreeOfChild(frame);
      TreeUpdates(children, ChildOf(frame), children'[ChildOf(frame)]);
    } else {
      var g := GroupOf(order, frame);
      TreeSwapped(children, children', TreeOf(frame), Huges(order), g, HUGE_CHILD, FREE_CHILD);
    }
  }

  /** All children of the block are huge. */
  ghost predicate HugeBlock(children: seq<Child>, order: nat, frame: nat) {
    9 <= order <= 12 && ChildOf(frame) + Huges(order) <= |children|
    && AllAre(children, ChildOf(frame), Huges(order), HUGE_CHILD)
  }

  /** No group of the order is partly free from its first child on. */
  predicate Whole(children: seq<Child>, order: nat)
    requires order <= 12
  {
    forall t :: 0 <= t < |children| / 8 ==> TreeWhole(children, order, t)
  }

  class Lower {
    var frames: nat
    var children: seq<Child>
    var fields: seq<set<nat>>

    ghost predicate Valid()
      reads this
    {
      Consistent(frames, children, fields)
    }

    ghost function Free(): set<nat>
      requires Valid()
      reads this
    {
      FreeFrames(frames, children, fields)
    }

    constructor (frames: nat)
      ensures this.frames == frames
    {
      this.frames, children, fields := frames, [], [];
    }

    /** `lower_clear`: all frames free, or all allocated. */
    method Clear(freeAll: bool)
      modifies this
      ensures Valid() && frames == old(frames)
      ensures Free() == if freeAll then Block(0, frames) else {}
    {
      var count := (frames + 511) / 512;
      var cs, fs: seq<set<nat>> := [], [];
      while |fs| < count
        invariant |cs| == |fs| <= count && frames == old(frames)
        invariant forall k :: 0 <= k < |fs| ==> ChildOk(cs[k], fs[k], Limit(frames, k))
        invariant forall k :: 0 <= k < |fs| ==>
                    if freeAll then !cs[k].huge && fs[k] == Block(Limit(frames, k), 512 - Limit(frames, k))
                    else cs[k] == HUGE_CHILD
        decreases count - |fs|
      {
        var f := Limit(frames, |fs|);
        var free := if freeAll then f else 0;
        if free == 0 {
          cs, fs := cs + [Child(0, true)], fs + [{}];
        } else {
          BlockSize(free, 512 - free);
          var field := InitField(free);
          cs, fs := cs + [Child(free, false)], fs + [field];
        }
      }
      while |cs| < 8 * ((count + 7) / 8)
        invariant |fs| == count <= |cs| <= 8 * ((count + 7) / 8) && frames == old(frames)
        invariant forall k :: 0 <= k < count ==> ChildOk(cs[k], fs[k], Limit(frames, k))
        invariant forall k :: 0 <= k < count ==>
                    if freeAll then !cs[k].huge && fs[k] == Block(Limit(frames, k), 512 - Limit(frames, k))
                    else cs[k] == HUGE_CHILD
        invariant forall k :: count <= k < |cs| ==> cs[k] == HUGE_CHILD
      {
        cs := cs + [Child(0, true)];
      }
      children, fields := cs, fs;
      forall f: nat | f < frames ensures IsFree(children, fields, f) == freeAll { assert f / 512 < count; }
      assert freeAll ==> Free() == Block(0, frames);
    }

    /** `lower_recover`: recomputes the counters from persistent fields and huge flags. */
    method Recover()
      requires Shape(frames, children, fields)
      requires forall i :: 0 <= i < |fields| ==> fields[i] <= Block(0, 512)
      requires forall i, p :: 0 <= i < |fields| && !children[i].huge && Limit(frames, i) <= p < 512 ==> p in fields[i]
      modifies this
      ensures Valid() && frames == old(frames)
      ensures Free() == old(FreeFrames(frames, children, fields))
    {
      var i := 0;
      while i < |fields|
        invariant i <= |fields| == old(|fields|) && |children| == old(|children|) && frames == old(frames)
        invariant forall k :: 0 <= k < i ==> ChildOk(children[k], fields[k], Limit(frames, k))
        invariant forall k :: 0 <= k < |fields| ==> children[k].huge == old(children)[k].huge
        invariant forall k :: 0 <= k < |fields| && !children[k].huge ==> fields[k] == old(fields)[k]
        invariant forall k :: i <= k < |fields| ==> fields[k] == old(fields)[k]
        invariant forall k :: |fields| <= k < |children| ==> children[k] == HUGE_CHILD
      {
        if children[i].huge {
          children, fields := children[i := Child(0, true)], fields[i := {}];
        } else {
          FullFieldSize(fields[i]);
          children := children[i := Child(CHILD_SIZE - |fields[i]|, false)];
        }
        i := i + 1;
      }
    }

    /** Takes the first group of free children at `bases`. Groups tried in vain are left mangled. */
    method GetHuge(bases: seq<nat>, n: nat) returns (r: Result, ghost k: nat)
      requires 0 < n && Inside(bases, n, |children|) && AllApart(bases, n)
      modifies this`children
      ensures ScanOutcome(old(children), bases, n, r, k, children)
    {
      ghost var cs := children;
      k := 0;
      var i := 0;
      while i < |bases|
        invariant i <= |bases| && k == i && children == Scan(cs, bases[..i], n) && NoneFree(cs, bases[..i], n)
      {
        var b := bases[i];
        var ok, after := TryUpdateHuge(children, b, n, FREE_CHILD, HUGE_CHILD);
        ScanStep(cs, bases, n, i, children, ok, after);
        children := after;
        if ok { return Ok(512 * b), k; }
        i, k := i + 1, k + 1;
      }
      assert bases[..i] == bases;
      r := OutOfMemory;
    }

    method TrySmall(i: nat, start: nat, order: nat) returns (r: Result)
      requires Valid() && i < |children| && order < 9
      modifies this
      ensures Valid() && frames == old(frames)
      ensures r.Ok? ==> Took(old(Free()), old(children), i, order, r.frame, Free(), children)
      ensures !r.Ok? ==>
                r.OutOfMemory? && children == old(children) && fields == old(fields) && Exhausted(old(Free()), i, order)
    {
      var c := children[i];
      var (ok, dec) := ChildDec(c, order);
      if ok {
        var found, pos, field := FieldSetNext(fields[i], start, order);
        if found {
          TookBlock(frames, children, fields, i, pos, order, children[i := dec], fields[i := field]);
          children, fields := children[i := dec], fields[i := field];
          return Ok(512 * i + pos);
        }
        // the undo of the decrement never fails
        var (undone, inc) := ChildInc(dec, order);
        assert undone && inc == c;
      }
      r := OutOfMemory;
      ChildIsExhausted(frames, children, fields, i, order);
    }

    /** Allocates a block of at most half a child in the tree of `start`. */
    method GetSmall(start: nat, order: nat) returns (r: Result)
      requires Valid() && order < 9 && start < frames
      modifies this
      ensures Valid() && frames == old(frames)
      ensures r.Ok? <==> exists p: nat :: FreeRun(old(Free()), order, p) && TreeOf(p) == TreeOf(start)
      ensures r.Ok? ==> FreeRun(old(Free()), order, r.frame) && TreeOf(r.frame) == TreeOf(start)
      ensures Got(old(Free()), old(children), order, TreeOf(start), r, Free(), children)
      ensures !r.Ok? ==> r.OutOfMemory? && fields == old(fields)
    {
      var base := 8 * TreeOf(start);
      var offset := ChildOf(start) - base;
      ghost var free := Free();
      var i := 0;
      while i < TREE_CHILDREN
        invariant i <= 8 && children == old(children) && fields == old(fields) && frames == old(frames)
        invariant forall k :: base <= k < base + 8 && Distance(offset, k - base, 8) < i ==> Exhausted(free, k, order)
      {
        var current := base + Offsetted(offset, i, 8);
        r := TrySmall(current, start, order);
        if r.Ok? {
          TreeTook(free, old(children), current, order, r.frame, Free(), children, TreeOf(start));
          return;
        }
        i := i + 1;
      }
      r := OutOfMemory;
      TreeExhausted(free, TreeOf(start), order);
    }

    /** Allocates some block of the tree of `start`. Above order 9, groups of children tried in vain are left mangled;
        that changes nothing exactly when no group of the tree is partly free from its first child on. */
    method Get(start: nat, order: nat) returns (r: Result, ghost k: nat)
      requires Valid() && order <= 12 && start < frames
      modifies this
      ensures frames == old(frames) && |children| == old(|children|)
      ensures r.Ok? <==> exists p: nat :: FreeRun(old(Free()), order, p) && TreeOf(p) == TreeOf(start)
      ensures r.Ok? ==> FreeRun(old(Free()), order, r.frame) && TreeOf(r.frame) == TreeOf(start)
      ensures old(TreeWhole(children, order, TreeOf(start))) ==>
                Valid() && Got(old(Free()), old(children), order, TreeOf(start), r, Free(), children)
      ensures !r.Ok? ==> r.OutOfMemory? && fields == old(fields) && (children == old(children) <==> old(TreeWhole(children, order, TreeOf(start))))
      ensures order > 9 ==> fields == old(fields) && HugeOutcome(old(children), start, order, r, k, children)
    {
      k := 0;
      if order < HUGE_ORDER {
        r := GetSmall(start, order);
        return;
      }
      var t := TreeOf(start);
      TreeInside(frames, children, fields, start);
      VisitsAll(t, Huges(order), ChildOf(start));
      r, k := GetHuge(Visit(t, Huges(order), ChildOf(start)), Huges(order));
      if r.Ok? {
        GroupTook(frames, old(children), fields, start, order, r, k, children);
      } else {
        GroupMissed(frames, old(children), fields, start, order, r, k, children);
      }
    }

    /** The counter admits the request and the toggle would stop after changing a row; or, above order 9, the update
        of several children would stop after changing one. */
    predicate TornAt(frame: nat, order: nat, expected: bool)
      requires Valid() && order <= 12
      reads this
    {
      var i := ChildOf(frame);
      if order > 9 then
        var c := if expected then HUGE_CHILD else FREE_CHILD;
        i + Huges(order) <= |children| && children[i] == c && !AllAre(children, i, Huges(order), c)
      else
        && frame < frames && order < 9
        && (!expected ==> ChildDec(children[i], order).0)
        && (expected ==> !children[i].huge)
        && Torn(fields[i], frame % 512, order, expected)
    }

    method GetAtSmall(frame: nat, order: nat) returns (r: Result)
      requires Valid() && order < 9 && frame + Pow2(order) <= frames && Aligned(frame, order)
      modifies this
      ensures frames == old(frames) && !r.BadArgument? && |children| == old(|children|)
      ensures r.Ok? <==> FreeRun(old(Free()), order, frame)
      ensures r.Ok? ==> Valid() && r.frame == frame
                        && Took(old(Free()), old(children), ChildOf(frame), order, frame, Free(), children)
      ensures !r.Ok? ==> children == old(children) && (!old(TornAt(frame, order, false)) ==> fields == old(fields))
      ensures Valid() <==> r.Ok? || !old(TornAt(frame, order, false))
    {
      var i := ChildOf(frame);
      AlignedInChild(frame, order);
      var c := children[i];
      var (ok, dec) := ChildDec(c, order);
      RunAt(frames, children, fields, order, frame);
      if ok {
        var done, field := FieldToggle(fields[i], frame % 512, order, false);
        if done {
          TookBlock(frames, children, fields, i, frame % 512, order, children[i := dec], fields[i := field]);
          children, fields := children[i := dec], fields[i := field];
          return Ok(frame);
        }
        if Torn(fields[i], frame % 512, order, false) { FlippedRowSize(fields[i], field, false); }
        fields := fields[i := field];
        assert fields[i] == old(fields[i]) ==> fields == old(fields);
        // the undo of the decrement never fails
        var (undone, inc) := ChildInc(dec, order);
        assert undone && inc == c;
      }
      r := OutOfMemory;
    }

    /** Allocates the given block. A toggle of more than one row that fails after its first row leaves the
        field changed; that is exactly when the representation breaks. A failed update of several children
        leaves them mangled. */
    method GetAt(frame: nat, order: nat) returns (r: Result)
      requires Valid() && order <= 12
      modifies this
      ensures frames == old(frames) && |children| == old(|children|)
      ensures r.Ok? <==> frame + Pow2(order) <= frames && FreeRun(old(Free()), order, frame)
      ensures r.BadArgument? <==> frame + Pow2(order) > frames || !Aligned(frame, order)
      ensures r.Ok? ==> Valid() && r.frame == frame && Free() == old(Free()) - Block(frame, Pow2(order))
      ensures r.Ok? ==> Took(old(Free()), old(children), ChildOf(frame), order, frame, Free(), children)
      ensures !r.Ok? ==>
                (children == old(children) <==> !(r.OutOfMemory? && order > 9 && old(TornAt(frame, order, false))))
      ensures r.OutOfMemory? && order >= 9 ==>
                children == Mangled(old(children), ChildOf(frame), Huges(order), FREE_CHILD, HUGE_CHILD)
      ensures !r.Ok? && !(r.OutOfMemory? && order < 9 && old(TornAt(frame, order, false))) ==> fields == old(fields)
      ensures Valid() <==> !(r.OutOfMemory? && order < 9 && old(TornAt(frame, order, false)))
    {
      if frame + Pow2(order) > frames || !Aligned(frame, order) { return BadArgument; }
      var i := ChildOf(frame);
      if order >= HUGE_ORDER {
        ghost var g := GroupOf(order, frame);
        RunIsGroup(frames, children, fields, order, frame);
        var ok, after := TryUpdateHuge(children, i, Huges(order), FREE_CHILD, HUGE_CHILD);
        if ok {
          TakeGroup(frames, children, fields, i, Huges(order), after);
          r := Ok(frame);
        } else {
          MangledKeeps(frames, children, fields, i, Huges(order), FREE_CHILD, HUGE_CHILD);
          r := OutOfMemory;
        }
        children := after;
      } else {
        r := GetAtSmall(frame, order);
      }
    }

    method PutHuge(frame: nat, order: nat) returns (r: Result)
      requires Valid() && 9 <= order <= 12 && frame + Pow2(order) <= frames && Aligned(frame, order)
      modifies this`children
      ensures Valid() && !r.OutOfMemory? && ChildOf(frame) + Huges(order) <= |children| == old(|children|)
      ensures r.Ok? <==> AllAre(old(children), ChildOf(frame), Huges(order), HUGE_CHILD)
      ensures r.Ok? ==> Gave(old(Free()), old(children), order, frame, Free(), children)
      ensures !r.Ok? ==> children == Mangled(old(children), ChildOf(frame), Huges(order), HUGE_CHILD, FREE_CHILD)
    {
      var i := ChildOf(frame);
      ghost var g := GroupOf(order, frame);
      var ok, after := TryUpdateHuge(children, i, Huges(order), HUGE_CHILD, FREE_CHILD);
      if ok {
        ReturnGroup(frames, children, fields, i, Huges(order), after);
        r := Ok(frame);
      } else {
        MangledKeeps(frames, children, fields, i, Huges(order), HUGE_CHILD, FREE_CHILD);
        r := BadArgument;
      }
      children := after;
    }

    /** `split_huge`: marks all bits allocated, then clears the huge flag. */
    method Split(i: nat)
      requires Valid() && i < |fields| && children[i].huge
      modifies this
      ensures Valid() && frames == old(frames) && Free() == old(Free())
      ensures children == old(children)[i := Child(0, false)] && fields == old(fields)[i := Block(0, 512)]
    {
      var done, field := FieldToggle(fields[i], 0, 9, false);
      assert field == Block(0, 512);
      SplitHuge(frames, children, fields, i);
      children, fields := children[i := Child(0, false)], fields[i := field];
    }

    method PutSmall(frame: nat, order: nat) returns (r: Result)
      requires Valid() && order < 9 && frame + Pow2(order) <= frames && Aligned(frame, order)
      requires !children[ChildOf(frame)].huge
      modifies this
      ensures frames == old(frames) && !r.BadArgument? && |children| == old(|children|)
      ensures r.Ok? <==> Block(frame, Pow2(order)) !! old(Free())
      ensures r.Ok? ==> Valid() && Gave(old(Free()), old(children), order, frame, Free(), children)
      ensures !r.Ok? ==> children == old(children) && (!old(TornAt(frame, order, true)) ==> fields == old(fields))
      ensures old(TornAt(frame, order, true)) ==> r.OutOfMemory? && !Valid()
      ensures !old(TornAt(frame, order, true)) ==> Valid()
    {
      var i := ChildOf(frame);
      AlignedInChild(frame, order);
      AllocatedIsSet(frames, children, fields, frame, Pow2(order));
      var done, field := FieldToggle(fields[i], frame % 512, order, true);
      if !done {
        if Torn(fields[i], frame % 512, order, true) { FlippedRowSize(fields[i], field, true); }
        fields := fields[i := field];
        assert fields[i] == old(fields[i]) ==> fields == old(fields);
        return OutOfMemory;
      }
      // the increment never fails
      var (counted, inc) := ChildInc(children[i], order);
      GaveBlock(frames, children, fields, frame, order, children[i := inc], fields[i := field]);
      assert counted;
      children, fields := children[i := inc], fields[i := field];
      r := Ok(frame);
    }

    /** Frees a block: whole huge children, or a block of a child that is split first when it is huge. */
    method Put(frame: nat, order: nat) returns (r: Result)
      requires Valid() && order <= 12
      modifies this
      ensures frames == old(frames) && |children| == old(|children|)
      ensures r.Ok? <==> frame + Pow2(order) <= frames && Aligned(frame, order)
                         && if order >= 9 then HugeBlock(old(children), order, frame)
                            else Block(frame, Pow2(order)) !! old(Free())
      ensures r.Ok? ==> Valid() && Gave(old(Free()), old(children), order, frame, Free(), children)
      ensures !r.Ok? ==>
                children == if order <= 9 || frame + Pow2(order) > frames || !Aligned(frame, order) then old(children)
                                     else Mangled(old(children), ChildOf(frame), Huges(order), HUGE_CHILD, FREE_CHILD)
      ensures !r.Ok? && !old(TornAt(frame, order, true)) ==> children == old(children)
      ensures !r.Ok? && !(r.OutOfMemory? && old(TornAt(frame, order, true))) ==> fields == old(fields)
      ensures Valid() <==> !(r.OutOfMemory? && old(TornAt(frame, order, true)))
      ensures frame + Pow2(order) <= frames && Aligned(frame, order) && old(TornAt(frame, order, true)) ==>
                !r.Ok? && (order < 9 ==> !Valid())
    {
      if frame + Pow2(order) > frames || !Aligned(frame, order) { return BadArgument; }
      if order >= HUGE_ORDER {
        r := PutHuge(frame, order);
        return;
      }
      var i := ChildOf(frame);
      AlignedInChild(frame, order);
      if children[i].huge {
        AllocatedInHuge(frames, children, fields, frame, Pow2(order));
        Split(i);
      }
      r := PutSmall(frame, order);
    }
  }
}
