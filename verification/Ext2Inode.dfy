/** An ext2 volume with one open inode: block allocation, the block map, writing and freeing a file. */
module Ext2Inode {
  import opened Blocks
  import opened BlockGroups
  import opened BlockTree
  import opened FileBlocks
  import opened Ext2Trace
  import Cache = MetadataCache

  /** The element that step `k` of a wrapping loop over `n` elements looks at. */
  function Visit(start: nat, k: nat, n: nat): (r: nat)
    requires n > 0
    ensures r < n
  {
    (start + k) % n
  }

  /** The loop reaches every element. */
  lemma Visited(start: nat, n: nat, r: nat) returns (k: nat)
    requires r < n
    ensures k < n && Visit(start, k, n) == r
  {
    var s := start % n;
    k := Distance(s, r, n);
    assert start == n * (start / n) + s;
    if s + k < n {
      ModUnique(start + k, n, start / n, r);
    } else {
      assert n * (start / n + 1) == n * (start / n) + n;
      ModUnique(start + k, n, start / n + 1, r);
    }
  }

  /** `bi` is the first clear bit in wrap-around order from `start`, found after `steps` set ones. */
  ghost predicate FirstClear(bitmap: set<nat>, start: nat, count: nat, bi: nat, steps: nat) {
    steps < count && bi == Visit(start, steps, count) && bi !in bitmap && forall k: nat :: k < steps ==>
         Visit(start, k, count) in bitmap
  }

  /** The block `alloc_block` takes: the first group with a free count from the preferred one on, and in it the first
      clear bit from the hint on. */
  ghost predicate Chosen(v: Groups, hints: seq<nat>, preferred: nat, b: nat, k: nat, j: nat) {
    && |hints| == |v.bitmaps| == |v.free| && k < |v.bitmaps|
    && (forall i: nat :: i < k ==> v.free[Visit(preferred, i, |v.bitmaps|)] == 0)
    && var g := Visit(preferred, k, |v.bitmaps|);
       v.free[g] > 0 && Size(v, g) > 0
       && exists bi: nat :: FirstClear(v.bitmaps[g], hints[g] % Size(v, g), Size(v, g), bi, j) && b == Number(v.bpg, g, bi)
  }

  ghost predicate SameShape(v: Groups, w: Groups) {
    v.bpg == w.bpg && v.total == w.total && |v.bitmaps| == |w.bitmaps|
  }

  /** File blocks that had a block keep it. */
  ghost predicate KeepsFile(P: nat, s: Image, s': Image)
    requires Ok(P, s) && Ok(P, s')
  {
    forall m :: IsNode(P, m) && At(P, s, m) != 0 ==> At(P, s', m) == At(P, s, m)
  }

  /** The first `k` file blocks have a block, the others are as before. */
  ghost predicate FilledUpTo(P: nat, s: Image, s': Image, k: nat)
    requires Ok(P, s) && Ok(P, s')
  {
    && (forall bi :: 0 <= bi < k && bi < Capacity(P) ==> At(P, s', DataNode(P, bi)) != 0)
    && (forall bi :: k <= bi < Capacity(P) ==> At(P, s', DataNode(P, bi)) == At(P, s, DataNode(P, bi)))
  }

  /** The first `k` file blocks were written: they have a block each, nothing else changed; that took the missing
      blocks, on an empty inode one per file block and `IndirectBlocks` pointer blocks. */
  ghost predicate Written(P: nat, s: Image, s': Image, k: nat)
    requires Ok(P, s) && k <= Capacity(P)
  {
    && Ok(P, s') && OthersOf(P, s') == OthersOf(P, s) && KeepsFile(P, s, s') && FilledUpTo(P, s, s', k)
    && s.used <= s'.used
    && UpTo(P, s, s', k) && |s'.used| == |s.used| + Needed(P, s, k)
    && (Filled(P, s, 0) ==> Filled(P, s', k) && |s'.used| == |s.used| + k + IndirectBlocks(P, k))
  }

  /** A write that came to file block `k` had enough ... */
  lemma Enough(P: nat, v: Groups, s: Image, w: Groups, s': Image, k: nat)
    requires GroupsOk(v) && GroupsOk(w) && SameShape(v, w) && s.used == Used(v) && s'.used == Used(w) && Ok(P, s)
    requires Ok(P, s')
    requires k <= Capacity(P) && Written(P, s, s', k)
    ensures w.sbFree + Needed(P, s, k) == v.sbFree
  {
    UsedCount(v);
    UsedCount(w);
  }

  lemma AtLeast(a: set<nat>, b: set<nat>)
    requires a <= b
    ensures |a| <= |b|
  {
    assert b == a + (b - a);
  }

  lemma AbsentData(P: nat, s: Image, s': Image, bi: nat)
    requires Ok(P, s) && Ok(P, s') && bi < Capacity(P) && UpTo(P, s, s', bi)
    ensures Absent(P, s', DataNode(P, bi)) == Wanting(P, s, DataNode(P, bi), bi)
  {
    DataFirst(P, bi);
    AbsentIsWanting(P, s, s', DataNode(P, bi), bi);
  }

  lemma NextNeeded(P: nat, s: Image, s': Image, bi: nat, count: nat)
    requires Ok(P, s) && Ok(P, s') && bi < count <= Capacity(P) && UpTo(P, s, s', bi)
    ensures Needed(P, s, bi) + Absent(P, s', DataNode(P, bi)) <= Needed(P, s, count)
  {
    AbsentData(P, s, s', bi);
    NeededMono(P, s, bi + 1, count);
  }

  /** ... and one that stopped at file block `bi` had too few blocks for it. */
  lemma Short(P: nat, v: Groups, s: Image, w: Groups, s': Image, bi: nat, count: nat, after: set<nat>)
    requires GroupsOk(v) && GroupsOk(w) && SameShape(v, w) && s.used == Used(v) && s'.used == Used(w) && Ok(P, s)
    requires Ok(P, s')
    requires bi < count <= Capacity(P) && Written(P, s, s', bi) && w.sbFree < Absent(P, s', DataNode(P, bi))
    requires s'.used <= after
    ensures v.sbFree < Needed(P, s, count)
    ensures Filled(P, s, 0) ==> |after| >= |s.used| + bi && (bi == 0 ==> v.sbFree == w.sbFree == 0)
  {
    AtLeast(s'.used, after);
    Enough(P, v, s, w, s', bi);
    NextNeeded(P, s, s', bi, count);
    if bi == 0 { assert IsRoot(DataNode(P, 0)); }
  }

  lemma Uneven(v: Groups, w: Groups, done: nat)
    requires GroupsOk(v) && GroupsOk(w) && SameShape(v, w) && Used(v) <= Used(w)
    requires |Used(w)| >= |Used(v)| + done && (done == 0 ==> v.sbFree == 0)
    ensures w == v <==> v.sbFree == 0
  {
    UsedCount(v);
    UsedCount(w);
    assert Used(w) == Used(v) + (Used(w) - Used(v));
    if v.sbFree == 0 { UsedDetermines(v, w); }
  }

  /** Where the write loop starts: from the file, or from nothing if the file shrinks. */
  ghost function Start(P: nat, s: Image, shrinks: bool): Image
    requires P > 0 && |s.root| == SLOTS
  {
    if shrinks then Image(seq(SLOTS, _ => 0), s.blocks, OthersOf(P, s)) else s
  }

  /** Block `b` hangs below a root pointer that only the inode in memory had. */
  ghost predicate LostBlock(P: nat, s: Image, mid: Image, b: nat)
    requires Ok(P, s) && Ok(P, mid)
  {
    b != 0 && exists n :: IsNode(P, n) && s.root[n.slot] == 0 && At(P, mid, n) == b
  }

  /** The map `mid` was built in memory from `s` and given up. What hangs below the old root pointers stays, also if it
      is new; what hangs below new ones is lost: in use, and in no file. */
  ghost predicate Abandoned(P: nat, s: Image, mid: Image, s': Image) {
    && Ok(P, s) && Ok(P, mid) && Ok(P, s') && s' == mid.(root := s.root)
    && OthersOf(P, mid) == OthersOf(P, s) && KeepsFile(P, s, mid) && KeepsFile(P, s, s')
    && (forall n :: IsNode(P, n) ==> At(P, s', n) == if s.root[n.slot] == 0 then 0 else At(P, mid, n))
    && (forall b: nat :: b in OthersOf(P, s') <==> b in OthersOf(P, s) || LostBlock(P, s, mid, b))
  }

  lemma AbandonBlock(P: nat, s: Image, mid: Image, s': Image, b: nat)
    requires Ok(P, s) && Ok(P, mid) && Ok(P, s') && s' == mid.(root := s.root) && OthersOf(P, mid) == OthersOf(P, s)
    requires forall n :: IsNode(P, n) ==> At(P, s', n) == if s.root[n.slot] == 0 then 0 else At(P, mid, n)
    ensures b in OthersOf(P, s') <==> b in OthersOf(P, s) || LostBlock(P, s, mid, b)
  {
    if LostBlock(P, s, mid, b) {
      var n :| IsNode(P, n) && s.root[n.slot] == 0 && At(P, mid, n) == b;
      assert NodeOk(P, mid.root, mid.blocks, mid.used, n);
    }
  }

  function RootNode(j: nat): Node {
    Node(j, Depth(j), 0)
  }

  lemma Abandon(P: nat, s: Image, mid: Image, s': Image)
    requires Ok(P, s) && Ok(P, mid) && s' == mid.(root := s.root) && OthersOf(P, mid) == OthersOf(P, s)
    requires KeepsFile(P, s, mid)
    ensures Abandoned(P, s, mid, s')
  {
    forall j | 0 <= j < SLOTS ensures s.root[j] == mid.root[j] || s.root[j] == 0 {
      assert At(P, s, RootNode(j)) == s.root[j] && At(P, mid, RootNode(j)) == mid.root[j];
    }
    FewerRootsTree(P, mid, s.root, s');
    forall n | IsNode(P, n) && At(P, s, n) != 0 ensures At(P, s', n) == At(P, s, n) {
      UnderRoot(P, n);
      if s.root[n.slot] == 0 { ZeroBelow(P, s, RootNode(n.slot), n); }
    }
    forall b: nat
      ensures b in OthersOf(P, s') <==> b in OthersOf(P, s) || LostBlock(P, s, mid, b)
    {
      AbandonBlock(P, s, mid, s', b);
    }
  }

  lemma {:induction false} EmptyPtr(P: nat, root: seq<nat>, blocks: map<nat, seq<nat>>, n: Node)
    requires P > 0 && |root| == SLOTS && n.slot < SLOTS && forall i :: 0 <= i < SLOTS ==> root[i] == 0
    ensures Ptr(P, root, blocks, n) == 0
    decreases Depth(n.slot) - n.height
  {
    if !IsRoot(n) { EmptyPtr(P, root, blocks, Parent(P, n)); }
  }

  lemma EmptyTree(P: nat, root: seq<nat>, blocks: map<nat, seq<nat>>, used: set<nat>)
    requires P > 0 && |root| == SLOTS && forall i :: 0 <= i < SLOTS ==> root[i] == 0
    ensures TreeOk(P, root, blocks, used) && Filled(P, Image(root, blocks, used), 0)
    ensures Others(P, root, blocks, used) == used
  {
    forall n: Node | n.slot < SLOTS ensures Ptr(P, root, blocks, n) == 0 { EmptyPtr(P, root, blocks, n); }
  }

  /** From an empty inode everything is lost. */
  lemma LostFile(P: nat, s: Image, mid: Image, s': Image)
    requires Ok(P, s) && Filled(P, s, 0) && Abandoned(P, s, mid, s')
    ensures Filled(P, s', 0) && OthersOf(P, s') == s'.used
  {
    forall j | 0 <= j < SLOTS
      ensures s.root[j] == 0
    {
      assert At(P, s, RootNode(j)) == s.root[j] && IsNode(P, RootNode(j));
    }
    EmptyTree(P, s'.root, s'.blocks, s'.used);
  }

  lemma EmptyOthers(P: nat, s: Image)
    requires Ok(P, s) && Filled(P, s, 0)
    ensures OthersOf(P, s) == s.used
  {}

  ghost predicate SlotBlock(P: nat, s: Image, k: nat, b: nat)
    requires Ok(P, s)
  {
    exists j :: 0 <= j < k && SubBlock(P, s, RootNode(j), b)
  }

  ghost predicate FreedSlots(P: nat, s: Image, k: nat, used: set<nat>, after: set<nat>)
    requires Ok(P, s)
  {
    forall b: nat :: b in after <==> b in used && !SlotBlock(P, s, k, b)
  }

  /** All blocks of the subtree are in use. */
  ghost predicate Holds(P: nat, s: Image, n: Node, used: set<nat>)
    requires Ok(P, s)
  {
    forall b :: SubBlock(P, s, n, b) ==> b in used
  }

  lemma SlotReady(P: nat, s: Image, j: nat, before: set<nat>)
    requires Ok(P, s) && j < SLOTS && FreedSlots(P, s, j, s.used, before)
    ensures IsNode(P, RootNode(j)) && Holds(P, s, RootNode(j), before)
  {
    forall b | SubBlock(P, s, RootNode(j), b) ensures b in before {
      var m :| IsNode(P, m) && OnPath(P, RootNode(j), m) && At(P, s, m) == b;
      assert NodeOk(P, s.root, s.blocks, s.used, m);
      if SlotBlock(P, s, j, b) {
        var i :| 0 <= i < j && SubBlock(P, s, RootNode(i), b);
        var o :| IsNode(P, o) && OnPath(P, RootNode(i), o) && At(P, s, o) == b;
        AboveIsHigher(P, RootNode(j), m);
        AboveIsHigher(P, RootNode(i), o);
      }
    }
  }

  /** Exactly the blocks of the subtree went out of use ... */
  ghost predicate Freed(P: nat, s: Image, n: Node, used: set<nat>, after: set<nat>)
    requires Ok(P, s)
  {
    forall b: nat :: b in after <==> b in used && !SubBlock(P, s, n, b)
  }

  lemma SlotStep(P: nat, s: Image, j: nat, before: set<nat>, after: set<nat>)
    requires Ok(P, s) && j < SLOTS && FreedSlots(P, s, j, s.used, before) && Freed(P, s, RootNode(j), before, after)
    ensures FreedSlots(P, s, j + 1, s.used, after)
  {}

  lemma AllFreed(P: nat, s: Image, after: set<nat>)
    requires Ok(P, s) && FreedSlots(P, s, SLOTS, s.used, after)
    ensures after == OthersOf(P, s)
  {
    forall b: nat ensures SlotBlock(P, s, SLOTS, b) <==> IsNodeBlock(P, s.root, s.blocks, b) {
      if SlotBlock(P, s, SLOTS, b) {
        var j :| 0 <= j < SLOTS && SubBlock(P, s, RootNode(j), b);
        var m :| IsNode(P, m) && OnPath(P, RootNode(j), m) && At(P, s, m) == b;
      }
      if IsNodeBlock(P, s.root, s.blocks, b) {
        var m :| IsNode(P, m) && Ptr(P, s.root, s.blocks, m) == b;
        UnderRoot(P, m);
        assert SubBlock(P, s, RootNode(m.slot), b);
      }
    }
  }

  /** One file block was (or, if not `ok`, was not) given a block. */
  ghost predicate Wrote(P: nat, s: Image, bi: nat, ok: bool, s': Image)
    requires Ok(P, s) && bi < Capacity(P)
  {
    && Ok(P, s') && OthersOf(P, s') == OthersOf(P, s) && KeepsFile(P, s, s') && s.used <= s'.used
    && (forall m :: IsNode(P, m) && m.height == 0 && m != DataNode(P, bi) ==> At(P, s', m) == At(P, s, m))
    && (if ok then At(P, s', DataNode(P, bi)) != 0 else At(P, s', DataNode(P, bi)) == At(P, s, DataNode(P, bi)))
    && (ok ==> PathFilled(P, s, DataNode(P, bi), s') && |s'.used| == |s.used| + Absent(P, s, DataNode(P, bi)))
  }

  lemma SameNodes(P: nat, s: Image, s1: Image)
    requires Ok(P, s) && Ok(P, s1) && forall m :: IsNode(P, m) ==> At(P, s1, m) == At(P, s, m)
    ensures forall b :: IsNodeBlock(P, s1.root, s1.blocks, b) <==> IsNodeBlock(P, s.root, s.blocks, b)
  {}

  lemma AllocStep(P: nat, s: Image, b: nat, z: seq<nat>, s1: Image)
    requires Ok(P, s) && b != 0 && b !in s.used && s1 == Image(s.root, s.blocks[b := z], s.used + {b})
    ensures Ok(P, s1) && (forall m :: IsNode(P, m) ==> At(P, s1, m) == At(P, s, m))
    ensures OthersOf(P, s1) == OthersOf(P, s) + {b} && !IsNodeBlock(P, s1.root, s1.blocks, b)
  {
    UnusedIsNoNode(P, s.root, s.blocks, s.used, b);
    OtherBlockTree(P, s.root, s.blocks, s.used, b, z, s1.used);
    SameNodes(P, s, s1);
  }

  lemma WrotePlaced(P: nat, s: Image, bi: nat, b: nat, s1: Image, s2: Image)
    requires Ok(P, s) && Ok(P, s1) && Ok(P, s2) && bi < Capacity(P) && b != 0 && b !in s.used && s1.used == s.used + {b}
    requires (forall m :: IsNode(P, m) ==> At(P, s1, m) == At(P, s, m)) && OthersOf(P, s1) == OthersOf(P, s) + {b}
    requires At(P, s, DataNode(P, bi)) == 0 && Placed(P, s1, DataNode(P, bi), b, s2)
    ensures Wrote(P, s, bi, true, s2)
  {
    var n := DataNode(P, bi);
    forall m | IsNode(P, m) && m.height == 0 && m != n ensures At(P, s2, m) == At(P, s, m) {
      if OnPath(P, m, n) { AboveIsHigher(P, m, n); OnePath(P, m, n, n); }
    }
    if !IsRoot(n) {
      ParentIsNode(P, n);
      AbsentSame(P, s, s1, Parent(P, n));
    }
  }

  lemma WrotePresent(P: nat, s: Image, bi: nat)
    requires Ok(P, s) && bi < Capacity(P) && At(P, s, DataNode(P, bi)) != 0
    ensures Wrote(P, s, bi, true, s)
  {
    var n := DataNode(P, bi);
    PresentAbsent(P, s, n);
    forall m | IsNode(P, m) && OnPath(P, m, n) ensures At(P, s, m) != 0 { PresentPath(P, s, n, m); }
  }

  lemma FreeUnplaced(P: nat, s: Image, bi: nat, b: nat, s1: Image, s2: Image)
    requires Ok(P, s) && Ok(P, s1) && Ok(P, s2) && bi < Capacity(P) && b !in s.used && s1.used == s.used + {b}
    requires (forall m :: IsNode(P, m) ==> At(P, s1, m) == At(P, s, m)) && OthersOf(P, s1) == OthersOf(P, s) + {b}
    requires NotPlaced(P, s1, Parent(P, DataNode(P, bi)), s2) && bi >= 12
    ensures b in s2.used && !IsNodeBlock(P, s2.root, s2.blocks, b) && OthersOf(P, s2) - {b} == OthersOf(P, s)
    ensures forall m :: IsNode(P, m) && (At(P, s, m) != 0 || m.height == 0) ==> At(P, s2, m) == At(P, s, m)
  {}

  lemma UnplacedCount(P: nat, s: Image, bi: nat, b: nat, s1: Image, s2: Image)
    requires Ok(P, s) && Ok(P, s1) && Ok(P, s2) && 12 <= bi < Capacity(P) && b !in s.used && s1.used == s.used + {b}
    requires (forall m :: IsNode(P, m) ==> At(P, s1, m) == At(P, s, m))
    requires NotPlaced(P, s1, Parent(P, DataNode(P, bi)), s2)
    ensures |s2.used| < |s.used| + 1 + AbsentAbove(P, s, DataNode(P, bi))
  {
    ParentIsNode(P, DataNode(P, bi));
    AbsentSame(P, s, s1, Parent(P, DataNode(P, bi)));
  }

  lemma DropOther(P: nat, s: Image, b: nat, s': Image)
    requires Ok(P, s) && b in s.used && !IsNodeBlock(P, s.root, s.blocks, b)
    requires s' == Image(s.root, s.blocks, s.used - {b})
    ensures Ok(P, s') && OthersOf(P, s') == OthersOf(P, s) - {b}
  {}

  /** One more turn of the write loop. */
  lemma WroteOn(P: nat, was: Image, s: Image, bi: nat, ok: bool, s': Image)
    requires Ok(P, was) && Ok(P, s) && bi < Capacity(P) && Wrote(P, s, bi, ok, s') && Written(P, was, s, bi)
    ensures ok ==> Written(P, was, s', bi + 1)
    ensures OthersOf(P, s') == OthersOf(P, was) && KeepsFile(P, was, s') && was.used <= s'.used
  {
    forall bj | 0 <= bj < Capacity(P) && bj != bi ensures At(P, s', DataNode(P, bj)) == At(P, s, DataNode(P, bj)) {
      DataNodeBijection(P, DataNode(P, bi), bi, bj);
    }
    if ok {
      UpToStep(P, was, s, bi, s');
      DataFirst(P, bi);
      AbsentIsWanting(P, was, s, DataNode(P, bi), bi);
      if Filled(P, was, 0) { NeededEmpty(P, was, bi + 1); }
    }
  }

  /** ... or those of the first `k` children. */
  ghost predicate FreedBelow(P: nat, s: Image, n: Node, k: nat, used: set<nat>, after: set<nat>)
    requires Ok(P, s) && n.height > 0
  {
    forall b: nat :: b in after <==> b in used && !ChildBlock(P, s, n, k, b)
  }

  lemma NothingBelow(P: nat, s: Image, n: Node, used: set<nat>)
    requires Ok(P, s) && IsNode(P, n) && At(P, s, n) == 0
    ensures Freed(P, s, n, used, used)
  {
    forall b ensures !SubBlock(P, s, n, b) { ZeroChild(P, s, n, b); }
  }

  lemma LeafReady(P: nat, s: Image, c: Node, used: set<nat>)
    requires Ok(P, s) && IsNode(P, c) && c.height == 0 && Holds(P, s, c, used) && At(P, s, c) != 0
    ensures At(P, s, c) in used
  {}

  lemma LeafBlock(P: nat, s: Image, c: Node)
    requires Ok(P, s) && IsNode(P, c) && c.height == 0
    ensures forall b :: SubBlock(P, s, c, b) <==> b != 0 && b == At(P, s, c)
  {
    forall b ensures SubBlock(P, s, c, b) <==> b != 0 && b == At(P, s, c) {
      if SubBlock(P, s, c, b) {
        var m :| IsNode(P, m) && OnPath(P, c, m) && At(P, s, m) == b;
        AboveIsHigher(P, c, m);
        OnePath(P, c, m, m);
      }
      assert OnPath(P, c, c);
    }
  }

  lemma LeafFreed(P: nat, s: Image, c: Node, used: set<nat>, after: set<nat>)
    requires Ok(P, s) && IsNode(P, c) && c.height == 0 && At(P, s, c) != 0 && after == used - {At(P, s, c)}
    ensures Freed(P, s, c, used, after)
  {
    LeafBlock(P, s, c);
  }

  /** The next child is there to be freed. */
  lemma FreeReady(P: nat, s: Image, n: Node, i: nat, used: set<nat>, before: set<nat>)
    requires Ok(P, s) && IsNode(P, n) && n.height > 0 && i < P && At(P, s, n) != 0
    requires Holds(P, s, n, used)
    requires FreedBelow(P, s, n, i, used, before)
    ensures var c := Child(P, n, i); IsNode(P, c) && At(P, s, c) == s.blocks[At(P, s, n)][i]
    ensures Holds(P, s, Child(P, n, i), before)
  {
    var c := Child(P, n, i);
    ChildIs(P, n, i);
    forall b | SubBlock(P, s, c, b) ensures b in before {
      assert ChildBlock(P, s, n, P, b);
      SubtreeSplit(P, s, n, b);
      ChildrenApart(P, s, n, i, i, b);
    }
  }

  lemma FreeStep(P: nat, s: Image, n: Node, i: nat, used: set<nat>, before: set<nat>, after: set<nat>)
    requires Ok(P, s) && IsNode(P, n) && n.height > 0 && i < P
    requires FreedBelow(P, s, n, i, used, before)
    requires Freed(P, s, Child(P, n, i), before, after)
    ensures FreedBelow(P, s, n, i + 1, used, after)
  {}

  lemma FreeLast(P: nat, s: Image, n: Node, used: set<nat>, before: set<nat>)
    requires Ok(P, s) && IsNode(P, n) && n.height > 0 && At(P, s, n) != 0
    requires Holds(P, s, n, used)
    requires FreedBelow(P, s, n, P, used, before)
    ensures At(P, s, n) in before
  {
    NodeApart(P, s, n);
    SubtreeSplit(P, s, n, At(P, s, n));
  }

  lemma FreeDone(P: nat, s: Image, n: Node, used: set<nat>, before: set<nat>, after: set<nat>)
    requires Ok(P, s) && IsNode(P, n) && n.height > 0 && At(P, s, n) != 0
    requires FreedBelow(P, s, n, P, used, before)
    requires after == before - {At(P, s, n)}
    ensures Freed(P, s, n, used, after)
  {
    forall b: nat ensures b in after <==> b in used && !SubBlock(P, s, n, b) { SubtreeSplit(P, s, n, b); }
  }

  lemma {:induction false} ZeroSum(s: seq<nat>)
    requires forall i :: 0 <= i < |s| ==> s[i] == 0
    ensures Sum(s) == 0
  {
    if s != [] { ZeroSum(s[..|s| - 1]); }
  }

  lemma AllFull(free: seq<nat>, preferred: nat)
    requires free != [] && forall k :: 0 <= k < |free| ==> free[Visit(preferred, k, |free|)] == 0
    ensures Sum(free) == 0
  {
    forall g | 0 <= g < |free| ensures free[g] == 0 { var k := Visited(preferred, |free|, g); }
    ZeroSum(free);
  }

  /** A node's parent, once stored, is a pointer block. */
  lemma ParentPtr(P: nat, s: Image, n: Node, up: nat)
    requires P > 0 && |s.root| == SLOTS && !IsRoot(n) && IsNode(P, n) && IsNode(P, Parent(P, n)) && up != 0
    requires At(P, s, Parent(P, n)) == up
    ensures PtrBlock(P, s, up)
  {
    assert Parent(P, n).height > 0;
  }

  /** A new block was zeroed directly, and hooked in for file block `bi` or not at all. */
  lemma StraightStep(P: nat, s: Image, t: Trace, bi: nat, b: nat, s1: Image, t1: Trace, ok: bool, s2: Image, t2: Trace)
    requires Ok(P, s) && Ok(P, s1) && Ok(P, s2) && bi < Capacity(P) && DataStraight(P, s, t) && b != 0
    requires (forall m :: IsNode(P, m) ==> At(P, s1, m) == At(P, s, m)) && t1 == t + [Cache.DirectOp(b, seq(P, _ => 0))]
    requires if ok then Placed(P, s1, DataNode(P, bi), b, s2)
             else bi >= 12 && NotPlaced(P, s1, Parent(P, DataNode(P, bi)), s2)
    requires Grown(P, s2, t1, t2)
    ensures DataStraight(P, s2, t2)
  {
    DataStays(P, s, t, s1, t1, 0);
    ShowsDirect(map[], t, b, seq(P, _ => 0));
    forall n | IsNode(P, n) && n.height == 0 && At(P, s2, n) != 0
      ensures At(P, s2, n) == At(P, s1, n) || At(P, s2, n) == b
    {
      var d := DataNode(P, bi);
      if ok && OnPath(P, n, d) { AboveIsHigher(P, n, d); OnePath(P, n, d, d); }
    }
    DataStays(P, s1, t1, s2, t2, b);
  }

  /** The pointer blocks that could not be had, and the block that was, are more than were free. */
  lemma TooFew(P: nat, s: Image, bi: nat, b: nat, s1: Image, s2: Image, v: Groups, w: Groups)
    requires Ok(P, s) && Ok(P, s1) && Ok(P, s2) && 12 <= bi < Capacity(P) && b !in s.used && s1.used == s.used + {b}
    requires (forall m :: IsNode(P, m) ==> At(P, s1, m) == At(P, s, m))
    requires NotPlaced(P, s1, Parent(P, DataNode(P, bi)), s2)
    requires GroupsOk(v) && GroupsOk(w) && SameShape(v, w) && s.used == Used(v) && s2.used == Used(w) && w.sbFree == 0
    requires At(P, s, DataNode(P, bi)) == 0
    ensures v.sbFree < Absent(P, s, DataNode(P, bi))
  {
    UnplacedCount(P, s, bi, b, s1, s2);
    UsedCount(v);
    UsedCount(w);
  }

  lemma Unwrote(P: nat, s: Image, bi: nat, b: nat, s1: Image, s2: Image, s': Image)
    requires Ok(P, s) && Ok(P, s1) && Ok(P, s2) && 12 <= bi < Capacity(P) && b !in s.used && s1.used == s.used + {b}
    requires (forall m :: IsNode(P, m) ==> At(P, s1, m) == At(P, s, m)) && OthersOf(P, s1) == OthersOf(P, s) + {b}
    requires NotPlaced(P, s1, Parent(P, DataNode(P, bi)), s2) && s' == Image(s2.root, s2.blocks, s2.used - {b})
    ensures Wrote(P, s, bi, false, s')
  {
    FreeUnplaced(P, s, bi, b, s1, s2);
    DropOther(P, s2, b, s');
  }

  /** A new pointer block was zeroed directly and stored in the one above it, through the cache. */
  lemma ChildTracked(P: nat, s: Image, n: Node, up: nat, blocks: map<nat, seq<nat>>, t: Trace, b: nat, z: seq<nat>,
                     data: seq<nat>, trace: Trace)
    requires P > 0 && |s.root| == SLOTS && !IsRoot(n) && IsNode(P, n) && IsNode(P, Parent(P, n))
    requires up != 0 && At(P, s, Parent(P, n)) == up
    requires trace == t + [Cache.DirectOp(b, z)] + [Cache.WriteOp(up, data)]
    ensures Grown(P, s, t, trace) && (Shows(blocks, t) ==> Shows(blocks[b := z][up := data], trace))
  {
    ParentPtr(P, s, n, up);
    ShowsDirect(blocks, t, b, z);
    ShowsWrite(blocks[b := z], t + [Cache.DirectOp(b, z)], up, data);
  }

  class Volume {
    const bpg: nat
    const total: nat
    const P: nat
    const groups: nat
    var bitmaps: seq<set<nat>>
    var free: seq<nat>
    var sbFree: nat
    var hints: seq<nat>
    var blocks: map<nat, seq<nat>>
    var root: seq<nat>      // i_block of the inode in memory
    var stored: seq<nat>    // i_block of the inode on disk
    ghost var trace: seq<Cache.Op> // the writes of file and pointer blocks, as the cache sees them

    ghost function View(): Groups
      reads this
    {
      Groups(bpg, total, bitmaps, free, sbFree)
    }

    ghost predicate GroupsValid()
      reads this
    {
      GroupsOk(View()) && |hints| == |bitmaps| == groups
    }

    ghost function InUseNow(): set<nat>
      requires bpg > 0
      reads this
    {
      Used(View())
    }

    ghost function Now(): Image
      requires bpg > 0
      reads this
    {
      Image(root, blocks, InUseNow())
    }

    ghost predicate Valid()
      reads this
    {
      GroupsValid() && TreeOk(P, root, blocks, InUseNow())
    }

    /** No inode is in memory that differs from the one on disk. */
    ghost predicate Settled()
      reads this
    {
      Valid() && root == stored
    }

    constructor (bpg: nat, total: nat, P: nat, bitmaps: seq<set<nat>>, free: seq<nat>, sbFree: nat, hints: seq<nat>)
      requires GroupsOk(Groups(bpg, total, bitmaps, free, sbFree)) && |hints| == |bitmaps| && P > 0
      ensures this.P == P && View() == Groups(bpg, total, bitmaps, free, sbFree) && Settled() && Filled(P, Now(), 0)
      ensures Shows(blocks, trace) && DataStraight(P, Now(), trace)
    {
      this.bpg, this.total, this.P, this.groups := bpg, total, P, |bitmaps|;
      this.bitmaps, this.free, this.sbFree, this.hints := bitmaps, free, sbFree, hints;
      blocks, root, stored, trace := map[], seq(SLOTS, _ => 0), seq(SLOTS, _ => 0), [];
      new;
      EmptyTree(P, root, blocks, InUseNow());
    }

    /** Searching one group from its hint. */
    method Scan(g: nat, count: nat) returns (bi: int, ghost steps: nat)
      requires g < |bitmaps| && g < |hints| && count > 0
      ensures bi >= 0 ==> bi < count && FirstClear(bitmaps[g], hints[g] % count, count, bi, steps)
      ensures bi < 0 ==> Block(0, count) <= bitmaps[g]
    {
      var start := hints[g] % count;
      for scan := 0 to count
        invariant forall k :: 0 <= k < scan ==> Visit(start, k, count) in bitmaps[g]
      {
        var i := Visit(start, scan, count);
        if i !in bitmaps[g] { return i, scan; }
      }
      forall i | i in Block(0, count) ensures i in bitmaps[g] {
        var k := Visited(start, count, i);
      }
      bi, steps := -1, 0;
    }

    /** Setting the bit found, its counts and the hint, and zeroing the block. */
    method Take(g: nat, bi: nat) returns (b: nat)
      requires GroupsValid() && g < |bitmaps| && bi < Size(View(), g) && bi !in bitmaps[g]
      modifies this`bitmaps, this`free, this`sbFree, this`hints, this`blocks, this`trace
      ensures GroupsValid()
      ensures b == Number(bpg, g, bi) && b != 0 && b !in old(InUseNow()) && InUseNow() == old(InUseNow()) + {b}
      ensures blocks == old(blocks)[b := seq(P, _ => 0)] && trace == old(trace) + [Cache.DirectOp(b, seq(P, _ => 0))]
    {
      ghost var was := View();
      bitmaps := bitmaps[g := bitmaps[g] + {bi}];
      hints := hints[g := bi + 1];
      if free[g] > 0 { free := free[g := free[g] - 1]; }
      if sbFree > 0 { sbFree := sbFree - 1; }
      Taken(was, g, bi, View());
      b := Number(bpg, g, bi);
      blocks := blocks[b := seq(P, _ => 0)];
      trace := trace + [Cache.DirectOp(b, seq(P, _ => 0))];
    }

    /** `alloc_block`. */
    method Alloc(preferred: nat) returns (b: nat)
      requires GroupsValid()
      modifies this`bitmaps, this`free, this`sbFree, this`hints, this`blocks, this`trace
      ensures GroupsValid()
      ensures b == 0 ==> View() == old(View()) && blocks == old(blocks) && sbFree == 0 && trace == old(trace)
      ensures b != 0 ==> b !in old(InUseNow()) && InUseNow() == old(InUseNow()) + {b}
      ensures b != 0 ==>
                blocks == old(blocks)[b := seq(P, _ => 0)] && trace == old(trace) + [Cache.DirectOp(b, seq(P, _ => 0))]
      ensures b != 0 ==> exists k: nat, j: nat :: Chosen(old(View()), old(hints), preferred, b, k, j)
    {
      for gi := 0 to |bitmaps|
        invariant View() == old(View()) && blocks == old(blocks) && hints == old(hints) && trace == old(trace)
        invariant forall k :: 0 <= k < gi ==> free[Visit(preferred, k, |bitmaps|)] == 0
      {
        var g := Visit(preferred, gi, |bitmaps|);
        if free[g] == 0 { continue; }
        var count := GroupSize(bpg, total, |bitmaps|, g);
        assert GroupOk(View(), g);
        if count == 0 { continue; }
        ghost var j;
        var bi;
        bi, j := Scan(g, count);
        FullGroup(View(), g);
        if bi < 0 { continue; }
        b := Take(g, bi);
        assert Chosen(old(View()), old(hints), preferred, b, gi, j);
        return;
      }
      AllFull(free, preferred);
      b := 0;
    }

    /** `free_block`. Freeing a block that is not in use makes the counts exceed the clear bits. */
    method Free(b: nat)
      requires GroupsValid()
      modifies this`bitmaps, this`free, this`sbFree, this`hints
      ensures GroupsValid() <==> b == 0 || b / bpg >= groups || b in old(InUseNow())
      ensures b == 0 || b / bpg >= groups ==> View() == old(View())
      ensures b != 0 && b in old(InUseNow()) ==> InUseNow() == old(InUseNow()) - {b} && sbFree == old(sbFree) + 1
      ensures b / bpg < groups && b !in old(InUseNow()) ==>
                bitmaps == old(bitmaps) && free == old(free)[b / bpg := old(free)[b / bpg] + 1]
                && sbFree == old(sbFree) + 1
    {
      ghost var was := View();
      if b == 0 { return; }
      var g, bi := b / bpg, b % bpg;
      if g >= groups { return; }
      bitmaps := bitmaps[g := bitmaps[g] - {bi}];
      if bi < hints[g] { hints := hints[g := bi]; }
      free := free[g := free[g] + 1];
      sbFree := sbFree + 1;
      UsedIff(was, b);
      Cleared(was, b, View());
    }

    // ---- the block map ----

    /** Only pointer blocks were written through the cache, and the cache and the device show what the volume holds. */
    twostate predicate Tracked()
      requires bpg > 0 && P > 0 && |root| == SLOTS
      reads this
    {
      Grown(P, Now(), old(trace), trace) && (old(Shows(blocks, trace)) ==> Shows(blocks, trace))
    }

    /** Making sure the pointer block in root slot 12, 13 or 14 exists. */
    method EnsureRoot(slot: nat, preferred: nat) returns (b: nat)
      requires Valid() && 12 <= slot < SLOTS
      modifies this`bitmaps, this`free, this`sbFree, this`hints, this`blocks, this`trace, this`root
      ensures Valid() && Ensured(P, old(Now()), Node(slot, Depth(slot), 0), b, Now()) && (b == 0 ==> sbFree == 0)
      ensures Tracked()
    {
      if root[slot] == 0 {
        ghost var n := Node(slot, Depth(slot), 0);
        b := Alloc(preferred);
        if b == 0 { return; }
        ShowsDirect(old(blocks), old(trace), b, seq(P, _ => 0));
        root := root[slot := b];
        HookIn(P, old(root), old(blocks), old(InUseNow()), n, b, seq(P, _ => 0), root, blocks);
        OneNodeOthers(P, old(root), old(blocks), old(InUseNow()), root, blocks, n, b);
      }
      b := root[slot];
    }

    /** Making sure the pointer block in entry `i` of pointer block `up` exists. */
    method EnsureChild(up: nat, i: nat, preferred: nat, ghost n: Node) returns (b: nat)
      requires Valid() && IsNode(P, n) && n.height > 0 && !IsRoot(n) && IsNode(P, Parent(P, n))
      requires i == n.index % P && up != 0 && up == At(P, Now(), Parent(P, n))
      modifies this`bitmaps, this`free, this`sbFree, this`hints, this`blocks, this`trace
      ensures Valid() && Ensured(P, old(Now()), n, b, Now()) && (b == 0 ==> sbFree == 0)
      ensures Tracked()
    {
      assert NodeOk(P, root, blocks, InUseNow(), Parent(P, n));
      if blocks[up][i] == 0 {
        var l := blocks[up];
        b := Alloc(preferred);
        if b == 0 { return; }
        blocks := blocks[up := Put(l, i, b)];
        trace := trace + [Cache.WriteOp(up, blocks[up])];
        HookIn(P, root, old(blocks), old(InUseNow()), n, b, seq(P, _ => 0), root, blocks);
        OneNodeOthers(P, root, old(blocks), old(InUseNow()), root, blocks, n, b);
        ChildTracked(P, Now(), n, up, old(blocks), old(trace), b, seq(P, _ => 0), Put(l, i, b), trace);
      }
      b := blocks[up][i];
    }

    /** Storing a file block number in the pointer block above it. */
    method StorePtr(up: nat, i: nat, v: nat, ghost was: Image, ghost n: Node)
      requires Valid() && Ok(P, was) && v != 0 && v in was.used && !IsNodeBlock(P, was.root, was.blocks, v)
      requires IsNode(P, n) && n.height == 0 && !IsRoot(n) && IsNode(P, Parent(P, n))
      requires Present(P, was, Parent(P, n), Now())
      requires i == n.index % P && up == At(P, Now(), Parent(P, n))
      modifies this`blocks, this`trace
      ensures Valid() && Placed(P, was, n, v, Now()) && Tracked() && PtrsKept(P, old(Now()), Now())
    {
      assert NodeOk(P, root, blocks, InUseNow(), Parent(P, n)) && OnPath(P, Parent(P, n), Parent(P, n));
      ShowsWrite(blocks, trace, up, Put(blocks[up], i, v));
      blocks := blocks[up := Put(blocks[up], i, v)];
      trace := trace + [Cache.WriteOp(up, blocks[up])];
      StoreData(P, was, n, v, old(Now()), Now());
      ParentPtr(P, Now(), n, up);
    }

    method SetSingle(i: nat, v: nat, preferred: nat) returns (ok: bool)
      requires Valid() && v != 0 && v in InUseNow() && !IsNodeBlock(P, root, blocks, v) && i < P
      modifies this`bitmaps, this`free, this`sbFree, this`hints, this`blocks, this`trace, this`root
      ensures Valid() && if ok then Placed(P, old(Now()), Node(12, 0, i), v, Now())
                         else sbFree == 0 && NotPlaced(P, old(Now()), Parent(P, Node(12, 0, i)), Now())
      ensures Tracked()
    {
      ghost var n := Node(12, 0, i);
      SinglePath(P, i);
      var l1 := EnsureRoot(12, preferred);
      if l1 == 0 { return false; }
      RootPresent(P, old(Now()), Node(12, 1, 0), l1, Now());
      ghost var mid, t := Now(), trace;
      StorePtr(l1, i, v, old(Now()), n);
      GrownThen(P, mid, Now(), old(trace), t, trace);
      ok := true;
    }

    method SetDouble(i: nat, v: nat, preferred: nat) returns (ok: bool)
      requires Valid() && v != 0 && v in InUseNow() && !IsNodeBlock(P, root, blocks, v) && i < P * P
      modifies this`bitmaps, this`free, this`sbFree, this`hints, this`blocks, this`trace, this`root
      ensures Valid() && if ok then Placed(P, old(Now()), Node(13, 0, i), v, Now())
                         else sbFree == 0 && NotPlaced(P, old(Now()), Parent(P, Node(13, 0, i)), Now())
      ensures Tracked()
    {
      DoublePath(P, i);
      ghost var was := Now();
      ghost var n1 := Node(13, 1, i / P);
      var l1 := EnsureRoot(13, preferred);
      if l1 == 0 { return false; }
      RootPresent(P, was, Node(13, 2, 0), l1, Now());
      ghost var mid, t := Now(), trace;
      var l2 := EnsureChild(l1, i / P, preferred, n1);
      GrownThen(P, mid, Now(), old(trace), t, trace);
      if l2 == 0 { PresentNotPlaced(P, was, Node(13, 2, 0), mid, n1); return false; }
      ChildPresent(P, was, n1, mid, l2, Now());
      mid, t := Now(), trace;
      StorePtr(l2, i % P, v, was, Node(13, 0, i));
      GrownThen(P, mid, Now(), old(trace), t, trace);
      ok := true;
    }

    /** The first two pointer blocks of a path in the triple tree. */
    method EnsureTriple(i: nat, preferred: nat, ghost n: Node) returns (l2: nat)
      requires Valid() && n.slot == 14 && n.height == 2 && IsNode(P, n) && i == n.index % P
      requires Parent(P, n) == Node(14, 3, 0)
      modifies this`bitmaps, this`free, this`sbFree, this`hints, this`blocks, this`trace, this`root
      ensures Valid() && if l2 != 0 then Present(P, old(Now()), n, Now()) && l2 == At(P, Now(), n)
                         else sbFree == 0 && NotPlaced(P, old(Now()), n, Now())
      ensures Tracked()
    {
      ghost var was := Now();
      var l1 := EnsureRoot(14, preferred);
      if l1 == 0 { return 0; }
      RootPresent(P, was, Node(14, 3, 0), l1, Now());
      ghost var s1, t := Now(), trace;
      l2 := EnsureChild(l1, i, preferred, n);
      GrownThen(P, s1, Now(), old(trace), t, trace);
      if l2 == 0 { PresentNotPlaced(P, was, Node(14, 3, 0), s1, n); return; }
      ChildPresent(P, was, n, s1, l2, Now());
    }

    method SetTriple(i: nat, v: nat, preferred: nat) returns (ok: bool)
      requires Valid() && v != 0 && v in InUseNow() && !IsNodeBlock(P, root, blocks, v) && i < P * P * P
      modifies this`bitmaps, this`free, this`sbFree, this`hints, this`blocks, this`trace, this`root
      ensures Valid() && if ok then Placed(P, old(Now()), Node(14, 0, i), v, Now())
                         else sbFree == 0 && NotPlaced(P, old(Now()), Parent(P, Node(14, 0, i)), Now())
      ensures Tracked()
    {
      TriplePath(P, i);
      ghost var was := Now();
      ghost var n2, n1 := Node(14, 2, i / P / P), Node(14, 1, i / P);
      var l2 := EnsureTriple(i / (P * P), preferred, n2);
      if l2 == 0 { return false; }
      ghost var s2, t := Now(), trace;
      var l3 := EnsureChild(l2, (i / P) % P, preferred, n1);
      GrownThen(P, s2, Now(), old(trace), t, trace);
      if l3 == 0 { PresentNotPlaced(P, was, n2, s2, n1); return false; }
      ChildPresent(P, was, n1, s2, l3, Now());
      s2, t := Now(), trace;
      StorePtr(l3, i % P, v, was, Node(14, 0, i));
      GrownThen(P, s2, Now(), old(trace), t, trace);
      ok := true;
    }

    method SetNode(bi: nat, v: nat, preferred: nat, ghost n: Node) returns (ok: bool)
      requires Valid() && v != 0 && v in InUseNow() && !IsNodeBlock(P, root, blocks, v) && bi < Capacity(P)
      requires n == DataNode(P, bi)
      modifies this`bitmaps, this`free, this`sbFree, this`hints, this`blocks, this`trace, this`root
      ensures Valid()
      ensures if ok then Placed(P, old(Now()), n, v, Now())
              else sbFree == 0 && bi >= 12 && NotPlaced(P, old(Now()), Parent(P, n), Now())
      ensures Tracked()
    {
      if bi < 12 {
        root := root[bi := v];
        StoreData(P, old(Now()), n, v, old(Now()), Now());
        return true;
      }
      if bi - 12 < P {
        ok := SetSingle(bi - 12, v, preferred);
      } else if bi - 12 - P < P * P {
        ok := SetDouble(bi - 12 - P, v, preferred);
      } else {
        ok := SetTriple(bi - 12 - P - P * P, v, preferred);
      }
    }

    /** `set_block_ptr`. */
    method SetBlockPtr(bi: nat, v: nat, preferred: nat) returns (ok: bool)
      requires Valid() && v != 0 && v in InUseNow() && !IsNodeBlock(P, root, blocks, v) && bi < Capacity(P)
      modifies this`bitmaps, this`free, this`sbFree, this`hints, this`blocks, this`trace, this`root
      ensures Valid()
      ensures forall bj :: 0 <= bj < Capacity(P) ==>
                GetBlock(P, root, blocks, bj) == if ok && bj == bi then v else old(GetBlock(P, root, blocks, bj))
      ensures if ok then Placed(P, old(Now()), DataNode(P, bi), v, Now())
              else sbFree == 0 && bi >= 12 && NotPlaced(P, old(Now()), Parent(P, DataNode(P, bi)), Now())
      ensures Tracked()
    {
      ok := SetNode(bi, v, preferred, DataNode(P, bi));
      forall bj | 0 <= bj < Capacity(P)
        ensures GetBlock(P, root, blocks, bj) == if ok && bj == bi then v else old(GetBlock(P, root, blocks, bj))
      {
        if ok { PlacedBlock(P, old(Now()), bi, v, Now(), bj); }
        else { NotPlacedBlock(P, old(Now()), Parent(P, DataNode(P, bi)), Now(), bj); }
      }
    }

    // ---- freeing ----

    /** `free_indirect`: every block of the subtree, each once. `s` is the map as it was when freeing began. */
    method FreeIndirect(blk: nat, depth: nat, ghost s: Image, ghost n: Node)
      requires GroupsValid() && Ok(P, s) && s.blocks == blocks && IsNode(P, n) && 1 <= depth == n.height
      requires blk == At(P, s, n)
      requires Holds(P, s, n, InUseNow())
      modifies this`bitmaps, this`free, this`sbFree, this`hints
      ensures GroupsValid()
      ensures Freed(P, s, n, old(InUseNow()), InUseNow())
      decreases depth
    {
      if blk == 0 {
        NothingBelow(P, s, n, InUseNow());
        return;
      }
      assert NodeOk(P, s.root, s.blocks, s.used, n);
      var buf := blocks[blk];
      for i := 0 to P
        invariant GroupsValid()
        invariant FreedBelow(P, s, n, i, old(InUseNow()), InUseNow())
      {
        ghost var before := InUseNow();
        ghost var c := Child(P, n, i);
        FreeReady(P, s, n, i, old(InUseNow()), before);
        if buf[i] != 0 {
          if depth == 1 {
            LeafReady(P, s, c, before);
            Free(buf[i]);
            LeafFreed(P, s, c, before, InUseNow());
          } else {
            FreeIndirect(buf[i], depth - 1, s, c);
          }
        } else {
          NothingBelow(P, s, c, before);
        }
        FreeStep(P, s, n, i, old(InUseNow()), before, InUseNow());
      }
      FreeLast(P, s, n, old(InUseNow()), InUseNow());
      ghost var last := InUseNow();
      Free(blk);
      FreeDone(P, s, n, old(InUseNow()), last, InUseNow());
    }

    /** One root slot of `free_all_blocks`. */
    method FreeSlot(j: nat, ghost s: Image)
      requires GroupsValid() && Ok(P, s) && s.blocks == blocks && j < SLOTS && |root| == SLOTS && root[j] == s.root[j]
      requires FreedSlots(P, s, j, s.used, InUseNow())
      modifies this`bitmaps, this`free, this`sbFree, this`hints, this`root
      ensures GroupsValid() && root == old(root)[j := 0]
      ensures FreedSlots(P, s, j + 1, s.used, InUseNow())
    {
      ghost var before := InUseNow();
      ghost var n := RootNode(j);
      SlotReady(P, s, j, before);
      if j < 12 {
        if root[j] != 0 {
          LeafReady(P, s, n, before);
          Free(root[j]);
          LeafFreed(P, s, n, before, InUseNow());
        } else {
          NothingBelow(P, s, n, before);
        }
      } else {
        FreeIndirect(root[j], Depth(j), s, n);
      }
      root := root[j := 0];
      SlotStep(P, s, j, before, InUseNow());
    }

    /** `free_all_blocks`. */
    method FreeAll()
      requires Valid()
      modifies this`bitmaps, this`free, this`sbFree, this`hints, this`root
      ensures Valid() && root == seq(SLOTS, _ => 0)
      ensures InUseNow() == OthersOf(P, old(Now()))
    {
      ghost var s := Now();
      for j := 0 to SLOTS
        invariant GroupsValid() && |root| == SLOTS
        invariant FreedSlots(P, s, j, s.used, InUseNow())
        invariant forall i :: 0 <= i < j ==> root[i] == 0
        invariant forall i :: j <= i < SLOTS ==> root[i] == s.root[i]
      {
        FreeSlot(j, s);
      }
      AllFreed(P, s, InUseNow());
      EmptyTree(P, root, blocks, InUseNow());
    }

    // ---- writing ----

    /** Read through the cache every block, and read straight from the device every block of file data, has the contents
        the volume holds for it. */
    ghost predicate ReadsRight()
      requires bpg > 0 && P > 0 && |root| == SLOTS
      reads this
    {
      Shows(blocks, trace) && DataStraight(P, Now(), trace)
    }

    /** Hooking in the new block, or giving it back. */
    method PlaceBlock(bi: nat, b: nat, preferred: nat, ghost s: Image, ghost v: Groups, ghost t: Trace) returns (ok: bool)
      requires Valid() && Ok(P, s) && bi < Capacity(P) && At(P, s, DataNode(P, bi)) == 0
      requires b != 0 && b !in s.used && InUseNow() == s.used + {b} && !IsNodeBlock(P, root, blocks, b)
      requires forall m :: IsNode(P, m) ==> At(P, Now(), m) == At(P, s, m)
      requires OthersOf(P, Now()) == OthersOf(P, s) + {b} && trace == t + [Cache.DirectOp(b, seq(P, _ => 0))]
      requires GroupsOk(v) && SameShape(v, View()) && s.used == Used(v)
      modifies this`bitmaps, this`free, this`sbFree, this`hints, this`blocks, this`trace, this`root
      ensures Valid() && Wrote(P, s, bi, ok, Now())
      ensures !ok ==> v.sbFree < Absent(P, s, DataNode(P, bi))
      ensures !ok ==> sbFree <= if bi < 12 then 0 else 1
      ensures DataStraight(P, s, t) ==> DataStraight(P, Now(), trace)
      ensures old(Shows(blocks, trace)) ==> Shows(blocks, trace)
    {
      ghost var s1, t1 := Now(), trace;
      ok := SetBlockPtr(bi, b, preferred);
      ghost var s2 := Now();
      if DataStraight(P, s, t) { StraightStep(P, s, t, bi, b, s1, t1, ok, s2, trace); }
      if ok {
        WrotePlaced(P, s, bi, b, s1, s2);
      } else {
        TooFew(P, s, bi, b, s1, s2, v, View());
        Free(b);
        Unwrote(P, s, bi, b, s1, s2, Now());
      }
    }

    method NewBlock(bi: nat, preferred: nat) returns (ok: bool)
      requires Valid() && bi < Capacity(P) && At(P, Now(), DataNode(P, bi)) == 0
      modifies this`bitmaps, this`free, this`sbFree, this`hints, this`blocks, this`trace, this`root
      ensures Valid() && Wrote(P, old(Now()), bi, ok, Now())
      ensures !ok ==> old(sbFree) < Absent(P, old(Now()), DataNode(P, bi))
      ensures !ok ==> sbFree <= if bi < 12 then 0 else 1
      ensures old(ReadsRight()) ==> ReadsRight()
    {
      ghost var s := Now();
      var b := Alloc(preferred);
      if b == 0 { return false; }
      AllocStep(P, s, b, seq(P, _ => 0), Now());
      ShowsDirect(s.blocks, old(trace), b, seq(P, _ => 0));
      ok := PlaceBlock(bi, b, preferred, s, old(View()), old(trace));
    }

    /** Giving one file block a block, unless it has one. It fails exactly when the block and the pointer blocks missing
        above it are more than are free. */
    method WriteBlock(bi: nat, preferred: nat) returns (ok: bool)
      requires Valid() && bi < Capacity(P)
      modifies this`bitmaps, this`free, this`sbFree, this`hints, this`blocks, this`trace, this`root
      ensures Valid() && Wrote(P, old(Now()), bi, ok, Now())
      ensures !ok ==> old(sbFree) < Absent(P, old(Now()), DataNode(P, bi))
      ensures !ok ==> sbFree <= if bi < 12 then 0 else 1
      ensures old(ReadsRight()) ==> ReadsRight()
    {
      GetBlockIsPtr(P, root, blocks, bi);
      var b := GetBlock(P, root, blocks, bi);
      if b == 0 {
        ok := NewBlock(bi, preferred);
      } else {
        WrotePresent(P, Now(), bi);
        ok := true;
      }
    }

    /** One turn of the loop of `ext2_write_file`, from `was` on. */
    method WriteNext(bi: nat, count: nat, preferred: nat, ghost was: Image, ghost v: Groups) returns (ok: bool)
      requires Valid() && bi < count <= Capacity(P) && Ok(P, was) && Written(P, was, Now(), bi)
      requires GroupsOk(v) && SameShape(v, View()) && was.used == Used(v)
      modifies this`bitmaps, this`free, this`sbFree, this`hints, this`blocks, this`trace, this`root
      ensures Valid() && SameShape(v, View())
      ensures ok ==> Written(P, was, Now(), bi + 1)
      ensures OthersOf(P, Now()) == OthersOf(P, was) && KeepsFile(P, was, Now()) && was.used <= InUseNow()
      ensures !ok ==> v.sbFree < Needed(P, was, count) && sbFree <= if bi < 12 then 0 else 1
      ensures !ok && Filled(P, was, 0) ==> |InUseNow()| >= |was.used| + bi && (bi == 0 ==> v.sbFree == 0)
      ensures old(ReadsRight()) ==> ReadsRight()
    {
      ghost var before, w := Now(), View();
      ok := WriteBlock(bi, preferred);
      WroteOn(P, was, before, bi, ok, Now());
      if !ok { Short(P, v, was, w, before, bi, count, InUseNow()); }
    }

    /** The loop of `ext2_write_file` without the bytes: giving the first `count` file blocks a block each. `done` is
        how far it came. */
    method WriteBlocks(count: nat, preferred: nat) returns (ok: bool, ghost done: nat)
      requires Valid() && count <= Capacity(P)
      modifies this`bitmaps, this`free, this`sbFree, this`hints, this`blocks, this`trace, this`root
      ensures Valid() && OthersOf(P, Now()) == OthersOf(P, old(Now())) && KeepsFile(P, old(Now()), Now())
      ensures ok ==> Written(P, old(Now()), Now(), count)
      ensures !ok ==> done < count && sbFree <= (if done < 12 then 0 else 1) && old(InUseNow()) <= InUseNow()
      ensures ok <==> Needed(P, old(Now()), count) <= old(sbFree)
      ensures Filled(P, old(Now()), 0) ==> (ok <==> count + IndirectBlocks(P, count) <= old(sbFree))
      ensures !ok && Filled(P, old(Now()), 0) ==>
                |InUseNow()| >= |old(InUseNow())| + done && (done == 0 ==> old(sbFree) == 0)
      ensures old(ReadsRight()) ==> ReadsRight()
    {
      ghost var was, v := Now(), View();
      if Filled(P, was, 0) { NeededEmpty(P, was, count); }
      done := 0;
      for bi := 0 to count
        invariant Valid() && SameShape(v, View()) && Written(P, was, Now(), bi) && done == bi
        invariant old(ReadsRight()) ==> ReadsRight()
      {
        var r := WriteNext(bi, count, preferred, was, v);
        if !r { return false, bi; }
        done := bi + 1;
      }
      Enough(P, v, was, View(), Now(), count);
      ok := true;
    }

    /** A failed write returns without storing the inode. */
    method GiveUp(ghost from: Image)
      requires Valid() && Ok(P, from) && from.root == stored && KeepsFile(P, from, Now())
      requires OthersOf(P, Now()) == OthersOf(P, from)
      modifies this`root
      ensures Settled() && Abandoned(P, from, old(Now()), Now()) && (old(ReadsRight()) ==> ReadsRight())
    {
      ghost var mid := Now();
      Abandon(P, from, mid, mid.(root := stored));
      root := stored;
      if old(ReadsRight()) { FewerStraight(P, mid, Now(), trace); }
    }

    /** `ext2_write_file`: a file that shrinks is freed and written anew, any other is filled up. The inode is stored
        after the freeing and at the very end, so a write that fails leaves the inode on disk as it was, and `mid`, the
        map it had built in memory, is gone. */
    method WriteFile(oldCount: nat, newCount: nat, preferred: nat) returns (ok: bool, ghost mid: Image, ghost done: nat)
      requires Settled() && newCount <= Capacity(P)
      modifies this
      ensures Settled()
      ensures ok ==> OthersOf(P, Now()) == OthersOf(P, old(Now()))
      ensures ok && newCount >= oldCount ==> Written(P, old(Now()), Now(), newCount)
      ensures ok && newCount < oldCount ==>
                Filled(P, Now(), newCount)
                && |InUseNow()| == |OthersOf(P, Now())| + newCount + IndirectBlocks(P, newCount)
      ensures !ok ==> Abandoned(P, Start(P, old(Now()), newCount < oldCount), mid, Now())
      ensures !ok ==> done < newCount && sbFree <= (if done < 12 then 0 else 1) && OthersOf(P, old(Now())) <= InUseNow()
      ensures newCount >= oldCount ==> (ok <==> Needed(P, old(Now()), newCount) <= old(sbFree))
      ensures newCount < oldCount ==>
                (ok <==> newCount + IndirectBlocks(P, newCount) + |OthersOf(P, old(Now()))| <= old(sbFree) + |old(InUseNow())|)
      ensures newCount >= oldCount && Filled(P, old(Now()), 0) ==>
                (ok <==> newCount + IndirectBlocks(P, newCount) <= old(sbFree))
      ensures !ok && newCount >= oldCount && Filled(P, old(Now()), 0) ==>
                |InUseNow()| >= |old(InUseNow())| + done && (done == 0 ==> old(sbFree) == 0)
      ensures old(ReadsRight()) ==> ReadsRight()
    {
      done := 0;
      mid := Now();
      if newCount < oldCount {
        FreeAll();
        stored := root;
        EmptyTree(P, root, blocks, InUseNow());
        EmptyOthers(P, Now());
        UsedCount(old(View()));
        UsedCount(View());
        if newCount == 0 { return true, mid, done; }
      }
      ghost var from := Now();
      ok, done := WriteBlocks(newCount, preferred);
      mid := Now();
      if ok {
        stored := root;
      } else {
        GiveUp(from);
      }
    }

    /** `ext2_unlink` on the blocks of a file. */
    method Delete()
      requires Settled()
      modifies this
      ensures Settled() && root == seq(SLOTS, _ => 0) && InUseNow() == OthersOf(P, old(Now()))
      ensures old(ReadsRight()) ==> ReadsRight()
    {
      FreeAll();
      EmptyTree(P, root, blocks, InUseNow());
      stored := root;
    }

    /** Writing to an empty inode and deleting it. The write succeeds exactly when the blocks and the pointer blocks of
        the file are free, and then every bitmap and count is back. A write that fails half way keeps what it
        allocated: everything is back exactly when the write succeeded or there was nothing to allocate. */
    method WriteThenFree(count: nat, preferred: nat) returns (ok: bool)
      requires Settled() && count <= Capacity(P) && Filled(P, Now(), 0)
      modifies this
      ensures Settled() && Filled(P, Now(), 0)
      ensures ok <==> count + IndirectBlocks(P, count) <= old(sbFree)
      ensures View() == old(View()) <==> count + IndirectBlocks(P, count) <= old(sbFree) || old(sbFree) == 0
      ensures !ok ==> sbFree <= if count <= 12 then 0 else 1
    {
      ghost var mid, done;
      ok, mid, done := WriteFile(0, count, preferred);
      ghost var w := View();
      if !ok {
        LostFile(P, old(Now()), mid, Now());
        Uneven(old(View()), w, done);
      }
      EmptyOthers(P, old(Now()));
      Delete();
      EmptyTree(P, root, blocks, InUseNow());
      UsedDetermines(if ok then old(View()) else w, View());
    }
  }

  /** Two free blocks and a file of three: the two blocks are lost. */
  method LostBlocks() returns (before: nat, after: nat, ok: bool)
    ensures before == 2 && after == 0 && !ok
  {
    assert Sum([2]) == 2 by { assert [2][..0] == []; }
    var v := new Volume(8192, 3, 256, [{0}], [2], 2, [0]);
    before := v.sbFree;
    ok := v.WriteThenFree(3, 0);
    after := v.sbFree;
  }

  /** The same in terms of `get_block_nr`. */
  lemma WrittenFile(P: nat, s: Image, s': Image, k: nat, bi: nat)
    requires Ok(P, s) && k <= Capacity(P) && Written(P, s, s', k) && bi < Capacity(P)
    ensures var b := GetBlock(P, s.root, s.blocks, bi);
            var b' := GetBlock(P, s'.root, s'.blocks, bi);
            (bi < k ==> b' != 0 && b' in s'.used) && (bi >= k || b != 0 ==> b' == b)
    ensures forall bj :: 0 <= bj < Capacity(P) && bj != bi && GetBlock(P, s'.root, s'.blocks, bi) != 0 ==>
              GetBlock(P, s'.root, s'.blocks, bj) != GetBlock(P, s'.root, s'.blocks, bi)
  {
    GetBlockIsPtr(P, s.root, s.blocks, bi);
    GetBlockIsPtr(P, s'.root, s'.blocks, bi);
    var n := DataNode(P, bi);
    assert NodeOk(P, s'.root, s'.blocks, s'.used, n) && At(P, s, n) == Ptr(P, s.root, s.blocks, n);
    forall bj | 0 <= bj < Capacity(P) && bj != bi && GetBlock(P, s'.root, s'.blocks, bi) != 0
      ensures GetBlock(P, s'.root, s'.blocks, bj) != GetBlock(P, s'.root, s'.blocks, bi)
    {
      GetBlockIsPtr(P, s'.root, s'.blocks, bj);
      DataNodeBijection(P, n, bi, bj);
    }
  }
}
