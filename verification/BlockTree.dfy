/**
 * The block map of an ext2 inode: twelve direct pointers and a single, a double and a triple indirect
 * tree, with `P` pointers in a pointer block. A node of the map is named by its root slot, its height
 * above the data blocks and its index among the nodes of that height.
 */
module BlockTree {

  const SLOTS := 15

  datatype Node = Node(slot: nat, height: nat, index: nat)

  /** Block number of a pointer block to its pointers. */
  type Blocks = map<nat, seq<nat>>

  /** Levels of pointer blocks under a root slot. */
  function Depth(slot: nat): nat {
    if slot < 12 then 0 else if slot == 12 then 1 else if slot == 13 then 2 else 3
  }

  /** Data blocks under a node of this height. */
  function Span(P: nat, height: nat): nat
    requires height <= 3
  {
    if height == 0 then 1 else if height == 1 then P else if height == 2 then P * P else P * P * P
  }

  predicate IsNode(P: nat, n: Node) {
    n.slot < SLOTS && n.height <= Depth(n.slot) && n.index < Span(P, Depth(n.slot) - n.height)
  }

  function Parent(P: nat, n: Node): Node
    requires P > 0
  {
    Node(n.slot, n.height + 1, n.index / P)
  }

  predicate IsRoot(n: Node) {
    n.height >= Depth(n.slot)
  }

  predicate Pointers(P: nat, blocks: Blocks, b: nat) {
    b in blocks && |blocks[b]| == P
  }

  /** The pointer to a node: 0 where nothing is allocated. */
  function Ptr(P: nat, root: seq<nat>, blocks: Blocks, n: Node): nat
    requires P > 0 && |root| == SLOTS && n.slot < SLOTS
    decreases Depth(n.slot) - n.height
  {
    if IsRoot(n) then root[n.slot]
    else
      var up := Ptr(P, root, blocks, Parent(P, n));
      if up == 0 || !Pointers(P, blocks, up) then 0 else blocks[up][n.index % P]
  }

  lemma MulMono(P: nat, a: nat, b: nat)
    requires a <= b
    ensures P * a <= P * b
  {
    assert P * b == P * a + P * (b - a);
  }

  lemma DivBound(i: nat, P: nat, m: nat)
    requires P > 0 && i < P * m
    ensures i / P < m
  {
    assert i == P * (i / P) + i % P;
    if i / P >= m { MulMono(P, m, i / P); }
  }

  lemma ParentIsNode(P: nat, n: Node)
    requires P > 0 && IsNode(P, n) && !IsRoot(n)
    ensures IsNode(P, Parent(P, n))
  {
    var k := Depth(n.slot) - n.height;
    assert Span(P, k) == P * Span(P, k - 1);
    DivBound(n.index, P, Span(P, k - 1));
  }

  /** Siblings differ in their position in the parent. */
  lemma SameSlot(P: nat, m: Node, n: Node)
    requires P > 0 && Parent(P, m) == Parent(P, n) && m.index % P == n.index % P
    ensures m == n
  {
    assert m.index == P * (m.index / P) + m.index % P;
    assert n.index == P * (n.index / P) + n.index % P;
  }

  /** Allocated nodes are blocks in use, pointer blocks where there are children, and no block is two nodes. */
  ghost predicate NodeOk(P: nat, root: seq<nat>, blocks: Blocks, used: set<nat>, n: Node)
    requires P > 0 && |root| == SLOTS && n.slot < SLOTS
  {
    var b := Ptr(P, root, blocks, n);
    b != 0 ==> b in used && (n.height > 0 ==> Pointers(P, blocks, b))
  }

  ghost predicate NoSharing(P: nat, root: seq<nat>, blocks: Blocks)
    requires P > 0 && |root| == SLOTS
  {
    forall m, n :: IsNode(P, m) && IsNode(P, n) && m != n && Ptr(P, root, blocks, m) != 0 ==>
      Ptr(P, root, blocks, m) != Ptr(P, root, blocks, n)
  }

  ghost predicate TreeOk(P: nat, root: seq<nat>, blocks: Blocks, used: set<nat>) {
    && P > 0 && |root| == SLOTS
    && (forall n :: IsNode(P, n) ==> NodeOk(P, root, blocks, used, n))
    && NoSharing(P, root, blocks)
  }

  /** Storing pointer `v` for node `n`, whose parent is allocated. */
  function SetRoot(root: seq<nat>, n: Node, v: nat): seq<nat>
    requires |root| == SLOTS && n.slot < SLOTS
  {
    if IsRoot(n) then root[n.slot := v] else root
  }

  function Put(s: seq<nat>, i: nat, v: nat): seq<nat>
    requires i < |s|
  {
    s[i := v]
  }

  function SetBlocks(P: nat, root: seq<nat>, blocks: Blocks, n: Node, v: nat): Blocks
    requires P > 0 && |root| == SLOTS && n.slot < SLOTS
  {
    if IsRoot(n) then blocks
    else
      var up := Ptr(P, root, blocks, Parent(P, n));
      if Pointers(P, blocks, up) then blocks[up := Put(blocks[up], n.index % P, v)] else blocks
  }

  /** A freshly allocated pointer block. */
  predicate Zeroed(P: nat, blocks: Blocks, b: nat) {
    Pointers(P, blocks, b) && forall i :: 0 <= i < P ==> blocks[b][i] == 0
  }

  /** Storing a pointer changes that node and no other: either it is a data pointer, or the node was absent
      and gets a zeroed block that is in no other node. */
  lemma {:induction false} SetPtr(P: nat, root: seq<nat>, blocks: Blocks, used: set<nat>, n: Node, v: nat, m: Node)
    requires TreeOk(P, root, blocks, used) && IsNode(P, n) && IsNode(P, m)
    requires IsRoot(n) || Ptr(P, root, blocks, Parent(P, n)) != 0
    requires n.height > 0 ==> Ptr(P, root, blocks, n) == 0 && Zeroed(P, blocks, v)
    requires n.height > 0 ==> forall k :: IsNode(P, k) ==> Ptr(P, root, blocks, k) != v
    requires v != 0
    ensures Ptr(P, SetRoot(root, n, v), SetBlocks(P, root, blocks, n, v), m) == if m == n then v
                                                                                else Ptr(P, root, blocks, m)
    decreases Depth(m.slot) - m.height
  {
    var root', blocks' := SetRoot(root, n, v), SetBlocks(P, root, blocks, n, v);
    if !IsRoot(m) {
      var q := Parent(P, m);
      ParentIsNode(P, m);
      SetPtr(P, root, blocks, used, n, v, q);
      assert NodeOk(P, root, blocks, used, q);
      if !IsRoot(n) {
        ParentIsNode(P, n);
        assert NodeOk(P, root, blocks, used, Parent(P, n));
        if q == Parent(P, n) && m.index % P == n.index % P { SameSlot(P, m, n); }
      }
    }
  }

  ghost predicate IsNodeBlock(P: nat, root: seq<nat>, blocks: Blocks, b: nat)
    requires P > 0 && |root| == SLOTS
  {
    b != 0 && exists n :: IsNode(P, n) && Ptr(P, root, blocks, n) == b
  }

  /** Storing a pointer to a block that was in no node keeps the map a tree. */
  lemma SetKeepsTree(P: nat, root: seq<nat>, blocks: Blocks, used: set<nat>, n: Node, v: nat)
    requires TreeOk(P, root, blocks, used) && IsNode(P, n) && v in used && v != 0
    requires IsRoot(n) || Ptr(P, root, blocks, Parent(P, n)) != 0
    requires n.height > 0 ==> Ptr(P, root, blocks, n) == 0 && Zeroed(P, blocks, v)
    requires !IsNodeBlock(P, root, blocks, v)
    ensures TreeOk(P, SetRoot(root, n, v), SetBlocks(P, root, blocks, n, v), used)
  {
    var root', blocks' := SetRoot(root, n, v), SetBlocks(P, root, blocks, n, v);
    forall m | IsNode(P, m)
      ensures NodeOk(P, root', blocks', used, m)
      ensures Ptr(P, root', blocks', m) == if m == n then v else Ptr(P, root, blocks, m)
    {
      assert NodeOk(P, root, blocks, used, m);
      SetPtr(P, root, blocks, used, n, v, m);
    }
    forall k, m | IsNode(P, k) && IsNode(P, m) && k != m && Ptr(P, root', blocks', k) != 0
      ensures Ptr(P, root', blocks', k) != Ptr(P, root', blocks', m)
    {
      assert k == n || m == n || Ptr(P, root, blocks, k) != Ptr(P, root, blocks, m);
    }
  }

  /** Writing a block that is in no node does not disturb the map. */
  lemma {:induction false} OtherBlock(P: nat, root: seq<nat>, blocks: Blocks, b: nat, c: seq<nat>, m: Node)
    requires P > 0 && |root| == SLOTS && IsNode(P, m) && !IsNodeBlock(P, root, blocks, b)
    ensures Ptr(P, root, blocks[b := c], m) == Ptr(P, root, blocks, m)
    decreases Depth(m.slot) - m.height
  {
    if !IsRoot(m) {
      ParentIsNode(P, m);
      OtherBlock(P, root, blocks, b, c, Parent(P, m));
      var up := Ptr(P, root, blocks, Parent(P, m));
      assert up != 0 ==> IsNodeBlock(P, root, blocks, up);
    }
  }

  lemma OtherBlockTree(P: nat, root: seq<nat>, blocks: Blocks, used: set<nat>, b: nat, c: seq<nat>, used': set<nat>)
    requires TreeOk(P, root, blocks, used) && !IsNodeBlock(P, root, blocks, b) && used <= used'
    ensures TreeOk(P, root, blocks[b := c], used')
    ensures forall m :: IsNode(P, m) ==> Ptr(P, root, blocks[b := c], m) == Ptr(P, root, blocks, m)
  {
    forall m | IsNode(P, m)
      ensures Ptr(P, root, blocks[b := c], m) == Ptr(P, root, blocks, m) && NodeOk(P, root, blocks[b := c], used', m)
    {
      OtherBlock(P, root, blocks, b, c, m);
      assert NodeOk(P, root, blocks, used, m);
    }
  }

  // ---- file block numbers ----

  function Capacity(P: nat): nat {
    12 + P + P * P + P * P * P
  }

  /** First file block under a root slot. */
  function Base(P: nat, slot: nat): nat {
    if slot < 12 then slot else if slot == 12 then 12 else if slot == 13 then 12 + P else 12 + P + P * P
  }

  function SlotOf(P: nat, bi: nat): nat {
    if bi < 12 then bi else if bi < 12 + P then 12 else if bi < 12 + P + P * P then 13 else 14
  }

  /** The data node of file block `bi`. */
  function DataNode(P: nat, bi: nat): (n: Node)
    requires bi < Capacity(P)
    ensures IsNode(P, n) && n.height == 0
  {
    Node(SlotOf(P, bi), 0, bi - Base(P, SlotOf(P, bi)))
  }

  /** Distinct file blocks have distinct nodes, and every data node is some file block. */
  lemma DataNodeBijection(P: nat, n: Node, a: nat, b: nat)
    requires a < Capacity(P) && b < Capacity(P)
    ensures DataNode(P, a) == DataNode(P, b) ==> a == b
    ensures IsNode(P, n) && n.height == 0 ==>
              Base(P, n.slot) + n.index < Capacity(P) && DataNode(P, Base(P, n.slot) + n.index) == n
  {}

  /** `indirect_lookup`. */
  function IndirectLookup(P: nat, blocks: Blocks, b: nat, i: nat): nat
    requires i < P
  {
    if b == 0 || !Pointers(P, blocks, b) then 0 else blocks[b][i]
  }

  /** `get_block_nr`. */
  function GetBlock(P: nat, root: seq<nat>, blocks: Blocks, bi: nat): nat
    requires P > 0 && |root| == SLOTS && bi < Capacity(P)
  {
    if bi < 12 then root[bi]
    else if bi - 12 < P then IndirectLookup(P, blocks, root[12], bi - 12)
    else if bi - 12 - P < P * P then
      var i := bi - 12 - P;
      DivBound(i, P, P);
      var l1 := IndirectLookup(P, blocks, root[13], i / P);
      IndirectLookup(P, blocks, l1, i % P)
    else
      var i := bi - 12 - P - P * P;
      DivBound(i, P * P, P);
      var l1 := IndirectLookup(P, blocks, root[14], i / (P * P));
      var l2 := IndirectLookup(P, blocks, l1, (i / P) % P);
      IndirectLookup(P, blocks, l2, i % P)
  }

  lemma QuotUnique(x: nat, n: nat, q: nat, r: nat)
    requires r < n && x == n * q + r
    ensures x / n == q && x % n == r
  {
    var k := x / n;
    if k < q { MulMono(n, k + 1, q); } else if q < k { MulMono(n, q + 1, k); }
  }

  lemma Regroup(P: nat, a: nat, b: nat, r: nat)
    requires b < P && r < P
    ensures P * (P * a + b) + r == (P * P) * a + (P * b + r)
    ensures P * b + r < P * P
  {
    assert P * (P * a + b) == P * (P * a) + P * b;
    assert P * (P * a) == (P * P) * a;
    MulMono(P, b + 1, P);
  }

  lemma DivDiv(i: nat, P: nat)
    requires P > 0
    ensures P * P > 0 && i / (P * P) == (i / P) / P
  {
    var q := i / P;
    Regroup(P, q / P, q % P, i % P);
    QuotUnique(i, P * P, q / P, P * (q % P) + i % P);
  }

  lemma PtrChild(P: nat, root: seq<nat>, blocks: Blocks, n: Node)
    requires P > 0 && |root| == SLOTS && n.slot < SLOTS && !IsRoot(n)
    ensures Ptr(P, root, blocks, n) == IndirectLookup(P, blocks, Ptr(P, root, blocks, Parent(P, n)), n.index % P)
  {}

  lemma SingleIsPtr(P: nat, root: seq<nat>, blocks: Blocks, i: nat)
    requires P > 0 && |root| == SLOTS && i < P
    ensures Ptr(P, root, blocks, Node(12, 0, i)) == IndirectLookup(P, blocks, root[12], i)
  {
    QuotUnique(i, P, 0, i);
    PtrChild(P, root, blocks, Node(12, 0, i));
  }

  lemma DoubleIsPtr(P: nat, root: seq<nat>, blocks: Blocks, i: nat)
    requires P > 0 && |root| == SLOTS && i / P < P
    ensures Ptr(P, root, blocks, Node(13, 0, i))
         == IndirectLookup(P, blocks, IndirectLookup(P, blocks, root[13], i / P), i % P)
  {
    QuotUnique(i / P, P, 0, i / P);
    PtrChild(P, root, blocks, Node(13, 1, i / P));
    PtrChild(P, root, blocks, Node(13, 0, i));
  }

  lemma TripleIsPtr(P: nat, root: seq<nat>, blocks: Blocks, i: nat)
    requires P > 0 && |root| == SLOTS && i / P / P < P
    ensures Ptr(P, root, blocks, Node(14, 0, i))
         == IndirectLookup(P, blocks, IndirectLookup(P, blocks, IndirectLookup(P, blocks, root[14], i / P / P), (i / P) % P), i % P)
  {
    QuotUnique(i / P / P, P, 0, i / P / P);
    PtrChild(P, root, blocks, Node(14, 2, i / P / P));
    PtrChild(P, root, blocks, Node(14, 1, i / P));
    PtrChild(P, root, blocks, Node(14, 0, i));
  }

  /** The code's divisions walk to the data node of the file block. */
  lemma GetBlockIsPtr(P: nat, root: seq<nat>, blocks: Blocks, bi: nat)
    requires P > 0 && |root| == SLOTS && bi < Capacity(P)
    ensures GetBlock(P, root, blocks, bi) == Ptr(P, root, blocks, DataNode(P, bi))
  {
    var i := DataNode(P, bi).index;
    match SlotOf(P, bi)
    case 12 => SingleIsPtr(P, root, blocks, i);
    case 13 => DivBound(i, P, P); DoubleIsPtr(P, root, blocks, i);
    case 14 => DivBound(i, P * P, P); DivDiv(i, P); TripleIsPtr(P, root, blocks, i);
    case _ =>
  }

  // ---- growing the map ----

  /** `m` is `n` or above it. */
  predicate OnPath(P: nat, m: Node, n: Node)
    requires P > 0
    decreases Depth(n.slot) - n.height
  {
    m == n || (!IsRoot(n) && OnPath(P, m, Parent(P, n)))
  }

  lemma UnusedIsNoNode(P: nat, root: seq<nat>, blocks: Blocks, used: set<nat>, b: nat)
    requires TreeOk(P, root, blocks, used) && b !in used
    ensures !IsNodeBlock(P, root, blocks, b)
  {
    forall n | IsNode(P, n) ensures b == 0 || Ptr(P, root, blocks, n) != b { assert NodeOk(P, root, blocks, used, n); }
  }

  /** Node `n` became block `b` and nothing else changed. */
  ghost predicate OneNode(P: nat, root: seq<nat>, blocks: Blocks, root': seq<nat>, blocks': Blocks, n: Node, b: nat)
    requires P > 0 && |root| == |root'| == SLOTS
  {
    && IsNode(P, n) && b != 0
    && Ptr(P, root, blocks, n) == 0 && Ptr(P, root', blocks', n) == b
    && forall m :: IsNode(P, m) && m != n ==> Ptr(P, root', blocks', m) == Ptr(P, root, blocks, m)
  }

  /** An absent pointer block is allocated, zeroed and hooked in. */
  lemma HookIn(P: nat, root: seq<nat>, blocks: Blocks, used: set<nat>, n: Node, b: nat, z: seq<nat>, root': seq<nat>,
               blocks': Blocks)
    requires TreeOk(P, root, blocks, used) && IsNode(P, n) && n.height > 0 && Ptr(P, root, blocks, n) == 0
    requires IsRoot(n) || Ptr(P, root, blocks, Parent(P, n)) != 0
    requires b != 0 && b !in used && Zeroed(P, map[b := z], b)
    requires if IsRoot(n) then root' == root[n.slot := b] && blocks' == blocks[b := z]
             else
               var up := Ptr(P, root, blocks, Parent(P, n));
               root' == root && Pointers(P, blocks, up)
               && blocks' == blocks[b := z][up := Put(blocks[up], n.index % P, b)]
    ensures TreeOk(P, root', blocks', used + {b}) && OneNode(P, root, blocks, root', blocks', n, b)
  {
    UnusedIsNoNode(P, root, blocks, used, b);
    OtherBlockTree(P, root, blocks, used, b, z, used + {b});
    var mid := blocks[b := z];
    if !IsRoot(n) { ParentIsNode(P, n); assert NodeOk(P, root, blocks, used, Parent(P, n)); }
    assert !IsNodeBlock(P, root, mid, b);
    assert root' == SetRoot(root, n, b) && blocks' == SetBlocks(P, root, mid, n, b);
    SetKeepsTree(P, root, mid, used + {b}, n, b);
    forall m | IsNode(P, m) ensures Ptr(P, root', blocks', m) == if m == n then b else Ptr(P, root, blocks, m) {
      SetPtr(P, root, mid, used + {b}, n, b, m);
    }
  }

  /** Blocks in use that belong to something else. */
  ghost function Others(P: nat, root: seq<nat>, blocks: Blocks, used: set<nat>): set<nat>
    requires P > 0 && |root| == SLOTS
  {
    set b | b in used && !IsNodeBlock(P, root, blocks, b)
  }

  lemma OneNodeBlock(P: nat, root: seq<nat>, blocks: Blocks, root': seq<nat>, blocks': Blocks, n: Node, b: nat, x: nat)
    requires P > 0 && |root| == |root'| == SLOTS && OneNode(P, root, blocks, root', blocks', n, b)
    ensures IsNodeBlock(P, root', blocks', x) <==> IsNodeBlock(P, root, blocks, x) || x == b
  {
    if IsNodeBlock(P, root, blocks, x) {
      var m :| IsNode(P, m) && Ptr(P, root, blocks, m) == x;
      assert Ptr(P, root', blocks', m) == x;
    }
  }

  lemma OneNodeOthers(P: nat, root: seq<nat>, blocks: Blocks, used: set<nat>, root': seq<nat>, blocks': Blocks, n: Node,
                      b: nat)
    requires P > 0 && |root| == |root'| == SLOTS && OneNode(P, root, blocks, root', blocks', n, b)
    ensures Others(P, root', blocks', used + {b}) == Others(P, root, blocks, used) - {b}
  {
    forall x ensures x in Others(P, root', blocks', used + {b}) <==> x in Others(P, root, blocks, used) - {b} {
      if x >= 0 { OneNodeBlock(P, root, blocks, root', blocks', n, b, x); }
    }
  }

  /** The map together with the blocks in use on the volume. */
  datatype Image = Image(root: seq<nat>, blocks: Blocks, used: set<nat>)

  ghost predicate Ok(P: nat, s: Image) {
    TreeOk(P, s.root, s.blocks, s.used)
  }

  function At(P: nat, s: Image, n: Node): nat
    requires P > 0 && |s.root| == SLOTS && n.slot < SLOTS
  {
    Ptr(P, s.root, s.blocks, n)
  }

  ghost function OthersOf(P: nat, s: Image): set<nat>
    requires P > 0 && |s.root| == SLOTS
  {
    Others(P, s.root, s.blocks, s.used)
  }

  /** Pointer block `n` is there as `b`; or (`b` is 0) the volume is full and nothing changed. */
  ghost predicate Ensured(P: nat, s: Image, n: Node, b: nat, s': Image)
    requires Ok(P, s)
  {
    && Ok(P, s') && IsNode(P, n) && b == At(P, s', n)
    && (b == 0 || At(P, s, n) != 0 ==> s' == s)
    && (b != 0 && At(P, s, n) == 0 ==>
          && s'.used == s.used + {b} && b !in s.used && OneNode(P, s.root, s.blocks, s'.root, s'.blocks, n, b)
          && OthersOf(P, s') == OthersOf(P, s))
  }

  /** Number of absent nodes among `n` and those above it. */
  function Absent(P: nat, s: Image, n: Node): nat
    requires P > 0 && |s.root| == SLOTS && n.slot < SLOTS
    decreases Depth(n.slot) - n.height
  {
    (if At(P, s, n) == 0 then 1 else 0) + if IsRoot(n) then 0 else Absent(P, s, Parent(P, n))
  }

  function AbsentAbove(P: nat, s: Image, n: Node): nat
    requires P > 0 && |s.root| == SLOTS && n.slot < SLOTS
  {
    if IsRoot(n) then 0 else Absent(P, s, Parent(P, n))
  }

  lemma {:induction false} AbsentSame(P: nat, s: Image, s': Image, n: Node)
    requires P > 0 && |s.root| == |s'.root| == SLOTS && IsNode(P, n)
    requires forall m :: IsNode(P, m) ==> At(P, s', m) == At(P, s, m)
    ensures Absent(P, s', n) == Absent(P, s, n)
    decreases Depth(n.slot) - n.height
  {
    if !IsRoot(n) { ParentIsNode(P, n); AbsentSame(P, s, s', Parent(P, n)); }
  }

  /** `n` and all nodes above it are there, the absent ones newly allocated; nothing else changed. */
  ghost predicate Present(P: nat, s: Image, n: Node, s': Image)
    requires Ok(P, s) && Ok(P, s') && IsNode(P, n)
  {
    && (forall m :: IsNode(P, m) && OnPath(P, m, n) ==> At(P, s', m) != 0)
    && (forall m :: IsNode(P, m) && (At(P, s, m) != 0 || !OnPath(P, m, n)) ==> At(P, s', m) == At(P, s, m))
    && s.used <= s'.used && |s'.used| == |s.used| + Absent(P, s, n)
    && OthersOf(P, s') == OthersOf(P, s)
  }

  lemma RootPresent(P: nat, s: Image, n: Node, b: nat, s': Image)
    requires Ok(P, s) && IsRoot(n) && Ensured(P, s, n, b, s') && b != 0
    ensures Present(P, s, n, s')
  {}

  lemma {:induction false} AboveIsHigher(P: nat, m: Node, n: Node)
    requires P > 0
    ensures OnPath(P, m, n) ==> m.height >= n.height && m.slot == n.slot
    decreases Depth(n.slot) - n.height
  {
    if m != n && !IsRoot(n) { AboveIsHigher(P, m, Parent(P, n)); }
  }

  lemma ChildPresent(P: nat, s: Image, n: Node, mid: Image, b: nat, s': Image)
    requires Ok(P, s) && Ok(P, mid) && IsNode(P, n) && !IsRoot(n) && IsNode(P, Parent(P, n))
    requires Present(P, s, Parent(P, n), mid)
    requires Ensured(P, mid, n, b, s') && b != 0
    ensures Present(P, s, n, s')
  {
    assert !OnPath(P, n, Parent(P, n)) by { AboveIsHigher(P, n, Parent(P, n)); }
  }

  /** File block node `n` is `v`, pointer blocks above it are there, and every other pointer is as before. */
  ghost predicate Placed(P: nat, s: Image, n: Node, v: nat, s': Image)
    requires Ok(P, s) && Ok(P, s') && IsNode(P, n)
  {
    && At(P, s', n) == v
    && (forall m :: IsNode(P, m) && m != n && OnPath(P, m, n) ==> At(P, s', m) != 0)
    && (forall m :: IsNode(P, m) && m != n && (At(P, s, m) != 0 || !OnPath(P, m, n)) ==> At(P, s', m) == At(P, s, m))
    && s.used <= s'.used && |s'.used| == |s.used| + AbsentAbove(P, s, n)
    && (At(P, s, n) == 0 ==> OthersOf(P, s') == OthersOf(P, s) - {v})
  }

  /** Pointer block `c` could not be had. Some of the missing ones above it may have been added for nothing, but no
      file block changed. */
  ghost predicate NotPlaced(P: nat, s: Image, c: Node, s': Image)
    requires Ok(P, s) && Ok(P, s') && c.slot < SLOTS
  {
    && (forall m :: IsNode(P, m) && (At(P, s, m) != 0 || m.height == 0) ==> At(P, s', m) == At(P, s, m))
    && s.used <= s'.used && |s'.used| < |s.used| + Absent(P, s, c) && OthersOf(P, s') == OthersOf(P, s)
  }

  lemma PresentNotPlaced(P: nat, s: Image, n: Node, s': Image, c: Node)
    requires Ok(P, s) && Ok(P, s') && IsNode(P, n) && n.height > 0 && Present(P, s, n, s')
    requires IsNode(P, c) && !IsRoot(c) && Parent(P, c) == n && At(P, s', c) == 0
    ensures NotPlaced(P, s, c, s')
  {
    forall m | IsNode(P, m) && m.height == 0 ensures At(P, s', m) == At(P, s, m) { AboveIsHigher(P, m, n); }
  }

  lemma SameHeight(P: nat, m: Node, n: Node)
    requires P > 0 && m != n && m.height == n.height
    ensures !OnPath(P, m, n)
  {
    if !IsRoot(n) { AboveIsHigher(P, m, Parent(P, n)); }
  }

  /** Putting a file block in place, in terms of the lookup. */
  lemma PlacedBlock(P: nat, s: Image, bi: nat, v: nat, s': Image, bj: nat)
    requires Ok(P, s) && Ok(P, s') && bi < Capacity(P) && bj < Capacity(P) && Placed(P, s, DataNode(P, bi), v, s')
    ensures GetBlock(P, s'.root, s'.blocks, bj) == if bj == bi then v else GetBlock(P, s.root, s.blocks, bj)
  {
    var m, n := DataNode(P, bj), DataNode(P, bi);
    GetBlockIsPtr(P, s.root, s.blocks, bj);
    GetBlockIsPtr(P, s'.root, s'.blocks, bj);
    DataNodeBijection(P, n, bi, bj);
    if m != n { SameHeight(P, m, n); }
  }

  lemma NotPlacedBlock(P: nat, s: Image, c: Node, s': Image, bj: nat)
    requires Ok(P, s) && Ok(P, s') && c.slot < SLOTS && bj < Capacity(P) && NotPlaced(P, s, c, s')
    ensures GetBlock(P, s'.root, s'.blocks, bj) == GetBlock(P, s.root, s.blocks, bj)
  {
    GetBlockIsPtr(P, s.root, s.blocks, bj);
    GetBlockIsPtr(P, s'.root, s'.blocks, bj);
  }

  /** Others are the blocks in use that are in no node. */
  lemma InOthers(P: nat, s: Image, v: nat)
    requires Ok(P, s) && v in s.used
    ensures v in OthersOf(P, s) <==> !IsNodeBlock(P, s.root, s.blocks, v)
  {}

  lemma StoreData(P: nat, s: Image, n: Node, v: nat, mid: Image, s': Image)
    requires Ok(P, s) && Ok(P, mid) && IsNode(P, n) && n.height == 0
    requires if IsRoot(n) then mid == s else IsNode(P, Parent(P, n)) && Present(P, s, Parent(P, n), mid)
    requires v != 0 && v in s.used && !IsNodeBlock(P, s.root, s.blocks, v)
    requires s' == Image(SetRoot(mid.root, n, v), SetBlocks(P, mid.root, mid.blocks, n, v), mid.used)
    ensures Ok(P, s') && Placed(P, s, n, v, s') && forall m :: IsNode(P, m) && m != n ==> At(P, s', m) == At(P, mid, m)
  {
    InOthers(P, s, v);
    InOthers(P, mid, v);
    SetKeepsTree(P, mid.root, mid.blocks, mid.used, n, v);
    forall m | IsNode(P, m) ensures At(P, s', m) == if m == n then v else At(P, mid, m) {
      SetPtr(P, mid.root, mid.blocks, mid.used, n, v, m);
    }
    if !IsRoot(n) { AboveIsHigher(P, n, Parent(P, n)); }
    if At(P, s, n) == 0 {
      assert OneNode(P, mid.root, mid.blocks, s'.root, s'.blocks, n, v);
      OneNodeOthers(P, mid.root, mid.blocks, mid.used, s'.root, s'.blocks, n, v);
      assert mid.used + {v} == mid.used;
    }
  }

  /** Forgetting some root pointers forgets the nodes below them and no others. */
  lemma {:induction false} FewerRoots(P: nat, root: seq<nat>, blocks: Blocks, fewer: seq<nat>, n: Node)
    requires P > 0 && |root| == |fewer| == SLOTS && n.slot < SLOTS
    requires fewer[n.slot] == root[n.slot] || fewer[n.slot] == 0
    ensures Ptr(P, fewer, blocks, n) == if fewer[n.slot] == 0 then 0 else Ptr(P, root, blocks, n)
    decreases Depth(n.slot) - n.height
  {
    if !IsRoot(n) { FewerRoots(P, root, blocks, fewer, Parent(P, n)); }
  }

  lemma FewerRootsTree(P: nat, s: Image, fewer: seq<nat>, s': Image)
    requires Ok(P, s) && |fewer| == SLOTS && s' == s.(root := fewer)
    requires forall j :: 0 <= j < SLOTS ==> fewer[j] == s.root[j] || fewer[j] == 0
    ensures Ok(P, s') && forall n :: IsNode(P, n) ==> At(P, s', n) == if fewer[n.slot] == 0 then 0 else At(P, s, n)
  {
    forall n | IsNode(P, n)
      ensures At(P, s', n) == (if fewer[n.slot] == 0 then 0 else At(P, s, n)) && NodeOk(P, fewer, s.blocks, s.used, n)
    {
      FewerRoots(P, s.root, s.blocks, fewer, n);
      assert NodeOk(P, s.root, s.blocks, s.used, n);
    }
  }

  /** The nodes on the path to a file block of the single, the double and the triple tree. */
  lemma SinglePath(P: nat, i: nat)
    requires i < P
    ensures Parent(P, Node(12, 0, i)) == Node(12, 1, 0) && i % P == i
  {
    QuotUnique(i, P, 0, i);
  }

  lemma DoublePath(P: nat, i: nat)
    requires P > 0 && i < P * P
    ensures i / P < P && (i / P) % P == i / P && Parent(P, Node(13, 1, i / P)) == Node(13, 2, 0)
  {
    DivBound(i, P, P);
    QuotUnique(i / P, P, 0, i / P);
  }

  lemma TriplePath(P: nat, i: nat)
    requires P > 0 && i < P * P * P
    ensures P * P > 0 && i / (P * P) == i / P / P < P && (i / P / P) % P == i / P / P && i / P < P * P
    ensures Parent(P, Node(14, 2, i / P / P)) == Node(14, 3, 0)
  {
    assert P * P * P == P * (P * P);
    DivBound(i, P, P * P);
    DoublePath(P, i / P);
    DivDiv(i, P);
  }
}
