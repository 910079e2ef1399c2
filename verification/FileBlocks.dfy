/** How many blocks a file of n blocks takes: the map filled from the front, node by node. */
module FileBlocks {
  import opened BlockTree

  /** First file block under a node. */
  function First(P: nat, n: Node): nat
    requires n.height <= 3
  {
    Base(P, n.slot) + n.index * Span(P, n.height)
  }

  /** Exactly the nodes above the first `k` file blocks are there. */
  ghost predicate Filled(P: nat, s: Image, k: nat)
    requires Ok(P, s)
  {
    forall m :: IsNode(P, m) ==> (At(P, s, m) != 0 <==> First(P, m) < k)
  }

  lemma SpanStep(P: nat, h: nat)
    requires P > 0 && h <= 2
    ensures Span(P, h + 1) == P * Span(P, h) && Span(P, h) > 0
  {}

  lemma ParentOffset(P: nat, i: nat, w: nat)
    requires P > 0 && w > 0
    ensures (i / P) * (P * w) <= i * w
    ensures (i / P) * (P * w) == i * w <==> i % P == 0
  {}

  lemma FirstParent(P: nat, n: Node)
    requires P > 0 && n.height <= 2
    ensures First(P, Parent(P, n)) <= First(P, n)
    ensures First(P, Parent(P, n)) == First(P, n) <==> n.index % P == 0
  {
    SpanStep(P, n.height);
    ParentOffset(P, n.index, Span(P, n.height));
  }

  lemma {:induction false} OnPathUp(P: nat, m: Node, n: Node)
    requires P > 0 && OnPath(P, m, n) && !IsRoot(m)
    ensures OnPath(P, Parent(P, m), n)
    decreases Depth(n.slot) - n.height
  {
    if m != n { OnPathUp(P, m, Parent(P, n)); }
  }

  /** Above file block `bi` there are only nodes that begin at or before it ... */
  lemma {:induction false} PathFirst(P: nat, m: Node, n: Node)
    requires P > 0 && IsNode(P, n) && OnPath(P, m, n)
    ensures IsNode(P, m) && First(P, m) <= First(P, n)
    decreases Depth(n.slot) - n.height
  {
    if m != n {
      ParentIsNode(P, n);
      FirstParent(P, n);
      PathFirst(P, m, Parent(P, n));
    }
  }

  /** ... and all the nodes that begin with it. */
  lemma DataOnPath(P: nat, m: Node)
    requires P > 0 && IsNode(P, m) && m.height == 0
    ensures First(P, m) == Base(P, m.slot) + m.index < Capacity(P) && DataNode(P, First(P, m)) == m
  {}

  lemma ChildBound(P: nat, i: nat, n: nat)
    requires P > 0 && i < n
    ensures i * P < P * n
  {}

  lemma FirstChild(P: nat, m: Node) returns (c: Node)
    requires P > 0 && IsNode(P, m) && m.height > 0
    ensures c.height == m.height - 1 && IsNode(P, c) && Parent(P, c) == m && First(P, c) == First(P, m)
  {
    c := Node(m.slot, m.height - 1, m.index * P);
    QuotUnique(c.index, P, m.index, 0);
    var k := Depth(m.slot) - m.height;
    assert Span(P, k + 1) == P * Span(P, k);
    ChildBound(P, m.index, Span(P, k));
    FirstParent(P, c);
  }

  lemma {:induction false} FirstOnPath(P: nat, m: Node, bi: nat)
    requires P > 0 && IsNode(P, m) && bi == First(P, m)
    ensures bi < Capacity(P) && OnPath(P, m, DataNode(P, bi))
    decreases m.height
  {
    if m.height == 0 {
      DataOnPath(P, m);
    } else {
      var c := FirstChild(P, m);
      FirstOnPath(P, c, bi);
      OnPathUp(P, c, DataNode(P, bi));
    }
  }

  lemma DataFirst(P: nat, bi: nat)
    requires bi < Capacity(P)
    ensures First(P, DataNode(P, bi)) == bi
  {}

  // ---- counting ----

  /** Nodes among `n` and those above it that begin with file block `bi`. */
  function Begun(P: nat, n: Node, bi: nat): nat
    requires P > 0 && n.height <= 3
    decreases Depth(n.slot) - n.height
  {
    (if First(P, n) == bi then 1 else 0) + if IsRoot(n) then 0 else Begun(P, Parent(P, n), bi)
  }

  function Min(a: nat, b: nat): nat {
    if a < b then a else b
  }

  function Ceil(x: nat, n: nat): nat
    requires n > 0
  {
    (x + n - 1) / n
  }

  /** `indirect_blocks_for_data`. */
  function IndirectBlocks(P: nat, n: nat): nat
    requires P > 0
  {
    if n <= 12 then 0
    else
      var r1 := n - 12 - Min(n - 12, P);
      if r1 == 0 then 1
      else
        var used := Min(r1, P * P);
        var r2 := r1 - used;
        2 + Ceil(used, P) + if r2 == 0 then 0 else 1 + Ceil(r2, P * P) + Ceil(r2, P)
  }

  lemma CeilStep(x: nat, n: nat)
    requires n > 0
    ensures Ceil(0, n) == 0
    ensures Ceil(x + 1, n) == Ceil(x, n) + if x % n == 0 then 1 else 0
  {
    var q, r := x / n, x % n;
    assert x == n * q + r;
    QuotUnique(n - 1, n, 0, n - 1);
    assert n * (q + 1) == n * q + n;
    QuotUnique(x + n, n, q + 1, r);
    if r == 0 { QuotUnique(x + n - 1, n, q, n - 1); } else { QuotUnique(x + n - 1, n, q + 1, r - 1); }
  }

  lemma CeilFull(P: nat)
    requires P > 0
    ensures Ceil(P * P, P) == P
  {
    QuotUnique(P * P + P - 1, P, P, P - 1);
  }

  function If(b: bool): nat {
    if b then 1 else 0
  }

  lemma BegunSingle(P: nat, i: nat)
    requires i < P
    ensures Begun(P, Parent(P, Node(12, 0, i)), 12 + i) == If(i == 0)
  {}

  lemma BegunDouble(P: nat, i: nat)
    requires P > 0 && i < P * P
    ensures Begun(P, Parent(P, Node(13, 0, i)), 12 + P + i) == If(i % P == 0) + If(i == 0)
  {
    DoublePath(P, i);
    FirstParent(P, Node(13, 0, i));
    assert Begun(P, Node(13, 2, 0), 12 + P + i) == If(i == 0);
  }

  lemma BegunTriple(P: nat, i: nat)
    requires P > 0 && i < P * P * P
    ensures P * P > 0
    ensures Begun(P, Parent(P, Node(14, 0, i)), 12 + P + P * P + i)
            == If(i % P == 0) + If(i % (P * P) == 0) + If(i == 0)
  {
    TriplePath(P, i);
    var bi := 12 + P + P * P + i;
    FirstParent(P, Node(14, 0, i));
    var n1, n2 := Node(14, 1, i / P), Node(14, 2, i / P / P);
    assert Begun(P, Node(14, 3, 0), bi) == If(i == 0);
    assert First(P, n2) == bi <==> i % (P * P) == 0 by {
      assert First(P, n2) == 12 + P + P * P + (i / (P * P)) * (P * P);
      assert i == (P * P) * (i / (P * P)) + i % (P * P);
    }
    assert Parent(P, n1) == n2;
    assert Begun(P, n2, bi) == If(i % (P * P) == 0) + If(i == 0);
  }

  lemma IndirectSingle(P: nat, i: nat)
    requires i < P
    ensures IndirectBlocks(P, 12 + i + 1) == IndirectBlocks(P, 12 + i) + If(i == 0)
  {}

  lemma IndirectDouble(P: nat, i: nat)
    requires P > 0 && i < P * P
    ensures IndirectBlocks(P, 12 + P + i) == 1 + If(i > 0) + Ceil(i, P)
    ensures IndirectBlocks(P, 12 + P + i + 1) == IndirectBlocks(P, 12 + P + i) + If(i % P == 0) + If(i == 0)
  {
    CeilStep(i, P);
  }

  lemma IndirectTriple(P: nat, i: nat)
    requires P > 0
    ensures P * P > 0
    ensures IndirectBlocks(P, 12 + P + P * P + i + 1)
         == IndirectBlocks(P, 12 + P + P * P + i) + If(i % P == 0) + If(i % (P * P) == 0) + If(i == 0)
  {
    CeilStep(i, P);
    CeilStep(i, P * P);
    CeilFull(P);
  }

  lemma TreeSlotStep(P: nat, slot: nat, i: nat, bi: nat)
    requires P > 0 && 12 <= slot < SLOTS && i < Span(P, Depth(slot)) && bi == Base(P, slot) + i
    ensures IndirectBlocks(P, bi + 1) == IndirectBlocks(P, bi) + Begun(P, Parent(P, Node(slot, 0, i)), bi)
  {
    if slot == 12 { BegunSingle(P, i); IndirectSingle(P, i); }
    else if slot == 13 { BegunDouble(P, i); IndirectDouble(P, i); }
    else { BegunTriple(P, i); IndirectTriple(P, i); }
  }

  // ---- filling up a file that has some blocks already ----

  /** The nodes that begin before file block `k` are there, the others as they were. */
  ghost predicate UpTo(P: nat, s: Image, s': Image, k: nat)
    requires Ok(P, s) && Ok(P, s')
  {
    forall m :: IsNode(P, m) ==> if First(P, m) < k then At(P, s', m) != 0 else At(P, s', m) == At(P, s, m)
  }

  /** Node `n` and all above it are there, the others as they were. */
  ghost predicate PathFilled(P: nat, s: Image, n: Node, s': Image)
    requires Ok(P, s) && Ok(P, s')
  {
    forall m :: IsNode(P, m) ==> if OnPath(P, m, n) then At(P, s', m) != 0 else At(P, s', m) == At(P, s, m)
  }

  lemma UpToStep(P: nat, was: Image, s: Image, bi: nat, s': Image)
    requires Ok(P, was) && Ok(P, s) && Ok(P, s') && bi < Capacity(P)
    requires UpTo(P, was, s, bi) && PathFilled(P, s, DataNode(P, bi), s')
    ensures UpTo(P, was, s', bi + 1)
  {
    var n := DataNode(P, bi);
    DataFirst(P, bi);
    forall m | IsNode(P, m) ensures if First(P, m) < bi + 1 then At(P, s', m) != 0 else At(P, s', m) == At(P, was, m) {
      if First(P, m) == bi { FirstOnPath(P, m, bi); }
      if OnPath(P, m, n) { PathFirst(P, m, n); }
    }
  }

  /** Nodes among `n` and those above it that begin with file block `bi` and are missing. */
  function Wanting(P: nat, s: Image, n: Node, bi: nat): nat
    requires P > 0 && |s.root| == SLOTS && n.slot < SLOTS && n.height <= 3
    decreases Depth(n.slot) - n.height
  {
    (if First(P, n) == bi && At(P, s, n) == 0 then 1 else 0) + if IsRoot(n) then 0 else Wanting(P, s, Parent(P, n), bi)
  }

  /** The blocks that filling up the first `k` file blocks takes: all missing nodes that begin among them. */
  function Needed(P: nat, s: Image, k: nat): nat
    requires P > 0 && |s.root| == SLOTS && k <= Capacity(P)
  {
    if k == 0 then 0 else Needed(P, s, k - 1) + Wanting(P, s, DataNode(P, k - 1), k - 1)
  }

  lemma {:induction false} NeededMono(P: nat, s: Image, a: nat, b: nat)
    requires P > 0 && |s.root| == SLOTS && a <= b <= Capacity(P)
    ensures Needed(P, s, a) <= Needed(P, s, b)
    decreases b
  {
    if a < b { NeededMono(P, s, a, b - 1); }
  }

  /** When the file is filled up to `bi`, what is missing above it begins with it and was missing from the start. */
  lemma {:induction false} AbsentIsWanting(P: nat, was: Image, s: Image, n: Node, bi: nat)
    requires Ok(P, was) && Ok(P, s) && IsNode(P, n) && UpTo(P, was, s, bi) && First(P, n) <= bi
    ensures Absent(P, s, n) == Wanting(P, was, n, bi)
    decreases Depth(n.slot) - n.height
  {
    if !IsRoot(n) {
      ParentIsNode(P, n);
      FirstParent(P, n);
      AbsentIsWanting(P, was, s, Parent(P, n), bi);
    }
  }

  lemma {:induction false} WantingEmpty(P: nat, s: Image, n: Node, bi: nat)
    requires Ok(P, s) && IsNode(P, n) && Filled(P, s, 0)
    ensures Wanting(P, s, n, bi) == Begun(P, n, bi)
    decreases Depth(n.slot) - n.height
  {
    if !IsRoot(n) {
      ParentIsNode(P, n);
      WantingEmpty(P, s, Parent(P, n), bi);
    }
  }

  lemma BegunData(P: nat, bi: nat)
    requires P > 0 && bi < Capacity(P)
    ensures Begun(P, DataNode(P, bi), bi) == 1 + IndirectBlocks(P, bi + 1) - IndirectBlocks(P, bi)
  {
    var n := DataNode(P, bi);
    DataFirst(P, bi);
    if n.slot >= 12 { TreeSlotStep(P, n.slot, n.index, bi); }
  }

  /** For an empty inode it is the file blocks and the formula for the pointer blocks. */
  lemma {:induction false} NeededEmpty(P: nat, s: Image, k: nat)
    requires Ok(P, s) && Filled(P, s, 0) && k <= Capacity(P)
    ensures Needed(P, s, k) == k + IndirectBlocks(P, k)
  {
    if k > 0 {
      NeededEmpty(P, s, k - 1);
      WantingEmpty(P, s, DataNode(P, k - 1), k - 1);
      BegunData(P, k - 1);
    }
  }

  /** A node that is there has all nodes above it. */
  lemma {:induction false} PresentPath(P: nat, s: Image, n: Node, m: Node)
    requires Ok(P, s) && IsNode(P, n) && At(P, s, n) != 0 && m.slot < SLOTS && OnPath(P, m, n)
    ensures At(P, s, m) != 0
    decreases Depth(n.slot) - n.height
  {
    if m != n {
      ParentIsNode(P, n);
      PresentPath(P, s, Parent(P, n), m);
    }
  }

  lemma {:induction false} PresentAbsent(P: nat, s: Image, n: Node)
    requires Ok(P, s) && IsNode(P, n) && At(P, s, n) != 0
    ensures Absent(P, s, n) == 0
    decreases Depth(n.slot) - n.height
  {
    if !IsRoot(n) {
      ParentIsNode(P, n);
      PresentPath(P, s, n, Parent(P, n));
      PresentAbsent(P, s, Parent(P, n));
    }
  }

  // ---- what a subtree holds ----

  /** Block `b` is node `n` or a node below it. */
  ghost predicate SubBlock(P: nat, s: Image, n: Node, b: nat)
    requires Ok(P, s)
  {
    b != 0 && exists m :: IsNode(P, m) && OnPath(P, n, m) && At(P, s, m) == b
  }

  lemma {:induction false} OnePath(P: nat, a: Node, b: Node, m: Node)
    requires P > 0 && OnPath(P, a, m) && OnPath(P, b, m) && a.height == b.height
    ensures a == b
    decreases Depth(m.slot) - m.height
  {
    if a == m { AboveIsHigher(P, b, m); if b != m { AboveIsHigher(P, b, Parent(P, m)); } }
    else if b == m { AboveIsHigher(P, a, Parent(P, m)); }
    else { OnePath(P, a, b, Parent(P, m)); }
  }

  lemma {:induction false} ZeroBelow(P: nat, s: Image, n: Node, m: Node)
    requires Ok(P, s) && IsNode(P, m) && OnPath(P, n, m) && IsNode(P, n) && At(P, s, n) == 0
    ensures At(P, s, m) == 0
    decreases Depth(m.slot) - m.height
  {
    if m != n { ParentIsNode(P, m); ZeroBelow(P, s, n, Parent(P, m)); }
  }

  /** The child through which a path to `m` leaves `n`. */
  lemma {:induction false} StepDown(P: nat, n: Node, m: Node) returns (c: Node)
    requires P > 0 && IsNode(P, m) && OnPath(P, n, m) && m != n
    ensures IsNode(P, c) && !IsRoot(c) && Parent(P, c) == n && OnPath(P, c, m)
    decreases Depth(m.slot) - m.height
  {
    if Parent(P, m) == n {
      c := m;
    } else {
      ParentIsNode(P, m);
      c := StepDown(P, n, Parent(P, m));
    }
  }

  /** Child `i` of a pointer block. */
  function Child(P: nat, n: Node, i: nat): Node
    requires n.height > 0
  {
    Node(n.slot, n.height - 1, n.index * P + i)
  }

  lemma IndexBound(P: nat, index: nat, i: nat, span: nat)
    requires index < span && i < P
    ensures index * P + i < P * span
  {
    MulMono(P, index + 1, span);
    assert P * (index + 1) == index * P + P;
  }

  lemma ChildIs(P: nat, n: Node, i: nat)
    requires P > 0 && IsNode(P, n) && n.height > 0 && i < P
    ensures var c := Child(P, n, i); IsNode(P, c) && !IsRoot(c) && Parent(P, c) == n && c.index % P == i
  {
    QuotUnique(n.index * P + i, P, n.index, i);
    var k := Depth(n.slot) - n.height;
    SpanStep(P, k);
    IndexBound(P, n.index, i, Span(P, k));
  }

  lemma IsChild(P: nat, n: Node, c: Node)
    requires P > 0 && n.height > 0 && Parent(P, c) == n
    ensures c.index % P < P && c == Child(P, n, c.index % P)
  {}

  /** One of the first `k` children of `n` holds `b` in its subtree. */
  ghost predicate ChildBlock(P: nat, s: Image, n: Node, k: nat, b: nat)
    requires Ok(P, s) && n.height > 0
  {
    exists i :: 0 <= i < k && SubBlock(P, s, Child(P, n, i), b)
  }

  /** A subtree is its node and the subtrees of the children. */
  lemma SubtreeSplit(P: nat, s: Image, n: Node, b: nat)
    requires Ok(P, s) && IsNode(P, n) && n.height > 0
    ensures SubBlock(P, s, n, b) <==> (b != 0 && b == At(P, s, n)) || ChildBlock(P, s, n, P, b)
  {
    if SubBlock(P, s, n, b) {
      var m :| IsNode(P, m) && OnPath(P, n, m) && At(P, s, m) == b;
      if m != n {
        var c := StepDown(P, n, m);
        IsChild(P, n, c);
        assert SubBlock(P, s, Child(P, n, c.index % P), b);
      }
    }
    if ChildBlock(P, s, n, P, b) {
      var i :| 0 <= i < P && SubBlock(P, s, Child(P, n, i), b);
      ChildIs(P, n, i);
      var m :| IsNode(P, m) && OnPath(P, Child(P, n, i), m) && At(P, s, m) == b;
      OnPathUp(P, Child(P, n, i), m);
    }
    if b != 0 && b == At(P, s, n) { assert OnPath(P, n, n); }
  }

  /** Subtrees of different children have no block in common, and none contains the node itself. */
  lemma ChildrenApart(P: nat, s: Image, n: Node, i: nat, k: nat, b: nat)
    requires Ok(P, s) && IsNode(P, n) && n.height > 0 && k <= i && i < P && SubBlock(P, s, Child(P, n, i), b)
    ensures !ChildBlock(P, s, n, k, b)
  {
    if ChildBlock(P, s, n, k, b) {
      var j :| 0 <= j < k && SubBlock(P, s, Child(P, n, j), b);
      var m :| IsNode(P, m) && OnPath(P, Child(P, n, i), m) && At(P, s, m) == b;
      var o :| IsNode(P, o) && OnPath(P, Child(P, n, j), o) && At(P, s, o) == b;
      OnePath(P, Child(P, n, i), Child(P, n, j), m);
    }
  }

  lemma NodeApart(P: nat, s: Image, n: Node)
    requires Ok(P, s) && IsNode(P, n) && n.height > 0 && At(P, s, n) != 0
    ensures !ChildBlock(P, s, n, P, At(P, s, n))
  {
    var b := At(P, s, n);
    if ChildBlock(P, s, n, P, b) {
      var j :| 0 <= j < P && SubBlock(P, s, Child(P, n, j), b);
      var o :| IsNode(P, o) && OnPath(P, Child(P, n, j), o) && At(P, s, o) == b;
      AboveIsHigher(P, Child(P, n, j), o);
    }
  }

  lemma ZeroChild(P: nat, s: Image, n: Node, b: nat)
    requires Ok(P, s) && IsNode(P, n) && At(P, s, n) == 0
    ensures !SubBlock(P, s, n, b)
  {
    if SubBlock(P, s, n, b) {
      var m :| IsNode(P, m) && OnPath(P, n, m) && At(P, s, m) == b;
      ZeroBelow(P, s, n, m);
    }
  }

  /** Every node is under the root of its slot. */
  lemma {:induction false} UnderRoot(P: nat, m: Node)
    requires P > 0 && IsNode(P, m)
    ensures OnPath(P, Node(m.slot, Depth(m.slot), 0), m)
    decreases Depth(m.slot) - m.height
  {
    if !IsRoot(m) { ParentIsNode(P, m); UnderRoot(P, Parent(P, m)); }
  }
}
