/**
 * The upper allocator: tree counters, per-class local slots holding reserved trees, and the lower allocator beneath
 * them. Every operation keeps the books.
 */
module LLFreeAllocator {
  import opened Blocks
  import opened LowerAllocator
  import opened TreeBooks

  datatype Request = Request(order: nat, cls: nat, local: Option<nat>)

  /** What an allocation does to the set of free frames. */
  ghost predicate Effect(free: set<nat>, free': set<nat>, order: nat, at: Option<nat>, r: Result) {
    if r.Ok? then
      order <= 12 && FreeRun(free, order, r.frame) && free' == free - Block(r.frame, Pow2(order)) && (at.Some? ==>
           r.frame == at.value)
    else free' == free
  }

  /** Reserved slots start at a managed frame. */
  ghost predicate RowsOk(slots: seq<Slot>, frames: nat) {
    forall k :: 0 <= k < |slots| && slots[k].present ==> 64 * slots[k].startRow < frames
  }

  /** A tree whose counters hold at least one frame has a free frame. */
  lemma TreeHasFrame(frames: nat, children: seq<Child>, fields: seq<set<nat>>, t: nat) returns (f: nat)
    requires Consistent(frames, children, fields) && 8 * t + 8 <= |children| && TreeFree(children, t) >= 1
    ensures FreeRun(FreeFrames(frames, children, fields), 0, f) && TreeOf(f) == t
  {
    var i :| 8 * t <= i < 8 * t + 8 && children[i].free >= 1;
    assert i < |fields|;
    FullFieldSize(fields[i]);
    assert fields[i] != Block(0, 512);
    var p :| p in Block(0, 512) && p !in fields[i];
    f := 512 * i + p;
    assert p < Limit(frames, i);
    assert f / 512 == i && f % 512 == p;
    assert Block(f, 1) == {f};
  }

  /** Tree `t` has an aligned block of this order. */
  ghost predicate HasRun(free: set<nat>, order: nat, t: nat)
    requires order <= 12
  {
    exists p: nat :: FreeRun(free, order, p) && TreeOf(p) == t
  }

  /** ... or, for an exact request, the block asked for is free. */
  ghost predicate Fits(free: set<nat>, order: nat, at: Option<nat>, t: nat)
    requires order <= 12
  {
    if at.Some? then FreeRun(free, order, at.value) else HasRun(free, order, t)
  }

  lemma ChildCounted(children: seq<Child>, t: nat, i: nat)
    requires 8 * t <= i < 8 * t + 8 <= |children|
    ensures TreeFree(children, t) >= children[i].free
  {
    assert children[8 * t..8 * t + 8][i - 8 * t] == children[i];
  }

  lemma GroupCounted(children: seq<Child>, t: nat, g: nat, n: nat)
    requires GroupSize(n) && g < Groups(n) && 8 * t + 8 <= |children| && AllAre(children, 8 * t + g * n, n, FREE_CHILD)
    ensures TreeFree(children, t) >= 512 * n
  {
    assert forall i :: 8 * t <= i < 8 * t + 8 ==> children[8 * t..8 * t + 8][i - 8 * t] == children[i];
  }

  /** The children of a tree count at least the frames of a free block in it. */
  lemma RunCounted(frames: nat, children: seq<Child>, fields: seq<set<nat>>, order: nat, p: nat)
    requires Consistent(frames, children, fields) && order <= 12 && 8 * TreeOf(p) + 8 <= |children|
    requires FreeRun(FreeFrames(frames, children, fields), order, p)
    ensures TreeFree(children, TreeOf(p)) >= Pow2(order)
  {
    TreeOfChild(p);
    if order <= 9 {
      RunInChild(frames, children, fields, order, p);
      ChildCounted(children, TreeOf(p), ChildOf(p));
    } else {
      var g := GroupOf(order, p);
      RunIsGroup(frames, children, fields, order, p);
      GroupCounted(children, TreeOf(p), g, Huges(order));
    }
  }

  lemma FullChildren(frames: nat, children: seq<Child>, fields: seq<set<nat>>, t: nat)
    requires Consistent(frames, children, fields) && 8 * t + 8 <= |children| && TreeFree(children, t) == TREE_SIZE
    ensures AllAre(children, 8 * t, 8, FREE_CHILD)
  {
    forall k | 8 * t <= k < 8 * t + 8 ensures children[k].free <= 512 && (children[k].huge ==> children[k].free == 0) {
      if k < |fields| { FullFieldSize(fields[k]); }
    }
    assert forall i :: 8 * t <= i < 8 * t + 8 ==> children[8 * t..8 * t + 8][i - 8 * t] == children[i];
  }

  lemma AlignedDown(p: nat, order: nat)
    requires order <= 12 && p % 4096 == 0
    ensures Aligned(p, order)
  {
    assert Pow2(order) * Pow2(12 - order) == 4096;
    MultipleAligned(Pow2(order), Pow2(12 - order), p / 4096);
    assert p == Pow2(order) * Pow2(12 - order) * (p / 4096);
  }

  /** A tree that counts all its frames as free has a block of every order. */
  lemma FullTreeRun(frames: nat, children: seq<Child>, fields: seq<set<nat>>, t: nat, order: nat)
    requires Consistent(frames, children, fields) && 8 * t + 8 <= |children| && order <= 12
    requires TreeFree(children, t) == TREE_SIZE
    ensures HasRun(FreeFrames(frames, children, fields), order, t)
  {
    var free, p := FreeFrames(frames, children, fields), TREE_SIZE * t;
    FullChildren(frames, children, fields, t);
    TreePlace(t, 0, p);
    assert p % 4096 == 0 && ChildOf(p) == 8 * t;
    RunIsGroup(frames, children, fields, 12, p);
    assert Block(p, Pow2(order)) <= Block(p, 4096);
    AlignedDown(p, order);
    assert FreeRun(free, order, p);
  }

  /** Frames counted in slots for a tree are in a slot that holds it. */
  lemma {:induction false} SlotCounted(slots: seq<Slot>, t: nat) returns (k: nat)
    requires LocalFree(slots, t) >= 1
    ensures k < |slots| && SlotDec(slots[k], Some(t), 1).Some?
  {
    k := |slots| - 1;
    if Share(slots[k], t) == 0 { k := SlotCounted(slots[..k], t); }
  }

  function AlignDown(val: nat, align: nat): (r: nat)
    requires align > 0
    ensures r <= val
  {
    val - val % align
  }

  lemma StartInRange(len: nat, count: nat, local: nat)
    requires local < count && 0 < len
    ensures len / count * local < len
  {}

  /** Where a class with `count` slots starts its search for slot `local`. */
  function FirstTree(len: nat, count: nat, local: Option<nat>): (t: nat)
    requires 0 < len && (local.Some? ==> local.value < count)
    ensures t < len
  {
    if local.None? then 0 else StartInRange(len, count, local.value); len / count * local.value
  }

  function NextPow2(n: nat): (p: nat)
    ensures p >= 1 && p >= n
  {
    if n <= 1 then 1 else 2 * NextPow2((n + 1) / 2)
  }

  predicate Usable(tree: Tree) {
    !tree.reserved && tree.free >= 1
  }

  ghost predicate NoUsable(trees: seq<Tree>) {
    forall t :: 0 <= t < |trees| ==> !Usable(trees[t])
  }

  /** None of the trees visited by steps offset .. len - 1 is usable. */
  ghost predicate NoneUsable(trees: seq<Tree>, start: nat, offset: nat, len: nat)
    requires 0 < |trees|
  {
    forall i :: offset <= i < len ==> !Usable(trees[ZigzagIndex(start, i, |trees|)])
  }

  lemma NoneUsableNext(trees: seq<Tree>, start: nat, offset: nat, i: nat, idx: nat)
    requires 0 < |trees| && offset <= i && NoneUsable(trees, start, offset, i) && idx == ZigzagIndex(start, i, |trees|)
    requires !Usable(trees[idx])
    ensures NoneUsable(trees, start, offset, i + 1)
  {}

  lemma AllVisited(trees: seq<Tree>, start: nat)
    requires start < |trees| && NoneUsable(trees, start, 0, |trees|)
    ensures NoUsable(trees)
  {
    ZigzagBijection(start, |trees|);
    forall t | 0 <= t < |trees| ensures !Usable(trees[t]) {
      assert ZigzagIndex(start, ZigzagStep(start, t, |trees|), |trees|) == t;
    }
  }

  lemma RowStart(row: nat)
    ensures TreeOf(64 * row) == TreeOfRow(row)
  {}

  lemma RowInTree(frame: nat)
    ensures TreeOfRow(RowOf(frame)) == TreeOf(frame) && 64 * RowOf(frame) <= frame
  {}

  datatype Mode = Near | Global | AnyTree

  datatype Best = Best(prio: nat, idx: nat)

  datatype Verdict = Skip | TryNow | Remember(prio: nat)

  const SEARCH_BEST := 8

  /** Candidates point at trees; under `quiet` at trees an order-0 request can use. */
  ghost predicate Table(best: seq<Best>, trees: seq<Tree>, quiet: bool) {
    |best| == SEARCH_BEST && forall b :: 0 <= b < SEARCH_BEST && best[b].prio > 0 ==>
      best[b].idx < |trees| && (quiet ==> Usable(trees[best[b].idx]))
  }

  function FirstBelow(best: seq<Best>, prio: nat, from: nat): (pos: nat)
    requires from <= |best|
    ensures from <= pos <= |best|
    ensures forall k :: from <= k < pos ==> prio <= best[k].prio
    ensures pos < |best| ==> prio > best[pos].prio
    decreases |best| - from
  {
    if from == |best| || prio > best[from].prio then from else FirstBelow(best, prio, from + 1)
  }

  /** Inserts a candidate before the first entry of lower priority, dropping the last entry. */
  function InsertBest(best: seq<Best>, prio: nat, idx: nat): (r: seq<Best>)
    requires |best| == SEARCH_BEST
    ensures |r| == SEARCH_BEST
    ensures forall k :: 0 <= k < SEARCH_BEST ==> r[k] in best || r[k] == Best(prio, idx)
    ensures best[0].prio > 0 || prio > 0 ==> r[0].prio > 0
  {
    var pos := FirstBelow(best, prio, 0);
    if pos == SEARCH_BEST then best else best[..pos] + [Best(prio, idx)] + best[pos..SEARCH_BEST - 1]
  }

  lemma InsertKeepsTable(best: seq<Best>, trees: seq<Tree>, quiet: bool, prio: nat, idx: nat)
    requires Table(best, trees, quiet) && idx < |trees|
    ensures (quiet ==> Usable(trees[idx])) ==> Table(InsertBest(best, prio, idx), trees, quiet)
  {}

  /** The first `n` entries are candidates, the others are not. */
  ghost predicate Filled(best: seq<Best>, n: nat) {
    && |best| == SEARCH_BEST && n <= SEARCH_BEST
    && forall k :: 0 <= k < SEARCH_BEST ==> (best[k].prio > 0 <==> k < n)
  }

  ghost predicate Listed(best: seq<Best>, n: nat, idx: int) {
    exists k :: 0 <= k < n <= |best| && best[k].idx == idx
  }

  lemma InsertFilled(best: seq<Best>, n: nat, prio: nat, idx: nat)
    requires Filled(best, n) && n < SEARCH_BEST && prio > 0
    ensures FirstBelow(best, prio, 0) <= n && Filled(InsertBest(best, prio, idx), n + 1)
  {
    assert best[n].prio == 0;
  }

  /** While there is room, a candidate is added and none is dropped. */
  lemma InsertListed(best: seq<Best>, n: nat, prio: nat, idx: nat, aim: int)
    requires |best| == SEARCH_BEST && n < SEARCH_BEST && FirstBelow(best, prio, 0) <= n
    ensures Listed(InsertBest(best, prio, idx), n + 1, idx)
    ensures Listed(best, n, aim) ==> Listed(InsertBest(best, prio, idx), n + 1, aim)
  {
    var pos, r := FirstBelow(best, prio, 0), InsertBest(best, prio, idx);
    assert r[pos] == Best(prio, idx);
    if Listed(best, n, aim) {
      var k :| 0 <= k < n && best[k].idx == aim;
      assert r[if k < pos then k else k + 1] == best[k];
    }
  }

  /** None of the trees visited by steps offset .. len - 1 is `aim`. */
  ghost predicate NotVisited(trees: nat, start: nat, offset: nat, len: nat, aim: int)
    requires 0 < trees
  {
    forall i :: offset <= i < len ==> ZigzagIndex(start, i, trees) != aim
  }

  /** Step `i` of a search for tree `goal`: it has not been met if it is tried at once (`now`), and it has not been
      met or is in the table if the table has room for all. */
  ghost predicate Pursued(trees: nat, start: nat, offset: nat, i: nat, len: nat, goal: int, now: bool, best: seq<Best>,
                          n: nat)
    requires 0 < trees
  {
    && (now ==> NotVisited(trees, start, offset, i, goal))
    && (len <= offset + SEARCH_BEST ==>
          Filled(best, n) && n <= i - offset && (NotVisited(trees, start, offset, i, goal) || Listed(best, n, goal)))
  }

  /** The table after a tree was judged. */
  function Noted(best: seq<Best>, verdict: Verdict, idx: nat): seq<Best>
    requires |best| == SEARCH_BEST
  {
    if verdict.Remember? then InsertBest(best, verdict.prio, idx) else best
  }

  lemma PursuedNext(trees: nat, start: nat, offset: nat, i: nat, len: nat, goal: int, now: bool, best: seq<Best>,
                    n: nat,
                    idx: nat, verdict: Verdict)
    requires 0 < trees && offset <= i < len && idx == ZigzagIndex(start, i, trees) && |best| == SEARCH_BEST
    requires Pursued(trees, start, offset, i, len, goal, now, best, n)
    requires (verdict.Remember? ==> verdict.prio > 0) && (idx == goal ==> verdict.Remember? && !now)
    ensures Pursued(trees, start, offset, i + 1, len, goal, now, Noted(best, verdict, idx),
                    if verdict.Remember? then n + 1 else n)
  {
    if len <= offset + SEARCH_BEST && verdict.Remember? {
      InsertFilled(best, n, verdict.prio, idx);
      InsertListed(best, n, verdict.prio, idx, goal);
    }
  }

  lemma AllAreVisited(trees: nat, start: nat, aim: int)
    requires start < trees && 0 <= aim < trees
    ensures !NotVisited(trees, start, 0, trees, aim)
  {
    ZigzagBijection(start, trees);
    assert ZigzagIndex(start, ZigzagStep(start, aim, trees), trees) == aim;
  }

  class LLFree {
    const lower: Lower
    const policy: PolicyFn
    const numClasses: nat
    const defaultClass: nat
    const lens: seq<Option<nat>>
    const offsets: seq<nat>
    var trees: seq<Tree>
    var slots: seq<Slot>

    /** Class configuration: every configured class has its slice of slots. */
    ghost predicate Configured()
      reads this
    {
      && |lens| == MAX_CLASSES && |offsets| == MAX_CLASSES && defaultClass < numClasses <= MAX_CLASSES
      && forall c :: 0 <= c < MAX_CLASSES && lens[c].Some? ==> c < numClasses && offsets[c] + lens[c].value <= |slots|
    }

    ghost predicate Books(l: Ledger)
      reads this, lower
    {
      && Configured() && lower.Valid() && 0 < lower.frames
      && BooksOk(trees, slots, lower.children, l, numClasses)
      && RowsOk(slots, lower.frames)
    }

    ghost predicate Valid()
      reads this, lower
    {
      Books(SETTLED)
    }

    /** What every allocation path guarantees: settled books, and on failure an untouched lower allocator. */
    twostate predicate Outcome(order: nat, at: Option<nat>, r: Result)
      requires old(lower.Valid())
      reads this, lower
    {
      && Valid() && |trees| == old(|trees|) && |slots| == old(|slots|) && lower.frames == old(lower.frames)
      && Effect(old(lower.Free()), lower.Free(), order, at, r)
      && (r.Ok? ==> HugeKept(old(lower.children), lower.children, order, r.frame))
      && (!r.Ok? ==> r.OutOfMemory? && lower.children == old(lower.children) && lower.fields == old(lower.fields))
    }

    predicate HasSlots(cls: nat)
      requires |lens| == MAX_CLASSES
    {
      cls < MAX_CLASSES && lens[cls].Some? && lens[cls].value > 0
    }

    predicate SlotIn(cls: nat, index: nat)
      requires |lens| == MAX_CLASSES
    {
      cls < MAX_CLASSES && lens[cls].Some? && index < lens[cls].value
    }

    function SlotIndex(cls: nat, index: nat): nat
      requires |lens| == |offsets| == MAX_CLASSES && SlotIn(cls, index)
    {
      offsets[cls] + index
    }

    /** `llfree_init` over an initialised lower allocator: tree counters from the child counters, no reservation. */
    constructor (lower: Lower, policy: PolicyFn, numClasses: nat, defaultClass: nat, lens: seq<Option<nat>>,
                 offsets: seq<nat>, total: nat)
      requires lower.Valid() && 0 < lower.frames
      requires |lens| == MAX_CLASSES && |offsets| == MAX_CLASSES && defaultClass < numClasses <= MAX_CLASSES
      requires forall c :: 0 <= c < MAX_CLASSES && lens[c].Some? ==>
                c < numClasses && offsets[c] + lens[c].value <= total
      ensures Valid() && this.lower == lower && this.policy == policy && this.lens == lens
      ensures this.numClasses == numClasses
      ensures this.offsets == offsets && slots == seq(total, i => EMPTY_SLOT)
      ensures forall t :: 0 <= t < |trees| ==> trees[t] == Tree(false, defaultClass, TreeFree(lower.children, t))
    {
      this.lower, this.policy, this.numClasses, this.defaultClass := lower, policy, numClasses, defaultClass;
      this.lens, this.offsets := lens, offsets;
      slots := seq(total, i => EMPTY_SLOT);
      trees := [];
      new;
      var n := |lower.children| / 8;
      while |trees| < n
        invariant |trees| <= n
        invariant forall t :: 0 <= t < |trees| ==> trees[t] == Tree(false, defaultClass, TreeFree(lower.children, t))
        invariant this.lower == lower && lower.Valid() && lower.frames > 0 && |lower.children| == 8 * n && Configured()
        invariant slots == seq(total, i => EMPTY_SLOT) && this.defaultClass == defaultClass
        invariant this.numClasses == numClasses
        invariant this.policy == policy && this.lens == lens
        decreases n - |trees|
      {
        trees := trees + [Tree(false, defaultClass, TreeFree(lower.children, |trees|))];
      }
      forall t | 0 <= t < |trees| ensures TreeOk(trees[t], slots, TreeFree(lower.children, t), SETTLED, t, numClasses) {
        NoHolders(slots, t);
      }
    }

    // ---- single updates ----

    /** `trees_put`. */
    method PutTree(t: nat, frames: nat, ghost l: Ledger)
      requires Books(l) && l.handTree == t && l.hand == frames
      modifies this`trees
      ensures Books(l.(handTree := -1, hand := 0))
      ensures trees == old(trees)[t := TreePut(old(trees)[t], frames, policy, defaultClass)]
    {
      var tree := TreePut(trees[t], frames, policy, defaultClass);
      TreeChange(trees, slots, lower.children, l, numClasses, t, tree, l.(handTree := -1, hand := 0));
      trees := trees[t := tree];
    }

    /** `trees_unreserve`. */
    method Unreserve(t: nat, free: nat, cls: nat, ghost l: Ledger)
      requires Books(l) && l.limbo == t && l.owed == free && cls < numClasses
      modifies this`trees
      ensures Books(l.(limbo := -1, owed := 0)) && trees == old(trees)[t := trees[t]]
    {
      assert TreeOk(trees[t], slots, TreeFree(lower.children, t), l, t, numClasses);
      var updated := TreeUnreserveAdd(trees[t], free, cls, policy, defaultClass);
      TreeChange(trees, slots, lower.children, l, numClasses, t, updated.value, l.(limbo := -1, owed := 0));
      trees := trees[t := updated.value];
    }

    /** A request that cannot leave the lower allocator damaged: an exact one is managed, aligned and not torn; any
        other meets, above order 9, no group of children that is free from its first child on but not to its last. */
    predicate Harmless(at: Option<nat>, order: nat)
      requires lower.Valid()
      reads this, lower
    {
      order <= 12 &&
      if at.Some? then at.value + Pow2(order) <= lower.frames && Aligned(at.value, order) && !lower.TornAt(at.value, order, false)
      else Whole(lower.children, order)
    }

    /** An allocation in the lower allocator for frames already taken from the counters of tree `t`. */
    method LowerGet(t: nat, start: nat, order: nat, at: Option<nat>, ghost l: Ledger) returns (r: Result)
      requires Books(l) && Harmless(at, order) && l.handTree == t && l.hand == Pow2(order)
      requires start < lower.frames && TreeOf(start) == t && (at.Some? ==> TreeOf(at.value) == t)
      modifies lower
      ensures lower.frames == old(lower.frames)
      ensures r.Ok? ==> Books(l.(handTree := -1, hand := 0)) && TreeOf(r.frame) == t
      ensures !r.Ok? ==>
                r.OutOfMemory? && Books(l) && lower.children == old(lower.children) && lower.fields == old(lower.fields)
      ensures Effect(old(lower.Free()), lower.Free(), order, at, r)
      ensures r.Ok? ==> HugeKept(old(lower.children), lower.children, order, r.frame)
      ensures r.Ok? <==> Fits(old(lower.Free()), order, at, t)
      ensures order == 0 && at.None? ==> r.Ok?
    {
      assert TreeOk(trees[t], slots, TreeFree(lower.children, t), l, t, numClasses);
      if at.None? {
        if order == 0 { var f := TreeHasFrame(lower.frames, lower.children, lower.fields, t); }
        ghost var k;
        TreeInside(lower.frames, lower.children, lower.fields, start);
        r, k := lower.Get(start, order);
      } else {
        r := lower.GetAt(at.value, order);
        if r.Ok? {
          TreeOfChild(r.frame);
          TreeTook(old(lower.Free()), old(lower.children), ChildOf(r.frame), order, r.frame, lower.Free(),
                   lower.children, t);
        }
      }
      if r.Ok? { HandTaken(trees, slots, old(lower.children), l, numClasses, lower.children); }
    }

    lemma TreeStart(t: nat)
      requires Configured() && lower.Valid() && |lower.children| == 8 * |trees| && t < |trees|
      ensures TREE_SIZE * t < lower.frames && TreeOf(TREE_SIZE * t) == t
    {}

    /** `swap_reserved`: puts a reserved tree into a slot and unreserves the tree that was there. */
    method SwapReserved(cls: nat, local: nat, t: nat, newFree: nat, ghost l: Ledger)
      requires Books(l) && SlotIn(cls, local) && l.limbo == t && l.owed == newFree
      modifies this`trees, this`slots
      ensures Books(l.(limbo := -1, owed := 0)) && |slots| == old(|slots|) && |trees| == old(|trees|)
    {
      var k := SlotIndex(cls, local);
      var prev := slots[k];
      var s := Slot(true, newFree, RowOf(TREE_SIZE * t));
      ghost var l' := if prev.present then l.(limbo := TreeOfRow(prev.startRow), owed := prev.free)
                      else l.(limbo := -1, owed := 0);
      assert TreeOk(trees[t], slots, TreeFree(lower.children, t), l, t, numClasses);
      TreeStart(t);
      SlotUpdates(slots, k, s);
      SlotChange(trees, slots, lower.children, l, numClasses, k, s, l');
      slots := slots[k := s];
      if prev.present { Unreserve(TreeOfRow(prev.startRow), prev.free, cls, l'); }
    }

    /** Requests of order 0 can use every tree and every class has slots. */
    ghost predicate Able()
      requires |lens| == MAX_CLASSES
    {
      && (forall a, b, f :: policy(a, b, f).kind != Invalid && policy(a, b, f).priority <= 255
                            && (policy(a, b, f).kind == Match || policy(a, b, f).priority < 255))
      && forall c :: 0 <= c < numClasses ==> HasSlots(c)
    }

    /** An unreserved tree with a block of this order. */
    ghost predicate Opens(t: nat, order: nat)
      requires lower.Valid() && order <= 12
      reads this, lower
    {
      t < |trees| && !trees[t].reserved && HasRun(lower.Free(), order, t)
    }

    lemma OpensCounted(t: nat, order: nat)
      requires Valid() && order <= 12 && Opens(t, order)
      ensures trees[t].free >= Pow2(order)
    {
      var p: nat :| FreeRun(lower.Free(), order, p) && TreeOf(p) == t;
      RunCounted(lower.frames, lower.children, lower.fields, order, p);
      assert TreeOk(trees[t], slots, TreeFree(lower.children, t), SETTLED, t, numClasses);
      NoHolders(slots, t);
    }

    /** A tree, if any, that every access succeeds on. */
    ghost predicate Aim(aim: int, order: nat)
      requires lower.Valid() && order <= 12 && |lens| == MAX_CLASSES
      reads this, lower
    {
      aim >= 0 ==> Able() && Opens(aim, order)
    }

    /** A failed attempt leaves it as it was. */
    twostate predicate AimKept(aim: int, r: Result)
      reads this
    {
      aim >= 0 && !r.Ok? ==> aim < |trees| && aim < old(|trees|) && trees[aim] == old(trees)[aim]
    }

    /** Both failure paths of `reserve_or_steal_cb`: unreserve the whole tree, or put the frames back. */
    method UndoReserve(idx: nat, oldFree: nat, frames: nat, reserved: bool, cls: nat, ghost l: Ledger)
      requires Books(l) && cls < numClasses && frames <= oldFree
      requires l == if reserved then Ledger(idx, oldFree - frames, idx, frames) else Ledger(-1, 0, idx, frames)
      modifies this`trees
      ensures Valid() && trees == old(trees)[idx := trees[idx]]
    {
      if reserved {
        ghost var l' := Ledger(idx, oldFree, -1, 0);
        TreeChange(trees, slots, lower.children, l, numClasses, idx, trees[idx], l');
        assert trees[idx := trees[idx]] == trees;
        Unreserve(idx, oldFree, cls, l');
      } else {
        PutTree(idx, frames, l);
      }
    }

    /** The part of `reserve_or_steal_cb` after the tree was reserved or its counter decremented. */
    method FinishReserve(idx: nat, order: nat, oldFree: nat, reserved: bool, rc: nat, local: nat, ghost l: Ledger)
      returns (r: Result)
      requires Books(l) && Harmless(None, order) && Pow2(order) <= oldFree && idx < |trees| && rc < numClasses
      requires l == if reserved then Ledger(idx, oldFree - Pow2(order), idx, Pow2(order))
                    else Ledger(-1, 0, idx, Pow2(order))
      modifies this`trees, this`slots, lower
      ensures Outcome(order, None, r)
      ensures r.Ok? <==> HasSlots(rc) && HasRun(old(lower.Free()), order, idx)
      ensures order == 0 && HasSlots(rc) ==> r.Ok?
      ensures !r.Ok? ==> trees == old(trees)[idx := trees[idx]]
    {
      if !HasSlots(rc) {
        UndoReserve(idx, oldFree, Pow2(order), reserved, rc, l);
        return OutOfMemory;
      }
      TreeStart(idx);
      r := LowerGet(idx, TREE_SIZE * idx, order, None, l);
      if r.Ok? {
        if reserved {
          SwapReserved(rc, local % lens[rc].value, idx, oldFree - Pow2(order), l.(handTree := -1, hand := 0));
        }
      } else {
        UndoReserve(idx, oldFree, Pow2(order), reserved, rc, l);
      }
    }

    /** `trees_reserve_or_steal`. */
    method ReserveTree(idx: nat, frames: nat, cls: nat) returns (taken: bool, reserved: bool, rc: nat)
      requires Valid() && idx < |trees| && cls < numClasses
      modifies this`trees
      ensures rc < numClasses && |trees| == old(|trees|) && trees == old(trees)[idx := trees[idx]]
      ensures var tree := old(trees)[idx];
              taken <==> !tree.reserved && tree.free >= frames && policy(cls, tree.cls, tree.free).kind != Invalid
      ensures if !taken then Valid() && trees == old(trees)
              else Books(if reserved then Ledger(idx, old(trees)[idx].free - frames, idx, frames)
                         else Ledger(-1, 0, idx, frames))
    {
      var oldTree := trees[idx];
      var updated := TreeReserveOrSteal(oldTree, frames, policy, cls);
      if updated.None? { return false, false, cls; }
      taken, reserved := true, updated.value.reserved;
      assert TreeOk(oldTree, slots, TreeFree(lower.children, idx), SETTLED, idx, numClasses);
      TreeChange(trees, slots, lower.children, SETTLED, numClasses, idx, updated.value,
                 if reserved then Ledger(idx, oldTree.free - frames, idx, frames) else Ledger(-1, 0, idx, frames));
      trees := trees[idx := updated.value];
      rc := if reserved then cls else oldTree.cls;
    }

    /** `reserve_or_steal_cb`. */
    method ReserveOrSteal(idx: nat, order: nat, cls: nat, local: nat) returns (r: Result, rc: nat)
      requires Valid() && Harmless(None, order) && idx < |trees| && cls < MAX_CLASSES && lens[cls].Some?
      modifies this`trees, this`slots, lower
      ensures Outcome(order, None, r)
      ensures Able() && !old(trees)[idx].reserved && old(trees)[idx].free >= Pow2(order) ==>
                (r.Ok? <==> HasRun(old(lower.Free()), order, idx)) && (order == 0 ==> r.Ok?)
      ensures !r.Ok? ==> trees == old(trees)[idx := trees[idx]]
    {
      var frames, oldFree := Pow2(order), trees[idx].free;
      var taken, reserved;
      taken, reserved, rc := ReserveTree(idx, frames, cls);
      if !taken { return OutOfMemory, rc; }
      ghost var l := if reserved then Ledger(idx, oldFree - frames, idx, frames) else Ledger(-1, 0, idx, frames);
      r := FinishReserve(idx, order, oldFree, reserved, rc, local, l);
    }

    /** `trees_steal`. */
    method TakeFromTree(idx: nat, frames: nat, cls: nat) returns (taken: bool, rc: nat)
      requires Valid() && idx < |trees| && cls < numClasses
      modifies this`trees
      ensures |trees| == old(|trees|) && rc < numClasses
      ensures taken <==> old(trees)[idx].free >= frames && policy(cls, old(trees)[idx].cls, old(trees)[idx].free).kind != Invalid
      ensures Books(if taken then Ledger(-1, 0, idx, frames) else SETTLED)
      ensures trees == old(trees)[idx := trees[idx]] && (!taken ==> trees == old(trees))
    {
      assert TreeOk(trees[idx], slots, TreeFree(lower.children, idx), SETTLED, idx, numClasses);
      var updated := TreeSteal(trees[idx], frames, cls, policy);
      if updated.None? { return false, cls; }
      TreeChange(trees, slots, lower.children, SETTLED, numClasses, idx, updated.value, Ledger(-1, 0, idx, frames));
      trees := trees[idx := updated.value];
      return true, updated.value.cls;
    }

    /** `steal_cb`. */
    method StealTree(idx: nat, order: nat, cls: nat) returns (r: Result, rc: nat)
      requires Valid() && Harmless(None, order) && idx < |trees| && cls < numClasses
      modifies this`trees, lower
      ensures Outcome(order, None, r)
      ensures Able() && old(trees)[idx].free >= Pow2(order) ==>
                (r.Ok? <==> HasRun(old(lower.Free()), order, idx)) && (order == 0 ==> r.Ok?)
      ensures !r.Ok? ==> trees == old(trees)[idx := trees[idx]]
    {
      var taken, tc := TakeFromTree(idx, Pow2(order), cls);
      rc := tc;
      if !taken { return OutOfMemory, rc; }
      TreeStart(idx);
      ghost var l := Ledger(-1, 0, idx, Pow2(order));
      r := LowerGet(idx, TREE_SIZE * idx, order, None, l);
      if !r.Ok? { PutTree(idx, Pow2(order), l); }
    }

    // ---- the tree search ----

    /** The three ratings of a tree: `rate_reserve_near_tree`, `rate_reserve_global_tree`, `rate_global_tree`. */
    function Rate(mode: Mode, cls: nat, tree: Tree, frames: nat): Policy {
      if tree.free < frames then Policy(Invalid, 0) else
      var p := policy(cls, tree.cls, tree.free);
      match mode
      case Near =>
        if p.kind == Match then p
        else if p.kind == Demote && tree.free == TREE_SIZE then Policy(Match, PERFECT) else Policy(Invalid, 0)
      case Global =>
        if p.kind == Match || (p.kind == Demote && tree.free == TREE_SIZE) then Policy(Match, PERFECT) else p
      case AnyTree => p
    }

    method Access(mode: Mode, idx: nat, order: nat, cls: nat, local: nat, ghost quiet: bool)
      returns (r: Result, rc: nat)
      requires Valid() && Harmless(None, order) && idx < |trees| && cls < MAX_CLASSES && lens[cls].Some?
      requires (quiet ==> order == 0 && Able())
      modifies this`trees, this`slots, lower
      ensures Outcome(order, None, r)
      ensures quiet && Usable(old(trees)[idx]) ==> r.Ok?
      ensures Able() && old(Opens(idx, order)) ==> r.Ok?
      ensures !r.Ok? ==> trees == old(trees)[idx := trees[idx]]
    {
      if Opens(idx, order) { OpensCounted(idx, order); }
      if mode.AnyTree? {
        r, rc := StealTree(idx, order, cls);
      } else {
        r, rc := ReserveOrSteal(idx, order, cls, local);
      }
    }

    /** What the scan does with a tree; the table stores priority + 1 in a byte. */
    function Judge(mode: Mode, cls: nat, tree: Tree, order: nat): Verdict
      requires order <= 12
    {
      if tree.reserved then Skip else
      var p := Rate(mode, cls, tree, Pow2(order));
      if p.kind == Invalid then Skip
      else if p.kind == Match && p.priority == PERFECT then TryNow
      else Remember((p.priority + 1) % 256)
    }

    /** For an order-0 request exactly the usable trees are considered, with a positive table priority. */
    lemma JudgeUsable(mode: Mode, cls: nat, tree: Tree)
      requires |lens| == MAX_CLASSES && Able()
      ensures !Judge(mode, cls, tree, 0).Skip? ==> Usable(tree)
      ensures mode != Near ==> (Judge(mode, cls, tree, 0).Skip? <==> !Usable(tree))
      ensures Judge(mode, cls, tree, 0).Remember? ==> Judge(mode, cls, tree, 0).prio > 0
    {}

    /** The global searches give every candidate a positive table priority, and consider a tree with a block. */
    lemma Considered(mode: Mode, cls: nat, t: nat, order: nat, aim: int)
      requires Valid() && order <= 12 && t < |trees| && aim >= 0 && Aim(aim, order) && mode != Near
      ensures Judge(mode, cls, trees[t], order).Remember? ==> Judge(mode, cls, trees[t], order).prio > 0
      ensures t == aim ==> !Judge(mode, cls, trees[t], order).Skip?
    {
      OpensCounted(aim, order);
    }

    /** One step of the scan: skip, try at once, or remember the tree. Under `quiet` (an order-0 request that
        can use every tree) an access never fails. */
    method ScanOne(mode: Mode, idx: nat, best: seq<Best>, order: nat, cls: nat, local: nat, ghost quiet: bool,
                   ghost aim: int)
      returns (r: Result, rc: nat, best': seq<Best>)
      requires Valid() && Harmless(None, order) && idx < |trees| && cls < MAX_CLASSES && lens[cls].Some?
      requires (quiet ==> order == 0 && Able()) && Aim(aim, order)
      requires Table(best, trees, quiet)
      modifies this`trees, this`slots, lower
      ensures Outcome(order, None, r) && AimKept(aim, r)
      ensures !r.Ok? ==> Table(best', trees, quiet) && (best[0].prio > 0 ==> best'[0].prio > 0)
      ensures quiet && !r.Ok? ==> trees == old(trees) && slots == old(slots)
      ensures quiet && !r.Ok? && mode != Near && Usable(old(trees)[idx]) ==> best'[0].prio > 0
      ensures quiet && !Usable(old(trees)[idx]) ==> !r.Ok?
      ensures var verdict := Judge(mode, cls, old(trees)[idx], order);
              && (idx == aim && verdict.TryNow? ==> r.Ok?)
              && best' == Noted(best, verdict, idx)
    {
      var verdict := Judge(mode, cls, trees[idx], order);
      if quiet { JudgeUsable(mode, cls, trees[idx]); }
      r, rc, best' := OutOfMemory, cls, best;
      match verdict {
        case Skip =>
        case TryNow =>
          r, rc := Access(mode, idx, order, cls, local, quiet);
        case Remember(prio) =>
          best' := InsertBest(best, prio, idx);
          InsertKeepsTable(best, trees, quiet, prio, idx);
      }
    }

    /** Tries the remembered candidates, best first. */
    method TryBest(mode: Mode, best: seq<Best>, order: nat, cls: nat, local: nat, ghost quiet: bool, ghost aim: int,
                   ghost n: nat)
      returns (r: Result, rc: nat)
      requires Valid() && Harmless(None, order) && cls < MAX_CLASSES && lens[cls].Some?
      requires (quiet ==> order == 0 && Able()) && Aim(aim, order)
      requires Table(best, trees, quiet)
      modifies this`trees, this`slots, lower
      ensures Outcome(order, None, r) && AimKept(aim, r)
      ensures quiet && !r.Ok? ==> trees == old(trees) && slots == old(slots) && best[0].prio == 0
      ensures quiet && NoUsable(old(trees)) ==> !r.Ok?
      ensures aim >= 0 && Filled(best, n) && Listed(best, n, aim) ==> r.Ok?
    {
      r, rc := OutOfMemory, cls;
      var b := 0;
      while b < SEARCH_BEST && best[b].prio != 0
        invariant b <= SEARCH_BEST && Outcome(order, None, OutOfMemory) && r.OutOfMemory? && AimKept(aim, OutOfMemory)
        invariant quiet ==> trees == old(trees) && slots == old(slots) && b == 0
        invariant aim >= 0 ==> forall k :: 0 <= k < b ==> best[k].idx != aim
      {
        r, rc := Access(mode, best[b].idx, order, cls, local, quiet);
        if !r.OutOfMemory? { return; }
        b := b + 1;
      }
    }

    /** The scan of `trees_search_best`. */
    method Scan(mode: Mode, start: nat, offset: nat, len: nat, order: nat, cls: nat, local: nat, ghost quiet: bool,
                ghost aim: int)
      returns (r: Result, rc: nat, best: seq<Best>, ghost n: nat)
      requires Valid() && Harmless(None, order) && cls < MAX_CLASSES && lens[cls].Some? && start < |trees|
      requires (quiet ==> order == 0 && Able()) && Aim(aim, order)
      modifies this`trees, this`slots, lower
      ensures Outcome(order, None, r) && AimKept(aim, r)
      ensures !r.Ok? ==> Table(best, trees, quiet)
      ensures quiet && !r.Ok? ==> trees == old(trees) && slots == old(slots)
      ensures quiet && !r.Ok? && mode != Near && best[0].prio == 0 ==> NoneUsable(old(trees), start, offset, len)
      ensures quiet && NoUsable(old(trees)) ==> !r.Ok?
      ensures aim >= 0 && !r.Ok? && mode != Near && offset <= len ==>
                Pursued(|trees|, start, offset, len, len, aim, Judge(mode, cls, old(trees)[aim], order).TryNow?, best,
                        n)
    {
      r, rc, best, n := OutOfMemory, cls, seq(SEARCH_BEST, k => Best(0, 0)), 0;
      var i := offset;
      ghost var was := trees;
      while i < len
        invariant offset <= i && (offset <= len ==> i <= len) && Outcome(order, None, OutOfMemory) && r.OutOfMemory?
        invariant AimKept(aim, OutOfMemory)
        invariant quiet ==> trees == was && slots == old(slots)
        invariant Table(best, trees, quiet)
        invariant quiet && mode != Near && best[0].prio == 0 ==> NoneUsable(was, start, offset, i)
        invariant aim >= 0 && mode != Near ==>
                    Pursued(|trees|, start, offset, i, len, aim, Judge(mode, cls, was[aim], order).TryNow?, best, n)
      {
        var idx := ZigzagIndex(start, i, |trees|);
        ghost var verdict, prior := Judge(mode, cls, trees[idx], order), best;
        if aim >= 0 && mode != Near { Considered(mode, cls, idx, order, aim); }
        r, rc, best := ScanOne(mode, idx, best, order, cls, local, quiet, aim);
        if !r.OutOfMemory? { return; }
        if quiet && mode != Near && best[0].prio == 0 { NoneUsableNext(was, start, offset, i, idx); }
        if aim >= 0 && mode != Near {
          PursuedNext(|trees|, start, offset, i, len, aim, Judge(mode, cls, was[aim], order).TryNow?, prior, n, idx,
                      verdict);
          n := if verdict.Remember? then n + 1 else n;
        }
        i := i + 1;
      }
    }

    /** `trees_search_best`: perfect matches at once, then the best eight candidates. */
    method SearchBest(mode: Mode, start: nat, offset: nat, len: nat, order: nat, cls: nat, local: nat,
                      ghost quiet: bool, ghost aim: int)
      returns (r: Result, rc: nat)
      requires Valid() && Harmless(None, order) && cls < MAX_CLASSES && lens[cls].Some? && start < |trees|
      requires (quiet ==> order == 0 && Able()) && Aim(aim, order)
      modifies this`trees, this`slots, lower
      ensures Outcome(order, None, r) && AimKept(aim, r)
      ensures quiet && !r.Ok? ==> trees == old(trees) && slots == old(slots)
      ensures quiet && !r.Ok? && mode != Near ==> NoneUsable(old(trees), start, offset, len)
      ensures quiet && NoUsable(old(trees)) ==> !r.Ok?
      ensures aim >= 0 && !r.Ok? && mode != Near
              && (Judge(mode, cls, old(trees)[aim], order).TryNow? || len <= offset + SEARCH_BEST) ==>
                NotVisited(|trees|, start, offset, len, aim)
    {
      var best;
      ghost var n;
      r, rc, best, n := Scan(mode, start, offset, len, order, cls, local, quiet, aim);
      if r.OutOfMemory? { r, rc := TryBest(mode, best, order, cls, local, quiet, aim, n); }
    }

    // ---- local slots ----

    /** The trees nobody has reserved are as they were. */
    twostate predicate UnreservedKept()
      reads this
    {
      |trees| == old(|trees|) && forall t :: 0 <= t < |trees| ==> old(trees)[t].reserved || trees[t] == old(trees)[t]
    }

    /** The tree of a slot is reserved. */
    lemma HeldReserved(k: nat, l: Ledger)
      requires Books(l) && k < |slots| && slots[k].present
      ensures TreeOfRow(slots[k].startRow) < |trees| && trees[TreeOfRow(slots[k].startRow)].reserved
    {
      var t := TreeOfRow(slots[k].startRow);
      assert TreeOk(trees[t], slots, TreeFree(lower.children, t), l, t, numClasses);
      NoOtherHolder(slots, k, t);
    }

    /** A slot, after synchronisation if allowed, can give the frames. */
    predicate SlotGives(s: Slot, sync: bool, frames: nat)
      reads this
    {
      var t := TreeOfRow(s.startRow);
      s.present && (s.free >= frames || (sync && t < |trees| && trees[t].free > frames - s.free))
    }

    /** `ll_reserved_dec` on one slot. */
    method TakeFromSlot(k: nat, tree: Option<nat>, frames: nat) returns (taken: bool)
      requires Valid() && k < |slots|
      modifies this`slots
      ensures taken <==> SlotDec(old(slots)[k], tree, frames).Some?
      ensures if taken then Books(Ledger(-1, 0, TreeOfRow(old(slots)[k].startRow), frames)) && slots == old(slots)[k := SlotDec(old(slots)[k], tree, frames).value]
              else slots == old(slots)
    {
      var updated := SlotDec(slots[k], tree, frames);
      if updated.None? { return false; }
      SlotChange(trees, slots, lower.children, SETTLED, numClasses, k, updated.value,
                 Ledger(-1, 0, TreeOfRow(slots[k].startRow), frames));
      slots := slots[k := updated.value];
      taken := true;
    }

    /** `sync_with_global`: moves the global counter of the reserved tree into the slot. */
    method SyncWithGlobal(k: nat, needed: nat) returns (synced: bool)
      requires Valid() && k < |slots| && slots[k].present
      modifies this`trees, this`slots
      ensures Valid() && |trees| == old(|trees|) && |slots| == old(|slots|)
      ensures synced <==> old(slots)[k].free < needed && old(trees)[TreeOfRow(old(slots)[k].startRow)].free > needed - old(slots)[k].free
      ensures !synced ==> trees == old(trees) && slots == old(slots)
      ensures synced ==> slots[k] == old(slots)[k].(free := slots[k].free) && slots[k].free > needed
      ensures UnreservedKept()
    {
      var t := TreeOfRow(slots[k].startRow);
      if slots[k].free >= needed { return false; }
      HeldReserved(k, SETTLED);
      assert TreeOk(trees[t], slots, TreeFree(lower.children, t), SETTLED, t, numClasses);
      SlotUpdates(slots, k, slots[k]);
      var stolen := trees[t].free;
      var updated := TreeSyncSteal(trees[t], needed - slots[k].free);
      if updated.None? { return false; }
      ghost var l := Ledger(-1, 0, t, stolen);
      TreeChange(trees, slots, lower.children, SETTLED, numClasses, t, updated.value, l);
      trees := trees[t := updated.value];
      // the slot still holds the tree, so returning the frames to it cannot fail
      var inc := SlotInc(slots[k], t, stolen);
      SlotChange(trees, slots, lower.children, l, numClasses, k, inc.value, SETTLED);
      slots := slots[k := inc.value];
      synced := true;
    }

    /** The part of `get_local` after the slot was decremented. */
    method FinishLocal(k: nat, prev: Slot, order: nat, at: Option<nat>) returns (r: Result, tree: Option<nat>)
      requires lower.Valid() && Harmless(at, order) && k < |slots| && prev.present && 64 * prev.startRow < lower.frames
      requires Books(Ledger(-1, 0, TreeOfRow(prev.startRow), Pow2(order)))
      requires slots[k].present && slots[k].startRow == prev.startRow
      requires at.Some? ==> TreeOf(at.value) == TreeOfRow(prev.startRow)
      modifies this`trees, this`slots, lower
      ensures Outcome(order, at, r)
      ensures tree.Some? ==> tree.value < |trees|
      ensures order == 0 && at.None? ==> r.Ok?
      ensures r.Ok? <==> Fits(old(lower.Free()), order, at, TreeOfRow(prev.startRow))
      ensures !r.Ok? ==> UnreservedKept()
    {
      var t := TreeOfRow(prev.startRow);
      tree := Some(t);
      ghost var l := Ledger(-1, 0, t, Pow2(order));
      RowStart(prev.startRow);
      HeldReserved(k, l);
      r := LowerGet(t, 64 * prev.startRow, order, at, l);
      if r.Ok? {
        var row := RowOf(r.frame);
        RowInTree(r.frame);
        assert r.frame in Block(r.frame, Pow2(order));
        if row != prev.startRow {
          var s := slots[k].(startRow := row);
          SlotChange(trees, slots, lower.children, SETTLED, numClasses, k, s, SETTLED);
          slots := slots[k := s];
        }
      } else {
        PutTree(t, Pow2(order), l);
      }
    }

    /** `get_local`. */
    method GetLocal(cls: nat, index: nat, order: nat, at: Option<nat>, sync: bool)
      returns (r: Result, tree: Option<nat>)
      requires Valid() && Harmless(at, order) && SlotIn(cls, index)
      modifies this`trees, this`slots, lower
      ensures Outcome(order, at, r)
      ensures tree.Some? ==> tree.value < |trees|
      ensures order == 0 && at.None? ==>
                var s := old(slots)[SlotIndex(cls, index)];
                (r.Ok? <==> s.present && (s.free >= 1 || (sync && old(trees)[TreeOfRow(s.startRow)].free > 1)))
                && (!r.Ok? ==> trees == old(trees) && slots == old(slots))
      ensures at.None? ==>
                var s := old(slots)[SlotIndex(cls, index)];
                (r.Ok? <==>
                  old(SlotGives(s, sync, Pow2(order))) && HasRun(old(lower.Free()), order, TreeOfRow(s.startRow)))
      ensures !r.Ok? ==> UnreservedKept()
      decreases sync
    {
      var k := SlotIndex(cls, index);
      var prev := slots[k];
      var wanted := if at.Some? then Some(TreeOf(at.value)) else None;
      var taken := TakeFromSlot(k, wanted, Pow2(order));
      if taken {
        r, tree := FinishLocal(k, prev, order, at);
        return;
      }
      if sync && prev.present {
        var synced := SyncWithGlobal(k, Pow2(order));
        if synced {
          r, tree := GetLocal(cls, index, order, at, false);
          return;
        }
      }
      r := OutOfMemory;
      tree := if prev.present then Some(TreeOfRow(prev.startRow)) else None;
    }

    /** Every slot of class `c` refuses to give `frames` of the wanted tree. */
    ghost predicate ClassDry(ss: seq<Slot>, c: nat, tree: Option<nat>, frames: nat)
      requires |lens| == |offsets| == MAX_CLASSES
    {
      forall j: nat :: SlotIn(c, j) && SlotIndex(c, j) < |ss| ==> SlotDec(ss[SlotIndex(c, j)], tree, frames).None?
    }

    /** First slot of class `c`, from `index` and wrapping around, that can give the frames. */
    method FindSlot(c: nat, index: nat, tree: Option<nat>, frames: nat) returns (found: Option<nat>)
      requires Configured() && HasSlots(c)
      ensures found.Some? ==> found.value < |slots| && SlotDec(slots[found.value], tree, frames).Some?
      ensures found.None? <==> ClassDry(slots, c, tree, frames)
    {
      var len := lens[c].value;
      var first := index % len;
      var j := 0;
      while j < len
        invariant j <= len
        invariant forall q: nat :: q < len && Distance(first, q, len) < j ==>
                  SlotDec(slots[SlotIndex(c, q)], tree, frames).None?
      {
        var k := SlotIndex(c, Offsetted(first, j, len));
        if SlotDec(slots[k], tree, frames).Some? { return Some(k); }
        j := j + 1;
      }
      found := None;
    }

    /** `ll_local_steal`: a slot whose class the policy lets the request match or steal from. */
    method FindSteal(cls: nat, index: nat, tree: Option<nat>, frames: nat) returns (found: Option<nat>, rc: nat)
      requires Configured() && cls < MAX_CLASSES
      ensures found.Some? ==> found.value < |slots| && SlotDec(slots[found.value], tree, frames).Some?
      ensures found.None? <==> forall c :: 0 <= c < MAX_CLASSES && policy(cls, c, frames).kind in {Match, Steal} ==>
                ClassDry(slots, c, tree, frames)
    {
      var i := 0;
      while i < MAX_CLASSES
        invariant i <= MAX_CLASSES
        invariant forall c :: 0 <= c < MAX_CLASSES && Distance(cls, c, MAX_CLASSES) < i && policy(cls, c, frames).kind in {Match, Steal} ==>
                    ClassDry(slots, c, tree, frames)
      {
        rc := Offsetted(cls, i, MAX_CLASSES);
        var kind := policy(cls, rc, frames).kind;
        if HasSlots(rc) && (kind == Match || kind == Steal) {
          found := FindSlot(rc, index, tree, frames);
          if found.Some? { return; }
        }
        i := i + 1;
      }
      found, rc := None, cls;
    }

    /** `steal_local`. */
    method StealLocal(request: Request, at: Option<nat>) returns (r: Result, rc: nat)
      requires Valid() && Harmless(at, request.order) && request.cls < MAX_CLASSES
      modifies this`trees, this`slots, lower
      ensures Outcome(request.order, at, r)
      ensures request.order == 0 && at.None? && !r.Ok? ==> trees == old(trees) && slots == old(slots)
      ensures request.order == 0 && at.None? ==>
                (!r.Ok? <==> forall c :: 0 <= c < MAX_CLASSES && policy(request.cls, c, 1).kind in {Match, Steal} ==>
                     ClassDry(old(slots), c, None, 1))
      ensures at.Some? && FreeRun(old(lower.Free()), request.order, at.value) && !r.Ok? ==>
                slots == old(slots)
                && forall c :: 0 <= c < MAX_CLASSES
                               && policy(request.cls, c, Pow2(request.order)).kind in {Match, Steal} ==>
                     ClassDry(slots, c, Some(TreeOf(at.value)), Pow2(request.order))
    {
      var frames := Pow2(request.order);
      var wanted := if at.Some? then Some(TreeOf(at.value)) else None;
      var k;
      k, rc := FindSteal(request.cls, if request.local.Some? then request.local.value else 0, wanted, frames);
      if k.None? { return OutOfMemory, rc; }
      var prev := slots[k.value];
      var taken := TakeFromSlot(k.value, wanted, frames);
      var t := TreeOfRow(prev.startRow);
      ghost var l := Ledger(-1, 0, t, frames);
      RowStart(prev.startRow);
      r := LowerGet(t, 64 * prev.startRow, request.order, at, l);
      if !r.Ok? { PutTree(t, frames, l); }
    }

    /** The search of `ll_local_demote_any`: a slot of another class that the policy lets the request demote. */
    method FindDemote(cls: nat, index: nat, tree: Option<nat>, frames: nat) returns (found: Option<nat>)
      requires Configured() && cls < MAX_CLASSES
      ensures found.Some? ==> found.value < |slots| && SlotDec(slots[found.value], tree, frames).Some?
      ensures found.None? <==> forall c :: 0 <= c < MAX_CLASSES && c != cls && policy(cls, c, frames).kind == Demote ==>
                ClassDry(slots, c, tree, frames)
    {
      var i := 1;
      while i < MAX_CLASSES
        invariant 1 <= i <= MAX_CLASSES
        invariant forall c :: 0 <= c < MAX_CLASSES && 0 < Distance(cls, c, MAX_CLASSES) < i && policy(cls, c, frames).kind == Demote ==>
                    ClassDry(slots, c, tree, frames)
      {
        var c := Offsetted(cls, i, MAX_CLASSES);
        if HasSlots(c) && policy(cls, c, frames).kind == Demote {
          found := FindSlot(c, index, tree, frames);
          if found.Some? { return; }
        }
        i := i + 1;
      }
      found := None;
    }

    /** The update of `ll_local_demote_any` and the unreservation that follows it: the taken tree moves into
        the requesting slot, or is unreserved when the request names no slot. */
    method MoveSlot(k: nat, cls: nat, index: Option<nat>, frames: nat, ghost tree: Option<nat>)
      requires Valid() && k < |slots| && SlotDec(slots[k], tree, frames).Some? && cls < numClasses <= MAX_CLASSES
      modifies this`trees, this`slots
      ensures Books(Ledger(-1, 0, TreeOfRow(old(slots)[k].startRow), frames)) && |trees| == old(|trees|)
      ensures |slots| == old(|slots|)
    {
      var prev := slots[k];
      var t := TreeOfRow(prev.startRow);
      var moved := prev.(free := prev.free - frames);
      ghost var l := Ledger(t, moved.free, t, frames);
      SlotChange(trees, slots, lower.children, SETTLED, numClasses, k, EMPTY_SLOT, l);
      slots := slots[k := EMPTY_SLOT];
      if index.Some? && SlotIn(cls, index.value) {
        var j := SlotIndex(cls, index.value);
        var replaced := slots[j];
        ghost var l' := if replaced.present then Ledger(TreeOfRow(replaced.startRow), replaced.free, t, frames)
                        else Ledger(-1, 0, t, frames);
        assert TreeOk(trees[t], slots, TreeFree(lower.children, t), l, t, numClasses);
        SlotUpdates(slots, j, moved);
        SlotChange(trees, slots, lower.children, l, numClasses, j, moved, l');
        slots := slots[j := moved];
        if replaced.present { Unreserve(TreeOfRow(replaced.startRow), replaced.free, cls, l'); }
      } else {
        Unreserve(t, moved.free, cls, l);
      }
    }

    /** `demote_local`. */
    method DemoteLocal(request: Request, at: Option<nat>) returns (r: Result)
      requires Valid() && Harmless(at, request.order) && request.cls < numClasses
      modifies this`trees, this`slots, lower
      ensures Outcome(request.order, at, r)
      ensures request.order == 0 && at.None? && !r.Ok? ==> trees == old(trees) && slots == old(slots)
      ensures request.order == 0 && at.None? ==>
                (!r.Ok? <==> forall c :: 0 <= c < MAX_CLASSES && c != request.cls && policy(request.cls, c, 1).kind == Demote ==> ClassDry(old(slots), c, None, 1))
      ensures at.Some? && FreeRun(old(lower.Free()), request.order, at.value) && !r.Ok? ==>
                forall c :: 0 <= c < MAX_CLASSES && c != request.cls
                            && policy(request.cls, c, Pow2(request.order)).kind == Demote ==>
                  ClassDry(old(slots), c, Some(TreeOf(at.value)), Pow2(request.order))
    {
      var frames := Pow2(request.order);
      var wanted := if at.Some? then Some(TreeOf(at.value)) else None;
      var k := FindDemote(request.cls, if request.local.Some? then request.local.value else 0, wanted, frames);
      if k.None? { return OutOfMemory; }
      var prev := slots[k.value];
      var t := TreeOfRow(prev.startRow);
      MoveSlot(k.value, request.cls, request.local, frames, wanted);
      ghost var l := Ledger(-1, 0, t, frames);
      RowStart(prev.startRow);
      r := LowerGet(t, 64 * prev.startRow, request.order, at, l);
      if !r.Ok? { PutTree(t, frames, l); }
    }

    // ---- the interface ----

    /** `validate_request`. */
    predicate ValidRequest(request: Request, at: Option<nat>)
      requires |lens| == MAX_CLASSES
      reads this, lower
    {
      && request.order <= 12
      && request.cls < MAX_CLASSES && lens[request.cls].Some?
      && (request.local.Some? ==> request.local.value < lens[request.cls].value)
      && Pow2(request.order) <= lower.frames
      && (at.Some? ==> at.value <= lower.frames - Pow2(request.order) && Aligned(at.value, request.order))
    }

    /** The search is bound to come to tree `t`: it is tried as soon as it is met, or the table has room for
        every tree. */
    predicate Reached(mode: Mode, cls: nat, ts: seq<Tree>, order: nat, t: int)
      requires order <= 12 && 0 <= t < |ts|
    {
      Judge(mode, cls, ts[t], order).TryNow? || |ts| <= SEARCH_BEST
    }

    /** `search_and_reserve`: a near best-fit search below the huge order, then the whole array. */
    method SearchAndReserve(cls: nat, local: nat, order: nat, startAt: nat, ghost quiet: bool, ghost aim: int)
      returns (r: Result, rc: nat)
      requires Valid() && Harmless(None, order) && cls < MAX_CLASSES && lens[cls].Some? && startAt < |trees|
      requires (quiet ==> order == 0 && Able()) && Aim(aim, order)
      modifies this`trees, this`slots, lower
      ensures Outcome(order, None, r) && AimKept(aim, r)
      ensures quiet && !r.Ok? ==> trees == old(trees) && slots == old(slots)
      ensures quiet ==> (!r.Ok? <==> NoUsable(old(trees)))
      ensures aim >= 0 && Reached(Global, cls, old(trees), order, aim) ==> r.Ok?
    {
      var near := if |trees| / 16 > 4 then |trees| / 16 else 4;
      var start := AlignDown(startAt, NextPow2(2 * near));
      if order < HUGE_ORDER {
        r, rc := SearchBest(Near, start, 1, near, order, cls, local, quiet, aim);
        if !r.OutOfMemory? { return; }
      }
      r, rc := SearchBest(Global, start, 0, |trees|, order, cls, local, quiet, aim);
      if quiet && !r.Ok? { AllVisited(old(trees), start); }
      if aim >= 0 { AllAreVisited(|trees|, start, aim); }
    }

    lemma TreeInRange(frame: nat)
      requires lower.Valid() && |lower.children| == 8 * |trees| && frame < lower.frames
      ensures TreeOf(frame) < |trees|
    {}

    /** The policy is the simple one and every class has slots. */
    ghost predicate Simple()
      requires |lens| == MAX_CLASSES
    {
      && (forall a, b, f :: policy(a, b, f) == SimplePolicy(a, b, f))
      && (forall c :: 0 <= c < numClasses ==> HasSlots(c))
    }

    ghost predicate OfAClass(k: nat)
      requires |lens| == |offsets| == MAX_CLASSES
    {
      exists c: nat, j: nat :: SlotIn(c, j) && SlotIndex(c, j) == k
    }

    /** Each of the `n` slots belongs to a class. */
    ghost predicate Tiled(n: nat)
      requires |lens| == |offsets| == MAX_CLASSES
    {
      forall k: nat :: k < n ==> OfAClass(k)
    }

    /** A free frame is counted in its tree or in a slot that some class offers. */
    lemma FrameCounted(frame: nat)
      requires Valid() && Simple() && Tiled(|slots|) && frame in lower.Free() && TreeOf(frame) < |trees|
      requires trees[TreeOf(frame)].free == 0
      ensures !forall c :: 0 <= c < MAX_CLASSES ==> ClassDry(slots, c, Some(TreeOf(frame)), 1)
    {
      var t := TreeOf(frame);
      assert Block(frame, 1) == {frame};
      RunCounted(lower.frames, lower.children, lower.fields, 0, frame);
      assert TreeOk(trees[t], slots, TreeFree(lower.children, t), SETTLED, t, numClasses);
      var k := SlotCounted(slots, t);
      assert OfAClass(k);
      var c: nat, j: nat :| SlotIn(c, j) && SlotIndex(c, j) == k;
      assert !ClassDry(slots, c, Some(t), 1);
    }

    /** The frame from the counter of its tree. */
    method TakeExact(frame: nat, order: nat, cls: nat) returns (taken: bool, r: Result)
      requires Valid() && Harmless(Some(frame), order) && cls < numClasses && TreeOf(frame) < |trees|
      modifies this`trees, lower
      ensures Outcome(order, Some(frame), r)
      ensures var tree := old(trees)[TreeOf(frame)];
              taken <==> tree.free >= Pow2(order) && policy(cls, tree.cls, tree.free).kind != Invalid
      ensures r.Ok? <==> taken && FreeRun(old(lower.Free()), order, frame)
    {
      var rc;
      taken, rc := TakeFromTree(TreeOf(frame), Pow2(order), cls);
      if !taken { return taken, OutOfMemory; }
      ghost var l := Ledger(-1, 0, TreeOf(frame), Pow2(order));
      r := LowerGet(TreeOf(frame), frame, order, Some(frame), l);
      if !r.Ok? { PutTree(TreeOf(frame), Pow2(order), l); }
    }

    /** What `llfree_get` does for an exact frame that the requesting slot has refused: the tree of the frame, and then
        any slot that holds it. */
    method GetExactBeyond(frame: nat, request: Request) returns (r: Result)
      requires Valid() && ValidRequest(request, Some(frame)) && Harmless(Some(frame), request.order)
      modifies this`trees, this`slots, lower
      ensures Outcome(request.order, Some(frame), r)
      ensures request.order == 0 && Simple() && Tiled(old(|slots|)) ==> (r.Ok? <==> frame in old(lower.Free()))
    {
      TreeInRange(frame);
      assert Block(frame, 1) == {frame};
      if Simple() && Tiled(|slots|) && frame in lower.Free() && trees[TreeOf(frame)].free == 0 { FrameCounted(frame); }
      var taken, rc;
      taken, r := TakeExact(frame, request.order, request.cls);
      if taken { return; }
      r, rc := StealLocal(request, Some(frame));
      if !r.OutOfMemory? { return; }
      r := DemoteLocal(request, Some(frame));
    }

    /** `llfree_get` for an exact frame. */
    method GetExact(frame: nat, request: Request) returns (r: Result)
      requires Valid() && ValidRequest(request, Some(frame)) && Harmless(Some(frame), request.order)
      modifies this`trees, this`slots, lower
      ensures Outcome(request.order, Some(frame), r)
      ensures request.order == 0 && Simple() && Tiled(old(|slots|)) ==> (r.Ok? <==> frame in old(lower.Free()))
    {
      if request.local.Some? {
        var tree;
        r, tree := GetLocal(request.cls, request.local.value, request.order, Some(frame), true);
        if !r.OutOfMemory? { return; }
      }
      r := GetExactBeyond(frame, request);
    }

    /** The search uses the request's own slot (the class has fewer slots than there are trees). */
    predicate UsesLocal(request: Request)
      requires |lens| == MAX_CLASSES && request.cls < MAX_CLASSES && lens[request.cls].Some?
      reads this
    {
      request.local.Some? && lens[request.cls].value < |trees|
    }

    /** How the request searches the trees once its slot has nothing. */
    function ModeOf(request: Request): Mode
      requires |lens| == MAX_CLASSES && request.cls < MAX_CLASSES && lens[request.cls].Some?
      reads this
    {
      if UsesLocal(request) then Global else AnyTree
    }

    /** The request's own slot can give the frames, and its tree has a block of the order asked for. */
    ghost predicate OwnSlotHas(request: Request)
      requires Configured() && lower.Valid() && request.order <= 12
      requires request.local.Some? && SlotIn(request.cls, request.local.value)
      reads this, lower
    {
      var s := slots[SlotIndex(request.cls, request.local.value)];
      SlotGives(s, true, Pow2(request.order)) && HasRun(lower.Free(), request.order, TreeOfRow(s.startRow))
    }

    /** The request's own slot holds a frame, or its tree more than one in the global counter. */
    ghost predicate SlotServes(request: Request)
      requires Configured() && request.local.Some? && SlotIn(request.cls, request.local.value)
      reads this
    {
      var s := slots[SlotIndex(request.cls, request.local.value)];
      s.present && (s.free >= 1 || (TreeOfRow(s.startRow) < |trees| && trees[TreeOfRow(s.startRow)].free > 1))
    }

    /** No unreserved tree and no slot has a free frame, and the request's own tree has at most one frame left in its
        global counter (the synchronisation demands more than one). Frames in the global counter of a tree that
        another slot has reserved do not help. */
    ghost predicate Starved(request: Request)
      requires Configured() && request.cls < MAX_CLASSES && lens[request.cls].Some?
      requires request.local.Some? ==> SlotIn(request.cls, request.local.value)
      reads this
    {
      && NoUsable(trees)
      && (forall c :: 0 <= c < MAX_CLASSES ==> ClassDry(slots, c, None, 1))
      && (UsesLocal(request) ==> !SlotServes(request))
    }

    lemma TreeStart0()
      requires lower.Valid() && |lower.children| == 8 * |trees| && 0 < lower.frames
      ensures 0 < |trees|
    {}

    /** The attempts of `llfree_get` before its out-of-memory handling. */
    method GetFirst(request: Request, ghost quiet: bool, ghost aim: int) returns (r: Result)
      requires Valid() && ValidRequest(request, None) && Harmless(None, request.order)
      requires (quiet ==> request.order == 0 && Able()) && Aim(aim, request.order)
      modifies this`trees, this`slots, lower
      ensures Outcome(request.order, None, r)
      ensures quiet && !r.Ok? ==> trees == old(trees) && slots == old(slots)
      ensures quiet ==> (!r.Ok? <==> NoUsable(old(trees)) && (UsesLocal(request) ==> old(!SlotServes(request))))
      ensures aim >= 0 && Reached(ModeOf(request), request.cls, old(trees), request.order, aim) ==> r.Ok?
      ensures UsesLocal(request) && old(OwnSlotHas(request)) ==> r.Ok?
    {
      var count := lens[request.cls].value;
      TreeStart0();
      var start := FirstTree(|trees|, count, request.local);
      var rc;
      if request.local.Some? && count < |trees| {
        var tree;
        r, tree := GetLocal(request.cls, request.local.value, request.order, None, true);
        if !r.OutOfMemory? { return; }
        r, rc := SearchAndReserve(request.cls, request.local.value, request.order, if tree.Some? then tree.value
                                                                                   else start, quiet, aim);
      } else {
        r, rc := SearchBest(AnyTree, start, 0, |trees|, request.order, request.cls, 0, quiet, aim);
        if quiet && !r.Ok? { AllVisited(old(trees), start); }
        if aim >= 0 { AllAreVisited(|trees|, start, aim); }
      }
    }

    /** Tree `t` is not reserved and has a block of the order asked for, and the search is bound to come to it:
        when the request uses its slot, the tree is of the request's class, or wholly free and of a higher one;
        otherwise it is of the request's class and neither more than half free nor nearly empty. With no more
        trees than the table has room for, every tree will do. */
    ghost predicate Serves(request: Request, t: nat)
      requires lower.Valid() && request.order <= 12 && |lens| == MAX_CLASSES && request.cls < MAX_CLASSES
      requires lens[request.cls].Some?
      reads this, lower
    {
      && Opens(t, request.order)
      && var tree := trees[t];
         || |trees| <= SEARCH_BEST
         || (if UsesLocal(request) then tree.cls == request.cls || (request.cls < tree.cls && tree.free == TREE_SIZE)
             else tree.cls == request.cls && TREE_SIZE / 64 <= tree.free < TREE_SIZE / 2)
    }

    lemma ServesReached(request: Request, t: nat)
      requires Valid() && ValidRequest(request, None) && Simple() && Serves(request, t)
      ensures Aim(t, request.order) && Reached(ModeOf(request), request.cls, trees, request.order, t)
    {
      OpensCounted(t, request.order);
    }

    /** Some tree serves the request, or its own slot does. */
    ghost predicate Served(request: Request)
      requires Configured() && lower.Valid() && request.order <= 12 && request.cls < MAX_CLASSES
      requires lens[request.cls].Some?
      requires request.local.Some? ==> SlotIn(request.cls, request.local.value)
      reads this, lower
    {
      (exists t: nat :: Serves(request, t)) || (UsesLocal(request) && OwnSlotHas(request))
    }

    /** A wholly free tree of the request's class or a higher one serves every order. */
    lemma WholeTreeServes(request: Request, t: nat)
      requires Valid() && ValidRequest(request, None) && UsesLocal(request)
      requires t < |trees| && trees[t] == Tree(false, trees[t].cls, TREE_SIZE) && request.cls <= trees[t].cls
      ensures Served(request)
    {
      assert TreeOk(trees[t], slots, TreeFree(lower.children, t), SETTLED, t, numClasses);
      NoHolders(slots, t);
      FullTreeRun(lower.frames, lower.children, lower.fields, t, request.order);
      assert Serves(request, t);
    }

    /** `llfree_get` for any frame. */
    method GetAny(request: Request) returns (r: Result)
      requires Valid() && ValidRequest(request, None) && Harmless(None, request.order)
      modifies this`trees, this`slots, lower
      ensures Outcome(request.order, None, r)
      ensures request.order == 0 && Simple() ==> (r.OutOfMemory? <==> old(Starved(request)))
      ensures Simple() && old(Served(request)) ==> r.Ok?
    {
      ghost var quiet, aim: int := request.order == 0 && Simple(), -1;
      if Simple() && exists t: nat :: Serves(request, t) {
        ghost var t: nat :| Serves(request, t);
        ServesReached(request, t);
        aim := t;
      }
      var rc;
      r := GetFirst(request, quiet, aim);
      if !r.OutOfMemory? { return; }
      r, rc := StealLocal(request, None);
      if !r.OutOfMemory? { return; }
      r := DemoteLocal(request, None);
    }

    /** `llfree_get`. */
    method Get(at: Option<nat>, request: Request) returns (r: Result)
      requires Valid() && (ValidRequest(request, at) ==> Harmless(at, request.order))
      modifies this`trees, this`slots, lower
      ensures Valid() && lower.frames == old(lower.frames)
      ensures r.BadArgument? <==> !old(ValidRequest(request, at))
      ensures Effect(old(lower.Free()), lower.Free(), request.order, at, r)
      ensures if r.Ok? then HugeKept(old(lower.children), lower.children, request.order, r.frame)
              else lower.children == old(lower.children) && lower.fields == old(lower.fields)
      ensures old(ValidRequest(request, at)) && at.None? && request.order == 0 && Simple() ==>
                (r.OutOfMemory? <==> old(Starved(request)))
      ensures old(ValidRequest(request, at)) && at.None? && Simple() && old(Served(request)) ==> r.Ok?
      ensures old(ValidRequest(request, at)) && at.Some? && request.order == 0 && Simple() && Tiled(old(|slots|)) ==>
                (r.Ok? <==> at.value in old(lower.Free()))
    {
      if !ValidRequest(request, at) { return BadArgument; }
      if at.Some? { r := GetExact(at.value, request); } else { r := GetAny(request); }
    }

    /** Counts returned frames in the requesting slot if it holds the tree, and in the tree otherwise. */
    method Credit(t: nat, frames: nat, request: Request)
      requires Books(Ledger(-1, 0, t, frames)) && ValidRequest(request, None)
      modifies this`trees, this`slots
      ensures Valid()
    {
      ghost var l := Ledger(-1, 0, t, frames);
      if request.local.Some? {
        var k := SlotIndex(request.cls, request.local.value);
        var inc := SlotInc(slots[k], t, frames);
        if inc.Some? {
          SlotChange(trees, slots, lower.children, l, numClasses, k, inc.value, SETTLED);
          slots := slots[k := inc.value];
          return;
        }
      }
      PutTree(t, frames, l);
    }

    lemma FramesReturned(before: seq<Child>, order: nat, frame: nat, free: set<nat>)
      requires order <= 12 && lower.Valid() && BooksOk(trees, slots, before, SETTLED, numClasses)
      requires TreeOf(frame) < |trees|
      requires Aligned(frame, order) && Gave(free, before, order, frame, lower.Free(), lower.children)
      ensures BooksOk(trees, slots, lower.children, Ledger(-1, 0, TreeOf(frame), Pow2(order)), numClasses)
    {
      TreeGave(free, before, order, frame, lower.Free(), lower.children);
      forall u | 0 <= u < |trees|
        ensures TreeOk(trees[u], slots, TreeFree(lower.children, u), Ledger(-1, 0, TreeOf(frame), Pow2(order)), u, numClasses)
      {
        assert TreeOk(trees[u], slots, TreeFree(before, u), SETTLED, u, numClasses);
      }
    }

    /** `llfree_put`. A torn free changes nothing above the lower allocator. */
    method Put(frame: nat, request: Request) returns (r: Result)
      requires Valid()
      modifies this`trees, this`slots, lower
      ensures lower.frames == old(lower.frames)
      ensures r.Ok? <==> old(ValidRequest(request, Some(frame)))
                         && if request.order >= 9 then HugeBlock(old(lower.children), request.order, frame)
                            else Block(frame, Pow2(request.order)) !! old(lower.Free())
      ensures r.Ok? ==> Valid() && Gave(old(lower.Free()), old(lower.children), request.order, frame, lower.Free(), lower.children)
      ensures !r.Ok? ==> trees == old(trees) && slots == old(slots)
      ensures !r.Ok? && !old(ValidRequest(request, Some(frame)) && lower.TornAt(frame, request.order, true)) ==>
                Valid() && lower.children == old(lower.children) && lower.fields == old(lower.fields)
      ensures old(ValidRequest(request, Some(frame)) && lower.TornAt(frame, request.order, true)) ==>
                !r.Ok? && if request.order < 9 then !lower.Valid()
                          else lower.children == Mangled(old(lower.children), ChildOf(frame), Huges(request.order), HUGE_CHILD, FREE_CHILD)
    {
      if !ValidRequest(request, Some(frame)) { return BadArgument; }
      var frames := Pow2(request.order);
      r := lower.Put(frame, request.order);
      if !r.Ok? { return; }
      var t := TreeOf(frame);
      TreeInRange(frame);
      FramesReturned(old(lower.children), request.order, frame, old(lower.Free()));
      Credit(t, frames, request);
    }

    method DrainSlot(k: nat, cls: nat)
      requires Valid() && k < |slots| && cls < numClasses
      modifies this`trees, this`slots
      ensures Valid() && |trees| == old(|trees|) && slots == old(slots)[k := EMPTY_SLOT]
    {
      var prev := slots[k];
      ghost var l := if prev.present then Ledger(TreeOfRow(prev.startRow), prev.free, -1, 0) else SETTLED;
      SlotChange(trees, slots, lower.children, SETTLED, numClasses, k, EMPTY_SLOT, l);
      slots := slots[k := EMPTY_SLOT];
      if prev.present { Unreserve(TreeOfRow(prev.startRow), prev.free, cls, l); }
    }

    /** `llfree_drain`: unreserves every slot of every configured class. */
    method Drain()
      requires Valid()
      modifies this`trees, this`slots
      ensures Valid() && |trees| == old(|trees|)
      ensures forall c: nat, j: nat :: SlotIn(c, j) ==> !slots[SlotIndex(c, j)].present
    {
      var c := 0;
      while c < MAX_CLASSES
        invariant c <= MAX_CLASSES && Valid() && |slots| == old(|slots|) && |trees| == old(|trees|)
        invariant forall d: nat, j: nat :: d < c && SlotIn(d, j) ==> !slots[SlotIndex(d, j)].present
      {
        if lens[c].Some? {
          var i := 0;
          while i < lens[c].value
            invariant i <= lens[c].value && Valid() && |slots| == old(|slots|) && |trees| == old(|trees|)
            invariant forall d: nat, j: nat :: d < c && SlotIn(d, j) ==> !slots[SlotIndex(d, j)].present
            invariant forall j: nat :: j < i ==> !slots[SlotIndex(c, j)].present
          {
            DrainSlot(SlotIndex(c, i), c);
            i := i + 1;
          }
        }
        c := c + 1;
      }
    }
  }

  /** Reserving a tree for a slot whose own count is used up keeps the books. */
  lemma ReservedBooks(children: seq<Child>, trees: seq<Tree>, slots: seq<Slot>, t: nat, k: nat, tree: Tree, slot: Slot)
    requires BooksOk(trees, slots, children, SETTLED, 2) && t < |trees| && !trees[t].reserved && k < |slots|
    requires slots[k] == EMPTY_SLOT
    requires tree == trees[t].(reserved := true) && slot == Slot(true, 0, 64 * t)
    ensures BooksOk(trees[t := tree], slots[k := slot], children, SETTLED, 2)
  {
    var limbo := Ledger(t, 0, -1, 0);
    assert TreeOk(trees[t], slots, TreeFree(children, t), SETTLED, t, 2);
    TreeChange(trees, slots, children, SETTLED, 2, t, tree, limbo);
    SlotChange(trees[t := tree], slots, children, limbo, 2, k, slot, SETTLED);
  }

  /** A lower allocator of two trees, the first free and the second taken as one block. */
  method HalfTaken() returns (lower: Lower)
    ensures fresh(lower) && lower.Valid() && lower.frames == 8192 && lower.Free() == Block(0, 4096)
    ensures |lower.children| == 16 && TreeFree(lower.children, 0) == 4096 && TreeFree(lower.children, 1) == 0
  {
    lower := new Lower(8192);
    lower.Clear(true);
    RunIsGroup(8192, lower.children, lower.fields, 12, 0);
    RunIsGroup(8192, lower.children, lower.fields, 12, 4096);
    ghost var free, children := lower.Free(), lower.children;
    assert |children| == 16 && AllAre(children, 0, 8, FREE_CHILD) && AllAre(children, 8, 8, FREE_CHILD);
    var r := lower.GetAt(4096, 12);
    TreeTook(free, children, 8, 12, 4096, lower.Free(), lower.children, 1);
    assert lower.Free() == Block(0, 4096);
  }

  const ONE_EACH: seq<Option<nat>> := [Some(1), Some(1), None, None, None, None, None, None]

  /** Two trees and a slot for each class. One core took the first tree as a block of order 12, which left the tree
      reserved for its slot and the slot's count at 0; the second tree was taken without a slot; and then the first
      block was given back by a core that does not hold the tree, which counts it in the tree. */
  method Plenty() returns (a: LLFree)
    ensures fresh(a) && fresh(a.lower) && a.Valid() && a.policy == SimplePolicy && a.lens == ONE_EACH
    ensures a.numClasses == 2
    ensures a.trees == [Tree(true, 1, 4096), Tree(false, 1, 0)] && a.slots == [EMPTY_SLOT, Slot(true, 0, 0)]
    ensures a.offsets == [0, 1, 0, 0, 0, 0, 0, 0] && a.lower.frames == 8192 && a.lower.Free() == Block(0, 4096)
  {
    var lower := HalfTaken();
    a := new LLFree(lower, SimplePolicy, 2, 1, ONE_EACH, [0, 1, 0, 0, 0, 0, 0, 0], 2);
    var tree, slot := a.trees[0].(reserved := true), Slot(true, 0, 0);
    ReservedBooks(lower.children, a.trees, a.slots, 0, 1, tree, slot);
    a.trees, a.slots := a.trees[0 := tree], a.slots[1 := slot];
  }

  lemma PlentyStarved(a: LLFree, local: Option<nat>)
    requires a.Valid() && a.lens == ONE_EACH && a.trees == [Tree(true, 1, 4096), Tree(false, 1, 0)]
    requires a.slots == [EMPTY_SLOT, Slot(true, 0, 0)] && a.offsets == [0, 1, 0, 0, 0, 0, 0, 0]
    requires (local == None || local == Some(0))
    ensures a.Starved(Request(0, 0, local))
  {}

  /** There, every request of order 0 for small blocks is refused, with half the frames free. */
  method StarvedInPlenty(local: Option<nat>) returns (a: LLFree, r: Result)
    requires local == None || local == Some(0)
    ensures a.Valid() && r.OutOfMemory? && a.lower.Free() == Block(0, 4096)
  {
    a := Plenty();
    PlentyStarved(a, local);
    r := a.GetAny(Request(0, 0, local));
  }
}
