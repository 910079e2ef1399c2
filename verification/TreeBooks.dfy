/**
 * The books of the upper allocator: every free frame of a tree is counted once, in the tree's own counter, in the
 * local slot that holds the tree, or (inside an operation) in hand.
 */
module TreeBooks {
  import opened Blocks
  import opened LowerAllocator

  datatype Option<T> = None | Some(value: T)

  const MAX_CLASSES := 8

  // ---- policies ----

  datatype Kind = Match | Steal | Demote | Invalid

  datatype Policy = Policy(kind: Kind, priority: nat)

  const PERFECT := 255

  type PolicyFn = (nat, nat, nat) -> Policy

  /** The two-class policy: small frames in class 0, huge frames in class 1. */
  function SimplePolicy(requested: nat, target: nat, free: nat): Policy {
    if requested > target then Policy(Steal, 0)
    else if requested < target then Policy(Demote, 0)
    else if free >= TREE_SIZE / 2 then Policy(Match, 1)
    else if free >= TREE_SIZE / 64 then Policy(Match, PERFECT)
    else Policy(Match, 0)
  }

  // ---- tree entries ----

  datatype Tree = Tree(reserved: bool, cls: nat, free: nat)

  function TreePut(t: Tree, frames: nat, policy: PolicyFn, defaultClass: nat): Tree {
    var free := t.free + frames;
    if free == TREE_SIZE && policy(t.cls, defaultClass, free).kind != Invalid
    then Tree(t.reserved, defaultClass, free) else t.(free := free)
  }

  /** Takes frames from the counter: the class becomes the stealer's, or stays on Steal. */
  function TreeSteal(t: Tree, frames: nat, cls: nat, policy: PolicyFn): (r: Option<Tree>) {
    if t.free < frames then None else
    match policy(cls, t.cls, t.free).kind
    case Match => Some(Tree(t.reserved, cls, t.free - frames))
    case Demote => Some(Tree(t.reserved, cls, t.free - frames))
    case Steal => Some(t.(free := t.free - frames))
    case Invalid => None
  }

  /** Reserves the whole tree, or takes frames from its counter on Steal. */
  function TreeReserveOrSteal(t: Tree, frames: nat, policy: PolicyFn, cls: nat): (r: Option<Tree>) {
    if t.reserved || t.free < frames then None else
    match policy(cls, t.cls, t.free).kind
    case Match => Some(Tree(true, cls, 0))
    case Demote => Some(Tree(true, cls, 0))
    case Steal => Some(t.(free := t.free - frames))
    case Invalid => None
  }

  function TreeUnreserveAdd(t: Tree, frames: nat, cls: nat, policy: PolicyFn, defaultClass: nat): (r: Option<Tree>) {
    if !t.reserved then None else
    var demoted := policy(cls, t.cls, frames).kind == Demote;
    Some(TreePut(Tree(false, if demoted then cls else t.cls, t.free), frames, policy, defaultClass))
  }

  function TreeSyncSteal(t: Tree, min: nat): (r: Option<Tree>) {
    if t.reserved && t.free > min then Some(t.(free := 0)) else None
  }

  // ---- local slots ----

  datatype Slot = Slot(present: bool, free: nat, startRow: nat)

  const EMPTY_SLOT := Slot(false, 0, 0)

  function TreeOfRow(row: nat): nat { row / 64 }

  function RowOf(frame: nat): nat { frame / 64 }

  function Share(s: Slot, t: nat): nat {
    if s.present && TreeOfRow(s.startRow) == t then s.free else 0
  }

  function Holds(s: Slot, t: nat): nat {
    if s.present && TreeOfRow(s.startRow) == t then 1 else 0
  }

  function SlotDec(s: Slot, tree: Option<nat>, frames: nat): (r: Option<Slot>) {
    if !s.present || (tree.Some? && TreeOfRow(s.startRow) != tree.value) || s.free < frames then None
    else Some(s.(free := s.free - frames))
  }

  function SlotInc(s: Slot, tree: nat, frames: nat): (r: Option<Slot>) {
    if !s.present || TreeOfRow(s.startRow) != tree then None else Some(s.(free := s.free + frames))
  }

  /** Free frames recorded in slots for tree `t`, and how many slots hold it. */
  function LocalFree(slots: seq<Slot>, t: nat): nat {
    if slots == [] then 0 else LocalFree(slots[..|slots| - 1], t) + Share(slots[|slots| - 1], t)
  }

  function Holders(slots: seq<Slot>, t: nat): nat {
    if slots == [] then 0 else Holders(slots[..|slots| - 1], t) + Holds(slots[|slots| - 1], t)
  }

  lemma {:induction false} SlotUpdate(slots: seq<Slot>, k: nat, s: Slot, t: nat)
    requires k < |slots|
    ensures LocalFree(slots[k := s], t) == LocalFree(slots, t) - Share(slots[k], t) + Share(s, t)
    ensures Holders(slots[k := s], t) == Holders(slots, t) - Holds(slots[k], t) + Holds(s, t)
    ensures Share(slots[k], t) <= LocalFree(slots, t) && Holds(slots[k], t) <= Holders(slots, t)
  {
    var last := |slots| - 1;
    if k == last {
      assert slots[k := s][..last] == slots[..last];
    } else {
      SlotUpdate(slots[..last], k, s, t);
      assert slots[k := s][..last] == slots[..last][k := s];
    }
  }

  lemma SlotUpdates(slots: seq<Slot>, k: nat, s: Slot)
    requires k < |slots|
    ensures forall t: nat :: LocalFree(slots[k := s], t) == LocalFree(slots, t) - Share(slots[k], t) + Share(s, t)
    ensures forall t: nat :: Holders(slots[k := s], t) == Holders(slots, t) - Holds(slots[k], t) + Holds(s, t)
    ensures forall t: nat :: Share(slots[k], t) <= LocalFree(slots, t) && Holds(slots[k], t) <= Holders(slots, t)
  {
    forall t: nat
      ensures LocalFree(slots[k := s], t) == LocalFree(slots, t) - Share(slots[k], t) + Share(s, t)
      ensures Holders(slots[k := s], t) == Holders(slots, t) - Holds(slots[k], t) + Holds(s, t)
      ensures Share(slots[k], t) <= LocalFree(slots, t) && Holds(slots[k], t) <= Holders(slots, t)
    {
      SlotUpdate(slots, k, s, t);
    }
  }

  // ---- the books ----

  /** `limbo`: a tree marked reserved that no slot holds, with its `owed` frames; `hand`: frames taken
      from a counter of `handTree` for an allocation that has not happened yet. -1 means none. */
  datatype Ledger = Ledger(limbo: int, owed: nat, handTree: int, hand: nat)

  const SETTLED := Ledger(-1, 0, -1, 0)

  function Extra(l: Ledger, t: nat): nat {
    (if l.limbo == t then l.owed else 0) + (if l.handTree == t then l.hand else 0)
  }

  ghost predicate TreeOk(tree: Tree, slots: seq<Slot>, lf: nat, l: Ledger, t: nat, classes: nat) {
    && tree.free + LocalFree(slots, t) + Extra(l, t) == lf
    && (if tree.reserved then 1 else 0) == Holders(slots, t) + (if l.limbo == t then 1 else 0)
    && tree.cls < classes
  }

  ghost predicate BooksOk(trees: seq<Tree>, slots: seq<Slot>, children: seq<Child>, l: Ledger, classes: nat) {
    && |children| == 8 * |trees|
    && l.limbo < |trees| && l.handTree < |trees|
    && (forall k :: 0 <= k < |slots| && slots[k].present ==> TreeOfRow(slots[k].startRow) < |trees|)
    && forall t :: 0 <= t < |trees| ==> TreeOk(trees[t], slots, TreeFree(children, t), l, t, classes)
  }

  /** Totals of the tree counters, of the local slots and of the children. */
  function TreesTotal(trees: seq<Tree>): nat {
    if trees == [] then 0 else TreesTotal(trees[..|trees| - 1]) + trees[|trees| - 1].free
  }

  function SlotsTotal(slots: seq<Slot>): nat {
    if slots == [] then 0
    else SlotsTotal(slots[..|slots| - 1]) + if slots[|slots| - 1].present then slots[|slots| - 1].free else 0
  }

  function ChildrenTotal(children: seq<Child>): nat {
    if children == [] then 0 else ChildrenTotal(children[..|children| - 1]) + children[|children| - 1].free
  }

  /** What `llfree_validate` checks: the totals agree; every counter and class is in range, and the counter of a tree
      that is not reserved is exact; and every slot holds a reserved tree for which counter and slot together are
      exact. */
  ghost predicate Validates(trees: seq<Tree>, slots: seq<Slot>, children: seq<Child>, classes: nat)
    requires |children| == 8 * |trees|
  {
    && ChildrenTotal(children) == TreesTotal(trees) + SlotsTotal(slots)
    && (forall t :: 0 <= t < |trees| ==>
          trees[t].free <= TREE_SIZE && trees[t].cls < classes
          && (!trees[t].reserved ==> trees[t].free == TreeFree(children, t)))
    && (forall k :: 0 <= k < |slots| && slots[k].present ==>
          var t := TreeOfRow(slots[k].startRow);
          t < |trees| && trees[t].reserved && trees[t].free + slots[k].free == TreeFree(children, t) <= TREE_SIZE)
  }

  /** What it does not check: a reserved tree is held by a slot, and by no other. */
  ghost predicate HeldOnce(trees: seq<Tree>, slots: seq<Slot>) {
    && (forall t :: 0 <= t < |trees| && trees[t].reserved ==> exists k :: 0 <= k < |slots| && Holds(slots[k], t) == 1)
    && (forall j, k :: 0 <= j < k < |slots| && slots[j].present && slots[k].present ==>
          TreeOfRow(slots[j].startRow) != TreeOfRow(slots[k].startRow))
  }

  // ---- ledger transitions ----

  /** Changing one tree entry. */
  lemma TreeChange(trees: seq<Tree>, slots: seq<Slot>, children: seq<Child>, l: Ledger, classes: nat, t: nat,
                   tree: Tree, l': Ledger)
    requires BooksOk(trees, slots, children, l, classes) && t < |trees|
    requires tree.cls < classes && tree.free + Extra(l', t) == trees[t].free + Extra(l, t)
    requires (if tree.reserved then 1 else 0) - (if l'.limbo == t then 1 else 0) == (if trees[t].reserved then 1 else 0) - (if l.limbo == t then 1 else 0)
    requires l'.limbo < |trees| && l'.handTree < |trees|
    requires forall u :: 0 <= u < |trees| && u != t ==> Extra(l', u) == Extra(l, u) && (l'.limbo == u <==> l.limbo == u)
    ensures BooksOk(trees[t := tree], slots, children, l', classes)
  {
    forall u | 0 <= u < |trees| ensures TreeOk(trees[t := tree][u], slots, TreeFree(children, u), l', u, classes) {
      assert TreeOk(trees[u], slots, TreeFree(children, u), l, u, classes);
    }
  }

  /** Changing one slot. */
  lemma SlotChange(trees: seq<Tree>, slots: seq<Slot>, children: seq<Child>, l: Ledger, classes: nat, k: nat, s: Slot,
                   l': Ledger)
    requires BooksOk(trees, slots, children, l, classes) && k < |slots|
    requires s.present ==> TreeOfRow(s.startRow) < |trees|
    requires l'.limbo < |trees| && l'.handTree < |trees|
    requires forall t :: 0 <= t < |trees| ==> Share(s, t) + Extra(l', t) == Share(slots[k], t) + Extra(l, t)
    requires forall t :: 0 <= t < |trees| ==>
               Holds(s, t) + (if l'.limbo == t then 1 else 0) == Holds(slots[k], t) + (if l.limbo == t then 1 else 0)
    ensures BooksOk(trees, slots[k := s], children, l', classes)
  {
    SlotUpdates(slots, k, s);
    forall u | 0 <= u < |trees| ensures TreeOk(trees[u], slots[k := s], TreeFree(children, u), l', u, classes) {
      assert TreeOk(trees[u], slots, TreeFree(children, u), l, u, classes);
      assert Share(s, u) + Extra(l', u) == Share(slots[k], u) + Extra(l, u);
    }
  }

  /** The lower allocator takes the frames in hand. */
  lemma HandTaken(trees: seq<Tree>, slots: seq<Slot>, children: seq<Child>, l: Ledger, classes: nat,
                  children': seq<Child>)
    requires BooksOk(trees, slots, children, l, classes) && |children'| == |children| && l.handTree >= 0
    requires forall t :: 0 <= t < |trees| ==>
               TreeFree(children', t) == TreeFree(children, t) - if t == l.handTree then l.hand else 0
    ensures BooksOk(trees, slots, children', l.(handTree := -1, hand := 0), classes)
  {
    forall u | 0 <= u < |trees|
      ensures TreeOk(trees[u], slots, TreeFree(children', u), l.(handTree := -1, hand := 0), u, classes)
    {
      assert TreeOk(trees[u], slots, TreeFree(children, u), l, u, classes);
    }
  }

  // ---- settled books are what validation checks, and that reserved trees are held once ----

  lemma {:induction false} HolderExists(slots: seq<Slot>, t: nat) returns (k: nat)
    requires Holders(slots, t) >= 1
    ensures k < |slots| && Holds(slots[k], t) == 1
  {
    var last := |slots| - 1;
    if Holds(slots[last], t) == 1 { k := last; } else { k := HolderExists(slots[..last], t); }
  }

  lemma {:induction false} NoHolders(slots: seq<Slot>, t: nat)
    ensures Holders(slots, t) == 0 <==> forall j :: 0 <= j < |slots| ==> Holds(slots[j], t) == 0
    ensures Holders(slots, t) == 0 ==> LocalFree(slots, t) == 0
  {
    if slots != [] {
      var last := |slots| - 1;
      NoHolders(slots[..last], t);
      assert forall j :: 0 <= j < last ==> slots[..last][j] == slots[j];
    }
  }

  lemma {:induction false} NoOtherHolder(slots: seq<Slot>, k: nat, t: nat)
    requires k < |slots| && Holds(slots[k], t) == 1
    ensures Holders(slots, t) >= 1
    ensures Holders(slots, t) == 1 <==> forall j :: 0 <= j < |slots| && j != k ==> Holds(slots[j], t) == 0
    ensures Holders(slots, t) == 1 ==> LocalFree(slots, t) == slots[k].free
  {
    var rest := slots[k := EMPTY_SLOT];
    SlotUpdate(slots, k, EMPTY_SLOT, t);
    NoHolders(rest, t);
    assert forall j :: 0 <= j < |slots| && j != k ==> rest[j] == slots[j];
  }

  lemma TreeFreeBound(frames: nat, children: seq<Child>, fields: seq<set<nat>>, t: nat)
    requires Consistent(frames, children, fields) && 8 * t + 8 <= |children|
    ensures TreeFree(children, t) <= TREE_SIZE
  {
    forall k | 8 * t <= k < 8 * t + 8 ensures children[k].free <= 512 {
      if k < |fields| { FullFieldSize(fields[k]); }
    }
  }

  /** The frames that the slots record for the first `n` trees. */
  function LocalTotal(slots: seq<Slot>, n: nat): nat {
    if n == 0 then 0 else LocalTotal(slots, n - 1) + LocalFree(slots, n - 1)
  }

  lemma {:induction false} LocalTotalStep(slots: seq<Slot>, s: Slot, n: nat)
    ensures LocalTotal(slots + [s], n) == LocalTotal(slots, n) + if s.present && TreeOfRow(s.startRow) < n then s.free
                                                                 else 0
  {
    if n > 0 {
      LocalTotalStep(slots, s, n - 1);
      assert (slots + [s])[..|slots|] == slots;
    }
  }

  lemma {:induction false} NoLocal(n: nat)
    ensures LocalTotal([], n) == 0
  {
    if n > 0 { NoLocal(n - 1); }
  }

  lemma {:induction false} LocalTotalIs(slots: seq<Slot>, n: nat)
    requires forall k :: 0 <= k < |slots| && slots[k].present ==> TreeOfRow(slots[k].startRow) < n
    ensures LocalTotal(slots, n) == SlotsTotal(slots)
  {
    if slots == [] {
      NoLocal(n);
    } else {
      var last := |slots| - 1;
      LocalTotalIs(slots[..last], n);
      LocalTotalStep(slots[..last], slots[last], n);
      assert slots[..last] + [slots[last]] == slots;
    }
  }

  lemma FourMore(children: seq<Child>, n: nat)
    requires |children| == n + 4
    ensures ChildrenTotal(children) == ChildrenTotal(children[..n]) + children[n].free + children[n + 1].free + children[n + 2].free + children[n + 3].free
  {
    assert children[..n + 3][..n + 2] == children[..n + 2];
    assert children[..n + 2][..n + 1] == children[..n + 1];
    assert children[..n + 1][..n] == children[..n];
  }

  lemma ChildrenTotalStep(children: seq<Child>, t: nat)
    requires |children| == 8 * t + 8
    ensures ChildrenTotal(children) == ChildrenTotal(children[..8 * t]) + TreeFree(children, t)
  {
    var c0, c4 := children[..8 * t], children[..8 * t + 4];
    FourMore(children[..8 * t + 4], 8 * t);
    FourMore(children, 8 * t + 4);
    assert c4[..8 * t] == c0;
  }

  lemma {:induction false} TotalsAgree(trees: seq<Tree>, slots: seq<Slot>, children: seq<Child>, n: nat)
    requires n <= |trees| && |children| == 8 * |trees|
    requires forall t :: 0 <= t < |trees| ==> trees[t].free + LocalFree(slots, t) == TreeFree(children, t)
    ensures ChildrenTotal(children[..8 * n]) == TreesTotal(trees[..n]) + LocalTotal(slots, n)
  {
    if n > 0 {
      TotalsAgree(trees, slots, children, n - 1);
      var below := children[..8 * n];
      ChildrenTotalStep(below, n - 1);
      assert below[..8 * (n - 1)] == children[..8 * (n - 1)];
      assert trees[..n][..n - 1] == trees[..n - 1];
      assert TreeFree(below, n - 1) == TreeFree(children, n - 1);
    }
  }

  lemma SettledTotals(trees: seq<Tree>, slots: seq<Slot>, children: seq<Child>, classes: nat)
    requires BooksOk(trees, slots, children, SETTLED, classes)
    ensures ChildrenTotal(children) == TreesTotal(trees) + SlotsTotal(slots)
  {
    forall t | 0 <= t < |trees| ensures trees[t].free + LocalFree(slots, t) == TreeFree(children, t) {
      assert TreeOk(trees[t], slots, TreeFree(children, t), SETTLED, t, classes);
    }
    TotalsAgree(trees, slots, children, |trees|);
    LocalTotalIs(slots, |trees|);
    assert children[..8 * |trees|] == children && trees[..|trees|] == trees;
  }

  lemma SettledValidates(trees: seq<Tree>, slots: seq<Slot>, children: seq<Child>, classes: nat)
    requires BooksOk(trees, slots, children, SETTLED, classes)
    requires forall t :: 0 <= t < |trees| ==> TreeFree(children, t) <= TREE_SIZE
    ensures Validates(trees, slots, children, classes) && HeldOnce(trees, slots)
  {
    SettledTotals(trees, slots, children, classes);
    forall t | 0 <= t < |trees|
      ensures trees[t].free <= TREE_SIZE && trees[t].cls < classes
      ensures !trees[t].reserved ==> trees[t].free == TreeFree(children, t)
      ensures trees[t].reserved ==> exists k :: 0 <= k < |slots| && Holds(slots[k], t) == 1
    {
      assert TreeOk(trees[t], slots, TreeFree(children, t), SETTLED, t, classes);
      NoHolders(slots, t);
      if trees[t].reserved { var k := HolderExists(slots, t); }
    }
    forall k | 0 <= k < |slots| && slots[k].present
      ensures var t := TreeOfRow(slots[k].startRow);
              t < |trees| && trees[t].reserved && trees[t].free + slots[k].free == TreeFree(children, t)
              && forall j :: 0 <= j < |slots| && j != k ==> Holds(slots[j], t) == 0
    {
      var t := TreeOfRow(slots[k].startRow);
      assert TreeOk(trees[t], slots, TreeFree(children, t), SETTLED, t, classes);
      NoOtherHolder(slots, k, t);
    }
  }

  lemma ValidatesSettled(trees: seq<Tree>, slots: seq<Slot>, children: seq<Child>, classes: nat)
    requires |children| == 8 * |trees| && Validates(trees, slots, children, classes) && HeldOnce(trees, slots)
    ensures BooksOk(trees, slots, children, SETTLED, classes)
  {
    forall t | 0 <= t < |trees| ensures TreeOk(trees[t], slots, TreeFree(children, t), SETTLED, t, classes) {
      NoHolders(slots, t);
      if trees[t].reserved {
        var k :| 0 <= k < |slots| && Holds(slots[k], t) == 1;
        NoOtherHolder(slots, k, t);
      } else {
        assert forall k :: 0 <= k < |slots| ==> Holds(slots[k], t) == 0;
      }
    }
  }

  /** The books are settled exactly when validation passes and reserved trees are held once. */
  lemma SettledIffValidates(frames: nat, fields: seq<set<nat>>, trees: seq<Tree>, slots: seq<Slot>,
                            children: seq<Child>, classes: nat)
    requires Consistent(frames, children, fields) && |children| == 8 * |trees|
    ensures BooksOk(trees, slots, children, SETTLED, classes)
            <==> Validates(trees, slots, children, classes) && HeldOnce(trees, slots)
  {
    forall t | 0 <= t < |trees|
      ensures TreeFree(children, t) <= TREE_SIZE
    {
      TreeFreeBound(frames, children, fields, t);
    }
    if BooksOk(trees, slots, children, SETTLED, classes) { SettledValidates(trees, slots, children, classes); }
    if Validates(trees, slots, children, classes) && HeldOnce(trees, slots) {
      ValidatesSettled(trees, slots, children, classes);
    }
  }

  /** Validation alone says less: it passes with a reserved tree that no slot holds, and with one that two slots hold.
      */
  lemma ValidatesLess()
    ensures var children, trees, held := seq(8, _ => HUGE_CHILD), [Tree(true, 0, 0)], Slot(true, 0, 0);
            && Validates(trees, [], children, 1) && !BooksOk(trees, [], children, SETTLED, 1)
            && Validates(trees, [held, held], children, 1) && !BooksOk(trees, [held, held], children, SETTLED, 1)
  {
    var children, trees, held := seq(8, _ => HUGE_CHILD), [Tree(true, 0, 0)], Slot(true, 0, 0);
    FourMore(children[..4], 0);
    FourMore(children, 4);
    assert TreeFree(children, 0) == 0;
    assert trees[..0] == [] && [held, held][..1] == [held] && [held][..0] == [];
    assert Holders([], 0) == 0 && Holders([held, held], 0) == 2;
    assert !TreeOk(trees[0], [], 0, SETTLED, 0, 1) && !TreeOk(trees[0], [held, held], 0, SETTLED, 0, 1);
  }

  // ---- the zigzag order of the tree search ----

  /** Offset of step `i`: 0, -1, 1, -2, 2, ... */
  function ZigzagOffset(i: nat): int {
    if i % 2 == 0 then i / 2 else -((i + 1) / 2)
  }

  function ZigzagIndex(start: nat, i: nat, len: nat): (t: nat)
    requires 0 < len
    ensures t < len
  {
    (start + ZigzagOffset(i)) % len
  }

  /** The step that visits tree `t`. */
  function ZigzagStep(start: nat, t: nat, len: nat): (i: nat)
    requires start < len && t < len
    ensures i < len
  {
    var d := Distance(start, t, len);
    if 2 * d < len then 2 * d else 2 * (len - d) - 1
  }

  lemma Unwrapped(x: int, len: nat, t: nat)
    requires t < len && (x == t || x == t + len || x == t - len)
    ensures x % len == t
  {
    ModUnique(x, len, if x == t then 0 else if x == t + len then 1 else -1, t);
  }

  lemma StepVisits(start: nat, t: nat, len: nat)
    requires start < len && t < len
    ensures ZigzagIndex(start, ZigzagStep(start, t, len), len) == t
  {
    Unwrapped(start + ZigzagOffset(ZigzagStep(start, t, len)), len, t);
  }

  lemma StepIsBack(start: nat, i: nat, len: nat)
    requires start < len && i < len
    ensures ZigzagStep(start, ZigzagIndex(start, i, len), len) == i
  {
    var x := start + ZigzagOffset(i);
    Unwrapped(x, len, if x < 0 then x + len else if x < len then x else x - len);
  }

  /** A full scan visits every tree exactly once: `ZigzagStep` inverts `ZigzagIndex`. */
  lemma ZigzagBijection(start: nat, len: nat)
    requires start < len
    ensures forall t :: 0 <= t < len ==> ZigzagIndex(start, ZigzagStep(start, t, len), len) == t
    ensures forall i :: 0 <= i < len ==> ZigzagStep(start, ZigzagIndex(start, i, len), len) == i
  {
    forall t | 0 <= t < len
      ensures ZigzagIndex(start, ZigzagStep(start, t, len), len) == t
    {
      StepVisits(start, t, len);
    }
    forall i | 0 <= i < len
      ensures ZigzagStep(start, ZigzagIndex(start, i, len), len) == i
    {
      StepIsBack(start, i, len);
    }
  }
}
