/**
 * The lower allocator under concurrency: every compare-and-swap (loop) is one step, and the steps of
 * any number of agents interleave freely.
 *
 * An agent is the life of one allocation: take the child's counter down, find and set the bits, hold
 * the block, clear the bits, take the counter up again. A thread that holds several blocks is several
 * agents. `Panic` is the state after the "Undo failed" and "Inc Failed" branches.
 */
module ConcurrentLower {
  import opened Blocks
  import opened Bitfield
  import opened LowerAllocator

  /** Where a busy agent is. */
  datatype Pc =
    | Scanning(row: nat, i: nat)               // counter taken; next: row i of the wrap-around scan from `row`
    | AtBlock(pos: nat)                        // counter taken; next: toggle exactly this block
    | Filling(row: nat, slot: nat, i: nat)     // multi-row orders: i rows of the slot are set
    | Rolling(row: nat, slot: nat, i: nat, j: nat) // undoing them: rows j .. i - 1 are still set
    | Live                                     // the allocation is handed out
    | Clearing(i: nat)                         // freeing a multi-row block: i rows are cleared
    | Crediting                                // no bits; next: take the counter up

  /** `lo` and `len` are the run of set bits the agent owns, `credit` the frames it has taken from the
      counter that are not (or no longer) in bits; both are determined by the code position. */
  datatype Agent =
    | Idle
    | Busy(c: nat, order: nat, pc: Pc, lo: nat, len: nat, credit: nat)
    | LiveHuge(c: nat)
    | Panic

  datatype State = State(children: seq<Child>, fields: seq<set<nat>>, agents: seq<Agent>)

  /** What an idle agent may start. */
  datatype Choice = GetSmall(c: nat, order: nat, row: nat) | GetAtSmall(c: nat, order: nat, pos: nat) | GetHuge(c: nat)

  function Entries(order: nat): nat {
    if order == 7 then 2 else 4
  }

  function Slots(order: nat): nat {
    if order == 7 then 4 else 2
  }

  /** First row of the slot that step `slot` of the wrap-around scan from `row` looks at. */
  function SlotBase(order: nat, row: nat, slot: nat): (b: nat)
    requires 7 <= order <= 8 && row < 8 && slot < Slots(order)
    ensures b + Entries(order) <= 8
  {
    if order == 7 then 2 * Offsetted(row / 2, slot, 4) else 4 * Offsetted(row / 4, slot, 2)
  }

  ghost predicate PcOk(order: nat, pc: Pc, lo: nat, len: nat, credit: nat) {
    order <= 8 && lo + len <= 512 && len + credit == Pow2(order) &&
    match pc
    case Scanning(row, i) => order <= 6 && row < 8 && i < 8 && len == 0
    case AtBlock(pos) => order <= 6 && Aligned(pos, order) && pos + Pow2(order) <= 512 && len == 0
    case Filling(row, slot, i) =>
      order >= 7 && row < 8 && slot < Slots(order) && i < Entries(order) && lo == 64 * SlotBase(order, row, slot)
      && len == 64 * i
    case Rolling(row, slot, i, j) =>
      order >= 7 && row < 8 && slot < Slots(order) && j < i < Entries(order)
      && lo == 64 * (SlotBase(order, row, slot) + j) && len == 64 * (i - j)
    case Live => Aligned(lo, order) && credit == 0
    case Clearing(i) => order >= 7 && 0 < i < Entries(order) && lo % 64 == 0 && credit == 64 * i
    case Crediting => len == 0
  }

  ghost predicate AgentOk(a: Agent, n: nat) {
    match a
    case Idle => true
    case Busy(c, order, pc, lo, len, credit) => c < n && PcOk(order, pc, lo, len, credit)
    case LiveHuge(c) => c < n
    case Panic => false
  }

  ghost function HeldBits(a: Agent, c: nat): set<nat> {
    if a.Busy? && a.c == c then Block(a.lo, a.len) else {}
  }

  ghost function Credit(a: Agent, c: nat): nat {
    if a.Busy? && a.c == c then a.credit else 0
  }

  /** Pending credits of child `c`. */
  ghost function CreditSum(agents: seq<Agent>, c: nat): nat {
    if agents == [] then 0 else CreditSum(agents[..|agents| - 1], c) + Credit(agents[|agents| - 1], c)
  }

  lemma {:induction false} CreditUpdate(agents: seq<Agent>, t: nat, a: Agent, c: nat)
    requires t < |agents|
    ensures CreditSum(agents[t := a], c) == CreditSum(agents, c) - Credit(agents[t], c) + Credit(a, c)
    ensures Credit(agents[t], c) <= CreditSum(agents, c)
  {
    var last := |agents| - 1;
    if t == last {
      assert agents[t := a][..last] == agents[..last];
    } else {
      CreditUpdate(agents[..last], t, a, c);
      assert agents[t := a][..last] == agents[..last][t := a];
    }
  }

  // ---- the invariant ----

  /** Zero bits = counter + pending credits; a huge child has neither bits nor credits. */
  ghost predicate ChildBalanced(child: Child, field: set<nat>, credits: int) {
    && field <= Block(0, 512)
    && (if child.huge then child.free == 0 && field == {} && credits == 0
        else child.free + credits == 512 - |field|)
  }

  ghost predicate AgentsOk(s: State) {
    && |s.fields| <= |s.children|
    && forall t :: 0 <= t < |s.agents| ==> AgentOk(s.agents[t], |s.fields|)
  }

  ghost predicate Balanced(s: State)
    requires |s.fields| <= |s.children|
  {
    forall c :: 0 <= c < |s.fields| ==> ChildBalanced(s.children[c], s.fields[c], CreditSum(s.agents, c))
  }

  /** Bits an agent holds are set ... */
  ghost predicate Owned(s: State) {
    forall t, c :: 0 <= t < |s.agents| && 0 <= c < |s.fields| ==> HeldBits(s.agents[t], c) <= s.fields[c]
  }

  /** ... and held by no other agent. */
  ghost predicate Separate(s: State) {
    forall t, u, c :: 0 <= t < |s.agents| && 0 <= u < |s.agents| && t != u && 0 <= c < |s.fields| ==>
      HeldBits(s.agents[t], c) !! HeldBits(s.agents[u], c)
  }

  ghost predicate HugeOwned(s: State)
    requires AgentsOk(s)
  {
    && (forall t :: 0 <= t < |s.agents| && s.agents[t].LiveHuge? ==> s.children[s.agents[t].c].huge)
    && (forall t, u :: 0 <= t < |s.agents| && 0 <= u < |s.agents| && t != u && s.agents[t].LiveHuge? && s.agents[u].LiveHuge? ==>
          s.agents[t].c != s.agents[u].c)
  }

  ghost predicate Inv(s: State) {
    AgentsOk(s) && Balanced(s) && Owned(s) && Separate(s) && HugeOwned(s)
  }

  /** The state after agent `t` updates child `c`. */
  function Moved(s: State, t: nat, c: nat, child: Child, field: set<nat>, a: Agent): State
    requires t < |s.agents| && c < |s.fields| <= |s.children|
  {
    State(s.children[c := child], s.fields[c := field], s.agents[t := a])
  }

  /** The agent claims nothing outside child `c`. */
  predicate OnlyIn(a: Agent, c: nat) {
    a.Busy? ==> a.c == c
  }

  lemma MoveBalanced(s: State, t: nat, c: nat, child: Child, field: set<nat>, a: Agent)
    requires |s.fields| <= |s.children| && Balanced(s) && t < |s.agents| && c < |s.fields| && OnlyIn(s.agents[t], c)
    requires OnlyIn(a, c)
    requires ChildBalanced(child, field, CreditSum(s.agents, c) - Credit(s.agents[t], c) + Credit(a, c))
    ensures Balanced(Moved(s, t, c, child, field, a))
  {
    var s' := Moved(s, t, c, child, field, a);
    forall d | 0 <= d < |s.fields| ensures ChildBalanced(s'.children[d], s'.fields[d], CreditSum(s'.agents, d)) {
      CreditUpdate(s.agents, t, a, d);
      assert ChildBalanced(s.children[d], s.fields[d], CreditSum(s.agents, d));
    }
  }

  /** The field loses the bits `x`, gains the bits `y`, and nothing else changes. */
  ghost predicate Exchange(field: set<nat>, x: set<nat>, field': set<nat>, y: set<nat>) {
    field' == (field - x) + y && (y - x) !! field
  }

  lemma MoveOwned(s: State, t: nat, c: nat, child: Child, field: set<nat>, a: Agent)
    requires |s.fields| <= |s.children| && Owned(s) && Separate(s) && t < |s.agents| && c < |s.fields|
    requires OnlyIn(s.agents[t], c) && OnlyIn(a, c)
    requires Exchange(s.fields[c], HeldBits(s.agents[t], c), field, HeldBits(a, c))
    ensures Owned(Moved(s, t, c, child, field, a)) && Separate(Moved(s, t, c, child, field, a))
  {
    var s' := Moved(s, t, c, child, field, a);
    forall u, d | 0 <= u < |s.agents| && 0 <= d < |s.fields| ensures HeldBits(s'.agents[u], d) <= s'.fields[d] {
      assert HeldBits(s.agents[u], d) <= s.fields[d];
      if u != t { assert HeldBits(s.agents[u], d) !! HeldBits(s.agents[t], d); }
    }
    forall u, d | 0 <= u < |s.agents| && u != t && 0 <= d < |s.fields|
      ensures HeldBits(s.agents[u], d) !! HeldBits(a, d)
    {
      assert HeldBits(s.agents[u], d) <= s.fields[d];
      assert HeldBits(s.agents[u], d) !! HeldBits(s.agents[t], d);
    }
  }

  lemma MoveHugeOwned(s: State, t: nat, c: nat, child: Child, field: set<nat>, a: Agent)
    requires AgentsOk(s) && HugeOwned(s) && t < |s.agents| && c < |s.fields| && AgentOk(a, |s.fields|)
    requires !s.children[c].huge && !a.LiveHuge?
    ensures AgentsOk(Moved(s, t, c, child, field, a)) && HugeOwned(Moved(s, t, c, child, field, a))
  {}

  // ---- nothing is lost ----

  ghost predicate HeldBySome(agents: seq<Agent>, c: nat, p: nat) {
    exists t :: 0 <= t < |agents| && p in HeldBits(agents[t], c)
  }

  ghost predicate HugeBySome(agents: seq<Agent>, c: nat) {
    exists t :: 0 <= t < |agents| && agents[t] == LiveHuge(c)
  }

  /** The set bits of child `c` are those of the base state and those held by agents. */
  ghost predicate BitsAccounted(base: set<nat>, field: set<nat>, agents: seq<Agent>, c: nat) {
    base <= field && forall p: nat :: HeldBySome(agents, c, p) <==> p in field && p !in base
  }

  ghost predicate HugeAccounted(base: Child, child: Child, agents: seq<Agent>, c: nat) {
    (child.huge <==> base.huge || HugeBySome(agents, c)) && (base.huge ==> !HugeBySome(agents, c))
  }

  /** Every set bit and every huge child beyond those of the base state is held by an agent. */
  ghost predicate Accounted(base: State, s: State) {
    && |base.fields| == |s.fields| && |s.fields| <= |s.children| && |base.children| == |s.children|
    && |base.agents| == |s.agents|
    && (forall c :: 0 <= c < |s.fields| ==> BitsAccounted(base.fields[c], s.fields[c], s.agents, c))
    && (forall c :: 0 <= c < |s.fields| ==> HugeAccounted(base.children[c], s.children[c], s.agents, c))
    && (forall c :: |s.fields| <= c < |s.children| ==> s.children[c] == base.children[c])
  }

  lemma HeldMoved(agents: seq<Agent>, t: nat, a: Agent, c: nat, p: nat)
    requires t < |agents|
    requires forall u :: 0 <= u < |agents| && u != t && p in HeldBits(agents[u], c) ==> p !in HeldBits(agents[t], c)
    ensures HeldBySome(agents[t := a], c, p)
            <==> p in HeldBits(a, c) || (HeldBySome(agents, c, p) && p !in HeldBits(agents[t], c))
  {
    var after := agents[t := a];
    if p in HeldBits(a, c) { assert p in HeldBits(after[t], c); }
    if HeldBySome(after, c, p) {
      var u :| 0 <= u < |after| && p in HeldBits(after[u], c);
      if u != t { assert p in HeldBits(agents[u], c); }
    }
    if HeldBySome(agents, c, p) && p !in HeldBits(agents[t], c) {
      var u :| 0 <= u < |agents| && p in HeldBits(agents[u], c);
      assert p in HeldBits(after[u], c);
    }
  }

  lemma BitsMove(base: set<nat>, s: State, t: nat, c: nat, field: set<nat>, a: Agent)
    requires Separate(s) && t < |s.agents| && c < |s.fields| && BitsAccounted(base, s.fields[c], s.agents, c)
    requires Exchange(s.fields[c], HeldBits(s.agents[t], c), field, HeldBits(a, c))
    ensures BitsAccounted(base, field, s.agents[t := a], c)
  {
    var x, y := HeldBits(s.agents[t], c), HeldBits(a, c);
    forall p: nat ensures HeldBySome(s.agents[t := a], c, p) <==> p in field && p !in base {
      forall u | 0 <= u < |s.agents| && u != t && p in HeldBits(s.agents[u], c) ensures p !in x {
        assert HeldBits(s.agents[t], c) !! HeldBits(s.agents[u], c);
      }
      HeldMoved(s.agents, t, a, c, p);
      assert p in x ==> HeldBySome(s.agents, c, p);
    }
    forall p | p in base ensures p in field {
      assert p in x ==> HeldBySome(s.agents, c, p);
    }
  }

  lemma HugeMoved(agents: seq<Agent>, t: nat, a: Agent, c: nat)
    requires t < |agents| && agents[t] != LiveHuge(c)
    ensures HugeBySome(agents[t := a], c) <==> a == LiveHuge(c) || HugeBySome(agents, c)
  {
    var after := agents[t := a];
    assert after[t] == a;
    if HugeBySome(agents, c) {
      var u :| 0 <= u < |agents| && agents[u] == LiveHuge(c);
      assert after[u] == LiveHuge(c);
    }
  }

  lemma MoveBits(base: State, s: State, t: nat, c: nat, child: Child, field: set<nat>, a: Agent)
    requires Separate(s) && Accounted(base, s) && t < |s.agents| && c < |s.fields|
    requires OnlyIn(s.agents[t], c) && OnlyIn(a, c)
    requires Exchange(s.fields[c], HeldBits(s.agents[t], c), field, HeldBits(a, c))
    ensures var s' := Moved(s, t, c, child, field, a);
            forall d :: 0 <= d < |s.fields| ==> BitsAccounted(base.fields[d], s'.fields[d], s'.agents, d)
  {
    var s' := Moved(s, t, c, child, field, a);
    forall d | 0 <= d < |s.fields| ensures BitsAccounted(base.fields[d], s'.fields[d], s'.agents, d) {
      assert BitsAccounted(base.fields[d], s.fields[d], s.agents, d);
      BitsMove(base.fields[d], s, t, d, s'.fields[d], a);
    }
  }

  /** The invariant, and where everything beyond the base state is. */
  ghost predicate Good(base: State, s: State) {
    Inv(s) && Accounted(base, s)
  }

  lemma SmallInv(s: State, t: nat, c: nat, child: Child, field: set<nat>, a: Agent)
    requires Inv(s) && t < |s.agents| && c < |s.fields| && AgentOk(a, |s.fields|) && OnlyIn(s.agents[t], c)
    requires OnlyIn(a, c)
    requires !s.children[c].huge && !child.huge && !a.LiveHuge? && field <= Block(0, 512)
    requires Exchange(s.fields[c], HeldBits(s.agents[t], c), field, HeldBits(a, c))
    requires child.free + Credit(a, c) + |field| == s.children[c].free + Credit(s.agents[t], c) + |s.fields[c]|
    ensures Inv(Moved(s, t, c, child, field, a))
  {
    CreditUpdate(s.agents, t, a, c);
    assert ChildBalanced(child, field, CreditSum(s.agents, c) - Credit(s.agents[t], c) + Credit(a, c)) by {
      assert ChildBalanced(s.children[c], s.fields[c], CreditSum(s.agents, c));
    }
    MoveBalanced(s, t, c, child, field, a);
    MoveOwned(s, t, c, child, field, a);
    MoveHugeOwned(s, t, c, child, field, a);
  }

  /** Any step that exchanges the agent's own bits and credits inside one ordinary child keeps the invariant. */
  lemma SmallMove(base: State, s: State, t: nat, c: nat, child: Child, field: set<nat>, a: Agent)
    requires Good(base, s) && t < |s.agents| && c < |s.fields| && AgentOk(a, |s.fields|) && OnlyIn(s.agents[t], c)
    requires OnlyIn(a, c)
    requires !s.children[c].huge && !child.huge && !s.agents[t].LiveHuge? && !a.LiveHuge? && field <= Block(0, 512)
    requires Exchange(s.fields[c], HeldBits(s.agents[t], c), field, HeldBits(a, c))
    requires child.free + Credit(a, c) + |field| == s.children[c].free + Credit(s.agents[t], c) + |s.fields[c]|
    ensures Good(base, Moved(s, t, c, child, field, a))
  {
    SmallInv(s, t, c, child, field, a);
    MoveBits(base, s, t, c, child, field, a);
    var s' := Moved(s, t, c, child, field, a);
    forall d | 0 <= d < |s.fields| ensures HugeAccounted(base.children[d], s'.children[d], s'.agents, d) {
      assert HugeAccounted(base.children[d], s.children[d], s.agents, d);
      HugeMoved(s.agents, t, a, d);
    }
  }

  // ---- the steps ----

  /** The lowest aligned free block between `from` and `end`, -1 if there is none. */
  ghost function FirstFree(field: set<nat>, order: nat, from: nat, end: nat): (p: int)
    requires order <= 6
    ensures p >= 0 ==> from <= p < end && Block(p, Pow2(order)) !! field
    decreases end - from
  {
    if from >= end then -1
    else if Block(from, Pow2(order)) !! field then from
    else FirstFree(field, order, from + Pow2(order), end)
  }

  /** It finds the lowest free block of the range, and nothing exactly when there is none. */
  lemma {:induction false} FirstFreeExact(field: set<nat>, order: nat, from: nat, end: nat)
    requires order <= 6 && Aligned(from, order) && Aligned(end, order) && end <= 512
    ensures var p := FirstFree(field, order, from, end);
            && (p >= 0 ==> FreeBlock(field, order, p) && p + Pow2(order) <= end)
            && forall q: nat :: from <= q < (if p >= 0 then p else end) ==> !FreeBlock(field, order, q)
    decreases end - from
  {
    NextAligned(from, end, Pow2(order));
    if from < end && !(Block(from, Pow2(order)) !! field) {
      FirstFreeExact(field, order, from + Pow2(order), end);
      forall q: nat | from <= q < from + Pow2(order) ensures !FreeBlock(field, order, q) {
        NextAligned(from, q, Pow2(order));
      }
    }
  }

  /** A field step: the new field, position and owned run; None when the step panics. */
  datatype Outcome = None | Some(field: set<nat>, pc: Pc, lo: nat, len: nat)

  /** The next slot of a multi-row scan, or the end of the scan. */
  ghost function NextSlot(field: set<nat>, order: nat, row: nat, slot: nat): Outcome
    requires 7 <= order <= 8 && row < 8
  {
    if slot + 1 < Slots(order) then Some(field, Filling(row, slot + 1, 0), 64 * SlotBase(order, row, slot + 1), 0)
    else Some(field, Crediting, 0, 0)
  }

  ghost function ScanStep(field: set<nat>, order: nat, row: nat, i: nat): Outcome
    requires order <= 6 && row < 8 && i < 8
  {
    var r := Offsetted(row, i, 8);
    var p := FirstFree(field, order, 64 * r, 64 * r + 64);
    if p >= 0 then Some(field + Block(p, Pow2(order)), Live, p, Pow2(order))
    else if i + 1 < 8 then Some(field, Scanning(row, i + 1), 0, 0)
    else Some(field, Crediting, 0, 0)
  }

  ghost function AtStep(field: set<nat>, order: nat, pos: nat): Outcome
    requires order <= 6
  {
    if Block(pos, Pow2(order)) !! field then Some(field + Block(pos, Pow2(order)), Live, pos, Pow2(order))
    else Some(field, Crediting, 0, 0)
  }

  ghost function FillStep(field: set<nat>, order: nat, row: nat, slot: nat, i: nat): Outcome
    requires 7 <= order <= 8 && row < 8 && slot < Slots(order)
  {
    var b := SlotBase(order, row, slot);
    if RowIs(field, b + i, false) then
      Some(WithRow(field, b + i, true), if i + 1 == Entries(order) then Live
                                        else Filling(row, slot, i + 1), 64 * b, 64 * (i + 1))
    else if i == 0 then NextSlot(field, order, row, slot)
    else Some(field, Rolling(row, slot, i, 0), 64 * b, 64 * i)
  }

  ghost function RollStep(field: set<nat>, order: nat, row: nat, slot: nat, i: nat, j: nat): Outcome
    requires 7 <= order <= 8 && row < 8 && slot < Slots(order) && j < i
  {
    var r := SlotBase(order, row, slot) + j;
    if !RowIs(field, r, true) then None
    else if j + 1 == i then NextSlot(WithRow(field, r, false), order, row, slot)
    else Some(WithRow(field, r, false), Rolling(row, slot, i, j + 1), 64 * (r + 1), 64 * (i - j - 1))
  }

  /** The first step of a free. */
  ghost function PutStep(field: set<nat>, order: nat, lo: nat): Outcome
    requires order <= 8
  {
    if order <= 6 then
      if Block(lo, Pow2(order)) <= field then Some(field - Block(lo, Pow2(order)), Crediting, 0, 0) else None
    else
      if RowIs(field, lo / 64, true) then Some(WithRow(field, lo / 64, false), Clearing(1), lo + 64, Pow2(order) - 64)
      else None
  }

  ghost function ClearStep(field: set<nat>, order: nat, lo: nat, i: nat): Outcome
    requires 7 <= order <= 8 && i < Entries(order)
  {
    if !RowIs(field, lo / 64, true) then None
    else if i + 1 == Entries(order) then Some(WithRow(field, lo / 64, false), Crediting, 0, 0)
    else Some(WithRow(field, lo / 64, false), Clearing(i + 1), lo + 64, Pow2(order) - 64 * (i + 1))
  }

  ghost function FieldStep(field: set<nat>, order: nat, pc: Pc, lo: nat, len: nat, credit: nat): Outcome
    requires PcOk(order, pc, lo, len, credit) && pc != Crediting
  {
    match pc
    case Scanning(row, i) => ScanStep(field, order, row, i)
    case AtBlock(pos) => AtStep(field, order, pos)
    case Filling(row, slot, i) => FillStep(field, order, row, slot, i)
    case Rolling(row, slot, i, j) => RollStep(field, order, row, slot, i, j)
    case Live => PutStep(field, order, lo)
    case Clearing(i) => ClearStep(field, order, lo, i)
  }

  /** Frames of a block of this order that are not in `len` set bits. */
  function Rest(order: nat, len: nat): nat
    requires order <= 8
  {
    if len <= Pow2(order) then Pow2(order) - len else 0
  }

  ghost function Start(s: State, t: nat, choice: Choice): State
    requires t < |s.agents| && |s.fields| <= |s.children|
  {
    match choice
    case GetSmall(c, order, row) =>
      if c < |s.fields| && order <= 8 && row < 8 && ChildDec(s.children[c], order).0 then
        var pc := if order <= 6 then Scanning(row, 0) else Filling(row, 0, 0);
        var lo := if order <= 6 then 0 else 64 * SlotBase(order, row, 0);
        Moved(s, t, c, ChildDec(s.children[c], order).1, s.fields[c], Busy(c, order, pc, lo, 0, Pow2(order)))
      else s
    case GetAtSmall(c, order, pos) =>
      if c < |s.fields| && order <= 6 && Aligned(pos, order) && pos + Pow2(order) <= 512 && ChildDec(s.children[c], order).0 then
        Moved(s, t, c, ChildDec(s.children[c], order).1, s.fields[c], Busy(c, order, AtBlock(pos), 0, 0, Pow2(order)))
      else s
    case GetHuge(c) =>
      if c < |s.fields| && s.children[c] == FREE_CHILD then Moved(s, t, c, HUGE_CHILD, s.fields[c], LiveHuge(c)) else s
  }

  /** The step of a busy agent. A free that met a huge child would have to split it; like the failed
      undo branches it leads to `Panic`. */
  ghost function Advance(s: State, t: nat): State
    requires t < |s.agents| && |s.fields| <= |s.children| && AgentOk(s.agents[t], |s.fields|) && s.agents[t].Busy?
  {
    var Busy(c, order, pc, lo, len, credit) := s.agents[t];
    var child, field := s.children[c], s.fields[c];
    if pc == Crediting then
      if ChildInc(child, order).0 then Moved(s, t, c, ChildInc(child, order).1, field, Idle)
      else Moved(s, t, c, child, field, Panic)
    else if pc == Live && child.huge then Moved(s, t, c, child, field, Panic)
    else
      match FieldStep(field, order, pc, lo, len, credit)
      case None => Moved(s, t, c, child, field, Panic)
      case Some(f, pc', lo', len') =>
        Moved(s, t, c, child, f, Busy(c, order, pc', lo', len', Rest(order, len')))
  }

  /** One step of agent `t`; `choice` is used when it is idle. */
  ghost function Step(s: State, t: nat, choice: Choice): State {
    if |s.fields| > |s.children| || t >= |s.agents| || !AgentOk(s.agents[t], |s.fields|) then s
    else match s.agents[t]
      case Idle => Start(s, t, choice)
      case Busy(_, _, _, _, _, _) => Advance(s, t)
      case LiveHuge(c) =>
        if s.children[c] == HUGE_CHILD then Moved(s, t, c, FREE_CHILD, s.fields[c], Idle)
        else Moved(s, t, c, s.children[c], s.fields[c], Panic)
      case Panic => s
  }

  // ---- each field step exchanges bits and credits ----

  /** The bits a field step gives to and takes from an agent that owned the run (lo, len). */
  ghost predicate GoodBits(field: set<nat>, lo: nat, len: nat, o: Outcome) {
    o.Some? && Exchange(field, Block(lo, len), o.field, Block(o.lo, o.len)) && o.field <= Block(0, 512)
  }

  /** Bits set and bits owned grow alike. */
  ghost predicate GoodCount(field: set<nat>, len: nat, o: Outcome) {
    o.Some? && |o.field| + len == |field| + o.len
  }

  ghost predicate GoodPlace(order: nat, o: Outcome) {
    o.Some? && order <= 8 && o.len <= Pow2(order) && PcOk(order, o.pc, o.lo, o.len, Pow2(order) - o.len)
  }

  lemma SetGrow(field: set<nat>, x: set<nat>, y: set<nat>, z: set<nat>)
    requires x <= field && y !! field && z == x + y
    ensures Exchange(field, x, field + y, z)
  {}

  lemma SetShrink(field: set<nat>, x: set<nat>, y: set<nat>, z: set<nat>)
    requires x <= field && x == y + z && y !! z
    ensures Exchange(field, x, field - y, z)
  {}

  lemma InsideChild(p: nat, k: nat)
    requires p + k <= 512
    ensures Block(p, k) <= Block(0, 512)
  {}

  lemma EmptyRuns(p: nat, q: nat)
    ensures Block(p, 0) == Block(q, 0) == {}
  {}

  /** Extending an owned run by a clear block. */
  lemma GrowBits(field: set<nat>, lo: nat, len: nat, k: nat, o: Outcome)
    requires o.Some? && o.len == len + k && (o.lo == lo || len == 0) && o.lo + len + k <= 512
    requires Block(lo, len) <= field <= Block(0, 512) && Block(o.lo + len, k) !! field
    requires o.field == field + Block(o.lo + len, k)
    ensures GoodBits(field, lo, len, o)
  {
    EmptyRuns(lo, o.lo);
    SplitBlock(o.lo, len, k);
    InsideChild(o.lo + len, k);
    SetGrow(field, Block(lo, len), Block(o.lo + len, k), Block(o.lo, len + k));
  }

  /** Giving up the first part of an owned run. */
  lemma ShrinkBits(field: set<nat>, lo: nat, len: nat, k: nat, o: Outcome)
    requires o.Some? && k <= len && o.len == len - k && (o.lo == lo + k || k == len)
    requires Block(lo, len) <= field <= Block(0, 512) && o.field == field - Block(lo, k)
    ensures GoodBits(field, lo, len, o)
  {
    SplitBlock(lo, k, len - k);
    EmptyRuns(lo + k, o.lo);
    SetShrink(field, Block(lo, len), Block(lo, k), Block(lo + k, len - k));
  }

  lemma GrowCount(field: set<nat>, p: nat, k: nat, len: nat, o: Outcome)
    requires Block(p, k) !! field && o.Some? && o.field == field + Block(p, k) && o.len == len + k
    ensures GoodCount(field, len, o)
  {
    AddBlock(field, p, k);
  }

  lemma ShrinkCount(field: set<nat>, p: nat, k: nat, len: nat, o: Outcome)
    requires k <= len && Block(p, len) <= field && o.Some? && o.field == field - Block(p, k) && o.len == len - k
    ensures GoodCount(field, len, o)
  {
    SplitBlock(p, k, len - k);
    RemoveBlock(field, p, k);
  }

  lemma RowEdges(r: nat, order: nat)
    requires order <= 6
    ensures Aligned(64 * r, order) && Aligned(64 * r + 64, order)
  {
    Divisors(order);
    MultipleAligned(Pow2(order), Pow2(6 - order), r);
    MultipleAligned(Pow2(order), Pow2(6 - order), r + 1);
    assert 64 * (r + 1) == 64 * r + 64;
  }

  /** What a field step guarantees to an agent that owns the run (lo, len). */
  ghost predicate GoodStep(field: set<nat>, order: nat, lo: nat, len: nat, o: Outcome) {
    GoodPlace(order, o) && GoodBits(field, lo, len, o) && GoodCount(field, len, o)
  }

  lemma GrowGood(field: set<nat>, order: nat, lo: nat, len: nat, k: nat, o: Outcome)
    requires GoodPlace(order, o) && o.len == len + k && (o.lo == lo || len == 0)
    requires Block(lo, len) <= field <= Block(0, 512) && Block(o.lo + len, k) !! field
    requires o.field == field + Block(o.lo + len, k)
    ensures GoodStep(field, order, lo, len, o)
  {
    GrowCount(field, o.lo + len, k, len, o);
    GrowBits(field, lo, len, k, o);
  }

  lemma ShrinkGood(field: set<nat>, order: nat, lo: nat, len: nat, k: nat, o: Outcome)
    requires GoodPlace(order, o) && k <= len && o.len == len - k && (o.lo == lo + k || k == len)
    requires Block(lo, len) <= field <= Block(0, 512) && o.field == field - Block(lo, k)
    ensures GoodStep(field, order, lo, len, o)
  {
    ShrinkBits(field, lo, len, k, o);
    ShrinkCount(field, lo, k, len, o);
  }

  lemma KeepGood(field: set<nat>, order: nat, lo: nat, len: nat, o: Outcome)
    requires GoodPlace(order, o) && o.field == field && o.len == len && (o.lo == lo || len == 0)
    requires Block(lo, len) <= field <= Block(0, 512)
    ensures GoodStep(field, order, lo, len, o)
  {
    EmptyRuns(lo, o.lo);
  }

  lemma ScanGood(field: set<nat>, order: nat, row: nat, i: nat, lo: nat, len: nat, credit: nat, o: Outcome)
    requires PcOk(order, Scanning(row, i), lo, len, credit) && field <= Block(0, 512)
    requires o == ScanStep(field, order, row, i)
    ensures GoodStep(field, order, lo, len, o)
  {
    var r := Offsetted(row, i, 8);
    RowEdges(r, order);
    FirstFreeExact(field, order, 64 * r, 64 * r + 64);
    EmptyRuns(lo, 0);
    if FirstFree(field, order, 64 * r, 64 * r + 64) >= 0 {
      GrowGood(field, order, lo, 0, Pow2(order), o);
    } else {
      KeepGood(field, order, lo, 0, o);
    }
  }

  lemma AtGood(field: set<nat>, order: nat, pos: nat, lo: nat, len: nat, credit: nat, o: Outcome)
    requires PcOk(order, AtBlock(pos), lo, len, credit) && field <= Block(0, 512) && o == AtStep(field, order, pos)
    ensures GoodStep(field, order, lo, len, o)
  {
    EmptyRuns(lo, 0);
    if Block(pos, Pow2(order)) !! field {
      GrowGood(field, order, lo, 0, Pow2(order), o);
    } else {
      KeepGood(field, order, lo, 0, o);
    }
  }

  lemma SlotAligned(order: nat, row: nat, slot: nat)
    requires 7 <= order <= 8 && row < 8 && slot < Slots(order)
    ensures Aligned(64 * SlotBase(order, row, slot), order) && 64 * Entries(order) == Pow2(order)
  {
    if order == 7 {} else {}
  }

  /** Leaving a slot with no bits. */
  lemma NextSlotPlace(field: set<nat>, order: nat, row: nat, slot: nat)
    requires 7 <= order <= 8 && row < 8 && slot < Slots(order)
    ensures GoodPlace(order, NextSlot(field, order, row, slot))
  {}

  lemma FillGood(field: set<nat>, order: nat, row: nat, slot: nat, i: nat, lo: nat, len: nat, credit: nat, o: Outcome)
    requires PcOk(order, Filling(row, slot, i), lo, len, credit) && Block(lo, len) <= field <= Block(0, 512)
    requires o == FillStep(field, order, row, slot, i)
    ensures GoodStep(field, order, lo, len, o)
  {
    SlotAligned(order, row, slot);
    if RowIs(field, SlotBase(order, row, slot) + i, false) {
      GrowGood(field, order, lo, len, 64, o);
    } else {
      NextSlotPlace(field, order, row, slot);
      KeepGood(field, order, lo, len, o);
    }
  }

  lemma RollGood(field: set<nat>, order: nat, row: nat, slot: nat, i: nat, j: nat, lo: nat, len: nat, credit: nat,
                 o: Outcome)
    requires PcOk(order, Rolling(row, slot, i, j), lo, len, credit) && Block(lo, len) <= field <= Block(0, 512)
    requires o == RollStep(field, order, row, slot, i, j)
    ensures GoodStep(field, order, lo, len, o)
  {
    SlotAligned(order, row, slot);
    SplitBlock(lo, 64, len - 64);
    NextSlotPlace(field - Block(lo, 64), order, row, slot);
    ShrinkGood(field, order, lo, len, 64, o);
  }

  lemma PutGood(field: set<nat>, order: nat, lo: nat, len: nat, credit: nat, o: Outcome)
    requires PcOk(order, Live, lo, len, credit) && Block(lo, len) <= field <= Block(0, 512)
    requires o == PutStep(field, order, lo)
    ensures GoodStep(field, order, lo, len, o)
  {
    if order <= 6 {
      ShrinkGood(field, order, lo, len, len, o);
    } else {
      RowsOfBlock(lo, order);
      SplitBlock(lo, 64, len - 64);
      ShrinkGood(field, order, lo, len, 64, o);
    }
  }

  lemma ClearGood(field: set<nat>, order: nat, i: nat, lo: nat, len: nat, credit: nat, o: Outcome)
    requires PcOk(order, Clearing(i), lo, len, credit) && Block(lo, len) <= field <= Block(0, 512)
    requires o == ClearStep(field, order, lo, i)
    ensures GoodStep(field, order, lo, len, o)
  {
    assert 64 * Entries(order) == Pow2(order) && 64 * (lo / 64) == lo;
    SplitBlock(lo, 64, len - 64);
    ShrinkGood(field, order, lo, len, 64, o);
  }

  lemma FieldGood(field: set<nat>, order: nat, pc: Pc, lo: nat, len: nat, credit: nat, o: Outcome)
    requires PcOk(order, pc, lo, len, credit) && pc != Crediting && Block(lo, len) <= field <= Block(0, 512)
    requires o == FieldStep(field, order, pc, lo, len, credit)
    ensures GoodStep(field, order, lo, len, o)
  {
    match pc
    case Scanning(row, i) => ScanGood(field, order, row, i, lo, len, credit, o);
    case AtBlock(pos) => AtGood(field, order, pos, lo, len, credit, o);
    case Filling(row, slot, i) => FillGood(field, order, row, slot, i, lo, len, credit, o);
    case Rolling(row, slot, i, j) => RollGood(field, order, row, slot, i, j, lo, len, credit, o);
    case Live => PutGood(field, order, lo, len, credit, o);
    case Clearing(i) => ClearGood(field, order, i, lo, len, credit, o);
  }

  // ---- every step keeps the invariant ----

  /** A child some agent is busy with is not huge, and the agent's bits and credits are accounted for. */
  lemma BusyChild(s: State, t: nat)
    requires Inv(s) && t < |s.agents| && s.agents[t].Busy?
    ensures var a := s.agents[t];
            a.c < |s.fields| && !s.children[a.c].huge && Block(a.lo, a.len) <= s.fields[a.c] <= Block(0, 512)
            && s.children[a.c].free + a.credit + |s.fields[a.c]| <= 512
  {
    var a := s.agents[t];
    assert AgentOk(a, |s.fields|);
    assert HeldBits(a, a.c) <= s.fields[a.c];
    assert ChildBalanced(s.children[a.c], s.fields[a.c], CreditSum(s.agents, a.c));
    CreditUpdate(s.agents, t, a, a.c);
    assert a.len > 0 ==> a.lo in Block(a.lo, a.len);
  }

  lemma CreditKeeps(base: State, s: State, t: nat)
    requires Good(base, s) && t < |s.agents| && s.agents[t].Busy? && s.agents[t].pc == Crediting
    ensures Good(base, Advance(s, t))
  {
    var Busy(c, order, pc, lo, len, credit) := s.agents[t];
    BusyChild(s, t);
    EmptyRuns(lo, 0);
    SmallMove(base, s, t, c, ChildInc(s.children[c], order).1, s.fields[c], Idle);
  }

  lemma FieldKeeps(base: State, s: State, t: nat)
    requires Good(base, s) && t < |s.agents| && s.agents[t].Busy? && s.agents[t].pc != Crediting
    ensures Good(base, Advance(s, t))
  {
    var Busy(c, order, pc, lo, len, credit) := s.agents[t];
    BusyChild(s, t);
    var o := FieldStep(s.fields[c], order, pc, lo, len, credit);
    FieldGood(s.fields[c], order, pc, lo, len, credit, o);
    SmallMove(base, s, t, c, s.children[c], o.field, Busy(c, order, o.pc, o.lo, o.len, Rest(order, o.len)));
  }

  lemma StartSmallKeeps(base: State, s: State, t: nat, c: nat, order: nat, a: Agent)
    requires Good(base, s) && t < |s.agents| && s.agents[t].Idle? && c < |s.fields| && order <= 8
    requires ChildDec(s.children[c], order).0
    requires a.Busy? && a.c == c && AgentOk(a, |s.fields|) && a.len == 0 && a.credit == Pow2(order)
    ensures Good(base, Moved(s, t, c, ChildDec(s.children[c], order).1, s.fields[c], a))
  {
    EmptyRuns(a.lo, 0);
    assert ChildBalanced(s.children[c], s.fields[c], CreditSum(s.agents, c));
    SmallMove(base, s, t, c, ChildDec(s.children[c], order).1, s.fields[c], a);
  }

  /** A child with all its frames free has no bits and no credits; so does a huge one. */
  lemma PlainChild(s: State, c: nat)
    requires Inv(s) && c < |s.fields| && (s.children[c] == FREE_CHILD || s.children[c].huge)
    ensures s.fields[c] == {} && CreditSum(s.agents, c) == 0
  {
    assert ChildBalanced(s.children[c], s.fields[c], CreditSum(s.agents, c));
  }

  lemma HugeHandover(base: State, s: State, t: nat, c: nat, child: Child, a: Agent)
    requires Good(base, s) && t < |s.agents| && c < |s.fields|
    requires (s.agents[t].Idle? && a == LiveHuge(c) && !s.children[c].huge && child == HUGE_CHILD)
          || (s.agents[t] == LiveHuge(c) && a.Idle? && child == FREE_CHILD)
    ensures var s' := Moved(s, t, c, child, s.fields[c], a);
            forall d :: 0 <= d < |s.fields| ==> HugeAccounted(base.children[d], s'.children[d], s'.agents, d)
  {
    var s' := Moved(s, t, c, child, s.fields[c], a);
    forall d | 0 <= d < |s.fields| ensures HugeAccounted(base.children[d], s'.children[d], s'.agents, d) {
      assert HugeAccounted(base.children[d], s.children[d], s.agents, d);
      if s.agents[t] == LiveHuge(d) {
        assert HugeBySome(s.agents, d) && !HugeBySome(s'.agents, d);
      } else {
        HugeMoved(s.agents, t, a, d);
      }
    }
  }

  /** Handing a whole child over, either way. */
  lemma HugeKeeps(base: State, s: State, t: nat, c: nat, child: Child, a: Agent)
    requires Good(base, s) && t < |s.agents| && c < |s.fields| && s.fields[c] == {} && CreditSum(s.agents, c) == 0
    requires (s.agents[t].Idle? && a == LiveHuge(c) && !s.children[c].huge && child == HUGE_CHILD)
          || (s.agents[t] == LiveHuge(c) && a.Idle? && child == FREE_CHILD)
    ensures Good(base, Moved(s, t, c, child, s.fields[c], a))
  {
    MoveBalanced(s, t, c, child, s.fields[c], a);
    MoveOwned(s, t, c, child, s.fields[c], a);
    MoveBits(base, s, t, c, child, s.fields[c], a);
    HugeHandover(base, s, t, c, child, a);
  }

  lemma StartKeeps(base: State, s: State, t: nat, choice: Choice)
    requires Good(base, s) && t < |s.agents| && s.agents[t].Idle?
    ensures Good(base, Start(s, t, choice))
  {
    match choice
    case GetSmall(c, order, row) =>
      if c < |s.fields| && order <= 8 && row < 8 && ChildDec(s.children[c], order).0 {
        var pc := if order <= 6 then Scanning(row, 0) else Filling(row, 0, 0);
        var lo := if order <= 6 then 0 else 64 * SlotBase(order, row, 0);
        StartSmallKeeps(base, s, t, c, order, Busy(c, order, pc, lo, 0, Pow2(order)));
      }
    case GetAtSmall(c, order, pos) =>
      if c < |s.fields| && order <= 6 && Aligned(pos, order) && pos + Pow2(order) <= 512 && ChildDec(s.children[c], order).0 {
        StartSmallKeeps(base, s, t, c, order, Busy(c, order, AtBlock(pos), 0, 0, Pow2(order)));
      }
    case GetHuge(c) =>
      if c < |s.fields| && s.children[c] == FREE_CHILD {
        PlainChild(s, c);
        HugeKeeps(base, s, t, c, HUGE_CHILD, LiveHuge(c));
      }
  }

  /** Every step of every agent keeps the invariant; in particular no step panics. */
  lemma StepKeeps(base: State, s: State, t: nat, choice: Choice)
    requires Good(base, s)
    ensures Good(base, Step(s, t, choice))
  {
    if t < |s.agents| {
      match s.agents[t]
      case Idle => StartKeeps(base, s, t, choice);
      case Busy(_, _, pc, _, _, _) => if pc == Crediting { CreditKeeps(base, s, t); } else { FieldKeeps(base, s, t); }
      case LiveHuge(c) =>
        assert AgentOk(s.agents[t], |s.fields|) && ChildBalanced(s.children[c], s.fields[c], CreditSum(s.agents, c));
        PlainChild(s, c);
        HugeKeeps(base, s, t, c, FREE_CHILD, Idle);
      case Panic =>
    }
  }

  // ---- whole runs ----

  /** The state after a schedule: which agent moves next, and what it starts if it is idle. */
  ghost function Exec(s: State, schedule: seq<(nat, Choice)>): State {
    if schedule == [] then s
    else
      var last := schedule[|schedule| - 1];
      Step(Exec(s, schedule[..|schedule| - 1]), last.0, last.1)
  }

  ghost predicate AllIdle(agents: seq<Agent>) {
    forall t :: 0 <= t < |agents| ==> agents[t].Idle?
  }

  /** A consistent allocator at rest. */
  ghost predicate AtRest(s: State) {
    && |s.fields| <= |s.children| && AllIdle(s.agents)
    && forall c :: 0 <= c < |s.fields| ==> ChildBalanced(s.children[c], s.fields[c], 0)
  }

  lemma {:induction false} IdleCredits(agents: seq<Agent>, c: nat)
    requires AllIdle(agents)
    ensures CreditSum(agents, c) == 0
  {
    if agents != [] { IdleCredits(agents[..|agents| - 1], c); }
  }

  lemma AtRestGood(s: State)
    requires AtRest(s)
    ensures Good(s, s)
  {
    forall c: nat ensures CreditSum(s.agents, c) == 0 { IdleCredits(s.agents, c); }
  }

  lemma {:induction false} ExecGood(s: State, schedule: seq<(nat, Choice)>)
    requires AtRest(s)
    ensures Good(s, Exec(s, schedule))
  {
    if schedule == [] {
      AtRestGood(s);
    } else {
      var last := schedule[|schedule| - 1];
      ExecGood(s, schedule[..|schedule| - 1]);
      StepKeeps(s, Exec(s, schedule[..|schedule| - 1]), last.0, last.1);
    }
  }

  /** The frames an agent has been handed and not yet begun to free. */
  ghost function LiveFrames(a: Agent): set<nat> {
    match a
    case Busy(c, order, pc, lo, len, _) => if pc == Live then Block(512 * c + lo, len) else {}
    case LiveHuge(c) => Block(512 * c, 512)
    case _ => {}
  }

  /** A live frame belongs to the agent's child and is taken there. */
  lemma LiveTaken(s: State, t: nat, f: nat)
    requires Inv(s) && t < |s.agents| && f in LiveFrames(s.agents[t])
    ensures s.agents[t].Busy? || s.agents[t].LiveHuge?
    ensures var c := s.agents[t].c;
            c == f / 512 < |s.fields| && s.children[c].huge == s.agents[t].LiveHuge?
            && (s.agents[t].Busy? ==> f % 512 in HeldBits(s.agents[t], c) && f % 512 in s.fields[c])
  {
    var a := s.agents[t];
    assert AgentOk(a, |s.fields|);
    if a.Busy? {
      assert Within(f - 512 * a.c, a.lo, a.len);
      assert HeldBits(a, a.c) <= s.fields[a.c];
      BusyChild(s, t);
    }
  }

  /** Safety of every interleaving from an allocator at rest: no agent ever panics, no frame is handed
      out twice, and every frame handed out is marked as taken. */
  lemma Safety(s: State, schedule: seq<(nat, Choice)>, t: nat, u: nat, f: nat)
    requires AtRest(s) && t < |s.agents| && u < |s.agents|
    ensures var now := Exec(s, schedule);
            && |now.agents| == |s.agents| && |now.fields| == |s.fields| <= |now.children|
            && now.agents[t] != Panic
            && (f in LiveFrames(now.agents[t]) ==>
                  (t != u ==> f !in LiveFrames(now.agents[u])) && f / 512 < |now.fields| && !IsFree(now.children, now.fields, f))
  {
    var now := Exec(s, schedule);
    ExecGood(s, schedule);
    assert AgentOk(now.agents[t], |now.fields|);
    if f in LiveFrames(now.agents[t]) {
      LiveTaken(now, t, f);
      if t != u && f in LiveFrames(now.agents[u]) {
        LiveTaken(now, u, f);
      }
    }
  }

  /** Conservation over every interleaving: when all agents are idle again, the allocator is exactly as
      it was. No counter drifts and no bit leaks, whatever races and undos happened in between. */
  lemma Restored(s: State, schedule: seq<(nat, Choice)>)
    requires AtRest(s) && AllIdle(Exec(s, schedule).agents)
    ensures Exec(s, schedule).children == s.children && Exec(s, schedule).fields == s.fields
  {
    var now := Exec(s, schedule);
    ExecGood(s, schedule);
    forall c | 0 <= c < |s.fields| ensures now.children[c] == s.children[c] && now.fields[c] == s.fields[c] {
      IdleCredits(now.agents, c);
      assert BitsAccounted(s.fields[c], now.fields[c], now.agents, c);
      assert forall p :: p in now.fields[c] && p !in s.fields[c] ==> HeldBySome(now.agents, c, p);
      assert now.fields[c] == s.fields[c];
      assert HugeAccounted(s.children[c], now.children[c], now.agents, c);
      assert ChildBalanced(s.children[c], s.fields[c], 0) && ChildBalanced(now.children[c], now.fields[c], 0);
    }
  }

  /** Between the steps of running agents, counters and fields disagree by exactly the pending credits. */
  lemma CountersLag(s: State, schedule: seq<(nat, Choice)>, c: nat)
    requires AtRest(s) && c < |s.fields|
    ensures var now := Exec(s, schedule);
            && |now.fields| == |s.fields| <= |now.children|
            && (!now.children[c].huge ==> now.children[c].free + CreditSum(now.agents, c) == 512 - |now.fields[c]|)
  {
    ExecGood(s, schedule);
    var now := Exec(s, schedule);
    assert ChildBalanced(now.children[c], now.fields[c], CreditSum(now.agents, c));
  }
}
