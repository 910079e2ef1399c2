/**
 * What a search that gives up has seen, and what a search without interference finds, in the
 * interleaving model of module `ConcurrentLower`.
 */
module ConcurrentSearch {
  import opened Blocks
  import opened Bitfield
  import LowerAllocator
  import opened ConcurrentLower

  predicate SearchPc(pc: Pc) {
    pc.Scanning? || pc.Filling? || pc.Rolling?
  }

  /** Agent `t` has taken the counter of child `c` down and is looking for a block of this order there. */
  predicate Searches(s: State, t: nat, c: nat, order: nat) {
    && t < |s.agents| && c < |s.fields| && order <= 8
    && s.agents[t].Busy? && s.agents[t].c == c && s.agents[t].order == order && SearchPc(s.agents[t].pc)
  }

  /** Which visit of the wrap-around search from `row` looks at the block at `p`. */
  function Turn(order: nat, row: nat, p: nat): nat
    requires order <= 8 && row < 8 && p < 512
  {
    if order <= 6 then Distance(row, p / 64, 8)
    else if order == 7 then Distance(row / 2, p / 128, 4)
    else Distance(row / 4, p / 256, 2)
  }

  function Row(pc: Pc): nat
    requires SearchPc(pc)
  {
    pc.row
  }

  /** The visits that have already failed. */
  function Failed(pc: Pc): nat
    requires SearchPc(pc)
  {
    match pc
    case Scanning(_, i) => i
    case Filling(_, slot, _) => slot
    case Rolling(_, slot, _, _) => slot + 1
  }

  /** The bits of child `c` that agent `t` has not set itself. */
  ghost function OthersBits(s: State, t: nat, c: nat): set<nat>
    requires t < |s.agents| && c < |s.fields|
  {
    s.fields[c] - HeldBits(s.agents[t], c)
  }

  // ---- one step of a search ----

  /** The block at `p` comes before the block at `q` in a search from `row`. */
  predicate Before(order: nat, row: nat, p: nat, q: nat)
    requires order <= 8 && row < 8 && p < 512 && q < 512
  {
    Turn(order, row, p) < Turn(order, row, q) || (Turn(order, row, p) == Turn(order, row, q) && p <= q)
  }

  /** What a step from `pc` to `o` does about a block at `q` that nobody else has taken and that no visit
      has failed on: the search does not pass it, and takes no block after it. */
  ghost predicate Respects(order: nat, pc: Pc, o: Outcome, q: nat)
    requires order <= 8 && SearchPc(pc) && Row(pc) < 8 && q < 512 && o.Some?
  {
    match o.pc
    case Live => o.lo < 512 && Before(order, Row(pc), o.lo, q)
    case Crediting => false
    case _ => SearchPc(o.pc) && Failed(o.pc) <= Turn(order, Row(pc), q)
  }

  /** A search goes on from the same row, or ends. */
  ghost predicate GoesOn(pc: Pc, o: Outcome)
    requires SearchPc(pc)
  {
    o.Some? && (o.pc == Live || o.pc == Crediting || (SearchPc(o.pc) && Row(o.pc) == Row(pc)))
  }

  lemma RowTurn(order: nat, row: nat, i: nat, q: nat)
    requires order <= 6 && row < 8 && i < 8 && q < 512
    ensures var r := Offsetted(row, i, 8); Turn(order, row, q) == i <==> 64 * r <= q < 64 * r + 64
    ensures Turn(order, row, q) < 8
  {}

  lemma ScanRespects(field: set<nat>, order: nat, row: nat, i: nat, o: Outcome, q: nat)
    requires order <= 6 && row < 8 && i < 8 && o == ScanStep(field, order, row, i)
    ensures GoesOn(Scanning(row, i), o)
    ensures FreeBlock(field, order, q) && i <= Turn(order, row, q) ==> Respects(order, Scanning(row, i), o, q)
  {
    var r := Offsetted(row, i, 8);
    RowEdges(r, order);
    FirstFreeExact(field, order, 64 * r, 64 * r + 64);
    if FreeBlock(field, order, q) && i <= Turn(order, row, q) {
      RowTurn(order, row, i, q);
      if o.pc == Live { RowTurn(order, row, i, o.lo); }
    }
  }

  /** A multi-row block starts at the base of the slot its turn visits. */
  lemma SlotTurn(order: nat, row: nat, slot: nat, q: nat)
    requires 7 <= order <= 8 && row < 8 && slot < Slots(order) && Aligned(q, order) && q < 512
    ensures Turn(order, row, q) < Slots(order)
    ensures Turn(order, row, q) == slot <==> q == 64 * SlotBase(order, row, slot)
  {}

  lemma RowClear(field: set<nat>, own: nat, q: nat, n: nat, r: nat)
    requires Block(q, n) !! field - Block(q, own) && q + own <= 64 * r && 64 * r + 64 <= q + n
    ensures RowIs(field, r, false)
  {
    forall b | b in Block(64 * r, 64) ensures b !in field {
      assert b in Block(q, n) && b !in Block(q, own);
    }
  }

  lemma FillRespects(field: set<nat>, order: nat, pc: Pc, lo: nat, len: nat, credit: nat, o: Outcome, q: nat)
    requires pc.Filling? && PcOk(order, pc, lo, len, credit) && o == FieldStep(field, order, pc, lo, len, credit)
    ensures GoesOn(pc, o)
    ensures FreeBlock(field - Block(lo, len), order, q) && Failed(pc) <= Turn(order, Row(pc), q) ==>
              Respects(order, pc, o, q)
  {
    var Filling(row, slot, i) := pc;
    SlotAligned(order, row, slot);
    SlotTurn(order, row, slot, lo);
    if FreeBlock(field - Block(lo, len), order, q) && slot <= Turn(order, row, q) {
      SlotTurn(order, row, slot, q);
      if q == lo { RowClear(field, len, q, Pow2(order), SlotBase(order, row, slot) + i); }
    }
  }

  lemma RollRespects(field: set<nat>, order: nat, pc: Pc, lo: nat, len: nat, credit: nat, o: Outcome, q: nat)
    requires pc.Rolling? && PcOk(order, pc, lo, len, credit) && o == FieldStep(field, order, pc, lo, len, credit)
    requires o.Some?
    ensures GoesOn(pc, o)
    ensures FreeBlock(field - Block(lo, len), order, q) && Failed(pc) <= Turn(order, Row(pc), q) ==>
              Respects(order, pc, o, q)
  {
    if FreeBlock(field - Block(lo, len), order, q) { SlotTurn(order, pc.row, pc.slot, q); }
  }

  lemma FieldRespects(field: set<nat>, order: nat, pc: Pc, lo: nat, len: nat, credit: nat, o: Outcome, q: nat)
    requires SearchPc(pc) && PcOk(order, pc, lo, len, credit) && o == FieldStep(field, order, pc, lo, len, credit)
    requires o.Some?
    ensures GoesOn(pc, o)
    ensures FreeBlock(field - Block(lo, len), order, q) && Failed(pc) <= Turn(order, Row(pc), q) ==>
              Respects(order, pc, o, q)
  {
    match pc
    case Scanning(row, i) =>
      EmptyRuns(lo, 0);
      assert field - Block(lo, len) == field;
      ScanRespects(field, order, row, i, o, q);
    case Filling(_, _, _) => FillRespects(field, order, pc, lo, len, credit, o, q);
    case Rolling(_, _, _, _) => RollRespects(field, order, pc, lo, len, credit, o, q);
  }

  // ---- searches in a run ----

  /** A step of another agent leaves this one alone. */
  lemma OthersStay(s: State, u: nat, choice: Choice, t: nat)
    requires t < |s.agents| && u != t
    ensures |Step(s, u, choice).agents| == |s.agents| && Step(s, u, choice).agents[t] == s.agents[t]
  {}

  /** The field step of a searching agent. */
  ghost function NextOf(s: State, t: nat, c: nat, order: nat): Outcome
    requires Searches(s, t, c, order) && AgentsOk(s)
  {
    var a := s.agents[t];
    FieldStep(s.fields[c], order, a.pc, a.lo, a.len, a.credit)
  }

  lemma SearchGood(s: State, t: nat, c: nat, order: nat)
    requires Inv(s) && Searches(s, t, c, order)
    ensures GoodStep(s.fields[c], order, s.agents[t].lo, s.agents[t].len, NextOf(s, t, c, order))
  {
    var a := s.agents[t];
    BusyChild(s, t);
    FieldGood(s.fields[c], order, a.pc, a.lo, a.len, a.credit, NextOf(s, t, c, order));
  }

  /** A searching agent's own step. */
  lemma SearchStep(s: State, t: nat, c: nat, order: nat, choice: Choice, o: Outcome)
    requires AgentsOk(s) && Searches(s, t, c, order) && o == NextOf(s, t, c, order) && GoodPlace(order, o)
    ensures Step(s, t, choice)
            == Moved(s, t, c, s.children[c], o.field, Busy(c, order, o.pc, o.lo, o.len, Pow2(order) - o.len))
  {}

  lemma SearchRespects(s: State, t: nat, c: nat, order: nat, o: Outcome, q: nat)
    requires AgentsOk(s) && Searches(s, t, c, order) && o == NextOf(s, t, c, order) && o.Some? && q < 512
    ensures var pc := s.agents[t].pc;
            && Row(pc) < 8 && GoesOn(pc, o)
            && (FreeBlock(OthersBits(s, t, c), order, q) && Failed(pc) <= Turn(order, Row(pc), q) ==>
                 Respects(order, pc, o, q))
  {
    var a := s.agents[t];
    FieldRespects(s.fields[c], order, a.pc, a.lo, a.len, a.credit, o, q);
  }

  /** Moment `k` of the run: agent `t` moved, in the search it was in from then on, and the block at `p` had a
      bit set that was not its own. */
  ghost predicate SawTaken(s: State, schedule: seq<(nat, Choice)>, t: nat, c: nat, order: nat, p: nat, k: nat) {
    && k < |schedule| && schedule[k].0 == t
    && (forall m :: k <= m < |schedule| ==> Searches(Exec(s, schedule[..m]), t, c, order))
    && !FreeBlock(OthersBits(Exec(s, schedule[..k]), t, c), order, p)
  }

  lemma SawLonger(s: State, schedule: seq<(nat, Choice)>, t: nat, c: nat, order: nat, p: nat, k: nat, e: (nat, Choice))
    requires SawTaken(s, schedule, t, c, order, p, k) && Searches(Exec(s, schedule), t, c, order)
    ensures SawTaken(s, schedule + [e], t, c, order, p, k)
  {
    assert (schedule + [e])[..k] == schedule[..k];
    forall m | k <= m < |schedule + [e]| ensures Searches(Exec(s, (schedule + [e])[..m]), t, c, order) {
      if m == |schedule| {
        assert (schedule + [e])[..m] == schedule;
      } else {
        assert (schedule + [e])[..m] == schedule[..m];
      }
    }
  }

  lemma SawNow(s: State, schedule: seq<(nat, Choice)>, t: nat, c: nat, order: nat, p: nat, choice: Choice)
    requires Searches(Exec(s, schedule), t, c, order) && !FreeBlock(OthersBits(Exec(s, schedule), t, c), order, p)
    ensures SawTaken(s, schedule + [(t, choice)], t, c, order, p, |schedule|)
  {
    assert (schedule + [(t, choice)])[..|schedule|] == schedule;
  }

  lemma ExecThen(s: State, schedule: seq<(nat, Choice)>, e: (nat, Choice))
    ensures Exec(s, schedule + [e]) == Step(Exec(s, schedule), e.0, e.1)
  {
    assert (schedule + [e])[..|schedule|] == schedule;
  }

  /** A search that has not begun yet has failed on nothing. */
  lemma StartsFresh(s: State, t: nat, c: nat, order: nat, choice: Choice)
    requires t < |s.agents| && AgentsOk(s) && !Searches(s, t, c, order) && Searches(Step(s, t, choice), t, c, order)
    ensures Failed(Step(s, t, choice).agents[t].pc) == 0
  {}

  /** Some visit of agent `t`'s search has failed on the block at `p`. */
  predicate Passed(s: State, t: nat, c: nat, order: nat, p: nat) {
    && Searches(s, t, c, order) && p < 512 && Row(s.agents[t].pc) < 8
    && Turn(order, Row(s.agents[t].pc), p) < Failed(s.agents[t].pc)
  }

  /** A block passed after a step was passed before it, or is taken now and this is the agent's step. */
  lemma PassedStep(s: State, u: nat, choice: Choice, t: nat, c: nat, order: nat, p: nat)
    requires Inv(s) && t < |s.agents| && Passed(Step(s, u, choice), t, c, order, p)
    ensures Searches(s, t, c, order)
    ensures Passed(s, t, c, order, p) || (u == t && !FreeBlock(OthersBits(s, t, c), order, p))
  {
    if u != t {
      OthersStay(s, u, choice, t);
    } else if !Searches(s, t, c, order) {
      StartsFresh(s, t, c, order, choice);
    } else {
      var o := NextOf(s, t, c, order);
      SearchGood(s, t, c, order);
      SearchStep(s, t, c, order, choice, o);
      SearchRespects(s, t, c, order, o, p);
    }
  }

  /** Every block that a running search has passed was seen taken by that search. */
  lemma {:induction false} PassedSeen(s: State, schedule: seq<(nat, Choice)>, t: nat, c: nat, order: nat, p: nat)
    requires AtRest(s) && Passed(Exec(s, schedule), t, c, order, p)
    ensures exists k :: SawTaken(s, schedule, t, c, order, p, k)
    decreases |schedule|
  {
    if schedule != [] {
      var before := schedule[..|schedule| - 1];
      var (u, choice) := schedule[|schedule| - 1];
      assert schedule == before + [(u, choice)];
      ExecGood(s, before);
      PassedStep(Exec(s, before), u, choice, t, c, order, p);
      if Passed(Exec(s, before), t, c, order, p) {
        PassedSeen(s, before, t, c, order, p);
        var k :| SawTaken(s, before, t, c, order, p, k);
        SawLonger(s, before, t, c, order, p, k, (u, choice));
      } else {
        SawNow(s, before, t, c, order, p, choice);
      }
    }
  }

  /** The get of agent `t` gives up in this step. */
  ghost predicate GivesUp(s: State, schedule: seq<(nat, Choice)>, t: nat, c: nat, order: nat, choice: Choice) {
    var x := Exec(s, schedule);
    var next := Step(x, t, choice);
    Searches(x, t, c, order) && t < |next.agents| && next.agents[t].Busy? && next.agents[t].pc == Crediting
  }

  /** A get gives up only after it has seen every aligned block of the child taken by someone else, each at
      a moment of this very search. */
  lemma GiveUp(s: State, schedule: seq<(nat, Choice)>, t: nat, c: nat, order: nat, choice: Choice, p: nat)
    requires AtRest(s) && GivesUp(s, schedule, t, c, order, choice) && Aligned(p, order) && p + Pow2(order) <= 512
    ensures exists k :: SawTaken(s, schedule + [(t, choice)], t, c, order, p, k)
  {
    var x := Exec(s, schedule);
    ExecGood(s, schedule);
    ExecThen(s, schedule, (t, choice));
    if !FreeBlock(OthersBits(x, t, c), order, p) {
      SawNow(s, schedule, t, c, order, p, choice);
    } else {
      var o := NextOf(x, t, c, order);
      SearchGood(x, t, c, order);
      SearchStep(x, t, c, order, choice, o);
      SearchRespects(x, t, c, order, o, p);
      PassedSeen(s, schedule, t, c, order, p);
      var k :| SawTaken(s, schedule, t, c, order, p, k);
      SawLonger(s, schedule, t, c, order, p, k, (t, choice));
    }
  }

  // ---- a search without interference ----

  /** `n` steps of agent `t` in a row. */
  ghost function Solo(s: State, t: nat, choice: Choice, n: nat): State
    decreases n
  {
    if n == 0 then s else Solo(Step(s, t, choice), t, choice, n - 1)
  }

  /** Steps a search can still take. */
  function StepsLeft(order: nat, pc: Pc): nat
    requires SearchPc(pc)
  {
    match pc
    case Scanning(_, i) => if i < 8 then 8 - i else 0
    case Filling(_, slot, i) => 20 * (if slot < 4 then 4 - slot else 0) + (if i < 8 then 8 - i else 0) + 8
    case Rolling(_, slot, i, j) => 20 * (if slot < 4 then 4 - slot else 0) + (if j < i <= 8 then i - j else 0)
  }

  lemma StepsShrink(s: State, t: nat, c: nat, order: nat, o: Outcome)
    requires AgentsOk(s) && Searches(s, t, c, order) && o == NextOf(s, t, c, order) && o.Some? && SearchPc(o.pc)
    ensures StepsLeft(order, o.pc) < StepsLeft(order, s.agents[t].pc)
  {}

  /** The search of agent `t` has ended, with a block or without. */
  ghost predicate Ended(s: State, t: nat, c: nat, order: nat) {
    && t < |s.agents| && s.agents[t].Busy? && s.agents[t].c == c && s.agents[t].order == order
    && (s.agents[t].pc == Live || s.agents[t].pc == Crediting)
  }

  /** Only agent `t` and the field of child `c` differ, and the bits of the others in it are the same. */
  ghost predicate OnlySearched(s: State, s': State, t: nat, c: nat)
    requires t < |s.agents| && c < |s.fields|
  {
    && |s'.agents| == |s.agents| && |s'.fields| == |s.fields| && s'.children == s.children
    && s'.agents == s.agents[t := s'.agents[t]] && s'.fields == s.fields[c := s'.fields[c]]
    && OthersBits(s', t, c) == OthersBits(s, t, c)
  }

  lemma StepOnlySearched(s: State, t: nat, c: nat, order: nat, choice: Choice)
    requires Inv(s) && Searches(s, t, c, order)
    ensures OnlySearched(s, Step(s, t, choice), t, c)
  {
    SearchGood(s, t, c, order);
    SearchStep(s, t, c, order, choice, NextOf(s, t, c, order));
    BusyChild(s, t);
  }

  /** If a block nobody else has taken is still ahead of the search in `s`, then `s'` has the first such one. */
  ghost predicate TakesFirst(s: State, s': State, t: nat, c: nat, order: nat)
    requires Searches(s, t, c, order) && Ended(s', t, c, order)
  {
    var pc, a' := s.agents[t].pc, s'.agents[t];
    && Row(pc) < 8
    && forall q: nat :: FreeBlock(OthersBits(s, t, c), order, q) && Failed(pc) <= Turn(order, Row(pc), q) ==>
         a'.pc == Live && a'.lo < 512 && Before(order, Row(pc), a'.lo, q)
  }

  lemma TakesNow(s: State, t: nat, c: nat, order: nat, choice: Choice)
    requires Inv(s) && Searches(s, t, c, order) && !Searches(Step(s, t, choice), t, c, order)
    ensures Ended(Step(s, t, choice), t, c, order) && TakesFirst(s, Step(s, t, choice), t, c, order)
  {
    var o := NextOf(s, t, c, order);
    SearchGood(s, t, c, order);
    SearchStep(s, t, c, order, choice, o);
    forall q: nat | q < 512
      ensures Row(s.agents[t].pc) < 8 && GoesOn(s.agents[t].pc, o)
      ensures FreeBlock(OthersBits(s, t, c), order, q)
              && Failed(s.agents[t].pc) <= Turn(order, Row(s.agents[t].pc), q) ==>
                Respects(order, s.agents[t].pc, o, q)
    {
      SearchRespects(s, t, c, order, o, q);
    }
    SearchRespects(s, t, c, order, o, 0);
  }

  lemma TakesLater(s: State, t: nat, c: nat, order: nat, choice: Choice, s': State)
    requires Inv(s) && Searches(s, t, c, order) && Searches(Step(s, t, choice), t, c, order)
    requires Ended(s', t, c, order) && TakesFirst(Step(s, t, choice), s', t, c, order)
    ensures TakesFirst(s, s', t, c, order)
  {
    var o := NextOf(s, t, c, order);
    SearchGood(s, t, c, order);
    SearchStep(s, t, c, order, choice, o);
    StepOnlySearched(s, t, c, order, choice);
    SearchRespects(s, t, c, order, o, 0);
    forall q: nat | FreeBlock(OthersBits(s, t, c), order, q)
                    && Failed(s.agents[t].pc) <= Turn(order, Row(s.agents[t].pc), q)
      ensures Failed(o.pc) <= Turn(order, Row(s.agents[t].pc), q)
    {
      SearchRespects(s, t, c, order, o, q);
    }
  }

  /** The search that agent `t` is in in `s` ends in `s'`: it has the first block that nobody had taken among
      those it had not passed, in the order of its visits, and gives up only if there is none. */
  ghost predicate SearchedTo(s: State, s': State, t: nat, c: nat, order: nat) {
    && Searches(s, t, c, order) && Ended(s', t, c, order)
    && OnlySearched(s, s', t, c) && TakesFirst(s, s', t, c, order)
  }

  lemma OnlySearchedOn(s: State, s1: State, s2: State, t: nat, c: nat)
    requires t < |s.agents| && c < |s.fields| && OnlySearched(s, s1, t, c) && OnlySearched(s1, s2, t, c)
    ensures OnlySearched(s, s2, t, c)
  {}

  lemma SearchedStep(s: State, t: nat, c: nat, order: nat, choice: Choice)
    requires Inv(s) && Searches(s, t, c, order)
    ensures var next := Step(s, t, choice);
            if Searches(next, t, c, order) then StepsLeft(order, next.agents[t].pc) < StepsLeft(order, s.agents[t].pc)
            else SearchedTo(s, next, t, c, order)
  {
    SearchGood(s, t, c, order);
    SearchStep(s, t, c, order, choice, NextOf(s, t, c, order));
    if Searches(Step(s, t, choice), t, c, order) {
      StepsShrink(s, t, c, order, NextOf(s, t, c, order));
    } else {
      TakesNow(s, t, c, order, choice);
      StepOnlySearched(s, t, c, order, choice);
    }
  }

  lemma SearchedLater(s: State, t: nat, c: nat, order: nat, choice: Choice, s': State)
    requires Inv(s) && Searches(s, t, c, order) && SearchedTo(Step(s, t, choice), s', t, c, order)
    ensures SearchedTo(s, s', t, c, order)
  {
    TakesLater(s, t, c, order, choice, s');
    StepOnlySearched(s, t, c, order, choice);
    OnlySearchedOn(s, Step(s, t, choice), s', t, c);
  }

  /** Left alone, the search ends after `n` steps and not before. */
  ghost predicate SoloEnds(s: State, t: nat, c: nat, order: nat, choice: Choice, n: nat) {
    && SearchedTo(s, Solo(s, t, choice, n), t, c, order)
    && forall m :: 0 <= m < n ==> Searches(Solo(s, t, choice, m), t, c, order)
  }

  lemma SoloNow(s: State, t: nat, c: nat, order: nat, choice: Choice)
    requires Searches(s, t, c, order) && SearchedTo(s, Step(s, t, choice), t, c, order)
    ensures SoloEnds(s, t, c, order, choice, 1)
  {
    assert Solo(s, t, choice, 1) == Solo(Step(s, t, choice), t, choice, 0);
  }

  lemma SoloLater(s: State, t: nat, c: nat, order: nat, choice: Choice, n: nat)
    requires Inv(s) && Searches(s, t, c, order) && SoloEnds(Step(s, t, choice), t, c, order, choice, n)
    ensures SoloEnds(s, t, c, order, choice, n + 1)
  {
    var next := Step(s, t, choice);
    SearchedLater(s, t, c, order, choice, Solo(next, t, choice, n));
    forall m | 0 <= m < n + 1 ensures Searches(Solo(s, t, choice, m), t, c, order) {
      if m > 0 { assert Searches(Solo(next, t, choice, m - 1), t, c, order); }
    }
  }

  /** A search without interference ends. */
  lemma {:induction false} SoloSearch(base: State, s: State, t: nat, c: nat, order: nat, choice: Choice)
    requires Good(base, s) && Searches(s, t, c, order)
    ensures exists n: nat :: SoloEnds(s, t, c, order, choice, n)
    decreases StepsLeft(order, s.agents[t].pc)
  {
    StepKeeps(base, s, t, choice);
    SearchedStep(s, t, c, order, choice);
    if Searches(Step(s, t, choice), t, c, order) {
      SoloSearch(base, Step(s, t, choice), t, c, order, choice);
      var n: nat :| SoloEnds(Step(s, t, choice), t, c, order, choice, n);
      SoloLater(s, t, c, order, choice, n);
    } else {
      SoloNow(s, t, c, order, choice);
    }
  }

  lemma {:induction false} SoloGood(base: State, s: State, t: nat, choice: Choice, n: nat)
    requires Good(base, s)
    ensures Good(base, Solo(s, t, choice, n))
    decreases n
  {
    if n > 0 {
      StepKeeps(base, s, t, choice);
      SoloGood(base, Step(s, t, choice), t, choice, n - 1);
    }
  }

  lemma Fits(x: set<nat>)
    requires x <= Block(0, 512)
    ensures |x| <= 512
  {
    BlockSize(0, 512);
    assert |Block(0, 512) - x| == |Block(0, 512)| - |x|;
  }

  /** The counter of child `c` admits a get. */
  predicate CounterAdmits(s: State, c: nat, order: nat)
    requires c < |s.children| && order <= 9
  {
    !s.children[c].huge && s.children[c].free >= Pow2(order)
  }

  /** A search of `field` from `row` has taken the first free block in the order of its visits, or, when there
      is none, nothing. */
  ghost predicate FoundFirst(field: set<nat>, field': set<nat>, order: nat, row: nat, pc: Pc, p: nat)
    requires order <= 8 && row < 8
  {
    if pc == Live then
      && FreeBlock(field, order, p) && field' == field + Block(p, Pow2(order))
      && forall q: nat :: FreeBlock(field, order, q) ==> Before(order, row, p, q)
    else
      field' == field && forall q: nat :: !FreeBlock(field, order, q)
  }

  lemma FirstFound(field: set<nat>, field': set<nat>, order: nat, row: nat, pc: Pc, lo: nat, len: nat, credit: nat)
    requires PcOk(order, pc, lo, len, credit) && (pc == Live || pc == Crediting) && row < 8
    requires Block(lo, len) <= field' && field' - Block(lo, len) == field
    requires forall q: nat :: FreeBlock(field, order, q) ==> pc == Live && lo < 512 && Before(order, row, lo, q)
    ensures FoundFirst(field, field', order, row, pc, lo)
  {
    if pc == Live {
      assert FreeBlock(field, order, lo);
    } else {
      EmptyRuns(lo, 0);
    }
  }

  /** A get of child `c` by agent `t` from `s` has ended in `s'`; the counter is down. */
  ghost predicate GetEnds(s: State, s': State, t: nat, c: nat, order: nat, row: nat) {
    && t < |s.agents| && c < |s.fields| == |s'.fields| && c < |s.children| && order <= 8 && row < 8
    && CounterAdmits(s, c, order) && Ended(s', t, c, order) && s'.agents == s.agents[t := s'.agents[t]]
    && s'.children == s.children[c := LowerAllocator.Child(s.children[c].free - Pow2(order), false)]
    && s'.fields == s.fields[c := s'.fields[c]]
    && FoundFirst(s.fields[c], s'.fields[c], order, row, s'.agents[t].pc, s'.agents[t].lo)
  }

  /** The first step of a get that the counter admits. */
  lemma GetBegins(base: State, s: State, t: nat, c: nat, order: nat, row: nat)
    requires Good(base, s) && t < |s.agents| && s.agents[t].Idle? && c < |s.fields| && order <= 8 && row < 8
    ensures if CounterAdmits(s, c, order) then
              var s' := Step(s, t, GetSmall(c, order, row));
              && Searches(s', t, c, order) && Failed(s'.agents[t].pc) == 0 && Row(s'.agents[t].pc) == row
              && s'.children == s.children[c := LowerAllocator.Child(s.children[c].free - Pow2(order), false)]
              && s'.fields == s.fields && s'.agents == s.agents[t := s'.agents[t]]
              && OthersBits(s', t, c) == s.fields[c]
            else Step(s, t, GetSmall(c, order, row)) == s
  {
    EmptyRuns(0, 0);
    if order > 6 { EmptyRuns(64 * SlotBase(order, row, 0), 0); }
  }

  lemma GetFinishes(s: State, s1: State, s': State, t: nat, c: nat, order: nat, row: nat)
    requires Inv(s') && t < |s.agents| && c < |s.fields| <= |s.children| && order <= 8 && row < 8
    requires CounterAdmits(s, c, order)
    requires SearchedTo(s1, s', t, c, order) && Failed(s1.agents[t].pc) == 0 && Row(s1.agents[t].pc) == row
    requires s1.children == s.children[c := LowerAllocator.Child(s.children[c].free - Pow2(order), false)]
    requires s1.fields == s.fields && s1.agents == s.agents[t := s1.agents[t]] && OthersBits(s1, t, c) == s.fields[c]
    ensures GetEnds(s, s', t, c, order, row)
  {
    var a := s'.agents[t];
    BusyChild(s', t);
    assert AgentOk(a, |s'.fields|);
    FirstFound(s.fields[c], s'.fields[c], order, row, a.pc, a.lo, a.len, a.credit);
  }

  /** Left alone, the get that agent `t` starts in `s` ends after `n` steps and not before. */
  ghost predicate GetTakes(s: State, t: nat, c: nat, order: nat, row: nat, n: nat) {
    && GetEnds(s, Solo(s, t, GetSmall(c, order, row), n), t, c, order, row)
    && forall m :: 0 < m < n ==> Searches(Solo(s, t, GetSmall(c, order, row), m), t, c, order)
  }

  lemma GetSteps(s: State, t: nat, c: nat, order: nat, row: nat, n: nat)
    requires SoloEnds(Step(s, t, GetSmall(c, order, row)), t, c, order, GetSmall(c, order, row), n)
    requires GetEnds(s, Solo(Step(s, t, GetSmall(c, order, row)), t, GetSmall(c, order, row), n), t, c, order, row)
    ensures GetTakes(s, t, c, order, row, n + 1)
  {
    var get := GetSmall(c, order, row);
    forall m | 0 < m < n + 1 ensures Searches(Solo(s, t, get, m), t, c, order) {
      assert Searches(Solo(Step(s, t, get), t, get, m - 1), t, c, order);
    }
  }

  /** The whole get of agent `t` when the others pause, from any reachable state: unless the counter refuses
      it, it ends with the block the sequential search would take, or without one if there is none. */
  lemma Alone(s: State, schedule: seq<(nat, Choice)>, t: nat, c: nat, order: nat, row: nat)
    requires AtRest(s) && t < |s.agents| && c < |s.fields| && order <= 8 && row < 8
    requires |Exec(s, schedule).agents| == |s.agents| && Exec(s, schedule).agents[t].Idle?
    ensures var now := Exec(s, schedule);
            && |now.fields| == |s.fields| <= |now.children|
            && if CounterAdmits(now, c, order) then exists n: nat :: GetTakes(now, t, c, order, row, n)
               else Step(now, t, GetSmall(c, order, row)) == now
  {
    var now, get := Exec(s, schedule), GetSmall(c, order, row);
    ExecGood(s, schedule);
    GetBegins(s, now, t, c, order, row);
    if CounterAdmits(now, c, order) {
      var s1 := Step(now, t, get);
      StepKeeps(s, now, t, get);
      SoloSearch(s, s1, t, c, order, get);
      var n: nat :| SoloEnds(s1, t, c, order, get, n);
      SoloGood(s, s1, t, get, n);
      GetFinishes(now, s1, Solo(s1, t, get, n), t, c, order, row);
      GetSteps(now, t, c, order, row, n);
    }
  }

  /** When no other agent is between its counter and its bits in child `c`, the counter refuses no get that
      has room. */
  lemma CounterExact(s: State, schedule: seq<(nat, Choice)>, c: nat, order: nat, p: nat)
    requires AtRest(s) && c < |s.fields| && order <= 8 && CreditSum(Exec(s, schedule).agents, c) == 0
    requires |Exec(s, schedule).fields| == |s.fields| <= |Exec(s, schedule).children|
    requires !Exec(s, schedule).children[c].huge && FreeBlock(Exec(s, schedule).fields[c], order, p)
    ensures CounterAdmits(Exec(s, schedule), c, order)
  {
    var now := Exec(s, schedule);
    ExecGood(s, schedule);
    assert ChildBalanced(now.children[c], now.fields[c], 0);
    AddBlock(now.fields[c], p, Pow2(order));
    InsideChild(p, Pow2(order));
    Fits(now.fields[c] + Block(p, Pow2(order)));
  }

  /** A get that gave up and gives its credit back leaves no trace. */
  lemma GaveUpClean(base: State, s: State, s': State, t: nat, c: nat, order: nat, row: nat, choice: Choice)
    requires Good(base, s) && Good(base, s') && GetEnds(s, s', t, c, order, row)
    requires s.agents[t].Idle? && s'.agents[t].pc == Crediting
    ensures Step(s', t, choice) == s
  {
    BusyChild(s', t);
    assert AgentOk(s'.agents[t], |s'.fields|);
  }

  /** An exact get hands out the block asked for, and does so exactly when that block is free at its step. */
  lemma ExactGet(s: State, schedule: seq<(nat, Choice)>, t: nat, choice: Choice)
    requires AtRest(s) && t < |Exec(s, schedule).agents|
    requires Exec(s, schedule).agents[t].Busy? && Exec(s, schedule).agents[t].pc.AtBlock?
    ensures var now, next := Exec(s, schedule), Exec(s, schedule + [(t, choice)]);
            var Busy(c, order, pc, _, _, _) := now.agents[t];
            && c < |now.fields| && order <= 6 && |next.agents| == |now.agents|
            && next.agents[t].Busy? && next.agents[t].c == c && next.agents[t].order == order
            && (if FreeBlock(now.fields[c], order, pc.pos) then
                  next.agents[t].pc == Live && next.agents[t].lo == pc.pos && next.agents[t].len == Pow2(order)
                else next.agents[t].pc == Crediting)
  {
    var now := Exec(s, schedule);
    ExecGood(s, schedule);
    ExecThen(s, schedule, (t, choice));
    assert AgentOk(now.agents[t], |now.fields|);
    BusyChild(now, t);
  }

  /** An exact get that the counter admits is on its way to that block. */
  lemma ExactBegins(s: State, schedule: seq<(nat, Choice)>, t: nat, c: nat, order: nat, pos: nat)
    requires AtRest(s) && t < |s.agents| && c < |s.fields| && order <= 6 && Aligned(pos, order)
    requires pos + Pow2(order) <= 512
    requires |Exec(s, schedule).agents| == |s.agents| && Exec(s, schedule).agents[t].Idle?
    requires |Exec(s, schedule).fields| == |s.fields| <= |Exec(s, schedule).children|
    requires CounterAdmits(Exec(s, schedule), c, order)
    ensures var next := Exec(s, schedule + [(t, GetAtSmall(c, order, pos))]);
            && |next.agents| == |s.agents| && next.agents[t].Busy? && next.agents[t].c == c
            && next.agents[t].order == order && next.agents[t].pc == AtBlock(pos)
  {
    ExecThen(s, schedule, (t, GetAtSmall(c, order, pos)));
  }

  /** A whole child is handed out exactly when no frame of it is in use, as a block or as a pending credit. */
  lemma HugeGet(s: State, schedule: seq<(nat, Choice)>, t: nat, c: nat)
    requires AtRest(s) && t < |s.agents| && c < |s.fields|
    requires |Exec(s, schedule).agents| == |s.agents| && Exec(s, schedule).agents[t].Idle?
    ensures var now, next := Exec(s, schedule), Exec(s, schedule + [(t, GetHuge(c))]);
            && |now.fields| == |s.fields| <= |now.children| && |next.agents| == |s.agents|
            && (next.agents[t] == LiveHuge(c)
                <==> !now.children[c].huge && now.fields[c] == {} && CreditSum(now.agents, c) == 0)
            && (next.agents[t] != LiveHuge(c) ==> next == now)
  {
    var now := Exec(s, schedule);
    ExecGood(s, schedule);
    ExecThen(s, schedule, (t, GetHuge(c)));
    assert ChildBalanced(now.children[c], now.fields[c], CreditSum(now.agents, c));
  }

  /** ... and given back in one step, after which no frame of it is in use. */
  lemma HugePut(s: State, schedule: seq<(nat, Choice)>, t: nat, c: nat, choice: Choice)
    requires AtRest(s) && t < |s.agents|
    requires |Exec(s, schedule).agents| == |s.agents| && Exec(s, schedule).agents[t] == LiveHuge(c)
    ensures var next := Exec(s, schedule + [(t, choice)]);
            && |next.agents| == |s.agents| && next.agents[t].Idle? && c < |next.fields| <= |next.children|
            && next.children[c] == LowerAllocator.FREE_CHILD && next.fields[c] == {} && CreditSum(next.agents, c) == 0
  {
    var now := Exec(s, schedule);
    ExecGood(s, schedule);
    ExecThen(s, schedule, (t, choice));
    assert AgentOk(now.agents[t], |now.fields|) && ChildBalanced(now.children[c], now.fields[c], CreditSum(now.agents, c));
    CreditUpdate(now.agents, t, Idle, c);
  }

  // ---- a free without interference ----

  predicate Freeing(s: State, t: nat, c: nat) {
    && t < |s.agents| && c < |s.fields| <= |s.children| && s.agents[t].Busy? && s.agents[t].c == c
    && s.agents[t].order <= 8
    && (s.agents[t].pc == Live || s.agents[t].pc.Clearing? || s.agents[t].pc == Crediting)
  }

  /** The state in which the bits and the credit of agent `t` are back in child `c`. */
  ghost function GivenBack(s: State, t: nat, c: nat): State
    requires Freeing(s, t, c)
  {
    var a := s.agents[t];
    var child := LowerAllocator.Child(s.children[c].free + Pow2(a.order), false);
    Moved(s, t, c, child, s.fields[c] - Block(a.lo, a.len), Idle)
  }

  /** Bits still to be cleared, and the step that gives the credit back. */
  function FreeLeft(s: State, t: nat, c: nat): nat
    requires Freeing(s, t, c)
  {
    s.agents[t].len + if s.agents[t].pc == Crediting then 0 else 1
  }

  lemma FreeShrinks(field: set<nat>, order: nat, pc: Pc, lo: nat, len: nat, credit: nat, o: Outcome)
    requires PcOk(order, pc, lo, len, credit) && (pc == Live || pc.Clearing?)
    requires o == FieldStep(field, order, pc, lo, len, credit) && o.Some?
    ensures (o.pc.Clearing? || o.pc == Crediting) && o.len < len
  {}

  lemma ExchangeRest(field: set<nat>, x: set<nat>, field': set<nat>, y: set<nat>)
    requires Exchange(field, x, field', y)
    ensures field' - y == field - x
  {}

  lemma SameGivenBack(s: State, t: nat, c: nat, field: set<nat>, a: Agent)
    requires Freeing(s, t, c) && Freeing(Moved(s, t, c, s.children[c], field, a), t, c) && a.order == s.agents[t].order
    requires field - Block(a.lo, a.len) == s.fields[c] - Block(s.agents[t].lo, s.agents[t].len)
    ensures GivenBack(Moved(s, t, c, s.children[c], field, a), t, c) == GivenBack(s, t, c)
  {}

  /** The field step of a freeing agent. */
  ghost function ClearOf(s: State, t: nat, c: nat): Outcome
    requires Freeing(s, t, c) && AgentsOk(s) && s.agents[t].pc != Crediting
  {
    var a := s.agents[t];
    FieldStep(s.fields[c], a.order, a.pc, a.lo, a.len, a.credit)
  }

  lemma ClearGives(s: State, t: nat, c: nat, o: Outcome)
    requires Inv(s) && Freeing(s, t, c) && s.agents[t].pc != Crediting && o == ClearOf(s, t, c)
    ensures GoodPlace(s.agents[t].order, o) && (o.pc.Clearing? || o.pc == Crediting) && o.len < s.agents[t].len
    ensures o.field - Block(o.lo, o.len) == s.fields[c] - Block(s.agents[t].lo, s.agents[t].len)
    ensures !s.children[c].huge
  {
    var a := s.agents[t];
    BusyChild(s, t);
    FieldGood(s.fields[c], a.order, a.pc, a.lo, a.len, a.credit, o);
    FreeShrinks(s.fields[c], a.order, a.pc, a.lo, a.len, a.credit, o);
    ExchangeRest(s.fields[c], Block(a.lo, a.len), o.field, Block(o.lo, o.len));
  }

  lemma FreeMoves(s: State, t: nat, c: nat, choice: Choice, o: Outcome)
    requires AgentsOk(s) && Freeing(s, t, c) && s.agents[t].pc != Crediting && !s.children[c].huge
    requires o == ClearOf(s, t, c) && GoodPlace(s.agents[t].order, o)
    ensures var order := s.agents[t].order;
            Step(s, t, choice)
            == Moved(s, t, c, s.children[c], o.field, Busy(c, order, o.pc, o.lo, o.len, Pow2(order) - o.len))
  {}

  lemma FreeStep(s: State, t: nat, c: nat, choice: Choice)
    requires Inv(s) && Freeing(s, t, c) && s.agents[t].pc != Crediting
    ensures var next := Step(s, t, choice);
            Freeing(next, t, c) && GivenBack(next, t, c) == GivenBack(s, t, c)
            && FreeLeft(next, t, c) < FreeLeft(s, t, c)
  {
    var o := ClearOf(s, t, c);
    ClearGives(s, t, c, o);
    FreeMoves(s, t, c, choice, o);
    var order := s.agents[t].order;
    SameGivenBack(s, t, c, o.field, Busy(c, order, o.pc, o.lo, o.len, Pow2(order) - o.len));
  }

  lemma FreeEnds(s: State, t: nat, c: nat, choice: Choice)
    requires Inv(s) && Freeing(s, t, c) && s.agents[t].pc == Crediting
    ensures Step(s, t, choice) == GivenBack(s, t, c)
  {
    BusyChild(s, t);
    assert AgentOk(s.agents[t], |s.fields|);
    EmptyRuns(s.agents[t].lo, 0);
    assert s.fields[c] - Block(s.agents[t].lo, 0) == s.fields[c];
  }

  /** A free without interference ends with the whole block clear and the counter up. */
  lemma {:induction false} SoloFree(base: State, s: State, t: nat, c: nat, choice: Choice)
    requires Good(base, s) && Freeing(s, t, c)
    ensures exists n: nat :: Solo(s, t, choice, n) == GivenBack(s, t, c)
    decreases FreeLeft(s, t, c)
  {
    var next := Step(s, t, choice);
    StepKeeps(base, s, t, choice);
    if s.agents[t].pc == Crediting {
      FreeEnds(s, t, c, choice);
      assert Solo(s, t, choice, 1) == Solo(next, t, choice, 0);
    } else {
      FreeStep(s, t, c, choice);
      SoloFree(base, next, t, c, choice);
      var n: nat :| Solo(next, t, choice, n) == GivenBack(next, t, c);
      assert Solo(s, t, choice, n + 1) == Solo(next, t, choice, n);
    }
  }
}
