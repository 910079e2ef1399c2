/** Whole runs of the allocator: clients take blocks, give back blocks they hold, and drain the local slots. */
module AllocatorRuns {
  import opened Blocks
  import opened Bitfield
  import opened LowerAllocator
  import opened TreeBooks
  import opened LLFreeAllocator

  datatype Held = Held(frame: nat, order: nat)

  datatype Op = Take(at: Option<nat>, request: Request) | Give(which: nat, cls: nat, local: Option<nat>) | Empty

  /** A request that cannot damage the lower allocator in its present state. */
  predicate Clean(a: LLFree, op: Op)
    requires a.Valid()
    reads a, a.lower
  {
    op.Take? && a.ValidRequest(op.request, op.at) ==> a.Harmless(op.at, op.request.order)
  }

  /** ... in no state: above order 9 any request can meet a partly free group of children, and an exact request of
      order 7 or 8 can tear the field. */
  predicate Covered(op: Op) {
    op.Take? ==> op.request.order <= 9 && (op.at.Some? ==> op.request.order <= 6 || op.request.order == 9)
  }

  lemma CoveredIsClean(a: LLFree, op: Op)
    requires a.Valid() && Covered(op)
    ensures Clean(a, op)
  {}

  ghost function Frames(h: Held): set<nat>
    requires h.order <= 12
  {
    Block(h.frame, Pow2(h.order))
  }

  /** One held block: aligned, one of the frames, not free; a whole child is held as a huge one. */
  ghost predicate HeldOk(all: set<nat>, free: set<nat>, children: seq<Child>, h: Held) {
    && h.order <= 12 && Aligned(h.frame, h.order) && Frames(h) <= all && Frames(h) !! free
    && (h.order >= 9 ==> HugeBlock(children, h.order, h.frame))
  }

  ghost predicate Apart(held: seq<Held>) {
    && (forall i :: 0 <= i < |held| ==> held[i].order <= 12)
    && (forall i, j :: 0 <= i < j < |held| ==> Frames(held[i]) !! Frames(held[j]))
  }

  ghost predicate HeldSomewhere(held: seq<Held>, f: nat) {
    exists i :: 0 <= i < |held| && held[i].order <= 12 && f in Frames(held[i])
  }

  /** The free frames and the held blocks, aligned, partition the frames. */
  ghost predicate Parts(all: set<nat>, free: set<nat>, held: seq<Held>) {
    && free <= all && Apart(held)
    && (forall i :: 0 <= i < |held| ==>
         Aligned(held[i].frame, held[i].order) && Frames(held[i]) <= all && Frames(held[i]) !! free)
    && (forall f :: f in all ==> f in free || HeldSomewhere(held, f))
  }

  /** ... and blocks of whole children are held as huge ones. */
  ghost predicate Shares(all: set<nat>, free: set<nat>, children: seq<Child>, held: seq<Held>) {
    Parts(all, free, held) && forall i :: 0 <= i < |held| ==> HeldOk(all, free, children, held[i])
  }

  lemma TakeShares(all: set<nat>, free: set<nat>, children: seq<Child>, held: seq<Held>, h: Held, free': set<nat>,
                   children': seq<Child>)
    requires Shares(all, free, children, held) && h.order <= 12 && FreeRun(free, h.order, h.frame)
    requires free' == free - Frames(h) && HugeKept(children, children', h.order, h.frame)
    requires h.order >= 9 ==> ChildOf(h.frame) + Huges(h.order) <= |children|
    ensures Shares(all, free', children', held + [h])
  {
    var held' := held + [h];
    assert HeldOk(all, free', children', h);
    forall i | 0 <= i < |held'| ensures HeldOk(all, free', children', held'[i]) {
      if i < |held| { assert HeldOk(all, free, children, held[i]); }
    }
    forall i, j | 0 <= i < j < |held'| ensures Frames(held'[i]) !! Frames(held'[j]) {
      assert HeldOk(all, free, children, held[i]);
    }
    forall f | f in all ensures f in free' || HeldSomewhere(held', f) {
      if f in Frames(h) {
        assert held'[|held|] == h;
      } else if f !in free {
        assert HeldSomewhere(held, f);
        var i :| 0 <= i < |held| && f in Frames(held[i]);
        assert held'[i] == held[i];
      }
    }
  }

  function Without(held: seq<Held>, k: nat): seq<Held>
    requires k < |held|
  {
    held[..k] + held[k + 1..]
  }

  /** The children of a block of whole children are those whose first frame is in it. */
  lemma ChildIn(h: Held, k: nat)
    requires 9 <= h.order <= 12 && Aligned(h.frame, h.order)
    ensures IsWhole(k, h.order, h.frame) <==> 512 * k in Frames(h)
    ensures forall f: nat :: f in Frames(h) ==> IsWhole(ChildOf(f), h.order, h.frame)
  {
    var g := GroupOf(h.order, h.frame);
    PlaceInChild(k, 0, 512 * k);
    FrameInBlock(512 * k, ChildOf(h.frame), Huges(h.order));
    forall f: nat | f in Frames(h)
      ensures IsWhole(ChildOf(f), h.order, h.frame)
    {
      FrameInBlock(f, ChildOf(h.frame), Huges(h.order));
    }
  }

  /** Giving back block `g` does not touch child `k` of another block `h`. */
  lemma OtherChild(h: Held, g: Held, k: nat)
    requires 9 <= h.order <= 12 && g.order <= 12 && Aligned(h.frame, h.order) && Aligned(g.frame, g.order)
    requires Frames(h) !! Frames(g)
    requires IsWhole(k, h.order, h.frame)
    ensures if g.order < 9 then k != ChildOf(g.frame) else !IsWhole(k, g.order, g.frame)
  {
    ChildIn(h, k);
    if g.order < 9 {
      var b := GroupOf(h.order, h.frame);
      assert g.frame in Frames(g);
      FrameInBlock(g.frame, ChildOf(h.frame), Huges(h.order));
    } else {
      ChildIn(g, k);
    }
  }

  /** Giving back one block leaves every other held block as it was. */
  lemma StillHeld(all: set<nat>, free: set<nat>, children: seq<Child>, g: Held, h: Held, free': set<nat>,
                  children': seq<Child>)
    requires HeldOk(all, free, children, h) && HeldOk(all, free, children, g) && Frames(h) !! Frames(g)
    requires Gave(free, children, g.order, g.frame, free', children')
    ensures HeldOk(all, free', children', h)
  {
    if h.order >= 9 {
      forall k | ChildOf(h.frame) <= k < ChildOf(h.frame) + Huges(h.order)
        ensures children'[k] == HUGE_CHILD
      {
        OtherChild(h, g, k);
      }
    }
  }

  lemma WithoutApart(held: seq<Held>, k: nat)
    requires k < |held| && Apart(held)
    ensures Apart(Without(held, k))
  {}

  lemma WithoutFound(held: seq<Held>, k: nat, f: nat)
    requires k < |held| && held[k].order <= 12 && HeldSomewhere(held, f) && f !in Frames(held[k])
    ensures HeldSomewhere(Without(held, k), f)
  {
    var i :| 0 <= i < |held| && held[i].order <= 12 && f in Frames(held[i]);
    assert Without(held, k)[if i < k then i else i - 1] == held[i];
  }

  lemma GiveShares(all: set<nat>, free: set<nat>, children: seq<Child>, held: seq<Held>, k: nat, free': set<nat>,
                   children': seq<Child>)
    requires Shares(all, free, children, held) && k < |held| && held[k].order <= 12
    requires Gave(free, children, held[k].order, held[k].frame, free', children')
    ensures Shares(all, free', children', Without(held, k))
  {
    var held' := Without(held, k);
    var g := held[k];
    assert HeldOk(all, free, children, g);
    forall i | 0 <= i < |held'| ensures HeldOk(all, free', children', held'[i]) {
      var j := if i < k then i else i + 1;
      assert held'[i] == held[j];
      StillHeld(all, free, children, g, held[j], free', children');
    }
    WithoutApart(held, k);
    forall f | f in all ensures f in free' || HeldSomewhere(held', f) {
      if f !in free && f !in Frames(g) { WithoutFound(held, k, f); }
    }
  }

  /** A block none of whose frames is free, of huge children if it is of whole ones, can be given back without damage.
      */
  lemma HeldNotTorn(lower: Lower, frame: nat, order: nat)
    requires lower.Valid() && order <= 12 && Aligned(frame, order) && frame + Pow2(order) <= lower.frames
    requires Block(frame, Pow2(order)) !! lower.Free() && (order >= 9 ==> HugeBlock(lower.children, order, frame))
    ensures !lower.TornAt(frame, order, true)
  {
    if order < 9 && !lower.children[ChildOf(frame)].huge {
      AlignedInChild(frame, order);
      AllocatedIsSet(lower.frames, lower.children, lower.fields, frame, Pow2(order));
    }
  }

  lemma BlockEnd(all: set<nat>, frames: nat, frame: nat, n: nat)
    requires 0 < n && Block(frame, n) <= all && forall f :: f in all ==> f < frames
    ensures frame + n <= frames
  {
    assert frame + n - 1 in Block(frame, n);
  }

  lemma TakeStep(lower: Lower, all: set<nat>, free: set<nat>, children: seq<Child>, held: seq<Held>, h: Held)
    requires lower.Valid() && Shares(all, free, children, held) && h.order <= 12 && FreeRun(free, h.order, h.frame)
    requires |lower.children| == |children| && forall f :: f in all ==> f < lower.frames
    requires lower.Free() == free - Frames(h) && HugeKept(children, lower.children, h.order, h.frame)
    ensures Shares(all, lower.Free(), lower.children, held + [h])
  {
    BlockEnd(all, lower.frames, h.frame, Pow2(h.order));
    if h.order >= 9 { var g := GroupOf(h.order, h.frame); }
    TakeShares(all, free, children, held, h, lower.Free(), lower.children);
  }

  lemma GiveReady(a: LLFree, all: set<nat>, held: seq<Held>, k: nat)
    requires a.Valid() && k < |held| && Shares(all, a.lower.Free(), a.lower.children, held)
    requires forall f :: f in all ==> f < a.lower.frames
    ensures var h := held[k];
            h.order <= 12 && Aligned(h.frame, h.order) && h.frame + Pow2(h.order) <= a.lower.frames
            && Frames(h) !! a.lower.Free()
            && !a.lower.TornAt(h.frame, h.order, true)
            && (h.order >= 9 ==> HugeBlock(a.lower.children, h.order, h.frame))
  {
    var h := held[k];
    assert HeldOk(all, a.lower.Free(), a.lower.children, h);
    BlockEnd(all, a.lower.frames, h.frame, Pow2(h.order));
    HeldNotTorn(a.lower, h.frame, h.order);
  }

  /** The free frames and the held blocks at one time. */
  datatype Share = Share(free: set<nat>, held: seq<Held>)

  /** A configured class and slot. */
  predicate Named(lens: seq<Option<nat>>, cls: nat, local: Option<nat>)
    requires |lens| == MAX_CLASSES
  {
    cls < MAX_CLASSES && lens[cls].Some? && (local.Some? ==> local.value < lens[cls].value)
  }

  /** What one operation does: a request that is granted takes an aligned free block, the one asked for if it named one;
      a held block goes back, for anyone naming a configured class and slot; all else changes nothing. */
  ghost predicate Moved(lens: seq<Option<nat>>, s: Share, op: Op, ok: bool, s': Share)
    requires |lens| == MAX_CLASSES
  {
    match op
    case Take(at, request) =>
      if ok then
        && request.order <= 12 && |s'.held| == |s.held| + 1
        && var h := s'.held[|s.held|];
           && h.order == request.order && (at.Some? ==> h.frame == at.value) && FreeRun(s.free, h.order, h.frame)
           && s' == Share(s.free - Frames(h), s.held + [h])
      else s' == s
    case Give(which, cls, local) =>
      if which < |s.held| then
        && (ok <==> Named(lens, cls, local))
        && if ok then s.held[which].order <= 12 && s' == Share(s.free + Frames(s.held[which]), Without(s.held, which))
           else s' == s
      else s' == s
    case Empty => s' == s
  }

  ghost function Now(a: LLFree, held: seq<Held>): Share
    requires a.lower.Valid()
    reads a, a.lower
  {
    Share(a.lower.Free(), held)
  }

  /** One operation. */
  method Step(a: LLFree, op: Op, held: seq<Held>, ghost all: set<nat>) returns (ok: bool, held': seq<Held>)
    requires a.Valid() && Clean(a, op) && Shares(all, a.lower.Free(), a.lower.children, held)
    requires forall f :: f in all ==> f < a.lower.frames
    modifies a, a.lower
    ensures a.Valid() && a.lower.frames == old(a.lower.frames) && Shares(all, a.lower.Free(), a.lower.children, held')
    ensures Moved(a.lens, old(Now(a, held)), op, ok, Now(a, held'))
    ensures op.Take? && ok ==> old(a.ValidRequest(op.request, op.at))
    ensures op.Take? && op.at.None? && op.request.order == 0 && a.Simple() && old(a.ValidRequest(op.request, None)) ==>
              (ok <==> !old(a.Starved(op.request)))
    ensures op.Take? && op.at.None? && a.Simple() ==>
              (old(a.ValidRequest(op.request, None) && a.Served(op.request)) ==> ok)
    ensures op.Take? && op.at.Some? && op.request.order == 0 && a.Simple() && a.Tiled(old(|a.slots|))
            && old(a.ValidRequest(op.request, op.at)) ==>
              (ok <==> op.at.value in old(a.lower.Free()))
  {
    ok, held' := true, held;
    match op {
      case Take(at, request) =>
        var r := a.Get(at, request);
        ok := r.Ok?;
        if ok {
          var h := Held(r.frame, request.order);
          TakeStep(a.lower, all, old(a.lower.Free()), old(a.lower.children), held, h);
          held' := held + [h];
        }
      case Give(which, cls, local) =>
        if which < |held| {
          var h := held[which];
          GiveReady(a, all, held, which);
          var r := a.Put(h.frame, Request(h.order, cls, local));
          ok := r.Ok?;
          if ok {
            GiveShares(all, old(a.lower.Free()), old(a.lower.children), held, which, a.lower.Free(), a.lower.children);
            held' := Without(held, which);
          }
        }
      case Empty =>
        a.Drain();
    }
  }

  /** Every operation did what it should, and after each the free frames and the held blocks partition `all`. */
  ghost predicate Ran(lens: seq<Option<nat>>, all: set<nat>, ops: seq<Op>, oks: seq<bool>, shares: seq<Share>)
    requires |lens| == MAX_CLASSES
  {
    && |oks| == |ops| && |shares| == |ops| + 1 && shares[0] == Share(all, [])
    && (forall i :: 0 <= i < |ops| ==> Moved(lens, shares[i], ops[i], oks[i], shares[i + 1]))
    && (forall i :: 0 <= i < |shares| ==> Parts(all, shares[i].free, shares[i].held))
  }

  lemma RanOn(lens: seq<Option<nat>>, all: set<nat>, ops: seq<Op>, i: nat, oks: seq<bool>, shares: seq<Share>, ok: bool,
              s: Share)
    requires |lens| == MAX_CLASSES && i < |ops| && Ran(lens, all, ops[..i], oks, shares)
    requires Moved(lens, shares[i], ops[i], ok, s) && Parts(all, s.free, s.held)
    ensures Ran(lens, all, ops[..i + 1], oks + [ok], shares + [s])
  {}

  /** Any run, up to the first request that could damage the lower allocator in the state it meets: every operation
      takes or gives back the block it should, and at all times no frame is held twice or both held and free, none is
      lost, and every held block is aligned. Once everything has been given back the free frames are the ones of the
      beginning. */
  method Run(a: LLFree, ops: seq<Op>) returns (held: seq<Held>, oks: seq<bool>, ghost shares: seq<Share>)
    requires a.Valid()
    modifies a, a.lower
    ensures a.Valid() && |oks| <= |ops| && Ran(a.lens, old(a.lower.Free()), ops[..|oks|], oks, shares)
    ensures shares[|oks|] == Now(a, held)
    ensures held == [] ==> a.lower.Free() == old(a.lower.Free())
    ensures |oks| < |ops| ==> !Clean(a, ops[|oks|]) && !Covered(ops[|oks|])
  {
    held, oks := [], [];
    ghost var all := a.lower.Free();
    shares := [Share(all, [])];
    while |oks| < |ops| && Clean(a, ops[|oks|])
      invariant |oks| <= |ops| && a.Valid() && a.lower.frames == old(a.lower.frames)
      invariant Shares(all, a.lower.Free(), a.lower.children, held)
      invariant Ran(a.lens, all, ops[..|oks|], oks, shares) && shares[|oks|] == Now(a, held)
      decreases |ops| - |oks|
    {
      var ok, after := Step(a, ops[|oks|], held, all);
      RanOn(a.lens, all, ops, |oks|, oks, shares, ok, Now(a, after));
      held, oks, shares := after, oks + [ok], shares + [Now(a, after)];
    }
    if |oks| < |ops| && Covered(ops[|oks|]) { CoveredIsClean(a, ops[|oks|]); }
    if held == [] { assert forall f :: f in all ==> !HeldSomewhere(held, f); }
  }
}
