/**
 * The heap under any number of threads on any CPUs: a `kmalloc` or `kfree` is one or more steps (the part that runs on
 * one CPU, the part under the lock, the claim), and the steps interleave freely.
 */
module HeapRuns {
  import opened HeapBlocks
  import opened HeapBins
  import opened KernelHeap

  /** Where a thread is. */
  datatype Thread =
    | Idle
    | Asking(request: nat) // nothing in the cache; next: the locked part of `kmalloc`
    | Freeing(block: nat)  // claimed; next: the cache
    | Merging(block: nat)  // claimed, not for the cache; next: the locked part of `kfree`

  datatype Choice = Ask(request: nat) | Give(ptr: nat)

  /** Thread `thread` makes a step on CPU `cpu`; `choice` is what it starts if it is idle, and `mapped` whether the
      pages can be had if the heap must grow. */
  datatype Event = Event(thread: nat, cpu: nat, choice: Choice, mapped: bool)

  /** What a step did for the callers: a block is theirs until its free begins. */
  datatype Deed = HandedOut(block: nat, request: nat) | Freed(block: nat) | Nothing

  /** The blocks that callers have, with what they asked for, after one more deed. */
  function After(held: map<nat, nat>, deed: Deed): map<nat, nat> {
    match deed
    case HandedOut(a, request) => held[a := request]
    case Freed(a) => held - {a}
    case Nothing => held
  }

  function Replay(deeds: seq<Deed>): map<nat, nat> {
    if deeds == [] then map[] else After(Replay(deeds[..|deeds| - 1]), deeds[|deeds| - 1])
  }

  predicate Claims(x: Thread, a: nat) {
    (x.Freeing? || x.Merging?) && x.block == a
  }

  ghost predicate ClaimedBy(threads: seq<Thread>, a: nat) {
    exists t :: 0 <= t < |threads| && Claims(threads[t], a)
  }

  /** The claimed blocks are those the threads are freeing, each one thread's. */
  ghost predicate ClaimsOk(live: map<nat, Piece>, threads: seq<Thread>) {
    && (forall t, a :: 0 <= t < |threads| && Claims(threads[t], a) ==> a in live && live[a].claimed)
    && (forall t, u, a :: 0 <= t < |threads| && 0 <= u < |threads| && Claims(threads[t], a) && Claims(threads[u], a) ==>
         t == u)
    && (forall a :: a in live && live[a].claimed ==> ClaimedBy(threads, a))
  }

  /** The other live blocks are those handed out and not freed; each is as large as was asked for. */
  ghost predicate HeldOk(live: map<nat, Piece>, held: map<nat, nat>) {
    && (forall a :: a in held ==> a in live && !live[a].claimed && held[a] <= live[a].size)
    && (forall a :: a in live && !live[a].claimed ==> a in held)
  }

  ghost predicate Accounted(live: map<nat, Piece>, threads: seq<Thread>, held: map<nat, nat>) {
    && ClaimsOk(live, threads) && HeldOk(live, held)
    && forall t :: 0 <= t < |threads| && threads[t].Asking? ==> 0 < threads[t].request <= CAPACITY
  }

  datatype Moment = Moment(hdrs: Hdrs, brk: nat, caches: Caches, threads: seq<Thread>)

  /** What a thread at `x` does next on CPU `cpu`: the deed, and where it is then. Only the address of a new block is
      left open. */
  ghost predicate Next(m: Moment, cpu: nat, choice: Choice, mapped: bool, x: Thread, deed: Deed, y: Thread) {
    match x
    case Idle =>
      (match choice
       case Ask(request) =>
         if request == 0 || request > CAPACITY then deed == Nothing && y == Idle
         else if CacheServes(Round16(request), m.caches, cpu) then
           deed == HandedOut(m.caches[cpu][Round16(request) / 16 - 1][0], request) && y == Idle
         else deed == Nothing && y == Asking(request)
       case Give(ptr) =>
         if ptr >= HDR && Has(m.hdrs, ptr - HDR, Used) then deed == Freed(ptr - HDR) && y == Freeing(ptr - HDR)
         else deed == Nothing && y == Idle)
    case Asking(request) =>
      var size := Round16(request);
      && y == Idle
      && if NoneFits(m.hdrs, size) && !(mapped && CanGrow(m.brk, size)) then deed == Nothing
         else deed.HandedOut? && deed.request == request
    case Freeing(a) =>
      deed == Nothing && a in m.hdrs && y == if Cacheable(m.hdrs[a].size, m.caches, cpu) then Idle else Merging(a)
    case Merging(a) => deed == Nothing && y == Idle
  }

  /** What a step does to the live blocks. */
  ghost predicate Changed(live: map<nat, Piece>, x: Thread, deed: Deed, y: Thread, live': map<nat, Piece>) {
    match deed
    case HandedOut(a, request) =>
      a !in live && a in live' && request <= live'[a].size && live' == live[a := Piece(live'[a].size, false)]
    case Freed(a) => a in live && !live[a].claimed && live' == live[a := Piece(live[a].size, true)]
    case Nothing => live' == if (x.Freeing? || x.Merging?) && y.Idle? then live - {x.block} else live
  }

  ghost predicate Moved(m: Moment, e: Event, deed: Deed, m': Moment) {
    && e.thread < |m.threads| == |m'.threads|
    && var x, y := m.threads[e.thread], m'.threads[e.thread];
       && m'.threads == m.threads[e.thread := y] && |m'.caches| == |m.caches|
       && Next(m, e.cpu, e.choice, e.mapped, x, deed, y)
       && Changed(Live(m.hdrs), x, deed, y, Live(m'.hdrs))
  }

  lemma GiveBlock(live: map<nat, Piece>, threads: seq<Thread>, held: map<nat, nat>, t: nat, a: nat, size: nat,
                  request: nat)
    requires Accounted(live, threads, held) && t < |threads| && !threads[t].Freeing? && !threads[t].Merging?
    requires a !in live && request <= size
    ensures Accounted(live[a := Piece(size, false)], threads[t := Idle], held[a := request])
  {
    var threads' := threads[t := Idle];
    forall x | x in live && live[x].claimed ensures ClaimedBy(threads', x) {
      var u :| 0 <= u < |threads| && Claims(threads[u], x);
      assert Claims(threads'[u], x);
    }
  }

  lemma ClaimBlock(live: map<nat, Piece>, threads: seq<Thread>, held: map<nat, nat>, t: nat, a: nat)
    requires Accounted(live, threads, held) && t < |threads| && threads[t].Idle? && a in live && !live[a].claimed
    ensures Accounted(live[a := Piece(live[a].size, true)], threads[t := Freeing(a)], held - {a})
  {
    var threads' := threads[t := Freeing(a)];
    assert Claims(threads'[t], a);
    forall x | x in live && live[x].claimed ensures ClaimedBy(threads', x) {
      var u :| 0 <= u < |threads| && Claims(threads[u], x);
      assert Claims(threads'[u], x);
    }
  }

  lemma DropBlock(live: map<nat, Piece>, threads: seq<Thread>, held: map<nat, nat>, t: nat, a: nat)
    requires Accounted(live, threads, held) && t < |threads| && Claims(threads[t], a)
    ensures Accounted(live - {a}, threads[t := Idle], held)
  {
    var threads' := threads[t := Idle];
    forall x | x in live && live[x].claimed && x != a ensures ClaimedBy(threads', x) {
      var u :| 0 <= u < |threads| && Claims(threads[u], x);
      assert Claims(threads'[u], x);
    }
  }

  /** A thread moves on with what it has. */
  lemma MoveOn(live: map<nat, Piece>, threads: seq<Thread>, held: map<nat, nat>, t: nat, x: Thread)
    requires Accounted(live, threads, held) && t < |threads| && (x.Asking? ==> 0 < x.request <= CAPACITY)
    requires forall a :: Claims(x, a) <==> Claims(threads[t], a)
    ensures Accounted(live, threads[t := x], held)
  {
    var threads' := threads[t := x];
    forall a | a in live && live[a].claimed ensures ClaimedBy(threads', a) {
      var u :| 0 <= u < |threads| && Claims(threads[u], a);
      assert Claims(threads'[u], a);
    }
  }

  /** A step that does what it should leaves everything accounted for. */
  lemma StepAccounts(m: Moment, cpu: nat, choice: Choice, mapped: bool, held: map<nat, nat>, t: nat, deed: Deed,
                     y: Thread, live': map<nat, Piece>)
    requires t < |m.threads| && Accounted(Live(m.hdrs), m.threads, held)
    requires Next(m, cpu, choice, mapped, m.threads[t], deed, y) && Changed(Live(m.hdrs), m.threads[t], deed, y, live')
    ensures Accounted(live', m.threads[t := y], After(held, deed))
  {
    var live, threads := Live(m.hdrs), m.threads;
    match deed {
      case HandedOut(a, request) => GiveBlock(live, threads, held, t, a, live'[a].size, request);
      case Freed(a) => ClaimBlock(live, threads, held, t, a);
      case Nothing =>
        if (threads[t].Freeing? || threads[t].Merging?) && y.Idle? {
          DropBlock(live, threads, held, t, threads[t].block);
        } else {
          MoveOn(live, threads, held, t, y);
        }
    }
  }

  ghost function Now(h: Heap, threads: seq<Thread>): Moment
    reads h
  {
    Moment(h.hdrs, h.brk, h.caches, threads)
  }

  /** A request of an idle thread: the part of `kmalloc` that runs on one CPU. */
  method StartAsk(h: Heap, cpu: nat, request: nat, ghost mapped: bool, ghost threads: seq<Thread>)
    returns (deed: Deed, y: Thread)
    requires h.Valid() && cpu < |h.caches|
    modifies h, h.lists
    ensures h.Valid() && |h.caches| == |old(h.caches)|
    ensures Next(old(Now(h, threads)), cpu, Ask(request), mapped, Idle, deed, y)
    ensures Changed(old(Live(h.hdrs)), Idle, deed, y, Live(h.hdrs))
  {
    deed, y := Nothing, Idle;
    if request == 0 || request > CAPACITY { return; }
    var size := Round16(request);
    if size <= 16 * CLASS_COUNT {
      var a, ok := h.TakeFromCache(cpu, size);
      if ok { return HandedOut(a, request), Idle; }
    }
    y := Asking(request);
  }

  /** A free by an idle thread: the claim of `kfree`. What is not a block in use is left alone. */
  method StartGive(h: Heap, cpu: nat, ptr: nat, ghost mapped: bool, ghost threads: seq<Thread>)
    returns (deed: Deed, y: Thread)
    requires h.Valid()
    modifies h, h.lists
    ensures h.Valid() && h.caches == old(h.caches)
    ensures Next(old(Now(h, threads)), cpu, Give(ptr), mapped, Idle, deed, y)
    ensures Changed(old(Live(h.hdrs)), Idle, deed, y, Live(h.hdrs))
  {
    deed, y := Nothing, Idle;
    if ptr < HDR || ptr - HDR !in h.hdrs { return; }
    var a := ptr - HDR;
    var ok := h.Claim(a);
    if ok { deed, y := Freed(a), Freeing(a); }
  }

  /** The locked part of `kmalloc`. */
  method FinishAsk(h: Heap, cpu: nat, choice: Choice, mapped: bool, request: nat, ghost threads: seq<Thread>)
    returns (deed: Deed)
    requires h.Valid() && 0 < request <= CAPACITY
    modifies h, h.lists
    ensures h.Valid() && h.caches == old(h.caches)
    ensures Next(old(Now(h, threads)), cpu, choice, mapped, Asking(request), deed, Idle)
    ensures Changed(old(Live(h.hdrs)), Asking(request), deed, Idle, Live(h.hdrs))
  {
    var a, ok := h.MallocLocked(Round16(request), mapped);
    deed := if ok then HandedOut(a, request) else Nothing;
  }

  /** The rest of `kfree`: to the cache, or under the lock to a bin. */
  method FinishGive(h: Heap, cpu: nat, choice: Choice, ghost mapped: bool, x: Thread, ghost threads: seq<Thread>)
    returns (y: Thread)
    requires h.Valid() && cpu < |h.caches| && (x.Freeing? || x.Merging?) && Has(h.hdrs, x.block, Claimed)
    modifies h, h.lists
    ensures h.Valid() && |h.caches| == |old(h.caches)|
    ensures Next(old(Now(h, threads)), cpu, choice, mapped, x, Nothing, y)
    ensures Changed(old(Live(h.hdrs)), x, Nothing, y, Live(h.hdrs))
  {
    y := Idle;
    if x.Merging? {
      h.FreeToBins(x.block);
      return;
    }
    var ok := h.FreeToCache(cpu, x.block);
    if !ok { y := Merging(x.block); }
  }

  method Act(h: Heap, e: Event, x: Thread, ghost threads: seq<Thread>) returns (deed: Deed, y: Thread)
    requires h.Valid() && e.cpu < |h.caches| && (x.Asking? ==> 0 < x.request <= CAPACITY)
    requires x.Freeing? || x.Merging? ==> Has(h.hdrs, x.block, Claimed)
    modifies h, h.lists
    ensures h.Valid() && |h.caches| == |old(h.caches)|
    ensures Next(old(Now(h, threads)), e.cpu, e.choice, e.mapped, x, deed, y)
    ensures Changed(old(Live(h.hdrs)), x, deed, y, Live(h.hdrs))
  {
    deed, y := Nothing, Idle;
    if x.Idle? {
      match e.choice {
        case Ask(request) => deed, y := StartAsk(h, e.cpu, request, e.mapped, threads);
        case Give(ptr) => deed, y := StartGive(h, e.cpu, ptr, e.mapped, threads);
      }
    } else if x.Asking? {
      deed := FinishAsk(h, e.cpu, e.choice, e.mapped, x.request, threads);
    } else {
      y := FinishGive(h, e.cpu, e.choice, e.mapped, x, threads);
    }
  }

  lemma ClaimedBlock(hdrs: Hdrs, threads: seq<Thread>, held: map<nat, nat>, t: nat)
    requires Accounted(Live(hdrs), threads, held) && t < |threads|
    ensures threads[t].Freeing? || threads[t].Merging? ==> Has(hdrs, threads[t].block, Claimed)
  {
    if threads[t].Freeing? || threads[t].Merging? {
      assert Claims(threads[t], threads[t].block);
      LiveIs(hdrs, threads[t].block);
    }
  }

  /** One step of a thread. */
  method Step(h: Heap, e: Event, threads: seq<Thread>, ghost held: map<nat, nat>)
    returns (deed: Deed, threads': seq<Thread>)
    requires h.Valid() && e.cpu < |h.caches| && e.thread < |threads| && Accounted(Live(h.hdrs), threads, held)
    modifies h, h.lists
    ensures h.Valid() && Moved(old(Now(h, threads)), e, deed, Now(h, threads'))
    ensures Accounted(Live(h.hdrs), threads', After(held, deed))
  {
    ghost var m := Now(h, threads);
    ClaimedBlock(h.hdrs, threads, held, e.thread);
    var y;
    deed, y := Act(h, e, threads[e.thread], threads);
    threads' := threads[e.thread := y];
    StepAccounts(m, e.cpu, e.choice, e.mapped, held, e.thread, deed, y, Live(h.hdrs));
  }

  predicate AllIdle(threads: seq<Thread>) {
    forall t :: 0 <= t < |threads| ==> threads[t].Idle?
  }

  lemma AtRest(live: map<nat, Piece>, threads: seq<Thread>, held: map<nat, nat>)
    requires Accounted(live, threads, held) && AllIdle(threads)
    ensures live.Keys == held.Keys && forall a :: a in live ==> !live[a].claimed
  {}

  /** Every step of the run did what it should. */
  ghost predicate HeapRun(events: seq<Event>, deeds: seq<Deed>, moments: seq<Moment>) {
    && |deeds| == |events| && |moments| == |events| + 1
    && forall i :: 0 <= i < |events| ==> Moved(moments[i], events[i], deeds[i], moments[i + 1])
  }

  /** Only what callers do not have is handed out, and only what they have is freed. */
  ghost predicate Orderly(deeds: seq<Deed>) {
    && (forall i :: 0 <= i < |deeds| && deeds[i].HandedOut? ==> deeds[i].block !in Replay(deeds[..i]))
    && (forall i :: 0 <= i < |deeds| && deeds[i].Freed? ==> deeds[i].block in Replay(deeds[..i]))
  }

  predicate Hands(deed: Deed, a: nat) { deed.HandedOut? && deed.block == a }

  /** A block callers have was handed out for what is recorded, and not freed since. */
  lemma {:induction false} LastHandOut(deeds: seq<Deed>, a: nat) returns (i: nat)
    requires a in Replay(deeds)
    ensures i < |deeds| && deeds[i] == HandedOut(a, Replay(deeds)[a])
    ensures forall k :: i < k < |deeds| ==> deeds[k] != Freed(a) && !Hands(deeds[k], a)
  {
    var n := |deeds| - 1;
    if Hands(deeds[n], a) {
      i := n;
    } else {
      i := LastHandOut(deeds[..n], a);
    }
  }

  /** A block once handed out stays the caller's until it is freed. */
  lemma {:induction false} StillTheirs(deeds: seq<Deed>, i: nat, a: nat)
    requires i < |deeds| && Hands(deeds[i], a) && forall k :: i < k < |deeds| ==> deeds[k] != Freed(a)
    ensures a in Replay(deeds)
  {
    if i < |deeds| - 1 { StillTheirs(deeds[..|deeds| - 1], i, a); }
  }

  /** Between two hand-outs of a block it was freed. */
  lemma FreedBetween(deeds: seq<Deed>, i: nat, j: nat, a: nat) returns (k: nat)
    requires Orderly(deeds) && i < j < |deeds| && Hands(deeds[i], a) && Hands(deeds[j], a)
    ensures i < k < j && deeds[k] == Freed(a)
  {
    if forall k :: i < k < j ==> deeds[k] != Freed(a) { StillTheirs(deeds[..j], i, a); }
    k :| i < k < j && deeds[k] == Freed(a);
  }

  /** Between two frees of a block it was handed out. */
  lemma HandedBetween(deeds: seq<Deed>, i: nat, j: nat, a: nat) returns (k: nat)
    requires Orderly(deeds) && i < j < |deeds| && deeds[i] == Freed(a) && deeds[j] == Freed(a)
    ensures i < k < j && Hands(deeds[k], a)
  {
    k := LastHandOut(deeds[..j], a);
  }

  /** All is in order at the end of the run. */
  ghost predicate RunOk(events: seq<Event>, deeds: seq<Deed>, moments: seq<Moment>) {
    && HeapRun(events, deeds, moments) && Orderly(deeds)
    && Accounted(Live(moments[|events|].hdrs), moments[|events|].threads, Replay(deeds))
  }

  lemma OrderlyOn(live: map<nat, Piece>, threads: seq<Thread>, deeds: seq<Deed>, x: Thread, deed: Deed, y: Thread,
                  live': map<nat, Piece>)
    requires Orderly(deeds) && Accounted(live, threads, Replay(deeds)) && Changed(live, x, deed, y, live')
    ensures Orderly(deeds + [deed]) && Replay(deeds + [deed]) == After(Replay(deeds), deed)
  {
    var all := deeds + [deed];
    assert all[..|deeds|] == deeds;
    forall i | 0 <= i < |deeds| ensures all[..i] == deeds[..i] {}
  }

  lemma RunOn(events: seq<Event>, deeds: seq<Deed>, moments: seq<Moment>, e: Event, deed: Deed, m: Moment)
    requires RunOk(events, deeds, moments) && Moved(moments[|events|], e, deed, m)
    requires Accounted(Live(m.hdrs), m.threads, After(Replay(deeds), deed))
    ensures RunOk(events + [e], deeds + [deed], moments + [m])
  {
    var last := moments[|events|];
    OrderlyOn(Live(last.hdrs), last.threads, deeds, last.threads[e.thread], deed, m.threads[e.thread], Live(m.hdrs));
  }

  lemma RunFurther(events: seq<Event>, i: nat, deeds: seq<Deed>, moments: seq<Moment>, deed: Deed, m: Moment)
    requires i < |events| && RunOk(events[..i], deeds, moments) && Moved(moments[i], events[i], deed, m)
    requires Accounted(Live(m.hdrs), m.threads, After(Replay(deeds), deed))
    ensures RunOk(events[..i + 1], deeds + [deed], moments + [m])
  {
    assert events[..i + 1] == events[..i] + [events[i]];
    RunOn(events[..i], deeds, moments, events[i], deed, m);
  }

  lemma RunStarts(m: Moment, n: nat)
    requires Live(m.hdrs) == map[] && m.threads == seq(n, _ => Idle)
    ensures RunOk([], [], [m])
  {}

  lemma WholeRun(events: seq<Event>)
    ensures events[..|events|] == events
  {}

  /** Every interleaving of allocating and freeing threads on any CPUs. Each step does what it should; the heap stays
      in order (blocks tile it, bins and caches hold what they should, the totals differ by the live blocks); a block
      is handed out only when no caller has it and freed only when one has, so once for each time it was handed out;
      and the live blocks are those handed out and not freed, each as large as asked for, and those being freed, each
      by one thread. */
  method Run(cpus: nat, n: nat, events: seq<Event>)
    returns (h: Heap, threads: seq<Thread>, deeds: seq<Deed>, ghost moments: seq<Moment>)
    requires forall i :: 0 <= i < |events| ==> events[i].cpu < cpus && events[i].thread < n
    ensures h.Valid() && HeapRun(events, deeds, moments) && moments[|events|] == Now(h, threads)
    ensures moments[0].threads == seq(n, _ => Idle) && Live(moments[0].hdrs) == map[]
    ensures Orderly(deeds) && Accounted(Live(h.hdrs), threads, Replay(deeds))
    ensures AllIdle(threads) ==> Live(h.hdrs).Keys == Replay(deeds).Keys
  {
    h := new Heap(cpus);
    threads, deeds := seq(n, _ => Idle), [];
    ghost var first := Now(h, threads);
    moments := [first];
    RunStarts(first, n);
    for i := 0 to |events|
      invariant h.Valid() && fresh(h) && fresh(h.lists) && |h.caches| == cpus && |threads| == n
      invariant RunOk(events[..i], deeds, moments) && moments[0] == first && moments[i] == Now(h, threads)
    {
      var deed, after := Step(h, events[i], threads, Replay(deeds));
      RunFurther(events, i, deeds, moments, deed, Now(h, after));
      threads, deeds, moments := after, deeds + [deed], moments + [Now(h, after)];
    }
    WholeRun(events);
    if AllIdle(threads) { AtRest(Live(h.hdrs), threads, Replay(deeds)); }
  }
}
