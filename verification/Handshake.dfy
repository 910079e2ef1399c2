/**
 * The handshake between walks over user memory (accessors) and changes of an address space (mutators):
 * `user_accessors`, `user_mutating` and `fault_lock`. Every atomic operation is one step, and the
 * steps of any number of threads interleave freely.
 */
module Handshake {

  const MAX_ATTEMPTS := 1000000

  /** Where a thread is. `seen` is the number of mutations when the walk got in. */
  datatype Thread =
    | Outside
    | Cleared                             // accessor: saw no mutator; next: count itself
    | Counted                             // accessor: counted; next: look for a mutator again
    | Retreating                          // accessor: saw a mutator; next: uncount itself
    | Locking(seen: nat)                  // accessor: in; next: take the fault lock
    | Walking(seen: nat)                  // accessor: in, with the fault lock
    | Leaving(seen: nat)                  // accessor: fault lock released; next: uncount itself
    | Trying(attempt: nat)                // mutator: next: compare-and-swap
    | Probing(attempt: nat)               // mutator: owns the flag; next: look for accessors
    | Refusing(attempt: nat)              // mutator: saw accessors; next: clear the flag
    | Mutating                            // mutator: allowed to change the space
    | GaveUp                              // mutator: all attempts used, returned false

  /** The words of the space that the threads share, and how often the space was changed. */
  datatype Words = Words(accessors: int, mutating: bool, locked: bool, mutations: nat)

  datatype State = State(threads: seq<Thread>, words: Words)

  /** What an idle thread starts, and whether a mutator changes something or ends. */
  datatype Choice = Access | Mutate | Change | End

  predicate IsInside(x: Thread) {
    x.Locking? || x.Walking? || x.Leaving?
  }

  /** Threads that have counted themselves in. */
  predicate IsCounted(x: Thread) {
    x.Counted? || x.Retreating? || IsInside(x)
  }

  /** Threads that own the flag. */
  predicate OwnsFlag(x: Thread) {
    x.Probing? || x.Refusing? || x.Mutating?
  }

  function Seen(x: Thread): nat
    requires IsInside(x)
  {
    x.seen
  }

  function NextAttempt(attempt: nat): Thread {
    if attempt + 1 < MAX_ATTEMPTS then Trying(attempt + 1) else GaveUp
  }

  /** One atomic operation of a thread: where it is next, and the words after it. */
  function Act(x: Thread, w: Words, choice: Choice): (Thread, Words) {
    match x
    case Outside => (if choice == Access && !w.mutating then Cleared else if choice == Mutate then Trying(0) else Outside, w)
    case Cleared => (Counted, w.(accessors := w.accessors + 1))
    case Counted => (if w.mutating then Retreating else Locking(w.mutations), w)
    case Retreating => (Outside, w.(accessors := w.accessors - 1))
    case Locking(v) => if w.locked then (x, w) else (Walking(v), w.(locked := true))
    case Walking(v) => (Leaving(v), w.(locked := false))
    case Leaving(_) => (Outside, w.(accessors := w.accessors - 1))
    case Trying(n) => if w.mutating then (NextAttempt(n), w) else (Probing(n), w.(mutating := true))
    case Probing(n) => (if w.accessors == 0 then Mutating else Refusing(n), w)
    case Refusing(n) => (NextAttempt(n), w.(mutating := false))
    case Mutating =>
      if choice == Change then (x, w.(mutations := w.mutations + 1))
      else if choice == End then (Outside, w.(mutating := false))
      else (x, w)
    case GaveUp => (Outside, w)
  }

  function Step(s: State, t: nat, choice: Choice): State {
    if t >= |s.threads| then s
    else
      var (y, w) := Act(s.threads[t], s.words, choice);
      State(s.threads[t := y], w)
  }

  /** The three things threads can hold. */
  datatype Claim = Reference | Flag | Lock

  predicate Holds(x: Thread, k: Claim) {
    match k
    case Reference => IsCounted(x)
    case Flag => OwnsFlag(x)
    case Lock => x.Walking?
  }

  /** Number of threads that hold a claim. */
  ghost function Count(threads: seq<Thread>, k: Claim): nat {
    if threads == [] then 0 else Count(threads[..|threads| - 1], k) + (if Holds(threads[|threads| - 1], k) then 1
                                                                       else 0)
  }

  lemma {:induction false} CountUpdate(threads: seq<Thread>, t: nat, x: Thread, k: Claim)
    requires t < |threads|
    ensures Count(threads[t := x], k) == Count(threads, k) - (if Holds(threads[t], k) then 1
                                                              else 0) + (if Holds(x, k) then 1 else 0)
  {
    var last := |threads| - 1;
    if t == last {
      assert threads[t := x][..last] == threads[..last];
    } else {
      CountUpdate(threads[..last], t, x, k);
      assert threads[t := x][..last] == threads[..last][t := x];
    }
  }

  lemma {:induction false} CountZero(threads: seq<Thread>, k: Claim)
    ensures Count(threads, k) == 0 <==> forall t :: 0 <= t < |threads| ==> !Holds(threads[t], k)
  {
    if threads != [] {
      var last := |threads| - 1;
      CountZero(threads[..last], k);
      assert forall t :: 0 <= t < last ==> threads[..last][t] == threads[t];
    }
  }

  lemma CountOne(threads: seq<Thread>, k: Claim, t: nat, u: nat)
    requires Count(threads, k) <= 1 && t < |threads| && u < |threads| && Holds(threads[t], k) && Holds(threads[u], k)
    ensures t == u
  {
    CountUpdate(threads, t, Outside, k);
    CountZero(threads[t := Outside], k);
  }

  function One(b: bool): nat {
    if b then 1 else 0
  }

  /** The words say who holds what. */
  ghost predicate Counts(threads: seq<Thread>, w: Words) {
    && w.accessors == Count(threads, Reference)
    && One(w.mutating) == Count(threads, Flag)
    && One(w.locked) == Count(threads, Lock)
  }

  /** A walk sees no mutation since it got in. */
  ghost predicate Undisturbed(x: Thread, w: Words) {
    IsInside(x) ==> Seen(x) == w.mutations
  }

  ghost predicate Inv(s: State) {
    && Counts(s.threads, s.words)
    && (forall t :: 0 <= t < |s.threads| ==> Undisturbed(s.threads[t], s.words))
    && (forall t, u :: 0 <= t < |s.threads| && 0 <= u < |s.threads| && s.threads[t].Mutating? ==>
         !IsInside(s.threads[u]))
  }

  /** An operation moves the words exactly as it moves the thread's claims. */
  lemma ActCounts(x: Thread, w: Words, choice: Choice)
    requires OwnsFlag(x) ==> w.mutating
    requires x.Walking? ==> w.locked
    ensures var (y, w') := Act(x, w, choice);
            && w'.accessors == w.accessors + One(Holds(y, Reference)) - One(Holds(x, Reference))
            && One(w'.mutating) == One(w.mutating) + One(Holds(y, Flag)) - One(Holds(x, Flag))
            && One(w'.locked) == One(w.locked) + One(Holds(y, Lock)) - One(Holds(x, Lock))
  {}

  /** Getting in needs a clear flag, becoming a mutator needs no accessors, and only mutators mutate. */
  lemma ActGuards(x: Thread, w: Words, choice: Choice)
    requires Undisturbed(x, w)
    ensures var (y, w') := Act(x, w, choice);
            && Undisturbed(y, w') && w'.mutations >= w.mutations
            && (IsInside(y) && !IsInside(x) ==> !w.mutating)
            && (y.Mutating? && !x.Mutating? ==> w.accessors == 0)
            && (w'.mutations != w.mutations ==> x.Mutating?)
  {}

  lemma StepCounts(s: State, t: nat, choice: Choice)
    requires Counts(s.threads, s.words)
    ensures var s' := Step(s, t, choice); Counts(s'.threads, s'.words)
  {
    if t < |s.threads| {
      var x, y := s.threads[t], Act(s.threads[t], s.words, choice).0;
      CountZero(s.threads, Flag);
      CountZero(s.threads, Lock);
      ActCounts(x, s.words, choice);
      CountUpdate(s.threads, t, y, Reference);
      CountUpdate(s.threads, t, y, Flag);
      CountUpdate(s.threads, t, y, Lock);
    }
  }

  /** Every step of every thread keeps the invariant. */
  lemma StepKeeps(s: State, t: nat, choice: Choice)
    requires Inv(s)
    ensures Inv(Step(s, t, choice))
  {
    StepCounts(s, t, choice);
    if t < |s.threads| {
      var x := s.threads[t];
      ActGuards(x, s.words, choice);
      CountZero(s.threads, Reference);
      CountZero(s.threads, Flag);
      assert forall u :: 0 <= u < |s.threads| && IsInside(s.threads[u]) ==> Holds(s.threads[u], Reference);
      assert forall u :: 0 <= u < |s.threads| && s.threads[u].Mutating? ==> Holds(s.threads[u], Flag);
    }
  }

  // ---- whole runs ----

  function Exec(s: State, schedule: seq<(nat, Choice)>): State {
    if schedule == [] then s
    else
      var last := schedule[|schedule| - 1];
      Step(Exec(s, schedule[..|schedule| - 1]), last.0, last.1)
  }

  ghost predicate Initial(s: State) {
    (forall t :: 0 <= t < |s.threads| ==>
         s.threads[t].Outside?) && !s.words.mutating && !s.words.locked && s.words.accessors == 0
  }

  lemma {:induction false} ExecKeeps(s: State, schedule: seq<(nat, Choice)>)
    requires Initial(s)
    ensures Inv(Exec(s, schedule)) && |Exec(s, schedule).threads| == |s.threads|
  {
    if schedule == [] {
      CountZero(s.threads, Reference);
      CountZero(s.threads, Flag);
      CountZero(s.threads, Lock);
    } else {
      var last := schedule[|schedule| - 1];
      ExecKeeps(s, schedule[..|schedule| - 1]);
      StepKeeps(Exec(s, schedule[..|schedule| - 1]), last.0, last.1);
    }
  }

  /** In every interleaving: a walk and a mutator never overlap, at most one mutator is admitted, and at
      most one walk holds the fault lock. */
  lemma Exclusion(s: State, schedule: seq<(nat, Choice)>, t: nat, u: nat)
    requires Initial(s) && t < |s.threads| && u < |s.threads| && t != u
    ensures var now := Exec(s, schedule);
            && |now.threads| == |s.threads|
            && !(now.threads[t].Mutating? && (IsInside(now.threads[u]) || now.threads[u].Mutating?))
            && !(now.threads[t].Walking? && now.threads[u].Walking?)
  {
    var now := Exec(s, schedule);
    ExecKeeps(s, schedule);
    if now.threads[t].Mutating? && now.threads[u].Mutating? { CountOne(now.threads, Flag, t, u); }
    if now.threads[t].Walking? && now.threads[u].Walking? { CountOne(now.threads, Lock, t, u); }
  }

  /** In every interleaving: from the moment a walk gets in until it leaves, the space is not changed. */
  lemma WalkSeesOneSpace(s: State, schedule: seq<(nat, Choice)>, t: nat)
    requires Initial(s) && t < |s.threads|
    ensures var now := Exec(s, schedule);
            |now.threads| == |s.threads| && (IsInside(now.threads[t]) ==> Seen(now.threads[t]) == now.words.mutations)
  {
    ExecKeeps(s, schedule);
    assert Undisturbed(Exec(s, schedule).threads[t], Exec(s, schedule).words);
  }

  /** In every interleaving: when all threads are outside again, or have given up, nothing is left behind,
      so a refused mutator blocks nobody. */
  lemma NothingLeftBehind(s: State, schedule: seq<(nat, Choice)>)
    requires Initial(s)
    requires forall t :: 0 <= t < |Exec(s, schedule).threads| ==>
              Exec(s, schedule).threads[t].Outside? || Exec(s, schedule).threads[t].GaveUp?
    ensures var w := Exec(s, schedule).words; w.accessors == 0 && !w.mutating && !w.locked
  {
    var now := Exec(s, schedule);
    ExecKeeps(s, schedule);
    CountZero(now.threads, Reference);
    CountZero(now.threads, Flag);
    CountZero(now.threads, Lock);
  }

  // ---- who is admitted ----

  /** No thread but `t` holds the claim. */
  predicate NoOther(threads: seq<Thread>, t: nat, k: Claim) {
    forall u :: 0 <= u < |threads| && u != t ==> !Holds(threads[u], k)
  }

  /** The words tell a thread whether another holds a claim that it does not hold itself ... */
  lemma WordsTell(s: State, t: nat)
    requires Inv(s) && t < |s.threads|
    ensures !OwnsFlag(s.threads[t]) ==> (s.words.mutating <==> !NoOther(s.threads, t, Flag))
    ensures !IsCounted(s.threads[t]) ==> (s.words.accessors == 0 <==> NoOther(s.threads, t, Reference))
    ensures !s.threads[t].Walking? ==> (s.words.locked <==> !NoOther(s.threads, t, Lock))
  {
    CountZero(s.threads, Reference);
    CountZero(s.threads, Flag);
    CountZero(s.threads, Lock);
  }

  /** In every interleaving: a walk that counted itself gets in exactly when nobody owns the flag at its second look,
      and has the fault lock at once exactly when no other walk has it; a mutator gets the flag exactly when nobody
      owns it, and with it is admitted exactly when no thread is counted in. */
  lemma Admission(s: State, schedule: seq<(nat, Choice)>, t: nat, choice: Choice)
    requires Initial(s) && t < |s.threads|
    ensures var now := Exec(s, schedule);
            var next := Step(now, t, choice);
            && |now.threads| == |next.threads| == |s.threads|
            && var x, y := now.threads[t], next.threads[t];
               && (x.Outside? && choice == Access ==> y == if NoOther(now.threads, t, Flag) then Cleared else Outside)
               && (x.Outside? && choice == Mutate ==> y == Trying(0))
               && (x.Cleared? ==> y == Counted)
               && (x.Counted? ==> if NoOther(now.threads, t, Flag) then IsInside(y) else y == Retreating)
               && (x.Locking? ==> (y.Walking? <==> NoOther(now.threads, t, Lock)))
               && (x.Trying? ==>
                     y == if NoOther(now.threads, t, Flag) then Probing(x.attempt) else NextAttempt(x.attempt))
               && (x.Probing? ==>
                     y == if NoOther(now.threads, t, Reference) then Mutating else Refusing(x.attempt))
               && (x.Refusing? ==> y == NextAttempt(x.attempt) && NoOther(next.threads, t, Flag))
               && (x.Walking? ==> IsInside(y) && NoOther(next.threads, t, Lock))
               && (x.Retreating? || x.Leaving? || (x.Mutating? && choice == End) ==> y == Outside)
               && (x.Mutating? && choice == Change ==> y == x && next.words.mutations == now.words.mutations + 1)
  {
    ExecKeeps(s, schedule);
    var now := Exec(s, schedule);
    StepKeeps(now, t, choice);
    WordsTell(now, t);
    WordsTell(Step(now, t, choice), t);
  }

  /** The attempts of thread `t`, since it was last outside, that met another owner of the flag or a thread counted in.
      */
  function Met(s: State, schedule: seq<(nat, Choice)>, t: nat): nat {
    if schedule == [] then 0
    else
      var n := |schedule| - 1;
      var before := Exec(s, schedule[..n]).threads;
      if schedule[n].0 != t || t >= |before| then Met(s, schedule[..n], t)
      else if before[t].Outside? then 0
      else if before[t].Trying? && !NoOther(before, t, Flag) then Met(s, schedule[..n], t) + 1
      else if before[t].Probing? && !NoOther(before, t, Reference) then Met(s, schedule[..n], t) + 1
      else Met(s, schedule[..n], t)
  }

  /** In every interleaving: a mutator gives up only after all its attempts met another owner or an accessor. */
  lemma {:induction false} Patience(s: State, schedule: seq<(nat, Choice)>, t: nat)
    requires Initial(s) && t < |s.threads|
    ensures |Exec(s, schedule).threads| == |s.threads|
    ensures var x := Exec(s, schedule).threads[t];
            && (x.Trying? || x.Probing? ==> x.attempt == Met(s, schedule, t) < MAX_ATTEMPTS)
            && (x.Refusing? ==> x.attempt + 1 == Met(s, schedule, t) <= MAX_ATTEMPTS)
            && (x.GaveUp? ==> Met(s, schedule, t) == MAX_ATTEMPTS)
  {
    ExecKeeps(s, schedule);
    if schedule != [] {
      var n := |schedule| - 1;
      Patience(s, schedule[..n], t);
      ExecKeeps(s, schedule[..n]);
      WordsTell(Exec(s, schedule[..n]), t);
    }
  }

  predicate Without(schedule: seq<(nat, Choice)>, t: nat) {
    forall i :: 0 <= i < |schedule| ==> schedule[i].0 != t
  }

  lemma {:induction false} OthersKeep(s: State, a: seq<(nat, Choice)>, b: seq<(nat, Choice)>, t: nat)
    requires t < |Exec(s, a).threads| && Without(b, t)
    ensures |Exec(s, a + b).threads| == |Exec(s, a).threads| && Exec(s, a + b).threads[t] == Exec(s, a).threads[t]
  {
    if b == [] {
      assert a + b == a;
    } else {
      var n := |b| - 1;
      assert (a + b)[..|a| + n] == a + b[..n];
      OthersKeep(s, a, b[..n], t);
    }
  }

  lemma ExecStep(s: State, a: seq<(nat, Choice)>, t: nat, c: Choice)
    ensures Exec(s, a + [(t, c)]) == Step(Exec(s, a), t, c)
  {
    assert (a + [(t, c)])[..|a|] == a;
  }

  /** A mutator that finds the flag free, and nobody counted in when it looks, is admitted, whatever others did
      meanwhile. */
  lemma MutatorGetsIn(s: State, a: seq<(nat, Choice)>, t: nat, c: Choice, mid: seq<(nat, Choice)>, d: Choice)
    requires Initial(s) && t < |s.threads| == |Exec(s, a).threads| && Exec(s, a).threads[t].Trying? && Without(mid, t)
    requires NoOther(Exec(s, a).threads, t, Flag) && NoOther(Exec(s, a + [(t, c)] + mid).threads, t, Reference)
    ensures |Exec(s, a + [(t, c)] + mid + [(t, d)]).threads| == |s.threads|
    ensures Exec(s, a + [(t, c)] + mid + [(t, d)]).threads[t] == Mutating
  {
    Admission(s, a, t, c);
    ExecStep(s, a, t, c);
    OthersKeep(s, a + [(t, c)], mid, t);
    Admission(s, a + [(t, c)] + mid, t, d);
    ExecStep(s, a + [(t, c)] + mid, t, d);
  }

  /** A walk that meets no owner of the flag gets in. */
  lemma WalkGetsIn(s: State, a: seq<(nat, Choice)>, t: nat, mid: seq<(nat, Choice)>, c: Choice,
                   mid': seq<(nat, Choice)>, d: Choice)
    requires Initial(s) && t < |s.threads| == |Exec(s, a).threads| && Exec(s, a).threads[t].Outside?
    requires Without(mid, t) && Without(mid', t) && NoOther(Exec(s, a).threads, t, Flag)
    requires NoOther(Exec(s, a + [(t, Access)] + mid + [(t, c)] + mid').threads, t, Flag)
    ensures |Exec(s, a + [(t, Access)] + mid + [(t, c)] + mid' + [(t, d)]).threads| == |s.threads|
    ensures IsInside(Exec(s, a + [(t, Access)] + mid + [(t, c)] + mid' + [(t, d)]).threads[t])
  {
    var b := a + [(t, Access)];
    Admission(s, a, t, Access);
    ExecStep(s, a, t, Access);
    OthersKeep(s, b, mid, t);
    Admission(s, b + mid, t, c);
    ExecStep(s, b + mid, t, c);
    OthersKeep(s, b + mid + [(t, c)], mid', t);
    Admission(s, b + mid + [(t, c)] + mid', t, d);
    ExecStep(s, b + mid + [(t, c)] + mid', t, d);
  }
}
