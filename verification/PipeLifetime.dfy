/**
 * Lifetime of a pipe: the directional counts and the endpoint count, with every atomic operation one step
 * and the steps of any number of threads interleaving freely. A thread owns handles (open ends); it starts
 * to reference or unreference the pipe only while it owns one.
 */
module PipeLifetime {

  /** Where a thread is in `pipe_ref_*` or `pipe_unref_*`. */
  datatype Pc =
    | Idle
    | Publishing(read: bool)   // endpoint count taken; next: the directional count
    | Waking(read: bool)       // last of its direction; next: wake the other side
    | Putting                  // next: give the endpoint count back

  datatype Thread = Thread(readEnds: nat, writeEnds: nat, pc: Pc)

  /** The counts; how often the pipe was freed; whether it was touched after that. */
  datatype Words = Words(readRefs: int, writeRefs: int, endpoints: int, frees: nat, touched: bool)

  datatype State = State(threads: seq<Thread>, words: Words)

  datatype Choice = Ref(read: bool) | Unref(read: bool)

  function Owned(x: Thread, read: bool): nat {
    if read then x.readEnds else x.writeEnds
  }

  function Own(x: Thread, read: bool, n: nat, pc: Pc): Thread {
    if read then Thread(n, x.writeEnds, pc) else Thread(x.readEnds, n, pc)
  }

  function Count(w: Words, read: bool): int {
    if read then w.readRefs else w.writeRefs
  }

  function SetCount(w: Words, read: bool, n: int): Words {
    if read then w.(readRefs := n) else w.(writeRefs := n)
  }

  /** Any access to the pipe's memory. */
  function Touch(w: Words): Words {
    w.(touched := w.touched || w.frees > 0)
  }

  /** One atomic operation of a thread. */
  function Act(x: Thread, w: Words, choice: Choice): (Thread, Words) {
    match x.pc
    case Idle =>
      if x.readEnds + x.writeEnds == 0 then (x, w)
      else if choice.Ref? then (Thread(x.readEnds, x.writeEnds, Publishing(choice.read)), Touch(w).(endpoints := w.endpoints + 1))
      else if Owned(x, choice.read) == 0 then (x, w)
      else if Count(w, choice.read) == 0 then (x, Touch(w))
      else
        (Own(x, choice.read, Owned(x, choice.read) - 1, if Count(w, choice.read) == 1 then Waking(choice.read)
                                                        else Putting),
         SetCount(Touch(w), choice.read, Count(w, choice.read) - 1))
    case Publishing(read) => (Own(x, read, Owned(x, read) + 1, Idle), SetCount(Touch(w), read, Count(w, read) + 1))
    case Waking(_) => (Thread(x.readEnds, x.writeEnds, Putting), Touch(w))
    case Putting =>
      (Thread(x.readEnds, x.writeEnds, Idle),
       Touch(w).(endpoints := w.endpoints - 1, frees := w.frees + if w.endpoints - 1 == 0 then 1 else 0))
  }

  function Step(s: State, t: nat, choice: Choice): State {
    if t >= |s.threads| then s
    else
      var (y, w) := Act(s.threads[t], s.words, choice);
      State(s.threads[t := y], w)
  }

  // ---- counting ----

  datatype Claim = ReadEnds | WriteEnds | InFlight

  function Weight(x: Thread, k: Claim): nat {
    match k
    case ReadEnds => x.readEnds
    case WriteEnds => x.writeEnds
    case InFlight => if x.pc.Idle? then 0 else 1
  }

  function Sum(threads: seq<Thread>, k: Claim): nat {
    if threads == [] then 0 else Sum(threads[..|threads| - 1], k) + Weight(threads[|threads| - 1], k)
  }

  lemma {:induction false} SumUpdate(threads: seq<Thread>, t: nat, x: Thread, k: Claim)
    requires t < |threads|
    ensures Sum(threads[t := x], k) == Sum(threads, k) - Weight(threads[t], k) + Weight(x, k)
    ensures Weight(threads[t], k) <= Sum(threads, k)
  {
    var last := |threads| - 1;
    if t == last {
      assert threads[t := x][..last] == threads[..last];
    } else {
      SumUpdate(threads[..last], t, x, k);
      assert threads[t := x][..last] == threads[..last][t := x];
    }
  }

  /** The counts are those of the threads' open ends; the endpoint count also counts steps in flight; the pipe was
      freed, once, exactly if that is zero; and it was not touched after. */
  ghost predicate Inv(s: State) {
    && s.words.readRefs == Sum(s.threads, ReadEnds) && s.words.writeRefs == Sum(s.threads, WriteEnds)
    && s.words.endpoints == Sum(s.threads, ReadEnds) + Sum(s.threads, WriteEnds) + Sum(s.threads, InFlight)
    && s.words.frees == (if s.words.endpoints == 0 then 1 else 0)
    && !s.words.touched
  }

  /** What one operation does to the counts, given that its thread is accounted for. */
  lemma ActCounts(x: Thread, w: Words, choice: Choice)
    requires w.readRefs >= x.readEnds && w.writeRefs >= x.writeEnds && !w.touched
    requires w.endpoints >= x.readEnds + x.writeEnds + Weight(x, InFlight)
    requires w.frees == (if w.endpoints == 0 then 1 else 0)
    ensures var (y, w') := Act(x, w, choice);
            && w'.readRefs - w.readRefs == y.readEnds - x.readEnds
            && w'.writeRefs - w.writeRefs == y.writeEnds - x.writeEnds
            && w'.endpoints - w.endpoints
               == y.readEnds + y.writeEnds + Weight(y, InFlight) - x.readEnds - x.writeEnds - Weight(x, InFlight)
            && w'.frees == (if w'.endpoints == 0 then 1 else 0) && !w'.touched
  {}

  lemma StepKeeps(s: State, t: nat, choice: Choice)
    requires Inv(s)
    ensures Inv(Step(s, t, choice))
  {
    if t < |s.threads| {
      var x, y := s.threads[t], Act(s.threads[t], s.words, choice).0;
      SumUpdate(s.threads, t, y, ReadEnds);
      SumUpdate(s.threads, t, y, WriteEnds);
      SumUpdate(s.threads, t, y, InFlight);
      ActCounts(x, s.words, choice);
    }
  }

  function Exec(s: State, schedule: seq<(nat, Choice)>): State {
    if schedule == [] then s
    else
      var last := schedule[|schedule| - 1];
      Step(Exec(s, schedule[..|schedule| - 1]), last.0, last.1)
  }

  /** Just created: its ends are open somewhere, and no step is under way. */
  ghost predicate Created(s: State) {
    && Sum(s.threads, ReadEnds) > 0 && Sum(s.threads, InFlight) == 0
    && s.words == Words(Sum(s.threads, ReadEnds), Sum(s.threads, WriteEnds), Sum(s.threads, ReadEnds) + Sum(s.threads, WriteEnds), 0, false)
  }

  lemma {:induction false} ExecKeeps(s: State, schedule: seq<(nat, Choice)>)
    requires Created(s)
    ensures Inv(Exec(s, schedule))
  {
    if schedule != [] {
      var last := schedule[|schedule| - 1];
      ExecKeeps(s, schedule[..|schedule| - 1]);
      StepKeeps(Exec(s, schedule[..|schedule| - 1]), last.0, last.1);
    }
  }

  /** In every interleaving: the pipe is freed at most once, exactly when no end is open and no step is under way,
      and nobody touches it afterwards. */
  lemma FreedOnce(s: State, schedule: seq<(nat, Choice)>)
    requires Created(s)
    ensures var now := Exec(s, schedule);
            && now.words.frees <= 1 && !now.words.touched
            && (now.words.frees == 1 <==> Sum(now.threads, ReadEnds) == 0 && Sum(now.threads, WriteEnds) == 0 && Sum(now.threads, InFlight) == 0)
            && now.words.endpoints == now.words.readRefs + now.words.writeRefs + Sum(now.threads, InFlight)
  {
    ExecKeeps(s, schedule);
  }

  // ---- what a call does, from the choices alone ----

  /** The steps of a schedule that are not thread `t`'s. */
  predicate Without(schedule: seq<(nat, Choice)>, t: nat) {
    forall i :: 0 <= i < |schedule| ==> schedule[i].0 != t
  }

  lemma {:induction false} ExecThen(s: State, a: seq<(nat, Choice)>, b: seq<(nat, Choice)>)
    ensures Exec(s, a + b) == Exec(Exec(s, a), b)
  {
    if b == [] {
      assert a + b == a;
    } else {
      var n := |b| - 1;
      assert (a + b)[..|a| + n] == a + b[..n];
      ExecThen(s, a, b[..n]);
    }
  }

  /** Nobody else moves a thread. */
  lemma {:induction false} OthersKeep(s: State, schedule: seq<(nat, Choice)>, t: nat)
    requires t < |s.threads| && Without(schedule, t)
    ensures |Exec(s, schedule).threads| == |s.threads| && Exec(s, schedule).threads[t] == s.threads[t]
  {
    if schedule != [] { OthersKeep(s, schedule[..|schedule| - 1], t); }
  }

  /** A step of `t` after others have made theirs. */
  lemma NextStep(s: State, mid: seq<(nat, Choice)>, t: nat, c: Choice)
    requires t < |s.threads| && Without(mid, t)
    ensures var now := Exec(s, mid);
            && |now.threads| == |s.threads| && now.threads[t] == s.threads[t]
            && Exec(s, mid + [(t, c)]) == Step(now, t, c)
  {
    OthersKeep(s, mid, t);
    assert (mid + [(t, c)])[..|mid|] == mid;
  }

  function Ends(x: Thread): nat { x.readEnds + x.writeEnds }

  /** `pipe_ref_read` and `pipe_ref_write`: a thread with an open end that takes another of direction `read` has, after
      two steps and whatever others do in between, one more of that direction and as many as before of the other. */
  lemma RefCall(s: State, read: bool, mid: seq<(nat, Choice)>, t: nat, c: Choice)
    requires Inv(s) && t < |s.threads| && s.threads[t].pc.Idle? && Ends(s.threads[t]) > 0 && Without(mid, t)
    ensures var y := Exec(s, [(t, Ref(read))] + mid + [(t, c)]).threads;
            && |y| == |s.threads| && y[t].pc.Idle?
            && Owned(y[t], read) == Owned(s.threads[t], read) + 1 && Owned(y[t], !read) == Owned(s.threads[t], !read)
  {
    var first := [(t, Ref(read))];
    var s1 := Step(s, t, Ref(read));
    assert Exec(s, first) == s1 by { assert first[..0] == []; }
    assert first + mid + [(t, c)] == first + (mid + [(t, c)]);
    ExecThen(s, first, mid + [(t, c)]);
    NextStep(s1, mid, t, c);
  }

  /** `pipe_unref_read` and `pipe_unref_write`: at once there is one end less of that direction, and as many of the
      other; the thread goes on to wake the other side exactly if it was the last of its direction ... */
  lemma UnrefBegins(s: State, read: bool, t: nat)
    requires Inv(s) && t < |s.threads| && s.threads[t].pc.Idle? && Owned(s.threads[t], read) > 0
    ensures var s1 := Step(s, t, Unref(read));
            && Count(s1.words, read) == Count(s.words, read) - 1 && Count(s1.words, !read) == Count(s.words, !read)
            && Owned(s1.threads[t], read) == Owned(s.threads[t], read) - 1
            && Owned(s1.threads[t], !read) == Owned(s.threads[t], !read)
            && s1.threads[t].pc == if Count(s1.words, read) == 0 then Waking(read) else Putting
  {
    SumUpdate(s.threads, t, Thread(0, 0, Idle), ReadEnds);
    SumUpdate(s.threads, t, Thread(0, 0, Idle), WriteEnds);
  }

  /** ... then gives its reference back, whatever others do in between. */
  lemma UnrefEnds(s: State, t: nat, mid: seq<(nat, Choice)>, c: Choice)
    requires t < |s.threads| && (s.threads[t].pc.Waking? || s.threads[t].pc.Putting?) && Without(mid, t)
    ensures var x, y := s.threads[t], Exec(s, mid + [(t, c)]).threads;
            |y| == |s.threads| && y[t] == x.(pc := if x.pc.Waking? then Putting else Idle)
    ensures var before, after := Exec(s, mid).words, Exec(s, mid + [(t, c)]).words;
            after.endpoints == before.endpoints - if s.threads[t].pc.Putting? then 1 else 0
  {
    NextStep(s, mid, t, c);
  }

  /** What thread `t` last asked for when it had nothing under way. */
  function Asked(s: State, schedule: seq<(nat, Choice)>, t: nat): Choice {
    if schedule == [] then Ref(true)
    else
      var n := |schedule| - 1;
      var before := Exec(s, schedule[..n]);
      if schedule[n].0 == t && t < |before.threads| && before.threads[t].pc.Idle? then schedule[n].1
      else Asked(s, schedule[..n], t)
  }

  /** The last step completed a call to take an end of that direction. */
  predicate Completed(s: State, schedule: seq<(nat, Choice)>, read: bool)
    requires schedule != []
  {
    var n := |schedule| - 1;
    var t, before, after := schedule[n].0, Exec(s, schedule[..n]), Exec(s, schedule);
    && t < |before.threads| == |after.threads| && !before.threads[t].pc.Idle? && after.threads[t].pc.Idle?
    && Asked(s, schedule[..n], t) == Ref(read)
  }

  /** The last step began a call to drop an end of that direction. */
  predicate Dropped(s: State, schedule: seq<(nat, Choice)>, read: bool)
    requires schedule != []
  {
    var n := |schedule| - 1;
    var t, before, after := schedule[n].0, Exec(s, schedule[..n]), Exec(s, schedule);
    && t < |before.threads| == |after.threads| && before.threads[t].pc.Idle? && !after.threads[t].pc.Idle?
    && schedule[n].1 == Unref(read)
  }

  function Net(s: State, schedule: seq<(nat, Choice)>, read: bool): int {
    if schedule == [] then 0
    else
      Net(s, schedule[..|schedule| - 1], read) + (if Completed(s, schedule, read) then 1 else 0)
      - (if Dropped(s, schedule, read) then 1 else 0)
  }

  /** Where a thread is agrees with what it asked for. */
  ghost predicate OnCall(s: State, schedule: seq<(nat, Choice)>, t: nat) {
    var now := Exec(s, schedule);
    t < |now.threads| ==>
      match now.threads[t].pc
      case Idle => true
      case Publishing(read) => Asked(s, schedule, t) == Ref(read)
      case Waking(read) => Asked(s, schedule, t) == Unref(read)
      case Putting => Asked(s, schedule, t).Unref?
  }

  lemma {:induction false} CallsAgree(s: State, schedule: seq<(nat, Choice)>, t: nat)
    requires Created(s)
    ensures OnCall(s, schedule, t)
  {
    if schedule == [] {
      if t < |s.threads| { SumUpdate(s.threads, t, Thread(0, 0, Idle), InFlight); }
    } else {
      CallsAgree(s, schedule[..|schedule| - 1], t);
    }
  }

  /** In every interleaving: the count of a direction is what it was at the start, plus the completed calls to take
      such an end, minus the calls to drop one that have begun. */
  lemma {:induction false} Ledger(s: State, schedule: seq<(nat, Choice)>, read: bool)
    requires Created(s)
    ensures Count(Exec(s, schedule).words, read) == Count(s.words, read) + Net(s, schedule, read)
  {
    if schedule != [] {
      var n := |schedule| - 1;
      var t := schedule[n].0;
      Ledger(s, schedule[..n], read);
      CallsAgree(s, schedule[..n], t);
    }
  }
}
