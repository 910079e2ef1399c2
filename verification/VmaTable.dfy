/**
 * The VMA table of an address space: a fixed table of slots that stands for a map from addresses to
 * kinds (protection, flags, ownership).
 */
module VmaTable {

  const SLOTS: nat := 2048

  const TWO64: nat := 0x1_0000_0000_0000_0000

  const ENOMEM: int := -12

  const EINVAL: int := -22

  datatype Kind = Kind(prot: nat, flags: nat, owned: bool)

  datatype Slot = Empty | Vma(start: nat, end: nat, kind: Kind)

  predicate Covers(s: Slot, x: nat) {
    s.Vma? && s.start <= x < s.end
  }

  predicate SlotOk(s: Slot) {
    s.Vma? ==> s.start < s.end < TWO64
  }

  predicate Apart(a: Slot, b: Slot) {
    a.Vma? && b.Vma? ==> a.end <= b.start || b.end <= a.start
  }

  /** Two entries that should be one. */
  predicate Meets(a: Slot, b: Slot) {
    a.Vma? && b.Vma? && a.end == b.start && a.kind == b.kind
  }

  ghost predicate Disjoint(slots: seq<Slot>) {
    && (forall i :: 0 <= i < |slots| ==> SlotOk(slots[i]))
    && (forall i, j :: 0 <= i < |slots| && 0 <= j < |slots| && i != j ==> Apart(slots[i], slots[j]))
  }

  ghost predicate Coalesced(slots: seq<Slot>) {
    forall i, j :: 0 <= i < |slots| && 0 <= j < |slots| ==> !Meets(slots[i], slots[j])
  }

  ghost predicate TableOk(slots: seq<Slot>) {
    |slots| == SLOTS && Disjoint(slots) && Coalesced(slots)
  }

  /** Address `x` is mapped with kind `k`: the map the table stands for. */
  ghost predicate Maps(slots: seq<Slot>, x: nat, k: Kind) {
    exists i :: 0 <= i < |slots| && Covers(slots[i], x) && slots[i].kind == k
  }

  ghost predicate Mapped(slots: seq<Slot>, x: nat) {
    exists i :: 0 <= i < |slots| && Covers(slots[i], x)
  }

  /** The table stands for a map: an address has at most one kind. */
  lemma MapsOnce(slots: seq<Slot>, x: nat, k: Kind, l: Kind)
    requires Disjoint(slots) && Maps(slots, x, k) && Maps(slots, x, l)
    ensures k == l
  {}

  datatype Option = None | Some(kind: Kind)

  ghost predicate ChangedAt(slots: seq<Slot>, after: seq<Slot>, lo: nat, hi: nat, k: Option, x: nat, l: Kind) {
    Maps(after, x, l) <==> if lo <= x < hi then k == Some(l) else Maps(slots, x, l)
  }

  /** Exactly the addresses from `lo` to `hi` - 1 changed, to `k` (or to unmapped). */
  ghost predicate Changed(slots: seq<Slot>, after: seq<Slot>, lo: nat, hi: nat, k: Option) {
    forall x: nat, l: Kind :: ChangedAt(slots, after, lo, hi, k, x, l)
  }

  // ---- one slot at a time ----

  lemma UpdateMaps(slots: seq<Slot>, i: nat, s: Slot, x: nat, k: Kind)
    requires Disjoint(slots) && i < |slots|
    ensures Maps(slots[i := s], x, k) <==> (Covers(s, x) && s.kind == k) || (Maps(slots, x, k) && !Covers(slots[i], x))
  {
    var after := slots[i := s];
    if Maps(after, x, k) {
      var j :| 0 <= j < |after| && Covers(after[j], x) && after[j].kind == k;
      if j != i { assert Apart(slots[i], slots[j]) && Covers(slots[j], x); }
    }
    if Covers(s, x) && s.kind == k { assert Covers(after[i], x); }
    if Maps(slots, x, k) && !Covers(slots[i], x) {
      var j :| 0 <= j < |slots| && Covers(slots[j], x) && slots[j].kind == k;
      assert Covers(after[j], x);
    }
  }

  lemma UpdateDisjoint(slots: seq<Slot>, i: nat, s: Slot)
    requires Disjoint(slots) && i < |slots| && SlotOk(s)
    requires forall j :: 0 <= j < |slots| && j != i ==> Apart(s, slots[j])
    ensures Disjoint(slots[i := s])
  {}

  lemma UpdateCoalesced(slots: seq<Slot>, i: nat, s: Slot)
    requires Coalesced(slots) && i < |slots| && SlotOk(s)
    requires forall j :: 0 <= j < |slots| && j != i ==> !Meets(s, slots[j]) && !Meets(slots[j], s)
    ensures Coalesced(slots[i := s])
  {}

  // ---- reading the table ----

  /** `range_end`, with 64-bit wrap-around. */
  function RangeEnd(start: nat, len: nat): (end: nat)
    requires start < TWO64 && len < TWO64
    ensures end > start ==> end == start + len && len > 0
  {
    if len == 0 then 0 else (start + len) % TWO64
  }

  method EmptySlot(slots: seq<Slot>) returns (i: int)
    ensures i >= 0 ==> i < |slots| && slots[i].Empty?
    ensures i < 0 ==> forall j :: 0 <= j < |slots| ==> slots[j].Vma?
  {
    for k := 0 to |slots|
      invariant forall j :: 0 <= j < k ==> slots[j].Vma?
    {
      if slots[k].Empty? { return k; }
    }
    i := -1;
  }

  method Containing(slots: seq<Slot>, x: nat) returns (i: int)
    ensures i >= 0 ==> i < |slots| && Covers(slots[i], x)
    ensures i < 0 ==> !Mapped(slots, x)
  {
    for k := 0 to |slots|
      invariant forall j :: 0 <= j < k ==> !Covers(slots[j], x)
    {
      if Covers(slots[k], x) { return k; }
    }
    i := -1;
  }

  predicate Overlaps(s: Slot, lo: nat, hi: nat) {
    s.Vma? && lo < s.end && hi > s.start
  }

  /** `vma_conflicts`: true exactly when the range is malformed or some address of it is mapped. */
  method Conflicts(slots: seq<Slot>, start: nat, len: nat) returns (r: bool)
    requires start < TWO64 && len < TWO64 && Disjoint(slots)
    ensures r <==> RangeEnd(start, len) <= start || exists x :: start <= x < RangeEnd(start, len) && Mapped(slots, x)
    ensures !r ==> forall i :: 0 <= i < |slots| ==> !Overlaps(slots[i], start, RangeEnd(start, len))
  {
    var end := RangeEnd(start, len);
    if end <= start { return true; }
    for k := 0 to |slots|
      invariant forall j :: 0 <= j < k ==> !Overlaps(slots[j], start, end)
    {
      if Overlaps(slots[k], start, end) {
        ghost var x := if slots[k].start > start then slots[k].start else start;
        assert SlotOk(slots[k]) && Covers(slots[k], x) && Mapped(slots, x);
        return true;
      }
    }
    r := false;
  }

  /** `vma_range_ok`: every address of the range is mapped. */
  method RangeOk(slots: seq<Slot>, start: nat, len: nat) returns (r: bool)
    requires start < TWO64 && len < TWO64
    ensures r <==> RangeEnd(start, len) > start && forall x :: start <= x < RangeEnd(start, len) ==> Mapped(slots, x)
  {
    var end := RangeEnd(start, len);
    if end <= start { return false; }
    var cur := start;
    while cur < end
      invariant start <= cur <= end
      invariant forall x :: start <= x < cur ==> Mapped(slots, x)
    {
      var i := Containing(slots, cur);
      if i < 0 { return false; }
      var next := if slots[i].end < end then slots[i].end else end;
      forall x | cur <= x < next ensures Mapped(slots, x) { assert Covers(slots[i], x); }
      cur := next;
    }
    r := true;
  }

  /** The whole range has kind `k`. */
  ghost predicate Uniform(slots: seq<Slot>, lo: nat, hi: nat, k: Kind) {
    forall x :: lo <= x < hi ==> Maps(slots, x, k)
  }

  lemma NotUniform(slots: seq<Slot>, lo: nat, hi: nat, x: nat, k: Kind)
    requires lo <= x < hi && !Maps(slots, x, k)
    ensures !Uniform(slots, lo, hi, k)
  {}

  /** `vma_range_info`: the one kind of the whole range, none exactly when it has none. */
  method RangeInfo(slots: seq<Slot>, start: nat, len: nat) returns (r: Option)
    requires start < TWO64 && len < TWO64 && Disjoint(slots)
    ensures r.Some? ==> RangeEnd(start, len) > start && Uniform(slots, start, RangeEnd(start, len), r.kind)
    ensures r.None? ==> RangeEnd(start, len) <= start || forall k :: !Uniform(slots, start, RangeEnd(start, len), k)
  {
    var end := RangeEnd(start, len);
    if end <= start { return None; }
    var first := Containing(slots, start);
    if first < 0 {
      forall l ensures !Uniform(slots, start, end, l) { NotUniform(slots, start, end, start, l); }
      return None;
    }
    var k := slots[first].kind;
    var cur := start;
    while cur < end
      invariant start <= cur <= end && Uniform(slots, start, cur, k)
    {
      var i := Containing(slots, cur);
      if i < 0 || slots[i].kind != k {
        forall l ensures !Uniform(slots, start, end, l) {
          if l == k {
            if Maps(slots, cur, l) { MapsOnce(slots, cur, l, slots[i].kind); }
            NotUniform(slots, start, end, cur, l);
          } else {
            assert Maps(slots, start, k);
            if Maps(slots, start, l) { MapsOnce(slots, start, l, k); }
            NotUniform(slots, start, end, start, l);
          }
        }
        return None;
      }
      var next := if slots[i].end < end then slots[i].end else end;
      forall x | cur <= x < next ensures Maps(slots, x, k) { assert Covers(slots[i], x); }
      cur := next;
    }
    r := Some(k);
  }

  // ---- adding ----

  /** Where a new entry of kind `k` can be joined on. */
  method Neighbours(slots: seq<Slot>, start: nat, end: nat, k: Kind) returns (before: int, after: int)
    requires Disjoint(slots) && start < end
    ensures before >= 0 ==>
              before < |slots| && slots[before].Vma? && slots[before].kind == k && slots[before].end == start
    ensures after >= 0 ==> after < |slots| && slots[after].Vma? && slots[after].kind == k && slots[after].start == end
    ensures before < 0 ==> forall i :: 0 <= i < |slots| ==> !Meets(slots[i], Vma(start, end, k))
    ensures after < 0 ==> forall i :: 0 <= i < |slots| ==> !Meets(Vma(start, end, k), slots[i])
  {
    before, after := -1, -1;
    for i := 0 to |slots|
      invariant before >= 0 ==>
                before < i && slots[before].Vma? && slots[before].kind == k && slots[before].end == start
      invariant after >= 0 ==> after < i && slots[after].Vma? && slots[after].kind == k && slots[after].start == end
      invariant before < 0 ==> forall j :: 0 <= j < i ==> !Meets(slots[j], Vma(start, end, k))
      invariant after < 0 ==> forall j :: 0 <= j < i ==> !Meets(Vma(start, end, k), slots[j])
    {
      assert SlotOk(slots[i]);
      if slots[i].Vma? && slots[i].kind == k {
        if slots[i].end == start { before := i; } else if slots[i].start == end { after := i; }
      }
    }
  }

  /** No entry touches the range. */
  ghost predicate Clear(slots: seq<Slot>, lo: nat, hi: nat) {
    forall i :: 0 <= i < |slots| ==> !Overlaps(slots[i], lo, hi)
  }

  lemma ClearUnmapped(slots: seq<Slot>, lo: nat, hi: nat, x: nat, k: Kind)
    requires Clear(slots, lo, hi) && lo <= x < hi
    ensures !Maps(slots, x, k)
  {}

  /** Slot `i` grows over a clear range next to it, or an empty slot takes the range. */
  lemma Stretch(slots: seq<Slot>, i: nat, s: Slot, lo: nat, hi: nat)
    requires Disjoint(slots) && i < |slots| && lo < hi < TWO64 && Clear(slots, lo, hi) && s.Vma?
    requires || (slots[i].Empty? && s.start == lo && s.end == hi)
             || (slots[i].Vma? && slots[i].kind == s.kind && slots[i].end == lo && s.start == slots[i].start && s.end == hi)
             || (slots[i].Vma? && slots[i].kind == s.kind && slots[i].start == hi && s.start == lo && s.end == slots[i].end)
    ensures Disjoint(slots[i := s]) && Changed(slots, slots[i := s], lo, hi, Some(s.kind))
  {
    assert SlotOk(slots[i]);
    forall j | 0 <= j < |slots| && j != i ensures Apart(s, slots[j]) {
      assert Apart(slots[i], slots[j]) && !Overlaps(slots[j], lo, hi) && SlotOk(slots[j]);
    }
    UpdateDisjoint(slots, i, s);
    var after, k := slots[i := s], Some(s.kind);
    forall x: nat, l: Kind ensures ChangedAt(slots, after, lo, hi, k, x, l) {
      UpdateMaps(slots, i, s, x, l);
      if lo <= x < hi { ClearUnmapped(slots, lo, hi, x, l); }
      else if Covers(slots[i], x) {
        assert Maps(slots, x, slots[i].kind);
        if Maps(slots, x, l) { MapsOnce(slots, x, l, slots[i].kind); }
      }
    }
  }

  lemma StretchCoalesced(slots: seq<Slot>, i: nat, s: Slot, lo: nat, hi: nat)
    requires Disjoint(slots) && Coalesced(slots) && i < |slots| && lo < hi < TWO64 && Clear(slots, lo, hi) && s.Vma?
    requires SlotOk(s)
    requires || (slots[i].Empty? && s.start == lo && s.end == hi)
             || (slots[i].Vma? && slots[i].kind == s.kind && slots[i].end == lo && s.start == slots[i].start && s.end == hi)
             || (slots[i].Vma? && slots[i].kind == s.kind && slots[i].start == hi && s.start == lo && s.end == slots[i].end)
    requires s.start == lo ==> forall j :: 0 <= j < |slots| ==> !Meets(slots[j], Vma(lo, hi, s.kind))
    requires s.end == hi ==> forall j :: 0 <= j < |slots| ==> !Meets(Vma(lo, hi, s.kind), slots[j])
    ensures Coalesced(slots[i := s])
  {}

  /** The gap between two entries of one kind is filled: they become one. */
  lemma Bridge(slots: seq<Slot>, b: nat, a: nat, lo: nat, hi: nat)
    requires Disjoint(slots) && b < |slots| && a < |slots| && lo < hi && Clear(slots, lo, hi)
    requires slots[b].Vma? && slots[a].Vma? && slots[b].end == lo && slots[a].start == hi
    requires slots[b].kind == slots[a].kind
    ensures a != b
    ensures var s := Vma(slots[b].start, slots[a].end, slots[b].kind);
            Disjoint(slots[a := Empty][b := s]) && Changed(slots, slots[a := Empty][b := s], lo, hi, Some(s.kind))
  {
    var s := Vma(slots[b].start, slots[a].end, slots[b].kind);
    assert SlotOk(slots[a]) && SlotOk(slots[b]);
    var mid := slots[a := Empty];
    UpdateDisjoint(slots, a, Empty);
    forall j | 0 <= j < |mid| && j != b ensures Apart(s, mid[j]) {
      assert Apart(slots[b], slots[j]) && !Overlaps(slots[j], lo, hi) && SlotOk(slots[j]);
      assert j != a ==> Apart(slots[a], slots[j]);
    }
    UpdateDisjoint(mid, b, s);
    var after, k := mid[b := s], Some(s.kind);
    forall x: nat, l: Kind ensures ChangedAt(slots, after, lo, hi, k, x, l) {
      UpdateMaps(slots, a, Empty, x, l);
      UpdateMaps(mid, b, s, x, l);
      if lo <= x < hi { ClearUnmapped(slots, lo, hi, x, l); }
      else if Covers(s, x) {
        assert Maps(slots, x, s.kind) by { assert Covers(slots[b], x) || Covers(slots[a], x); }
        if Maps(slots, x, l) { MapsOnce(slots, x, l, s.kind); }
      }
    }
  }

  lemma BridgeCoalesced(slots: seq<Slot>, b: nat, a: nat, s: Slot)
    requires Disjoint(slots) && Coalesced(slots) && b < |slots| && a < |slots| && a != b
    requires slots[b].Vma? && slots[a].Vma? && slots[b].kind == slots[a].kind && slots[b].end < slots[a].start
    requires s == Vma(slots[b].start, slots[a].end, slots[b].kind)
    ensures Coalesced(slots[a := Empty][b := s])
  {}

  /** Other entries are untouched; what is new lies in entry `i` on either side of the hole. */
  ghost predicate PieceOf(a: seq<Slot>, b: seq<Slot>, i: nat, lo: nat, hi: nat, j: nat)
    requires |a| == |b| && i < |a| && j < |a| && a[i].Vma?
  {
    && (j != i && a[j].Vma? ==> b[j] == a[j])
    && ((j == i || a[j].Empty?) && b[j].Vma? ==>
          && (b[j].end <= lo || hi <= b[j].start) && a[i].start <= b[j].start && b[j].end <= a[i].end)
  }

  function One(b: bool): nat {
    if b then 1 else 0
  }

  /** Some entry of kind `k` ends (begins) at this address. */
  ghost predicate EndsAt(slots: seq<Slot>, x: nat, k: Kind) {
    exists i :: 0 <= i < |slots| && slots[i].Vma? && slots[i].end == x && slots[i].kind == k
  }

  ghost predicate BeginsAt(slots: seq<Slot>, x: nat, k: Kind) {
    exists i :: 0 <= i < |slots| && slots[i].Vma? && slots[i].start == x && slots[i].kind == k
  }

  /** An entry of kind `k` begins before `x` and reaches it. */
  ghost predicate Starts(slots: seq<Slot>, x: nat, k: Kind) {
    x > 0 && Maps(slots, x - 1, k)
  }

  /** Neighbours of kind `k` of the range from `lo` to `hi`. */
  ghost function Ends(slots: seq<Slot>, lo: nat, hi: nat, k: Kind): nat {
    One(Starts(slots, lo, k)) + One(Maps(slots, hi, k))
  }

  ghost function FreeSlots(slots: seq<Slot>): nat {
    if slots == [] then 0 else FreeSlots(slots[..|slots| - 1]) + if slots[|slots| - 1].Empty? then 1 else 0
  }

  /** The part from `lo` to `hi` of an entry of kind `k` cannot be given protection `prot`: either both ends stay and
      there is no slot for the second, or afterwards there is no slot for the part itself and no neighbour to join it
      to. */
  ghost predicate Blocked(slots: seq<Slot>, lo: nat, hi: nat, k: Kind, prot: nat) {
    var ends := Ends(slots, lo, hi, k);
    || (ends == 2 && FreeSlots(slots) == 0)
    || (FreeSlots(slots) + 1 == ends && !Starts(slots, lo, k.(prot := prot)) && !Maps(slots, hi, k.(prot := prot)))
  }

  /** What is left of the part then: it is as before if there was no slot for the second end, and unmapped if not. */
  ghost predicate Gap(before: seq<Slot>, after: seq<Slot>, lo: nat, hi: nat, k: Kind) {
    if Starts(before, lo, k) && Maps(before, hi, k) && FreeSlots(before) == 0 then after == before
    else Changed(before, after, lo, hi, None)
  }

  lemma EntryEdges(slots: seq<Slot>, i: nat, lo: nat, hi: nat)
    requires TableOk(slots) && i < |slots| && slots[i].Vma? && slots[i].start <= lo < hi <= slots[i].end
    ensures Starts(slots, lo, slots[i].kind) <==> slots[i].start < lo
    ensures Maps(slots, hi, slots[i].kind) <==> hi < slots[i].end
  {
    var v := slots[i];
    if v.start < lo { assert Covers(v, lo - 1); }
    if hi < v.end { assert Covers(v, hi); }
  }

  /** Where an entry ends and begins, in terms of the map. */
  lemma Edges(slots: seq<Slot>, x: nat, k: Kind)
    requires TableOk(slots)
    ensures EndsAt(slots, x, k) <==> Starts(slots, x, k) && !Maps(slots, x, k)
    ensures BeginsAt(slots, x, k) <==> Maps(slots, x, k) && !Starts(slots, x, k)
  {
    if EndsAt(slots, x, k) {
      var i :| 0 <= i < |slots| && slots[i].Vma? && slots[i].end == x && slots[i].kind == k;
      assert SlotOk(slots[i]) && Covers(slots[i], x - 1);
      EntryEdges(slots, i, slots[i].start, x);
    }
    if BeginsAt(slots, x, k) {
      var i :| 0 <= i < |slots| && slots[i].Vma? && slots[i].start == x && slots[i].kind == k;
      assert SlotOk(slots[i]) && Covers(slots[i], x);
      EntryEdges(slots, i, x, slots[i].end);
    }
    if Starts(slots, x, k) && !Maps(slots, x, k) {
      var i :| 0 <= i < |slots| && Covers(slots[i], x - 1) && slots[i].kind == k;
      assert !Covers(slots[i], x);
    }
    if Maps(slots, x, k) && !Starts(slots, x, k) {
      var i :| 0 <= i < |slots| && Covers(slots[i], x) && slots[i].kind == k;
      assert x > 0 ==> !Covers(slots[i], x - 1);
    }
  }

  lemma HoleEdges(a: seq<Slot>, b: seq<Slot>, lo: nat, hi: nat, k: Kind)
    requires TableOk(b) && lo < hi && Changed(a, b, lo, hi, None)
    ensures EndsAt(b, lo, k) <==> Starts(a, lo, k)
    ensures BeginsAt(b, hi, k) <==> Maps(a, hi, k)
  {
    Edges(b, lo, k);
    Edges(b, hi, k);
    assert ChangedAt(a, b, lo, hi, None, lo, k) && ChangedAt(a, b, lo, hi, None, hi, k)
    && ChangedAt(a, b, lo, hi, None, hi - 1, k);
    if lo > 0 { assert ChangedAt(a, b, lo, hi, None, lo - 1, k); }
  }

  /** Number of neighbours that an entry of kind `k` would be joined to. */
  ghost function Joins(slots: seq<Slot>, lo: nat, hi: nat, k: Kind): nat {
    One(EndsAt(slots, lo, k)) + One(BeginsAt(slots, hi, k))
  }

  /** Unmapped, then mapped anew. */
  lemma Repainted(a: seq<Slot>, b: seq<Slot>, c: seq<Slot>, lo: nat, hi: nat, k: Option)
    requires Changed(a, b, lo, hi, None) && Changed(b, c, lo, hi, k)
    ensures Changed(a, c, lo, hi, k)
  {
    forall x: nat, l: Kind ensures ChangedAt(a, c, lo, hi, k, x, l) {
      assert ChangedAt(a, b, lo, hi, None, x, l) && ChangedAt(b, c, lo, hi, k, x, l);
    }
  }

  /** The part was unmapped, and mapped anew if that could be done. */
  lemma PartDone(a: seq<Slot>, b: seq<Slot>, c: seq<Slot>, lo: nat, hi: nat, k: Kind, prot: nat, k': Kind, added: bool)
    requires TableOk(b) && lo < hi && Changed(a, b, lo, hi, None) && k' == k.(prot := prot)
    requires !(Ends(a, lo, hi, k) == 2 && FreeSlots(a) == 0) && FreeSlots(b) + Ends(a, lo, hi, k) == FreeSlots(a) + 1
    requires !added <==> FreeSlots(b) == 0 && !EndsAt(b, lo, k') && !BeginsAt(b, hi, k')
    requires if added then FreeSlots(c) + 1 == FreeSlots(b) + Joins(b, lo, hi, k') && Changed(b, c, lo, hi, Some(k'))
             else c == b
    ensures !added <==> Blocked(a, lo, hi, k, prot)
    ensures added ==>
              Changed(a, c, lo, hi, Some(k')) && FreeSlots(c) + Ends(a, lo, hi, k) == FreeSlots(a) + Ends(a, lo, hi, k')
    ensures !added ==> Gap(a, c, lo, hi, k)
  {
    HoleEdges(a, b, lo, hi, k');
    if added { Repainted(a, b, c, lo, hi, Some(k')); }
  }

  ghost predicate AllMapped(slots: seq<Slot>, lo: nat, hi: nat) {
    forall x :: lo <= x < hi ==> Mapped(slots, x)
  }

  lemma UniformMapped(slots: seq<Slot>, lo: nat, hi: nat, l: Kind)
    requires Uniform(slots, lo, hi, l)
    ensures AllMapped(slots, lo, hi)
  {
    forall x | lo <= x < hi ensures Mapped(slots, x) { assert Maps(slots, x, l); }
  }

  lemma ChangedThen(a: seq<Slot>, b: seq<Slot>, c: seq<Slot>, lo: nat, mid: nat, hi: nat, k: Option)
    requires lo <= mid <= hi && Changed(a, b, lo, mid, k) && Changed(b, c, mid, hi, k)
    ensures Changed(a, c, lo, hi, k)
  {
    forall x: nat, l: Kind ensures ChangedAt(a, c, lo, hi, k, x, l) {
      assert ChangedAt(a, b, lo, mid, k, x, l) && ChangedAt(b, c, mid, hi, k, x, l);
    }
  }

  lemma MappedIff(slots: seq<Slot>, x: nat)
    ensures Mapped(slots, x) <==> exists k :: Maps(slots, x, k)
  {
    if Mapped(slots, x) {
      var i :| 0 <= i < |slots| && Covers(slots[i], x);
      assert Maps(slots, x, slots[i].kind);
    }
  }

  /** What is outside the changed range is as mapped as before; what was unmapped inside is not mapped. */
  lemma ChangedMapped(a: seq<Slot>, b: seq<Slot>, lo: nat, hi: nat, k: Option, x: nat)
    requires Changed(a, b, lo, hi, k)
    ensures Mapped(b, x) <==> if lo <= x < hi then k.Some? else Mapped(a, x)
  {
    MappedIff(a, x);
    MappedIff(b, x);
    if Mapped(a, x) { var l :| Maps(a, x, l); assert ChangedAt(a, b, lo, hi, k, x, l); }
    if Mapped(b, x) { var l :| Maps(b, x, l); assert ChangedAt(a, b, lo, hi, k, x, l); }
    if k.Some? { assert ChangedAt(a, b, lo, hi, k, x, k.kind); }
  }

  /** One entry holds the range with something on both sides. */
  ghost predicate StrictlyInside(slots: seq<Slot>, lo: nat, hi: nat) {
    exists i :: 0 <= i < |slots| && slots[i].Vma? && slots[i].start < lo && hi < slots[i].end
  }

  /** The range lies inside an entry, with something left on both sides, and there is no slot for the second side. */
  ghost predicate NoRoom(slots: seq<Slot>, lo: nat, hi: nat) {
    FreeSlots(slots) == 0 && StrictlyInside(slots, lo, hi)
  }

  /** An address has at most one entry. */
  lemma Holder(slots: seq<Slot>, i: nat, x: nat)
    requires Disjoint(slots) && i < |slots| && Covers(slots[i], x)
    ensures forall j :: 0 <= j < |slots| && Covers(slots[j], x) ==> j == i
  {}

  /** Outside the range nothing changed, inside nothing was added. */
  ghost predicate ThinnedAt(a: seq<Slot>, b: seq<Slot>, lo: nat, hi: nat, x: nat, l: Kind) {
    if lo <= x < hi then Maps(b, x, l) ==> Maps(a, x, l) else Maps(b, x, l) <==> Maps(a, x, l)
  }

  ghost predicate Thinned(a: seq<Slot>, b: seq<Slot>, lo: nat, hi: nat) {
    forall x: nat, l: Kind :: ThinnedAt(a, b, lo, hi, x, l)
  }

  lemma ThinnedStep(a: seq<Slot>, b: seq<Slot>, c: seq<Slot>, start: nat, end: nat, lo: nat, hi: nat)
    requires Thinned(a, b, start, end) && Changed(b, c, lo, hi, None) && start <= lo <= hi <= end
    ensures Thinned(a, c, start, end)
  {
    forall x: nat, l: Kind ensures ThinnedAt(a, c, start, end, x, l) {
      assert ThinnedAt(a, b, start, end, x, l) && ChangedAt(b, c, lo, hi, None, x, l);
    }
  }

  lemma ThinnedAll(a: seq<Slot>, b: seq<Slot>, lo: nat, hi: nat)
    requires Thinned(a, b, lo, hi) && Clear(b, lo, hi)
    ensures Changed(a, b, lo, hi, None)
  {
    forall x: nat, l: Kind ensures ChangedAt(a, b, lo, hi, None, x, l) {
      assert ThinnedAt(a, b, lo, hi, x, l);
      if lo <= x < hi { ClearUnmapped(b, lo, hi, x, l); }
    }
  }

  /** An entry that holds the range with something on both sides leaves no address of it unmapped. */
  lemma StrictCover(slots: seq<Slot>, i: nat, lo: nat, hi: nat)
    requires i < |slots| && slots[i].Vma?
    ensures slots[i].start < lo && hi < slots[i].end ==> forall x :: lo <= x < hi ==> Mapped(slots, x)
  {}

  /** After the hole, entries that were clear of the range still are, and so is entry `i`. */
  lemma StillClear(a: seq<Slot>, b: seq<Slot>, start: nat, end: nat, i: nat, lo: nat, hi: nat)
    requires |a| == |b| && i < |a| && Disjoint(a) && Disjoint(b) && Changed(a, b, lo, hi, None) && start < end
    requires forall j :: 0 <= j < i ==> !Overlaps(a[j], start, end)
    requires a[i].Vma? && lo == (if start > a[i].start then start else a[i].start)
    requires hi == (if end < a[i].end then end else a[i].end)
    requires forall j :: 0 <= j < |a| ==> PieceOf(a, b, i, lo, hi, j)
    ensures forall j :: 0 <= j <= i ==> !Overlaps(b[j], start, end)
  {
    forall j | 0 <= j <= i ensures !Overlaps(b[j], start, end) { assert PieceOf(a, b, i, lo, hi, j); }
  }

  ghost predicate MapsBut(slots: seq<Slot>, x: nat, l: Kind) {
    exists p :: Maps(slots, x, Kind(p, l.flags, l.owned))
  }

  ghost predicate ProtectedAt(a: seq<Slot>, b: seq<Slot>, lo: nat, hi: nat, prot: nat, x: nat, l: Kind) {
    Maps(b, x, l) <==> if lo <= x < hi then l.prot == prot && MapsBut(a, x, l) else Maps(a, x, l)
  }

  /** Exactly the range changed, in its protection only. */
  ghost predicate Protected(a: seq<Slot>, b: seq<Slot>, lo: nat, hi: nat, prot: nat) {
    forall x: nat, l: Kind :: ProtectedAt(a, b, lo, hi, prot, x, l)
  }

  ghost predicate SameOutside(a: seq<Slot>, b: seq<Slot>, lo: nat, hi: nat) {
    forall x: nat, l: Kind :: lo <= x < hi || (Maps(b, x, l) <==> Maps(a, x, l))
  }

  lemma StillMapped(a: seq<Slot>, b: seq<Slot>, lo: nat, cur: nat, prot: nat, x: nat)
    requires Protected(a, b, lo, cur, prot) && cur <= x && Mapped(a, x)
    ensures Mapped(b, x)
  {
    MappedIff(a, x);
    MappedIff(b, x);
    var l :| Maps(a, x, l);
    assert ProtectedAt(a, b, lo, cur, prot, x, l);
  }

  lemma ProtectedKind(a: seq<Slot>, b: seq<Slot>, lo: nat, cur: nat, prot: nat, x: nat, k: Kind)
    requires Protected(a, b, lo, cur, prot) && lo <= x < cur && Maps(b, x, k)
    ensures k.prot == prot
  {
    assert ProtectedAt(a, b, lo, cur, prot, x, k);
  }

  lemma ProtectedThen(a: seq<Slot>, b: seq<Slot>, c: seq<Slot>, lo: nat, cur: nat, cut: nat, prot: nat, k: Kind)
    requires lo <= cur <= cut && Disjoint(a) && Protected(a, b, lo, cur, prot)
    requires Disjoint(b) && Uniform(b, cur, cut, k) && Changed(b, c, cur, cut, Some(k.(prot := prot)))
    ensures Protected(a, c, lo, cut, prot)
  {
    forall x: nat, l: Kind ensures ProtectedAt(a, c, lo, cut, prot, x, l) {
      assert ProtectedAt(a, b, lo, cur, prot, x, l) && ChangedAt(b, c, cur, cut, Some(k.(prot := prot)), x, l);
      if cur <= x < cut {
        assert Maps(b, x, k) && ProtectedAt(a, b, lo, cur, prot, x, k);
        assert k == Kind(k.prot, k.flags, k.owned);
        if MapsBut(a, x, l) {
          var p :| Maps(a, x, Kind(p, l.flags, l.owned));
          MapsOnce(a, x, k, Kind(p, l.flags, l.owned));
        }
      }
    }
  }

  lemma ProtectStopped(a: seq<Slot>, b: seq<Slot>, c: seq<Slot>, lo: nat, cur: nat, cut: nat, hi: nat, prot: nat)
    requires lo <= cur <= cut <= hi && Protected(a, b, lo, cur, prot) && (c == b || Changed(b, c, cur, cut, None))
    ensures SameOutside(a, c, lo, hi)
  {
    forall x: nat, l: Kind ensures lo <= x < hi || (Maps(c, x, l) <==> Maps(a, x, l)) {
      assert ProtectedAt(a, b, lo, cur, prot, x, l) && (c == b || ChangedAt(b, c, cur, cut, None, x, l));
    }
  }

  /** A part of the range of one kind, from the beginning or where the kind changes to the end or where it changes. */
  ghost predicate Part(slots: seq<Slot>, start: nat, end: nat, at: nat, cut: nat, k: Kind) {
    && start <= at < cut <= end && Uniform(slots, at, cut, k)
    && (cut < end ==> !Maps(slots, cut, k)) && (at > start ==> !Maps(slots, at - 1, k))
  }

  /** A part is blocked in a table that stands for the map with all before it changed. */
  ghost predicate StuckAt(slots: seq<Slot>, start: nat, end: nat, prot: nat, before: seq<Slot>, at: nat, cut: nat,
                          k: Kind) {
    && TableOk(before) && Part(slots, start, end, at, cut, k)
    && Protected(slots, before, start, at, prot) && Blocked(before, at, cut, k, prot)
  }

  ghost predicate Stuck(slots: seq<Slot>, start: nat, end: nat, prot: nat) {
    exists before, at: nat, cut: nat, k :: StuckAt(slots, start, end, prot, before, at, cut, k)
  }

  ghost predicate NotBefore(slots: seq<Slot>, start: nat, end: nat, prot: nat, cur: nat) {
    forall before, at: nat, cut: nat, k :: StuckAt(slots, start, end, prot, before, at, cut, k) ==> at >= cur
  }

  ghost predicate SameMap(a: seq<Slot>, b: seq<Slot>) {
    forall x: nat, l: Kind :: Maps(a, x, l) <==> Maps(b, x, l)
  }

  ghost function StartSet(slots: seq<Slot>): set<nat> {
    set s | s in slots && s.Vma? :: s.start
  }

  lemma {:induction false} Counted(slots: seq<Slot>)
    requires Disjoint(slots)
    ensures |StartSet(slots)| + FreeSlots(slots) == |slots|
  {
    if slots != [] {
      var n := |slots| - 1;
      var front, last := slots[..n], slots[n];
      Counted(front);
      assert slots == front + [last];
      if last.Vma? {
        assert StartSet(slots) == StartSet(front) + {last.start};
        forall i | 0 <= i < n && slots[i].Vma?
          ensures slots[i].start != last.start
        {
          assert Apart(slots[i], slots[n]) && SlotOk(slots[i]);
        }
      } else {
        assert StartSet(slots) == StartSet(front);
      }
    }
  }

  /** Where entries start is a matter of the map. */
  lemma StartIs(slots: seq<Slot>, x: nat)
    requires TableOk(slots)
    ensures x in StartSet(slots) <==> exists k :: Maps(slots, x, k) && !Starts(slots, x, k)
  {
    if x in StartSet(slots) {
      var i :| 0 <= i < |slots| && slots[i].Vma? && slots[i].start == x;
      Edges(slots, x, slots[i].kind);
      assert BeginsAt(slots, x, slots[i].kind);
    }
    if exists k :: Maps(slots, x, k) && !Starts(slots, x, k) {
      var k :| Maps(slots, x, k) && !Starts(slots, x, k);
      Edges(slots, x, k);
      var i :| 0 <= i < |slots| && slots[i].Vma? && slots[i].start == x && slots[i].kind == k;
    }
  }

  /** Tables that stand for one map have as many free slots. */
  lemma SameFree(a: seq<Slot>, b: seq<Slot>)
    requires TableOk(a) && TableOk(b) && SameMap(a, b)
    ensures FreeSlots(a) == FreeSlots(b)
  {
    forall x: nat ensures x in StartSet(a) <==> x in StartSet(b) {
      StartIs(a, x);
      StartIs(b, x);
      forall k ensures Maps(a, x, k) && !Starts(a, x, k) <==> Maps(b, x, k) && !Starts(b, x, k) {}
    }
    assert StartSet(a) == StartSet(b);
    Counted(a);
    Counted(b);
  }

  lemma SameBlocked(a: seq<Slot>, b: seq<Slot>, lo: nat, hi: nat, k: Kind, prot: nat)
    requires TableOk(a) && TableOk(b) && SameMap(a, b)
    ensures Blocked(a, lo, hi, k, prot) <==> Blocked(b, lo, hi, k, prot)
  {
    SameFree(a, b);
  }

  lemma ProtectedSame(slots: seq<Slot>, a: seq<Slot>, b: seq<Slot>, start: nat, at: nat, prot: nat)
    requires Protected(slots, a, start, at, prot) && Protected(slots, b, start, at, prot)
    ensures SameMap(a, b)
  {
    forall x: nat, l: Kind ensures Maps(a, x, l) <==> Maps(b, x, l) {
      assert ProtectedAt(slots, a, start, at, prot, x, l) && ProtectedAt(slots, b, start, at, prot, x, l);
    }
  }

  /** At `cur` the kind changes, or the range begins or ends. */
  ghost predicate Border(slots: seq<Slot>, start: nat, cur: nat, end: nat) {
    start < cur < end ==> forall l :: !(Maps(slots, cur - 1, l) && Maps(slots, cur, l))
  }

  /** The loop's next part is one of the old table. */
  lemma NextPart(was: seq<Slot>, here: seq<Slot>, start: nat, end: nat, cur: nat, cut: nat, k: Kind, prot: nat)
    requires Disjoint(was) && Protected(was, here, start, cur, prot) && start <= cur < cut <= end
    requires Border(was, start, cur, end)
    requires Uniform(here, cur, cut, k) && (cut < end ==> !Maps(here, cut, k))
    ensures Part(was, start, end, cur, cut, k) && Border(was, start, cut, end)
  {
    forall x | cur <= x < cut ensures Maps(was, x, k) { assert ProtectedAt(was, here, start, cur, prot, x, k); }
    if cut < end { assert ProtectedAt(was, here, start, cur, prot, cut, k); }
    assert Maps(was, cur, k) && Maps(was, cut - 1, k);
    forall l | Maps(was, cut - 1, l) && cut < end ensures !Maps(was, cut, l) { MapsOnce(was, cut - 1, k, l); }
  }

  /** There is one part at each place, and none begins inside it. */
  lemma OnePart(slots: seq<Slot>, start: nat, end: nat, at: nat, cut: nat, k: Kind, at': nat, cut': nat, k': Kind)
    requires Disjoint(slots) && Part(slots, start, end, at, cut, k) && Part(slots, start, end, at', cut', k')
    requires at <= at' < cut
    ensures at' == at && cut' == cut && k' == k
  {
    assert Maps(slots, at', k) && Maps(slots, at', k');
    MapsOnce(slots, at', k, k');
  }

  lemma Unstuck(was: seq<Slot>, here: seq<Slot>, start: nat, end: nat, cur: nat, cut: nat, k: Kind, prot: nat)
    requires Disjoint(was) && TableOk(here) && Protected(was, here, start, cur, prot)
    requires Part(was, start, end, cur, cut, k)
    requires !Blocked(here, cur, cut, k, prot) && NotBefore(was, start, end, prot, cur)
    ensures NotBefore(was, start, end, prot, cut)
  {
    forall before, at: nat, cut': nat, k' | StuckAt(was, start, end, prot, before, at, cut', k') ensures at >= cut {
      if at < cut {
        OnePart(was, start, end, cur, cut, k, at, cut', k');
        ProtectedSame(was, before, here, start, cur, prot);
        SameBlocked(before, here, cur, cut, k, prot);
      }
    }
  }

  lemma ProtectedNone(slots: seq<Slot>, start: nat, prot: nat)
    ensures Protected(slots, slots, start, start, prot)
  {
    forall x: nat, l: Kind ensures ProtectedAt(slots, slots, start, start, prot, x, l) {}
  }

  /** A range of one kind is one part. */
  lemma OneKindStuck(slots: seq<Slot>, start: nat, end: nat, prot: nat, l: Kind)
    requires TableOk(slots) && start < end && Uniform(slots, start, end, l)
    ensures Stuck(slots, start, end, prot) <==> Blocked(slots, start, end, l, prot)
  {
    assert Part(slots, start, end, start, end, l);
    ProtectedNone(slots, start, prot);
    if Blocked(slots, start, end, l, prot) { assert StuckAt(slots, start, end, prot, slots, start, end, l); }
    if Stuck(slots, start, end, prot) {
      var before, at: nat, cut: nat, k :| StuckAt(slots, start, end, prot, before, at, cut, k);
      OnePart(slots, start, end, start, end, l, at, cut, k);
      ProtectedSame(slots, before, slots, start, start, prot);
      SameBlocked(before, slots, start, end, l, prot);
    }
  }

  /** Cutting one end off an entry, or all of it. */
  lemma PunchOne(slots: seq<Slot>, i: nat, s: Slot, lo: nat, hi: nat)
    requires Disjoint(slots) && Coalesced(slots) && i < |slots| && slots[i].Vma?
    requires slots[i].start <= lo < hi <= slots[i].end
    requires var v := slots[i];
             || (s == Empty && lo == v.start && hi == v.end)
             || (s == Vma(v.start, lo, v.kind) && v.start < lo && hi == v.end)
             || (s == Vma(hi, v.end, v.kind) && v.start == lo && hi < v.end)
    ensures Disjoint(slots[i := s]) && Coalesced(slots[i := s]) && Changed(slots, slots[i := s], lo, hi, None)
  {
    assert SlotOk(slots[i]);
    forall j | 0 <= j < |slots| && j != i ensures Apart(s, slots[j]) && !Meets(s, slots[j]) && !Meets(slots[j], s) {
      assert Apart(slots[i], slots[j]) && SlotOk(slots[j]) && !Meets(slots[i], slots[j]) && !Meets(slots[j], slots[i]);
    }
    UpdateDisjoint(slots, i, s);
    UpdateCoalesced(slots, i, s);
    var after := slots[i := s];
    forall x: nat, l: Kind ensures ChangedAt(slots, after, lo, hi, None, x, l) {
      UpdateMaps(slots, i, s, x, l);
      if Covers(slots[i], x) {
        assert Maps(slots, x, slots[i].kind);
        if Maps(slots, x, l) { MapsOnce(slots, x, l, slots[i].kind); }
      }
    }
  }

  /** A hole strictly inside an entry leaves two entries. */
  lemma PunchTwo(slots: seq<Slot>, i: nat, r: nat, lo: nat, hi: nat)
    requires Disjoint(slots) && Coalesced(slots) && i < |slots| && r < |slots| && slots[r].Empty?
    requires slots[i].Vma? && slots[i].start < lo < hi < slots[i].end
    ensures var v := slots[i];
            var after := slots[i := Vma(v.start, lo, v.kind)][r := Vma(hi, v.end, v.kind)];
            Disjoint(after) && Coalesced(after) && Changed(slots, after, lo, hi, None)
  {
    var v := slots[i];
    assert SlotOk(v);
    var s, t := Vma(v.start, lo, v.kind), Vma(hi, v.end, v.kind);
    var mid := slots[i := s];
    PunchOne(slots, i, s, lo, v.end);
    forall j | 0 <= j < |mid| && j != r ensures Apart(t, mid[j]) && !Meets(t, mid[j]) && !Meets(mid[j], t) {
      if j != i {
        assert Apart(slots[i], slots[j]) && SlotOk(slots[j]) && !Meets(slots[i], slots[j])
        && !Meets(slots[j], slots[i]);
      }
    }
    UpdateDisjoint(mid, r, t);
    UpdateCoalesced(mid, r, t);
    var after := mid[r := t];
    forall x: nat, l: Kind ensures ChangedAt(slots, after, lo, hi, None, x, l) {
      UpdateMaps(mid, r, t, x, l);
      assert ChangedAt(slots, mid, lo, v.end, None, x, l);
      if Covers(v, x) {
        assert Maps(slots, x, v.kind);
        if Maps(slots, x, l) { MapsOnce(slots, x, l, v.kind); }
      }
    }
  }

  lemma {:induction false} FreeSlotsUpdate(slots: seq<Slot>, i: nat, s: Slot)
    requires i < |slots|
    ensures FreeSlots(slots[i := s]) == FreeSlots(slots) - (if slots[i].Empty? then 1 else 0) + if s.Empty? then 1
                                                                                                else 0
  {
    var last := |slots| - 1;
    if i == last {
      assert slots[i := s][..last] == slots[..last];
    } else {
      FreeSlotsUpdate(slots[..last], i, s);
      assert slots[i := s][..last] == slots[..last][i := s];
    }
  }

  lemma {:induction false} NoFreeSlots(slots: seq<Slot>)
    ensures FreeSlots(slots) == 0 <==> forall j :: 0 <= j < |slots| ==> slots[j].Vma?
  {
    if slots != [] {
      var last := |slots| - 1;
      NoFreeSlots(slots[..last]);
      assert forall j :: 0 <= j < last ==> slots[..last][j] == slots[j];
    }
  }

  class Table {
    var slots: seq<Slot>

    ghost predicate Valid()
      reads this
    {
      TableOk(slots)
    }

    /** `vma_reset`. */
    constructor ()
      ensures Valid() && forall x, k :: !Maps(slots, x, k)
    {
      slots := seq(SLOTS, _ => Empty);
    }

    /** `vma_add`: maps the range if it was wholly unmapped, joined to neighbours of the same kind; fails for want
        of a slot only if there is none and nothing to join on. */
    method Add(start: nat, len: nat, k: Kind) returns (rc: int)
      requires Valid() && start < TWO64 && len < TWO64
      modifies this
      ensures Valid() && rc in {0, EINVAL, ENOMEM}
      ensures rc == 0 ==> Changed(old(slots), slots, start, RangeEnd(start, len), Some(k))
      ensures rc == 0 ==>
                FreeSlots(slots) + 1 == old(FreeSlots(slots)) + Joins(old(slots), start, RangeEnd(start, len), k)
      ensures rc != 0 ==> slots == old(slots)
      ensures rc == EINVAL <==> RangeEnd(start, len) <= start || exists x :: start <= x < RangeEnd(start, len) && Mapped(old(slots), x)
      ensures rc != EINVAL ==>
                (rc == ENOMEM <==>
                   old(FreeSlots(slots)) == 0 && !EndsAt(old(slots), start, k)
                   && !BeginsAt(old(slots), RangeEnd(start, len), k))
    {
      var end := RangeEnd(start, len);
      if end <= start { return EINVAL; }
      var bad := Conflicts(slots, start, len);
      if bad { return EINVAL; }
      var before, after := Neighbours(slots, start, end, k);
      if before >= 0 && after >= 0 {
        var s := Vma(slots[before].start, slots[after].end, k);
        Bridge(slots, before, after, start, end);
        BridgeCoalesced(slots, before, after, s);
        FreeSlotsUpdate(slots, after, Empty);
        FreeSlotsUpdate(slots[after := Empty], before, s);
        slots := slots[after := Empty][before := s];
        return 0;
      }
      var i := before;
      if before < 0 { i := after; }
      if i < 0 {
        i := EmptySlot(slots);
        NoFreeSlots(slots);
        if i < 0 { return ENOMEM; }
      }
      var s := if before >= 0 then Vma(slots[i].start, end, k) else if after >= 0 then Vma(start, slots[i].end, k) else Vma(start, end, k);
      Stretch(slots, i, s, start, end);
      StretchCoalesced(slots, i, s, start, end);
      FreeSlotsUpdate(slots, i, s);
      slots := slots[i := s];
      rc := 0;
    }

    /** `split_for_hole`: unmaps a range inside entry `i`; fails only if it must keep both ends and has no slot. */
    method SplitForHole(i: nat, lo: nat, hi: nat) returns (rc: int)
      requires Valid() && i < |slots| && slots[i].Vma? && slots[i].start <= lo < hi <= slots[i].end
      modifies this
      ensures Valid() && rc in {0, ENOMEM}
      ensures rc == ENOMEM <==> old(slots)[i].start < lo && hi < old(slots)[i].end && old(FreeSlots(slots)) == 0
      ensures rc != 0 ==> slots == old(slots)
      ensures rc == 0 ==> Changed(old(slots), slots, lo, hi, None)
      ensures rc == 0 ==> var v := old(slots)[i];
                          && FreeSlots(slots) + One(v.start < lo) + One(hi < v.end) == old(FreeSlots(slots)) + 1
                          && (v.start < lo ==> EndsAt(slots, lo, v.kind))
                          && (hi < v.end ==> BeginsAt(slots, hi, v.kind))
      ensures rc == 0 ==> forall j :: 0 <= j < |slots| ==> PieceOf(old(slots), slots, i, lo, hi, j)
    {
      var v := slots[i];
      var left, right := lo > v.start, hi < v.end;
      NoFreeSlots(slots);
      var r := EmptySlot(slots);
      if left && right && r < 0 { return ENOMEM; }
      var s := if left then Vma(v.start, lo, v.kind) else if right then Vma(hi, v.end, v.kind) else Empty;
      FreeSlotsUpdate(slots, i, s);
      if left && right {
        FreeSlotsUpdate(slots[i := s], r, Vma(hi, v.end, v.kind));
        PunchTwo(slots, i, r, lo, hi);
        slots := slots[i := s][r := Vma(hi, v.end, v.kind)];
        assert slots[r].start == hi && slots[i].end == lo;
      } else {
        PunchOne(slots, i, s, lo, hi);
        slots := slots[i := s];
        assert left ==> slots[i].end == lo;
        assert right ==> slots[i].start == hi;
      }
      rc := 0;
    }

    /** `vma_remove`: all or nothing. It unmaps exactly the range; it fails with EINVAL exactly when the range is
        malformed or not wholly mapped, and for want of a slot only when the range lies inside one entry. */
    method Remove(start: nat, len: nat) returns (rc: int)
      requires Valid() && start < TWO64 && len < TWO64
      modifies this
      ensures Valid() && rc in {0, EINVAL, ENOMEM}
      ensures rc != 0 ==> slots == old(slots)
      ensures rc == 0 ==> Changed(old(slots), slots, start, RangeEnd(start, len), None)
      ensures rc == EINVAL <==> RangeEnd(start, len) <= start || !AllMapped(old(slots), start, RangeEnd(start, len))
      ensures rc != EINVAL ==> (rc == ENOMEM <==> NoRoom(old(slots), start, RangeEnd(start, len)))
    {
      var end := RangeEnd(start, len);
      if end <= start { return EINVAL; }
      var mapped := RangeOk(slots, start, len);
      if !mapped { return EINVAL; }
      ghost var was := slots;
      var cur := start;
      while cur < end
        invariant Valid() && start <= cur <= end && Changed(was, slots, start, cur, None)
        invariant if cur == start then slots == was else !NoRoom(was, start, end)
      {
        ghost var before := slots;
        ChangedMapped(was, slots, start, cur, None, cur);
        assert Mapped(slots, cur);
        var i := Containing(slots, cur);
        if cur > start { ChangedMapped(was, slots, start, cur, None, cur - 1); }
        var cut := if slots[i].end < end then slots[i].end else end;
        assert cur > start ==> !Covers(slots[i], cur - 1);
        Holder(slots, i, cur);
        rc := SplitForHole(i, cur, cut);
        if rc < 0 { return; }
        ChangedThen(was, before, slots, start, cur, cut, None);
        cur := cut;
      }
      rc := 0;
    }

    /** `vma_remove_overlaps`: unmaps the range whatever was mapped there; all or nothing too. */
    method RemoveOverlaps(start: nat, len: nat) returns (rc: int)
      requires Valid() && start < TWO64 && len < TWO64
      modifies this
      ensures Valid() && rc in {0, EINVAL, ENOMEM}
      ensures rc != 0 ==> slots == old(slots)
      ensures rc == 0 ==> Changed(old(slots), slots, start, RangeEnd(start, len), None)
      ensures rc == EINVAL <==> RangeEnd(start, len) <= start
      ensures rc != EINVAL ==> (rc == ENOMEM <==> NoRoom(old(slots), start, RangeEnd(start, len)))
    {
      var end := RangeEnd(start, len);
      if end <= start { return EINVAL; }
      ghost var was := slots;
      for i := 0 to SLOTS
        invariant Valid() && Thinned(was, slots, start, end)
        invariant forall j :: 0 <= j < i ==> !Overlaps(slots[j], start, end)
        invariant slots == was || (!NoRoom(was, start, end) && exists x :: start <= x < end && !Mapped(slots, x))
      {
        if !Overlaps(slots[i], start, end) { continue; }
        ghost var before := slots;
        var lo := if start > slots[i].start then start else slots[i].start;
        var hi := if end < slots[i].end then end else slots[i].end;
        StrictCover(slots, i, start, end);
        Holder(slots, i, lo);
        rc := SplitForHole(i, lo, hi);
        if rc < 0 { return; }
        ThinnedStep(was, before, slots, start, end, lo, hi);
        ChangedMapped(before, slots, lo, hi, None, lo);
        StillClear(before, slots, start, end, i, lo, hi);
      }
      ThinnedAll(was, slots, start, end);
      rc := 0;
    }

    /** First half of a turn of the loop of `vma_protect`: unmaps the entry at `cur`, as far as the range goes. */
    method CutOut(cur: nat, end: nat) returns (rc: int, cut: nat, k: Kind)
      requires Valid() && cur < end < TWO64 && Mapped(slots, cur)
      modifies this
      ensures Valid() && rc in {0, ENOMEM} && cur < cut <= end && Uniform(old(slots), cur, cut, k)
      ensures (cut < end ==> !Maps(old(slots), cut, k))
      ensures rc == ENOMEM <==> Ends(old(slots), cur, cut, k) == 2 && old(FreeSlots(slots)) == 0
      ensures rc != 0 ==> slots == old(slots)
      ensures rc == 0 ==> Changed(old(slots), slots, cur, cut, None) && FreeSlots(slots) + Ends(old(slots), cur, cut, k) == old(FreeSlots(slots)) + 1
    {
      var i := Containing(slots, cur);
      var v := slots[i];
      assert SlotOk(v);
      cut := if v.end < end then v.end else end;
      k := v.kind;
      forall x | v.start <= x < v.end ensures Maps(slots, x, k) { assert Covers(slots[i], x); }
      EntryEdges(slots, i, cur, cut);
      rc := SplitForHole(i, cur, cut);
    }

    /** The whole turn: unmaps the part and maps it anew. */
    method ProtectPart(cur: nat, end: nat, prot: nat) returns (rc: int, cut: nat, ghost k: Kind)
      requires Valid() && cur < end < TWO64 && Mapped(slots, cur)
      modifies this
      ensures Valid() && rc in {0, ENOMEM} && cur < cut <= end && Uniform(old(slots), cur, cut, k)
      ensures (cut < end ==> !Maps(old(slots), cut, k))
      ensures rc == ENOMEM <==> Blocked(old(slots), cur, cut, k, prot)
      ensures rc == 0 ==> Changed(old(slots), slots, cur, cut, Some(k.(prot := prot)))
      ensures rc == 0 ==> FreeSlots(slots) + Ends(old(slots), cur, cut, k) == old(FreeSlots(slots)) + Ends(old(slots), cur, cut, k.(prot := prot))
      ensures rc != 0 ==> Gap(old(slots), slots, cur, cut, k)
    {
      ghost var was := slots;
      var kind;
      rc, cut, kind := CutOut(cur, end);
      k := kind;
      if rc < 0 { return; }
      ghost var mid := slots;
      assert RangeEnd(cur, cut - cur) == cut;
      forall x | cur <= x < cut ensures !Mapped(mid, x) { ChangedMapped(was, mid, cur, cut, None, x); }
      rc := Add(cur, cut - cur, kind.(prot := prot));
      PartDone(was, mid, slots, cur, cut, kind, prot, kind.(prot := prot), rc == 0);
    }

    /** The loop of `vma_protect`. */
    method ProtectParts(start: nat, end: nat, prot: nat)
      returns (rc: int, ghost before: seq<Slot>, ghost at: nat, ghost cut: nat, ghost k: Kind)
      requires Valid() && start < end < TWO64 && AllMapped(slots, start, end)
      modifies this
      ensures Valid() && rc in {0, ENOMEM}
      ensures rc == 0 ==> Protected(old(slots), slots, start, end, prot)
      ensures rc == ENOMEM <==> Stuck(old(slots), start, end, prot)
      ensures rc == ENOMEM ==> old(FreeSlots(slots)) < 2 && SameOutside(old(slots), slots, start, end)
      ensures rc == ENOMEM ==>
                StuckAt(old(slots), start, end, prot, before, at, cut, k) && Gap(before, slots, at, cut, k)
                && (at == start ==> before == old(slots))
    {
      ghost var was := slots;
      before, at, cut, k := was, start, start, Kind(0, 0, false);
      var cur := start;
      while cur < end
        invariant Valid() && start <= cur <= end && Protected(was, slots, start, cur, prot)
        invariant (cur == start ==> slots == was)
        invariant cur < end ==> FreeSlots(slots) + One(cur > start) >= FreeSlots(was)
        invariant Border(was, start, cur, end) && NotBefore(was, start, end, prot, cur)
        decreases end - cur
      {
        ghost var here := slots;
        StillMapped(was, slots, start, cur, prot, cur);
        ghost var l;
        var next;
        rc, next, l := ProtectPart(cur, end, prot);
        NextPart(was, here, start, end, cur, next, l, prot);
        if cur > start && Starts(here, cur, l) { ProtectedKind(was, here, start, cur, prot, cur - 1, l); }
        if rc < 0 {
          ProtectStopped(was, here, slots, start, cur, next, end, prot);
          before, at, cut, k := here, cur, next, l;
          assert StuckAt(was, start, end, prot, before, at, cut, k);
          return;
        }
        Unstuck(was, here, start, end, cur, next, l, prot);
        ProtectedThen(was, here, slots, start, cur, next, prot, l);
        cur := next;
      }
      rc := 0;
    }

    /** `vma_protect`: changes the protection of exactly the range. EINVAL exactly when the range is malformed or not
        wholly mapped, and then nothing changes. It runs out of slots exactly when some part of one kind is `Blocked`
        once all before it is changed; with two free slots that cannot be. When it does run out, it has come to `at`,
        with table `before`, and `Gap` says what is left of the part there. */
    method Protect(start: nat, len: nat, prot: nat)
      returns (rc: int, ghost before: seq<Slot>, ghost at: nat, ghost cut: nat, ghost k: Kind)
      requires Valid() && start < TWO64 && len < TWO64
      modifies this
      ensures Valid() && rc in {0, EINVAL, ENOMEM}
      ensures rc == EINVAL <==> RangeEnd(start, len) <= start || !AllMapped(old(slots), start, RangeEnd(start, len))
      ensures rc == EINVAL ==> slots == old(slots)
      ensures rc == 0 ==> Protected(old(slots), slots, start, RangeEnd(start, len), prot)
      ensures rc != EINVAL ==> (rc == ENOMEM <==> Stuck(old(slots), start, RangeEnd(start, len), prot))
      ensures rc == ENOMEM ==> old(FreeSlots(slots)) < 2 && SameOutside(old(slots), slots, start, RangeEnd(start, len))
      ensures rc == ENOMEM ==>
                StuckAt(old(slots), start, RangeEnd(start, len), prot, before, at, cut, k)
                && Gap(before, slots, at, cut, k)
                && (at == start ==> before == old(slots))
      ensures forall l :: start < RangeEnd(start, len) && Uniform(old(slots), start, RangeEnd(start, len), l) ==>
                (rc == ENOMEM <==> Blocked(old(slots), start, RangeEnd(start, len), l, prot))
    {
      var end := RangeEnd(start, len);
      before, at, cut, k := slots, start, start, Kind(0, 0, false);
      if end <= start { rc := EINVAL; return; }
      forall l | Uniform(slots, start, end, l)
        ensures AllMapped(slots, start, end)
        ensures (Stuck(slots, start, end, prot) <==> Blocked(slots, start, end, l, prot))
      {
        UniformMapped(slots, start, end, l);
        OneKindStuck(slots, start, end, prot, l);
      }
      var mapped := RangeOk(slots, start, len);
      if !mapped { rc := EINVAL; return; }
      rc, before, at, cut, k := ProtectParts(start, end, prot);
    }
  }

  lemma OneFree(slots: seq<Slot>, s: Slot)
    requires slots != [] && slots[0].Empty? && s.Vma? && forall i :: 0 < i < |slots| ==> slots[i].Vma?
    ensures FreeSlots(slots) == 1
  {
    NoFreeSlots(slots[0 := s]);
    FreeSlotsUpdate(slots, 0, s);
  }

  lemma MiddleBlocked(slots: seq<Slot>, k: Kind)
    requires |slots| > 1 && slots[1] == Vma(0, 3, k) && k.prot == 1 && FreeSlots(slots) == 1
    requires forall i :: 0 <= i < |slots| && slots[i].Vma? ==> slots[i].kind == k
    ensures Uniform(slots, 1, 2, k) && Blocked(slots, 1, 2, k, 2)
  {
    assert Covers(slots[1], 0) && Covers(slots[1], 1) && Covers(slots[1], 2);
    assert Maps(slots, 0, k) && Maps(slots, 1, k) && Maps(slots, 2, k);
  }

  method AlmostFull(k: Kind) returns (t: Table)
    ensures fresh(t) && t.Valid() && FreeSlots(t.slots) == 1 && t.slots[1] == Vma(0, 3, k)
    ensures forall i :: 0 <= i < |t.slots| && t.slots[i].Vma? ==> t.slots[i].kind == k
  {
    t := new Table();
    t.slots := seq(SLOTS, i requires 0 <= i < SLOTS => if i == 0 then Empty else Vma(5 * i - 5, 5 * i - 2, k));
    OneFree(t.slots, t.slots[1]);
  }

  /** A table with one free slot, and a change of protection in the middle of an entry: it fails, and leaves that part
      of the entry unmapped. */
  method ProtectUnmaps() returns (t: Table, rc: int)
    ensures rc == ENOMEM && t.Valid() && !Mapped(t.slots, 1) && Mapped(t.slots, 0) && Mapped(t.slots, 2)
  {
    var k := Kind(1, 0, false);
    t := AlmostFull(k);
    ghost var was := t.slots;
    MiddleBlocked(was, k);
    ghost var before, at, cut, l;
    rc, before, at, cut, l := t.Protect(1, 1, 2);
    MapsOnce(was, 1, k, l);
    assert Covers(was[1], 0) && Covers(was[1], 2);
    ChangedMapped(was, t.slots, 1, 2, None, 0);
    ChangedMapped(was, t.slots, 1, 2, None, 1);
    ChangedMapped(was, t.slots, 1, 2, None, 2);
  }
}
