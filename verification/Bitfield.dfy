/**
 * The 512-bit field of a child: one bit per frame, set when the frame is allocated.
 *
 * A field is the set of its set bits; row `r` holds the bits 64r .. 64r + 63 and is the unit of
 * atomic update. The search inside one row is the word search of module `Words`.
 */
module Bitfield {
  import opened Blocks
  import opened Rows
  import opened Words

  const FIELD_N := 8

  /** An aligned block of 2^order clear bits starts at `p`. */
  ghost predicate FreeBlock(field: set<nat>, order: nat, p: nat)
    requires order <= 9
  {
    Aligned(p, order) && p + Pow2(order) <= 512 && Block(p, Pow2(order)) !! field
  }

  /** Row `r` holds the all-ones word (`full`) or zero. */
  predicate RowIs(field: set<nat>, r: nat, full: bool) {
    if full then Block(64 * r, 64) <= field else Block(64 * r, 64) !! field
  }

  /** The field with the bits of row `r` set or cleared. */
  function WithRow(field: set<nat>, r: nat, full: bool): set<nat> {
    if full then field + Block(64 * r, 64) else field - Block(64 * r, 64)
  }

  lemma FreeInWord(field: set<nat>, row: nat, order: nat, v: bv64, w: bv7, q: bv7)
    requires row < FIELD_N && order <= 6 && IsRow(field, row, v) && IsWidth(w) && w as nat == Pow2(order) && q < 64
    ensures ClearAt(v, w, q) <==> FreeBlock(field, order, Place(row, q))
  {
    PlaceAligned(row, order, w, q);
    if q & (w - 1) == 0 { ClearInSet(field, row, v, w, q); }
  }

  /** What the word search finds is the lowest free block of the row. */
  lemma LowestInRow(field: set<nat>, row: nat, order: nat, v: bv64, w: bv7, p: bv7, q: nat)
    requires row < FIELD_N && order <= 6 && IsRow(field, row, v) && IsWidth(w) && w as nat == Pow2(order)
    requires LowestClear(v, w, p)
    requires 64 * row <= q < 64 * row + 64 && FreeBlock(field, order, q)
    ensures Place(row, p) <= q
  {
    PlaceOf(row, q);
    var k := (q - 64 * row) as bv7;
    FreeInWord(field, row, order, v, w, k);
    PlaceOrder(row, p, k);
  }

  lemma RowSearch(field: set<nat>, row: nat, order: nat, v: bv64, w: bv7, p: bv7)
    requires row < FIELD_N && order <= 6 && IsRow(field, row, v) && IsWidth(w) && w as nat == Pow2(order)
    requires LowestClear(v, w, p)
    ensures p < 64 ==> FreeBlock(field, order, Place(row, p))
    ensures forall q :: 64 * row <= q < Place(row, p) ==> !FreeBlock(field, order, q)
    ensures Place(row, p) <= 64 * row + 64 && (p < 64 <==> Place(row, p) < 64 * row + 64)
  {
    PlaceOrder(row, p, 64);
    PlaceOrder(row, 64, p);
    if p < 64 { FreeInWord(field, row, order, v, w, p); }
    forall q | 64 * row <= q < Place(row, p) ensures !FreeBlock(field, order, q) {
      if FreeBlock(field, order, q) { LowestInRow(field, row, order, v, w, p, q); }
    }
  }

  /** No free block starts in row `r`. */
  ghost predicate RowExhausted(field: set<nat>, order: nat, r: nat)
    requires order <= 9
  {
    forall q :: 64 * r <= q < 64 * r + 64 ==> !FreeBlock(field, order, q)
  }

  /** `first_zeros_aligned` on one row: takes the lowest aligned block of clear bits. `v'` is the row's new word. */
  method RowFirstZeros(field: set<nat>, row: nat, order: nat)
    returns (found: bool, pos: nat, field': set<nat>, v': bv64)
    requires row < FIELD_N && order <= 6
    ensures found ==> FreeBlock(field, order, pos) && 64 * row <= pos < 64 * row + 64
    ensures found ==> forall q :: 64 * row <= q < pos ==> !FreeBlock(field, order, q)
    ensures !found ==> RowExhausted(field, order, row)
    ensures field' == if found then field + Block(pos, Pow2(order)) else field
    ensures IsRow(field', row, v')
  {
    var v := LoadRow(field, row);
    ghost var w;
    var p;
    found, v', p, w := FirstZerosAligned(v, order);
    RowSearch(field, row, order, v, w, p);
    pos, field' := Place(row, p), field;
    if found {
      field' := field + Block(pos, Pow2(order));
      FilledInSet(field, row, v, w, p, v');
    }
  }

  /** `pos` is the first free block when rows are visited from `row` on, wrapping around. */
  ghost predicate FirstInRows(field: set<nat>, order: nat, row: nat, pos: nat)
    requires order <= 9 && row < FIELD_N
  {
    && pos < 512
    && (forall q :: 64 * (pos / 64) <= q < pos ==> !FreeBlock(field, order, q))
    && (forall r :: 0 <= r < FIELD_N && Distance(row, r, FIELD_N) < Distance(row, pos / 64, FIELD_N) ==>
         RowExhausted(field, order, r))
  }

  /** Slot `s` of the multi-row orders is the block at s * 2^order. */
  ghost predicate SlotFree(field: set<nat>, order: nat, s: nat)
    requires 7 <= order <= 8
  {
    if order == 7 then FreeBlock(field, order, 128 * s) else FreeBlock(field, order, 256 * s)
  }

  /** ... and when the slots of a multi-row order are visited from the slot of `row` on. */
  ghost predicate FirstSlot(field: set<nat>, order: nat, row: nat, pos: nat)
    requires 7 <= order <= 8 && row < FIELD_N
  {
    var entries := if order == 7 then 2 else 4;
    var slots := FIELD_N / entries;
    && pos < 512
    && forall s :: 0 <= s < slots && Distance(row / entries, s, slots) < Distance(row / entries, pos / Pow2(order), slots) ==> !SlotFree(field, order, s)
  }

  method SetNextInRow(field: set<nat>, row: nat, order: nat) returns (found: bool, pos: nat, field': set<nat>)
    requires order <= 6 && row < FIELD_N
    ensures found ==> FreeBlock(field, order, pos) && field' == field + Block(pos, Pow2(order)) && FirstInRows(field, order, row, pos)
    ensures !found ==> field' == field && forall q: nat :: !FreeBlock(field, order, q)
  {
    field', pos := field, 0;
    var i := 0;
    while i < FIELD_N
      invariant i <= FIELD_N && field' == field
      invariant forall r :: 0 <= r < FIELD_N && Distance(row, r, FIELD_N) < i ==> RowExhausted(field, order, r)
    {
      var current := Offsetted(row, i, FIELD_N);
      var word;
      found, pos, field', word := RowFirstZeros(field, current, order);
      if found { return; }
      i := i + 1;
    }
    found := false;
    forall q: nat ensures !FreeBlock(field, order, q) {
      if q < 512 { assert RowExhausted(field, order, q / 64); }
    }
  }

  lemma SlotBlock(field: set<nat>, order: nat, s: nat)
    requires 7 <= order <= 8 && s < 512 / Pow2(order)
    ensures var b := s * (Pow2(order) / 64);
            SlotFree(field, order, s) == FreeBlock(field, order, b * 64) == (Block(64 * b, Pow2(order)) !! field)
            && b * 64 < 512 && b * 64 / Pow2(order) == s
  {
    if order == 7 { assert Pow2(order) / 64 == 2; } else { assert Pow2(order) / 64 == 4; }
  }

  lemma SlotOf(field: set<nat>, order: nat, q: nat)
    requires 7 <= order <= 8
    ensures FreeBlock(field, order, q) ==>
              q / Pow2(order) < FIELD_N / (Pow2(order) / 64) && SlotFree(field, order, q / Pow2(order))
  {
    if order == 7 {} else {}
  }

  method UndoRows(field: set<nat>, set_: set<nat>, base: nat, i: nat) returns (field': set<nat>)
    requires Block(64 * base, 64 * i) !! field && set_ == field + Block(64 * base, 64 * i)
    ensures field' == field
  {
    field' := set_;
    var j := 0;
    while j < i
      invariant j <= i
      invariant Block(64 * (base + j), 64 * (i - j)) !! field && field' == field + Block(64 * (base + j), 64 * (i - j))
    {
      SplitBlock(64 * (base + j), 64, 64 * (i - j - 1));
      if RowIs(field', base + j, true) { field' := WithRow(field', base + j, false); }
      j := j + 1;
    }
  }

  /** Sets `entries` consecutive rows, or undoes the rows already set. */
  method SetRows(field: set<nat>, base: nat, entries: nat) returns (ok: bool, field': set<nat>)
    ensures ok <==> Block(64 * base, 64 * entries) !! field
    ensures field' == if ok then field + Block(64 * base, 64 * entries) else field
  {
    field' := field;
    var i := 0;
    while i < entries
      invariant i <= entries
      invariant Block(64 * base, 64 * i) !! field && field' == field + Block(64 * base, 64 * i)
    {
      SplitBlock(64 * base, 64 * i, 64);
      if RowIs(field', base + i, false) {
        field' := WithRow(field', base + i, true);
        i := i + 1;
      } else {
        SplitBlock(64 * base, 64 * (i + 1), 64 * (entries - (i + 1)));
        field' := UndoRows(field, field', base, i);
        return false, field';
      }
    }
    ok := true;
  }

  method SetNextRows(field: set<nat>, row: nat, order: nat) returns (found: bool, pos: nat, field': set<nat>)
    requires 7 <= order <= 8 && row < FIELD_N
    ensures found ==> FreeBlock(field, order, pos) && field' == field + Block(pos, Pow2(order)) && FirstSlot(field, order, row, pos)
    ensures !found ==> field' == field && forall q: nat :: !FreeBlock(field, order, q)
  {
    field', pos := field, 0;
    var entries := if order == 7 then 2 else 4;
    var slots := FIELD_N / entries;
    var first := row / entries;
    var i := 0;
    while i < slots
      invariant i <= slots && field' == field
      invariant forall s :: 0 <= s < slots && Distance(first, s, slots) < i ==> !SlotFree(field, order, s)
    {
      var current := Offsetted(first, i, slots);
      SlotBlock(field, order, current);
      found, field' := SetRows(field, current * entries, entries);
      if found { return true, current * entries * 64, field'; }
      i := i + 1;
    }
    found := false;
    forall q: nat ensures !FreeBlock(field, order, q) { SlotOf(field, order, q); }
  }

  /** Finds and sets an aligned block, starting at the row of `start` and wrapping around. */
  method FieldSetNext(field: set<nat>, start: nat, order: nat) returns (found: bool, pos: nat, field': set<nat>)
    requires order <= 8
    ensures found ==> FreeBlock(field, order, pos) && field' == field + Block(pos, Pow2(order))
    ensures found ==> if order <= 6 then FirstInRows(field, order, start / 64 % FIELD_N, pos)
                      else FirstSlot(field, order, start / 64 % FIELD_N, pos)
    ensures !found ==> field' == field && forall q: nat :: !FreeBlock(field, order, q)
  {
    if order <= 6 {
      found, pos, field' := SetNextInRow(field, start / 64 % FIELD_N, order);
    } else {
      found, pos, field' := SetNextRows(field, start / 64 % FIELD_N, order);
    }
  }

  // ---- toggling ----

  /** Every bit of the block has the value `full`. */
  predicate BlockIs(field: set<nat>, p: nat, n: nat, full: bool) {
    if full then Block(p, n) <= field else Block(p, n) !! field
  }

  ghost function WithBlock(field: set<nat>, p: nat, n: nat, full: bool): set<nat> {
    if full then field + Block(p, n) else field - Block(p, n)
  }

  /** The toggle changes its first row and then meets a row it cannot change. */
  predicate Torn(field: set<nat>, index: nat, order: nat, expected: bool)
    requires order <= 9
  {
    order > 6 && RowIs(field, index / 64, expected) && !BlockIs(field, index, Pow2(order), expected)
  }

  /** Exactly one row was changed and not restored. */
  ghost predicate OneRowFlipped(field: set<nat>, field': set<nat>, expected: bool) {
    exists r: nat :: RowIs(field, r, expected) && field' == WithRow(field, r, !expected)
  }

  lemma RowsOfBlock(index: nat, order: nat)
    requires 6 <= order <= 9 && Aligned(index, order)
    ensures 64 * (index / 64) == index && 64 * (Pow2(order) / 64) == Pow2(order)
  {
    match order { case 6 => case 7 => case 8 => case _ => }
  }

  /** The undo loop as written: its first comparison is against the word from before the toggle, so the
      row changed last stays changed. */
  method UndoToggle(field: set<nat>, toggled: set<nat>, base: nat, i: nat, expected: bool) returns (field': set<nat>)
    requires BlockIs(field, 64 * base, 64 * i, expected) && toggled == WithBlock(field, 64 * base, 64 * i, !expected)
    ensures field' == if i == 0 then field else WithRow(field, base + i - 1, !expected)
  {
    field' := toggled;
    var mask := expected;
    var j := 0;
    while j < i
      invariant j <= i
      invariant mask == if j == 0 then expected else !expected
      invariant BlockIs(field, 64 * base, 64 * (i - j), expected)
      invariant field' == if j == 0 then toggled
                          else WithRow(WithBlock(field, 64 * base, 64 * (i - j), !expected), base + i - 1, !expected)
    {
      var r := base + i - j - 1;
      SplitBlock(64 * base, 64 * (i - j - 1), 64);
      assert 64 * r in Block(64 * r, 64);
      if RowIs(field', r, mask) {
        field' := WithRow(field', r, !mask);
      } else {
        mask := RowIs(field', r, true);
      }
      j := j + 1;
    }
  }

  /** The multi-row form: rows are changed one at a time. */
  method ToggleRows(field: set<nat>, base: nat, entries: nat, expected: bool) returns (ok: bool, field': set<nat>)
    ensures ok <==> BlockIs(field, 64 * base, 64 * entries, expected)
    ensures ok ==> field' == WithBlock(field, 64 * base, 64 * entries, !expected)
    ensures !ok && !RowIs(field, base, expected) ==> field' == field
    ensures !ok && RowIs(field, base, expected) ==> OneRowFlipped(field, field', expected)
  {
    field' := field;
    var i := 0;
    while i < entries
      invariant i <= entries
      invariant BlockIs(field, 64 * base, 64 * i, expected) && field' == WithBlock(field, 64 * base, 64 * i, !expected)
    {
      SplitBlock(64 * base, 64 * i, 64);
      if RowIs(field', base + i, expected) {
        field' := WithRow(field', base + i, !expected);
        i := i + 1;
      } else {
        SplitBlock(64 * base, 64 * (i + 1), 64 * (entries - (i + 1)));
        field' := UndoToggle(field, field', base, i, expected);
        if i > 0 {
          SplitBlock(64 * base, 64, 64 * (i - 1));
          SplitBlock(64 * base, 64 * (i - 1), 64);
          assert RowIs(field, base + i - 1, expected);
        }
        return false, field';
      }
    }
    ok := true;
  }

  /** Flips an aligned block whose bits all equal `expected`. */
  method FieldToggle(field: set<nat>, index: nat, order: nat, expected: bool) returns (ok: bool, field': set<nat>)
    requires order <= 9 && Aligned(index, order) && index + Pow2(order) <= 512
    ensures ok <==> BlockIs(field, index, Pow2(order), expected)
    ensures ok ==> field' == WithBlock(field, index, Pow2(order), !expected)
    ensures !ok && !Torn(field, index, order, expected) ==> field' == field
    ensures !ok && Torn(field, index, order, expected) ==> OneRowFlipped(field, field', expected)
  {
    if order <= 6 {
      // one atomic row update: test all bits under the mask, then flip them
      var n := Pow2(order);
      if expected && Block(index, n) <= field { return true, field - Block(index, n); }
      if !expected && Block(index, n) !! field { return true, field + Block(index, n); }
      return false, field;
    }
    RowsOfBlock(index, order);
    ok, field' := ToggleRows(field, index / 64, Pow2(order) / 64, expected);
  }

  lemma FlippedRowSize(field: set<nat>, field': set<nat>, expected: bool)
    requires OneRowFlipped(field, field', expected)
    ensures |field'| == |field| + if expected then -64 else 64
  {
    var r: nat :| RowIs(field, r, expected) && field' == WithRow(field, r, !expected);
    if expected { RemoveBlock(field, 64 * r, 64); } else { AddBlock(field, 64 * r, 64); }
  }

  /** A field for which the undo of a failed toggle does not restore what was there. */
  method TornToggle() returns (ok: bool, field': set<nat>)
    ensures !ok && field' != {64}
  {
    assert 64 in Block(64, 64) && 64 in Block(0, Pow2(7));
    ok, field' := FieldToggle({64}, 0, 7, false);
    FlippedRowSize({64}, field', false);
  }
}
