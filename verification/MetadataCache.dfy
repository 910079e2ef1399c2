/**
 * The write-back metadata cache of ext2: 64 slots in 16 sets of 4 ways, round-robin eviction. Device
 * operations succeed.
 */
module MetadataCache {

  const WAYS: nat := 4

  const SETS: nat := 16

  const ENTRIES: nat := 64

  type Data = seq<nat>

  datatype Slot = Slot(blk: nat, valid: bool, dirty: bool, data: Data)

  type Device = map<nat, Data>

  /** A block never written reads as some fixed contents. */
  function Read(device: Device, b: nat): Data {
    if b in device then device[b] else []
  }

  predicate Holds(s: Slot, b: nat) {
    s.valid && s.blk == b
  }

  /** A valid slot is in the set of its block; a clean one agrees with the device; an invalid one is clean. */
  predicate SlotOk(slots: seq<Slot>, device: Device, i: nat)
    requires i < |slots|
  {
    && (slots[i].valid ==> slots[i].blk % SETS == i / WAYS)
    && (slots[i].valid && !slots[i].dirty ==> slots[i].data == Read(device, slots[i].blk))
    && (slots[i].dirty ==> slots[i].valid)
  }

  ghost predicate CacheOk(slots: seq<Slot>, device: Device) {
    && |slots| == ENTRIES
    && (forall i :: 0 <= i < ENTRIES ==> SlotOk(slots, device, i))
    && (forall i, j :: 0 <= i < ENTRIES && 0 <= j < ENTRIES && slots[i].valid && slots[j].valid && slots[i].blk == slots[j].blk ==> i == j)
  }

  /** The four slots where block `b` can be. */
  function Way(b: nat, way: nat): (i: nat)
    requires way < WAYS
    ensures i < ENTRIES && i / WAYS == b % SETS
  {
    b % SETS * WAYS + way
  }

  /** `meta_cache_find`, as a search through the ways. */
  function FindFrom(slots: seq<Slot>, b: nat, way: nat): (i: int)
    requires |slots| == ENTRIES && way <= WAYS
    ensures i >= 0 ==> i < ENTRIES && Holds(slots[i], b) && i / WAYS == b % SETS
    ensures i < 0 ==> forall w :: way <= w < WAYS ==> !Holds(slots[Way(b, w)], b)
    decreases WAYS - way
  {
    if way == WAYS then -1
    else if Holds(slots[Way(b, way)], b) then Way(b, way)
    else FindFrom(slots, b, way + 1)
  }

  function Find(slots: seq<Slot>, b: nat): int
    requires |slots| == ENTRIES
  {
    FindFrom(slots, b, 0)
  }

  /** The disk the cache stands for. */
  function Disk(slots: seq<Slot>, device: Device, b: nat): Data
    requires |slots| == ENTRIES
  {
    if Find(slots, b) >= 0 then slots[Find(slots, b)].data else Read(device, b)
  }

  lemma SlotIsWay(i: nat, b: nat)
    requires i < ENTRIES && i / WAYS == b % SETS
    ensures i % WAYS < WAYS && Way(b, i % WAYS) == i
  {}

  /** The search finds a block exactly where it is. */
  lemma FindIs(slots: seq<Slot>, device: Device, b: nat, i: nat)
    requires CacheOk(slots, device) && i < ENTRIES
    ensures Holds(slots[i], b) <==> Find(slots, b) == i
  {
    if Holds(slots[i], b) {
      assert SlotOk(slots, device, i);
      SlotIsWay(i, b);
      assert Find(slots, b) >= 0;
    }
  }

  /** Changing one slot changes the disk at most at the blocks it held and holds. */
  lemma OneSlot(slots: seq<Slot>, device: Device, i: nat, s: Slot, device': Device, b: nat)
    requires CacheOk(slots, device) && i < ENTRIES && CacheOk(slots[i := s], device')
    ensures Disk(slots[i := s], device', b)
         == if Holds(s, b) then s.data else if Holds(slots[i], b) then Read(device', b)
            else if Find(slots, b) >= 0 then slots[Find(slots, b)].data else Read(device', b)
  {
    var after := slots[i := s];
    FindIs(after, device', b, i);
    var j := Find(slots, b);
    if !Holds(s, b) {
      if j >= 0 && j != i {
        FindIs(after, device', b, j);
      } else if Find(after, b) >= 0 {
        FindIs(slots, device, b, Find(after, b));
      }
    }
  }

  ghost predicate DiskIs(slots: seq<Slot>, device: Device, slots': seq<Slot>, device': Device, b: nat, data: Data)
    requires |slots| == |slots'| == ENTRIES
  {
    forall x: nat :: Disk(slots', device', x) == if x == b then data else Disk(slots, device, x)
  }

  ghost predicate SameDisk(slots: seq<Slot>, device: Device, slots': seq<Slot>, device': Device)
    requires |slots| == |slots'| == ENTRIES
  {
    forall x: nat :: Disk(slots', device', x) == Disk(slots, device, x)
  }

  /** Where the device changed, it caught up with the disk. */
  ghost predicate CaughtUp(slots: seq<Slot>, device: Device, device': Device)
    requires |slots| == ENTRIES
  {
    forall x: nat :: Read(device', x) == Read(device, x) || Read(device', x) == Disk(slots, device, x)
  }

  /** Writing a dirty slot back. */
  lemma WriteBack(slots: seq<Slot>, device: Device, i: nat, s: Slot, device': Device)
    requires CacheOk(slots, device) && i < ENTRIES && slots[i].dirty && s == slots[i].(dirty := false)
    requires device' == device[slots[i].blk := slots[i].data]
    ensures CacheOk(slots[i := s], device') && SameDisk(slots, device, slots[i := s], device')
    ensures CaughtUp(slots, device, device')
  {
    var after := slots[i := s];
    assert SlotOk(slots, device, i);
    FindIs(slots, device, slots[i].blk, i);
    forall j | 0 <= j < ENTRIES ensures SlotOk(after, device', j) { assert SlotOk(slots, device, j); }
    forall x: nat ensures Disk(after, device', x) == Disk(slots, device, x) {
      OneSlot(slots, device, i, s, device', x);
      FindIs(slots, device, x, i);
    }
  }

  /** Putting block `b` in a clean slot of its set, or over itself. */
  lemma Place(slots: seq<Slot>, device: Device, i: nat, s: Slot, b: nat)
    requires CacheOk(slots, device) && i < ENTRIES && i / WAYS == b % SETS && s.valid && s.blk == b
    requires Find(slots, b) == i || (Find(slots, b) < 0 && !slots[i].dirty)
    requires !s.dirty ==> s.data == Read(device, b)
    ensures CacheOk(slots[i := s], device) && DiskIs(slots, device, slots[i := s], device, b, s.data)
  {
    var after := slots[i := s];
    assert SlotOk(slots, device, i);
    forall j | 0 <= j < ENTRIES ensures SlotOk(after, device, j) { assert SlotOk(slots, device, j); }
    forall j | 0 <= j < ENTRIES && j != i ensures !Holds(slots[j], b) { FindIs(slots, device, b, j); }
    forall x: nat ensures Disk(after, device, x) == if x == b then s.data else Disk(slots, device, x) {
      OneSlot(slots, device, i, s, device, x);
      FindIs(slots, device, x, i);
    }
  }

  /** Writing the device under the cache and dropping the slot of the block. */
  lemma WriteUnder(slots: seq<Slot>, device: Device, b: nat, data: Data, after: seq<Slot>)
    requires CacheOk(slots, device)
    requires var i := Find(slots, b); after == if i >= 0 then slots[i := slots[i].(valid := false, dirty := false)]
                                               else slots
    ensures CacheOk(after, device[b := data]) && DiskIs(slots, device, after, device[b := data], b, data)
  {
    var device' := device[b := data];
    var i := Find(slots, b);
    forall j | 0 <= j < ENTRIES ensures SlotOk(after, device', j) {
      assert SlotOk(slots, device, j);
      FindIs(slots, device, b, j);
    }
    forall x: nat ensures Disk(after, device', x) == if x == b then data else Disk(slots, device, x) {
      if i >= 0 {
        OneSlot(slots, device, i, after[i], device', x);
        FindIs(slots, device, x, i);
      }
    }
  }

  // ---- the uncached disk ----

  datatype Op = ReadOp(b: nat) | DirectReadOp(b: nat) | WriteOp(b: nat, data: Data) | DirectOp(b: nat, data: Data) | FlushOp

  /** What block `b` holds after a sequence of operations: the last thing written to it. */
  function LastWrite(ops: seq<Op>, base: Device, b: nat): Data {
    if ops == [] then Read(base, b)
    else
      var op := ops[|ops| - 1];
      if (op.WriteOp? || op.DirectOp?) && op.b == b then op.data else LastWrite(ops[..|ops| - 1], base, b)
  }

  ghost predicate Agrees(slots: seq<Slot>, device: Device, ops: seq<Op>, base: Device)
    requires |slots| == ENTRIES
  {
    forall b: nat :: Disk(slots, device, b) == LastWrite(ops, base, b)
  }

  ghost predicate Flushed(device: Device, ops: seq<Op>, base: Device) {
    forall b: nat :: Read(device, b) == LastWrite(ops, base, b)
  }

  /** Since block `b` was last written directly, or the cache flushed, it was not written through the cache. */
  predicate Direct(ops: seq<Op>, b: nat, start: bool) {
    if ops == [] then start
    else
      var op := ops[|ops| - 1];
      op.FlushOp? || (op.DirectOp? && op.b == b) || (!(op.WriteOp? && op.b == b) && Direct(ops[..|ops| - 1], b, start))
  }

  /** The device holds the last writes of all blocks that are used directly. */
  ghost predicate InStep(device: Device, ops: seq<Op>, base: Device, start: bool) {
    forall b: nat :: Direct(ops, b, start) ==> Read(device, b) == LastWrite(ops, base, b)
  }

  lemma InStepOn(slots: seq<Slot>, device: Device, ops: seq<Op>, op: Op, base: Device, start: bool, slots': seq<Slot>,
                 device': Device)
    requires |slots| == |slots'| == ENTRIES && Agrees(slots, device, ops, base) && InStep(device, ops, base, start)
    requires if op.DirectOp? then device' == device[op.b := op.data] else CaughtUp(slots, device, device')
    requires op.FlushOp? ==> forall b: nat :: Read(device', b) == Disk(slots, device, b)
    ensures InStep(device', ops + [op], base, start)
  {
    forall b: nat | Direct(ops + [op], b, start) ensures Read(device', b) == LastWrite(ops + [op], base, b) {
      assert (ops + [op])[..|ops|] == ops;
      assert Disk(slots, device, b) == LastWrite(ops, base, b);
    }
  }

  /** Operation `i` is a read that must return the last write. */
  predicate Current(ops: seq<Op>, i: nat, start: bool)
    requires i < |ops|
  {
    ops[i].ReadOp? || (ops[i].DirectReadOp? && Direct(ops[..i], ops[i].b, start))
  }

  lemma ReadIs(slots: seq<Slot>, device: Device, ops: seq<Op>, i: nat, base: Device, start: bool, r: Data)
    requires |slots| == ENTRIES && i < |ops| && Agrees(slots, device, ops[..i], base)
    requires InStep(device, ops[..i], base, start)
    requires ops[i].ReadOp? ==> r == Disk(slots, device, ops[i].b)
    requires ops[i].DirectReadOp? ==> r == Read(device, ops[i].b)
    ensures Current(ops, i, start) ==> r == LastWrite(ops[..i], base, ops[i].b)
  {}

  lemma AgreesOn(slots: seq<Slot>, device: Device, ops: seq<Op>, op: Op, base: Device, slots': seq<Slot>,
                 device': Device)
    requires |slots| == |slots'| == ENTRIES && Agrees(slots, device, ops, base)
    requires if op.WriteOp? || op.DirectOp? then DiskIs(slots, device, slots', device', op.b, op.data)
             else SameDisk(slots, device, slots', device')
    ensures Agrees(slots', device', ops + [op], base)
  {}

  lemma NotFound(slots: seq<Slot>, device: Device, b: nat, i: nat, s: Slot, device': Device)
    requires CacheOk(slots, device) && i < ENTRIES && CacheOk(slots[i := s], device') && s == slots[i].(dirty := false)
    requires Find(slots, b) < 0
    ensures Find(slots[i := s], b) < 0
  {}

  /** What holds after the first `i` operations. */
  ghost predicate Far(slots: seq<Slot>, device: Device, ops: seq<Op>, i: nat, base: Device, start: bool,
                      results: seq<Data>)
    requires |slots| == ENTRIES && i <= |ops|
  {
    && |results| == i && Agrees(slots, device, ops[..i], base) && InStep(device, ops[..i], base, start)
    && forall j :: 0 <= j < i && Current(ops, j, start) ==> results[j] == LastWrite(ops[..j], base, ops[j].b)
  }

  /** What one operation does. */
  ghost predicate Done(op: Op, slots: seq<Slot>, device: Device, r: Data, slots': seq<Slot>, device': Device)
    requires |slots| == |slots'| == ENTRIES
  {
    && (op.ReadOp? ==> r == Disk(slots, device, op.b))
    && (op.DirectReadOp? ==> r == Read(device, op.b))
    && (if op.DirectOp? then device' == device[op.b := op.data] else CaughtUp(slots, device, device'))
    && (if op.WriteOp? || op.DirectOp? then DiskIs(slots, device, slots', device', op.b, op.data)
        else SameDisk(slots, device, slots', device'))
    && (op.FlushOp? ==> forall b: nat :: Read(device', b) == Disk(slots, device, b))
  }

  lemma Further(slots: seq<Slot>, device: Device, ops: seq<Op>, i: nat, base: Device, start: bool, results: seq<Data>,
                r: Data,
                slots': seq<Slot>, device': Device)
    requires |slots| == |slots'| == ENTRIES && i < |ops| && Far(slots, device, ops, i, base, start, results)
    requires Done(ops[i], slots, device, r, slots', device')
    ensures Far(slots', device', ops, i + 1, base, start, results + [r])
  {
    ReadIs(slots, device, ops, i, base, start, r);
    assert ops[..i + 1] == ops[..i] + [ops[i]];
    AgreesOn(slots, device, ops[..i], ops[i], base, slots', device');
    InStepOn(slots, device, ops[..i], ops[i], base, start, slots', device');
  }

  class Cache {
    var slots: seq<Slot>
    var next: seq<nat>
    var device: map<nat, Data>

    ghost predicate Valid()
      reads this
    {
      CacheOk(slots, device) && |next| == SETS && forall i :: 0 <= i < SETS ==> next[i] < WAYS
    }

    constructor (disk: map<nat, Data>)
      ensures Valid() && device == disk && forall b: nat :: Disk(slots, device, b) == Read(disk, b)
    {
      slots := seq(ENTRIES, _ => Slot(0, false, false, []));
      next := seq(SETS, _ => 0);
      device := disk;
    }

    /** `meta_cache_find`. */
    method FindSlot(b: nat) returns (i: int)
      requires |slots| == ENTRIES
      ensures i == Find(slots, b)
    {
      for way := 0 to WAYS
        invariant FindFrom(slots, b, way) == Find(slots, b)
      {
        if Holds(slots[Way(b, way)], b) { return Way(b, way); }
      }
      i := -1;
    }

    /** `meta_cache_victim`: a slot of the set that may be overwritten, written back first if need be. */
    method Victim(b: nat) returns (i: nat)
      requires Valid() && Find(slots, b) < 0
      modifies this
      ensures Valid() && i < ENTRIES && i / WAYS == b % SETS && !slots[i].dirty && Find(slots, b) < 0
      ensures SameDisk(old(slots), old(device), slots, device) && CaughtUp(old(slots), old(device), device)
    {
      for way := 0 to WAYS
        invariant Valid() && slots == old(slots) && device == old(device) && next == old(next)
      {
        i := Way(b, way);
        assert SlotOk(slots, device, i);
        if !slots[i].valid { return; }
      }
      var group := b % SETS;
      i := Way(b, next[group]);
      next := next[group := (next[group] + 1) % WAYS];
      if slots[i].dirty {
        var s := slots[i].(dirty := false);
        WriteBack(slots, device, i, s, device[slots[i].blk := slots[i].data]);
        NotFound(slots, device, b, i, s, device[slots[i].blk := slots[i].data]);
        device := device[slots[i].blk := slots[i].data];
        slots := slots[i := s];
      }
    }

    /** `read_meta_block`. */
    method ReadMeta(b: nat) returns (buf: Data)
      requires Valid()
      modifies this
      ensures Valid() && buf == old(Disk(slots, device, b)) && SameDisk(old(slots), old(device), slots, device)
      ensures CaughtUp(old(slots), old(device), device)
    {
      var found := FindSlot(b);
      if found >= 0 { return slots[found].data; }
      var i := Victim(b);
      buf := Read(device, b);
      Place(slots, device, i, Slot(b, true, slots[i].dirty, buf), b);
      slots := slots[i := Slot(b, true, slots[i].dirty, buf)];
    }

    /** `write_meta_block`. */
    method WriteMeta(b: nat, buf: Data)
      requires Valid()
      modifies this
      ensures Valid() && DiskIs(old(slots), old(device), slots, device, b, buf)
      ensures CaughtUp(old(slots), old(device), device)
    {
      var i := FindSlot(b);
      if i < 0 { i := Victim(b); }
      Place(slots, device, i, Slot(b, true, true, buf), b);
      slots := slots[i := Slot(b, true, true, buf)];
    }

    /** `write_block`: straight to the device; a cached copy is dropped. */
    method WriteDirect(b: nat, buf: Data)
      requires Valid()
      modifies this`slots, this`device
      ensures Valid() && DiskIs(old(slots), old(device), slots, device, b, buf)
      ensures device == old(device)[b := buf]
    {
      device := device[b := buf];
      var i := FindSlot(b);
      if i >= 0 { slots := slots[i := slots[i].(valid := false, dirty := false)]; }
      WriteUnder(old(slots), old(device), b, buf, slots);
    }

    /** `flush_metadata`: afterwards the device is the disk the cache stood for. */
    method Flush()
      requires Valid()
      modifies this`slots, this`device
      ensures Valid() && SameDisk(old(slots), old(device), slots, device)
      ensures forall b: nat :: Read(device, b) == old(Disk(slots, device, b))
    {
      for i := 0 to ENTRIES
        invariant Valid() && SameDisk(old(slots), old(device), slots, device)
        invariant forall j :: 0 <= j < i ==> !slots[j].dirty
      {
        if slots[i].valid && slots[i].dirty {
          var s := slots[i].(dirty := false);
          WriteBack(slots, device, i, s, device[slots[i].blk := slots[i].data]);
          device := device[slots[i].blk := slots[i].data];
          slots := slots[i := s];
        } else {
          assert SlotOk(slots, device, i);
        }
      }
      forall b: nat ensures Read(device, b) == Disk(slots, device, b) {
        if Find(slots, b) >= 0 { assert SlotOk(slots, device, Find(slots, b)); }
      }
    }

    /** `read_block`: straight from the device. It returns what the block holds exactly unless a dirty slot holds
        something else. */
    method ReadDirect(b: nat) returns (buf: Data)
      requires Valid()
      ensures buf == Read(device, b)
      ensures buf == Disk(slots, device, b)
              <==> (Find(slots, b) >= 0 && slots[Find(slots, b)].dirty ==> slots[Find(slots, b)].data == buf)
    {
      buf := Read(device, b);
      if Find(slots, b) >= 0 { assert SlotOk(slots, device, Find(slots, b)); }
    }

    method Do(op: Op) returns (r: Data)
      requires Valid()
      modifies this
      ensures Valid() && Done(op, old(slots), old(device), r, slots, device)
    {
      r := [];
      match op {
        case ReadOp(b) => r := ReadMeta(b);
        case DirectReadOp(b) => r := ReadDirect(b);
        case WriteOp(b, data) => WriteMeta(b, data);
        case DirectOp(b, data) => WriteDirect(b, data);
        case FlushOp => Flush();
      }
    }

    /** Every run refines the uncached disk: each read returns the last write, whatever was evicted or flushed in
        between, a direct read too if the block is used directly since it was last written directly or flushed; and
        a run that ends with a flush leaves the last writes on the device. */
    method Run(ops: seq<Op>, ghost base: Device) returns (results: seq<Data>)
      requires Valid() && Agrees(slots, device, [], base)
      modifies this
      ensures Valid() && Agrees(slots, device, ops, base)
      ensures |results| == |ops|
      ensures forall i :: 0 <= i < |ops| && Current(ops, i, old(Flushed(device, [], base))) ==>
                results[i] == LastWrite(ops[..i], base, ops[i].b)
      ensures InStep(device, ops, base, old(Flushed(device, [], base)))
      ensures |ops| > 0 && ops[|ops| - 1].FlushOp? ==> Flushed(device, ops, base)
    {
      ghost var start := Flushed(device, [], base);
      results := [];
      for i := 0 to |ops|
        invariant Valid() && Far(slots, device, ops, i, base, start, results)
      {
        ghost var slots0, device0 := slots, device;
        var r := Do(ops[i]);
        Further(slots0, device0, ops, i, base, start, results, r, slots, device);
        results := results + [r];
      }
      assert ops[..|ops|] == ops;
    }
  }

  /** A write through the cache and a direct read after it, which misses it. */
  method StaleDirect(data: Data) returns (buf: Data, meta: Data)
    requires data != []
    ensures buf != data && meta == data
  {
    var c := new Cache(map[]);
    c.WriteMeta(0, data);
    buf := c.ReadDirect(0);
    meta := c.ReadMeta(0);
  }
}
