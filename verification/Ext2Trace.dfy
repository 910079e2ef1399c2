/** What a volume's accesses mean for the metadata cache: which blocks go through it, and which are read straight. */
module Ext2Trace {
  import opened BlockTree
  import Cache = MetadataCache

  type Trace = seq<Cache.Op>

  /** What was last written to every block is what the volume holds for it. */
  ghost predicate Shows(blocks: map<nat, seq<nat>>, trace: Trace) {
    forall b: nat :: b in blocks ==> blocks[b] == Cache.LastWrite(trace, map[], b)
  }

  /** Block `b` was not written through the cache since it was last written directly. */
  ghost predicate Straight(trace: Trace, b: nat) {
    Cache.Direct(trace, b, true)
  }

  /** Block `b` is a pointer block of the file. */
  ghost predicate PtrBlock(P: nat, s: Image, b: nat)
    requires P > 0 && |s.root| == SLOTS
  {
    b != 0 && exists n :: IsNode(P, n) && n.height > 0 && At(P, s, n) == b
  }

  /** The trace grew; only pointer blocks were written through the cache. */
  ghost predicate Grown(P: nat, s: Image, before: Trace, trace: Trace)
    requires P > 0 && |s.root| == SLOTS
  {
    && before <= trace
    && forall i :: |before| <= i < |trace| && trace[i].WriteOp? ==> PtrBlock(P, s, trace[i].b)
  }

  /** Pointer blocks stay. */
  ghost predicate PtrsKept(P: nat, s: Image, s': Image)
    requires P > 0 && |s.root| == |s'.root| == SLOTS
  {
    forall m :: IsNode(P, m) && m.height > 0 && At(P, s, m) != 0 ==> At(P, s', m) == At(P, s, m)
  }

  lemma GrownThen(P: nat, s: Image, s': Image, t0: Trace, t1: Trace, t2: Trace)
    requires P > 0 && |s.root| == |s'.root| == SLOTS && PtrsKept(P, s, s') && Grown(P, s, t0, t1)
    requires Grown(P, s', t1, t2)
    ensures Grown(P, s', t0, t2)
  {
    forall i | |t0| <= i < |t2| && t2[i].WriteOp? ensures PtrBlock(P, s', t2[i].b) {
      if i < |t1| {
        assert t2[i] == t1[i];
        var n :| IsNode(P, n) && n.height > 0 && At(P, s, n) == t1[i].b;
        assert At(P, s', n) == t1[i].b;
      }
    }
  }

  /** A direct write. */
  lemma ShowsDirect(blocks: map<nat, seq<nat>>, trace: Trace, b: nat, data: seq<nat>)
    ensures Shows(blocks, trace) ==> Shows(blocks[b := data], trace + [Cache.DirectOp(b, data)])
    ensures Straight(trace + [Cache.DirectOp(b, data)], b)
  {
    var more := trace + [Cache.DirectOp(b, data)];
    assert more[..|trace|] == trace;
  }

  /** A write through the cache. */
  lemma ShowsWrite(blocks: map<nat, seq<nat>>, trace: Trace, b: nat, data: seq<nat>)
    ensures Shows(blocks, trace) ==> Shows(blocks[b := data], trace + [Cache.WriteOp(b, data)])
  {
    var more := trace + [Cache.WriteOp(b, data)];
    assert more[..|trace|] == trace;
  }

  lemma {:induction false} StillStraight(before: Trace, trace: Trace, b: nat)
    requires before <= trace && Straight(before, b)
    requires forall i :: |before| <= i < |trace| && trace[i].WriteOp? ==> trace[i].b != b
    ensures Straight(trace, b)
  {
    if |before| < |trace| {
      var n := |trace| - 1;
      StillStraight(before, trace[..n], b);
    } else {
      assert before == trace;
    }
  }

  /** The blocks that hold file data are read straight from the device, and have what was last written to them. */
  ghost predicate DataStraight(P: nat, s: Image, trace: Trace)
    requires P > 0 && |s.root| == SLOTS
  {
    forall n :: IsNode(P, n) && n.height == 0 && At(P, s, n) != 0 ==> Straight(trace, At(P, s, n))
  }

  /** Reading through a cache that went through the accesses shows what the volume holds: any block through the cache,
      and the file's data also straight from the device, whatever is still in dirty slots. */
  lemma ThroughCache(P: nat, s: Image, trace: Trace, slots: seq<Cache.Slot>, device: Cache.Device, b: nat)
    requires Ok(P, s) && Shows(s.blocks, trace) && DataStraight(P, s, trace) && |slots| == Cache.ENTRIES
    requires Cache.Agrees(slots, device, trace, map[]) && Cache.InStep(device, trace, map[], true) && b in s.blocks
    ensures Cache.Disk(slots, device, b) == s.blocks[b]
    ensures (exists n :: IsNode(P, n) && n.height == 0 && At(P, s, n) == b != 0) ==>
              Cache.Read(device, b) == s.blocks[b]
  {
    if n :| IsNode(P, n) && n.height == 0 && At(P, s, n) == b != 0 { assert Straight(trace, b); }
  }

  /** The same nodes hold the data, or fewer. */
  lemma FewerStraight(P: nat, s: Image, s': Image, trace: Trace)
    requires P > 0 && |s.root| == |s'.root| == SLOTS && DataStraight(P, s, trace)
    requires forall n :: IsNode(P, n) && n.height == 0 && At(P, s', n) != 0 ==> At(P, s', n) == At(P, s, n)
    ensures DataStraight(P, s', trace)
  {}

  /** No pointer block holds data, so the data stays straight. */
  lemma DataStays(P: nat, s: Image, before: Trace, s': Image, trace: Trace, v: nat)
    requires Ok(P, s) && Ok(P, s') && DataStraight(P, s, before) && Grown(P, s', before, trace)
    requires forall n :: IsNode(P, n) && n.height == 0 && At(P, s', n) != 0 ==>
              At(P, s', n) == At(P, s, n) || At(P, s', n) == v
    requires v != 0 ==> Straight(before, v)
    ensures DataStraight(P, s', trace)
  {
    forall n | IsNode(P, n) && n.height == 0 && At(P, s', n) != 0 ensures Straight(trace, At(P, s', n)) {
      var b := At(P, s', n);
      forall i | |before| <= i < |trace| && trace[i].WriteOp? ensures trace[i].b != b {
        var m :| IsNode(P, m) && m.height > 0 && At(P, s', m) == trace[i].b;
      }
      StillStraight(before, trace, b);
    }
  }
}
