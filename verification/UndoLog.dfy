/**
 * The boot loader installer's device access: a one-block write-back cache over the device, and a log of
 * overwritten bytes that `uninstall` replays backwards. Device operations succeed.
 */
module UndoLog {

  const LOG_MAX: nat := 256

  type Bytes = seq<nat>

  datatype Entry = Entry(loc: nat, data: Bytes)

  /** `data` written over `s` at position `at`. */
  function Splice(s: Bytes, at: nat, data: Bytes): (r: Bytes)
    requires at + |data| <= |s|
    ensures |r| == |s|
    ensures forall p :: 0 <= p < |s| ==> r[p] == if at <= p < at + |data| then data[p - at] else s[p]
  {
    s[..at] + data + s[at + |data|..]
  }

  lemma SpliceInside(s: Bytes, at: nat, block: Bytes, off: nat, data: Bytes)
    requires at + |block| <= |s| && off + |data| <= |block|
    ensures Splice(s, at, Splice(block, off, data)) == Splice(Splice(s, at, block), at + off, data)
  {}

  lemma SpliceSlice(s: Bytes, at: nat, block: Bytes, off: nat, n: nat)
    requires at + |block| <= |s| && off + n <= |block|
    ensures Splice(s, at, block)[at + off..at + off + n] == block[off..off + n]
  {}

  lemma SpliceOn(s: Bytes, at: nat, a: Bytes, b: Bytes)
    requires at + |a| + |b| <= |s|
    ensures Splice(Splice(s, at, a), at + |a|, b) == Splice(s, at, a + b)
  {}

  lemma SpliceNothing(s: Bytes, at: nat)
    requires at <= |s|
    ensures Splice(s, at, []) == s
  {}

  // ---- arithmetic of blocks ----

  lemma {:induction false} TimesMono(B: nat, a: nat, b: nat)
    requires a <= b
    ensures a * B <= b * B
    decreases b
  {}

  /** The block of a byte lies inside the device. */
  lemma BlockInside(x: nat, B: nat, n: nat)
    requires B > 0 && x < n * B
    ensures x == x / B * B + x % B && x / B * B + B <= n * B
  {
    var q := x / B;
    assert x == q * B + x % B;
    if q >= n { TimesMono(B, n, q); }
    TimesMono(B, q + 1, n);
    assert (q + 1) * B == q * B + B;
  }

  // ---- the log ----

  predicate Covers(e: Entry, p: nat) {
    e.loc <= p < e.loc + |e.data|
  }

  predicate Fits(log: seq<Entry>, n: nat) {
    forall i :: 0 <= i < |log| ==> log[i].loc + |log[i].data| <= n
  }

  datatype Option = None | Some(byte: nat)

  /** What the first entry that covers `p` saved of it. */
  function Saved(log: seq<Entry>, p: nat): Option {
    if log == [] then None
    else
      var e := log[|log| - 1];
      var before := Saved(log[..|log| - 1], p);
      if before.Some? then before else if Covers(e, p) then Some(e.data[p - e.loc]) else None
  }

  /** Bytes the log covers were first saved with their original value; the others are still original, on the device
      and through the cache. */
  predicate KeptAt(base: Bytes, device: Bytes, flat: Bytes, log: seq<Entry>, p: nat)
    requires |base| == |device| == |flat| && p < |base|
  {
    if Saved(log, p).Some? then Saved(log, p).byte == base[p] else device[p] == base[p] && flat[p] == base[p]
  }

  ghost predicate Kept(base: Bytes, device: Bytes, flat: Bytes, log: seq<Entry>) {
    && |base| == |device| == |flat| && Fits(log, |base|)
    && forall p :: 0 <= p < |base| ==> KeptAt(base, device, flat, log, p)
  }

  /** The entries written one after the other. */
  function Replay(flat: Bytes, log: seq<Entry>): (r: Bytes)
    requires Fits(log, |flat|)
    ensures |r| == |flat|
    decreases |log|
  {
    if log == [] then flat
    else
      assert Fits(log[1..], |flat|) by { assert forall i :: 0 <= i < |log| - 1 ==> log[1..][i] == log[i + 1]; }
      Replay(Splice(flat, log[0].loc, log[0].data), log[1..])
  }

  function Reversed(log: seq<Entry>): (r: seq<Entry>)
    ensures |r| == |log|
    ensures forall i :: 0 <= i < |log| ==> r[i] == log[|log| - 1 - i]
  {
    if log == [] then [] else [log[|log| - 1]] + Reversed(log[..|log| - 1])
  }

  lemma ReversedFits(log: seq<Entry>, n: nat)
    requires Fits(log, n)
    ensures Fits(Reversed(log), n)
  {}

  lemma ReplayFirst(flat: Bytes, e: Entry, log: seq<Entry>)
    requires Fits([e] + log, |flat|) && Fits(log, |flat|) && e.loc + |e.data| <= |flat|
    ensures Replay(flat, [e] + log) == Replay(Splice(flat, e.loc, e.data), log)
  {
    assert ([e] + log)[1..] == log;
  }

  /** Replaying backwards, the first entry that covers a byte has the last word, whatever the bytes were. */
  lemma {:induction false} ReplayBackwards(flat: Bytes, log: seq<Entry>, p: nat)
    requires Fits(log, |flat|) && p < |flat|
    ensures Fits(Reversed(log), |flat|)
    ensures Replay(flat, Reversed(log))[p] == if Saved(log, p).Some? then Saved(log, p).byte else flat[p]
    decreases |log|
  {
    ReversedFits(log, |flat|);
    if log != [] {
      var n := |log| - 1;
      var e, rest := log[n], log[..n];
      ReplayBackwards(Splice(flat, e.loc, e.data), rest, p);
      ReplayFirst(flat, e, Reversed(rest));
    }
  }

  /** So it restores the original bytes, even on a device that missed what was in the cache. */
  lemma Restores(base: Bytes, device: Bytes, flat: Bytes, log: seq<Entry>)
    requires Kept(base, device, flat, log)
    ensures Fits(Reversed(log), |device|) && Replay(device, Reversed(log)) == base
  {
    forall p | 0 <= p < |base| ensures Fits(Reversed(log), |device|) && Replay(device, Reversed(log))[p] == base[p] {
      ReplayBackwards(device, log, p);
      assert KeptAt(base, device, flat, log, p);
    }
    if |base| == 0 { ReversedFits(log, |device|); }
  }

  /** Outside the written range, the device only takes up what was there through the cache. */
  ghost predicate Caught(device: Bytes, flat: Bytes, device': Bytes, lo: nat, hi: nat) {
    && |device| == |flat| == |device'|
    && forall p :: 0 <= p < |device| && !(lo <= p < hi) ==> device'[p] == device[p] || device'[p] == flat[p]
  }

  lemma KeepsLog(base: Bytes, device: Bytes, flat: Bytes, log: seq<Entry>, e: Entry, data: Bytes, device': Bytes,
                 flat': Bytes)
    requires Kept(base, device, flat, log) && e.loc + |e.data| <= |flat| && |data| == |e.data|
    requires e.data == flat[e.loc..e.loc + |e.data|] && flat' == Splice(flat, e.loc, data)
    requires Caught(device, flat, device', e.loc, e.loc + |e.data|)
    ensures Kept(base, device', flat', log + [e])
  {
    var log' := log + [e];
    assert log'[..|log|] == log;
    forall p | 0 <= p < |base| ensures KeptAt(base, device', flat', log', p) {
      assert KeptAt(base, device, flat, log, p);
    }
  }

  /** Reading and flushing do not disturb what the log can restore. */
  lemma KeptCaught(base: Bytes, device: Bytes, flat: Bytes, log: seq<Entry>, device': Bytes)
    requires Kept(base, device, flat, log) && Caught(device, flat, device', 0, 0)
    ensures Kept(base, device', flat, log)
  {
    forall p | 0 <= p < |base|
      ensures KeptAt(base, device', flat, log, p)
    {
      assert KeptAt(base, device, flat, log, p);
    }
  }

  // ---- what an installer does ----

  datatype Op = WriteOp(loc: nat, data: Bytes) | ReadOp(loc: nat, count: nat) | FlushOp

  predicate OpFits(op: Op, n: nat) {
    match op
    case WriteOp(loc, data) => loc + |data| <= n
    case ReadOp(loc, count) => loc + count <= n
    case FlushOp => true
  }

  predicate OpsFit(ops: seq<Op>, n: nat) {
    forall i :: 0 <= i < |ops| ==> OpFits(ops[i], n)
  }

  /** The bytes after the operations, on a plain array. */
  function After(flat: Bytes, ops: seq<Op>): (r: Bytes)
    requires OpsFit(ops, |flat|)
    ensures |r| == |flat|
  {
    if ops == [] then flat
    else
      var before := After(flat, ops[..|ops| - 1]);
      var op := ops[|ops| - 1];
      if op.WriteOp? then Splice(before, op.loc, op.data) else before
  }

  function Writes(ops: seq<Op>): nat {
    if ops == [] then 0 else Writes(ops[..|ops| - 1]) + if ops[|ops| - 1].WriteOp? then 1 else 0
  }

  /** Read `i` of the installer returned what the writes before it leave on a plain array. */
  predicate ReadIs(base: Bytes, ops: seq<Op>, i: nat, bytes: Bytes)
    requires OpsFit(ops, |base|) && i < |ops|
  {
    ops[i].ReadOp? ==> bytes == After(base, ops[..i])[ops[i].loc..ops[i].loc + ops[i].count]
  }

  predicate ReadsAre(base: Bytes, ops: seq<Op>, results: seq<Bytes>)
    requires OpsFit(ops, |base|) && |results| <= |ops|
  {
    forall i :: 0 <= i < |results| ==> ReadIs(base, ops, i, results[i])
  }

  /** `k` operations were done: the bytes and the length of the log. */
  ghost predicate Came(base: Bytes, ops: seq<Op>, k: nat, flat: Bytes, n: nat)
    requires OpsFit(ops, |base|) && k <= |ops|
  {
    flat == After(base, ops[..k]) && n == Writes(ops[..k])
  }

  lemma {:induction false} WritesPrefix(ops: seq<Op>, i: nat)
    requires i <= |ops|
    ensures Writes(ops[..i]) <= Writes(ops)
    decreases |ops|
  {
    if i < |ops| {
      WritesPrefix(ops[..|ops| - 1], i);
      assert ops[..|ops| - 1][..i] == ops[..i];
    } else {
      assert ops[..i] == ops;
    }
  }

  lemma Next(flat: Bytes, ops: seq<Op>, i: nat)
    requires OpsFit(ops, |flat|) && i < |ops|
    ensures Writes(ops[..i + 1]) == Writes(ops[..i]) + if ops[i].WriteOp? then 1 else 0
    ensures After(flat, ops[..i + 1]) == if ops[i].WriteOp? then Splice(After(flat, ops[..i]), ops[i].loc, ops[i].data)
                                         else After(flat, ops[..i])
    ensures Writes(ops[..i + 1]) <= Writes(ops)
  {
    assert ops[..i + 1][..i] == ops[..i];
    WritesPrefix(ops, i + 1);
  }

  lemma Further(base: Bytes, ops: seq<Op>, k: nat, flat: Bytes, n: nat, ok: bool, flat': Bytes, n': nat, bytes: Bytes)
    requires OpsFit(ops, |base|) && k < |ops| && Came(base, ops, k, flat, n) && |flat| == |base|
    requires ok <==> ops[k].WriteOp? ==> n < LOG_MAX
    requires n' == n + (if ok && ops[k].WriteOp? then 1 else 0)
    requires flat' == if ok && ops[k].WriteOp? then Splice(flat, ops[k].loc, ops[k].data) else flat
    requires ops[k].ReadOp? ==> bytes == flat[ops[k].loc..ops[k].loc + ops[k].count]
    ensures if ok then Came(base, ops, k + 1, flat', n') && ReadIs(base, ops, k, bytes)
            else Came(base, ops, k, flat', n') && Writes(ops) > LOG_MAX
  {
    assert OpFits(ops[k], |base|);
    Next(base, ops, k);
  }

  lemma ReadNext(base: Bytes, ops: seq<Op>, results: seq<Bytes>, bytes: Bytes)
    requires OpsFit(ops, |base|) && |results| < |ops| && ReadsAre(base, ops, results)
    requires ReadIs(base, ops, |results|, bytes)
    ensures ReadsAre(base, ops, results + [bytes])
  {}

  lemma SpliceBack(s: Bytes, at: nat, block: Bytes)
    requires at + |block| <= |s| && block == s[at..at + |block|]
    ensures Splice(s, at, block) == s
  {}

  lemma KeptAtFirst(base: Bytes)
    ensures Kept(base, base, base, [])
  {}

  lemma CaughtBoth(device: Bytes, flat: Bytes, device1: Bytes, device2: Bytes, lo: nat, hi: nat)
    requires Caught(device, flat, device1, 0, 0) && Caught(device1, flat, device2, lo, hi)
    ensures Caught(device, flat, device2, lo, hi)
  {}

  class Installer {
    const B: nat
    const blocks: nat
    var device: seq<nat>
    var cache: seq<nat>
    var cached: int
    var dirty: bool
    var log: seq<Entry>
    var uninstalling: bool

    ghost predicate Valid()
      reads this
    {
      && B > 0 && |device| == blocks * B && |cache| == B && cached >= -1
      && (cached == -1 ==> !dirty)
      && (cached >= 0 ==> cached * B >= 0 && cached * B + B <= |device|)
      && (cached >= 0 && !dirty ==> cache == device[cached * B..cached * B + B])
    }

    /** The bytes as seen through the cache. */
    ghost function Flat(): (f: seq<nat>)
      requires Valid()
      reads this
      ensures |f| == |device|
    {
      if cached >= 0 then Splice(device, cached * B, cache) else device
    }

    /** `device_init`, once the block size is found. */
    constructor (size: nat, count: nat, contents: seq<nat>)
      requires size > 0 && count > 0 && |contents| == count * size
      ensures Valid() && device == contents && Flat() == contents && log == [] && !uninstalling && B == size
    {
      B, blocks, device := size, count, contents;
      BlockInside(0, size, count);
      cache := contents[..size];
      cached, dirty, log, uninstalling := 0, false, [], false;
      new;
      assert device[0 * B..0 * B + B] == cache;
    }

    /** `device_flush_cache`. */
    method FlushCache()
      requires Valid()
      modifies this`device, this`dirty
      ensures Valid() && !dirty && device == old(Flat()) && Flat() == old(Flat())
    {
      if dirty {
        device := Splice(device, cached * B, cache);
        dirty := false;
        assert device[cached * B..cached * B + B] == cache;
      }
      assert cached >= 0 ==> Splice(device, cached * B, cache) == device;
    }

    /** `device_cache_block`. */
    method CacheBlock(q: nat)
      requires Valid() && q * B + B <= |device|
      modifies this`device, this`cache, this`cached, this`dirty
      ensures Valid() && cached == q && Flat() == old(Flat())
      ensures device == old(device) || device == old(Flat())
    {
      if cached == q { return; }
      FlushCache();
      cache := device[q * B..q * B + B];
      cached := q;
      assert Splice(device, q * B, cache) == device;
    }

    /** The block of a byte and the byte's place in it. */
    method Locate(at: nat) returns (block: nat, offset: nat)
      requires B > 0 && |device| == blocks * B && at < |device|
      ensures offset < B && block * B + offset == at && block * B + B <= |device|
    {
      BlockInside(at, B, blocks);
      block, offset := at / B, at % B;
    }

    /** One turn of the loop of `_device_read`: as much as the block of the byte at `at` holds. */
    method ReadChunk(at: nat, limit: nat) returns (piece: seq<nat>)
      requires Valid() && 0 < limit && at + limit <= |device|
      modifies this`device, this`cache, this`cached, this`dirty
      ensures Valid() && Flat() == old(Flat()) && 0 < |piece| <= limit && piece == Flat()[at..at + |piece|]
      ensures device == old(device) || device == old(Flat())
    {
      var block, offset := Locate(at);
      CacheBlock(block);
      var chunk := if limit > B - offset then B - offset else limit;
      piece := cache[offset..offset + chunk];
      SpliceSlice(device, cached * B, cache, offset, chunk);
    }

    /** `_device_read`. */
    method Read(loc: nat, count: nat) returns (buf: seq<nat>)
      requires Valid() && loc + count <= |device|
      modifies this`device, this`cache, this`cached, this`dirty
      ensures Valid() && Flat() == old(Flat()) && buf == Flat()[loc..loc + count]
      ensures Caught(old(device), Flat(), device, 0, 0)
    {
      buf := [];
      ghost var flat := Flat();
      while |buf| < count
        invariant Valid() && Flat() == flat && |buf| <= count && buf == flat[loc..loc + |buf|]
        invariant Caught(old(device), flat, device, 0, 0)
        decreases count - |buf|
      {
        ghost var n := |buf|;
        var piece := ReadChunk(loc + |buf|, count - |buf|);
        buf := buf + piece;
        assert flat[loc..loc + n] + flat[loc + n..loc + |buf|] == flat[loc..loc + |buf|];
      }
    }

    /** One turn of the loop of `_device_write`. */
    method WriteChunk(at: nat, data: seq<nat>) returns (chunk: nat)
      requires Valid() && data != [] && at + |data| <= |device|
      modifies this`device, this`cache, this`cached, this`dirty
      ensures Valid() && 0 < chunk <= |data| && Flat() == Splice(old(Flat()), at, data[..chunk])
      ensures device == old(device) || device == old(Flat())
    {
      var block, offset := Locate(at);
      CacheBlock(block);
      chunk := if |data| > B - offset then B - offset else |data|;
      var piece := data[..chunk];
      SpliceInside(device, cached * B, cache, offset, piece);
      cache := Splice(cache, offset, piece);
      dirty := true;
    }

    /** The second half of `_device_write`: the bytes go into the cache block by block. */
    method WriteRaw(loc: nat, data: seq<nat>)
      requires Valid() && loc + |data| <= |device|
      modifies this`device, this`cache, this`cached, this`dirty
      ensures Valid() && Flat() == Splice(old(Flat()), loc, data)
      ensures Caught(old(device), old(Flat()), device, loc, loc + |data|)
    {
      var progress := 0;
      ghost var flat := Flat();
      SpliceNothing(flat, loc);
      while progress < |data|
        invariant Valid() && progress <= |data| && Flat() == Splice(flat, loc, data[..progress])
        invariant Caught(old(device), flat, device, loc, loc + |data|)
      {
        var chunk := WriteChunk(loc + progress, data[progress..]);
        SpliceOn(flat, loc, data[..progress], data[progress..][..chunk]);
        assert data[..progress] + data[progress..][..chunk] == data[..progress + chunk];
        progress := progress + chunk;
      }
      assert data[..|data|] == data;
    }

    /** `_device_write` while installing: saves the bytes first; refused only when the log is full. */
    method Write(loc: nat, data: seq<nat>, ghost base: seq<nat>) returns (ok: bool)
      requires Valid() && loc + |data| <= |device| && Kept(base, device, Flat(), log)
      modifies this`device, this`cache, this`cached, this`dirty, this`log
      ensures Valid() && Kept(base, device, Flat(), log)
      ensures ok <==> |old(log)| < LOG_MAX
      ensures |log| == |old(log)| + if ok then 1 else 0
      ensures Flat() == if ok then Splice(old(Flat()), loc, data) else old(Flat())
    {
      if |log| >= LOG_MAX { return false; }
      ghost var flat, device0 := Flat(), device;
      var saved := Read(loc, |data|);
      ghost var device1 := device;
      WriteRaw(loc, data);
      CaughtBoth(device0, flat, device1, device, loc, loc + |data|);
      KeepsLog(base, device0, flat, log, Entry(loc, saved), data, device, Flat());
      log := log + [Entry(loc, saved)];
      ok := true;
    }

    /** `reverse_uninstall_data`. */
    method ReverseLog()
      modifies this`log
      ensures log == Reversed(old(log))
    {
      var rev := log;
      var n := |log|;
      for i := 0 to n
        invariant |rev| == n
        invariant forall j :: 0 <= j < i ==> rev[n - 1 - j] == log[j]
      {
        rev := rev[n - 1 - i := log[i]];
      }
      assert forall k :: 0 <= k < n ==> rev[k] == Reversed(log)[k] by {
        forall k | 0 <= k < n ensures rev[k] == Reversed(log)[k] { assert rev[n - 1 - (n - 1 - k)] == log[n - 1 - k]; }
      }
      assert rev == Reversed(log);
      log := rev;
    }

    /** `uninstall`: forgets the cache, dirty or not, and writes the log to the device. */
    method Uninstall()
      requires Valid() && Fits(log, |device|)
      modifies this`device, this`cache, this`cached, this`dirty, this`uninstalling
      ensures Valid() && device == Flat() == Replay(old(device), log)
    {
      uninstalling := true;
      dirty := false;
      cached := -1;
      for i := 0 to |log|
        invariant Valid() && Fits(log[i..], |device|) && Replay(Flat(), log[i..]) == Replay(old(device), log)
      {
        assert log[i..][0] == log[i] && log[i..][1..] == log[i + 1..];
        WriteRaw(log[i].loc, log[i].data);
      }
      FlushCache();
    }
  
    lemma CleanFlat()
      requires Valid() && !dirty
      ensures Flat() == device
    {
      if cached >= 0 { SpliceBack(device, cached * B, cache); }
    }

    /** The clean-up of a failed installation: reverse the log, drop the cache, replay. */
    method Rollback(ghost base: seq<nat>)
      requires Valid() && Kept(base, device, Flat(), log)
      modifies this
      ensures Valid() && device == base
    {
      Restores(base, device, Flat(), log);
      ReverseLog();
      Uninstall();
    }

    /** One operation of the installer; a read returns its bytes. */
    method Do(op: Op, ghost base: seq<nat>) returns (ok: bool, bytes: seq<nat>)
      requires Valid() && OpFits(op, |device|) && Kept(base, device, Flat(), log)
      modifies this`device, this`cache, this`cached, this`dirty, this`log
      ensures Valid() && Kept(base, device, Flat(), log)
      ensures ok <==> op.WriteOp? ==> |old(log)| < LOG_MAX
      ensures |log| == |old(log)| + if ok && op.WriteOp? then 1 else 0
      ensures Flat() == if ok && op.WriteOp? then Splice(old(Flat()), op.loc, op.data) else old(Flat())
      ensures op.ReadOp? ==> bytes == old(Flat())[op.loc..op.loc + op.count]
    {
      ok, bytes := true, [];
      match op {
        case WriteOp(loc, data) => ok := Write(loc, data, base);
        case ReadOp(loc, count) =>
          bytes := Read(loc, count);
          KeptCaught(base, old(device), Flat(), log, device);
        case FlushOp =>
          FlushCache();
          KeptCaught(base, old(device), Flat(), log, device);
      }
    }

    /** The operations one after the other, until a write is refused. Reads see a plain array. */
    method Install(ops: seq<Op>, ghost base: seq<nat>) returns (done: nat, results: seq<seq<nat>>)
      requires Valid() && log == [] && OpsFit(ops, |device|) && base == device == Flat()
      modifies this`device, this`cache, this`cached, this`dirty, this`log
      ensures Valid() && Kept(base, device, Flat(), log)
      ensures done == |results| <= |ops| && (Writes(ops) <= LOG_MAX ==> done == |ops|)
      ensures Came(base, ops, done, Flat(), |log|) && ReadsAre(base, ops, results)
    {
      KeptAtFirst(base);
      results, done := [], 0;
      while done < |ops|
        invariant Valid() && done == |results| <= |ops| && Kept(base, device, Flat(), log)
        invariant Came(base, ops, done, Flat(), |log|) && ReadsAre(base, ops, results)
      {
        ghost var flat, n := Flat(), |log|;
        var ok, bytes := Do(ops[done], base);
        Further(base, ops, done, flat, n, ok, Flat(), |log|, bytes);
        if !ok { break; }
        ReadNext(base, ops, results, bytes);
        results, done := results + [bytes], done + 1;
      }
    }

    /** An installation that is given up, after any operations: whatever was written, read and flushed, whether the last
        block is still in the cache or not, every byte of the device is back. */
    method InstallThenUninstall(ops: seq<Op>) returns (done: nat, results: seq<seq<nat>>)
      requires Valid() && !dirty && log == [] && OpsFit(ops, |device|)
      modifies this
      ensures Valid() && device == old(device)
      ensures done == |results| <= |ops| && (Writes(ops) <= LOG_MAX ==> done == |ops|)
      ensures ReadsAre(old(device), ops, results)
    {
      ghost var base := device;
      CleanFlat();
      done, results := Install(ops, base);
      Rollback(base);
    }
  }
}
