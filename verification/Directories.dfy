/**
 * ext2 directories: blocks tiled by variable-length records. What a directory stands for is, for every
 * name, how many entries have it and which inode the first of them names.
 */
module Directories {

  /** A record: inode number (0 for none), record length, and the name it stores. */
  datatype Rec = Rec(inode: nat, len: nat, name: string)

  /** Bytes a record with a name of this length needs: 8 for the header, rounded up to 4. */
  function DirentLen(n: nat): (r: nat)
    ensures r % 4 == 0 && n + 8 <= r < n + 12
  {
    (n + 11) / 4 * 4
  }

  /** The name as stored and compared: its length is kept in 8 bits. */
  function Key(name: string): (k: string)
    ensures |k| <= 255
  {
    name[..|name| % 256]
  }

  /** Names are stored in full exactly when they are shorter than 256 bytes. */
  lemma KeyExact(name: string)
    ensures Key(name) == name <==> |name| < 256
  {}

  /** Longer names are not told apart: with 257 letters it is the one-letter name. */
  lemma SameKey()
    ensures var long := seq(257, _ => 'a'); Key(long) == Key("a") && long != "a"
  {}

  /** A name stands for itself among the names that are stored in full exactly when it is one of them. */
  lemma KeyUnique(name: string)
    ensures |name| < 256 <==> forall other :: |other| < 256 && Key(other) == Key(name) ==> other == name
  {
    if |name| >= 256 {
      var other := Key(name);
      assert Key(other) == Key(name) && |other| < 256;
    }
  }

  predicate RecOk(r: Rec) {
    r.len >= 8 && r.len % 4 == 0 && (r.inode != 0 ==> |r.name| <= 255 && DirentLen(|r.name|) <= r.len)
  }

  predicate Matches(r: Rec, k: string) {
    r.inode != 0 && r.name == k
  }

  function Total(recs: seq<Rec>): nat {
    if recs == [] then 0 else Total(recs[..|recs| - 1]) + recs[|recs| - 1].len
  }

  /** Number of live records with a name. */
  function Count(recs: seq<Rec>, k: string): nat {
    if recs == [] then 0 else Count(recs[..|recs| - 1], k) + if Matches(recs[|recs| - 1], k) then 1 else 0
  }

  function Or(a: nat, b: nat): nat {
    if a != 0 then a else b
  }

  function InodeIf(r: Rec, k: string): nat {
    if Matches(r, k) then r.inode else 0
  }

  /** The inode of the first live record with a name, 0 if there is none. */
  function Find(recs: seq<Rec>, k: string): nat {
    if recs == [] then 0 else Or(Find(recs[..|recs| - 1], k), InodeIf(recs[|recs| - 1], k))
  }

  predicate RecsOk(recs: seq<Rec>) {
    forall i :: 0 <= i < |recs| ==> RecOk(recs[i])
  }

  /** The records tile the block, and each covers its name. */
  predicate BlockOk(bs: nat, recs: seq<Rec>) {
    Total(recs) == bs && RecsOk(recs)
  }

  lemma {:induction false} Concat(a: seq<Rec>, b: seq<Rec>, k: string)
    ensures Total(a + b) == Total(a) + Total(b)
    ensures Count(a + b, k) == Count(a, k) + Count(b, k)
    ensures Find(a + b, k) == Or(Find(a, k), Find(b, k))
  {
    if b == [] {
      assert a + b == a;
    } else {
      var n := |b| - 1;
      Concat(a, b[..n], k);
      var all := a + b;
      assert all[..|all| - 1] == a + b[..n] && all[|all| - 1] == b[n];
    }
  }

  lemma Concat3(a: seq<Rec>, m: seq<Rec>, b: seq<Rec>, k: string)
    ensures Total(a + m + b) == Total(a) + Total(m) + Total(b)
    ensures Count(a + m + b, k) == Count(a, k) + Count(m, k) + Count(b, k)
    ensures Find(a + m + b, k) == Or(Or(Find(a, k), Find(m, k)), Find(b, k))
  {
    Concat(a + m, b, k);
    Concat(a, m, k);
  }

  lemma {:induction false} FindCount(recs: seq<Rec>, k: string)
    ensures Find(recs, k) == 0 <==> Count(recs, k) == 0
  {
    if recs != [] { FindCount(recs[..|recs| - 1], k); }
  }

  lemma OneOrTwo(a: Rec, b: Rec, k: string)
    ensures Total([a]) == a.len && Total([a, b]) == a.len + b.len
    ensures Find([a], k) == InodeIf(a, k) && Find([a, b], k) == Or(InodeIf(a, k), InodeIf(b, k))
    ensures Count([a], k) == (if Matches(a, k) then 1 else 0)
    ensures Count([a, b], k) == (if Matches(a, k) then 1 else 0) + if Matches(b, k) then 1 else 0
  {}

  lemma RecsOk3(a: seq<Rec>, m: seq<Rec>, b: seq<Rec>)
    ensures RecsOk(a + m + b) <==> RecsOk(a) && RecsOk(m) && RecsOk(b)
  {
    var all := a + m + b;
    assert forall i :: 0 <= i < |a| ==> all[i] == a[i];
    assert forall i :: 0 <= i < |m| ==> all[|a| + i] == m[i];
    assert forall i :: 0 <= i < |b| ==> all[|a| + |m| + i] == b[i];
    assert forall i :: 0 <= i < |all| ==>
         all[i] == if i < |a| then a[i] else if i < |a| + |m| then m[i - |a|] else b[i - |a| - |m|];
  }

  /** Records replaced by others that take the same room still tile the block. */
  lemma Replaced(bs: nat, a: seq<Rec>, m: seq<Rec>, b: seq<Rec>, n: seq<Rec>)
    requires BlockOk(bs, a + m + b) && Total(n) == Total(m) && RecsOk(n)
    ensures BlockOk(bs, a + n + b)
  {
    Concat3(a, m, b, "");
    Concat3(a, n, b, "");
    RecsOk3(a, m, b);
    RecsOk3(a, n, b);
  }

  // ---- adding ----

  /** Bytes of a record that are in use. */
  function Actual(r: Rec): nat {
    if r.inode != 0 then DirentLen(|r.name|) else 0
  }

  /** The records that take the place of record `r` when an entry is put into its slack. */
  function Filled(r: Rec, k: string, ino: nat): seq<Rec>
    requires Actual(r) <= r.len
  {
    if r.inode == 0 then [Rec(ino, r.len, k)] else [Rec(r.inode, Actual(r), r.name), Rec(ino, r.len - Actual(r), k)]
  }

  /** The effect of adding entry (k, ino) somewhere: one more entry with the name, other names unaffected, and a name
      that was absent is now found. */
  ghost predicate Added(count: nat, find: nat, count': nat, find': nat, k: string, ino: nat, j: string) {
    && count' == count + (if j == k then 1 else 0)
    && (j != k ==> find' == find) && (j == k && find == 0 ==> find' == ino)
    && (j == k ==> find' == find || find' == ino)
  }

  lemma FilledRoom(r: Rec, k: string, ino: nat)
    requires RecOk(r) && ino != 0 && |k| <= 255 && Actual(r) + DirentLen(|k|) <= r.len
    ensures Total(Filled(r, k, ino)) == Total([r]) && RecsOk(Filled(r, k, ino))
  {}

  lemma FilledOk(bs: nat, a: seq<Rec>, r: Rec, b: seq<Rec>, k: string, ino: nat)
    requires BlockOk(bs, a + [r] + b) && RecOk(r) && ino != 0 && |k| <= 255 && Actual(r) + DirentLen(|k|) <= r.len
    ensures BlockOk(bs, a + Filled(r, k, ino) + b)
  {
    FilledRoom(r, k, ino);
    Replaced(bs, a, [r], b, Filled(r, k, ino));
  }

  lemma FilledIs(a: seq<Rec>, r: Rec, b: seq<Rec>, k: string, ino: nat, m: seq<Rec>, j: string)
    requires Actual(r) <= r.len && ino != 0 && m == Filled(r, k, ino)
    ensures Added(Count(a + [r] + b, j), Find(a + [r] + b, j), Count(a + m + b, j), Find(a + m + b, j), k, ino, j)
  {
    Concat3(a, [r], b, j);
    Concat3(a, m, b, j);
    OneOrTwo(r, r, j);
    if r.inode == 0 { OneOrTwo(Rec(ino, r.len, k), r, j); }
    else { OneOrTwo(Rec(r.inode, Actual(r), r.name), Rec(ino, r.len - Actual(r), k), j); }
  }

  // ---- removing ----

  /** The effect of removing the first entry with name `k`. */
  ghost predicate Dropped(count: nat, find: nat, count': nat, find': nat, k: string, j: string) {
    && count == count' + (if j == k then 1 else 0)
    && (j != k ==> find' == find) && (j == k ==> (find' == 0 <==> count == 1))
  }

  /** Removing the entry of the first record leaves the record, empty. */
  lemma RemovedFirst(bs: nat, r: Rec, b: seq<Rec>)
    requires BlockOk(bs, [] + [r] + b)
    ensures BlockOk(bs, [] + [r.(inode := 0)] + b)
  {
    RecsOk3([], [r], b);
    assert RecOk([r][0]);
    OneOrTwo(r, r, "");
    OneOrTwo(r.(inode := 0), r, "");
    Replaced(bs, [], [r], b, [r.(inode := 0)]);
  }

  /** Removing the entry of a later record merges the record into the one before. */
  lemma RemovedLater(bs: nat, a: seq<Rec>, p: Rec, r: Rec, b: seq<Rec>)
    requires BlockOk(bs, a + [p, r] + b)
    ensures BlockOk(bs, a + [p.(len := p.len + r.len)] + b)
  {
    RecsOk3(a, [p, r], b);
    assert RecOk([p, r][0]) && RecOk([p, r][1]);
    OneOrTwo(p, r, "");
    OneOrTwo(p.(len := p.len + r.len), r, "");
    Replaced(bs, a, [p, r], b, [p.(len := p.len + r.len)]);
  }

  lemma RemovedIs(a: seq<Rec>, m: seq<Rec>, b: seq<Rec>, n: seq<Rec>, k: string, j: string)
    requires Count(m, j) == Count(n, j) + (if j == k then 1 else 0) && (j != k ==> Find(n, j) == Find(m, j))
    requires j == k ==> Find(n, j) == 0 && Find(a, k) == 0
    ensures Dropped(Count(a + m + b, j), Find(a + m + b, j), Count(a + n + b, j), Find(a + n + b, j), k, j)
  {
    Concat3(a, m, b, j);
    Concat3(a, n, b, j);
    FindCount(a, j);
    FindCount(n, j);
    FindCount(b, j);
  }

  // ---- whole directories ----

  function CountAll(blocks: seq<seq<Rec>>, k: string): nat {
    if blocks == [] then 0 else CountAll(blocks[..|blocks| - 1], k) + Count(blocks[|blocks| - 1], k)
  }

  function FindAll(blocks: seq<seq<Rec>>, k: string): nat {
    if blocks == [] then 0 else Or(FindAll(blocks[..|blocks| - 1], k), Find(blocks[|blocks| - 1], k))
  }

  lemma {:induction false} ConcatAll(a: seq<seq<Rec>>, b: seq<seq<Rec>>, k: string)
    ensures CountAll(a + b, k) == CountAll(a, k) + CountAll(b, k)
    ensures FindAll(a + b, k) == Or(FindAll(a, k), FindAll(b, k))
  {
    if b == [] {
      assert a + b == a;
    } else {
      var n := |b| - 1;
      ConcatAll(a, b[..n], k);
      var all := a + b;
      assert all[..|all| - 1] == a + b[..n] && all[|all| - 1] == b[n];
    }
  }

  lemma {:induction false} FindCountAll(blocks: seq<seq<Rec>>, k: string)
    ensures FindAll(blocks, k) == 0 <==> CountAll(blocks, k) == 0
  {
    if blocks != [] { FindCountAll(blocks[..|blocks| - 1], k); FindCount(blocks[|blocks| - 1], k); }
  }

  lemma AtBlock(blocks: seq<seq<Rec>>, bi: nat, recs: seq<Rec>, k: string)
    requires bi < |blocks|
    ensures CountAll(blocks[bi := recs], k)
            == CountAll(blocks[..bi], k) + Count(recs, k) + CountAll(blocks[bi + 1..], k)
    ensures FindAll(blocks[bi := recs], k)
            == Or(Or(FindAll(blocks[..bi], k), Find(recs, k)), FindAll(blocks[bi + 1..], k))
  {
    var a, b := blocks[..bi], blocks[bi + 1..];
    assert blocks[bi := recs] == a + [recs] + b;
    ConcatAll(a + [recs], b, k);
    ConcatAll(a, [recs], k);
    assert [recs][..0] == [];
  }

  predicate SizeOk(bs: nat) {
    bs % 4 == 0 && bs >= DirentLen(255)
  }

  predicate DirOk(bs: nat, blocks: seq<seq<Rec>>) {
    SizeOk(bs) && forall i :: 0 <= i < |blocks| ==> BlockOk(bs, blocks[i])
  }

  /** No name twice. */
  ghost predicate Unique(blocks: seq<seq<Rec>>) {
    forall k: string :: CountAll(blocks, k) <= 1
  }

  ghost predicate AddedTo(blocks: seq<seq<Rec>>, after: seq<seq<Rec>>, k: string, ino: nat) {
    forall j: string :: Added(CountAll(blocks, j), FindAll(blocks, j), CountAll(after, j), FindAll(after, j), k, ino, j)
  }

  ghost predicate DroppedFrom(blocks: seq<seq<Rec>>, after: seq<seq<Rec>>, k: string) {
    forall j: string :: Dropped(CountAll(blocks, j), FindAll(blocks, j), CountAll(after, j), FindAll(after, j), k, j)
  }

  // ---- the walk ----

  /** While a header fits in what is left, there is a record. */
  lemma WalkGoesOn(bs: nat, recs: seq<Rec>, n: nat)
    requires BlockOk(bs, recs) && n <= |recs| && Total(recs[..n]) + 8 <= bs
    ensures n < |recs| && RecOk(recs[n]) && Total(recs[..n + 1]) == Total(recs[..n]) + recs[n].len
  {
    assert recs[..|recs|] == recs;
    if n < |recs| { assert recs[..n + 1][..n] == recs[..n]; }
  }

  lemma RecordFits(recs: seq<Rec>, n: nat)
    requires RecsOk(recs) && n < |recs|
    ensures Total(recs[..n]) + 8 <= Total(recs)
  {
    assert recs == recs[..n] + [recs[n]] + recs[n + 1..] && RecOk(recs[n]);
    Concat3(recs[..n], [recs[n]], recs[n + 1..], "");
    OneOrTwo(recs[n], recs[n], "");
  }

  /** When none fits, all records were visited. */
  lemma WalkEnds(bs: nat, recs: seq<Rec>, n: nat)
    requires BlockOk(bs, recs) && n <= |recs| && Total(recs[..n]) + 8 > bs
    ensures n == |recs| && recs[..n] == recs
  {
    if n < |recs| { RecordFits(recs, n); }
  }

  lemma FindOn(recs: seq<Rec>, n: nat, k: string)
    requires n < |recs|
    ensures Find(recs[..n + 1], k) == Or(Find(recs[..n], k), InodeIf(recs[n], k))
  {
    assert recs[..n + 1][..n] == recs[..n];
  }

  /** No record has room for `needed` more bytes. */
  predicate NoRoom(recs: seq<Rec>, needed: nat) {
    forall i :: 0 <= i < |recs| ==> Actual(recs[i]) + needed > recs[i].len
  }

  lemma AddedInBlock(bs: nat, blocks: seq<seq<Rec>>, bi: nat, i: nat, k: string, ino: nat)
    requires DirOk(bs, blocks) && bi < |blocks| && i < |blocks[bi]| && ino != 0 && |k| <= 255
    requires Actual(blocks[bi][i]) + DirentLen(|k|) <= blocks[bi][i].len
    ensures var recs := blocks[bi];
            var after := blocks[bi := recs[..i] + Filled(recs[i], k, ino) + recs[i + 1..]];
            DirOk(bs, after) && AddedTo(blocks, after, k, ino)
  {
    var recs := blocks[bi];
    var r := recs[i];
    var m := Filled(r, k, ino);
    var a, b := recs[..i], recs[i + 1..];
    var after := blocks[bi := a + m + b];
    assert recs == a + [r] + b && RecOk(r);
    FilledOk(bs, a, r, b, k, ino);
    forall j: string
      ensures Added(CountAll(blocks, j), FindAll(blocks, j), CountAll(after, j), FindAll(after, j), k, ino, j)
    {
      assert blocks[bi := recs] == blocks;
      AtBlock(blocks, bi, recs, j);
      AtBlock(blocks, bi, a + m + b, j);
      FilledIs(a, r, b, k, ino, m, j);
    }
  }

  lemma AddedBlock(bs: nat, blocks: seq<seq<Rec>>, k: string, ino: nat)
    requires DirOk(bs, blocks) && ino != 0 && |k| <= 255
    ensures var after := blocks + [[Rec(ino, bs, k)]]; DirOk(bs, after) && AddedTo(blocks, after, k, ino)
  {
    var r := Rec(ino, bs, k);
    var after := blocks + [[r]];
    OneOrTwo(r, r, k);
    assert RecOk(r);
    forall j: string
      ensures Added(CountAll(blocks, j), FindAll(blocks, j), CountAll(after, j), FindAll(after, j), k, ino, j)
    {
      assert after[..|blocks|] == blocks;
      OneOrTwo(r, r, j);
    }
  }

  /** The record before takes the removed one's length; the first record of a block only loses its inode. */
  function RemovedAt(recs: seq<Rec>, i: nat): seq<Rec>
    requires i < |recs|
  {
    if i > 0 then recs[..i - 1] + [recs[i - 1].(len := recs[i - 1].len + recs[i].len)] + recs[i + 1..]
    else [] + [recs[0].(inode := 0)] + recs[1..]
  }

  lemma RemovedBlockOk(bs: nat, recs: seq<Rec>, i: nat, after: seq<Rec>)
    requires BlockOk(bs, recs) && i < |recs|
    requires after == RemovedAt(recs, i)
    ensures BlockOk(bs, after)
  {
    if i == 0 {
      assert recs == [] + [recs[0]] + recs[1..];
      RemovedFirst(bs, recs[0], recs[1..]);
    } else {
      assert recs == recs[..i - 1] + [recs[i - 1], recs[i]] + recs[i + 1..];
      RemovedLater(bs, recs[..i - 1], recs[i - 1], recs[i], recs[i + 1..]);
    }
  }

  lemma RemovedBlockIs(recs: seq<Rec>, i: nat, k: string, after: seq<Rec>, j: string)
    requires i < |recs| && Matches(recs[i], k) && Find(recs[..i], k) == 0
    requires after == RemovedAt(recs, i)
    ensures Dropped(Count(recs, j), Find(recs, j), Count(after, j), Find(after, j), k, j)
  {
    if i == 0 {
      var r := recs[0];
      assert recs == [] + [r] + recs[1..];
      OneOrTwo(r, r, j);
      OneOrTwo(r.(inode := 0), r, j);
      RemovedIs([], [r], recs[1..], [r.(inode := 0)], k, j);
    } else {
      var p, r := recs[i - 1], recs[i];
      var m := p.(len := p.len + r.len);
      assert recs == recs[..i - 1] + [p, r] + recs[i + 1..];
      FindOn(recs, i - 1, k);
      OneOrTwo(p, r, j);
      OneOrTwo(m, r, j);
      RemovedIs(recs[..i - 1], [p, r], recs[i + 1..], [m], k, j);
    }
  }

  lemma RemovedInBlock(bs: nat, blocks: seq<seq<Rec>>, bi: nat, i: nat, k: string, after: seq<Rec>)
    requires DirOk(bs, blocks) && bi < |blocks| && i < |blocks[bi]| && Matches(blocks[bi][i], k)
    requires FindAll(blocks[..bi], k) == 0 && Find(blocks[bi][..i], k) == 0
    requires after == RemovedAt(blocks[bi], i)
    ensures DirOk(bs, blocks[bi := after]) && DroppedFrom(blocks, blocks[bi := after], k)
  {
    var recs := blocks[bi];
    RemovedBlockOk(bs, recs, i, after);
    forall j: string
      ensures Dropped(CountAll(blocks, j), FindAll(blocks, j), CountAll(blocks[bi := after], j), FindAll(blocks[bi := after], j), k, j)
    {
      assert blocks[bi := recs] == blocks;
      AtBlock(blocks, bi, recs, j);
      AtBlock(blocks, bi, after, j);
      RemovedBlockIs(recs, i, k, after, j);
      FindCountAll(blocks[..bi], j);
      FindCountAll(blocks[bi + 1..], j);
      FindCount(after, j);
    }
  }

  class Directory {
    const bs: nat
    var blocks: seq<seq<Rec>>

    ghost predicate Valid()
      reads this
    {
      DirOk(bs, blocks)
    }

    /** The first live record of a block with the name. */
    method Search(recs: seq<Rec>, k: string) returns (i: int)
      requires BlockOk(bs, recs)
      ensures i >= 0 ==> i < |recs| && Matches(recs[i], k) && Find(recs[..i], k) == 0 && Find(recs, k) == recs[i].inode
      ensures i < 0 ==> Find(recs, k) == 0
    {
      var pos, n := 0, 0;
      while pos + 8 <= bs
        invariant n <= |recs| && pos == Total(recs[..n]) && Find(recs[..n], k) == 0
        decreases |recs| - n
      {
        WalkGoesOn(bs, recs, n);
        FindOn(recs, n, k);
        if recs[n].inode != 0 && recs[n].name == k {
          Concat(recs[..n + 1], recs[n + 1..], k);
          assert recs == recs[..n + 1] + recs[n + 1..];
          return n;
        }
        pos := pos + recs[n].len;
        n := n + 1;
      }
      WalkEnds(bs, recs, n);
      i := -1;
    }

    /** `ext2_lookup`: the inode of the first entry with the name. */
    method Lookup(name: string) returns (r: nat)
      requires Valid()
      ensures r == FindAll(blocks, Key(name))
    {
      var k := Key(name);
      for bi := 0 to |blocks|
        invariant FindAll(blocks[..bi], k) == 0
      {
        var i := Search(blocks[bi], k);
        assert blocks[bi := blocks[bi]] == blocks;
        AtBlock(blocks, bi, blocks[bi], k);
        if i >= 0 { return blocks[bi][i].inode; }
        assert blocks[..bi + 1][..bi] == blocks[..bi];
      }
      assert blocks[..|blocks|] == blocks;
      r := 0;
    }

    /** The first record of a block with room for `needed` more bytes. */
    method FindSlack(recs: seq<Rec>, needed: nat) returns (i: int)
      requires BlockOk(bs, recs)
      ensures i >= 0 ==> i < |recs| && Actual(recs[i]) + needed <= recs[i].len
      ensures i < 0 ==> NoRoom(recs, needed)
    {
      var pos, n := 0, 0;
      while pos + 8 <= bs
        invariant n <= |recs| && pos == Total(recs[..n])
        invariant forall m :: 0 <= m < n ==> Actual(recs[m]) + needed > recs[m].len
        decreases |recs| - n
      {
        WalkGoesOn(bs, recs, n);
        if recs[n].len - Actual(recs[n]) >= needed { return n; }
        pos := pos + recs[n].len;
        n := n + 1;
      }
      WalkEnds(bs, recs, n);
      i := -1;
    }

    /** `ext2_add_dirent`: into the first slack that has room, else into a new block; fails exactly when there is no
        room and no block to spare for the directory. */
    method Add(name: string, ino: nat, spare: bool) returns (rc: int)
      requires Valid() && ino != 0
      modifies this
      ensures Valid() && (rc == 0 || rc == -1)
      ensures rc == 0 ==> AddedTo(old(blocks), blocks, Key(name), ino)
      ensures rc != 0 ==> blocks == old(blocks)
      ensures rc != 0 <==>
                !spare && forall bi :: 0 <= bi < |old(blocks)| ==> NoRoom(old(blocks)[bi], DirentLen(|Key(name)|))
    {
      var k := Key(name);
      var needed := DirentLen(|k|);
      for bi := 0 to |blocks|
        invariant blocks == old(blocks) && forall b :: 0 <= b < bi ==> NoRoom(blocks[b], needed)
      {
        var recs := blocks[bi];
        var i := FindSlack(recs, needed);
        if i >= 0 {
          AddedInBlock(bs, blocks, bi, i, k, ino);
          blocks := blocks[bi := recs[..i] + Filled(recs[i], k, ino) + recs[i + 1..]];
          return 0;
        }
      }
      if !spare { return -1; }
      AddedBlock(bs, blocks, k, ino);
      blocks := blocks + [[Rec(ino, bs, k)]];
      rc := 0;
    }

    /** `ext2_remove_dirent`: drops the first entry with the name, and says which inode it named. */
    method Remove(name: string) returns (rc: int, ino: nat)
      requires Valid()
      modifies this
      ensures Valid() && (rc == 0 <==> FindAll(old(blocks), Key(name)) != 0)
      ensures rc == 0 ==> ino == FindAll(old(blocks), Key(name)) && DroppedFrom(old(blocks), blocks, Key(name))
      ensures rc != 0 ==> blocks == old(blocks)
    {
      var k := Key(name);
      ino := 0;
      for bi := 0 to |blocks|
        invariant blocks == old(blocks) && FindAll(blocks[..bi], k) == 0
      {
        var recs := blocks[bi];
        var i := Search(recs, k);
        assert blocks[bi := recs] == blocks;
        AtBlock(blocks, bi, recs, k);
        if i >= 0 {
          ino := recs[i].inode;
          var after := RemovedAt(recs, i);
          RemovedInBlock(bs, blocks, bi, i, k, after);
          blocks := blocks[bi := after];
          return 0, ino;
        }
        assert blocks[..bi + 1][..bi] == blocks[..bi];
      }
      assert blocks[..|blocks|] == blocks;
      rc := -1;
    }
  }

  /** A directory stays a map exactly when only absent names are added ... */
  lemma AddUnique(blocks: seq<seq<Rec>>, after: seq<seq<Rec>>, k: string, ino: nat)
    requires AddedTo(blocks, after, k, ino)
    ensures Unique(after) <==> Unique(blocks) && FindAll(blocks, k) == 0
  {
    FindCountAll(blocks, k);
    assert Added(CountAll(blocks, k), FindAll(blocks, k), CountAll(after, k), FindAll(after, k), k, ino, k);
    forall j: string ensures CountAll(after, j) == CountAll(blocks, j) + if j == k then 1 else 0 {
      assert Added(CountAll(blocks, j), FindAll(blocks, j), CountAll(after, j), FindAll(after, j), k, ino, j);
    }
  }

  /** ... and then a removed name is gone. */
  lemma RemoveUnique(blocks: seq<seq<Rec>>, after: seq<seq<Rec>>, k: string)
    requires DroppedFrom(blocks, after, k) && Unique(blocks)
    ensures Unique(after) && FindAll(after, k) == 0
  {}
}
