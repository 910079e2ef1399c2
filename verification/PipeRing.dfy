/** The ring buffer of a pipe: what the locked sections of read, peek and write do. */
module PipeRing {

  const N: nat := 65536

  type Bytes = seq<nat>

  /** Ring position `i` bytes after `pos`. */
  function At(pos: nat, i: nat): (r: nat)
    requires pos < N && i <= N
    ensures r < N && r == (pos + i) % N
  {
    if pos + i < N then pos + i else pos + i - N
  }

  /** The bytes in the ring, oldest first. */
  function Contents(buf: Bytes, rpos: nat, count: nat): (s: Bytes)
    requires |buf| == N && rpos < N && count <= N
    ensures |s| == count && forall i :: 0 <= i < count ==> s[i] == buf[At(rpos, i)]
  {
    if rpos + count <= N then buf[rpos..rpos + count] else buf[rpos..] + buf[..rpos + count - N]
  }

  /** A copy out of the ring in at most two pieces. */
  method CopyOut(buf: Bytes, pos: nat, take: nat) returns (out: Bytes)
    requires |buf| == N && pos < N && take <= N
    ensures |out| == take && forall i :: 0 <= i < take ==> out[i] == buf[At(pos, i)]
  {
    var first := if take > N - pos then N - pos else take;
    out := buf[pos..pos + first];
    if take > first { out := out + buf[..take - first]; }
  }

  /** A copy into the ring in at most two pieces. */
  method CopyIn(buf: Bytes, pos: nat, data: Bytes) returns (after: Bytes)
    requires |buf| == N && pos < N && |data| <= N
    ensures |after| == N && forall i :: 0 <= i < |data| ==> after[At(pos, i)] == data[i]
    ensures forall i :: |data| <= i < N ==> after[At(pos, i)] == buf[At(pos, i)]
  {
    var put := |data|;
    var first := if put > N - pos then N - pos else put;
    after := buf[..pos] + data[..first] + buf[pos + first..];
    if put > first { after := data[first..] + after[put - first..]; }
  }

  /** What is copied out is the front of the ring; the rest follows from there. */
  lemma TakeIs(buf: Bytes, rpos: nat, count: nat, out: Bytes)
    requires |buf| == N && rpos < N && |out| <= count <= N && forall i :: 0 <= i < |out| ==> out[i] == buf[At(rpos, i)]
    ensures Contents(buf, rpos, count) == out + Contents(buf, At(rpos, |out|), count - |out|)
  {}

  /** What is copied in follows what was there. */
  lemma PutIs(buf: Bytes, rpos: nat, count: nat, data: Bytes, after: Bytes)
    requires |buf| == |after| == N && rpos < N && count + |data| <= N
    requires forall i :: 0 <= i < |data| ==> after[At(At(rpos, count), i)] == data[i]
    requires forall i :: |data| <= i < N ==> after[At(At(rpos, count), i)] == buf[At(At(rpos, count), i)]
    ensures Contents(after, rpos, count + |data|) == Contents(buf, rpos, count) + data
  {
    var now, was := Contents(after, rpos, count + |data|), Contents(buf, rpos, count);
    forall i | 0 <= i < count + |data| ensures now[i] == (was + data)[i] {
      if i < count {
        assert At(rpos, i) == At(At(rpos, count), i + N - count);
      } else {
        assert At(rpos, i) == At(At(rpos, count), i - count);
      }
    }
  }

  lemma HistoryRead(consumed: Bytes, out: Bytes, rest: Bytes)
    ensures consumed + (out + rest) == (consumed + out) + rest
  {}

  class Ring {
    var buf: seq<nat>
    var rpos: nat
    var count: nat
    ghost var produced: seq<nat>
    ghost var consumed: seq<nat>

    /** Everything written is either consumed or in the ring, in order. */
    ghost predicate Valid()
      reads this
    {
      |buf| == N && rpos < N && count <= N && consumed + Contents(buf, rpos, count) == produced
    }

    ghost function Held(): (s: Bytes)
      requires Valid()
      reads this
      ensures |s| == count
    {
      Contents(buf, rpos, count)
    }

    constructor ()
      ensures Valid() && produced == [] && consumed == [] && Held() == []
    {
      buf := seq(N, _ => 0);
      rpos, count, produced, consumed := 0, 0, [], [];
    }

    /** The locked section of `pipe_read`: up to `len` of the oldest bytes. It blocks exactly when the ring is empty,
        something was asked for, and there is a writer. */
    method ReadLocked(len: nat, writers: nat) returns (out: seq<nat>, blocked: bool)
      requires Valid()
      modifies this
      ensures Valid() && produced == old(produced) && consumed == old(consumed) + out
      ensures |out| == (if len < old(count) then len else old(count)) && old(Held()) == out + Held()
      ensures blocked <==> len > 0 && old(count) == 0 && writers > 0
    {
      out, blocked := [], false;
      if len == 0 { return; }
      if count == 0 { blocked := writers > 0; return; }
      var take := if len > count then count else len;
      out := CopyOut(buf, rpos, take);
      TakeIs(buf, rpos, count, out);
      rpos := At(rpos, take);
      count := count - take;
      HistoryRead(consumed, out, Contents(buf, rpos, count));
      consumed := consumed + out;
    }

    /** The locked section of `pipe_peek`: bytes after the first `skip`, none consumed. */
    method PeekLocked(len: nat, skip: nat, writers: nat) returns (out: seq<nat>, blocked: bool)
      requires Valid()
      ensures blocked <==> len > 0 && count <= skip && writers > 0
      ensures count <= skip ==> out == []
      ensures count > skip ==>
                |out| == (if len < count - skip then len else count - skip) && out == Held()[skip..skip + |out|]
    {
      out, blocked := [], false;
      if len == 0 { return; }
      if count <= skip { blocked := writers > 0; return; }
      var take := if len > count - skip then count - skip else len;
      out := CopyOut(buf, At(rpos, skip), take);
      assert out == Contents(buf, rpos, count)[skip..skip + take];
    }

    /** The locked section of `pipe_write`: as many bytes as there is room for. With bytes left over the ring is full,
        and the call blocks while there is a reader. */
    method WriteLocked(data: seq<nat>, readers: nat) returns (put: nat, blocked: bool)
      requires Valid()
      modifies this
      ensures Valid() && consumed == old(consumed) && put <= |data| && produced == old(produced) + data[..put]
      ensures put == (if |data| < N - old(count) then |data| else N - old(count)) && Held() == old(Held()) + data[..put]
      ensures blocked <==> put < |data| && readers > 0
    {
      put := if |data| > N - count then N - count else |data|;
      var wpos := At(rpos, count);
      var after := CopyIn(buf, wpos, data[..put]);
      PutIs(buf, rpos, count, data[..put], after);
      HistoryRead(consumed, Contents(buf, rpos, count), data[..put]);
      buf := after;
      count := count + put;
      produced := produced + data[..put];
      blocked := put < |data| && readers > 0;
    }
  }

  datatype Op = Read(len: nat, writers: nat) | Peek(len: nat, skip: nat, writers: nat) | Write(data: Bytes, readers: nat)

  datatype Reply = Reply(bytes: Bytes, put: nat, blocked: bool)

  function Min(a: nat, b: nat): nat { if a < b then a else b }

  /** What a queue with room for `N` bytes answers. */
  function Answer(queue: Bytes, op: Op): Reply
    requires |queue| <= N
  {
    match op
    case Read(len, writers) => Reply(queue[..Min(len, |queue|)], 0, len > 0 && queue == [] && writers > 0)
    case Peek(len, skip, writers) =>
      if |queue| <= skip then Reply([], 0, len > 0 && writers > 0)
      else Reply(queue[skip..skip + Min(len, |queue| - skip)], 0, false)
    case Write(data, readers) =>
      var put := Min(|data|, N - |queue|);
      Reply([], put, put < |data| && readers > 0)
  }

  /** What is in the queue then. */
  function Left(queue: Bytes, op: Op): (rest: Bytes)
    requires |queue| <= N
    ensures |rest| <= N
  {
    match op
    case Read(len, _) => queue[Min(len, |queue|)..]
    case Peek(_, _, _) => queue
    case Write(data, _) => queue + data[..Min(|data|, N - |queue|)]
  }

  function Queue(ops: seq<Op>): (queue: Bytes)
    ensures |queue| <= N
  {
    if ops == [] then [] else Left(Queue(ops[..|ops| - 1]), ops[|ops| - 1])
  }

  /** The bytes accepted, and the bytes consumed, according to the replies. */
  function Sent(ops: seq<Op>, replies: seq<Reply>): Bytes
    requires |ops| == |replies|
  {
    if ops == [] then []
    else
      var n := |ops| - 1;
      Sent(ops[..n], replies[..n]) + if ops[n].Write? then ops[n].data[..Min(replies[n].put, |ops[n].data|)] else []
  }

  function Received(ops: seq<Op>, replies: seq<Reply>): Bytes
    requires |ops| == |replies|
  {
    if ops == [] then []
    else
      var n := |ops| - 1;
      Received(ops[..n], replies[..n]) + if ops[n].Read? then replies[n].bytes else []
  }

  ghost predicate Answers(ops: seq<Op>, replies: seq<Reply>) {
    |replies| == |ops| && forall i :: 0 <= i < |ops| ==> replies[i] == Answer(Queue(ops[..i]), ops[i])
  }

  lemma FifoStep(sent: Bytes, got: Bytes, queue: Bytes, op: Op, reply: Reply)
    requires |queue| <= N && sent == got + queue && reply == Answer(queue, op)
    ensures sent + (if op.Write? then op.data[..Min(reply.put, |op.data|)] else [])
            == got + (if op.Read? then reply.bytes else []) + Left(queue, op)
  {
    match op {
      case Read(len, _) => assert queue[..Min(len, |queue|)] + queue[Min(len, |queue|)..] == queue;
      case Peek(_, _, _) =>
      case Write(data, _) =>
    }
  }

  /** First in, first out: what was received is the front of what was sent, and the rest is in the queue. */
  lemma {:induction false} Fifo(ops: seq<Op>, replies: seq<Reply>)
    requires Answers(ops, replies)
    ensures Sent(ops, replies) == Received(ops, replies) + Queue(ops)
  {
    if ops != [] {
      var n := |ops| - 1;
      var front := ops[..n];
      forall i | 0 <= i < n ensures front[..i] == ops[..i] {}
      Fifo(front, replies[..n]);
      FifoStep(Sent(front, replies[..n]), Received(front, replies[..n]), Queue(front), ops[n], replies[n]);
    }
  }

  lemma AnswersOn(ops: seq<Op>, i: nat, replies: seq<Reply>, reply: Reply)
    requires i < |ops| && Answers(ops[..i], replies) && reply == Answer(Queue(ops[..i]), ops[i])
    ensures Answers(ops[..i + 1], replies + [reply]) && Queue(ops[..i + 1]) == Left(Queue(ops[..i]), ops[i])
  {
    var more := ops[..i + 1];
    assert more[..i] == ops[..i];
    forall j | 0 <= j < i ensures more[..j] == ops[..i][..j] {}
  }

  /** One locked section. */
  method Do(ring: Ring, op: Op) returns (reply: Reply)
    requires ring.Valid()
    modifies ring
    ensures ring.Valid() && reply == Answer(old(ring.Held()), op) && ring.Held() == Left(old(ring.Held()), op)
  {
    match op {
      case Read(len, writers) =>
        var out, blocked := ring.ReadLocked(len, writers);
        reply := Reply(out, 0, blocked);
      case Peek(len, skip, writers) =>
        var out, blocked := ring.PeekLocked(len, skip, writers);
        reply := Reply(out, 0, blocked);
      case Write(data, readers) =>
        var put, blocked := ring.WriteLocked(data, readers);
        reply := Reply([], put, blocked);
    }
  }

  /** Any interleaving of locked sections of any number of readers and writers: each answers as a queue would that holds
      `N` bytes. So what was read is, byte for byte, the front of what was written, and at most a ring full is
      outstanding. */
  method Run(ops: seq<Op>) returns (replies: seq<Reply>)
    ensures Answers(ops, replies)
    ensures Received(ops, replies) <= Sent(ops, replies) && |Sent(ops, replies)| <= |Received(ops, replies)| + N
  {
    var ring := new Ring();
    replies := [];
    for i := 0 to |ops|
      invariant fresh(ring) && ring.Valid() && ring.Held() == Queue(ops[..i]) && Answers(ops[..i], replies)
    {
      var reply := Do(ring, ops[i]);
      AnswersOn(ops, i, replies, reply);
      replies := replies + [reply];
    }
    assert ops[..|ops|] == ops;
    Fifo(ops, replies);
  }
}
