/** The driver's ring buffer: two-chunk reads and writes of a fixed byte array, and the proof
    that they are the operations of a bounded FIFO. */
module Ring {
  import opened Basics

  // ---------------------------------------------------------------------------------------
  // A bounded FIFO of bytes, with its history
  // ---------------------------------------------------------------------------------------

  /** `accepted` is everything ever taken in, `consumed` everything ever handed out. */
  datatype Pipe = Pipe(queue: seq<Byte>, accepted: seq<Byte>, consumed: seq<Byte>)

  const EMPTY_PIPE := Pipe([], [], [])

  datatype PipeOp = Push(data: seq<Byte>) | Pull(len: nat)

  /** How much of `data` there is room for. */
  function Room(cap: nat, queue: seq<Byte>, data: seq<Byte>): nat {
    if |queue| <= cap then Min(|data|, cap - |queue|) else 0
  }

  function PipeStep(cap: nat, p: Pipe, op: PipeOp): Pipe {
    match op
    case Push(data) =>
      var n := Room(cap, p.queue, data);
      p.(queue := p.queue + data[..n], accepted := p.accepted + data[..n])
    case Pull(len) =>
      var n := Min(len, |p.queue|);
      p.(queue := p.queue[n..], consumed := p.consumed + p.queue[..n])
  }

  function PipeRun(cap: nat, p: Pipe, ops: seq<PipeOp>): Pipe {
    if ops == [] then p else PipeStep(cap, PipeRun(cap, p, ops[..|ops| - 1]), ops[|ops| - 1])
  }

  /** Nothing is lost, repeated or reordered: what was handed out, followed by what is queued, is
      what was taken in. */
  predicate Conserved(cap: nat, p: Pipe) {
    p.consumed + p.queue == p.accepted && |p.queue| <= cap
  }

  lemma {:induction false} PipeConserves(cap: nat, p: Pipe, ops: seq<PipeOp>)
    requires Conserved(cap, p)
    ensures Conserved(cap, PipeRun(cap, p, ops))
    ensures p.accepted <= PipeRun(cap, p, ops).accepted && p.consumed <= PipeRun(cap, p, ops).consumed
  {
    if ops != [] {
      PipeConserves(cap, p, ops[..|ops| - 1]);
      StepConserves(cap, PipeRun(cap, p, ops[..|ops| - 1]), ops[|ops| - 1]);
    }
  }

  lemma StepConserves(cap: nat, p: Pipe, op: PipeOp)
    requires Conserved(cap, p)
    ensures Conserved(cap, PipeStep(cap, p, op))
    ensures p.accepted <= PipeStep(cap, p, op).accepted && p.consumed <= PipeStep(cap, p, op).consumed
  {
    match op
    case Push(data) =>
      var d := data[..Room(cap, p.queue, data)];
      assert p.consumed + (p.queue + d) == (p.consumed + p.queue) + d;
    case Pull(len) =>
      var n := Min(len, |p.queue|);
      assert p.queue == p.queue[..n] + p.queue[n..];
      assert (p.consumed + p.queue[..n]) + p.queue[n..] == p.consumed + (p.queue[..n] + p.queue[n..]);
  }

  /** A push takes a prefix of the data: all of it, or what fills the queue. */
  lemma PushFills(cap: nat, p: Pipe, data: seq<Byte>)
    requires |p.queue| <= cap
    ensures var q := PipeStep(cap, p, Push(data));
            var n := |q.queue| - |p.queue|;
            && 0 <= n <= |data| && (n == |data| || |q.queue| == cap)
            && q == Pipe(p.queue + data[..n], p.accepted + data[..n], p.consumed)
  {
  }

  /** A pull hands out the front of the queue: as much as is asked for, or all there is. */
  lemma PullEmpties(cap: nat, p: Pipe, len: nat)
    ensures var q := PipeStep(cap, p, Pull(len));
            var n := |p.queue| - |q.queue|;
            && 0 <= n <= len && (n == len || q.queue == [])
            && q == Pipe(p.queue[n..], p.accepted, p.consumed + p.queue[..n])
  {
  }

  lemma PipeRunSnoc(cap: nat, p: Pipe, ops: seq<PipeOp>, op: PipeOp)
    ensures PipeRun(cap, p, ops + [op]) == PipeStep(cap, PipeRun(cap, p, ops), op)
  {
  }

  /** After any run, a write followed by a read of at least the ring's size hands out everything
      queued and then the accepted front of the data, which is all of it unless the ring filled up. */
  lemma PushThenPull(cap: nat, p: Pipe, ops: seq<PipeOp>, data: seq<Byte>, len: nat)
    requires Conserved(cap, p) && len >= cap
    ensures var q, r := PipeRun(cap, p, ops), PipeRun(cap, p, ops + [Push(data)] + [Pull(len)]);
            var n := |r.accepted| - |q.accepted|;
            && 0 <= n <= |data| && (n == |data| || |q.queue| + n == cap)
            && r == Pipe([], q.accepted + data[..n], q.consumed + q.queue + data[..n])
  {
    var q := PipeRun(cap, p, ops);
    PipeConserves(cap, p, ops);
    PipeRunSnoc(cap, p, ops, Push(data));
    PipeRunSnoc(cap, p, ops + [Push(data)], Pull(len));
    var mid := PipeStep(cap, q, Push(data));
    PushFills(cap, q, data);
    PullEmpties(cap, mid, len);
    var n := |mid.queue| - |q.queue|;
    assert mid.queue[..|mid.queue|] == mid.queue;
    Associative(q.consumed, q.queue, data[..n]);
  }

  // ---------------------------------------------------------------------------------------
  // The array seen as a queue
  // ---------------------------------------------------------------------------------------

  function Around(size: nat, i: nat): nat {
    if i < size then i else i - size
  }

  lemma AroundIsMod(size: nat, i: nat)
    requires 0 < size && i < 2 * size
    ensures Around(size, i) == i % size
  {
  }

  /** `n` bytes of the array from `start` on, continuing at the front. */
  function Window(buf: seq<Byte>, start: nat, n: nat): (w: seq<Byte>)
    requires start < |buf| && n <= |buf|
    ensures |w| == n && forall i :: 0 <= i < n ==> w[i] == buf[Around(|buf|, start + i)]
  {
    seq(n, i requires 0 <= i < n => buf[Around(|buf|, start + i)])
  }

  /** One copy of `data` over `buf` at `start`. */
  function Splice(buf: seq<Byte>, start: nat, data: seq<Byte>): (r: seq<Byte>)
    requires start + |data| <= |buf|
    ensures |r| == |buf|
  {
    seq(|buf|, i requires 0 <= i < |buf| => if start <= i < start + |data| then data[i - start] else buf[i])
  }

  /** The two-chunk copy of `data` over `buf` at `start`, continuing at the front. */
  function Put(buf: seq<Byte>, start: nat, data: seq<Byte>): (r: seq<Byte>)
    requires start < |buf| && |data| <= |buf|
    ensures |r| == |buf|
  {
    var first := |buf| - start;
    if |data| <= first then Splice(buf, start, data)
    else Splice(Splice(buf, start, data[..first]), 0, data[first..])
  }

  lemma PutAt(buf: seq<Byte>, start: nat, data: seq<Byte>, i: nat)
    requires start < |buf| && |data| <= |buf| && i < |buf|
    ensures Put(buf, start, data)[Around(|buf|, start + i)] ==
            if i < |data| then data[i] else buf[Around(|buf|, start + i)]
  {
  }

  /** Writing just behind the window appends to it. */
  lemma PutAppends(buf: seq<Byte>, start: nat, n: nat, data: seq<Byte>)
    requires start < |buf| && n + |data| <= |buf|
    requires Around(|buf|, start + n) < |buf|
    ensures Window(Put(buf, Around(|buf|, start + n), data), start, n + |data|) == Window(buf, start, n) + data
  {
    var w := Around(|buf|, start + n);
    var buf' := Put(buf, w, data);
    forall i | 0 <= i < n + |data|
      ensures Window(buf', start, n + |data|)[i] == (Window(buf, start, n) + data)[i]
    {
      if i < n {
        PutAt(buf, w, data, |buf| - n + i);
        assert Around(|buf|, w + (|buf| - n + i)) == Around(|buf|, start + i);
      } else {
        PutAt(buf, w, data, i - n);
        assert Around(|buf|, w + (i - n)) == Around(|buf|, start + i);
      }
    }
  }

  /** Dropping the front of a window moves its start. */
  lemma WindowDrop(buf: seq<Byte>, start: nat, n: nat, k: nat)
    requires start < |buf| && k <= n <= |buf|
    requires Around(|buf|, start + k) < |buf|
    ensures Window(buf, Around(|buf|, start + k), n - k) == Window(buf, start, n)[k..]
    ensures Window(buf, start, k) == Window(buf, start, n)[..k]
  {
    var w := Around(|buf|, start + k);
    forall i | 0 <= i < n - k ensures Window(buf, w, n - k)[i] == Window(buf, start, n)[k..][i] {
      assert Window(buf, start, n)[k..][i] == Window(buf, start, n)[k + i];
      assert Around(|buf|, w + i) == Around(|buf|, start + (k + i));
    }
  }

  /** A window that runs past the end is one up to the end and one from the front. */
  lemma WindowSplit(buf: seq<Byte>, start: nat, n: nat)
    requires start < |buf| && |buf| - start <= n <= |buf|
    ensures Window(buf, start, n) == Window(buf, start, |buf| - start) + Window(buf, 0, n - (|buf| - start))
  {
    var first := |buf| - start;
    var a, b := Window(buf, start, first), Window(buf, 0, n - first);
    forall i | 0 <= i < n ensures Window(buf, start, n)[i] == (a + b)[i] {
      if i < first {
        assert Window(buf, start, n)[i] == buf[start + i] == a[i];
      } else {
        assert Window(buf, start, n)[i] == buf[i - first] == b[i - first];
      }
    }
  }

  // ---------------------------------------------------------------------------------------
  // The ring, in place
  // ---------------------------------------------------------------------------------------

  class RingBuffer {
    const buffer: array<Byte>
    var writeIdx: nat
    var readIdx: nat
    var dataAvailable: nat

    /** The size keeps every index sum within a 32-bit ULONG. */
    ghost predicate Valid()
      reads this
    {
      && 0 < buffer.Length <= 0x8000_0000
      && readIdx < buffer.Length && writeIdx < buffer.Length && dataAvailable <= buffer.Length
      && writeIdx == Around(buffer.Length, readIdx + dataAvailable)
    }

    ghost function Contents(): seq<Byte>
      requires Valid()
      reads this, buffer
    {
      Window(buffer[..], readIdx, dataAvailable)
    }

    constructor (size: nat)
      requires 0 < size <= 0x8000_0000
      ensures Valid() && fresh(buffer) && buffer.Length == size && Contents() == []
    {
      buffer := new Byte[size];
      writeIdx, readIdx, dataAvailable := 0, 0, 0;
    }

    /** RtlCopyMemory into the array. */
    method CopyIn(start: nat, data: seq<Byte>)
      requires start + |data| <= buffer.Length
      modifies buffer
      ensures buffer[..] == Splice(old(buffer[..]), start, data)
    {
      forall i | 0 <= i < |data| {
        buffer[start + i] := data[i];
      }
    }

    /** The two-step copy of RingBufferWrite. */
    method WriteChunks(data: seq<Byte>)
      requires 0 < |data| <= buffer.Length && writeIdx < buffer.Length
      modifies this`writeIdx, buffer
      ensures buffer[..] == Put(old(buffer[..]), old(writeIdx), data)
      ensures writeIdx == Around(buffer.Length, old(writeIdx) + |data|)
    {
      var toWrite, firstChunk := |data|, buffer.Length - writeIdx;
      if toWrite <= firstChunk {
        CopyIn(writeIdx, data);
        AroundIsMod(buffer.Length, writeIdx + toWrite);
        writeIdx := (writeIdx + toWrite) % buffer.Length;
      } else {
        CopyIn(writeIdx, data[..firstChunk]);
        var secondChunk := toWrite - firstChunk;
        CopyIn(0, data[firstChunk..]);
        writeIdx := secondChunk;
      }
    }

    /** RingBufferWrite, once the amount is settled. */
    method Append(data: seq<Byte>)
      requires Valid() && 0 < |data| <= buffer.Length - dataAvailable
      modifies this, buffer
      ensures Valid() && readIdx == old(readIdx)
      ensures Contents() == old(Contents()) + data
    {
      PutAppends(buffer[..], readIdx, dataAvailable, data);
      WriteChunks(data);
      AroundSum(buffer.Length, readIdx, dataAvailable, dataAvailable + |data|);
      dataAvailable := dataAvailable + |data|;
    }

    /** RingBufferWrite */
    method Write(data: seq<Byte>) returns (bytesWritten: nat)
      requires Valid()
      modifies this, buffer
      ensures Valid()
      ensures bytesWritten == Room(buffer.Length, old(Contents()), data)
      ensures bytesWritten <= |data| && Contents() == old(Contents()) + data[..bytesWritten]
      ensures bytesWritten == |data| || |Contents()| == buffer.Length
      ensures readIdx == old(readIdx)
    {
      var spaceFree := buffer.Length - dataAvailable;
      var toWrite := |data|;
      if toWrite > spaceFree {
        toWrite := spaceFree;
      }
      if toWrite == 0 {
        assert Contents() + [] == Contents();
        return 0;
      }
      Append(data[..toWrite]);
      bytesWritten := toWrite;
    }

    /** RtlCopyMemory out of the array. */
    method CopyOut(dst: array<Byte>, to: nat, start: nat, n: nat)
      requires to + n <= dst.Length && start < buffer.Length && start + n <= buffer.Length && dst != buffer
      modifies dst
      ensures dst[..] == Splice(old(dst[..]), to, Window(buffer[..], start, n))
    {
      forall i | 0 <= i < n {
        dst[to + i] := buffer[start + i];
      }
      ghost var w := Window(buffer[..], start, n);
      assert forall i :: 0 <= i < n ==> w[i] == buffer[start + i];
      assert forall i :: to <= i < to + n ==> dst[i] == buffer[start + (i - to)] == w[i - to];
    }

    /** The two-step copy of RingBufferRead. */
    method ReadChunks(dst: array<Byte>, toRead: nat)
      requires 0 < toRead <= buffer.Length && toRead <= dst.Length && readIdx < buffer.Length && dst != buffer
      modifies this`readIdx, dst
      ensures dst[..] == Splice(old(dst[..]), 0, Window(buffer[..], old(readIdx), toRead))
      ensures readIdx == Around(buffer.Length, old(readIdx) + toRead)
    {
      var firstChunk := buffer.Length - readIdx;
      if toRead <= firstChunk {
        CopyOut(dst, 0, readIdx, toRead);
        AroundIsMod(buffer.Length, readIdx + toRead);
        readIdx := (readIdx + toRead) % buffer.Length;
      } else {
        WindowSplit(buffer[..], readIdx, toRead);
        SpliceTwice(dst[..], Window(buffer[..], readIdx, firstChunk), Window(buffer[..], 0, toRead - firstChunk));
        CopyOut(dst, 0, readIdx, firstChunk);
        var secondChunk := toRead - firstChunk;
        CopyOut(dst, firstChunk, 0, secondChunk);
        readIdx := secondChunk;
      }
    }

    /** RingBufferRead: fills the front of `dst`. */
    method Read(dst: array<Byte>, length: nat) returns (bytesRead: nat)
      requires Valid() && length <= dst.Length && dst != buffer
      modifies this, dst
      ensures Valid()
      ensures bytesRead == Min(length, |old(Contents())|)
      ensures bytesRead <= length && (bytesRead == length || Contents() == [])
      ensures dst[..] == Splice(old(dst[..]), 0, old(Contents())[..bytesRead])
      ensures Contents() == old(Contents())[bytesRead..]
    {
      var toRead := length;
      if toRead > dataAvailable {
        toRead := dataAvailable;
      }
      if toRead == 0 {
        assert Contents()[0..] == Contents();
        return 0;
      }
      WindowDrop(buffer[..], readIdx, dataAvailable, toRead);
      ReadChunks(dst, toRead);
      assert buffer[..] == old(buffer[..]);
      AroundSum(buffer.Length, old(readIdx), toRead, dataAvailable);
      dataAvailable := dataAvailable - toRead;
      bytesRead := toRead;
    }
  }

  lemma SpliceTwice(d: seq<Byte>, a: seq<Byte>, b: seq<Byte>)
    requires |a| + |b| <= |d|
    ensures Splice(Splice(d, 0, a), |a|, b) == Splice(d, 0, a + b)
  {
  }

  lemma AroundSum(size: nat, r: nat, k: nat, n: nat)
    requires r < size && k <= n <= size
    ensures Around(size, Around(size, r + k) + (n - k)) == Around(size, r + n)
  {
  }
}
