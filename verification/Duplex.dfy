/** The driver's shared context: two rings, one per direction, worked by two devices whose
    handlers run under one lock, so that a run is some sequence of whole handlers. */
module Duplex {
  import opened Basics
  import opened Ring

  /** Device 0 is the host end; every other device identifier acts as the BMC end. */
  datatype Request = WriteRequest(dev: nat, data: seq<Byte>) | ReadRequest(dev: nat, len: nat)

  datatype Shared = Shared(hostToBmc: Pipe, bmcToHost: Pipe)

  const EMPTY_SHARED := Shared(EMPTY_PIPE, EMPTY_PIPE)

  /** Whether the request concerns the host-to-BMC ring. */
  predicate Outbound(r: Request) {
    r.dev == 0 <==> r.WriteRequest?
  }

  function AsPipeOp(r: Request): PipeOp {
    match r
    case WriteRequest(_, data) => Push(data)
    case ReadRequest(_, len) => Pull(len)
  }

  /** MmbiEvtIoWrite and MmbiEvtIoRead, between taking and releasing the lock. */
  function Serve(cap: nat, s: Shared, r: Request): Shared {
    match r
    case WriteRequest(dev, data) =>
      if dev == 0 then s.(hostToBmc := PipeStep(cap, s.hostToBmc, Push(data)))
      else s.(bmcToHost := PipeStep(cap, s.bmcToHost, Push(data)))
    case ReadRequest(dev, len) =>
      if dev == 0 then s.(bmcToHost := PipeStep(cap, s.bmcToHost, Pull(len)))
      else s.(hostToBmc := PipeStep(cap, s.hostToBmc, Pull(len)))
  }

  function ServeAll(cap: nat, s: Shared, rs: seq<Request>): Shared {
    if rs == [] then s else Serve(cap, ServeAll(cap, s, rs[..|rs| - 1]), rs[|rs| - 1])
  }

  /** The requests of one direction, in order. */
  function OpsOf(rs: seq<Request>, outbound: bool): seq<PipeOp> {
    if rs == [] then [] else
      var r := rs[|rs| - 1];
      OpsOf(rs[..|rs| - 1], outbound) + if Outbound(r) == outbound then [AsPipeOp(r)] else []
  }

  /** Isolation: for every interleaving, each direction ends up exactly as if the requests of the
      other had never been made. */
  lemma {:induction false} DirectionsAreIsolated(cap: nat, s: Shared, rs: seq<Request>)
    ensures ServeAll(cap, s, rs).hostToBmc == PipeRun(cap, s.hostToBmc, OpsOf(rs, true))
    ensures ServeAll(cap, s, rs).bmcToHost == PipeRun(cap, s.bmcToHost, OpsOf(rs, false))
  {
    if rs == [] {
    } else {
      var init, r := rs[..|rs| - 1], rs[|rs| - 1];
      DirectionsAreIsolated(cap, s, init);
      assert OpsOf(init, !Outbound(r)) + [] == OpsOf(init, !Outbound(r));
      PipeRunSnoc(cap, if Outbound(r) then s.hostToBmc else s.bmcToHost, OpsOf(init, Outbound(r)), AsPipeOp(r));
    }
  }

  /** What each device has read is a prefix of what was accepted from the other, the rest being
      queued, for every interleaving of requests. */
  lemma {:induction false} ReadsArePrefixes(cap: nat, rs: seq<Request>)
    ensures var s := ServeAll(cap, EMPTY_SHARED, rs);
            && s.bmcToHost.consumed <= s.bmcToHost.accepted
            && s.hostToBmc.consumed <= s.hostToBmc.accepted
            && Conserved(cap, s.bmcToHost) && Conserved(cap, s.hostToBmc)
  {
    DirectionsAreIsolated(cap, EMPTY_SHARED, rs);
    PipeConserves(cap, EMPTY_PIPE, OpsOf(rs, true));
    PipeConserves(cap, EMPTY_PIPE, OpsOf(rs, false));
  }

  datatype Status = Success(information: nat) | DeviceBusy

  class SharedContext {
    const hostToBmc: RingBuffer
    const bmcToHost: RingBuffer
    /** The history of both directions. */
    ghost var history: Shared

    ghost predicate Valid()
      reads this, hostToBmc, bmcToHost, hostToBmc.buffer, bmcToHost.buffer
    {
      && hostToBmc != bmcToHost && hostToBmc.buffer != bmcToHost.buffer
      && hostToBmc.Valid() && bmcToHost.Valid()
      && hostToBmc.buffer.Length == bmcToHost.buffer.Length
      && hostToBmc.Contents() == history.hostToBmc.queue
      && bmcToHost.Contents() == history.bmcToHost.queue
    }

    constructor (size: nat)
      requires 0 < size <= 0x8000_0000
      ensures Valid() && history == EMPTY_SHARED && hostToBmc.buffer.Length == size
      ensures fresh(hostToBmc) && fresh(bmcToHost) && fresh(hostToBmc.buffer) && fresh(bmcToHost.buffer)
    {
      hostToBmc := new RingBuffer(size);
      bmcToHost := new RingBuffer(size);
      history := EMPTY_SHARED;
    }

    /** MmbiEvtIoWrite */
    method EvtIoWrite(dev: nat, data: seq<Byte>) returns (status: Status)
      requires Valid()
      modifies this, hostToBmc, bmcToHost, hostToBmc.buffer, bmcToHost.buffer
      ensures Valid()
      ensures history == Serve(hostToBmc.buffer.Length, old(history), WriteRequest(dev, data))
      ensures var queue := if dev == 0 then old(history).hostToBmc.queue else old(history).bmcToHost.queue;
              var queue' := if dev == 0 then history.hostToBmc.queue else history.bmcToHost.queue;
              var size := hostToBmc.buffer.Length;
              match status
              case DeviceBusy => |data| > 0 && |queue| == size && queue' == queue
              case Success(n) =>
                && n <= |data| && queue' == queue + data[..n] && (n == |data| || |queue'| == size)
                && !(|data| > 0 && |queue| == size)
    {
      var bytesWritten;
      if dev == 0 {
        bytesWritten := hostToBmc.Write(data);
      } else {
        bytesWritten := bmcToHost.Write(data);
      }
      history := Serve(hostToBmc.buffer.Length, history, WriteRequest(dev, data));
      if bytesWritten == 0 && |data| > 0 {
        status := DeviceBusy;
      } else {
        status := Success(bytesWritten);
      }
    }

    /** MmbiEvtIoRead; an empty ring is a success with no bytes. */
    method EvtIoRead(dev: nat, dst: array<Byte>, length: nat) returns (status: Status)
      requires Valid() && length <= dst.Length && dst != hostToBmc.buffer && dst != bmcToHost.buffer
      modifies this, hostToBmc, bmcToHost, dst
      ensures Valid()
      ensures history == Serve(hostToBmc.buffer.Length, old(history), ReadRequest(dev, length))
      ensures var queue := if dev == 0 then old(history).bmcToHost.queue else old(history).hostToBmc.queue;
              var n := Min(length, |queue|);
              status == Success(n) && dst[..] == Splice(old(dst[..]), 0, queue[..n])
    {
      var bytesRead;
      if dev == 0 {
        bytesRead := bmcToHost.Read(dst, length);
      } else {
        bytesRead := hostToBmc.Read(dst, length);
      }
      history := Serve(hostToBmc.buffer.Length, history, ReadRequest(dev, length));
      status := Success(bytesRead);
    }
  }
}
