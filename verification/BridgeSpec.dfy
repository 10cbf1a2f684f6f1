/** What a bridge passes on, and what an endpoint behind it gets to see. */
module BridgeSpec {
  import opened Basics
  import opened Packets
  import opened Fragmentation
  import opened Transmit
  import opened Reassembly
  import opened Receive
  import opened RoundTrip

  /** What a bridge passes on: any packet with a header and a source that is not broadcast. */
  function Passed(wire: seq<Byte>): Option<Packet> {
    if |wire| < HDR_SIZE || Decode(wire).src == EID_BROADCAST then None else Some(Decode(wire))
  }

  /** The message of a single packet, as handed to the other bus. */
  function Forward(p: Packet): Op {
    Send(p.src, p.dest, p.to, p.tag, p.payload)
  }

  /** What a single packet that came in on one bus does to the other. */
  function Relayed(link: Link, st: Tx, wire: seq<Byte>, rcs: nat -> int, n: nat): (r: TxResult)
    requires Sound(link, st)
    ensures Sound(link, r.st)
  {
    match Passed(wire)
    case None => TxResult(st, [], 0)
    case Some(p) => Submit(link, st, Forward(p), rcs, n)
  }

  // ---------------------------------------------------------------------------------------
  // One packet, on its bytes
  // ---------------------------------------------------------------------------------------

  /** Too short for a header, or from the broadcast EID. */
  predicate Stopped(wire: seq<Byte>) {
    |wire| < 4 || wire[2] == 0xff
  }

  /** The SOM and EOM bits are both set. */
  predicate WholeMessage(wire: seq<Byte>) {
    |wire| >= 4 ==> wire[3] / 64 == 3
  }

  /** The message in the packet: source, destination, tag owner, tag and all that follows. */
  function Carried(wire: seq<Byte>): Message
    requires !Stopped(wire)
  {
    Message(wire[2], wire[1], wire[3] / 8 % 2 == 1, wire[3] % 8, wire[4..])
  }

  lemma CarriedIsForwarded(wire: seq<Byte>)
    ensures Passed(wire).None? <==> Stopped(wire)
    ensures !Stopped(wire) ==> MessageOf(Forward(Passed(wire).value)) == Carried(wire)
    ensures !Stopped(wire) && WholeMessage(wire) ==> Single(Passed(wire).value)
  {
    if !Stopped(wire) { TopBits(wire[3]); }
  }

  /** Nothing is handed over exactly for a stopped packet; otherwise the other bus, if it is enabled,
      idle and always accepted, sends the fragments of the message in the packet, and a receiver fed
      their bytes delivers that message, if and only if it is one packet there too or it fits and a
      context is available. */
  lemma RelayReassembles(link: Link, st: Tx, wire: seq<Byte>, rcs: nat -> int, n: nat, max: nat, eid: Byte,
                         slots: Slots)
    requires Sound(link, st) && st.mode == Enabled && st.pending.None? && WholeMessage(wire)
    requires forall k: nat :: rcs(k) == 0
    requires Distinct(slots)
    ensures var r := Relayed(link, st, wire, rcs, n);
            if Stopped(wire) then r.st == st && r.log == []
            else
              var m := Carried(wire);
              && AcceptedPackets(r.log) == Fragments(link, m, st.seqNo) && r.st.pending.None?
              && (Local(eid, wire[1]) ==>
                    WireRun(max, eid, slots, Wires(AcceptedPackets(r.log))).out ==
                    if Count(link, |m.body|) == 1 || (HasRoom(slots, KeyOfMessage(m)) && |m.body| <= max)
                    then [m] else [])
  {
    CarriedIsForwarded(wire);
    if !Stopped(wire) {
      var p := Passed(wire).value;
      AllAccepted(link, st, Forward(p), rcs, n);
      if Local(eid, wire[1]) { Refragmentation(link, st, p, rcs, n, max, eid, slots); }
    }
  }

  lemma AllAccepted(link: Link, st: Tx, op: Op, rcs: nat -> int, n: nat)
    requires Sound(link, st) && st.mode == Enabled && st.pending.None?
    requires op.Send? && op.tag < 8
    requires forall k: nat :: rcs(k) == 0
    ensures var r := Submit(link, st, op, rcs, n);
            AcceptedPackets(r.log) == Fragments(link, MessageOf(op), st.seqNo) && r.st.pending.None?
  {
    AcceptedInFull(link, st, op, rcs, n);
    var r := Submit(link, st, op, rcs, n);
    AllCompleted(r.log);
    AcceptedIsCompleted(r.log);
    assert Completed(r.log) == Fragments(link, MessageOf(op), st.seqNo);
  }

  // ---------------------------------------------------------------------------------------
  // Runs
  // ---------------------------------------------------------------------------------------

  /** A packet that comes in on one of the two busses. */
  datatype Arrival = Arrival(onLeft: bool, wire: seq<Byte>)

  /** A bus as the bridge sees it: its state and all it offered to its binding. */
  datatype Side = Side(st: Tx, log: seq<Attempt>)

  datatype Pair = Pair(left: Side, right: Side)

  /** What does not change: the two bindings. */
  datatype Links = Links(left: Link, leftRcs: nat -> int, right: Link, rightRcs: nat -> int)

  predicate PairOk(ls: Links, b: Pair) {
    Sound(ls.left, b.left.st) && Sound(ls.right, b.right.st)
  }

  function SideStep(link: Link, rcs: nat -> int, side: Side, wire: seq<Byte>): (r: Side)
    requires Sound(link, side.st)
    ensures Sound(link, r.st)
  {
    var r := Relayed(link, side.st, wire, rcs, |side.log|);
    Side(r.st, side.log + r.log)
  }

  function BridgeStep(ls: Links, b: Pair, a: Arrival): (r: Pair)
    requires PairOk(ls, b)
    ensures PairOk(ls, r)
  {
    if a.onLeft then b.(right := SideStep(ls.right, ls.rightRcs, b.right, a.wire))
    else b.(left := SideStep(ls.left, ls.leftRcs, b.left, a.wire))
  }

  function BridgeRun(ls: Links, b: Pair, arrivals: seq<Arrival>): (r: Pair)
    requires PairOk(ls, b)
    ensures PairOk(ls, r)
  {
    if arrivals == [] then b
    else BridgeStep(ls, BridgeRun(ls, b, arrivals[..|arrivals| - 1]), arrivals[|arrivals| - 1])
  }

  /** The messages that come in on one bus and are not stopped, in order. */
  function CarriedFrom(arrivals: seq<Arrival>, onLeft: bool): seq<Message> {
    if arrivals == [] then [] else
      var a := arrivals[|arrivals| - 1];
      CarriedFrom(arrivals[..|arrivals| - 1], onLeft)
      + if a.onLeft == onLeft && !Stopped(a.wire) then [Carried(a.wire)] else []
  }

  /** Handing messages over, one after the other. */
  function SendsOf(ms: seq<Message>): (ops: seq<Op>)
    ensures |ops| == |ms|
  {
    seq(|ms|, i requires 0 <= i < |ms| => Send(ms[i].src, ms[i].dest, ms[i].to, ms[i].tag, ms[i].body))
  }

  lemma SendsOfSnoc(ms: seq<Message>, m: Message)
    ensures SendsOf(ms + [m]) == SendsOf(ms) + [Send(m.src, m.dest, m.to, m.tag, m.body)]
  {
  }

  /** The side is where a sender of `ms` would be. */
  predicate Tracks(link: Link, rcs: nat -> int, st: Tx, ms: seq<Message>, side: Side) {
    && Sound(link, st)
    && var t := SendRun(link, st, SendsOf(ms), rcs);
       side == Side(t.st, t.log)
  }

  lemma TracksStep(link: Link, rcs: nat -> int, st: Tx, ms: seq<Message>, side: Side, wire: seq<Byte>)
    requires Tracks(link, rcs, st, ms, side) && !Stopped(wire)
    ensures Tracks(link, rcs, st, ms + [Carried(wire)], SideStep(link, rcs, side, wire))
  {
    var m := Carried(wire);
    var op := Send(m.src, m.dest, m.to, m.tag, m.body);
    CarriedIsForwarded(wire);
    assert Forward(Passed(wire).value) == op;
    SendsOfSnoc(ms, m);
    SendRunSnoc(link, st, SendsOf(ms), op, rcs);
  }

  lemma StoppedStep(link: Link, rcs: nat -> int, side: Side, wire: seq<Byte>)
    requires Sound(link, side.st) && Stopped(wire)
    ensures SideStep(link, rcs, side, wire) == side
  {
    CarriedIsForwarded(wire);
    assert side.log + [] == side.log;
  }

  /** A bridge is two senders: over any arrivals on both sides, whatever the bindings answer, each bus
      does exactly what it would do if the messages that came in on the other were handed to it one
      after the other and nothing else happened. Nothing goes back to where it came from. */
  lemma {:induction false} BridgeIsTwoSenders(ls: Links, left: Tx, right: Tx, arrivals: seq<Arrival>)
    requires Sound(ls.left, left) && Sound(ls.right, right)
    ensures var b := BridgeRun(ls, Pair(Side(left, []), Side(right, [])), arrivals);
            && Tracks(ls.left, ls.leftRcs, left, CarriedFrom(arrivals, false), b.left)
            && Tracks(ls.right, ls.rightRcs, right, CarriedFrom(arrivals, true), b.right)
  {
    var start := Pair(Side(left, []), Side(right, []));
    if arrivals == [] {
    } else {
      var init, a := arrivals[..|arrivals| - 1], arrivals[|arrivals| - 1];
      BridgeIsTwoSenders(ls, left, right, init);
      var b := BridgeRun(ls, start, init);
      assert CarriedFrom(init, true) + [] == CarriedFrom(init, true);
      assert CarriedFrom(init, false) + [] == CarriedFrom(init, false);
      var link, rcs, st, side := if a.onLeft then ls.right else ls.left, if a.onLeft then ls.rightRcs else ls.leftRcs,
                                 if a.onLeft then right else left, if a.onLeft then b.right else b.left;
      if Stopped(a.wire) {
        StoppedStep(link, rcs, side, a.wire);
      } else {
        TracksStep(link, rcs, st, CarriedFrom(init, a.onLeft), side, a.wire);
      }
    }
  }

  /** An enabled, idle bus with an accepting binding takes every message and finishes it. */
  lemma {:induction false} AllFinished(link: Link, st: Tx, ms: seq<Message>, rcs: nat -> int)
    requires Sound(link, st) && st.mode == Enabled && st.pending.None?
    requires forall k: nat :: rcs(k) == 0
    ensures var t := SendRun(link, st, SendsOf(ms), rcs);
            && t.taken == ms && t.st.mode == Enabled && t.st.pending.None?
            && forall a :: a in t.log ==> a.rc == 0
  {
    if ms == [] {
    } else {
      var init, m := ms[..|ms| - 1], ms[|ms| - 1];
      assert init + [m] == ms;
      AllFinished(link, st, init, rcs);
      SendsOfSnoc(init, m);
      var t, op := SendRun(link, st, SendsOf(init), rcs), Send(m.src, m.dest, m.to, m.tag, m.body);
      SendRunSnoc(link, st, SendsOf(init), op, rcs);
      AcceptedInFull(link, t.st, op, rcs, |t.log|);
    }
  }

  /** End to end across a bridge, over runs: when the right bus starts enabled and idle and its
      binding accepts everything, an endpoint behind it, fed the bytes of the packets, delivers the
      messages that came in on the left, unchanged and in order, except those of several packets that
      exceed its limit. What comes in on the right and what the left binding answers do not matter. */
  lemma BridgeDelivers(ls: Links, left: Tx, right: Tx, arrivals: seq<Arrival>, max: nat, eid: Byte, slots: Slots)
    requires Sound(ls.left, left) && Sound(ls.right, right) && right.mode == Enabled && right.pending.None?
    requires forall k: nat :: ls.rightRcs(k) == 0
    requires forall m :: m in CarriedFrom(arrivals, true) ==> Local(eid, m.dest)
    requires Distinct(slots) && HasFree(slots)
    ensures var b := BridgeRun(ls, Pair(Side(left, []), Side(right, [])), arrivals);
            WireRun(max, eid, slots, Wires(AcceptedPackets(b.right.log))).out ==
            KeptOf(max, ls.right, CarriedFrom(arrivals, true))
  {
    var ms := CarriedFrom(arrivals, true);
    BridgeIsTwoSenders(ls, left, right, arrivals);
    AllFinished(ls.right, right, ms, ls.rightRcs);
    NoneFromBroadcast(arrivals, true);
    RoundTripAnySchedule(ls.right, right, SendsOf(ms), ls.rightRcs, max, eid, slots);
  }

  lemma {:induction false} NoneFromBroadcast(arrivals: seq<Arrival>, onLeft: bool)
    ensures forall m :: m in CarriedFrom(arrivals, onLeft) ==> m.src != EID_BROADCAST
  {
    if arrivals != [] { NoneFromBroadcast(arrivals[..|arrivals| - 1], onLeft); }
  }
}
