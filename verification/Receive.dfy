/** The receive path on raw packet bytes: the filters of mctp_bus_rx in endpoint mode, then the
    context table. */
module Receive {
  import opened Basics
  import opened Packets
  import opened Fragmentation
  import opened Reassembly
  import opened Trains

  /** mctp_rx_dest_is_local */
  predicate Local(eid: Byte, dest: Byte) {
    dest == eid || dest == EID_NULL || dest == EID_BROADCAST
  }

  /** The packet `wire` holds, unless mctp_bus_rx drops it before looking at its flags. */
  function Admit(eid: Byte, wire: seq<Byte>): Option<Packet> {
    if |wire| < HDR_SIZE then None else
      var p := Decode(wire);
      if p.src == EID_BROADCAST || !Local(eid, p.dest) then None else Some(p)
  }

  function Admitted(eid: Byte, wires: seq<seq<Byte>>): seq<Packet> {
    if wires == [] then [] else
      Admitted(eid, wires[..|wires| - 1])
      + match Admit(eid, wires[|wires| - 1]) case None => [] case Some(p) => [p]
  }

  function WireStep(max: nat, eid: Byte, slots: Slots, wire: seq<Byte>): TableResult {
    match Admit(eid, wire)
    case None => TableResult(slots, [])
    case Some(p) => TableStep(max, slots, p)
  }

  function WireRun(max: nat, eid: Byte, slots: Slots, wires: seq<seq<Byte>>): TableResult {
    if wires == [] then TableResult(slots, []) else
      var r := WireRun(max, eid, slots, wires[..|wires| - 1]);
      var s := WireStep(max, eid, r.slots, wires[|wires| - 1]);
      TableResult(s.slots, r.out + s.out)
  }

  /** What the filters drop, on the bytes: too short for a header, from the broadcast EID, or for
      another endpoint. */
  predicate Dropped(eid: Byte, wire: seq<Byte>) {
    |wire| < 4 || wire[2] == 0xff || (wire[1] != eid && wire[1] != 0 && wire[1] != 0xff)
  }

  /** A packet that is not dropped and carries a whole message, with its SOM and EOM bits set, is
      delivered as the bytes say; any other that is not dropped is left to the table. */
  lemma FilterOnBytes(max: nat, eid: Byte, slots: Slots, wire: seq<Byte>)
    ensures var r := WireStep(max, eid, slots, wire);
            if Dropped(eid, wire) then r == TableResult(slots, [])
            else if wire[3] / 64 == 3 then
              r == TableResult(slots, [Message(wire[2], wire[1], wire[3] / 8 % 2 == 1, wire[3] % 8, wire[4..])])
            else r == TableStep(max, slots, Decode(wire))
  {
    if !Dropped(eid, wire) { TopBits(wire[3]); }
  }

  lemma TopBits(b: Byte)
    ensures b / 64 == 3 <==> b / 128 == 1 && b / 64 % 2 == 1
  {
  }

  /** A table on which `p` leaves a trace. */
  function Witness(p: Packet): Slots {
    [Some(Entry(KeyOf(p), Ctx([], if p.som then Next(p.seqNo) else p.seqNo, 0)))]
  }

  lemma LeavesTrace(max: nat, p: Packet)
    ensures TableStep(max, Witness(p), p) != TableResult(Witness(p), [])
  {
    assert Find(Witness(p), KeyOf(p), 0) == 0;
  }

  /** A packet leaves every table unchanged and delivers nothing if and only if its bytes say that it
      is dropped. */
  lemma InertIffDropped(max: nat, eid: Byte, wire: seq<Byte>)
    ensures Dropped(eid, wire) <==> forall slots :: WireStep(max, eid, slots, wire) == TableResult(slots, [])
  {
    forall slots ensures Dropped(eid, wire) ==> WireStep(max, eid, slots, wire) == TableResult(slots, []) {
      FilterOnBytes(max, eid, slots, wire);
    }
    if !Dropped(eid, wire) {
      var p := Decode(wire);
      LeavesTrace(max, p);
      assert WireStep(max, eid, Witness(p), wire) == TableStep(max, Witness(p), p);
    }
  }

  /** Filtered packets leave no trace. */
  lemma {:induction false} WireRunIsRun(max: nat, eid: Byte, slots: Slots, wires: seq<seq<Byte>>)
    ensures WireRun(max, eid, slots, wires) == TableRun(max, slots, Admitted(eid, wires))
  {
    if wires == [] {
    } else {
      var init, wire := wires[..|wires| - 1], wires[|wires| - 1];
      WireRunIsRun(max, eid, slots, init);
      match Admit(eid, wire)
      case None =>
        assert Admitted(eid, init) + [] == Admitted(eid, init);
      case Some(p) =>
        RunSnoc(max, slots, Admitted(eid, init), p);
    }
  }

  /** Reassembly soundness for arbitrary bytes: whatever arrives, a message is handed up either
      because one packet carried all of it, or because consecutive packets of its key spell it. */
  lemma WireDeliverySound(max: nat, n: nat, eid: Byte, wires: seq<seq<Byte>>, wire: seq<Byte>, m: Message)
    requires m in WireStep(max, eid, WireRun(max, eid, Empty(n), wires).slots, wire).out
    ensures Admit(eid, wire).Some?
    ensures var p := Admit(eid, wire).value;
            if Single(p) then m == Whole(p, p.payload)
            else exists s: nat :: SpelledBy(max, Relevant(Admitted(eid, wires), KeyOf(p)) + [p], s, m)
  {
    WireRunIsRun(max, eid, Empty(n), wires);
    var p := Admit(eid, wire).value;
    if !Single(p) {
      DeliverySound(max, n, Admitted(eid, wires), p, m);
    }
  }

  /** The bytes of a list of packets, as they travel. */
  function Wires(ps: seq<Packet>): seq<seq<Byte>> {
    if ps == [] then [] else Wires(ps[..|ps| - 1]) + [Encode(ps[|ps| - 1])]
  }

  /** A packet an endpoint with this EID does not filter. */
  predicate Addressed(eid: Byte, p: Packet) {
    p.src != EID_BROADCAST && Local(eid, p.dest)
  }

  lemma WiresSnoc(ps: seq<Packet>, p: Packet)
    ensures Wires(ps + [p]) == Wires(ps) + [Encode(p)]
  {
  }

  lemma AdmittedSnoc(eid: Byte, wires: seq<seq<Byte>>, p: Packet)
    requires Addressed(eid, p)
    ensures Admitted(eid, wires + [Encode(p)]) == Admitted(eid, wires) + [p]
  {
    DecodeEncode(p);
  }

  lemma {:induction false} AdmittedWires(eid: Byte, ps: seq<Packet>)
    requires forall p :: p in ps ==> Addressed(eid, p)
    ensures Admitted(eid, Wires(ps)) == ps
  {
    if ps == [] {
    } else {
      var init, p := ps[..|ps| - 1], ps[|ps| - 1];
      assert p in ps && init + [p] == ps;
      AdmittedWires(eid, init);
      WiresSnoc(init, p);
      AdmittedSnoc(eid, Wires(init), p);
    }
  }
}
