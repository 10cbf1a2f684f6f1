/** A bridge: `struct mctp` with two busses in bridge mode, for messages that arrive as one packet. */
module Bridges {
  import opened Basics
  import opened Packets
  import opened Transmit
  import opened Buses
  import opened BridgeSpec

  /** The live buffers are the pending messages of the two busses and the ones lent out. */
  predicate Owned(mem: map<nat, seq<Byte>>, a: nat, b: nat, lent: set<nat>) {
    && 0 !in mem && (a != 0 ==> a != b)
    && (forall p :: p in mem ==> p in lent || p == a || p == b)
    && (forall p :: p in lent ==> p in mem && p != a && p != b)
  }

  /** A lent buffer handed to the bus of `a` is freed or becomes its pending message. */
  lemma OwnedSend(mem: map<nat, seq<Byte>>, a: nat, b: nat, lent: set<nat>, p: nat)
    requires Owned(mem, a, b, lent) && p in lent
    ensures Owned(mem - {p}, a, b, lent - {p}) && Owned(mem - {p}, b, a, lent - {p})
    ensures a == 0 ==> Owned(mem, p, b, lent - {p}) && Owned(mem, b, p, lent - {p})
    ensures b != p && (b in mem ==> b in mem - {p})
  {
  }

  class Bridge {
    const heap: Heap
    const left: Bus
    const right: Bus

    ghost predicate Valid(lent: set<nat>)
      reads this, heap, left, right
    {
      && left != right && left.binding != right.binding && left.binding.storage != right.binding.storage
      && left.heap == heap && right.heap == heap && left.Valid() && right.Valid()
      && Owned(heap.mem, left.txMsg, right.txMsg, lent)
    }

    /** mctp_bridge_busses, before the bindings are started. */
    constructor (heap: Heap, left: Bus, right: Bus)
      requires left != right && left.binding != right.binding && left.binding.storage != right.binding.storage
      requires left.heap == heap && right.heap == heap && left.Valid() && right.Valid()
      requires left.txMsg == 0 && right.txMsg == 0 && heap.mem == map[]
      ensures this.heap == heap && this.left == left && this.right == right && Valid({})
    {
      this.heap, this.left, this.right := heap, left, right;
    }

    /** mctp_msg_dup of `bytes`. */
    method Borrow(bytes: seq<Byte>, ghost lent: set<nat>) returns (copy: nat)
      requires Valid(lent)
      modifies heap
      ensures Valid(lent + {copy}) && heap.Grown() && copy !in lent && copy in heap.mem && heap.mem[copy] == bytes
      ensures left.View() == old(left.View()) && right.View() == old(right.View())
    {
      copy := heap.Dup(bytes);
    }

    /** __mctp_msg_free of a buffer that no bus holds. */
    method GiveBack(msg: nat, ghost lent: set<nat>)
      requires Valid(lent) && msg in lent
      modifies heap
      ensures Valid(lent - {msg}) && heap.Grown()
      ensures left.View() == old(left.View()) && right.View() == old(right.View())
    {
      heap.Free(msg);
    }

    /** The body of mctp_rx's loop: a copy of the message is handed to bus `to`. */
    method HandOver(to: Bus, other: Bus, p: Packet, ghost lent: set<nat>)
      requires Valid(lent) && ((to == left && other == right) || (to == right && other == left))
      modifies heap, to, to.binding`log, to.binding.storage
      ensures Valid(lent) && heap.Grown()
      ensures other.View() == old(other.View())
      ensures var r := Submit(to.binding.Geometry(), old(to.View()), Forward(p), to.binding.verdicts,
                              |old(to.binding.log)|);
              to.View() == r.st && to.binding.log == old(to.binding.log) + r.log
    {
      var copy := Borrow(p.payload, lent);
      assert lent + {copy} - {copy} == lent;
      OwnedSend(heap.mem, to.txMsg, other.txMsg, lent + {copy}, copy);
      var _ := to.MessageTxOnBus(p.src, p.dest, p.to, p.tag, copy);
    }

    /** mctp_bus_rx for a packet that came in on bus `from`: the message is handed once to the other
        bus and never back. */
    method BusRx(from: Bus, to: Bus, wire: seq<Byte>)
      requires Valid({}) && ((from == left && to == right) || (from == right && to == left))
      requires Passed(wire).Some? ==> Single(Passed(wire).value)
      modifies heap, to, to.binding`log, to.binding.storage
      ensures Valid({}) && heap.Grown()
      ensures from.View() == old(from.View())
      ensures var r := Relayed(to.binding.Geometry(), old(to.View()), wire, to.binding.verdicts,
                               |old(to.binding.log)|);
              to.View() == r.st && to.binding.log == old(to.binding.log) + r.log
    {
      if |wire| < HDR_SIZE {
        return;
      }
      var p := Decode(wire);
      if p.src == EID_BROADCAST {
        return;
      }
      var buf := Borrow(p.payload, {});
      HandOver(to, from, p, {} + {buf});
      GiveBack(buf, {} + {buf});
    }

    ghost function View(): Pair
      requires left.Valid() && right.Valid()
      reads this, heap, left, right, left.heap, right.heap, left.binding, right.binding
    {
      Pair(Side(left.View(), left.binding.log), Side(right.View(), right.binding.log))
    }

    function Bindings(): Links {
      Links(left.binding.Geometry(), left.binding.verdicts, right.binding.Geometry(), right.binding.verdicts)
    }

    /** Any packets of whole messages, arriving on either bus in any order. */
    method Serve(arrivals: seq<Arrival>)
      requires Valid({})
      requires forall i :: 0 <= i < |arrivals| ==> WholeMessage(arrivals[i].wire)
      modifies heap, left, right, left.binding`log, right.binding`log, left.binding.storage, right.binding.storage
      ensures Valid({}) && heap.Grown()
      ensures PairOk(Bindings(), old(View())) && View() == BridgeRun(Bindings(), old(View()), arrivals)
    {
      for i := 0 to |arrivals|
        invariant Valid({}) && heap.Grown()
        invariant View() == BridgeRun(Bindings(), old(View()), arrivals[..i])
      {
        var a := arrivals[i];
        CarriedIsForwarded(a.wire);
        assert arrivals[..i + 1][..i] == arrivals[..i];
        if a.onLeft {
          BusRx(left, right, a.wire);
        } else {
          BusRx(right, left, a.wire);
        }
      }
      assert arrivals[..|arrivals|] == arrivals;
    }
  }
}
