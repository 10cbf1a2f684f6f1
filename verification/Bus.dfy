/** Message buffers, bindings and the transmit half of a bus, as the library keeps them: a heap of
    owned buffers, a packet buffer that is overwritten in place, and the fields of `mctp_bus`. */
module Buses {
  import opened Basics
  import opened Packets
  import opened Fragmentation
  import opened Transmit

  /** Message buffers by address. Address 0 is NULL; addresses are never reused, so that freeing
      twice would be visible. */
  class Heap {
    var mem: map<nat, seq<Byte>>
    var next: nat
    ghost var freed: set<nat>

    /** Every address ever handed out is either live or freed. */
    ghost predicate Valid()
      reads this
    {
      && next > 0
      && (forall p :: p in mem ==> p !in freed)
      && (forall p :: p in mem || p in freed <==> 0 < p < next)
    }

    /** Freed buffers stay freed, and their addresses are not handed out again. */
    twostate predicate Grown()
      reads this
    {
      old(next) <= next && old(freed) <= freed
    }

    constructor ()
      ensures Valid() && mem == map[]
    {
      mem, next, freed := map[], 1, {};
    }

    /** __mctp_msg_alloc, which is taken to succeed. */
    method Alloc(size: nat) returns (p: nat)
      requires Valid()
      modifies this
      ensures Valid() && Grown() && p == old(next) && p !in old(mem)
      ensures p in mem && |mem[p]| == size && mem == old(mem)[p := mem[p]]
    {
      p := next;
      mem := mem[p := seq(size, _ => 0)];
      next := next + 1;
    }

    /** mctp_msg_dup */
    method Dup(bytes: seq<Byte>) returns (p: nat)
      requires Valid()
      modifies this
      ensures Valid() && Grown() && p == old(next) && p !in old(mem)
      ensures mem == old(mem)[p := bytes]
    {
      p := Alloc(|bytes|);
      mem := mem[p := bytes];
    }

    /** memcpy into a live buffer. */
    method Store(p: nat, bytes: seq<Byte>)
      requires Valid() && p in mem && |bytes| == |mem[p]|
      modifies this`mem
      ensures Valid() && mem == old(mem)[p := bytes]
    {
      mem := mem[p := bytes];
    }

    /** __mctp_msg_free; the buffer must be live. */
    method Free(p: nat)
      requires Valid() && p in mem
      modifies this
      ensures Valid() && Grown() && mem == old(mem) - {p}
      ensures freed == old(freed) + {p} && p !in old(freed)
    {
      mem := mem - {p};
      freed := freed + {p};
    }
  }

  /** A binding: the packet geometry, the packet buffer `tx_storage`, and the hardware behind the
      `tx` callback, whose k-th answer is `verdicts(k)`. */
  class Binding {
    const pktSize: nat
    const pktHeader: nat
    const pktTrailer: nat
    const version: Byte
    const storage: array<Byte>
    const verdicts: nat -> int
    var log: seq<Attempt>

    /** `tx_storage` holds a packet of the declared geometry. */
    ghost predicate Valid() {
      storage.Length == pktSize + pktHeader + pktTrailer
    }

    function Geometry(): Link {
      Link(pktSize, version % 16)
    }

    constructor (pktSize: nat, pktHeader: nat, pktTrailer: nat, version: Byte, verdicts: nat -> int)
      ensures Valid() && fresh(storage) && log == []
      ensures Geometry() == Link(pktSize, version % 16) && this.verdicts == verdicts
    {
      this.pktSize, this.pktHeader, this.pktTrailer := pktSize, pktHeader, pktTrailer;
      this.version, this.verdicts := version, verdicts;
      storage := new Byte[pktSize + pktHeader + pktTrailer];
      log := [];
    }

    /** The `tx` callback: the packet is the bytes from `start` to `end` of the packet buffer. */
    method Tx(start: nat, end: nat) returns (rc: int)
      requires start + HDR_SIZE <= end <= storage.Length
      modifies this`log
      ensures rc == verdicts(|old(log)|)
      ensures log == old(log) + [Attempt(Decode(storage[start..end]), rc)]
    {
      rc := verdicts(|log|);
      log := log + [Attempt(Decode(storage[start..end]), rc)];
    }
  }

  class Bus {
    const heap: Heap
    const binding: Binding
    var eid: Byte
    var state: Mode
    var txMsg: nat
    var txMsgPos: nat
    var txMsgLen: nat
    var txPktLen: nat
    var txSeq: SeqNo
    var txSrc: Byte
    var txDest: Byte
    var txTo: bool
    var txTag: Tag

    ghost predicate Valid()
      reads this, heap
    {
      && heap.Valid() && binding.Valid()
      && (state != Constructed ==> ValidMtu(binding.Geometry()))
      && (txMsg != 0 ==>
            && txMsg in heap.mem && |heap.mem[txMsg]| == txMsgLen
            && state != Constructed
            && (txMsgPos == 0 || txMsgPos < txMsgLen))
    }

    ghost function View(): (st: Tx)
      requires Valid()
      reads this, heap
      ensures Sound(binding.Geometry(), st)
    {
      Tx(state,
         if txMsg == 0 then None
         else Some(Pending(Message(txSrc, txDest, txTo, txTag, heap.mem[txMsg]), txMsgPos)),
         txSeq)
    }

    /** mctp_register_bus, before the binding is started. */
    constructor (heap: Heap, binding: Binding, eid: Byte)
      requires heap.Valid() && binding.Valid()
      ensures this.heap == heap && this.binding == binding && this.eid == eid
      ensures Valid() && View() == Tx(Constructed, None, 0) && txMsg == 0
    {
      this.heap, this.binding, this.eid := heap, binding, eid;
      state := Constructed;
      txMsg, txMsgPos, txMsgLen, txPktLen, txSeq := 0, 0, 0, 0, 0;
      txSrc, txDest, txTo, txTag := 0, 0, false, 0;
    }

    /** Lays a packet out in the packet buffer. */
    method WritePacket(start: nat, p: Packet)
      requires start + Size(p) <= binding.storage.Length
      modifies binding.storage
      ensures binding.storage[start..start + Size(p)] == Encode(p)
    {
      var storage := binding.storage;
      storage[start] := p.ver;
      storage[start + 1] := p.dest;
      storage[start + 2] := p.src;
      storage[start + 3] := FlagsSeqTag(p.som, p.eom, p.seqNo, p.to, p.tag);
      forall i | 0 <= i < |p.payload| {
        storage[start + HDR_SIZE + i] := p.payload[i];
      }
      ghost var bytes := storage[start..start + Size(p)];
      assert forall i :: 0 <= i < |p.payload| ==> bytes[HDR_SIZE + i] == p.payload[i];
      assert bytes[0] == p.ver && bytes[1] == p.dest && bytes[2] == p.src;
      assert bytes[3] == FlagsSeqTag(p.som, p.eom, p.seqNo, p.to, p.tag);
      assert bytes[HDR_SIZE..] == p.payload;
      assert bytes == [bytes[0], bytes[1], bytes[2], bytes[3]] + bytes[HDR_SIZE..];
    }

    /** The fields mctp_next_tx_pkt puts into the packet. */
    method NextFields() returns (pkt: Packet)
      requires Valid() && txMsg != 0
      ensures pkt == NextPacket(binding.Geometry(), View())
      ensures |pkt.payload| == PayloadLen(binding.Geometry(), View())
      ensures txMsgPos + |pkt.payload| <= txMsgLen
      ensures pkt == Packet(binding.version % 16, txDest, txSrc, txMsgPos == 0, txMsgPos + |pkt.payload| == txMsgLen,
                            txSeq, txTo, txTag, heap.mem[txMsg][txMsgPos..txMsgPos + |pkt.payload|])
    {
      var msg := heap.mem[txMsg];
      var p := txMsgPos;
      var payloadLen := txMsgLen - p;
      var maxPayloadLen := binding.pktSize - HDR_SIZE;
      if payloadLen > maxPayloadLen {
        payloadLen := maxPayloadLen;
      }
      pkt := Packet(binding.version % 16, txDest, txSrc, p == 0, p + payloadLen >= txMsgLen, txSeq, txTo, txTag,
                    msg[p..p + payloadLen]);
    }

    /** mctp_next_tx_pkt */
    method NextTxPkt() returns (start: nat, end: nat)
      requires Valid() && txMsg != 0
      modifies this`txPktLen, binding.storage
      ensures Valid() && View() == old(View())
      ensures start == binding.pktHeader && end == start + Size(NextPacket(binding.Geometry(), View()))
      ensures end <= binding.storage.Length - binding.pktTrailer
      ensures binding.storage[start..end] == Encode(NextPacket(binding.Geometry(), View()))
      ensures txPktLen == PayloadLen(binding.Geometry(), View())
      ensures var bytes := binding.storage[start..end];
              && bytes[0] == binding.version % 16 && bytes[1] == txDest && bytes[2] == txSrc
              && bytes[3] == FlagsSeqTag(txMsgPos == 0, txMsgPos + txPktLen == txMsgLen, txSeq, txTo, txTag)
              && bytes[HDR_SIZE..] == heap.mem[txMsg][txMsgPos..txMsgPos + txPktLen]
    {
      var pkt := NextFields();
      start := binding.pktHeader;
      WritePacket(start, pkt);
      EncodeLayout(pkt);
      end := start + Size(pkt);
      txPktLen := |pkt.payload|;
    }

    /** mctp_packet_tx: nothing reaches the binding unless transmission is enabled. */
    method PacketTx(start: nat, end: nat) returns (rc: int)
      requires start + HDR_SIZE <= end <= binding.storage.Length
      modifies binding`log
      ensures state != Enabled ==> rc == -1 && binding.log == old(binding.log)
      ensures state == Enabled ==>
                && rc == binding.verdicts(|old(binding.log)|)
                && binding.log == old(binding.log) + [Attempt(Decode(binding.storage[start..end]), rc)]
    {
      if state != Enabled {
        return -1;
      }
      rc := binding.Tx(start, end);
    }

    /** mctp_tx_complete */
    method TxComplete()
      requires Valid() && txMsg != 0 && txPktLen == PayloadLen(binding.Geometry(), View())
      modifies this, heap
      ensures Valid() && View() == Complete(binding.Geometry(), old(View()))
      ensures heap.Grown() && eid == old(eid) && (txMsg == old(txMsg) || txMsg == 0)
      ensures heap.mem == if txMsg == 0 then old(heap.mem) - {old(txMsg)} else old(heap.mem)
    {
      txSeq := (txSeq + 1) % 4;
      txMsgPos := txMsgPos + txPktLen;
      if txMsgPos >= txMsgLen {
        heap.Free(txMsg);
        txMsg := 0;
      }
    }

    /** One turn of the loop of mctp_send_tx_queue; false when the loop is to be left. */
    method SendOne() returns (again: bool)
      requires Valid() && txMsg != 0 && state == Enabled
      modifies this, heap, binding`log, binding.storage
      ensures Valid() && heap.Grown() && eid == old(eid) && (txMsg == old(txMsg) || txMsg == 0)
      ensures heap.mem == if txMsg == 0 then old(heap.mem) - {old(txMsg)} else old(heap.mem)
      ensures var offer := Attempt(NextPacket(binding.Geometry(), old(View())), binding.verdicts(|old(binding.log)|));
              && binding.log == old(binding.log) + [offer]
              && View() == (if offer.rc == -EBUSY then old(View()) else Complete(binding.Geometry(), old(View())))
              && (again <==> offer.rc == 0)
    {
      DecodeEncode(NextPacket(binding.Geometry(), View()));
      var start, end := NextTxPkt();
      var rc := PacketTx(start, end);
      if rc != -EBUSY {
        TxComplete();
      }
      again := rc == 0;
    }

    /** What the loop still has to do amounts to the whole drain. */
    ghost predicate OnTrack(r: TxResult, log: seq<Attempt>)
      requires Valid()
      reads this, heap, binding
    {
      var rest := Drain(binding.Geometry(), View(), binding.verdicts, |binding.log|);
      rest.st == r.st && binding.log + rest.log == log + r.log
    }

    /** mctp_send_tx_queue */
    method SendTxQueue()
      requires Valid()
      modifies this, heap, binding`log, binding.storage
      ensures Valid() && heap.Grown() && eid == old(eid) && (txMsg == old(txMsg) || txMsg == 0)
      ensures heap.mem == if txMsg == 0 && old(txMsg) != 0 then old(heap.mem) - {old(txMsg)} else old(heap.mem)
      ensures var r := Drain(binding.Geometry(), old(View()), binding.verdicts, |old(binding.log)|);
              View() == r.st && binding.log == old(binding.log) + r.log
    {
      ghost var r := Drain(binding.Geometry(), View(), binding.verdicts, |binding.log|);
      while txMsg != 0 && state == Enabled
        invariant Valid() && heap.Grown() && eid == old(eid) && (txMsg == old(txMsg) || txMsg == 0)
        invariant heap.mem == if txMsg == 0 && old(txMsg) != 0 then old(heap.mem) - {old(txMsg)} else old(heap.mem)
        invariant OnTrack(r, old(binding.log))
        decreases Unsent(View())
      {
        DrainUnfolds(binding.Geometry(), View(), binding.verdicts, binding.log);
        var again := SendOne();
        if !again {
          return;
        }
      }
      assert binding.log + [] == binding.log;
    }

    /** mctp_binding_set_tx_enabled */
    method SetTxEnabled(enable: bool)
      requires Valid()
      modifies this, heap, binding`log, binding.storage
      ensures Valid() && heap.Grown() && eid == old(eid) && (txMsg == old(txMsg) || txMsg == 0)
      ensures heap.mem == if txMsg == 0 && old(txMsg) != 0 then old(heap.mem) - {old(txMsg)} else old(heap.mem)
      ensures var r := Switch(binding.Geometry(), old(View()), enable, binding.verdicts, |old(binding.log)|);
              View() == r.st && binding.log == old(binding.log) + r.log
      ensures state == if old(state) == Constructed && (!enable || binding.pktSize < 68) then Constructed
                       else if enable then Enabled else Disabled
    {
      match state
      case Constructed =>
        if enable && binding.pktSize >= HDR_SIZE + BTU {
          state := Enabled;
        }
      case Enabled =>
        if !enable {
          state := Disabled;
        }
      case Disabled =>
        if enable {
          state := Enabled;
          SendTxQueue();
        }
    }

    /** The idle bus takes a message on. */
    method Enqueue(src: Byte, dest: Byte, tagOwner: bool, msgTag: Tag, msg: nat)
      requires Valid() && msg in heap.mem && txMsg == 0 && state != Constructed
      modifies this
      ensures Valid() && txMsg == msg && eid == old(eid)
      ensures View() == old(View()).(pending := Some(Pending(Message(src, dest, tagOwner, msgTag, heap.mem[msg]), 0)))
    {
      txMsg, txMsgLen, txMsgPos := msg, |heap.mem[msg]|, 0;
      txSrc, txDest, txTo, txTag := src, dest, tagOwner, msgTag;
    }

    /** A message that is not taken on is freed. */
    method Reject(msg: nat)
      requires Valid() && msg in heap.mem && msg != txMsg
      modifies heap
      ensures Valid() && heap.Grown() && View() == old(View()) && heap.mem == old(heap.mem) - {msg}
    {
      heap.Free(msg);
    }

    /** mctp_message_tx_on_bus: takes the message buffer over, whatever the outcome. */
    method MessageTxOnBus(src: Byte, dest: Byte, tagOwner: bool, msgTag: Byte, msg: nat) returns (rc: int)
      requires Valid() && msg in heap.mem && msg != txMsg
      modifies this, heap, binding`log, binding.storage
      ensures Valid() && heap.Grown() && eid == old(eid) && (txMsg == old(txMsg) || (old(txMsg) == 0 && txMsg == msg))
      ensures heap.mem == if txMsg == msg then old(heap.mem) else old(heap.mem) - {msg}
      ensures var op := Send(src, dest, tagOwner, msgTag, old(heap.mem)[msg]);
              var r := Submit(binding.Geometry(), old(View()), op, binding.verdicts, |old(binding.log)|);
              View() == r.st && binding.log == old(binding.log) + r.log && rc == r.rc
    {
      if state == Constructed {
        rc := -ENXIO;
      } else if msgTag >= 8 {
        rc := -EINVAL;
      } else if txMsg != 0 {
        rc := -EBUSY;
      } else {
        Enqueue(src, dest, tagOwner, msgTag, msg);
        SendTxQueue();
        return 0;
      }
      Reject(msg);
    }

    /** mctp_bus_destroy */
    method Destroy()
      requires Valid()
      modifies this, heap
      ensures heap.Valid() && heap.Grown() && txMsg == 0
      ensures heap.mem == if old(txMsg) == 0 then old(heap.mem) else old(heap.mem) - {old(txMsg)}
    {
      if txMsg != 0 {
        heap.Free(txMsg);
        txMsg := 0;
      }
    }
  }

  /** One turn of the transmit loop, as a step of the drain. */
  lemma DrainUnfolds(link: Link, st: Tx, rcs: nat -> int, log: seq<Attempt>)
    requires Waiting(link, st) && st.mode == Enabled
    ensures Unsent(Complete(link, st)) < Unsent(st)
    ensures var offer := Attempt(NextPacket(link, st), rcs(|log|));
            var r := Drain(link, st, rcs, |log|);
            var rest := Drain(link, Complete(link, st), rcs, |log + [offer]|);
            if offer.rc == 0 then r.st == rest.st && log + r.log == (log + [offer]) + rest.log
            else r.log == [offer] && r.st == if offer.rc == -EBUSY then st else Complete(link, st)
  {
    var offer := Attempt(NextPacket(link, st), rcs(|log|));
    var rest := Drain(link, Complete(link, st), rcs, |log| + 1);
    Associative(log, [offer], rest.log);
  }
}
