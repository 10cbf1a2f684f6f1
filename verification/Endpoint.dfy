/** An endpoint: `struct mctp` with one registered bus, in endpoint mode. */
module Endpoints {
  import opened Basics
  import opened Packets
  import opened Fragmentation
  import opened Transmit
  import opened Reassembly
  import opened Receive
  import opened Tags
  import opened Control
  import opened Buses
  import opened EndpointSpec

  const SIZE_LIMIT := SIZE_MAX + 1

  /** The two size_t comparisons of mctp_msg_ctx_add_pkt, whose sums wrap. */
  predicate WrappingFits(bufSize: nat, len: nat, alloc: nat) {
    (len + bufSize) % SIZE_LIMIT >= bufSize && (bufSize + len) % SIZE_LIMIT <= alloc
  }

  /** Together they accept a packet if and only if the true sum fits. */
  lemma WrappingFitsExactly(bufSize: nat, len: nat, alloc: nat)
    requires bufSize <= alloc <= SIZE_MAX && len <= SIZE_MAX
    ensures WrappingFits(bufSize, len, alloc) <==> bufSize + len <= alloc
  {
    if bufSize + len >= SIZE_LIMIT {
      assert bufSize + len == SIZE_LIMIT * 1 + (bufSize + len - SIZE_LIMIT);
      assert (bufSize + len) % SIZE_LIMIT == bufSize + len - SIZE_LIMIT;
    }
  }

  class Endpoint {
    const heap: Heap
    const bus: Bus
    const ctxs: array<MsgCtx>
    const tags: TagTable
    const control: TypeRegistry
    const maxMessageSize: nat
    const transportRx: bool
    const messageRx: bool
    /** Every call of mctp_rx, of mctp_message_tx_alloced, of the receive callback and of the
        transport control callback, in order. */
    var delivered: seq<Message>
    var sends: seq<SendCall>
    var received: seq<Message>
    var transport: seq<seq<Byte>>

    ghost predicate Valid(lent: set<nat>)
      reads this, heap, bus, ctxs, control, control.msgTypes
    {
      && bus.heap == heap && bus.Valid() && control.Valid()
      && bus.binding.storage != control.msgTypes
      && maxMessageSize <= SIZE_MAX
      && CtxsOk(heap.mem, maxMessageSize, ctxs[..])
      && Ledger(heap.mem, bus.txMsg, ctxs[..], lent)
    }

    function TheNode(): Node {
      Node(bus.binding.Geometry(), bus.binding.verdicts, transportRx, messageRx)
    }

    ghost function Table(): Slots
      reads this, heap, ctxs
    {
      SlotsOf(heap.mem, ctxs[..])
    }

    ghost function View(): (u: Upper)
      requires bus.Valid() && control.Valid()
      reads this, heap, bus, bus.heap, bus.binding, tags, tags.tags, control, control.msgTypes
      ensures UpperOk(TheNode(), u)
    {
      Upper(bus.eid, bus.View(), bus.binding.log, tags.View(), control.View(), sends, received, transport)
    }

    /** mctp_setup and mctp_register_bus, with the type registry already filled. */
    constructor (heap: Heap, bus: Bus, control: TypeRegistry, contexts: nat, reqTags: nat, maxMessageSize: nat,
                 transportRx: bool, messageRx: bool)
      requires bus.heap == heap && bus.Valid() && bus.txMsg == 0 && heap.mem == map[] && control.Valid()
      requires bus.binding.storage != control.msgTypes && maxMessageSize <= SIZE_MAX
      ensures this.heap == heap && this.bus == bus && this.control == control
      ensures fresh(ctxs) && fresh(tags) && fresh(tags.tags)
      ensures Valid({}) && Table() == Empty(contexts) && delivered == []
      ensures View() == Upper(bus.eid, bus.View(), bus.binding.log, TagState(seq(reqTags, _ => UNUSED), 0),
                              control.View(), [], [], [])
    {
      this.heap, this.bus, this.control := heap, bus, control;
      this.maxMessageSize, this.transportRx, this.messageRx := maxMessageSize, transportRx, messageRx;
      ctxs := new MsgCtx[contexts](_ => MsgCtx(0, 0, 0, 0, 0, 0, 0, 0));
      tags := new TagTable(reqTags);
      delivered, sends, received, transport := [], [], [], [];
      new;
      assert Table() == Empty(contexts);
    }

    // ---- reassembly contexts ----

    /** mctp_msg_ctx_lookup; ctxs.Length stands for NULL. */
    method CtxLookup(src: Byte, dest: Byte, tag: Tag, ghost lent: set<nat>) returns (i: nat)
      requires Valid(lent)
      ensures i == Find(Table(), Key(src, dest, tag), 0)
    {
      i := 0;
      while i < ctxs.Length
        invariant 0 <= i <= ctxs.Length
        invariant Find(Table(), Key(src, dest, tag), 0) == Find(Table(), Key(src, dest, tag), i)
      {
        var c := ctxs[i];
        assert Table()[i] == SlotOf(heap.mem, c) && CtxOk(heap.mem, maxMessageSize, c);
        if c.buf != 0 && c.src == src && c.dest == dest && c.tag == tag {
          return;
        }
        i := i + 1;
      }
    }

    /** The search of mctp_msg_ctx_create. */
    method FindUnused(ghost lent: set<nat>) returns (i: nat)
      requires Valid(lent)
      ensures i == FirstFree(Table(), 0)
    {
      i := 0;
      while i < ctxs.Length
        invariant 0 <= i <= ctxs.Length
        invariant FirstFree(Table(), 0) == FirstFree(Table(), i)
      {
        var c := ctxs[i];
        assert Table()[i] == SlotOf(heap.mem, c) && CtxOk(heap.mem, maxMessageSize, c);
        if c.buf == 0 {
          return;
        }
        i := i + 1;
      }
    }

    /** Rewrites context `i`, keeping its buffer. */
    method CtxUpdate(i: nat, c: MsgCtx, ghost lent: set<nat>)
      requires Valid(lent) && i < ctxs.Length && ctxs[i].buf != 0
      requires c.buf == ctxs[i].buf && CtxOk(heap.mem, maxMessageSize, c)
      modifies ctxs
      ensures Valid(lent) && ctxs[i] == c
      ensures Table() == old(Table())[i := SlotOf(heap.mem, c)]
    {
      TableUpdate(heap.mem, heap.mem, maxMessageSize, ctxs[..], i, c);
      LedgerRewrite(heap.mem, bus.txMsg, ctxs[..], lent, i, c, heap.mem[c.buf]);
      assert heap.mem[c.buf := heap.mem[c.buf]] == heap.mem;
      ctxs[i] := c;
      assert ctxs[..] == old(ctxs[..])[i := c];
    }

    /** Records the number of the packet just added. */
    method CtxSetSeq(i: nat, seqNo: SeqNo, ghost lent: set<nat>)
      requires Valid(lent) && i < ctxs.Length && ctxs[i].buf != 0 && Table()[i].Some?
      modifies ctxs
      ensures Valid(lent)
      ensures var Entry(k, c) := old(Table())[i].value;
              Table() == old(Table())[i := Some(Entry(k, c.(lastSeq := seqNo)))]
    {
      assert Table()[i] == SlotOf(heap.mem, ctxs[i]) && CtxOk(heap.mem, maxMessageSize, ctxs[i]);
      CtxUpdate(i, ctxs[i].(lastSeq := seqNo), lent);
    }

    /** mctp_msg_ctx_create, given an unused context. */
    method CtxOpen(i: nat, src: Byte, dest: Byte, tag: Tag, ghost lent: set<nat>)
      requires Valid(lent) && i < ctxs.Length && ctxs[i].buf == 0
      modifies ctxs, heap
      ensures Valid(lent) && heap.Grown() && bus.View() == old(bus.View())
      ensures var c := ctxs[i];
              c.buf != 0 && c.src == src && c.dest == dest && c.tag == tag && c.bufSize == 0
      ensures Table() == old(Table())[i := SlotOf(heap.mem, ctxs[i])]
    {
      var buf := heap.Alloc(maxMessageSize);
      ghost var mem, cs := old(heap.mem), ctxs[..];
      LedgerAlloc(mem, bus.txMsg, cs, lent, buf, heap.mem[buf]);
      var c := ctxs[i].(buf := buf, src := src, dest := dest, tag := tag, bufSize := 0, bufAllocSize := maxMessageSize);
      LedgerOpen(heap.mem, bus.txMsg, cs, lent + {buf}, i, c);
      assert lent + {buf} - {buf} == lent;
      TableUpdate(mem, heap.mem, maxMessageSize, cs, i, c);
      ctxs[i] := c;
      assert ctxs[..] == cs[i := c];
    }

    /** mctp_msg_ctx_drop */
    method CtxDrop(i: nat, ghost lent: set<nat>)
      requires Valid(lent) && i < ctxs.Length && ctxs[i].buf != 0
      modifies ctxs, heap
      ensures Valid(lent) && heap.Grown() && bus.View() == old(bus.View())
      ensures Table() == old(Table())[i := None]
    {
      ghost var mem, cs := heap.mem, ctxs[..];
      LedgerDrop(mem, bus.txMsg, cs, lent, i);
      assert Held(cs, cs[i].buf);
      TableUpdate(mem, mem - {cs[i].buf}, maxMessageSize, cs, i, cs[i].(buf := 0));
      heap.Free(ctxs[i].buf);
      ctxs[i] := ctxs[i].(buf := 0);
      assert ctxs[..] == cs[i := cs[i].(buf := 0)];
    }

    /** mctp_msg_ctx_add_pkt: refuses exactly the packets that do not fit, though its sums wrap. */
    method CtxAddPkt(i: nat, payload: seq<Byte>, ghost lent: set<nat>) returns (rc: int)
      requires Valid(lent) && i < ctxs.Length && ctxs[i].buf != 0 && |payload| <= SIZE_MAX
      modifies ctxs, heap
      ensures Valid(lent) && heap.Grown() && bus.View() == old(bus.View())
      ensures var c := old(ctxs[i]);
              var s := old(heap.mem)[c.buf][..c.bufSize];
              if |s| + |payload| <= maxMessageSize then
                && rc == 0 && ctxs[i] == c.(bufSize := |s| + |payload|)
                && c.buf in heap.mem && heap.mem[c.buf][..|s| + |payload|] == s + payload
                && Table() == old(Table())[i := Some(Entry(Key(c.src, c.dest, c.tag),
                                                           Ctx(s + payload, c.lastSeq, c.fragmentSize)))]
              else rc == -1 && Table() == old(Table()) && ctxs[i] == c
    {
      var len, c := |payload|, ctxs[i];
      assert CtxOk(heap.mem, maxMessageSize, c);
      WrappingFitsExactly(c.bufSize, len, c.bufAllocSize);
      if (len + c.bufSize) % SIZE_LIMIT < c.bufSize {
        return -1;
      }
      if (c.bufSize + len) % SIZE_LIMIT > c.bufAllocSize {
        return -1;
      }
      var bytes := heap.mem[c.buf][..c.bufSize] + payload + heap.mem[c.buf][c.bufSize + len..];
      ghost var mem, cs := heap.mem, ctxs[..];
      var c' := c.(bufSize := c.bufSize + len);
      assert Held(cs, c.buf);
      LedgerRewrite(mem, bus.txMsg, cs, lent, i, c', bytes);
      TableUpdate(mem, mem[c.buf := bytes], maxMessageSize, cs, i, c');
      heap.Store(c.buf, bytes);
      ctxs[i] := c';
      assert ctxs[..] == cs[i := c'];
      rc := 0;
    }

    // ---- mctp_bus_rx ----

    /** The context a SOM packet writes to: its own, emptied, or a new one; ctxs.Length if none. */
    method CtxForStart(p: Packet, ghost lent: set<nat>) returns (i: nat)
      requires Valid(lent)
      modifies ctxs, heap
      ensures Valid(lent) && heap.Grown() && bus.View() == old(bus.View())
      ensures i == Place(old(Table()), KeyOf(p)) && i <= ctxs.Length
      ensures i == ctxs.Length ==> Table() == old(Table())
      ensures i < ctxs.Length ==>
                && ctxs[i].buf != 0 && ctxs[i].bufSize == 0
                && Key(ctxs[i].src, ctxs[i].dest, ctxs[i].tag) == KeyOf(p)
                && Table() == old(Table())[i := SlotOf(heap.mem, ctxs[i])]
    {
      i := CtxLookup(p.src, p.dest, p.tag, lent);
      if i < ctxs.Length {
        assert Table()[i] == SlotOf(heap.mem, ctxs[i]) && CtxOk(heap.mem, maxMessageSize, ctxs[i]);
        CtxUpdate(i, ctxs[i].(bufSize := 0, fragmentSize := 0), lent);
      } else {
        i := FindUnused(lent);
        if i < ctxs.Length {
          assert Table()[i] == SlotOf(heap.mem, ctxs[i]) && CtxOk(heap.mem, maxMessageSize, ctxs[i]);
          CtxOpen(i, p.src, p.dest, p.tag, lent);
        }
      }
    }

    /** Adds a packet that is not the last, or drops the context if it does not fit. */
    method CtxGrow(i: nat, p: Packet, ghost lent: set<nat>)
      requires Valid(lent) && i < ctxs.Length && Holds(Table()[i], KeyOf(p)) && Size(p) <= SIZE_MAX
      modifies ctxs, heap
      ensures Valid(lent) && heap.Grown() && bus.View() == old(bus.View())
      ensures var c := old(Table())[i].value.ctx;
              var c' := Ctx(c.body + p.payload, p.seqNo, c.fragSize);
              Table() == old(Table())[i := if |c'.body| <= maxMessageSize then Some(Entry(KeyOf(p), c')) else None]
    {
      assert Table()[i] == SlotOf(heap.mem, ctxs[i]) && CtxOk(heap.mem, maxMessageSize, ctxs[i]);
      ghost var c := Table()[i].value.ctx;
      var rc := CtxAddPkt(i, p.payload, lent);
      if rc != 0 {
        CtxDrop(i, lent);
      } else {
        assert Table()[i] == Some(Entry(KeyOf(p), Ctx(c.body + p.payload, c.lastSeq, c.fragSize)));
        CtxSetSeq(i, p.seqNo, lent);
      }
    }

    /** The first packet goes into its context. */
    method CtxStart(i: nat, p: Packet, ghost lent: set<nat>)
      requires Valid(lent) && i < ctxs.Length && ctxs[i].buf != 0 && ctxs[i].bufSize == 0
      requires Key(ctxs[i].src, ctxs[i].dest, ctxs[i].tag) == KeyOf(p) && Size(p) <= SIZE_MAX
      modifies ctxs, heap
      ensures Valid(lent) && heap.Grown() && bus.View() == old(bus.View())
      ensures var c := if |p.payload| <= maxMessageSize then Some(Ctx(p.payload, p.seqNo, Size(p))) else None;
              Table() == old(Table())[i := Wrap(KeyOf(p), c)]
    {
      assert CtxOk(heap.mem, maxMessageSize, ctxs[i]);
      CtxUpdate(i, ctxs[i].(fragmentSize := Size(p)), lent);
      assert Table()[i] == SlotOf(heap.mem, ctxs[i]) == Some(Entry(KeyOf(p), Ctx([], ctxs[i].lastSeq, Size(p))));
      assert [] + p.payload == p.payload;
      CtxGrow(i, p, lent);
    }

    /** case MCTP_HDR_FLAG_SOM */
    method RxStart(p: Packet, ghost lent: set<nat>)
      requires Valid(lent) && p.som && !p.eom && Size(p) <= SIZE_MAX
      modifies ctxs, heap
      ensures Valid(lent) && heap.Grown() && bus.View() == old(bus.View())
      ensures TableStep(maxMessageSize, old(Table()), p) == TableResult(Table(), [])
    {
      var i := CtxForStart(p, lent);
      if i < ctxs.Length {
        CtxStart(i, p, lent);
      }
    }

    /** The checks a packet without SOM has to pass: its number follows the last one. */
    method InSequence(i: nat, p: Packet, ghost lent: set<nat>) returns (ok: bool)
      requires Valid(lent) && i < ctxs.Length
      ensures ok <==> p.seqNo == Next(ctxs[i].lastSeq)
    {
      ok := (ctxs[i].lastSeq + 1) % 4 == p.seqNo;
    }

    /** A middle packet goes into its context, which is dropped if it does not belong there. */
    method CtxContinue(i: nat, p: Packet, ghost lent: set<nat>)
      requires Valid(lent) && i < ctxs.Length && Holds(Table()[i], KeyOf(p))
      requires !p.som && !p.eom && Size(p) <= SIZE_MAX
      modifies ctxs, heap
      ensures Valid(lent) && heap.Grown() && bus.View() == old(bus.View())
      ensures Table() ==
              old(Table())[i := Wrap(KeyOf(p), KeyStep(maxMessageSize, Some(old(Table())[i].value.ctx), p).ctx)]
    {
      assert Table()[i] == SlotOf(heap.mem, ctxs[i]) && CtxOk(heap.mem, maxMessageSize, ctxs[i]);
      var ok := InSequence(i, p, lent);
      if !ok || Size(p) != ctxs[i].fragmentSize {
        CtxDrop(i, lent);
      } else {
        CtxGrow(i, p, lent);
      }
    }

    /** case 0, neither SOM nor EOM */
    method RxMiddle(p: Packet, ghost lent: set<nat>)
      requires Valid(lent) && !p.som && !p.eom && Size(p) <= SIZE_MAX
      modifies ctxs, heap
      ensures Valid(lent) && heap.Grown() && bus.View() == old(bus.View())
      ensures TableStep(maxMessageSize, old(Table()), p) == TableResult(Table(), [])
    {
      var i := CtxLookup(p.src, p.dest, p.tag, lent);
      if i < ctxs.Length {
        CtxContinue(i, p, lent);
      }
    }

    // ---- buffers in the hands of the library for a while ----

    /** mctp_msg_dup of `bytes`. */
    method Borrow(bytes: seq<Byte>, ghost lent: set<nat>) returns (copy: nat)
      requires Valid(lent)
      modifies heap
      ensures Valid(lent + {copy}) && copy !in lent && heap.Grown() && copy in heap.mem && heap.mem[copy] == bytes
      ensures Table() == old(Table()) && View() == old(View())
    {
      ghost var mem, cs := heap.mem, ctxs[..];
      copy := heap.Dup(bytes);
      LedgerAlloc(mem, bus.txMsg, cs, lent, copy, bytes);
      TableFrame(mem, heap.mem, maxMessageSize, cs);
    }

    /** __mctp_msg_free of a buffer that nothing else holds. */
    method GiveBack(msg: nat, ghost lent: set<nat>)
      requires Valid(lent) && msg in lent
      modifies heap
      ensures Valid(lent - {msg}) && heap.Grown()
      ensures Table() == old(Table()) && View() == old(View())
    {
      LedgerSend(heap.mem, bus.txMsg, ctxs[..], lent, msg);
      TableFrame(heap.mem, heap.mem - {msg}, maxMessageSize, ctxs[..]);
      heap.Free(msg);
    }

    // ---- sending ----

    /** mctp_message_tx_alloced: takes over the buffer `msg`, whatever the outcome. */
    method MessageTxAlloced(dest: Byte, tagOwner: bool, msgTag: Byte, msg: nat, ghost lent: set<nat>) returns (rc: int)
      requires Valid(lent) && msg in lent
      modifies this`sends, heap, bus, bus.binding`log, bus.binding.storage
      ensures Valid(lent - {msg}) && heap.Grown() && Table() == old(Table())
      ensures View() == SendMessage(TheNode(), old(View()), dest, tagOwner, msgTag, old(heap.mem)[msg])
      ensures rc == sends[|old(sends)|].rc
    {
      ghost var mem, cs, body := heap.mem, ctxs[..], heap.mem[msg];
      LedgerSend(mem, bus.txMsg, cs, lent, msg);
      TableFrame(mem, mem - {msg}, maxMessageSize, cs);
      var bytes := heap.mem[msg];
      if msgTag >= 8 {
        GiveBack(msg, lent);
        rc := -EINVAL;
      } else {
        rc := bus.MessageTxOnBus(bus.eid, dest, tagOwner, msgTag, msg);
      }
      sends := sends + [SendCall(dest, tagOwner, msgTag, bytes, rc)];
    }

    /** mctp_message_tx: sends a copy of `body`. */
    method MessageTx(dest: Byte, tagOwner: bool, msgTag: Byte, body: seq<Byte>, ghost lent: set<nat>) returns (rc: int)
      requires Valid(lent)
      modifies this`sends, heap, bus, bus.binding`log, bus.binding.storage
      ensures Valid(lent) && heap.Grown() && Table() == old(Table())
      ensures View() == SendMessage(TheNode(), old(View()), dest, tagOwner, msgTag, body)
      ensures rc == sends[|old(sends)|].rc
    {
      var copy := Borrow(body, lent);
      assert lent + {copy} - {copy} == lent;
      rc := MessageTxAlloced(dest, tagOwner, msgTag, copy, lent + {copy});
    }

    // ---- mctp_rx ----

    /** mctp_bus_set_eid's effect */
    method SetEid(eid: Byte, ghost lent: set<nat>)
      requires Valid(lent)
      modifies bus`eid
      ensures Valid(lent) && Table() == old(Table()) && View() == old(View()).(eid := eid)
    {
      bus.eid := eid;
    }

    /** The response goes back to the requester with its tag. */
    method Respond(src: Byte, msgTag: Tag, reply: seq<Byte>, ghost lent: set<nat>)
      requires Valid(lent)
      modifies this`sends, heap, bus, bus.binding`log, bus.binding.storage
      ensures Valid(lent) && heap.Grown() && Table() == old(Table())
      ensures View() == SendMessage(TheNode(), old(View()), src, false, msgTag, reply)
    {
      var _ := MessageTx(src, false, msgTag, reply, lent);
    }

    /** mctp_control_handler */
    method ControlHandler(src: Byte, tagOwner: bool, msgTag: Tag, data: seq<Byte>, ghost lent: set<nat>)
      returns (handled: bool)
      requires Valid(lent)
      modifies this`sends, heap, bus, bus.binding`log, bus.binding.storage
      ensures Valid(lent) && heap.Grown() && Table() == old(Table())
      ensures var h := Handle(old(bus.eid), control.View(), tagOwner, data);
              var u := old(View()).(eid := h.eid);
              && handled == h.handled
              && View() == match h.reply
                           case None => u
                           case Some(reply) => SendMessage(TheNode(), u, src, false, msgTag, reply)
    {
      if !tagOwner || |data| < 1 || data[0] != 0 {
        return false;
      }
      if |data| < CTRL_HDR_SIZE {
        return true;
      }
      if !(128 <= data[1] < 192) {
        return true;
      }
      var types := control.msgTypes[..control.numMsgTypes];
      var reply := ReplyHeader(data);
      match Dispatch(bus.eid, types, data)
      case Refuse(cc) =>
        Respond(src, msgTag, reply + [cc], lent);
        handled := true;
      case Grant(bytes, eid) =>
        SetEid(eid, lent);
        Respond(src, msgTag, reply + [CC_SUCCESS] + bytes, lent);
        handled := true;
    }

    /** mctp_ctrl_handle_msg */
    method CtrlHandleMsg(m: Message, ghost lent: set<nat>) returns (handled: bool)
      requires Valid(lent) && LooksLikeRequest(m.body)
      modifies this`sends, this`transport, heap, bus, bus.binding`log, bus.binding.storage
      ensures Valid(lent) && heap.Grown() && Table() == old(Table())
      ensures (View(), handled) == HandleControl(TheNode(), old(View()), m)
    {
      if m.body[2] >= FIRST_TRANSPORT_CMD {
        handled := transportRx;
        if transportRx {
          transport := transport + [m.body];
        }
      } else {
        handled := ControlHandler(m.src, m.to, m.tag, m.body, lent);
      }
    }

    /** mctp_rx */
    method Rx(m: Message, ghost lent: set<nat>)
      requires Valid(lent)
      modifies this, heap, bus, bus.binding`log, bus.binding.storage, tags.tags
      ensures Valid(lent) && heap.Grown() && Table() == old(Table()) && delivered == old(delivered) + [m]
      ensures View() == Deliver(TheNode(), old(View()), m)
    {
      delivered := delivered + [m];
      if !Local(bus.eid, m.dest) {
        return;
      }
      if !m.to {
        tags.DeallocTag(m.dest, m.src, m.tag);
      }
      if LooksLikeRequest(m.body) {
        var handled := CtrlHandleMsg(m, lent);
        if handled {
          return;
        }
      }
      if messageRx {
        received := received + [m];
      }
    }

    /** case SOM | EOM: a copy of the payload is handed up and freed; no context is involved. */
    method RxSingle(p: Packet, ghost lent: set<nat>)
      requires Valid(lent)
      modifies this, heap, bus, bus.binding`log, bus.binding.storage, tags.tags
      ensures Valid(lent) && heap.Grown() && Table() == old(Table())
      ensures delivered == old(delivered) + [Whole(p, p.payload)]
      ensures View() == Deliver(TheNode(), old(View()), Whole(p, p.payload))
    {
      var copy := Borrow(p.payload, lent);
      Rx(Whole(p, p.payload), lent + {copy});
      assert lent + {copy} - {copy} == lent;
      GiveBack(copy, lent + {copy});
    }

    /** A closing packet is put into its context if it belongs there. */
    method CtxClose(i: nat, p: Packet, ghost lent: set<nat>) returns (ok: bool)
      requires Valid(lent) && i < ctxs.Length && Holds(Table()[i], KeyOf(p))
      requires !p.som && p.eom && Size(p) <= SIZE_MAX
      modifies ctxs, heap
      ensures Valid(lent) && heap.Grown() && bus.View() == old(bus.View()) && ctxs[i].buf != 0
      ensures Table()[i := None] == old(Table())[i := None]
      ensures var r := KeyStep(maxMessageSize, Some(old(Table())[i].value.ctx), p);
              var c := ctxs[i];
              r.out == if ok then [Message(c.src, c.dest, p.to, p.tag, heap.mem[c.buf][..c.bufSize])] else []
    {
      assert Table()[i] == SlotOf(heap.mem, ctxs[i]) && CtxOk(heap.mem, maxMessageSize, ctxs[i]);
      ok := InSequence(i, p, lent);
      if ok && Size(p) <= ctxs[i].fragmentSize {
        var rc := CtxAddPkt(i, p.payload, lent);
        ok := rc == 0;
      } else {
        ok := false;
      }
    }

    /** The message is handed up if the closing packet belongs to it; the context is dropped in any
        case. */
    method CtxFinish(i: nat, p: Packet, ghost lent: set<nat>)
      requires Valid(lent) && i < ctxs.Length && Holds(Table()[i], KeyOf(p))
      requires !p.som && p.eom && Size(p) <= SIZE_MAX
      modifies this, ctxs, heap, bus, bus.binding`log, bus.binding.storage, tags.tags
      ensures Valid(lent) && heap.Grown()
      ensures var r := KeyStep(maxMessageSize, Some(old(Table())[i].value.ctx), p);
              && Table() == old(Table())[i := None]
              && delivered == old(delivered) + r.out
              && View() == Absorb(TheNode(), old(View()), r.out)
    {
      var ok := CtxClose(i, p, lent);
      if ok {
        var c := ctxs[i];
        Rx(Message(c.src, c.dest, p.to, p.tag, heap.mem[c.buf][..c.bufSize]), lent);
      }
      CtxDrop(i, lent);
    }

    /** case MCTP_HDR_FLAG_EOM */
    method RxEnd(p: Packet, ghost lent: set<nat>)
      requires Valid(lent) && !p.som && p.eom && Size(p) <= SIZE_MAX
      modifies this, ctxs, heap, bus, bus.binding`log, bus.binding.storage, tags.tags
      ensures Valid(lent) && heap.Grown()
      ensures var r := TableStep(maxMessageSize, old(Table()), p);
              && Table() == r.slots && delivered == old(delivered) + r.out
              && View() == Absorb(TheNode(), old(View()), r.out)
    {
      var i := CtxLookup(p.src, p.dest, p.tag, lent);
      if i < ctxs.Length {
        CtxFinish(i, p, lent);
      }
    }

    /** mctp_bus_rx, on the bytes between `start` and `end` of the packet buffer. */
    method BusRx(wire: seq<Byte>)
      requires Valid({}) && |wire| <= SIZE_MAX
      modifies this, ctxs, heap, bus, bus.binding`log, bus.binding.storage, tags.tags
      ensures Valid({}) && heap.Grown()
      ensures var r := WireStep(maxMessageSize, old(bus.eid), old(Table()), wire);
              && Table() == r.slots && delivered == old(delivered) + r.out
              && View() == Absorb(TheNode(), old(View()), r.out)
    {
      if |wire| < HDR_SIZE {
        return;
      }
      var p := Decode(wire);
      if p.src == EID_BROADCAST || !Local(bus.eid, p.dest) {
        return;
      }
      if p.som && p.eom {
        RxSingle(p, {});
      } else if p.som {
        RxStart(p, {});
      } else if p.eom {
        RxEnd(p, {});
      } else {
        RxMiddle(p, {});
      }
    }

    // ---- the rest of the interface ----

    /** mctp_message_tx_request: a tag allocated for a request that then fails to send stays
        reserved. */
    method MessageTxRequest(dest: Byte, msg: nat, now: nat, ghost lent: set<nat>) returns (rc: int, tag: Tag)
      requires Valid(lent) && msg in lent && bus.eid != 0
      modifies this`sends, heap, bus, bus.binding`log, bus.binding.storage, tags, tags.tags
      ensures Valid(lent - {msg}) && heap.Grown() && Table() == old(Table())
      ensures var a := Alloc(old(tags.View()), old(bus.eid), dest, now);
              var u := old(View()).(tags := a.s);
              match a.tag
              case None => rc == -EBUSY && View() == u
              case Some(t) => tag == t && View() == SendMessage(TheNode(), u, dest, true, t, old(heap.mem)[msg])
                              && rc == sends[|old(sends)|].rc
    {
      rc, tag := tags.AllocTag(bus.eid, dest, now);
      if rc != 0 {
        GiveBack(msg, lent);
      } else {
        rc := MessageTxAlloced(dest, true, tag, msg, lent);
      }
    }

    /** mctp_binding_set_tx_enabled, called by the binding. */
    method SetTxEnabled(enable: bool, ghost lent: set<nat>)
      requires Valid(lent)
      modifies heap, bus, bus.binding`log, bus.binding.storage
      ensures Valid(lent) && heap.Grown() && Table() == old(Table())
      ensures var u := old(View());
              var r := Switch(TheNode().link, u.tx, enable, TheNode().rcs, |u.log|);
              View() == u.(tx := r.st, log := u.log + r.log)
    {
      ghost var mem, cs := heap.mem, ctxs[..];
      if bus.txMsg != 0 {
        LedgerSent(mem, bus.txMsg, cs, lent);
        assert forall i :: 0 <= i < |cs| && cs[i].buf == bus.txMsg ==> Held(cs, bus.txMsg);
        TableFrame(mem, mem - {bus.txMsg}, maxMessageSize, cs);
      }
      bus.SetTxEnabled(enable);
    }

    /** mctp_cleanup: nothing is left allocated, and nothing was freed twice. */
    method Cleanup()
      requires Valid({})
      modifies heap, bus
      ensures heap.Valid() && heap.Grown() && forall p :: p !in heap.mem
    {
      var i := 0;
      ghost var cs := ctxs[..];
      while i < ctxs.Length
        invariant 0 <= i <= ctxs.Length == |cs| && bus.Valid() && bus.txMsg == old(bus.txMsg)
        invariant Ledger(heap.mem, bus.txMsg, cs, {})
        invariant forall j :: 0 <= j < i ==> cs[j].buf == 0
        invariant forall j :: i <= j < |cs| ==> cs[j] == ctxs[j]
        invariant heap.Grown()
      {
        if ctxs[i].buf != 0 {
          LedgerCleanup(heap.mem, bus.txMsg, cs, i);
          heap.Free(ctxs[i].buf);
          cs := cs[i := cs[i].(buf := 0)];
        }
        i := i + 1;
      }
      bus.Destroy();
    }
  }

  /** What can be asked of an endpoint. */
  datatype Call = Receive(wire: seq<Byte>) | Transmit(dest: Byte, to: bool, tag: Byte, body: seq<Byte>)
                | Request(dest: Byte, body: seq<Byte>, now: nat) | Enable(on: bool)

  /** Buffer ownership over a whole life: after any calls in any order the live buffers are exactly
      the pending message and the open contexts, and after cleanup every buffer that was ever
      allocated has been freed, each once. */
  method Life(e: Endpoint, calls: seq<Call>)
    requires e.Valid({}) && forall i :: 0 <= i < |calls| && calls[i].Receive? ==> |calls[i].wire| <= SIZE_MAX
    modifies e, e.ctxs, e.heap, e.bus, e.bus.binding`log, e.bus.binding.storage, e.tags, e.tags.tags
    ensures e.heap.Valid() && e.heap.Grown()
    ensures forall p :: 0 < p < e.heap.next ==> p in e.heap.freed && p !in e.heap.mem
  {
    for i := 0 to |calls|
      invariant e.Valid({}) && e.heap.Grown()
    {
      match calls[i]
      case Receive(wire) =>
        e.BusRx(wire);
      case Transmit(dest, to, tag, body) =>
        var _ := e.MessageTx(dest, to, tag, body, {});
      case Request(dest, body, now) =>
        if e.bus.eid != 0 {
          var msg := e.Borrow(body, {});
          assert {} + {msg} == {msg} && {msg} - {msg} == {};
          var _, _ := e.MessageTxRequest(dest, msg, now, {msg});
        }
      case Enable(on) =>
        e.SetTxEnabled(on, {});
    }
    e.Cleanup();
  }
}
