/** What an endpoint does with a delivered message, and who owns which message buffer. */
module EndpointSpec {
  import opened Basics
  import opened Packets
  import opened Fragmentation
  import opened Transmit
  import opened Reassembly
  import opened Receive
  import opened Tags
  import opened Control

  // ---------------------------------------------------------------------------------------
  // Above reassembly
  // ---------------------------------------------------------------------------------------

  /** What does not change: the binding and the callbacks that are installed. */
  datatype Node = Node(link: Link, rcs: nat -> int, transportRx: bool, messageRx: bool)

  /** A call of mctp_message_tx_alloced and its outcome. */
  datatype SendCall = SendCall(dest: Byte, to: bool, tag: Byte, body: seq<Byte>, rc: int)

  /** Everything above the context table. */
  datatype Upper = Upper(eid: Byte, tx: Tx, log: seq<Attempt>, tags: TagState, types: seq<Byte>,
                         sends: seq<SendCall>, received: seq<Message>, transport: seq<seq<Byte>>)

  predicate UpperOk(node: Node, u: Upper) {
    Sound(node.link, u.tx) && |u.types| <= MAX_TYPES
  }

  /** mctp_message_tx_alloced, with the bus registered. */
  function SendMessage(node: Node, u: Upper, dest: Byte, to: bool, tag: Byte, body: seq<Byte>): (r: Upper)
    requires UpperOk(node, u)
    ensures UpperOk(node, r)
  {
    if tag >= 8 then u.(sends := u.sends + [SendCall(dest, to, tag, body, -EINVAL)])
    else
      var r := Submit(node.link, u.tx, Send(u.eid, dest, to, tag, body), node.rcs, |u.log|);
      u.(tx := r.st, log := u.log + r.log, sends := u.sends + [SendCall(dest, to, tag, body, r.rc)])
  }

  /** The answer to a message handed over for sending, by cause. Exactly one call is recorded, with
      what it was given; a message that is refused leaves nothing else behind. */
  lemma SendByCause(node: Node, u: Upper, dest: Byte, to: bool, tag: Byte, body: seq<Byte>)
    requires UpperOk(node, u)
    ensures var r := SendMessage(node, u, dest, to, tag, body);
            var rc := if tag > 7 then -EINVAL
                      else if u.tx.mode == Constructed then -ENXIO
                      else if u.tx.pending.Some? then -EBUSY
                      else 0;
            && r.sends == u.sends + [SendCall(dest, to, tag, body, rc)]
            && (rc != 0 ==> r == u.(sends := r.sends))
            && (rc == 0 && u.tx.mode == Disabled ==>
                  && r.log == u.log
                  && r.tx == Tx(Disabled, Some(Pending(Message(u.eid, dest, to, tag, body), 0)), u.tx.seqNo))
            && (rc == 0 && u.tx.mode == Enabled ==>
                  && |r.log| > |u.log|
                  && var p := r.log[|u.log|].pkt;
                     p.som && p.src == u.eid && p.dest == dest && p.to == to && p.tag == tag)
  {
    if tag < 8 { AnswerByCause(node.link, u.tx, Send(u.eid, dest, to, tag, body), node.rcs, |u.log|); }
  }

  function HandUp(node: Node, u: Upper, m: Message): Upper {
    if node.messageRx then u.(received := u.received + [m]) else u
  }

  /** mctp_ctrl_cmd_is_request */
  predicate LooksLikeRequest(body: seq<Byte>) {
    |body| >= CTRL_HDR_SIZE && body[0] == 0 && body[1] >= 128
  }

  /** mctp_ctrl_handle_msg; the second part says whether the message was handled. */
  function HandleControl(node: Node, u: Upper, m: Message): (r: (Upper, bool))
    requires UpperOk(node, u) && LooksLikeRequest(m.body)
    ensures UpperOk(node, r.0)
  {
    if m.body[2] >= FIRST_TRANSPORT_CMD then
      if node.transportRx then (u.(transport := u.transport + [m.body]), true) else (u, false)
    else
      var h := Handle(u.eid, u.types, m.to, m.body);
      var u' := u.(eid := h.eid);
      match h.reply
      case None => (u', h.handled)
      case Some(reply) => (SendMessage(node, u', m.src, false, m.tag, reply), h.handled)
  }

  /** mctp_rx in endpoint mode. */
  function Deliver(node: Node, u: Upper, m: Message): (r: Upper)
    requires UpperOk(node, u)
    ensures UpperOk(node, r)
  {
    if !Local(u.eid, m.dest) then u else
      var u1 := if m.to then u else u.(tags := Dealloc(u.tags, m.dest, m.src, m.tag));
      if !LooksLikeRequest(m.body) then HandUp(node, u1, m)
      else
        var (u2, handled) := HandleControl(node, u1, m);
        if handled then u2 else HandUp(node, u2, m)
  }

  /** The effect of what one packet delivers. */
  function Absorb(node: Node, u: Upper, out: seq<Message>): (r: Upper)
    requires UpperOk(node, u)
    ensures UpperOk(node, r)
  {
    if out == [] then u else Deliver(node, u, out[0])
  }

  function DeliverAll(node: Node, u: Upper, ms: seq<Message>): (r: Upper)
    requires UpperOk(node, u)
    ensures UpperOk(node, r)
  {
    if ms == [] then u else Deliver(node, DeliverAll(node, u, ms[..|ms| - 1]), ms[|ms| - 1])
  }

  /** A message the responder answers. */
  predicate Answerable(m: Message) {
    IsRequest(m.to, m.body) && m.body[2] < FIRST_TRANSPORT_CMD
  }

  /** `call` answers `m`: to the requester, tag owner clear, same tag, echoing the request. */
  predicate Responds(call: SendCall, m: Message) {
    call.dest == m.src && !call.to && call.tag == m.tag && Answers(m.body, call.body)
  }

  /** A control message nobody inside the library takes, or not a control request at all. */
  predicate ForApplication(node: Node, m: Message) {
    LooksLikeRequest(m.body) ==> if m.body[2] >= FIRST_TRANSPORT_CMD then !node.transportRx else !m.to
  }

  /** A control request in the range left to the transport, of either tag owner. */
  predicate TransportRequest(m: Message) {
    |m.body| >= 3 && m.body[0] == 0 && m.body[1] >= 0x80 && m.body[2] >= 0xF0
  }

  /** A request causes exactly one send, which responds to it; other messages cause none. Only a
      Set Endpoint ID request that is granted changes the EID. Every message is handed to the
      application at most once, and exactly when the library does not take it itself. The transport
      callback, if there is one, gets exactly the requests with a command of 0xF0 or more. Only a
      response touches the tags. A message for another endpoint does nothing. */
  lemma OneResponse(node: Node, u: Upper, m: Message)
    requires UpperOk(node, u)
    ensures var r := Deliver(node, u, m);
            if m.dest != u.eid && m.dest != 0 && m.dest != 0xff then r == u
            else
              && (Answerable(m) ==>
                    |r.sends| == |u.sends| + 1 && r.sends[..|u.sends|] == u.sends && Responds(r.sends[|u.sends|], m))
              && (!Answerable(m) ==> r.sends == u.sends && r.log == u.log && r.tx == u.tx)
              && r.eid == (if Answerable(m) && AssignsEid(m.body) then m.body[4] else u.eid)
              && r.received == u.received + (if node.messageRx && ForApplication(node, m) then [m] else [])
              && r.transport == u.transport + (if node.transportRx && TransportRequest(m) then [m.body] else [])
              && (m.to ==> r.tags == u.tags)
              && r.types == u.types
  {
  }

  /** After a response arrives, its tag is free again, unless an expired duplicate comes first, and
      every other tag is as it was. */
  lemma ResponseReleasesTag(node: Node, u: Upper, m: Message, now: nat)
    requires UpperOk(node, u) && Local(u.eid, m.dest) && !m.to && m.dest != EID_NULL
    requires Unique(u.tags.slots, now)
    ensures var slots := Deliver(node, u, m).tags.slots;
            && (InUse(slots, |slots|, m.dest, m.src, m.tag, now) <==> Shadowed(u.tags.slots, m.dest, m.src, m.tag, now))
            && Unique(slots, now)
            && (forall l: Byte, r: Byte, t: Tag :: l != m.dest || r != m.src || t != m.tag ==>
                  (InUse(slots, |slots|, l, r, t, now) <==> InUse(u.tags.slots, |u.tags.slots|, l, r, t, now)))
            && Deliver(node, u, m).tags.cursor == u.tags.cursor
  {
    var slots := Dealloc(u.tags, m.dest, m.src, m.tag).slots;
    forall l: Byte, r: Byte, t: Tag | l != m.dest || r != m.src || t != m.tag
      ensures InUse(slots, |slots|, l, r, t, now) <==> InUse(u.tags.slots, |u.tags.slots|, l, r, t, now)
    {
      ReleaseKeepsOthers(u.tags, m.dest, m.src, m.tag, l, r, t, now);
    }
    ReleaseClearsOne(u.tags, m.dest, m.src, m.tag);
    ReleaseFrees(u.tags, m.dest, m.src, m.tag, now);
    UniqueStep(u.tags, Release(now, m.dest, m.src, m.tag));
  }

  /** The requests among the messages that are for this endpoint when they arrive. */
  function Requests(node: Node, u: Upper, ms: seq<Message>): seq<Message>
    requires UpperOk(node, u)
  {
    if ms == [] then [] else
      var init, m := ms[..|ms| - 1], ms[|ms| - 1];
      Requests(node, u, init) + if Answerable(m) && Local(DeliverAll(node, u, init).eid, m.dest) then [m] else []
  }

  /** Over any run of deliveries, the sends made are the responses to the requests, one each and
      in order. */
  lemma {:induction false} ResponsesMatchRequests(node: Node, u: Upper, ms: seq<Message>)
    requires UpperOk(node, u)
    ensures var sends, requests := DeliverAll(node, u, ms).sends, Requests(node, u, ms);
            && |sends| == |u.sends| + |requests|
            && sends[..|u.sends|] == u.sends
            && forall i :: 0 <= i < |requests| ==> Responds(sends[|u.sends| + i], requests[i])
  {
    if ms != [] {
      var init, m := ms[..|ms| - 1], ms[|ms| - 1];
      ResponsesMatchRequests(node, u, init);
      var v := DeliverAll(node, u, init);
      if Local(v.eid, m.dest) { OneResponse(node, v, m); }
    }
  }

  /** On an idle, enabled bus the response goes to the binding as a single packet. */
  lemma ResponseIsOnePacket(node: Node, u: Upper, m: Message)
    requires UpperOk(node, u) && Local(u.eid, m.dest) && Answerable(m)
    requires u.tx.mode == Enabled && u.tx.pending.None?
    ensures var r := Deliver(node, u, m);
            && |r.log| == |u.log| + 1
            && var p := r.log[|u.log|].pkt;
               Single(p) && p.src == r.eid && p.dest == m.src && !p.to && p.tag == m.tag && Answers(m.body, p.payload)
  {
    var h := Handle(u.eid, u.types, m.to, m.body);
    var u1 := u.(eid := h.eid);
    var op := Send(h.eid, m.src, false, m.tag, h.reply.value);
    ShortMessageIsOnePacket(node.link, u.tx, op, node.rcs, |u.log|);
  }

  lemma ShortMessageIsOnePacket(link: Link, st: Tx, op: Op, rcs: nat -> int, n: nat)
    requires Sound(link, st) && st.mode == Enabled && st.pending.None?
    requires op.Send? && op.tag < 8 && |op.body| <= BTU
    ensures var r := Submit(link, st, op, rcs, n);
            && |r.log| == 1
            && r.log[0].pkt == Packet(link.ver, op.dest, op.src, true, true, st.seqNo, op.to, op.tag, op.body)
  {
    var started := st.(pending := Some(Pending(MessageOf(op), 0)));
    assert op.body[0..|op.body|] == op.body;
    assert Complete(link, started).pending.None?;
    assert Drain(link, Complete(link, started), rcs, n + 1).log == [];
  }

  // ---------------------------------------------------------------------------------------
  // Contexts and buffers
  // ---------------------------------------------------------------------------------------

  /** `struct mctp_msg_ctx`; buf 0 is NULL, an unused context. */
  datatype MsgCtx = MsgCtx(buf: nat, src: Byte, dest: Byte, tag: Tag, lastSeq: SeqNo,
                           bufSize: nat, bufAllocSize: nat, fragmentSize: nat)

  type Memory = map<nat, seq<Byte>>

  /** An unused context, or one whose buffer is live and has room for what it holds. */
  predicate CtxOk(mem: Memory, max: nat, c: MsgCtx) {
    c.buf != 0 ==> c.buf in mem && |mem[c.buf]| == c.bufAllocSize == max && c.bufSize <= c.bufAllocSize
  }

  predicate CtxsOk(mem: Memory, max: nat, cs: seq<MsgCtx>) {
    forall i :: 0 <= i < |cs| ==> CtxOk(mem, max, cs[i])
  }

  function SlotOf(mem: Memory, c: MsgCtx): Option<Entry> {
    if c.buf == 0 || c.buf !in mem || |mem[c.buf]| < c.bufSize then None
    else Some(Entry(Key(c.src, c.dest, c.tag), Ctx(mem[c.buf][..c.bufSize], c.lastSeq, c.fragmentSize)))
  }

  function SlotsOf(mem: Memory, cs: seq<MsgCtx>): (slots: Slots)
    ensures |slots| == |cs|
    ensures forall i :: 0 <= i < |cs| ==> slots[i] == SlotOf(mem, cs[i])
  {
    seq(|cs|, i requires 0 <= i < |cs| => SlotOf(mem, cs[i]))
  }

  /** One of the contexts holds buffer `p`. */
  predicate Held(cs: seq<MsgCtx>, p: nat) {
    exists i :: 0 <= i < |cs| && cs[i].buf == p
  }

  /** Who owns what: the live buffers are the pending transmit message, the buffers of the open
      contexts, and the ones currently lent out; and no two of these are the same. */
  predicate Ledger(mem: Memory, txMsg: nat, cs: seq<MsgCtx>, lent: set<nat>) {
    && 0 !in mem
    && (forall p :: p in mem ==> p in lent || p == txMsg || Held(cs, p))
    && (forall p :: p in lent ==> p in mem && p != txMsg && !Held(cs, p))
    && (txMsg != 0 ==> txMsg in mem && !Held(cs, txMsg))
    && (forall i :: 0 <= i < |cs| && cs[i].buf != 0 ==> cs[i].buf in mem)
    && (forall i, j :: 0 <= i < j < |cs| && cs[i].buf != 0 ==> cs[i].buf != cs[j].buf)
  }

  /** A fresh buffer is lent out. */
  lemma LedgerAlloc(mem: Memory, txMsg: nat, cs: seq<MsgCtx>, lent: set<nat>, p: nat, s: seq<Byte>)
    requires Ledger(mem, txMsg, cs, lent) && p !in mem && p != 0
    ensures Ledger(mem[p := s], txMsg, cs, lent + {p})
  {
  }

  /** A lent buffer is freed. */
  lemma LedgerFree(mem: Memory, txMsg: nat, cs: seq<MsgCtx>, lent: set<nat>, p: nat)
    requires Ledger(mem, txMsg, cs, lent) && p in lent
    ensures Ledger(mem - {p}, txMsg, cs, lent - {p})
  {
  }

  /** A lent buffer becomes the pending message. */
  lemma LedgerTake(mem: Memory, cs: seq<MsgCtx>, lent: set<nat>, p: nat)
    requires Ledger(mem, 0, cs, lent) && p in lent
    ensures Ledger(mem, p, cs, lent - {p})
  {
  }

  /** A lent buffer handed to a send is freed or becomes the pending message. */
  lemma LedgerSend(mem: Memory, txMsg: nat, cs: seq<MsgCtx>, lent: set<nat>, p: nat)
    requires Ledger(mem, txMsg, cs, lent) && p in lent
    ensures Ledger(mem - {p}, txMsg, cs, lent - {p})
    ensures txMsg == 0 ==> Ledger(mem, p, cs, lent - {p})
    ensures forall i :: 0 <= i < |cs| && cs[i].buf != 0 ==> cs[i].buf in mem && cs[i].buf != p
  {
    LedgerFree(mem, txMsg, cs, lent, p);
    if txMsg == 0 { LedgerTake(mem, cs, lent, p); }
  }

  /** The pending message is done. */
  lemma LedgerSent(mem: Memory, txMsg: nat, cs: seq<MsgCtx>, lent: set<nat>)
    requires Ledger(mem, txMsg, cs, lent) && txMsg != 0
    ensures Ledger(mem - {txMsg}, 0, cs, lent)
  {
  }

  /** A lent buffer becomes the buffer of an unused context. */
  lemma LedgerOpen(mem: Memory, txMsg: nat, cs: seq<MsgCtx>, lent: set<nat>, i: nat, c: MsgCtx)
    requires Ledger(mem, txMsg, cs, lent) && i < |cs| && cs[i].buf == 0 && c.buf in lent && c.buf != 0
    ensures Ledger(mem, txMsg, cs[i := c], lent - {c.buf})
  {
    var cs' := cs[i := c];
    assert cs'[i].buf == c.buf;
    HeldAfter(cs, i, c);
  }

  /** A context gives its buffer up. */
  lemma LedgerDrop(mem: Memory, txMsg: nat, cs: seq<MsgCtx>, lent: set<nat>, i: nat)
    requires Ledger(mem, txMsg, cs, lent) && i < |cs| && cs[i].buf != 0
    ensures Ledger(mem - {cs[i].buf}, txMsg, cs[i := cs[i].(buf := 0)], lent)
  {
    HeldAfter(cs, i, cs[i].(buf := 0));
  }

  lemma LedgerCleanup(mem: Memory, txMsg: nat, cs: seq<MsgCtx>, i: nat)
    requires Ledger(mem, txMsg, cs, {}) && i < |cs| && cs[i].buf != 0
    ensures cs[i].buf in mem && cs[i].buf != txMsg
    ensures Ledger(mem - {cs[i].buf}, txMsg, cs[i := cs[i].(buf := 0)], {})
  {
    LedgerDrop(mem, txMsg, cs, {}, i);
    assert Held(cs, cs[i].buf);
  }

  lemma HeldAfter(cs: seq<MsgCtx>, i: nat, c: MsgCtx)
    requires i < |cs|
    ensures forall p :: Held(cs[i := c], p) ==> Held(cs, p) || p == c.buf
    ensures forall p :: Held(cs, p) ==> Held(cs[i := c], p) || p == cs[i].buf
  {
    var cs' := cs[i := c];
    forall p | Held(cs', p) ensures Held(cs, p) || p == c.buf {
      var j :| 0 <= j < |cs'| && cs'[j].buf == p;
      if j != i { assert cs[j].buf == p; }
    }
    forall p | Held(cs, p) ensures Held(cs', p) || p == cs[i].buf {
      var j :| 0 <= j < |cs| && cs[j].buf == p;
      if j != i { assert cs'[j].buf == p; }
    }
  }

  /** Contexts and buffers may be rewritten as long as no buffer changes hands. */
  lemma LedgerRewrite(mem: Memory, txMsg: nat, cs: seq<MsgCtx>, lent: set<nat>, i: nat, c: MsgCtx, s: seq<Byte>)
    requires Ledger(mem, txMsg, cs, lent) && i < |cs| && cs[i].buf != 0 && c.buf == cs[i].buf
    ensures Ledger(mem[c.buf := s], txMsg, cs[i := c], lent)
  {
    HeldAfter(cs, i, c);
    assert cs[i := c][i].buf == c.buf;
  }

  /** What happens to buffers that no context holds does not touch the table. */
  lemma TableFrame(mem: Memory, mem': Memory, max: nat, cs: seq<MsgCtx>)
    requires CtxsOk(mem, max, cs)
    requires forall i :: 0 <= i < |cs| && cs[i].buf != 0 ==> cs[i].buf in mem' && mem'[cs[i].buf] == mem[cs[i].buf]
    ensures CtxsOk(mem', max, cs) && SlotsOf(mem', cs) == SlotsOf(mem, cs)
  {
  }

  /** Rewriting one context, or its buffer, changes one slot of the table. */
  lemma TableUpdate(mem: Memory, mem': Memory, max: nat, cs: seq<MsgCtx>, i: nat, c: MsgCtx)
    requires CtxsOk(mem, max, cs) && i < |cs| && CtxOk(mem', max, c)
    requires forall j :: 0 <= j < |cs| && j != i && cs[j].buf != 0 ==>
               cs[j].buf in mem' && mem'[cs[j].buf] == mem[cs[j].buf]
    ensures CtxsOk(mem', max, cs[i := c])
    ensures SlotsOf(mem', cs[i := c]) == SlotsOf(mem, cs)[i := SlotOf(mem', c)]
  {
    var cs' := cs[i := c];
    forall j | 0 <= j < |cs|
      ensures CtxOk(mem', max, cs'[j])
      ensures SlotsOf(mem', cs')[j] == SlotsOf(mem, cs)[i := SlotOf(mem', c)][j]
    {
      if j != i { assert cs'[j] == cs[j] && CtxOk(mem, max, cs[j]); }
    }
  }
}
