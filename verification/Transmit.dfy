/** The transmit half of a bus as a state machine over values: one pending message, a cursor,
    a 2-bit sequence number and a three-state enable switch. The binding is an oracle: `rcs(k)`
    is the code its `tx` callback returns the k-th time it is offered a packet. */
module Transmit {
  import opened Basics
  import opened Packets
  import opened Fragmentation

  datatype Mode = Constructed | Enabled | Disabled

  datatype Pending = Pending(msg: Message, pos: nat)

  datatype Tx = Tx(mode: Mode, pending: Option<Pending>, seqNo: SeqNo)

  /** One call of the binding's `tx` callback. */
  datatype Attempt = Attempt(pkt: Packet, rc: int)

  datatype TxResult = TxResult(st: Tx, log: seq<Attempt>, rc: int)

  predicate Sound(link: Link, st: Tx) {
    && (st.mode != Constructed ==> ValidMtu(link))
    && (st.pending.Some? ==>
          && st.mode != Constructed
          && (st.pending.value.pos == 0 || st.pending.value.pos < |st.pending.value.msg.body|))
  }

  predicate Waiting(link: Link, st: Tx) {
    Sound(link, st) && st.pending.Some?
  }

  function PayloadLen(link: Link, st: Tx): (n: nat)
    requires Waiting(link, st)
    ensures st.pending.value.pos + n <= |st.pending.value.msg.body|
  {
    Min(|st.pending.value.msg.body| - st.pending.value.pos, Mtu(link))
  }

  /** mctp_next_tx_pkt */
  function NextPacket(link: Link, st: Tx): (p: Packet)
    requires Waiting(link, st)
    ensures Size(p) <= link.pktSize
  {
    var Pending(m, pos) := st.pending.value;
    var n := PayloadLen(link, st);
    Packet(link.ver, m.dest, m.src, pos == 0, pos + n >= |m.body|, st.seqNo, m.to, m.tag, m.body[pos..pos + n])
  }

  /** mctp_tx_complete */
  function Complete(link: Link, st: Tx): (r: Tx)
    requires Waiting(link, st)
    ensures Sound(link, r)
  {
    var Pending(m, pos) := st.pending.value;
    var next := pos + PayloadLen(link, st);
    Tx(st.mode, if next >= |m.body| then None else Some(Pending(m, next)), Next(st.seqNo))
  }

  function Unsent(st: Tx): nat {
    match st.pending
    case None => 0
    case Some(Pending(m, pos)) => if pos <= |m.body| then 1 + |m.body| - pos else 0
  }

  /** mctp_send_tx_queue */
  function Drain(link: Link, st: Tx, rcs: nat -> int, n: nat): (r: TxResult)
    requires Sound(link, st)
    ensures Sound(link, r.st) && r.st.mode == st.mode && r.rc == 0
    decreases Unsent(st)
  {
    if st.pending.None? || st.mode != Enabled then TxResult(st, [], 0) else
      var offer := Attempt(NextPacket(link, st), rcs(n));
      if offer.rc == 0 then
        var r := Drain(link, Complete(link, st), rcs, n + 1);
        TxResult(r.st, [offer] + r.log, 0)
      else if offer.rc == -EBUSY then TxResult(st, [offer], 0)
      else TxResult(Complete(link, st), [offer], 0)
  }

  /** What the users of a bus do: flip the enable switch, or hand over a message. The tag is
      not masked by the caller. */
  datatype Op = SetEnabled(on: bool) | Send(src: Byte, dest: Byte, to: bool, tag: Byte, body: seq<Byte>)

  /** mctp_binding_set_tx_enabled */
  function Switch(link: Link, st: Tx, on: bool, rcs: nat -> int, n: nat): (r: TxResult)
    requires Sound(link, st)
    ensures Sound(link, r.st)
  {
    match st.mode
    case Constructed => TxResult(if on && ValidMtu(link) then st.(mode := Enabled) else st, [], 0)
    case Enabled => TxResult(if on then st else st.(mode := Disabled), [], 0)
    case Disabled => if on then Drain(link, st.(mode := Enabled), rcs, n) else TxResult(st, [], 0)
  }

  /** mctp_message_tx_on_bus */
  function Submit(link: Link, st: Tx, op: Op, rcs: nat -> int, n: nat): (r: TxResult)
    requires Sound(link, st) && op.Send?
    ensures Sound(link, r.st)
  {
    if st.mode == Constructed then TxResult(st, [], -ENXIO)
    else if op.tag >= 8 then TxResult(st, [], -EINVAL)
    else if st.pending.Some? then TxResult(st, [], -EBUSY)
    else Drain(link, st.(pending := Some(Pending(MessageOf(op), 0))), rcs, n)
  }

  function MessageOf(op: Op): Message
    requires op.Send? && op.tag < 8
  {
    Message(op.src, op.dest, op.to, op.tag, op.body)
  }

  function Step(link: Link, st: Tx, op: Op, rcs: nat -> int, n: nat): (r: TxResult)
    requires Sound(link, st)
    ensures Sound(link, r.st)
  {
    match op
    case SetEnabled(on) => Switch(link, st, on, rcs, n)
    case Send(_, _, _, _, _) => Submit(link, st, op, rcs, n)
  }

  /** A whole run: the final state, every packet offered to the binding, and the messages the
      bus took responsibility for. */
  datatype Trace = Trace(st: Tx, log: seq<Attempt>, taken: seq<Message>)

  /** The message the bus keeps when it answers `rc` to `op`. */
  function Taken(op: Op, rc: int): seq<Message> {
    if op.Send? && op.tag < 8 && rc == 0 then [MessageOf(op)] else []
  }

  function SendRun(link: Link, st: Tx, ops: seq<Op>, rcs: nat -> int): (t: Trace)
    requires Sound(link, st)
    ensures Sound(link, t.st)
  {
    if ops == [] then Trace(st, [], []) else
      var t := SendRun(link, st, ops[..|ops| - 1], rcs);
      var op := ops[|ops| - 1];
      var r := Step(link, t.st, op, rcs, |t.log|);
      Trace(r.st, t.log + r.log, t.taken + Taken(op, r.rc))
  }

  /** The packets the bus will not offer again: accepted ones, and ones lost to a binding error. */
  function Completed(log: seq<Attempt>): (ps: seq<Packet>)
    ensures |ps| <= |log|
  {
    if log == [] then [] else
      var a := log[|log| - 1];
      Completed(log[..|log| - 1]) + if a.rc == -EBUSY then [] else [a.pkt]
  }

  lemma {:induction false} CompletedAppend(a: seq<Attempt>, b: seq<Attempt>)
    ensures Completed(a + b) == Completed(a) + Completed(b)
  {
    if b == [] {
      assert a + b == a;
    } else {
      CompletedAppend(a, b[..|b| - 1]);
      assert (a + b)[..|a + b| - 1] == a + b[..|b| - 1];
    }
  }

  lemma CompletedCons(a: Attempt, log: seq<Attempt>)
    ensures Completed([a] + log) == (if a.rc == -EBUSY then [] else [a.pkt]) + Completed(log)
  {
    CompletedAppend([a], log);
    assert [a][..0] == [];
  }

  // ---------------------------------------------------------------------------------------
  // Conservation: nothing is lost, repeated or reordered between the message and the binding
  // ---------------------------------------------------------------------------------------

  /** The packets still to be completed for the pending message. */
  function Rest(link: Link, st: Tx): seq<Packet>
    requires Sound(link, st)
    decreases Unsent(st)
  {
    if st.pending.None? then [] else [NextPacket(link, st)] + Rest(link, Complete(link, st))
  }

  /** Whatever the binding answers, draining the queue moves packets from the front of the rest
      to the completed ones. */
  lemma {:induction false} DrainConserves(link: Link, st: Tx, rcs: nat -> int, n: nat)
    requires Sound(link, st)
    ensures Completed(Drain(link, st, rcs, n).log) + Rest(link, Drain(link, st, rcs, n).st) == Rest(link, st)
    decreases Unsent(st)
  {
    if st.pending.Some? && st.mode == Enabled {
      var offer := Attempt(NextPacket(link, st), rcs(n));
      if offer.rc == 0 {
        DrainConserves(link, Complete(link, st), rcs, n + 1);
        CompletedCons(offer, Drain(link, Complete(link, st), rcs, n + 1).log);
      } else {
        CompletedCons(offer, []);
        assert [offer] + [] == [offer];
      }
    }
  }

  /** The next packet of `m`, which started at sequence number `s0`, is number `i`. */
  predicate At(link: Link, st: Tx, m: Message, s0: SeqNo, i: nat) {
    && ValidMtu(link)
    && i < Count(link, |m.body|)
    && st.mode != Constructed
    && st.pending == Some(Pending(m, Start(link, i)))
    && st.seqNo == Advance(s0, i)
  }

  lemma AtPacket(link: Link, st: Tx, m: Message, s0: SeqNo, i: nat)
    requires At(link, st, m, s0, i)
    ensures Waiting(link, st)
    ensures NextPacket(link, st) == Fragment(link, m, s0, i)
    ensures i + 1 < Count(link, |m.body|) ==> At(link, Complete(link, st), m, s0, i + 1)
    ensures i + 1 == Count(link, |m.body|) ==> Complete(link, st).pending.None?
  {
    StartBounds(link, |m.body|, i);
  }

  /** The cursor walks through the fragments of the message. */
  lemma {:induction false} AtRest(link: Link, st: Tx, m: Message, s0: SeqNo, i: nat)
    requires At(link, st, m, s0, i)
    ensures Sound(link, st)
    ensures Rest(link, st) == Fragments(link, m, s0)[i..]
    decreases Count(link, |m.body|) - i
  {
    AtPacket(link, st, m, s0, i);
    var ps := Fragments(link, m, s0);
    assert ps[i..] == [ps[i]] + ps[i + 1..];
    if i + 1 < |ps| {
      AtRest(link, Complete(link, st), m, s0, i + 1);
    }
  }

  lemma FreshRest(link: Link, st: Tx, m: Message)
    requires ValidMtu(link) && st.mode != Constructed && st.pending == Some(Pending(m, 0))
    ensures Sound(link, st)
    ensures Rest(link, st) == Fragments(link, m, st.seqNo)
  {
    assert At(link, st, m, st.seqNo, 0);
    AtRest(link, st, m, st.seqNo, 0);
  }

  // Sequence numbers count completed packets, across messages

  lemma {:induction false} DrainNumbers(link: Link, st: Tx, rcs: nat -> int, n: nat)
    requires Sound(link, st)
    ensures Drain(link, st, rcs, n).st.seqNo == Advance(st.seqNo, |Completed(Drain(link, st, rcs, n).log)|)
    decreases Unsent(st)
  {
    if st.pending.Some? && st.mode == Enabled {
      var offer := Attempt(NextPacket(link, st), rcs(n));
      if offer.rc == 0 {
        DrainNumbers(link, Complete(link, st), rcs, n + 1);
        CompletedCons(offer, Drain(link, Complete(link, st), rcs, n + 1).log);
        AdvanceAdd(st.seqNo, 1, |Completed(Drain(link, Complete(link, st), rcs, n + 1).log)|);
      } else {
        CompletedCons(offer, []);
        assert [offer] + [] == [offer];
      }
    }
  }

  lemma NumbersAppend(s: SeqNo, a: seq<Attempt>, b: seq<Attempt>)
    ensures Advance(Advance(s, |Completed(a)|), |Completed(b)|) == Advance(s, |Completed(a + b)|)
  {
    CompletedAppend(a, b);
    AdvanceAdd(s, |Completed(a)|, |Completed(b)|);
  }

  lemma {:induction false} RunNumbered(link: Link, st: Tx, ops: seq<Op>, rcs: nat -> int)
    requires Sound(link, st)
    ensures SendRun(link, st, ops, rcs).st.seqNo == Advance(st.seqNo, |Completed(SendRun(link, st, ops, rcs).log)|)
  {
    if ops == [] {
    } else {
      RunNumbered(link, st, ops[..|ops| - 1], rcs);
      var t, op := SendRun(link, st, ops[..|ops| - 1], rcs), ops[|ops| - 1];
      var r := Step(link, t.st, op, rcs, |t.log|);
      StepNumbers(link, t.st, op, rcs, |t.log|);
      NumbersAppend(st.seqNo, t.log, r.log);
    }
  }

  lemma StepNumbers(link: Link, st: Tx, op: Op, rcs: nat -> int, n: nat)
    requires Sound(link, st)
    ensures Step(link, st, op, rcs, n).st.seqNo == Advance(st.seqNo, |Completed(Step(link, st, op, rcs, n).log)|)
  {
    if op.SetEnabled? && st.mode == Disabled && op.on {
      DrainNumbers(link, st.(mode := Enabled), rcs, n);
    } else if op.Send? && op.tag < 8 && st.mode != Constructed && st.pending.None? {
      DrainNumbers(link, st.(pending := Some(Pending(MessageOf(op), 0))), rcs, n);
    }
  }

  // Conservation over whole runs

  lemma CompleteIgnoresMode(link: Link, st: Tx, mode: Mode)
    requires Waiting(link, st) && mode != Constructed
    ensures Waiting(link, st.(mode := mode))
    ensures NextPacket(link, st.(mode := mode)) == NextPacket(link, st)
    ensures Complete(link, st.(mode := mode)) == Complete(link, st).(mode := mode)
  {
  }

  lemma {:induction false} RestIgnoresMode(link: Link, st: Tx, mode: Mode)
    requires ValidMtu(link) && Sound(link, st) && st.mode != Constructed && mode != Constructed
    ensures Rest(link, st.(mode := mode)) == Rest(link, st)
    decreases Unsent(st)
  {
    if st.pending.Some? {
      CompleteIgnoresMode(link, st, mode);
      RestIgnoresMode(link, Complete(link, st), mode);
    }
  }

  /** The packets a step takes on: those of the message it accepts, if any. */
  function NewPackets(link: Link, st: Tx, op: Op, rc: int): seq<Packet>
    requires ValidMtu(link)
  {
    var ms := Taken(op, rc);
    if ms == [] then [] else Fragments(link, ms[0], st.seqNo)
  }

  /** One step: what was left plus what came in is what got completed plus what is left. */
  lemma StepConserves(link: Link, st: Tx, op: Op, rcs: nat -> int, n: nat)
    requires ValidMtu(link) && Sound(link, st)
    ensures var r := Step(link, st, op, rcs, n);
            Completed(r.log) + Rest(link, r.st) == Rest(link, st) + NewPackets(link, st, op, r.rc)
  {
    if op.SetEnabled? && st.mode == Disabled && op.on {
      RestIgnoresMode(link, st, Enabled);
      DrainConserves(link, st.(mode := Enabled), rcs, n);
    } else if op.SetEnabled? && st.mode == Enabled && !op.on {
      RestIgnoresMode(link, st, Disabled);
    } else if op.Send? && op.tag < 8 && st.mode != Constructed && st.pending.None? {
      var st' := st.(pending := Some(Pending(MessageOf(op), 0)));
      FreshRest(link, st', MessageOf(op));
      DrainConserves(link, st', rcs, n);
    }
  }

  /** Transmit conservation, for every run of operations and every behaviour of the binding:
      the packets completed so far followed by the ones still to come are exactly the packet
      stream of the messages the bus took. */
  lemma {:induction false} RunConserves(link: Link, st: Tx, ops: seq<Op>, rcs: nat -> int)
    requires ValidMtu(link) && Sound(link, st) && st.pending.None?
    ensures var t := SendRun(link, st, ops, rcs);
            Completed(t.log) + Rest(link, t.st) == Stream(link, t.taken, st.seqNo)
  {
    if ops == [] {
    } else {
      RunConserves(link, st, ops[..|ops| - 1], rcs);
      RunNumbered(link, st, ops[..|ops| - 1], rcs);
      var t, op := SendRun(link, st, ops[..|ops| - 1], rcs), ops[|ops| - 1];
      var r := Step(link, t.st, op, rcs, |t.log|);
      StepConserves(link, t.st, op, rcs, |t.log|);
      CompletedAppend(t.log, r.log);
      Associative(Completed(t.log), Completed(r.log), Rest(link, r.st));
      Associative(Completed(t.log), Rest(link, t.st), NewPackets(link, t.st, op, r.rc));
      StreamTakes(link, t, op, r.rc, st.seqNo);
    }
  }

  /** Completed packets carry consecutive sequence numbers modulo 4, across messages. */
  lemma CompletedNumbered(link: Link, st: Tx, ops: seq<Op>, rcs: nat -> int, j: nat)
    requires ValidMtu(link) && Sound(link, st) && st.pending.None?
    requires j < |Completed(SendRun(link, st, ops, rcs).log)|
    ensures Completed(SendRun(link, st, ops, rcs).log)[j].seqNo == Advance(st.seqNo, j)
  {
    var t := SendRun(link, st, ops, rcs);
    RunConserves(link, st, ops, rcs);
    PrefixNumbered(link, t.taken, st.seqNo, Completed(t.log), Rest(link, t.st), j);
  }

  lemma PrefixNumbered(link: Link, ms: seq<Message>, s0: SeqNo, a: seq<Packet>, b: seq<Packet>, j: nat)
    requires ValidMtu(link) && a + b == Stream(link, ms, s0) && j < |a|
    ensures a[j].seqNo == Advance(s0, j)
  {
    assert a[j] == (a + b)[j];
    StreamNumbered(link, ms, s0, j);
  }

  lemma StreamTakes(link: Link, t: Trace, op: Op, rc: int, s0: SeqNo)
    requires ValidMtu(link) && Sound(link, t.st)
    requires Completed(t.log) + Rest(link, t.st) == Stream(link, t.taken, s0)
    requires t.st.seqNo == Advance(s0, |Completed(t.log)|)
    requires Taken(op, rc) != [] ==> t.st.pending.None?
    ensures Stream(link, t.taken + Taken(op, rc), s0) ==
            Stream(link, t.taken, s0) + NewPackets(link, t.st, op, rc)
  {
    if Taken(op, rc) == [] {
      assert t.taken + [] == t.taken;
    } else {
      assert |Completed(t.log)| == Total(link, t.taken);
      StreamSnoc(link, t.taken, MessageOf(op), s0);
    }
  }

  // The pending message: its completed packets carry its bytes up to the cursor

  /** The cursor sits at the start of a packet. */
  predicate OnGrid(link: Link, st: Tx) {
    && Sound(link, st)
    && (st.pending.Some? ==>
          && st.pending.value.pos == Start(link, Index(link, st.pending.value.pos))
          && Index(link, st.pending.value.pos) < Count(link, |st.pending.value.msg.body|))
  }

  lemma CompleteOnGrid(link: Link, st: Tx)
    requires OnGrid(link, st) && st.pending.Some?
    ensures OnGrid(link, Complete(link, st))
    ensures Complete(link, st).pending.Some? ==>
              && Complete(link, st).pending.value.msg == st.pending.value.msg
              && Index(link, Complete(link, st).pending.value.pos) == Index(link, st.pending.value.pos) + 1
    ensures Complete(link, st).pending.None? <==>
              Index(link, st.pending.value.pos) + 1 == Count(link, |st.pending.value.msg.body|)
  {
    var i := Index(link, st.pending.value.pos);
    StartBounds(link, |st.pending.value.msg.body|, i);
    IndexOfStart(link, i + 1);
  }

  lemma {:induction false} GridRest(link: Link, st: Tx)
    requires OnGrid(link, st) && st.pending.Some?
    ensures |Rest(link, st)| == Count(link, |st.pending.value.msg.body|) - Index(link, st.pending.value.pos)
    decreases Unsent(st)
  {
    CompleteOnGrid(link, st);
    if Complete(link, st).pending.Some? { GridRest(link, Complete(link, st)); }
  }

  lemma {:induction false} DrainOnGrid(link: Link, st: Tx, rcs: nat -> int, n: nat)
    requires OnGrid(link, st)
    ensures OnGrid(link, Drain(link, st, rcs, n).st)
    ensures Drain(link, st, rcs, n).st.pending.Some? ==>
              st.pending.Some? && Drain(link, st, rcs, n).st.pending.value.msg == st.pending.value.msg
    decreases Unsent(st)
  {
    if st.pending.Some? && st.mode == Enabled {
      CompleteOnGrid(link, st);
      DrainOnGrid(link, Complete(link, st), rcs, n + 1);
    }
  }

  /** The pending message is the last one taken. */
  predicate InHand(link: Link, t: Trace) {
    && OnGrid(link, t.st)
    && (t.st.pending.Some? ==> t.taken != [] && t.taken[|t.taken| - 1] == t.st.pending.value.msg)
  }

  lemma {:induction false} RunInHand(link: Link, st: Tx, ops: seq<Op>, rcs: nat -> int)
    requires Sound(link, st) && st.pending.None?
    ensures InHand(link, SendRun(link, st, ops, rcs))
  {
    if ops == [] {
    } else {
      RunInHand(link, st, ops[..|ops| - 1], rcs);
      var t, op := SendRun(link, st, ops[..|ops| - 1], rcs), ops[|ops| - 1];
      if op.SetEnabled? && t.st.mode == Disabled && op.on {
        DrainOnGrid(link, t.st.(mode := Enabled), rcs, |t.log|);
      } else if op.Send? && op.tag < 8 && t.st.mode != Constructed && t.st.pending.None? {
        DrainOnGrid(link, t.st.(pending := Some(Pending(MessageOf(op), 0))), rcs, |t.log|);
      }
    }
  }

  function AllButLast<T>(s: seq<T>): seq<T> {
    if s == [] then [] else s[..|s| - 1]
  }

  /** At every point of every run, the packets completed for the pending message are its first
      fragments. */
  lemma PendingPrefix(link: Link, st: Tx, ops: seq<Op>, rcs: nat -> int)
    requires ValidMtu(link) && Sound(link, st) && st.pending.None?
    requires SendRun(link, st, ops, rcs).st.pending.Some?
    ensures var t := SendRun(link, st, ops, rcs);
            var Pending(m, pos) := t.st.pending.value;
            var done := AllButLast(t.taken);
            && t.taken == done + [m]
            && Index(link, pos) <= Count(link, |m.body|)
            && Completed(t.log) == Stream(link, done, st.seqNo)
                                   + Fragments(link, m, Advance(st.seqNo, Total(link, done)))[..Index(link, pos)]
  {
    var t := SendRun(link, st, ops, rcs);
    var Pending(m, pos) := t.st.pending.value;
    var done := AllButLast(t.taken);
    RunInHand(link, st, ops, rcs);
    assert t.taken == done + [m];
    RunConserves(link, st, ops, rcs);
    RunNumbered(link, st, ops, rcs);
    StreamSnoc(link, done, m, st.seqNo);
    var s := Advance(st.seqNo, Total(link, done));
    PrefixFromRest(link, t.st, st.seqNo, m, Index(link, pos), s,
                   Completed(t.log), Rest(link, t.st), Stream(link, done, st.seqNo), Fragments(link, m, s));
  }

  /** The payloads of those packets concatenate to the bytes of the message before the cursor. */
  lemma PendingBytes(link: Link, st: Tx, ops: seq<Op>, rcs: nat -> int, s0: SeqNo)
    requires ValidMtu(link) && Sound(link, st) && st.pending.None?
    requires SendRun(link, st, ops, rcs).st.pending.Some?
    ensures var Pending(m, pos) := SendRun(link, st, ops, rcs).st.pending.value;
            && Index(link, pos) <= Count(link, |m.body|) && pos <= |m.body|
            && Bytes(Fragments(link, m, s0)[..Index(link, pos)]) == m.body[..pos]
  {
    RunInHand(link, st, ops, rcs);
    var Pending(m, pos) := SendRun(link, st, ops, rcs).st.pending.value;
    FragmentsCarryPrefix(link, m, s0, Index(link, pos));
    StartBounds(link, |m.body|, Index(link, pos));
  }

  lemma PrefixFromRest(link: Link, st: Tx, s0: SeqNo, m: Message, i: nat, s: SeqNo,
                       completed: seq<Packet>, rest: seq<Packet>, sent: seq<Packet>, frags: seq<Packet>)
    requires ValidMtu(link) && OnGrid(link, st) && st.pending.Some?
    requires m == st.pending.value.msg && i == Index(link, st.pending.value.pos)
    requires rest == Rest(link, st) && completed + rest == sent + frags
    requires s == Advance(s0, |sent|) && frags == Fragments(link, m, s)
    requires st.seqNo == Advance(s0, |completed|)
    ensures completed == sent + frags[..i]
  {
    assert |completed| == |sent| + i by { GridRest(link, st); LengthsAgree(completed, rest, sent, frags); }
    AdvanceAdd(s0, |sent|, i);
    GridAtRest(link, st, m, i, s, rest, frags);
    SplitEqual(completed, rest, sent, frags, i);
  }

  lemma GridAtRest(link: Link, st: Tx, m: Message, i: nat, s: SeqNo, rest: seq<Packet>, frags: seq<Packet>)
    requires ValidMtu(link) && OnGrid(link, st) && st.pending.Some? && st.seqNo == Advance(s, i)
    requires m == st.pending.value.msg && i == Index(link, st.pending.value.pos)
    requires rest == Rest(link, st) && frags == Fragments(link, m, s)
    ensures i < |frags| && rest == frags[i..]
  {
    AtRest(link, st, m, s, i);
  }

  lemma LengthsAgree<T>(a: seq<T>, b: seq<T>, c: seq<T>, d: seq<T>)
    requires a + b == c + d
    ensures |a| + |b| == |c| + |d|
  {
    assert |a + b| == |c + d|;
  }

  lemma SplitEqual<T>(a: seq<T>, b: seq<T>, c: seq<T>, d: seq<T>, i: nat)
    requires i <= |d| && b == d[i..] && a + b == c + d
    ensures a == c + d[..i]
  {
    assert d == d[..i] + d[i..];
    assert |a| == |c| + i;
    assert a == (a + b)[..|a|];
    assert c + d[..i] == (c + d)[..|c| + i];
  }

  // ---------------------------------------------------------------------------------------
  // What the binding sees
  // ---------------------------------------------------------------------------------------

  /** The k-th entry carries the binding's k-th answer. */
  predicate Answered(log: seq<Attempt>, rcs: nat -> int, n: nat) {
    forall j :: 0 <= j < |log| ==> log[j].rc == rcs(n + j)
  }

  predicate AcceptedButLast(log: seq<Attempt>) {
    forall j :: 0 <= j < |log| - 1 ==> log[j].rc == 0
  }

  lemma AnsweredCons(a: Attempt, log: seq<Attempt>, rcs: nat -> int, n: nat)
    requires a.rc == rcs(n) == 0 && Answered(log, rcs, n + 1) && AcceptedButLast(log)
    ensures Answered([a] + log, rcs, n) && AcceptedButLast([a] + log)
  {
    forall j | 0 <= j < |[a] + log| ensures ([a] + log)[j].rc == rcs(n + j) {
      if j > 0 { assert log[j - 1].rc == rcs(n + 1 + (j - 1)); }
    }
  }

  /** Every entry of a drain's log but the last was accepted. */
  lemma {:induction false} DrainAnswers(link: Link, st: Tx, rcs: nat -> int, n: nat)
    requires Sound(link, st)
    ensures Answered(Drain(link, st, rcs, n).log, rcs, n)
    ensures AcceptedButLast(Drain(link, st, rcs, n).log)
    decreases Unsent(st)
  {
    if st.pending.Some? && st.mode == Enabled && rcs(n) == 0 {
      DrainAnswers(link, Complete(link, st), rcs, n + 1);
      AnsweredCons(Attempt(NextPacket(link, st), 0), Drain(link, Complete(link, st), rcs, n + 1).log, rcs, n);
    }
  }

  /** A drain that stops with work left was stopped by the binding's last answer. */
  lemma {:induction false} DrainStops(link: Link, st: Tx, rcs: nat -> int, n: nat)
    requires Sound(link, st) && st.mode == Enabled
    ensures var r := Drain(link, st, rcs, n);
            r.st.pending.Some? ==> r.log != [] && r.log[|r.log| - 1].rc != 0
    decreases Unsent(st)
  {
    if st.pending.Some? && rcs(n) == 0 {
      DrainStops(link, Complete(link, st), rcs, n + 1);
    }
  }

  lemma {:induction false} AllCompleted(log: seq<Attempt>)
    requires forall j :: 0 <= j < |log| ==> log[j].rc == 0
    ensures |Completed(log)| == |log|
    ensures forall j :: 0 <= j < |log| ==> Completed(log)[j] == log[j].pkt
  {
    if log != [] { AllCompleted(log[..|log| - 1]); }
  }

  /** Packet count: an idle, enabled bus whose binding accepts everything hands over exactly the
      fragments of the message, each once and in order, and is idle again. */
  lemma AcceptedInFull(link: Link, st: Tx, op: Op, rcs: nat -> int, n: nat)
    requires Sound(link, st) && st.mode == Enabled && st.pending.None?
    requires op.Send? && op.tag < 8
    requires forall k: nat :: rcs(k) == 0
    ensures var r := Submit(link, st, op, rcs, n);
            var ps := Fragments(link, MessageOf(op), st.seqNo);
            && r.rc == 0 && r.st == Tx(Enabled, None, Advance(st.seqNo, |ps|))
            && |r.log| == |ps| && (forall j :: 0 <= j < |ps| ==> r.log[j] == Attempt(ps[j], 0))
  {
    var m := MessageOf(op);
    var started := st.(pending := Some(Pending(m, 0)));
    FreshRest(link, started, m);
    DrainConserves(link, started, rcs, n);
    DrainNumbers(link, started, rcs, n);
    DrainAnswers(link, started, rcs, n);
    DrainStops(link, started, rcs, n);
    var r := Drain(link, started, rcs, n);
    AllCompleted(r.log);
    assert Completed(r.log) + [] == Completed(r.log);
  }

  /** SOM marks only the first packet of a message, EOM only the last. */
  lemma FragmentFlags(link: Link, m: Message, s0: SeqNo, i: nat)
    requires ValidMtu(link) && i < Count(link, |m.body|)
    ensures var p := Fragments(link, m, s0)[i];
            && (p.som <==> i == 0) && (p.eom <==> i == Count(link, |m.body|) - 1)
            && p.seqNo == (s0 + i) % 4 && Size(p) <= link.pktSize
  {
    AdvanceClosedForm(s0, i);
  }

  predicate BusyLast(log: seq<Attempt>) {
    log != [] && log[|log| - 1].rc == -EBUSY
  }

  /** A drain offers the next packet first; when it ends on a busy answer that packet is still
      the next one. */
  lemma {:induction false} DrainEnds(link: Link, st: Tx, rcs: nat -> int, n: nat)
    requires Sound(link, st)
    ensures var r := Drain(link, st, rcs, n);
            && (r.log != [] ==> Waiting(link, st) && st.mode == Enabled && r.log[0].pkt == NextPacket(link, st))
            && (BusyLast(r.log) ==> Waiting(link, r.st) && NextPacket(link, r.st) == r.log[|r.log| - 1].pkt)
    decreases Unsent(st)
  {
    if st.pending.Some? && st.mode == Enabled && rcs(n) == 0 {
      DrainEnds(link, Complete(link, st), rcs, n + 1);
    }
  }

  /** A packet refused with -EBUSY is the next one offered, unchanged. */
  predicate Retried(log: seq<Attempt>) {
    forall i :: 0 <= i < |log| - 1 && log[i].rc == -EBUSY ==> log[i + 1].pkt == log[i].pkt
  }

  /** If the binding was busy last, the refused packet is what the bus would offer next. */
  predicate Holding(link: Link, st: Tx, log: seq<Attempt>) {
    BusyLast(log) ==> Waiting(link, st) && NextPacket(link, st) == log[|log| - 1].pkt
  }

  lemma RetriedAppend(a: seq<Attempt>, b: seq<Attempt>)
    requires Retried(a)
    requires BusyLast(a) && b != [] ==> b[0].pkt == a[|a| - 1].pkt
    requires AcceptedButLast(b)
    ensures Retried(a + b)
  {
    var log := a + b;
    forall i | 0 <= i < |log| - 1 ensures log[i].rc == -EBUSY ==> log[i + 1].pkt == log[i].pkt {
      if i >= |a| { assert log[i] == b[i - |a|]; }
    }
  }

  lemma DrainRetries(link: Link, st: Tx, log: seq<Attempt>, rcs: nat -> int)
    requires Sound(link, st) && Retried(log) && Holding(link, st, log)
    ensures var r := Drain(link, st, rcs, |log|);
            Retried(log + r.log) && Holding(link, r.st, log + r.log)
  {
    var r := Drain(link, st, rcs, |log|);
    DrainEnds(link, st, rcs, |log|);
    DrainAnswers(link, st, rcs, |log|);
    RetriedAppend(log, r.log);
    if r.log == [] {
      DrainNothing(link, st, rcs, |log|);
      assert log + r.log == log;
    }
  }

  lemma DrainNothing(link: Link, st: Tx, rcs: nat -> int, n: nat)
    requires Sound(link, st) && Drain(link, st, rcs, n).log == []
    ensures Drain(link, st, rcs, n).st == st
  {
  }

  lemma StepRetries(link: Link, st: Tx, op: Op, log: seq<Attempt>, rcs: nat -> int)
    requires Sound(link, st) && Retried(log) && Holding(link, st, log)
    ensures var r := Step(link, st, op, rcs, |log|);
            Retried(log + r.log) && Holding(link, r.st, log + r.log)
  {
    assert log + [] == log;
    if op.SetEnabled? && st.mode == Disabled && op.on {
      DrainRetries(link, st.(mode := Enabled), log, rcs);
    } else if op.Send? && op.tag < 8 && st.mode != Constructed && st.pending.None? {
      DrainRetries(link, st.(pending := Some(Pending(MessageOf(op), 0))), log, rcs);
    }
  }

  lemma {:induction false} RunRetries(link: Link, st: Tx, ops: seq<Op>, rcs: nat -> int)
    requires Sound(link, st)
    ensures var t := SendRun(link, st, ops, rcs);
            Retried(t.log) && Holding(link, t.st, t.log)
  {
    if ops == [] {
    } else {
      RunRetries(link, st, ops[..|ops| - 1], rcs);
      var t := SendRun(link, st, ops[..|ops| - 1], rcs);
      StepRetries(link, t.st, ops[|ops| - 1], t.log, rcs);
    }
  }

  /** A step offers packets only on a bus that is enabled when the step ends, and then only when
      a message is handed over or the bus goes from disabled to enabled. */
  lemma OffersOnlyWhenEnabled(link: Link, st: Tx, op: Op, rcs: nat -> int, n: nat)
    requires Sound(link, st)
    ensures var r := Step(link, st, op, rcs, n);
            r.log != [] ==>
              && r.st.mode == Enabled
              && (op.Send? ==> st.mode == Enabled && st.pending.None?)
              && (op.SetEnabled? ==> st.mode == Disabled && op.on)
  {
  }

  /** At some point the bus is disabled, and later enabled. */
  ghost predicate Reenabled(ops: seq<Op>) {
    exists i, j :: 0 <= i < j < |ops| && ops[i] == SetEnabled(false) && ops[j] == SetEnabled(true)
  }

  lemma ReenabledSnoc(ops: seq<Op>, op: Op)
    ensures Reenabled(ops + [op]) <==> Reenabled(ops) || (SetEnabled(false) in ops && op == SetEnabled(true))
  {
    var ops' := ops + [op];
    if Reenabled(ops') {
      var i, j :| 0 <= i < j < |ops'| && ops'[i] == SetEnabled(false) && ops'[j] == SetEnabled(true);
      assert ops[i] == SetEnabled(false);
      if j < |ops| { assert ops[j] == SetEnabled(true); }
    }
    if Reenabled(ops) {
      var i, j :| 0 <= i < j < |ops| && ops[i] == SetEnabled(false) && ops[j] == SetEnabled(true);
      assert ops'[i] == SetEnabled(false) && ops'[j] == SetEnabled(true);
    }
    if SetEnabled(false) in ops && op == SetEnabled(true) {
      var i :| 0 <= i < |ops| && ops[i] == SetEnabled(false);
      assert ops'[i] == SetEnabled(false) && ops'[|ops|] == SetEnabled(true);
    }
  }

  /** A stalled bus: nothing was offered or taken, and only the switch may have moved. */
  function Stalled(st: Tx, ops: seq<Op>): Trace {
    Trace(st.(mode := if SetEnabled(false) in ops then Disabled else Enabled), [], [])
  }

  /** A bus left enabled with a message pending offers a packet again if and only if it is disabled
      and later enabled. Until then it takes nothing and its message, cursor and number stay. */
  lemma {:induction false} ResumesIffReenabled(link: Link, st: Tx, ops: seq<Op>, rcs: nat -> int)
    requires Sound(link, st) && st.mode == Enabled && st.pending.Some?
    ensures SendRun(link, st, ops, rcs).log != [] <==> Reenabled(ops)
    ensures SendRun(link, st, ops, rcs).log == [] ==> SendRun(link, st, ops, rcs) == Stalled(st, ops)
  {
    if ops == [] {
    } else {
      var init, op := ops[..|ops| - 1], ops[|ops| - 1];
      ResumesIffReenabled(link, st, init, rcs);
      ReenabledSnoc(init, op);
      assert ops == init + [op];
      var t := SendRun(link, st, init, rcs);
      if t.log == [] { StalledStep(link, st, init, op, rcs); }
    }
  }

  /** One operation on a stalled bus. */
  lemma StalledStep(link: Link, st: Tx, ops: seq<Op>, op: Op, rcs: nat -> int)
    requires Sound(link, st) && st.mode == Enabled && st.pending.Some?
    ensures Sound(link, Stalled(st, ops).st)
    ensures var r := Step(link, Stalled(st, ops).st, op, rcs, 0);
            && (r.log != [] <==> SetEnabled(false) in ops && op == SetEnabled(true))
            && (r.log == [] ==> r.st == Stalled(st, ops + [op]).st && Taken(op, r.rc) == [])
  {
    assert SetEnabled(false) in ops + [op] <==> SetEnabled(false) in ops || op == SetEnabled(false);
  }

  /** Such states are reached: whatever is sent on an idle enabled bus, if the binding answers busy
      the bus is left enabled with the whole message pending. */
  lemma BusyStalls(link: Link, st: Tx, op: Op, rcs: nat -> int)
    requires Sound(link, st) && st.mode == Enabled && st.pending.None?
    requires op.Send? && op.tag < 8 && rcs(0) == -EBUSY
    ensures var t := SendRun(link, st, [op], rcs);
            && t.st == st.(pending := Some(Pending(MessageOf(op), 0))) && t.taken == [MessageOf(op)]
            && t.log == [Attempt(NextPacket(link, t.st), -EBUSY)]
  {
    assert [op][..0] == [];
    var started := st.(pending := Some(Pending(MessageOf(op), 0)));
    assert Drain(link, started, rcs, 0).log == [Attempt(NextPacket(link, started), -EBUSY)];
  }

  /** A binding with too small a packet size never starts: nothing is taken or offered. */
  lemma {:induction false} NeverStarts(link: Link, st: Tx, ops: seq<Op>, rcs: nat -> int)
    requires !ValidMtu(link) && Sound(link, st)
    ensures SendRun(link, st, ops, rcs) == Trace(st, [], [])
  {
    if ops != [] { NeverStarts(link, st, ops[..|ops| - 1], rcs); }
  }

  // ---------------------------------------------------------------------------------------
  // The switch
  // ---------------------------------------------------------------------------------------

  /** The last enable switch of a run is to `on`. */
  ghost predicate LastSwitch(ops: seq<Op>, on: bool) {
    exists i :: 0 <= i < |ops| && ops[i] == SetEnabled(on) && forall j :: i < j < |ops| ==> ops[j].Send?
  }

  predicate NoSwitch(ops: seq<Op>) {
    forall i :: 0 <= i < |ops| ==> ops[i].Send?
  }

  lemma LastSwitchSnoc(ops: seq<Op>, op: Op, on: bool)
    ensures LastSwitch(ops + [op], on) <==> if op.Send? then LastSwitch(ops, on) else op.on == on
    ensures NoSwitch(ops + [op]) <==> NoSwitch(ops) && op.Send?
  {
    var ops' := ops + [op];
    assert ops'[|ops|] == op && forall i :: 0 <= i < |ops| ==> ops'[i] == ops[i];
    if LastSwitch(ops', on) && op.Send? {
      var i :| 0 <= i < |ops'| && ops'[i] == SetEnabled(on) && forall j :: i < j < |ops'| ==> ops'[j].Send?;
      assert ops[i] == SetEnabled(on) && forall j :: i < j < |ops| ==> ops[j] == ops'[j];
    }
    if LastSwitch(ops, on) && op.Send? {
      var i :| 0 <= i < |ops| && ops[i] == SetEnabled(on) && forall j :: i < j < |ops| ==> ops[j].Send?;
      assert ops'[i] == SetEnabled(on);
    }
    if op.SetEnabled? && op.on == on { assert ops'[|ops|] == SetEnabled(on); }
  }

  /** Where the switch stands after a run that began in mode `from`. */
  ghost predicate Switched(link: Link, from: Mode, ops: seq<Op>, mode: Mode) {
    if from == Constructed && (link.pktSize < 68 || SetEnabled(true) !in ops) then mode == Constructed
    else if NoSwitch(ops) then mode == from
    else
      && mode != Constructed
      && (mode == Enabled ==> LastSwitch(ops, true)) && (mode == Disabled ==> LastSwitch(ops, false))
  }

  lemma StepMode(link: Link, st: Tx, op: Op, rcs: nat -> int, n: nat)
    requires Sound(link, st)
    ensures Step(link, st, op, rcs, n).st.mode ==
            if op.Send? || (st.mode == Constructed && (!op.on || link.pktSize < 68)) then st.mode
            else if op.on then Enabled else Disabled
  {
  }

  lemma SwitchedStep(link: Link, from: Mode, ops: seq<Op>, op: Op, mode: Mode, mode': Mode)
    requires Switched(link, from, ops, mode)
    requires mode' == if op.Send? || (mode == Constructed && (!op.on || link.pktSize < 68)) then mode
                      else if op.on then Enabled else Disabled
    ensures Switched(link, from, ops + [op], mode')
  {
    LastSwitchSnoc(ops, op, true);
    LastSwitchSnoc(ops, op, false);
    assert SetEnabled(true) in ops + [op] <==> SetEnabled(true) in ops || op == SetEnabled(true);
  }

  /** The mode over runs, whatever is sent and answered: a bus leaves the constructed state if and
      only if its packet size allows it and it is enabled at some point; from then on it is as the
      last switch says, idle or not. */
  lemma {:induction false} ModeFollowsSwitch(link: Link, st: Tx, ops: seq<Op>, rcs: nat -> int)
    requires Sound(link, st)
    ensures Switched(link, st.mode, ops, SendRun(link, st, ops, rcs).st.mode)
  {
    if ops == [] {
    } else {
      var init := ops[..|ops| - 1];
      ModeFollowsSwitch(link, st, init, rcs);
      var t := SendRun(link, st, init, rcs);
      StepMode(link, t.st, ops[|ops| - 1], rcs, |t.log|);
      SwitchedStep(link, st.mode, init, ops[|ops| - 1], t.st.mode, SendRun(link, st, ops, rcs).st.mode);
      assert init + [ops[|ops| - 1]] == ops;
    }
  }

  lemma SendRunSnoc(link: Link, st: Tx, ops: seq<Op>, op: Op, rcs: nat -> int)
    requires Sound(link, st)
    ensures var t := SendRun(link, st, ops, rcs);
            var r := Step(link, t.st, op, rcs, |t.log|);
            SendRun(link, st, ops + [op], rcs) == Trace(r.st, t.log + r.log, t.taken + Taken(op, r.rc))
  {
  }

  /** Start-up: a newly registered bus that is enabled and handed a message offers exactly the
      fragments of the message to an accepting binding, and is idle again. */
  lemma StartUp(link: Link, s: SeqNo, op: Op, rcs: nat -> int)
    requires link.pktSize >= 68 && op.Send? && op.tag < 8
    requires forall k: nat :: rcs(k) == 0
    ensures var t := SendRun(link, Tx(Constructed, None, s), [SetEnabled(true), op], rcs);
            var m := Message(op.src, op.dest, op.to, op.tag, op.body);
            var ps := Fragments(link, m, s);
            && t.st == Tx(Enabled, None, Advance(s, |ps|)) && t.taken == [m]
            && |t.log| == |ps| && (forall j :: 0 <= j < |ps| ==> t.log[j] == Attempt(ps[j], 0))
  {
    var st := Tx(Constructed, None, s);
    assert [] + [SetEnabled(true)] + [op] == [SetEnabled(true), op];
    SendRunSnoc(link, st, [], SetEnabled(true), rcs);
    SendRunSnoc(link, st, [] + [SetEnabled(true)], op, rcs);
    AcceptedInFull(link, Tx(Enabled, None, s), op, rcs, 0);
    assert [] + [MessageOf(op)] == [MessageOf(op)];
    var r := Submit(link, Tx(Enabled, None, s), op, rcs, 0);
    assert [] + r.log == r.log;
  }

  /** The answer to a message, by cause; a message that is refused leaves no trace, and one taken
      on a disabled bus waits there whole. */
  lemma AnswerByCause(link: Link, st: Tx, op: Op, rcs: nat -> int, n: nat)
    requires Sound(link, st) && op.Send?
    ensures var r := Submit(link, st, op, rcs, n);
            && r.rc in {0, -ENXIO, -EINVAL, -EBUSY}
            && (r.rc == -ENXIO <==> st.mode == Constructed)
            && (r.rc == -EINVAL <==> st.mode != Constructed && op.tag > 7)
            && (r.rc == -EBUSY <==> st.mode != Constructed && op.tag <= 7 && st.pending.Some?)
            && (r.rc != 0 ==> r.st == st && r.log == [])
            && (r.rc == 0 && st.mode == Disabled ==>
                  && r.log == []
                  && r.st == Tx(Disabled, Some(Pending(Message(op.src, op.dest, op.to, op.tag, op.body), 0)), st.seqNo))
            && (r.rc == 0 && st.mode == Enabled ==>
                  && |r.log| > 0
                  && var p := r.log[0].pkt;
                     p.som && p.src == op.src && p.dest == op.dest && p.to == op.to && p.tag == op.tag)
  {
  }
}
