/** The sender and the receiver undo each other: for every schedule of the sender and every
    pattern of busy answers, and through a bridge. */
module RoundTrip {
  import opened Basics
  import opened Packets
  import opened Fragmentation
  import opened Reassembly
  import opened Trains
  import opened Transmit
  import opened Receive

  // ---------------------------------------------------------------------------------------
  // One message into the table
  // ---------------------------------------------------------------------------------------

  /** After a step on the context of `k`, the table is in the expected slot or has none. */
  lemma PlaceAfter(slots: Slots, k: Key, c: Option<Ctx>)
    requires Distinct(slots) && HasRoom(slots, k)
    ensures var slots' := slots[Place(slots, k) := Wrap(k, c)];
            if c.Some? then Place(slots', k) == Place(slots, k) && Holds(slots'[Place(slots, k)], k)
            else Find(slots', k, 0) == |slots'|
  {
    var i := Place(slots, k);
    UpdateOwn(slots, k, c);
    if c.Some? { LookupAt(slots[i := Wrap(k, c)], k, i); }
  }

  lemma StepInPlace(max: nat, slots: Slots, k: Key, c: Option<Ctx>, p: Packet)
    requires Distinct(slots) && HasRoom(slots, k) && KeyOf(p) == k && !p.som
    ensures var i := Place(slots, k);
            var r := KeyStep(max, c, p);
            TableStep(max, slots[i := Wrap(k, c)], p) == TableResult(slots[i := Wrap(k, r.ctx)], r.out)
  {
    var i := Place(slots, k);
    PlaceAfter(slots, k, c);
    var slots' := slots[i := Wrap(k, c)];
    if c.Some? {
      assert slots'[i := Wrap(k, KeyStep(max, c, p).ctx)] == slots[i := Wrap(k, KeyStep(max, c, p).ctx)];
    }
  }

  /** Packets of one key, the first with SOM and no other: the table runs that key's automaton
      in one slot and touches nothing else. */
  lemma {:induction false} BurstInPlace(max: nat, slots: Slots, k: Key, ps: seq<Packet>)
    requires Distinct(slots) && HasRoom(slots, k)
    requires |ps| >= 1 && Opens(ps[0]) && forall i :: 1 <= i < |ps| ==> !ps[i].som
    requires forall p :: p in ps ==> KeyOf(p) == k
    ensures var r := KeyRun(max, Lookup(slots, k), ps);
            TableRun(max, slots, ps) == TableResult(slots[Place(slots, k) := Wrap(k, r.ctx)], r.out)
  {
    var ps', p := ps[..|ps| - 1], ps[|ps| - 1];
    assert p in ps && ps == ps' + [p];
    RunSnoc(max, slots, ps', p);
    KeyRunSnoc(max, Lookup(slots, k), ps', p);
    if ps' != [] {
      BurstInPlace(max, slots, k, ps');
      StepInPlace(max, slots, k, KeyRun(max, Lookup(slots, k), ps').ctx, p);
    }
  }

  lemma {:induction false} BurstWithoutRoom(max: nat, slots: Slots, k: Key, ps: seq<Packet>)
    requires !HasRoom(slots, k)
    requires forall p :: p in ps ==> KeyOf(p) == k && !Single(p)
    ensures TableRun(max, slots, ps) == TableResult(slots, [])
  {
    if ps == [] {
    } else {
      assert ps[|ps| - 1] in ps;
      BurstWithoutRoom(max, slots, k, ps[..|ps| - 1]);
    }
  }

  /** The fragments of a message of two or more packets are a complete train. */
  lemma FragmentsAreTrain(link: Link, m: Message, s0: SeqNo)
    requires ValidMtu(link) && Count(link, |m.body|) >= 2
    ensures Burst(Fragments(link, m, s0)) && CompleteTrain(Fragments(link, m, s0))
  {
    var ps := Fragments(link, m, s0);
    forall i | 0 <= i < |ps|
      ensures i < |ps| - 1 ==> |ps[i].payload| == Mtu(link)
      ensures |ps[i].payload| <= Mtu(link)
    {
      FragmentSize(link, m, s0, i);
    }
    var init := ps[..|ps| - 1];
    assert forall i :: 0 <= i < |init| ==> init[i] == Fragment(link, m, s0, i);
  }

  lemma FragmentSize(link: Link, m: Message, s0: SeqNo, i: nat)
    requires ValidMtu(link) && i < Count(link, |m.body|)
    ensures |Fragment(link, m, s0, i).payload| <= Mtu(link)
    ensures i < Count(link, |m.body|) - 1 ==> |Fragment(link, m, s0, i).payload| == Mtu(link)
  {
    StartBounds(link, |m.body|, i);
  }

  lemma FragmentKeys(link: Link, m: Message, s0: SeqNo)
    requires ValidMtu(link)
    ensures forall p :: p in Fragments(link, m, s0) ==>
              KeyOf(p) == KeyOfMessage(m) && p.src == m.src && p.dest == m.dest
  {
  }

  predicate Kept(max: nat, link: Link, m: Message)
    requires ValidMtu(link)
  {
    Count(link, |m.body|) == 1 || |m.body| <= max
  }

  /** What the packets of one message do to any table, exactly. */
  function AfterMessage(max: nat, link: Link, slots: Slots, m: Message): TableResult
    requires ValidMtu(link)
  {
    var k := KeyOfMessage(m);
    if Count(link, |m.body|) == 1 then TableResult(slots, [m])
    else if !HasRoom(slots, k) then TableResult(slots, [])
    else TableResult(slots[Place(slots, k) := None], if |m.body| <= max then [m] else [])
  }

  lemma MessageRun(max: nat, link: Link, slots: Slots, m: Message, s0: SeqNo)
    requires ValidMtu(link) && Distinct(slots)
    ensures TableRun(max, slots, Fragments(link, m, s0)) == AfterMessage(max, link, slots, m)
  {
    var k, ps := KeyOfMessage(m), Fragments(link, m, s0);
    FragmentKeys(link, m, s0);
    FragmentsCarryBody(link, m, s0);
    if |ps| == 1 {
      assert ps == [] + [ps[0]];
      BytesSnoc([], ps[0]);
      RunSnoc(max, slots, [], ps[0]);
      assert Whole(ps[0], ps[0].payload) == m;
      assert [] + [m] == [m];
    } else {
      FragmentsAreTrain(link, m, s0);
      if HasRoom(slots, k) {
        BurstInPlace(max, slots, k, ps);
        BurstOutcome(max, Lookup(slots, k), ps);
      } else {
        BurstWithoutRoom(max, slots, k, ps);
      }
    }
  }

  /** A message cut short delivers nothing. */
  lemma PartialRun(max: nat, link: Link, slots: Slots, m: Message, s0: SeqNo, i: nat)
    requires ValidMtu(link) && Distinct(slots) && i < Count(link, |m.body|)
    ensures TableRun(max, slots, Fragments(link, m, s0)[..i]).out == []
  {
    var k, ps := KeyOfMessage(m), Fragments(link, m, s0);
    FragmentKeys(link, m, s0);
    if i > 0 {
      if HasRoom(slots, k) {
        BurstInPlace(max, slots, k, ps[..i]);
        OpenBurstOutcome(max, Lookup(slots, k), ps[..i]);
      } else {
        BurstWithoutRoom(max, slots, k, ps[..i]);
      }
    }
  }

  // ---------------------------------------------------------------------------------------
  // A stream of messages
  // ---------------------------------------------------------------------------------------

  predicate HasFree(slots: Slots) {
    FirstFree(slots, 0) < |slots|
  }

  lemma FreeAfter(slots: Slots, i: nat)
    requires i < |slots| && Distinct(slots)
    ensures HasFree(slots[i := None]) && Distinct(slots[i := None])
  {
    var slots' := slots[i := None];
    FirstFreeIsFirst(slots', 0);
    assert slots'[i].None?;
  }

  function KeptOf(max: nat, link: Link, ms: seq<Message>): seq<Message>
    requires ValidMtu(link)
  {
    if ms == [] then [] else
      var m := ms[|ms| - 1];
      KeptOf(max, link, ms[..|ms| - 1]) + if Kept(max, link, m) then [m] else []
  }

  /** Given one free slot, a stream of messages arrives message by message, whatever their keys. */
  lemma {:induction false} StreamRun(max: nat, link: Link, slots: Slots, ms: seq<Message>, s0: SeqNo)
    requires ValidMtu(link) && Distinct(slots) && HasFree(slots)
    ensures var r := TableRun(max, slots, Stream(link, ms, s0));
            r.out == KeptOf(max, link, ms) && Distinct(r.slots) && HasFree(r.slots)
  {
    if ms == [] {
    } else {
      var init, m := ms[..|ms| - 1], ms[|ms| - 1];
      StreamRun(max, link, slots, init, s0);
      var s := Advance(s0, Total(link, init));
      var mid := TableRun(max, slots, Stream(link, init, s0)).slots;
      RunAppend(max, slots, Stream(link, init, s0), Fragments(link, m, s));
      MessageRun(max, link, mid, m, s);
      assert HasRoom(mid, KeyOfMessage(m));
      FreeAfter(mid, Place(mid, KeyOfMessage(m)));
    }
  }

  // ---------------------------------------------------------------------------------------
  // End to end
  // ---------------------------------------------------------------------------------------

  /** The packets the binding accepted. */
  function AcceptedPackets(log: seq<Attempt>): seq<Packet> {
    if log == [] then [] else
      var a := log[|log| - 1];
      AcceptedPackets(log[..|log| - 1]) + if a.rc == 0 then [a.pkt] else []
  }

  lemma {:induction false} AcceptedIsCompleted(log: seq<Attempt>)
    requires forall a :: a in log ==> a.rc == 0 || a.rc == -EBUSY
    ensures AcceptedPackets(log) == Completed(log)
  {
    if log != [] {
      AcceptedIsCompleted(log[..|log| - 1]);
      assert log[|log| - 1] in log;
    }
  }

  lemma {:induction false} StreamAddressed(link: Link, ms: seq<Message>, s0: SeqNo, eid: Byte)
    requires ValidMtu(link)
    requires forall m :: m in ms ==> m.src != EID_BROADCAST && Local(eid, m.dest)
    ensures forall p :: p in Stream(link, ms, s0) ==> Addressed(eid, p)
  {
    if ms != [] {
      StreamAddressed(link, ms[..|ms| - 1], s0, eid);
      assert ms[|ms| - 1] in ms;
      FragmentKeys(link, ms[|ms| - 1], Advance(s0, Total(link, ms[..|ms| - 1])));
    }
  }

  /** The messages of a run that are no longer pending. */
  function Finished(t: Trace): seq<Message> {
    if t.st.pending.Some? then AllButLast(t.taken) else t.taken
  }

  /** The completed packets of a run without binding errors, fed to the table. */
  lemma CompletedRun(link: Link, st: Tx, ops: seq<Op>, rcs: nat -> int, max: nat, slots: Slots)
    requires ValidMtu(link) && Sound(link, st) && st.pending.None?
    requires Distinct(slots) && HasFree(slots)
    ensures var t := SendRun(link, st, ops, rcs);
            TableRun(max, slots, Completed(t.log)).out == KeptOf(max, link, Finished(t))
  {
    var t := SendRun(link, st, ops, rcs);
    if t.st.pending.None? {
      RunConserves(link, st, ops, rcs);
      assert Completed(t.log) + [] == Completed(t.log);
      StreamRun(max, link, slots, t.taken, st.seqNo);
    } else {
      PendingPrefix(link, st, ops, rcs);
      RunInHand(link, st, ops, rcs);
      var m, done := t.st.pending.value.msg, AllButLast(t.taken);
      var s, i := Advance(st.seqNo, Total(link, done)), Index(link, t.st.pending.value.pos);
      StreamRun(max, link, slots, done, st.seqNo);
      RunAppend(max, slots, Stream(link, done, st.seqNo), Fragments(link, m, s)[..i]);
      PartialRun(max, link, TableRun(max, slots, Stream(link, done, st.seqNo)).slots, m, s, i);
    }
  }

  /** Round trip under any schedule: for every run of sends and enable switches, every MTU,
      starting sequence number and pattern of busy answers, the receiver that is fed the bytes
      of the accepted packets delivers exactly the finished messages, in order, each unchanged,
      except those of several packets that exceed its limit. */
  lemma RoundTripAnySchedule(link: Link, st: Tx, ops: seq<Op>, rcs: nat -> int, max: nat, eid: Byte, slots: Slots)
    requires ValidMtu(link) && Sound(link, st) && st.pending.None?
    requires forall a :: a in SendRun(link, st, ops, rcs).log ==> a.rc == 0 || a.rc == -EBUSY
    requires forall m :: m in SendRun(link, st, ops, rcs).taken ==> m.src != EID_BROADCAST && Local(eid, m.dest)
    requires Distinct(slots) && HasFree(slots)
    ensures var t := SendRun(link, st, ops, rcs);
            WireRun(max, eid, slots, Wires(AcceptedPackets(t.log))).out == KeptOf(max, link, Finished(t))
  {
    var t := SendRun(link, st, ops, rcs);
    var sent := Completed(t.log);
    AcceptedIsCompleted(t.log);
    RunConserves(link, st, ops, rcs);
    StreamAddressed(link, t.taken, st.seqNo, eid);
    assert forall p :: p in sent ==> p in sent + Rest(link, t.st);
    AdmittedWires(eid, sent);
    WireRunIsRun(max, eid, slots, Wires(sent));
    CompletedRun(link, st, ops, rcs, max, slots);
  }

  /** Refragmentation, as a bridge does it: a message that came in as one packet and is handed to
      an idle, enabled bus with any valid MTU goes out as packets that reassemble to it. */
  lemma Refragmentation(link: Link, st: Tx, p: Packet, rcs: nat -> int, n: nat, max: nat, eid: Byte, slots: Slots)
    requires Sound(link, st) && st.mode == Enabled && st.pending.None?
    requires Single(p) && Addressed(eid, p)
    requires forall k: nat :: rcs(k) == 0
    requires Distinct(slots)
    ensures var r := Submit(link, st, Send(p.src, p.dest, p.to, p.tag, p.payload), rcs, n);
            && r.st.pending.None?
            && WireRun(max, eid, slots, Wires(AcceptedPackets(r.log))).out ==
               if Count(link, |p.payload|) == 1 || (HasRoom(slots, KeyOf(p)) && |p.payload| <= max)
               then [Whole(p, p.payload)] else []
  {
    var op := Send(p.src, p.dest, p.to, p.tag, p.payload);
    var m := MessageOf(op);
    AcceptedInFull(link, st, op, rcs, n);
    var r := Submit(link, st, op, rcs, n);
    var ps := Fragments(link, m, st.seqNo);
    AllCompleted(r.log);
    AcceptedIsCompleted(r.log);
    assert Completed(r.log) == ps;
    FragmentKeys(link, m, st.seqNo);
    AdmittedWires(eid, ps);
    WireRunIsRun(max, eid, slots, Wires(ps));
    MessageRun(max, link, slots, m, st.seqNo);
  }
}
