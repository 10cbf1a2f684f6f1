/** Message reassembly: the fixed table of contexts, the automaton one (src, dest, tag) key runs
    through, and the proof that the table is nothing more than one automaton per key. */
module Reassembly {
  import opened Basics
  import opened Packets
  import opened Fragmentation

  /** What identifies a reassembly context. The tag-owner bit is not part of it. */
  datatype Key = Key(src: Byte, dest: Byte, tag: Tag)

  /** An open context: the bytes so far, the last sequence number, and the size of the first
      packet, header included. */
  datatype Ctx = Ctx(body: seq<Byte>, lastSeq: SeqNo, fragSize: nat)

  datatype KeyResult = KeyResult(ctx: Option<Ctx>, out: seq<Message>)

  function KeyOf(p: Packet): Key {
    Key(p.src, p.dest, p.tag)
  }

  function KeyOfMessage(m: Message): Key {
    Key(m.src, m.dest, m.tag)
  }

  /** A message completed by `p`; its tag-owner bit is that of `p`. */
  function Whole(p: Packet, body: seq<Byte>): Message {
    Message(p.src, p.dest, p.to, p.tag, body)
  }

  // ---------------------------------------------------------------------------------------
  // One key
  // ---------------------------------------------------------------------------------------

  /** What packet `p` does to the context of its key, when a slot is available. */
  function KeyStep(max: nat, c: Option<Ctx>, p: Packet): KeyResult {
    if Single(p) then KeyResult(c, [Whole(p, p.payload)])
    else if p.som then
      KeyResult(if |p.payload| <= max then Some(Ctx(p.payload, p.seqNo, Size(p))) else None, [])
    else if c.None? || p.seqNo != Next(c.value.lastSeq) then KeyResult(None, [])
    else
      var Ctx(body, _, fragSize) := c.value;
      var fits := |body| + |p.payload| <= max;
      if p.eom then
        KeyResult(None, if Size(p) <= fragSize && fits then [Whole(p, body + p.payload)] else [])
      else
        KeyResult(if Size(p) == fragSize && fits then Some(Ctx(body + p.payload, p.seqNo, fragSize)) else None, [])
  }

  function KeyRun(max: nat, c: Option<Ctx>, ps: seq<Packet>): KeyResult {
    if ps == [] then KeyResult(c, []) else
      var r := KeyRun(max, c, ps[..|ps| - 1]);
      var s := KeyStep(max, r.ctx, ps[|ps| - 1]);
      KeyResult(s.ctx, r.out + s.out)
  }

  lemma KeyRunSnoc(max: nat, c: Option<Ctx>, ps: seq<Packet>, p: Packet)
    ensures var r := KeyRun(max, c, ps);
            var s := KeyStep(max, r.ctx, p);
            KeyRun(max, c, ps + [p]) == KeyResult(s.ctx, r.out + s.out)
  {
  }

  lemma KeyRunQuiet(max: nat, c: Option<Ctx>, ps: seq<Packet>, p: Packet)
    requires KeyRun(max, c, ps).out == []
    ensures KeyRun(max, c, ps + [p]) == KeyStep(max, KeyRun(max, c, ps).ctx, p)
  {
  }

  predicate KeyRunsMeet(max: nat, c: Option<Ctx>, a: seq<Packet>, b: seq<Packet>) {
    var r := KeyRun(max, c, a);
    var s := KeyRun(max, r.ctx, b);
    KeyRun(max, c, a + b) == KeyResult(s.ctx, r.out + s.out)
  }

  lemma KeyRunsMeetSnoc(max: nat, c: Option<Ctx>, a: seq<Packet>, b: seq<Packet>, p: Packet)
    requires KeyRunsMeet(max, c, a, b)
    ensures KeyRunsMeet(max, c, a, b + [p])
  {
    var r := KeyRun(max, c, a);
    var s := KeyRun(max, r.ctx, b);
    KeyRunSnoc(max, c, a + b, p);
    KeyRunSnoc(max, r.ctx, b, p);
    Associative(a, b, [p]);
    Associative(r.out, s.out, KeyStep(max, s.ctx, p).out);
  }

  lemma {:induction false} KeyRunAppend(max: nat, c: Option<Ctx>, a: seq<Packet>, b: seq<Packet>)
    ensures KeyRunsMeet(max, c, a, b)
  {
    if b == [] {
      assert a + b == a;
    } else {
      KeyRunAppend(max, c, a, b[..|b| - 1]);
      KeyRunsMeetSnoc(max, c, a, b[..|b| - 1], b[|b| - 1]);
      assert b[..|b| - 1] + [b[|b| - 1]] == b;
    }
  }

  // ---------------------------------------------------------------------------------------
  // The context table
  // ---------------------------------------------------------------------------------------

  datatype Entry = Entry(key: Key, ctx: Ctx)

  /** The `msg_ctxs` array; None is an entry whose `buf` is NULL. */
  type Slots = seq<Option<Entry>>

  datatype TableResult = TableResult(slots: Slots, out: seq<Message>)

  predicate Holds(e: Option<Entry>, k: Key) {
    e.Some? && e.value.key == k
  }

  /** mctp_msg_ctx_lookup, from slot `i` on; |slots| when there is none. */
  function Find(slots: Slots, k: Key, i: nat): (r: nat)
    requires i <= |slots|
    ensures i <= r <= |slots|
    ensures r < |slots| ==> Holds(slots[r], k)
    decreases |slots| - i
  {
    if i == |slots| || Holds(slots[i], k) then i else Find(slots, k, i + 1)
  }

  /** The slot mctp_msg_ctx_create takes; |slots| when all are busy. */
  function FirstFree(slots: Slots, i: nat): (r: nat)
    requires i <= |slots|
    ensures i <= r <= |slots|
    ensures r < |slots| ==> slots[r].None?
    decreases |slots| - i
  {
    if i == |slots| || slots[i].None? then i else FirstFree(slots, i + 1)
  }

  lemma {:induction false} FindIsFirst(slots: Slots, k: Key, i: nat)
    requires i <= |slots|
    ensures forall j :: i <= j < Find(slots, k, i) ==> !Holds(slots[j], k)
    decreases |slots| - i
  {
    if i < |slots| && !Holds(slots[i], k) { FindIsFirst(slots, k, i + 1); }
  }

  lemma {:induction false} FirstFreeIsFirst(slots: Slots, i: nat)
    requires i <= |slots|
    ensures forall j :: i <= j < FirstFree(slots, i) ==> slots[j].Some?
    decreases |slots| - i
  {
    if i < |slots| && slots[i].Some? { FirstFreeIsFirst(slots, i + 1); }
  }

  function Lookup(slots: Slots, k: Key): Option<Ctx> {
    var i := Find(slots, k, 0);
    if i < |slots| then Some(slots[i].value.ctx) else None
  }

  function Wrap(k: Key, c: Option<Ctx>): Option<Entry> {
    match c
    case None => None
    case Some(ctx) => Some(Entry(k, ctx))
  }

  /** At most one open context per key. */
  predicate Distinct(slots: Slots) {
    forall i, j :: 0 <= i < j < |slots| && slots[i].Some? && slots[j].Some? ==> slots[i].value.key != slots[j].value.key
  }

  /** The slot a context for `k` lives in, or would be created in; |slots| when there is none. */
  function Place(slots: Slots, k: Key): (i: nat)
    ensures i <= |slots|
    ensures i < |slots| ==> slots[i].None? || Holds(slots[i], k)
  {
    var i := Find(slots, k, 0);
    if i < |slots| then i else FirstFree(slots, 0)
  }

  predicate HasRoom(slots: Slots, k: Key) {
    Place(slots, k) < |slots|
  }

  /** A packet that opens a context and finds no slot for it. */
  predicate Exhausted(slots: Slots, p: Packet) {
    p.som && !p.eom && !HasRoom(slots, KeyOf(p))
  }

  /** mctp_bus_rx after the filters, on the table. */
  function TableStep(max: nat, slots: Slots, p: Packet): (r: TableResult)
    ensures |r.slots| == |slots|
  {
    var k := KeyOf(p);
    var i := Place(slots, k);
    if Single(p) then TableResult(slots, [Whole(p, p.payload)])
    else if i == |slots| || (slots[i].None? && !p.som) then TableResult(slots, [])
    else
      var r := KeyStep(max, if slots[i].Some? then Some(slots[i].value.ctx) else None, p);
      TableResult(slots[i := Wrap(k, r.ctx)], r.out)
  }

  function TableRun(max: nat, slots: Slots, ps: seq<Packet>): (r: TableResult)
    ensures |r.slots| == |slots|
  {
    if ps == [] then TableResult(slots, []) else
      var r := TableRun(max, slots, ps[..|ps| - 1]);
      var s := TableStep(max, r.slots, ps[|ps| - 1]);
      TableResult(s.slots, r.out + s.out)
  }

  lemma RunSnoc(max: nat, slots: Slots, ps: seq<Packet>, p: Packet)
    ensures var r := TableRun(max, slots, ps);
            var s := TableStep(max, r.slots, p);
            TableRun(max, slots, ps + [p]) == TableResult(s.slots, r.out + s.out)
  {
  }

  /** Runs compose. */
  predicate Composes(max: nat, slots: Slots, a: seq<Packet>, b: seq<Packet>) {
    var r := TableRun(max, slots, a);
    var s := TableRun(max, r.slots, b);
    TableRun(max, slots, a + b) == TableResult(s.slots, r.out + s.out)
  }

  lemma ComposesSnoc(max: nat, slots: Slots, a: seq<Packet>, b: seq<Packet>, p: Packet)
    requires Composes(max, slots, a, b)
    ensures Composes(max, slots, a, b + [p])
  {
    var r := TableRun(max, slots, a);
    RunSnoc(max, slots, a + b, p);
    RunSnoc(max, r.slots, b, p);
    assert (a + b) + [p] == a + (b + [p]);
    Associative(r.out, TableRun(max, r.slots, b).out, TableStep(max, TableRun(max, r.slots, b).slots, p).out);
  }

  lemma {:induction false} RunAppend(max: nat, slots: Slots, a: seq<Packet>, b: seq<Packet>)
    ensures Composes(max, slots, a, b)
  {
    if b == [] {
      assert a + b == a;
    } else {
      RunAppend(max, slots, a, b[..|b| - 1]);
      ComposesSnoc(max, slots, a, b[..|b| - 1], b[|b| - 1]);
      assert b[..|b| - 1] + [b[|b| - 1]] == b;
    }
  }

  // ---------------------------------------------------------------------------------------
  // The table is one automaton per key
  // ---------------------------------------------------------------------------------------

  lemma LookupAt(slots: Slots, k: Key, i: nat)
    requires Distinct(slots) && i < |slots| && Holds(slots[i], k)
    ensures Find(slots, k, 0) == i && Lookup(slots, k) == Some(slots[i].value.ctx)
  {
    FindIsFirst(slots, k, 0);
  }

  lemma LookupNone(slots: Slots, k: Key)
    requires forall i :: 0 <= i < |slots| ==> !Holds(slots[i], k)
    ensures Lookup(slots, k) == None
  {
  }

  lemma UpdateOther(slots: Slots, i: nat, e: Option<Entry>, k: Key)
    requires Distinct(slots) && i < |slots|
    requires !Holds(slots[i], k) && !Holds(e, k)
    requires Distinct(slots[i := e])
    ensures Lookup(slots[i := e], k) == Lookup(slots, k)
  {
    var j := Find(slots, k, 0);
    FindIsFirst(slots, k, 0);
    if j < |slots| {
      LookupAt(slots[i := e], k, j);
    } else {
      LookupNone(slots[i := e], k);
    }
  }

  lemma UpdateOwn(slots: Slots, k: Key, c: Option<Ctx>)
    requires Distinct(slots) && HasRoom(slots, k)
    ensures Distinct(slots[Place(slots, k) := Wrap(k, c)])
    ensures Lookup(slots[Place(slots, k) := Wrap(k, c)], k) == c
  {
    var i := Place(slots, k);
    var slots' := slots[i := Wrap(k, c)];
    FindIsFirst(slots, k, 0);
    assert forall j :: 0 <= j < |slots| && j != i ==> !Holds(slots[j], k);
    if c.Some? {
      LookupAt(slots', k, i);
    } else {
      LookupNone(slots', k);
    }
  }

  /** One packet steps the automaton of its own key and no other. */
  lemma StepRefines(max: nat, slots: Slots, p: Packet, k: Key)
    requires Distinct(slots)
    ensures var r := TableStep(max, slots, p);
            && Distinct(r.slots)
            && (k != KeyOf(p) ==> Lookup(r.slots, k) == Lookup(slots, k))
            && (k == KeyOf(p) && !Exhausted(slots, p) ==>
                  KeyResult(Lookup(r.slots, k), r.out) == KeyStep(max, Lookup(slots, k), p))
            && (Exhausted(slots, p) ==> r == TableResult(slots, []) && Lookup(slots, KeyOf(p)) == None)
  {
    var own := KeyOf(p);
    var i := Place(slots, own);
    var r := TableStep(max, slots, p);
    if !Single(p) && i < |slots| && (slots[i].Some? || p.som) {
      var c := if slots[i].Some? then Some(slots[i].value.ctx) else None;
      UpdateOwn(slots, own, KeyStep(max, c, p).ctx);
      assert c == Lookup(slots, own);
      if k != own {
        UpdateOther(slots, i, Wrap(own, KeyStep(max, c, p).ctx), k);
      }
    }
  }

  function PacketsFor(ps: seq<Packet>, k: Key): seq<Packet> {
    if ps == [] then [] else
      var p := ps[|ps| - 1];
      PacketsFor(ps[..|ps| - 1], k) + if KeyOf(p) == k then [p] else []
  }

  function MessagesFor(ms: seq<Message>, k: Key): seq<Message> {
    if ms == [] then [] else
      var m := ms[|ms| - 1];
      MessagesFor(ms[..|ms| - 1], k) + if KeyOfMessage(m) == k then [m] else []
  }

  /** No packet of the run opens a context while all slots are busy. */
  predicate NeverFull(max: nat, slots: Slots, ps: seq<Packet>) {
    ps != [] ==>
      && NeverFull(max, slots, ps[..|ps| - 1])
      && !Exhausted(TableRun(max, slots, ps[..|ps| - 1]).slots, ps[|ps| - 1])
  }

  lemma MessagesForStep(ms: seq<Message>, out: seq<Message>, k: Key)
    requires |out| <= 1
    ensures MessagesFor(ms + out, k) == MessagesFor(ms, k) + if out == [] || KeyOfMessage(out[0]) == k then out else []
  {
    if |out| == 1 {
      assert (ms + out)[..|ms|] == ms;
    } else {
      assert ms + out == ms;
    }
  }

  /** Everything a packet delivers carries the packet's key. */
  lemma StepDelivers(max: nat, slots: Slots, p: Packet)
    ensures var out := TableStep(max, slots, p).out;
            |out| <= 1 && (|out| == 1 ==> KeyOfMessage(out[0]) == KeyOf(p))
  {
  }

  /** Non-interference: for each key, the table delivers what that key's automaton delivers on
      the packets of that key alone. */
  lemma {:induction false} NonInterference(max: nat, slots: Slots, ps: seq<Packet>, k: Key)
    requires Distinct(slots) && NeverFull(max, slots, ps)
    ensures var r := TableRun(max, slots, ps);
            && Distinct(r.slots)
            && KeyResult(Lookup(r.slots, k), MessagesFor(r.out, k))
               == KeyRun(max, Lookup(slots, k), PacketsFor(ps, k))
  {
    if ps == [] {
    } else {
      var ps', p := ps[..|ps| - 1], ps[|ps| - 1];
      NonInterference(max, slots, ps', k);
      var r := TableRun(max, slots, ps');
      StepRefines(max, r.slots, p, k);
      StepDelivers(max, r.slots, p);
      MessagesForStep(r.out, TableStep(max, r.slots, p).out, k);
      if KeyOf(p) == k {
        KeyRunSnoc(max, Lookup(slots, k), PacketsFor(ps', k), p);
      } else {
        assert PacketsFor(ps', k) + [] == PacketsFor(ps', k);
        assert MessagesFor(r.out, k) + [] == MessagesFor(r.out, k);
      }
    }
  }

  function Empty(n: nat): (slots: Slots)
    ensures |slots| == n && Distinct(slots)
  {
    seq(n, _ => None)
  }

  lemma EmptyLookup(n: nat, k: Key)
    ensures Lookup(Empty(n), k) == None
  {
  }

  /** Only the first slot is in use, if any, and it holds `k`. */
  predicate OnlyFirst(slots: Slots, k: Key) {
    forall i :: 0 <= i < |slots| && slots[i].Some? ==> i == 0 && Holds(slots[i], k)
  }

  lemma OnlyFirstPlace(slots: Slots, k: Key)
    requires |slots| > 0 && OnlyFirst(slots, k)
    ensures Place(slots, k) == 0
  {
    FindIsFirst(slots, k, 0);
  }

  lemma OnlyFirstStep(max: nat, slots: Slots, p: Packet)
    requires |slots| > 0 && OnlyFirst(slots, KeyOf(p))
    ensures !Exhausted(slots, p) && OnlyFirst(TableStep(max, slots, p).slots, KeyOf(p))
  {
    OnlyFirstPlace(slots, KeyOf(p));
  }

  /** On packets of one key, a table that starts empty never fills up. */
  lemma {:induction false} OneKeyNeverFull(max: nat, n: nat, ps: seq<Packet>, k: Key)
    requires n > 0 && forall p :: p in ps ==> KeyOf(p) == k
    ensures NeverFull(max, Empty(n), ps) && OnlyFirst(TableRun(max, Empty(n), ps).slots, k)
  {
    if ps == [] {
    } else {
      var ps', p := ps[..|ps| - 1], ps[|ps| - 1];
      assert p in ps;
      OneKeyNeverFull(max, n, ps', k);
      OnlyFirstStep(max, TableRun(max, Empty(n), ps').slots, p);
    }
  }

  lemma {:induction false} PacketsForKey(ps: seq<Packet>, k: Key)
    ensures forall p :: p in PacketsFor(ps, k) ==> KeyOf(p) == k
    ensures PacketsFor(PacketsFor(ps, k), k) == PacketsFor(ps, k)
  {
    if ps == [] {
    } else {
      PacketsForKey(ps[..|ps| - 1], k);
      var init, p := PacketsFor(ps[..|ps| - 1], k), ps[|ps| - 1];
      if KeyOf(p) == k { assert (init + [p])[..|init|] == init; } else { assert init + [] == init; }
    }
  }

  lemma {:induction false} AllForKey(max: nat, slots: Slots, ps: seq<Packet>, k: Key)
    requires forall p :: p in ps ==> KeyOf(p) == k
    ensures MessagesFor(TableRun(max, slots, ps).out, k) == TableRun(max, slots, ps).out
  {
    if ps == [] {
    } else {
      var ps', p := ps[..|ps| - 1], ps[|ps| - 1];
      assert p in ps;
      AllForKey(max, slots, ps', k);
      var r := TableRun(max, slots, ps');
      StepDelivers(max, r.slots, p);
      MessagesForStep(r.out, TableStep(max, r.slots, p).out, k);
    }
  }

  /** Non-interference between runs: the deliveries for a key are those of the same run with all
      other traffic removed. */
  lemma FilteredRun(max: nat, n: nat, ps: seq<Packet>, k: Key)
    requires n > 0 && NeverFull(max, Empty(n), ps)
    ensures MessagesFor(TableRun(max, Empty(n), ps).out, k) == TableRun(max, Empty(n), PacketsFor(ps, k)).out
  {
    PacketsForKey(ps, k);
    OneKeyNeverFull(max, n, PacketsFor(ps, k), k);
    NonInterference(max, Empty(n), ps, k);
    NonInterference(max, Empty(n), PacketsFor(ps, k), k);
    AllForKey(max, Empty(n), PacketsFor(ps, k), k);
  }
}
