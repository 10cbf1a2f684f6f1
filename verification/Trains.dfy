/** What reassembly accepts, said without contexts: a message is delivered when the recent
    packets of its key form a train. Sound for every run of arbitrary packets; exact when no
    packet found the table full. */
module Trains {
  import opened Basics
  import opened Packets
  import opened Fragmentation
  import opened Reassembly

  predicate Opens(p: Packet) {
    p.som && !p.eom
  }

  predicate Middle(p: Packet) {
    !p.som && !p.eom
  }

  predicate Closes(p: Packet) {
    !p.som && p.eom
  }

  /** A SOM packet and flagless packets of the same size, numbered consecutively modulo 4. */
  predicate OpenTrain(t: seq<Packet>) {
    && |t| >= 1 && Opens(t[0])
    && forall i :: 1 <= i < |t| ==>
         Middle(t[i]) && |t[i].payload| == |t[0].payload| && t[i].seqNo == Next(t[i - 1].seqNo)
  }

  /** An open train and the EOM packet that completes it, which may be shorter. */
  predicate CompleteTrain(t: seq<Packet>) {
    && |t| >= 2 && OpenTrain(t[..|t| - 1])
    && var p := t[|t| - 1];
       Closes(p) && |p.payload| <= |t[0].payload| && p.seqNo == Next(t[|t| - 2].seqNo)
  }

  function CtxOf(t: seq<Packet>): Ctx
    requires |t| >= 1
  {
    Ctx(Bytes(t), t[|t| - 1].seqNo, Size(t[0]))
  }

  // ---------------------------------------------------------------------------------------
  // The context is determined by the packets since the last SOM
  // ---------------------------------------------------------------------------------------

  /** The last packets of `h`, from `s` on, are an open train that fits. */
  predicate TrainFrom(max: nat, h: seq<Packet>, s: nat) {
    s < |h| && OpenTrain(h[s..]) && |Bytes(h[s..])| <= max
  }

  /** An open context holds exactly the train the history ends with. */
  ghost predicate Justified(max: nat, c: Option<Ctx>, h: seq<Packet>) {
    c.Some? ==> exists s: nat :: TrainFrom(max, h, s) && c.value == CtxOf(h[s..])
  }

  /** If the history ends with a train, the context is open and holds it. */
  ghost predicate Forced(max: nat, c: Option<Ctx>, h: seq<Packet>) {
    forall s: nat :: TrainFrom(max, h, s) ==> c == Some(CtxOf(h[s..]))
  }

  lemma BytesOne(p: Packet)
    ensures Bytes([p]) == p.payload
  {
  }

  lemma OpenTrainSnoc(t: seq<Packet>, p: Packet)
    requires |t| >= 1
    ensures OpenTrain(t + [p]) <==>
              OpenTrain(t) && Middle(p) && |p.payload| == |t[0].payload| && p.seqNo == Next(t[|t| - 1].seqNo)
  {
    var u := t + [p];
    if OpenTrain(u) {
      assert u[|t|] == p && u[|t| - 1] == t[|t| - 1];
      forall i | 1 <= i < |t|
        ensures Middle(t[i]) && |t[i].payload| == |t[0].payload| && t[i].seqNo == Next(t[i - 1].seqNo)
      {
        assert u[i] == t[i] && u[i - 1] == t[i - 1];
      }
    }
  }

  /** Extending the history by `p` extends a train of it exactly when the automaton says so. */
  lemma TrainExtends(max: nat, h: seq<Packet>, p: Packet, s: nat)
    requires s < |h|
    ensures TrainFrom(max, h + [p], s) ==> TrainFrom(max, h, s)
    ensures TrainFrom(max, h, s) ==>
              (TrainFrom(max, h + [p], s) <==> Middle(p) && KeyStep(max, Some(CtxOf(h[s..])), p).ctx.Some?)
    ensures TrainFrom(max, h + [p], s) ==>
              KeyStep(max, Some(CtxOf(h[s..])), p).ctx == Some(CtxOf((h + [p])[s..]))
  {
    assert (h + [p])[s..] == h[s..] + [p];
    OpenTrainSnoc(h[s..], p);
    BytesSnoc(h[s..], p);
  }

  lemma JustifiedStep(max: nat, c: Option<Ctx>, h: seq<Packet>, p: Packet)
    requires !Single(p) && Justified(max, c, h)
    ensures Justified(max, KeyStep(max, c, p).ctx, h + [p])
  {
    var c' := KeyStep(max, c, p).ctx;
    if c'.Some? {
      if Opens(p) {
        assert (h + [p])[|h|..] == [p];
        BytesOne(p);
        assert TrainFrom(max, h + [p], |h|);
      } else {
        var s: nat :| TrainFrom(max, h, s) && c.value == CtxOf(h[s..]);
        TrainExtends(max, h, p, s);
        assert TrainFrom(max, h + [p], s);
      }
    }
  }

  lemma ForcedStep(max: nat, c: Option<Ctx>, h: seq<Packet>, p: Packet)
    requires !Single(p) && Forced(max, c, h)
    ensures Forced(max, KeyStep(max, c, p).ctx, h + [p])
  {
    forall s: nat | TrainFrom(max, h + [p], s) ensures KeyStep(max, c, p).ctx == Some(CtxOf((h + [p])[s..])) {
      if s == |h| {
        assert (h + [p])[s..] == [p];
        BytesOne(p);
      } else {
        TrainExtends(max, h, p, s);
      }
    }
  }

  /** What a closing packet delivers, in terms of the train it completes. */
  lemma ClosingStep(max: nat, h: seq<Packet>, p: Packet, s: nat)
    requires Closes(p) && s < |h|
    ensures TrainFrom(max, h, s) ==>
              KeyStep(max, Some(CtxOf(h[s..])), p).out ==
              if CompleteTrain((h + [p])[s..]) && |Bytes((h + [p])[s..])| <= max
              then [Whole(p, Bytes((h + [p])[s..]))] else []
    ensures CompleteTrain((h + [p])[s..]) && |Bytes((h + [p])[s..])| <= max ==> TrainFrom(max, h, s)
  {
    var t := (h + [p])[s..];
    assert t == h[s..] + [p] && t[..|t| - 1] == h[s..];
    BytesSnoc(h[s..], p);
  }

  // ---------------------------------------------------------------------------------------
  // Runs
  // ---------------------------------------------------------------------------------------

  /** The packets of a key that take part in reassembly. */
  function Relevant(ps: seq<Packet>, k: Key): seq<Packet> {
    if ps == [] then [] else
      var p := ps[|ps| - 1];
      Relevant(ps[..|ps| - 1], k) + if KeyOf(p) == k && !Single(p) then [p] else []
  }

  /** These are exactly the packets of several-packet messages with the key's source, destination
      and tag. */
  lemma {:induction false} RelevantExactly(ps: seq<Packet>, src: Byte, dest: Byte, tag: Tag, q: Packet)
    ensures q in Relevant(ps, Key(src, dest, tag)) <==>
              q in ps && !(q.som && q.eom) && q.src == src && q.dest == dest && q.tag == tag
  {
    if ps == [] {
    } else {
      var init, p := ps[..|ps| - 1], ps[|ps| - 1];
      RelevantExactly(init, src, dest, tag, q);
      assert ps == init + [p];
    }
  }

  /** In any run from an empty table, whether or not the table filled up, every open context
      is justified by the packets of its key. */
  lemma {:induction false} TableJustified(max: nat, n: nat, ps: seq<Packet>, k: Key)
    ensures Distinct(TableRun(max, Empty(n), ps).slots)
    ensures Justified(max, Lookup(TableRun(max, Empty(n), ps).slots, k), Relevant(ps, k))
  {
    if ps == [] {
      EmptyLookup(n, k);
    } else {
      var ps', p := ps[..|ps| - 1], ps[|ps| - 1];
      TableJustified(max, n, ps', k);
      var slots := TableRun(max, Empty(n), ps').slots;
      StepRefines(max, slots, p, k);
      if KeyOf(p) == k && !Single(p) {
        JustifiedStep(max, Lookup(slots, k), Relevant(ps', k), p);
      } else {
        assert Relevant(ps', k) + [] == Relevant(ps', k);
      }
    }
  }

  lemma {:induction false} TableForced(max: nat, n: nat, ps: seq<Packet>, k: Key)
    requires NeverFull(max, Empty(n), ps)
    ensures Forced(max, Lookup(TableRun(max, Empty(n), ps).slots, k), Relevant(ps, k))
  {
    if ps == [] {
    } else {
      var ps', p := ps[..|ps| - 1], ps[|ps| - 1];
      TableForced(max, n, ps', k);
      TableJustified(max, n, ps', k);
      var slots := TableRun(max, Empty(n), ps').slots;
      StepRefines(max, slots, p, k);
      if KeyOf(p) == k && !Single(p) {
        ForcedStep(max, Lookup(slots, k), Relevant(ps', k), p);
      } else {
        assert Relevant(ps', k) + [] == Relevant(ps', k);
      }
    }
  }

  /** In every reachable state each open context is within the limit. */
  lemma {:induction false} ContextsFit(max: nat, n: nat, ps: seq<Packet>, i: nat)
    requires i < n && TableRun(max, Empty(n), ps).slots[i].Some?
    ensures |TableRun(max, Empty(n), ps).slots[i].value.ctx.body| <= max
  {
    var slots := TableRun(max, Empty(n), ps).slots;
    var k := slots[i].value.key;
    TableJustified(max, n, ps, k);
    LookupAt(slots, k, i);
  }

  // What the automaton of a key delivers, as a function of its packets alone

  /** Where the last SOM packet of `h` is, or |h|. */
  function LastOpening(h: seq<Packet>): (s: nat)
    ensures s <= |h|
  {
    if h == [] then 0 else
      var s := LastOpening(h[..|h| - 1]);
      if Opens(h[|h| - 1]) then |h| - 1 else if s < |h| - 1 then s else |h|
  }

  lemma {:induction false} LastOpeningIs(h: seq<Packet>, s: nat)
    requires s < |h| && Opens(h[s]) && forall i :: s < i < |h| ==> !Opens(h[i])
    ensures LastOpening(h) == s
  {
    if s < |h| - 1 { LastOpeningIs(h[..|h| - 1], s); }
  }

  lemma TrainOpening(max: nat, h: seq<Packet>, s: nat)
    requires TrainFrom(max, h, s)
    ensures LastOpening(h) == s
  {
    forall i | s < i < |h| ensures !Opens(h[i]) {
      assert h[i] == h[s..][i - s];
    }
    LastOpeningIs(h, s);
  }

  /** The packets that take part in reassembly. */
  function Parts(h: seq<Packet>): seq<Packet> {
    if h == [] then [] else
      Parts(h[..|h| - 1]) + if Single(h[|h| - 1]) then [] else [h[|h| - 1]]
  }

  /** What `t`, ending in a packet just arrived, delivers. */
  function Yield(max: nat, t: seq<Packet>): seq<Message> {
    if CompleteTrain(t) && |Bytes(t)| <= max then [Whole(t[|t| - 1], Bytes(t))] else []
  }

  /** For each packet in turn, its payload if it is a whole message, and otherwise the packets
      since the last SOM packet before it, if they are a train that fits. */
  function TrainsIn(max: nat, h: seq<Packet>): seq<Message> {
    if h == [] then [] else
      var init, p := Parts(h[..|h| - 1]), h[|h| - 1];
      TrainsIn(max, h[..|h| - 1]) +
      if Single(p) then [Whole(p, p.payload)] else Yield(max, (init + [p])[LastOpening(init)..])
  }

  lemma ClosingYields(max: nat, h: seq<Packet>, p: Packet, s: nat)
    requires Closes(p) && s < |h|
    ensures TrainFrom(max, h, s) ==>
              KeyStep(max, Some(CtxOf(h[s..])), p).out == Yield(max, (h + [p])[s..])
    ensures Yield(max, (h + [p])[s..]) != [] ==> TrainFrom(max, h, s)
  {
    ClosingStep(max, h, p, s);
  }

  lemma YieldCloses(max: nat, h: seq<Packet>, p: Packet, s: nat)
    requires s <= |h| && Yield(max, (h + [p])[s..]) != []
    ensures Closes(p) && s < |h|
  {
    assert (h + [p])[s..][|h| - s] == p;
  }

  lemma StepYields(max: nat, c: Option<Ctx>, h: seq<Packet>, p: Packet)
    requires !Single(p) && Justified(max, c, h) && Forced(max, c, h)
    ensures KeyStep(max, c, p).out == Yield(max, (h + [p])[LastOpening(h)..])
  {
    var s := LastOpening(h);
    if Closes(p) && c.Some? {
      var s': nat :| TrainFrom(max, h, s') && c.value == CtxOf(h[s'..]);
      TrainOpening(max, h, s');
      ClosingYields(max, h, p, s);
    } else if Yield(max, (h + [p])[s..]) != [] {
      YieldCloses(max, h, p, s);
      ClosingYields(max, h, p, s);
      assert false;
    }
  }

  /** The automaton delivers exactly the whole messages and the trains that fit, whatever the
      packets of its key are. */
  lemma {:induction false} KeyRunIsTrains(max: nat, h: seq<Packet>)
    ensures KeyRun(max, None, h).out == TrainsIn(max, h)
    ensures Justified(max, KeyRun(max, None, h).ctx, Parts(h)) && Forced(max, KeyRun(max, None, h).ctx, Parts(h))
  {
    if h == [] {
    } else {
      var init, p := h[..|h| - 1], h[|h| - 1];
      KeyRunIsTrains(max, init);
      var c := KeyRun(max, None, init).ctx;
      if Single(p) {
        assert Parts(init) + [] == Parts(init);
      } else {
        StepYields(max, c, Parts(init), p);
        JustifiedStep(max, c, Parts(init), p);
        ForcedStep(max, c, Parts(init), p);
      }
    }
  }

  /** `m` is what the train ending in `p`, from position `s` of the key's packets on, spells out. */
  predicate SpelledBy(max: nat, h: seq<Packet>, s: nat, m: Message) {
    && s < |h|
    && CompleteTrain(h[s..])
    && |Bytes(h[s..])| <= max
    && m == Whole(h[|h| - 1], Bytes(h[s..]))
  }

  lemma OneSender(ps: seq<Packet>, p: Packet, m: Message, body: seq<Byte>)
    requires m == Whole(p, body)
    ensures forall q :: q in Relevant(ps, KeyOf(p)) + [p] ==> q.src == m.src && q.dest == m.dest && q.tag == m.tag
  {
    forall q | q in Relevant(ps, KeyOf(p)) ensures q.src == m.src && q.dest == m.dest && q.tag == m.tag {
      RelevantExactly(ps, p.src, p.dest, p.tag, q);
    }
  }

  lemma ClosingSpells(max: nat, c: Option<Ctx>, h: seq<Packet>, p: Packet, m: Message)
    requires !Single(p) && Justified(max, c, h) && m in KeyStep(max, c, p).out
    ensures m == Whole(p, m.body)
    ensures exists s: nat :: SpelledBy(max, h + [p], s, m)
  {
    var s: nat :| TrainFrom(max, h, s) && c.value == CtxOf(h[s..]);
    ClosingStep(max, h, p, s);
    assert SpelledBy(max, h + [p], s, m);
  }

  /** Reassembly soundness: after any run of arbitrary packets, whatever a further packet
      delivers as a multi-packet message is spelled out by consecutive packets of its key. */
  lemma DeliverySound(max: nat, n: nat, ps: seq<Packet>, p: Packet, m: Message)
    requires !Single(p) && m in TableStep(max, TableRun(max, Empty(n), ps).slots, p).out
    ensures exists s: nat :: SpelledBy(max, Relevant(ps, KeyOf(p)) + [p], s, m)
    ensures forall q :: q in Relevant(ps, KeyOf(p)) + [p] ==> q.src == m.src && q.dest == m.dest && q.tag == m.tag
  {
    var slots := TableRun(max, Empty(n), ps).slots;
    TableJustified(max, n, ps, KeyOf(p));
    StepRefines(max, slots, p, KeyOf(p));
    ClosingSpells(max, Lookup(slots, KeyOf(p)), Relevant(ps, KeyOf(p)), p, m);
    OneSender(ps, p, m, m.body);
  }

  /** Reassembly completeness: if no packet found the table full, every message spelled out by
      the packets of its key is delivered by the packet that completes it. */
  lemma DeliveryComplete(max: nat, n: nat, ps: seq<Packet>, p: Packet, s: nat, m: Message)
    requires NeverFull(max, Empty(n), ps)
    requires SpelledBy(max, Relevant(ps, KeyOf(p)) + [p], s, m)
    ensures TableStep(max, TableRun(max, Empty(n), ps).slots, p).out == [m]
  {
    var k, h := KeyOf(p), Relevant(ps, KeyOf(p));
    var slots := TableRun(max, Empty(n), ps).slots;
    TableJustified(max, n, ps, k);
    TableForced(max, n, ps, k);
    StepRefines(max, slots, p, k);
    ClosingStep(max, h, p, s);
  }

  // ---------------------------------------------------------------------------------------
  // Bursts: one SOM packet, flagless packets, one EOM packet, with nothing known about sizes
  // and numbers
  // ---------------------------------------------------------------------------------------

  predicate OpenBurst(ps: seq<Packet>) {
    |ps| >= 1 && Opens(ps[0]) && forall i :: 1 <= i < |ps| ==> Middle(ps[i])
  }

  predicate Burst(ps: seq<Packet>) {
    |ps| >= 2 && OpenBurst(ps[..|ps| - 1]) && Closes(ps[|ps| - 1])
  }

  /** The context a train leaves. */
  function Opened(max: nat, t: seq<Packet>): Option<Ctx>
    requires |t| >= 1
  {
    if OpenTrain(t) && |Bytes(t)| <= max then Some(CtxOf(t)) else None
  }

  lemma TrainOpens(max: nat, c: Option<Ctx>, p: Packet)
    requires Opens(p)
    ensures KeyStep(max, c, p) == KeyResult(Opened(max, [p]), [])
  {
    BytesOne(p);
  }

  lemma TrainContinues(max: nat, t: seq<Packet>, p: Packet)
    requires |t| >= 1 && Middle(p)
    ensures KeyStep(max, Opened(max, t), p) == KeyResult(Opened(max, t + [p]), [])
  {
    OpenTrainSnoc(t, p);
    BytesSnoc(t, p);
  }

  lemma TrainCloses(max: nat, t: seq<Packet>, p: Packet)
    requires |t| >= 1 && Closes(p)
    ensures KeyStep(max, Opened(max, t), p) == KeyResult(None, Yield(max, t + [p]))
  {
    assert (t + [p])[..|t|] == t;
    BytesSnoc(t, p);
  }

  /** After a SOM packet the earlier context is forgotten; the burst leaves a context exactly
      when it is a train that fits, and delivers nothing. */
  lemma {:induction false} OpenBurstOutcome(max: nat, c: Option<Ctx>, ps: seq<Packet>)
    requires OpenBurst(ps)
    ensures KeyRun(max, c, ps) == KeyResult(Opened(max, ps), [])
  {
    var ps', p := ps[..|ps| - 1], ps[|ps| - 1];
    assert ps == ps' + [p];
    if |ps| == 1 {
      TrainOpens(max, c, p);
    } else {
      OpenBurstOutcome(max, c, ps');
      KeyRunQuiet(max, c, ps', p);
      TrainContinues(max, ps', p);
    }
  }

  lemma BurstCloses(max: nat, c: Option<Ctx>, ps: seq<Packet>, p: Packet)
    requires OpenBurst(ps) && Closes(p)
    ensures KeyRun(max, c, ps + [p]) == KeyResult(None, Yield(max, ps + [p]))
  {
    OpenBurstOutcome(max, c, ps);
    KeyRunQuiet(max, c, ps, p);
    TrainCloses(max, ps, p);
  }

  /** A whole burst is delivered if and only if it is a train that fits. */
  lemma BurstOutcome(max: nat, c: Option<Ctx>, ps: seq<Packet>)
    requires Burst(ps)
    ensures KeyRun(max, c, ps) == KeyResult(None, Yield(max, ps))
  {
    BurstCloses(max, c, ps[..|ps| - 1], ps[|ps| - 1]);
    assert ps[..|ps| - 1] + [ps[|ps| - 1]] == ps;
  }
}
