/** Whole streams over a channel that loses packets, but never four in a row: every message
    whose packets all arrive is delivered, and nothing else is. */
module LossSafety {
  import opened Basics
  import opened Packets
  import opened Fragmentation
  import opened Reassembly
  import opened Trains
  import opened Transmit
  import opened RoundTrip
  import opened Loss

  /** The packets that arrive; `mask` says which. */
  function Survivors(ps: seq<Packet>, mask: seq<bool>): seq<Packet>
    requires |mask| == |ps|
  {
    if ps == [] then [] else
      Survivors(ps[..|ps| - 1], mask[..|ps| - 1]) + if mask[|ps| - 1] then [ps[|ps| - 1]] else []
  }

  lemma SurvivorsSnoc(ps: seq<Packet>, mask: seq<bool>, p: Packet, b: bool)
    requires |mask| == |ps|
    ensures Survivors(ps + [p], mask + [b]) == Survivors(ps, mask) + if b then [p] else []
  {
  }

  lemma {:induction false} SurvivorsAppend(a: seq<Packet>, b: seq<Packet>, ma: seq<bool>, mb: seq<bool>)
    requires |ma| == |a| && |mb| == |b|
    ensures Survivors(a + b, ma + mb) == Survivors(a, ma) + Survivors(b, mb)
  {
    if b == [] {
      assert a + b == a && ma + mb == ma;
    } else {
      var b', mb' := b[..|b| - 1], mb[..|b| - 1];
      SurvivorsAppend(a, b', ma, mb');
      assert a + b == (a + b') + [b[|b| - 1]] && ma + mb == (ma + mb') + [mb[|b| - 1]];
      SurvivorsSnoc(a + b', ma + mb', b[|b| - 1], mb[|b| - 1]);
    }
  }

  /** Never four losses in a row. */
  predicate NoLongGap(mask: seq<bool>) {
    forall i :: 0 <= i <= |mask| - 4 ==> mask[i] || mask[i + 1] || mask[i + 2] || mask[i + 3]
  }

  /** How many packets were lost since the last arrival. */
  function Trailing(mask: seq<bool>): nat {
    if mask == [] || mask[|mask| - 1] then 0 else Trailing(mask[..|mask| - 1]) + 1
  }

  lemma TrailingSnoc(mask: seq<bool>, b: bool)
    ensures Trailing(mask + [b]) == if b then 0 else Trailing(mask) + 1
  {
  }

  lemma NoLongGapPrefix(mask: seq<bool>, b: bool)
    requires NoLongGap(mask + [b])
    ensures NoLongGap(mask)
  {
    forall i | 0 <= i <= |mask| - 4 ensures mask[i] || mask[i + 1] || mask[i + 2] || mask[i + 3] {
      var m := mask + [b];
      assert m[i] == mask[i] && m[i + 1] == mask[i + 1] && m[i + 2] == mask[i + 2] && m[i + 3] == mask[i + 3];
    }
  }

  lemma {:induction false} TrailingCounts(mask: seq<bool>)
    ensures Trailing(mask) <= |mask|
    ensures forall i :: |mask| - Trailing(mask) <= i < |mask| ==> !mask[i]
  {
    if mask != [] && !mask[|mask| - 1] { TrailingCounts(mask[..|mask| - 1]); }
  }

  lemma TrailingBound(mask: seq<bool>)
    requires NoLongGap(mask)
    ensures Trailing(mask) <= 3
  {
    TrailingCounts(mask);
    var i := |mask| - 4;
    assert 0 <= i ==> mask[i] || mask[i + 1] || mask[i + 2] || mask[i + 3];
  }

  predicate AllTrue(mask: seq<bool>) {
    forall i :: 0 <= i < |mask| ==> mask[i]
  }

  /** A context that can no longer be completed: one to three packets were lost since its last
      one, and `s` is the number of the next packet. */
  predicate Stale(c: Option<Ctx>, lost: nat, s: SeqNo) {
    c.None? || (1 <= lost <= 3 && s == Advance(c.value.lastSeq, lost + 1))
  }

  /** Where the receiver is after the packets `ps`, the first of a message, when `mask` says
      which arrived and `before` which of the earlier packets did. */
  predicate Standing(c: Option<Ctx>, ps: seq<Packet>, mask: seq<bool>, before: seq<bool>, s: SeqNo) {
    if ps != [] && AllTrue(mask) then c == Some(CtxOf(ps)) else Stale(c, Trailing(before + mask), s)
  }

  lemma StaleLoss(c: Option<Ctx>, mask: seq<bool>, s: SeqNo)
    requires Stale(c, Trailing(mask), s) && NoLongGap(mask + [false])
    ensures Stale(c, Trailing(mask + [false]), Next(s))
  {
    TrailingSnoc(mask, false);
    TrailingBound(mask + [false]);
  }

  /** A stale context does not survive the next packet without SOM. */
  lemma StaleArrival(max: nat, c: Option<Ctx>, lost: nat, p: Packet)
    requires Stale(c, lost, p.seqNo) && !p.som
    ensures KeyStep(max, c, p) == KeyResult(None, [])
  {
    if c.Some? { WrapsTogether(c.value.lastSeq, 0, lost + 1); }
  }

  /** The next packet of a message, when all before it arrived. */
  lemma InOrderArrival(max: nat, link: Link, m: Message, s0: SeqNo, c: Option<Ctx>, i: nat)
    requires ValidMtu(link) && Count(link, |m.body|) >= 2 && |m.body| <= max
    requires i < Count(link, |m.body|)
    requires i > 0 ==> c == Some(CtxOf(Fragments(link, m, s0)[..i]))
    ensures var ps := Fragments(link, m, s0);
            KeyStep(max, c, ps[i]) ==
            if i < |ps| - 1 then KeyResult(Some(CtxOf(ps[..i + 1])), []) else KeyResult(None, [m])
  {
    var ps := Fragments(link, m, s0);
    FragmentsAreTrain(link, m, s0);
    FragmentsCarryBody(link, m, s0);
    PrefixTrain(ps, i);
    PrefixBytes(ps, i);
    TrainArrival(max, ps, c, i);
  }

  lemma PrefixBytes(ps: seq<Packet>, i: nat)
    requires i < |ps|
    ensures |Bytes(ps[..i])| <= |Bytes(ps[..i + 1])| <= |Bytes(ps)|
  {
    assert ps[..i + 1] == ps[..i] + [ps[i]];
    BytesSnoc(ps[..i], ps[i]);
    assert ps[..i + 1] + ps[i + 1..] == ps;
    BytesAppend(ps[..i + 1], ps[i + 1..]);
  }

  /** The packets of a train that fits, one by one. */
  lemma TrainArrival(max: nat, ps: seq<Packet>, c: Option<Ctx>, i: nat)
    requires CompleteTrain(ps) && i < |ps|
    requires |Bytes(ps)| <= max && |Bytes(ps[..i])| <= max && |Bytes(ps[..i + 1])| <= max
    requires i > 0 ==> c == Some(CtxOf(ps[..i])) && OpenTrain(ps[..i])
    requires i + 1 < |ps| ==> OpenTrain(ps[..i + 1])
    ensures KeyStep(max, c, ps[i]) ==
            if i < |ps| - 1 then KeyResult(Some(CtxOf(ps[..i + 1])), []) else KeyResult(None, [Whole(ps[i], Bytes(ps))])
  {
    if i == 0 {
      assert ps[..1] == [ps[0]];
      BytesOne(ps[0]);
    } else {
      assert ps[..i][0..] == ps[..i] && ps[..i + 1][0..] == ps[..i + 1] && ps[..i + 1] == ps[..i] + [ps[i]];
      if i < |ps| - 1 {
        TrainExtends(max, ps[..i], ps[i], 0);
      } else {
        assert ps[..i + 1] == ps;
        ClosingStep(max, ps[..i], ps[i], 0);
      }
    }
  }

  lemma PrefixTrain(ps: seq<Packet>, i: nat)
    requires CompleteTrain(ps) && i < |ps|
    ensures i > 0 ==> OpenTrain(ps[..i])
    ensures i + 1 < |ps| ==> OpenTrain(ps[..i + 1])
  {
  }

  // ---------------------------------------------------------------------------------------
  // One message of the stream
  // ---------------------------------------------------------------------------------------

  /** What the receiver has and has said after the packets of `m` that `mask` covers. */
  predicate Progressed(link: Link, m: Message, s0: SeqNo, before: seq<bool>, mask: seq<bool>, r: KeyResult)
    requires ValidMtu(link) && |mask| <= Count(link, |m.body|)
  {
    var ps := Fragments(link, m, s0);
    if |mask| < |ps| then r.out == [] && Standing(r.ctx, ps[..|mask|], mask, before, Advance(s0, |mask|))
    else r.out == (if AllTrue(mask) then [m] else []) && Stale(r.ctx, Trailing(before + mask), Advance(s0, |mask|))
  }

  lemma AllTrueSnoc(mask: seq<bool>, b: bool)
    ensures AllTrue(mask + [b]) <==> AllTrue(mask) && b
  {
    var m := mask + [b];
    assert m[|mask|] == b;
    assert forall i :: 0 <= i < |mask| ==> m[i] == mask[i];
  }

  lemma PacketArrives(max: nat, link: Link, m: Message, s0: SeqNo, before: seq<bool>, mask: seq<bool>, c: Option<Ctx>)
    requires ValidMtu(link) && Count(link, |m.body|) >= 2 && |m.body| <= max
    requires |mask| < Count(link, |m.body|)
    requires Standing(c, Fragments(link, m, s0)[..|mask|], mask, before, Advance(s0, |mask|))
    ensures Progressed(link, m, s0, before, mask + [true], KeyStep(max, c, Fragments(link, m, s0)[|mask|]))
  {
    var i := |mask|;
    AllTrueSnoc(mask, true);
    if AllTrue(mask) {
      InOrderArrival(max, link, m, s0, c, i);
    } else {
      StaleArrival(max, c, Trailing(before + mask), Fragments(link, m, s0)[i]);
    }
  }

  lemma PacketLost(link: Link, m: Message, s0: SeqNo, before: seq<bool>, mask: seq<bool>, c: Option<Ctx>)
    requires ValidMtu(link) && |mask| < Count(link, |m.body|)
    requires NoLongGap(before + mask + [false])
    requires Standing(c, Fragments(link, m, s0)[..|mask|], mask, before, Advance(s0, |mask|))
    ensures Stale(c, Trailing(before + mask + [false]), Advance(s0, |mask| + 1))
  {
    var i := |mask|;
    if i > 0 && AllTrue(mask) {
      TrailingSnoc(before + mask, false);
      assert (before + mask)[|before + mask| - 1] == mask[i - 1];
      assert c.value.lastSeq == Advance(s0, i - 1);
      AdvanceAdd(s0, i - 1, 2);
    } else {
      StaleLoss(c, before + mask, Advance(s0, i));
    }
  }

  /** One packet of the message, arrived or lost, takes the receiver from `r` to `r'`. */
  lemma PacketSteps(max: nat, link: Link, m: Message, s0: SeqNo, before: seq<bool>, mask: seq<bool>, b: bool,
                    r: KeyResult, r': KeyResult)
    requires ValidMtu(link) && Count(link, |m.body|) >= 2 && |m.body| <= max
    requires |mask| < Count(link, |m.body|) && NoLongGap(before + mask + [b])
    requires Progressed(link, m, s0, before, mask, r)
    requires r' == if b then KeyStep(max, r.ctx, Fragments(link, m, s0)[|mask|]) else r
    ensures Progressed(link, m, s0, before, mask + [b], r')
  {
    if b {
      PacketArrives(max, link, m, s0, before, mask, r.ctx);
    } else {
      assert before + mask + [b] == before + (mask + [b]);
      PacketLost(link, m, s0, before, mask, r.ctx);
      AllTrueSnoc(mask, b);
    }
  }

  lemma SurvivorRunSnoc(max: nat, c: Option<Ctx>, ps: seq<Packet>, mask: seq<bool>, p: Packet, b: bool)
    requires |mask| == |ps| && KeyRun(max, c, Survivors(ps, mask)).out == []
    ensures KeyRun(max, c, Survivors(ps + [p], mask + [b])) ==
            if b then KeyStep(max, KeyRun(max, c, Survivors(ps, mask)).ctx, p) else KeyRun(max, c, Survivors(ps, mask))
  {
    var arrived := Survivors(ps, mask);
    SurvivorsSnoc(ps, mask, p, b);
    if b {
      KeyRunQuiet(max, c, arrived, p);
    } else {
      assert arrived + [] == arrived;
    }
  }

  lemma {:induction false} MessageLoss(max: nat, link: Link, m: Message, s0: SeqNo, c: Option<Ctx>,
                                       before: seq<bool>, mask: seq<bool>)
    requires ValidMtu(link) && Count(link, |m.body|) >= 2 && |m.body| <= max
    requires |mask| <= Count(link, |m.body|)
    requires Stale(c, Trailing(before), s0) && NoLongGap(before + mask)
    ensures Progressed(link, m, s0, before, mask,
                       KeyRun(max, c, Survivors(Fragments(link, m, s0)[..|mask|], mask)))
  {
    var ps := Fragments(link, m, s0);
    if mask == [] {
      assert before + mask == before;
    } else {
      var i := |mask| - 1;
      var mask', b := mask[..i], mask[i];
      assert mask' + [b] == mask && (before + mask') + [b] == before + mask;
      assert ps[..i] + [ps[i]] == ps[..i + 1];
      NoLongGapPrefix(before + mask', b);
      MessageLoss(max, link, m, s0, c, before, mask');
      SurvivorRunSnoc(max, c, ps[..i], mask', ps[i], b);
      PacketSteps(max, link, m, s0, before, mask', b,
                  KeyRun(max, c, Survivors(ps[..i], mask')), KeyRun(max, c, Survivors(ps[..i + 1], mask)));
    }
  }

  // ---------------------------------------------------------------------------------------
  // The stream
  // ---------------------------------------------------------------------------------------

  /** The messages whose packets all arrived. */
  function Intact(link: Link, ms: seq<Message>, mask: seq<bool>): seq<Message>
    requires ValidMtu(link) && |mask| == Total(link, ms)
  {
    if ms == [] then [] else
      var t := Total(link, ms[..|ms| - 1]);
      Intact(link, ms[..|ms| - 1], mask[..t]) + if AllTrue(mask[t..]) then [ms[|ms| - 1]] else []
  }

  /** Messages of at least two packets each, all for one key and within the receiver's limit. */
  predicate Streamable(max: nat, link: Link, k: Key, ms: seq<Message>)
    requires ValidMtu(link)
  {
    forall m :: m in ms ==> KeyOfMessage(m) == k && Count(link, |m.body|) >= 2 && |m.body| <= max
  }

  lemma {:induction false} NoLongGapTake(mask: seq<bool>, i: nat)
    requires NoLongGap(mask) && i <= |mask|
    ensures NoLongGap(mask[..i])
    decreases |mask| - i
  {
  }

  lemma IntactSnoc(link: Link, ms: seq<Message>, m: Message, before: seq<bool>, mask: seq<bool>)
    requires ValidMtu(link) && |before| == Total(link, ms) && |mask| == Count(link, |m.body|)
    ensures Total(link, ms + [m]) == |before + mask|
    ensures Intact(link, ms + [m], before + mask) == Intact(link, ms, before) + if AllTrue(mask) then [m] else []
  {
  }

  /** Of the packets `sent`, those that `mask` lets through make the receiver deliver `out` and
      leave it with no context that packet number `s` could complete. */
  predicate Yields(max: nat, sent: seq<Packet>, mask: seq<bool>, out: seq<Message>, s: SeqNo)
    requires |mask| == |sent|
  {
    var r := KeyRun(max, None, Survivors(sent, mask));
    r.out == out && Stale(r.ctx, Trailing(mask), s)
  }

  lemma YieldsMessage(max: nat, link: Link, sent: seq<Packet>, m: Message, s: SeqNo,
                      before: seq<bool>, mask: seq<bool>, out: seq<Message>,
                      sent': seq<Packet>, out': seq<Message>, s': SeqNo)
    requires ValidMtu(link) && Count(link, |m.body|) >= 2 && |m.body| <= max
    requires |before| == |sent| && |mask| == Count(link, |m.body|) && NoLongGap(before + mask)
    requires Yields(max, sent, before, out, s)
    requires sent' == sent + Fragments(link, m, s)
    requires out' == out + (if AllTrue(mask) then [m] else [])
    requires s' == Advance(s, |mask|)
    ensures Yields(max, sent', before + mask, out', s')
  {
    var ps := Fragments(link, m, s);
    var q := KeyRun(max, None, Survivors(sent, before));
    MessageLoss(max, link, m, s, q.ctx, before, mask);
    assert ps[..|mask|] == ps;
    SurvivorsAppend(sent, ps, before, mask);
    KeyRunAppend(max, None, Survivors(sent, before), Survivors(ps, mask));
  }

  /** Exactly the intact messages of the stream are delivered. */
  predicate Delivered(max: nat, link: Link, ms: seq<Message>, s0: SeqNo, mask: seq<bool>) {
    && ValidMtu(link) && |mask| == Total(link, ms)
    && Yields(max, Stream(link, ms, s0), mask, Intact(link, ms, mask), Advance(s0, |mask|))
  }

  lemma AdvanceOver(s0: SeqNo, before: seq<bool>, mask: seq<bool>, mask': seq<bool>)
    requires mask' == before + mask
    ensures Advance(s0, |mask'|) == Advance(Advance(s0, |before|), |mask|)
  {
    AdvanceAdd(s0, |before|, |mask|);
    assert |mask'| == |before| + |mask|;
  }

  lemma DeliveredSnoc(max: nat, link: Link, ms: seq<Message>, m: Message, s0: SeqNo, before: seq<bool>, mask: seq<bool>,
                      ms': seq<Message>, mask': seq<bool>)
    requires Delivered(max, link, ms, s0, before)
    requires Count(link, |m.body|) >= 2 && |m.body| <= max && |mask| == Count(link, |m.body|)
    requires ms' == ms + [m] && mask' == before + mask && NoLongGap(mask')
    ensures Delivered(max, link, ms', s0, mask')
  {
    var s := Advance(s0, |before|);
    assert Stream(link, ms', s0) == Stream(link, ms, s0) + Fragments(link, m, s) by { StreamSnoc(link, ms, m, s0); }
    IntactSnoc(link, ms, m, before, mask);
    AdvanceOver(s0, before, mask, mask');
    YieldsMessage(max, link, Stream(link, ms, s0), m, s, before, mask, Intact(link, ms, before),
                  Stream(link, ms', s0), Intact(link, ms', mask'), Advance(s0, |mask'|));
  }

  lemma MaskLengths(link: Link, ms: seq<Message>, mask: seq<bool>)
    requires ValidMtu(link) && ms != [] && |mask| == Total(link, ms) && NoLongGap(mask)
    ensures var t := Total(link, ms[..|ms| - 1]);
            && t <= |mask| && |mask[t..]| == Count(link, |ms[|ms| - 1].body|)
            && NoLongGap(mask[..t]) && mask[..t] + mask[t..] == mask
  {
  }

  /** Loss safety over whole runs. */
  lemma {:induction false} StreamLoss(max: nat, link: Link, k: Key, ms: seq<Message>, s0: SeqNo, mask: seq<bool>)
    requires ValidMtu(link) && Streamable(max, link, k, ms)
    requires |mask| == Total(link, ms) && NoLongGap(mask)
    ensures Delivered(max, link, ms, s0, mask)
  {
    if ms == [] {
    } else {
      var init, m := ms[..|ms| - 1], ms[|ms| - 1];
      var t := Total(link, init);
      assert m in ms && init + [m] == ms;
      MaskLengths(link, ms, mask);
      StreamLoss(max, link, k, init, s0, mask[..t]);
      DeliveredSnoc(max, link, init, m, s0, mask[..t], mask[t..], ms, mask);
    }
  }

  /** Loss safety in a shared table: other traffic does not matter as long as no packet finds the
      table full. */
  lemma StreamLossInTable(max: nat, n: nat, link: Link, k: Key, ms: seq<Message>, s0: SeqNo, mask: seq<bool>,
                          ps: seq<Packet>)
    requires ValidMtu(link) && Streamable(max, link, k, ms)
    requires |mask| == Total(link, ms) && NoLongGap(mask)
    requires PacketsFor(ps, k) == Survivors(Stream(link, ms, s0), mask)
    requires NeverFull(max, Empty(n), ps)
    ensures MessagesFor(TableRun(max, Empty(n), ps).out, k) == Intact(link, ms, mask)
  {
    EmptyLookup(n, k);
    StreamLoss(max, link, k, ms, s0, mask);
    NonInterference(max, Empty(n), ps, k);
  }

  // ---------------------------------------------------------------------------------------
  // The sender's own losses: packets dropped on a binding error
  // ---------------------------------------------------------------------------------------

  /** Of the completed packets, which ones the binding accepted. */
  function OkMask(log: seq<Attempt>): (mask: seq<bool>)
    ensures |mask| == |Completed(log)|
  {
    if log == [] then [] else
      var a := log[|log| - 1];
      OkMask(log[..|log| - 1]) + if a.rc == -EBUSY then [] else [a.rc == 0]
  }

  lemma {:induction false} AcceptedAreSurvivors(log: seq<Attempt>)
    ensures AcceptedPackets(log) == Survivors(Completed(log), OkMask(log))
  {
    if log == [] {
    } else {
      var init, a := log[..|log| - 1], log[|log| - 1];
      AcceptedAreSurvivors(init);
      if a.rc == -EBUSY {
        assert Completed(init) + [] == Completed(init) && OkMask(init) + [] == OkMask(init);
        assert AcceptedPackets(init) + [] == AcceptedPackets(init);
      } else {
        SurvivorsSnoc(Completed(init), OkMask(init), a.pkt, a.rc == 0);
      }
    }
  }

  lemma YieldsPartial(max: nat, link: Link, sent: seq<Packet>, m: Message, s: SeqNo,
                      before: seq<bool>, mask: seq<bool>, out: seq<Message>,
                      sent': seq<Packet>, mask': seq<bool>)
    requires ValidMtu(link) && Count(link, |m.body|) >= 2 && |m.body| <= max
    requires |before| == |sent| && |mask| < Count(link, |m.body|) && NoLongGap(mask')
    requires Yields(max, sent, before, out, s)
    requires sent' == sent + Fragments(link, m, s)[..|mask|] && mask' == before + mask
    ensures KeyRun(max, None, Survivors(sent', mask')).out == out
  {
    var ps := Fragments(link, m, s)[..|mask|];
    var q := KeyRun(max, None, Survivors(sent, before));
    MessageLoss(max, link, m, s, q.ctx, before, mask);
    SurvivorsAppend(sent, ps, before, mask);
    KeyRunAppend(max, None, Survivors(sent, before), Survivors(ps, mask));
    assert out + [] == out;
  }

  /** Of the packets `sent`, the accepted ones make the receiver deliver the intact messages
      among the finished ones. */
  predicate DeliversFinished(max: nat, link: Link, sent: seq<Packet>, mask: seq<bool>, finished: seq<Message>) {
    && ValidMtu(link) && |mask| == |sent| && Total(link, finished) <= |mask|
    && KeyRun(max, None, Survivors(sent, mask)).out == Intact(link, finished, mask[..Total(link, finished)])
  }

  lemma IdleSender(max: nat, link: Link, k: Key, s0: SeqNo, sent: seq<Packet>, mask: seq<bool>, taken: seq<Message>)
    requires ValidMtu(link) && Streamable(max, link, k, taken)
    requires sent == Stream(link, taken, s0) && |mask| == |sent| && NoLongGap(mask)
    ensures DeliversFinished(max, link, sent, mask, taken)
  {
    StreamLoss(max, link, k, taken, s0, mask);
    assert mask[..Total(link, taken)] == mask;
  }

  lemma BusySender(max: nat, link: Link, k: Key, s0: SeqNo, done: seq<Message>, m: Message, s: SeqNo,
                   before: seq<bool>, rest: seq<bool>, sent: seq<Packet>, mask: seq<bool>)
    requires ValidMtu(link) && Streamable(max, link, k, done + [m])
    requires |before| == Total(link, done) && |rest| < Count(link, |m.body|) && mask == before + rest && NoLongGap(mask)
    requires s == Advance(s0, |before|) && sent == Stream(link, done, s0) + Fragments(link, m, s)[..|rest|]
    ensures KeyRun(max, None, Survivors(sent, mask)).out == Intact(link, done, before)
  {
    StreamableSplit(max, link, k, done, m);
    assert before == mask[..|before|];
    NoLongGapTake(mask, |before|);
    StreamLoss(max, link, k, done, s0, before);
    YieldsPartial(max, link, Stream(link, done, s0), m, s, before, rest, Intact(link, done, before), sent, mask);
  }

  lemma StreamableSplit(max: nat, link: Link, k: Key, ms: seq<Message>, m: Message)
    requires ValidMtu(link) && Streamable(max, link, k, ms + [m])
    ensures Streamable(max, link, k, ms) && Count(link, |m.body|) >= 2 && |m.body| <= max
  {
  }

  lemma BusySenderErrors(max: nat, link: Link, k: Key, s0: SeqNo, done: seq<Message>, m: Message, i: nat,
                         d: nat, s: SeqNo, sent: seq<Packet>, mask: seq<bool>)
    requires ValidMtu(link) && Streamable(max, link, k, done + [m]) && i < Count(link, |m.body|)
    requires d == Total(link, done) && s == Advance(s0, d)
    requires sent == Stream(link, done, s0) + Fragments(link, m, s)[..i]
    requires |mask| == |sent| && NoLongGap(mask)
    ensures DeliversFinished(max, link, sent, mask, done)
  {
    BusySender(max, link, k, s0, done, m, s, mask[..d], mask[d..], sent, mask);
  }

  /** From the sender to one key of the receiver: for every run of the sender, with any busy
      answers and any binding errors as long as no four completed packets in a row fail, the
      automaton of the key delivers exactly the finished messages none of whose packets failed. */
  lemma SenderErrors(link: Link, st: Tx, ops: seq<Op>, rcs: nat -> int, max: nat, k: Key)
    requires ValidMtu(link) && Sound(link, st) && st.pending.None?
    requires Streamable(max, link, k, SendRun(link, st, ops, rcs).taken)
    requires NoLongGap(OkMask(SendRun(link, st, ops, rcs).log))
    ensures var t := SendRun(link, st, ops, rcs);
            && DeliversFinished(max, link, Completed(t.log), OkMask(t.log), Finished(t))
            && AcceptedPackets(t.log) == Survivors(Completed(t.log), OkMask(t.log))
  {
    var t := SendRun(link, st, ops, rcs);
    AcceptedAreSurvivors(t.log);
    if t.st.pending.None? {
      RunConserves(link, st, ops, rcs);
      assert Completed(t.log) + [] == Completed(t.log);
      IdleSender(max, link, k, st.seqNo, Completed(t.log), OkMask(t.log), t.taken);
    } else {
      var Pending(m, pos) := t.st.pending.value;
      PendingPrefix(link, st, ops, rcs);
      assert Index(link, pos) < Count(link, |m.body|) by { RunInHand(link, st, ops, rcs); }
      var d := Total(link, AllButLast(t.taken));
      BusySenderErrors(max, link, k, st.seqNo, AllButLast(t.taken), m, Index(link, pos), d, Advance(st.seqNo, d),
                       Completed(t.log), OkMask(t.log));
    }
  }

  /** End to end, through the receiver's shared table: whatever else arrives, as long as no packet
      finds the table full. */
  lemma SenderErrorsInTable(link: Link, st: Tx, ops: seq<Op>, rcs: nat -> int, max: nat, k: Key, n: nat,
                            ps: seq<Packet>)
    requires ValidMtu(link) && Sound(link, st) && st.pending.None?
    requires Streamable(max, link, k, SendRun(link, st, ops, rcs).taken)
    requires NoLongGap(OkMask(SendRun(link, st, ops, rcs).log))
    requires PacketsFor(ps, k) == AcceptedPackets(SendRun(link, st, ops, rcs).log)
    requires NeverFull(max, Empty(n), ps)
    ensures var t := SendRun(link, st, ops, rcs);
            var d := Total(link, Finished(t));
            && d <= |OkMask(t.log)|
            && MessagesFor(TableRun(max, Empty(n), ps).out, k) == Intact(link, Finished(t), OkMask(t.log)[..d])
  {
    SenderErrors(link, st, ops, rcs, max, k);
    EmptyLookup(n, k);
    NonInterference(max, Empty(n), ps, k);
  }
}
