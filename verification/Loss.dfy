/** Lost packets of one message: exactly which losses reassembly notices, given that sequence
    numbers wrap at 4. */
module Loss {
  import opened Basics
  import opened Packets
  import opened Fragmentation
  import opened Reassembly
  import opened Trains
  import opened RoundTrip

  // ---------------------------------------------------------------------------------------
  // One message, any pattern of lost interior packets
  // ---------------------------------------------------------------------------------------

  predicate Increasing(idx: seq<nat>) {
    forall i, j :: 0 <= i < j < |idx| ==> idx[i] < idx[j]
  }

  /** The packets of a message of `n` packets that arrive: the first, the last, and any others. */
  predicate Arrivals(idx: seq<nat>, n: nat) {
    |idx| >= 2 && Increasing(idx) && idx[0] == 0 && idx[|idx| - 1] == n - 1
  }

  function Select(ps: seq<Packet>, idx: seq<nat>): (r: seq<Packet>)
    requires forall i :: 0 <= i < |idx| ==> idx[i] < |ps|
    ensures |r| == |idx|
  {
    seq(|idx|, i requires 0 <= i < |idx| => ps[idx[i]])
  }

  /** Every run of skipped packets is a multiple of four long. */
  predicate LossesInFours(idx: seq<nat>) {
    forall i :: 1 <= i < |idx| ==> (idx[i] as int - idx[i - 1] - 1) % 4 == 0
  }

  lemma CycleLength(s: SeqNo, k: nat)
    ensures Advance(s, k) == s <==> k % 4 == 0
  {
    AdvanceClosedForm(s, k);
    assert s + k == 4 * (k / 4) + (s + k % 4);
    assert (s + k) % 4 == (s + k % 4) % 4;
  }

  /** Packet `b` follows packet `a` as far as sequence numbers go, if and only if the number of
      packets between them is a multiple of four. */
  lemma WrapsTogether(s: SeqNo, a: nat, b: nat)
    requires a < b
    ensures Advance(s, b) == Next(Advance(s, a)) <==> (b - a - 1) % 4 == 0
  {
    AdvanceAdd(s, a + 1, b - a - 1);
    CycleLength(Advance(s, a + 1), b - a - 1);
  }

  lemma ArrivalsInRange(idx: seq<nat>, n: nat)
    requires Arrivals(idx, n)
    ensures n >= 2
    ensures forall i :: 0 <= i < |idx| ==>
              idx[i] < n && (idx[i] == 0 <==> i == 0) && (idx[i] == n - 1 <==> i == |idx| - 1)
  {
    forall i | 0 <= i < |idx|
      ensures idx[i] < n && (idx[i] == 0 <==> i == 0) && (idx[i] == n - 1 <==> i == |idx| - 1)
    {
      if i > 0 { assert idx[0] < idx[i]; }
      if i < |idx| - 1 { assert idx[i] < idx[|idx| - 1]; }
    }
  }

  lemma SelectedBurst(link: Link, m: Message, s0: SeqNo, idx: seq<nat>)
    requires ValidMtu(link) && Arrivals(idx, Count(link, |m.body|))
    ensures forall i :: 0 <= i < |idx| ==> idx[i] < Count(link, |m.body|)
    ensures Burst(Select(Fragments(link, m, s0), idx))
  {
    ArrivalsInRange(idx, Count(link, |m.body|));
    var ps := Select(Fragments(link, m, s0), idx);
    forall i | 0 <= i < |ps| ensures (ps[i].som <==> i == 0) && (ps[i].eom <==> i == |ps| - 1) {
      assert ps[i] == Fragment(link, m, s0, idx[i]);
    }
  }

  /** Sequence numbers consecutive modulo 4. */
  predicate Numbered(ps: seq<Packet>) {
    forall i :: 1 <= i < |ps| ==> ps[i].seqNo == Next(ps[i - 1].seqNo)
  }

  /** A burst of full packets is a train if and only if its numbers are consecutive. */
  lemma TrainIffNumbered(ps: seq<Packet>, mtu: nat)
    requires Burst(ps)
    requires forall i :: 0 <= i < |ps| ==> |ps[i].payload| <= mtu && (i < |ps| - 1 ==> |ps[i].payload| == mtu)
    ensures CompleteTrain(ps) <==> Numbered(ps)
  {
    var init := ps[..|ps| - 1];
    assert forall i :: 0 <= i < |init| ==> init[i] == ps[i];
    if CompleteTrain(ps) {
      forall i | 1 <= i < |ps| ensures ps[i].seqNo == Next(ps[i - 1].seqNo) {
        if i < |init| { assert init[i].seqNo == Next(init[i - 1].seqNo); }
      }
    }
  }

  /** Packets as a sender numbers and sizes them: consecutive numbers from `s0`, and every packet
      that does not end its message is full. */
  predicate Regular(ps: seq<Packet>, mtu: nat, s0: SeqNo) {
    forall j :: 0 <= j < |ps| ==> RegularAt(ps[j], mtu, Advance(s0, j))
  }

  predicate RegularAt(p: Packet, mtu: nat, s: SeqNo) {
    p.seqNo == s && |p.payload| <= mtu && (!p.eom ==> |p.payload| == mtu)
  }

  lemma FragmentsRegular(link: Link, m: Message, s0: SeqNo)
    requires ValidMtu(link)
    ensures Regular(Fragments(link, m, s0), Mtu(link), s0)
  {
    var ps := Fragments(link, m, s0);
    forall j | 0 <= j < |ps| ensures RegularAt(ps[j], Mtu(link), Advance(s0, j)) {
      assert ps[j] == Fragment(link, m, s0, j);
      if !ps[j].eom { FragmentSize(link, m, s0, j); }
    }
  }

  lemma RegularAppend(a: seq<Packet>, b: seq<Packet>, mtu: nat, s0: SeqNo)
    requires Regular(a, mtu, s0) && Regular(b, mtu, Advance(s0, |a|))
    ensures Regular(a + b, mtu, s0)
  {
    var ps := a + b;
    forall j | 0 <= j < |ps| ensures RegularAt(ps[j], mtu, Advance(s0, j)) {
      if j >= |a| {
        AdvanceAdd(s0, |a|, j - |a|);
        assert ps[j] == b[j - |a|];
      } else {
        assert ps[j] == a[j];
      }
    }
  }

  lemma {:induction false} StreamRegular(link: Link, ms: seq<Message>, s0: SeqNo)
    requires ValidMtu(link)
    ensures Regular(Stream(link, ms, s0), Mtu(link), s0)
  {
    if ms == [] {
    } else {
      var init, m := ms[..|ms| - 1], ms[|ms| - 1];
      var s := Advance(s0, Total(link, init));
      StreamRegular(link, init, s0);
      FragmentsRegular(link, m, s);
      RegularAppend(Stream(link, init, s0), Fragments(link, m, s), Mtu(link), s0);
    }
  }

  lemma TrainIsBurst(ps: seq<Packet>)
    requires CompleteTrain(ps)
    ensures Burst(ps)
  {
  }

  lemma SelectedNumbers(ps: seq<Packet>, mtu: nat, s0: SeqNo, idx: seq<nat>)
    requires Regular(ps, mtu, s0) && Increasing(idx)
    requires forall i :: 0 <= i < |idx| ==> idx[i] < |ps|
    ensures Numbered(Select(ps, idx)) <==> LossesInFours(idx)
  {
    var qs := Select(ps, idx);
    forall i | 1 <= i < |idx|
      ensures qs[i].seqNo == Next(qs[i - 1].seqNo) <==> (idx[i] - idx[i - 1] - 1) % 4 == 0
    {
      assert RegularAt(ps[idx[i]], mtu, Advance(s0, idx[i]));
      assert RegularAt(ps[idx[i - 1]], mtu, Advance(s0, idx[i - 1]));
      WrapsTogether(s0, idx[i - 1], idx[i]);
    }
  }

  lemma SelectedSizes(ps: seq<Packet>, mtu: nat, s0: SeqNo, idx: seq<nat>)
    requires Regular(ps, mtu, s0)
    requires forall i :: 0 <= i < |idx| ==> idx[i] < |ps|
    requires Burst(Select(ps, idx))
    ensures var qs := Select(ps, idx);
            forall i :: 0 <= i < |qs| ==> |qs[i].payload| <= mtu && (i < |qs| - 1 ==> |qs[i].payload| == mtu)
  {
    var qs := Select(ps, idx);
    forall i | 0 <= i < |qs| ensures |qs[i].payload| <= mtu && (i < |qs| - 1 ==> |qs[i].payload| == mtu) {
      assert RegularAt(ps[idx[i]], mtu, Advance(s0, idx[i]));
      if i < |qs| - 1 { assert qs[i] == qs[..|qs| - 1][i]; }
    }
  }

  /** Packets picked from a regular run, of whatever messages, are taken for one message if and
      only if their flags look like one and every run of skipped packets is a multiple of four. */
  lemma RegularTrain(ps: seq<Packet>, mtu: nat, s0: SeqNo, idx: seq<nat>)
    requires Regular(ps, mtu, s0) && Increasing(idx)
    requires forall i :: 0 <= i < |idx| ==> idx[i] < |ps|
    ensures CompleteTrain(Select(ps, idx)) <==> Burst(Select(ps, idx)) && LossesInFours(idx)
  {
    var qs := Select(ps, idx);
    if CompleteTrain(qs) { TrainIsBurst(qs); }
    if Burst(qs) {
      SelectedSizes(ps, mtu, s0, idx);
      SelectedNumbers(ps, mtu, s0, idx);
      TrainIffNumbered(qs, mtu);
    }
  }

  lemma RegularOutcome(max: nat, c: Option<Ctx>, ps: seq<Packet>, mtu: nat, s0: SeqNo, idx: seq<nat>, qs: seq<Packet>)
    requires Regular(ps, mtu, s0) && Increasing(idx)
    requires forall i :: 0 <= i < |idx| ==> idx[i] < |ps|
    requires qs == Select(ps, idx) && Burst(qs)
    ensures KeyRun(max, c, qs) ==
            KeyResult(None, if LossesInFours(idx) && |Bytes(qs)| <= max then [Whole(qs[|qs| - 1], Bytes(qs))] else [])
  {
    RegularTrain(ps, mtu, s0, idx);
    BurstOutcome(max, c, qs);
  }

  /** Exact loss characterisation: when the first and the last packet arrive, a message missing
      any interior packets is delivered if and only if every run of lost packets is a multiple
      of four long and the rest fits; what is delivered is the rest. */
  lemma ExactLoss(link: Link, m: Message, s0: SeqNo, idx: seq<nat>, max: nat, c: Option<Ctx>)
    requires ValidMtu(link) && Arrivals(idx, Count(link, |m.body|))
    ensures forall i :: 0 <= i < |idx| ==> idx[i] < Count(link, |m.body|)
    ensures var ps := Select(Fragments(link, m, s0), idx);
            KeyRun(max, c, ps) ==
            KeyResult(None, if LossesInFours(idx) && |Bytes(ps)| <= max then [m.(body := Bytes(ps))] else [])
  {
    SelectedBurst(link, m, s0, idx);
    FragmentsRegular(link, m, s0);
    var ps := Fragments(link, m, s0);
    RegularOutcome(max, c, ps, Mtu(link), s0, idx, Select(ps, idx));
  }

  predicate BytesMeet(a: seq<Packet>, b: seq<Packet>) {
    Bytes(a + b) == Bytes(a) + Bytes(b)
  }

  lemma BytesMeetSnoc(a: seq<Packet>, b: seq<Packet>, p: Packet)
    requires BytesMeet(a, b)
    ensures BytesMeet(a, b + [p])
  {
    Associative(a, b, [p]);
    BytesSnoc(a + b, p);
    BytesSnoc(b, p);
    Associative(Bytes(a), Bytes(b), p.payload);
  }

  lemma {:induction false} BytesAppend(a: seq<Packet>, b: seq<Packet>)
    ensures BytesMeet(a, b)
  {
    if b == [] {
      assert a + b == a;
    } else {
      BytesAppend(a, b[..|b| - 1]);
      BytesMeetSnoc(a, b[..|b| - 1], b[|b| - 1]);
      assert b[..|b| - 1] + [b[|b| - 1]] == b;
    }
  }

  lemma FragmentsCarrySuffix(link: Link, m: Message, s0: SeqNo, b: nat)
    requires ValidMtu(link) && b <= Count(link, |m.body|)
    ensures Bytes(Fragments(link, m, s0)[b..]) == m.body[Offset(link, |m.body|, b)..]
  {
    var ps := Fragments(link, m, s0);
    BytesAppend(ps[..b], ps[b..]);
    assert ps[..b] + ps[b..] == ps;
    FragmentsCarryPrefix(link, m, s0, b);
    FragmentsCarryBody(link, m, s0);
    DropPrefix(m.body, Bytes(ps[b..]), Offset(link, |m.body|, b));
  }

  lemma DropPrefix<T>(s: seq<T>, t: seq<T>, o: nat)
    requires o <= |s| && s == s[..o] + t
    ensures t == s[o..]
  {
  }

  /** All packets but `k`, starting with packet `a`. */
  function Skipping(n: nat, a: nat, k: nat): (idx: seq<nat>)
    requires 1 <= a && a + k < n
    ensures Arrivals(idx, n)
  {
    seq(n - k, i requires 0 <= i < n - k => if i < a then i else i + k)
  }

  lemma SkippingFours(n: nat, a: nat, k: nat)
    requires 1 <= a && a + k < n
    ensures LossesInFours(Skipping(n, a, k)) <==> k % 4 == 0
  {
    var idx := Skipping(n, a, k);
    assert idx[a] - idx[a - 1] - 1 == k;
    forall i | 1 <= i < |idx| && i != a ensures idx[i] - idx[i - 1] - 1 == 0 {
    }
  }

  lemma SelectSkipping(ps: seq<Packet>, a: nat, k: nat)
    requires 1 <= a && a + k < |ps|
    ensures forall i :: 0 <= i < |Skipping(|ps|, a, k)| ==> Skipping(|ps|, a, k)[i] < |ps|
    ensures Select(ps, Skipping(|ps|, a, k)) == ps[..a] + ps[a + k..]
  {
  }

  /** The packets `ps` are delivered as `m` with the body `body`, if a multiple of four were left
      out and the body fits, and are dropped otherwise. */
  predicate JoinedInFours(max: nat, c: Option<Ctx>, ps: seq<Packet>, lost: nat, m: Message, body: seq<Byte>) {
    KeyRun(max, c, ps) == KeyResult(None, if lost % 4 == 0 && |body| <= max then [m.(body := body)] else [])
  }

  /** A burst picked from a regular run by leaving out `k` packets, starting with packet `a`. */
  lemma GapOutcome(max: nat, c: Option<Ctx>, ps: seq<Packet>, mtu: nat, s0: SeqNo, a: nat, k: nat,
                   qs: seq<Packet>, m: Message, body: seq<Byte>)
    requires Regular(ps, mtu, s0) && 1 <= a && a + k < |ps|
    requires qs == ps[..a] + ps[a + k..] && Burst(qs)
    requires Bytes(qs) == body && Whole(qs[|qs| - 1], body) == m.(body := body)
    ensures JoinedInFours(max, c, qs, k, m, body)
  {
    SelectSkipping(ps, a, k);
    SkippingFours(|ps|, a, k);
    RegularOutcome(max, c, ps, mtu, s0, Skipping(|ps|, a, k), qs);
  }

  lemma BurstOf(head: seq<Packet>, tail: seq<Packet>)
    requires OpenBurst(head) && |tail| >= 1
    requires forall x :: 0 <= x < |tail| ==> if x < |tail| - 1 then Middle(tail[x]) else Closes(tail[x])
    ensures Burst(head + tail)
  {
  }

  lemma HeadOpens(link: Link, m: Message, s: SeqNo, i: nat)
    requires ValidMtu(link) && 1 <= i < Count(link, |m.body|)
    ensures OpenBurst(Fragments(link, m, s)[..i])
  {
    var head := Fragments(link, m, s)[..i];
    forall x | 0 <= x < i ensures if x == 0 then Opens(head[x]) else Middle(head[x]) {
      assert head[x] == Fragment(link, m, s, x);
    }
  }

  lemma TailCloses(link: Link, m: Message, s: SeqNo, j: nat)
    requires ValidMtu(link) && 1 <= j < Count(link, |m.body|)
    ensures var tail := Fragments(link, m, s)[j..];
            && (forall x :: 0 <= x < |tail| ==> if x < |tail| - 1 then Middle(tail[x]) else Closes(tail[x]))
            && forall body :: Whole(tail[|tail| - 1], body) == m.(body := body)
  {
    var tail := Fragments(link, m, s)[j..];
    forall x | 0 <= x < |tail|
      ensures if x < |tail| - 1 then Middle(tail[x]) else Closes(tail[x])
    {
      assert tail[x] == Fragment(link, m, s, x + j);
    }
  }

  /** The head of one message and the tail of another look like one message. */
  lemma HeadAndTail(link: Link, a: Message, b: Message, s: SeqNo, s': SeqNo, i: nat, j: nat, body: seq<Byte>)
    requires ValidMtu(link) && 1 <= i < Count(link, |a.body|) && 1 <= j < Count(link, |b.body|)
    requires body == a.body[..Offset(link, |a.body|, i)] + b.body[Offset(link, |b.body|, j)..]
    ensures var ps := Fragments(link, a, s)[..i] + Fragments(link, b, s')[j..];
            Burst(ps) && Bytes(ps) == body && Whole(ps[|ps| - 1], body) == b.(body := body)
  {
    var head, tail := Fragments(link, a, s)[..i], Fragments(link, b, s')[j..];
    assert Burst(head + tail) && Whole(tail[|tail| - 1], body) == b.(body := body) by {
      HeadOpens(link, a, s, i);
      TailCloses(link, b, s', j);
      BurstOf(head, tail);
    }
    assert Bytes(head + tail) == body by {
      BytesAppend(head, tail);
      FragmentsCarryPrefix(link, a, s, i);
      FragmentsCarrySuffix(link, b, s', j);
    }
  }

  /** The special case of one run of `k` lost interior packets, the first of which is `a`. */
  lemma OneRunLost(link: Link, m: Message, s0: SeqNo, a: nat, k: nat, max: nat, c: Option<Ctx>)
    requires ValidMtu(link) && 1 <= a && a + k < Count(link, |m.body|)
    ensures var ps := Fragments(link, m, s0);
            var rest := m.body[..Offset(link, |m.body|, a)] + m.body[Offset(link, |m.body|, a + k)..];
            JoinedInFours(max, c, ps[..a] + ps[a + k..], k, m, rest)
  {
    var ps := Fragments(link, m, s0);
    var rest := m.body[..Offset(link, |m.body|, a)] + m.body[Offset(link, |m.body|, a + k)..];
    FragmentsRegular(link, m, s0);
    HeadAndTail(link, m, m, s0, s0, a, a + k, rest);
    GapOutcome(max, c, ps, Mtu(link), s0, a, k, ps[..a] + ps[a + k..], m, rest);
  }

  lemma PairRegular(link: Link, a: Message, b: Message, s0: SeqNo)
    requires ValidMtu(link)
    ensures Regular(Fragments(link, a, s0) + Fragments(link, b, Advance(s0, Count(link, |a.body|))), Mtu(link), s0)
  {
    FragmentsRegular(link, a, s0);
    FragmentsRegular(link, b, Advance(s0, Count(link, |a.body|)));
    RegularAppend(Fragments(link, a, s0), Fragments(link, b, Advance(s0, Count(link, |a.body|))), Mtu(link), s0);
  }

  lemma CutBetween<T>(a: seq<T>, b: seq<T>, i: nat, j: nat)
    requires i <= |a| && j <= |b|
    ensures a[..i] + b[j..] == (a + b)[..i] + (a + b)[|a| + j..]
  {
    assert (a + b)[..i] == a[..i] && (a + b)[|a| + j..] == b[j..];
  }

  /** Two messages sent one after the other as the packets `fa` and `fb`; the end of the first,
      from packet `i` on, and the start of the second, up to packet `j`, are lost. The receiver
      joins the head of one to the tail of the other if and only if a multiple of four packets is
      missing and the result fits. */
  lemma HeadMeetsTail(link: Link, a: Message, b: Message, s0: SeqNo, fa: seq<Packet>, fb: seq<Packet>,
                      i: nat, j: nat, lost: nat, spliced: seq<Byte>, max: nat, c: Option<Ctx>)
    requires ValidMtu(link) && fa == Fragments(link, a, s0) && fb == Fragments(link, b, Advance(s0, |fa|))
    requires 1 <= i < |fa| && 1 <= j < |fb| && lost == |fa| - i + j
    requires spliced == a.body[..Offset(link, |a.body|, i)] + b.body[Offset(link, |b.body|, j)..]
    ensures JoinedInFours(max, c, fa[..i] + fb[j..], lost, b, spliced)
  {
    HeadAndTail(link, a, b, s0, Advance(s0, |fa|), i, j, spliced);
    assert Regular(fa + fb, Mtu(link), s0) by { PairRegular(link, a, b, s0); }
    assert fa[..i] + fb[j..] == (fa + fb)[..i] + (fa + fb)[i + lost..] by { CutBetween(fa, fb, i, j); }
    GapOutcome(max, c, fa + fb, Mtu(link), s0, i, lost, fa[..i] + fb[j..], b, spliced);
  }
}
