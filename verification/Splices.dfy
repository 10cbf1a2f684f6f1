/** Streams over a channel that loses any packets at all: exactly what is delivered, parts of
    different messages joined together included. */
module Splices {
  import opened Basics
  import opened Packets
  import opened Fragmentation
  import opened Reassembly
  import opened Trains
  import opened Loss
  import opened LossSafety

  /** Packet numbers of `ps`. */
  predicate InRange(ps: seq<Packet>, idx: seq<nat>) {
    forall i :: 0 <= i < |idx| ==> idx[i] < |ps|
  }

  /** Of the packets `idx`, those that are not whole messages. */
  function PartsOf(ps: seq<Packet>, idx: seq<nat>): (r: seq<nat>)
    requires InRange(ps, idx)
    ensures InRange(ps, r)
  {
    if idx == [] then [] else
      PartsOf(ps, idx[..|idx| - 1]) + if Single(ps[idx[|idx| - 1]]) then [] else [idx[|idx| - 1]]
  }

  /** What the packets `t` deliver, when the last of them arrives: the flags of one message, every
      run of skipped packets a multiple of four, and a body that fits. */
  function Splice(max: nat, ps: seq<Packet>, t: seq<nat>): seq<Message>
    requires InRange(ps, t)
  {
    var qs := Select(ps, t);
    if Burst(qs) && LossesInFours(t) && |Bytes(qs)| <= max then [Whole(qs[|qs| - 1], Bytes(qs))] else []
  }

  /** What is delivered when exactly the packets `idx` of `ps` arrive. */
  function SplicesIn(max: nat, ps: seq<Packet>, idx: seq<nat>): seq<Message>
    requires InRange(ps, idx)
  {
    if idx == [] then [] else
      var parts, j := PartsOf(ps, idx[..|idx| - 1]), idx[|idx| - 1];
      SplicesIn(max, ps, idx[..|idx| - 1]) +
      if Single(ps[j]) then [Whole(ps[j], ps[j].payload)]
      else Splice(max, ps, (parts + [j])[LastOpening(Select(ps, parts))..])
  }

  lemma SelectSnoc(ps: seq<Packet>, idx: seq<nat>, j: nat)
    requires InRange(ps, idx) && j < |ps|
    ensures Select(ps, idx + [j]) == Select(ps, idx) + [ps[j]]
  {
  }

  lemma SelectDrop(ps: seq<Packet>, idx: seq<nat>, s: nat)
    requires InRange(ps, idx) && s <= |idx|
    ensures Select(ps, idx)[s..] == Select(ps, idx[s..])
  {
  }

  lemma SelectTake(ps: seq<Packet>, idx: seq<nat>, s: nat)
    requires InRange(ps, idx) && s <= |idx|
    ensures Select(ps, idx)[..s] == Select(ps, idx[..s])
  {
  }

  lemma PartsSnoc(h: seq<Packet>, p: Packet)
    ensures Parts(h + [p]) == Parts(h) + if Single(p) then [] else [p]
  {
  }

  lemma {:induction false} SelectParts(ps: seq<Packet>, idx: seq<nat>)
    requires InRange(ps, idx)
    ensures Select(ps, PartsOf(ps, idx)) == Parts(Select(ps, idx))
  {
    if idx == [] {
    } else {
      var init, j := idx[..|idx| - 1], idx[|idx| - 1];
      assert idx == init + [j];
      SelectParts(ps, init);
      SelectSnoc(ps, init, j);
      PartsSnoc(Select(ps, init), ps[j]);
      SelectSnoc(ps, PartsOf(ps, init), j);
    }
  }

  lemma {:induction false} PartsIncrease(ps: seq<Packet>, idx: seq<nat>)
    requires InRange(ps, idx) && Increasing(idx)
    ensures Increasing(PartsOf(ps, idx))
    ensures idx != [] ==> forall i :: 0 <= i < |PartsOf(ps, idx)| ==> PartsOf(ps, idx)[i] <= idx[|idx| - 1]
  {
    if idx == [] {
    } else {
      var init := idx[..|idx| - 1];
      assert init != [] ==> init[|init| - 1] < idx[|idx| - 1];
      PartsIncrease(ps, init);
    }
  }

  /** The parts among all but the last of `idx`, and the last. */
  lemma PartsThen(ps: seq<Packet>, idx: seq<nat>, s: nat)
    requires InRange(ps, idx) && Increasing(idx) && idx != []
    requires s <= |PartsOf(ps, idx[..|idx| - 1])|
    ensures Increasing((PartsOf(ps, idx[..|idx| - 1]) + [idx[|idx| - 1]])[s..])
  {
    var init := idx[..|idx| - 1];
    assert init != [] ==> init[|init| - 1] < idx[|idx| - 1];
    PartsIncrease(ps, init);
  }

  /** For packets as a sender numbers them, a splice is a train that fits. */
  lemma SpliceIsYield(max: nat, ps: seq<Packet>, mtu: nat, s0: SeqNo, t: seq<nat>)
    requires Regular(ps, mtu, s0) && InRange(ps, t) && Increasing(t)
    ensures Splice(max, ps, t) == Yield(max, Select(ps, t))
  {
    RegularTrain(ps, mtu, s0, t);
  }

  lemma LastSplice(max: nat, ps: seq<Packet>, mtu: nat, s0: SeqNo, parts: seq<nat>, j: nat, h: seq<Packet>, s: nat)
    requires Regular(ps, mtu, s0) && InRange(ps, parts) && j < |ps|
    requires h == Select(ps, parts) && s <= |parts| && Increasing((parts + [j])[s..])
    ensures Splice(max, ps, (parts + [j])[s..]) == Yield(max, (h + [ps[j]])[s..])
  {
    SelectSnoc(ps, parts, j);
    SelectDrop(ps, parts + [j], s);
    SpliceIsYield(max, ps, mtu, s0, (parts + [j])[s..]);
  }

  lemma {:induction false} SplicesAreTrains(max: nat, ps: seq<Packet>, mtu: nat, s0: SeqNo, idx: seq<nat>)
    requires Regular(ps, mtu, s0) && InRange(ps, idx) && Increasing(idx)
    ensures TrainsIn(max, Select(ps, idx)) == SplicesIn(max, ps, idx)
  {
    if idx == [] {
    } else {
      var init, j := idx[..|idx| - 1], idx[|idx| - 1];
      var parts := PartsOf(ps, init);
      var s := LastOpening(Select(ps, parts));
      SplicesAreTrains(max, ps, mtu, s0, init);
      SelectTake(ps, idx, |idx| - 1);
      SelectParts(ps, init);
      PartsThen(ps, idx, s);
      LastSplice(max, ps, mtu, s0, parts, j, Select(ps, parts), s);
    }
  }

  /** Arbitrary loss: whichever packets of a stream arrive, the receiver delivers exactly the
      splices of what arrived. */
  lemma ArbitraryLoss(max: nat, link: Link, ms: seq<Message>, s0: SeqNo, idx: seq<nat>)
    requires ValidMtu(link) && Increasing(idx) && InRange(Stream(link, ms, s0), idx)
    ensures KeyRun(max, None, Select(Stream(link, ms, s0), idx)).out == SplicesIn(max, Stream(link, ms, s0), idx)
  {
    var ps := Stream(link, ms, s0);
    StreamRegular(link, ms, s0);
    KeyRunIsTrains(max, Select(ps, idx));
    SplicesAreTrains(max, ps, Mtu(link), s0, idx);
  }

  /** Arbitrary loss in a shared table. */
  lemma ArbitraryLossInTable(max: nat, n: nat, link: Link, ms: seq<Message>, s0: SeqNo, idx: seq<nat>, k: Key,
                             ps: seq<Packet>)
    requires ValidMtu(link) && Increasing(idx) && InRange(Stream(link, ms, s0), idx)
    requires PacketsFor(ps, k) == Select(Stream(link, ms, s0), idx)
    requires NeverFull(max, Empty(n), ps)
    ensures MessagesFor(TableRun(max, Empty(n), ps).out, k) == SplicesIn(max, Stream(link, ms, s0), idx)
  {
    ArbitraryLoss(max, link, ms, s0, idx);
    EmptyLookup(n, k);
    NonInterference(max, Empty(n), ps, k);
  }

  // ---------------------------------------------------------------------------------------
  // The same for a loss mask
  // ---------------------------------------------------------------------------------------

  /** The numbers of the packets that `mask` lets through. */
  function Arrived(mask: seq<bool>): (idx: seq<nat>)
    ensures forall i :: 0 <= i < |idx| ==> idx[i] < |mask|
  {
    if mask == [] then [] else
      Arrived(mask[..|mask| - 1]) + if mask[|mask| - 1] then [|mask| - 1] else []
  }

  lemma {:induction false} ArrivedIncrease(mask: seq<bool>)
    ensures Increasing(Arrived(mask))
  {
    if mask != [] { ArrivedIncrease(mask[..|mask| - 1]); }
  }

  lemma SelectPrefix(ps: seq<Packet>, p: Packet, idx: seq<nat>)
    requires InRange(ps, idx)
    ensures InRange(ps + [p], idx) && Select(ps + [p], idx) == Select(ps, idx)
  {
  }

  lemma {:induction false} SurvivorsAreArrived(ps: seq<Packet>, mask: seq<bool>)
    requires |mask| == |ps|
    ensures Survivors(ps, mask) == Select(ps, Arrived(mask))
  {
    if ps == [] {
    } else {
      var n := |ps| - 1;
      SurvivorsAreArrived(ps[..n], mask[..n]);
      assert ps[..n] + [ps[n]] == ps;
      SelectPrefix(ps[..n], ps[n], Arrived(mask[..n]));
      SelectSnoc(ps, Arrived(mask[..n]), n);
    }
  }

  /** Whatever the channel loses, the receiver delivers exactly the splices of what arrived. */
  lemma AnyMask(max: nat, link: Link, ms: seq<Message>, s0: SeqNo, mask: seq<bool>)
    requires ValidMtu(link) && |mask| == Total(link, ms)
    ensures KeyRun(max, None, Survivors(Stream(link, ms, s0), mask)).out ==
            SplicesIn(max, Stream(link, ms, s0), Arrived(mask))
  {
    SurvivorsAreArrived(Stream(link, ms, s0), mask);
    ArrivedIncrease(mask);
    ArbitraryLoss(max, link, ms, s0, Arrived(mask));
  }

  /** With never four losses in a row, the only splices are the messages none of whose packets was
      lost. */
  lemma ShortGapsNeverSplice(max: nat, link: Link, k: Key, ms: seq<Message>, s0: SeqNo, mask: seq<bool>)
    requires ValidMtu(link) && Streamable(max, link, k, ms)
    requires |mask| == Total(link, ms) && NoLongGap(mask)
    ensures SplicesIn(max, Stream(link, ms, s0), Arrived(mask)) == Intact(link, ms, mask)
  {
    AnyMask(max, link, ms, s0, mask);
    StreamLoss(max, link, k, ms, s0, mask);
  }
}
