/** What the packets of one message, and of a stream of messages, are: defined by packet
    index, independently of the cursor arithmetic of the transmit path. */
module Fragmentation {
  import opened Basics
  import opened Packets

  datatype Message = Message(src: Byte, dest: Byte, to: bool, tag: Tag, body: seq<Byte>)

  /** A binding's packet size and the header version it stamps (`version & 0xf`). */
  datatype Link = Link(pktSize: nat, ver: Byte)

  /** The packet sizes `mctp_binding_set_tx_enabled` accepts. */
  predicate ValidMtu(link: Link) {
    link.pktSize >= HDR_SIZE + BTU
  }

  /** `MCTP_BODY_SIZE(pkt_size)` */
  function Mtu(link: Link): (mtu: nat)
    requires ValidMtu(link)
    ensures mtu >= BTU
  {
    link.pktSize - HDR_SIZE
  }

  /** How many packets a message of `len` bytes takes: max(1, ceil(len / mtu)), by CountClosedForm. */
  function Count(link: Link, len: nat): (n: nat)
    requires ValidMtu(link)
    ensures n >= 1
  {
    if len <= Mtu(link) then 1 else Count(link, len - Mtu(link)) + 1
  }

  /** `i` full payloads: i * mtu, by StartClosedForm. */
  function Start(link: Link, i: nat): nat
    requires ValidMtu(link)
  {
    if i == 0 then 0 else Start(link, i - 1) + Mtu(link)
  }

  /** How many full payloads precede position `pos`: pos / mtu, by IndexOfStart. */
  function Index(link: Link, pos: nat): nat
    requires ValidMtu(link)
  {
    if pos < Mtu(link) then 0 else Index(link, pos - Mtu(link)) + 1
  }

  lemma {:induction false} StartClosedForm(link: Link, i: nat)
    requires ValidMtu(link)
    ensures Start(link, i) == i * Mtu(link)
  {
    if i > 0 {
      StartClosedForm(link, i - 1);
      assert (i - 1) * Mtu(link) + Mtu(link) == i * Mtu(link);
    }
  }

  lemma {:induction false} IndexOfStart(link: Link, i: nat)
    requires ValidMtu(link)
    ensures Index(link, Start(link, i)) == i
  {
    if i > 0 { IndexOfStart(link, i - 1); }
  }

  /** Where packet `i` of a message of `len` bytes starts. */
  function Offset(link: Link, len: nat, i: nat): (o: nat)
    requires ValidMtu(link)
    ensures o <= len
  {
    Min(Start(link, i), len)
  }

  /** Packet `i` starts inside the message unless the message is empty, and only the last
      packet reaches its end. */
  lemma {:induction false} StartBounds(link: Link, len: nat, i: nat)
    requires ValidMtu(link) && i < Count(link, len)
    ensures len > 0 ==> Start(link, i) < len
    ensures len == 0 ==> i == 0
    ensures Start(link, i + 1) >= len <==> i == Count(link, len) - 1
    decreases i
  {
    if len > Mtu(link) && i > 0 { StartBounds(link, len - Mtu(link), i - 1); }
  }

  lemma {:induction false} CountClosedForm(link: Link, len: nat)
    requires ValidMtu(link)
    ensures len == 0 ==> Count(link, len) == 1
    ensures len > 0 ==> (Count(link, len) - 1) * Mtu(link) < len <= Count(link, len) * Mtu(link)
  {
    var n := Count(link, len);
    StartBounds(link, len, n - 1);
    StartClosedForm(link, n - 1);
    StartClosedForm(link, n);
  }

  /** The sequence number after `s`, wrapping at 4. */
  function Next(s: SeqNo): SeqNo {
    if s == 3 then 0 else s + 1
  }

  /** The sequence number `k` packets after `s`: (s + k) % 4, by AdvanceClosedForm. */
  function Advance(s: SeqNo, k: nat): SeqNo {
    if k == 0 then s else Next(Advance(s, k - 1))
  }

  lemma {:induction false} AdvanceClosedForm(s: SeqNo, k: nat)
    ensures Advance(s, k) == (s + k) % 4
  {
    if k > 0 { AdvanceClosedForm(s, k - 1); }
  }

  lemma {:induction false} AdvanceAdd(s: SeqNo, j: nat, k: nat)
    ensures Advance(Advance(s, j), k) == Advance(s, j + k)
  {
    if k > 0 { AdvanceAdd(s, j, k - 1); }
  }

  function Fragment(link: Link, m: Message, s0: SeqNo, i: nat): (p: Packet)
    requires ValidMtu(link) && i < Count(link, |m.body|)
    ensures Size(p) <= link.pktSize
  {
    Packet(link.ver, m.dest, m.src, i == 0, i == Count(link, |m.body|) - 1, Advance(s0, i), m.to, m.tag,
           m.body[Offset(link, |m.body|, i)..Offset(link, |m.body|, i + 1)])
  }

  function Fragments(link: Link, m: Message, s0: SeqNo): (ps: seq<Packet>)
    requires ValidMtu(link)
    ensures |ps| == Count(link, |m.body|)
  {
    seq(Count(link, |m.body|), i requires 0 <= i < Count(link, |m.body|) => Fragment(link, m, s0, i))
  }

  /** The number of packets of a list of messages. */
  function Total(link: Link, ms: seq<Message>): nat
    requires ValidMtu(link)
  {
    if ms == [] then 0 else Total(link, ms[..|ms| - 1]) + Count(link, |ms[|ms| - 1].body|)
  }

  /** All packets of a list of messages, with sequence numbers running on from one message
      to the next. */
  function Stream(link: Link, ms: seq<Message>, s0: SeqNo): (ps: seq<Packet>)
    requires ValidMtu(link)
    ensures |ps| == Total(link, ms)
  {
    if ms == [] then [] else
      var init := ms[..|ms| - 1];
      Stream(link, init, s0) + Fragments(link, ms[|ms| - 1], Advance(s0, Total(link, init)))
  }

  lemma StreamSnoc(link: Link, ms: seq<Message>, m: Message, s0: SeqNo)
    requires ValidMtu(link)
    ensures Stream(link, ms + [m], s0) == Stream(link, ms, s0) + Fragments(link, m, Advance(s0, Total(link, ms)))
    ensures Total(link, ms + [m]) == Total(link, ms) + Count(link, |m.body|)
  {
  }

  /** Sequence numbers run on across messages. */
  lemma {:induction false} StreamNumbered(link: Link, ms: seq<Message>, s0: SeqNo, j: nat)
    requires ValidMtu(link) && j < Total(link, ms)
    ensures Stream(link, ms, s0)[j].seqNo == Advance(s0, j)
  {
    var init, m := ms[..|ms| - 1], ms[|ms| - 1];
    var t := Total(link, init);
    if j < t {
      StreamNumbered(link, init, s0, j);
    } else {
      assert Stream(link, ms, s0)[j] == Fragment(link, m, Advance(s0, t), j - t);
      AdvanceAdd(s0, t, j - t);
    }
  }

  /** The payloads of a list of packets, in order. */
  function Bytes(ps: seq<Packet>): (s: seq<Byte>) {
    if ps == [] then [] else Bytes(ps[..|ps| - 1]) + ps[|ps| - 1].payload
  }

  lemma BytesSnoc(ps: seq<Packet>, p: Packet)
    ensures Bytes(ps + [p]) == Bytes(ps) + p.payload
  {
  }

  /** Cutting a message up loses nothing: the first `i` payloads are its first bytes. */
  lemma {:induction false} FragmentsCarryPrefix(link: Link, m: Message, s0: SeqNo, i: nat)
    requires ValidMtu(link) && i <= Count(link, |m.body|)
    ensures Bytes(Fragments(link, m, s0)[..i]) == m.body[..Offset(link, |m.body|, i)]
  {
    var ps := Fragments(link, m, s0);
    if i == 0 {
    } else {
      FragmentsCarryPrefix(link, m, s0, i - 1);
      assert ps[..i] == ps[..i - 1] + [ps[i - 1]];
      BytesSnoc(ps[..i - 1], ps[i - 1]);
      SlicesMeet(m.body, Offset(link, |m.body|, i - 1), Offset(link, |m.body|, i));
      assert ps[i - 1] == Fragment(link, m, s0, i - 1);
    }
  }

  lemma SlicesMeet<T>(s: seq<T>, a: nat, b: nat)
    requires a <= b <= |s|
    ensures s[..a] + s[a..b] == s[..b]
  {
  }

  lemma FragmentsCarryBody(link: Link, m: Message, s0: SeqNo)
    requires ValidMtu(link)
    ensures Bytes(Fragments(link, m, s0)) == m.body
  {
    var ps := Fragments(link, m, s0);
    FragmentsCarryPrefix(link, m, s0, |ps|);
    StartBounds(link, |m.body|, |ps| - 1);
    assert ps[..|ps|] == ps;
    assert m.body[..|m.body|] == m.body;
  }
}
