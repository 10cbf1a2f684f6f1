/** The MCTP transport header (section 8 of DSP0236 v1.3.0) and its byte encoding. */
module Packets {
  import opened Basics

  datatype Packet = Packet(
    ver: Byte, dest: Byte, src: Byte,
    som: bool, eom: bool, seqNo: SeqNo, to: bool, tag: Tag,
    payload: seq<Byte>)

  /** `mctp_pktbuf_size` of a packet buffer holding `p`. */
  function Size(p: Packet): nat {
    HDR_SIZE + |p.payload|
  }

  predicate Single(p: Packet) {
    p.som && p.eom
  }

  /** The fourth header byte; OrIsSum and MasksReadFields tie it to the shifts and masks of the code. */
  function FlagsSeqTag(som: bool, eom: bool, seqNo: SeqNo, to: bool, tag: Tag): Byte {
    (if som then 128 else 0) + (if eom then 64 else 0) + seqNo * 16 + (if to then 8 else 0) + tag
  }

  /** The fields shifted into place and or-ed together. */
  function OrOfFields(som: bool, eom: bool, seqNo: bv8, to: bool, tag: bv8): bv8 {
    ((if to then 1 else 0) << 3) | tag | (if som then 0x80 else 0) | (if eom then 0x40 else 0) | (seqNo << 4)
  }

  lemma OrIsSum(som: bool, eom: bool, seqNo: SeqNo, to: bool, tag: Tag)
    ensures OrOfFields(som, eom, seqNo as bv8, to, tag as bv8) as int == FlagsSeqTag(som, eom, seqNo, to, tag)
  {
  }

  lemma MasksReadFields(som: bool, eom: bool, seqNo: bv8, to: bool, tag: bv8)
    requires seqNo < 4 && tag < 8
    ensures var b := OrOfFields(som, eom, seqNo, to, tag);
            && (b & 0x80 != 0 <==> som) && (b & 0x40 != 0 <==> eom)
            && (b >> 4) & 0x3 == seqNo && ((b >> 3) & 0x1 != 0 <==> to) && b & 0x7 == tag
  {
  }

  function Encode(p: Packet): (bytes: seq<Byte>)
    ensures |bytes| == Size(p)
  {
    [p.ver, p.dest, p.src, FlagsSeqTag(p.som, p.eom, p.seqNo, p.to, p.tag)] + p.payload
  }

  /** The order of the header bytes (section 8 of DSP0236 v1.3.0), then the payload. */
  lemma EncodeLayout(p: Packet)
    ensures var bytes := Encode(p);
            && bytes[0] == p.ver && bytes[1] == p.dest && bytes[2] == p.src
            && bytes[3] == FlagsSeqTag(p.som, p.eom, p.seqNo, p.to, p.tag)
            && bytes[HDR_SIZE..] == p.payload
  {
  }

  function Decode(bytes: seq<Byte>): (p: Packet)
    requires |bytes| >= HDR_SIZE
    ensures Size(p) == |bytes|
  {
    var b := bytes[3];
    Packet(bytes[0], bytes[1], bytes[2],
           b / 128 == 1, b / 64 % 2 == 1, b / 16 % 4, b / 8 % 2 == 1, b % 8,
           bytes[HDR_SIZE..])
  }

  lemma Digits(b: Byte)
    ensures b / 128 < 2 && b == 128 * (b / 128) + 64 * (b / 64 % 2) + 16 * (b / 16 % 4) + 8 * (b / 8 % 2) + b % 8
  {
    assert b / 8 == 2 * (b / 16) + b / 8 % 2;
    assert b / 16 == 4 * (b / 64) + b / 16 % 4;
    assert b / 64 == 2 * (b / 128) + b / 64 % 2;
  }

  lemma FlagsOfByte(b: Byte)
    ensures FlagsSeqTag(b / 128 == 1, b / 64 % 2 == 1, b / 16 % 4, b / 8 % 2 == 1, b % 8) == b
  {
    Digits(b);
  }

  lemma ByteOfFlags(som: bool, eom: bool, seqNo: SeqNo, to: bool, tag: Tag)
    ensures var b := FlagsSeqTag(som, eom, seqNo, to, tag);
            && (b / 128 == 1 <==> som) && (b / 64 % 2 == 1 <==> eom) && b / 16 % 4 == seqNo
            && (b / 8 % 2 == 1 <==> to) && b % 8 == tag
  {
    var b := FlagsSeqTag(som, eom, seqNo, to, tag);
    var low := (if to then 8 else 0) + tag;
    var high := (if som then 8 else 0) + (if eom then 4 else 0) + seqNo;
    assert b == 16 * high + low && b / 16 == high;
    assert b / 8 == 2 * high + (if to then 1 else 0);
    assert b / 64 == (if som then 2 else 0) + (if eom then 1 else 0);
  }

  lemma DecodeEncode(p: Packet)
    ensures Decode(Encode(p)) == p
  {
    ByteOfFlags(p.som, p.eom, p.seqNo, p.to, p.tag);
    assert Encode(p)[HDR_SIZE..] == p.payload;
  }

  lemma EncodeDecode(bytes: seq<Byte>)
    requires |bytes| >= HDR_SIZE
    ensures Encode(Decode(bytes)) == bytes
  {
    FlagsOfByte(bytes[3]);
    assert Encode(Decode(bytes)) == bytes[..HDR_SIZE] + bytes[HDR_SIZE..];
  }
}
