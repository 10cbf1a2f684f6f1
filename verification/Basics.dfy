/** Types and constants shared by the whole model. */
module Basics {

  datatype Option<+T> = None | Some(value: T)

  /** `uint8_t` */
  type Byte = x: int | 0 <= x < 256
  /** the 2-bit packet sequence number */
  type SeqNo = x: int | 0 <= x < 4
  /** the 3-bit message tag */
  type Tag = x: int | 0 <= x < 8

  // errno values; the code returns them negated
  const ENXIO := 6
  const EBUSY := 16
  const EINVAL := 22
  const ENOSPC := 28

  const EID_NULL: Byte := 0
  const EID_BROADCAST: Byte := 255

  /** `sizeof(struct mctp_hdr)` */
  const HDR_SIZE := 4
  /** the baseline transmission unit, `MCTP_BTU` */
  const BTU := 64

  const SIZE_MAX := 0xFFFF_FFFF_FFFF_FFFF

  function Min(a: nat, b: nat): nat {
    if a < b then a else b
  }

  lemma Associative<T>(a: seq<T>, b: seq<T>, c: seq<T>)
    ensures (a + b) + c == a + (b + c)
  {
  }
}
