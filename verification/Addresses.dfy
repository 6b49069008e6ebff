/** The address union of struct IP in include/common.h, and what copying into it leaves. */
module Addresses {
  import opened Rfc1035

  /** Its 16 bytes; a version 4 address takes the first 4. */
  type Address = a: seq<byte> | |a| == 16 witness [0, 0, 0, 0, 0, 0, 0, 0, 0, 0, 0, 0, 0, 0, 0, 0]

  const ZERO: Address := [0, 0, 0, 0, 0, 0, 0, 0, 0, 0, 0, 0, 0, 0, 0, 0]

  /** The bytes of an address of the type. */
  function Width(kind: nat): nat { if kind == TYPE_A then 4 else 16 }

  /** After copying bytes in: what they do not reach stays from before, and what does not fit lies beyond. */
  function Overlay(before: Address, bytes: seq<byte>): (r: Address)
    ensures |bytes| <= 16 ==> r[..|bytes|] == bytes && r[|bytes|..] == before[|bytes|..]
    ensures |bytes| >= 16 ==> r == bytes[..16]
  {
    if |bytes| >= 16 then bytes[..16] else bytes + before[|bytes|..]
  }
}
