/** Bytes, sixteen-bit words and buffers of bytes. */
module Bytes {

  type byte = x: int | 0 <= x < 0x100
  type u16 = x: int | 0 <= x < 0x1_0000

  /** memcpy of `bytes` to offset `off` of a buffer. */
  function Write(buf: seq<byte>, off: nat, bytes: seq<byte>): (buf': seq<byte>)
    requires off + |bytes| <= |buf|
    ensures |buf'| == |buf|
    ensures forall i :: 0 <= i < |buf| ==> buf'[i] == if off <= i < off + |bytes| then bytes[i - off] else buf[i]
  {
    buf[..off] + bytes + buf[off + |bytes|..]
  }
}
