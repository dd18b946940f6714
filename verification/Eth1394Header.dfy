/**
 The encapsulation header of IP over IEEE 1394 (section 4.2 of RFC 2734) as rt_eth1394 builds
 and reads it.

 The driver keeps a header as four 16-bit words with bit fields in them, and moves words to and from
 the packet with htons/ntohs or as they are. `Encap` is what such a header means, independent of the
 byte order of either host; `HeaderBytes` is the layout on the wire.
 */
module Eth1394Header {
  import opened Bytes

  type u12 = x: int | 0 <= x < 0x1000
  type u4 = x: int | 0 <= x < 0x10
  type u2 = x: int | 0 <= x < 4
  type DatagramSize = x: int | 1 <= x <= 0x1000 witness 1

  // --- Words in memory -------------------------------------------------------------------------

  datatype Host = LittleEndian | BigEndian

  function Swap(w: u16): u16 {
    (w % 0x100) * 0x100 + w / 0x100
  }

  /** htons and ntohs are the same function. */
  function Htons(h: Host, w: u16): u16 {
    if h.BigEndian? then w else Swap(w)
  }

  /** The two bytes a host writes for a word. */
  function Store(h: Host, w: u16): seq<byte> {
    if h.BigEndian? then [w / 0x100, w % 0x100] else [w % 0x100, w / 0x100]
  }

  function Load(h: Host, b0: byte, b1: byte): u16 {
    if h.BigEndian? then b0 * 0x100 + b1 else b1 * 0x100 + b0
  }

  function NetBytes(w: u16): seq<byte> {
    [w / 0x100, w % 0x100]
  }

  // --- Meaning of a header ---------------------------------------------------------------------

  /** `etherType` is the value of the two bytes in network order, `dgSize` the size itself (the header
      carries one less), `rsv` the four reserved bits in front of the fragment offset. */
  datatype Encap =
    | Unfragmented(etherType: u16)
    | First(dgSize: DatagramSize, etherType: u16, dgl: u16)
    | Subsequent(last: bool, dgSize: DatagramSize, rsv: u4, fgOff: u12, dgl: u16)

  const LF_UF: u2 := 0
  const LF_FF: u2 := 1
  const LF_LF: u2 := 2
  const LF_IF: u2 := 3

  function HdrTypeLen(lf: u2): nat {
    if lf == LF_UF then 4 else 8
  }

  /** Section 4.2 of RFC 2734: the fields, most significant bit first. */
  function HeaderBytes(e: Encap): (bytes: seq<byte>)
    ensures |bytes| == if e.Unfragmented? then 4 else 8
  {
    match e
    case Unfragmented(t) =>
      NetBytes(LF_UF * 0x4000) + NetBytes(t)
    case First(size, t, dgl) =>
      NetBytes(LF_FF * 0x4000 + (size - 1)) + NetBytes(t) + NetBytes(dgl) + NetBytes(0)
    case Subsequent(last, size, rsv, off, dgl) =>
      NetBytes((if last then LF_LF else LF_IF) * 0x4000 + (size - 1)) + NetBytes(rsv * 0x1000 + off)
      + NetBytes(dgl) + NetBytes(0)
  }

  /** Two bytes of a packet as a number, most significant byte first. */
  function WordAt(bytes: seq<byte>, i: nat): int
    requires i + 1 < |bytes|
  {
    var high: int, low: int := bytes[i], bytes[i + 1];
    high * 0x100 + low
  }

  /** The layout in numbers: the kind of packet is in the top two bits, 0 for a whole datagram, 1 for a first, 2 for a
      last and 3 for an interior fragment. */
  lemma HeaderLayout(e: Encap)
    ensures var b := HeaderBytes(e);
      && (e.Unfragmented? ==> WordAt(b, 0) == 0 && WordAt(b, 2) == e.etherType)
      && (e.First? ==> WordAt(b, 0) == 0x4000 + e.dgSize - 1 && WordAt(b, 2) == e.etherType)
      && (e.Subsequent? ==> WordAt(b, 0) == (if e.last then 0x8000 else 0xC000) + e.dgSize - 1)
      && (e.Subsequent? ==> WordAt(b, 2) == e.rsv * 0x1000 + e.fgOff)
      && (!e.Unfragmented? ==> WordAt(b, 4) == e.dgl && WordAt(b, 6) == 0)
  {
  }

  // --- The driver's header words ---------------------------------------------------------------

  /** `union eth1394_hdr`, by its bit fields: word 1 is lf, two reserved bits and dg_size, word 2 is
      either the ether type or four reserved bits and fg_off, word 3 is dgl; word 4 stays zero. */
  datatype Hdr = Hdr(lf: u2, res1: u2, dgSize: u12, res2: u4, fgOff: u12, dgl: u16) {
    function Word1(): u16 { lf * 0x4000 + res1 * 0x1000 + dgSize }
    function Word2(): u16 { res2 * 0x1000 + fgOff }

    function SetEtherType(t: u16): (h: Hdr)
      ensures h.Word2() == t
    {
      this.(res2 := t / 0x1000, fgOff := t % 0x1000)
    }
  }

  const ZeroHdr := Hdr(0, 0, 0, 0, 0, 0)

  /** The header eth1394_encapsulate copies into the packet, by fragment type: the ether type goes out
      as it is stored, everything else in network order. */
  function Emit(h: Host, hdr: Hdr): (bytes: seq<byte>)
    ensures |bytes| == HdrTypeLen(hdr.lf)
  {
    if hdr.lf == LF_UF then
      Store(h, Htons(h, hdr.Word1())) + Store(h, hdr.Word2())
    else if hdr.lf == LF_FF then
      Store(h, Htons(h, hdr.Word1())) + Store(h, hdr.Word2()) + Store(h, Htons(h, hdr.dgl)) + Store(h, 0)
    else
      Store(h, Htons(h, hdr.Word1())) + Store(h, Htons(h, hdr.Word2())) + Store(h, Htons(h, hdr.dgl)) + Store(h, 0)
  }

  /** What header words mean when host `h` emits them. */
  function Meaning(h: Host, hdr: Hdr): Encap {
    if hdr.lf == LF_UF then
      Unfragmented(Htons(h, hdr.Word2()))
    else if hdr.lf == LF_FF then
      First(hdr.dgSize + 1, Htons(h, hdr.Word2()), hdr.dgl)
    else
      Subsequent(hdr.lf == LF_LF, hdr.dgSize + 1, hdr.res2, hdr.fgOff, hdr.dgl)
  }

  /** Bits of the first word that no code path sets. */
  predicate ReservedClear(hdr: Hdr) {
    hdr.res1 == 0 && (hdr.lf == LF_UF ==> hdr.dgSize == 0)
  }

  function Lf(h: Host, buf: seq<byte>): u2
    requires |buf| >= 2
  {
    Htons(h, Load(h, buf[0], buf[1])) / 0x4000
  }

  /** eth1394_data_handler's reading of a packet: ntohs on words 1 and 3, on word 2 only for
      subsequent fragments, then the bit fields. */
  function Parse(h: Host, buf: seq<byte>): Encap
    requires |buf| >= 4
    requires Lf(h, buf) != LF_UF ==> |buf| >= 8
  {
    var lf := Lf(h, buf);
    var word1 := Htons(h, Load(h, buf[0], buf[1]));
    var raw2 := Load(h, buf[2], buf[3]);
    if lf == LF_UF then
      Unfragmented(Htons(h, raw2))
    else
      var word3 := Htons(h, Load(h, buf[4], buf[5]));
      if lf == LF_FF then
        First(word1 % 0x1000 + 1, Htons(h, raw2), word3)
      else
        var word2 := Htons(h, raw2);
        Subsequent(lf == LF_LF, word1 % 0x1000 + 1, word2 / 0x1000, word2 % 0x1000, word3)
  }

  // --- Printer and parser ----------------------------------------------------------------------

  lemma NetworkOrder(h: Host, w: u16)
    ensures Store(h, Htons(h, w)) == NetBytes(w)
    ensures Store(h, w) == NetBytes(Htons(h, w))
    ensures Htons(h, Htons(h, w)) == w
  {
  }

  /** Whatever its byte order, a host emits exactly the RFC layout of the header's meaning. */
  lemma EmitIsWireFormat(h: Host, hdr: Hdr)
    requires ReservedClear(hdr)
    ensures Emit(h, hdr) == HeaderBytes(Meaning(h, hdr))
  {
    NetworkOrder(h, hdr.Word1());
    NetworkOrder(h, hdr.Word2());
    NetworkOrder(h, hdr.dgl);
    NetworkOrder(h, 0);
  }

  /** The parser undoes the wire layout on a host of either byte order. */
  lemma ParseInvertsHeader(h: Host, e: Encap, payload: seq<byte>)
    ensures Lf(h, HeaderBytes(e) + payload) == LF_UF <==> e.Unfragmented?
    ensures Parse(h, HeaderBytes(e) + payload) == e
  {
    var buf := HeaderBytes(e) + payload;
    match e
    case Unfragmented(t) =>
      assert buf[..4] == NetBytes(LF_UF * 0x4000) + NetBytes(t);
      ParseWords(h, LF_UF * 0x4000, t, buf);
    case First(size, t, dgl) =>
      assert buf[..6] == NetBytes(LF_FF * 0x4000 + (size - 1)) + NetBytes(t) + NetBytes(dgl);
      SplitWord(LF_FF, size - 1);
      ParseWords3(h, LF_FF * 0x4000 + (size - 1), t, dgl, buf);
    case Subsequent(last, size, rsv, off, dgl) =>
      var lf := if last then LF_LF else LF_IF;
      assert buf[..6] == NetBytes(lf * 0x4000 + (size - 1)) + NetBytes(rsv * 0x1000 + off) + NetBytes(dgl);
      SplitWord(lf, size - 1);
      ParseWords3(h, lf * 0x4000 + (size - 1), rsv * 0x1000 + off, dgl, buf);
  }

  lemma SplitWord(lf: u2, field: u12)
    ensures (lf * 0x4000 + field) / 0x4000 == lf && (lf * 0x4000 + field) % 0x1000 == field
  {
  }

  lemma ParseWords(h: Host, w1: u16, w2: u16, buf: seq<byte>)
    requires |buf| >= 4 && buf[..4] == NetBytes(w1) + NetBytes(w2)
    requires w1 / 0x4000 == LF_UF
    ensures Lf(h, buf) == LF_UF && Parse(h, buf) == Unfragmented(w2)
  {
    assert [buf[0], buf[1], buf[2], buf[3]] == buf[..4];
    LoadNet(h, buf[0], buf[1]);
    LoadNet(h, buf[2], buf[3]);
  }

  lemma ParseWords3(h: Host, w1: u16, w2: u16, w3: u16, buf: seq<byte>)
    requires |buf| >= 8 && buf[..6] == NetBytes(w1) + NetBytes(w2) + NetBytes(w3)
    requires w1 / 0x4000 != LF_UF
    ensures Lf(h, buf) != LF_UF
    ensures Parse(h, buf) ==
            if w1 / 0x4000 == LF_FF then First(w1 % 0x1000 + 1, w2, w3)
            else Subsequent(w1 / 0x4000 == LF_LF, w1 % 0x1000 + 1, w2 / 0x1000, w2 % 0x1000, w3)
  {
    assert [buf[0], buf[1], buf[2], buf[3], buf[4], buf[5]] == buf[..6];
    LoadNet(h, buf[0], buf[1]);
    LoadNet(h, buf[2], buf[3]);
    LoadNet(h, buf[4], buf[5]);
  }

  lemma LoadNet(h: Host, b0: byte, b1: byte)
    ensures Htons(h, Load(h, b0, b1)) == b0 * 0x100 + b1
  {
  }
}
