/**
 Datagram transmission in rt_eth1394: one packet buffer, cut into link fragments in place.

 The first header goes into the headroom in front of the datagram. Every later header is written
 into the shared buffer, over bytes that belong to the packet whose completion was just reported.
 */
module Eth1394Sender {
  import opened Bytes
  import opened Ring
  import opened Eth1394Header

  // --- What has to appear on the bus -----------------------------------------------------------

  /** One link packet: encapsulation header and payload. */
  datatype Packet = Packet(encap: Encap, payload: seq<byte>) {
    function HeaderLen(): nat {
      if encap.Unfragmented? then 4 else 8
    }
    function Bytes(): seq<byte> {
      HeaderBytes(encap) + payload
    }
  }

  /** What the 12-bit field for the size of a datagram, which holds one less, can say of it. */
  function SizeField(size: nat): DatagramSize
    requires 0 < size
  {
    (size - 1) % 0x1000 + 1
  }

  /** The packets for the bytes of `dg` from `off` on; `adj` payload bytes fit into one packet. */
  function WireFrom(dg: seq<byte>, adj: nat, rsv: u4, dgl: u16, off: nat): seq<Packet>
    requires 0 < adj && off < |dg|
    decreases |dg| - off
  {
    if |dg| - off <= adj then
      [Packet(Subsequent(true, SizeField(|dg|), rsv, off % 0x1000, dgl), dg[off..])]
    else
      [Packet(Subsequent(false, SizeField(|dg|), rsv, off % 0x1000, dgl), dg[off..off + adj])]
      + WireFrom(dg, adj, rsv, dgl, off + adj)
  }

  /** The packets for datagram `dg` of ether type `proto` (as host `h` stores it). */
  function Wire(h: Host, proto: u16, dgl: u16, maxPayload: nat, dg: seq<byte>): (packets: seq<Packet>)
    requires 8 < maxPayload
    ensures packets != []
  {
    if |dg| <= maxPayload - 4 then
      [Packet(Unfragmented(Htons(h, proto)), dg)]
    else
      [Packet(First(SizeField(|dg|), Htons(h, proto), dgl), dg[..maxPayload - 8])]
      + WireFrom(dg, maxPayload - 8, proto / 0x1000, dgl, maxPayload - 8)
  }

  /** The four bits in front of the fragment offset, which section 4.2 of RFC 2734 reserves and wants to be zero: they
      are the top nibble of the ether type as the sender stores it. */
  lemma {:induction false} ReservedFrom(dg: seq<byte>, adj: nat, rsv: u4, dgl: u16, off: nat, i: nat)
    requires 0 < adj && off < |dg| && i < |WireFrom(dg, adj, rsv, dgl, off)|
    ensures var e := WireFrom(dg, adj, rsv, dgl, off)[i].encap; e.Subsequent? && e.rsv == rsv
    decreases |dg| - off
  {
    if i > 0 {
      ReservedFrom(dg, adj, rsv, dgl, off + adj, i - 1);
    }
  }

  /** All packets of a datagram keep the reserved bits clear. */
  predicate ReservedZero(packets: seq<Packet>) {
    forall i :: 0 <= i < |packets| && packets[i].encap.Subsequent? ==> packets[i].encap.rsv == 0
  }

  /** They are clear exactly if the datagram is not fragmented or the stored ether type is below 0x1000. */
  lemma ReservedZeroIff(h: Host, proto: u16, dgl: u16, maxPayload: nat, dg: seq<byte>)
    requires 8 < maxPayload
    ensures ReservedZero(Wire(h, proto, dgl, maxPayload, dg)) <==> |dg| <= maxPayload - 4 || proto < 0x1000
  {
    var w, adj := Wire(h, proto, dgl, maxPayload, dg), maxPayload - 8;
    if |dg| > maxPayload - 4 {
      forall i | 1 <= i < |w| ensures w[i].encap.Subsequent? && w[i].encap.rsv == proto / 0x1000 {
        ReservedFrom(dg, adj, proto / 0x1000, dgl, adj, i - 1);
      }
      assert w[1].encap.rsv == proto / 0x1000;
    }
  }

  /** A little-endian host that sends IPv6 (0x86DD) puts 0xD there, in the third byte of every later packet. */
  lemma ReservedSet(dgl: u16, maxPayload: nat, dg: seq<byte>)
    requires 8 < maxPayload && maxPayload - 4 < |dg|
    ensures var w := Wire(LittleEndian, Htons(LittleEndian, 0x86DD), dgl, maxPayload, dg);
      |w| > 1 && w[1].Bytes()[2] / 0x10 == 0xD
  {
    assert Htons(LittleEndian, 0x86DD) == 0xDD86;
    var w := Wire(LittleEndian, 0xDD86, dgl, maxPayload, dg);
    ReservedFrom(dg, maxPayload - 8, 0xD, dgl, maxPayload - 8, 0);
    assert w[1].Bytes()[2] == HeaderBytes(w[1].encap)[2];
  }

  /** The offset `i` packets behind `off`. */
  function Behind(off: nat, adj: nat, i: nat): nat {
    if i == 0 then off else Behind(off, adj, i - 1) + adj
  }

  lemma {:induction false} BehindNext(off: nat, adj: nat, i: nat)
    ensures Behind(off + adj, adj, i) == Behind(off, adj, i + 1)
  {
    if i > 0 {
      BehindNext(off, adj, i - 1);
    }
  }

  lemma {:induction false} BehindIs(adj: nat, i: nat)
    ensures Behind(adj, adj, i) == adj * (i + 1)
  {
    Distribute(adj, i);
    if i > 0 {
      BehindIs(adj, i - 1);
    }
  }

  lemma {:induction false} FragmentAt(dg: seq<byte>, adj: nat, rsv: u4, dgl: u16, off: nat, i: nat)
    requires 0 < adj && off < |dg| && i < |WireFrom(dg, adj, rsv, dgl, off)|
    ensures var w := WireFrom(dg, adj, rsv, dgl, off);
      w[i].encap == Subsequent(i == |w| - 1, SizeField(|dg|), rsv, Behind(off, adj, i) % 0x1000, dgl)
    decreases |dg| - off
  {
    hide SizeField, Behind;
    if i == 0 {
      BehindNone(off, adj);
    } else {
      FragmentAt(dg, adj, rsv, dgl, off + adj, i - 1);
      BehindNext(off, adj, i - 1);
    }
  }

  lemma BehindNone(off: nat, adj: nat)
    ensures Behind(off, adj, 0) == off
  {
  }

  /** The header in front of packet `i` of `n`, in numbers, for a datagram of `size` bytes: the ether type as the host
      keeps it in memory, the top nibble of the ether type in front of the offset. */
  predicate Stamped(bytes: seq<byte>, h: Host, proto: u16, dgl: u16, maxPayload: nat, size: nat, i: nat, n: nat)
    requires 8 < maxPayload && 0 < n
  {
    var stored := if h.BigEndian? then proto else proto % 0x100 * 0x100 + proto / 0x100;
    if size <= maxPayload - 4 then
      n == 1 && |bytes| == 4 + size && WordAt(bytes, 0) == 0 && WordAt(bytes, 2) == stored
    else
      && n > 1 && |bytes| > 8
      && WordAt(bytes, 0) == (if i == 0 then 0x4000 else if i == n - 1 then 0x8000 else 0xC000) + (size - 1) % 0x1000
      && WordAt(bytes, 2) == (if i == 0 then stored else proto / 0x1000 * 0x1000 + (maxPayload - 8) * i % 0x1000)
      && WordAt(bytes, 4) == dgl && WordAt(bytes, 6) == 0
  }

  lemma WordsOfPacket(p: Packet, i: nat)
    requires i + 1 < |HeaderBytes(p.encap)|
    ensures WordAt(p.Bytes(), i) == WordAt(HeaderBytes(p.encap), i)
  {
    hide HeaderBytes;
  }

  lemma PacketStamped(h: Host, proto: u16, dgl: u16, maxPayload: nat, dg: seq<byte>, i: nat)
    requires 8 < maxPayload && i < |Wire(h, proto, dgl, maxPayload, dg)|
    ensures var w := Wire(h, proto, dgl, maxPayload, dg);
      Stamped(w[i].Bytes(), h, proto, dgl, maxPayload, |dg|, i, |w|)
  {
    hide HeaderBytes, WireFrom, Packet.Bytes, Wire, Tiles, Payloads;
    var w := Wire(h, proto, dgl, maxPayload, dg);
    EncapAt(h, proto, dgl, maxPayload, dg, i);
    HeaderLayout(w[i].encap);
    BytesOfPacket(w[i]);
    if |dg| > maxPayload - 4 {
      WordsOfPacket(w[i], 4);
      WordsOfPacket(w[i], 6);
    }
    WordsOfPacket(w[i], 0);
    WordsOfPacket(w[i], 2);
  }

  lemma BytesOfPacket(p: Packet)
    ensures |p.Bytes()| == |HeaderBytes(p.encap)| + |p.payload|
  {
  }

  /** What the header of packet `i` means. */
  lemma EncapAt(h: Host, proto: u16, dgl: u16, maxPayload: nat, dg: seq<byte>, i: nat)
    requires 8 < maxPayload && i < |Wire(h, proto, dgl, maxPayload, dg)|
    ensures var w, adj := Wire(h, proto, dgl, maxPayload, dg), maxPayload - 8;
      if |dg| <= maxPayload - 4 then |w| == 1 && w[i] == Packet(Unfragmented(Htons(h, proto)), dg)
      else
        && |w| > 1 && w[i].payload != []
        && w[i].encap == if i == 0 then First(SizeField(|dg|), Htons(h, proto), dgl)
                         else Subsequent(i == |w| - 1, SizeField(|dg|), proto / 0x1000, adj * i % 0x1000, dgl)
  {
    hide Htons, SizeField, Behind, Tiles, WireFrom;
    var adj := maxPayload - 8;
    if |dg| > maxPayload - 4 && i > 0 {
      FragmentAt(dg, adj, proto / 0x1000, dgl, adj, i - 1);
      BehindIs(adj, i - 1);
      PayloadAt(dg, adj, proto / 0x1000, dgl, adj, i - 1);
    }
    if |dg| > maxPayload - 4 {
      PayloadAt(dg, adj, proto / 0x1000, dgl, adj, 0);
    }
  }

  lemma {:induction false} PayloadAt(dg: seq<byte>, adj: nat, rsv: u4, dgl: u16, off: nat, i: nat)
    requires 0 < adj && off < |dg|
    ensures var w := WireFrom(dg, adj, rsv, dgl, off); w != [] && (i < |w| ==> w[i].payload != [])
    decreases |dg| - off
  {
    if i > 0 && |dg| - off > adj {
      PayloadAt(dg, adj, rsv, dgl, off + adj, i - 1);
    }
  }

  /** The number of packets of at most `d` payload bytes that `n` bytes take. */
  function CeilDiv(n: nat, d: nat): nat
    requires d > 0
  {
    if n == 0 then 0 else if n <= d then 1 else 1 + CeilDiv(n - d, d)
  }

  /** eth1394_encapsulate_prep computes it with one division. */
  lemma {:induction false} CeilDivByDivision(n: nat, d: nat)
    requires d > 0
    ensures (n + (d - 1)) / d == CeilDiv(n, d)
    decreases n
  {
    if n == 0 {
      DivModUnique(d - 1, d, 0, d - 1);
    } else if n <= d {
      DivModUnique(n + (d - 1), d, 1, n - 1);
    } else {
      CeilDivByDivision(n - d, d);
      var m := n - d + (d - 1);
      calc {
        n + (d - 1);
        m + d;
        d * (m / d) + m % d + d;
        { Distribute(d, m / d); }
        d * (m / d + 1) + m % d;
      }
      DivModUnique(n + (d - 1), d, m / d + 1, m % d);
    }
  }

  method PacketCount(size: nat, adj: nat) returns (count: nat)
    requires adj > 0
    ensures count == CeilDiv(size, adj)
  {
    CeilDivByDivision(size, adj);
    count := (size + (adj - 1)) / adj;
  }

  function Payloads(packets: seq<Packet>): seq<byte> {
    if packets == [] then [] else packets[0].payload + Payloads(packets[1..])
  }

  /** `packets` are fragments of `dg` that start at `off` and follow each other without gap or overlap
      up to its end; only the last one says that it is the last. */
  predicate Tiles(packets: seq<Packet>, dg: seq<byte>, adj: nat, off: nat) {
    if packets == [] then
      off == |dg|
    else
      var p := packets[0];
      && 0 < |p.payload| <= adj
      && off + |p.payload| <= |dg|
      && p.encap.Subsequent?
      && p.encap.dgSize == SizeField(|dg|)
      && p.encap.fgOff == off % 0x1000
      && (p.encap.last <==> |packets| == 1)
      && p.payload == dg[off..off + |p.payload|]
      && Tiles(packets[1..], dg, adj, off + |p.payload|)
  }

  lemma {:induction false} WireTiles(dg: seq<byte>, adj: nat, rsv: u4, dgl: u16, off: nat)
    requires 0 < adj && off < |dg|
    ensures |WireFrom(dg, adj, rsv, dgl, off)| == CeilDiv(|dg| - off, adj)
    ensures Tiles(WireFrom(dg, adj, rsv, dgl, off), dg, adj, off)
    decreases |dg| - off
  {
    var w := WireFrom(dg, adj, rsv, dgl, off);
    if |dg| - off <= adj {
      assert w[1..] == [];
    } else {
      WireTiles(dg, adj, rsv, dgl, off + adj);
      assert w[1..] == WireFrom(dg, adj, rsv, dgl, off + adj);
    }
  }

  lemma {:induction false} TilesCarryAll(packets: seq<Packet>, dg: seq<byte>, adj: nat, off: nat)
    requires off <= |dg| && Tiles(packets, dg, adj, off)
    ensures Payloads(packets) == dg[off..]
    ensures forall p :: p in packets ==> !p.encap.Unfragmented? && |p.payload| <= adj
  {
    if packets != [] {
      var n, rest := off + |packets[0].payload|, packets[1..];
      assert off <= n <= |dg| && packets[0].payload == dg[off..n] && Tiles(rest, dg, adj, n);
      assert !packets[0].encap.Unfragmented? && |packets[0].payload| <= adj;
      hide Tiles;
      TilesCarryAll(rest, dg, adj, n);
      assert packets == [packets[0]] + rest;
      assert dg[off..] == dg[off..n] + dg[n..];
    }
  }

  /** The whole datagram, in packets that all fit. */
  lemma TransmissionTiles(h: Host, proto: u16, dgl: u16, maxPayload: nat, dg: seq<byte>)
    requires 8 < maxPayload
    ensures Payloads(Wire(h, proto, dgl, maxPayload, dg)) == dg
    ensures forall p :: p in Wire(h, proto, dgl, maxPayload, dg) ==> p.HeaderLen() + |p.payload| <= maxPayload
  {
    var adj := maxPayload - 8;
    var w := Wire(h, proto, dgl, maxPayload, dg);
    if |dg| <= maxPayload - 4 {
      assert w[1..] == [];
    } else {
      var rest := WireFrom(dg, adj, proto / 0x1000, dgl, adj);
      assert w == [w[0]] + rest && w[0].payload == dg[..adj];
      hide WireFrom, Wire, Tiles;
      WireTiles(dg, adj, proto / 0x1000, dgl, adj);
      TilesCarryAll(rest, dg, adj, adj);
      assert w[1..] == rest;
      assert dg == dg[..adj] + dg[adj..];
    }
  }

  lemma {:induction false} SizeFrom(dg: seq<byte>, adj: nat, rsv: u4, dgl: u16, off: nat, i: nat)
    requires 0 < adj && off < |dg| && i < |WireFrom(dg, adj, rsv, dgl, off)|
    ensures var e := WireFrom(dg, adj, rsv, dgl, off)[i].encap;
      e.Subsequent? && e.dgSize == SizeField(|dg|) && e.dgl == dgl
    decreases |dg| - off
  {
    if i > 0 {
      SizeFrom(dg, adj, rsv, dgl, off + adj, i - 1);
    }
  }

  /** The fragments name the size of the datagram exactly up to 4096 bytes; above that they all name another one. */
  lemma SizesTrueIff(h: Host, proto: u16, dgl: u16, maxPayload: nat, dg: seq<byte>, i: nat)
    requires 8 < maxPayload && maxPayload - 4 < |dg| && i < |Wire(h, proto, dgl, maxPayload, dg)|
    ensures var e := Wire(h, proto, dgl, maxPayload, dg)[i].encap;
      !e.Unfragmented? && e.dgl == dgl && (e.dgSize == |dg| <==> |dg| <= 0x1000)
  {
    if i > 0 {
      SizeFrom(dg, maxPayload - 8, proto / 0x1000, dgl, maxPayload - 8, i - 1);
    }
  }

  /** The number of packets sent is the number eth1394_encapsulate_prep announces, except that the empty
      datagram is announced as no packet and sent as one. */
  lemma AnnouncedCount(h: Host, proto: u16, dgl: u16, maxPayload: nat, dg: seq<byte>)
    requires 8 < maxPayload
    ensures var sent := |Wire(h, proto, dgl, maxPayload, dg)|;
      var announced := CeilDiv(|dg|, if |dg| <= maxPayload - 4 then maxPayload - 4 else maxPayload - 8);
      && (sent == announced <==> dg != [])
      && (dg == [] ==> sent == 1 && announced == 0)
  {
    if |dg| > maxPayload - 4 {
      WireTiles(dg, maxPayload - 8, proto / 0x1000, dgl, maxPayload - 8);
    }
  }

  // --- States of a transmission ----------------------------------------------------------------

  function Min(a: nat, b: nat): nat {
    if a < b then a else b
  }

  /** `window` is the packet on the bus followed by everything still to send; `sent` are the packets
      handed to the bus so far. */
  datatype Progress = Progress(host: Host, proto: u16, dgl: u16, max: nat, dg: seq<byte>,
                               hdr: Hdr, window: seq<byte>, outstanding: int, sent: seq<Packet>)
  {
    predicate Sized() {
      8 < max && |dg| < 0x1_0000
    }

    /** The datagram is on the bus in one packet. */
    predicate Single() {
      && Sized()
      && |dg| <= max - 4
      && outstanding == CeilDiv(|dg|, max - 4)
      && sent == Wire(host, proto, dgl, max, dg)
      && window == sent[0].Bytes()
    }

    function Remaining(off: nat): seq<Packet>
      requires Sized() && off < |dg|
    {
      if |dg| - off <= max - 8 then [] else WireFrom(dg, max - 8, proto / 0x1000, dgl, off + (max - 8))
    }

    /** The header words behind the fragment at `off`. */
    function HeaderAt(off: nat): Hdr
      requires Sized() && off < |dg|
    {
      Hdr(if |dg| - off <= max - 8 then LF_LF else LF_IF, 0, (|dg| - 1) % 0x1000, proto / 0x1000, off % 0x1000, dgl)
    }

    /** The fragment at `off` is on the bus. */
    predicate Fragmenting(off: nat) {
      && Sized()
      && max - 4 < |dg| && off < |dg|
      && hdr == HeaderAt(off)
      && |window| == |dg| - off + 8
      && window[8..] == dg[off..]
      && outstanding == CeilDiv(|dg| - off, max - 8)
      && sent + Remaining(off) == Wire(host, proto, dgl, max, dg)
      && sent != []
      && window[..Min(max, |window|)] == sent[|sent| - 1].Bytes()
    }

    ghost predicate Pending() {
      Single() || exists off: nat :: Fragmenting(off)
    }
  }

  /** Packets are still to come exactly while more than the current one is outstanding. */
  lemma ProgressIsPrefix(s: Progress)
    requires s.Pending()
    ensures s.Sized()
    ensures var all := Wire(s.host, s.proto, s.dgl, s.max, s.dg);
      && |s.sent| <= |all| && s.sent == all[..|s.sent|]
      && (s.outstanding > 1 <==> |s.sent| < |all|)
  {
    hide Wire, CeilDiv, Progress.Single, Progress.Fragmenting;
    if s.Single() {
      SingleIsAll(s);
    } else {
      var off: nat :| s.Fragmenting(off);
      FragmentsFollow(s, off);
    }
  }

  lemma SingleIsAll(s: Progress)
    requires s.Single()
    ensures s.Sized() && |s.sent| == 1 && s.sent == Wire(s.host, s.proto, s.dgl, s.max, s.dg) && s.outstanding <= 1
  {
  }

  lemma FragmentsFollow(s: Progress, off: nat)
    requires s.Fragmenting(off)
    ensures s.Sized()
    ensures exists rest ::
      s.sent + rest == Wire(s.host, s.proto, s.dgl, s.max, s.dg) && (s.outstanding > 1 <==> rest != [])
  {
    hide Wire, Packet.Bytes;
    var adj := s.max - 8;
    if |s.dg| - off > adj {
      WireTiles(s.dg, adj, s.proto / 0x1000, s.dgl, off + adj);
    }
    assert s.sent + s.Remaining(off) == Wire(s.host, s.proto, s.dgl, s.max, s.dg);
  }

  /** The header words of a datagram before its first packet. */
  predicate PreparedHdr(hdr: Hdr, max: nat, p: u16, size: u16, tag: u16)
    requires 8 < max
  {
    && ReservedClear(hdr) && hdr.Word2() == p
    && hdr.lf == (if size <= max - 4 then LF_UF else LF_FF)
    && (hdr.lf == LF_FF ==> hdr.dgSize == (size - 1) % 0x1000 && hdr.dgl == tag)
  }

  /** They say what RFC 2734 asks for, exactly when the size fits its 12-bit field. */
  lemma PreparedMeaning(h: Host, hdr: Hdr, max: nat, p: u16, size: u16, tag: u16)
    requires 8 < max && PreparedHdr(hdr, max, p, size, tag)
    ensures size <= max - 4 ==> Meaning(h, hdr) == Unfragmented(Htons(h, p))
    ensures size > max - 4 ==> Meaning(h, hdr) == First((size - 1) % 0x1000 + 1, Htons(h, p), tag)
    ensures size > max - 4 ==> (Meaning(h, hdr).dgSize == size <==> size <= 0x1000)
  {
  }

  /** What eth1394_prep_gasp_packet puts in front of a broadcast packet: the sender, the specifier 0x00005E of the
      organisation that defined the format, and the version of the format. */
  function GaspHeader(node: u16): (bytes: seq<byte>)
    ensures |bytes| == 8
  {
    NetBytes(node) + NetBytes(0) + NetBytes(0x5E00) + NetBytes(1)
  }

  function GaspPrefix(gasp: bool, node: u16): (bytes: seq<byte>)
    ensures |bytes| == if gasp then 8 else 0
  {
    if gasp then GaspHeader(node) else []
  }

  lemma SliceJoin(s: seq<byte>, a: nat, b: nat, c: nat, n: nat)
    requires a <= b && b + n <= c <= |s|
    ensures s[a..b + n] == s[a..b] + s[b..c][..n]
  {
  }

  /** The bytes on the bus are those of the packets, each behind the same prefix. */
  predicate Logged(bus: seq<seq<byte>>, prefix: seq<byte>, packets: seq<Packet>) {
    |bus| == |packets| && forall i :: 0 <= i < |bus| ==> bus[i] == prefix + packets[i].Bytes()
  }

  /** A packet on the bus in numbers: in a broadcast, the sender, the specifier 0x00005E and version 1 come first. */
  predicate InNumbers(raw: seq<byte>, broadcast: bool, node: u16, h: Host, proto: u16, dgl: u16, maxPayload: nat,
                      size: nat, i: nat, n: nat)
    requires 8 < maxPayload && 0 < n
  {
    var start := if broadcast then 8 else 0;
    && |raw| >= start && Stamped(raw[start..], h, proto, dgl, maxPayload, size, i, n)
    && (broadcast ==>
      WordAt(raw, 0) == node && WordAt(raw, 2) == 0 && WordAt(raw, 4) == 0x5E00 && WordAt(raw, 6) == 1)
  }

  lemma GaspInNumbers(node: u16)
    ensures var g := GaspHeader(node);
      WordAt(g, 0) == node && WordAt(g, 2) == 0 && WordAt(g, 4) == 0x5E00 && WordAt(g, 6) == 1
  {
  }

  lemma LoggedInNumbers(bus: seq<seq<byte>>, broadcast: bool, node: u16, h: Host, proto: u16, dgl: u16, maxPayload: nat,
                        dg: seq<byte>, i: nat)
    requires 8 < maxPayload && i < |bus|
    requires Logged(bus, GaspPrefix(broadcast, node), Wire(h, proto, dgl, maxPayload, dg))
    ensures InNumbers(bus[i], broadcast, node, h, proto, dgl, maxPayload, |dg|, i, |bus|)
  {
    hide Wire, GaspHeader, Stamped, Packet.Bytes;
    var w := Wire(h, proto, dgl, maxPayload, dg);
    PacketStamped(h, proto, dgl, maxPayload, dg, i);
    GaspInNumbers(node);
    assert bus[i][if broadcast then 8 else 0..] == w[i].Bytes();
    assert broadcast ==> bus[i][..8] == GaspHeader(node);
    assert forall k :: 0 <= k < 8 && broadcast ==> bus[i][k] == bus[i][..8][k];
  }

  lemma CurrentFragment(s: Progress) returns (off: nat)
    requires s.Pending() && s.outstanding > 1
    ensures s.Fragmenting(off)
    ensures s.Sized() && off + (s.max - 8) < |s.dg|
    ensures s.hdr.lf == LF_IF && s.max < |s.window|
  {
    off :| s.Fragmenting(off);
  }

  lemma FragmentingTells(s: Progress, off: nat)
    requires s.Fragmenting(off)
    ensures s.Sized() && off < |s.dg| && s.hdr == s.HeaderAt(off) && |s.window| == |s.dg| - off + 8
  {
  }

  /** What the next fragment is called. */
  lemma NextEncap(s: Progress, off: nat)
    requires s.Sized() && off + (s.max - 8) < |s.dg|
    ensures Meaning(s.host, s.HeaderAt(off + (s.max - 8))) == NextPacket(s, off).encap
  {
    hide Htons, Wire, CeilDiv, Packet.Bytes;
  }

  /** The header of the next fragment. */
  lemma NextHeader(s: Progress, off: nat, hdr: Hdr)
    requires s.Fragmenting(off) && off + (s.max - 8) < |s.dg| && s.max < |s.window|
    requires hdr == s.hdr.(fgOff := (s.hdr.fgOff + (s.max - 8)) % 0x1000,
                           lf := if s.max >= |s.window| - (s.max - 8) then LF_LF else s.hdr.lf)
    ensures hdr == s.HeaderAt(off + (s.max - 8))
    ensures Emit(s.host, hdr) == HeaderBytes(NextPacket(s, off).encap)
  {
    hide Meaning, NextPacket, HeaderBytes, Emit, Progress.Fragmenting;
    FragmentingTells(s, off);
    WrapAdd(off, s.max - 8);
    NextEncap(s, off);
    EmitIsWireFormat(s.host, hdr);
  }

  lemma WrapAdd(a: nat, b: nat)
    ensures (a % 0x1000 + b) % 0x1000 == (a + b) % 0x1000
  {
  }

  /** The packets from the next one on. */
  lemma NextRemaining(s: Progress, off: nat)
    requires s.Sized() && off + (s.max - 8) < |s.dg|
    ensures var adj := s.max - 8;
      var next, rest := NextPacket(s, off), s.Remaining(off);
      && rest == [next] + s.Remaining(off + adj)
      && next.payload == s.dg[off + adj..][..Min(adj, |s.dg| - off - adj)] && !next.encap.Unfragmented?
  {
    hide SizeField;
    var adj := s.max - 8;
    var n := Min(adj, |s.dg| - off - adj);
    assert s.dg[off + adj..][..n] == s.dg[off + adj..off + adj + n];
    var rest := s.Remaining(off);
    assert rest == [rest[0]] + s.Remaining(off + adj);
  }

  /** Both depend on the datagram alone. */
  lemma SameDatagram(s: Progress, s': Progress, off: nat)
    requires s.Sized() && off < |s.dg|
    requires s' == s.(hdr := s'.hdr, window := s'.window, outstanding := s'.outstanding, sent := s'.sent)
    ensures s'.Sized() && s'.HeaderAt(off) == s.HeaderAt(off) && s'.Remaining(off) == s.Remaining(off)
  {
  }

  /** What eth1394_encapsulate does to a datagram of several packets after the first one. */
  lemma NextFragment(s: Progress, off: nat, s': Progress)
    requires s.Fragmenting(off) && off + (s.max - 8) < |s.dg| && s.max < |s.window|
    requires s'.hdr == s.hdr.(fgOff := (s.hdr.fgOff + (s.max - 8)) % 0x1000,
                              lf := if s.max >= |s.window| - (s.max - 8) then LF_LF else s.hdr.lf)
    requires s' == s.(hdr := s'.hdr, window := Emit(s.host, s'.hdr) + s.window[s.max..],
                      outstanding := s.outstanding - 1, sent := s.sent + [NextPacket(s, off)])
    ensures s'.Pending()
    ensures s'.window[..Min(s.max, |s'.window|)] == NextPacket(s, off).Bytes()
  {
    hide HeaderBytes, Emit, NextPacket, Wire, WireFrom, Progress.Remaining, Progress.HeaderAt;
    var adj, next := s.max - 8, NextPacket(s, off);
    NextHeader(s, off, s'.hdr);
    NextRemaining(s, off);
    SameDatagram(s, s', off + adj);
    assert s.window[s.max..] == s.window[8..][adj..] == s.dg[off + adj..];
    assert s'.window[..Min(s.max, |s'.window|)] == next.Bytes();
    assert s'.Fragmenting(off + adj);
  }

  function NextPacket(s: Progress, off: nat): Packet
    requires s.Sized() && off + (s.max - 8) < |s.dg|
  {
    s.Remaining(off)[0]
  }

  /** The state behind the first packet, from the header eth1394_encapsulate_prep made. */
  lemma FirstPacket(s: Progress, hdr: Hdr)
    requires s.Sized()
    requires ReservedClear(hdr) && hdr.Word2() == s.proto
    requires hdr.lf == if |s.dg| <= s.max - 4 then LF_UF else LF_FF
    requires hdr.lf == LF_FF ==>
      && hdr.dgSize == (|s.dg| - 1) % 0x1000 && hdr.dgl == s.dgl
      && s.hdr == hdr.(lf := LF_IF, fgOff := 0)
    requires s.window == Emit(s.host, hdr) + s.dg
    requires s.outstanding == CeilDiv(|s.dg|, if |s.dg| <= s.max - 4 then s.max - 4 else s.max - 8)
    requires s.sent == [Wire(s.host, s.proto, s.dgl, s.max, s.dg)[0]]
    ensures s.Pending()
    ensures s.window[..Min(s.max, |s.window|)] == s.sent[0].Bytes()
  {
    hide HeaderBytes, Emit, Htons;
    EmitIsWireFormat(s.host, hdr);
    if |s.dg| > s.max - 4 {
      assert hdr.res2 == s.proto / 0x1000;
      assert s.window[8..] == s.dg[0..];
      assert s.window[..s.max] == s.sent[0].Bytes();
      assert s.Fragmenting(0);
    }
  }

  // --- The driver ------------------------------------------------------------------------------

  /** `struct packet_task` together with its rtskb: `buf[data..data + len]` is the packet on the bus
      and everything still to send. */
  class PacketTask {
    const host: Host
    const node: u16                     // the id of the host on the bus
    const buf: array<byte>
    var gasp: bool                      // tx_type == ETH1394_GASP
    var data: nat
    var len: nat
    var hdr: Hdr
    var maxPayload: nat
    var outstanding: int
    var busy: bool                      // ptask->packet != NULL
    var bus: seq<seq<byte>>             // what was handed to the bus for this datagram
    ghost var sent: seq<Packet>
    ghost var dg: seq<byte>
    ghost var proto: u16
    ghost var dgl: u16

    constructor (h: Host, id: u16, skb: array<byte>, start: nat, size: nat)
      requires start + size <= skb.Length
      ensures host == h && node == id && buf == skb && data == start && len == size && !busy
    {
      host, node, buf, gasp, data, len, busy := h, id, skb, false, start, size, false;
      hdr, maxPayload, outstanding := ZeroHdr, 512, 0;
      bus, sent, dg, proto, dgl := [], [], [], 0, 0;
    }

    ghost function Window(): seq<byte>
      reads this, buf
      requires data + len <= buf.Length
    {
      buf[data..data + len]
    }

    ghost function State(): Progress
      reads this, buf
      requires data + len <= buf.Length
    {
      Progress(host, proto, dgl, maxPayload, dg, hdr, Window(), outstanding, sent)
    }

    ghost predicate Valid()
      reads this, buf
    {
      && data + len <= buf.Length
      && (busy ==> State().Pending() && Roomy())
      && Logged(bus, GaspPrefix(gasp, node), sent)
    }

    /** There is room in front of the packet for the extra bytes of a broadcast. */
    predicate Roomy()
      reads this`gasp, this`data, this`maxPayload
    {
      gasp ==> 8 <= data && 16 <= maxPayload
    }

    ghost function Packets(): seq<Packet>
      reads this
      requires 8 < maxPayload
    {
      Wire(host, proto, dgl, maxPayload, dg)
    }

    /** Section 4.2 of RFC 2734: does the datagram fit, and how many packets does it take?
        Sizes above 4096 do not fit the 12-bit field of the header. */
    method EncapsulatePrep(max: nat, p: u16, size: u16, tag: u16) returns (count: nat)
      requires 8 < max
      requires hdr == ZeroHdr
      modifies this`hdr
      ensures count == CeilDiv(size, if size <= max - 4 then max - 4 else max - 8)
      ensures PreparedHdr(hdr, max, p, size, tag)
    {
      hide CeilDiv;
      var adj := max - HdrTypeLen(LF_UF);
      if size <= adj {
        hdr := hdr.(lf := LF_UF).SetEtherType(p);
      } else {
        hdr := hdr.(lf := LF_FF).SetEtherType(p).(dgSize := (size - 1) % 0x1000, dgl := tag);
        adj := max - HdrTypeLen(LF_FF);
      }
      count := PacketCount(size, adj);
    }

    method WriteHeader(bytes: seq<byte>)
      requires |bytes| <= len && data + len <= buf.Length
      modifies buf
      ensures Window() == bytes + old(Window())[|bytes|..]
      ensures forall i :: 0 <= i < buf.Length && !(data <= i < data + |bytes|) ==> buf[i] == old(buf[i])
    {
      forall i | 0 <= i < |bytes| {
        buf[data + i] := bytes[i];
      }
      ghost var after := bytes + old(Window())[|bytes|..];
      assert |after| == len && forall i :: 0 <= i < len ==> Window()[i] == after[i];
    }

    /** rtskb_push, and the header into the bytes gained. */
    method PushHeader(bytes: seq<byte>)
      requires |bytes| <= data && data + len <= buf.Length
      modifies this`data, this`len, buf
      ensures data == old(data) - |bytes| && len == old(len) + |bytes|
      ensures Window() == bytes + old(Window())
      ensures forall i :: 0 <= i < buf.Length && !(data <= i < data + |bytes|) ==> buf[i] == old(buf[i])
    {
      data, len := data - |bytes|, len + |bytes|;
      WriteHeader(bytes);
    }

    /** rtskb_pull, and the header over the bytes that are now in front. */
    method PullHeader(n: nat, bytes: seq<byte>)
      requires n + |bytes| <= len && data + len <= buf.Length
      modifies this`data, this`len, buf
      ensures data == old(data) + n && len == old(len) - n
      ensures Window() == bytes + old(Window())[n + |bytes|..]
      ensures forall i :: 0 <= i < buf.Length && !(data <= i < data + |bytes|) ==> buf[i] == old(buf[i])
    {
      data, len := data + n, len - n;
      WriteHeader(bytes);
    }

    /** Adds the encapsulation header of the next packet. A first header goes in front of the data;
        a later one over the eight bytes in front of the next payload, all of which belong to the packet
        that was on the bus. */
    method Encapsulate() returns (txLen: nat)
      requires 8 < maxPayload
      requires data + len <= buf.Length
      requires hdr.lf in {LF_UF, LF_FF} ==> HdrTypeLen(hdr.lf) <= data
      requires hdr.lf in {LF_LF, LF_IF} ==> maxPayload < len
      modifies this`data, this`len, this`hdr, buf
      ensures txLen == Min(maxPayload, len)
      ensures data + len == old(data + len) <= buf.Length
      ensures old(hdr.lf) in {LF_UF, LF_FF} ==>
        && data == old(data) - HdrTypeLen(old(hdr.lf))
        && hdr == (if old(hdr.lf) == LF_UF then old(hdr) else old(hdr).(lf := LF_IF, fgOff := 0))
        && Window() == Emit(host, old(hdr)) + old(Window())
      ensures old(hdr.lf) in {LF_LF, LF_IF} ==>
        && data == old(data) + (maxPayload - 8)
        && data + HdrTypeLen(old(hdr.lf)) <= old(data) + Min(maxPayload, old(len))
        && hdr == old(hdr).(fgOff := (old(hdr).fgOff + (maxPayload - 8)) % 0x1000,
                            lf := if maxPayload >= len then LF_LF else old(hdr).lf)
        && Window() == Emit(host, hdr) + old(Window())[maxPayload..]
      ensures forall i :: 0 <= i < buf.Length && !(data <= i < data + HdrTypeLen(old(hdr.lf))) ==> buf[i] == old(buf[i])
    {
      hide Emit;
      var ftype := hdr.lf;
      var hdrsz := HdrTypeLen(ftype);
      var adj := maxPayload - hdrsz;
      if ftype == LF_UF {
        PushHeader(Emit(host, hdr));
      } else if ftype == LF_FF {
        PushHeader(Emit(host, hdr));
        hdr := hdr.(lf := LF_IF);
        hdr := hdr.(fgOff := 0);
      } else {
        hdr := hdr.(fgOff := (hdr.fgOff + adj) % 0x1000);
        if maxPayload >= len - adj {
          hdr := hdr.(lf := LF_LF);
        }
        PullHeader(adj, Emit(host, hdr));
      }
      txLen := if maxPayload < len then maxPayload else len;
    }

    /** eth1394_prep_gasp_packet: the extra bytes, right in front of the packet. */
    method WriteGasp()
      requires 8 <= data && data + len <= buf.Length
      modifies buf
      ensures Window() == old(Window()) && buf[data - 8..data] == GaspHeader(node)
      ensures forall i :: 0 <= i < buf.Length && !(data - 8 <= i < data) ==> buf[i] == old(buf[i])
    {
      hide GaspHeader;
      var bytes := GaspHeader(node);
      forall i | 0 <= i < 8 {
        buf[data - 8 + i] := bytes[i];
      }
      assert buf[data - 8..data] == bytes;
      assert Window() == old(Window());
    }

    /** eth1394_send_packet: the bus gets the first `txLen` bytes of the window, behind the extra bytes if it is a
        broadcast. */
    method SendPacket(txLen: nat, ghost packet: Packet)
      requires txLen <= len && data + len <= buf.Length && Roomy()
      requires Window()[..txLen] == packet.Bytes()
      requires Logged(bus, GaspPrefix(gasp, node), sent)
      modifies this`bus, this`sent, this`busy, buf
      ensures busy && sent == old(sent) + [packet] && Window() == old(Window())
      ensures Logged(bus, GaspPrefix(gasp, node), sent)
      ensures forall i :: 0 <= i < buf.Length && !(gasp && data - 8 <= i < data) ==> buf[i] == old(buf[i])
    {
      hide GaspHeader, Packet.Bytes;
      var start := data;
      if gasp {
        WriteGasp();
        start := data - 8;
      }
      SliceJoin(buf[..], start, data, data + len, txLen);
      bus, sent, busy := bus + [buf[start..data + txLen]], sent + [packet], true;
    }

    /** The datagram is in the buffer and its header prepared. */
    ghost predicate Prepared()
      reads this, buf
    {
      && 16 <= maxPayload && (if gasp then 16 else 8) <= data && data + len <= buf.Length
      && dg == Window() && |dg| < 0x1_0000
      && PreparedHdr(hdr, maxPayload, proto, |dg|, dgl)
      && outstanding == CeilDiv(|dg|, if |dg| <= maxPayload - 4 then maxPayload - 4 else maxPayload - 8)
      && !busy && sent == [] && bus == []
    }

    /** The first packet of a datagram. `accepted` is what hpsb_send_packet answered. Only headroom is written. */
    method SendFirst(accepted: bool)
      requires Prepared()
      modifies this`sent, this`bus, this`hdr, this`data, this`len, this`busy, buf
      ensures Valid()
      ensures busy == accepted
      ensures sent == if accepted then [Packets()[0]] else []
      ensures forall i :: old(data) <= i < buf.Length ==> buf[i] == old(buf[i])
    {
      hide HeaderBytes, Emit, Htons, Wire, CeilDiv, ReservedClear, Hdr.Word2, Packet.Bytes, Progress.Pending,
        GaspHeader;
      ghost var first := hdr;
      var txLen := Encapsulate();
      ghost var packet := Packets()[0];
      ghost var after := State().(sent := [packet]);
      FirstPacket(after, first);
      if accepted {
        SendPacket(txLen, packet);
        assert State() == after;
      }
    }

    /** A new datagram in the buffer. */
    method Begin(nodeMax: u16, broadcast: bool, p: u16, tag: u16)
      requires data + len <= buf.Length
      modifies this`gasp, this`maxPayload, this`dg, this`proto, this`dgl, this`sent, this`bus, this`hdr
      ensures gasp == broadcast && dg == old(Window()) && proto == p && dgl == tag
      ensures sent == [] && bus == [] && hdr == ZeroHdr
      ensures maxPayload == (if nodeMax < 512 then 512 else nodeMax) - (if broadcast then 8 else 0)
    {
      gasp, maxPayload := broadcast, (if nodeMax < 512 then 512 else nodeMax) - (if broadcast then 8 else 0);
      dg, proto, dgl, sent, bus, hdr := Window(), p, tag, [], [], ZeroHdr;
    }

    method Prepare(nodeMax: u16, broadcast: bool, p: u16, tag: u16)
      requires !busy
      requires (if broadcast then 16 else 8) <= data && data + len <= buf.Length && len < 0x1_0000
      modifies this`gasp, this`maxPayload, this`dg, this`proto, this`dgl, this`sent, this`bus, this`hdr,
        this`outstanding
      ensures Prepared() && gasp == broadcast
      ensures dg == old(Window()) && proto == p && dgl == tag
      ensures maxPayload == (if nodeMax < 512 then 512 else nodeMax) - (if broadcast then 8 else 0)
    {
      hide CeilDiv, PreparedHdr;
      Begin(nodeMax, broadcast, p, tag);
      outstanding := EncapsulatePrep(maxPayload, p, len, tag);
    }

    /** The encapsulating part of eth1394_tx: the payload limit for the destination, the header, the first
        packet. */
    method Tx(nodeMax: u16, broadcast: bool, p: u16, tag: u16, accepted: bool)
      requires !busy
      requires (if broadcast then 16 else 8) <= data && data + len <= buf.Length && len < 0x1_0000
      modifies this, buf
      ensures Valid() && gasp == broadcast
      ensures dg == old(Window()) && proto == p && dgl == tag
      ensures maxPayload == (if nodeMax < 512 then 512 else nodeMax) - (if broadcast then 8 else 0)
      ensures busy == accepted
      ensures sent == if accepted then [Packets()[0]] else []
    {
      hide *;
      Prepare(nodeMax, broadcast, p, tag);
      SendFirst(accepted);
    }

    /** The next packet of a datagram in progress. All that is written, the header and in a broadcast the extra bytes,
        lies inside the packet that was on the bus. */
    method SendNext(ghost before: Progress, accepted: bool)
      requires busy && data + len <= buf.Length && Logged(bus, GaspPrefix(gasp, node), sent) && Roomy()
      requires before.Pending() && before.outstanding > 1
      requires State() == before.(outstanding := before.outstanding - 1)
      modifies this`data, this`len, this`hdr, this`busy, this`sent, this`bus, buf
      ensures Valid()
      ensures busy == accepted
      ensures accepted ==> |sent| == |before.sent| + 1 && before.sent < sent
      ensures !accepted ==> sent == before.sent
      ensures forall i :: 0 <= i < buf.Length && !(old(data) <= i < old(data) + maxPayload) ==> buf[i] == old(buf[i])
    {
      hide HeaderBytes, Emit, Htons, Wire, CeilDiv, NextPacket, Packet.Bytes, Progress.Pending, Progress.Fragmenting,
        GaspHeader, Logged;
      ghost var off := CurrentFragment(before);
      var txLen := Encapsulate();
      ghost var packet := NextPacket(before, off);
      ghost var after := State().(sent := sent + [packet]);
      NextFragment(before, off, after);
      if accepted {
        SendPacket(txLen, packet);
        assert State() == after;
      } else {
        busy := false;
      }
    }

    /** eth1394_complete_cb: one packet is through; send the next one or finish. */
    method CompleteCb(fail: bool, accepted: bool)
      requires Valid() && busy
      modifies this`outstanding, this`data, this`len, this`hdr, this`busy, this`sent, this`bus, buf
      ensures Valid()
      ensures 8 < maxPayload
      ensures |old(sent)| <= |Packets()| && old(sent) == Packets()[..|old(sent)|]
      ensures busy <==> |old(sent)| < |Packets()| && !fail && accepted
      ensures forall i :: 0 <= i < buf.Length && !(old(data) <= i < old(data) + maxPayload) ==> buf[i] == old(buf[i])
      ensures sent == if busy then Packets()[..|old(sent)| + 1] else old(sent)
    {
      hide Wire, Logged, Progress.Pending;
      ghost var before := State();
      ProgressIsPrefix(before);
      outstanding := outstanding - 1;
      if outstanding > 0 && !fail {
        SendNext(before, accepted);
        if accepted {
          ProgressIsPrefix(State());
        }
      } else {
        busy := false;
      }
    }

    /** A datagram whose packets all get through: exactly the bytes of the packets of `Wire` reach
        the bus. */
    method Transmit(nodeMax: u16, broadcast: bool, p: u16, tag: u16)
      requires !busy
      requires (if broadcast then 16 else 8) <= data && data + len <= buf.Length && len < 0x1_0000
      modifies this, buf
      ensures !busy && 8 < maxPayload && dg == old(Window()) && gasp == broadcast
      ensures maxPayload == (if nodeMax < 512 then 512 else nodeMax) - (if broadcast then 8 else 0)
      ensures Logged(bus, GaspPrefix(broadcast, node), Wire(host, p, tag, maxPayload, old(Window())))
      ensures forall i :: 0 <= i < |bus| ==>
        InNumbers(bus[i], broadcast, node, host, p, tag, maxPayload, |old(Window())|, i, |bus|)
    {
      hide Wire, Logged, Progress.Pending;
      Tx(nodeMax, broadcast, p, tag, true);
      while busy
        invariant Valid() && 8 < maxPayload
        invariant dg == old(Window()) && proto == p && dgl == tag && gasp == broadcast
        invariant maxPayload == (if nodeMax < 512 then 512 else nodeMax) - (if broadcast then 8 else 0)
        invariant |sent| <= |Packets()| && sent == Packets()[..|sent|]
        invariant !busy ==> |sent| == |Packets()|
        decreases |Packets()| - |sent|, busy
      {
        CompleteCb(false, true);
      }
      assert sent == Packets()[..|sent|] == Packets();
      forall i | 0 <= i < |bus| ensures InNumbers(bus[i], broadcast, node, host, p, tag, maxPayload, |dg|, i, |bus|) {
        LoggedInNumbers(bus, broadcast, node, host, p, tag, maxPayload, dg, i);
      }
    }
  }
}
