/**
 From one host to another: what rt_eth1394 sends, rt_eth1394 puts together again.
 */
module Eth1394RoundTrip {
  import opened Wrappers
  import opened Bytes
  import opened Eth1394Header
  import opened Eth1394Sender
  import opened Eth1394Fragments
  import opened Eth1394Receiver
  import opened Eth1394Runs

  /** The receiver, of either byte order, takes a packet for what the sender meant. */
  lemma PacketMeans(h: Host, p: Packet)
    ensures HasHeader(h, p.Bytes())
    ensures Classify(h, p.Bytes()) == Meant(p.encap, p.payload)
  {
    ParseInvertsHeader(h, p.encap, p.payload);
    hide HeaderBytes, Parse, Lf;
    assert p.Bytes()[|HeaderBytes(p.encap)|..] == p.payload;
  }

  // --- Fragments in sender order ---------------------------------------------------------------

  /** Non-empty intervals, each starting where the one before ends. */
  predicate Chain(xs: seq<Frag>, off: nat, end: nat) {
    if xs == [] then off == end
    else xs[0].offset == off && xs[0].len > 0 && Chain(xs[1..], xs[0].End(), end)
  }

  lemma {:induction false} ChainCovers(xs: seq<Frag>, off: nat, end: nat, b: int)
    requires Chain(xs, off, end)
    ensures off <= end
    ensures Covers(xs, b) <==> off <= b < end
  {
    if xs != [] {
      assert xs == [xs[0]] + xs[1..];
      ChainCovers(xs[1..], xs[0].End(), end, b);
      CoversCons(xs[0], xs[1..], b);
    }
  }

  lemma {:induction false} ChainPrefix(xs: seq<Frag>, off: nat, end: nat, k: nat) returns (mid: nat)
    requires Chain(xs, off, end) && k <= |xs|
    ensures Chain(xs[..k], off, mid)
  {
    if k == 0 {
      mid := off;
    } else {
      mid := ChainPrefix(xs[1..], xs[0].End(), end, k - 1);
      assert xs[..k][1..] == xs[1..][..k - 1];
    }
  }

  lemma {:induction false} ChainSeparate(xs: seq<Frag>, off: nat, end: nat)
    requires Chain(xs, off, end)
    ensures Separate(xs) && Within(xs, end)
    ensures forall i :: 0 <= i < |xs| ==> off <= xs[i].offset
  {
    if xs != [] {
      var rest := xs[1..];
      ChainSeparate(rest, xs[0].End(), end);
      assert xs == [xs[0]] + rest;
      SeparateCons(xs[0], rest);
      ChainCovers(xs, off, end, end);
      ChainCovers(rest, xs[0].End(), end, end);
      forall i | 0 <= i < |xs| ensures off <= xs[i].offset && xs[i].End() <= end {
        if i > 0 { assert xs[i] == rest[i - 1]; }
      }
    }
  }

  lemma ChainOrderly(xs: seq<Frag>, end: nat)
    requires Chain(xs, 0, end)
    ensures TilesAll(xs, end) && OrderlyRun(xs)
  {
    ChainSeparate(xs, 0, end);
    forall b | 0 <= b < end ensures Covers(xs, b) { ChainCovers(xs, 0, end, b); }
    forall k, a, b, c | 0 <= k <= |xs| && a < b < c && Covers(xs[..k], a) && Covers(xs[..k], c)
      ensures Covers(xs[..k], b)
    {
      var mid := ChainPrefix(xs, 0, end, k);
      ChainCovers(xs[..k], 0, mid, a);
      ChainCovers(xs[..k], 0, mid, b);
      ChainCovers(xs[..k], 0, mid, c);
    }
    ContiguousIsOrderly(xs);
  }

  // --- The sender's packets at the receiver ----------------------------------------------------

  /** The packets are fragments, each with memory for it. */
  predicate Received(came: seq<Arrival>, packets: seq<Packet>) {
    && |came| == |packets|
    && forall i :: 0 <= i < |came| ==>
         && Meant(packets[i].encap, packets[i].payload) == Piece(came[i].p)
         && |came[i].mem.leftover| == came[i].p.dgSize
  }

  lemma TileIsFragment(a: Arrival, packets: seq<Packet>, dg: seq<byte>, adj: nat, off: nat, t: u16)
    requires packets != [] && Received([a], packets[..1]) && Tiles(packets, dg, adj, off) && off <= |dg| <= 0x1000
    ensures FragmentOf(a, t, dg) && a.p.Interval() == Frag(off, |packets[0].payload|) && packets[0].payload != []
    ensures off + |packets[0].payload| <= |dg| && Tiles(packets[1..], dg, adj, off + |packets[0].payload|)
  {
    assert packets[..1][0] == packets[0] && [a][0] == a;
  }

  lemma {:induction false} TilesChain(came: seq<Arrival>, packets: seq<Packet>, dg: seq<byte>, adj: nat, off: nat,
                                      t: u16)
    requires Received(came, packets) && Tiles(packets, dg, adj, off) && off <= |dg| <= 0x1000
    ensures Chain(Intervals(came), off, |dg|)
    ensures forall i :: 0 <= i < |came| ==> FragmentOf(came[i], t, dg)
  {
    if packets != [] {
      var n := off + |packets[0].payload|;
      TileIsFragment(came[0], packets, dg, adj, off, t);
      hide Tiles, FragmentOf;
      TilesChain(came[1..], packets[1..], dg, adj, n, t);
      assert Intervals(came)[1..] == Intervals(came[1..]);
      forall i | 0 <= i < |came| ensures FragmentOf(came[i], t, dg) {
        if i > 0 { assert came[i] == came[1..][i - 1]; }
      }
    }
  }

  /** The first packet of a fragmented datagram, and the others. */
  lemma WireHead(h: Host, proto: u16, dgl: u16, maxPayload: nat, dg: seq<byte>)
    requires 8 < maxPayload && maxPayload - 4 < |dg| <= 0x1000
    ensures var w, adj := Wire(h, proto, dgl, maxPayload, dg), maxPayload - 8;
      && w == [w[0]] + WireFrom(dg, adj, proto / 0x1000, dgl, adj)
      && Meant(w[0].encap, w[0].payload) == Piece(Fragment(true, Htons(h, proto), dgl, |dg|, 0, dg[..adj]))
  {
    hide WireFrom, Htons;
  }

  lemma ReceivedParts(came: seq<Arrival>, first: Packet, rest: seq<Packet>)
    requires Received(came, [first] + rest)
    ensures came != [] && Received(came[1..], rest)
    ensures Meant(first.encap, first.payload) == Piece(came[0].p) && |came[0].mem.leftover| == came[0].p.dgSize
  {
    hide Meant;
    var all := [first] + rest;
    assert all[0] == first;
    assert forall i :: 0 <= i < |rest| ==> rest[i] == all[i + 1];
  }

  lemma FirstIsFragment(a: Arrival, adj: nat, t: u16, dg: seq<byte>)
    requires 0 < adj <= |dg| <= 0x1000 && |a.mem.leftover| == |dg|
    requires a.p == Fragment(true, t, a.p.dgl, |dg|, 0, dg[..adj])
    ensures FragmentOf(a, t, dg) && a.p.Interval() == Frag(0, adj)
  {
  }

  /** The packets of a fragmented datagram follow each other from its first byte to its last. */
  lemma WireChain(h: Host, proto: u16, dgl: u16, maxPayload: nat, dg: seq<byte>, came: seq<Arrival>)
    requires 8 < maxPayload && maxPayload - 4 < |dg| <= 0x1000
    requires Received(came, Wire(h, proto, dgl, maxPayload, dg))
    ensures Chain(Intervals(came), 0, |dg|) && HasFirst(came)
    ensures forall i :: 0 <= i < |came| ==> FragmentOf(came[i], Htons(h, proto), dg)
  {
    hide Htons, Tiles, Wire, WireFrom, Chain, Received, FragmentOf, Meant;
    var w, adj, t := Wire(h, proto, dgl, maxPayload, dg), maxPayload - 8, Htons(h, proto);
    var rest := WireFrom(dg, adj, proto / 0x1000, dgl, adj);
    WireHead(h, proto, dgl, maxPayload, dg);
    WireTiles(dg, adj, proto / 0x1000, dgl, adj);
    ReceivedParts(came, w[0], rest);
    TilesChain(came[1..], rest, dg, adj, adj, t);
    FirstIsFragment(came[0], adj, t, dg);
    ChainFirst(came, adj, |dg|);
    forall i | 0 <= i < |came| ensures FragmentOf(came[i], t, dg) {
      if i > 0 { assert came[i] == came[1..][i - 1]; }
    }
  }

  lemma ChainFirst(came: seq<Arrival>, adj: nat, end: nat)
    requires came != [] && came[0].p.Interval() == Frag(0, adj) && 0 < adj && Chain(Intervals(came[1..]), adj, end)
    ensures Chain(Intervals(came), 0, end)
  {
    assert Intervals(came)[1..] == Intervals(came[1..]);
  }

  /** A fragmented datagram in sender order is all of the datagram, in an orderly order. */
  lemma WireIsWhole(h: Host, proto: u16, dgl: u16, maxPayload: nat, dg: seq<byte>, came: seq<Arrival>)
    requires 8 < maxPayload && maxPayload - 4 < |dg| <= 0x1000
    requires Received(came, Wire(h, proto, dgl, maxPayload, dg))
    ensures Whole(came, Htons(h, proto), dg) && HasFirst(came) && OrderlyRun(Intervals(came))
  {
    hide Htons, OrderlyRun, Chain, Wire, Received, FragmentOf;
    WireChain(h, proto, dgl, maxPayload, dg, came);
    ChainOrderly(Intervals(came), |dg|);
  }

  /** A datagram that fits into one packet is delivered from it. */
  lemma RoundTripSingle(from: Host, to: Host, proto: u16, dgl: u16, maxPayload: nat, dg: seq<byte>)
    requires 8 < maxPayload && |dg| <= maxPayload - 4
    ensures var w := Wire(from, proto, dgl, maxPayload, dg);
      && |w| == 1
      && HasHeader(to, w[0].Bytes())
      && Classify(to, w[0].Bytes()) == Immediate(Datagram(Htons(from, proto), dg))
  {
    PacketMeans(to, Wire(from, proto, dgl, maxPayload, dg)[0]);
  }

  /** A fragmented datagram: whatever else the node sends in between, the receiver delivers exactly this datagram, at
      its last packet and not before, if nothing disturbed it; otherwise it delivers nothing of it. */
  lemma RoundTripFragmented(from: Host, to: Host, proto: u16, dgl: u16, maxPayload: nat, dg: seq<byte>,
                            max: nat, run: seq<Arrival>, lists: seq<seq<Partial>>, outs: seq<Option<Datagram>>)
    requires 8 < maxPayload && maxPayload - 4 < |dg| <= 0x1000
    requires IsRun(max, run, lists, outs) && Lookup(lists[0], dgl) == None
    requires run != [] && run[|run| - 1].p.dgl == dgl
    requires var w := Wire(from, proto, dgl, maxPayload, dg);
      var came := Project(run, dgl);
      && |came| == |w|
      && forall i :: 0 <= i < |w| ==> HasHeader(to, w[i].Bytes()) && Classify(to, w[i].Bytes()) == Piece(came[i].p)
    ensures outs[|run| - 1] ==
      if Undisturbed(max, run, lists, dgl) then Some(Datagram(Htons(from, proto), dg)) else None
    ensures Undisturbed(max, run, lists, dgl) ==> Lookup(lists[|run|], dgl) == None
    ensures Delivered(run[..|run| - 1], outs[..|run| - 1], dgl) == []
  {
    var w, came := Wire(from, proto, dgl, maxPayload, dg), Project(run, dgl);
    hide Undisturbed, Delivered, Whole, OrderlyRun, Htons, Lookup;
    assert Received(came, w) by {
      forall i | 0 <= i < |came|
        ensures Meant(w[i].encap, w[i].payload) == Piece(came[i].p) && |came[i].mem.leftover| == came[i].p.dgSize
      {
        PacketMeans(to, w[i]);
        ProjectFits(max, run, lists, outs, dgl, i);
      }
    }
    WireIsWhole(from, proto, dgl, maxPayload, dg, came);
    DeliveredIff(max, run, lists, outs, dgl, Htons(from, proto), dg);
  }

  lemma {:induction false} ProjectFits(max: nat, run: seq<Arrival>, lists: seq<seq<Partial>>,
                                       outs: seq<Option<Datagram>>, dgl: u16, i: nat)
    requires IsRun(max, run, lists, outs) && i < |Project(run, dgl)|
    ensures Project(run, dgl)[i].Fits()
  {
    var n := |run| - 1;
    var before := run[..n];
    assert Admissible(lists[n], run[n]);
    if i < |Project(before, dgl)| {
      ProjectFits(max, before, lists[..n + 1], outs[..n], dgl, i);
    }
  }

  // --- Sender and receiver together ------------------------------------------------------------

  /** Every packet of a fragmented datagram is a piece of it under its label. */
  lemma WireNamed(h: Host, proto: u16, dgl: u16, maxPayload: nat, dg: seq<byte>, i: nat)
    requires 8 < maxPayload && maxPayload - 4 < |dg| <= 0x1000 && i < |Wire(h, proto, dgl, maxPayload, dg)|
    ensures var w := Wire(h, proto, dgl, maxPayload, dg)[i];
      var m := Meant(w.encap, w.payload);
      m.Piece? && m.p.dgl == dgl && m.p.dgSize == |dg|
  {
    SizesTrueIff(h, proto, dgl, maxPayload, dg, i);
  }

  /** The packets as the receiver takes them, with the memory it then has. */
  ghost function Arrivals(w: seq<Packet>, mem: Memory): (came: seq<Arrival>)
    requires forall i :: 0 <= i < |w| ==> Meant(w[i].encap, w[i].payload).Piece?
    ensures |came| == |w|
    ensures forall i :: 0 <= i < |w| ==> came[i] == Arrival(Meant(w[i].encap, w[i].payload).p, mem)
  {
    seq(|w|, i requires 0 <= i < |w| => Arrival(Meant(w[i].encap, w[i].payload).p, mem))
  }

  /** The next piece of a datagram meets the entry for the pieces before it. */
  lemma NextAdmissible(list: seq<Partial>, came: seq<Arrival>, i: nat, t: u16, dg: seq<byte>)
    requires Carries(came, t, dg) && i < |came|
    requires Tracks(Lookup(list, came[i].p.dgl), came[..i], t, dg)
    ensures Admissible(list, came[i])
  {
    var xs, x := Intervals(came), came[i].p.Interval();
    CarriesSlice(came, 0, i, t, dg);
    assert came[0..i] == came[..i] && xs[0..i] == xs[..i];
    assert FragmentOf(came[i], t, dg);
    assert xs[i] == x && Separate(xs[..i]) && Clear(xs[..i], x);
    CollectedSound(xs[..i]);
    SameBytesClear(xs[..i], Collected(xs[..i]), x);
  }

  /** `i` pieces of the datagram have arrived since the list was `before`. */
  ghost predicate Holding(list: seq<Partial>, before: seq<Partial>, max: nat, came: seq<Arrival>, i: nat, tag: u16,
                          t: u16, dg: seq<byte>)
    requires i <= |came| && 0 < max
  {
    && ListOk(list, max)
    && Lookup(before, tag) == None
    && Tracks(Lookup(list, tag), came[..i], t, dg)
    && if i == 0 then list == before else list != [] && list[0].dgl == tag && list[1..] == Kept(before, max)
  }

  lemma RestIsKept(list: seq<Partial>, before: seq<Partial>, max: nat, came: seq<Arrival>, i: nat, tag: u16, t: u16,
                   dg: seq<byte>)
    requires i < |came| && 0 < max && Holding(list, before, max, came, i, tag, t, dg) && came[i].p.dgl == tag
    ensures Rest(list, max, came[i]) == Kept(before, max)
  {
    hide Tracks, ListOk;
    if i > 0 {
      assert Without(list, 0) == list[1..];
    }
  }

  lemma HoldingStep(list: seq<Partial>, before: seq<Partial>, max: nat, came: seq<Arrival>, i: nat, tag: u16, t: u16,
                    dg: seq<byte>)
    requires i < |came| && 0 < max && Holding(list, before, max, came, i, tag, t, dg)
    requires dg != [] && Whole(came, t, dg) && HasFirst(came) && OrderlyRun(Intervals(came))
    requires came[i].p.dgl == tag && came[i].mem.Ample()
    ensures Admissible(list, came[i])
    ensures var (list', out) := Step(list, max, came[i]);
      if i + 1 < |came| then out == None && Holding(list', before, max, came, i + 1, tag, t, dg)
      else out == Some(Datagram(t, dg)) && list' == Kept(before, max)
  {
    hide Step, Tracks, ListOk, Whole, OrderlyRun, Admissible, Rest, Carries;
    var a, s := came[i], Lookup(list, tag);
    WholeTells(came, i, t, dg);
    NextAdmissible(list, came, i, t, dg);
    RestIsKept(list, before, max, came, i, tag, t, dg);
    assert Saved(list, a);
    StepIsLocal(list, max, a, tag);
    StepShape(list, max, a);
    StepKeepsListOk(list, max, a);
    FitsHere(list, a);
    assert came[0..i] == came[..i] && came[0..i + 1] == came[..i + 1];
    if i + 1 < |came| {
      PartGrows(s, came, 0, i, t, dg);
      TracksSome(Lookup(Step(list, max, a).0, tag), came[..i + 1], t, dg);
    } else {
      LastStep(s, came, 0, t, dg);
    }
  }

  lemma FitsHere(list: seq<Partial>, a: Arrival)
    requires Admissible(list, a)
    ensures a.Fits() && var s := Lookup(list, a.p.dgl); s.Some? ==> a.p.off + |a.p.bytes| <= |s.value.pbuf|
  {
  }

  lemma TracksSome(s: Option<Partial>, came: seq<Arrival>, t: u16, dg: seq<byte>)
    requires Tracks(s, came, t, dg) && came != []
    ensures s.Some?
  {
  }

  /** What the pieces of a fragmented datagram are to the receiver. */
  lemma ArrivalsWhole(h: Host, proto: u16, dgl: u16, maxPayload: nat, dg: seq<byte>, mem: Memory)
    requires 8 < maxPayload && maxPayload - 4 < |dg| <= 0x1000 && |mem.leftover| == |dg|
    ensures var w := Wire(h, proto, dgl, maxPayload, dg);
      && (forall i :: 0 <= i < |w| ==> Meant(w[i].encap, w[i].payload).Piece?)
      && var came := Arrivals(w, mem);
         && (forall i :: 0 <= i < |w| ==> came[i].p.dgl == dgl)
         && Whole(came, Htons(h, proto), dg) && HasFirst(came) && OrderlyRun(Intervals(came))
  {
    var w := Wire(h, proto, dgl, maxPayload, dg);
    forall i | 0 <= i < |w|
      ensures var m := Meant(w[i].encap, w[i].payload); m.Piece? && m.p.dgl == dgl && m.p.dgSize == |dg|
    {
      WireNamed(h, proto, dgl, maxPayload, dg, i);
    }
    hide Wire, Whole, OrderlyRun, Meant;
    WireIsWhole(h, proto, dgl, maxPayload, dg, Arrivals(w, mem));
  }

  /** A packet comes off the bus, behind the extra header if it is a broadcast. */
  method TakeIn(node: PdgList, to: Host, broadcast: bool, raw: seq<byte>, mem: Memory, ghost id: u16,
                ghost bytes: seq<byte>)
    returns (out: Option<Datagram>)
    requires node.Valid() && raw == GaspPrefix(broadcast, id) + bytes && Receivable(node.list, to, bytes, mem)
    modifies node`list, node`sz
    ensures node.Valid() && (node.list, out) == Handle(old(node.list), node.max, to, bytes, mem)
  {
    hide Receivable, Handle, ListOk;
    if broadcast {
      GaspIsOurs(id, bytes);
      out := node.Iso(to, raw, true, mem);
    } else {
      assert raw == bytes;
      out := node.Receive(to, raw, mem);
    }
  }

  /** The extra header is recognised and skipped. */
  lemma GaspIsOurs(id: u16, bytes: seq<byte>)
    ensures var raw := GaspHeader(id) + bytes;
      Specifier(raw) == SPECIFIER && raw[8..] == bytes && SourceId(raw) == id
  {
  }

  /** One packet of a fragmented datagram. */
  method ReceivePiece(node: PdgList, to: Host, broadcast: bool, raw: seq<byte>, mem: Memory, ghost id: u16,
                      ghost packet: Packet, ghost before: seq<Partial>, ghost came: seq<Arrival>, ghost i: nat,
                      ghost tag: u16, ghost t: u16, ghost dg: seq<byte>)
    returns (out: Option<Datagram>)
    requires raw == GaspPrefix(broadcast, id) + packet.Bytes()
    requires i < |came| && Meant(packet.encap, packet.payload) == Piece(came[i].p)
    requires came[i].mem == mem && mem.Ample() && came[i].p.dgl == tag
    requires dg != [] && Whole(came, t, dg) && HasFirst(came) && OrderlyRun(Intervals(came))
    requires node.Valid() && Holding(node.list, before, node.max, came, i, tag, t, dg)
    modifies node`list, node`sz
    ensures node.Valid()
    ensures i + 1 < |came| ==> out == None && Holding(node.list, before, node.max, came, i + 1, tag, t, dg)
    ensures i + 1 == |came| ==> out == Some(Datagram(t, dg)) && node.list == Kept(before, node.max)
  {
    hide Holding, Whole, OrderlyRun, Step, ListOk, Admissible, Classify, HasHeader, Meant, Packet.Bytes, GaspPrefix,
      Kept;
    PacketMeans(to, packet);
    HoldingStep(node.list, before, node.max, came, i, tag, t, dg);
    out := TakeIn(node, to, broadcast, raw, mem, id, packet.Bytes());
  }

  lemma HoldingStart(list: seq<Partial>, max: nat, came: seq<Arrival>, tag: u16, t: u16, dg: seq<byte>)
    requires 0 < max && ListOk(list, max) && Lookup(list, tag) == None
    ensures Holding(list, list, max, came, 0, tag, t, dg)
  {
  }

  /** The receiver takes the packets of a fragmented datagram off the bus, one by one. */
  method ReceivePieces(node: PdgList, to: Host, broadcast: bool, bus: seq<seq<byte>>, mem: Memory, ghost id: u16,
                       ghost h: Host, ghost p: u16, ghost tag: u16, ghost maxPayload: nat, ghost dg: seq<byte>)
    returns (outs: seq<Option<Datagram>>)
    requires 8 < maxPayload && maxPayload - 4 < |dg| <= 0x1000
    requires Logged(bus, GaspPrefix(broadcast, id), Wire(h, p, tag, maxPayload, dg))
    requires node.Valid() && Lookup(node.list, tag) == None
    requires mem.Ample() && |mem.leftover| == |dg|
    modifies node`list, node`sz
    ensures node.Valid() && node.list == Kept(old(node.list), node.max)
    ensures |outs| == |bus| > 0 && outs[|outs| - 1] == Some(Datagram(Htons(h, p), dg))
    ensures forall i :: 0 <= i < |outs| - 1 ==> outs[i] == None
  {
    hide Wire, Holding, Whole, OrderlyRun, ListOk, Lookup, Meant, Htons, Packet.Bytes, GaspPrefix, Kept;
    ghost var w, t := Wire(h, p, tag, maxPayload, dg), Htons(h, p);
    ArrivalsWhole(h, p, tag, maxPayload, dg, mem);
    ghost var came := Arrivals(w, mem);
    HoldingStart(node.list, node.max, came, tag, t, dg);
    outs := [];
    var i := 0;
    while i < |bus|
      invariant 0 <= i <= |bus| == |w| && |outs| == i && node.Valid()
      invariant i < |bus| ==> Holding(node.list, old(node.list), node.max, came, i, tag, t, dg)
      invariant i == |bus| ==> node.list == Kept(old(node.list), node.max) && outs[i - 1] == Some(Datagram(t, dg))
      invariant forall k :: 0 <= k < i && k < |bus| - 1 ==> outs[k] == None
    {
      var out := ReceivePiece(node, to, broadcast, bus[i], mem, id, w[i], old(node.list), came, i, tag, t, dg);
      outs := outs + [out];
      i := i + 1;
    }
  }

  /** A datagram of 1 to 4096 bytes through sender and receiver, as a broadcast or not: the receiver hands up exactly
      this datagram, once, at the last packet, and keeps nothing of it. If its list was full and the datagram is
      fragmented, the oldest entry is gone. */
  method SendAndReceive(task: PacketTask, nodeMax: u16, broadcast: bool, p: u16, tag: u16,
                        node: PdgList, to: Host, mem: Memory) returns (outs: seq<Option<Datagram>>)
    requires !task.busy && (if broadcast then 16 else 8) <= task.data && task.data + task.len <= task.buf.Length
    requires 0 < task.len <= 0x1000
    requires node.Valid() && Lookup(node.list, tag) == None
    requires mem.Ample() && |mem.leftover| == task.len
    modifies task, task.buf, node`list, node`sz
    ensures node.Valid()
    ensures node.list == if |outs| == 1 then old(node.list) else Kept(old(node.list), node.max)
    ensures |outs| > 0 && outs[|outs| - 1] == Some(Datagram(Htons(task.host, p), old(task.Window())))
    ensures forall i :: 0 <= i < |outs| - 1 ==> outs[i] == None
  {
    hide Wire, ListOk, Step, Classify, HasHeader, Packet.Bytes, Htons, Kept, GaspPrefix;
    ghost var dg := task.Window();
    var size := task.len;
    task.Transmit(nodeMax, broadcast, p, tag);
    if size <= task.maxPayload - 4 {
      RoundTripSingle(task.host, to, p, tag, task.maxPayload, dg);
      ghost var w := Wire(task.host, p, tag, task.maxPayload, dg);
      var out := TakeIn(node, to, broadcast, task.bus[0], mem, task.node, w[0].Bytes());
      outs := [out];
    } else {
      SeveralPackets(task.host, p, tag, task.maxPayload, dg);
      outs := ReceivePieces(node, to, broadcast, task.bus, mem, task.node, task.host, p, tag, task.maxPayload, dg);
    }
  }

  lemma SeveralPackets(h: Host, p: u16, tag: u16, maxPayload: nat, dg: seq<byte>)
    requires 8 < maxPayload && maxPayload - 4 < |dg| <= 0x1000
    ensures |Wire(h, p, tag, maxPayload, dg)| > 1
  {
  }
}
