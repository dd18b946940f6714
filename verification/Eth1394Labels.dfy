/**
 Datagram labels. rt_eth1394 draws them from one counter per destination; a receiver tells the datagrams of a sender
 apart by the label alone. So a datagram to one node and a broadcast of the same sender can bear the same label.
 */
module Eth1394Labels {
  import opened Wrappers
  import opened Bytes
  import opened Eth1394Header
  import opened Eth1394Sender
  import opened Eth1394Fragments
  import opened Eth1394Receiver
  import opened Eth1394Runs
  import opened Eth1394RoundTrip

  /** NODEID_TO_NODE of an address; the last one is ALL_NODES. */
  type Node = n: nat | n < 64
  const ALL_NODES: Node := 63

  /** A datagram given to eth1394_tx: its address, whether it is broadcast, whether it takes several packets. Address
      resolution and multicasts are broadcast whatever their address. */
  datatype Send = Send(dest: Node, gasp: bool, fragmented: bool) {
    predicate Reaches(receiver: Node) { gasp || dest == receiver }
  }

  // --- Counters --------------------------------------------------------------------------------

  /** The labels that datagrams `a` to `b` used up for a destination. */
  function Used(sends: seq<Send>, a: nat, b: nat, dest: Node): (n: nat)
    requires a <= b <= |sends|
    ensures n <= b - a
  {
    if a == b then 0
    else Used(sends, a, b - 1, dest) + if sends[b - 1].dest == dest && sends[b - 1].fragmented then 1 else 0
  }

  /** The label of datagram `i`, if all counters start at zero. */
  function Label(sends: seq<Send>, i: nat): u16
    requires i < |sends|
  {
    Used(sends, 0, i, sends[i].dest) % 0x1_0000
  }

  lemma {:induction false} UsedSplits(sends: seq<Send>, a: nat, b: nat, c: nat, dest: Node)
    requires a <= b <= c <= |sends|
    ensures Used(sends, a, c, dest) == Used(sends, a, b, dest) + Used(sends, b, c, dest)
  {
    if b < c {
      UsedSplits(sends, a, b, c - 1, dest);
    }
  }

  lemma {:induction false} UsedPrefix(sends: seq<Send>, more: seq<Send>, n: nat, dest: Node)
    requires n <= |sends|
    ensures Used(sends + more, 0, n, dest) == Used(sends, 0, n, dest)
  {
    if n > 0 {
      UsedPrefix(sends, more, n - 1, dest);
    }
  }

  lemma {:induction false} UsedOwn(sends: seq<Send>, i: nat, j: nat)
    requires i < j <= |sends| && sends[i].fragmented
    ensures Used(sends, i, j, sends[i].dest) >= 1
  {
    if i + 1 < j {
      UsedOwn(sends, i, j - 1);
    }
  }

  lemma Congruent(a: int, b: int)
    ensures a % 0x1_0000 == b % 0x1_0000 <==> (b - a) % 0x1_0000 == 0
  {
  }

  /** Two fragmented datagrams of one sender bear the same label exactly if: to one destination, the number of labels
      used in between is a multiple of 65536; to two destinations, so is the difference of what the two counters have
      seen. */
  lemma CollideIff(sends: seq<Send>, i: nat, j: nat)
    requires i < j < |sends| && sends[i].fragmented && sends[j].fragmented
    ensures var d, e := sends[i].dest, sends[j].dest;
      Label(sends, i) == Label(sends, j) <==>
        if d == e then Used(sends, i, j, d) % 0x1_0000 == 0
        else (Used(sends, 0, j, e) - Used(sends, 0, i, d)) % 0x1_0000 == 0
  {
    hide Used;
    var d, e := sends[i].dest, sends[j].dest;
    Congruent(Used(sends, 0, i, d), Used(sends, 0, j, e));
    UsedSplits(sends, 0, i, j, d);
  }

  /** Two that reach one receiver and bear the same label: at least 65536 datagrams lie between them, or one is a
      broadcast and the other was sent to another address. */
  lemma CollisionNeeds(sends: seq<Send>, i: nat, j: nat, receiver: Node)
    requires i < j < |sends| && sends[i].fragmented && sends[j].fragmented
    requires sends[i].Reaches(receiver) && sends[j].Reaches(receiver) && Label(sends, i) == Label(sends, j)
    ensures j - i >= 0x1_0000 || (sends[i].dest != sends[j].dest && (sends[i].gasp || sends[j].gasp))
  {
    CollideIff(sends, i, j);
    UsedOwn(sends, i, j);
  }

  /** The first fragmented datagram to a node and the first fragmented broadcast of the same sender. */
  lemma FirstsCollide(receiver: Node)
    requires receiver != ALL_NODES
    ensures var sends := [Send(receiver, false, true), Send(ALL_NODES, true, true)];
      && sends[0].Reaches(receiver) && sends[1].Reaches(receiver)
      && Label(sends, 0) == Label(sends, 1) == 0
  {
    var sends := [Send(receiver, false, true), Send(ALL_NODES, true, true)];
    assert Used(sends, 0, 0, ALL_NODES) == 0;
    assert Used(sends, 0, 1, ALL_NODES) == 0;
  }

  /** `struct eth1394_priv`, as far as labels go. */
  class Port {
    const dgl: array<nat>
    ghost var sends: seq<Send>

    ghost predicate Valid()
      reads this, dgl
    {
      dgl.Length == 64 && forall n: Node :: dgl[n] == Used(sends, 0, |sends|, n)
    }

    constructor ()
      ensures Valid() && sends == [] && fresh(dgl)
    {
      dgl := new nat[64](_ => 0);
      sends := [];
    }

    /** The label for a datagram; a datagram in one packet uses none up. */
    method Draw(dest: Node, broadcast: bool, fragmented: bool) returns (tag: u16)
      requires Valid()
      modifies this`sends, dgl
      ensures Valid() && sends == old(sends) + [Send(dest, broadcast, fragmented)] && tag == Label(sends, |sends| - 1)
    {
      tag := dgl[dest] % 0x1_0000;
      if fragmented {
        dgl[dest] := dgl[dest] + 1;
      }
      sends := sends + [Send(dest, broadcast, fragmented)];
      forall n: Node ensures Used(sends, 0, |sends| - 1, n) == old(Used(sends, 0, |sends|, n)) {
        UsedPrefix(old(sends), [Send(dest, broadcast, fragmented)], |old(sends)|, n);
      }
    }

    /** eth1394_tx: the label, and the first packet. */
    method Tx(task: PacketTask, dest: Node, nodeMax: u16, broadcast: bool, p: u16, accepted: bool) returns (tag: u16)
      requires Valid() && !task.busy
      requires (if broadcast then 16 else 8) <= task.data && task.data + task.len <= task.buf.Length
      requires task.len < 0x1_0000
      modifies this`sends, dgl, task, task.buf
      ensures Valid() && task.Valid() && 8 < task.maxPayload
      ensures sends == old(sends) + [Send(dest, broadcast, |task.Packets()| > 1)]
      ensures tag == Label(sends, |sends| - 1) && task.dgl == tag && task.dg == old(task.Window())
      ensures task.busy == accepted && task.sent == if accepted then [task.Packets()[0]] else []
    {
      hide Used, Label;
      var max := (if nodeMax < 512 then 512 else nodeMax) - (if broadcast then 8 else 0);
      tag := Draw(dest, broadcast, max < task.len + 4);
      task.Tx(nodeMax, broadcast, p, tag, accepted);
      SeveralIff(task.host, task.proto, task.dgl, task.maxPayload, task.dg);
    }
  }

  lemma SeveralIff(h: Host, proto: u16, dgl: u16, maxPayload: nat, dg: seq<byte>)
    requires 8 < maxPayload
    ensures |Wire(h, proto, dgl, maxPayload, dg)| > 1 <==> maxPayload < |dg| + 4
  {
  }

  // --- At the receiver -------------------------------------------------------------------------

  /** The arrivals at a receiver that belong to datagram `i` of the sender; `from[k]` is the datagram of arrival `k`. */
  function Own(run: seq<Arrival>, from: seq<nat>, i: nat): seq<Arrival>
    requires |from| == |run|
  {
    if run == [] then []
    else
      var n := |run| - 1;
      Own(run[..n], from[..n], i) + if from[n] == i then [run[n]] else []
  }

  /** Every arrival bears the label of its datagram. */
  predicate Labelled(sends: seq<Send>, run: seq<Arrival>, from: seq<nat>) {
    |from| == |run| && forall k :: 0 <= k < |run| ==> from[k] < |sends| && run[k].p.dgl == Label(sends, from[k])
  }

  /** No other datagram with packets among the arrivals bears the label of datagram `i`. */
  predicate Alone(sends: seq<Send>, from: seq<nat>, i: nat)
    requires i < |sends| && forall k :: 0 <= k < |from| ==> from[k] < |sends|
  {
    forall k :: 0 <= k < |from| && from[k] != i ==> Label(sends, from[k]) != Label(sends, i)
  }

  lemma {:induction false} OwnAmong(sends: seq<Send>, run: seq<Arrival>, from: seq<nat>, i: nat)
    requires Labelled(sends, run, from) && i < |sends|
    ensures var all, own := Project(run, Label(sends, i)), Own(run, from, i);
      |own| <= |all| && (Alone(sends, from, i) ==> all == own) && (!Alone(sends, from, i) ==> |own| < |all|)
    decreases |run|
  {
    hide Label;
    if run != [] {
      OwnAmong(sends, run[..|run| - 1], from[..|run| - 1], i);
    }
  }

  /** The receiver tells a datagram apart from the others exactly if none of them collides with it. */
  lemma ToldApartIff(sends: seq<Send>, run: seq<Arrival>, from: seq<nat>, i: nat)
    requires Labelled(sends, run, from) && i < |sends|
    ensures Project(run, Label(sends, i)) == Own(run, from, i) <==> Alone(sends, from, i)
  {
    OwnAmong(sends, run, from, i);
  }

  /** A fragmented datagram among others of the same sender, its packets and theirs in any interleaving: if none of them
      collides with it and nothing disturbs it, exactly this datagram is delivered at its last packet. */
  lemma DeliveredApart(sends: seq<Send>, i: nat, origin: seq<nat>, from: Host, to: Host, proto: u16, maxPayload: nat,
                       dg: seq<byte>, max: nat, run: seq<Arrival>, lists: seq<seq<Partial>>,
                       outs: seq<Option<Datagram>>)
    requires 8 < maxPayload && maxPayload - 4 < |dg| <= 0x1000
    requires i < |sends| && Labelled(sends, run, origin) && Alone(sends, origin, i)
    requires IsRun(max, run, lists, outs) && Lookup(lists[0], Label(sends, i)) == None
    requires run != [] && origin[|run| - 1] == i
    requires var w, own := Wire(from, proto, Label(sends, i), maxPayload, dg), Own(run, origin, i);
      && |own| == |w|
      && forall k :: 0 <= k < |w| ==> HasHeader(to, w[k].Bytes()) && Classify(to, w[k].Bytes()) == Piece(own[k].p)
    ensures outs[|run| - 1] ==
      if Undisturbed(max, run, lists, Label(sends, i)) then Some(Datagram(Htons(from, proto), dg)) else None
  {
    hide Label, Wire, Undisturbed, Htons, Lookup, IsRun;
    ToldApartIff(sends, run, origin, i);
    RoundTripFragmented(from, to, proto, Label(sends, i), maxPayload, dg, max, run, lists, outs);
  }

  /** The first packet of a second datagram of the same label: with memory the handler goes into its branch for
      overlaps, where it uses a freed entry; without memory, both datagrams are lost. */
  lemma SecondFirstFragment(list: seq<Partial>, max: nat, a: Arrival)
    requires 0 < max && ListOk(list, max) && a.Fits() && a.p.first
    requires var s := Lookup(list, a.p.dgl); s.Some? && Covers(s.value.frags, 0)
    ensures a.mem.Ample() ==> !Admissible(list, a)
    ensures Admissible(list, a) ==>
      var (list', out) := Step(list, max, a); out == None && Lookup(list', a.p.dgl) == None
  {
    var s := Lookup(list, a.p.dgl).value;
    var i :| 0 <= i < |s.frags| && s.frags[i].Has(0);
    assert !s.frags[i].Disjoint(a.p.Interval());
    if Admissible(list, a) {
      StepIsLocal(list, max, a, a.p.dgl);
    }
  }
}
