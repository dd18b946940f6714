/**
 Reassembly in rt_eth1394 (section 4.3 of RFC 2734): the partial datagrams of one sending node, most recently
 touched first, at most max_partial_datagrams of them.
 */
module Eth1394Receiver {
  import opened Wrappers
  import opened Bytes
  import opened Eth1394Header
  import opened Eth1394Fragments

  /** A received fragment, decoded. */
  datatype Fragment = Fragment(first: bool, etherType: u16, dgl: u16, dgSize: DatagramSize, off: nat, bytes: seq<byte>)
  {
    function Interval(): Frag { Frag(off, |bytes|) }
    /** What the handler takes for granted: a fragment is not empty and lies inside its datagram. */
    predicate Fits() { bytes != [] && off + |bytes| <= dgSize && (first ==> off == 0) }
  }

  datatype Partial = Partial(dgl: u16, dgSize: DatagramSize, etherType: u16, pbuf: seq<byte>, frags: seq<Frag>)

  datatype Datagram = Datagram(etherType: u16, bytes: seq<byte>)

  /** What the allocators answer: whether there is memory for a list entry, a fragment entry and a packet
      buffer, and what the fresh memory happens to hold. */
  datatype Memory = Memory(entry: bool, frag: bool, skb: bool, leftover: seq<byte>, junk: u16) {
    predicate Ample() { entry && frag && skb }
  }

  datatype Arrival = Arrival(p: Fragment, mem: Memory) {
    predicate Fits() { p.Fits() && |mem.leftover| == p.dgSize }
  }

  // --- One fragment ----------------------------------------------------------------------------

  /** new_partial_datagram */
  function NewPartial(a: Arrival): Partial
    requires a.Fits()
  {
    Partial(a.p.dgl, a.p.dgSize, a.mem.junk, Write(a.mem.leftover, a.p.off, a.p.bytes), [a.p.Interval()])
  }

  /** update_partial_datagram */
  function Updated(pd: Partial, p: Fragment): Partial
    requires p.off + |p.bytes| <= |pd.pbuf|
  {
    pd.(pbuf := Write(pd.pbuf, p.off, p.bytes), frags := Insert(pd.frags, p.Interval()))
  }

  function Typed(pd: Partial, p: Fragment): Partial {
    if p.first then pd.(etherType := p.etherType) else pd
  }

  /** A datagram being put together: disjoint intervals inside it, at least one, not all of it. */
  predicate Open(pd: Partial) {
    && |pd.pbuf| == pd.dgSize
    && pd.frags != [] && Separate(pd.frags) && Within(pd.frags, pd.dgSize)
    && !Complete(pd.frags, pd.dgSize)
  }

  /** The fragment belongs to the datagram and brings nothing that is there already. */
  predicate Extends(pd: Partial, p: Fragment) {
    pd.dgSize == p.dgSize && Clear(pd.frags, p.Interval())
  }

  // --- The list --------------------------------------------------------------------------------

  function Find(list: seq<Partial>, dgl: u16): (i: nat)
    ensures i <= |list|
    ensures forall k :: 0 <= k < i ==> list[k].dgl != dgl
    ensures i < |list| ==> list[i].dgl == dgl
  {
    if list == [] then 0 else if list[0].dgl == dgl then 0 else 1 + Find(list[1..], dgl)
  }

  function Lookup(list: seq<Partial>, dgl: u16): Option<Partial> {
    var i := Find(list, dgl);
    if i < |list| then Some(list[i]) else None
  }

  function Without<T>(s: seq<T>, i: nat): seq<T>
    requires i < |s|
  {
    s[..i] + s[i + 1..]
  }

  /** What is left of the list when a new label comes: a full list gives up its last entry. */
  function Kept(list: seq<Partial>, max: nat): seq<Partial>
    requires 0 < max
  {
    if |list| == max then list[..max - 1] else list
  }

  /** Deliver a complete datagram, or keep it in front. */
  function Settle(pd: Partial, rest: seq<Partial>, dgSize: nat): (seq<Partial>, Option<Datagram>) {
    if Complete(pd.frags, dgSize) then (rest, Some(Datagram(pd.etherType, pd.pbuf))) else ([pd] + rest, None)
  }

  /** A fragment of its datagram that overlaps nothing of it, unless there is no memory to start a new one with it. */
  predicate Admissible(list: seq<Partial>, a: Arrival) {
    && a.Fits()
    && var s := Lookup(list, a.p.dgl);
       s.Some? ==>
         && a.p.off + |a.p.bytes| <= |s.value.pbuf| && s.value.dgSize == a.p.dgSize
         && (Clear(s.value.frags, a.p.Interval()) || !a.mem.Ample())
  }

  /** eth1394_data_handler on a fragment. */
  function Step(list: seq<Partial>, max: nat, a: Arrival): (seq<Partial>, Option<Datagram>)
    requires Admissible(list, a) && 0 < max
  {
    var i := Find(list, a.p.dgl);
    if i == |list| then
      if !a.mem.Ample() then (Kept(list, max), None)
      else Settle(Typed(NewPartial(a), a.p), Kept(list, max), a.p.dgSize)
    else
      var rest, x := Without(list, i), a.p.Interval();
      if !Clear(list[i].frags, x) || (NeedsEntry(list[i].frags, x) && !a.mem.frag) then (rest, None)
      else Settle(Typed(Updated(list[i], a.p), a.p), rest, a.p.dgSize)
  }

  /** What a packet brings: a whole datagram or a fragment of one. */
  datatype Input = Immediate(dg: Datagram) | Piece(p: Fragment)

  function Meant(e: Encap, payload: seq<byte>): Input {
    match e
    case Unfragmented(t) => Immediate(Datagram(t, payload))
    case First(size, t, dgl) => Piece(Fragment(true, t, dgl, size, 0, payload))
    case Subsequent(_, size, _, off, dgl) => Piece(Fragment(false, 0, dgl, size, off, payload))
  }

  /** The packet holds its header. */
  predicate HasHeader(h: Host, buf: seq<byte>) {
    |buf| >= 4 && (Lf(h, buf) != LF_UF ==> |buf| >= 8)
  }

  function Classify(h: Host, buf: seq<byte>): Input
    requires HasHeader(h, buf)
  {
    Meant(Parse(h, buf), buf[HdrTypeLen(Lf(h, buf))..])
  }

  /** What the data handler can make of the bytes of a packet, here. */
  predicate Receivable(list: seq<Partial>, h: Host, buf: seq<byte>, mem: Memory) {
    HasHeader(h, buf) && var input := Classify(h, buf); input.Piece? ==> Admissible(list, Arrival(input.p, mem))
  }

  /** eth1394_data_handler on the bytes of a packet. */
  function Handle(list: seq<Partial>, max: nat, h: Host, buf: seq<byte>, mem: Memory): (seq<Partial>, Option<Datagram>)
    requires Receivable(list, h, buf, mem) && 0 < max
  {
    match Classify(h, buf)
    case Immediate(dg) => (list, if mem.skb then Some(dg) else None)
    case Piece(p) => Step(list, max, Arrival(p, mem))
  }

  // --- Broadcasts ------------------------------------------------------------------------------

  /** ETHER1394_GASP_SPECIFIER_ID */
  const SPECIFIER := 0x5E

  /** The specifier in the extra header of a broadcast packet. */
  function Specifier(data: seq<byte>): int
    requires |data| >= 8
  {
    var d2: int, d3: int, d4: int := data[2], data[3], data[4];
    (d2 * 0x100 + d3) * 0x100 + d4
  }

  /** It is ours exactly if these three bytes say so. */
  lemma SpecifierTells(data: seq<byte>)
    requires |data| >= 8
    ensures Specifier(data) == SPECIFIER <==> data[2..5] == [0x00, 0x00, 0x5E]
  {
    assert data[2..5] == [data[2], data[3], data[4]];
  }

  /** The node that sent it. */
  function SourceId(data: seq<byte>): int
    requires |data| >= 8
  {
    var d0: int, d1: int := data[0], data[1];
    d0 * 0x100 + d1
  }

  /** `struct pdg_list` */
  class PdgList {
    const max: nat                     // max_partial_datagrams
    var list: seq<Partial>
    var sz: nat

    ghost predicate Valid()
      reads this
    {
      0 < max && sz == |list| && ListOk(list, max)
    }

    constructor (m: nat)
      requires 0 < m
      ensures Valid() && max == m && list == []
    {
      max, list, sz := m, [], 0;
    }

    method FindPartialDatagram(dgl: u16) returns (i: nat)
      ensures i == Find(list, dgl)
    {
      i := 0;
      while i < |list|
        invariant 0 <= i <= |list|
        invariant Find(list, dgl) == i + Find(list[i..], dgl)
      {
        if list[i].dgl == dgl {
          return;
        }
        assert list[i..][1..] == list[i + 1..];
        i := i + 1;
      }
    }

    method PurgePartialDatagram(i: nat)
      requires i < |list|
      modifies this`list
      ensures list == Without(old(list), i)
    {
      list := list[..i] + list[i + 1..];
    }

    method NewPartialDatagram(a: Arrival) returns (ok: bool)
      requires a.Fits()
      modifies this`list
      ensures ok <==> a.mem.Ample()
      ensures list == if ok then [NewPartial(a)] + old(list) else old(list)
    {
      if !a.mem.entry || !a.mem.frag || !a.mem.skb {
        return false;
      }
      var p := a.p;
      var pbuf := Write(a.mem.leftover, p.off, p.bytes);
      list := [Partial(p.dgl, p.dgSize, a.mem.junk, pbuf, [Frag(p.off, |p.bytes|)])] + list;
      return true;
    }

    /** The entry moves to the front, so that the oldest percolate to the end. */
    method UpdatePartialDatagram(lh: nat, a: Arrival) returns (ok: bool)
      requires lh < |list| && a.p.off + |a.p.bytes| <= |list[lh].pbuf| && Extends(list[lh], a.p)
      modifies this`list
      ensures ok <==> !NeedsEntry(old(list)[lh].frags, a.p.Interval()) || a.mem.frag
      ensures list == if ok then [Updated(old(list)[lh], a.p)] + Without(old(list), lh) else old(list)
    {
      var pd, p := list[lh], a.p;
      var frags;
      ok, frags := NewFragment(pd.frags, p.off, |p.bytes|, a.mem.frag);
      WalkStopsAtHead(pd.frags, p.Interval());
      if ok {
        pd := pd.(frags := frags, pbuf := Write(pd.pbuf, p.off, p.bytes));
        list := [pd] + (list[..lh] + list[lh + 1..]);
      }
    }

    /** The common end: take the ether type from a first fragment, deliver if complete. */
    method Finish(p: Fragment) returns (out: Option<Datagram>)
      requires list != [] && list[0].frags != [] && sz > 0
      modifies this`list, this`sz
      ensures (list, out) == Settle(Typed(old(list)[0], p), old(list)[1..], p.dgSize)
      ensures sz == if out.Some? then old(sz) - 1 else old(sz)
    {
      var pd := list[0];
      if p.first {
        pd := pd.(etherType := p.etherType);
        list := [pd] + list[1..];
      }
      assert list == [pd] + old(list)[1..] && Without(list, 0) == old(list)[1..];
      if pd.frags[0].len == p.dgSize {
        PurgePartialDatagram(0);
        sz := sz - 1;
        return Some(Datagram(pd.etherType, pd.pbuf));
      }
      return None;
    }

    /** The handler on an entry that is there: a fragment that overlaps it takes its place, if there is memory; a
        fragment that cannot be kept loses it. */
    method Join(lh: nat, a: Arrival) returns (ok: bool)
      requires lh < |list| && Separate(list[lh].frags) && a.Fits() && a.p.off + |a.p.bytes| <= |list[lh].pbuf|
      requires sz > 0 && list[lh].dgSize == a.p.dgSize
      requires Clear(list[lh].frags, a.p.Interval()) || !a.mem.Ample()
      modifies this`list, this`sz
      ensures var frags, x := old(list)[lh].frags, a.p.Interval();
        ok <==> Clear(frags, x) && (NeedsEntry(frags, x) ==> a.mem.frag)
      ensures list == if ok then [Updated(old(list)[lh], a.p)] + Without(old(list), lh) else Without(old(list), lh)
      ensures sz == if ok then old(sz) else old(sz) - 1
    {
      hide Insert, NeedsEntry, Write, Clear;
      var overlap := FragmentOverlap(list[lh].frags, a.p.off, |a.p.bytes|);
      if overlap {
        PurgePartialDatagram(lh);
        ok := NewPartialDatagram(a);
        if ok {
          assert false;
        }
        sz := sz - 1;
        return;
      }
      ok := UpdatePartialDatagram(lh, a);
      if !ok {
        PurgePartialDatagram(lh);
        sz := sz - 1;
      }
    }

    /** The handler on a label that is not there: a full list gives up its last entry first. */
    method Start(a: Arrival) returns (ok: bool)
      requires a.Fits() && 0 < max && sz == |list| <= max
      modifies this`list, this`sz
      ensures ok <==> a.mem.Ample()
      ensures list == if ok then [NewPartial(a)] + Kept(old(list), max) else Kept(old(list), max)
      ensures sz == |list|
    {
      if sz == max {
        assert Without(list, |list| - 1) == list[..|list| - 1];
        PurgePartialDatagram(|list| - 1);
        sz := sz - 1;
      }
      ok := NewPartialDatagram(a);
      if ok {
        sz := sz + 1;
      }
    }

    /** The handler for one fragment; `out` is what it passes to the stack. */
    method DataHandler(a: Arrival) returns (out: Option<Datagram>)
      requires Valid() && Admissible(list, a)
      modifies this`list, this`sz
      ensures Valid()
      ensures (list, out) == Step(old(list), max, a)
    {
      StepKeepsListOk(list, max, a);
      ListTells(list, max);
      hide ListOk, Insert, NeedsEntry, Complete, Write, Clear, Kept, Separate;
      var lh := FindPartialDatagram(a.p.dgl);
      var ok;
      if lh == |list| {
        ok := Start(a);
        assert ok ==> list[1..] == Kept(old(list), max);
      } else {
        InsertNotEmpty(list[lh].frags, a.p.Interval());
        ok := Join(lh, a);
        assert ok ==> list[1..] == Without(old(list), lh);
      }
      if !ok {
        return None;
      }
      out := Finish(a.p);
    }

    /** eth1394_data_handler on the bytes of a packet. */
    method Receive(h: Host, buf: seq<byte>, mem: Memory) returns (out: Option<Datagram>)
      requires Valid() && Receivable(list, h, buf, mem)
      modifies this`list, this`sz
      ensures Valid() && (list, out) == Handle(old(list), max, h, buf, mem)
    {
      hide Parse, ListOk, Step, Admissible, Lf;
      var input := Classify(h, buf);
      match input
      case Immediate(dg) =>
        return if mem.skb then Some(dg) else None;
      case Piece(p) =>
        out := DataHandler(Arrival(p, mem));
    }

    /** eth1394_iso on one packet of the broadcast channel (`ours` if it came in there): a packet of another
        organisation is not looked at, of one of ours the extra header is skipped. */
    method Iso(h: Host, data: seq<byte>, ours: bool, mem: Memory) returns (out: Option<Datagram>)
      requires Valid() && |data| >= 8
      requires ours && Specifier(data) == SPECIFIER ==> Receivable(list, h, data[8..], mem)
      modifies this`list, this`sz
      ensures Valid()
      ensures ours && Specifier(data) == SPECIFIER ==> (list, out) == Handle(old(list), max, h, data[8..], mem)
      ensures !(ours && Specifier(data) == SPECIFIER) ==> list == old(list) && out == None
    {
      hide Receivable, Handle, ListOk;
      if !ours || Specifier(data) != SPECIFIER {
        return None;
      }
      out := Receive(h, data[8..], mem);
    }
  }

  // --- What every step keeps -------------------------------------------------------------------

  /** At most `max` open datagrams, no label twice. */
  predicate ListOk(list: seq<Partial>, max: nat) {
    && |list| <= max
    && (forall i :: 0 <= i < |list| ==> Open(list[i]))
    && (forall i, j :: 0 <= i < j < |list| ==> list[i].dgl != list[j].dgl)
  }

  lemma ListTells(list: seq<Partial>, max: nat)
    requires ListOk(list, max)
    ensures |list| <= max && forall i :: 0 <= i < |list| ==> Separate(list[i].frags)
  {
  }

  lemma UpdatedOpen(pd: Partial, a: Arrival)
    requires Open(pd) && a.Fits() && Extends(pd, a.p)
    ensures var pd' := Typed(Updated(pd, a.p), a.p);
      pd'.dgl == pd.dgl && pd'.dgSize == pd.dgSize && (Complete(pd'.frags, pd.dgSize) || Open(pd'))
  {
    var x := a.p.Interval();
    InsertKeepsSeparate(pd.frags, x);
    InsertWithin(pd.frags, x, pd.dgSize);
  }

  lemma InsertNotEmpty(list: seq<Frag>, x: Frag)
    ensures Insert(list, x) != []
  {
  }

  lemma InsertWithin(list: seq<Frag>, x: Frag, size: nat)
    requires Within(list, size) && x.End() <= size
    ensures Within(Insert(list, x), size)
  {
  }

  lemma SettleOk(pd: Partial, rest: seq<Partial>, max: nat, dgSize: nat)
    requires ListOk(rest, max) && |rest| < max
    requires forall i :: 0 <= i < |rest| ==> rest[i].dgl != pd.dgl
    requires Complete(pd.frags, dgSize) || Open(pd)
    ensures ListOk(Settle(pd, rest, dgSize).0, max)
  {
  }

  lemma WithoutOk(list: seq<Partial>, max: nat, i: nat)
    requires ListOk(list, max) && i < |list|
    ensures ListOk(Without(list, i), max)
    ensures forall k :: 0 <= k < |list| - 1 ==> Without(list, i)[k].dgl != list[i].dgl
  {
  }

  /** The list never grows beyond its bound and no label appears twice, whatever the allocators answer. */
  lemma StepKeepsListOk(list: seq<Partial>, max: nat, a: Arrival)
    requires 0 < max && ListOk(list, max) && Admissible(list, a)
    ensures ListOk(Step(list, max, a).0, max)
  {
    var i := Find(list, a.p.dgl);
    if i < |list| {
      WithoutOk(list, max, i);
      if Extends(list[i], a.p) {
        UpdatedOpen(list[i], a);
      }
      hide Open;
      if Clear(list[i].frags, a.p.Interval()) && (NeedsEntry(list[i].frags, a.p.Interval()) ==> a.mem.frag) {
        SettleOk(Typed(Updated(list[i], a.p), a.p), Without(list, i), max, a.p.dgSize);
      }
    } else if a.mem.Ample() {
      SettleOk(Typed(NewPartial(a), a.p), Kept(list, max), max, a.p.dgSize);
    }
  }
}
