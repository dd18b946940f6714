/**
 The receive ring of rt_8139too: a byte ring the chip writes frames into, one behind the other, and the driver reads
 with a 16-bit cursor. A frame that does not fit in front of the end of the ring is not wrapped: it runs on into the
 padding behind the ring, and the next one starts where it would have ended on the ring.
 */
module Rtl8139Rx {
  import opened Wrappers
  import opened Bytes

  /** RX_BUF_LEN, RX_BUF_TOT_LEN, MAX_ETH_FRAME_SIZE */
  const BUF_LEN := 0x8000
  const TOT_LEN := BUF_LEN + 16 + 2048
  const MAX_ETH_FRAME_SIZE := 1536

  /** The checks of the receive loop: the chip is still writing, the size is not that of a frame, or it was bad. */
  predicate BadHeader(status: int, size: int) {
    size == 0xfff0 || size > MAX_ETH_FRAME_SIZE + 4 || size < 8 || status % 2 == 0
  }

  /** A frame as the chip stores it, checksum included, with its status word. */
  datatype Received = Received(status: u16, data: seq<byte>) {
    predicate Valid() {
      status % 2 == 1 && 8 <= |data| <= MAX_ETH_FRAME_SIZE + 4
    }
    /** What the driver passes on: without the four checksum bytes. */
    function Packet(): seq<byte>
      requires Valid()
    {
      data[..|data| - 4]
    }
    /** Status and size, little-endian, then the frame. */
    function Stored(): (bytes: seq<byte>)
      requires Valid()
      ensures |bytes| == 4 + |data|
    {
      [status % 0x100, status / 0x100, |data| % 0x100, |data| / 0x100] + data
    }
  }

  /** The checks let through exactly the frames of 8 to 1540 bytes, checksum included, that were received well. */
  lemma ValidIff(x: Received)
    requires |x.data| < 0x1_0000
    ensures x.Valid() <==> !BadHeader(x.status, |x.data|)
    ensures x.Valid() <==> x.status % 2 == 1 && 8 <= |x.data| <= 1540
  {
  }

  /** The place behind a frame of `size` bytes stored at `pos`. */
  function Behind(pos: nat, size: nat): nat {
    (pos + size + 4 + 3) / 4 * 4
  }

  /** Behind the header and the frame, at the next multiple of four. */
  lemma BehindAligned(pos: nat, size: nat)
    ensures Behind(pos, size) % 4 == 0 && pos + size + 4 <= Behind(pos, size) < pos + size + 8
  {
  }

  /** Where frame number `k` is stored, counted from the very first byte ever stored. */
  function Pos(frames: seq<Received>, k: nat): (p: nat)
    requires k <= |frames|
    ensures p % 4 == 0
  {
    if k == 0 then 0 else Behind(Pos(frames, k - 1), |frames[k - 1].data|)
  }

  function Offset(pos: nat): (o: nat)
    ensures o < BUF_LEN
  {
    pos % BUF_LEN
  }

  // --- Arithmetic of the cursor ----------------------------------------------------------------

  /** cur_rx: the position, cut to sixteen bits. */
  function Cursor(pos: nat): u16 {
    pos % 0x1_0000
  }

  lemma CursorOffset(pos: nat)
    ensures Cursor(pos) % BUF_LEN == Offset(pos)
  {
    var c := Cursor(pos);
    assert pos == 0x1_0000 * (pos / 0x1_0000) + c;
    assert c == BUF_LEN * (c / BUF_LEN) + c % BUF_LEN;
    assert pos == BUF_LEN * (2 * (pos / 0x1_0000) + c / BUF_LEN) + c % BUF_LEN;
  }

  lemma CursorAligned(pos: nat)
    requires pos % 4 == 0
    ensures Cursor(pos) % 4 == 0 && Offset(pos) % 4 == 0
  {
    assert Cursor(pos) == 4 * (pos / 4 - 0x4000 * (pos / 0x1_0000));
    assert Offset(pos) == 4 * (pos / 4 - 0x2000 * (pos / BUF_LEN));
  }

  /** (cur_rx + rx_size + 4 + 3) & ~3, stored in sixteen bits, is again the cursor of the next position. */
  lemma CursorAdvances(pos: nat, size: nat)
    requires pos % 4 == 0
    ensures Cursor(Behind(pos, size)) == Behind(Cursor(pos), size) % 0x1_0000
  {
    var q, c := pos / 0x1_0000, pos % 0x1_0000;
    assert (pos + size + 7) / 4 == (c + size + 7) / 4 + 0x4000 * q;
    assert Behind(pos, size) == Behind(c, size) + 0x1_0000 * q;
  }

  /** A frame ends inside the buffer, padding included, wherever it starts. */
  lemma FitsBuffer(pos: nat, size: nat)
    requires pos % 4 == 0 && size <= MAX_ETH_FRAME_SIZE + 4
    ensures Offset(pos) + 4 + size <= TOT_LEN
  {
  }

  /** Two stretches that are apart within one length of the ring are apart in the buffer, unwrapped. */
  lemma ApartInBuffer(a: nat, lenA: nat, b: nat, lenB: nat)
    requires a + lenA <= b && b + lenB <= a + BUF_LEN
    ensures Offset(a) + lenA <= Offset(b) || Offset(b) + lenB <= Offset(a)
  {
  }

  lemma {:induction false} PosMonotone(frames: seq<Received>, i: nat, j: nat)
    requires i < j <= |frames|
    ensures Pos(frames, i) + 4 + |frames[i].data| <= Pos(frames, j)
    decreases j
  {
    if i < j - 1 {
      PosMonotone(frames, i, j - 1);
    }
  }

  lemma {:induction false} PosExtends(frames: seq<Received>, x: Received, k: nat)
    requires k <= |frames|
    ensures Pos(frames + [x], k) == Pos(frames, k)
  {
    if k > 0 {
      PosExtends(frames, x, k - 1);
    }
  }

  // --- The contents of the ring ----------------------------------------------------------------

  predicate StoredAt(buf: seq<byte>, off: nat, bytes: seq<byte>) {
    off + |bytes| <= |buf| && buf[off..off + |bytes|] == bytes
  }

  /** Every frame not yet read is intact in the buffer, and together they take at most one length of the ring. */
  ghost predicate Intact(buf: seq<byte>, frames: seq<Received>, read: nat) {
    && |buf| == TOT_LEN && read <= |frames|
    && (forall k :: 0 <= k < |frames| ==> frames[k].Valid())
    && Pos(frames, |frames|) <= Pos(frames, read) + BUF_LEN
    && forall k :: read <= k < |frames| ==> StoredAt(buf, Offset(Pos(frames, k)), frames[k].Stored())
  }

  lemma WriteKeeps(buf: seq<byte>, off: nat, bytes: seq<byte>, off': nat, bytes': seq<byte>)
    requires off + |bytes| <= |buf| && StoredAt(buf, off', bytes')
    requires off + |bytes| <= off' || off' + |bytes'| <= off
    ensures StoredAt(Write(buf, off, bytes), off', bytes')
  {
    var w := Write(buf, off, bytes);
    assert w[off'..off' + |bytes'|] == buf[off'..off' + |bytes'|];
  }

  lemma StoredFits(p: nat, x: Received)
    requires x.Valid() && p % 4 == 0
    ensures Offset(p) + |x.Stored()| <= TOT_LEN
  {
    FitsBuffer(p, |x.data|);
  }

  /** Storing one more frame where there is room leaves the unread ones intact. */
  lemma DepositIntact(buf: seq<byte>, frames: seq<Received>, read: nat, x: Received)
    requires Intact(buf, frames, read) && x.Valid()
    requires Behind(Pos(frames, |frames|), |x.data|) <= Pos(frames, read) + BUF_LEN
    ensures Offset(Pos(frames, |frames|)) + |x.Stored()| <= TOT_LEN
    ensures Intact(Write(buf, Offset(Pos(frames, |frames|)), x.Stored()), frames + [x], read)
  {
    hide Offset, Behind, Pos, Received.Stored, StoredAt, Write, Received.Valid;
    var n, fs := |frames|, frames + [x];
    var p := Pos(frames, n);
    StoredFits(p, x);
    PosExtends(frames, x, read);
    PosLast(frames, x);
    forall k | read <= k < n + 1
      ensures StoredAt(Write(buf, Offset(p), x.Stored()), Offset(Pos(fs, k)), fs[k].Stored())
    {
      PosExtends(frames, x, if k < n then k else n);
      if k < n {
        StaysIntact(buf, frames, read, x, k);
      } else {
        WriteStores(buf, Offset(p), x.Stored());
      }
    }
  }

  lemma PosLast(frames: seq<Received>, x: Received)
    ensures Pos(frames + [x], |frames| + 1) == Behind(Pos(frames, |frames|), |x.data|)
  {
    PosExtends(frames, x, |frames|);
  }

  lemma WriteStores(buf: seq<byte>, off: nat, bytes: seq<byte>)
    requires off + |bytes| <= |buf|
    ensures StoredAt(Write(buf, off, bytes), off, bytes)
  {
  }

  lemma StaysIntact(buf: seq<byte>, frames: seq<Received>, read: nat, x: Received, k: nat)
    requires Intact(buf, frames, read) && x.Valid() && read <= k < |frames|
    requires Behind(Pos(frames, |frames|), |x.data|) <= Pos(frames, read) + BUF_LEN
    requires Offset(Pos(frames, |frames|)) + |x.Stored()| <= TOT_LEN
    ensures StoredAt(Write(buf, Offset(Pos(frames, |frames|)), x.Stored()), Offset(Pos(frames, k)), frames[k].Stored())
  {
    var p, q := Pos(frames, |frames|), Pos(frames, k);
    PosMonotone(frames, k, |frames|);
    if read < k { PosMonotone(frames, read, k); }
    ApartInBuffer(q, 4 + |frames[k].data|, p, 4 + |x.data|);
    hide Offset, Behind, Pos, Received.Stored;
    WriteKeeps(buf, Offset(p), x.Stored(), Offset(q), frames[k].Stored());
  }

  lemma ReadIntact(buf: seq<byte>, frames: seq<Received>, read: nat)
    requires Intact(buf, frames, read) && read < |frames|
    ensures Intact(buf, frames, read + 1)
  {
    PosMonotone(frames, read, read + 1);
  }

  lemma ReadAdvances(buf: seq<byte>, frames: seq<Received>, read: nat)
    requires Intact(buf, frames, read) && read < |frames|
    ensures Intact(buf, frames, read + 1)
    ensures var cur := Cursor(Pos(frames, read + 1));
      cur == Behind(Cursor(Pos(frames, read)), |frames[read].data|) % 0x1_0000 && cur % 4 == 0
  {
    ReadIntact(buf, frames, read);
    CursorAdvances(Pos(frames, read), |frames[read].data|);
    CursorAligned(Pos(frames, read + 1));
    hide Cursor, Behind, Intact;
  }

  /** What the driver finds at the offset of the next frame. */
  lemma FrameInBuffer(buf: seq<byte>, frames: seq<Received>, read: nat)
    requires Intact(buf, frames, read) && read < |frames|
    ensures var x := frames[read]; var off := Offset(Pos(frames, read));
      && off + 4 + |x.data| <= TOT_LEN
      && [buf[off], buf[off + 1], buf[off + 2], buf[off + 3]] == x.Stored()[..4]
      && buf[off + 4..off + 4 + (|x.data| - 4)] == x.Packet()
  {
    var x := frames[read];
    var off := Offset(Pos(frames, read));
    assert StoredAt(buf, off, x.Stored());
    FitsBuffer(Pos(frames, read), |x.data|);
    hide Offset, Pos;
    var w := buf[off..off + 4 + |x.data|];
    assert w[..4] == [buf[off], buf[off + 1], buf[off + 2], buf[off + 3]];
    assert w[4..|x.data|] == buf[off + 4..off + |x.data|];
    assert x.Stored()[4..|x.data|] == x.data[..|x.data| - 4];
  }

  // --- Driver and chip -------------------------------------------------------------------------

  class RxRing {
    const ring: array<byte>
    var curRx: u16                          // tp->cur_rx
    var results: seq<Option<seq<byte>>>     // per frame read: what rtnetif_rx got, or None for lack of memory
    var frames: seq<Received>               // what the chip stored so far
    var read: nat                           // how many of them it was told are read

    ghost predicate Reading(cur: u16)
      reads this`results, this`frames, this`read, ring
    {
      && ring.Length == TOT_LEN && read <= |frames|
      && (forall k :: 0 <= k < |frames| ==> frames[k].Valid())
      && Intact(ring[..], frames, read)
      && cur == Cursor(Pos(frames, read))
      && |results| == read
      && forall k :: 0 <= k < read ==> results[k] == None || results[k] == Some(frames[k].Packet())
    }

    ghost predicate Valid()
      reads this`curRx, this`results, this`frames, this`read, ring
    {
      Reading(curRx)
    }

    constructor ()
      ensures Valid() && frames == [] && results == []
      ensures fresh(ring)
    {
      ring := new byte[TOT_LEN](_ => 0);
      curRx, results, frames, read := 0, [], [], 0;
    }

    method Store(off: nat, bytes: seq<byte>)
      requires off + |bytes| <= ring.Length
      modifies ring
      ensures ring[..] == Write(old(ring[..]), off, bytes)
    {
      forall i | 0 <= i < |bytes| {
        ring[off + i] := bytes[i];
      }
    }

    /** The chip stores a frame if the ring has room for it. */
    method Deposit(x: Received, ghost cur: u16)
      requires Reading(cur) && x.Valid()
      modifies this`frames, ring
      ensures Reading(cur)
      ensures frames == if Behind(Pos(old(frames), |old(frames)|), |x.data|) <= Pos(old(frames), read) + BUF_LEN
                        then old(frames) + [x] else old(frames)
    {
      hide Offset, Behind, Pos, Intact, Received.Stored, Received.Packet, Received.Valid, Cursor, Write;
      var p := Pos(frames, |frames|);
      if Behind(p, |x.data|) <= Pos(frames, read) + BUF_LEN {
        DepositIntact(ring[..], frames, read, x);
        PosExtends(frames, x, read);
        Store(Offset(p), x.Stored());
        frames := frames + [x];
      }
    }

    /** The header word and the packet behind it, at the next frame. */
    method CopyOut(cur: u16) returns (rxStatus: nat, rxSize: nat, packet: seq<byte>)
      requires Reading(cur) && read < |frames|
      ensures rxSize == |frames[read].data| && rxStatus % 2 == 1 && packet == frames[read].Packet()
      ensures 8 <= rxSize <= MAX_ETH_FRAME_SIZE + 4
    {
      ghost var x := frames[read];
      CursorOffset(Pos(frames, read));
      FrameInBuffer(ring[..], frames, read);
      HeaderTells(x);
      hide Offset, Pos, Intact, Cursor, Received.Stored, Received.Packet, Le32;
      var ringOffset := cur % BUF_LEN;
      ghost var h := x.Stored()[..4];
      assert h[0] == ring[ringOffset] && h[1] == ring[ringOffset + 1] && h[2] == ring[ringOffset + 2] &&
        h[3] == ring[ringOffset + 3];
      rxStatus := Le32(ring[ringOffset], ring[ringOffset + 1], ring[ringOffset + 2], ring[ringOffset + 3]);
      rxSize := rxStatus / 0x1_0000;
      packet := ring[ringOffset + 4..ringOffset + 4 + (rxSize - 4)];
    }

    /** One turn of the receive loop, on a frame that is there. */
    method ReadFrame(cur: u16, memory: bool) returns (cur': u16)
      requires Reading(cur) && read < |frames|
      modifies this`results, this`read
      ensures Reading(cur') && read == old(read) + 1 && cur' % 4 == 0
      ensures results == old(results) + [if memory then Some(frames[old(read)].Packet()) else None]
    {
      hide Pos, Intact, Cursor, Behind, Received.Packet, Received.Valid;
      ReadAdvances(ring[..], frames, read);
      var rxStatus, rxSize, packet := CopyOut(cur);
      if BadHeader(rxStatus, rxSize) {
        assert false;                   // early receive or a bad header
      }
      results := results + [if memory then Some(packet) else None];
      cur' := Behind(cur, rxSize) % 0x1_0000;
      read := read + 1;                 // RxBufPtr
    }

    /** rtl8139_rx_interrupt, while the chip stores the frames of `incoming` (as far as there is room): it reads until
        the ring is empty, and passes on every frame if there is memory. */
    method RxInterrupt(incoming: seq<Received>, memory: bool)
      requires Valid() && forall k :: 0 <= k < |incoming| ==> incoming[k].Valid()
      modifies this`curRx, this`results, this`frames, this`read, ring
      ensures Valid() && read == |frames| && old(frames) <= frames && old(results) <= results
      ensures memory ==> forall k :: |old(results)| <= k < |results| ==> results[k] == Some(frames[k].Packet())
    {
      hide Intact, Pos, Cursor, Behind, Received.Packet, Received.Valid;
      var cur := curRx;
      var i := 0;
      while i < |incoming| || read < |frames|
        invariant Reading(cur) && 0 <= i <= |incoming| && read <= |frames| && old(frames) <= frames &&
          old(results) <= results
        invariant forall k :: 0 <= k < |frames| ==> frames[k].Valid()
        invariant memory ==> forall k :: |old(results)| <= k < |results| ==> results[k] == Some(frames[k].Packet())
        decreases 2 * (|incoming| - i) + |frames| - read
      {
        var stores := *;
        if i < |incoming| && (stores || read == |frames|) {
          Deposit(incoming[i], cur);
          i := i + 1;
        } else {
          cur := ReadFrame(cur, memory);
        }
      }
      curRx := cur;
    }

    /** Any run of arrivals and interrupts: as long as there is memory, exactly the stored frames are passed on, in
        order, and an interrupt leaves none behind. */
    method AnyRun(steps: seq<Step>)
      requires Valid() && forall k :: 0 <= k < |steps| ==> steps[k].Valid()
      modifies this`curRx, this`results, this`frames, this`read, ring
      ensures Valid() && |results| == read && old(frames) <= frames && old(results) <= results
      ensures forall k :: |old(results)| <= k < |results| ==> results[k] == Some(frames[k].Packet())
      ensures steps != [] && steps[|steps| - 1].Interrupt? ==> |results| == |frames|
    {
      hide Intact, Pos, Cursor, Behind, Received.Packet, Received.Valid;
      for n := 0 to |steps|
        invariant Valid() && read <= |frames| && old(frames) <= frames && old(results) <= results
        invariant forall k :: |old(results)| <= k < |results| ==> results[k] == Some(frames[k].Packet())
        invariant n > 0 && steps[n - 1].Interrupt? ==> |results| == |frames|
      {
        assert steps[n].Valid();
        match steps[n] {
          case Arrive(x) => Deposit(x, curRx);
          case Interrupt(incoming) => RxInterrupt(incoming, true);
        }
      }
    }
  }

  datatype Step = Arrive(x: Received) | Interrupt(incoming: seq<Received>) {
    predicate Valid() {
      match this
      case Arrive(x) => x.Valid()
      case Interrupt(incoming) => forall k :: 0 <= k < |incoming| ==> incoming[k].Valid()
    }
  }

  /** le32_to_cpu */
  function Le32(b0: byte, b1: byte, b2: byte, b3: byte): nat {
    var n0: nat, n1: nat, n2: nat, n3: nat := b0, b1, b2, b3;
    n0 + n1 * 0x100 + n2 * 0x1_0000 + n3 * 0x100_0000
  }

  /** The header word the driver assembles holds the size and the status bit. */
  lemma HeaderTells(x: Received)
    requires x.Valid()
    ensures var h := x.Stored()[..4];
      Le32(h[0], h[1], h[2], h[3]) / 0x1_0000 == |x.data| && Le32(h[0], h[1], h[2], h[3]) % 2 == 1
  {
    var s: nat, n := x.status, |x.data|;
    var h := x.Stored()[..4];
    assert Le32(h[0], h[1], h[2], h[3]) == s + n * 0x1_0000;
  }
}
