/**
 The receive ring of rt_macb: the controller spreads a frame over as many 128-byte buffers as it needs.

 `stream` is everything the controller ever deposited. What the driver delivers is defined on the stream alone
 (`FramesAt`), without the ring and without the places where one call of macb_rx ended and the next began.
 */
module MacbRx {
  import opened Ring

  /** RX_RING_SIZE, RX_BUFFER_SIZE */
  const SIZE := 512
  const BUFFER := 128

  /** A descriptor the controller has filled, with its buffer. */
  datatype Item<T> = Item(sof: bool, eof: bool, frmLen: nat, data: seq<T>)

  // --- What a stream of descriptors means ------------------------------------------------------

  /** Where the frame that is open behind the first `p` descriptors starts, or -1. A start of frame inside an open
      frame supersedes it. */
  function OpenAt<T>(st: seq<Item<T>>, p: nat): (a: int)
    requires p <= |st|
    ensures -1 <= a < p
    ensures a >= 0 ==> st[a].sof && forall k :: a <= k < p ==> !st[k].eof
  {
    if p == 0 then -1
    else if st[p - 1].eof then -1
    else if st[p - 1].sof then p - 1
    else OpenAt(st, p - 1)
  }

  /** Where the frame that descriptor `n` belongs to starts. */
  function StartAt<T>(st: seq<Item<T>>, n: nat): int
    requires n < |st|
  {
    if st[n].sof then n else OpenAt(st, n)
  }

  function Join<T>(st: seq<Item<T>>, a: nat, b: nat): seq<T>
    requires a <= b <= |st|
    decreases b
  {
    if a == b then [] else Join(st, a, b - 1) + st[b - 1].data
  }

  /** The frames complete within the first `p` descriptors: each the length-prefix of its buffers. */
  function FramesAt<T>(st: seq<Item<T>>, p: nat): seq<seq<T>>
    requires p <= |st| && WellFormed(st)
  {
    if p == 0 then []
    else if st[p - 1].eof then FramesAt(st, p - 1) + [Frame(st, p - 1)]
    else FramesAt(st, p - 1)
  }

  function Frame<T>(st: seq<Item<T>>, n: nat): seq<T>
    requires n < |st| && WellFormedAt(st, n) && st[n].eof
  {
    JoinLength(st, StartAt(st, n), n + 1);
    Join(st, StartAt(st, n), n + 1)[..st[n].frmLen]
  }

  /** What the controller guarantees: a descriptor belongs to a frame, a frame does not fill the ring, and the length
      in its last descriptor ends in its last buffer. */
  predicate WellFormedAt<T>(st: seq<Item<T>>, n: nat)
    requires n < |st|
  {
    && (forall k :: 0 <= k <= n ==> |st[k].data| == BUFFER)
    && StartAt(st, n) >= 0
    && n + 1 - StartAt(st, n) < SIZE
    && (st[n].eof ==> (n - StartAt(st, n)) * BUFFER <= st[n].frmLen <= (n + 1 - StartAt(st, n)) * BUFFER)
  }

  predicate WellFormed<T>(st: seq<Item<T>>) {
    forall n :: 0 <= n < |st| ==> WellFormedAt(st, n)
  }

  lemma WellFormedTells<T>(st: seq<Item<T>>, n: nat)
    requires WellFormed(st) && n < |st|
    ensures WellFormedAt(st, n)
  {
  }

  lemma {:induction false} JoinLength<T>(st: seq<Item<T>>, a: nat, b: nat)
    requires a <= b <= |st| && forall k :: a <= k < b ==> |st[k].data| == BUFFER
    ensures |Join(st, a, b)| == (b - a) * BUFFER
    decreases b
  {
    if a < b {
      JoinLength(st, a, b - 1);
    }
  }

  /** How a frame is put together: all of every buffer but the last, and as much of that as the length says. */
  lemma FrameCopy<T>(st: seq<Item<T>>, a: nat, n: nat)
    requires n < |st| && WellFormedAt(st, n) && st[n].eof && StartAt(st, n) == a
    ensures a <= n < a + SIZE - 1
    ensures forall k :: a <= k <= n ==> |st[k].data| == BUFFER
    ensures (n - a) * BUFFER <= st[n].frmLen <= (n - a) * BUFFER + BUFFER
    ensures Frame(st, n) == Join(st, a, n) + st[n].data[..st[n].frmLen - (n - a) * BUFFER]
  {
    JoinLength(st, a, n);
  }

  // --- What the controller deposits ------------------------------------------------------------

  /** The number of buffers a frame of `n` bytes takes. */
  function Buffers(n: nat): (m: nat)
    requires n > 0
    ensures 0 < m && (m - 1) * 128 < n <= m * 128
  {
    (n + 127) / 128
  }

  /** The descriptors for a frame: the first and the last one are marked, the last one has its length and is filled up
      with whatever was in its buffer. */
  function Deposited<T>(frame: seq<T>, fill: T): (xs: seq<Item<T>>)
    requires frame != []
    ensures |xs| == Buffers(|frame|)
  {
    var m := Buffers(|frame|);
    seq(m, k requires 0 <= k < m =>
      if k == m - 1 then Item(k == 0, true, |frame|, frame[k * 128..] + seq(m * 128 - |frame|, _ => fill))
      else Item(k == 0, false, 0, frame[k * 128..k * 128 + 128]))
  }

  function DepositedAll<T>(frames: seq<seq<T>>, fill: T): (xs: seq<Item<T>>)
    requires forall i :: 0 <= i < |frames| ==> frames[i] != []
  {
    if frames == [] then []
    else
      var n := |frames| - 1;
      DepositedAll(frames[..n], fill) + Deposited(frames[n], fill)
  }

  lemma PieceTells<T>(frame: seq<T>, fill: T, k: nat)
    requires frame != [] && k < Buffers(|frame|)
    ensures var x, m := Deposited(frame, fill)[k], Buffers(|frame|);
      && |x.data| == 128 && (x.sof <==> k == 0) && (x.eof <==> k == m - 1)
      && (x.eof ==> x.frmLen == |frame| && x.data[..|frame| - k * 128] == frame[k * 128..])
      && (!x.eof ==> x.data == frame[k * 128..k * 128 + 128])
  {
  }

  /** Behind a complete frame, or at the very beginning. */
  ghost predicate Between<T>(st: seq<Item<T>>) {
    WellFormed(st) && (st == [] || st[|st| - 1].eof)
  }

  /** Inside the new frame. */
  lemma {:induction false} InsideOpen<T>(st: seq<Item<T>>, frame: seq<T>, fill: T, k: nat)
    requires frame != [] && 0 < k < Buffers(|frame|)
    ensures OpenAt(st + Deposited(frame, fill), |st| + k) == |st|
  {
    hide Deposited, Buffers;
    PieceTells(frame, fill, k - 1);
    assert (st + Deposited(frame, fill))[|st| + k - 1] == Deposited(frame, fill)[k - 1];
    if k > 1 {
      InsideOpen(st, frame, fill, k - 1);
    }
  }

  lemma InsideStart<T>(st: seq<Item<T>>, frame: seq<T>, fill: T, k: nat)
    requires frame != [] && k < Buffers(|frame|)
    ensures StartAt(st + Deposited(frame, fill), |st| + k) == |st|
  {
    hide Deposited, Buffers;
    PieceTells(frame, fill, k);
    assert (st + Deposited(frame, fill))[|st| + k] == Deposited(frame, fill)[k];
    if k > 0 {
      InsideOpen(st, frame, fill, k);
    }
  }

  lemma OldWellFormed<T>(st: seq<Item<T>>, st': seq<Item<T>>, n: nat)
    requires n < |st| && WellFormedAt(st, n) && st <= st'
    ensures WellFormedAt(st', n)
  {
    Extends(st, st', n);
  }

  /** A descriptor of the new frame is well-formed, exactly if the frame leaves a descriptor of the ring free or this is
      not one too many. */
  lemma NewWellFormed<T>(st: seq<Item<T>>, frame: seq<T>, fill: T, k: nat)
    requires WellFormed(st) && frame != [] && k < Buffers(|frame|)
    ensures WellFormedAt(st + Deposited(frame, fill), |st| + k) <==> k < 511
  {
    var all := st + Deposited(frame, fill);
    hide Deposited, Buffers;
    InsideStart(st, frame, fill, k);
    PieceTells(frame, fill, k);
    forall n | 0 <= n <= |st| + k ensures |all[n].data| == 128 {
      if n < |st| {
        WellFormedTells(st, n);
      } else {
        PieceTells(frame, fill, n - |st|);
        assert all[n] == Deposited(frame, fill)[n - |st|];
      }
    }
    assert all[|st| + k] == Deposited(frame, fill)[k];
  }

  /** A frame is well-formed behind any stream that is, exactly if it leaves a descriptor of the ring free. */
  lemma DepositFitsIff<T>(st: seq<Item<T>>, frame: seq<T>, fill: T)
    requires Between(st) && frame != []
    ensures WellFormed(st + Deposited(frame, fill)) <==> |frame| <= 511 * 128
    ensures |frame| <= 511 * 128 ==> Between(st + Deposited(frame, fill))
  {
    var all, m := st + Deposited(frame, fill), Buffers(|frame|);
    assert |all| == |st| + m;
    hide Deposited, Buffers, WellFormedAt;
    PieceTells(frame, fill, m - 1);
    assert all[|all| - 1] == Deposited(frame, fill)[m - 1];
    if m <= 511 {
      forall n | 0 <= n < |all| ensures WellFormedAt(all, n) {
        if n < |st| {
          OldWellFormed(st, all, n);
        } else {
          NewWellFormed(st, frame, fill, n - |st|);
        }
      }
    } else {
      NewWellFormed(st, frame, fill, m - 1);
    }
  }

  lemma {:induction false} JoinDeposited<T>(st: seq<Item<T>>, frame: seq<T>, fill: T, k: nat)
    requires frame != [] && k < Buffers(|frame|)
    ensures k * 128 <= |frame| && Join(st + Deposited(frame, fill), |st|, |st| + k) == frame[..k * 128]
  {
    hide Deposited, Buffers;
    var all := st + Deposited(frame, fill);
    if k > 0 {
      JoinDeposited(st, frame, fill, k - 1);
      PieceTells(frame, fill, k - 1);
      assert all[|st| + k - 1] == Deposited(frame, fill)[k - 1];
      assert frame[..k * 128] == frame[..(k - 1) * 128] + frame[(k - 1) * 128..(k - 1) * 128 + 128];
    }
  }

  /** The frame comes out of its descriptors as it went in. */
  lemma FrameDeposited<T>(st: seq<Item<T>>, frame: seq<T>, fill: T)
    requires Between(st) && 0 < |frame| <= 511 * 128
    ensures var all := st + Deposited(frame, fill);
      WellFormed(all) && Frame(all, |all| - 1) == frame && all[|all| - 1].eof
  {
    var all, m := st + Deposited(frame, fill), Buffers(|frame|);
    assert |all| == |st| + m;
    hide Deposited, Buffers, WellFormedAt, WellFormed, Frame, Join, StartAt;
    DepositFitsIff(st, frame, fill);
    InsideStart(st, frame, fill, m - 1);
    PieceTells(frame, fill, m - 1);
    var n := |all| - 1;
    assert all[n] == Deposited(frame, fill)[m - 1];
    WellFormedTells(all, n);
    JoinDeposited(st, frame, fill, m - 1);
    Assembled(all, |st|, n, frame);
  }

  lemma Assembled<T>(st: seq<Item<T>>, a: nat, n: nat, frame: seq<T>)
    requires n < |st| && WellFormedAt(st, n) && st[n].eof && StartAt(st, n) == a <= n
    requires (n - a) * 128 <= |frame| == st[n].frmLen && Join(st, a, n) == frame[..(n - a) * 128]
    requires |frame| - (n - a) * 128 <= |st[n].data|
    requires st[n].data[..|frame| - (n - a) * 128] == frame[(n - a) * 128..]
    ensures Frame(st, n) == frame
  {
    hide Join, StartAt, Frame, WellFormedAt;
    FrameCopy(st, a, n);
    var q := (n - a) * 128;
    assert frame[..q] + frame[q..] == frame;
  }

  /** Nothing is delivered before its last descriptor. */
  lemma {:induction false} FramesInside<T>(st: seq<Item<T>>, frame: seq<T>, fill: T, k: nat)
    requires Between(st) && 0 < |frame| <= 511 * 128 && k < Buffers(|frame|)
    ensures var all := st + Deposited(frame, fill);
      WellFormed(all) && FramesAt(all, |st| + k) == FramesAt(st, |st|)
  {
    hide Deposited, Buffers, WellFormed, Frame;
    var all := st + Deposited(frame, fill);
    DepositFitsIff(st, frame, fill);
    if k == 0 {
      BetweenTells(st);
      Extends(st, all, |st|);
    } else {
      FramesInside(st, frame, fill, k - 1);
      PieceTells(frame, fill, k - 1);
      assert all[|st| + k - 1] == Deposited(frame, fill)[k - 1];
    }
  }

  lemma BetweenTells<T>(st: seq<Item<T>>)
    requires Between(st)
    ensures WellFormed(st)
  {
  }

  /** The stream ends behind a frame, and what a driver has to deliver of it are the given frames. */
  ghost predicate Carries<T>(st: seq<Item<T>>, frames: seq<seq<T>>) {
    Between(st) && FramesAt(st, |st|) == frames
  }

  lemma CarriesNone<T>()
    ensures Carries<T>([], [])
  {
  }

  lemma CarriesNext<T>(st: seq<Item<T>>, frames: seq<seq<T>>, frame: seq<T>, fill: T)
    requires Carries(st, frames) && 0 < |frame| <= 511 * 128
    ensures Carries(st + Deposited(frame, fill), frames + [frame])
  {
    var all, m := st + Deposited(frame, fill), Buffers(|frame|);
    assert |all| == |st| + m;
    hide Deposited, Buffers, WellFormed, Frame;
    DepositFitsIff(st, frame, fill);
    FrameDeposited(st, frame, fill);
    FramesInside(st, frame, fill, m - 1);
  }

  /** Any frames of up to 65408 bytes that the controller deposits, one behind the other, are a well-formed stream, and
      what a driver has to deliver of it are exactly these frames. */
  lemma {:induction false} DepositedRoundTrip<T>(frames: seq<seq<T>>, fill: T)
    requires forall i :: 0 <= i < |frames| ==> 0 < |frames[i]| <= 511 * 128
    ensures Carries(DepositedAll(frames, fill), frames)
  {
    hide Deposited, Carries;
    if frames == [] {
      CarriesNone<T>();
    } else {
      var n := |frames| - 1;
      var before := frames[..n];
      DepositedRoundTrip(before, fill);
      CarriesNext(DepositedAll(before, fill), before, frames[n], fill);
      assert frames == before + [frames[n]];
    }
  }

  lemma {:induction false} FramesGrow<T>(st: seq<Item<T>>, p: nat, q: nat)
    requires p <= q <= |st| && WellFormed(st)
    ensures FramesAt(st, p) <= FramesAt(st, q)
  {
    hide WellFormed, Frame;
    if p < q {
      FramesGrow(st, p, q - 1);
    }
  }

  /** While such a stream arrives, whatever is complete of it are the first of its frames, as they were sent. */
  lemma DeliveredAreSent<T>(frames: seq<seq<T>>, fill: T, st: seq<Item<T>>, p: nat)
    requires forall i :: 0 <= i < |frames| ==> 0 < |frames[i]| <= 511 * 128
    requires st <= DepositedAll(frames, fill) && WellFormed(st) && p <= |st|
    ensures FramesAt(st, p) <= frames
  {
    hide WellFormed, FramesAt, DepositedAll;
    var all := DepositedAll(frames, fill);
    DepositedRoundTrip(frames, fill);
    BetweenTells(all);
    Extends(st, all, p);
    FramesGrow(all, p, |all|);
  }

  /** An open frame has delivered nothing yet. */
  lemma {:induction false} FramesOpen<T>(st: seq<Item<T>>, p: nat)
    requires p <= |st| && WellFormed(st) && OpenAt(st, p) >= 0
    ensures FramesAt(st, p) == FramesAt(st, OpenAt(st, p))
  {
    if !st[p - 1].sof {
      FramesOpen(st, p - 1);
    }
  }

  /** More descriptors do not change what the earlier ones mean. */
  lemma {:induction false} Extends<T>(st: seq<Item<T>>, st': seq<Item<T>>, p: nat)
    requires st <= st' && p <= |st|
    ensures OpenAt(st', p) == OpenAt(st, p)
    ensures WellFormed(st) && WellFormed(st') ==> FramesAt(st', p) == FramesAt(st, p)
  {
    if p > 0 {
      Extends(st, st', p - 1);
      if WellFormed(st) && WellFormed(st') && st[p - 1].eof {
        FrameExtends(st, st', p - 1);
      }
    }
  }

  lemma FrameExtends<T>(st: seq<Item<T>>, st': seq<Item<T>>, n: nat)
    requires st <= st' && n < |st| && WellFormedAt(st, n) && WellFormedAt(st', n) && st[n].eof
    ensures Frame(st', n) == Frame(st, n)
  {
    OpenExtends(st, st', n);
    JoinExtends(st, st', StartAt(st, n), n + 1);
  }

  lemma {:induction false} OpenExtends<T>(st: seq<Item<T>>, st': seq<Item<T>>, p: nat)
    requires st <= st' && p <= |st|
    ensures OpenAt(st', p) == OpenAt(st, p)
  {
    if p > 0 {
      OpenExtends(st, st', p - 1);
    }
  }

  lemma StartExtends<T>(st: seq<Item<T>>, st': seq<Item<T>>, n: nat)
    requires st <= st' && n < |st| && WellFormed(st) && WellFormed(st')
    ensures StartAt(st', n) == StartAt(st, n)
    ensures st[n].eof ==> WellFormedAt(st, n) && WellFormedAt(st', n) && Frame(st', n) == Frame(st, n)
  {
    OpenExtends(st, st', n);
    WellFormedTells(st, n);
    WellFormedTells(st', n);
    hide WellFormedAt, WellFormed, OpenAt, Frame;
    if st[n].eof {
      FrameExtends(st, st', n);
    }
  }

  lemma {:induction false} JoinExtends<T>(st: seq<Item<T>>, st': seq<Item<T>>, a: nat, b: nat)
    requires st <= st' && a <= b <= |st|
    ensures Join(st', a, b) == Join(st, a, b)
    decreases b
  {
    if a < b {
      JoinExtends(st, st', a, b - 1);
    }
  }

  // --- The contents of the ring ----------------------------------------------------------------

  /** The descriptors from `f` on are in the ring and marked used; all others belong to the controller. */
  ghost predicate RingOk<T>(used: seq<bool>, items: seq<Item<T>>, st: seq<Item<T>>, f: nat) {
    && |used| == |items| == SIZE && f <= |st| <= f + SIZE
    && (forall k {:trigger Slot(k, SIZE)} :: f <= k < |st| ==> used[Slot(k, SIZE)] && items[Slot(k, SIZE)] == st[k])
    && (forall k {:trigger Slot(k, SIZE)} :: |st| <= k < f + SIZE ==> !used[Slot(k, SIZE)])
  }

  lemma DepositOk<T>(used: seq<bool>, items: seq<Item<T>>, st: seq<Item<T>>, f: nat, x: Item<T>)
    requires RingOk(used, items, st, f)
    ensures !used[Slot(|st|, SIZE)] <==> |st| < f + SIZE
    ensures |st| < f + SIZE ==> var e := Slot(|st|, SIZE);
      RingOk(used[e := true], items[e := x], st + [x], f)
  {
    if |st| < f + SIZE { SlotsDistinct(f, |st|, SIZE); } else { SlotsMeet(f, |st|, SIZE); }
    hide Slot;
  }

  lemma ReleaseOk<T>(used: seq<bool>, items: seq<Item<T>>, st: seq<Item<T>>, f: nat)
    requires RingOk(used, items, st, f) && f < |st|
    ensures RingOk(used[Slot(f, SIZE) := false], items, st, f + 1)
  {
    SlotsDistinct(f, f, SIZE);
    SlotsMeet(f, f + SIZE, SIZE);
    hide Slot;
  }

  // --- The place of the scan -------------------------------------------------------------------

  /** In the loop of macb_rx: position `p` is next, descriptors in front of `f` were returned; a frame is open from `f`
      on, or none is and `f` is `p`; exactly the frames complete in front of `p` were delivered. */
  ghost predicate Place<T>(st: seq<Item<T>>, delivered: seq<seq<T>>, p: nat, f: nat, tail: nat, firstFrag: int) {
    && WellFormed(st) && f <= p <= |st| && p - f < SIZE
    && tail == Slot(p, SIZE)
    && (firstFrag == -1 <==> f == p)
    && (f < p ==> firstFrag == Slot(f, SIZE) && OpenAt(st, p) == f)
    && (f == p ==> OpenAt(st, p) == -1 || (p < |st| && st[p].sof))
    && delivered == FramesAt(st, p)
  }

  lemma PlaceExtends<T>(st: seq<Item<T>>, st': seq<Item<T>>, delivered: seq<seq<T>>, p: nat, f: nat, tail: nat,
                        firstFrag: int)
    requires Place(st, delivered, p, f, tail, firstFrag) && st <= st' && WellFormed(st')
    ensures Place(st', delivered, p, f, tail, firstFrag)
  {
    hide Slot, WellFormed, FramesAt, OpenAt;
    Extends(st, st', p);
  }

  /** What a descriptor is to the scan: the frame it belongs to starts at itself or is the one that is open. */
  lemma PlaceTells<T>(st: seq<Item<T>>, delivered: seq<seq<T>>, p: nat, f: nat, tail: nat, firstFrag: int)
    requires Place(st, delivered, p, f, tail, firstFrag) && p < |st|
    ensures WellFormedAt(st, p)
    ensures StartAt(st, p) == if st[p].sof then p else f
    ensures !st[p].sof ==> f < p && firstFrag == Slot(f, SIZE)
  {
    hide Slot, FramesAt;
    WellFormedTells(st, p);
  }

  lemma PlaceNext<T>(st: seq<Item<T>>, delivered: seq<seq<T>>, p: nat, f: nat, tail: nat, firstFrag: int)
    requires Place(st, delivered, p, f, tail, firstFrag) && p < |st|
    ensures WellFormedAt(st, p)
    ensures st[p].eof ==> Place(st, delivered + [Frame(st, p)], p + 1, p + 1, Slot(p + 1, SIZE), -1)
    ensures !st[p].eof ==>
      Place(st, delivered, p + 1, if st[p].sof then p else f, Slot(p + 1, SIZE), if st[p].sof then tail else firstFrag)
  {
    hide Slot, WellFormed, Frame;
    PlaceTells(st, delivered, p, f, tail, firstFrag);
  }

  // --- Driver and controller -------------------------------------------------------------------

  class RxRing<T(==)> {
    const used: array<bool>             // RX_USED
    const items: array<Item<T>>         // control word and buffer
    var rxTail: nat
    var hw: nat                         // the descriptor the controller fills next
    var delivered: seq<seq<T>>          // what rtnetif_rx was called with
    var stream: seq<Item<T>>            // what the controller deposited so far
    var incoming: seq<Item<T>>          // what it has still to deposit
    ghost var pos: nat                  // rx_tail counts up to here

    ghost predicate Ring(f: nat)
      reads this`hw, this`stream, used, items
    {
      && used.Length == items.Length == SIZE
      && RingOk(used[..], items[..], stream, f)
      && hw == Slot(|stream|, SIZE)
      && WellFormed(stream)
    }

    /** Between two calls: everything up to rx_tail was dealt with, exactly the frames complete there were delivered,
        and rx_tail is not inside a frame that is still of use. */
    ghost predicate Valid()
      reads this`hw, this`stream, this`pos, this`rxTail, this`delivered, used, items
    {
      && Ring(pos) && pos <= |stream|
      && rxTail == Slot(pos, SIZE)
      && delivered == FramesAt(stream, pos)
      && (OpenAt(stream, pos) == -1 || (pos < |stream| && stream[pos].sof))
    }

    constructor (blank: Item<T>)
      ensures Valid() && stream == [] && delivered == []
      ensures fresh(used) && fresh(items)
    {
      used := new bool[SIZE](_ => false);
      items := new Item<T>[SIZE](_ => blank);
      rxTail, hw, delivered, stream, incoming, pos := 0, 0, [], [], [], 0;
    }

    /** The controller deposits a descriptor if the next one is free; the driver has returned those in front of `f`. */
    method Deposit(x: Item<T>, ghost f: nat)
      requires Ring(f) && WellFormed(stream + [x])
      modifies this`hw, this`stream, used, items
      ensures Ring(f)
      ensures stream == if |old(stream)| < f + SIZE then old(stream) + [x] else old(stream)
    {
      hide Slot, RingOk, WellFormed;
      ghost var us, its := used[..], items[..];
      DepositOk(us, its, stream, f, x);
      SlotNext(|stream|, SIZE);
      if !used[hw] {
        used[hw] := true;
        items[hw] := x;
        assert used[..] == us[hw := true] && items[..] == its[hw := x];
        stream := stream + [x];
        hw := (hw + 1) % SIZE;
      }
    }

    /** The controller at work while the driver is: it deposits as much of what comes in as it likes. */
    method Controller(ghost f: nat)
      requires Ring(f)
      modifies this`incoming, this`hw, this`stream, used, items
      ensures Ring(f) && old(stream) <= stream && |stream| + |incoming| <= |old(stream)| + |old(incoming)|
    {
      hide Ring, WellFormedAt;
      RingTells(f);
      var going := *;
      while going && incoming != []
        invariant Ring(f) && old(stream) <= stream && |stream| + |incoming| <= |old(stream)| + |old(incoming)|
        decreases |incoming|
      {
        var x := incoming[0];
        incoming := incoming[1..];
        if WellFormed(stream + [x]) {
          Deposit(x, f);
        }
        going := *;
      }
    }

    lemma RingTells(f: nat)
      requires Ring(f)
      ensures used.Length == items.Length == SIZE && f <= |stream| && WellFormed(stream)
    {
    }

    /** One descriptor goes back to the controller. */
    method Release(frag: nat, ghost f: nat)
      requires Ring(f) && f < |stream| && frag == Slot(f, SIZE)
      modifies used
      ensures Ring(f + 1)
    {
      ghost var us := used[..];
      ReleaseOk(us, items[..], stream, f);
      hide Slot, RingOk, WellFormed;
      used[frag] := false;
      assert used[..] == us[frag := false];
    }

    /** discard_partial_frame */
    method DiscardPartialFrame(begin: nat, end: nat, ghost a: nat, ghost b: nat)
      requires Ring(a) && a <= b <= |stream| && b < a + SIZE
      requires begin == Slot(a, SIZE) && end == Slot(b, SIZE)
      modifies this`incoming, this`hw, this`stream, used, items
      ensures Ring(b) && old(stream) <= stream && |stream| + |incoming| <= |old(stream)| + |old(incoming)|
    {
      hide Slot, Ring;
      SlotsMeet(a, b, SIZE);
      var frag: nat := begin;
      ghost var k: nat := a;
      while frag != end
        invariant a <= k <= b && Ring(k) && frag == Slot(k, SIZE) && (frag == end <==> k == b)
        invariant old(stream) <= stream && |stream| + |incoming| <= |old(stream)| + |old(incoming)|
        decreases b - k
      {
        Controller(k);
        Release(frag, k);
        SlotNext(k, SIZE);
        frag := (frag + 1) % SIZE;      // NEXT_RX
        k := k + 1;
        SlotsMeet(k, b, SIZE);
      }
    }

    /** The rest of a frame of the descriptors `st`, from the buffer of descriptor `k` on. */
    ghost predicate Copying(st: seq<Item<T>>, a: nat, k: nat, n: nat, offset: nat, skb: seq<T>)
      reads this`hw, this`stream, used, items
    {
      && Ring(k) && st <= stream && a <= k <= n < |st|
      && offset == (k - a) * BUFFER && skb == Join(st, a, k)
    }

    lemma CopyTells(st: seq<Item<T>>, a: nat, k: nat, n: nat, offset: nat, skb: seq<T>)
      requires Copying(st, a, k, n, offset, skb)
      ensures items.Length == SIZE && items[Slot(k, SIZE)] == st[k]
    {
      hide Slot;
      ItemAt(k, k);
    }

    /** macb_rx_frame, with a buffer for the frame: copies the descriptors of one frame and returns them. */
    method RxFrame(first: nat, last: nat, ghost a: nat, ghost n: nat) returns (skb: seq<T>)
      requires Ring(a) && a <= n < |stream| && stream[n].eof && StartAt(stream, n) == a
      requires first == Slot(a, SIZE) && last == Slot(n, SIZE)
      modifies this`incoming, this`hw, this`stream, used, items
      ensures Ring(n + 1) && old(stream) <= stream && |stream| + |incoming| <= |old(stream)| + |old(incoming)|
      ensures WellFormedAt(old(stream), n) && skb == Frame(old(stream), n)
    {
      hide Slot, Ring, WellFormedAt, WellFormed, Frame, StartAt;
      ghost var st := stream;
      RingTells(a);
      WellFormedTells(st, n);
      SlotsMeet(a, n, SIZE);
      FrameCopy(st, a, n);
      ItemAt(a, n);
      var len := items[last].frmLen;
      skb := [];
      var offset: nat := 0;
      var frag: nat := first;
      ghost var k: nat := a;
      while true
        invariant Copying(st, a, k, n, offset, skb) && frag == Slot(k, SIZE) && (frag == last <==> k == n)
        invariant |stream| + |incoming| <= |old(stream)| + |old(incoming)|
        decreases n - k
      {
        Controller(k);
        CopyTells(st, a, k, n, offset, skb);
        var fragLen := BUFFER;
        if offset + fragLen > len {
          if frag != last {
            assert false;               // BUG_ON(frag != last_frag)
          }
          fragLen := len - offset;
        }
        skb := skb + items[frag].data[..fragLen];
        offset := offset + BUFFER;
        Release(frag, k);
        if frag == last {
          break;
        }
        SlotNext(k, SIZE);
        frag := (frag + 1) % SIZE;      // NEXT_RX
        k := k + 1;
        SlotsMeet(k, n, SIZE);
      }
    }

    ghost predicate Scanning(p: nat, f: nat, tail: nat, firstFrag: int)
      reads this`hw, this`stream, this`pos, this`delivered, used, items
    {
      Ring(f) && pos <= f && Place(stream, delivered, p, f, tail, firstFrag)
    }

    lemma ScanStarts()
      requires Valid()
      ensures Scanning(pos, pos, rxTail, -1)
    {
    }

    /** The used bit at the scan position tells whether there is a descriptor. */
    lemma ScanTells(p: nat, f: nat, tail: nat, firstFrag: int)
      requires Scanning(p, f, tail, firstFrag)
      ensures used.Length == items.Length == SIZE && tail == Slot(p, SIZE) && pos <= f <= p <= |stream|
      ensures used[tail] <==> p < |stream|
      ensures p < |stream| ==> items[tail] == stream[p]
    {
      SlotsMeet(f, p, SIZE);
      hide Slot;
    }

    /** One descriptor of the scan. */
    method ScanOne(ghost p: nat, ghost f: nat, tail: nat, firstFrag: int) returns (ghost f': nat, first': int)
      requires Scanning(p, f, tail, firstFrag) && p < |stream|
      modifies this`delivered, this`incoming, this`hw, this`stream, used, items
      ensures old(stream) <= stream && |stream| + |incoming| <= |old(stream)| + |old(incoming)|
      ensures Scanning(p + 1, f', Slot(p + 1, SIZE), first')
      ensures |delivered| == |old(delivered)| + (if stream[p].eof then 1 else 0) && old(delivered) <= delivered
    {
      hide Slot, Ring, WellFormed, WellFormedAt, Frame, StartAt, OpenAt, FramesAt;
      ghost var st := stream;
      ScanTells(p, f, tail, firstFrag);
      PlaceTells(st, delivered, p, f, tail, firstFrag);
      PlaceNext(st, delivered, p, f, tail, firstFrag);
      var ctrl := items[tail];
      first', f' := firstFrag, f;
      if ctrl.sof {
        if first' != -1 {
          DiscardPartialFrame(first', tail, f, p);
        }
        first', f' := tail, p;
      }
      if ctrl.eof {
        if first' == -1 {
          assert false;                 // BUG_ON(first_frag == -1)
        }
        RingTells(f');
        StartExtends(st, stream, p);
        var skb := RxFrame(first', tail, f', p);
        delivered := delivered + [skb];
        first', f' := -1, p + 1;
      }
      RingTells(f');
      PlaceExtends(st, stream, delivered, p + 1, f', Slot(p + 1, SIZE), first');
    }

    /** The loop of macb_rx, with the controller at work between its rounds and inside them. It stops when the budget is
        used up or at a moment when there is no further descriptor. */
    method Scan(budget: nat) returns (received: nat, tail: nat, firstFrag: int, ghost p: nat, ghost f: nat)
      requires Valid()
      modifies this`delivered, this`incoming, this`hw, this`stream, used, items
      ensures Scanning(p, f, tail, firstFrag) && old(stream) <= stream
      ensures old(delivered) <= delivered && received == |delivered| - |old(delivered)| <= budget
      ensures received < budget ==> p == |stream|
    {
      hide Slot, Scanning, Valid;
      received := 0;
      var left := budget;
      tail, firstFrag, p, f := rxTail, -1, pos, pos;
      ScanStarts();
      while left > 0
        invariant Scanning(p, f, tail, firstFrag) && left == budget - received && old(stream) <= stream
        invariant old(delivered) <= delivered && received == |delivered| - |old(delivered)|
        decreases |stream| + |incoming| - p
      {
        ControllerScans(p, f, tail, firstFrag);
        ScanTells(p, f, tail, firstFrag);
        if !used[tail] {
          break;
        }
        var eof := items[tail].eof;
        f, firstFrag := ScanOne(p, f, tail, firstFrag);
        if eof {
          left, received := left - 1, received + 1;
        }
        SlotNext(p, SIZE);
        tail, p := (tail + 1) % SIZE, p + 1;        // NEXT_RX
      }
    }

    method ControllerScans(ghost p: nat, ghost f: nat, ghost tail: nat, ghost firstFrag: int)
      requires Scanning(p, f, tail, firstFrag)
      modifies this`incoming, this`hw, this`stream, used, items
      ensures Scanning(p, f, tail, firstFrag)
      ensures old(stream) <= stream && |stream| + |incoming| <= |old(stream)| + |old(incoming)|
    {
      hide Ring, Place, WellFormed;
      ghost var st := stream;
      Controller(f);
      RingTells(f);
      PlaceExtends(st, stream, delivered, p, f, tail, firstFrag);
    }

    /** macb_rx, with the controller at work all the while. If the budget was enough, the scan came to a moment when it
        had `seen` all that was deposited: every frame complete then was delivered, and rx_tail is behind the last
        descriptor of that moment or at the start of the frame that was open. */
    method Rx(budget: nat) returns (received: nat, ghost seen: nat)
      requires Valid()
      modifies this`delivered, this`rxTail, this`pos, this`incoming, this`hw, this`stream, used, items
      ensures Valid() && old(pos) <= pos && old(stream) <= stream
      ensures old(delivered) <= delivered && received == |delivered| - |old(delivered)| <= budget
      ensures received < budget ==>
        && |old(stream)| <= seen <= |stream|
        && delivered == FramesAt(stream, seen)
        && pos == if OpenAt(stream, seen) >= 0 then OpenAt(stream, seen) else seen
    {
      hide Slot, Ring, FramesAt, OpenAt;
      var tail, firstFrag;
      ghost var f;
      received, tail, firstFrag, seen, f := Scan(budget);
      ghost var st := stream;
      Settle(seen, f, tail, firstFrag);
      Controller(f);
      RingTells(f);
      Extends(st, stream, f);
      Extends(st, stream, seen);
      rxTail := if firstFrag != -1 then firstFrag else tail;
      pos := f;
    }

    /** Where the scan stops is a place to go on from. */
    lemma Settle(p: nat, f: nat, tail: nat, firstFrag: int)
      requires Scanning(p, f, tail, firstFrag)
      ensures Ring(f) && pos <= f <= p <= |stream| && WellFormed(stream) &&
        delivered == FramesAt(stream, f) == FramesAt(stream, p)
      ensures (if firstFrag != -1 then firstFrag else tail) == Slot(f, SIZE)
      ensures OpenAt(stream, f) == -1 || (f < |stream| && stream[f].sof)
      ensures p == |stream| ==> f == if OpenAt(stream, p) >= 0 then OpenAt(stream, p) else p
    {
      hide Slot;
      if f < p {
        FramesOpen(stream, p);
      }
    }

    lemma ItemAt(f: nat, k: nat)
      requires Ring(f) && f <= k < |stream|
      ensures used.Length == items.Length == SIZE && items[Slot(k, SIZE)] == stream[k] && used[Slot(k, SIZE)]
    {
      hide Slot;
    }

    /** The controller between two calls. */
    method Idle()
      requires Valid()
      modifies this`incoming, this`hw, this`stream, used, items
      ensures Valid() && old(stream) <= stream
    {
      hide Slot, Ring, FramesAt, OpenAt;
      ghost var st := stream;
      RingTells(pos);
      Controller(pos);
      RingTells(pos);
      Extends(st, stream, pos);
    }
  }

  // --- Every run -------------------------------------------------------------------------------

  datatype Event<T> = Arrive(xs: seq<Item<T>>) | Pause | Poll(budget: nat)

  /** Any interleaving of a well-behaved controller, which goes on during the calls, and of calls with any budgets: what
      was delivered is always the frames complete in a prefix of what the controller deposited, in order, each once. */
  method AnyRun<T(==)>(ring: RxRing<T>, events: seq<Event<T>>)
    requires ring.Valid()
    modifies ring, ring.used, ring.items
    ensures ring.Valid()
    ensures ring.pos <= |ring.stream| && ring.delivered == FramesAt(ring.stream, ring.pos)
    ensures old(ring.stream) <= ring.stream && old(ring.delivered) <= ring.delivered
  {
    for i := 0 to |events|
      invariant ring.Valid() && old(ring.stream) <= ring.stream && old(ring.delivered) <= ring.delivered
    {
      hide RxRing.Ring, FramesAt, OpenAt;
      match events[i]
      case Arrive(xs) =>
        ring.incoming := ring.incoming + xs;
      case Pause =>
        ring.Idle();
      case Poll(budget) =>
        var received;
        ghost var seen;
        received, seen := ring.Rx(budget);
    }
  }
}
