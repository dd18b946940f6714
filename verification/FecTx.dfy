/**
 The transmit ring of rt_fec: driver and controller share sixteen descriptors.

 cur_tx and dirty_tx are equal both when the ring is empty and when it is full; tx_full tells which. The ghost
 counters say how many frames were ever submitted, transmitted and reclaimed.
 */
module FecTx {
  import opened Wrappers
  import opened Ring

  /** TX_RING_SIZE */
  const SIZE := 16

  class TxRing<Skb> {
    const ready: array<bool>            // BD_ENET_TX_READY of each descriptor
    const skbuff: array<Option<Skb>>
    var cur: nat                        // cur_tx
    var dirty: nat                      // dirty_tx
    var skbCur: nat
    var skbDirty: nat
    var full: bool                      // tx_full
    var stopped: bool                   // the transmit queue of the device
    var freed: seq<Skb>                 // what dev_kfree_rtskb was called on
    var log: seq<Skb>                   // the frames submitted
    var sent: nat                       // how many the controller is done with

    ghost predicate Shape() {
      ready.Length == SIZE && skbuff.Length == SIZE
    }

    /** In flight are the frames behind the reclaimed ones, in submission order; each descriptor among them is
        ready exactly until the controller is done with it, and all others are free. */
    ghost predicate Slots(tail: nat)
      reads this`log, this`sent, ready, skbuff
    {
      && Shape()
      && tail <= sent <= |log| <= tail + SIZE
      && (forall k :: tail <= k < |log| ==>
        skbuff[Slot(k, SIZE)] == Some(log[k]) && (ready[Slot(k, SIZE)] <==> sent <= k))
      && (forall k {:trigger Slot(k, SIZE)} :: |log| <= k < tail + SIZE ==>
        skbuff[Slot(k, SIZE)] == None && !ready[Slot(k, SIZE)])
    }

    /** Descriptor and buffer indices move in lockstep; tx_full says whether all sixteen are in flight; then the
        queue is stopped. */
    ghost predicate Valid()
      reads this, ready, skbuff
    {
      Reclaimed(dirty)
    }

    ghost predicate Reclaimed(bdp: nat)
      reads this, ready, skbuff
    {
      && Slots(|freed|)
      && freed == log[..|freed|]
      && cur == skbCur == Slot(|log|, SIZE)
      && bdp == skbDirty == Slot(|freed|, SIZE)
      && (full <==> |log| - |freed| == SIZE)
      && (full ==> stopped)
    }

    constructor ()
      ensures Valid() && log == [] && freed == [] && sent == 0 && !stopped
      ensures fresh(ready) && fresh(skbuff)
    {
      ready := new bool[SIZE](_ => false);
      skbuff := new Option<Skb>[SIZE](_ => None);
      cur, dirty, skbCur, skbDirty, full, stopped := 0, 0, 0, 0, false, false;
      freed, log, sent := [], [], 0;
    }

    /** fec_enet_start_xmit. A result of 1 leaves the buffer to the caller. The driver takes a full ring to be told by
        the ready bit at cur_tx, which is set only until the controller is done with the oldest frame. Behind that
        point, and until the frame is reclaimed, a submission goes through and is written over it: the ring is kept
        exactly if that does not happen. While the queue is not stopped the ring is never full. */
    method StartXmit(skb: Skb, link: bool) returns (rc: nat)
      requires Valid()
      modifies this`cur, this`skbCur, this`full, this`stopped, this`log, ready, skbuff
      ensures Valid() <==> !(link && old(full) && !old(ready[cur]))
      ensures rc == if link && (|old(log)| - |freed| < 16 || sent > |freed|) then 0 else 1
      ensures link && !old(stopped) ==> rc == 0 && Valid()
      ensures log == if rc == 0 then old(log) + [skb] else old(log)
      ensures skbuff[..] == if rc == 0 then old(skbuff[..])[Slot(|old(log)|, 16) := Some(skb)] else old(skbuff[..])
      ensures stopped <==> old(stopped) || !link || |log| - |freed| >= 16
    {
      hide Slot;
      FreeTells();
      if !link {
        stopped := true;
        return 1;
      }
      var bdp := cur;
      if ready[bdp] {
        return 1;                       // "tx queue full!"
      }
      SlotNext(|log|, SIZE);
      if !full {
        SlotsMeet(|freed|, |log| + 1, SIZE);
      }
      Fill(skb);
      bdp := if bdp == SIZE - 1 then 0 else bdp + 1;
      if bdp == dirty {
        full := true;
        stopped := true;
      }
      cur := bdp;
      return 0;
    }

    /** What the slot at cur_tx holds: nothing if the ring has room, else the oldest frame. */
    lemma FreeTells()
      requires Valid()
      ensures cur == skbCur < SIZE && ready.Length == skbuff.Length == SIZE
      ensures !full ==> skbuff[skbCur] == None && !ready[cur]
      ensures full ==> skbuff[skbCur] == Some(log[|freed|]) && (ready[cur] <==> sent == |freed|)
    {
      SlotsMeet(|freed|, |freed| + SIZE, SIZE);
      hide Slot;
    }

    /** The buffer and its descriptor, handed to the controller. */
    method Fill(skb: Skb)
      requires Slots(|freed|) && cur == skbCur == Slot(|log|, SIZE)
      modifies this`skbCur, this`log, ready, skbuff
      ensures log == old(log) + [skb] && skbCur == Slot(|log|, SIZE)
      ensures skbuff[..] == old(skbuff[..])[Slot(|old(log)|, SIZE) := Some(skb)]
      ensures |log| <= |freed| + SIZE ==> Slots(|freed|)
    {
      SlotNext(|log|, SIZE);
      if |log| < |freed| + SIZE {
        SlotsDistinct(|freed|, |log|, SIZE);
      }
      hide Slot;
      ghost var before := skbuff[..];
      skbuff[skbCur] := Some(skb);
      assert skbuff[..] == before[skbCur := Some(skb)];
      skbCur := (skbCur + 1) % SIZE;
      ready[cur] := true;
      log := log + [skb];
    }

    /** The controller finishes one frame. */
    method FinishOne(ghost tail: nat)
      requires Slots(tail) && sent < |log|
      modifies this`sent, ready
      ensures Slots(tail) && sent == old(sent) + 1
    {
      SlotsDistinct(tail, sent, SIZE);
      hide Slot;
      ready[Slot(sent, SIZE)] := false;
      sent := sent + 1;
    }

    /** The controller finishes any number of frames, in order. */
    method Controller(ghost tail: nat)
      requires Slots(tail)
      modifies this`sent, ready
      ensures Slots(tail) && old(sent) <= sent
    {
      hide Slot;
      var going := *;
      while going && sent < |log|
        invariant Slots(tail) && old(sent) <= sent
        decreases |log| - sent
      {
        FinishOne(tail);
        going := *;
      }
    }

    /** One frame that is done. */
    method Free()
      requires Slots(|freed|) && |freed| < sent && skbDirty == Slot(|freed|, SIZE)
      modifies this`freed, this`skbDirty, skbuff
      ensures Slots(|freed|) && freed == old(freed) + [log[|old(freed)|]] && skbDirty == Slot(|freed|, SIZE)
    {
      ghost var n := |freed|;
      SlotNext(n, SIZE);
      SlotsDistinct(n, n, SIZE);
      SlotsMeet(n, n + SIZE, SIZE);
      hide Slot;
      freed := freed + [skbuff[skbDirty].value];
      skbuff[skbDirty] := None;
      skbDirty := (skbDirty + 1) % SIZE;
    }

    /** One turn of the reclaim loop. */
    method ReclaimOne(bdp: nat) returns (next: nat)
      requires Reclaimed(bdp) && |freed| < sent
      modifies this`skbDirty, this`full, this`stopped, this`freed, skbuff
      ensures Reclaimed(next)
      ensures |freed| == |old(freed)| + 1 && old(freed) < freed
      ensures !full && (stopped <==> old(stopped) && !old(full))
    {
      SlotNext(|freed|, SIZE);
      hide Slot;
      Free();
      next := if bdp == SIZE - 1 then 0 else bdp + 1;
      if full {
        full := false;
        if stopped {
          stopped := false;
        }
      }
    }

    /** fec_enet_tx, with the controller at work in between: it ends having freed, each once and in order, every
        frame that was done when it started and none that was not done when it ended; it wakes the queue only if
        the ring was full. */
    method Reclaim()
      requires Valid()
      modifies this`dirty, this`skbDirty, this`full, this`stopped, this`freed, this`sent, ready, skbuff
      ensures Valid()
      ensures old(freed) <= freed && old(sent) <= |freed| <= sent
      ensures stopped <==> old(stopped) && !(old(full) && |freed| > |old(freed)|)
    {
      hide Slot, Slots;
      var bdp: nat := dirty;
      Controller(|freed|);
      ReadyTells(bdp);
      while !ready[bdp]
        invariant Reclaimed(bdp) && bdp < ready.Length
        invariant stopped <==> old(stopped) && !(old(full) && |freed| > |old(freed)|)
        invariant full ==> old(full) && |freed| == |old(freed)|
        invariant old(freed) <= freed && old(sent) <= sent
        invariant |freed| <= sent <= |log|
        invariant ready[bdp] ==> sent == |freed|
        invariant !ready[bdp] ==> (bdp == cur && !full <==> |freed| == |log|) && (|freed| == |log| || |freed| < sent)
        decreases |log| - |freed|
      {
        if bdp == cur && !full {
          break;
        }
        bdp := ReclaimOne(bdp);
        Controller(|freed|);
        ReadyTells(bdp);
      }
      dirty := bdp;
    }

    /** What the descriptor at the reclaim position says about the ring. */
    lemma ReadyTells(bdp: nat)
      requires Reclaimed(bdp)
      ensures bdp < ready.Length
      ensures |freed| <= sent <= |log|
      ensures ready[bdp] ==> sent == |freed|
      ensures !ready[bdp] ==> (bdp == cur && !full <==> |freed| == |log|) && (|freed| == |log| || |freed| < sent)
    {
      SlotsMeet(|freed|, |log|, SIZE);
      hide Slot;
    }
  }

  // --- Every interleaving ----------------------------------------------------------------------

  datatype Event<Skb> = Submit(skb: Skb, link: bool) | Finish | Interrupt

  /** The submission is the one that the ring does not survive. */
  ghost predicate Breaks<Skb>(ring: TxRing<Skb>, e: Event<Skb>)
    reads ring, ring.ready
    requires ring.cur < ring.ready.Length
  {
    e.Submit? && e.link && ring.full && !ring.ready[ring.cur]
  }

  /** Any schedule of submissions, controller progress and transmit interrupts, up to the first submission that comes
      while the oldest frame of a full ring waits for its reclaim: at every point the frames freed are a prefix of the
      frames submitted, at most sixteen are in between, and tx_full holds exactly when there are sixteen. */
  method AnySchedule<Skb>(ring: TxRing<Skb>, events: seq<Event<Skb>>) returns (n: nat)
    requires ring.Valid()
    modifies ring, ring.ready, ring.skbuff
    ensures ring.Valid() && ring.cur < ring.ready.Length && n <= |events|
    ensures n == |events| || Breaks(ring, events[n])
    ensures ring.freed <= ring.log && |ring.log| - |ring.freed| <= 16
    ensures ring.full <==> |ring.log| - |ring.freed| == 16
    ensures ring.cur == ring.skbCur && ring.dirty == ring.skbDirty
    ensures old(ring.log) <= ring.log && old(ring.freed) <= ring.freed
  {
    n := 0;
    while n < |events|
      invariant n <= |events| && ring.Valid() && old(ring.log) <= ring.log && old(ring.freed) <= ring.freed
      decreases |events| - n
    {
      ring.FreeTells();
      match events[n] {
        case Submit(skb, link) =>
          if link && ring.full && !ring.ready[ring.cur] {
            break;
          }
          var rc := ring.StartXmit(skb, link);
        case Finish =>
          ring.Controller(|ring.freed|);
        case Interrupt =>
          ring.Reclaim();
      }
      n := n + 1;
    }
    ring.FreeTells();
  }

  method FillUp() returns (ring: TxRing<nat>)
    ensures fresh(ring) && fresh(ring.ready) && fresh(ring.skbuff)
    ensures ring.Valid() && ring.full && ring.freed == [] && ring.sent == 0 && ring.log == seq(SIZE, k => k)
  {
    ring := new TxRing();
    hide Slot, TxRing.Slots;
    for i := 0 to SIZE
      invariant fresh(ring) && fresh(ring.ready) && fresh(ring.skbuff)
      invariant ring.Valid() && ring.freed == [] && ring.sent == 0
      invariant ring.log == seq(i, k => k) && (ring.stopped <==> i == SIZE)
    {
      var rc := ring.StartXmit(i, true);
    }
  }

  /** Sixteen frames, the first of them sent, and a seventeenth: the buffer of the first is in no slot any more and was
      never freed. */
  method LosesFrame() returns (ring: TxRing<nat>)
    ensures fresh(ring) && !ring.Valid()
    ensures 0 in ring.log && 0 !in ring.freed && Some(0) !in ring.skbuff[..]
  {
    ring := FillUp();
    ring.FinishOne(0);
    ring.FreeTells();
    forall k | 0 <= k < SIZE ensures ring.skbuff[k] == Some(k) {
      assert Slot(k, SIZE) == k;
    }
    assert Slot(SIZE, SIZE) == 0 && ring.log[0] == 0;
    hide Slot;
    ghost var before := ring.skbuff[..];
    var rc := ring.StartXmit(SIZE, true);
    assert ring.skbuff[..] == before[0 := Some(SIZE)];
    assert ring.log[0] == 0;
  }
}
