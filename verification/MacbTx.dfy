/**
 The transmit ring of rt_macb, including the reset after an underrun, and who owns the buffers given to rtdev_xmit.
 */
module MacbTx {
  import opened Wrappers
  import opened Ring

  /** TX_RING_SIZE, tx_pending (DEF_TX_RING_PENDING), MACB_TX_WAKEUP_THRESH */
  const SIZE := 128
  const PENDING := 127
  const WAKEUP_THRESH := 32

  /** TX_BUFFS_AVAIL: one slot always stays free, so head and tail are equal only on an empty ring. */
  function BuffsAvail(head: nat, tail: nat): int {
    if tail <= head then tail + PENDING - head else tail - head - (SIZE - PENDING)
  }

  lemma AvailCounts(first: nat, n: nat)
    requires n <= PENDING
    ensures BuffsAvail(Slot(first + n, SIZE), Slot(first, SIZE)) == PENDING - n
    ensures Slot(first + n, SIZE) == Slot(first, SIZE) <==> n == 0
  {
  }

  // --- The contents of the ring ----------------------------------------------------------------

  /** The ring holds exactly the frames in flight, the oldest at position `first`; the controller is done with `done`
      of them. */
  ghost predicate RingOk<S>(skb: seq<Option<S>>, used: seq<bool>, first: nat, inflight: seq<S>, done: nat) {
    && |skb| == |used| == SIZE && done <= |inflight| <= PENDING
    && (forall k {:trigger Slot(k, SIZE)} :: first <= k < first + |inflight| ==>
          skb[Slot(k, SIZE)] == Some(inflight[k - first]) && (used[Slot(k, SIZE)] <==> k < first + done))
    && (forall k {:trigger Slot(k, SIZE)} :: first + |inflight| <= k < first + SIZE ==>
      skb[Slot(k, SIZE)] == None && used[Slot(k, SIZE)])
  }

  lemma SubmitOk<S>(skb: seq<Option<S>>, used: seq<bool>, first: nat, inflight: seq<S>, done: nat, x: S)
    requires RingOk(skb, used, first, inflight, done) && |inflight| < PENDING
    ensures var e := Slot(first + |inflight|, SIZE);
      RingOk(skb[e := Some(x)], used[e := false], first, inflight + [x], done)
  {
    SlotsDistinct(first, first + |inflight|, SIZE);
    hide Slot;
  }

  lemma FinishOk<S>(skb: seq<Option<S>>, used: seq<bool>, first: nat, inflight: seq<S>, done: nat)
    requires RingOk(skb, used, first, inflight, done) && done < |inflight|
    ensures RingOk(skb, used[Slot(first + done, SIZE) := true], first, inflight, done + 1)
  {
    SlotsDistinct(first, first + done, SIZE);
    hide Slot;
  }

  /** The oldest frame, and the ring without it. */
  lemma OldestOk<S>(skb: seq<Option<S>>, used: seq<bool>, first: nat, inflight: seq<S>, done: nat)
    requires RingOk(skb, used, first, inflight, done) && inflight != []
    ensures skb[Slot(first, SIZE)] == Some(inflight[0]) && (used[Slot(first, SIZE)] <==> done > 0)
    ensures done > 0 ==> RingOk(skb[Slot(first, SIZE) := None], used, first + 1, inflight[1..], done - 1)
  {
    SlotsDistinct(first, first, SIZE);
    SlotsMeet(first, first + SIZE, SIZE);
    hide Slot;
  }

  /** All descriptors marked used: the controller is done with everything. */
  lemma AllUsedOk<S>(skb: seq<Option<S>>, used: seq<bool>, first: nat, inflight: seq<S>, done: nat, used': seq<bool>)
    requires RingOk(skb, used, first, inflight, done)
    requires |used'| == SIZE && forall i :: 0 <= i < SIZE ==> used'[i]
    ensures RingOk(skb, used', first, inflight, |inflight|)
  {
    hide Slot;
  }

  lemma EmptyMoves<S>(skb: seq<Option<S>>, used: seq<bool>, first: nat)
    requires RingOk(skb, used, first, [], 0)
    ensures RingOk(skb, used, 0, [], 0)
  {
    forall i | 0 <= i < SIZE ensures skb[i] == None && used[i] {
      var k := if i >= Slot(first, SIZE) then first + i - Slot(first, SIZE) else first + SIZE + i - Slot(first, SIZE);
      assert Slot(k, SIZE) == i;
    }
  }

  // --- Who has the buffers ---------------------------------------------------------------------

  /** Every buffer given to rtdev_xmit was freed or is in flight, as often as it was given. Every one that was freed, or
      that the controller is done with, was sent, refused or given up. */
  ghost predicate Books<S>(given: multiset<S>, kfreed: seq<S>, inflight: seq<S>, done: nat,
                           sent: seq<S>, refused: seq<S>, lost: seq<S>) {
    && done <= |inflight|
    && given == multiset(kfreed) + multiset(inflight)
    && multiset(kfreed) + multiset(inflight[..done]) == multiset(sent) + multiset(refused) + multiset(lost)
  }

  lemma Split<S>(s: seq<S>, m: nat, k: nat)
    requires m <= k <= |s|
    ensures multiset(s[..k]) == multiset(s[..m]) + multiset(s[m..k])
  {
    assert s[..k] == s[..m] + s[m..k];
  }

  lemma BooksGive<S>(given: multiset<S>, kfreed: seq<S>, inflight: seq<S>, done: nat,
                     sent: seq<S>, refused: seq<S>, lost: seq<S>, x: S)
    requires Books(given, kfreed, inflight, done, sent, refused, lost)
    ensures Books(given + multiset{x}, kfreed, inflight + [x], done, sent, refused, lost)
    ensures Books(given + multiset{x}, kfreed + [x], inflight, done, sent, refused + [x], lost)
  {
    assert (inflight + [x])[..done] == inflight[..done];
    assert multiset(refused + [x]) == multiset(refused) + multiset{x};
    assert multiset(kfreed + [x]) == multiset(kfreed) + multiset{x};
    var k, i := multiset(kfreed), multiset(inflight[..done]);
    var s, r, l := multiset(sent), multiset(refused), multiset(lost);
    assert i + k == k + i == s + r + l == r + (s + l);
    Moved(i, k, multiset{x}, r, s + l);
    assert (k + multiset{x}) + i == i + (k + multiset{x});
    assert (r + multiset{x}) + (s + l) == s + (r + multiset{x}) + l;
  }

  /** The controller sends up to frame `k`. */
  lemma BooksSend<S>(given: multiset<S>, kfreed: seq<S>, inflight: seq<S>, done: nat,
                     sent: seq<S>, refused: seq<S>, lost: seq<S>, k: nat)
    requires Books(given, kfreed, inflight, done, sent, refused, lost) && done <= k <= |inflight|
    ensures Books(given, kfreed, inflight, k, sent + inflight[done..k], refused, lost)
  {
    Split(inflight, done, k);
    Moved(multiset(kfreed), multiset(inflight[..done]), multiset(inflight[done..k]), multiset(sent),
          multiset(refused) + multiset(lost));
    assert multiset(sent + inflight[done..k]) == multiset(sent) + multiset(inflight[done..k]);
  }

  lemma Moved<S>(a: multiset<S>, b: multiset<S>, more: multiset<S>, c: multiset<S>, d: multiset<S>)
    requires a + b == c + d
    ensures a + (b + more) == (c + more) + d
  {
    assert a + (b + more) == (a + b) + more;
    assert (c + d) + more == (c + more) + d;
  }

  /** The rest is given up. */
  lemma BooksLose<S>(given: multiset<S>, kfreed: seq<S>, inflight: seq<S>, done: nat,
                     sent: seq<S>, refused: seq<S>, lost: seq<S>)
    requires Books(given, kfreed, inflight, done, sent, refused, lost)
    ensures Books(given, kfreed, inflight, |inflight|, sent, refused, lost + inflight[done..])
  {
    Split(inflight, done, |inflight|);
    assert inflight[..|inflight|] == inflight && inflight[done..|inflight|] == inflight[done..];
    Moved(multiset(kfreed), multiset(inflight[..done]), multiset(inflight[done..]), multiset(lost),
          multiset(sent) + multiset(refused));
    assert multiset(lost + inflight[done..]) == multiset(lost) + multiset(inflight[done..]);
  }

  /** ... and freed. */
  lemma BooksGiveUp<S>(given: multiset<S>, kfreed: seq<S>, inflight: seq<S>, done: nat,
                       sent: seq<S>, refused: seq<S>, lost: seq<S>)
    requires Books(given, kfreed, inflight, done, sent, refused, lost) && done <= |inflight|
    ensures Books(given, kfreed + inflight, [], 0, sent, refused, lost + inflight[done..])
  {
    hide Books;
    BooksLose(given, kfreed, inflight, done, sent, refused, lost);
    BooksFree(given, kfreed, inflight, |inflight|, sent, refused, lost + inflight[done..], |inflight|);
    assert inflight[..|inflight|] == inflight && inflight[|inflight|..] == [];
  }

  /** The oldest `n` are freed, which the controller is done with. */
  lemma BooksFree<S>(given: multiset<S>, kfreed: seq<S>, inflight: seq<S>, done: nat,
                     sent: seq<S>, refused: seq<S>, lost: seq<S>, n: nat)
    requires Books(given, kfreed, inflight, done, sent, refused, lost) && n <= done
    ensures Books(given, kfreed + inflight[..n], inflight[n..], done - n, sent, refused, lost)
  {
    Split(inflight, n, done);
    Split(inflight, n, |inflight|);
    assert inflight[..|inflight|] == inflight && inflight[n..|inflight|] == inflight[n..];
    assert inflight[n..][..done - n] == inflight[n..done];
  }

  /** Of the frames `all` that were in flight, `m` of them done, `n` were freed since, and the controller sent more. */
  ghost predicate Emptied<S>(kfreed0: seq<S>, sent0: seq<S>, all: seq<S>, m: nat, n: nat,
                             kfreed: seq<S>, inflight: seq<S>, done: nat, sent: seq<S>) {
    && m <= n + done <= |all|
    && kfreed == kfreed0 + all[..n] && inflight == all[n..]
    && sent == sent0 + all[m..n + done]
  }

  lemma EmptiedFree<S>(kfreed0: seq<S>, sent0: seq<S>, all: seq<S>, m: nat, n: nat,
                       kfreed: seq<S>, inflight: seq<S>, done: nat, sent: seq<S>)
    requires Emptied(kfreed0, sent0, all, m, n, kfreed, inflight, done, sent) && done > 0
    ensures inflight != []
    ensures Emptied(kfreed0, sent0, all, m, n + 1, kfreed + [inflight[0]], inflight[1..], done - 1, sent)
  {
    assert all[..n + 1] == all[..n] + [all[n]];
  }

  lemma EmptiedSend<S>(kfreed0: seq<S>, sent0: seq<S>, all: seq<S>, m: nat, n: nat,
                       kfreed: seq<S>, inflight: seq<S>, done: nat, sent: seq<S>, k: nat)
    requires Emptied(kfreed0, sent0, all, m, n, kfreed, inflight, done, sent) && done <= k <= |inflight|
    ensures Emptied(kfreed0, sent0, all, m, n, kfreed, inflight, k, sent + inflight[done..k])
  {
    assert inflight[done..k] == all[n + done..n + k];
    assert all[m..n + k] == all[m..n + done] + all[n + done..n + k];
  }

  lemma EmptiedStart<S>(kfreed: seq<S>, sent: seq<S>, inflight: seq<S>, done: nat)
    requires done <= |inflight|
    ensures Emptied(kfreed, sent, inflight, done, 0, kfreed, inflight, done, sent)
  {
  }

  lemma EmptiedTells<S>(kfreed0: seq<S>, sent0: seq<S>, all: seq<S>, m: nat, n: nat,
                        kfreed: seq<S>, inflight: seq<S>, done: nat, sent: seq<S>)
    requires Emptied(kfreed0, sent0, all, m, n, kfreed, inflight, done, sent)
    ensures m <= n + done && |inflight| == |all| - n && done <= |inflight|
  {
  }

  lemma EmptiedBooks<S>(given: multiset<S>, kfreed0: seq<S>, sent0: seq<S>, all: seq<S>, m: nat, n: nat,
                        kfreed: seq<S>, inflight: seq<S>, done: nat, sent: seq<S>, refused: seq<S>, lost: seq<S>)
    requires Books(given, kfreed0, all, m, sent0, refused, lost)
    requires Emptied(kfreed0, sent0, all, m, n, kfreed, inflight, done, sent)
    ensures Books(given, kfreed, inflight, done, sent, refused, lost)
  {
    BooksSend(given, kfreed0, all, m, sent0, refused, lost, n + done);
    BooksFree(given, kfreed0, all, n + done, sent, refused, lost, n);
  }

  // --- The driver ------------------------------------------------------------------------------

  class TxRing<S(==)> {
    const skb: array<Option<S>>         // tx_skb[].skb
    const used: array<bool>             // TX_USED of each descriptor
    var head: nat
    var tail: nat
    var hw: nat                         // the descriptor the controller is at
    var stopped: bool                   // the transmit queue of the device
    var kfreed: seq<S>                  // what kfree_rtskb was called on, here and in rtdev_xmit
    ghost var first: nat
    ghost var inflight: seq<S>
    ghost var done: nat
    ghost var given: multiset<S>        // what rtdev_xmit was called with
    ghost var sent: seq<S>              // what the controller sent
    ghost var refused: seq<S>           // what the driver did not take
    ghost var lost: seq<S>              // what was given up at underruns

    /** `t` is tx_tail, or its copy in a loop that frees frames. */
    ghost predicate Ring(t: nat)
      reads this`head, this`hw, this`first, this`inflight, this`done, skb, used
    {
      && skb.Length == used.Length == SIZE
      && RingOk(skb[..], used[..], first, inflight, done)
      && t == Slot(first, SIZE) && head == Slot(first + |inflight|, SIZE) && hw == Slot(first + done, SIZE)
    }

    ghost predicate Accounted()
      reads this`given, this`inflight, this`done, this`kfreed, this`sent, this`refused, this`lost
    {
      Books(given, kfreed, inflight, done, sent, refused, lost)
    }

    ghost predicate Valid()
      reads this`head, this`tail, this`hw, this`first, this`inflight, this`done, this`kfreed, this`given, skb, used
      reads this`sent, this`refused, this`lost
    {
      Ring(tail) && Accounted()
    }

    constructor ()
      ensures Valid() && inflight == [] && kfreed == [] && given == multiset{} && !stopped
      ensures sent == [] && refused == [] && lost == []
      ensures fresh(skb) && fresh(used)
    {
      skb := new Option<S>[SIZE](_ => None);
      used := new bool[SIZE](_ => true);
      head, tail, hw, stopped, kfreed, first, inflight, done, given := 0, 0, 0, false, [], 0, [], 0, multiset{};
      sent, refused, lost := [], [], [];
      new;
      assert |skb[..]| == SIZE && forall i :: 0 <= i < SIZE ==> skb[..][i] == None;
    }

    /** The controller sends from where it is until it meets a descriptor marked used, or for a while. */
    method Controller(ghost t: nat)
      requires Ring(t)
      modifies this`done, this`hw, this`sent, used
      ensures Ring(t) && old(done) <= done <= |inflight|
      ensures sent == old(sent) + inflight[old(done)..done]
    {
      hide Ring;
      Facts(t);
      var going := *;
      while going && !used[hw]
        invariant Ring(t) && old(done) <= done <= |inflight| && hw < used.Length
        invariant sent == old(sent) + inflight[old(done)..done]
        invariant !used[hw] <==> done < |inflight|
        decreases |inflight| - done
      {
        SendOne(t);
        Facts(t);
        going := *;
      }
    }

    method SendOne(ghost t: nat)
      requires Ring(t) && done < |inflight|
      modifies this`done, this`hw, this`sent, used
      ensures Ring(t) && done == old(done) + 1 && sent == old(sent) + [inflight[old(done)]]
    {
      ghost var us := used[..];
      FinishOk(skb[..], us, first, inflight, done);
      SlotNext(first + done, SIZE);
      hide Slot, RingOk;
      used[hw] := true;
      assert used[..] == us[hw := true];
      sent := sent + [inflight[done]];
      hw, done := (hw + 1) % SIZE, done + 1;
    }

    /** What the driver and the controller can read off the ring. */
    lemma Facts(t: nat)
      requires Ring(t)
      ensures skb.Length == used.Length == SIZE && t < SIZE && head < SIZE && hw < SIZE
      ensures done <= |inflight| <= PENDING
      ensures !used[hw] <==> done < |inflight|
      ensures BuffsAvail(head, t) == PENDING - |inflight|
      ensures t == head <==> inflight == []
      ensures inflight != [] ==> skb[t] == Some(inflight[0]) && (used[t] <==> done > 0)
    {
      SlotsDistinct(first, first + done, SIZE);
      AvailCounts(first, |inflight|);
      if inflight != [] { OldestOk(skb[..], used[..], first, inflight, done); }
      hide Slot, BuffsAvail;
    }

    method Store(x: S)
      requires Ring(tail) && |inflight| < PENDING
      modifies this`head, this`inflight, skb, used
      ensures Ring(tail) && inflight == old(inflight) + [x]
    {
      ghost var sk, us := skb[..], used[..];
      SubmitOk(sk, us, first, inflight, done, x);
      SlotNext(first + |inflight|, SIZE);
      hide Slot, RingOk;
      var entry := head;
      skb[entry] := Some(x);
      used[entry] := false;
      assert skb[..] == sk[entry := Some(x)] && used[..] == us[entry := false];
      inflight := inflight + [x];
      head := (entry + 1) % SIZE;       // NEXT_TX
    }

    /** macb_start_xmit */
    method StartXmit(x: S) returns (rc: nat)
      requires Ring(tail)
      modifies this`head, this`inflight, this`stopped, skb, used
      ensures Ring(tail)
      ensures rc == if |old(inflight)| < 127 then 0 else 1
      ensures inflight == if rc == 0 then old(inflight) + [x] else old(inflight)
      ensures stopped <==> old(stopped) || |inflight| == 127
    {
      Facts(tail);
      hide Ring, BuffsAvail;
      if BuffsAvail(head, tail) < 1 {
        stopped := true;
        return 1;
      }
      Store(x);
      Facts(tail);
      if BuffsAvail(head, tail) < 1 {
        stopped := true;
      }
      return 0;
    }

    /** rtdev_xmit: a buffer the driver does not take is freed here. */
    method Xmit(x: S) returns (rc: nat)
      requires Valid()
      modifies this`head, this`inflight, this`stopped, this`kfreed, this`given, this`refused, skb, used
      ensures Valid() && given == old(given) + multiset{x}
      ensures refused == if rc == 0 then old(refused) else old(refused) + [x]
      ensures rc == if |old(inflight)| < 127 then 0 else 1
      ensures inflight == if rc == 0 then old(inflight) + [x] else old(inflight)
      ensures kfreed == if rc == 0 then old(kfreed) else old(kfreed) + [x]
    {
      hide Ring, Books;
      BooksGive(given, kfreed, inflight, done, sent, refused, lost, x);
      rc := StartXmit(x);
      given := given + multiset{x};
      if rc != 0 {
        kfreed := kfreed + [x];
        refused := refused + [x];
      }
    }

    /** The oldest frame is freed; there is one. */
    method FreeOldest(t: nat) returns (t': nat)
      requires Ring(t) && done > 0
      modifies this`kfreed, this`first, this`inflight, this`done, skb
      ensures Ring(t') && done == old(done) - 1
      ensures inflight == old(inflight)[1..] && kfreed == old(kfreed) + [old(inflight)[0]]
    {
      hide Slot, RingOk, BuffsAvail;
      Facts(t);
      ghost var sk := skb[..];
      OldestOk(sk, used[..], first, inflight, done);
      SlotNext(first, SIZE);
      if skb[t].None? {
        assert false;                   // BUG_ON(rp->skb == NULL)
      }
      kfreed := kfreed + [skb[t].value];
      skb[t] := None;
      assert skb[..] == sk[t := None];
      first, inflight, done := first + 1, inflight[1..], done - 1;
      t' := (t + 1) % SIZE;             // NEXT_TX
    }

    method SetAllUsed()
      requires used.Length == SIZE
      modifies used
      ensures forall j :: 0 <= j < SIZE ==> used[j]
    {
      for i := 0 to SIZE
        invariant forall j :: 0 <= j < i ==> used[j]
      {
        used[i] := true;
      }
    }

    method MarkAllUsed()
      requires Ring(tail)
      modifies this`done, this`hw, used
      ensures Ring(tail) && done == |inflight|
    {
      ghost var us := used[..];
      SetAllUsed();
      AllUsedOk(skb[..], us, first, inflight, done, used[..]);
      hide Slot, RingOk;
      done := |inflight|;
      hw := head;
    }

    /** Its loop, when the controller is done with everything. */
    method FreeAll() returns (t: nat)
      requires Ring(tail) && done == |inflight|
      modifies this`kfreed, this`first, this`inflight, this`done, skb
      ensures Ring(t) && inflight == [] && kfreed == old(kfreed) + old(inflight)
    {
      hide Ring;
      t := tail;
      Facts(t);
      while t != head
        invariant Ring(t) && done == |inflight| && (t == head <==> inflight == [])
        invariant kfreed + inflight == old(kfreed) + old(inflight)
        decreases |inflight|
      {
        ghost var before, left := kfreed, inflight;
        t := FreeOldest(t);
        assert kfreed + inflight == before + left;
        Facts(t);
      }
      assert kfreed + [] == kfreed;
    }

    /** The underrun branch of macb_tx: everything in flight is given up, and both sides start again at slot 0. */
    method ResetAfterUnderrun()
      requires Valid()
      modifies this`head, this`tail, this`hw, this`kfreed, this`first, this`inflight, this`done, this`lost, skb, used
      ensures Valid() && inflight == [] && done == 0 && kfreed == old(kfreed) + old(inflight)
      ensures lost == old(lost) + old(inflight)[old(done)..] && head == 0 && tail == 0
    {
      hide Ring, Books;
      Facts(tail);
      BooksGiveUp(given, kfreed, inflight, done, sent, refused, lost);
      lost := lost + inflight[done..];
      MarkAllUsed();
      var t := FreeAll();
      Restart(t);
    }

    method Restart(t: nat)
      requires Ring(t) && inflight == []
      modifies this`head, this`tail, this`hw, this`first, this`done
      ensures Ring(tail) && head == 0 && tail == 0 && done == 0
    {
      EmptyMoves(skb[..], used[..], first);
      SlotStart(SIZE);
      hide Slot, RingOk;
      head, tail, hw, first, done := 0, 0, 0, 0, 0;
    }

    /** The controller goes on while frames are being freed. */
    method Advance(ghost t: nat, ghost k0: seq<S>, ghost s0: seq<S>, ghost all: seq<S>, ghost m: nat, ghost n: nat)
      requires Ring(t) && Emptied(k0, s0, all, m, n, kfreed, inflight, done, sent)
      modifies this`done, this`hw, this`sent, used
      ensures Ring(t) && Emptied(k0, s0, all, m, n, kfreed, inflight, done, sent)
      ensures (t == head <==> inflight == []) && t < used.Length && (inflight != [] ==> (used[t] <==> done > 0))
    {
      hide Ring, Emptied;
      ghost var before, was := done, sent;
      Facts(t);
      Controller(t);
      Facts(t);
      EmptiedSend(k0, s0, all, m, n, kfreed, inflight, before, was, done);
    }

    /** The loop of the completion branch, while the controller goes on. */
    method FreeDone(ghost k0: seq<S>, ghost s0: seq<S>, ghost all: seq<S>, ghost m: nat)
      returns (t: nat, ghost n: nat)
      requires Ring(tail) && Emptied(k0, s0, all, m, 0, kfreed, inflight, done, sent)
      modifies this`hw, this`kfreed, this`first, this`inflight, this`done, this`sent, skb, used
      ensures Ring(t) && m <= n && Emptied(k0, s0, all, m, n, kfreed, inflight, done, sent)
    {
      hide Ring, Emptied;
      t, n := tail, 0;
      Advance(t, k0, s0, all, m, n);
      while t != head
        invariant Ring(t) && (t == head <==> inflight == []) && t < used.Length
        invariant Emptied(k0, s0, all, m, n, kfreed, inflight, done, sent)
        invariant inflight != [] ==> (used[t] <==> done > 0)
        decreases |inflight|
      {
        if !used[t] {
          break;
        }
        EmptiedFree(k0, s0, all, m, n, kfreed, inflight, done, sent);
        t := FreeOldest(t);
        n := n + 1;
        Advance(t, k0, s0, all, m, n);
      }
      EmptiedTells(k0, s0, all, m, n, kfreed, inflight, done, sent);
    }

    /** The completion branch of macb_tx: frees the oldest frames in flight, at least those that were done when it
        began, and none that the controller has not sent. */
    method Complete() returns (ghost n: nat)
      requires Valid()
      modifies this`tail, this`hw, this`kfreed, this`first, this`inflight, this`done, this`sent, skb, used
      ensures Valid() && old(done) <= n
      ensures Emptied(old(kfreed), old(sent), old(inflight), old(done), n, kfreed, inflight, done, sent)
    {
      hide Ring, Books, Emptied;
      ghost var all, m, k0, s0 := inflight, done, kfreed, sent;
      Facts(tail);
      EmptiedStart(k0, s0, all, m);
      var t;
      t, n := FreeDone(k0, s0, all, m);
      tail := t;
      EmptiedBooks(given, k0, s0, all, m, n, kfreed, inflight, done, sent, refused, lost);
    }

    /** macb_tx, by the UND and COMP bits it reads: frames are freed in the order they were given, all of them after an
        underrun, exactly sent ones otherwise. The queue is woken only in the completion branch, so an underrun without
        completion leaves a stopped queue stopped although the ring is empty. */
    method Tx(und: bool, comp: bool) returns (ghost n: nat)
      requires Valid()
      modifies this`head, this`tail, this`hw, this`kfreed, this`first, this`inflight, this`done, this`stopped,
        this`sent, this`lost, skb, used
      ensures Valid() && given == old(given)
      ensures und ==> inflight == [] && kfreed == old(kfreed) + old(inflight) && sent == old(sent)
      ensures lost == old(lost) + if und then old(inflight)[old(done)..] else []
      ensures !und && !comp ==> inflight == old(inflight) && kfreed == old(kfreed) && sent == old(sent)
      ensures !und && comp ==>
        old(done) <= n && Emptied(old(kfreed), old(sent), old(inflight), old(done), n, kfreed, inflight, done, sent)
      ensures stopped <==> old(stopped) && !(comp && 127 - |inflight| > 32)
    {
      hide Ring, BuffsAvail, Books;
      n := 0;
      if und {
        ResetAfterUnderrun();
      }
      if !comp {
        return;
      }
      n := Complete();
      Facts(tail);
      if stopped && BuffsAvail(head, tail) > WAKEUP_THRESH {
        stopped := false;
      }
    }
  }

  // --- Every run -------------------------------------------------------------------------------

  datatype Event<S> = Send(x: S) | Interrupt(und: bool, comp: bool) | Progress

  /** Any sequence of transmissions, controller progress and interrupts, underruns included: every buffer ever given to
      rtdev_xmit was freed exactly once or is in exactly one live slot, TX_BUFFS_AVAIL counts the free ones, and what
      was freed had been sent, refused or, at an underrun, given up. */
  method AnyRun<S(==)>(ring: TxRing<S>, events: seq<Event<S>>)
    requires ring.Valid()
    modifies ring, ring.skb, ring.used
    ensures ring.Valid()
    ensures ring.given == multiset(ring.kfreed) + multiset(ring.inflight)
    ensures BuffsAvail(ring.head, ring.tail) == 127 - |ring.inflight| && ring.skb.Length == ring.used.Length == 128
    ensures old(ring.kfreed) <= ring.kfreed && old(ring.given) <= ring.given
    ensures old(ring.sent) <= ring.sent && old(ring.lost) <= ring.lost
    ensures multiset(ring.kfreed) <= multiset(ring.sent) + multiset(ring.refused) + multiset(ring.lost)
    ensures (forall i :: 0 <= i < |events| && events[i].Interrupt? ==> !events[i].und) ==> ring.lost == old(ring.lost)
  {
    hide TxRing.Ring, BuffsAvail, Books;
    for i := 0 to |events|
      invariant ring.Valid() && old(ring.kfreed) <= ring.kfreed && old(ring.given) <= ring.given
      invariant old(ring.sent) <= ring.sent && old(ring.lost) <= ring.lost
      invariant (forall j :: 0 <= j < i && events[j].Interrupt? ==> !events[j].und) ==> ring.lost == old(ring.lost)
    {
      match events[i]
      case Send(x) => var rc := ring.Xmit(x);
      case Interrupt(und, comp) => Interrupted(ring, und, comp);
      case Progress => Progressed(ring);
    }
    ring.Facts(ring.tail);
    BooksTell(ring.given, ring.kfreed, ring.inflight, ring.done, ring.sent, ring.refused, ring.lost);
  }

  lemma BooksTell<S>(given: multiset<S>, kfreed: seq<S>, inflight: seq<S>, done: nat,
                     sent: seq<S>, refused: seq<S>, lost: seq<S>)
    requires Books(given, kfreed, inflight, done, sent, refused, lost)
    ensures given == multiset(kfreed) + multiset(inflight)
    ensures multiset(kfreed) <= multiset(sent) + multiset(refused) + multiset(lost)
  {
  }

  method Interrupted<S(==)>(ring: TxRing<S>, und: bool, comp: bool)
    requires ring.Valid()
    modifies ring, ring.skb, ring.used
    ensures ring.Valid() && ring.given == old(ring.given) && old(ring.kfreed) <= ring.kfreed
    ensures old(ring.sent) <= ring.sent && old(ring.lost) <= ring.lost && (!und ==> ring.lost == old(ring.lost))
  {
    hide TxRing.Ring, Books;
    ghost var n := ring.Tx(und, comp);
  }

  method Progressed<S(==)>(ring: TxRing<S>)
    requires ring.Valid()
    modifies ring`done, ring`hw, ring`sent, ring.used
    ensures ring.Valid() && old(ring.sent) <= ring.sent
  {
    hide TxRing.Ring, Books;
    ghost var before, was := ring.done, ring.sent;
    ring.Facts(ring.tail);
    ring.Controller(ring.tail);
    BooksSend(ring.given, ring.kfreed, ring.inflight, before, was, ring.refused, ring.lost, ring.done);
  }
}
