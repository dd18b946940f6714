/**
 The receive ring of rt_eepro100. A receive descriptor lives inside its buffer, so a buffer stands for both.

 Slots from cur_rx on are armed: the chip fills them in order. Slots between dirty_rx and cur_rx were handed up
 or held bad frames and wait for a refill; when the pool is empty the driver borrows a buffer from a later waiting
 slot. The chip must not run past the last armed descriptor, which alone carries the end-of-list bits.
 */
module SpeedoRx {
  import opened Wrappers
  import opened Ring

  /** RX_RING_SIZE */
  const SIZE := 8

  // --- The contents of the ring ----------------------------------------------------------------

  predicate Distinct<B(==)>(sk: seq<Option<B>>) {
    forall i, j :: 0 <= i < j < |sk| && sk[i].Some? ==> sk[i] != sk[j]
  }

  function Held<B>(sk: seq<Option<B>>): set<B> {
    set i | 0 <= i < |sk| && sk[i].Some? :: sk[i].value
  }

  /** `cur` and `dirty` count up to the next slot to receive into and the next slot to refill. */
  ghost predicate RingOk<B>(sk: seq<Option<B>>, rp: seq<Option<B>>, cur: nat, dirty: nat, last: B, eol: set<B>) {
    && |sk| == |rp| == SIZE && Distinct(sk)
    && dirty <= cur < dirty + SIZE
    // armed slots hold a buffer
    && (forall k {:trigger Slot(k, SIZE)} :: cur <= k < dirty + SIZE ==>
      sk[Slot(k, SIZE)].Some? && rp[Slot(k, SIZE)] == sk[Slot(k, SIZE)])
    // waiting slots are empty or hold a buffer to use again
    && (forall k {:trigger Slot(k, SIZE)} :: dirty <= k < cur ==>
      sk[Slot(k, SIZE)].Some? ==> rp[Slot(k, SIZE)] == sk[Slot(k, SIZE)])
    // the list ends at the slot in front of dirty, and only there
    && sk[Slot(dirty + SIZE - 1, SIZE)] == Some(last)
    && (forall k {:trigger Slot(k, SIZE)} :: cur <= k < dirty + SIZE ==>
          (sk[Slot(k, SIZE)].value in eol <==> k == dirty + SIZE - 1))
  }

  lemma HeldAt<B>(sk: seq<Option<B>>, i: nat, b: B)
    requires i < |sk| && sk[i] == Some(b)
    ensures b in Held(sk)
  {
  }

  lemma HeldUpdate<B>(sk: seq<Option<B>>, i: nat, b: B)
    requires i < |sk| && Distinct(sk)
    ensures sk[i] == None ==> Held(sk[i := Some(b)]) == Held(sk) + {b}
    ensures sk[i] == Some(b) ==> Held(sk[i := None]) == Held(sk) - {b}
    ensures sk[i] == None && b !in Held(sk) ==> Distinct(sk[i := Some(b)])
    ensures Distinct(sk[i := None])
  {
    var s := sk[i := Some(b)];
    if sk[i] == None {
      assert s[i] == Some(b);
      forall c | c in Held(sk) ensures c in Held(s) {
        var j :| 0 <= j < |sk| && sk[j] == Some(c);
        assert s[j] == Some(c);
      }
    }
    var n := sk[i := None];
    if sk[i] == Some(b) {
      forall c | c in Held(sk) && c != b ensures c in Held(n) {
        var j :| 0 <= j < |sk| && sk[j] == Some(c);
        assert n[j] == Some(c);
      }
    }
  }

  /** speedo_rx hands a frame up, or skips a bad one. */
  lemma TakeOk<B>(sk: seq<Option<B>>, rp: seq<Option<B>>, cur: nat, dirty: nat, last: B, eol: set<B>)
    requires RingOk(sk, rp, cur, dirty, last, eol)
    requires rp[Slot(cur, SIZE)] != Some(last)
    ensures RingOk(sk, rp, cur + 1, dirty, last, eol)
    ensures var s := Slot(cur, SIZE); RingOk(sk[s := None], rp[s := None], cur + 1, dirty, last, eol)
  {
    SlotsDistinct(dirty, cur, SIZE);
    hide Slot;
    assert cur != dirty + SIZE - 1;
  }

  /** speedo_rx_alloc puts a fresh buffer into the slot to refill. */
  lemma PlaceOk<B>(sk: seq<Option<B>>, rp: seq<Option<B>>, cur: nat, dirty: nat, last: B, eol: set<B>, b: B)
    requires RingOk(sk, rp, cur, dirty, last, eol) && dirty < cur
    requires sk[Slot(dirty, SIZE)] == None && b !in Held(sk)
    ensures var s := Slot(dirty, SIZE); RingOk(sk[s := Some(b)], rp[s := Some(b)], cur, dirty, last, eol)
  {
    SlotsDistinct(dirty, dirty, SIZE);
    HeldUpdate(sk, Slot(dirty, SIZE), b);
    hide Slot;
  }

  /** The borrowed buffer moves from a later waiting slot to the slot to refill. */
  lemma BorrowOk<B>(sk: seq<Option<B>>, rp: seq<Option<B>>, cur: nat, dirty: nat, last: B, eol: set<B>, forw: nat)
    requires RingOk(sk, rp, cur, dirty, last, eol) && dirty < forw < cur
    requires sk[Slot(dirty, SIZE)] == None && sk[Slot(forw, SIZE)].Some?
    ensures var (s, f) := (Slot(dirty, SIZE), Slot(forw, SIZE));
      && s != f
      && RingOk(sk[s := sk[f]][f := None], rp[s := rp[f]][f := None], cur, dirty, last, eol)
      && Held(sk[s := sk[f]][f := None]) == Held(sk)
  {
    var s, f := Slot(dirty, SIZE), Slot(forw, SIZE);
    var b := sk[f].value;
    SlotsDistinct(dirty, dirty, SIZE);
    SlotsDistinct(dirty, forw, SIZE);
    var mid := sk[f := None];
    HeldUpdate(sk, f, b);
    HeldAt(sk, f, b);
    HeldUpdate(mid, s, b);
    assert mid[s := Some(b)] == sk[s := sk[f]][f := None];
    hide Slot, Held;
  }

  /** speedo_rx_link: the refilled slot becomes the end of the list. */
  lemma LinkOk<B>(sk: seq<Option<B>>, rp: seq<Option<B>>, cur: nat, dirty: nat, last: B, eol: set<B>, b: B)
    requires RingOk(sk, rp, cur, dirty, last, eol) && dirty < cur
    requires sk[Slot(dirty, SIZE)] == Some(b)
    ensures last != b
    ensures RingOk(sk, rp, cur, dirty + 1, b, eol + {b} - {last})
  {
    SlotsMeet(dirty, dirty + SIZE, SIZE);
    SlotsDistinct(dirty + 1, dirty + SIZE, SIZE);
    var e := Slot(dirty + SIZE - 1, SIZE);
    SlotsMeet(dirty, dirty + SIZE - 1, SIZE);
    SlotsDistinct(dirty + 1, dirty + SIZE - 1, SIZE);
    hide Slot;
    assert sk[e] == Some(last);
    var s := Slot(dirty, SIZE);
    assert sk[s] == Some(b) && s != e;
    assert sk[s] != sk[e];
    forall k {:trigger Slot(k, SIZE)} | cur <= k < dirty + 1 + SIZE
      ensures sk[Slot(k, SIZE)].Some? && (sk[Slot(k, SIZE)].value in eol + {b} - {last} <==> k == dirty + SIZE)
    {
      var i := Slot(k, SIZE);
      assert i == s <==> k == dirty + SIZE;
      assert i != s ==> sk[i] != sk[s];
      assert i != e ==> sk[i] != sk[e];
    }
  }

  /** The slots at positions `from` to `to` hold what they held. */
  ghost predicate Same<B>(s: seq<Option<B>>, s0: seq<Option<B>>, from: nat, to: nat) {
    && |s| == |s0| == SIZE
    && forall k {:trigger Slot(k, SIZE)} :: from <= k < to ==> s[Slot(k, SIZE)] == s0[Slot(k, SIZE)]
  }

  lemma SameBut<B>(s: seq<Option<B>>, from: nat, to: nat, base: nat, n: nat, x: Option<B>)
    requires |s| == SIZE && base <= from && to <= base + SIZE && base <= n < base + SIZE && !(from <= n < to)
    ensures Same(s[Slot(n, SIZE) := x], s, from, to)
  {
    SlotsDistinct(base, n, SIZE);
    hide Slot;
  }

  lemma SameThen<B>(s: seq<Option<B>>, s1: seq<Option<B>>, s0: seq<Option<B>>, from: nat, from0: nat, to: nat, to0: nat)
    requires Same(s1, s0, from0, to0) && Same(s, s1, from, to) && from0 <= from && to0 <= to
    ensures Same(s, s0, from, to0)
  {
    hide Slot;
  }

  lemma SameSelf<B>(s: seq<Option<B>>, from: nat, to: nat)
    requires |s| == SIZE
    ensures Same(s, s, from, to)
  {
  }

  lemma SameTwo<B>(s: seq<Option<B>>, c: nat, d: nat, f: nat)
    requires |s| == SIZE && d < f < c < d + SIZE
    ensures Same(s[Slot(d, SIZE) := s[Slot(f, SIZE)]][Slot(f, SIZE) := None], s, c, d + SIZE)
  {
    SlotsDistinct(d, d, SIZE);
    SlotsDistinct(d, f, SIZE);
    hide Slot;
  }

  /** The first slot behind `d` that holds a buffer. */
  ghost predicate Nearest<B>(sk: seq<Option<B>>, d: nat, f: nat, c: nat) {
    && |sk| == SIZE && d < f < c && sk[Slot(f, SIZE)].Some?
    && forall k {:trigger Slot(k, SIZE)} :: d < k < f ==> sk[Slot(k, SIZE)] == None
  }

  /** The buffer of slot `f` goes to slot `d`. */
  ghost function Lent<B>(sk: seq<Option<B>>, d: nat, f: nat): seq<Option<B>>
    requires |sk| == SIZE
  {
    sk[Slot(d, SIZE) := sk[Slot(f, SIZE)]][Slot(f, SIZE) := None]
  }

  /** What a refill does to the slots: nothing if there is a buffer in the slot, else a buffer of the pool goes there,
      else, when forced, the nearest one of a waiting slot. */
  ghost predicate Refilled<B>(sk: seq<Option<B>>, pool: set<B>, sk': seq<Option<B>>, pool': set<B>, ok: bool,
                              force: bool, c: nat, d: nat, f: nat, last: B) {
    && |sk| == |sk'| == SIZE
    && if sk[Slot(d, SIZE)].Some? then
         ok && sk' == sk && pool' == pool && sk[Slot(d, SIZE)] == Some(last)
       else if pool != {} then
         ok && last in pool && sk' == sk[Slot(d, SIZE) := Some(last)] && pool' == pool - {last}
       else
         && pool' == {} && (!ok ==> sk' == sk)
         && (ok ==> force && Nearest(sk, d, f, c) && sk' == Lent(sk, d, f) && sk[Slot(f, SIZE)] == Some(last))
  }

  lemma RefilledKeeps<B>(sk: seq<Option<B>>, pool: set<B>, sk': seq<Option<B>>, pool': set<B>, ok: bool,
                         c: nat, d: nat, f: nat, last: B)
    requires Refilled(sk, pool, sk', pool', ok, false, c, d, f, last)
    ensures |sk| == |sk'| == SIZE && forall i :: 0 <= i < SIZE && sk[i].Some? ==> sk'[i] == sk[i]
  {
    hide Slot;
  }

  // --- What was received -----------------------------------------------------------------------

  /** A descriptor that speedo_rx went past: its buffer and the status it read there. */
  datatype Frame<B> = Frame(b: B, complete: bool, good: bool)

  /** The buffers of the good frames, in order. */
  function Goods<B>(taken: seq<Frame<B>>): seq<B> {
    if taken == [] then []
    else
      var n := |taken| - 1;
      Goods(taken[..n]) + if taken[n].good then [taken[n].b] else []
  }

  /** One frame for every slot up to `c`, all of them complete; exactly the good ones were handed up, in order. */
  ghost predicate Received<B>(taken: seq<Frame<B>>, delivered: seq<B>, c: nat) {
    && c == 0x1_0000_0000 + |taken|
    && (forall i :: 0 <= i < |taken| ==> taken[i].complete)
    && delivered == Goods(taken)
  }

  lemma NoneReceived<B>()
    ensures Received<B>([], [], 0x1_0000_0000)
  {
  }

  lemma ReceivedNext<B>(taken: seq<Frame<B>>, delivered: seq<B>, c: nat, f: Frame<B>)
    requires Received(taken, delivered, c) && f.complete
    ensures Received(taken + [f], if f.good then delivered + [f.b] else delivered, c + 1)
  {
    assert (taken + [f])[..|taken|] == taken;
  }

  // --- The driver ------------------------------------------------------------------------------

  class RxRing<B(==)> {
    const skbuff: array<Option<B>>      // rx_skbuff
    const ringp: array<Option<B>>       // rx_ringp
    var cur: u32                        // cur_rx
    var dirty: u32                      // dirty_rx
    var lastRxf: B
    // the status words of the descriptors
    var eol: set<B>                     // end-of-list bits
    var complete: set<B>                // RxComplete
    var good: set<B>                    // RxOK and no error
    // where the other buffers are
    var pool: set<B>
    var up: set<B>                      // with the upper layers
    var delivered: seq<B>
    ghost const all: set<B>
    ghost var c: nat                    // cur counts up to here
    ghost var d: nat
    ghost var taken: seq<Frame<B>>      // what speedo_rx went past

    ghost predicate Armed()
      reads this`cur, this`dirty, this`lastRxf, this`eol, this`c, this`d, skbuff, ringp
    {
      && skbuff != ringp && skbuff.Length == ringp.Length == SIZE
      && RingOk(skbuff[..], ringp[..], c, d, lastRxf, eol)
      && cur == Word(c) && dirty == Word(d)
    }

    /** Every buffer is in exactly one slot, or in the pool, or with the upper layers. */
    ghost predicate Conserved()
      reads this`pool, this`up, skbuff
    {
      && Held(skbuff[..]) !! pool && Held(skbuff[..]) !! up && pool !! up
      && Held(skbuff[..]) + pool + up == all
    }

    ghost predicate Valid()
      reads this`cur, this`dirty, this`lastRxf, this`eol, this`c, this`d, this`pool, this`up, skbuff, ringp
      reads this`taken, this`delivered
    {
      Armed() && Conserved() && Received(taken, delivered, c)
    }

    /** The slots in front of `n` hold a buffer each, the others none. */
    ghost predicate Filled(n: nat)
      reads this`pool, this`lastRxf, skbuff, ringp
    {
      && skbuff != ringp && skbuff.Length == ringp.Length == SIZE && n <= SIZE
      && (forall j :: 0 <= j < n ==> skbuff[j].Some? && ringp[j] == skbuff[j])
      && (forall j :: n <= j < SIZE ==> skbuff[j] == None)
      && Distinct(skbuff[..]) && Held(skbuff[..]) !! pool && Held(skbuff[..]) + pool == all
      && (n > 0 ==> skbuff[n - 1] == Some(lastRxf))
    }

    method FillSlot(i: nat)
      requires Filled(i) && i < SIZE && pool != {}
      modifies this`pool, this`lastRxf, skbuff, ringp
      ensures Filled(i + 1)
    {
      var b :| b in pool;
      ghost var sk := skbuff[..];
      HeldUpdate(sk, i, b);
      hide Held, Distinct;
      pool := pool - {b};
      skbuff[i] := Some(b);
      assert skbuff[..] == sk[i := Some(b)];
      ringp[i] := Some(b);
      lastRxf := b;
    }

    method FillSlots() returns (n: nat)
      requires Filled(0) && pool != {}
      modifies this`pool, this`lastRxf, skbuff, ringp
      ensures Filled(n) && 0 < n && (pool == {} || n == SIZE)
    {
      hide Held, Distinct;
      n := 0;
      while n < SIZE && pool != {}
        invariant Filled(n) && (n == 0 ==> pool != {})
      {
        FillSlot(n);
        n := n + 1;
      }
    }

    /** speedo_init_rx_ring: as many slots as the pool has buffers for. */
    method InitRxRing()
      requires Filled(0) && pool != {} && up == {} && taken == [] && delivered == []
      modifies this`pool, this`lastRxf, this`cur, this`dirty, this`c, this`d, this`eol, skbuff, ringp
      ensures Valid() && (pool == {} || d == c)
    {
      var n := FillSlots();
      InitOk(skbuff[..], ringp[..], n, lastRxf);
      NoneReceived<B>();
      hide RingOk, Held, Distinct, Received;
      c, d := 0x1_0000_0000, 0x1_0000_0000 + n - SIZE;
      cur := 0;
      dirty := Word(0x1_0000_0000 + n - SIZE);      // (unsigned int)(i - RX_RING_SIZE)
      eol := {lastRxf};
    }

    /** The pool has at least one buffer; rx_ringp may hold pointers from before the device was last closed. */
    constructor (buffers: set<B>, stale: seq<Option<B>>)
      requires buffers != {} && |stale| == SIZE
      ensures Valid() && all == buffers && up == {} && delivered == [] && taken == []
      ensures fresh(skbuff) && fresh(ringp)
      ensures pool == {} || d == c
    {
      all, pool, up, delivered, taken := buffers, buffers, {}, [], [];
      skbuff := new Option<B>[SIZE](_ => None);
      ringp := new Option<B>[SIZE](i requires 0 <= i < SIZE => stale[i]);
      var any :| any in buffers;
      lastRxf := any;
      new;
      assert Held(skbuff[..]) == {};
      hide RingOk, Held;
      InitRxRing();
    }

    /** The chip writes status words, the upper layers return buffers. */
    method Meanwhile()
      requires Valid()
      modifies this`complete, this`good, this`pool, this`up
      ensures Valid()
    {
      hide RingOk, Held;
      complete, good := *, *;
      var back: set<B> := *;
      back := back * up;
      up, pool := up - back, pool + back;
    }

    /** speedo_rx_alloc: the slot gets a buffer from the pool, or is empty. */
    method Alloc() returns (rxf: Option<B>)
      requires Valid() && d < c && skbuff[Slot(d, SIZE)] == None
      modifies this`pool, skbuff, ringp
      ensures Valid() && skbuff[Slot(d, SIZE)] == rxf
      ensures rxf == None <==> old(pool) == {}
      ensures rxf == None ==> pool == {} && skbuff[..] == old(skbuff[..])
      ensures rxf.Some? ==> rxf.value in old(pool) && pool == old(pool) - {rxf.value}
      ensures skbuff[..] == old(skbuff[..])[Slot(d, SIZE) := rxf]
      ensures Same(ringp[..], old(ringp[..]), c, d + SIZE) && Same(skbuff[..], old(skbuff[..]), c, d + SIZE)
    {
      WordSlot(d, SIZE);
      ghost var sk, rp := skbuff[..], ringp[..];
      var entry := Slot(dirty, SIZE);
      if pool == {} {
        EmptyOk(sk, rp, c, d, lastRxf, eol);
        SameBut(rp, c, d + SIZE, d, d, None);
        SameBut(sk, c, d + SIZE, d, d, None);
        hide Slot, RingOk, Held, Same;
        skbuff[entry] := None;
        ringp[entry] := None;
        assert skbuff[..] == sk && ringp[..] == rp[entry := None];
        return None;
      }
      var b :| b in pool;
      PlaceOk(sk, rp, c, d, lastRxf, eol, b);
      HeldUpdate(sk, entry, b);
      SameBut(rp, c, d + SIZE, d, d, Some(b));
      SameBut(sk, c, d + SIZE, d, d, Some(b));
      hide Slot, RingOk, Held, Same;
      pool := pool - {b};
      skbuff[entry] := Some(b);
      ringp[entry] := Some(b);
      assert skbuff[..] == sk[entry := Some(b)] && ringp[..] == rp[entry := Some(b)];
      return Some(b);
    }

    /** The first waiting slot behind the one to refill that holds a buffer. */
    method FindForward() returns (forw: u32, ghost f: nat)
      requires Armed() && d < c
      ensures d < f <= c && forw == Word(f)
      ensures forall k {:trigger Slot(k, SIZE)} :: d < k < f ==> skbuff[Slot(k, SIZE)] == None
      ensures f < c ==> skbuff[Slot(f, SIZE)].Some?
    {
      IncCounts(d);
      forw, f := Inc(dirty), d + 1;
      assert c < d + SIZE;
      WordsMeet(f, c);
      WordSlot(f, SIZE);
      hide Slot, Word, Inc, RingOk;
      while forw != cur
        invariant d < f <= c && forw == Word(f)
        invariant forw == cur <==> f == c
        invariant Slot(forw, SIZE) == Slot(f, SIZE)
        invariant forall k {:trigger Slot(k, SIZE)} :: d < k < f ==> skbuff[Slot(k, SIZE)] == None
        decreases c - f
      {
        if skbuff[Slot(forw, SIZE)] != None {
          break;
        }
        IncCounts(f);
        forw, f := Inc(forw), f + 1;
        WordsMeet(f, c);
        WordSlot(f, SIZE);
      }
    }

    /** The last resort of a forced refill. */
    method Borrow() returns (found: bool, ghost f: nat)
      requires Valid() && d < c && skbuff[Slot(d, SIZE)] == None
      modifies skbuff, ringp
      ensures Valid() && (found <==> !old(NothingForward()))
      ensures found ==> Nearest(old(skbuff[..]), d, f, c) && skbuff[..] == Lent(old(skbuff[..]), d, f)
      ensures found ==> skbuff[Slot(d, SIZE)].Some?
      ensures !found ==> skbuff[..] == old(skbuff[..]) && NothingForward()
      ensures Same(ringp[..], old(ringp[..]), c, d + SIZE) && Same(skbuff[..], old(skbuff[..]), c, d + SIZE)
    {
      var forw;
      forw, f := FindForward();
      WordsMeet(f, c);
      if forw == cur {
        return false, f;
      }
      WordSlot(d, SIZE);
      WordSlot(f, SIZE);
      ghost var sk, rp := skbuff[..], ringp[..];
      BorrowOk(sk, rp, c, d, lastRxf, eol, f);
      SameTwo(sk, c, d, f);
      SameTwo(rp, c, d, f);
      var entry, fe := Slot(dirty, SIZE), Slot(forw, SIZE);
      hide Slot, RingOk, Held, Word, Same;
      skbuff[entry] := skbuff[fe];
      skbuff[fe] := None;
      var rxf := ringp[fe];
      ringp[fe] := None;
      ringp[entry] := rxf;
      assert skbuff[..] == sk[entry := sk[fe]][fe := None];
      assert ringp[..] == rp[entry := rp[fe]][fe := None];
      return true, f;
    }

    ghost predicate NothingForward()
      reads this`c, this`d, skbuff
      requires skbuff.Length == SIZE
    {
      forall k {:trigger Slot(k, SIZE)} :: d < k < c ==> skbuff[Slot(k, SIZE)] == None
    }

    /** speedo_rx_link, and one more slot refilled. */
    method Link()
      requires Valid() && d < c && skbuff[Slot(d, SIZE)].Some?
      modifies this`eol, this`complete, this`lastRxf, this`dirty, this`d
      ensures Valid() && d == old(d) + 1 && complete == old(complete) - {lastRxf}
      ensures skbuff[Slot(old(d), SIZE)] == Some(lastRxf)
    {
      WordSlot(d, SIZE);
      IncCounts(d);
      var b := skbuff[Slot(dirty, SIZE)].value;
      LinkOk(skbuff[..], ringp[..], c, d, lastRxf, eol, b);
      hide Slot, RingOk, Held, Word, Inc;
      eol := eol + {b};
      complete := complete - {b};
      eol := eol - {lastRxf};
      lastRxf := b;
      dirty, d := Inc(dirty), d + 1;
    }

    /** speedo_refill_rx_buf: fails only if the pool is empty, the slot is empty and, when forced, so are all waiting
        slots behind it. */
    method RefillRxBuf(force: bool) returns (ok: bool, ghost f: nat)
      requires Valid() && d < c
      modifies this`eol, this`complete, this`lastRxf, this`dirty, this`d, this`pool, skbuff, ringp
      ensures Valid() && d == old(d) + (if ok then 1 else 0)
      ensures !ok ==> pool == {} && skbuff[Slot(d, SIZE)] == None && (force ==> NothingForward())
      ensures Same(ringp[..], old(ringp[..]), c, old(d) + SIZE) && Same(skbuff[..], old(skbuff[..]), c, old(d) + SIZE)
      ensures complete == if ok then old(complete) - {lastRxf} else old(complete)
      ensures Refilled(old(skbuff[..]), old(pool), skbuff[..], pool, ok, force, c, old(d), f, lastRxf)
    {
      WordSlot(d, SIZE);
      SameSelf(ringp[..], c, d + SIZE);
      SameSelf(skbuff[..], c, d + SIZE);
      hide Slot, RingOk, Held, Word, Same, Received, Nearest;
      f := 0;
      if skbuff[Slot(dirty, SIZE)] == None {
        var rxf := Alloc();
        if rxf == None {
          if !force {
            return false, f;
          }
          var found;
          found, f := Borrow();
          if !found {
            return false, f;
          }
        }
      }
      Link();
      return true, f;
    }

    /** speedo_refill_rx_buffers */
    method RefillRxBuffers(force: bool)
      requires Valid()
      modifies this`eol, this`complete, this`lastRxf, this`dirty, this`d, this`pool, skbuff, ringp
      ensures Valid() && old(d) <= d <= c
      ensures d < c ==> pool == {} && skbuff[Slot(d, SIZE)] == None && (force ==> NothingForward())
      ensures Same(ringp[..], old(ringp[..]), c, old(d) + SIZE) && complete <= old(complete)
      ensures !force ==> forall i :: 0 <= i < SIZE && old(skbuff[i]).Some? ==> skbuff[i] == old(skbuff[i])
    {
      Waiting();
      SameSelf(ringp[..], c, d + SIZE);
      hide Slot, SignedDiff, Valid, Same, NothingForward, Refilled;
      var ok := true;
      while SignedDiff(cur, dirty) > 0 && ok
        invariant Valid() && old(d) <= d <= c && skbuff.Length == SIZE
        invariant SignedDiff(cur, dirty) == c - d
        invariant !ok ==> pool == {} && skbuff[Slot(d, SIZE)] == None && (force ==> NothingForward())
        invariant Same(ringp[..], old(ringp[..]), c, old(d) + SIZE) && complete <= old(complete)
        invariant !force ==> forall i :: 0 <= i < SIZE && old(skbuff[i]).Some? ==> skbuff[i] == old(skbuff[i])
        decreases c - d, ok
      {
        ghost var rp, sk, d0, p := ringp[..], skbuff[..], d, pool;
        ghost var f;
        ok, f := RefillRxBuf(force);
        if !force {
          RefilledKeeps(sk, p, skbuff[..], pool, ok, c, d0, f, lastRxf);
        }
        SameThen(ringp[..], rp, old(ringp[..]), c, c, d0 + SIZE, old(d) + SIZE);
        Waiting();
      }
    }

    /** A completed frame that is not in the last armed slot goes up if it is good; a bad one stays in its slot, to be
        armed again. */
    method TakeFrame(b: B)
      requires Valid() && ringp[Slot(c, SIZE)] == Some(b) && b != lastRxf && b in complete
      modifies this`cur, this`c, this`up, this`delivered, this`taken, skbuff, ringp
      ensures Valid() && c == old(c) + 1 && d < c && taken == old(taken) + [Frame(b, b in complete, b in good)]
      ensures b in good ==>
        delivered == old(delivered) + [b] && up == old(up) + {b} && skbuff[Slot(old(c), SIZE)] == None
      ensures b !in good ==> delivered == old(delivered) && up == old(up) && skbuff[Slot(old(c), SIZE)] == Some(b)
      ensures Same(ringp[..], old(ringp[..]), c, d + SIZE)
    {
      hide Slot, RingOk, Held, Word, Inc, Same, Received;
      ghost var f := Frame(b, b in complete, b in good);
      TakeTells(b);
      ReceivedNext(taken, delivered, c, f);
      var entry := Slot(cur, SIZE);
      taken := taken + [f];
      if b in good {
        if skbuff[entry].None? {
          assert false;                 // "Inconsistent Rx descriptor chain."
        }
        Hand(entry, b);
      }
      cur, c := Inc(cur), c + 1;
    }

    /** rtnetif_rx: the slot is emptied and the buffer goes to the upper layers. */
    method Hand(entry: nat, b: B)
      requires entry < skbuff.Length == ringp.Length && skbuff != ringp
      modifies this`up, this`delivered, skbuff, ringp
      ensures skbuff[..] == old(skbuff[..])[entry := None] && ringp[..] == old(ringp[..])[entry := None]
      ensures up == old(up) + {b} && delivered == old(delivered) + [b]
    {
      skbuff[entry] := None;
      ringp[entry] := None;
      up, delivered := up + {b}, delivered + [b];
    }

    /** What taking the frame at cur_rx does to the ring, handed up or left in its slot. */
    lemma TakeTells(b: B)
      requires Valid() && ringp[Slot(c, SIZE)] == Some(b) && b != lastRxf
      ensures skbuff.Length == ringp.Length == SIZE && d <= c < d + SIZE && Inc(cur) == Word(c + 1)
      ensures Slot(cur, SIZE) == Slot(c, SIZE) && skbuff[Slot(c, SIZE)] == Some(b)
      ensures var sk, rp, s := skbuff[..], ringp[..], Slot(c, SIZE);
        && RingOk(sk, rp, c + 1, d, lastRxf, eol) && RingOk(sk[s := None], rp[s := None], c + 1, d, lastRxf, eol)
        && Held(sk[s := None]) == Held(sk) - {b} && b in Held(sk)
        && Same(rp, rp, c + 1, d + SIZE) && Same(rp[s := None], rp, c + 1, d + SIZE)
    {
      WordSlot(c, SIZE);
      IncCounts(c);
      var sk, rp := skbuff[..], ringp[..];
      TakeOk(sk, rp, c, d, lastRxf, eol);
      SameBut(rp, c + 1, d + SIZE, d, c, None);
      SameSelf(rp, c + 1, d + SIZE);
      assert sk[Slot(c, SIZE)] == Some(b);
      HeldUpdate(sk, Slot(c, SIZE), b);
      HeldAt(sk, Slot(c, SIZE), b);
      hide Slot, Held, Word, Inc, Same;
    }

    /** The descriptor at cur_rx is always armed. */
    lemma Current()
      requires Valid()
      ensures skbuff.Length == ringp.Length == SIZE && d <= c < d + SIZE
      ensures Slot(cur, SIZE) == Slot(c, SIZE) && ringp[Slot(c, SIZE)].Some?
    {
      WordSlot(c, SIZE);
      hide Slot, Word;
    }

    /** The end-of-list descriptor is the last armed one. */
    lemma LastArmed()
      requires Valid() && ringp[Slot(c, SIZE)] == Some(lastRxf)
      ensures c + 1 == d + SIZE
    {
      hide Slot;
      assert ringp[..][Slot(c, SIZE)] == Some(lastRxf);
    }

    /** The frames taken since there were `n` of them are those in the slots from `from` on. */
    ghost predicate TakenFrom(n: nat, rp: seq<Option<B>>, from: nat)
      reads this`taken, this`c
    {
      && |rp| == SIZE && n <= |taken| && |taken| - n == c - from
      && forall k {:trigger Slot(k, SIZE)} :: from <= k < c ==> rp[Slot(k, SIZE)] == Some(taken[n + k - from].b)
    }

    /** One more frame, in an armed slot, and a slot refilled if the last refill did not fail. */
    method TakeOne(b: B, refill: bool, ghost n: nat, ghost rp: seq<Option<B>>, ghost from: nat, ghost to: nat)
      returns (ok: bool)
      requires Valid() && ringp[Slot(c, SIZE)] == Some(b) && b != lastRxf && b in complete
      requires TakenFrom(n, rp, from) && Same(ringp[..], rp, c, to) && from <= c < to <= d + SIZE
      modifies this`cur, this`c, this`eol, this`complete, this`lastRxf, this`dirty, this`d, this`pool,
        this`up, this`delivered, this`taken, skbuff, ringp
      ensures Valid() && c == old(c) + 1 && old(taken) <= taken
      ensures TakenFrom(n, rp, from) && Same(ringp[..], rp, c, to)
      ensures d == old(d) + (if ok then 1 else 0) && (ok ==> refill) && (refill && !ok ==> pool == {})
    {
      assert rp[Slot(c, SIZE)] == Some(b);
      hide Slot, Valid, Same, Refilled;
      ghost var rp0 := ringp[..];
      TakeFrame(b);
      SameThen(ringp[..], rp0, rp, c, c - 1, d + SIZE, to);
      ok := false;
      if refill {
        ghost var rp1, d1 := ringp[..], d;
        ghost var f;
        ok, f := RefillRxBuf(false);
        SameThen(ringp[..], rp1, rp, c, c, d1 + SIZE, to);
      }
    }

    /** Why the loop of speedo_rx ends: it went past all slots that were armed when it began, it came to the end of the
        list, or to a descriptor that is not complete. */
    ghost predicate Ended(armed: nat)
      reads this`c, this`lastRxf, this`complete, ringp
      requires ringp.Length == SIZE
    {
      var b := ringp[Slot(c, SIZE)];
      b.Some? && (c == armed || (b.value in complete && b.value == lastRxf) || b.value !in complete)
    }

    /** The loop of speedo_rx, while the chip goes on receiving and the upper layers return buffers. It takes the frames
        of the slots from cur_rx on, in order, and refills one slot for each of them until the pool runs out. */
    method TakeFrames() returns (ghost starved: bool)
      requires Valid()
      modifies this`cur, this`c, this`eol, this`complete, this`good, this`lastRxf, this`dirty, this`d, this`pool,
        this`up, this`delivered, this`taken, skbuff, ringp
      ensures Valid() && old(c) <= c <= old(d) + SIZE && old(d) <= d && old(taken) <= taken
      ensures TakenFrom(|old(taken)|, old(ringp[..]), old(c)) && (starved || d - old(d) == c - old(c))
      ensures Ended(old(d) + SIZE)
    {
      Waiting();
      Current();
      ghost var n, rp, from, to := |taken|, ringp[..], c, d + SIZE;
      SameSelf(rp, from, to);
      hide Slot, SignedDiff, Valid, Same;
      var limit := SIZE - SignedDiff(cur, dirty);      // dirty_rx + RX_RING_SIZE - cur_rx
      var allocOk := true;
      starved := false;
      while ringp[Slot(cur, SIZE)] != None
        invariant Valid() && skbuff.Length == ringp.Length == SIZE && Slot(cur, SIZE) == Slot(c, SIZE)
        invariant 0 <= limit <= SIZE && limit == to - c && from <= c && old(d) <= d && old(taken) <= taken
        invariant TakenFrom(n, rp, from) && Same(ringp[..], rp, c, to)
        invariant (starved <==> !allocOk) && (starved || d - old(d) == c - from)
        decreases limit
      {
        Meanwhile();
        var b := ringp[Slot(cur, SIZE)].value;
        if b !in complete {
          break;
        }
        limit := limit - 1;
        if limit < 0 {
          break;
        }
        if lastRxf == b {
          break;                        // RrPostponed
        }
        var asked := allocOk;
        allocOk := TakeOne(b, allocOk, n, rp, from, to);
        starved := starved || (asked && !allocOk);
        Current();
      }
      Current();
    }

    /** speedo_rx: the loop, and the ring refilled as far as there are buffers. */
    method Rx()
      requires Valid()
      modifies this`cur, this`c, this`eol, this`complete, this`good, this`lastRxf, this`dirty, this`d, this`pool,
        this`up, this`delivered, this`taken, skbuff, ringp
      ensures Valid() && old(c) <= c <= old(d) + SIZE && old(d) <= d && old(taken) <= taken
      ensures TakenFrom(|old(taken)|, old(ringp[..]), old(c))
      ensures d < c ==> pool == {} && NothingForward()
      ensures c < old(d) + SIZE - 1 ==> ringp[Slot(c, SIZE)].Some? && ringp[Slot(c, SIZE)].value !in complete
    {
      hide Slot, Valid, NothingForward;
      ghost var starved := TakeFrames();
      Waiting();
      if c < old(d) + SIZE - 1 {
        EndTells(old(d));
      }
      RefillRxBuffers(true);
    }

    lemma EndTells(d0: nat)
      requires Valid() && Ended(d0 + SIZE) && d0 <= d && c < d0 + SIZE - 1
      ensures ringp.Length == SIZE && ringp[Slot(c, SIZE)].Some? && ringp[Slot(c, SIZE)].value !in complete
    {
      if ringp[Slot(c, SIZE)] == Some(lastRxf) {
        LastArmed();
      }
    }

    lemma Waiting()
      requires Valid()
      ensures d <= c < d + SIZE && SignedDiff(cur, dirty) == c - d && cur == Word(c)
      ensures skbuff.Length == ringp.Length == SIZE
    {
      DiffCounts(c, d);
      hide Slot, SignedDiff, Word;
    }

    /** Every armed slot holds a buffer, no buffer is in two slots, and the list of the chip ends at last_rxf, the
        buffer in the slot in front of dirty_rx, and nowhere before. */
    lemma RingTells()
      requires Valid()
      ensures skbuff.Length == ringp.Length == SIZE
      ensures forall k {:trigger Slot(k, SIZE)} :: c <= k < d + SIZE ==>
        var b := skbuff[Slot(k, SIZE)];
        b.Some? && ringp[Slot(k, SIZE)] == b && (b.value in eol <==> k == d + SIZE - 1)
      ensures forall i, j :: 0 <= i < j < SIZE && skbuff[i].Some? ==> skbuff[i] != skbuff[j]
      ensures ringp[Slot(d + SIZE - 1, SIZE)] == Some(lastRxf)
    {
      hide Slot;
      ghost var sk := skbuff[..];
      assert Distinct(sk);
      assert forall i :: 0 <= i < SIZE ==> sk[i] == skbuff[i];
    }
  }

  // --- Every interleaving ----------------------------------------------------------------------

  datatype Event = Receive | Refill | Other

  /** Any sequence of receive interrupts, refills and moves of the chip and the upper layers: the ring stays in order,
      at least one slot is always armed, and no buffer is lost or in two places. */
  method AnySchedule<B>(ring: RxRing<B>, events: seq<Event>)
    requires ring.Valid()
    modifies ring, ring.skbuff, ring.ringp
    ensures ring.Valid()
    ensures 0 <= SignedDiff(ring.cur, ring.dirty) < SIZE
    ensures Held(ring.skbuff[..]) + ring.pool + ring.up == ring.all
    ensures old(ring.taken) <= ring.taken && ring.delivered == Goods(ring.taken)
    ensures ring.cur == Word(|ring.taken|) && forall i :: 0 <= i < |ring.taken| ==> ring.taken[i].complete
  {
    hide RxRing.Armed, Held;
    for i := 0 to |events|
      invariant ring.Valid() && old(ring.taken) <= ring.taken
    {
      match events[i]
      case Receive => ring.Rx();
      case Refill => ring.RefillRxBuffers(false);
      case Other => ring.Meanwhile();
    }
    ring.Waiting();
    WordStart(|ring.taken|);
  }

  lemma WordStart(n: nat)
    ensures Word(0x1_0000_0000 + n) == Word(n)
  {
  }

  lemma InitOk<B>(sk: seq<Option<B>>, rp: seq<Option<B>>, n: nat, last: B)
    requires |sk| == |rp| == SIZE && 0 < n <= SIZE && Distinct(sk)
    requires forall j :: 0 <= j < n ==> sk[j].Some? && rp[j] == sk[j]
    requires forall j :: n <= j < SIZE ==> sk[j] == None
    requires sk[n - 1] == Some(last)
    ensures RingOk(sk, rp, 0x1_0000_0000, 0x1_0000_0000 + n - SIZE, last, {last})
  {
    assert forall j {:trigger sk[j]} :: 0 <= j < n - 1 ==> sk[j] != sk[n - 1];
  }

  lemma EmptyOk<B>(sk: seq<Option<B>>, rp: seq<Option<B>>, cur: nat, dirty: nat, last: B, eol: set<B>)
    requires RingOk(sk, rp, cur, dirty, last, eol) && dirty < cur && sk[Slot(dirty, SIZE)] == None
    ensures RingOk(sk, rp[Slot(dirty, SIZE) := None], cur, dirty, last, eol)
  {
    SlotsDistinct(dirty, dirty, SIZE);
    hide Slot;
  }
}
