/**
 The command list of rt_eepro100: a ring of command blocks that the chip follows on its own.

 The last command always carries the Suspend bit. To add one, the driver writes it with Suspend set, then clears
 Suspend in the previous last command and tells the chip to resume; these two are one step here, as the driver
 requires ("only safe if we do it immediately after"). Between any two driver steps the chip may run as far as
 it can.
 */
module SpeedoTx {
  import opened Wrappers
  import opened Ring

  /** TX_RING_SIZE, TX_QUEUE_LIMIT, TX_QUEUE_UNFULL, TX_MULTICAST_SIZE */
  const SIZE := 32
  const QUEUE_LIMIT := 28
  const QUEUE_UNFULL := 24
  const MULTICAST_SIZE := 2

  datatype Command<Skb> = IaSetup | Transmit(skb: Skb) | Configure | MulticastList {
    function Buffer(): Option<Skb> {
      if Transmit? then Some(skb) else None
    }
  }

  datatype Descriptor<Skb> = Descriptor(cmd: Command<Skb>, suspend: bool, intr: bool, complete: bool, link: nat)

  /** The buffers among the commands, in order. */
  function Buffers<Skb>(log: seq<Command<Skb>>): seq<Skb> {
    if log == [] then []
    else
      var n := |log| - 1;
      Buffers(log[..n]) + (if log[n].Transmit? then [log[n].skb] else [])
  }

  // --- The contents of the ring ----------------------------------------------------------------

  /** Where command `k` points: to the place behind its own. */
  function Link(k: nat): nat {
    Slot(k + 1, SIZE)
  }

  /** Every eighth block asks for an interrupt, if there is a packet in it. */
  predicate Asks<Skb>(cmd: Command<Skb>, k: nat) {
    cmd.Transmit? && k % 8 == 0
  }

  lemma SlotEighth(k: nat)
    ensures Slot(k, SIZE) % 8 == k % 8
  {
  }

  /** `d` is command number `k` of the log, of which the chip executed `n`. */
  predicate Describes<Skb(==)>(d: Descriptor<Skb>, log: seq<Command<Skb>>, k: nat, n: nat)
    requires k < |log|
  {
    && d.cmd == log[k]
    && (d.suspend <==> k == |log| - 1)
    && (d.complete <==> k < n || k == 0)
    && (d.intr <==> Asks(log[k], k))
    && d.link == Link(k)
  }

  /** The commands behind the first `tail` are on the ring; exactly the last one has Suspend set. */
  ghost predicate OnRing<Skb>(ring: seq<Descriptor<Skb>>, log: seq<Command<Skb>>, tail: nat, n: nat) {
    && |ring| == SIZE && tail <= n <= |log| <= tail + SIZE && log != []
    && forall k {:trigger Slot(k, SIZE)} :: tail <= k < |log| ==> Describes(ring[Slot(k, SIZE)], log, k, n)
  }

  lemma ExecuteOnRing<Skb>(ring: seq<Descriptor<Skb>>, log: seq<Command<Skb>>, tail: nat, n: nat)
    requires OnRing(ring, log, tail, n) && n < |log|
    ensures var s := Slot(n, SIZE);
      && Describes(ring[s], log, n, n)
      && OnRing(ring[s := ring[s].(complete := true)], log, tail, n + 1)
      && forall k {:trigger Slot(k, SIZE)} :: |log| <= k < tail + SIZE ==> Slot(k, SIZE) != s
  {
    SlotsDistinct(tail, n, SIZE);
    hide Slot, Link;
  }

  lemma StageOnRing<Skb>(ring: seq<Descriptor<Skb>>, log: seq<Command<Skb>>, tail: nat, n: nat, d: Descriptor<Skb>)
    requires OnRing(ring, log, tail, n) && |log| < tail + SIZE
    ensures OnRing(ring[Slot(|log|, SIZE) := d], log, tail, n)
  {
    SlotsDistinct(tail, |log|, SIZE);
    hide Slot, Link;
  }

  lemma PublishOnRing<Skb>(ring: seq<Descriptor<Skb>>, log: seq<Command<Skb>>, tail: nat, n: nat, cmd: Command<Skb>)
    requires OnRing(ring, log, tail, n) && |log| < tail + SIZE
    requires var d := ring[Slot(|log|, SIZE)];
      d.cmd == cmd && d.suspend && !d.complete && (d.intr <==> Asks(cmd, |log|)) && d.link == Link(|log|)
    ensures var last := Slot(|log| - 1, SIZE);
      OnRing(ring[last := ring[last].(suspend := false)], log + [cmd], tail, n)
  {
    var h := |log|;
    SlotsDistinct(h - 1, h, SIZE);
    SlotsDistinct(tail, h, SIZE);
    if tail < h { SlotsDistinct(tail, h - 1, SIZE); }
    hide Slot, Link;
  }

  lemma ReclaimOnRing<Skb>(ring: seq<Descriptor<Skb>>, log: seq<Command<Skb>>, tail: nat, n: nat)
    requires OnRing(ring, log, tail, n) && tail < |log| && n > 0
    ensures ring[Slot(tail, SIZE)].complete <==> tail < n
    ensures tail < n ==> OnRing(ring, log, tail + 1, n)
  {
    hide Slot, Link;
  }

  /** The driver remembers the buffer of every packet on the ring and of nothing else. */
  ghost predicate Owned<Skb>(skbuff: seq<Option<Skb>>, log: seq<Command<Skb>>, tail: nat) {
    && |skbuff| == SIZE && tail <= |log| <= tail + SIZE
    && (forall k {:trigger Slot(k, SIZE)} :: tail <= k < |log| ==> skbuff[Slot(k, SIZE)] == log[k].Buffer())
    && (forall k {:trigger Slot(k, SIZE)} :: |log| <= k < tail + SIZE ==> skbuff[Slot(k, SIZE)] == None)
  }

  lemma AddOwned<Skb>(skbuff: seq<Option<Skb>>, log: seq<Command<Skb>>, tail: nat, cmd: Command<Skb>)
    requires Owned(skbuff, log, tail) && |log| < tail + SIZE
    ensures Owned(skbuff[Slot(|log|, SIZE) := cmd.Buffer()], log + [cmd], tail)
  {
    SlotsDistinct(tail, |log|, SIZE);
    hide Slot;
  }

  lemma FreeOwned<Skb>(skbuff: seq<Option<Skb>>, log: seq<Command<Skb>>, tail: nat)
    requires Owned(skbuff, log, tail) && tail < |log|
    ensures skbuff[Slot(tail, SIZE)] == log[tail].Buffer()
    ensures Owned(skbuff[Slot(tail, SIZE) := None], log, tail + 1)
  {
    SlotsDistinct(tail, tail, SIZE);
    SlotsMeet(tail, tail + SIZE, SIZE);
    hide Slot;
  }

  lemma BuffersNext<Skb>(log: seq<Command<Skb>>, tail: nat)
    requires tail < |log|
    ensures Buffers(log[..tail + 1]) ==
            Buffers(log[..tail]) + (if log[tail].Transmit? then [log[tail].skb] else [])
  {
    assert log[..tail + 1][..tail] == log[..tail];
  }

  /** Every eighth packet raised an interrupt, and so did the command at which the chip stopped. */
  ghost predicate Raised<Skb>(raised: seq<bool>, log: seq<Command<Skb>>, active: bool) {
    && |raised| <= |log|
    && (forall k :: 0 <= k < |raised| && Asks(log[k], k) ==> raised[k])
    && (!active && raised != [] ==> raised[|raised| - 1])
  }

  lemma RaisedNext<Skb>(raised: seq<bool>, log: seq<Command<Skb>>)
    requires Raised(raised, log, true) && |raised| < |log|
    ensures var n, last := |raised|, |raised| + 1 == |log|;
      Raised(raised + [Asks(log[n], n) || last], log, !last)
  {
  }

  lemma RaisedMore<Skb>(raised: seq<bool>, log: seq<Command<Skb>>, active: bool, cmd: Command<Skb>)
    requires Raised(raised, log, active)
    ensures Raised(raised, log + [cmd], true)
  {
  }

  // --- Driver and chip -------------------------------------------------------------------------

  class CommandList<Skb(==)> {
    const ring: array<Descriptor<Skb>>
    const skbuff: array<Option<Skb>>
    var cur: u32                        // cur_tx
    var dirty: u32                      // dirty_tx
    var lastCmd: nat                    // slot of last_cmd
    var full: bool                      // tx_full
    var stopped: bool                   // the transmit queue of the device
    var rxMode: int
    var freed: seq<Skb>
    // the chip
    var cu: nat                         // slot of the next command to execute
    var active: bool
    var event: bool                     // CX or CNA interrupt raised and not yet handled
    var executed: seq<Command<Skb>>
    // history
    ghost var raised: seq<bool>         // whether each of these raised the interrupt
    ghost var log: seq<Command<Skb>>    // the commands added
    ghost var reclaimed: nat            // how many of them were scavenged

    /** The chip executed a prefix of the commands, in order; it stopped only if that is all of them. */
    ghost predicate Consistent(tail: nat)
      reads this`log, this`cu, this`active, this`event, this`executed, this`raised, ring
    {
      && OnRing(ring[..], log, tail, |executed|)
      && |executed| <= |log| && executed == log[..|executed|]
      && cu == Slot(|executed|, SIZE)
      && (active <==> |executed| < |log|)
      && (event ==> executed != [])
      && Raised(raised, log, active) && |raised| == |executed|
    }

    /** While no interrupt is pending, none of the commands behind the first `n` has raised one. */
    ghost predicate Heard(n: nat)
      reads this`event, this`raised
    {
      !event ==> forall k :: n <= k < |raised| ==> !raised[k]
    }

    ghost predicate Valid()
      reads this`cur, this`dirty, this`lastCmd, this`freed, this`cu, this`active, this`event, this`executed,
            this`log, this`reclaimed, this`raised, this`full, this`stopped, ring, skbuff
    {
      Collected(dirty) && Heard(reclaimed) && (stopped <==> full) && (full ==> |log| - reclaimed >= QUEUE_UNFULL)
    }

    /** All of the commands behind `t` (dirty_tx, or its copy in the scavenge loop) are on the ring. */
    ghost predicate Collected(t: u32)
      reads this`cur, this`lastCmd, this`freed, this`cu, this`active, this`event, this`executed,
            this`log, this`reclaimed, this`raised, ring, skbuff
    {
      && ring.Length == skbuff.Length == SIZE && log != []
      && Consistent(reclaimed) && Owned(skbuff[..], log, reclaimed)
      && cur == Word(|log|) && t == Word(reclaimed)
      && lastCmd == Slot(|log| - 1, SIZE)
      && reclaimed <= |log| && freed == Buffers(log[..reclaimed])
    }

    /** speedo_resume: the address setup, marked complete from the start, and the chip started on it. */
    constructor ()
      ensures Valid() && log == [IaSetup] && executed == [] && !full && !stopped && rxMode == -1
      ensures fresh(ring) && fresh(skbuff)
    {
      ring := new Descriptor<Skb>[SIZE](_ => Descriptor(IaSetup, true, false, true, 1));
      skbuff := new Option<Skb>[SIZE](_ => None);
      cur, dirty, lastCmd, full, stopped, rxMode, freed := 1, 0, 0, false, false, -1, [];
      cu, active, event, executed := 0, true, false, [];
      log, reclaimed, raised := [IaSetup], 0, [];
    }

    /** The chip executes commands, any number of them, until it meets Suspend. It leaves the free blocks alone. */
    method Chip(ghost tail: nat, ghost heard: nat)
      requires ring.Length == SIZE && Consistent(tail) && Heard(heard)
      modifies this`cu, this`active, this`event, this`executed, this`raised, ring
      ensures Consistent(tail) && Heard(heard) && old(executed) <= executed
      ensures old(event) ==> event
      ensures forall k {:trigger Slot(k, SIZE)} :: |log| <= k < tail + SIZE ==>
        ring[Slot(k, SIZE)] == old(ring[Slot(k, SIZE)])
    {
      hide Slot, OnRing, Raised;
      var going := *;
      while going && active
        invariant Consistent(tail) && Heard(heard) && old(executed) <= executed && (old(event) ==> event)
        invariant forall k {:trigger Slot(k, SIZE)} :: |log| <= k < tail + SIZE ==>
          ring[Slot(k, SIZE)] == old(ring[Slot(k, SIZE)])
        decreases |log| - |executed|
      {
        Execute(tail, heard);
        going := *;
      }
    }

    method Execute(ghost tail: nat, ghost heard: nat)
      requires ring.Length == SIZE && Consistent(tail) && Heard(heard) && active
      modifies this`cu, this`active, this`event, this`executed, this`raised, ring
      ensures Consistent(tail) && Heard(heard) && executed == old(executed) + [log[|old(executed)|]]
      ensures raised == old(raised) + [Asks(log[|old(executed)|], |old(executed)|) || executed == log]
      ensures event <==> old(event) || raised[|raised| - 1]
      ensures forall k {:trigger Slot(k, SIZE)} :: |log| <= k < tail + SIZE ==>
        ring[Slot(k, SIZE)] == old(ring[Slot(k, SIZE)])
    {
      hide Slot, OnRing, Raised, Asks;
      ExecuteOnRing(ring[..], log, tail, |executed|);
      RaisedNext(raised, log);
      var d := ring[cu];
      ring[cu] := d.(complete := true);
      assert ring[..] == old(ring[..])[cu := d.(complete := true)];
      executed := executed + [d.cmd];
      cu := d.link;
      if d.suspend {
        active := false;
      }
      event := event || d.suspend || d.intr;
      raised := raised + [d.suspend || d.intr];
      assert executed == log[..|executed|];
      assert executed == log <==> |executed| == |log|;
    }

    /** clear_suspend and CUResume: the new command, already written behind the last one, becomes the last one. */
    method Publish(entry: nat, cmd: Command<Skb>)
      requires ring.Length == SIZE && Consistent(reclaimed) && log != [] && |log| < reclaimed + SIZE
      requires lastCmd == Slot(|log| - 1, SIZE) && entry == Slot(|log|, SIZE)
      requires var d := ring[entry];
        d.cmd == cmd && d.suspend && !d.complete && (d.intr <==> Asks(cmd, |log|)) && d.link == Link(|log|)
      modifies this`log, this`lastCmd, this`active, ring
      ensures Consistent(reclaimed) && log == old(log) + [cmd] && lastCmd == entry
    {
      PublishOnRing(ring[..], log, reclaimed, |executed|, cmd);
      RaisedMore(raised, log, active, cmd);
      hide Slot, OnRing, Raised;
      ghost var d := ring[lastCmd].(suspend := false);
      ring[lastCmd] := ring[lastCmd].(suspend := false);
      assert ring[..] == old(ring[..])[lastCmd := d];
      active := true;
      lastCmd := entry;
      log := log + [cmd];
    }

    /** The new command, written into the free block behind the last one. */
    method Stage(cmd: Command<Skb>, intr: bool) returns (entry: nat)
      requires Valid() && |log| < reclaimed + SIZE && (intr <==> Asks(cmd, |log|))
      modifies this`cur, ring, skbuff
      ensures Consistent(reclaimed) && Owned(skbuff[..], log + [cmd], reclaimed)
      ensures cur == Word(|log| + 1) && entry == Slot(|log|, SIZE)
      ensures ring[entry] == Descriptor(cmd, true, intr, false, Link(|log|))
    {
      hide Slot, OnRing, Owned, Word, Inc, Buffers;
      ghost var n := |log|;
      WordSlot(n, SIZE);
      WordSlot(n + 1, SIZE);
      IncCounts(n);
      AddOwned(skbuff[..], log, reclaimed, cmd);
      ghost var d := Descriptor(cmd, true, intr, false, Link(n));
      StageOnRing(ring[..], log, reclaimed, |executed|, d);
      entry := Slot(cur, SIZE);
      cur := Inc(cur);
      skbuff[entry] := cmd.Buffer();
      assert skbuff[..] == old(skbuff[..])[entry := cmd.Buffer()];
      ring[entry] := Descriptor(cmd, true, intr, false, Slot(cur, SIZE));
      assert ring[..] == old(ring[..])[entry := d];
    }

    /** The part speedo_start_xmit and set_rx_mode share. */
    method Add(cmd: Command<Skb>, intr: bool)
      requires Valid() && |log| < reclaimed + SIZE && (intr <==> Asks(cmd, |log|))
      modifies this`cur, this`lastCmd, this`log, this`cu, this`active, this`event, this`executed, this`raised, ring,
        skbuff
      ensures Valid() && log == old(log) + [cmd] && old(executed) <= executed
      ensures old(event) ==> event
    {
      hide Slot, OnRing, Owned, Word, Inc, Buffers;
      var entry := Stage(cmd, intr);
      Chip(reclaimed, reclaimed);
      Publish(entry, cmd);
      assert log[..reclaimed] == old(log)[..reclaimed];
    }

    /** How the driver's fill test reads. */
    lemma InUse()
      requires Collected(dirty)
      ensures reclaimed <= |executed| <= |log| <= reclaimed + SIZE
      ensures SignedDiff(cur, dirty) == |log| - reclaimed
      ensures executed == log[..|executed|] && (!active <==> executed == log)
      ensures freed == Buffers(log[..reclaimed])
    {
      DiffCounts(|log|, reclaimed);
      hide Slot, Word, SignedDiff, Owned, Buffers;
    }

    /** Among the commands the chip has still to execute, last_cmd is the only one with Suspend set, and each of the
        others links to the next: the chip never runs past the last command given. */
    lemma SuspendTells()
      requires Valid()
      ensures ring.Length == SIZE && log != [] && lastCmd == Slot(|log| - 1, SIZE)
      ensures forall k {:trigger Slot(k, SIZE)} :: |executed| <= k < |log| ==>
        var e := ring[Slot(k, SIZE)];
        e.cmd == log[k] && (e.suspend <==> k == |log| - 1) && e.link == Link(k)
    {
      hide Slot, Link, Word, Owned, Buffers;
    }

    lemma EveryEighth()
      requires Valid()
      ensures Slot(cur, SIZE) % (SIZE / 4) == |log| % 8
    {
      hide Slot, Word, OnRing, Owned, Buffers, Raised;
      WordSlot(|log|, SIZE);
      SlotEighth(|log|);
    }

    /** speedo_start_xmit, with the command accepted by the chip. A packet is taken only while fewer than
        TX_QUEUE_LIMIT commands are in use; a result of 1 leaves it to the caller. */
    method StartXmit(skb: Skb) returns (rc: nat)
      requires Valid()
      modifies this`cur, this`lastCmd, this`log, this`cu, this`active, this`event, this`executed, this`raised,
        this`full, this`stopped, ring, skbuff
      ensures Valid() && old(executed) <= executed
      ensures rc == if |old(log)| - reclaimed < 28 then 0 else 1
      ensures log == if rc == 0 then old(log) + [Transmit(skb)] else old(log)
      ensures if |log| - reclaimed >= 28 then full && stopped else full == old(full) && stopped == old(stopped)
    {
      InUse();
      hide Slot, SignedDiff, Valid;
      if SignedDiff(cur, dirty) >= QUEUE_LIMIT {
        stopped, full := true, true;
        return 1;
      }
      EveryEighth();
      AddAndCheck(Transmit(skb), Slot(cur, SIZE) % (SIZE / 4) == 0);
      return 0;
    }

    /** set_rx_mode: up to two commands, and only if both still fit. */
    method SetRxMode(mode: nat)
      requires Valid()
      modifies this`cur, this`lastCmd, this`log, this`cu, this`active, this`event, this`executed, this`raised,
        this`full, this`stopped, this`rxMode, ring, skbuff
      ensures Valid() && old(executed) <= executed
      ensures |old(log)| - reclaimed > 30 ==> log == old(log) && rxMode == -1
      ensures |old(log)| - reclaimed <= 30 ==>
        && rxMode == mode
        && log == old(log) + (if mode != old(rxMode) then [Configure] else [])
                           + (if mode == 0 then [MulticastList] else [])
    {
      hide Slot, SignedDiff, Collected, Heard;
      InUse();
      if SignedDiff(cur, dirty) > SIZE - MULTICAST_SIZE {
        rxMode := -1;
        return;
      }
      AddIf(mode != rxMode, Configure);
      AddIf(mode == 0, MulticastList);
      rxMode := mode;
    }

    method AddIf(needed: bool, cmd: Command<Skb>)
      requires Valid() && |log| < reclaimed + SIZE && !cmd.Transmit?
      modifies this`cur, this`lastCmd, this`log, this`cu, this`active, this`event, this`executed, this`raised,
        this`full, this`stopped, ring, skbuff
      ensures Valid() && old(executed) <= executed
      ensures log == old(log) + (if needed then [cmd] else [])
    {
      hide Valid;
      if needed {
        AddAndCheck(cmd, false);
      }
    }

    /** One more command, and the queue stopped if that reaches the limit. */
    method AddAndCheck(cmd: Command<Skb>, intr: bool)
      requires Valid() && |log| < reclaimed + SIZE && (intr <==> Asks(cmd, |log|))
      modifies this`cur, this`lastCmd, this`log, this`cu, this`active, this`event, this`executed, this`raised,
        this`full, this`stopped, ring, skbuff
      ensures Valid() && log == old(log) + [cmd] && old(executed) <= executed
      ensures if |log| - reclaimed >= QUEUE_LIMIT then full && stopped else full == old(full) && stopped == old(stopped)
    {
      hide SignedDiff, Collected, Heard;
      Add(cmd, intr);
      InUse();
      if SignedDiff(cur, dirty) >= QUEUE_LIMIT {
        stopped, full := true, true;
      }
    }

    /** One scavenged command. */
    method Scavenge(t: u32) returns (t': u32)
      requires Collected(t) && reclaimed < |executed|
      modifies this`freed, this`reclaimed, skbuff
      ensures Collected(t') && reclaimed == old(reclaimed) + 1
    {
      hide Slot, Word, Inc, OnRing, Owned, Buffers;
      WordSlot(reclaimed, SIZE);
      IncCounts(reclaimed);
      ReclaimOnRing(ring[..], log, reclaimed, |executed|);
      FreeOwned(skbuff[..], log, reclaimed);
      BuffersNext(log, reclaimed);
      FreeBuffer(Slot(t, SIZE));
      t' := Inc(t);
      reclaimed := reclaimed + 1;
    }

    method FreeBuffer(entry: nat)
      requires entry < skbuff.Length
      modifies this`freed, skbuff
      ensures skbuff[..] == old(skbuff[..])[entry := None]
      ensures freed == old(freed) + (if old(skbuff[entry]).Some? then [old(skbuff[entry]).value] else [])
    {
      if skbuff[entry].Some? {
        freed := freed + [skbuff[entry].value];
        skbuff[entry] := None;
      }
    }

    method ChipMeanwhile(ghost t: u32, ghost heard: nat)
      requires Collected(t) && Heard(heard)
      modifies this`cu, this`active, this`event, this`executed, this`raised, ring
      ensures Collected(t) && Heard(heard) && old(executed) <= executed
    {
      hide Slot, Word, OnRing, Owned, Buffers;
      Chip(reclaimed, heard);
    }

    /** What the scavenge loop reads. */
    lemma ScavengeTest(t: u32)
      requires Collected(t) && executed != []
      ensures ring.Length == SIZE && reclaimed <= |executed| <= |log|
      ensures SignedDiff(cur, t) > 0 <==> reclaimed < |log|
      ensures reclaimed < |log| ==> (ring[Slot(t, SIZE)].complete <==> reclaimed < |executed|)
    {
      DiffCounts(|log|, reclaimed);
      WordSlot(reclaimed, SIZE);
      if reclaimed < |log| {
        ReclaimOnRing(ring[..], log, reclaimed, |executed|);
      }
      hide Slot, Word, SignedDiff, Owned, Buffers;
    }

    /** speedo_tx_buffer_gc, while the chip runs on: frees the buffers of all commands executed before it started and
        of none that is not executed. It runs from an interrupt that says the chip executed something. */
    method TxBufferGc()
      requires Collected(dirty) && Heard(|executed|) && executed != []
      modifies this`dirty, this`freed, this`reclaimed, this`cu, this`active, this`event, this`executed, this`raised,
        ring, skbuff
      ensures Collected(dirty) && Heard(reclaimed) && old(executed) <= executed
      ensures |old(executed)| <= reclaimed <= |executed|
      ensures old(reclaimed) <= reclaimed
    {
      hide Slot, SignedDiff, Collected;
      var t: u32 := dirty;
      ghost var heard := |executed|;
      ChipMeanwhile(t, heard);
      ScavengeTest(t);
      while SignedDiff(cur, t) > 0
        invariant ring.Length == SIZE && Collected(t) && Heard(heard)
        invariant old(reclaimed) <= reclaimed <= |executed| <= |log| && old(executed) <= executed
        invariant SignedDiff(cur, t) > 0 <==> reclaimed < |log|
        invariant reclaimed < |log| ==> (ring[Slot(t, SIZE)].complete <==> reclaimed < |executed|)
        decreases |log| - reclaimed
      {
        if !ring[Slot(t, SIZE)].complete {
          break;
        }
        t := Scavenge(t);
        ChipMeanwhile(t, heard);
        ScavengeTest(t);
      }
      dirty := t;
    }

    method Acknowledge()
      requires Valid() && event
      modifies this`event
      ensures Collected(dirty) && Heard(|executed|) && executed != [] && !event
    {
      hide Slot, Word, OnRing, Owned, Buffers, Raised;
      event := false;
    }

    /** The transmit part of speedo_interrupt. */
    method Interrupt()
      requires Valid()
      modifies this`dirty, this`freed, this`reclaimed, this`cu, this`active, this`event, this`executed, this`raised,
        this`full, this`stopped, ring, skbuff
      ensures Valid() && old(executed) <= executed && old(reclaimed) <= reclaimed
      ensures old(event) ==> |old(executed)| <= reclaimed
      ensures !old(event) ==> reclaimed == old(reclaimed) && executed == old(executed) && !event
      ensures if old(event) && old(full) && |log| - reclaimed < 24 then !full && !stopped
              else full == old(full) && stopped == old(stopped)
    {
      hide SignedDiff, Collected, Heard;
      if event {
        Acknowledge();
        TxBufferGc();
        InUse();
        if full && SignedDiff(cur, dirty) < QUEUE_UNFULL {
          full, stopped := false, false;
        }
      }
    }

    /** A stopped queue is woken again: the chip is at work or its interrupt is pending. And while no interrupt is
        pending, no eighth packet lies among the commands that wait to be reclaimed. */
    lemma NoLostWakeup()
      requires Valid()
      ensures stopped ==> active || event
      ensures !event && !active ==> reclaimed == |log|
      ensures !event ==> forall k :: reclaimed <= k < |executed| ==> !Asks(log[k], k)
    {
      hide Slot, Word, OnRing, Owned, Buffers;
    }
  }

  // --- Every interleaving ----------------------------------------------------------------------

  datatype Event<Skb> = Xmit(skb: Skb) | Mode(mode: nat) | Irq | Run

  /** Any schedule of packets, mode changes, interrupts and chip progress: what the chip executed is always a prefix
      of what the driver added, at most TX_RING_SIZE commands are in use, exactly the packets scavenged were freed,
      and the chip is idle only if it executed everything. */
  method AnySchedule<Skb(==)>(list: CommandList<Skb>, events: seq<Event<Skb>>)
    requires list.Valid()
    modifies list, list.ring, list.skbuff
    ensures list.Valid()
    ensures list.executed <= list.log && |list.log| - list.reclaimed <= 32
    ensures list.reclaimed <= |list.executed| && list.freed == Buffers(list.log[..list.reclaimed])
    ensures !list.active <==> list.executed == list.log
    ensures list.stopped ==> list.active || list.event
    ensures !list.event && !list.active ==> list.reclaimed == |list.log|
    ensures old(list.executed) <= list.executed && old(list.log) <= list.log
  {
    hide CommandList.Collected;
    for i := 0 to |events|
      invariant list.Valid() && old(list.executed) <= list.executed && old(list.log) <= list.log
    {
      match events[i]
      case Xmit(skb) =>
        var rc := list.StartXmit(skb);
      case Mode(mode) =>
        list.SetRxMode(mode);
      case Irq =>
        list.Interrupt();
      case Run =>
        list.ChipMeanwhile(list.dirty, list.reclaimed);
    }
    list.InUse();
    list.NoLostWakeup();
  }
}
