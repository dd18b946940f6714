# RTnet: fragmentation, descriptor rings, device registry

A Dafny model of the parts of RTnet whose correctness rests on state shared between several
parties: the IP-over-1394 driver that cuts datagrams into link fragments in place and puts them
together again, the descriptor rings that five Ethernet drivers share with a DMA engine, the
device registry with its reference counts and DMA addresses, the scatter/gather loops, and the
multicast hash that two drivers compute in opposite bit orders.

`dafny verify dfyconfig.toml` covers the whole project.

## How the model is built

* One module per driver part. Code that updates fields, arrays and lists in place is a class with
  methods; the other party (chip, DMA controller, other threads) is a method of the same class.
  It is called in the rounds of every loop of the driver that looks at what it does.
* Ring positions are counted without wrap-around beside the fields of the driver, and `Ring.Slot`
  and `Ring.Word` take a count to a slot and to a 32-bit counter. Each ring has a predicate over
  plain sequences and one small lemma per kind of update; the methods only apply them.
* Every ring and the registry end in a method that runs an arbitrary sequence of calls and chip
  steps (`AnySchedule`, `AnyRun`); its postcondition is what holds in every reachable state.
* A branch of the driver that cannot happen, or that is left out below, is an `if` with
  `assert false` in it.

### IP over 1394

`Eth1394Header` states the header layout of section 4.2 of RFC 2734 byte by byte and proves that a
host of either byte order emits exactly that layout and reads it back. `Eth1394Sender` is the
packet task: `Wire` is the specification (the packets of a datagram, as values), and the class
runs one step per completion callback on one shared buffer. `Eth1394Fragments` is the interval
list of one datagram, `Eth1394Receiver` the list of partial datagrams of a node, and
`Eth1394Runs` speaks about whole runs of arrivals, with datagrams interleaved in any way, memory
that runs out, and entries that are driven out of a full list. `Eth1394RoundTrip` closes the
circle: `SendAndReceive` runs the sender's class and feeds what it put on the bus, broadcast or
not, to the receiver's class. `Eth1394Labels` is about the labels by which a receiver tells the
datagrams of one sender apart.

### Results about the code that a reader may not expect

* Reassembly does not complete for every arrival order, although section 4.3 of RFC 2734 has
  fragments arrive in any order. `new_fragment` decides at the first list entry it meets. It
  completes exactly when each fragment that lands above a hole lands below everything else that
  lies above that hole (`CompletesIff`, `DeliveredIff`); `StuckOrder` is a datagram of four
  fragments that never completes. Orders whose prefixes are one interval, such as sender order
  and its reverse, always complete.
* An empty datagram is announced as no packet and sent as one (`AnnouncedCount`).
* Section 4.2 of RFC 2734 reserves the nibble in front of the fragment offset. The driver does not
  clear it: it carries the top nibble of the ether type as the sender stored it, and is zero
  exactly for datagrams in one packet and stored types below 0x1000 (`ReservedZeroIff`). A
  little-endian host that sends IPv6 puts 0xD there (`ReservedSet`). The receiver ignores it, so
  the round trip holds.
* With a full list of partial datagrams, a datagram in progress is lost to the first fragment of a
  new one if it was not touched for longest. It is never lost exactly if every arrival of another
  label, while it is open, finds that label open or leaves fewer than the maximum open, counted
  since its last fragment (`SurvivesIff`, `UndisturbedIff`). A datagram is delivered exactly if it
  was never lost and its fragments came in an orderly order (`DeliveredIff`, `DeliveredExactly`).
* A datagram whose bytes all came in fragments that are not first ones is delivered too, with the
  ether type that the memory of its entry happened to hold (`TypeSeen` in `DeliveredIff`).
* The sender draws labels from one counter per destination, the receiver looks at the label alone.
  The first fragmented datagram to a node and the first fragmented broadcast bear the same label
  (`FirstsCollide`); `CollideIff` says exactly which datagrams do, and `ToldApartIff` that the
  receiver tells a datagram from the others exactly if none of them does.
* Header sizes wrap: the packets of a datagram above 4096 bytes, which does not fit the 12-bit
  field, all name another size (`SizesTrueIff`).
* `rtdev_unmap_rtskb` returns early for a buffer without an address. A listed buffer leaves the
  list exactly when it has one (`UnmapRtskb`), and it has one as soon as a registered device has a
  map hook (`HookedMeansMapped`). `ListedAfterUnmap` is the run in which it stays listed.
* `rtdev_map_rtskb` does not undo the mappings of the devices it asked before one that refused. If
  such a device is unregistered and the buffer then mapped again, it is listed while the device that
  is gone still maps it (`StaleMapping`, `StaleRun`); `MapRids` says exactly when. The pool code
  does not map a buffer again that was refused.
* Masks of interface names that fit a name field always expand to distinct names. A longer mask
  passed to `rtdev_alloc_name` does so exactly when the conversion starts within the fifteen
  characters that are kept (`ExpansionsDistinctIff`).
* A registration that fails keeps the number it set in the device, and unregistering does not reset
  it. Unregistering such a device clears the slot of another one, held or not: `HeldDeviceCleared`
  and `UnregisteredTwice` are such runs. The test for number zero in `rt_unregister_rtnetdev` is an
  `RTNET_ASSERT`, which compiles to nothing unless `CONFIG_RTNET_CHECKED` is set
  (stack/include/rtnet_internal.h:35-45), and it is not by default (defconfig:19). Without it, a
  device that was refused for want of a slot and is then unregistered writes the word in front of
  the slots, and a loopback device takes the pointer to the registered one away
  (`RefusedThenUnregistered`, `LoopbackLost`). A round keeps the table exactly if the device is
  registered, or its number is zero in a checked build, or no occupied slot has its number and the
  device is not a loopback device beside the registered one (`UnregisterPoll`, for both builds).
* Drivers name a device at probe, without a lock and before they register it. Two devices probed one
  after the other get the same name, and the second is refused although slots and names are free
  (`NamedAlike`).
* Registering a registered device writes the number of a free slot into it before its own name is
  found taken (`RegisteredTwice`). The numbers of the table are kept exactly if the device was not
  registered, or no slot was free, or its version is refused (`Register`).
* After an underrun without a completion the MACB queue stays stopped even though the ring is
  empty (`MacbTx.TxRing.Tx` says exactly when it wakes up). The FEC queue stopped for a missing
  link is not woken by reclaiming unless the ring was full (`FecTx.TxRing.Reclaim`).
* `rtdev_xmit` (stack/rtdev.c:662-683) does not look at the stopped queue, which the FEC driver
  relies on. A submission keeps the ring exactly if it does not come between the end of the oldest
  frame of a full ring and its reclaim (`FecTx.TxRing.StartXmit`); otherwise a buffer is lost, as
  in the run `LosesFrame`.

## Model

| member | source | states |
|---|---|---|
| Eth1394Header.EmitIsWireFormat | drivers/rt_eth1394.h:119-194 | on hosts of either byte order, the header words go out as exactly the bytes RFC 2734 lays out for what they mean, with the reserved nibble as it is |
| Eth1394Header.HeaderLayout | drivers/rt_eth1394.h:92-194 | that layout in numbers: which code stands for which kind of packet, and where size, type, offset and label are |
| Eth1394Header.ParseInvertsHeader | drivers/rt_eth1394.c:935-991 | reading a header undoes writing it, for every header and payload, on either byte order |
| Eth1394Sender.PacketCount | drivers/rt_eth1394.c:1247-1247 | the announced packet count is the rounded-up quotient |
| Eth1394Sender.WireTiles | drivers/rt_eth1394.c:1250-1290 | the fragments follow each other without gap or overlap up to the end, none is empty or too long, only the last says that it is the last, and there are as many as announced |
| Eth1394Sender.TransmissionTiles | drivers/rt_eth1394.c:1229-1290 | the payloads joined are the datagram, and no packet exceeds the payload limit |
| Eth1394Sender.AnnouncedCount | drivers/rt_eth1394.c:1229-1248 | as many packets are sent as announced, exactly when the datagram is not empty |
| Eth1394Sender.PacketStamped | drivers/rt_eth1394.c:1229-1290 | the header words of every packet of every datagram, in numbers |
| Eth1394Sender.SizesTrueIff | drivers/rt_eth1394.c:1229-1290 | every packet of a fragmented datagram bears its label, and names its size exactly up to 4096 bytes |
| Eth1394Sender.ReservedZeroIff | drivers/rt_eth1394.c:1229-1290 | the reserved nibble of the later packets is zero exactly for a datagram in one packet or a stored ether type below 0x1000 |
| Eth1394Sender.ReservedSet | drivers/rt_eth1394.c:1229-1290 | a little-endian host that sends IPv6 in fragments sets it to 0xD |
| Eth1394Sender.PreparedMeaning | drivers/rt_eth1394.c:1229-1248 | the prepared header means what RFC 2734 asks for, and its size field is right exactly up to 4096 bytes |
| Eth1394Sender.ProgressIsPrefix | drivers/rt_eth1394.c:1447-1471 | in every state of a transmission the packets sent are a prefix of the specified ones, and more are outstanding exactly while it is a proper one |
| Eth1394Sender.NextFragment | drivers/rt_eth1394.c:1262-1290 | the step from one fragment to the next keeps that state |
| Eth1394Sender.PacketTask.EncapsulatePrep | drivers/rt_eth1394.c:1229-1248 | the header words and the packet count for a datagram |
| Eth1394Sender.PacketTask.Encapsulate | drivers/rt_eth1394.c:1250-1290 | the next header lands in front of the next payload, over bytes of the packet that was on the bus and nothing else |
| Eth1394Sender.PacketTask.WriteGasp | drivers/rt_eth1394.c:1339-1364 | the extra header of a broadcast lands in the eight bytes in front of the packet |
| Eth1394Sender.PacketTask.SendPacket | drivers/rt_eth1394.c:1339-1415 | the bus gets the bytes of the packet, in a broadcast behind the extra header; nothing but the eight bytes for that header is written |
| Eth1394Sender.PacketTask.SendFirst | drivers/rt_eth1394.c:1613-1621 | the first packet writes into the headroom only |
| Eth1394Sender.PacketTask.Tx | drivers/rt_eth1394.c:1547-1621 | the payload limit for the destination, and the first packet on the bus, for every size of datagram |
| Eth1394Sender.PacketTask.CompleteCb | drivers/rt_eth1394.c:1447-1471 | one more packet per callback, in order; the task ends after the last packet or at the first failure; only bytes of the packet just sent are overwritten, also in a broadcast |
| Eth1394Sender.PacketTask.Transmit | drivers/rt_eth1394.c:1447-1621 | a transmission that is not disturbed puts exactly the bytes of the specified packets on the bus, and what the header words, and those of a broadcast, are in numbers |
| Eth1394Fragments.FragmentOverlap | drivers/rt_eth1394.c:749-762 | reports an overlap exactly when some byte of the fragment is there already |
| Eth1394Fragments.NewFragment | drivers/rt_eth1394.c:777-828 | the loop over the list computes the recursive walk, and fails only for want of memory, with the list unchanged |
| Eth1394Fragments.WalkStopsAtHead | drivers/rt_eth1394.c:783-811 | for a fragment that overlaps nothing, only the first entry is ever compared |
| Eth1394Fragments.InsertKeepsSeparate | drivers/rt_eth1394.c:777-828 | the intervals stay disjoint |
| Eth1394Fragments.InsertCovers | drivers/rt_eth1394.c:777-828 | their union grows by exactly the bytes of the fragment |
| Eth1394Fragments.CollectedSound | drivers/rt_eth1394.c:777-828 | after any arrivals without overlap, in any order, the intervals are disjoint and cover exactly the bytes received |
| Eth1394Fragments.CompleteIsSound | drivers/rt_eth1394.c:905-912 | a list that counts as complete covers every byte of the datagram |
| Eth1394Fragments.AscendingIffOrderly | drivers/rt_eth1394.c:783-811 | the list is sorted exactly for orderly arrival orders |
| Eth1394Fragments.CompletesIff | drivers/rt_eth1394.c:777-912 | fragments that make up the datagram complete it exactly when they arrive in an orderly order |
| Eth1394Fragments.PartNeverCompletes | drivers/rt_eth1394.c:905-912 | no part of the fragments completes the datagram, whichever is missing |
| Eth1394Fragments.NeverEarly | drivers/rt_eth1394.c:905-912 | no proper part of the fragments completes the datagram |
| Eth1394Fragments.ContiguousIsOrderly | drivers/rt_eth1394.c:783-809 | arrivals whose prefixes are one interval are orderly |
| Eth1394Fragments.StuckOrder | drivers/rt_eth1394.c:783-811 | a concrete arrival order that covers all bytes and does not complete |
| Eth1394Receiver.PdgList.constructor | drivers/rt_eth1394.c:764-775 | a node starts with no partial datagram |
| Eth1394Receiver.PdgList.FindPartialDatagram | drivers/rt_eth1394.c:764-775 | finds the first entry with the label, or the end |
| Eth1394Receiver.PdgList.PurgePartialDatagram | drivers/rt_eth1394.c:890-903 | takes one entry out of the list |
| Eth1394Receiver.PdgList.NewPartialDatagram | drivers/rt_eth1394.c:830-869 | a new entry in front with the fragment in it, or nothing if memory is short |
| Eth1394Receiver.PdgList.UpdatePartialDatagram | drivers/rt_eth1394.c:871-888 | the fragment goes into its entry, which moves to the front |
| Eth1394Receiver.PdgList.Start | drivers/rt_eth1394.c:997-1012 | a new label: a full list gives up its last entry, also if there is no memory for the new one |
| Eth1394Receiver.PdgList.Join | drivers/rt_eth1394.c:1013-1043 | a known label: the entry takes the fragment in, or is lost if the fragment overlaps it or finds no memory |
| Eth1394Receiver.PdgList.DataHandler | drivers/rt_eth1394.c:992-1066 | the handler is the specified step on the list, and `sz` stays the length of the list |
| Eth1394Receiver.PdgList.Receive | drivers/rt_eth1394.c:920-1066 | from packet bytes: whole datagrams are handed up at once, fragments go through the step |
| Eth1394Receiver.PdgList.Iso | drivers/rt_eth1394.c:1163-1185 | a broadcast packet is handled behind its extra header, exactly if the channel and the specifier are ours |
| Eth1394Receiver.SpecifierTells | drivers/rt_eth1394.c:1173-1181 | the specifier is ours exactly if three bytes of the extra header are 00 00 5E |
| Eth1394Receiver.StepKeepsListOk | drivers/rt_eth1394.c:992-1066 | one step keeps labels unique, entries open and consistent, and the list within its bound |
| Eth1394Runs.RunBounded | drivers/rt_eth1394.c:992-1066 | so does every run of fragments that fit and do not overlap, and of overlapping ones for which there is no memory |
| Eth1394Runs.RunByRecency | drivers/rt_eth1394.c:764-775 | in every run the list is ordered by when each label was last touched |
| Eth1394Runs.EvictsLeastRecent | drivers/rt_eth1394.c:997-1002 | a full list gives up the label touched longest ago and keeps all others as they are |
| Eth1394Runs.StepIsLocal | drivers/rt_eth1394.c:992-1066 | a fragment changes its own datagram as if it were alone, or loses it; every other one stays as it is, but for the one that a new label evicts, exactly the last of a full list |
| Eth1394Runs.TracksGrown | drivers/rt_eth1394.c:871-888 | the buffer agrees with the datagram on every byte received, through every step |
| Eth1394Runs.DeliveredIff | drivers/rt_eth1394.c:920-1066 | among interleaved datagrams, with eviction and want of memory, the last fragment delivers exactly the original bytes if the order was orderly and the datagram was never lost, and nothing otherwise; with the original type if a first fragment came, else with what the entry held; nothing is delivered before |
| Eth1394Runs.FewOthersUndisturbed | drivers/rt_eth1394.c:992-1010 | with fewer than the maximum of other labels between its fragments nothing evicts a datagram, in any run |
| Eth1394Runs.RoomyUndisturbed | drivers/rt_eth1394.c:997-1002 | nor if new labels always find the list not full |
| Eth1394Runs.SurvivesIff | drivers/rt_eth1394.c:992-1010 | whatever the others do, a datagram is there exactly while every arrival since its last fragment found its own label open or left fewer than the maximum open |
| Eth1394Runs.UndisturbedIff | drivers/rt_eth1394.c:992-1043 | in any run, a datagram is never lost exactly if its fragments are saved and that holds after each of them |
| Eth1394Runs.DeliveredExactly | drivers/rt_eth1394.c:920-1066 | delivery decided by order of arrival, memory and the number of labels open in between |
| Eth1394RoundTrip.PacketMeans | drivers/rt_eth1394.c:935-991 | the receiver takes a packet of the sender for what it is |
| Eth1394RoundTrip.WireIsWhole | drivers/rt_eth1394.c:1250-1290 | the sender's packets make up the datagram, in an orderly order |
| Eth1394RoundTrip.RoundTripSingle | drivers/rt_eth1394.c:1229-1290 | a datagram that fits into one packet is read back from it |
| Eth1394RoundTrip.RoundTripFragmented | drivers/rt_eth1394.c:920-1290 | whatever else the node sends in between, a fragmented datagram is delivered at its last packet, and not before, exactly if it was never lost |
| Eth1394RoundTrip.GaspIsOurs | drivers/rt_eth1394.c:1169-1176 | the extra header that the sender writes is recognised, names the sender and is skipped |
| Eth1394RoundTrip.SendAndReceive | drivers/rt_eth1394.c:920-1621 | sender and receiver code end to end, broadcast or not: 1 to 4096 bytes come out once, at the last packet, with the ether type; the list is as before, less its oldest entry if it was full and the datagram fragmented |
| Eth1394Labels.Port.Draw | drivers/rt_eth1394.c:1573-1575 | the label is the count of fragmented datagrams to that address so far, cut to sixteen bits |
| Eth1394Labels.Port.Tx | drivers/rt_eth1394.c:1551-1621 | a datagram uses up a label exactly if it takes more than one packet, and its packets bear it |
| Eth1394Labels.CollideIff | drivers/rt_eth1394.c:1573-1575 | exactly when two fragmented datagrams of a sender bear the same label |
| Eth1394Labels.CollisionNeeds | drivers/rt_eth1394.c:1573-1575 | if both reach one receiver, 65536 datagrams lie between them, or one is a broadcast and their addresses differ |
| Eth1394Labels.FirstsCollide | drivers/rt_eth1394.c:1573-1575 | the first fragmented datagram to a node and the first fragmented broadcast do |
| Eth1394Labels.ToldApartIff | drivers/rt_eth1394.c:973-995 | of any interleaving of packets, the receiver puts exactly those of one datagram together, exactly if no other datagram among them bears its label |
| Eth1394Labels.DeliveredApart | drivers/rt_eth1394.c:920-1290 | then it is delivered as it was sent, exactly if it was never lost |
| Eth1394Labels.SecondFirstFragment | drivers/rt_eth1394.c:1018-1030 | the first packet of a colliding datagram always overlaps: without memory both datagrams are lost |
| FecTx.TxRing.StartXmit | drivers/rt_fec.c:333-434 | when a frame is taken and refused, when the queue stops, and that the ring is kept exactly unless the frame comes between the end of the oldest frame of a full ring and its reclaim; while the queue is not stopped that does not happen |
| FecTx.TxRing.FreeTells | drivers/rt_fec.c:359-370 | the slot at cur_tx is free exactly when the ring is not full, and in a full ring its ready bit tells only whether the oldest frame is still being sent |
| FecTx.TxRing.Reclaim | drivers/rt_fec.c:610-680 | ends having freed every frame that was finished when it began, in order, each once, while the controller goes on |
| FecTx.TxRing.ReadyTells | drivers/rt_fec.c:235-242 | what the equal-pointer test and the ready bit say about how many frames are in flight |
| FecTx.AnySchedule | drivers/rt_fec.c:333-680 | in every interleaving, up to the first such submission: tx_full exactly when sixteen are in flight, indices in lockstep, freed frames are a prefix of the submitted ones |
| FecTx.LosesFrame | drivers/rt_fec.c:359-397 | a run from an empty ring, sixteen frames, one of them sent, one more frame, after which a buffer is in no slot and was not freed |
| SpeedoTx.PublishOnRing | drivers/rt_eepro100.c:1176-1186 | moving the Suspend bit to the new command keeps it on exactly the last one |
| SpeedoTx.CommandList.constructor | drivers/rt_eepro100.c:985-1013 | the ring starts with the address setup command |
| SpeedoTx.CommandList.Chip | drivers/rt_eepro100.c:239-253 | the chip follows the links and suspends; it executes commands in order and touches no free slot |
| SpeedoTx.CommandList.StartXmit | drivers/rt_eepro100.c:1111-1200 | a packet is accepted exactly while fewer than 28 commands are in use, the queue stops at that number, and every eighth block asks for an interrupt |
| SpeedoTx.CommandList.SetRxMode | drivers/rt_eepro100.c:1731-1838 | configuration commands go in only where there is room for them, else the mode is retried later |
| SpeedoTx.CommandList.TxBufferGc | drivers/rt_eepro100.c:1202-1267 | reclaims everything executed when it began and nothing that is not executed, with 32-bit counters |
| SpeedoTx.CommandList.Interrupt | drivers/rt_eepro100.c:1388-1400 | the queue restarts exactly when use fell below TX_QUEUE_UNFULL |
| SpeedoTx.CommandList.SuspendTells | drivers/rt_eepro100.c:239-253 | last_cmd is the only unexecuted command with Suspend set, and every other links to its successor |
| SpeedoTx.CommandList.InUse | drivers/rt_eepro100.c:1124-1126 | the difference of the wrapping counters is the number of commands in use, at most the ring |
| SpeedoTx.CommandList.NoLostWakeup | drivers/rt_eepro100.c:1144-1145 | in every reachable state a stopped queue will be woken: the chip is at work or its interrupt is pending; an idle chip without one leaves nothing to reclaim |
| SpeedoTx.AnySchedule | drivers/rt_eepro100.c:953-1838 | in every interleaving the chip executed a prefix of the commands given, stands still exactly when it executed all, every reclaimed packet was freed once, and no wakeup is lost |
| SpeedoRx.BorrowOk | drivers/rt_eepro100.c:1486-1497 | borrowing a buffer from a later slot keeps the ring in order and loses no buffer |
| SpeedoRx.LinkOk | drivers/rt_eepro100.c:1450-1463 | appending a buffer moves the end-of-list mark to it and nowhere else |
| SpeedoRx.RxRing.InitRxRing | drivers/rt_eepro100.c:1062-1109 | any positive number of buffers makes a valid ring |
| SpeedoRx.RxRing.Alloc | drivers/rt_eepro100.c:1423-1448 | a buffer from the pool into the slot, or none exactly when the pool is empty |
| SpeedoRx.RxRing.FindForward | drivers/rt_eepro100.c:1487-1491 | the search for a buffer to borrow stops at the nearest one, or finds that there is none |
| SpeedoRx.RxRing.Borrow | drivers/rt_eepro100.c:1486-1497 | fills the slot from the nearest later one with a buffer, or leaves everything as it was exactly if all waiting slots are empty |
| SpeedoRx.RxRing.RefillRxBuf | drivers/rt_eepro100.c:1465-1506 | one slot further, with its own buffer, one of the pool or, when forced, the nearest one, in this order; or no buffer to be had |
| SpeedoRx.RxRing.RefillRxBuffers | drivers/rt_eepro100.c:1508-1515 | refills until every slot is armed or no buffer is to be had |
| SpeedoRx.RxRing.TakeFrame | drivers/rt_eepro100.c:1560-1620 | a good frame is handed up and its slot emptied; a bad one leaves its buffer for use again; either is on record with the status read |
| SpeedoRx.RxRing.TakeFrames | drivers/rt_eepro100.c:1528-1625 | goes past the slots from cur_rx on, one frame each, and refills one for each until the pool runs out; why it stops |
| SpeedoRx.RxRing.Rx | drivers/rt_eepro100.c:1517-1633 | the same, with the ring refilled as far as there are buffers, and in order at every step; exactly the good ones of the frames it went past are handed up, in slot order |
| SpeedoRx.RxRing.RingTells | drivers/rt_eepro100.c:1423-1515 | every armed slot holds a buffer, no buffer is in two slots, and only last_rxf, in front of dirty_rx, ends the list |
| SpeedoRx.RxRing.Waiting | drivers/rt_eepro100.c:1508-1515 | the wrapping counters differ by the number of waiting slots, less than the ring |
| SpeedoRx.AnySchedule | drivers/rt_eepro100.c:1423-1633 | in every run with any pool exhaustion, errors and borrowing the ring stays in order, every buffer is in exactly one place, and what was handed up are the good ones among the frames of all slots passed |
| MacbTx.AvailCounts | drivers/rt_macb.c:56-62 | TX_BUFFS_AVAIL is 127 minus the number in flight; head and tail meet exactly when none is |
| MacbTx.TxRing.StartXmit | drivers/rt_macb.c:620-674 | a buffer is taken exactly while fewer than 127 are in flight; the queue stops at 127 |
| MacbTx.TxRing.Xmit | stack/rtdev.c:662-683 | a buffer the driver does not take is freed by the caller |
| MacbTx.TxRing.ResetAfterUnderrun | drivers/rt_macb.c:334-359 | every buffer in flight is freed once, in order, the ring starts again empty, and exactly the frames not sent are given up |
| MacbTx.TxRing.Complete | drivers/rt_macb.c:369-394 | frees the oldest frames in flight, everything finished when it began and nothing that the controller has not sent, while it goes on sending |
| MacbTx.TxRing.Tx | drivers/rt_macb.c:323-398 | the whole interrupt: without an underrun only sent frames are freed, with one all in flight; exactly when the queue wakes up |
| MacbTx.AnyRun | drivers/rt_macb.c:323-674 | in every run each buffer handed in is freed exactly once or in flight exactly once, what was freed had been sent, refused or given up at an underrun, and TX_BUFFS_AVAIL counts the free places |
| MacbRx.FrameCopy | drivers/rt_macb.c:400-444 | a frame is its buffers joined, cut to its length, wherever it wraps |
| MacbRx.DepositFitsIff | drivers/rt_macb.c:447-506 | a frame spread over buffers of 128 bytes is well-formed behind any stream exactly up to 65408 bytes |
| MacbRx.DepositedRoundTrip | drivers/rt_macb.c:400-506 | what has to be delivered of any frames deposited one behind the other are exactly these frames |
| MacbRx.DeliveredAreSent | drivers/rt_macb.c:400-506 | at every moment of such a stream what is complete are the first of its frames, as they were sent |
| MacbRx.RxRing.Deposit | drivers/rt_macb.c:464-506 | the controller fills the next buffer only if the driver has returned it, at any time |
| MacbRx.RxRing.Controller | drivers/rt_macb.c:464-506 | any number of descriptors that arrive while the driver is at work leave the ring in order |
| MacbRx.RxRing.DiscardPartialFrame | drivers/rt_macb.c:447-462 | returns exactly the buffers of the superseded frame, while more arrive |
| MacbRx.RxRing.RxFrame | drivers/rt_macb.c:400-444 | the copy loop delivers the frame and returns its buffers, while more arrive |
| MacbRx.RxRing.ScanOne | drivers/rt_macb.c:470-500 | one descriptor of the scan: start of frame, middle or end |
| MacbRx.RxRing.Rx | drivers/rt_macb.c:464-506 | within its budget the scan comes to a moment when it has seen all that arrived; every frame complete then was delivered, once, in order, and rx_tail is just past the last one or at the start of the open one |
| MacbRx.AnyRun | drivers/rt_macb.c:400-506 | in every run on a well-formed stream, with arrivals between and during the calls, exactly its whole frames are delivered, in order |
| Rtl8139Rx.CursorAdvances | drivers/rt_8139too.c:1598-1598 | the sixteen-bit cursor advances like the true position |
| Rtl8139Rx.BehindAligned | drivers/rt_8139too.c:1598-1598 | the next frame starts at the first multiple of four behind header and frame |
| Rtl8139Rx.ValidIff | drivers/rt_8139too.c:1552-1568 | the checks of the loop let through exactly the frames of 8 to 1540 bytes that were received well |
| Rtl8139Rx.CursorOffset | drivers/rt_8139too.c:1536-1536 | its remainder is the place of the frame in the ring |
| Rtl8139Rx.FitsBuffer | drivers/rt_8139too.c:87-98 | no copy runs over the end of the padded buffer |
| Rtl8139Rx.DepositIntact | drivers/rt_8139too.c:87-98 | a frame stored where there is room overwrites no unread one |
| Rtl8139Rx.RxRing.CopyOut | drivers/rt_8139too.c:1536-1588 | size, status and packet are read off the ring as stored |
| Rtl8139Rx.RxRing.ReadFrame | drivers/rt_8139too.c:1535-1603 | one turn of the loop delivers the next frame; the checks for bad headers do not strike; the cursor stays aligned |
| Rtl8139Rx.RxRing.RxInterrupt | drivers/rt_8139too.c:1525-1606 | the loop empties the ring while the chip goes on storing, and passes on exactly the frames stored |
| Rtl8139Rx.RxRing.AnyRun | drivers/rt_8139too.c:1525-1606 | so does every run of arrivals and interrupts |
| DeviceNames.SubstituteAt | stack/rtdev.c:208-208 | the expansion puts the digit in place of the conversion and keeps the rest |
| DeviceNames.Digit | stack/rtdev.c:208-208 | expansions are numbered from zero, in decimal |
| DeviceNames.PercentTells | stack/rtdev.c:467-467 | a name is taken for a mask exactly if it holds a percent sign |
| DeviceNames.ExpansionsDistinctIff | stack/rtdev.c:200-216 | two expansions differ exactly when the conversion starts within the characters kept |
| DeviceNames.ExpansionIsPlain | stack/rtdev.c:208-209 | no expansion is a mask again, so no registered name is one |
| DeviceNames.SomeExpansionFree | stack/rtdev.c:200-216 | with fewer than eight names taken, some expansion of a mask is free |
| Registry.HeldArePresent | stack/rtdev.c:79-189 | after any run that obeys the rules below, whoever holds a device holds a registered one |
| Registry.HolderSafety | stack/rtdev.c:79-189 | ... and at every moment of the run |
| Registry.GoneUntilRegistered | stack/rtdev.c:533-552 | after its slot is cleared no lookup returns a device before it is registered again |
| Registry.UnusedExpansion | stack/rtdev.c:200-216 | a free slot leaves an expansion that no registered device bears |
| Registry.RtskbMap | stack/rtdev.c:324-345 | the first address is taken over, the same one accepted, another refused |
| Registry.DeviceTable.constructor | stack/rtdev.c:43-49 | the empty table |
| Registry.DeviceTable.FindByName | stack/rtdev.c:60-71 | finds a registered device of that name, or none exactly when there is none |
| Registry.DeviceTable.FindByHwaddr | stack/rtdev.c:129-144 | likewise by type and hardware address |
| Registry.SameAddressTells | stack/rtdev.c:138-139 | addresses are compared byte by byte over the address length of the device |
| Registry.DeviceTable.GetByName | stack/rtdev.c:79-94 | the lookup counts a reference on what it returns |
| Registry.DeviceTable.GetByIndex | stack/rtdev.c:102-120 | likewise by index, with indices out of range |
| Registry.DeviceTable.GetByHwaddr | stack/rtdev.c:153-167 | likewise by hardware address |
| Registry.DeviceTable.GetLoopback | stack/rtdev.c:174-189 | likewise the loopback device |
| Registry.DeviceTable.Reference | stack/include/rtdev.h:200-203 | a holder takes another reference |
| Registry.DeviceTable.Dereference | stack/include/rtdev.h:205-209 | a reference is given back and the count stays the number of references |
| Registry.DeviceTable.NewIndex | stack/rtdev.c:310-320 | the lowest free slot, or none |
| Registry.DeviceTable.AllocName | stack/rtdev.c:200-216 | inside a registration: the first expansion no registered device bears, also for a registered device, while other threads look up and give back devices; every reference it takes it gives back |
| Registry.DeviceTable.ProbeName | stack/rtdev.c:200-216 | at probe, without a lock, while other threads register and unregister: the table is kept, and the name is free if nothing happened since its lookup, the first free one if nothing happened at all |
| Registry.NamedAlike | stack/rtdev.c:200-216 | in any table with room, two devices named at probe one after the other get one name, and the second to register is refused |
| Registry.DeviceTable.MapRtskb | stack/rtdev.c:348-374 | a buffer is listed exactly when all registered devices with a map hook give it one address; it has none exactly when there is no such device; which devices map it then, also after a failure |
| Registry.DeviceTable.MapAll | stack/rtdev.c:379-395 | a new device is accepted exactly when its answers fit the addresses of all listed buffers; no address that was set is changed, even when it fails midway |
| Registry.DeviceTable.UnmapRtskb | stack/rtdev.c:396-420 | the buffer leaves the list exactly when it has an address, and then exactly the registered devices with an unmap hook give up their mappings |
| Registry.DeviceTable.UnmapAll | stack/rtdev.c:424-434 | a device that left its slot gives up its mappings of the listed buffers |
| Registry.DeviceTable.HookedMeansMapped | stack/rtdev.c:349-395 | a listed buffer has an address as soon as one registered device has a map hook |
| Registry.ListedAfterUnmap | stack/rtdev.c:404-405 | a run after which an unmapped buffer is still listed |
| Registry.DeviceTable.Register | stack/rtdev.c:440-510 | for every known device, registered or not: succeeds exactly when the version, a free slot, the name, the loopback rule and the answers of the map hook allow it, under an unused name and in the lowest free slot; the numbers are kept exactly unless a registered device gets a new one; all else is always kept |
| Registry.DeviceTable.UnregisterPoll | stack/rtdev.c:518-572 | for every known device and both builds: what is cleared, when a round defers, which mappings the device gives up, when it writes in front of the slots, and the exact condition under which the table is kept |
| Registry.DeviceTable.UnregisterRids | stack/rtdev.c:518-572 | a device with an unmap hook maps no listed buffer after it was unregistered |
| Registry.DeviceTable.StaysRid | stack/rtdev.c:346-572 | that stays so in every run until its registration is tried again, if no buffer is mapped that it has mapped before |
| Registry.DeviceTable.MapRids | stack/rtdev.c:348-374 | mapping a buffer ends it exactly if the buffer is listed and the device has mapped it before |
| Registry.StaleMapping | stack/rtdev.c:348-434 | how that comes about, in any table with two devices that map a buffer differently |
| Registry.StaleRun | stack/rtdev.c:348-434 | a run from the empty table that comes to it |
| Registry.DeviceTable.HolderFindsDevice | stack/rtdev.c:79-189 | in every reachable state a holder's device is in the slot its number names and its count is the number of holders |
| Registry.DeviceTable.AnyRun | stack/rtdev.c:60-572 | every run of lookups, returns, namings, registrations, unregistration rounds, mappings and unmappings, failing or not, keeps slots, names, counts, loopback and DMA addresses consistent, if it leaves out exactly the calls that Register and UnregisterPoll say do not |
| Registry.RegisteredTwice | stack/rtdev.c:458-472 | a run in which a registered device gets an error and the number of another slot |
| Registry.LookUpAndClear | stack/rtdev.c:518-552 | in any table, unregistering a device that is not registered clears the device in the slot of its number while it is held |
| Registry.HeldDeviceCleared | stack/rtdev.c:458-552 | a run from the empty table in which a failed registration leads to that |
| Registry.UnregisteredTwice | stack/rtdev.c:518-552 | a run from the empty table in which a second unregistration leads to that |
| Registry.RefusedThenUnregistered | stack/rtdev.c:518-552 | in any full table, what unregistering a refused device does in either build |
| Registry.LoopbackLost | stack/rtdev.c:440-552 | a run from the empty table after which the default build has lost its loopback device |
| MulticastHash.ReverseBits | drivers/rt_mpc8xx_fec.c:1864-1877 | bit reversal is what its name says |
| MulticastHash.CrcMirrors | drivers/rt_mpc8xx_fec.c:1785-1805 | for every byte string one driver's CRC is the other's with the bits reversed |
| MulticastHash.CrcIsRemainder | drivers/rt_mpc8xx_fec.c:1785-1805 | for every byte string both registers hold the remainder of long division over GF(2) by the CRC-32 generator, of the bits sent least significant first, the first 32 complemented, and 32 zeros |
| MulticastHash.PlaceOfCrc | drivers/rt_fec.c:1436-1449 | which bits of that remainder select the register half and its bit |
| MulticastHash.SamePlace | drivers/rt_mpc8xx_fec.c:1864-1877 | both drivers select the same register half and bit |
| MulticastHash.FillExact | drivers/rt_fec.c:1424-1449 | a register bit is set exactly when it was or some listed address selects it |
| MulticastHash.FilterExact | drivers/rt_fec.c:1424-1449 | a frame passes exactly when its address shares the bit of a listed one; listed addresses pass |
| MulticastHash.FecCrc | drivers/rt_fec.c:1424-1434 | the byte and bit loops compute the CRC-32 of the address, in reversed bit order |
| MulticastHash.FecSetMulticastList | drivers/rt_fec.c:1398-1449 | the registers for each mode |
| MulticastHash.MpcCrc | drivers/rt_mpc8xx_fec.c:1785-1805 | the byte and bit loops compute the CRC-32 of the address, which is the reversal of the other |
| MulticastHash.MpcSetMulticastList | drivers/rt_mpc8xx_fec.c:1817-1880 | the same registers as the other driver for the same list |
| IoVec.UsedTotal | stack/iovec.c:35-73 | the total length falls by exactly what was copied |
| IoVec.UsedCells | stack/iovec.c:35-73 | what is left of the vector names the cells not yet used, in order |
| IoVec.ToKernelIovec | stack/iovec.c:35-51 | the scatter loop writes the bytes to the cells in order and nothing else |
| IoVec.FromKernelIovec | stack/iovec.c:57-73 | the gather loop reads the cells in order and leaves the rest of the buffer alone |
| IoVec.PutElsewhere | stack/iovec.c:35-51 | no byte outside the cells used changes |
| IoVec.OverlapTells | stack/iovec.c:35-73 | segments are taken to overlap exactly if they have a cell in common |
| IoVec.ScatterGather | stack/iovec.c:35-73 | gathering through a copy of the original vector returns what was scattered, if the segments are disjoint |
| IoVec.TwoScattersVector | stack/iovec.c:35-51 | two scatters use up the vector like one of both lengths |
| IoVec.TwoScattersMemory | stack/iovec.c:35-51 | two scatters write like one of the concatenation |

## Left out

- Eth1394Receiver.PdgList.DataHandler: a fragment that overlaps its datagram and finds memory for a new one. The original goes on with the list entry it has just freed (drivers/rt_eth1394.c:1018-1053), which has no defined outcome. Fragments are also taken to be non-empty, inside their datagram and to agree on its size.
- Eth1394Receiver.PdgList.Receive: the same fragments, as bytes.
- Eth1394Receiver.PdgList.Iso: one packet at a time, of at least the eight bytes that the original skips; the loop over the ready packets belongs to the isochronous buffer of the core.
- IP over 1394: padding, transaction labels, address translation (ARP), and the hpsb core; the receiver gets exactly the bytes sent.
- IP over 1394: pool accounting of a reassembled buffer after its entry is purged (drivers/rt_eth1394.c:1057-1058).
- Eth1394Fragments.NewFragment: at either end of the list the original compares with the list head itself and so reads what lies behind it in memory (drivers/rt_eth1394.c:783-809); here that is no neighbour.
- Eth1394RoundTrip.SendAndReceive: datagrams above 4096 bytes, whose packets name another size (`SizesTrueIff`). The driver does not let its MTU exceed 1500 (drivers/rt_eth1394.c:280-289 and 335-338).
- eepro100: a command that the chip does not accept in time (drivers/rt_eepro100.c:1170-1174), the DMA address of a borrowed buffer (1492-1502), and the ring-state flags that only drive a restart of the receiver.
- SpeedoTx.CommandList.SetRxMode: the parameters inside the configuration and multicast commands.
- SpeedoTx.CommandList.Publish: clearing Suspend and resuming the chip is one step, as the driver states it assumes (drivers/rt_eepro100.c:239-253).
- FEC: fec_restart on a ring in use, and the older full test of the MPC drivers (drivers/rt_mpc8xx_fec.c:411-414).
- MacbTx.AnyRun: whole calls are one step. The original changes tx_head in macb_start_xmit with interrupts off but without the lock of macb_tx (drivers/rt_macb.c:620-674), so that on a second processor an underrun could reset head and tail in between.
- MacbTx.TxRing.ResetAfterUnderrun: the controller is taken to start again at the first slot.
- MACB: want of memory in macb_rx_frame (drivers/rt_macb.c:411-415) and a frame that fills the whole ring, both of which leave the receive ring stuck.
- RTL8139: the path for a bad header (drivers/rt_8139too.c:1563-1568) and the overflow protocol of the chip; it is taken to store a frame only where there is room.
- Registry: event hooks, closing a running device before unregistering, printf conversions in a name mask other than a single %d, and lookups with hardware addresses shorter than the 32-byte field.
- Registry.DeviceTable.ProbeName: between a lookup and the release of what it found, other threads only look up and give back devices.
- Registry.DeviceTable.UnregisterPoll: the waiting between two rounds is up to the caller.
- Registry: listing a buffer that is listed, or unmapping one that is not, which would break the linked list; the pool code, the only caller, does neither.
- MulticastHash: the promiscuous bit of the receive control register.
- IoVec: segments of 4 GiB and more, whose length the loops cut to 32 bits; the copied buffers and the vector do not overlap.
- pcnet32, rtcap, rtnetproxy, and the drivers not named above: further rings of the same kinds, or buffer exchange over code outside this model.
- Probing, PHY, MDIO, EEPROM, clocks, ioctl and proc files, statistics: device access without logic to prove.
- TDMA, RTcfg, routing, IP fragments and TCP.
