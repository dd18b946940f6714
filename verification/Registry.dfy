/**
 * The device registry of stack/rtdev.c: a fixed array of device slots, lookups that take a
 * reference, registration, the polling unregistration, and the DMA addresses on which all
 * registered devices agree.
 *
 * A lookup, a reference and a round of unregistering is one region that the original runs under
 * its locks (or one atomic counter operation), so a run of the system is a sequence of such calls
 * in any order.  A registration holds only the non-real-time lock while it picks its slot and
 * name; what the other lock and the atomic counters allow in between is Meanwhile.  Drivers also
 * pick a name at probe, without any lock: that is ProbeName, with anything in between.
 */
module Registry {
  import opened DeviceNames

  // RTDEV_VERS_2_0 and RTSKB_UNMAPPED.
  const VERS_2_0 := 0x0200
  const UNMAPPED := 0

  const MAX_ADDR_LEN := 32
  type Address = a: seq<bv8> | |a| == MAX_ADDR_LEN witness seq(MAX_ADDR_LEN, _ => 0)

  type AddressLength = n: nat | n <= MAX_ADDR_LEN

  datatype Status = Ok | Invalid | NoMemory | Exists | AccessDenied | NoDevice

  // A real-time packet buffer, as far as the registry looks at it.
  class Buffer {
    var dmaAddr: nat

    constructor ()
      ensures dmaAddr == UNMAPPED
    {
      dmaAddr := UNMAPPED;
    }
  }

  class Device {
    var name: Name
    var ifindex: nat
    var refcount: int
    // The addresses at which the device's own map hook has put the buffers.
    var mapped: map<Buffer, nat>
    const version: nat
    const isLoopback: bool
    const hasMap: bool
    const hasUnmap: bool
    const kind: nat
    const devAddr: Address
    const addrLen: AddressLength

    // rtdev_alloc clears the structure; the driver fills in the rest before it registers.
    constructor (name: Name, version: nat, isLoopback: bool, hasMap: bool, hasUnmap: bool,
                 kind: nat, devAddr: Address, addrLen: AddressLength)
      ensures this.name == name && ifindex == 0 && refcount == 0 && mapped == map[]
      ensures this.version == version && this.isLoopback == isLoopback
      ensures this.hasMap == hasMap && this.hasUnmap == hasUnmap
      ensures this.kind == kind && this.devAddr == devAddr && this.addrLen == addrLen
    {
      this.name, ifindex, refcount, mapped := name, 0, 0, map[];
      this.version, this.isLoopback, this.hasMap, this.hasUnmap := version, isLoopback, hasMap, hasUnmap;
      this.kind, this.devAddr, this.addrLen := kind, devAddr, addrLen;
    }
  }

  // memcmp over the address length of the device.
  predicate SameAddress(d: Device, a: Address) {
    d.devAddr[..d.addrLen] == a[..d.addrLen]
  }

  lemma SameAddressTells(d: Device, a: Address)
    ensures SameAddress(d, a) <==> forall i :: 0 <= i < d.addrLen ==> d.devAddr[i] == a[i]
    ensures d.addrLen <= 32 == |a|
  {
    assert forall i :: 0 <= i < d.addrLen ==> d.devAddr[..d.addrLen][i] == d.devAddr[i] && a[..d.addrLen][i] == a[i];
    if forall i :: 0 <= i < d.addrLen ==> d.devAddr[i] == a[i] {
      assert d.devAddr[..d.addrLen] == a[..d.addrLen];
    }
  }

  // ---- what a run of the registry did to devices and references ----

  datatype Event = Registered(d: Device) | Taken(d: Device) | Dropped(d: Device) | Cleared(d: Device)

  function NextPresent(before: set<Device>, e: Event): (s: set<Device>) {
    match e
    case Registered(d) => before + {d}
    case Cleared(d) => before - {d}
    case _ => before
  }

  function NextHeld(before: multiset<Device>, e: Event): (m: multiset<Device>) {
    match e
    case Taken(d) => before + multiset{d}
    case Dropped(d) => before - multiset{d}
    case _ => before
  }

  // The devices that the events leave registered.
  function Present(events: seq<Event>): (s: set<Device>) {
    if events == [] then {} else NextPresent(Present(events[..|events| - 1]), events[|events| - 1])
  }

  // The references that the events leave outstanding.
  function Held(events: seq<Event>): (m: multiset<Device>) {
    if events == [] then multiset{} else NextHeld(Held(events[..|events| - 1]), events[|events| - 1])
  }

  // What the last event of a run must have found: references are taken only on registered
  // devices and given back only by holders, and a slot is cleared only when nobody holds its device.
  predicate Permitted(before: seq<Event>, e: Event) {
    match e
    case Registered(d) => d !in Present(before)
    case Taken(d) => d in Present(before)
    case Dropped(d) => d in Held(before)
    case Cleared(d) => d in Present(before) && d !in Held(before)
  }

  predicate Safe(events: seq<Event>) {
    events == [] ||
    (Safe(events[..|events| - 1]) && Permitted(events[..|events| - 1], events[|events| - 1]))
  }

  lemma Snoc(events: seq<Event>, e: Event)
    ensures Safe(events + [e]) <==> Safe(events) && Permitted(events, e)
    ensures Present(events + [e]) == NextPresent(Present(events), e)
    ensures Held(events + [e]) == NextHeld(Held(events), e)
  {
    assert (events + [e])[..|events|] == events;
  }

  lemma TakenKeeps(events: seq<Event>, d: Device)
    ensures Held(events) <= Held(events + [Taken(d)])
  {
    Snoc(events, Taken(d));
  }

  lemma DroppedKeeps(events: seq<Event>, d: Device, mine: multiset<Device>)
    requires mine <= Held(events) && d in Held(events) - mine
    ensures mine <= Held(events + [Dropped(d)])
  {
    Snoc(events, Dropped(d));
  }

  // No reference holder ever holds an unregistered device.
  lemma {:induction false} HeldArePresent(events: seq<Event>, d: Device)
    requires Safe(events) && d in Held(events)
    ensures d in Present(events)
  {
    if events != [] {
      var before := events[..|events| - 1];
      if d in Held(before) {
        HeldArePresent(before, d);
      }
    }
  }

  lemma {:induction false} SafePrefix(events: seq<Event>, n: nat)
    requires Safe(events) && n <= |events|
    ensures Safe(events[..n])
  {
    if n == |events| {
      assert events[..n] == events;
    } else {
      var before := events[..|events| - 1];
      SafePrefix(before, n);
      assert before[..n] == events[..n];
    }
  }

  // ... at any moment of the run.
  lemma HolderSafety(events: seq<Event>, n: nat, d: Device)
    requires Safe(events) && n <= |events| && d in Held(events[..n])
    ensures d in Present(events[..n])
  {
    SafePrefix(events, n);
    HeldArePresent(events[..n], d);
  }

  // Once its slot is cleared, a device is not handed out again before it registers again.
  lemma {:induction false} GoneUntilRegistered(events: seq<Event>, m: nat, n: nat)
    requires Safe(events) && m < n < |events| && events[m].Cleared?
    requires events[n] == Taken(events[m].d)
    ensures exists k :: m < k < n && events[k] == Registered(events[m].d)
  {
    var d := events[m].d;
    SafePrefix(events, n + 1);
    assert events[..n + 1][..n] == events[..n];
    if forall k :: m < k < n ==> events[k] != Registered(d) {
      StaysGone(events, m, n);
      assert false;
    }
  }

  lemma {:induction false} StaysGone(events: seq<Event>, m: nat, n: nat)
    requires m < n <= |events| && events[m].Cleared?
    requires forall k :: m < k < n ==> events[k] != Registered(events[m].d)
    ensures events[m].d !in Present(events[..n])
  {
    assert events[..n][..n - 1] == events[..n - 1];
    if m + 1 < n {
      StaysGone(events, m, n - 1);
    }
  }

  // ---- slots ----

  function Occupants(slots: seq<Device?>): (s: set<Device>) {
    set i | 0 <= i < |slots| && slots[i] != null :: slots[i] as Device
  }

  // The lowest free slot, or the number of slots.
  function FirstFree(slots: seq<Device?>): (i: nat)
    ensures i <= |slots|
    ensures i < |slots| <==> null in slots
    ensures i < |slots| ==> slots[i] == null
    ensures forall j :: 0 <= j < i ==> slots[j] != null
  {
    if slots == [] || slots[0] == null then 0 else 1 + FirstFree(slots[1..])
  }

  lemma OccupantsFill(slots: seq<Device?>, i: nat, d: Device)
    requires i < |slots| && slots[i] == null
    ensures Occupants(slots[i := d]) == Occupants(slots) + {d}
  {
    var after := slots[i := d];
    assert after[i] == d;
    forall j | 0 <= j < |slots| && slots[j] != null ensures slots[j] in Occupants(after) {
      assert after[j] == slots[j];
    }
  }

  lemma OccupantsClear(slots: seq<Device?>, i: nat, d: Device)
    requires i < |slots| && slots[i] == d
    requires forall j :: 0 <= j < |slots| && slots[j] == d ==> j == i
    ensures Occupants(slots[i := null]) == Occupants(slots) - {d}
  {
    var after := slots[i := null];
    forall j | 0 <= j < |slots| && slots[j] != null && slots[j] != d ensures slots[j] in Occupants(after) {
      assert after[j] == slots[j];
    }
    forall x | x in Occupants(after) ensures x in Occupants(slots) && x != d {
      var j :| 0 <= j < |after| && after[j] == x;
      assert slots[j] == x;
    }
  }

  lemma OccupantsShrink(slots: seq<Device?>, i: nat)
    requires i < |slots|
    ensures Occupants(slots[i := null]) <= Occupants(slots)
  {
    var after := slots[i := null];
    forall x | x in Occupants(after) ensures x in Occupants(slots) {
      var j :| 0 <= j < |after| && after[j] == x;
      assert slots[j] == x;
    }
  }

  lemma EmptyClear(slots: seq<Device?>, i: nat)
    requires i < |slots| && slots[i] == null
    ensures slots[i := null] == slots
  {
  }

  // ---- names in slots ----

  // The names borne by the devices in the first n slots.
  ghost function Names(slots: seq<Device?>, n: nat): (s: set<Name>)
    requires n <= |slots|
    reads slots
  {
    if n == 0 then {}
    else if slots[n - 1] == null then Names(slots, n - 1)
    else Names(slots, n - 1) + {slots[n - 1].name}
  }

  lemma {:induction false} NamesTell(slots: seq<Device?>, n: nat, i: nat)
    requires i < n <= |slots| && slots[i] != null
    ensures slots[i].name in Names(slots, n)
  {
    if i < n - 1 {
      NamesTell(slots, n - 1, i);
    }
  }

  lemma AddOne(s: set<Name>, x: Name)
    ensures |s + {x}| <= |s| + 1
  {
    if x in s {
      assert s + {x} == s;
    }
  }

  lemma {:induction false} NamesCount(slots: seq<Device?>, n: nat, free: nat)
    requires n <= |slots| && free < |slots| && slots[free] == null
    ensures |Names(slots, n)| <= if free < n then n - 1 else n
  {
    if n > 0 {
      NamesCount(slots, n - 1, free);
      if slots[n - 1] != null {
        AddOne(Names(slots, n - 1), slots[n - 1].name);
      }
    }
  }

  // With a slot to spare, some expansion of the mask is borne by no registered device.
  lemma UnusedExpansion(slots: seq<Device?>, free: nat, mask: Name) returns (i: nat)
    requires |slots| == MAX_DEVICES && free < MAX_DEVICES && slots[free] == null
    requires IsMask(mask)
    ensures i < MAX_DEVICES && forall d :: d in Occupants(slots) ==> d.name != Expand(mask, i)
  {
    hide Expand, IsMask, Names;
    NamesCount(slots, MAX_DEVICES, free);
    i := SomeExpansionFree(mask, Names(slots, MAX_DEVICES));
    forall d | d in Occupants(slots) ensures d.name != Expand(mask, i) {
      var j :| 0 <= j < |slots| && slots[j] == d;
      NamesTell(slots, MAX_DEVICES, j);
    }
  }

  // ---- the calls that need no more than the real-time lock or an atomic counter ----

  datatype RtCall =
    | ByName(name: string)
    | ByIndex(ifindex: int)
    | ByHwaddr(kind: nat, addr: Address)
    | Loopback
    | Reference(d: Device)
    | Dereference(d: Device)

  ghost predicate Unique(list: seq<Buffer>) {
    forall i, j :: 0 <= i < j < |list| ==> list[i] != list[j]
  }

  ghost predicate Agrees(d: Device, b: Buffer)
    reads d`mapped, b`dmaAddr
  {
    b in d.mapped && d.mapped[b] == b.dmaAddr && b.dmaAddr != UNMAPPED
  }

  // Registered names are pairwise distinct, and none is a mask.
  ghost predicate ProperNames(devices: set<Device>)
    reads devices`name
  {
    && (forall d, e :: d in devices && e in devices && d != e ==> d.name != e.name)
    && forall d :: d in devices ==> !HasPercent(d.name)
  }

  // At most one loopback device, and the pointer is to it.
  ghost predicate OneLoopback(devices: set<Device>, loopback: Device?) {
    && (loopback != null ==> loopback in devices)
    && forall d :: d in devices ==> (d.isLoopback <==> d == loopback)
  }

  // Every registered device with a map hook maps each listed buffer to that buffer's address.
  ghost predicate MapsAgree(devices: set<Device>, list: seq<Buffer>)
    reads devices`mapped, list`dmaAddr
  {
    forall d, b :: d in devices && d.hasMap && b in list ==> Agrees(d, b)
  }

  lemma AddDevice(devices: set<Device>, d: Device, loopback: Device?, list: seq<Buffer>)
    requires ProperNames(devices) && OneLoopback(devices, loopback) && MapsAgree(devices, list)
    requires d !in devices && !HasPercent(d.name) && forall e :: e in devices ==> e.name != d.name
    requires d.isLoopback ==> loopback == null
    requires d.hasMap ==> forall b :: b in list ==> Agrees(d, b)
    ensures ProperNames(devices + {d}) && MapsAgree(devices + {d}, list)
    ensures OneLoopback(devices + {d}, if d.isLoopback then d else loopback)
  {
  }

  lemma OthersProper(devices: set<Device>, d: Device)
    requires ProperNames(devices)
    ensures ProperNames(devices - {d})
  {
  }

  lemma RenameDevice(devices: set<Device>, d: Device, name: Name)
    requires ProperNames(devices - {d}) && d.name == name && !HasPercent(name)
    requires forall e :: e in devices && e != d ==> e.name != name
    ensures ProperNames(devices)
  {
    forall e, f | e in devices && f in devices && e != f ensures e.name != f.name {
      if e != d && f != d {
        assert e in devices - {d} && f in devices - {d};
      }
    }
    forall e | e in devices ensures !HasPercent(e.name) {
      if e != d {
        assert e in devices - {d};
      }
    }
  }

  lemma RemoveDevice(devices: set<Device>, d: Device, loopback: Device?, list: seq<Buffer>)
    requires ProperNames(devices) && OneLoopback(devices, loopback) && MapsAgree(devices, list)
    requires d in devices
    ensures ProperNames(devices - {d}) && MapsAgree(devices - {d}, list)
    ensures OneLoopback(devices - {d}, if d.isLoopback then null else loopback)
  {
  }

  // list_del.
  function Without(list: seq<Buffer>, b: Buffer): (r: seq<Buffer>) {
    if list == [] then [] else if list[0] == b then list[1..] else [list[0]] + Without(list[1..], b)
  }

  lemma {:induction false} WithoutTells(list: seq<Buffer>, b: Buffer)
    requires Unique(list)
    ensures Unique(Without(list, b))
    ensures forall x :: x in Without(list, b) <==> x in list && x != b
  {
    if list != [] {
      assert forall i :: 0 < i < |list| ==> list[i] == list[1..][i - 1];
      assert list == [list[0]] + list[1..];
      if list[0] != b {
        WithoutTells(list[1..], b);
        assert list[0] !in Without(list[1..], b);
      }
    }
  }

  // rtskb_map.  The hook's answer is addr; a device that answered has mapped the buffer there,
  // also when the address is then refused.
  method RtskbMap(d: Device, b: Buffer, addr: nat) returns (err: Status)
    modifies d`mapped, b`dmaAddr
    ensures d.mapped == if addr == UNMAPPED then old(d.mapped) else old(d.mapped)[b := addr]
    ensures err == if addr == UNMAPPED then NoMemory
                   else if old(b.dmaAddr) != UNMAPPED && addr != old(b.dmaAddr) then AccessDenied
                   else Ok
    ensures b.dmaAddr == if err == Ok then addr else old(b.dmaAddr)
  {
    if addr == UNMAPPED {
      return NoMemory;
    }
    d.mapped := d.mapped[b := addr];
    if b.dmaAddr != UNMAPPED && addr != b.dmaAddr {
      return AccessDenied;
    }
    b.dmaAddr := addr;
    return Ok;
  }

  // Everything that is done to the registry.
  datatype Action =
    | Rt(c: RtCall)
    | AllocName(dev: Device, mask: string, during: nat -> seq<RtCall>)
    | Register(dev: Device, during: nat -> seq<RtCall>, answers: Buffer -> nat)
    | Unregister(dev: Device)
    | Map(b: Buffer, replies: Device -> nat)
    | Unmap(b: Buffer)

  // The device that the action names, enters or takes out.
  function Subject(a: Action): (s: set<Device>) {
    if a.AllocName? || a.Register? || a.Unregister? then {a.dev} else {}
  }

  // The device that the action may enter into a slot.
  function Entrant(a: Action): (s: set<Device>)
    ensures s <= Subject(a)
  {
    if a.Register? then {a.dev} else {}
  }

  class DeviceTable {
    // CONFIG_RTNET_CHECKED: whether RTNET_ASSERT tests anything.  The default build leaves it out.
    const checked: bool
    // rtnet_devices, loopback_device and rtskb_list.
    const slots: array<Device?>
    var loopback: Device?
    var rtskbs: seq<Buffer>
    // What has been done so far, and the devices and buffers that exist.
    var trace: seq<Event>
    const known: set<Device>
    const buffers: set<Buffer>

    // Eight slots with known devices in them, and no number beyond them.
    ghost predicate Shaped()
      reads slots, known`ifindex
    {
      && slots.Length == MAX_DEVICES
      && (forall i :: 0 <= i < MAX_DEVICES && slots[i] != null ==> slots[i] in known)
      && forall d :: d in known ==> d.ifindex <= MAX_DEVICES
    }

    // Slot i holds a device with ifindex i + 1.
    ghost predicate SlotsOk()
      reads slots, known`ifindex
    {
      Shaped() && forall i :: 0 <= i < MAX_DEVICES && slots[i] != null && slots[i] in known ==>
        slots[i].ifindex == i + 1
    }

    ghost predicate NamesOk()
      reads slots, Occupants(slots[..])`name
    {
      ProperNames(Occupants(slots[..]))
    }

    ghost predicate LoopbackOk()
      reads this`loopback, slots
    {
      OneLoopback(Occupants(slots[..]), loopback)
    }

    // Every reference count is the number of references outstanding, nothing forbidden ever
    // happened, and the slots hold what the events leave registered.
    ghost predicate RefsOk()
      reads this`trace, slots, known`refcount
    {
      && Safe(trace)
      && Present(trace) == Occupants(slots[..])
      && forall d :: d in known ==> d.refcount == Held(trace)[d]
    }

    ghost predicate DmaOk()
      reads this`rtskbs, slots, Occupants(slots[..])`mapped, rtskbs`dmaAddr
    {
      && Unique(rtskbs)
      && (forall b :: b in rtskbs ==> b in buffers)
      && MapsAgree(Occupants(slots[..]), rtskbs)
    }

    ghost predicate Valid()
      reads this, slots, known, buffers, rtskbs
    {
      SlotsOk() && NamesOk() && LoopbackOk() && RefsOk() && DmaOk()
    }

    constructor (checked: bool, known: set<Device>, buffers: set<Buffer>)
      requires forall d :: d in known ==> d.refcount == 0 && d.ifindex == 0
      ensures Valid() && fresh(slots) && slots.Length == MAX_DEVICES
      ensures forall i :: 0 <= i < MAX_DEVICES ==> slots[i] == null
      ensures this.checked == checked && this.known == known && this.buffers == buffers
      ensures trace == [] && rtskbs == [] && loopback == null
    {
      this.checked := checked;
      slots := new Device?[MAX_DEVICES](_ => null);
      loopback, rtskbs, trace := null, [], [];
      this.known, this.buffers := known, buffers;
    }

    lemma Parts()
      requires Valid()
      ensures SlotsOk() && NamesOk() && LoopbackOk() && RefsOk() && DmaOk() && Occupants(slots[..]) <= known
    {
    }

    lemma Whole()
      requires SlotsOk() && NamesOk() && LoopbackOk() && RefsOk() && DmaOk()
      ensures Valid()
    {
    }

    lemma SlotsShaped()
      requires SlotsOk()
      ensures Shaped()
    {
    }

    lemma Inside()
      requires Shaped()
      ensures Occupants(slots[..]) <= known
    {
    }

    // __rtdev_get_by_name.
    method FindByName(name: string) returns (r: Device?)
      requires Shaped()
      ensures r != null ==> r in Occupants(slots[..]) && r.name == name
      ensures r == null <==> forall d :: d in Occupants(slots[..]) ==> d.name != name
    {
      r := null;
      var i := 0;
      while i < MAX_DEVICES
        invariant 0 <= i <= MAX_DEVICES
        invariant forall j :: 0 <= j < i && slots[j] != null ==> slots[j].name != name
      {
        if slots[i] != null && slots[i].name == name {
          assert slots[..][i] in Occupants(slots[..]);
          return slots[i];
        }
        i := i + 1;
      }
    }

    method FindByHwaddr(kind: nat, addr: Address) returns (r: Device?)
      requires SlotsOk()
      ensures r != null ==> r in Occupants(slots[..]) && r.kind == kind && SameAddress(r, addr)
      ensures r == null <==> forall d :: d in Occupants(slots[..]) ==> d.kind != kind || !SameAddress(d, addr)
    {
      r := null;
      var i := 0;
      while i < MAX_DEVICES
        invariant 0 <= i <= MAX_DEVICES
        invariant forall j :: 0 <= j < i && slots[j] != null ==> slots[j].kind != kind || !SameAddress(slots[j], addr)
      {
        if slots[i] != null && slots[i].kind == kind && SameAddress(slots[i], addr) {
          assert slots[..][i] in Occupants(slots[..]);
          return slots[i];
        }
        i := i + 1;
      }
    }

    // The increment that every lookup makes under the lock it searched under.
    method Take(d: Device)
      requires RefsOk() && d in Occupants(slots[..]) && d in known
      modifies this`trace, d`refcount
      ensures RefsOk() && trace == old(trace) + [Taken(d)]
      ensures d.refcount == old(d.refcount) + 1
    {
      d.refcount := d.refcount + 1;
      trace := trace + [Taken(d)];
      Snoc(old(trace), Taken(d));
    }

    // The lookup found r: it is registered now, and holding it is on record.
    ghost predicate Got(before: seq<Event>, r: Device?)
      reads this`trace, slots
    {
      if r == null then trace == before
      else r in Occupants(slots[..]) && trace == before + [Taken(r)]
    }

    method GetByName(name: string) returns (r: Device?)
      requires SlotsOk() && RefsOk()
      modifies this`trace, known`refcount
      ensures RefsOk() && Got(old(trace), r)
      ensures r != null ==> r.name == name
      ensures r == null <==> forall d :: d in Occupants(slots[..]) ==> d.name != name
    {
      r := FindByName(name);
      if r != null {
        Take(r);
      }
    }

    method GetByIndex(ifindex: int) returns (r: Device?)
      requires SlotsOk() && RefsOk()
      modifies this`trace, known`refcount
      ensures RefsOk() && Got(old(trace), r)
      ensures r != null ==> r.ifindex == ifindex
      ensures r == null <==> forall d :: d in Occupants(slots[..]) ==> d.ifindex != ifindex
    {
      if ifindex <= 0 || ifindex > MAX_DEVICES {
        return null;
      }
      r := slots[ifindex - 1];
      if r != null {
        assert slots[..][ifindex - 1] in Occupants(slots[..]);
        Take(r);
      }
    }

    method GetByHwaddr(kind: nat, addr: Address) returns (r: Device?)
      requires SlotsOk() && RefsOk()
      modifies this`trace, known`refcount
      ensures RefsOk() && Got(old(trace), r)
      ensures r != null ==> r.kind == kind && SameAddress(r, addr)
      ensures r == null <==> forall d :: d in Occupants(slots[..]) ==> d.kind != kind || !SameAddress(d, addr)
    {
      r := FindByHwaddr(kind, addr);
      if r != null {
        Take(r);
      }
    }

    method GetLoopback() returns (r: Device?)
      requires SlotsOk() && LoopbackOk() && RefsOk()
      modifies this`trace, known`refcount
      ensures RefsOk() && Got(old(trace), r)
      ensures r != null ==> r.isLoopback
      ensures r == null <==> forall d :: d in Occupants(slots[..]) ==> !d.isLoopback
    {
      r := loopback;
      if r != null {
        Take(r);
      }
    }

    // rtdev_reference, by a caller that already holds the device.
    method Reference(d: Device)
      requires SlotsOk() && RefsOk() && d in Held(trace)
      modifies this`trace, known`refcount
      ensures RefsOk() && trace == old(trace) + [Taken(d)]
    {
      HeldArePresent(trace, d);
      Take(d);
    }

    // rtdev_dereference, once for each reference held.
    method Dereference(d: Device)
      requires SlotsOk() && RefsOk() && d in Held(trace)
      modifies this`trace, known`refcount
      ensures RefsOk() && trace == old(trace) + [Dropped(d)]
      ensures d.refcount == old(d.refcount) - 1 >= 0
    {
      HeldArePresent(trace, d);
      d.refcount := d.refcount - 1;
      trace := trace + [Dropped(d)];
      Snoc(old(trace), Dropped(d));
    }

    lemma GotKeeps(before: seq<Event>, r: Device?)
      requires Got(before, r)
      ensures before <= trace && Held(before) <= Held(trace)
    {
      if r != null {
        Snoc(before, Taken(r));
      }
    }

    // One call by some other thread, which gives back references of its own, never mine.
    method Call(c: RtCall, mine: multiset<Device>)
      requires SlotsOk() && LoopbackOk() && RefsOk() && mine <= Held(trace)
      modifies this`trace, known`refcount
      ensures RefsOk() && old(trace) <= trace && mine <= Held(trace)
    {
      hide *;
      var r: Device?;
      match c {
        case ByName(name) =>
          r := GetByName(name);
          GotKeeps(old(trace), r);
        case ByIndex(ifindex) =>
          r := GetByIndex(ifindex);
          GotKeeps(old(trace), r);
        case ByHwaddr(kind, addr) =>
          r := GetByHwaddr(kind, addr);
          GotKeeps(old(trace), r);
        case Loopback =>
          r := GetLoopback();
          GotKeeps(old(trace), r);
        case Reference(d) =>
          if d in Held(trace) {
            Reference(d);
            TakenKeeps(old(trace), d);
          }
        case Dereference(d) =>
          if d in Held(trace) - mine {
            Dereference(d);
            DroppedKeeps(old(trace), d, mine);
          }
      }
    }

    // Any calls that may come in between while a registration holds only the other lock.
    method Meanwhile(calls: seq<RtCall>, mine: multiset<Device>)
      requires SlotsOk() && LoopbackOk() && RefsOk() && mine <= Held(trace)
      modifies this`trace, known`refcount
      ensures RefsOk() && old(trace) <= trace && mine <= Held(trace) && (calls == [] ==> trace == old(trace))
    {
      hide *;
      for k := 0 to |calls|
        invariant RefsOk() && mine <= Held(trace) && old(trace) <= trace && (k == 0 ==> trace == old(trace))
      {
        Call(calls[k], mine);
      }
    }

    // __rtdev_new_index: the lowest free slot, if any.
    method NewIndex() returns (ifindex: nat)
      requires Shaped()
      ensures ifindex == if null in slots[..] then FirstFree(slots[..]) + 1 else 0
    {
      var i := 0;
      while i < MAX_DEVICES
        invariant 0 <= i <= MAX_DEVICES
        invariant forall j :: 0 <= j < i ==> slots[j] != null
      {
        if slots[i] == null {
          assert slots[..][i] == null;
          return i + 1;
        }
        i := i + 1;
      }
      return 0;
    }

    ghost predicate Unused(name: Name)
      reads slots, known`name
    {
      forall d :: d in Occupants(slots[..]) && d in known ==> d.name != name
    }

    lemma UnusedTells(name: Name)
      requires Shaped()
      ensures Unused(name) <==> forall d :: d in Occupants(slots[..]) ==> d.name != name
    {
      Inside();
    }

    lemma GotMine(before: seq<Event>, r: Device)
      requires Got(before, r)
      ensures multiset{r} <= Held(trace)
    {
      Snoc(before, Taken(r));
    }

    // One round of rtdev_alloc_name: the lookup takes a reference and gives it back.
    method TryName(name: Name, between: seq<RtCall>) returns (unused: bool)
      requires SlotsOk() && LoopbackOk() && RefsOk()
      modifies this`trace, known`refcount
      ensures RefsOk() && old(trace) <= trace && unused == Unused(name)
      ensures between == [] ==> Held(trace) == old(Held(trace))
    {
      hide *;
      var tmp := GetByName(name);
      SlotsShaped();
      UnusedTells(name);
      GotKeeps(old(trace), tmp);
      unused := tmp == null;
      if tmp != null {
        GotMine(old(trace), tmp);
        Meanwhile(between, multiset{tmp});
        Dereference(tmp);
        Returned(old(trace), tmp);
      }
    }

    // A reference that was taken and given back leaves the others as they were.
    lemma Returned(before: seq<Event>, d: Device)
      ensures Held(before + [Taken(d)] + [Dropped(d)]) == Held(before)
    {
      Snoc(before, Taken(d));
      Snoc(before + [Taken(d)], Dropped(d));
    }

    // No other thread makes a call meanwhile.
    ghost predicate Quiet(during: nat -> seq<RtCall>) {
      forall j: nat :: j <= MAX_DEVICES ==> during(j) == []
    }

    // rtdev_alloc_name: the first expansion that no registered device bears.
    method AllocName(d: Device, mask: string, during: nat -> seq<RtCall>) returns (i: nat)
      requires SlotsOk() && LoopbackOk() && RefsOk() && IsMask(mask) && d in known
      modifies this`trace, known`refcount, d`name
      ensures RefsOk() && old(trace) <= trace && i <= MAX_DEVICES
      ensures forall j: nat :: j < i ==> !old(Unused(Expand(mask, j)))
      ensures i < MAX_DEVICES ==> old(Unused(Expand(mask, i))) && d.name == Expand(mask, i)
      ensures i == MAX_DEVICES ==> d.name == old(d.name)
      ensures Quiet(during) ==> Held(trace) == old(Held(trace))
    {
      hide Expand, IsMask, Occupants, SlotsOk, LoopbackOk, RefsOk, Held, Quiet;
      i := FirstUnused(mask, during);
      if i < MAX_DEVICES {
        d.name := Expand(mask, i);
      }
    }

    // Its loop.
    method FirstUnused(mask: string, during: nat -> seq<RtCall>) returns (i: nat)
      requires SlotsOk() && LoopbackOk() && RefsOk() && IsMask(mask)
      modifies this`trace, known`refcount
      ensures RefsOk() && old(trace) <= trace && i <= MAX_DEVICES
      ensures forall j: nat :: j < i ==> !Unused(Expand(mask, j))
      ensures i < MAX_DEVICES ==> Unused(Expand(mask, i))
      ensures Quiet(during) ==> Held(trace) == old(Held(trace))
    {
      hide Expand, IsMask, Occupants, SlotsOk, LoopbackOk, RefsOk, Unused, Held;
      i := 0;
      while i < MAX_DEVICES
        invariant i <= MAX_DEVICES && RefsOk() && old(trace) <= trace
        invariant forall j: nat :: j < i ==> !Unused(Expand(mask, j))
        invariant Quiet(during) ==> Held(trace) == old(Held(trace))
      {
        var unused := TryName(Expand(mask, i), during(i));
        if unused {
          break;
        }
        i := i + 1;
      }
    }

    // The device's answers fit the addresses that the listed buffers have.
    ghost predicate Compatible(d: Device, answers: Buffer -> nat)
      reads this`rtskbs, rtskbs`dmaAddr
    {
      d.hasMap ==>
        forall b :: b in rtskbs ==> answers(b) != UNMAPPED && (b.dmaAddr == UNMAPPED || b.dmaAddr == answers(b))
    }

    // rtdev_map_all_rtskbs for a device that is about to be registered.  An address that was
    // set is never changed, even when the mapping fails midway.
    method MapAll(d: Device, answers: Buffer -> nat) returns (err: Status)
      requires SlotsOk() && DmaOk() && d in known && d !in Occupants(slots[..])
      modifies d`mapped, buffers`dmaAddr
      ensures DmaOk() && err in {Ok, NoMemory, AccessDenied} && (err == Ok <==> old(Compatible(d, answers)))
      ensures forall b :: b in buffers && old(b.dmaAddr) != UNMAPPED ==> b.dmaAddr == old(b.dmaAddr)
      ensures forall b :: b in buffers && b !in rtskbs ==> b.dmaAddr == old(b.dmaAddr)
      ensures err == Ok && d.hasMap ==> forall b :: b in rtskbs ==> Agrees(d, b)
    {
      Inside();
      hide Occupants;
      err := Ok;
      if !d.hasMap {
        return;
      }
      var k := 0;
      while k < |rtskbs|
        invariant 0 <= k <= |rtskbs|
        invariant err == Ok
        invariant forall j :: k <= j < |rtskbs| ==> rtskbs[j].dmaAddr == old(rtskbs[j].dmaAddr)
        invariant forall j :: 0 <= j < k ==>
          answers(rtskbs[j]) != UNMAPPED &&
            (old(rtskbs[j].dmaAddr) == UNMAPPED || old(rtskbs[j].dmaAddr) == answers(rtskbs[j]))
        invariant forall b :: b in buffers && (old(b.dmaAddr) != UNMAPPED || b !in rtskbs) ==>
          b.dmaAddr == old(b.dmaAddr)
        invariant forall j :: 0 <= j < k ==> Agrees(d, rtskbs[j])
      {
        err := RtskbMap(d, rtskbs[k], answers(rtskbs[k]));
        if err != Ok {
          break;
        }
        k := k + 1;
      }
      forall x, b | x in Occupants(slots[..]) && x.hasMap && b in rtskbs ensures Agrees(x, b) {
        assert old(Agrees(x, b));
      }
    }

    // All registered devices with a map hook give one and the same address.
    ghost predicate Unanimous(answers: Device -> nat)
      reads slots
    {
      forall d, e :: d in Occupants(slots[..]) && d.hasMap && e in Occupants(slots[..]) && e.hasMap ==>
        answers(d) == answers(e) != UNMAPPED
    }

    // The device is in one of the first n slots.
    predicate InFirst(d: Device, n: nat)
      reads slots, d`ifindex
      requires n <= slots.Length
    {
      1 <= d.ifindex <= n && slots[d.ifindex - 1] == d
    }

    lemma InFirstTells(d: Device)
      requires SlotsOk() && d in known
      ensures d in Occupants(slots[..]) <==> InFirst(d, MAX_DEVICES)
    {
      if InFirst(d, MAX_DEVICES) {
        assert slots[..][d.ifindex - 1] in Occupants(slots[..]);
      }
    }

    // The device has no address for the buffer, or another one than those asked before it.
    ghost predicate Refuses(d: Device, b: Buffer, answers: Device -> nat)
      reads b`dmaAddr
    {
      answers(d) == UNMAPPED || (b.dmaAddr != UNMAPPED && answers(d) != b.dmaAddr)
    }

    // What every device maps now that the map hooks in the first n slots were asked; before, it was was.
    ghost predicate Asked(was: map<Device, map<Buffer, nat>>, n: nat, b: Buffer, answers: Device -> nat)
      reads slots, known`ifindex, known`mapped
      requires n <= slots.Length
    {
      && known <= was.Keys
      && forall d :: d in known ==>
        d.mapped == if d.hasMap && InFirst(d, n) && answers(d) != UNMAPPED then was[d][b := answers(d)] else was[d]
    }

    // The hooks in the first n slots gave the address of the buffer, if there are any.
    ghost predicate Answered(n: nat, b: Buffer, answers: Device -> nat)
      reads slots, b`dmaAddr
      requires n <= slots.Length
    {
      && (forall j :: 0 <= j < n && slots[j] != null && slots[j].hasMap ==> answers(slots[j]) == b.dmaAddr != UNMAPPED)
      && (b.dmaAddr != UNMAPPED ==> exists j :: 0 <= j < n && slots[j] != null && slots[j].hasMap)
    }

    // One round of the loop of rtdev_map_rtskb.
    method AskOne(i: nat, b: Buffer, answers: Device -> nat, ghost was: map<Device, map<Buffer, nat>>)
      returns (err: Status)
      requires SlotsOk() && i < MAX_DEVICES
      requires Asked(was, i, b, answers) && Answered(i, b, answers)
      modifies known`mapped, b`dmaAddr
      ensures Asked(was, i + 1, b, answers)
      ensures err == Ok ==> Answered(i + 1, b, answers)
      ensures err != Ok ==> Answered(i, b, answers) && b.dmaAddr == old(b.dmaAddr)
      ensures err != Ok ==> slots[i] != null && slots[i].hasMap && Refuses(slots[i], b, answers)
      ensures err != Ok ==> err == if answers(slots[i]) == UNMAPPED then NoMemory else AccessDenied
    {
      OnlyThere(i);
      hide SlotsOk, InFirst;
      err := Ok;
      if slots[i] != null && slots[i].hasMap {
        err := RtskbMap(slots[i], b, answers(slots[i]));
        if err == Ok {
          assert slots[i].hasMap && b.dmaAddr == answers(slots[i]);
        }
      }
    }

    // The loop of rtdev_map_rtskb over the registered devices: it asks the map hooks of the first n
    // slots and stops at the first one that has no address for the buffer or another one.
    method MapOnAll(b: Buffer, answers: Device -> nat, ghost was: map<Device, map<Buffer, nat>>)
      returns (err: Status, ghost n: nat)
      requires SlotsOk() && b.dmaAddr == UNMAPPED && Asked(was, 0, b, answers)
      modifies known`mapped, b`dmaAddr
      ensures n <= MAX_DEVICES && Asked(was, n, b, answers)
      ensures err == Ok ==> n == MAX_DEVICES && Answered(n, b, answers)
      ensures err != Ok ==> n > 0 && slots[n - 1] != null && slots[n - 1].hasMap && Refuses(slots[n - 1], b, answers)
      ensures err != Ok ==> Answered(n - 1, b, answers)
      ensures err != Ok ==> err == if answers(slots[n - 1]) == UNMAPPED then NoMemory else AccessDenied
    {
      NoneAnswered(b, answers);
      hide Occupants, SlotsOk, Asked, Answered, Refuses;
      SlotsShaped();
      ShapedTells();
      err := Ok;
      var i := 0;
      n := 0;
      while i < MAX_DEVICES
        invariant 0 <= i == n <= MAX_DEVICES && err == Ok
        invariant Asked(was, i, b, answers) && Answered(i, b, answers)
      {
        n := i + 1;
        err := AskOne(i, b, answers, was);
        if err != Ok {
          break;
        }
        i := i + 1;
      }
    }

    lemma NoneAnswered(b: Buffer, answers: Device -> nat)
      requires b.dmaAddr == UNMAPPED
      ensures Answered(0, b, answers)
    {
    }

    // The registered devices agreed on the listed buffers when they mapped what was says.
    ghost predicate Agreed(was: map<Device, map<Buffer, nat>>)
      reads this`rtskbs, slots, rtskbs`dmaAddr
    {
      && Unique(rtskbs) && (forall b :: b in rtskbs ==> b in buffers)
      && forall d, b :: d in Occupants(slots[..]) && d.hasMap && b in rtskbs ==>
        d in was && b in was[d] && was[d][b] == b.dmaAddr != UNMAPPED
    }

    ghost function Mappings(): (was: map<Device, map<Buffer, nat>>)
      reads known`mapped
    {
      map d | d in known :: d.mapped
    }

    lemma AgreedNow()
      requires SlotsOk() && DmaOk()
      ensures Agreed(Mappings())
    {
      Inside();
      forall d, b | d in Occupants(slots[..]) && d.hasMap && b in rtskbs
        ensures d in known && b in d.mapped && d.mapped[b] == b.dmaAddr != UNMAPPED
      {
        assert Agrees(d, b);
      }
    }

    lemma AskedAgree(was: map<Device, map<Buffer, nat>>, n: nat, b: Buffer, answers: Device -> nat)
      requires SlotsOk() && n <= MAX_DEVICES && Agreed(was) && Asked(was, n, b, answers) && b !in rtskbs
      ensures DmaOk()
    {
      Inside();
      hide Occupants, InFirst;
      forall d, x | d in Occupants(slots[..]) && d.hasMap && x in rtskbs ensures Agrees(d, x) {
        assert d in known && x != b;
      }
    }

    // What every device maps now that the unmap hooks in the first n slots were called.
    ghost predicate GivenUp(was: map<Device, map<Buffer, nat>>, n: nat, b: Buffer)
      reads slots, known`ifindex, known`mapped
      requires n <= slots.Length
    {
      && known <= was.Keys
      && forall d :: d in known ==> d.mapped == if d.hasUnmap && InFirst(d, n) then was[d] - {b} else was[d]
    }

    lemma GivenUpAgree(was: map<Device, map<Buffer, nat>>, n: nat, b: Buffer)
      requires SlotsOk() && n <= MAX_DEVICES && Agreed(was) && GivenUp(was, n, b) && b !in rtskbs
      ensures DmaOk()
    {
      Inside();
      hide Occupants, InFirst;
      forall d, x | d in Occupants(slots[..]) && d.hasMap && x in rtskbs ensures Agrees(d, x) {
        assert d in known && x != b;
      }
    }

    lemma AnsweredTells(b: Buffer, answers: Device -> nat)
      requires SlotsOk() && Answered(MAX_DEVICES, b, answers)
      ensures forall d :: d in Occupants(slots[..]) && d.hasMap ==> answers(d) == b.dmaAddr != UNMAPPED
      ensures Unanimous(answers)
      ensures b.dmaAddr == UNMAPPED <==> forall d :: d in Occupants(slots[..]) ==> !d.hasMap
    {
      if j :| 0 <= j < MAX_DEVICES && slots[j] != null && slots[j].hasMap {
        assert slots[..][j] in Occupants(slots[..]);
      }
    }

    lemma RefusedTells(n: nat, b: Buffer, answers: Device -> nat)
      requires SlotsOk() && 0 < n <= MAX_DEVICES && Answered(n - 1, b, answers)
      requires slots[n - 1] != null && slots[n - 1].hasMap && Refuses(slots[n - 1], b, answers)
      ensures !Unanimous(answers)
    {
      assert slots[..][n - 1] in Occupants(slots[..]);
      if b.dmaAddr != UNMAPPED {
        var j :| 0 <= j < n - 1 && slots[j] != null && slots[j].hasMap;
        assert slots[..][j] in Occupants(slots[..]);
      }
    }

    // A buffer on which the registered devices agree can be listed.
    lemma ListTells(b: Buffer, answers: Device -> nat, was: map<Device, map<Buffer, nat>>)
      requires SlotsOk() && DmaOk() && b in buffers && b !in rtskbs
      requires Asked(was, MAX_DEVICES, b, answers) && Answered(MAX_DEVICES, b, answers)
      ensures Unique([b] + rtskbs) && (forall x :: x in [b] + rtskbs ==> x in buffers)
      ensures MapsAgree(Occupants(slots[..]), [b] + rtskbs)
    {
      Inside();
      var list := [b] + rtskbs;
      forall d, x | d in Occupants(slots[..]) && d.hasMap && x in list ensures Agrees(d, x) {
        if x == b {
          InFirstTells(d);
        } else {
          assert x in rtskbs;
        }
      }
    }

    // rtdev_map_rtskb: the buffer is listed exactly when every registered device with a map
    // hook gave it one and the same address.  The devices that were asked keep what they mapped,
    // also when the buffer is not listed.
    method MapRtskb(b: Buffer, answers: Device -> nat) returns (err: Status, ghost n: nat)
      requires SlotsOk() && DmaOk() && b in buffers && b !in rtskbs
      modifies this`rtskbs, known`mapped, b`dmaAddr
      ensures DmaOk() && n <= MAX_DEVICES && (err == Ok ==> n == MAX_DEVICES)
      ensures rtskbs == if err == Ok then [b] + old(rtskbs) else old(rtskbs)
      ensures err == Ok ==> forall d :: d in Occupants(slots[..]) && d.hasMap ==> answers(d) == b.dmaAddr != UNMAPPED
      ensures err == Ok <==> Unanimous(answers)
      ensures err == Ok && b.dmaAddr == UNMAPPED <==> forall d :: d in Occupants(slots[..]) ==> !d.hasMap
      ensures forall d :: d in known ==>
        d.mapped == if d.hasMap && InFirst(d, n) && answers(d) != UNMAPPED then old(d.mapped)[b := answers(d)]
                    else old(d.mapped)
      ensures err != Ok ==> n > 0 && slots[n - 1] != null && slots[n - 1].hasMap && Refuses(slots[n - 1], b, answers)
      ensures err != Ok ==> Answered(n - 1, b, answers)
      ensures err != Ok ==> err == if answers(slots[n - 1]) == UNMAPPED then NoMemory else AccessDenied
    {
      hide Occupants, SlotsOk, DmaOk, Answered, Refuses, Unanimous, InFirst, Agreed, Asked;
      ghost var was := Mappings();
      AgreedNow();
      NoneAsked(b, answers);
      SlotsShaped();
      ShapedTells();
      b.dmaAddr := UNMAPPED;
      err, n := MapOnAll(b, answers, was);
      AskedTells(was, n, b, answers);
      AskedAgree(was, n, b, answers);
      if err == Ok {
        AnsweredTells(b, answers);
        Enlist(b, answers, was);
      } else {
        RefusedTells(n, b, answers);
        SomeHook(n);
      }
    }

    lemma NoneAsked(b: Buffer, answers: Device -> nat)
      ensures Asked(Mappings(), 0, b, answers)
    {
    }

    lemma AskedTells(was: map<Device, map<Buffer, nat>>, n: nat, b: Buffer, answers: Device -> nat)
      requires n <= slots.Length && Asked(was, n, b, answers)
      ensures known <= was.Keys
      ensures forall d :: d in known ==>
        d.mapped == if d.hasMap && InFirst(d, n) && answers(d) != UNMAPPED then was[d][b := answers(d)] else was[d]
    {
    }

    lemma SomeHook(n: nat)
      requires SlotsOk() && 0 < n <= MAX_DEVICES && slots[n - 1] != null && slots[n - 1].hasMap
      ensures exists d :: d in Occupants(slots[..]) && d.hasMap
    {
      assert slots[..][n - 1] in Occupants(slots[..]);
    }

    // list_add.
    method Enlist(b: Buffer, ghost answers: Device -> nat, ghost was: map<Device, map<Buffer, nat>>)
      requires SlotsOk() && DmaOk() && b in buffers && b !in rtskbs
      requires Asked(was, MAX_DEVICES, b, answers) && Answered(MAX_DEVICES, b, answers)
      modifies this`rtskbs
      ensures DmaOk() && rtskbs == [b] + old(rtskbs)
    {
      ListTells(b, answers, was);
      hide Occupants, Unique, MapsAgree, Asked, Answered;
      rtskbs := [b] + rtskbs;
    }

    // The loop of rtdev_unmap_rtskb.
    method UnmapOnAll(b: Buffer, ghost was: map<Device, map<Buffer, nat>>)
      requires SlotsOk() && GivenUp(was, 0, b)
      modifies known`mapped
      ensures GivenUp(was, MAX_DEVICES, b)
    {
      hide Occupants, SlotsOk, GivenUp;
      SlotsShaped();
      ShapedTells();
      var i := 0;
      while i < MAX_DEVICES
        invariant 0 <= i <= MAX_DEVICES && GivenUp(was, i, b)
      {
        UnmapOne(i, b, was);
        i := i + 1;
      }
    }

    // One round of it.
    method UnmapOne(i: nat, b: Buffer, ghost was: map<Device, map<Buffer, nat>>)
      requires SlotsOk() && i < MAX_DEVICES && GivenUp(was, i, b)
      modifies known`mapped
      ensures GivenUp(was, i + 1, b)
    {
      OnlyThere(i);
      hide SlotsOk, InFirst;
      if slots[i] != null && slots[i].hasUnmap {
        slots[i].mapped := slots[i].mapped - {b};
      }
    }

    // The device in slot i is the one device that is in the first i + 1 slots and not in the first i.
    lemma OnlyThere(i: nat)
      requires SlotsOk() && i < MAX_DEVICES
      ensures slots.Length == MAX_DEVICES && (slots[i] != null ==> slots[i] in known)
      ensures forall d :: d in known ==> (InFirst(d, i + 1) <==> InFirst(d, i) || slots[i] == d)
      ensures slots[i] != null ==> !InFirst(slots[i], i)
    {
    }

    lemma NoneGivenUp(b: Buffer)
      ensures GivenUp(Mappings(), 0, b)
    {
    }

    lemma GivenUpTells(was: map<Device, map<Buffer, nat>>, b: Buffer)
      requires SlotsOk() && GivenUp(was, MAX_DEVICES, b)
      ensures known <= was.Keys
      ensures forall d :: d in known ==>
        d.mapped == if d.hasUnmap && d in Occupants(slots[..]) then was[d] - {b} else was[d]
    {
      hide Occupants;
      forall d | d in known ensures d in Occupants(slots[..]) <==> InFirst(d, MAX_DEVICES) {
        InFirstTells(d);
      }
    }

    lemma AgreedWithout(b: Buffer, list: seq<Buffer>)
      requires Unique(rtskbs) && list == Without(rtskbs, b)
      ensures Unique(list) && b !in list && forall x :: x in list ==> x in rtskbs
    {
      WithoutTells(rtskbs, b);
    }

    // list_del.
    method Delist(b: Buffer, ghost was: map<Device, map<Buffer, nat>>)
      requires Agreed(was)
      modifies this`rtskbs
      ensures Agreed(was) && rtskbs == Without(old(rtskbs), b) && b !in rtskbs
    {
      AgreedWithout(b, Without(rtskbs, b));
      hide Occupants, Unique;
      rtskbs := Without(rtskbs, b);
    }

    // rtdev_unmap_rtskb: the buffer leaves the list exactly when it has an address, and then the
    // registered devices with an unmap hook, and no others, give up their mappings of it.
    method UnmapRtskb(b: Buffer)
      requires SlotsOk() && DmaOk() && b in rtskbs
      modifies this`rtskbs, known`mapped, b`dmaAddr
      ensures DmaOk() && b.dmaAddr == UNMAPPED
      ensures rtskbs == if old(b.dmaAddr) == UNMAPPED then old(rtskbs) else Without(old(rtskbs), b)
      ensures b !in rtskbs <==> old(b.dmaAddr) != UNMAPPED
      ensures forall d :: d in known ==>
        d.mapped == if b !in rtskbs && d.hasUnmap && d in Occupants(slots[..]) then old(d.mapped) - {b}
                    else old(d.mapped)
    {
      hide Occupants, SlotsOk, DmaOk, InFirst, Agreed, GivenUp, Without;
      if b.dmaAddr == UNMAPPED {
        return;
      }
      ghost var was := Mappings();
      AgreedNow();
      NoneGivenUp(b);
      SlotsShaped();
      ShapedTells();
      Delist(b, was);
      UnmapOnAll(b, was);
      b.dmaAddr := UNMAPPED;
      GivenUpTells(was, b);
      GivenUpAgree(was, MAX_DEVICES, b);
    }

    // A listed buffer has an address as soon as one registered device has a map hook.
    lemma HookedMeansMapped(d: Device, b: Buffer)
      requires SlotsOk() && DmaOk() && d in Occupants(slots[..]) && d.hasMap && b in rtskbs
      ensures b.dmaAddr != UNMAPPED && d.mapped[b] == b.dmaAddr
    {
      assert Agrees(d, b);
    }

    // rtdev_unmap_all_rtskbs for a device that has just left its slot.
    method UnmapAll(d: Device)
      requires SlotsOk() && DmaOk() && d in known && d !in Occupants(slots[..])
      modifies d`mapped
      ensures DmaOk()
      ensures d.mapped == if d.hasUnmap then old(d.mapped) - (set b | b in rtskbs) else old(d.mapped)
    {
      if !d.hasUnmap {
        return;
      }
      var k := 0;
      while k < |rtskbs|
        invariant 0 <= k <= |rtskbs| && DmaOk()
        invariant d.mapped == old(d.mapped) - (set b | b in rtskbs[..k])
      {
        d.mapped := d.mapped - {rtskbs[k]};
        assert rtskbs[..k + 1] == rtskbs[..k] + [rtskbs[k]];
        k := k + 1;
      }
      assert rtskbs[..k] == rtskbs;
    }

    method Store(i: nat, d: Device?)
      requires SlotsOk() && i < MAX_DEVICES && (d != null ==> d in known && d.ifindex == i + 1)
      modifies slots
      ensures SlotsOk() && slots[..] == old(slots[..])[i := d]
    {
      slots[i] := d;
    }

    lemma EnterTells(i: nat, d: Device)
      requires Valid() && i < MAX_DEVICES && slots[i] == null
      requires d in known && d !in Occupants(slots[..]) && Unused(d.name) && !HasPercent(d.name)
      requires d.isLoopback ==> loopback == null
      requires d.hasMap ==> forall b :: b in rtskbs ==> Agrees(d, b)
      ensures Occupants(slots[..]) <= known
      ensures Occupants(slots[..][i := d]) == Occupants(slots[..]) + {d}
      ensures Safe(trace + [Registered(d)]) && Held(trace + [Registered(d)]) == Held(trace)
      ensures Present(trace + [Registered(d)]) == Occupants(slots[..]) + {d}
      ensures ProperNames(Occupants(slots[..]) + {d}) && MapsAgree(Occupants(slots[..]) + {d}, rtskbs)
      ensures OneLoopback(Occupants(slots[..]) + {d}, if d.isLoopback then d else loopback)
    {
      Inside();
      OccupantsFill(slots[..], i, d);
      Snoc(trace, Registered(d));
      AddDevice(Occupants(slots[..]), d, loopback, rtskbs);
    }

    lemma LeaveTells(d: Device)
      requires Valid() && d in Occupants(slots[..]) && d.refcount == 0
      ensures Occupants(slots[..]) <= known && 1 <= d.ifindex <= MAX_DEVICES == slots.Length &&
        slots[d.ifindex - 1] == d
      ensures Occupants(slots[..][d.ifindex - 1 := null]) == Occupants(slots[..]) - {d}
      ensures Safe(trace + [Cleared(d)]) && Held(trace + [Cleared(d)]) == Held(trace)
      ensures Present(trace + [Cleared(d)]) == Occupants(slots[..]) - {d}
      ensures ProperNames(Occupants(slots[..]) - {d}) && MapsAgree(Occupants(slots[..]) - {d}, rtskbs)
      ensures OneLoopback(Occupants(slots[..]) - {d}, if d.isLoopback then null else loopback)
    {
      Inside();
      assert slots[d.ifindex - 1] == d;
      OccupantsClear(slots[..], d.ifindex - 1, d);
      Snoc(trace, Cleared(d));
      RemoveDevice(Occupants(slots[..]), d, loopback, rtskbs);
    }

    // What a device that is not registered would clear: the slot of another one, if its number
    // names an occupied slot.
    lemma StrayTells(d: Device)
      requires Valid() && d in known && d !in Occupants(slots[..]) && d.ifindex != 0
      ensures d.refcount == 0 && Occupants(slots[..]) <= known
      ensures 1 <= d.ifindex <= MAX_DEVICES == slots.Length && slots[d.ifindex - 1] != d
      ensures Occupants(slots[..][d.ifindex - 1 := null]) <= Occupants(slots[..])
      ensures ProperNames(Occupants(slots[..][d.ifindex - 1 := null]))
      ensures MapsAgree(Occupants(slots[..][d.ifindex - 1 := null]), rtskbs)
      ensures !Safe(trace + [Cleared(d)])
      ensures OneLoopback(Occupants(slots[..]), null) <==> loopback == null
    {
      Inside();
      if d in Held(trace) {
        HeldArePresent(trace, d);
      }
      assert forall i :: 0 <= i < MAX_DEVICES && slots[i] != null ==> slots[i] in Occupants(slots[..]);
      OccupantsShrink(slots[..], d.ifindex - 1);
      Snoc(trace, Cleared(d));
    }

    // The last step of a registration: the device enters the free slot i, whose number it has.
    method Enter(i: nat, d: Device)
      requires Valid() && i < MAX_DEVICES && slots[i] == null
      requires d in known && d !in Occupants(slots[..]) && d.ifindex == i + 1 && Unused(d.name) && !HasPercent(d.name)
      requires d.isLoopback ==> loopback == null
      requires d.hasMap ==> forall b :: b in rtskbs ==> Agrees(d, b)
      modifies this`loopback, this`trace, slots
      ensures Valid() && slots[..] == old(slots[..])[i := d]
      ensures trace == old(trace) + [Registered(d)]
    {
      hide Occupants, Safe, Present, Held, Agrees, ProperNames, OneLoopback, MapsAgree, SlotsOk, Unique;
      EnterTells(i, d);
      if d.isLoopback {
        loopback := d;
      }
      Store(i, d);
      trace := trace + [Registered(d)];
    }

    // The writes of rt_unregister_rtnetdev: the slot that the number of d names is cleared.  The
    // event is recorded under the name of the device that asked.
    method Clear(d: Device)
      requires SlotsOk() && d in known && 1 <= d.ifindex <= MAX_DEVICES
      modifies this`loopback, this`trace, slots
      ensures SlotsOk() && slots[..] == old(slots[..])[d.ifindex - 1 := null]
      ensures loopback == if d.isLoopback then null else old(loopback)
      ensures trace == if old(slots[d.ifindex - 1]) == null then old(trace) else old(trace) + [Cleared(d)]
    {
      var occupied := slots[d.ifindex - 1] != null;
      Store(d.ifindex - 1, null);
      if d.isLoopback {
        loopback := null;
      }
      if occupied {
        trace := trace + [Cleared(d)];
      }
    }

    // The slot that the number of d names is cleared.  Nobody holds d; if d is registered, that is
    // its own slot.
    method Leave(d: Device)
      requires Valid() && d in known && d.refcount == 0 && d.ifindex != 0
      modifies this`loopback, this`trace, slots
      ensures SlotsOk() && NamesOk() && DmaOk() && d !in Occupants(slots[..]) && d.ifindex <= MAX_DEVICES
      ensures slots[..] == old(slots[..])[d.ifindex - 1 := null]
      ensures loopback == if d.isLoopback then null else old(loopback)
      ensures trace == if old(slots[d.ifindex - 1]) == null then old(trace) else old(trace) + [Cleared(d)]
      ensures RefsOk() <==> d in old(Occupants(slots[..])) || old(slots[d.ifindex - 1]) == null
      ensures d in old(Occupants(slots[..])) ==> LoopbackOk()
      ensures old(slots[d.ifindex - 1]) == null ==> (LoopbackOk() <==> !(d.isLoopback && old(loopback) != null))
    {
      hide Occupants, Safe, Present, Held, Agrees, ProperNames, OneLoopback, MapsAgree, SlotsOk, Unique;
      if d in Occupants(slots[..]) {
        LeaveTells(d);
      } else {
        StrayTells(d);
        if slots[d.ifindex - 1] == null {
          EmptyClear(slots[..], d.ifindex - 1);
        }
      }
      Clear(d);
    }

    lemma ZeroTells(d: Device)
      requires Valid() && d in known && d.ifindex == 0
      ensures d !in Occupants(slots[..]) && d !in Held(trace) && d.refcount == 0 && Occupants(slots[..]) <= known
      ensures OneLoopback(Occupants(slots[..]), null) <==> loopback == null
    {
      Inside();
      if d in Held(trace) {
        HeldArePresent(trace, d);
      }
    }

    // The same writes for a device without a number: no slot is cleared.
    method LeaveOutside(d: Device)
      requires Valid() && d in known && d.ifindex == 0
      modifies this`loopback
      ensures SlotsOk() && NamesOk() && DmaOk() && RefsOk() && d !in Occupants(slots[..])
      ensures loopback == if d.isLoopback then null else old(loopback)
      ensures LoopbackOk() <==> !(d.isLoopback && old(loopback) != null)
    {
      hide Occupants, Safe, Present, Held, Agrees, ProperNames, OneLoopback, MapsAgree, SlotsOk, Unique;
      ZeroTells(d);
      if d.isLoopback {
        loopback := null;
      }
    }

    // Everything but the numbers: what holds in the middle of a registration of d, whose number
    // already is the new one.
    ghost predicate Renumbered(d: Device)
      reads this, slots, known, buffers, rtskbs
    {
      && Shaped() && Occupants(slots[..]) <= known && NamesOk() && LoopbackOk() && RefsOk() && DmaOk()
      && (SlotsOk() <==> d !in Occupants(slots[..]))
    }

    lemma RenumberedTells(d: Device)
      requires Renumbered(d)
      ensures Shaped() && Occupants(slots[..]) <= known && NamesOk() && LoopbackOk() && RefsOk() && DmaOk()
      ensures Valid() <==> d !in Occupants(slots[..])
    {
    }

    lemma RenumberedWhole(d: Device)
      requires Shaped() && Occupants(slots[..]) <= known && NamesOk() && LoopbackOk() && RefsOk() && DmaOk()
      requires SlotsOk() <==> d !in Occupants(slots[..])
      ensures Renumbered(d)
    {
    }

    // The new number: it is not that of the slot the device is in, if it is in one.
    method SetNumber(d: Device, ifindex: nat)
      requires SlotsOk() && d in known && 1 <= ifindex <= MAX_DEVICES && slots[ifindex - 1] == null
      modifies d`ifindex
      ensures Shaped() && (SlotsOk() <==> d !in Occupants(slots[..])) && d.ifindex == ifindex
    {
      assert d in Occupants(slots[..]) <==> exists i :: 0 <= i < MAX_DEVICES && slots[i] == d;
      hide Occupants;
      d.ifindex := ifindex;
    }

    // The steps of a registration, each seen as a step of the whole table.
    method IndexStep(d: Device, ifindex: nat)
      requires Valid() && d in known && 1 <= ifindex <= MAX_DEVICES && slots[ifindex - 1] == null
      modifies d`ifindex
      ensures Renumbered(d) && d.ifindex == ifindex
    {
      hide *;
      Parts();
      SetNumber(d, ifindex);
      RenumberedWhole(d);
    }

    // The naming part of a registration, with slot free to spare.  A mask always yields a name
    // that nobody bears; a registered device finds its own name taken.
    method NameStep(free: nat, d: Device, during: nat -> seq<RtCall>) returns (taken: bool)
      requires Renumbered(d) && d in known
      requires free < MAX_DEVICES && slots[free] == null
      requires HasPercent(d.name) ==> IsMask(d.name)
      modifies this`trace, known`refcount, d`name
      ensures Renumbered(d) && old(trace) <= trace && taken == !Unused(d.name)
      ensures !HasPercent(old(d.name)) ==> trace == old(trace)
      ensures taken == (!HasPercent(old(d.name)) && !old(Unused(d.name)))
      ensures d in Occupants(slots[..]) ==> taken
      ensures NameFor(old(d.name), d.name) && !HasPercent(d.name)
      ensures Quiet(during) ==> Held(trace) == old(Held(trace))
    {
      hide Occupants, Unused, LoopbackOk, RefsOk, NamesOk, DmaOk, SlotsOk, Shaped, HasPercent, IsMask, Expand,
        ProperNames, NameFor, Renumbered, Quiet, Held;
      RenumberedTells(d);
      if HasPercent(d.name) {
        PlainTells(d);
        MaskStep(free, d, during);
        RenumberedTells(d);
      } else {
        NameForSelf(d.name);
      }
      var other := FindByName(d.name);
      UnusedTells(d.name);
      taken := other != null;
    }

    lemma PlainTells(d: Device)
      requires Valid() || NamesOk()
      ensures HasPercent(d.name) ==> d !in Occupants(slots[..])
    {
    }

    // A mask is expanded, by rtdev_alloc_name.
    method MaskStep(free: nat, d: Device, during: nat -> seq<RtCall>)
      requires Valid() && d in known && d !in Occupants(slots[..])
      requires free < MAX_DEVICES && slots[free] == null && HasPercent(d.name) && IsMask(d.name)
      modifies this`trace, known`refcount, d`name
      ensures Renumbered(d) && old(trace) <= trace
      ensures Unused(d.name) && NameFor(old(d.name), d.name) && !HasPercent(d.name)
      ensures Quiet(during) ==> Held(trace) == old(Held(trace))
    {
      hide Occupants, LoopbackOk, RefsOk, NamesOk, DmaOk, SlotsOk, Shaped, HasPercent, IsMask, Expand, ProperNames,
        Quiet, Held;
      Parts();
      SlotsShaped();
      ghost var u := UnusedExpansion(slots[..], free, d.name);
      UnusedTells(Expand(d.name, u));
      var i := AllocName(d, d.name, during);
      ExpansionIsPlain(old(d.name), i);
      UnusedTells(d.name);
      Parts();
    }

    lemma NameForSelf(name: Name)
      requires !HasPercent(name)
      ensures NameFor(name, name)
    {
    }

    method MapStep(d: Device, answers: Buffer -> nat) returns (err: Status)
      requires Valid() && d in known && d !in Occupants(slots[..])
      modifies d`mapped, buffers`dmaAddr
      ensures Valid() && err in {Ok, NoMemory, AccessDenied} && (err == Ok <==> old(Compatible(d, answers)))
      ensures err == Ok && d.hasMap ==> forall b :: b in rtskbs ==> Agrees(d, b)
    {
      hide *;
      Parts();
      err := MapAll(d, answers);
      Whole();
    }

    method MeanwhileStep(calls: seq<RtCall>)
      requires Valid()
      modifies this`trace, known`refcount
      ensures Valid() && old(trace) <= trace && (calls == [] ==> trace == old(trace))
    {
      hide *;
      Parts();
      Meanwhile(calls, multiset{});
      Whole();
    }

    // The second half of a registration: the device maps the listed buffers and enters its slot.
    method Admit(i: nat, d: Device, between: seq<RtCall>, answers: Buffer -> nat) returns (r: Status)
      requires Valid() && i < MAX_DEVICES && slots[i] == null
      requires d in known && d !in Occupants(slots[..]) && d.ifindex == i + 1 && Unused(d.name) && !HasPercent(d.name)
      modifies this`loopback, this`trace, slots, known`refcount, d`mapped, buffers`dmaAddr
      ensures Valid() && old(trace) <= trace && r in {Ok, NoMemory, AccessDenied, Exists}
      ensures slots[..] == if r == Ok then old(slots[..])[i := d] else old(slots[..])
      ensures r == Exists ==> d.isLoopback && loopback != null
      ensures r == Ok <==> old(Compatible(d, answers)) && !(d.isLoopback && old(loopback) != null)
      ensures between == [] ==> trace == if r == Ok then old(trace) + [Registered(d)] else old(trace)
    {
      hide *;
      r := MapStep(d, answers);
      if r != Ok {
        return;
      }
      MeanwhileStep(between);
      if d.isLoopback && loopback != null {
        return Exists;
      }
      Enter(i, d);
    }

    // A registration once it has found slot i free.
    method RegisterAt(i: nat, d: Device, during: nat -> seq<RtCall>, answers: Buffer -> nat) returns (r: Status)
      requires Valid() && d in known
      requires i < MAX_DEVICES && slots[i] == null
      requires HasPercent(d.name) ==> IsMask(d.name)
      modifies this`loopback, this`trace, slots, known`refcount, d`name, d`ifindex, d`mapped, buffers`dmaAddr
      ensures NamesOk() && LoopbackOk() && RefsOk() && DmaOk()
      ensures Valid() <==> d !in old(Occupants(slots[..]))
      ensures old(trace) <= trace && r in {Ok, NoMemory, AccessDenied, Exists} && d.ifindex == i + 1
      ensures slots[..] == if r == Ok then old(slots[..])[i := d] else old(slots[..])
      ensures r == Exists ==> (d.isLoopback && loopback != null) || (!HasPercent(old(d.name)) && !old(Unused(d.name)))
      ensures !HasPercent(old(d.name)) && !old(Unused(d.name)) ==> r == Exists
      ensures !HasPercent(old(d.name)) && during(MAX_DEVICES) == [] ==>
        trace == if r == Ok then old(trace) + [Registered(d)] else old(trace)
      ensures NameFor(old(d.name), d.name)
      ensures r == Ok <==> (HasPercent(old(d.name)) || old(Unused(d.name))) && old(Compatible(d, answers)) &&
                           !(d.isLoopback && old(loopback) != null)
      ensures Quiet(during) ==> Held(trace) == old(Held(trace))
    {
      hide Held, Occupants, Unused, LoopbackOk, RefsOk, NamesOk, DmaOk, SlotsOk, Shaped, HasPercent, IsMask, NameFor,
        Renumbered, Valid, Compatible;
      IndexStep(d, i + 1);
      var taken := NameStep(i, d, during);
      RenumberedTells(d);
      if taken {
        return Exists;
      }
      ghost var before := trace;
      r := Admit(i, d, during(MAX_DEVICES), answers);
      Snoc(before, Registered(d));
      Parts();
    }

    // rt_register_rtnetdev, for a device that may be registered already: then a new number is
    // written into it before its name is found taken.  The numbers are kept exactly otherwise.
    method Register(d: Device, during: nat -> seq<RtCall>, answers: Buffer -> nat) returns (r: Status)
      requires Valid() && d in known
      requires HasPercent(d.name) ==> IsMask(d.name)
      modifies this`loopback, this`trace, slots, known`refcount, d`name, d`ifindex, d`mapped, buffers`dmaAddr
      ensures NamesOk() && LoopbackOk() && RefsOk() && DmaOk() && old(trace) <= trace
      ensures SlotsOk() <==> d !in old(Occupants(slots[..])) || null !in old(slots[..]) || d.version < VERS_2_0
      ensures r == Ok <==>
        && d.version >= 0x0200 && null in old(slots[..]) && (HasPercent(old(d.name)) || old(Unused(d.name)))
        && old(Compatible(d, answers)) && !(d.isLoopback && old(loopback) != null)
      ensures slots[..] == if r == Ok then old(slots[..])[FirstFree(old(slots[..])) := d] else old(slots[..])
      ensures d.ifindex ==
        if d.version >= VERS_2_0 && null in old(slots[..]) then FirstFree(old(slots[..])) + 1 else old(d.ifindex)
      ensures r == Invalid <==> d.version < VERS_2_0
      ensures r != Invalid && null !in old(slots[..]) ==> r == NoMemory
      ensures r == Exists ==> (d.isLoopback && loopback != null) || (!HasPercent(old(d.name)) && !old(Unused(d.name)))
      ensures r != Invalid && null in old(slots[..]) && !HasPercent(old(d.name)) && !old(Unused(d.name)) ==> r == Exists
      ensures !HasPercent(old(d.name)) && during(MAX_DEVICES) == [] ==>
        trace == if r == Ok then old(trace) + [Registered(d)] else old(trace)
      ensures d.version >= VERS_2_0 && null in old(slots[..]) ==> NameFor(old(d.name), d.name)
      ensures d.version < VERS_2_0 || null !in old(slots[..]) ==> d.name == old(d.name)
      ensures Quiet(during) ==> Held(trace) == old(Held(trace))
    {
      hide Held, Quiet, Occupants, Unused, LoopbackOk, RefsOk, NamesOk, DmaOk, SlotsOk, Shaped, HasPercent, IsMask,
        NameFor,
        Compatible, FirstFree;
      Parts();
      SlotsShaped();
      ShapedTells();
      if d.version < VERS_2_0 {
        return Invalid;
      }
      var ifindex := NewIndex();
      if ifindex == 0 {
        return NoMemory;
      }
      r := RegisterAt(ifindex - 1, d, during, answers);
    }

    lemma ShapedTells()
      requires Shaped()
      ensures slots.Length == MAX_DEVICES
    {
    }

    // Unregistering d keeps the table: it is registered, or the test of a checked build stops it, or
    // no slot that its number names is occupied and it is not a second loopback device.
    predicate Clears(d: Device)
      reads this`loopback, this`trace, slots, d`ifindex
      requires d.ifindex <= slots.Length
    {
      || d in Present(trace)
      || (checked && d.ifindex == 0)
      || ((d.ifindex == 0 || slots[d.ifindex - 1] == null) && !(d.isLoopback && loopback != null))
    }

    // One round of the polling loop of rt_unregister_rtnetdev, for any device.  As long as anybody
    // holds the device the round only defers; the caller comes again.  Only a checked build tests
    // for the number zero; otherwise the word in front of the slots is written (outside).
    method UnregisterPoll(d: Device) returns (done: bool, r: Status, outside: bool)
      requires Valid() && d in known
      modifies this`loopback, this`trace, slots, d`mapped
      ensures SlotsOk() && NamesOk() && DmaOk() && old(trace) <= trace && d.ifindex <= MAX_DEVICES
      ensures Valid() <==> old(Clears(d))
      ensures r == (if checked && d.ifindex == 0 then NoDevice else Ok) && (done <==> d !in old(Held(trace)))
      ensures outside <==> !checked && d.ifindex == 0
      ensures done ==> d !in Occupants(slots[..])
      ensures slots[..] == if done && d.ifindex != 0 then old(slots[..])[d.ifindex - 1 := null] else old(slots[..])
      ensures loopback == if done && r == Ok && d.isLoopback then null else old(loopback)
      ensures trace == if done && d.ifindex != 0 && old(slots[d.ifindex - 1]) != null then old(trace) + [Cleared(d)]
                       else old(trace)
      ensures d.mapped ==
        if done && r == Ok && d.hasUnmap then old(d.mapped) - (set b | b in rtskbs) else old(d.mapped)
    {
      hide Occupants, OneLoopback, ProperNames, Agrees, MapsAgree, Unique, Present, Held, Safe;
      outside := false;
      if d.ifindex == 0 {
        ZeroTells(d);
        if checked {
          return true, NoDevice, false;
        }
      }
      if d.refcount > 0 {
        HeldArePresent(trace, d);
        return false, Ok, false;
      }
      if d.ifindex == 0 {
        LeaveOutside(d);
        outside := true;
      } else {
        Leave(d);
      }
      Inside();
      UnmapAll(d);
      return true, Ok, outside;
    }

    method AllocStep(d: Device, mask: string, during: nat -> seq<RtCall>)
      requires Valid() && IsMask(mask) && d in known
      modifies this`trace, known`refcount, d`name
      ensures Valid() && old(trace) <= trace
    {
      hide Occupants, LoopbackOk, RefsOk, DmaOk, SlotsOk, Shaped, IsMask, Expand, ProperNames;
      Parts();
      OthersProper(Occupants(slots[..]), d);
      var i := AllocName(d, mask, during);
      if i < MAX_DEVICES {
        ExpansionIsPlain(mask, i);
        RenameDevice(Occupants(slots[..]), d, d.name);
      }
      Whole();
    }

    method MapBufferStep(b: Buffer, answers: Device -> nat)
      requires Valid() && b in buffers && b !in rtskbs
      modifies this`rtskbs, known`mapped, b`dmaAddr
      ensures Valid() && (rtskbs == old(rtskbs) || rtskbs == [b] + old(rtskbs))
      ensures forall d :: d in known && d !in Occupants(slots[..]) ==> d.mapped == old(d.mapped)
    {
      hide *;
      Parts();
      ghost var n;
      var err;
      err, n := MapRtskb(b, answers);
      NotAsked(n);
      Whole();
    }

    lemma NotAsked(n: nat)
      requires SlotsOk() && n <= MAX_DEVICES
      ensures n <= slots.Length && forall d :: d in known && d !in Occupants(slots[..]) ==> !InFirst(d, n)
    {
      forall d | d in known ensures d in Occupants(slots[..]) <==> InFirst(d, MAX_DEVICES) {
        InFirstTells(d);
      }
    }

    method UnmapBufferStep(b: Buffer)
      requires Valid() && b in rtskbs
      modifies this`rtskbs, known`mapped, b`dmaAddr
      ensures Valid() && forall x :: x in rtskbs ==> x in old(rtskbs)
      ensures forall d :: d in known && d !in Occupants(slots[..]) ==> d.mapped == old(d.mapped)
    {
      WithoutTells(rtskbs, b);
      hide *;
      Parts();
      UnmapRtskb(b);
      Whole();
    }

    method RegisterStep(d: Device, during: nat -> seq<RtCall>, answers: Buffer -> nat)
      requires Valid() && d in known && (HasPercent(d.name) ==> IsMask(d.name))
      requires !(d in Present(trace) && null in slots[..] && d.version >= VERS_2_0)
      modifies this`loopback, this`trace, slots, known`refcount, d`name, d`ifindex, d`mapped, buffers`dmaAddr
      ensures Valid() && old(trace) <= trace && Occupants(slots[..]) <= old(Occupants(slots[..])) + {d}
    {
      assert Present(trace) == Occupants(slots[..]);
      hide *;
      ghost var before := slots[..];
      var r := Register(d, during, answers);
      Whole();
      if r == Ok {
        OccupantsFill(before, FirstFree(before), d);
      }
    }

    method UnregisterStep(d: Device)
      requires Valid() && d in known && d.ifindex <= slots.Length && Clears(d)
      modifies this`loopback, this`trace, slots, d`mapped
      ensures Valid() && old(trace) <= trace && Occupants(slots[..]) <= old(Occupants(slots[..]))
      ensures d.mapped.Keys <= old(d.mapped.Keys)
    {
      hide *;
      ghost var before := slots[..];
      var done, r, outside := UnregisterPoll(d);
      if done && d.ifindex != 0 {
        OccupantsShrink(before, d.ifindex - 1);
      }
    }

    // One step of a run.  A caller gives back what it holds; a registration is left out exactly if
    // it would write a new number into a registered device, a round of unregistering exactly if it
    // would clear the slot of another device or the pointer to the loopback device.
    method Act(a: Action)
      requires Valid()
      modifies this, slots, known, buffers
      ensures Valid() && old(trace) <= trace
      ensures Occupants(slots[..]) <= old(Occupants(slots[..])) + Entrant(a)
      ensures forall d :: d in known - Subject(a) ==> d.name == old(d.name)
      ensures forall b :: b in rtskbs ==> b in old(rtskbs) || (a.Map? && a.b == b)
      ensures forall d :: d in known && d !in old(Occupants(slots[..])) && !(a.Register? && a.dev == d) ==>
        d.mapped.Keys <= old(d.mapped.Keys)
    {
      hide *;
      match a {
        case Rt(c) => MeanwhileStep([c]);
        case AllocName(d, mask, during) =>
          if d in known && IsMask(mask) { AllocStep(d, mask, during); }
        case Register(d, during, answers) =>
          if d in known && (HasPercent(d.name) ==> IsMask(d.name)) &&
             !(d in Present(trace) && null in slots[..] && d.version >= VERS_2_0) {
            RegisterStep(d, during, answers);
          }
        case Unregister(d) =>
          if d in known && d.ifindex <= slots.Length && Clears(d) { UnregisterStep(d); }
        case Map(b, answers) => if b in buffers && b !in rtskbs { MapBufferStep(b, answers); }
        case Unmap(b) =>
          if b in rtskbs {
            ListedKnown(b);
            UnmapBufferStep(b);
          }
      }
      SubjectTells(a);
    }

    lemma ListedKnown(b: Buffer)
      requires Valid() && b in rtskbs
      ensures b in buffers
    {
    }

    lemma SubjectTells(a: Action)
      ensures a.AllocName? || a.Register? || a.Unregister? ==> Subject(a) == {a.dev}
      ensures a.Register? ==> Entrant(a) == {a.dev}
      ensures Occupants(slots[..]) + {} == Occupants(slots[..])
    {
    }

    // Every run keeps everything above.
    method AnyRun(schedule: seq<Action>)
      requires Valid()
      modifies this, slots, known, buffers
      ensures Valid() && old(trace) <= trace
    {
      hide *;
      for k := 0 to |schedule|
        invariant Valid() && old(trace) <= trace
      {
        Act(schedule[k]);
      }
    }

    // The device maps no listed buffer, if it can unmap at all.
    ghost predicate Rid(d: Device)
      reads this`rtskbs, d`mapped
    {
      d.hasUnmap ==> forall b :: b in rtskbs ==> b !in d.mapped
    }

    // Unregistering a device gets it rid of the listed buffers.
    method UnregisterRids(d: Device) returns (done: bool, r: Status, outside: bool)
      requires Valid() && d in known
      modifies this`loopback, this`trace, slots, d`mapped
      ensures (Valid() <==> old(Clears(d))) && (done && r == Ok ==> Rid(d)) && (done ==> d !in Occupants(slots[..]))
    {
      hide Occupants, Valid, Clears;
      done, r, outside := UnregisterPoll(d);
    }

    // ... and it stays so in every run, until its registration is tried again, or a buffer is mapped
    // that it has mapped before although the buffer was not listed then.
    method StaysRid(schedule: seq<Action>, d: Device)
      requires Valid() && d in known && d !in Occupants(slots[..]) && Rid(d)
      requires forall k :: 0 <= k < |schedule| ==> !(schedule[k].Register? && schedule[k].dev == d)
      requires forall k :: 0 <= k < |schedule| && schedule[k].Map? ==> schedule[k].b !in d.mapped
      modifies this, slots, known, buffers
      ensures Valid() && d !in Occupants(slots[..]) && Rid(d)
    {
      hide Occupants, Valid;
      for k := 0 to |schedule|
        invariant Valid() && d !in Occupants(slots[..]) && Rid(d) && d.mapped.Keys <= old(d.mapped.Keys)
      {
        Act(schedule[k]);
      }
    }

    // Exactly: mapping a buffer leaves an unregistered device rid of the list, unless the buffer is
    // listed and the device has mapped it before.
    method MapRids(b: Buffer, answers: Device -> nat, d: Device) returns (err: Status)
      requires Valid() && b in buffers && b !in rtskbs && d in known && d !in Occupants(slots[..]) && Rid(d)
      modifies this`rtskbs, known`mapped, b`dmaAddr
      ensures Valid() && (Rid(d) <==> !(err == Ok && d.hasUnmap && b in d.mapped))
    {
      hide Occupants, Valid, SlotsOk, NamesOk, LoopbackOk, RefsOk, DmaOk, InFirst, Unanimous, Answered, Refuses;
      Parts();
      ghost var n;
      err, n := MapRtskb(b, answers);
      NotAsked(n);
      Whole();
    }

    // What other threads do; d itself is left to this one.
    method Others(schedule: seq<Action>, d: Device)
      requires Valid() && d in known && d !in Occupants(slots[..])
      modifies this, slots, known, buffers
      ensures Valid() && old(trace) <= trace && d !in Occupants(slots[..]) && d.name == old(d.name)
      ensures forall name :: schedule == [] ==> Unused(name) == old(Unused(name))
    {
      hide *;
      for k := 0 to |schedule|
        invariant Valid() && old(trace) <= trace && d !in Occupants(slots[..]) && d.name == old(d.name)
        invariant forall name :: k == 0 ==> Unused(name) == old(Unused(name))
      {
        if d !in Subject(schedule[k]) {
          Act(schedule[k]);
        }
      }
    }

    // A new name for a device that is not registered makes no difference to the table.
    method Rename(d: Device, name: Name)
      requires Valid() && d in known && d !in Occupants(slots[..])
      modifies d`name
      ensures Valid() && d.name == name && forall n :: Unused(n) == old(Unused(n))
    {
      Inside();
      hide Safe, Present, Held, Agrees, OneLoopback, MapsAgree, Unique, HasPercent;
      d.name := name;
    }

    // One round of rtdev_alloc_name at probe.
    method ProbeRound(d: Device, name: Name, calls: seq<RtCall>, others: seq<Action>) returns (unused: bool)
      requires Valid() && d in known && d !in Occupants(slots[..])
      modifies this, slots, known, buffers
      ensures Valid() && old(trace) <= trace && d !in Occupants(slots[..]) && d.name == old(d.name)
      ensures unused == Unused(name)
      ensures forall n :: others == [] ==> Unused(n) == old(Unused(n))
    {
      hide *;
      Others(others, d);
      Parts();
      unused := TryName(name, calls);
      Whole();
    }

    // No other thread comes in between.
    ghost predicate Alone(others: nat -> seq<Action>) {
      forall j :: others(j) == []
    }

    // The names that no registered device bears.
    ghost function Free(): (s: iset<Name>)
      reads slots, known`name
    {
      iset n: Name | Unused(n)
    }

    // Its loop: the first expansion that is free when it is looked up.
    method ProbeLoop(d: Device, mask: string, during: nat -> seq<RtCall>, others: nat -> seq<Action>)
      returns (i: nat)
      requires Valid() && d in known && d !in Occupants(slots[..])
      modifies this, slots, known, buffers
      ensures Valid() && old(trace) <= trace && d !in Occupants(slots[..]) && d.name == old(d.name)
      ensures i <= MAX_DEVICES && (i < MAX_DEVICES ==> Expand(mask, i) in Free())
      ensures Alone(others) ==> forall j: nat :: j < i ==> Expand(mask, j) !in old(Free())
    {
      hide Occupants, Expand, Valid, Unused;
      i := 0;
      while i < MAX_DEVICES
        invariant i <= MAX_DEVICES && Valid() && old(trace) <= trace
        invariant d !in Occupants(slots[..]) && d.name == old(d.name)
        invariant Alone(others) ==> Free() == old(Free())
        invariant Alone(others) ==> forall j: nat :: j < i ==> Expand(mask, j) !in old(Free())
      {
        ghost var before := Free();
        var unused := ProbeRound(d, Expand(mask, i), during(i), others(i));
        assert Alone(others) ==> Free() == before;
        if unused {
          break;
        }
        i := i + 1;
      }
    }

    // rtdev_alloc_name as drivers call it at probe, for a device that is not registered yet: no lock
    // is held, and other threads may do anything to other devices between its rounds and (after)
    // between the last lookup and the new name.
    method ProbeName(d: Device, mask: string, during: nat -> seq<RtCall>, others: nat -> seq<Action>,
                     after: seq<Action>)
      returns (i: nat)
      requires Valid() && IsMask(mask) && d in known && d !in Occupants(slots[..])
      modifies this, slots, known, buffers
      ensures Valid() && old(trace) <= trace && d !in Occupants(slots[..]) && i <= MAX_DEVICES
      ensures d.name == if i < MAX_DEVICES then Expand(mask, i) else old(d.name)
      ensures i < MAX_DEVICES && after == [] ==> Unused(d.name)
      ensures Alone(others) ==> forall j: nat :: j < i ==> !old(Unused(Expand(mask, j)))
    {
      hide Occupants, Expand, IsMask, Valid, Unused, Alone;
      i := ProbeLoop(d, mask, during, others);
      if i < MAX_DEVICES {
        Others(after, d);
        Rename(d, Expand(mask, i));
      }
    }

    // In every reachable state: whoever holds a device finds it registered, in the slot its
    // number names, and counted.
    lemma HolderFindsDevice(d: Device)
      requires Valid() && d in Held(trace)
      ensures d in known && d.refcount == Held(trace)[d] > 0
      ensures 1 <= d.ifindex <= MAX_DEVICES && slots[d.ifindex - 1] == d
    {
      HeldArePresent(trace, d);
      Inside();
    }
  }

  // A buffer that was listed while no device had a map hook stays listed when it is unmapped,
  // although its caller frees it next.
  method ListedAfterUnmap(checked: bool) returns (t: DeviceTable, b: Buffer)
    ensures fresh(t) && t.Valid() && b in t.rtskbs
  {
    b := new Buffer();
    t := new DeviceTable(checked, {}, {b});
    assert Occupants(t.slots[..]) <= {} by { t.Inside(); }
    hide *;
    t.Parts();
    ghost var n;
    var err;
    err, n := t.MapRtskb(b, _ => 0);
    t.UnmapRtskb(b);
    t.Whole();
  }

  // ---- names picked at probe ----

  predicate Simple(d: Device) {
    d.version >= VERS_2_0 && !d.isLoopback && !d.hasMap
  }

  // A device that is not registered is named, with nothing in between.
  method NameOne(t: DeviceTable, d: Device, mask: Name) returns (i: nat)
    requires t.Valid() && IsMask(mask) && d in t.known && d !in Occupants(t.slots[..]) && null in t.slots[..]
    modifies t`trace, t.known`refcount, d`name
    ensures t.Valid() && i < MAX_DEVICES && d.name == Expand(mask, i) && !HasPercent(d.name)
    ensures (forall j: nat :: j < i ==> !t.Unused(Expand(mask, j))) && t.Unused(Expand(mask, i))
    ensures forall n :: t.Unused(n) == old(t.Unused(n))
  {
    hide Occupants, HasPercent, IsMask, Expand, ProperNames, FirstFree, DeviceTable.SlotsOk, DeviceTable.LoopbackOk,
      DeviceTable.RefsOk, DeviceTable.DmaOk;
    t.Parts();
    t.SlotsShaped();
    t.ShapedTells();
    ghost var u := UnusedExpansion(t.slots[..], FirstFree(t.slots[..]), mask);
    t.UnusedTells(Expand(mask, u));
    i := t.AllocName(d, mask, _ => []);
    ExpansionIsPlain(mask, i);
    t.Whole();
  }

  // A simple device that has a name of its own registers: it is refused exactly if the name is taken.
  method RegisterNamed(t: DeviceTable, d: Device) returns (r: Status)
    requires t.Valid() && d in t.known && d !in Occupants(t.slots[..]) && Simple(d)
    requires !HasPercent(d.name) && null in t.slots[..]
    modifies t`loopback, t`trace, t.slots, t.known`refcount, d`name, d`ifindex, d`mapped, t.buffers`dmaAddr
    ensures t.Valid() && d.name == old(d.name) && r == if old(t.Unused(d.name)) then Ok else Exists
    ensures t.slots[..] == if r == Ok then old(t.slots[..])[FirstFree(old(t.slots[..])) := d] else old(t.slots[..])
  {
    hide Occupants, HasPercent, IsMask, FirstFree, DeviceTable.Valid, DeviceTable.SlotsOk, DeviceTable.NamesOk,
      DeviceTable.LoopbackOk, DeviceTable.RefsOk, DeviceTable.DmaOk, DeviceTable.Unused;
    r := t.Register(d, _ => [], _ => 0);
    t.Whole();
  }

  // The first of two free slots is taken.
  lemma OneTaken(slots: seq<Device?>, d: Device)
    requires |slots| == MAX_DEVICES
    requires exists i, j :: 0 <= i < j < MAX_DEVICES && slots[i] == null && slots[j] == null
    ensures null in slots && null in slots[FirstFree(slots) := d]
    ensures Occupants(slots[FirstFree(slots) := d]) == Occupants(slots) + {d}
  {
    var i, j :| 0 <= i < j < MAX_DEVICES && slots[i] == null && slots[j] == null;
    assert slots[FirstFree(slots) := d][j] == null;
    OccupantsFill(slots, FirstFree(slots), d);
  }

  // Two devices are named at probe, one after the other, before either is registered.  In any
  // table with room for both they get the same name, and the second one to register is refused.
  method NamedAlike(t: DeviceTable, d: Device, e: Device, mask: Name) returns (first: Status, second: Status)
    requires t.Valid() && IsMask(mask) && d in t.known && e in t.known && d != e
    requires d !in Occupants(t.slots[..]) && e !in Occupants(t.slots[..]) && Simple(d) && Simple(e)
    requires exists i, j :: 0 <= i < j < MAX_DEVICES && t.slots[..][i] == null && t.slots[..][j] == null
    modifies t, t.slots, t.known, t.buffers
    ensures t.Valid() && d.name == e.name && first == Ok && second == Exists
    ensures d in Occupants(t.slots[..]) && e !in Occupants(t.slots[..]) && null in t.slots[..]
  {
    hide Occupants, HasPercent, IsMask, Expand, FirstFree, Simple, DeviceTable.Valid, DeviceTable.SlotsOk,
      DeviceTable.NamesOk, DeviceTable.LoopbackOk, DeviceTable.RefsOk, DeviceTable.DmaOk, DeviceTable.Unused;
    ghost var before := t.slots[..];
    t.Parts();
    t.SlotsShaped();
    t.ShapedTells();
    OneTaken(before, d);
    var i := NameOne(t, d, mask);
    var j := NameOne(t, e, mask);
    assert i == j;
    first := RegisterNamed(t, d);
    t.Parts();
    t.SlotsShaped();
    t.UnusedTells(e.name);
    second := RegisterNamed(t, e);
  }

  // ---- runs in which the table is not kept ----

  // Who is in the slots when at most the first two are taken.
  ghost predicate FirstTwo(slots: seq<Device?>, a: Device?, b: Device?) {
    |slots| == MAX_DEVICES && slots[0] == a && slots[1] == b && forall i :: 2 <= i < MAX_DEVICES ==> slots[i] == null
  }

  lemma FirstTwoTells(slots: seq<Device?>, a: Device?, b: Device?)
    requires FirstTwo(slots, a, b)
    ensures null in slots && FirstFree(slots) == if a == null then 0 else if b == null then 1 else 2
    ensures forall d: Device :: d in Occupants(slots) <==> d == a || d == b
  {
    assert slots[2] == null;
    assert a != null ==> a == slots[0] && slots[0] in Occupants(slots);
    assert b != null ==> b == slots[1] && slots[1] in Occupants(slots);
  }

  lemma FirstTwoNext(slots: seq<Device?>, a: Device?, d: Device?)
    requires FirstTwo(slots, a, null)
    ensures a == null ==> FirstTwo(slots[0 := d], d, null)
    ensures FirstTwo(slots[1 := d], a, d)
  {
  }

  // An ordinary device, as far as registering is concerned.
  predicate Ordinary(d: Device)
    reads d`name
  {
    d.version == VERS_2_0 && !d.isLoopback && !HasPercent(d.name)
  }

  method NewDevice(name: Name, hooks: bool) returns (d: Device)
    requires !HasPercent(name)
    ensures fresh(d) && Ordinary(d) && d.name == name && d.ifindex == 0 && d.refcount == 0
    ensures d.hasMap == d.hasUnmap == hooks
  {
    d := new Device(name, VERS_2_0, false, hooks, hooks, 1, seq(MAX_ADDR_LEN, _ => 0), 6);
  }

  lemma RtethIsPlain()
    ensures !HasPercent("rteth0") && !HasPercent("rteth1") && "rteth0" != "rteth1"
  {
  }

  method NewTable(checked: bool, known: set<Device>, buffers: set<Buffer>) returns (t: DeviceTable)
    requires forall d :: d in known ==> d.refcount == 0 && d.ifindex == 0
    ensures fresh(t) && fresh(t.slots) && t.Valid() && t.trace == []
    ensures t.checked == checked && t.known == known && t.buffers == buffers && t.rtskbs == []
    ensures FirstTwo(t.slots[..], null, null)
  {
    t := new DeviceTable(checked, known, buffers);
  }

  // The registration of an ordinary device into the first or second slot: it succeeds exactly if
  // its name is not taken.
  method Enrol(t: DeviceTable, d: Device, ghost a: Device?) returns (r: Status)
    requires t.Valid() && FirstTwo(t.slots[..], a, null) && d in t.known && d != a && Ordinary(d) && t.rtskbs == []
    modifies t`loopback, t`trace, t.slots, t.known`refcount, d`name, d`ifindex, d`mapped, t.buffers`dmaAddr
    ensures t.Valid() && d.name == old(d.name) && d.ifindex == if a == null then 1 else 2
    ensures r == if a == null || a.name != d.name then Ok else Exists
    ensures t.trace == if r == Ok then old(t.trace) + [Registered(d)] else old(t.trace)
    ensures r == Ok && a == null ==> FirstTwo(t.slots[..], d, null)
    ensures r == Ok && a != null ==> FirstTwo(t.slots[..], a, d)
    ensures r != Ok ==> FirstTwo(t.slots[..], a, null)
  {
    t.Inside();
    FirstTwoTells(t.slots[..], a, null);
    FirstTwoNext(t.slots[..], a, d);
    t.UnusedTells(d.name);
    hide Occupants, FirstFree, FirstTwo, HasPercent, DeviceTable.Valid, DeviceTable.SlotsOk, DeviceTable.NamesOk,
      DeviceTable.LoopbackOk, DeviceTable.RefsOk, DeviceTable.DmaOk, DeviceTable.Unused;
    var answers: Buffer -> nat := _ => 0;
    r := t.Register(d, _ => [], answers);
    t.Whole();
  }

  // In any table with two devices that map the buffer differently: it is not listed, but the first
  // one has mapped it.  When that one is gone and the buffer is mapped again, it is listed, and the
  // device that is gone still maps it.
  method StaleMapping(t: DeviceTable, d: Device, e: Device, b: Buffer) returns (first: Status, second: Status)
    requires t.Valid() && FirstTwo(t.slots[..], d, e) && d in t.known && e in t.known && d !in Held(t.trace)
    requires d.hasMap && d.hasUnmap && e.hasMap && b in t.buffers && b !in t.rtskbs
    modifies t`rtskbs, t`loopback, t`trace, t.slots, t.known`mapped, b`dmaAddr
    ensures t.Valid() && first == AccessDenied && second == Ok
    ensures d !in Occupants(t.slots[..]) && d.hasUnmap && b in t.rtskbs && b in d.mapped
  {
    TwoRegistered(t, d, e);
    var answers: Device -> nat := x => if x == d then 1 else 2;
    assert !t.Unanimous(answers);
    hide Occupants, FirstTwo, Held, Present, Safe, DeviceTable.Valid, DeviceTable.SlotsOk, DeviceTable.NamesOk,
      DeviceTable.LoopbackOk, DeviceTable.RefsOk, DeviceTable.DmaOk, DeviceTable.Unanimous, DeviceTable.Answered;
    first := MapFails(t, d, b, answers);
    var done, r, outside := t.UnregisterPoll(d);
    second := MapAgain(t, d, b);
  }

  // The devices do not agree: the first of them keeps its mapping.
  method MapFails(t: DeviceTable, d: Device, b: Buffer, answers: Device -> nat) returns (err: Status)
    requires t.Valid() && b in t.buffers && b !in t.rtskbs && d in t.known && t.slots[0] == d && d.ifindex == 1
    requires d.hasMap && (forall x :: answers(x) != UNMAPPED) && !t.Unanimous(answers)
    modifies t`rtskbs, t.known`mapped, b`dmaAddr
    ensures t.Valid() && err == AccessDenied && t.rtskbs == old(t.rtskbs) && b in d.mapped
  {
    hide Occupants, DeviceTable.Valid, DeviceTable.SlotsOk, DeviceTable.Shaped, DeviceTable.NamesOk,
      DeviceTable.LoopbackOk, DeviceTable.RefsOk, DeviceTable.DmaOk, DeviceTable.Unanimous, DeviceTable.Answered,
      DeviceTable.Refuses;
    t.Parts();
    t.SlotsShaped();
    t.ShapedTells();
    ghost var n;
    err, n := t.MapRtskb(b, answers);
    t.Whole();
  }

  // The devices that are left agree.
  method MapAgain(t: DeviceTable, d: Device, b: Buffer) returns (err: Status)
    requires t.Valid() && b in t.buffers && b !in t.rtskbs && d in t.known && d !in Occupants(t.slots[..])
    requires b in d.mapped
    modifies t`rtskbs, t.known`mapped, b`dmaAddr
    ensures t.Valid() && err == Ok && b in t.rtskbs && b in d.mapped
  {
    hide Occupants, DeviceTable.Valid, DeviceTable.SlotsOk, DeviceTable.Shaped, DeviceTable.NamesOk,
      DeviceTable.LoopbackOk, DeviceTable.RefsOk, DeviceTable.DmaOk, DeviceTable.Answered, DeviceTable.Refuses,
      DeviceTable.InFirst;
    t.Parts();
    var answers: Device -> nat := _ => 2;
    assert t.Unanimous(answers);
    ghost var n;
    err, n := t.MapRtskb(b, answers);
    t.NotAsked(n);
    t.Whole();
  }

  lemma TwoRegistered(t: DeviceTable, d: Device, e: Device)
    requires t.Valid() && FirstTwo(t.slots[..], d, e)
    ensures t.slots.Length == MAX_DEVICES && t.slots[0] == d && d.ifindex == 1 && d != e
    ensures d in Occupants(t.slots[..]) && e in Occupants(t.slots[..]) && d in Present(t.trace)
  {
    assert t.slots[..][0] in Occupants(t.slots[..]) && t.slots[..][1] in Occupants(t.slots[..]);
  }

  // A run that comes to this.
  method StaleRun(checked: bool) returns (t: DeviceTable, d: Device, b: Buffer)
    ensures fresh(t) && t.Valid() && d !in Occupants(t.slots[..]) && !t.Rid(d) && b in t.rtskbs && b in d.mapped
  {
    hide HasPercent, Ordinary, FirstTwo, FirstFree, Occupants, Held, Present, Safe, DeviceTable.Valid,
      DeviceTable.SlotsOk, DeviceTable.NamesOk, DeviceTable.LoopbackOk, DeviceTable.RefsOk, DeviceTable.DmaOk;
    RtethIsPlain();
    d := NewDevice("rteth0", true);
    var e := NewDevice("rteth1", true);
    b := new Buffer();
    t := NewTable(checked, {d, e}, {b});
    var r := Enrol(t, d, null);
    r := Enrol(t, e, d);
    BothRegistered(d, e);
    var first, second := StaleMapping(t, d, e, b);
  }

  lemma BothRegistered(d: Device, e: Device)
    ensures d !in Held([] + [Registered(d)] + [Registered(e)])
  {
    Snoc([], Registered(d));
    Snoc([] + [Registered(d)], Registered(e));
  }

  // A device registers twice: the second time it gets an error and the number of a free slot.
  method RegisteredTwice(checked: bool) returns (t: DeviceTable, d: Device, r: Status)
    ensures fresh(t) && !t.SlotsOk()
    ensures r == Exists && d in Occupants(t.slots[..]) && d.ifindex == 2
  {
    hide HasPercent, Ordinary, FirstTwo, FirstFree, Occupants, Held, Present, Safe, DeviceTable.Valid,
      DeviceTable.SlotsOk, DeviceTable.NamesOk, DeviceTable.LoopbackOk, DeviceTable.RefsOk, DeviceTable.DmaOk;
    RtethIsPlain();
    d := NewDevice("rteth0", false);
    t := NewTable(checked, {d}, {});
    r := Enrol(t, d, null);
    r := RegisterAgain(t, d);
  }

  method RegisterAgain(t: DeviceTable, d: Device) returns (r: Status)
    requires t.Valid() && FirstTwo(t.slots[..], d, null) && d in t.known && Ordinary(d)
    modifies t`loopback, t`trace, t.slots, t.known`refcount, d`name, d`ifindex, d`mapped, t.buffers`dmaAddr
    ensures !t.SlotsOk() && r == Exists && d in Occupants(t.slots[..]) && d.ifindex == 2
  {
    t.Inside();
    FirstTwoTells(t.slots[..], d, null);
    t.UnusedTells(d.name);
    hide Occupants, FirstFree, FirstTwo, HasPercent, DeviceTable.Valid, DeviceTable.SlotsOk, DeviceTable.NamesOk,
      DeviceTable.LoopbackOk, DeviceTable.RefsOk, DeviceTable.DmaOk, DeviceTable.Unused;
    r := t.Register(d, _ => [], _ => 0);
  }

  // Looking up a registered device by its name finds it.
  method LookUp(t: DeviceTable, i: nat, d: Device)
    requires t.Valid() && i < MAX_DEVICES && t.slots[i] == d
    modifies t`trace, t.known`refcount
    ensures t.Valid() && d in Held(t.trace)
  {
    hide Occupants, Held, Present, Safe, ProperNames, DeviceTable.SlotsOk, DeviceTable.NamesOk, DeviceTable.LoopbackOk,
      DeviceTable.RefsOk, DeviceTable.DmaOk;
    t.Parts();
    SlotTells(t, i, d);
    var r := t.GetByName(d.name);
    SlotTells(t, i, d);
    t.GotMine(old(t.trace), d);
  }

  // In any table: a device is looked up, and another one, which is not registered but has the number
  // of its slot, is unregistered.  The slot of the device that is held is cleared.
  method LookUpAndClear(t: DeviceTable, i: nat, held: Device, stray: Device)
    requires t.Valid() && i < MAX_DEVICES && t.slots[i] == held
    requires stray in t.known && stray !in Occupants(t.slots[..]) && stray.ifindex == i + 1
    modifies t`loopback, t`trace, t.slots, t.known`refcount, stray`mapped
    ensures !t.Valid() && held in Held(t.trace) && held !in Occupants(t.slots[..])
  {
    hide Occupants, Held, Present, Safe, DeviceTable.Valid, DeviceTable.SlotsOk, DeviceTable.NamesOk,
      DeviceTable.LoopbackOk, DeviceTable.RefsOk, DeviceTable.DmaOk;
    LookUp(t, i, held);
    t.Parts();
    SlotTells(t, i, held);
    NotHeld(t, stray);
    ghost var before := t.trace;
    var done, status, outside := t.UnregisterPoll(stray);
    Snoc(before, Cleared(stray));
  }

  // A registered device is the only one in its slot and the only one of its name.
  lemma SlotTells(t: DeviceTable, i: nat, d: Device)
    requires t.SlotsOk() && t.NamesOk() && i < MAX_DEVICES && t.slots[i] == d
    ensures t.slots.Length == MAX_DEVICES && d in Occupants(t.slots[..]) && d.ifindex == i + 1
    ensures d !in Occupants(t.slots[..][i := null])
    ensures forall e :: e in Occupants(t.slots[..]) && e.name == d.name ==> e == d
  {
    assert t.slots[..][i] in Occupants(t.slots[..]);
    OccupantsClear(t.slots[..], i, d);
  }

  lemma NotHeld(t: DeviceTable, d: Device)
    requires t.RefsOk() && d !in Occupants(t.slots[..])
    ensures d !in Held(t.trace) && d !in Present(t.trace)
  {
    if d in Held(t.trace) {
      HeldArePresent(t.trace, d);
    }
  }

  // Two devices of one name: the second is refused and keeps the number 2.  A third one takes the
  // slot of that number and is looked up; unregistering the second clears it while it is held.
  method HeldDeviceCleared(checked: bool) returns (t: DeviceTable, third: Device)
    ensures fresh(t) && !t.Valid() && third in Held(t.trace) && third !in Occupants(t.slots[..])
  {
    hide HasPercent, Ordinary, FirstTwo, FirstFree, Occupants, Held, Present, Safe, DeviceTable.Valid,
      DeviceTable.SlotsOk, DeviceTable.NamesOk, DeviceTable.LoopbackOk, DeviceTable.RefsOk, DeviceTable.DmaOk;
    RtethIsPlain();
    var first := NewDevice("rteth0", false);
    var second := NewDevice("rteth0", false);
    third := NewDevice("rteth1", false);
    t := NewTable(checked, {first, second, third}, {});
    var r := Enrol(t, first, null);
    r := Enrol(t, second, first);
    r := Enrol(t, third, first);
    FirstTwoTells(t.slots[..], first, third);
    FirstTwoSlots(t.slots[..], first, third);
    LookUpAndClear(t, 1, third, second);
  }

  lemma FirstTwoSlots(slots: seq<Device?>, a: Device?, b: Device?)
    requires FirstTwo(slots, a, b)
    ensures |slots| == MAX_DEVICES && slots[0] == a && slots[1] == b
  {
  }

  method UnregisterFirst(t: DeviceTable, d: Device)
    requires t.Valid() && FirstTwo(t.slots[..], d, null) && d in t.known && d !in Held(t.trace)
    modifies t`loopback, t`trace, t.slots, d`mapped
    ensures t.Valid() && FirstTwo(t.slots[..], null, null) && d.ifindex == 1
  {
    SlotTells(t, 0, d);
    hide Occupants, Held, Present, Safe, ProperNames, DeviceTable.SlotsOk, DeviceTable.NamesOk,
      DeviceTable.LoopbackOk, DeviceTable.DmaOk;
    var done, r, outside := t.UnregisterPoll(d);
  }

  // A device unregisters twice, and another one took its slot in between.
  method UnregisteredTwice(checked: bool) returns (t: DeviceTable, second: Device)
    ensures fresh(t) && !t.Valid() && second in Held(t.trace) && second !in Occupants(t.slots[..])
  {
    hide HasPercent, Ordinary, FirstTwo, FirstFree, Occupants, Held, Present, Safe, DeviceTable.Valid,
      DeviceTable.SlotsOk, DeviceTable.NamesOk, DeviceTable.LoopbackOk, DeviceTable.RefsOk, DeviceTable.DmaOk;
    RtethIsPlain();
    var first := NewDevice("rteth0", false);
    second := NewDevice("rteth1", false);
    t := NewTable(checked, {first, second}, {});
    var r := Enrol(t, first, null);
    OnlyRegistered(first);
    UnregisterFirst(t, first);
    r := Enrol(t, second, null);
    FirstTwoTells(t.slots[..], second, null);
    FirstTwoSlots(t.slots[..], second, null);
    LookUpAndClear(t, 0, second, first);
  }

  lemma OnlyRegistered(d: Device)
    ensures d !in Held([] + [Registered(d)])
  {
    Snoc([], Registered(d));
  }

  // In any full table: a device without a number is refused for want of a slot and then
  // unregistered.  A checked build notices; the default build writes in front of the slots, and if
  // the device is a loopback device it takes the pointer to the registered one away.
  method RefusedThenUnregistered(t: DeviceTable, d: Device) returns (refused: Status, r: Status, outside: bool)
    requires t.Valid() && null !in t.slots[..] && d in t.known && d.ifindex == 0
    requires d.version >= VERS_2_0 && !HasPercent(d.name)
    modifies t`loopback, t`trace, t.slots, t.known`refcount, d`name, d`ifindex, d`mapped, t.buffers`dmaAddr
    ensures refused == NoMemory && r == (if t.checked then NoDevice else Ok) && (outside <==> !t.checked)
    ensures t.slots[..] == old(t.slots[..])
    ensures t.loopback == if !t.checked && d.isLoopback then null else old(t.loopback)
    ensures t.Valid() <==> t.checked || !(d.isLoopback && old(t.loopback) != null)
  {
    t.ZeroTells(d);
    hide Occupants, HasPercent, FirstFree, Held, Present, Safe, DeviceTable.Valid, DeviceTable.SlotsOk,
      DeviceTable.NamesOk, DeviceTable.LoopbackOk, DeviceTable.RefsOk, DeviceTable.DmaOk, DeviceTable.Unused;
    refused := t.Register(d, _ => [], _ => 0);
    t.Whole();
    ZeroStays(t, d);
    var done;
    done, r, outside := t.UnregisterPoll(d);
  }

  lemma ZeroStays(t: DeviceTable, d: Device)
    requires t.Valid() && d in t.known && d.ifindex == 0
    ensures d !in Held(t.trace) && d !in Present(t.trace) && d.ifindex <= t.slots.Length
  {
    t.ZeroTells(d);
  }

  // The slots up to i are taken by the devices, in their order, and the others are free.
  ghost predicate FilledTo(slots: seq<Device?>, devices: seq<Device>, i: nat) {
    |slots| == |devices| == MAX_DEVICES && forall k :: 0 <= k < MAX_DEVICES ==>
      slots[k] == if k < i then devices[k] else null
  }

  lemma FilledTells(slots: seq<Device?>, devices: seq<Device>, i: nat)
    requires FilledTo(slots, devices, i) && i <= MAX_DEVICES
    ensures FirstFree(slots) == i && (null in slots <==> i < MAX_DEVICES)
    ensures i < MAX_DEVICES ==> FilledTo(slots[i := devices[i]], devices, i + 1)
    ensures forall k :: i <= k < MAX_DEVICES && devices[k] !in devices[..i] ==> devices[k] !in Occupants(slots)
    ensures forall k :: 0 <= k < i ==> devices[k] in Occupants(slots)
  {
    assert i < MAX_DEVICES ==> slots[i] == null;
    forall k | 0 <= k < i ensures devices[k] in Occupants(slots) { assert slots[k] == devices[k]; }
  }

  // A device that wants any name, and no mappings.
  predicate Nameless(d: Device)
    reads d`name
  {
    d.version == VERS_2_0 && !d.hasMap && d.name == "rteth%d"
  }

  lemma RtethMask()
    ensures HasPercent("rteth%d") && IsMask("rteth%d")
  {
    assert "rteth%d"[5] == '%';
    assert ConvertsAt("rteth%d", 5);
  }

  method NewNameless(isLoopback: bool) returns (d: Device)
    ensures fresh(d) && Nameless(d) && d.isLoopback == isLoopback && d.ifindex == 0 && d.refcount == 0
  {
    d := new Device("rteth%d", VERS_2_0, isLoopback, false, false, 1, seq(MAX_ADDR_LEN, _ => 0), 6);
  }

  // Eight different devices, the first of them a loopback device.
  ghost predicate Eight(devices: seq<Device>)
    reads devices`name
  {
    && |devices| == MAX_DEVICES
    && (forall k :: 0 <= k < MAX_DEVICES ==> Nameless(devices[k]) && (devices[k].isLoopback <==> k == 0))
    && forall j, k :: 0 <= j < k < MAX_DEVICES ==> devices[j] != devices[k]
  }

  lemma LoopbackTells(t: DeviceTable, d: Device)
    requires t.Valid() && d in Occupants(t.slots[..]) && d.isLoopback
    ensures t.loopback == d
  {
  }

  // One of them registers: nothing stands in the way.
  method RegisterNext(t: DeviceTable, d: Device, ghost devices: seq<Device>, ghost i: nat)
    requires t.Valid() && i < MAX_DEVICES && FilledTo(t.slots[..], devices, i)
    requires d == devices[i] && d in t.known && d !in devices[..i] && Nameless(d)
    requires d.isLoopback ==> t.loopback == null
    modifies t`loopback, t`trace, t.slots, t.known`refcount, d`name, d`ifindex, d`mapped, t.buffers`dmaAddr
    ensures t.Valid() && FilledTo(t.slots[..], devices, i + 1)
  {
    hide Occupants, HasPercent, IsMask, FirstFree, DeviceTable.Valid, DeviceTable.SlotsOk, DeviceTable.NamesOk,
      DeviceTable.LoopbackOk, DeviceTable.RefsOk, DeviceTable.DmaOk, DeviceTable.Unused;
    FilledTells(t.slots[..], devices, i);
    RtethMask();
    var r := t.Register(d, _ => [], _ => 0);
    t.Whole();
  }

  method Fill(t: DeviceTable, devices: seq<Device>)
    requires t.Valid() && FilledTo(t.slots[..], devices, 0) && Eight(devices) && t.loopback == null
    requires forall k :: 0 <= k < |devices| ==> devices[k] in t.known
    modifies t`loopback, t`trace, t.slots, t.known`refcount, devices`name, devices`ifindex, devices`mapped
    modifies t.buffers`dmaAddr
    ensures t.Valid() && null !in t.slots[..] && t.loopback == devices[0] && devices[0] in Occupants(t.slots[..])
  {
    hide Occupants, FilledTo, DeviceTable.Valid;
    var i := 0;
    while i < MAX_DEVICES
      invariant 0 <= i <= MAX_DEVICES && t.Valid() && FilledTo(t.slots[..], devices, i)
      invariant i == 0 ==> t.loopback == null
      invariant forall k :: i <= k < MAX_DEVICES ==> Nameless(devices[k])
    {
      RegisterNext(t, devices[i], devices, i);
      i := i + 1;
    }
    FilledTells(t.slots[..], devices, MAX_DEVICES);
    LoopbackTells(t, devices[0]);
  }

  method NewDevices() returns (devices: seq<Device>)
    ensures Eight(devices) && forall k :: 0 <= k < |devices| ==> fresh(devices[k])
    ensures forall k :: 0 <= k < |devices| ==> devices[k].ifindex == 0 && devices[k].refcount == 0
  {
    devices := [];
    while |devices| < MAX_DEVICES
      invariant |devices| <= MAX_DEVICES
      invariant forall k :: 0 <= k < |devices| ==> fresh(devices[k]) && Nameless(devices[k])
      invariant forall k :: 0 <= k < |devices| ==> devices[k].ifindex == 0 && devices[k].refcount == 0
      invariant forall k :: 0 <= k < |devices| ==> (devices[k].isLoopback <==> k == 0)
      invariant forall j, k :: 0 <= j < k < |devices| ==> devices[j] != devices[k]
    {
      var d := NewNameless(|devices| == 0);
      devices := devices + [d];
    }
  }

  // Eight devices fill the table, the loopback device among them.  A second loopback device is
  // refused and unregistered: in the default build nobody finds the first one any more.
  method LoopbackLost(checked: bool) returns (t: DeviceTable, refused: Status, r: Status, outside: bool)
    ensures fresh(t) && refused == NoMemory && (outside <==> !checked) && (t.Valid() <==> checked)
    ensures !checked ==> r == Ok && t.loopback == null && exists d :: d in Occupants(t.slots[..]) && d.isLoopback
  {
    hide Occupants, HasPercent, FilledTo, FirstTwo, DeviceTable.Valid;
    var devices := NewDevices();
    var lost := new Device("rtlo", VERS_2_0, true, false, false, 1, seq(MAX_ADDR_LEN, _ => 0), 6);
    t := new DeviceTable(checked, (set d | d in devices) + {lost}, {});
    EmptyFilled(t.slots[..], devices);
    Fill(t, devices);
    RtloIsPlain();
    refused, r, outside := RefusedThenUnregistered(t, lost);
    assert devices[0] in Occupants(t.slots[..]);
  }

  lemma EmptyFilled(slots: seq<Device?>, devices: seq<Device>)
    requires |slots| == |devices| == MAX_DEVICES && forall k :: 0 <= k < MAX_DEVICES ==> slots[k] == null
    ensures FilledTo(slots, devices, 0)
  {
  }

  lemma RtloIsPlain()
    ensures !HasPercent("rtlo")
  {
  }
}
