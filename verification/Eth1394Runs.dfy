/**
 Whole runs of the reassembly of one node: any number of fragments of any datagrams, interleaved in any way.
 */
module Eth1394Runs {
  import opened Wrappers
  import opened Bytes
  import opened Sets
  import opened Eth1394Fragments
  import opened Eth1394Receiver

  /** The handler starts from `lists[0]`; arrival `k` turns `lists[k]` into `lists[k + 1]` and delivers `outs[k]`. */
  ghost predicate IsRun(max: nat, run: seq<Arrival>, lists: seq<seq<Partial>>, outs: seq<Option<Datagram>>) {
    && 0 < max
    && |lists| == |run| + 1 && |outs| == |run|
    && ListOk(lists[0], max)
    && forall k :: 0 <= k < |run| ==>
      Admissible(lists[k], run[k]) && Step(lists[k], max, run[k]) == (lists[k + 1], outs[k])
  }

  lemma {:induction false} RunBounded(max: nat, run: seq<Arrival>, lists: seq<seq<Partial>>,
                                      outs: seq<Option<Datagram>>, k: nat)
    requires IsRun(max, run, lists, outs) && k <= |run|
    ensures ListOk(lists[k], max)
  {
    if k > 0 {
      hide Step, ListOk, Admissible;
      RunBounded(max, run, lists, outs, k - 1);
      StepKeepsListOk(lists[k - 1], max, run[k - 1]);
    }
  }

  // --- Least recently touched ------------------------------------------------------------------

  /** The last of the first `k` arrivals that belonged to the label, or -1. */
  function LastTouch(run: seq<Arrival>, k: nat, dgl: u16): (t: int)
    requires k <= |run|
    ensures -1 <= t < k
  {
    if k == 0 then -1 else if run[k - 1].p.dgl == dgl then k - 1 else LastTouch(run, k - 1, dgl)
  }

  /** Recently touched entries come first. */
  ghost predicate ByRecency(list: seq<Partial>, run: seq<Arrival>, k: nat)
    requires k <= |run|
  {
    forall i, j :: 0 <= i < j < |list| ==> LastTouch(run, k, list[i].dgl) > LastTouch(run, k, list[j].dgl)
  }

  lemma {:induction false} RunByRecency(max: nat, run: seq<Arrival>, lists: seq<seq<Partial>>,
                                        outs: seq<Option<Datagram>>, k: nat)
    requires IsRun(max, run, lists, outs) && k <= |run| && lists[0] == []
    ensures ByRecency(lists[k], run, k)
  {
    if k > 0 {
      hide Step, ListOk, Admissible, LastTouch, ByRecency;
      RunByRecency(max, run, lists, outs, k - 1);
      RunBounded(max, run, lists, outs, k - 1);
      RecencyStep(lists[k - 1], max, run, k - 1);
    }
  }

  lemma RecencyStep(list: seq<Partial>, max: nat, run: seq<Arrival>, k: nat)
    requires k < |run| && 0 < max && ListOk(list, max) && Admissible(list, run[k])
    requires ByRecency(list, run, k)
    ensures ByRecency(Step(list, max, run[k]).0, run, k + 1)
  {
    StepShape(list, max, run[k]);
    var rest := Rest(list, max, run[k]);
    assert ByRecency(rest, run, k);
    hide Step, ListOk, Admissible, Rest;
    assert forall i :: 0 <= i < |rest| ==> LastTouch(run, k + 1, rest[i].dgl) == LastTouch(run, k, rest[i].dgl);
    assert ByRecency(rest, run, k + 1);
  }

  /** The entries a step leaves untouched, in their order. */
  function Rest(list: seq<Partial>, max: nat, a: Arrival): seq<Partial>
    requires 0 < max
  {
    var i := Find(list, a.p.dgl);
    if i == |list| then Kept(list, max) else Without(list, i)
  }

  lemma StepShape(list: seq<Partial>, max: nat, a: Arrival)
    requires 0 < max && ListOk(list, max) && Admissible(list, a)
    ensures var l' := Step(list, max, a).0;
      var rest := Rest(list, max, a);
      && (forall i :: 0 <= i < |rest| ==> rest[i].dgl != a.p.dgl)
      && (l' == rest || (|l'| == |rest| + 1 && l'[0].dgl == a.p.dgl && l'[1..] == rest))
  {
  }

  /** A new label that finds the list full drives out exactly the entry that was not touched for longest. */
  lemma EvictsLeastRecent(max: nat, run: seq<Arrival>, lists: seq<seq<Partial>>, outs: seq<Option<Datagram>>, k: nat)
    requires IsRun(max, run, lists, outs) && k < |run| && lists[0] == []
    requires Lookup(lists[k], run[k].p.dgl) == None && |lists[k]| == max
    ensures var victim := lists[k][max - 1].dgl;
      && Lookup(lists[k + 1], victim) == None
      && forall i :: 0 <= i < max - 1 ==>
           && LastTouch(run, k, victim) < LastTouch(run, k, lists[k][i].dgl)
           && Lookup(lists[k + 1], lists[k][i].dgl) == Some(lists[k][i])
  {
    hide Step, ListOk, Admissible, LastTouch, Lookup, Evicts;
    RunByRecency(max, run, lists, outs, k);
    RunBounded(max, run, lists, outs, k);
    var list := lists[k];
    EvictsLast(list, max, run[k]);
    StepIsLocal(list, max, run[k], list[max - 1].dgl);
    forall i | 0 <= i < max - 1 ensures Lookup(lists[k + 1], list[i].dgl) == Some(list[i]) {
      LookupAt(list, max, i);
      StepIsLocal(list, max, run[k], list[i].dgl);
    }
  }

  lemma EvictsLast(list: seq<Partial>, max: nat, a: Arrival)
    requires 0 < max && ListOk(list, max) && |list| == max && Lookup(list, a.p.dgl) == None
    ensures Evicts(list, max, a, list[max - 1].dgl)
    ensures forall i :: 0 <= i < max - 1 ==> list[i].dgl != a.p.dgl && !Evicts(list, max, a, list[i].dgl)
  {
  }

  lemma LookupAt(list: seq<Partial>, max: nat, i: nat)
    requires ListOk(list, max) && i < |list|
    ensures Lookup(list, list[i].dgl) == Some(list[i])
  {
  }

  // --- Datagrams do not disturb each other -----------------------------------------------------

  /** The entry behind one more fragment. */
  function Grown(s: Option<Partial>, a: Arrival): Partial
    requires a.Fits() && (s.Some? ==> a.p.off + |a.p.bytes| <= |s.value.pbuf|)
  {
    Typed(if s.None? then NewPartial(a) else Updated(s.value, a.p), a.p)
  }

  /** What the fragments of one label do, seen alone. */
  function Step1(s: Option<Partial>, a: Arrival): (Option<Partial>, Option<Datagram>)
    requires a.Fits() && (s.Some? ==> a.p.off + |a.p.bytes| <= |s.value.pbuf|)
  {
    var pd := Grown(s, a);
    if Complete(pd.frags, a.p.dgSize) then (None, Some(Datagram(pd.etherType, pd.pbuf))) else (Some(pd), None)
  }

  /** The fragment is kept: it overlaps nothing, and there is memory for what it needs, a new entry or a new interval in
      its entry. */
  predicate Saved(list: seq<Partial>, a: Arrival) {
    match Lookup(list, a.p.dgl)
    case None => a.mem.Ample()
    case Some(pd) => Clear(pd.frags, a.p.Interval()) && (NeedsEntry(pd.frags, a.p.Interval()) ==> a.mem.frag)
  }

  /** The fragment of another label drives out the entry of `dgl`: it is new, and the list is full with `dgl` last. */
  predicate Evicts(list: seq<Partial>, max: nat, a: Arrival, dgl: u16)
    requires 0 < max
  {
    a.p.dgl != dgl && Lookup(list, a.p.dgl) == None && |list| == max && list[max - 1].dgl == dgl
  }

  /** A fragment acts on its own datagram as if it were alone, if there is memory, and else loses it; of the others it
      leaves every one as it is, but for the one it evicts. */
  lemma StepIsLocal(list: seq<Partial>, max: nat, a: Arrival, dgl: u16)
    requires 0 < max && ListOk(list, max) && Admissible(list, a)
    ensures var (l', out) := Step(list, max, a);
      && (dgl == a.p.dgl ==>
        (Lookup(l', dgl), out) == if Saved(list, a) then Step1(Lookup(list, dgl), a) else (None, None))
      && (dgl != a.p.dgl ==> Lookup(l', dgl) == if Evicts(list, max, a, dgl) then None else Lookup(list, dgl))
  {
    var (l', out) := Step(list, max, a);
    StepKeepsListOk(list, max, a);
    StepShape(list, max, a);
    var rest := Rest(list, max, a);
    if dgl == a.p.dgl {
      if l' != rest { LookupAt(l', max, 0); }
    } else {
      LookupRest(list, max, a, dgl);
      if l' != rest { assert l' == [l'[0]] + rest; LookupFront(l'[0], rest, dgl); }
    }
  }

  lemma LookupFront(pd: Partial, rest: seq<Partial>, dgl: u16)
    requires pd.dgl != dgl
    ensures Lookup([pd] + rest, dgl) == Lookup(rest, dgl)
  {
    assert ([pd] + rest)[1..] == rest;
  }

  lemma LookupRest(list: seq<Partial>, max: nat, a: Arrival, dgl: u16)
    requires 0 < max && ListOk(list, max) && dgl != a.p.dgl
    ensures Lookup(Rest(list, max, a), dgl) == if Evicts(list, max, a, dgl) then None else Lookup(list, dgl)
  {
    var rest := Rest(list, max, a);
    var i, j := Find(list, a.p.dgl), Find(list, dgl);
    if i < |list| {
      WithoutOk(list, max, i);
      if j < |list| {
        var j' := if j < i then j else j - 1;
        assert rest[j'] == list[j];
        LookupAt(rest, max, j');
      }
    } else if |list| == max && j < max - 1 {
      assert rest[j] == list[j];
      LookupAt(rest, max, j);
    }
  }

  // --- One datagram among others ---------------------------------------------------------------

  function Intervals(came: seq<Arrival>): (xs: seq<Frag>)
    ensures |xs| == |came|
  {
    seq(|came|, i requires 0 <= i < |came| => came[i].p.Interval())
  }

  /** The arrivals are disjoint fragments of `dg`; first fragments carry ether type `t`. */
  predicate Carries(came: seq<Arrival>, t: u16, dg: seq<byte>) {
    && Separate(Intervals(came))
    && forall i :: 0 <= i < |came| ==> FragmentOf(came[i], t, dg)
  }

  predicate FragmentOf(a: Arrival, t: u16, dg: seq<byte>) {
    && a.Fits()
    && a.p.dgSize == |dg|
    && a.p.bytes == dg[a.p.off..a.p.off + |a.p.bytes|]
    && (a.p.first ==> a.p.etherType == t)
  }

  /** The arrivals are all of `dg`. */
  ghost predicate Whole(came: seq<Arrival>, t: u16, dg: seq<byte>) {
    Carries(came, t, dg) && TilesAll(Intervals(came), |dg|)
  }

  /** There is a first fragment among the arrivals. */
  predicate HasFirst(came: seq<Arrival>) {
    exists i :: 0 <= i < |came| && came[i].p.first
  }

  /** The ether type of the entry for the arrivals: the one that was sent if a first fragment came, and otherwise what
      the memory of the entry happened to hold. */
  function TypeSeen(came: seq<Arrival>, t: u16): u16
    requires came != []
  {
    if HasFirst(came) then t else came[0].mem.junk
  }

  /** The entry for a datagram of which `came` arrived: the intervals, the bytes and the type are those received. */
  ghost predicate Tracks(s: Option<Partial>, came: seq<Arrival>, t: u16, dg: seq<byte>) {
    if came == [] then
      s == None
    else
      && s.Some?
      && s.value.frags == Collected(Intervals(came))
      && s.value.dgSize == |s.value.pbuf| == |dg|
      && (forall b :: 0 <= b < |dg| && Covers(Intervals(came), b) ==> s.value.pbuf[b] == dg[b])
      && s.value.etherType == TypeSeen(came, t)
  }

  lemma IntervalsSnoc(came: seq<Arrival>, a: Arrival)
    ensures Intervals(came + [a]) == Intervals(came) + [a.p.Interval()]
  {
  }

  lemma CollectedSnoc(xs: seq<Frag>, x: Frag)
    ensures Collected(xs + [x]) == Insert(Collected(xs), x)
  {
    assert (xs + [x])[..|xs|] == xs;
  }

  lemma TracksGrown(s: Option<Partial>, came: seq<Arrival>, a: Arrival, t: u16, dg: seq<byte>)
    requires Tracks(s, came, t, dg) && Carries(came + [a], t, dg)
    ensures a.Fits() && (s.Some? ==> a.p.off + |a.p.bytes| <= |s.value.pbuf|)
    ensures Tracks(Some(Grown(s, a)), came + [a], t, dg)
  {
    var all := came + [a];
    assert FragmentOf(all[|came|], t, dg);
    IntervalsSnoc(came, a);
    CollectedSnoc(Intervals(came), a.p.Interval());
    GrownBytes(s, came, a, t, dg);
    if came == [] {
      assert Intervals(came) == [];
    }
    hide Collected, Insert, Covers, Separate;
    FirstSnoc(came, a);
  }

  lemma FirstSnoc(came: seq<Arrival>, a: Arrival)
    ensures HasFirst(came + [a]) <==> HasFirst(came) || a.p.first
  {
    var all := came + [a];
    assert all[|came|] == a;
    assert forall i :: 0 <= i < |came| ==> all[i] == came[i];
  }

  lemma GrownBytes(s: Option<Partial>, came: seq<Arrival>, a: Arrival, t: u16, dg: seq<byte>)
    requires Tracks(s, came, t, dg) && FragmentOf(a, t, dg)
    ensures var pd := Grown(s, a);
      |pd.pbuf| == |dg| && forall b :: 0 <= b < |dg| && Covers(Intervals(came + [a]), b) ==> pd.pbuf[b] == dg[b]
  {
    IntervalsSnoc(came, a);
    hide Insert, Collected;
    forall b | 0 <= b < |dg| && Covers(Intervals(came + [a]), b) ensures Grown(s, a).pbuf[b] == dg[b] {
      CoversSnoc(Intervals(came), a.p.Interval(), b);
    }
  }

  /** The arrivals of one label. */
  function Project(run: seq<Arrival>, dgl: u16): seq<Arrival> {
    if run == [] then []
    else
      var n := |run| - 1;
      if run[n].p.dgl == dgl then Project(run[..n], dgl) + [run[n]] else Project(run[..n], dgl)
  }

  /** The datagrams delivered for one label. */
  function Delivered(run: seq<Arrival>, outs: seq<Option<Datagram>>, dgl: u16): seq<Datagram>
    requires |outs| == |run|
  {
    if run == [] then []
    else
      var n := |run| - 1;
      Delivered(run[..n], outs[..n], dgl) + (if run[n].p.dgl == dgl && outs[n].Some? then [outs[n].value] else [])
  }

  lemma RunPrefix(max: nat, run: seq<Arrival>, lists: seq<seq<Partial>>, outs: seq<Option<Datagram>>, n: nat)
    requires IsRun(max, run, lists, outs) && n <= |run|
    ensures 0 < max && |lists| == |run| + 1 && |outs| == |run|
    ensures IsRun(max, run[..n], lists[..n + 1], outs[..n])
  {
  }

  /** One step of a run, as the label sees it. */
  lemma RunStep(max: nat, run: seq<Arrival>, lists: seq<seq<Partial>>, outs: seq<Option<Datagram>>, n: nat, dgl: u16)
    requires IsRun(max, run, lists, outs) && n < |run|
    ensures run[n].Fits()
    ensures var s := Lookup(lists[n], run[n].p.dgl);
      s.Some? ==> run[n].p.off + |run[n].p.bytes| <= |s.value.pbuf|
    ensures run[n].p.dgl == dgl ==>
      (Lookup(lists[n + 1], dgl), outs[n]) ==
        if Saved(lists[n], run[n]) then Step1(Lookup(lists[n], dgl), run[n]) else (None, None)
    ensures run[n].p.dgl != dgl ==>
      Lookup(lists[n + 1], dgl) == if Evicts(lists[n], max, run[n], dgl) then None else Lookup(lists[n], dgl)
  {
    hide Step, Step1, Saved, Evicts, ListOk, Lookup, Extends;
    RunBounded(max, run, lists, outs, n);
    StepIsLocal(lists[n], max, run[n], dgl);
  }

  /** Nothing happens to the datagram between its fragments: none of them is lost for want of memory, and no fragment
      of another label drives its entry out. */
  ghost predicate Undisturbed(max: nat, run: seq<Arrival>, lists: seq<seq<Partial>>, dgl: u16)
    requires |lists| == |run| + 1 && 0 < max
  {
    forall k :: 0 <= k < |run| ==> Harmless(lists[k], max, run[k], dgl)
  }

  predicate Harmless(list: seq<Partial>, max: nat, a: Arrival, dgl: u16)
    requires 0 < max
  {
    if a.p.dgl == dgl then Saved(list, a) else !Evicts(list, max, a, dgl)
  }

  /** The fragments of the label since its entry was last lost. */
  function Since(max: nat, run: seq<Arrival>, lists: seq<seq<Partial>>, dgl: u16): (came: seq<Arrival>)
    requires |lists| == |run| + 1 && 0 < max
  {
    if run == [] then []
    else
      var n := |run| - 1;
      var before := Since(max, run[..n], lists[..n + 1], dgl);
      if !Harmless(lists[n], max, run[n], dgl) then []
      else if run[n].p.dgl == dgl then before + [run[n]]
      else before
  }

  /** They are the last of its fragments. */
  lemma {:induction false} SinceLast(max: nat, run: seq<Arrival>, lists: seq<seq<Partial>>, dgl: u16)
    requires |lists| == |run| + 1 && 0 < max
    ensures var came, all := Since(max, run, lists, dgl), Project(run, dgl);
      |came| <= |all| && came == all[|all| - |came|..]
    decreases |run|
  {
    hide Harmless;
    if run != [] {
      var n := |run| - 1;
      SinceLast(max, run[..n], lists[..n + 1], dgl);
    }
  }

  /** While part of the datagram is missing, nothing of it is delivered and its entry tracks what came since it was last
      lost. */
  lemma {:induction false} PartTracked(max: nat, run: seq<Arrival>, lists: seq<seq<Partial>>,
                                       outs: seq<Option<Datagram>>, all: seq<Arrival>, dgl: u16, t: u16, dg: seq<byte>)
    requires IsRun(max, run, lists, outs)
    requires Whole(all, t, dg) && dg != [] && Project(run, dgl) < all
    requires Lookup(lists[0], dgl) == None
    ensures Tracks(Lookup(lists[|run|], dgl), Since(max, run, lists, dgl), t, dg)
    ensures Delivered(run, outs, dgl) == []
    decreases |run|
  {
    hide Step, Tracks, Step1, Whole, Saved, Evicts, ListOk, Admissible;
    if run == [] {
      NothingTracked(t, dg);
    } else {
      var n := |run| - 1;
      var before, a := run[..n], run[n];
      RunPrefix(max, run, lists, outs, n);
      PartTracked(max, before, lists[..n + 1], outs[..n], all, dgl, t, dg);
      RunStep(max, run, lists, outs, n, dgl);
      NothingTracked(t, dg);
      if a.p.dgl == dgl && Saved(lists[n], a) {
        SinceLast(max, before, lists[..n + 1], dgl);
        var came, j := Since(max, before, lists[..n + 1], dgl), |Project(before, dgl)|;
        assert all[j] == a && all[j - |came|..j] == came;
        PartGrows(Lookup(lists[n], dgl), all, j - |came|, j, t, dg);
        assert all[j - |came|..j + 1] == came + [a];
      }
    }
  }

  lemma NothingTracked(t: u16, dg: seq<byte>)
    ensures Tracks(None, [], t, dg)
  {
  }

  /** One more fragment, as long as it is not the last of all of them. */
  lemma PartGrows(s: Option<Partial>, all: seq<Arrival>, m: nat, j: nat, t: u16, dg: seq<byte>)
    requires Whole(all, t, dg) && dg != [] && m <= j < |all| && (0 < m || j + 1 < |all|)
    requires Tracks(s, all[m..j], t, dg)
    requires all[j].Fits() && (s.Some? ==> all[j].p.off + |all[j].p.bytes| <= |s.value.pbuf|)
    ensures var (s', out) := Step1(s, all[j]);
      out == None && Tracks(s', all[m..j + 1], t, dg)
  {
    hide Whole, Carries, Tracks, Collected, Complete, Grown;
    var a, came := all[j], all[m..j + 1];
    assert all[m..j] + [a] == came;
    WholeTells(all, j, t, dg);
    CarriesSlice(all, m, j + 1, t, dg);
    TracksGrown(s, all[m..j], a, t, dg);
    TracksTells(Grown(s, a), came, t, dg);
    PartIncomplete(all, m, j + 1, t, dg);
  }

  lemma WholeTells(all: seq<Arrival>, j: nat, t: u16, dg: seq<byte>)
    requires Whole(all, t, dg) && j < |all|
    ensures Carries(all, t, dg) && FragmentOf(all[j], t, dg)
  {
  }

  lemma TracksTells(pd: Partial, came: seq<Arrival>, t: u16, dg: seq<byte>)
    requires Tracks(Some(pd), came, t, dg) && came != []
    ensures pd.frags == Collected(Intervals(came))
  {
  }

  lemma CarriesSlice(all: seq<Arrival>, m: nat, k: nat, t: u16, dg: seq<byte>)
    requires Carries(all, t, dg) && m <= k <= |all|
    ensures Carries(all[m..k], t, dg)
    ensures Intervals(all[m..k]) == Intervals(all)[m..k]
  {
    assert Intervals(all[m..k]) == Intervals(all)[m..k];
  }

  /** Part of the fragments never counts as complete. */
  lemma PartIncomplete(all: seq<Arrival>, m: nat, k: nat, t: u16, dg: seq<byte>)
    requires Whole(all, t, dg) && dg != [] && m <= k <= |all| && (0 < m || k < |all|)
    ensures !Complete(Collected(Intervals(all[m..k])), |dg|)
  {
    CarriesSlice(all, m, k, t, dg);
    PartNeverCompletes(Intervals(all), |dg|, m, k);
  }

  /** The datagram was lost at some point exactly if fewer fragments came since than in all. */
  lemma {:induction false} LostIff(max: nat, run: seq<Arrival>, lists: seq<seq<Partial>>, outs: seq<Option<Datagram>>,
                                   all: seq<Arrival>, dgl: u16, t: u16, dg: seq<byte>)
    requires IsRun(max, run, lists, outs)
    requires Whole(all, t, dg) && dg != [] && Project(run, dgl) <= all
    requires run != [] && Project(run, dgl) == all ==> run[|run| - 1].p.dgl == dgl
    requires Lookup(lists[0], dgl) == None
    ensures Undisturbed(max, run, lists, dgl) <==> |Since(max, run, lists, dgl)| == |Project(run, dgl)|
    decreases |run|
  {
    if run != [] {
      var n := |run| - 1;
      var before, a := run[..n], run[n];
      RunPrefix(max, run, lists, outs, n);
      LostIff(max, before, lists[..n + 1], outs[..n], all, dgl, t, dg);
      SinceLast(max, before, lists[..n + 1], dgl);
      UndisturbedNext(max, run, lists, dgl);
      hide Undisturbed, Whole, Step, ListOk, Admissible;
      if a.p.dgl != dgl && Evicts(lists[n], max, a, dgl) {
        PartTracked(max, before, lists[..n + 1], outs[..n], all, dgl, t, dg);
        RunBounded(max, run, lists, outs, n);
        LookupAt(lists[n], max, max - 1);
      }
    }
  }

  lemma UndisturbedNext(max: nat, run: seq<Arrival>, lists: seq<seq<Partial>>, dgl: u16)
    requires |lists| == |run| + 1 && 0 < max && run != []
    ensures var n := |run| - 1;
      Undisturbed(max, run, lists, dgl) <==>
        Undisturbed(max, run[..n], lists[..n + 1], dgl) && Harmless(lists[n], max, run[n], dgl)
  {
    hide Harmless;
  }

  /** A datagram whose fragments arrive in any order, among fragments of any other datagrams: it is delivered, with its
      bytes and its ether type, at its last fragment, if the order was orderly and nothing disturbed it, and otherwise
      not at all. */
  lemma DeliveredIff(max: nat, run: seq<Arrival>, lists: seq<seq<Partial>>, outs: seq<Option<Datagram>>,
                     dgl: u16, t: u16, dg: seq<byte>)
    requires IsRun(max, run, lists, outs)
    requires dg != [] && Whole(Project(run, dgl), t, dg)
    requires Lookup(lists[0], dgl) == None
    requires run != [] && run[|run| - 1].p.dgl == dgl
    ensures OrderlyRun(Intervals(Project(run, dgl))) && Undisturbed(max, run, lists, dgl) ==>
      outs[|run| - 1] == Some(Datagram(TypeSeen(Project(run, dgl), t), dg)) && Lookup(lists[|run|], dgl) == None
    ensures !(OrderlyRun(Intervals(Project(run, dgl))) && Undisturbed(max, run, lists, dgl)) ==> outs[|run| - 1] == None
    ensures Delivered(run[..|run| - 1], outs[..|run| - 1], dgl) == []
  {
    hide IsRun, Step, Tracks, Step1, Whole, Saved, Evicts, ListOk, Admissible, OrderlyRun, Undisturbed, Lookup,
      Delivered;
    var n := |run| - 1;
    var before, a, all := run[..n], run[n], Project(run, dgl);
    assert all == Project(before, dgl) + [a];
    RunPrefix(max, run, lists, outs, n);
    PartTracked(max, before, lists[..n + 1], outs[..n], all, dgl, t, dg);
    RunStep(max, run, lists, outs, n, dgl);
    LostIff(max, run, lists, outs, all, dgl, t, dg);
    SinceLast(max, before, lists[..n + 1], dgl);
    var came, j := Since(max, before, lists[..n + 1], dgl), |Project(before, dgl)|;
    assert all[j - |came|..j] == came;
    if Saved(lists[n], a) {
      LastStep(Lookup(lists[n], dgl), all, j - |came|, t, dg);
    }
  }

  /** The last fragment: it delivers the datagram if nothing was lost and the order was orderly. */
  lemma LastStep(s: Option<Partial>, all: seq<Arrival>, m: nat, t: u16, dg: seq<byte>)
    requires Whole(all, t, dg) && dg != [] && m < |all|
    requires var j := |all| - 1;
      Tracks(s, all[m..j], t, dg) && all[j].Fits() && (s.Some? ==> all[j].p.off + |all[j].p.bytes| <= |s.value.pbuf|)
    ensures var (s', out) := Step1(s, all[|all| - 1]);
      if m == 0 && OrderlyRun(Intervals(all)) then s' == None && out == Some(Datagram(TypeSeen(all, t), dg))
      else out == None
  {
    hide Whole, Tracks, Step1, OrderlyRun;
    var j := |all| - 1;
    if m == 0 {
      assert all[m..j] + [all[j]] == all;
      LastDelivers(s, all[m..j], all[j], t, dg);
    } else {
      PartGrows(s, all, m, j, t, dg);
    }
  }

  lemma LastDelivers(s: Option<Partial>, came: seq<Arrival>, a: Arrival, t: u16, dg: seq<byte>)
    requires Whole(came + [a], t, dg) && dg != []
    requires Tracks(s, came, t, dg)
    requires a.Fits() && (s.Some? ==> a.p.off + |a.p.bytes| <= |s.value.pbuf|)
    ensures var (s', out) := Step1(s, a);
      if OrderlyRun(Intervals(came + [a])) then s' == None && out == Some(Datagram(TypeSeen(came + [a], t), dg))
      else out == None
  {
    var all := came + [a];
    TracksGrown(s, came, a, t, dg);
    var pd := Grown(s, a);
    CompletesIff(Intervals(all), |dg|);
    assert FragmentOf(all[|came|], t, dg);
    hide OrderlyRun;
    if OrderlyRun(Intervals(all)) {
      assert forall b :: 0 <= b < |dg| ==> Covers(Intervals(all), b);
      assert pd.pbuf == dg;
    }
  }

  // --- How many others a datagram survives -----------------------------------------------------

  /** The labels touched by arrivals `a` to `b`. */
  function Labels(run: seq<Arrival>, a: nat, b: nat): (s: set<u16>)
    requires a <= b <= |run|
  {
    if a == b then {} else Labels(run, a, b - 1) + {run[b - 1].p.dgl}
  }

  /** The labels of the first `n` entries. */
  function FrontLabels(list: seq<Partial>, n: nat): (s: set<u16>)
    requires n <= |list|
  {
    if n == 0 then {} else FrontLabels(list, n - 1) + {list[n - 1].dgl}
  }

  lemma {:induction false} FrontLabelsTell(list: seq<Partial>, max: nat, n: nat, dgl: u16)
    requires ListOk(list, max) && n <= |list|
    ensures |FrontLabels(list, n)| == n
    ensures dgl in FrontLabels(list, n) <==> exists i :: 0 <= i < n && list[i].dgl == dgl
  {
    if n > 0 {
      FrontLabelsTell(list, max, n - 1, dgl);
      FrontLabelsTell(list, max, n - 1, list[n - 1].dgl);
    }
  }

  /** No arrival of the label between its own at `j` and `k`. */
  predicate Apart(run: seq<Arrival>, j: nat, k: nat, dgl: u16)
    requires k <= |run|
  {
    j < k && run[j].p.dgl == dgl && forall i :: j < i < k ==> run[i].p.dgl != dgl
  }

  /** The labels of `s`, and no others, are in front of the entry. */
  predicate Depth(list: seq<Partial>, dgl: u16, s: set<u16>) {
    |s| < |list| && list[|s|].dgl == dgl && FrontLabels(list, |s|) == s
  }

  lemma {:induction false} FrontSame(list: seq<Partial>, list': seq<Partial>, n: nat)
    requires n <= |list| && n <= |list'| && list[..n] == list'[..n]
    ensures FrontLabels(list, n) == FrontLabels(list', n)
  {
    if n > 0 {
      assert list[..n][..n - 1] == list[..n - 1] && list'[..n][..n - 1] == list'[..n - 1];
      assert list[n - 1] == list[..n][n - 1] == list'[..n][n - 1] == list'[n - 1];
      FrontSame(list, list', n - 1);
    }
  }

  lemma {:induction false} FrontShift(pd: Partial, rest: seq<Partial>, m: nat)
    requires m <= |rest|
    ensures FrontLabels([pd] + rest, m + 1) == {pd.dgl} + FrontLabels(rest, m)
  {
    if m > 0 {
      FrontShift(pd, rest, m - 1);
    }
  }

  lemma {:induction false} FrontWithout(list: seq<Partial>, max: nat, i: nat, n: nat)
    requires ListOk(list, max) && i < n <= |list|
    ensures FrontLabels(Without(list, i), n - 1) == FrontLabels(list, n) - {list[i].dgl}
    decreases n
  {
    var rest := Without(list, i);
    if n == i + 1 {
      FrontSame(rest, list, i);
      FrontLabelsTell(list, max, i, list[i].dgl);
    } else {
      FrontWithout(list, max, i, n - 1);
      assert rest[n - 2] == list[n - 1];
    }
  }

  /** Where the entry is among those that the fragment leaves untouched. */
  lemma DepthMoves(list: seq<Partial>, max: nat, a: Arrival, dgl: u16, s: set<u16>)
    requires 0 < max && ListOk(list, max) && a.p.dgl != dgl && Depth(list, dgl, s)
    ensures var n, x, rest := |s|, a.p.dgl, Rest(list, max, a);
      && (x in s ==> 0 < n <= |rest| && rest[n - 1].dgl == dgl && FrontLabels(rest, n - 1) == s - {x})
      && (x !in s && n + 1 < max ==> n < |rest| && rest[n].dgl == dgl && FrontLabels(rest, n) == s)
      && (x !in s && n + 1 >= max <==> Evicts(list, max, a, dgl))
  {
    var n, x, rest, i := |s|, a.p.dgl, Rest(list, max, a), Find(list, a.p.dgl);
    FrontLabelsTell(list, max, n, x);
    if x in s {
      assert i < n;
      LookupAt(list, max, i);
      FrontWithout(list, max, i, n);
    } else {
      assert i > n;
      if n + 1 < max {
        assert rest[..n] == list[..n] && rest[n] == list[n];
        FrontSame(rest, list, n);
      }
    }
  }

  lemma StaysInFront(list: seq<Partial>, max: nat, a: Arrival)
    requires 0 < max && ListOk(list, max) && Admissible(list, a) && Lookup(Step(list, max, a).0, a.p.dgl).Some?
    ensures var l' := Step(list, max, a).0;
      l' != [] && l'[0].dgl == a.p.dgl && l' == [l'[0]] + Rest(list, max, a)
  {
    StepShape(list, max, a);
    var l', rest := Step(list, max, a).0, Rest(list, max, a);
    hide Step, Admissible, Rest, ListOk;
    assert l' != rest;
    assert l' == [l'[0]] + l'[1..];
  }

  /** The fragment keeps or makes an entry: it is saved and completes nothing. */
  predicate Opens(list: seq<Partial>, a: Arrival, out: Option<Datagram>) {
    Saved(list, a) && out == None
  }

  /** Of the labels that came with arrivals `a` to `b`, those whose last fragment left an entry. */
  function OpenSince(run: seq<Arrival>, lists: seq<seq<Partial>>, outs: seq<Option<Datagram>>,
                     a: nat, b: nat): (s: set<u16>)
    requires a <= b <= |run| == |outs| && |lists| == |run| + 1
  {
    if a == b then {}
    else
      var s := OpenSince(run, lists, outs, a, b - 1);
      if Opens(lists[b - 1], run[b - 1], outs[b - 1]) then s + {run[b - 1].p.dgl} else s - {run[b - 1].p.dgl}
  }

  lemma OpensTells(list: seq<Partial>, max: nat, a: Arrival)
    requires 0 < max && ListOk(list, max) && Admissible(list, a)
    ensures Opens(list, a, Step(list, max, a).1) <==> Lookup(Step(list, max, a).0, a.p.dgl).Some?
  {
    hide Step, ListOk, Saved, Lookup;
    StepIsLocal(list, max, a, a.p.dgl);
  }

  lemma ClosedIsGone(list: seq<Partial>, max: nat, a: Arrival)
    requires 0 < max && ListOk(list, max) && Admissible(list, a) && Lookup(Step(list, max, a).0, a.p.dgl) == None
    ensures Step(list, max, a).0 == Rest(list, max, a)
  {
    StepShape(list, max, a);
  }

  /** The fragment of another label evicts the entry exactly if it is not in front of it and makes `max` with those that
      are; otherwise the entry stays, behind the labels that are open then. */
  lemma DepthStep(list: seq<Partial>, max: nat, a: Arrival, dgl: u16, s: set<u16>)
    requires 0 < max && ListOk(list, max) && Admissible(list, a) && a.p.dgl != dgl && Depth(list, dgl, s)
    ensures var (l', out), x := Step(list, max, a), a.p.dgl;
      && (Evicts(list, max, a, dgl) <==> x !in s && |s| + 1 >= max)
      && (!Evicts(list, max, a, dgl) ==> Depth(l', dgl, if Opens(list, a, out) then s + {x} else s - {x}))
  {
    hide Step, Admissible, Rest, Saved, Step1, ListOk, FrontLabels, Lookup, Opens;
    var l', rest, x := Step(list, max, a).0, Rest(list, max, a), a.p.dgl;
    OpensTells(list, max, a);
    DepthMoves(list, max, a, dgl, s);
    if Evicts(list, max, a, dgl) {
    } else if Lookup(l', x).Some? {
      StaysInFront(list, max, a);
      if x in s {
        assert s + {x} == s;
        FrontShift(l'[0], rest, |s| - 1);
      } else {
        FrontShift(l'[0], rest, |s|);
      }
    } else {
      ClosedIsGone(list, max, a);
      assert x !in s ==> s - {x} == s;
    }
  }

  /** Arrival `i` finds its label open, or leaves fewer than `max` open, counted since arrival `j`. */
  predicate LeavesRoom(max: nat, run: seq<Arrival>, lists: seq<seq<Partial>>, outs: seq<Option<Datagram>>,
                       j: nat, i: nat)
    requires j < i < |run| == |outs| && |lists| == |run| + 1
  {
    var open := OpenSince(run, lists, outs, j + 1, i);
    run[i].p.dgl in open || |open| + 1 < max
  }

  /** A datagram whose fragment came at `j` is still there at `k` exactly if every arrival in between left room. */
  lemma {:induction false} SurvivesIff(max: nat, run: seq<Arrival>, lists: seq<seq<Partial>>,
                                       outs: seq<Option<Datagram>>, j: nat, k: nat, dgl: u16)
    requires IsRun(max, run, lists, outs) && k <= |run| && Apart(run, j, k, dgl) && Opens(lists[j], run[j], outs[j])
    ensures |lists| == |run| + 1 && |outs| == |run|
    ensures Lookup(lists[k], dgl).Some? <==> forall i :: j < i < k ==> LeavesRoom(max, run, lists, outs, j, i)
    ensures Lookup(lists[k], dgl).Some? ==> Depth(lists[k], dgl, OpenSince(run, lists, outs, j + 1, k))
  {
    hide Step, ListOk, Admissible, Depth, Lookup, Opens, Evicts, Saved, Step1;
    RunBounded(max, run, lists, outs, k - 1);
    RunBounded(max, run, lists, outs, k);
    OpensTells(lists[k - 1], max, run[k - 1]);
    if k == j + 1 {
      StaysInFront(lists[j], max, run[j]);
      DepthOwn(lists[k], max, dgl);
    } else {
      SurvivesIff(max, run, lists, outs, j, k - 1, dgl);
      RunStep(max, run, lists, outs, k - 1, dgl);
      if Lookup(lists[k - 1], dgl).Some? {
        DepthStep(lists[k - 1], max, run[k - 1], dgl, OpenSince(run, lists, outs, j + 1, k - 1));
        assert LeavesRoom(max, run, lists, outs, j, k - 1) <==> !Evicts(lists[k - 1], max, run[k - 1], dgl);
      }
    }
  }

  lemma DepthOwn(list: seq<Partial>, max: nat, dgl: u16)
    requires ListOk(list, max) && list != [] && list[0].dgl == dgl
    ensures Depth(list, dgl, {})
  {
  }

  /** Every fragment of the label is saved. */
  predicate SavedAll(run: seq<Arrival>, lists: seq<seq<Partial>>, dgl: u16)
    requires |lists| == |run| + 1
  {
    forall k :: 0 <= k < |run| && run[k].p.dgl == dgl ==> Saved(lists[k], run[k])
  }

  /** After a fragment of the label that leaves its entry open, and up to its next one, every arrival leaves room. */
  predicate RoomAll(max: nat, run: seq<Arrival>, lists: seq<seq<Partial>>, outs: seq<Option<Datagram>>, dgl: u16)
    requires |run| == |outs| && |lists| == |run| + 1
  {
    forall j, i :: 0 <= j < i < |run| && Apart(run, j, i + 1, dgl) && Opens(lists[j], run[j], outs[j]) ==>
      LeavesRoom(max, run, lists, outs, j, i)
  }

  /** An entry goes back to an arrival of its label that left it open. */
  lemma {:induction false} PresentTouched(max: nat, run: seq<Arrival>, lists: seq<seq<Partial>>,
                                          outs: seq<Option<Datagram>>, k: nat, dgl: u16) returns (j: nat)
    requires IsRun(max, run, lists, outs) && k <= |run|
    requires Lookup(lists[0], dgl) == None && Lookup(lists[k], dgl).Some?
    ensures Apart(run, j, k, dgl) && Opens(lists[j], run[j], outs[j])
  {
    hide Step, ListOk, Admissible, Evicts, Saved, Step1, Opens;
    RunStep(max, run, lists, outs, k - 1, dgl);
    if run[k - 1].p.dgl == dgl {
      j := k - 1;
      RunBounded(max, run, lists, outs, j);
      OpensTells(lists[j], max, run[j]);
    } else {
      j := PresentTouched(max, run, lists, outs, k - 1, dgl);
    }
  }

  lemma EvictsPresent(list: seq<Partial>, max: nat, a: Arrival, dgl: u16)
    requires 0 < max && ListOk(list, max) && Evicts(list, max, a, dgl)
    ensures Lookup(list, dgl).Some? && a.p.dgl != dgl
  {
    LookupAt(list, max, max - 1);
  }

  /** Who evicts the entry leaves no room. */
  lemma EvictedRoom(max: nat, run: seq<Arrival>, lists: seq<seq<Partial>>, outs: seq<Option<Datagram>>,
                    k: nat, dgl: u16)
    returns (j: nat)
    requires IsRun(max, run, lists, outs) && Lookup(lists[0], dgl) == None && k < |run|
    requires Evicts(lists[k], max, run[k], dgl)
    ensures j < k && Apart(run, j, k + 1, dgl) && Opens(lists[j], run[j], outs[j])
    ensures |lists| == |run| + 1 && |outs| == |run| && !LeavesRoom(max, run, lists, outs, j, k)
  {
    hide Step, ListOk, Admissible, Saved, OpenSince, Lookup, Opens, Depth, Evicts;
    RunBounded(max, run, lists, outs, k);
    EvictsPresent(lists[k], max, run[k], dgl);
    j := PresentTouched(max, run, lists, outs, k, dgl);
    SurvivesIff(max, run, lists, outs, j, k, dgl);
    DepthStep(lists[k], max, run[k], dgl, OpenSince(run, lists, outs, j + 1, k));
  }

  /** As long as nothing evicts the entry, there is room. */
  lemma RoomLeft(max: nat, run: seq<Arrival>, lists: seq<seq<Partial>>, outs: seq<Option<Datagram>>,
                 j: nat, i: nat, dgl: u16)
    requires IsRun(max, run, lists, outs) && i < |run| && Apart(run, j, i + 1, dgl) && j < i
    requires Opens(lists[j], run[j], outs[j]) && Undisturbed(max, run, lists, dgl)
    ensures |lists| == |run| + 1 && |outs| == |run| && LeavesRoom(max, run, lists, outs, j, i)
  {
    hide Step, ListOk, Admissible, Saved, OpenSince, Lookup, Opens, Evicts, LeavesRoom;
    StaysThere(max, run, lists, outs, j, i + 1, dgl);
    SurvivesIff(max, run, lists, outs, j, i + 1, dgl);
  }

  lemma {:induction false} StaysThere(max: nat, run: seq<Arrival>, lists: seq<seq<Partial>>,
                                      outs: seq<Option<Datagram>>, j: nat, k: nat, dgl: u16)
    requires IsRun(max, run, lists, outs) && k <= |run| && Apart(run, j, k, dgl)
    requires Opens(lists[j], run[j], outs[j]) && Undisturbed(max, run, lists, dgl)
    ensures Lookup(lists[k], dgl).Some?
  {
    hide Step, ListOk, Admissible, Saved, Lookup, Opens, Evicts, Step1;
    RunBounded(max, run, lists, outs, k - 1);
    RunStep(max, run, lists, outs, k - 1, dgl);
    if k == j + 1 {
      OpensTells(lists[j], max, run[j]);
    } else {
      StaysThere(max, run, lists, outs, j, k - 1, dgl);
      assert Harmless(lists[k - 1], max, run[k - 1], dgl);
    }
  }

  /** The datagram is never lost exactly if each of its fragments is saved and, while it is open, every arrival of
      another label leaves room. */
  lemma UndisturbedIff(max: nat, run: seq<Arrival>, lists: seq<seq<Partial>>, outs: seq<Option<Datagram>>, dgl: u16)
    requires IsRun(max, run, lists, outs) && Lookup(lists[0], dgl) == None
    ensures |lists| == |run| + 1 && |outs| == |run| && 0 < max
    ensures Undisturbed(max, run, lists, dgl) <==> SavedAll(run, lists, dgl) && RoomAll(max, run, lists, outs, dgl)
  {
    hide Step, ListOk, Admissible, Saved, Evicts, OpenSince, Lookup, Opens;
    if SavedAll(run, lists, dgl) && RoomAll(max, run, lists, outs, dgl) {
      forall k | 0 <= k < |run| && run[k].p.dgl != dgl ensures !Evicts(lists[k], max, run[k], dgl) {
        if Evicts(lists[k], max, run[k], dgl) {
          var j := EvictedRoom(max, run, lists, outs, k, dgl);
        }
      }
    }
    if Undisturbed(max, run, lists, dgl) {
      forall k | 0 <= k < |run| && run[k].p.dgl == dgl ensures Saved(lists[k], run[k]) {
        assert Harmless(lists[k], max, run[k], dgl);
      }
      forall j, i | 0 <= j < i < |run| && Apart(run, j, i + 1, dgl) && Opens(lists[j], run[j], outs[j])
        ensures LeavesRoom(max, run, lists, outs, j, i)
      {
        RoomLeft(max, run, lists, outs, j, i, dgl);
      }
    }
  }

  /** Between two fragments of the datagram, fewer than `max` other labels are touched. */
  ghost predicate FewOthers(max: nat, run: seq<Arrival>, dgl: u16) {
    forall j, k :: 0 <= j < k <= |run| && Apart(run, j, k, dgl) ==> |Labels(run, j + 1, k)| < max
  }

  lemma {:induction false} OpenTouched(run: seq<Arrival>, lists: seq<seq<Partial>>, outs: seq<Option<Datagram>>,
                                       a: nat, b: nat)
    requires a <= b <= |run| == |outs| && |lists| == |run| + 1
    ensures OpenSince(run, lists, outs, a, b) <= Labels(run, a, b)
  {
    if a < b {
      OpenTouched(run, lists, outs, a, b - 1);
    }
  }

  /** Then nothing evicts it, whatever the others do and however much memory they have. */
  lemma FewOthersUndisturbed(max: nat, run: seq<Arrival>, lists: seq<seq<Partial>>, outs: seq<Option<Datagram>>,
                             dgl: u16)
    requires IsRun(max, run, lists, outs) && Lookup(lists[0], dgl) == None
    requires forall k :: 0 <= k < |run| && run[k].p.dgl == dgl ==> Saved(lists[k], run[k])
    requires FewOthers(max, run, dgl)
    ensures Undisturbed(max, run, lists, dgl)
  {
    hide Step, ListOk, Admissible, Saved, Evicts, FewOthers, Undisturbed, Opens;
    UndisturbedIff(max, run, lists, outs, dgl);
    forall j, i | 0 <= j < i < |run| && Apart(run, j, i + 1, dgl) ensures LeavesRoom(max, run, lists, outs, j, i) {
      FewLeaveRoom(max, run, lists, outs, j, i, dgl);
    }
  }

  lemma FewLeaveRoom(max: nat, run: seq<Arrival>, lists: seq<seq<Partial>>, outs: seq<Option<Datagram>>,
                     j: nat, i: nat, dgl: u16)
    requires |run| == |outs| && |lists| == |run| + 1
    requires FewOthers(max, run, dgl) && j < i < |run| && Apart(run, j, i + 1, dgl)
    ensures LeavesRoom(max, run, lists, outs, j, i)
  {
    var open, x := OpenSince(run, lists, outs, j + 1, i), run[i].p.dgl;
    OpenTouched(run, lists, outs, j + 1, i);
    if x !in open {
      SubsetCounts(open + {x}, Labels(run, j + 1, i + 1));
    }
  }

  /** Nor if new labels always find the list not full. */
  lemma RoomyUndisturbed(max: nat, run: seq<Arrival>, lists: seq<seq<Partial>>, dgl: u16)
    requires |lists| == |run| + 1 && 0 < max && SavedAll(run, lists, dgl)
    requires forall k :: 0 <= k < |run| && Lookup(lists[k], run[k].p.dgl) == None ==> |lists[k]| < max
    ensures Undisturbed(max, run, lists, dgl)
  {
  }

  /** Everything together: delivery decided by the order of the fragments, the memory for them and the number of labels
      open in between. */
  lemma DeliveredExactly(max: nat, run: seq<Arrival>, lists: seq<seq<Partial>>, outs: seq<Option<Datagram>>,
                         dgl: u16, t: u16, dg: seq<byte>)
    requires IsRun(max, run, lists, outs)
    requires dg != [] && Whole(Project(run, dgl), t, dg)
    requires Lookup(lists[0], dgl) == None
    requires run != [] && run[|run| - 1].p.dgl == dgl
    ensures |lists| == |run| + 1 && |outs| == |run|
    ensures Project(run, dgl) != []
    ensures outs[|run| - 1] ==
      if OrderlyRun(Intervals(Project(run, dgl))) && SavedAll(run, lists, dgl) && RoomAll(max, run, lists, outs, dgl)
      then Some(Datagram(TypeSeen(Project(run, dgl), t), dg)) else None
  {
    hide Step, ListOk, Admissible, Saved, Evicts, Undisturbed, Whole, OrderlyRun, SavedAll, RoomAll, Lookup;
    DeliveredIff(max, run, lists, outs, dgl, t, dg);
    UndisturbedIff(max, run, lists, outs, dgl);
  }
}
