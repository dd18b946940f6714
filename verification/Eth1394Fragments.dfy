/**
 The fragment bookkeeping of rt_eth1394: which bytes of a partial datagram have arrived.

 `fragment_info` entries are intervals in a linked list. new_fragment walks the list, but as the new
 fragment overlaps nothing, one of its four tests always holds at the first entry, so every insertion
 happens at the head (`Insert`). The list need not be sorted, and an entry that is not the first is never
 extended: whether a datagram completes depends on the order of arrival. `CompletesIff` says exactly when.
 */
module Eth1394Fragments {

  datatype Frag = Frag(offset: nat, len: nat) {
    function End(): nat { offset + len }
    predicate Has(b: int) { offset <= b < End() }
    predicate Disjoint(f: Frag) { End() <= f.offset || f.End() <= offset }
  }

  /** Non-empty intervals that do not overlap. */
  predicate Separate(list: seq<Frag>) {
    && (forall i :: 0 <= i < |list| ==> list[i].len > 0)
    && (forall i, j :: 0 <= i < j < |list| ==> list[i].Disjoint(list[j]))
  }

  predicate Clear(list: seq<Frag>, x: Frag) {
    x.len > 0 && forall i :: 0 <= i < |list| ==> list[i].Disjoint(x)
  }

  ghost predicate Covers(list: seq<Frag>, b: int) {
    exists i :: 0 <= i < |list| && list[i].Has(b)
  }

  // --- fragment_overlap and new_fragment -------------------------------------------------------

  /** True exactly when some byte is in the new fragment and in one that arrived before. */
  method FragmentOverlap(list: seq<Frag>, offset: nat, len: nat) returns (overlap: bool)
    requires Separate(list) && len > 0
    ensures overlap <==> exists b :: Frag(offset, len).Has(b) && Covers(list, b)
    ensures overlap <==> !Clear(list, Frag(offset, len))
  {
    var x := Frag(offset, len);
    var i := 0;
    while i < |list|
      invariant 0 <= i <= |list|
      invariant forall k :: 0 <= k < i ==> list[k].Disjoint(x)
    {
      var fi := list[i];
      if !(offset > fi.offset + fi.len - 1 || offset + len - 1 < fi.offset) {
        assert x.Has(if offset < fi.offset then fi.offset else offset);
        assert Covers(list, if offset < fi.offset then fi.offset else offset);
        return true;
      }
      i := i + 1;
    }
    return false;
  }

  /** new_fragment's walk from entry `i` on, for any list: the new list, and whether an entry had to be
      allocated. The list head stands for "no neighbour". */
  function Walk(list: seq<Frag>, x: Frag, i: nat): (seq<Frag>, bool)
    decreases |list| - i
  {
    if i >= |list| then
      ([x] + list, true)
    else
      var fi := list[i];
      if fi.End() == x.offset then
        if i + 1 < |list| && x.End() == list[i + 1].offset then
          (list[..i] + [Frag(fi.offset, fi.len + x.len + list[i + 1].len)] + list[i + 2..], false)
        else
          (list[..i] + [Frag(fi.offset, fi.len + x.len)] + list[i + 1..], false)
      else if x.End() == fi.offset then
        if i > 0 && list[i - 1].End() == x.offset then
          (list[..i - 1] + [Frag(list[i - 1].offset, list[i - 1].len + fi.len + x.len)] + list[i + 1..], false)
        else
          (list[..i] + [Frag(x.offset, fi.len + x.len)] + list[i + 1..], false)
      else if x.offset > fi.End() then
        (list[..i + 1] + [x] + list[i + 1..], true)
      else if x.End() < fi.offset then
        (list[..i] + [x] + list[i..], true)
      else
        Walk(list, x, i + 1)
  }

  method NewFragment(list: seq<Frag>, offset: nat, len: nat, memory: bool) returns (ok: bool, list': seq<Frag>)
    ensures ok <==> memory || !Walk(list, Frag(offset, len), 0).1
    ensures list' == if ok then Walk(list, Frag(offset, len), 0).0 else list
  {
    var x := Frag(offset, len);
    var i := 0;
    var at := 0;                       // list_add puts the new entry at this position
    while i < |list|
      invariant 0 <= i <= |list| && at == 0
      invariant Walk(list, x, 0) == Walk(list, x, i)
    {
      var fi := list[i];
      if fi.offset + fi.len == offset {
        fi := fi.(len := fi.len + len);
        if i + 1 < |list| && fi.offset + fi.len == list[i + 1].offset {
          fi := fi.(len := fi.len + list[i + 1].len);
          return true, list[..i] + [fi] + list[i + 2..];
        }
        return true, list[..i] + [fi] + list[i + 1..];
      } else if offset + len == fi.offset {
        fi := Frag(offset, fi.len + len);
        if i > 0 && list[i - 1].offset + list[i - 1].len == fi.offset {
          var fi2 := list[i - 1].(len := list[i - 1].len + fi.len);
          return true, list[..i - 1] + [fi2] + list[i + 1..];
        }
        return true, list[..i] + [fi] + list[i + 1..];
      } else if offset > fi.offset + fi.len {
        at := i + 1;
        break;
      } else if offset + len < fi.offset {
        at := i;
        break;
      }
      i := i + 1;
    }
    if !memory {
      return false, list;
    }
    return true, list[..at] + [x] + list[at..];
  }

  /** The same without a walk: only the head of the list matters. */
  function Insert(list: seq<Frag>, x: Frag): seq<Frag> {
    if list == [] then
      [x]
    else
      var f, rest := list[0], list[1..];
      if f.End() == x.offset then
        if rest != [] && x.End() == rest[0].offset then
          [Frag(f.offset, f.len + x.len + rest[0].len)] + rest[1..]
        else
          [Frag(f.offset, f.len + x.len)] + rest
      else if x.End() == f.offset then
        [Frag(x.offset, f.len + x.len)] + rest
      else if x.offset > f.End() then
        [f] + ([x] + rest)
      else
        [x] + list
  }

  /** Only a fragment that does not touch the first entry needs memory. */
  predicate NeedsEntry(list: seq<Frag>, x: Frag) {
    list == [] || (list[0].End() != x.offset && x.End() != list[0].offset)
  }

  /** A fragment that overlaps nothing is always dealt with at the first entry. */
  lemma WalkStopsAtHead(list: seq<Frag>, x: Frag)
    requires Clear(list, x)
    ensures Walk(list, x, 0) == (Insert(list, x), NeedsEntry(list, x))
  {
    if list == [] {
      assert [x] + list == [x];
    } else {
      assert list[0].Disjoint(x);
      assert list[..0] == [] && list[..1] == [list[0]] && list == [list[0]] + list[1..];
      assert |list| > 1 ==> list[1..][1..] == list[2..];
      assert Walk(list, x, 0).0 == Insert(list, x);
    }
  }

  // --- What an insertion keeps -----------------------------------------------------------------

  lemma SeparateCons(f: Frag, rest: seq<Frag>)
    ensures Separate([f] + rest) <==> Separate(rest) && Clear(rest, f)
  {
    var l := [f] + rest;
    assert forall i :: 0 <= i < |rest| ==> l[i + 1] == rest[i];
    assert forall i :: 1 <= i < |l| ==> l[i] == rest[i - 1];
    if Separate(l) {
      assert l[0].len > 0;
      forall i | 0 <= i < |rest| ensures rest[i].Disjoint(f) && rest[i].len > 0 {
        assert l[0].Disjoint(l[i + 1]);
      }
    }
  }

  lemma ClearCons(f: Frag, rest: seq<Frag>, x: Frag)
    ensures Clear([f] + rest, x) <==> Clear(rest, x) && f.Disjoint(x)
  {
    var l := [f] + rest;
    assert forall i :: 0 <= i < |rest| ==> l[i + 1] == rest[i];
    assert l[0] == f;
  }

  /** What is clear of two intervals that touch is clear of their union. */
  lemma JoinClear(rest: seq<Frag>, f: Frag, g: Frag)
    requires Separate(rest) && Clear(rest, f) && Clear(rest, g)
    requires f.End() == g.offset
    ensures Clear(rest, Frag(f.offset, f.len + g.len))
  {
  }

  lemma InsertKeepsSeparate(list: seq<Frag>, x: Frag)
    requires Separate(list) && Clear(list, x)
    ensures Separate(Insert(list, x))
  {
    hide Separate, Clear;
    if list == [] {
      assert Insert(list, x) == [x] + [];
      SeparateCons(x, []);
    } else {
      var f, rest := list[0], list[1..];
      assert list == [f] + rest;
      SeparateCons(f, rest);
      ClearCons(f, rest, x);
      if f.End() == x.offset {
        JoinClear(rest, f, x);
        var fx := Frag(f.offset, f.len + x.len);
        if rest != [] && x.End() == rest[0].offset {
          InsertGlues(fx, rest);
        } else {
          SeparateCons(fx, rest);
        }
      } else if x.End() == f.offset {
        JoinClear(rest, x, f);
        SeparateCons(Frag(x.offset, x.len + f.len), rest);
      } else {
        SeparateCons(x, rest);
        InsertBetween(f, x, rest);
        SeparateCons(x, list);
      }
    }
  }

  lemma InsertGlues(fx: Frag, rest: seq<Frag>)
    requires rest != [] && Separate(rest) && Clear(rest, fx) && fx.End() == rest[0].offset
    ensures Separate([Frag(fx.offset, fx.len + rest[0].len)] + rest[1..])
  {
    var g, tail := rest[0], rest[1..];
    assert rest == [g] + tail;
    SeparateCons(g, tail);
    assert Clear(tail, fx);
    JoinClear(tail, fx, g);
    SeparateCons(Frag(fx.offset, fx.len + g.len), tail);
  }

  lemma InsertBetween(f: Frag, x: Frag, rest: seq<Frag>)
    requires Separate([x] + rest) && Clear(rest, f) && f.Disjoint(x)
    ensures Separate([f] + ([x] + rest))
  {
    SeparateCons(f, [x] + rest);
  }

  lemma CoversCons(f: Frag, rest: seq<Frag>, b: int)
    ensures Covers([f] + rest, b) <==> f.Has(b) || Covers(rest, b)
  {
    var l := [f] + rest;
    if f.Has(b) { assert l[0].Has(b); }
    if Covers(rest, b) {
      var i :| 0 <= i < |rest| && rest[i].Has(b);
      assert l[i + 1].Has(b);
    }
  }

  /** The bytes of the list are the bytes before plus the bytes of the fragment. */
  lemma InsertCovers(list: seq<Frag>, x: Frag, b: int)
    ensures Covers(Insert(list, x), b) <==> Covers(list, b) || x.Has(b)
  {
    if list == [] {
      CoversCons(x, [], b);
    } else {
      var f, rest := list[0], list[1..];
      assert list == [f] + rest;
      CoversCons(f, rest, b);
      if f.End() == x.offset && rest != [] && x.End() == rest[0].offset {
        assert rest == [rest[0]] + rest[1..];
        CoversCons(rest[0], rest[1..], b);
        CoversCons(Insert(list, x)[0], rest[1..], b);
      } else if f.End() == x.offset || x.End() == f.offset {
        CoversCons(Insert(list, x)[0], rest, b);
      } else {
        CoversCons(x, rest, b);
        CoversCons(f, [x] + rest, b);
        CoversCons(x, list, b);
      }
    }
  }

  // --- Every order of arrival ------------------------------------------------------------------

  /** The list after fragments `xs` arrived in this order. */
  function Collected(xs: seq<Frag>): seq<Frag> {
    if xs == [] then [] else Insert(Collected(xs[..|xs| - 1]), xs[|xs| - 1])
  }

  /** is_datagram_complete looks at the first entry only. */
  predicate Complete(list: seq<Frag>, size: nat) {
    list != [] && list[0].len == size
  }

  predicate Within(list: seq<Frag>, size: nat) {
    forall i :: 0 <= i < |list| ==> list[i].End() <= size
  }

  /** The list holds disjoint intervals, and their union is exactly the bytes received. */
  lemma {:induction false} CollectedSound(xs: seq<Frag>)
    requires Separate(xs)
    ensures Separate(Collected(xs))
    ensures forall b :: Covers(Collected(xs), b) <==> Covers(xs, b)
  {
    if xs != [] {
      var before, x := xs[..|xs| - 1], xs[|xs| - 1];
      CollectedSound(before);
      SameBytesClear(before, Collected(before), x);
      InsertKeepsSeparate(Collected(before), x);
      forall b ensures Covers(Collected(xs), b) <==> Covers(xs, b) {
        InsertCovers(Collected(before), x, b);
        CoversSnoc(before, x, b);
        assert xs == before + [x];
      }
    }
  }

  lemma CoversSnoc(xs: seq<Frag>, x: Frag, b: int)
    ensures Covers(xs + [x], b) <==> Covers(xs, b) || x.Has(b)
  {
    var l := xs + [x];
    if Covers(xs, b) {
      var i :| 0 <= i < |xs| && xs[i].Has(b);
      assert l[i].Has(b);
    }
    if x.Has(b) { assert l[|xs|].Has(b); }
  }

  /** Being clear of a list only depends on the bytes it covers. */
  lemma SameBytesClear(xs: seq<Frag>, list: seq<Frag>, x: Frag)
    requires Clear(xs, x) && Separate(list)
    requires forall b :: Covers(list, b) ==> Covers(xs, b)
    ensures Clear(list, x)
  {
    forall b | x.Has(b) ensures !Covers(list, b) {
      assert forall k :: 0 <= k < |xs| ==> xs[k].Disjoint(x);
    }
    forall i | 0 <= i < |list| ensures list[i].Disjoint(x) {
      var b := if x.offset < list[i].offset then list[i].offset else x.offset;
      assert list[i].Has(b) ==> Covers(list, b);
    }
  }

  /** A complete datagram has every byte, whatever the order of arrival. */
  lemma CompleteIsSound(list: seq<Frag>, size: nat)
    requires Separate(list) && Within(list, size) && Complete(list, size)
    ensures |list| == 1 && forall b :: 0 <= b < size ==> Covers(list, b)
  {
    assert list[0].offset == 0;
    assert |list| > 1 ==> list[0].Disjoint(list[1]);
    forall b | 0 <= b < size ensures Covers(list, b) {
      assert list[0].Has(b);
    }
  }

  /** Maximal intervals in ascending order. */
  predicate Ascending(list: seq<Frag>) {
    forall i :: 0 <= i < |list| - 1 ==> list[i].End() < list[i + 1].offset
  }

  lemma {:induction false} AscendingFar(list: seq<Frag>, i: nat, j: nat)
    requires Separate(list) && Ascending(list) && i < j < |list|
    ensures list[i].End() < list[j].offset
    decreases j - i
  {
    if i + 1 < j {
      AscendingFar(list, i + 1, j);
    }
  }

  lemma AscendingCons(f: Frag, rest: seq<Frag>)
    ensures Ascending([f] + rest) <==> Ascending(rest) && (rest != [] ==> f.End() < rest[0].offset)
  {
    var l := [f] + rest;
    assert forall i :: 0 <= i < |rest| ==> l[i + 1] == rest[i];
    if Ascending(l) {
      assert rest != [] ==> l[0].End() < l[1].offset;
      forall i | 0 <= i < |rest| - 1 ensures rest[i].End() < rest[i + 1].offset {
        assert l[i + 1].End() < l[i + 1 + 1].offset;
      }
    }
    if Ascending(rest) && (rest != [] ==> f.End() < rest[0].offset) {
      forall i | 0 <= i < |l| - 1 ensures l[i].End() < l[i + 1].offset {
        assert i > 0 ==> rest[i - 1].End() < rest[i - 1 + 1].offset;
      }
    }
  }

  /** An insertion keeps the ascending order exactly when a fragment put behind the first entry stays below
      the second; and it never restores the order. */
  lemma InsertAscending(list: seq<Frag>, x: Frag)
    requires Separate(list) && Clear(list, x) && list != []
    ensures Ascending(Insert(list, x)) <==>
            Ascending(list) && (list[0].End() < x.offset && |list| > 1 ==> x.End() < list[1].offset)
  {
    var f, rest := list[0], list[1..];
    assert list == [f] + rest;
    assert f.Disjoint(x) && f.len > 0;
    if rest != [] {
      assert list[1].Disjoint(x) && f.Disjoint(list[1]) && list[1].len > 0;
    }
    hide Separate, Clear, Ascending;
    AscendingCons(f, rest);
    if f.End() == x.offset && rest != [] && x.End() == rest[0].offset {
      assert rest == [rest[0]] + rest[1..];
      AscendingCons(rest[0], rest[1..]);
      AscendingCons(Insert(list, x)[0], rest[1..]);
    } else if f.End() == x.offset || x.End() == f.offset {
      AscendingCons(Insert(list, x)[0], rest);
    } else {
      AscendingCons(x, rest);
      AscendingCons(f, [x] + rest);
      AscendingCons(x, list);
    }
  }

  // --- The condition on the order --------------------------------------------------------------

  /** Some byte is missing between `b` and a byte received below it. */
  ghost predicate BeyondHole(xs: seq<Frag>, b: int) {
    exists m, h :: m < h < b && Covers(xs, m) && !Covers(xs, h)
  }

  /** A fragment that arrives beyond a hole stays strictly below, and does not touch, everything received
      beyond a hole. */
  ghost predicate Orderly(xs: seq<Frag>, x: Frag) {
    BeyondHole(xs, x.offset) ==> forall b :: Covers(xs, b) && BeyondHole(xs, b) ==> x.End() < b
  }

  ghost predicate OrderlyRun(xs: seq<Frag>) {
    forall k :: 0 <= k < |xs| ==> Orderly(xs[..k], xs[k])
  }

  /** In a list in ascending order, beyond a hole means behind the first entry. */
  lemma BeyondFirst(xs: seq<Frag>, list: seq<Frag>, b: int)
    requires Separate(list) && Ascending(list)
    requires forall b :: Covers(list, b) <==> Covers(xs, b)
    ensures BeyondHole(xs, b) <==> list != [] && list[0].End() < b
  {
    if list != [] && list[0].End() < b {
      var m, h := list[0].offset, list[0].End();
      assert list[0].Has(m);
      assert Covers(list, m);
      if Covers(list, h) {
        var i :| 0 <= i < |list| && list[i].Has(h);
        if i > 0 { AscendingFar(list, 0, i); }
      }
    }
    if BeyondHole(xs, b) {
      var m, h :| m < h < b && Covers(xs, m) && !Covers(xs, h);
      assert Covers(list, m);
      var i :| 0 <= i < |list| && list[i].Has(m);
      if i > 0 { AscendingFar(list, 0, i); }
      assert list[0].Has(h) ==> Covers(list, h);
    }
  }

  lemma OrderlyStep(xs: seq<Frag>, list: seq<Frag>, x: Frag)
    requires Separate(list) && Ascending(list) && Clear(list, x)
    requires forall b :: Covers(list, b) <==> Covers(xs, b)
    ensures Orderly(xs, x) <==> Ascending(Insert(list, x))
  {
    if list == [] {
      forall b ensures !Covers(xs, b) { assert !Covers(list, b); }
    } else {
      BeyondFirst(xs, list, x.offset);
      InsertAscending(list, x);
      if list[0].End() < x.offset {
        if |list| == 1 || x.End() < list[1].offset {
          BeyondAll(xs, list, x);
        } else {
          assert list[1].Has(list[1].offset) && list[0].End() < list[1].offset;
          assert Covers(list, list[1].offset);
          BeyondFirst(xs, list, list[1].offset);
        }
      }
    }
  }

  lemma BeyondAll(xs: seq<Frag>, list: seq<Frag>, x: Frag)
    requires Separate(list) && Ascending(list) && list != []
    requires forall b :: Covers(list, b) <==> Covers(xs, b)
    requires |list| == 1 || x.End() < list[1].offset
    ensures forall b :: Covers(xs, b) && BeyondHole(xs, b) ==> x.End() < b
  {
    forall b | Covers(xs, b) && BeyondHole(xs, b) ensures x.End() < b {
      BeyondFirst(xs, list, b);
      assert Covers(list, b);
      var i :| 0 <= i < |list| && list[i].Has(b);
      if i > 1 { AscendingFar(list, 1, i); }
    }
  }

  /** The list is in ascending order exactly after an orderly run. */
  lemma {:induction false} AscendingIffOrderly(xs: seq<Frag>)
    requires Separate(xs)
    ensures Ascending(Collected(xs)) <==> OrderlyRun(xs)
  {
    if xs != [] {
      var before, x := xs[..|xs| - 1], xs[|xs| - 1];
      OrderlyRunSnoc(xs);
      AscendingIffOrderly(before);
      CollectedSound(before);
      SameBytesClear(before, Collected(before), x);
      hide OrderlyRun, Orderly, Ascending, Insert, Separate;
      if Ascending(Collected(before)) {
        OrderlyStep(before, Collected(before), x);
      } else {
        EmptyAscending();
        InsertAscending(Collected(before), x);
      }
    }
  }

  lemma EmptyAscending()
    ensures Ascending([])
  {
  }

  lemma OrderlyRunSnoc(xs: seq<Frag>)
    requires xs != []
    ensures var n := |xs| - 1;
      OrderlyRun(xs) <==> OrderlyRun(xs[..n]) && Orderly(xs[..n], xs[n])
  {
    var n := |xs| - 1;
    assert forall k :: 0 <= k < n ==> xs[..n][..k] == xs[..k] && xs[..n][k] == xs[k];
    hide Orderly;
  }

  ghost predicate TilesAll(xs: seq<Frag>, size: nat) {
    && Separate(xs) && Within(xs, size)
    && forall b :: 0 <= b < size ==> Covers(xs, b)
  }

  /** Reassembly of a datagram from any fragments that make it up, in any order: it completes exactly when
      the order was orderly. */
  lemma CompletesIff(xs: seq<Frag>, size: nat)
    requires size > 0 && TilesAll(xs, size)
    ensures Complete(Collected(xs), size) <==> OrderlyRun(xs)
  {
    var list := Collected(xs);
    CollectedSound(xs);
    AscendingIffOrderly(xs);
    CollectedWithin(xs, size);
    assert Covers(list, 0);
    if Complete(list, size) {
      CompleteIsSound(list, size);
    }
    if Ascending(list) {
      var first := list[0];
      if first.offset > 0 {
        var i :| 0 <= i < |list| && list[i].Has(0);
        AscendingFar(list, 0, i);
      }
      if first.End() < size {
        assert Covers(list, first.End());
        var i :| 0 <= i < |list| && list[i].Has(first.End());
        AscendingFar(list, 0, i);
      }
    }
  }

  lemma CollectedWithin(xs: seq<Frag>, size: nat)
    requires Separate(xs) && Within(xs, size)
    ensures Within(Collected(xs), size)
  {
    CollectedSound(xs);
    var list := Collected(xs);
    forall i | 0 <= i < |list| ensures list[i].End() <= size {
      assert list[i].Has(list[i].End() - 1);
      assert Covers(list, list[i].End() - 1);
      var k :| 0 <= k < |xs| && xs[k].Has(list[i].End() - 1);
    }
  }

  /** Part of the fragments never completes it, whichever part of them is missing. */
  lemma PartNeverCompletes(xs: seq<Frag>, size: nat, m: nat, k: nat)
    requires size > 0 && TilesAll(xs, size) && m <= k <= |xs| && (0 < m || k < |xs|)
    ensures !Complete(Collected(xs[m..k]), size)
  {
    var part, missing := xs[m..k], xs[if 0 < m then 0 else k];
    assert Separate(part);
    CollectedSound(part);
    CollectedWithin(part, size);
    assert forall i :: 0 <= i < |part| ==> part[i] == xs[m + i] && part[i].Disjoint(missing);
    assert !Covers(part, missing.offset);
    assert missing.End() <= size;
    if Complete(Collected(part), size) {
      CompleteIsSound(Collected(part), size);
    }
  }

  /** So it never completes before the last one. */
  lemma NeverEarly(xs: seq<Frag>, size: nat, k: nat)
    requires size > 0 && TilesAll(xs, size) && k < |xs|
    ensures !Complete(Collected(xs[..k]), size)
  {
    assert xs[..k] == xs[0..k];
    PartNeverCompletes(xs, size, 0, k);
  }

  // --- Orders that work and one that does not --------------------------------------------------

  /** Every prefix of the arrivals is one interval: sender order, its reverse, growth in both directions. */
  ghost predicate Contiguous(xs: seq<Frag>) {
    forall k, a, b, c :: 0 <= k <= |xs| && a < b < c && Covers(xs[..k], a) && Covers(xs[..k], c) ==> Covers(xs[..k], b)
  }

  lemma ContiguousIsOrderly(xs: seq<Frag>)
    requires Separate(xs) && Contiguous(xs)
    ensures OrderlyRun(xs)
  {
    forall k | 0 <= k < |xs| ensures Orderly(xs[..k], xs[k]) {
      if BeyondHole(xs[..k], xs[k].offset) {
        var m, h :| m < h < xs[k].offset && Covers(xs[..k], m) && !Covers(xs[..k], h);
        assert xs[..k + 1] == xs[..k] + [xs[k]];
        CoversSnoc(xs[..k], xs[k], m);
        CoversSnoc(xs[..k], xs[k], h);
        CoversSnoc(xs[..k], xs[k], xs[k].offset);
        assert false;
      }
    }
  }

  /** Four fragments of one byte, arriving as 0, 2, 3, 1, are all there and never recognised. */
  lemma StuckOrder()
    ensures var xs := [Frag(0, 1), Frag(2, 1), Frag(3, 1), Frag(1, 1)];
      && TilesAll(xs, 4)
      && !Complete(Collected(xs), 4)
  {
    var xs := [Frag(0, 1), Frag(2, 1), Frag(3, 1), Frag(1, 1)];
    assert xs[0].Has(0) && xs[3].Has(1) && xs[1].Has(2) && xs[2].Has(3);
    assert Collected([Frag(0, 1)]) == [Frag(0, 1)];
    assert xs[..3][..2][..1] == [Frag(0, 1)];
    assert Collected(xs[..3][..2]) == [Frag(0, 1), Frag(2, 1)];
    assert Collected(xs[..3]) == [Frag(0, 1), Frag(3, 1), Frag(2, 1)];
    assert Collected(xs) == [Frag(0, 2), Frag(3, 1), Frag(2, 1)];
  }
}
