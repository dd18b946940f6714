/**
 * stack/iovec.c: copying a buffer into, and out of, the memory segments named by an I/O vector.
 * Both loops use up the vector in place: each segment's base moves up and its length goes down
 * by what was copied.
 */
module IoVec {
  import opened Bytes

  // iov_base and iov_len.  A length fits the 32 bits in which the loops compare it.
  type Length = n: nat | n < 0x1_0000_0000
  datatype Segment = Segment(base: nat, len: Length)

  function Min(a: int, b: int): (r: int) {
    if a < b then a else b
  }

  function Max(a: int, b: int): (r: int) {
    if a < b then b else a
  }

  // ---- which memory cells a vector names, in order ----

  // The summed lengths of the first k segments.
  function Start(iov: seq<Segment>, k: nat): (n: nat)
    requires k <= |iov|
  {
    if k == 0 then 0 else Start(iov, k - 1) + iov[k - 1].len
  }

  function Total(iov: seq<Segment>): (n: nat) {
    Start(iov, |iov|)
  }

  function Range(base: nat, n: nat): (r: seq<nat>)
    ensures |r| == n
  {
    seq(n, i requires 0 <= i => base + i)
  }

  function CellsOf(iov: seq<Segment>, k: nat): (r: seq<nat>)
    requires k <= |iov|
    ensures |r| == Start(iov, k)
  {
    if k == 0 then [] else CellsOf(iov, k - 1) + Range(iov[k - 1].base, iov[k - 1].len)
  }

  function Cells(iov: seq<Segment>): (r: seq<nat>)
    ensures |r| == Total(iov)
  {
    CellsOf(iov, |iov|)
  }

  ghost predicate Fits(iov: seq<Segment>, size: nat) {
    forall i :: 0 <= i < |iov| ==> iov[i].base + iov[i].len <= size
  }

  ghost predicate Inside(cells: seq<nat>, size: nat) {
    forall i :: 0 <= i < |cells| ==> cells[i] < size
  }

  // No cell is named twice: the segments are disjoint.
  ghost predicate Disjoint(cells: seq<nat>) {
    forall i, j :: 0 <= i < j < |cells| ==> cells[i] != cells[j]
  }

  lemma {:induction false} StartGrows(iov: seq<Segment>, j: nat, k: nat)
    requires j <= k <= |iov|
    ensures Start(iov, j) <= Start(iov, k)
  {
    if j < k {
      StartGrows(iov, j, k - 1);
    }
  }

  // Byte i of segment k is cell number Start(k) + i.
  lemma {:induction false} CellAt(iov: seq<Segment>, n: nat, k: nat, i: nat)
    requires k < n <= |iov| && i < iov[k].len
    ensures Start(iov, k) + i < Start(iov, n)
    ensures CellsOf(iov, n)[Start(iov, k) + i] == iov[k].base + i
  {
    if k < n - 1 {
      CellAt(iov, n - 1, k, i);
    }
  }

  lemma {:induction false} CellsInside(iov: seq<Segment>, k: nat, size: nat)
    requires k <= |iov| && Fits(iov, size)
    ensures Inside(CellsOf(iov, k), size)
  {
    if k > 0 {
      CellsInside(iov, k - 1, size);
    }
  }

  // ---- what is left of a vector when n bytes have been copied through it ----

  function Rest(s: Segment, n: int): (r: Segment) {
    var copy := Max(0, Min(n, s.len));
    Segment(s.base + copy, s.len - copy)
  }

  function UsedOf(iov: seq<Segment>, n: nat, k: nat): (r: seq<Segment>)
    requires k <= |iov|
    ensures |r| == k
  {
    if k == 0 then [] else UsedOf(iov, n, k - 1) + [Rest(iov[k - 1], n - Start(iov, k - 1))]
  }

  function Used(iov: seq<Segment>, n: nat): (r: seq<Segment>)
    ensures |r| == |iov|
  {
    UsedOf(iov, n, |iov|)
  }

  lemma {:induction false} UsedOfAt(iov: seq<Segment>, n: nat, k: nat, j: nat)
    requires j < k <= |iov|
    ensures UsedOf(iov, n, k)[j] == Rest(iov[j], n - Start(iov, j))
  {
    hide Rest;
    if j < k - 1 {
      UsedOfAt(iov, n, k - 1, j);
    }
  }

  // Each segment gives up what the segments before it have left of the n bytes.
  lemma UsedAt(iov: seq<Segment>, n: nat, j: nat)
    requires j < |iov|
    ensures Used(iov, n)[j] == Rest(iov[j], n - Start(iov, j))
  {
    UsedOfAt(iov, n, |iov|, j);
  }

  lemma {:induction false} UsedStart(iov: seq<Segment>, n: nat, k: nat)
    requires k <= |iov|
    ensures Start(Used(iov, n), k) == Max(0, Start(iov, k) - n)
  {
    hide Used;
    if k > 0 {
      UsedStart(iov, n, k - 1);
      UsedAt(iov, n, k - 1);
    }
  }

  // The total length falls by exactly what was copied.
  lemma UsedTotal(iov: seq<Segment>, n: nat)
    requires n <= Total(iov)
    ensures Total(Used(iov, n)) == Total(iov) - n
  {
    UsedStart(iov, n, |iov|);
  }

  // Copying m bytes and then n uses up the vector like copying m + n at once.
  lemma UsedTwice(iov: seq<Segment>, m: nat, n: nat)
    ensures Used(Used(iov, m), n) == Used(iov, m + n)
  {
    hide Used, Start;
    forall k | 0 <= k < |iov| ensures Used(Used(iov, m), n)[k] == Used(iov, m + n)[k] {
      UsedStart(iov, m, k);
      UsedAt(iov, m, k);
      UsedAt(Used(iov, m), n, k);
      UsedAt(iov, m + n, k);
    }
  }

  lemma RangeDrop(base: nat, n: nat, k: nat)
    requires k <= n
    ensures Range(base, n)[k..] == Range(base + k, n - k)
  {
  }

  lemma DropBoth<T>(a: seq<T>, b: seq<T>, n: nat)
    requires n <= |a| + |b|
    ensures n <= |a| ==> (a + b)[n..] == a[n..] + b
    ensures n >= |a| ==> (a + b)[n..] == b[n - |a|..]
  {
  }

  lemma RestCells(a: seq<nat>, s: Segment, n: nat)
    ensures (a + Range(s.base, s.len))[Min(n, |a| + s.len)..]
         == a[Min(n, |a|)..] + Range(Rest(s, n - |a|).base, Rest(s, n - |a|).len)
  {
    var copy := Max(0, Min(n - |a|, s.len));
    RangeDrop(s.base, s.len, copy);
    hide Range;
    DropBoth(a, Range(s.base, s.len), Min(n, |a| + s.len));
  }

  lemma CellsNext(iov: seq<Segment>, k: nat)
    requires 0 < k <= |iov|
    ensures CellsOf(iov, k) == CellsOf(iov, k - 1) + Range(iov[k - 1].base, iov[k - 1].len)
    ensures Start(iov, k) == |CellsOf(iov, k - 1)| + iov[k - 1].len
  {
  }

  // Copying uses up the first n cells and leaves the others, in order.
  lemma {:induction false} UsedCells(iov: seq<Segment>, n: nat, k: nat)
    requires k <= |iov|
    ensures CellsOf(Used(iov, n), k) == CellsOf(iov, k)[Min(n, Start(iov, k))..]
  {
    if k > 0 {
      hide *;
      UsedCells(iov, n, k - 1);
      CellsNext(iov, k);
      CellsNext(Used(iov, n), k);
      UsedAt(iov, n, k - 1);
      RestCells(CellsOf(iov, k - 1), iov[k - 1], n);
    }
  }

  // ---- writing and reading cells ----

  // The first n bytes of data written to the first n cells, in order.
  function Put(memory: seq<byte>, cells: seq<nat>, data: seq<byte>, n: nat): (r: seq<byte>)
    requires n <= |cells| && n <= |data| && Inside(cells, |memory|)
    ensures |r| == |memory|
  {
    if n == 0 then memory else Put(memory, cells, data, n - 1)[cells[n - 1] := data[n - 1]]
  }

  // The contents of the first n cells.
  function Get(memory: seq<byte>, cells: seq<nat>, n: nat): (r: seq<byte>)
    requires n <= |cells| && Inside(cells, |memory|)
    ensures |r| == n
  {
    seq(n, i requires 0 <= i < n => memory[cells[i]])
  }

  // Nothing is written outside the first n cells.
  lemma {:induction false} PutElsewhere(memory: seq<byte>, cells: seq<nat>, data: seq<byte>, n: nat, x: nat)
    requires n <= |cells| && n <= |data| && Inside(cells, |memory|) && x < |memory|
    requires forall i :: 0 <= i < n ==> cells[i] != x
    ensures Put(memory, cells, data, n)[x] == memory[x]
  {
    if n > 0 {
      PutElsewhere(memory, cells, data, n - 1, x);
    }
  }

  lemma {:induction false} PutAt(memory: seq<byte>, cells: seq<nat>, data: seq<byte>, n: nat, i: nat)
    requires n <= |cells| && n <= |data| && Inside(cells, |memory|) && Disjoint(cells) && i < n
    ensures Put(memory, cells, data, n)[cells[i]] == data[i]
  {
    if i < n - 1 {
      PutAt(memory, cells, data, n - 1, i);
    }
  }

  // What was scattered over disjoint cells is gathered from them again.
  lemma PutGet(memory: seq<byte>, cells: seq<nat>, data: seq<byte>, n: nat)
    requires n <= |cells| && n <= |data| && Inside(cells, |memory|) && Disjoint(cells)
    ensures Get(Put(memory, cells, data, n), cells, n) == data[..n]
  {
    forall i | 0 <= i < n ensures Get(Put(memory, cells, data, n), cells, n)[i] == data[..n][i] {
      PutAt(memory, cells, data, n, i);
    }
  }

  // Writing x and then y, over the cells that x left, is writing x + y at once.
  lemma {:induction false} PutTwice(memory: seq<byte>, cells: seq<nat>, x: seq<byte>, y: seq<byte>, n: nat)
    requires |x| + n <= |cells| && n <= |y| && Inside(cells, |memory|)
    ensures Put(Put(memory, cells, x, |x|), cells[|x|..], y, n) == Put(memory, cells, x + y, |x| + n)
  {
    if n > 0 {
      PutTwice(memory, cells, x, y, n - 1);
    } else {
      PutPrefix(memory, cells, x, y, |x|);
    }
  }

  lemma {:induction false} PutPrefix(memory: seq<byte>, cells: seq<nat>, x: seq<byte>, y: seq<byte>, n: nat)
    requires n <= |x| && n <= |cells| && Inside(cells, |memory|)
    ensures Put(memory, cells, x, n) == Put(memory, cells, x + y, n)
  {
    if n > 0 {
      PutPrefix(memory, cells, x, y, n - 1);
    }
  }

  // ---- the loops ----

  // A round has come to segment k, with every segment before it used up.
  ghost predicate AtSegment(before: seq<Segment>, iov: seq<Segment>, k: nat, n: nat) {
    && |iov| == |before| && k <= |iov|
    && (forall j :: 0 <= j < k ==> iov[j] == Used(before, n)[j])
    && forall j :: k <= j < |iov| ==> iov[j] == before[j]
  }

  // After the last round nothing of the remaining segments is used.
  lemma UnusedTail(before: seq<Segment>, iov: seq<Segment>, k: nat, n: nat)
    requires AtSegment(before, iov, k, n) && n <= Start(before, k)
    ensures iov == Used(before, n)
  {
    hide Used, Start;
    forall j | k <= j < |iov| ensures iov[j] == Used(before, n)[j] {
      StartGrows(before, k, j);
      UsedAt(before, n, j);
    }
  }

  // Segment k takes what is left of the n bytes, or all it has room for.
  lemma NextSegment(before: seq<Segment>, iov: seq<Segment>, k: nat, n: nat, copy: nat)
    requires AtSegment(before, iov, k, n) && k < |iov| && Start(before, k) <= n
    requires copy == Min(iov[k].len, n - Start(before, k))
    ensures AtSegment(before, iov[k := Segment(iov[k].base + copy, iov[k].len - copy)], k + 1, n)
  {
    hide Used, Start;
    UsedAt(before, n, k);
  }

  // memcpy into one segment: the bytes go to the next cells.
  method CopyIn(memory: array<byte>, base: nat, kdata: seq<byte>, done: nat, copy: nat,
                ghost before: seq<byte>, ghost cells: seq<nat>)
    requires base + copy <= memory.Length && done + copy <= |kdata| && done + copy <= |cells|
    requires |before| == memory.Length && Inside(cells, |before|)
    requires forall c :: done <= c < done + copy ==> cells[c] == base + (c - done)
    requires memory[..] == Put(before, cells, kdata, done)
    modifies memory
    ensures memory[..] == Put(before, cells, kdata, done + copy)
  {
    var i := 0;
    while i < copy
      invariant 0 <= i <= copy
      invariant memory[..] == Put(before, cells, kdata, done + i)
    {
      ghost var was := memory[..];
      memory[base + i] := kdata[done + i];
      assert memory[..] == was[base + i := kdata[done + i]];
      assert cells[done + i] == base + i;
      i := i + 1;
    }
  }

  // memcpy out of one segment: the bytes come from the next cells.
  method CopyOut(kdata: array<byte>, done: nat, memory: array<byte>, base: nat, copy: nat, ghost cells: seq<nat>)
    requires base + copy <= memory.Length && done + copy <= kdata.Length && done + copy <= |cells|
    requires memory != kdata && Inside(cells, memory.Length)
    requires forall c :: done <= c < done + copy ==> cells[c] == base + (c - done)
    requires kdata[..done] == Get(memory[..], cells, done)
    modifies kdata
    ensures kdata[..done + copy] == Get(memory[..], cells, done + copy)
    ensures forall i :: done + copy <= i < kdata.Length ==> kdata[i] == old(kdata[i])
  {
    var i := 0;
    while i < copy
      invariant 0 <= i <= copy
      invariant kdata[..done + i] == Get(memory[..], cells, done + i)
      invariant forall j :: done + i <= j < kdata.Length ==> kdata[j] == old(kdata[j])
    {
      kdata[done + i] := memory[base + i];
      assert cells[done + i] == base + i;
      assert kdata[..done + i + 1] == kdata[..done + i] + [kdata[done + i]];
      i := i + 1;
    }
  }

  method Advance(iov: array<Segment>, k: nat, copy: nat)
    requires k < iov.Length && copy <= iov[k].len
    modifies iov
    ensures iov[..] == old(iov[..])[k := Segment(old(iov[k].base) + copy, old(iov[k].len) - copy)]
  {
    iov[k] := Segment(iov[k].base + copy, iov[k].len - copy);
  }

  // With bytes left to copy there is a segment to copy through, and its cells come next.
  lemma SegmentTells(before: seq<Segment>, iov: seq<Segment>, k: nat, n: nat, done: nat, size: nat)
    requires AtSegment(before, iov, k, n) && Fits(before, size)
    requires done == Min(n, Start(before, k)) && done < n <= Total(before)
    ensures k < |iov| && iov[k] == before[k] && iov[k].base + iov[k].len <= size
    ensures done == Start(before, k) && done + iov[k].len == Start(before, k + 1) <= Total(before)
    ensures forall c :: done <= c < done + iov[k].len ==> Cells(before)[c] == iov[k].base + (c - done)
  {
    StartGrows(before, k + 1, |before|);
    forall c | done <= c < done + iov[k].len ensures Cells(before)[c] == iov[k].base + (c - done) {
      CellAt(before, |before|, k, c - done);
    }
  }

  // rt_memcpy_tokerneliovec: scatter the first length bytes of kdata.
  method ToKernelIovec(memory: array<byte>, iov: array<Segment>, kdata: seq<byte>, length: int)
    requires length <= |kdata| && length <= Total(iov[..]) && Fits(iov[..], memory.Length)
    requires (memory as object) != (iov as object)
    modifies memory, iov
    ensures Inside(Cells(old(iov[..])), memory.Length)
    ensures iov[..] == Used(old(iov[..]), Max(0, length))
    ensures memory[..] == Put(old(memory[..]), Cells(old(iov[..])), kdata, Max(0, length))
  {
    ghost var n, before, cells := Max(0, length), iov[..], Cells(iov[..]);
    CellsInside(before, |before|, memory.Length);
    var len, done, k := length, 0, 0;
    hide Cells, Used, Put, AtSegment, Fits, Inside, Total, Start;
    AtFirst(before, n);
    while len > 0
      invariant 0 <= k <= iov.Length && 0 <= done <= n && Max(0, len) == n - done
      invariant AtSegment(before, iov[..], k, n) && done == Min(n, Start(before, k))
      invariant memory[..] == Put(old(memory[..]), cells, kdata, done)
      decreases iov.Length - k
    {
      ghost var was := iov[..];
      SegmentTells(before, was, k, n, done, memory.Length);
      NextSegment(before, was, k, n, Min(iov[k].len, n - done));
      if iov[k].len != 0 {
        var copy := Min(iov[k].len, len);
        CopyIn(memory, iov[k].base, kdata, done, copy, old(memory[..]), cells);
        done, len := done + copy, len - copy;
        Advance(iov, k, copy);
      }
      k := k + 1;
    }
    UnusedTail(before, iov[..], k, n);
  }

  lemma AtFirst(before: seq<Segment>, n: nat)
    ensures AtSegment(before, before, 0, n) && Start(before, 0) == 0
  {
  }

  // rt_memcpy_fromkerneliovec: gather length bytes into kdata.
  method FromKernelIovec(kdata: array<byte>, memory: array<byte>, iov: array<Segment>, length: int)
    requires length <= kdata.Length && length <= Total(iov[..]) && Fits(iov[..], memory.Length)
    requires kdata != memory && (kdata as object) != (iov as object) && (memory as object) != (iov as object)
    modifies kdata, iov
    ensures Inside(Cells(old(iov[..])), memory.Length)
    ensures iov[..] == Used(old(iov[..]), Max(0, length))
    ensures kdata[..Max(0, length)] == Get(memory[..], Cells(old(iov[..])), Max(0, length))
    ensures forall i :: Max(0, length) <= i < kdata.Length ==> kdata[i] == old(kdata[i])
  {
    ghost var n, before, cells := Max(0, length), iov[..], Cells(iov[..]);
    CellsInside(before, |before|, memory.Length);
    var len, done, k := length, 0, 0;
    hide Cells, Used, Get, AtSegment, Fits, Inside, Total, Start;
    AtFirst(before, n);
    while len > 0
      invariant 0 <= k <= iov.Length && 0 <= done <= n && Max(0, len) == n - done
      invariant AtSegment(before, iov[..], k, n) && done == Min(n, Start(before, k))
      invariant kdata[..done] == Get(memory[..], cells, done)
      invariant forall i :: done <= i < kdata.Length ==> kdata[i] == old(kdata[i])
      decreases iov.Length - k
    {
      ghost var was := iov[..];
      SegmentTells(before, was, k, n, done, memory.Length);
      NextSegment(before, was, k, n, Min(iov[k].len, n - done));
      if iov[k].len != 0 {
        var copy := Min(len, iov[k].len);
        CopyOut(kdata, done, memory, iov[k].base, copy, cells);
        done, len := done + copy, len - copy;
        Advance(iov, k, copy);
      }
      k := k + 1;
    }
    UnusedTail(before, iov[..], k, n);
  }

  // ---- the laws ----

  predicate Overlap(s: Segment, t: Segment) {
    s.len > 0 && t.len > 0 && s.base < t.base + t.len && t.base < s.base + s.len
  }

  predicate Has(s: Segment, a: nat) {
    s.base <= a < s.base + s.len
  }

  // Two segments overlap exactly if they have a cell in common.
  lemma OverlapTells(s: Segment, t: Segment)
    ensures Overlap(s, t) <==> exists a: nat :: Has(s, a) && Has(t, a)
  {
    if Overlap(s, t) {
      var a := if s.base < t.base then t.base else s.base;
      assert Has(s, a) && Has(t, a);
    }
  }

  ghost predicate Apart(iov: seq<Segment>) {
    forall j, k :: 0 <= j < k < |iov| ==> !Overlap(iov[j], iov[k])
  }

  // Every cell lies in some segment.
  lemma {:induction false} CellLies(iov: seq<Segment>, k: nat, c: nat) returns (j: nat)
    requires k <= |iov| && c < Start(iov, k)
    ensures j < k && iov[j].base <= CellsOf(iov, k)[c] < iov[j].base + iov[j].len
  {
    if c < Start(iov, k - 1) {
      j := CellLies(iov, k - 1, c);
    } else {
      j := k - 1;
    }
  }

  // Segments that do not overlap name no cell twice.
  lemma {:induction false} ApartCells(iov: seq<Segment>, k: nat)
    requires Apart(iov) && k <= |iov|
    ensures Disjoint(CellsOf(iov, k))
  {
    if k > 0 {
      ApartCells(iov, k - 1);
      var s, cells := iov[k - 1], CellsOf(iov, k);
      forall a, b | 0 <= a < b < |cells| ensures cells[a] != cells[b] {
        if b >= Start(iov, k - 1) > a {
          var j := CellLies(iov, k - 1, a);
          assert !Overlap(iov[j], s);
        }
      }
    }
  }

  // Gathering through a copy of the original vector returns what was scattered through it.
  lemma ScatterGather(memory: seq<byte>, iov: seq<Segment>, data: seq<byte>, n: nat)
    requires n <= |data| && n <= Total(iov) && Fits(iov, |memory|) && Apart(iov)
    ensures Inside(Cells(iov), |memory|)
    ensures Get(Put(memory, Cells(iov), data, n), Cells(iov), n) == data[..n]
  {
    CellsInside(iov, |iov|, |memory|);
    ApartCells(iov, |iov|);
    hide *;
    PutGet(memory, Cells(iov), data, n);
  }

  lemma UsedFits(iov: seq<Segment>, n: nat, size: nat)
    requires Fits(iov, size)
    ensures Fits(Used(iov, n), size)
  {
    hide Used, Start;
    forall j | 0 <= j < |iov| ensures Used(iov, n)[j].base + Used(iov, n)[j].len <= size {
      UsedAt(iov, n, j);
    }
  }

  // Two scatters in a row leave the vector like one scatter of both lengths ...
  lemma TwoScattersVector(iov: seq<Segment>, m: nat, n: nat, size: nat)
    requires m + n <= Total(iov) && Fits(iov, size)
    ensures Total(Used(iov, m)) == Total(iov) - m && Fits(Used(iov, m), size)
    ensures Used(Used(iov, m), n) == Used(iov, m + n)
  {
    hide *;
    UsedTotal(iov, m);
    UsedFits(iov, m, size);
    UsedTwice(iov, m, n);
  }

  // ... and memory like one scatter of the concatenation.
  lemma TwoScattersMemory(memory: seq<byte>, iov: seq<Segment>, x: seq<byte>, y: seq<byte>)
    requires |x| + |y| <= Total(iov) && Fits(iov, |memory|)
    ensures Inside(Cells(iov), |memory|) && Inside(Cells(Used(iov, |x|)), |memory|)
    ensures |y| <= |Cells(Used(iov, |x|))|
    ensures Put(Put(memory, Cells(iov), x, |x|), Cells(Used(iov, |x|)), y, |y|) ==
      Put(memory, Cells(iov), x + y, |x| + |y|)
  {
    hide *;
    AllInside(iov, |memory|);
    UsedFits(iov, |x|, |memory|);
    AllInside(Used(iov, |x|), |memory|);
    AllUsedCells(iov, |x|);
    PutTwice(memory, Cells(iov), x, y, |y|);
  }

  lemma AllInside(iov: seq<Segment>, size: nat)
    requires Fits(iov, size)
    ensures Inside(Cells(iov), size)
  {
    CellsInside(iov, |iov|, size);
  }

  lemma AllUsedCells(iov: seq<Segment>, n: nat)
    requires n <= Total(iov)
    ensures Cells(Used(iov, n)) == Cells(iov)[n..]
  {
    UsedCells(iov, n, |iov|);
  }
}
