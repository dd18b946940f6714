/**
 Positions on a ring: a counter that only grows, seen modulo the size of the ring or of a machine word.
 */
module Ring {

  lemma Distribute(d: nat, q: int)
    ensures d * (q + 1) == d * q + d
  {
  }

  lemma {:induction false} Spread(d: nat, x: int, y: int)
    requires x > y
    ensures d * x >= d * y + d
    decreases x - y
  {
    Distribute(d, x - 1);
    if x > y + 1 {
      Spread(d, x - 1, y);
    }
  }

  lemma DivModUnique(n: int, d: nat, q: int, r: nat)
    requires d > 0 && n == d * q + r && r < d
    ensures n / d == q && n % d == r
  {
    var q', r' := n / d, n % d;
    assert n == d * q' + r';
    if q > q' { Spread(d, q, q'); }
    if q < q' { Spread(d, q', q); }
  }

  /** The place of position `n` on a ring of `size` places. */
  function Slot(n: nat, size: nat): (s: nat)
    requires size > 0
    ensures s < size
  {
    n % size
  }

  lemma SlotStart(size: nat)
    requires size > 0
    ensures Slot(0, size) == 0
  {
  }

  lemma SlotNext(n: nat, size: nat)
    requires size > 0
    ensures Slot(n + 1, size) == if Slot(n, size) == size - 1 then 0 else Slot(n, size) + 1
    ensures Slot(n + 1, size) == (Slot(n, size) + 1) % size
  {
    var q, r := n / size, n % size;
    Distribute(size, q);
    if r == size - 1 {
      DivModUnique(n + 1, size, q + 1, 0);
      DivModUnique(size, size, 1, 0);
    } else {
      DivModUnique(n + 1, size, q, r + 1);
      DivModUnique(r + 1, size, 0, r + 1);
    }
  }

  /** Within one turn, a place comes back only at the end of the turn. */
  lemma SlotsMeet(a: nat, b: nat, size: nat)
    requires size > 0 && a <= b <= a + size
    ensures Slot(a, size) == Slot(b, size) <==> a == b || b == a + size
  {
    var q, r := a / size, a % size;
    var t := r + (b - a);
    assert b == size * q + t;
    Distribute(size, q);
    Distribute(size, q + 1);
    if t < size {
      DivModUnique(b, size, q, t);
    } else if t < 2 * size {
      DivModUnique(b, size, q + 1, t - size);
    }
  }

  /** The places of one turn, all against one of them. */
  lemma SlotsDistinct(base: nat, n: nat, size: nat)
    requires size > 0 && base <= n < base + size
    ensures forall k {:trigger Slot(k, size)} :: base <= k < base + size ==>
      (Slot(k, size) == Slot(n, size) <==> k == n)
  {
    forall k {:trigger Slot(k, size)} | base <= k < base + size ensures Slot(k, size) == Slot(n, size) <==> k == n {
      if k <= n { SlotsMeet(k, n, size); } else { SlotsMeet(n, k, size); }
    }
  }

  // --- 32-bit counters -------------------------------------------------------------------------

  type u32 = x: int | 0 <= x < 0x1_0000_0000

  /** The value of an unsigned int that counted up to `n`. */
  function Word(n: nat): u32 {
    n % 0x1_0000_0000
  }

  /** (int)(a - b) */
  function SignedDiff(a: u32, b: u32): int {
    var d := if a >= b then a - b else a - b + 0x1_0000_0000;
    if d < 0x8000_0000 then d else d - 0x1_0000_0000
  }

  function Inc(a: u32): u32 {
    if a == 0xFFFF_FFFF then 0 else a + 1
  }

  /** As long as they are not too far apart, wrapped counters compare like the counts. */
  lemma DiffCounts(h: nat, t: nat)
    requires t <= h < t + 0x8000_0000
    ensures SignedDiff(Word(h), Word(t)) == h - t
  {
  }

  lemma IncCounts(n: nat)
    ensures Inc(Word(n)) == Word(n + 1)
  {
  }

  lemma WordsMeet(a: nat, b: nat)
    requires a <= b < a + 0x1_0000_0000
    ensures Word(a) == Word(b) <==> a == b
  {
  }

  /** On a ring whose size divides the range of the counter, the wrapped counter names the same place. */
  lemma WordSlot(n: nat, size: nat)
    requires size > 0 && 0x1_0000_0000 % size == 0
    ensures Slot(Word(n), size) == Slot(n, size)
  {
    var w, a, q := Word(n), n / 0x1_0000_0000, 0x1_0000_0000 / size;
    assert n == size * (q * a) + w;
    assert w == size * (w / size) + w % size;
    assert n == size * (q * a + w / size) + w % size;
    DivModUnique(n, size, q * a + w / size, w % size);
  }
}
