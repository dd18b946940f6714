/**
 * The interface names that rtdev_alloc_name hands out: a mask such as "rteth%d" is expanded
 * with 0, 1, 2, ... until an expansion is found that no registered device bears.
 */
module DeviceNames {
  import opened Sets

  // MAX_RT_DEVICES and IFNAMSIZ.  A name field holds a zero-terminated string, so 15 characters.
  const MAX_DEVICES := 8
  const NAME_SIZE := 16

  type Name = s: string | |s| < NAME_SIZE witness []

  predicate HasPercent(s: string) {
    exists i :: 0 <= i < |s| && s[i] == '%'
  }

  lemma PercentTells(s: string)
    ensures HasPercent(s) <==> '%' in s
  {
  }

  // The place of the one conversion in a mask.
  predicate ConvertsAt(mask: string, p: nat) {
    && p + 1 < |mask| && mask[p] == '%' && mask[p + 1] == 'd'
    && forall i :: 0 <= i < |mask| && mask[i] == '%' ==> i == p
  }

  // A printf format that consumes exactly the one integer it is given.
  predicate IsMask(mask: string) {
    exists p: nat :: p < |mask| && ConvertsAt(mask, p)
  }

  function Digit(i: nat): (c: char)
    requires i < MAX_DEVICES
    ensures c as int == '0' as int + i && c != '%'
  {
    "01234567"[i]
  }

  // snprintf(buf, IFNAMSIZ, mask, i).
  function Expand(mask: string, i: nat): (n: Name)
    requires i < MAX_DEVICES
  {
    Truncate(Substitute(mask, Digit(i)))
  }

  function Truncate(s: string): (n: Name) {
    if |s| < NAME_SIZE then s else s[..NAME_SIZE - 1]
  }

  function Substitute(mask: string, digit: char): (s: string) {
    if |mask| < 2 then mask
    else if mask[0] == '%' && mask[1] == 'd' then [digit] + mask[2..]
    else [mask[0]] + Substitute(mask[1..], digit)
  }

  // A plain name stands for itself, a mask for any of its expansions.
  ghost predicate NameFor(asked: Name, name: Name) {
    if HasPercent(asked) then exists i: nat :: i < MAX_DEVICES && name == Expand(asked, i) else name == asked
  }

  // The expansion keeps the text around the conversion and puts the digit in its place.
  lemma {:induction false} SubstituteAt(mask: string, p: nat, digit: char)
    requires ConvertsAt(mask, p)
    ensures Substitute(mask, digit) == mask[..p] + [digit] + mask[p + 2..]
  {
    if p == 0 {
      assert mask[..0] + [digit] + mask[2..] == [digit] + mask[2..];
    } else {
      var rest := mask[1..];
      assert ConvertsAt(rest, p - 1) by {
        forall i | 0 <= i < |rest| && rest[i] == '%' ensures i == p - 1 { assert mask[i + 1] == '%'; }
      }
      assert mask[0] != '%';
      SubstituteAt(rest, p - 1, digit);
      assert mask[..p] == [mask[0]] + rest[..p - 1];
      assert mask[p + 2..] == rest[p + 1..];
      assert mask[..p] + [digit] + mask[p + 2..] == [mask[0]] + (rest[..p - 1] + [digit] + rest[p + 1..]);
    }
  }

  // Two expansions of a mask differ exactly when its conversion starts within the fifteen
  // characters that snprintf keeps.
  lemma ExpansionsDistinctIff(mask: string, p: nat, i: nat, j: nat)
    requires ConvertsAt(mask, p) && i < j < MAX_DEVICES
    ensures Expand(mask, i) != Expand(mask, j) <==> p < 15
  {
    SubstituteAt(mask, p, Digit(i));
    SubstituteAt(mask, p, Digit(j));
    var e, f := Substitute(mask, Digit(i)), Substitute(mask, Digit(j));
    assert e[p] == Digit(i) != Digit(j) == f[p];
    if p < NAME_SIZE - 1 {
      assert Expand(mask, i)[p] == e[p] && Expand(mask, j)[p] == f[p];
    } else {
      assert e[..NAME_SIZE - 1] == mask[..NAME_SIZE - 1] == f[..NAME_SIZE - 1];
    }
  }

  // A mask kept in a name field is short enough: its expansions are pairwise distinct.
  lemma ExpansionsDistinct(mask: Name, i: nat, j: nat)
    requires IsMask(mask) && i < j < MAX_DEVICES
    ensures Expand(mask, i) != Expand(mask, j)
  {
    var p: nat :| ConvertsAt(mask, p);
    ExpansionsDistinctIff(mask, p, i, j);
  }

  // No conversion is left in an expansion.
  lemma ExpansionIsPlain(mask: string, i: nat)
    requires IsMask(mask) && i < MAX_DEVICES
    ensures !HasPercent(Expand(mask, i))
  {
    var p: nat :| ConvertsAt(mask, p);
    SubstituteAt(mask, p, Digit(i));
    var e := Substitute(mask, Digit(i));
    forall k | 0 <= k < |e| ensures e[k] != '%' {
      if k < p {
        assert e[k] == mask[k];
      } else if k > p {
        assert e[k] == mask[k + 1];
      }
    }
  }

  // The first n expansions.
  ghost function Expansions(mask: string, n: nat): (s: set<Name>)
    requires n <= MAX_DEVICES
    ensures forall x :: x in s ==> exists i: nat :: i < n && x == Expand(mask, i)
  {
    if n == 0 then {} else Expansions(mask, n - 1) + {Expand(mask, n - 1)}
  }

  lemma {:induction false} NextIsNew(mask: Name, k: nat, n: nat)
    requires IsMask(mask) && k <= n < MAX_DEVICES
    ensures Expand(mask, n) !in Expansions(mask, k)
  {
    hide Expand, IsMask;
    if k > 0 {
      NextIsNew(mask, k - 1, n);
      ExpansionsDistinct(mask, k - 1, n);
    }
  }

  lemma {:induction false} ExpansionsCount(mask: Name, n: nat)
    requires IsMask(mask) && n <= MAX_DEVICES
    ensures |Expansions(mask, n)| == n
  {
    hide Expand, IsMask;
    if n > 0 {
      ExpansionsCount(mask, n - 1);
      NextIsNew(mask, n - 1, n - 1);
    }
  }

  // The pigeonhole: with fewer than eight names taken, some expansion is free.
  lemma SomeExpansionFree(mask: Name, taken: set<Name>) returns (i: nat)
    requires IsMask(mask) && |taken| < MAX_DEVICES
    ensures i < MAX_DEVICES && Expand(mask, i) !in taken
  {
    hide Expand, IsMask, Expansions;
    ExpansionsCount(mask, MAX_DEVICES);
    if Expansions(mask, MAX_DEVICES) <= taken {
      SubsetCounts(Expansions(mask, MAX_DEVICES), taken);
    }
    var n :| n in Expansions(mask, MAX_DEVICES) && n !in taken;
    i :| i < MAX_DEVICES && n == Expand(mask, i);
  }
}
