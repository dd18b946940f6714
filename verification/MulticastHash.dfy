/**
 * The multicast hash of the two FEC Ethernet drivers.  Both feed an address, least significant
 * bit first, into a CRC-32 and use six bits of the result to pick one of the 64 bits of the
 * hash registers; one driver shifts the CRC right, the other shifts it left and untangles the
 * bit order afterwards.
 */
module MulticastHash {

  // CRC32_POLY of drivers/rt_fec.c and FEC_CRC_POLY of drivers/rt_mpc8xx_fec.c.
  const REFLECTED_POLY: bv32 := 0xEDB88320
  const POLY: bv32 := 0x04C11DB7
  const SEED: bv32 := 0xFFFFFFFF

  // The bits of x in the opposite order.
  function Reverse(x: bv32): (r: bv32) {
    var a := ((x >> 1) & 0x55555555) | ((x & 0x55555555) << 1);
    var b := ((a >> 2) & 0x33333333) | ((a & 0x33333333) << 2);
    var c := ((b >> 4) & 0x0F0F0F0F) | ((b & 0x0F0F0F0F) << 4);
    var d := ((c >> 8) & 0x00FF00FF) | ((c & 0x00FF00FF) << 8);
    (d >> 16) | (d << 16)
  }

  predicate Has(x: bv32, k: bv5) {
    (x >> k) & 1 == 1
  }

  lemma ReverseBits(x: bv32, k: bv5)
    ensures Has(Reverse(x), k) <==> Has(x, 31 - k)
  {
  }

  lemma ReverseShift(x: bv32)
    ensures Reverse(x << 1) == Reverse(x) >> 1
    ensures Reverse(x) & 1 == x >> 31
  {
  }

  lemma ReverseXor(x: bv32, y: bv32)
    ensures Reverse(x ^ y) == Reverse(x) ^ Reverse(y)
  {
  }

  lemma ReversePoly()
    ensures Reverse(POLY) == REFLECTED_POLY && Reverse(0) == 0 && Reverse(SEED) == SEED
  {
  }

  // ---- one bit, one byte, one string: shifting right ----

  function RightStep(crc: bv32, bit: bool): (r: bv32) {
    if (crc & 1 == 1) != bit then (crc >> 1) ^ REFLECTED_POLY else crc >> 1
  }

  function RightByte(crc: bv32, byte: bv8, n: nat): (r: bv32)
    decreases n
  {
    if n == 0 then crc else RightByte(RightStep(crc, byte & 1 == 1), byte >> 1, n - 1)
  }

  function RightString(crc: bv32, s: seq<bv8>): (r: bv32)
    decreases |s|
  {
    if s == [] then crc else RightString(RightByte(crc, s[0], 8), s[1..])
  }

  // ---- ... and shifting left ----

  function LeftStep(crc: bv32, bit: bool): (r: bv32) {
    if (crc >> 31 == 1) != bit then (crc << 1) ^ POLY else crc << 1
  }

  function LeftByte(crc: bv32, byte: bv8, n: nat): (r: bv32)
    decreases n
  {
    if n == 0 then crc else LeftByte(LeftStep(crc, byte & 1 == 1), byte >> 1, n - 1)
  }

  function LeftString(crc: bv32, s: seq<bv8>): (r: bv32)
    decreases |s|
  {
    if s == [] then crc else LeftString(LeftByte(crc, s[0], 8), s[1..])
  }

  // ---- the two are mirror images ----

  lemma StepMirrors(crc: bv32, bit: bool)
    ensures RightStep(Reverse(crc), bit) == Reverse(LeftStep(crc, bit))
  {
    var flag := (crc >> 31 == 1) != bit;
    hide Reverse;
    ReversePoly();
    ReverseShift(crc);
    assert flag == ((Reverse(crc) & 1 == 1) != bit);
    if flag {
      ReverseXor(crc << 1, POLY);
    }
  }

  lemma {:induction false} ByteMirrors(crc: bv32, byte: bv8, n: nat)
    ensures RightByte(Reverse(crc), byte, n) == Reverse(LeftByte(crc, byte, n))
    decreases n
  {
    hide Reverse, RightStep, LeftStep;
    if n > 0 {
      StepMirrors(crc, byte & 1 == 1);
      ByteMirrors(LeftStep(crc, byte & 1 == 1), byte >> 1, n - 1);
    }
  }

  lemma {:induction false} StringMirrors(crc: bv32, s: seq<bv8>)
    ensures RightString(Reverse(crc), s) == Reverse(LeftString(crc, s))
    decreases |s|
  {
    hide Reverse, RightByte, LeftByte;
    if s != [] {
      ByteMirrors(crc, s[0], 8);
      StringMirrors(LeftByte(crc, s[0], 8), s[1..]);
    }
  }

  // For every byte string, one CRC is the other with its bits reversed.
  lemma CrcMirrors(s: seq<bv8>)
    ensures RightString(SEED, s) == Reverse(LeftString(SEED, s))
  {
    hide Reverse, RightString, LeftString;
    ReversePoly();
    StringMirrors(SEED, s);
  }

  // ---- what both compute: a remainder over GF(2) ----

  predicate Top(x: bv32) {
    x >> 31 == 1
  }

  function Up(x: bv32): (y: bv32) {
    x << 1
  }

  function Xor(x: bv32, y: bv32): (z: bv32) {
    x ^ y
  }

  // The first n bits of a word, most significant first.
  function Bits(x: bv32, n: nat): (s: seq<bool>)
    ensures |s| == n
    decreases n
  {
    if n == 0 then [] else [Top(x)] + Bits(Up(x), n - 1)
  }

  // The n least significant bits of a byte, in the order in which they are sent.
  function Sent(byte: bv8, n: nat): (s: seq<bool>)
    ensures |s| == n
    decreases n
  {
    if n == 0 then [] else [byte & 1 == 1] + Sent(byte >> 1, n - 1)
  }

  function Message(s: seq<bv8>): (bits: seq<bool>)
    ensures |bits| == 8 * |s|
  {
    if s == [] then [] else Sent(s[0], 8) + Message(s[1..])
  }

  function Zeros(n: nat): (z: seq<bool>)
    ensures |z| == n
  {
    seq(n, _ => false)
  }

  // Addition of polynomials; the shorter one is aligned with the highest powers of the longer.
  function Add(a: seq<bool>, b: seq<bool>): (c: seq<bool>)
    requires |b| <= |a|
    ensures |c| == |a|
    ensures forall i :: 0 <= i < |a| ==> c[i] == if i < |b| then a[i] != b[i] else a[i]
  {
    seq(|a|, i requires 0 <= i < |a| => if i < |b| then a[i] != b[i] else a[i])
  }

  // The coefficients of x^32 + x^26 + x^23 + x^22 + x^16 + x^12 + x^11 + x^10 + x^8 + x^7 + x^5 +
  // x^4 + x^2 + x + 1.
  function Generator(): (g: seq<bool>)
    ensures |g| == 33
  {
    [true] + Bits(0x04C11DB7, 32)
  }

  // Long division by the generator: while the dividend has more than 32 coefficients, the
  // generator is subtracted if the first one is set, and the first one is dropped.
  function Remainder(dividend: seq<bool>): (r: seq<bool>)
    requires |dividend| >= 32
    ensures |r| == 32
    decreases |dividend|
  {
    if |dividend| == 32 then dividend
    else if dividend[0] then Remainder(Add(dividend, Generator())[1..])
    else Remainder(dividend[1..])
  }

  // CRC-32 of a byte string: the first 32 bits are complemented and 32 zeros appended.
  function Crc32(s: seq<bv8>): (r: seq<bool>)
    ensures |r| == 32
  {
    Remainder(Add(Message(s) + Zeros(32), seq(32, _ => true)))
  }

  // One step of the shift register, on its bits.
  function Shifted(r: seq<bool>, bit: bool): (r': seq<bool>)
    requires |r| == 32
    ensures |r'| == 32
  {
    var s := r[1..] + [false];
    if r[0] != bit then Add(s, Generator()[1..]) else s
  }

  function ShiftedAll(r: seq<bool>, m: seq<bool>): (r': seq<bool>)
    requires |r| == 32
    ensures |r'| == 32
    decreases |m|
  {
    if m == [] then r else ShiftedAll(Shifted(r, m[0]), m[1..])
  }

  // The first step of a division, seen from the register.
  lemma FirstStep(r: seq<bool>, m: seq<bool>)
    requires |r| == 32 && m != []
    ensures var d, rest := Add(m + Zeros(32), r), Add(m[1..] + Zeros(32), Shifted(r, m[0]));
      d[0] == (r[0] != m[0]) && rest == if d[0] then Add(d, Generator())[1..] else d[1..]
  {
    hide Generator;
    var all, r', g := m + Zeros(32), Shifted(r, m[0]), Generator();
    var d, rest := Add(all, r), Add(m[1..] + Zeros(32), r');
    assert all[1..] == m[1..] + Zeros(32);
    assert forall k :: 0 <= k < 32 ==>
      r'[k] == ((if k < 31 then r[k + 1] else false) != (d[0] && g[k + 1]));
    var next := if d[0] then Add(d, g)[1..] else d[1..];
    forall k | 0 <= k < |rest| ensures rest[k] == next[k] {
      assert all[1..][k] == all[k + 1];
    }
  }

  // Division can begin before the message is complete: what is in the register is added to the
  // part of the message that is still to come.
  lemma {:induction false} ShiftedIsRemainder(r: seq<bool>, m: seq<bool>)
    requires |r| == 32
    ensures ShiftedAll(r, m) == Remainder(Add(m + Zeros(32), r))
    decreases |m|
  {
    hide Generator, Shifted;
    if m == [] {
      assert Add(m + Zeros(32), r) == r;
    } else {
      ShiftedIsRemainder(Shifted(r, m[0]), m[1..]);
      FirstStep(r, m);
    }
  }

  lemma XorTop(x: bv32, y: bv32)
    ensures Top(Xor(x, y)) == (Top(x) != Top(y))
  {
  }

  lemma XorUp(x: bv32, y: bv32)
    ensures Up(Xor(x, y)) == Xor(Up(x), Up(y))
  {
  }

  lemma AddCons(a: bool, s: seq<bool>, b: bool, t: seq<bool>)
    requires |t| <= |s|
    ensures Add([a] + s, [b] + t) == [a != b] + Add(s, t)
  {
  }

  lemma {:induction false} BitsXor(x: bv32, y: bv32, n: nat)
    ensures Bits(Xor(x, y), n) == Add(Bits(x, n), Bits(y, n))
    decreases n
  {
    hide Top, Up, Xor;
    if n > 0 {
      XorTop(x, y);
      XorUp(x, y);
      BitsXor(Up(x), Up(y), n - 1);
      AddCons(Top(x), Bits(Up(x), n - 1), Top(y), Bits(Up(y), n - 1));
    }
  }

  function ShiftBy(x: bv32, n: nat): bv32
    decreases n
  {
    if n == 0 then x else ShiftBy(Up(x), n - 1)
  }

  lemma {:induction false} BitsSnoc(x: bv32, n: nat)
    ensures Bits(x, n + 1) == Bits(x, n) + [Top(ShiftBy(x, n))]
    decreases n
  {
    if n > 0 {
      hide Top, Up;
      BitsSnoc(Up(x), n - 1);
    }
  }

  lemma {:induction false} ShiftTwice(x: bv32, m: nat, n: nat)
    ensures ShiftBy(x, m + n) == ShiftBy(ShiftBy(x, m), n)
    decreases m
  {
    if m > 0 {
      hide Up;
      ShiftTwice(Up(x), m - 1, n);
    }
  }

  lemma ShiftFour(x: bv32)
    ensures ShiftBy(x, 4) == x << 4
  {
    UpFour(x);
    hide Up;
    assert ShiftBy(x, 4) == ShiftBy(Up(x), 3) == ShiftBy(Up(Up(x)), 2);
    assert ShiftBy(Up(Up(x)), 2) == ShiftBy(Up(Up(Up(x))), 1) == Up(Up(Up(Up(x))));
  }

  lemma ShiftEight(x: bv32)
    ensures ShiftBy(x, 8) == x << 8
  {
    hide ShiftBy;
    ShiftFour(x);
    ShiftFour(x << 4);
    ShiftTwice(x, 4, 4);
    assert x << 4 << 4 == x << 8;
  }

  lemma ShiftedOut(x: bv32)
    ensures ShiftBy(x, 32) == 0
  {
    hide ShiftBy;
    ShiftTwice(x, 8, 24);
    ShiftTwice(x << 8, 8, 16);
    ShiftTwice(x << 8 << 8, 8, 8);
    ShiftEight(x);
    ShiftEight(x << 8);
    ShiftEight(x << 8 << 8);
    ShiftEight(x << 8 << 8 << 8);
  }

  // The register moves up by one bit.
  lemma BitsShift(x: bv32)
    ensures Bits(Up(x), 32) == Bits(x, 32)[1..] + [false]
  {
    ShiftedOut(x);
    assert !Top(0);
    hide Top, Up;
    BitsSnoc(Up(x), 31);
    assert ShiftBy(x, 32) == ShiftBy(Up(x), 31);
  }

  lemma LeftStepIs(crc: bv32, bit: bool)
    ensures LeftStep(crc, bit) == if Top(crc) != bit then Xor(Up(crc), POLY) else Up(crc)
  {
  }

  lemma FirstBit(x: bv32)
    ensures Bits(x, 32)[0] == Top(x)
    ensures Generator()[1..] == Bits(POLY, 32)
  {
  }

  lemma StepShifts(crc: bv32, bit: bool)
    ensures Bits(LeftStep(crc, bit), 32) == Shifted(Bits(crc, 32), bit)
  {
    hide Bits, Generator, Top, Up, Xor, LeftStep;
    FirstBit(crc);
    LeftStepIs(crc, bit);
    BitsShift(crc);
    BitsXor(Up(crc), POLY, 32);
  }

  lemma {:induction false} ShiftedBoth(r: seq<bool>, a: seq<bool>, b: seq<bool>)
    requires |r| == 32
    ensures ShiftedAll(r, a + b) == ShiftedAll(ShiftedAll(r, a), b)
    decreases |a|
  {
    hide Shifted;
    if a == [] {
      assert a + b == b;
    } else {
      ShiftedBoth(Shifted(r, a[0]), a[1..], b);
      assert (a + b)[1..] == a[1..] + b;
    }
  }

  lemma {:induction false} ByteShifts(crc: bv32, byte: bv8, n: nat)
    ensures Bits(LeftByte(crc, byte, n), 32) == ShiftedAll(Bits(crc, 32), Sent(byte, n))
    decreases n
  {
    hide Bits, Shifted, LeftStep;
    if n > 0 {
      StepShifts(crc, byte & 1 == 1);
      ByteShifts(LeftStep(crc, byte & 1 == 1), byte >> 1, n - 1);
    }
  }

  lemma {:induction false} StringShifts(crc: bv32, s: seq<bv8>)
    ensures Bits(LeftString(crc, s), 32) == ShiftedAll(Bits(crc, 32), Message(s))
    decreases |s|
  {
    hide Bits, Shifted, LeftByte, Sent, ShiftedAll;
    if s == [] {
      ShiftedNone(Bits(crc, 32));
    } else {
      ByteShifts(crc, s[0], 8);
      StringShifts(LeftByte(crc, s[0], 8), s[1..]);
      ShiftedBoth(Bits(crc, 32), Sent(s[0], 8), Message(s[1..]));
    }
  }

  lemma ShiftedNone(r: seq<bool>)
    requires |r| == 32
    ensures ShiftedAll(r, []) == r
  {
  }

  // The left-shifting register holds the CRC-32, highest coefficient first; the right-shifting one
  // holds it in the opposite order.
  lemma CrcIsRemainder(s: seq<bv8>)
    ensures Bits(LeftString(SEED, s), 32) == Crc32(s)
    ensures Bits(Reverse(RightString(SEED, s)), 32) == Crc32(s)
  {
    hide Bits, ShiftedAll, Remainder, Reverse, LeftString, RightString, Message;
    StringShifts(SEED, s);
    ShiftedIsRemainder(Bits(SEED, 32), Message(s));
    SeedBits();
    CrcMirrors(s);
    ReverseTwice(LeftString(SEED, s));
  }

  lemma ReverseTwice(x: bv32)
    ensures Reverse(Reverse(x)) == x
  {
  }

  lemma TopOfOnes(x: bv32)
    requires x >> 28 == 0xF
    ensures Top(x) && Top(Up(x)) && Top(Up(Up(x))) && Top(Up(Up(Up(x))))
  {
  }

  lemma UpFour(x: bv32)
    ensures Up(Up(Up(Up(x)))) == x << 4
  {
  }

  lemma FourOnes(x: bv32, n: nat)
    requires x >> 28 == 0xF
    ensures Bits(x, n + 4) == [true, true, true, true] + Bits(x << 4, n)
  {
    hide Top, Up;
    TopOfOnes(x);
    UpFour(x);
    var y := Up(x);
    var z := Up(y);
    assert Bits(x, n + 4) == [true] + Bits(y, n + 3);
    assert Bits(y, n + 3) == [true] + Bits(z, n + 2);
    assert Bits(z, n + 2) == [true] + Bits(Up(z), n + 1);
  }

  lemma SeedBits()
    ensures Bits(SEED, 32) == seq(32, _ => true)
  {
    hide Bits;
    FourOnes(0xFFFFFFFF, 28);
    FourOnes(0xFFFFFFF0, 24);
    FourOnes(0xFFFFFF00, 20);
    FourOnes(0xFFFFF000, 16);
    FourOnes(0xFFFF0000, 12);
    FourOnes(0xFFF00000, 8);
    FourOnes(0xFF000000, 4);
    FourOnes(0xF0000000, 0);
    assert Bits(0, 0) == [];
    assert Bits(SEED, 32) == seq(32, _ => true);
  }

  // ---- the register bit an address selects ----

  // The register half and the bit in it.
  datatype Place = Place(high: bool, bit: bv5)

  function RightPlace(crc: bv32): (p: Place) {
    var hash := (crc >> 26) & 0x3F;
    if hash > 31 then Place(true, (hash - 32) as bv5) else Place(false, hash as bv5)
  }

  function LeftPlace(crc: bv32): (p: Place) {
    var temp := (crc & 0x3F) >> 1;
    var index := ((temp & 0x01) << 4) | ((temp & 0x02) << 2) | (temp & 0x04) |
                 ((temp & 0x08) >> 2) | ((temp & 0x10) >> 4);
    Place(crc & 1 == 1, index as bv5)
  }

  lemma PlacesMirror(crc: bv32)
    ensures RightPlace(Reverse(crc)) == LeftPlace(crc)
  {
  }

  // Both drivers set the same bit of the same register for every address.
  lemma SamePlace(s: seq<bv8>)
    ensures RightPlace(RightString(SEED, s)) == LeftPlace(LeftString(SEED, s))
  {
    hide *;
    CrcMirrors(s);
    PlacesMirror(LeftString(SEED, s));
  }

  // The place of an address.
  function PlaceOf(address: seq<bv8>): (p: Place) {
    RightPlace(RightString(SEED, address))
  }

  lemma {:induction false} BitsAt(x: bv32, n: nat, i: nat)
    requires i < n
    ensures Bits(x, n)[i] == Top(ShiftBy(x, i))
    decreases n
  {
    hide Top, Up;
    if i > 0 {
      BitsAt(Up(x), n - 1, i - 1);
    }
  }

  lemma UpSome(y: bv32)
    ensures ShiftBy(y, 0) == y && ShiftBy(y, 1) == Up(y) && ShiftBy(y, 2) == Up(Up(y))
    ensures ShiftBy(y, 3) == Up(Up(Up(y))) && ShiftBy(y, 4) == Up(Up(Up(Up(y))))
    ensures ShiftBy(y, 5) == Up(Up(Up(Up(Up(y)))))
  {
    hide Up;
    var z := Up(Up(Up(y)));
    assert ShiftBy(y, 3) == ShiftBy(Up(y), 2) == ShiftBy(Up(Up(y)), 1);
    assert ShiftBy(y, 4) == ShiftBy(Up(y), 3) == ShiftBy(Up(Up(y)), 2) == ShiftBy(z, 1);
    assert ShiftBy(y, 5) == ShiftBy(Up(y), 4) == ShiftBy(Up(Up(y)), 3) == ShiftBy(z, 2) == ShiftBy(Up(z), 1);
  }

  lemma BitBehind(x: bv32, i: nat)
    requires i < 6
    ensures Bits(x, 32)[26 + i] == Top(ShiftBy(ShiftBy(x, 26), i))
  {
    hide Top, Up, Bits, ShiftBy;
    BitsAt(x, 32, 26 + i);
    ShiftTwice(x, 26, i);
  }

  // The last six bits of a word.
  lemma LastBits(x: bv32)
    ensures var b := Bits(x, 32); var y := x << 24 << 1 << 1;
      && b[26] == Top(y) && b[27] == Top(Up(y)) && b[28] == Top(Up(Up(y))) && b[29] == Top(Up(Up(Up(y))))
      && b[30] == Top(Up(Up(Up(Up(y))))) && b[31] == Top(Up(Up(Up(Up(Up(y))))))
  {
    hide Top, Up, Bits, ShiftBy;
    ShiftMost(x);
    UpSome(ShiftBy(x, 26));
    BitBehind(x, 0);
    BitBehind(x, 1);
    BitBehind(x, 2);
    BitBehind(x, 3);
    BitBehind(x, 4);
    BitBehind(x, 5);
  }

  lemma ShiftThree(x: bv32)
    ensures ShiftBy(x, 24) == x << 8 << 8 << 8
  {
    hide ShiftBy;
    ShiftTwice(x, 8, 16);
    ShiftTwice(x << 8, 8, 8);
    ShiftEight(x);
    ShiftEight(x << 8);
    ShiftEight(x << 8 << 8);
  }

  lemma ShiftMost(x: bv32)
    ensures ShiftBy(x, 26) == x << 24 << 1 << 1
  {
    assert x << 8 << 8 << 8 == x << 24;
    hide ShiftBy;
    ShiftThree(x);
    ShiftTwice(x, 24, 2);
    UpSome(x << 24);
  }

  // The six bits of the place, read off the last bits of a word.
  lemma PlaceBits(crc: bv32)
    ensures var p := LeftPlace(crc); var y := crc << 24 << 1 << 1;
      && (p.bit & 1 == 1 <==> Top(y)) && (p.bit & 2 == 2 <==> Top(Up(y))) && (p.bit & 4 == 4 <==> Top(Up(Up(y))))
      && (p.bit & 8 == 8 <==> Top(Up(Up(Up(y))))) && (p.bit & 16 == 16 <==> Top(Up(Up(Up(Up(y))))))
      && (p.high <==> Top(Up(Up(Up(Up(Up(y)))))))
  {
  }

  // The last bit of the CRC-32 picks the register, the five in front of it the bit, the highest last.
  lemma PlaceOfCrc(address: seq<bv8>)
    ensures var p, r := PlaceOf(address), Crc32(address);
      && (p.high <==> r[31])
      && (p.bit & 16 == 16 <==> r[30]) && (p.bit & 8 == 8 <==> r[29]) && (p.bit & 4 == 4 <==> r[28])
      && (p.bit & 2 == 2 <==> r[27]) && (p.bit & 1 == 1 <==> r[26])
  {
    hide Top, Up, Bits, LeftPlace, RightPlace, LeftString, RightString, Crc32;
    CrcIsRemainder(address);
    SamePlace(address);
    LastBits(LeftString(SEED, address));
    PlaceBits(LeftString(SEED, address));
  }

  // ---- the hash registers ----

  datatype Registers = Registers(high: bv32, low: bv32)

  predicate Lit(r: Registers, p: Place) {
    Has(if p.high then r.high else r.low, p.bit)
  }

  function SetBit(x: bv32, k: bv5): (y: bv32) {
    x | (1 << k)
  }

  function Light(r: Registers, p: Place): (s: Registers) {
    if p.high then r.(high := SetBit(r.high, p.bit)) else r.(low := SetBit(r.low, p.bit))
  }

  lemma SetBitSets(x: bv32, k: bv5, j: bv5)
    ensures Has(SetBit(x, k), j) <==> j == k || Has(x, j)
  {
  }

  lemma LightSets(r: Registers, p: Place, q: Place)
    ensures Lit(Light(r, p), q) <==> q == p || Lit(r, q)
  {
    hide Has, SetBit;
    SetBitSets(r.high, p.bit, q.bit);
    SetBitSets(r.low, p.bit, q.bit);
  }

  function Fill(r: Registers, list: seq<seq<bv8>>): (s: Registers)
    decreases |list|
  {
    if list == [] then r else Fill(Light(r, PlaceOf(list[0])), list[1..])
  }

  // The filter is exact up to collisions: a bit is set exactly when it was set before or some
  // address of the list selects it.
  lemma {:induction false} FillExact(r: Registers, list: seq<seq<bv8>>, q: Place)
    ensures Lit(Fill(r, list), q) <==> Lit(r, q) || exists a :: a in list && PlaceOf(a) == q
    decreases |list|
  {
    hide Light, Lit, PlaceOf;
    if list != [] {
      LightSets(r, PlaceOf(list[0]), q);
      FillExact(Light(r, PlaceOf(list[0])), list[1..], q);
      assert list == [list[0]] + list[1..];
    }
  }

  lemma ClearIsDark(q: Place)
    ensures !Lit(Registers(0, 0), q)
  {
  }

  // ---- drivers/rt_fec.c ----

  // One step of the bit loop; data holds the bits of the byte that are left.
  function FecStep(crc: bv32, data: bv32): (r: bv32) {
    (crc >> 1) ^ (if (crc ^ data) & 1 != 0 then REFLECTED_POLY else 0)
  }

  function Widen(byte: bv8): (data: bv32) {
    byte as bv32
  }

  function Halve(data: bv32): (d: bv32) {
    data >> 1
  }

  lemma FecStepIs(crc: bv32, byte: bv8)
    ensures FecStep(crc, Widen(byte)) == RightStep(crc, byte & 1 == 1)
  {
  }

  lemma HalveIs(byte: bv8)
    ensures Halve(Widen(byte)) == Widen(byte >> 1)
  {
  }

  method FecCrc(address: seq<bv8>) returns (crc: bv32)
    ensures crc == RightString(SEED, address) && Bits(Reverse(crc), 32) == Crc32(address)
  {
    hide RightByte, Bits, Reverse, Crc32;
    CrcIsRemainder(address);
    crc := SEED;
    var i := 0;
    while i < |address|
      invariant 0 <= i <= |address|
      invariant RightString(crc, address[i..]) == RightString(SEED, address)
    {
      assert address[i..][1..] == address[i + 1..];
      crc := FecByte(crc, address[i]);
      i := i + 1;
    }
  }

  lemma RightByteNext(crc: bv32, byte: bv8, n: nat)
    requires n > 0
    ensures RightByte(crc, byte, n) == RightByte(RightStep(crc, byte & 1 == 1), byte >> 1, n - 1)
  {
    hide RightStep;
  }

  lemma RightByteNone(crc: bv32, byte: bv8)
    ensures RightByte(crc, byte, 0) == crc
  {
  }

  method FecByte(before: bv32, byte: bv8) returns (crc: bv32)
    ensures crc == RightByte(before, byte, 8)
  {
    hide RightByte, RightStep, FecStep, Widen, Halve;
    crc := before;
    var data := Widen(byte);
    ghost var left := byte;
    var bit := 0;
    while bit < 8
      invariant 0 <= bit <= 8 && data == Widen(left)
      invariant RightByte(crc, left, 8 - bit) == RightByte(before, byte, 8)
    {
      RightByteNext(crc, left, 8 - bit);
      FecStepIs(crc, left);
      HalveIs(left);
      crc := FecStep(crc, data);
      data := Halve(data);
      left := left >> 1;
      bit := bit + 1;
    }
    RightByteNone(crc, left);
  }

  // set_multicast_list of rt_fec.c: what is in the two registers afterwards.
  method FecSetMulticastList(before: Registers, promiscuous: bool, allmulti: bool, list: seq<seq<bv8>>)
    returns (r: Registers)
    ensures promiscuous ==> r == before
    ensures !promiscuous && allmulti ==> forall q :: Lit(r, q)
    ensures !promiscuous && !allmulti ==> r == Fill(Registers(0, 0), list)
  {
    hide PlaceOf;
    if promiscuous {
      return before;
    }
    if allmulti {
      return Registers(0xFFFFFFFF, 0xFFFFFFFF);
    }
    r := Registers(0, 0);
    var i := 0;
    while i < |list|
      invariant 0 <= i <= |list|
      invariant Fill(r, list[i..]) == Fill(Registers(0, 0), list)
    {
      assert list[i..][1..] == list[i + 1..];
      r := FecAdd(r, list[i]);
      i := i + 1;
    }
  }

  method FecAdd(before: Registers, address: seq<bv8>) returns (r: Registers)
    ensures r == Light(before, PlaceOf(address))
  {
    hide RightString, SetBit;
    var crc := FecCrc(address);
    var hash := (crc >> 26) & 0x3F;
    if hash > 31 {
      r := before.(high := SetBit(before.high, (hash - 32) as bv5));
    } else {
      r := before.(low := SetBit(before.low, hash as bv5));
    }
  }

  // ---- drivers/rt_mpc8xx_fec.c ----

  // One step of the bit loop.
  function MpcStep(crc: bv32, byte: bv8): (r: bv32) {
    var msb := (crc >> 31) as bv8;
    if msb ^ (byte & 1) != 0 then (crc << 1) ^ POLY else crc << 1
  }

  lemma MpcStepIs(crc: bv32, byte: bv8)
    ensures MpcStep(crc, byte) == LeftStep(crc, byte & 1 == 1)
  {
  }

  lemma LeftByteNext(crc: bv32, byte: bv8, n: nat)
    requires n > 0
    ensures LeftByte(crc, byte, n) == LeftByte(LeftStep(crc, byte & 1 == 1), byte >> 1, n - 1)
  {
    hide LeftStep;
  }

  lemma LeftByteNone(crc: bv32, byte: bv8)
    ensures LeftByte(crc, byte, 0) == crc
  {
  }

  method MpcByte(before: bv32, b: bv8) returns (crc: bv32)
    ensures crc == LeftByte(before, b, 8)
  {
    hide LeftByte, LeftStep, MpcStep;
    crc := before;
    var byte := b;
    var bitCount := 0;
    while bitCount < 8
      invariant 0 <= bitCount <= 8
      invariant LeftByte(crc, byte, 8 - bitCount) == LeftByte(before, b, 8)
    {
      LeftByteNext(crc, byte, 8 - bitCount);
      MpcStepIs(crc, byte);
      crc := MpcStep(crc, byte);
      byte := byte >> 1;
      bitCount := bitCount + 1;
    }
    LeftByteNone(crc, byte);
  }

  // fec_mulicast_calc_crc: the mirror image of the other driver's CRC.
  method MpcCrc(address: seq<bv8>) returns (crc: bv32)
    requires |address| == 6
    ensures crc == LeftString(SEED, address) && Bits(crc, 32) == Crc32(address)
    ensures Reverse(crc) == RightString(SEED, address)
  {
    hide LeftByte, Reverse, RightString, Bits, Crc32;
    CrcMirrors(address);
    CrcIsRemainder(address);
    crc := SEED;
    var byteCount := 0;
    while byteCount < 6
      invariant 0 <= byteCount <= 6
      invariant LeftString(crc, address[byteCount..]) == LeftString(SEED, address)
    {
      assert address[byteCount..][1..] == address[byteCount + 1..];
      crc := MpcByte(crc, address[byteCount]);
      byteCount := byteCount + 1;
    }
  }

  method MpcAdd(before: Registers, address: seq<bv8>) returns (r: Registers)
    requires |address| == 6
    ensures r == Light(before, PlaceOf(address))
  {
    hide LeftString, RightString, Reverse, RightPlace, LeftPlace, SetBit;
    var crc := MpcCrc(address);
    PlacesMirror(crc);
    var place := LeftPlace(crc);
    if place.high {
      r := before.(high := SetBit(before.high, place.bit));
    } else {
      r := before.(low := SetBit(before.low, place.bit));
    }
  }

  // set_multicast_list of rt_mpc8xx_fec.c leaves the same registers as the other driver's.
  method MpcSetMulticastList(before: Registers, promiscuous: bool, allmulti: bool, list: seq<seq<bv8>>)
    returns (r: Registers)
    requires forall a :: a in list ==> |a| == 6
    ensures promiscuous ==> r == before
    ensures !promiscuous && allmulti ==> forall q :: Lit(r, q)
    ensures !promiscuous && !allmulti ==> r == Fill(Registers(0, 0), list)
  {
    hide PlaceOf;
    if promiscuous {
      return before;
    }
    if allmulti {
      return Registers(0xFFFFFFFF, 0xFFFFFFFF);
    }
    r := Registers(0, 0);
    var i := 0;
    while i < |list|
      invariant 0 <= i <= |list|
      invariant Fill(r, list[i..]) == Fill(Registers(0, 0), list)
    {
      assert list[i..][1..] == list[i + 1..];
      r := MpcAdd(r, list[i]);
      i := i + 1;
    }
  }

  // A frame for a listed group passes the filter, and one passes only if it collides with a
  // listed group.
  lemma FilterExact(list: seq<seq<bv8>>, address: seq<bv8>)
    ensures Lit(Fill(Registers(0, 0), list), PlaceOf(address)) <==>
      exists a :: a in list && PlaceOf(a) == PlaceOf(address)
    ensures address in list ==> Lit(Fill(Registers(0, 0), list), PlaceOf(address))
  {
    hide PlaceOf, Lit, Fill;
    FillExact(Registers(0, 0), list, PlaceOf(address));
    ClearIsDark(PlaceOf(address));
  }
}
