/** Two wrong bits: the CRC notices them unless their distance is a multiple of 32767. */
module CrcDistance {
  import opened CrcTable
  import opened CrcRegister
  import Crc

  /** The step that Shift takes back. */
  function Up(c: bv16): bv16 {
    if c & 0x8000 != 0 then ((c ^ 0xA001) << 1) | 1 else c << 1
  }

  function Horner(acc: bv16, b: bv16, on: bool): bv16 {
    if on then Xor(Up(acc), b) else Up(acc)
  }

  /** The product of two register values, by Horner's rule over the bits of the first. */
  function Mul(a: bv16, b: bv16): bv16 {
    var a1 := Half(a);
    var a2 := Half(a1);
    var a3 := Half(a2);
    var a4 := Half(a3);
    var a5 := Half(a4);
    var a6 := Half(a5);
    var a7 := Half(a6);
    var a8 := Half(a7);
    var a9 := Half(a8);
    var a10 := Half(a9);
    var a11 := Half(a10);
    var a12 := Half(a11);
    var a13 := Half(a12);
    var a14 := Half(a13);
    var a15 := Half(a14);
    var h15 := Horner(0, b, Low(a15));
    var h14 := Horner(h15, b, Low(a14));
    var h13 := Horner(h14, b, Low(a13));
    var h12 := Horner(h13, b, Low(a12));
    var h11 := Horner(h12, b, Low(a11));
    var h10 := Horner(h11, b, Low(a10));
    var h9 := Horner(h10, b, Low(a9));
    var h8 := Horner(h9, b, Low(a8));
    var h7 := Horner(h8, b, Low(a7));
    var h6 := Horner(h7, b, Low(a6));
    var h5 := Horner(h6, b, Low(a5));
    var h4 := Horner(h5, b, Low(a4));
    var h3 := Horner(h4, b, Low(a3));
    var h2 := Horner(h3, b, Low(a2));
    var h1 := Horner(h2, b, Low(a1));
    Horner(h1, b, Low(a))
  }

  // ---- Multiplying adds numbers of steps

  lemma UpOfTop(c: bv16)
    requires c & 0x8000 != 0
    ensures Low(Up(c)) && Half(Up(c)) == c ^ 0xA001
  {
  }

  lemma UpOfRest(c: bv16)
    requires c & 0x8000 == 0
    ensures !Low(Up(c)) && Half(Up(c)) == c
  {
  }

  lemma XorBack(c: bv16)
    ensures Xor(c ^ 0xA001, 0xA001) == c
  {
  }

  lemma ShiftUp(c: bv16)
    ensures Shift(Up(c)) == c
  {
    hide Up;
    hide Xor;
    hide Half;
    hide Low;
    if c & 0x8000 != 0 {
      UpOfTop(c);
      XorBack(c);
    } else {
      UpOfRest(c);
    }
  }

  lemma ShiftOne(c: bv16)
    ensures ShiftN(c, 1) == Shift(c)
  {
    assert ShiftN(c, 0) == c;
  }

  lemma {:induction false} ShiftNAdd(c: bv16, m: nat, n: nat)
    ensures ShiftN(c, m + n) == ShiftN(ShiftN(c, m), n)
  {
    if n > 0 { ShiftNAdd(c, m, n - 1); }
  }

  /** A word without its low bit, which is one step above its half. */
  function Even(a: bv16): bv16 {
    a & 0xFFFE
  }

  lemma EvenParts(a: bv16)
    ensures Shift(Even(a)) == Half(a)
    ensures a == if Low(a) then Xor(Even(a), 1) else Even(a)
  {
  }

  lemma EvenSteps(a: bv16, n: nat)
    ensures ShiftN(Even(a), n) == Up(ShiftN(Half(a), n))
  {
    hide Shift;
    hide Half;
    hide Up;
    hide Even;
    hide ShiftN;
    EvenParts(a);
    ShiftOne(Even(a));
    ShiftOne(ShiftN(Even(a), n));
    ShiftNAdd(Even(a), 1, n);
    ShiftNAdd(Even(a), n, 1);
    ShiftUp(ShiftN(Half(a), n));
    ShiftInjective(ShiftN(Even(a), n), Up(ShiftN(Half(a), n)));
  }

  /** One step of the product. */
  lemma HornerSteps(a: bv16, n: nat)
    ensures Horner(ShiftN(Half(a), n), ShiftN(1, n), Low(a)) == ShiftN(a, n)
  {
    hide ShiftN;
    hide Up;
    hide Xor;
    hide Half;
    hide Low;
    hide Even;
    EvenParts(a);
    EvenSteps(a, n);
    ShiftNLinear(Even(a), 1, n);
  }

  lemma SixteenHalves(a: bv16)
    ensures Half(Half(Half(Half(Half(Half(Half(Half(Half(Half(Half(Half(Half(Half(Half(Half(a)))))))))))))))) == 0
  {
  }

  /** Multiplying by what n steps make of 1 is n steps. */
  lemma MulSteps(a: bv16, n: nat)
    ensures Mul(a, ShiftN(1, n)) == ShiftN(a, n)
  {
    hide ShiftN;
    hide Horner;
    hide Half;
    hide Low;
    var a1 := Half(a);
    var a2 := Half(a1);
    var a3 := Half(a2);
    var a4 := Half(a3);
    var a5 := Half(a4);
    var a6 := Half(a5);
    var a7 := Half(a6);
    var a8 := Half(a7);
    var a9 := Half(a8);
    var a10 := Half(a9);
    var a11 := Half(a10);
    var a12 := Half(a11);
    var a13 := Half(a12);
    var a14 := Half(a13);
    var a15 := Half(a14);
    SixteenHalves(a);
    ShiftNZero(n);
    HornerSteps(a15, n);
    HornerSteps(a14, n);
    HornerSteps(a13, n);
    HornerSteps(a12, n);
    HornerSteps(a11, n);
    HornerSteps(a10, n);
    HornerSteps(a9, n);
    HornerSteps(a8, n);
    HornerSteps(a7, n);
    HornerSteps(a6, n);
    HornerSteps(a5, n);
    HornerSteps(a4, n);
    HornerSteps(a3, n);
    HornerSteps(a2, n);
    HornerSteps(a1, n);
    HornerSteps(a, n);
  }

  lemma Times(m: nat, n: nat, a: bv16, b: bv16, product: bv16)
    requires ShiftN(1, m) == a && ShiftN(1, n) == b && Mul(a, b) == product
    ensures ShiftN(1, m + n) == product
  {
    hide Mul;
    ShiftNAdd(1, m, n);
    MulSteps(a, n);
  }

  // ---- The order of one step

  /** After so many steps 1 is back. */
  predicate IsPeriod(n: nat) {
    ShiftN(1, n) == 1
  }

  lemma SmallPowers()
    ensures ShiftN(1, 1) == 0xA001 && ShiftN(1, 2) == 0xF001 && ShiftN(1, 4) == 0xCC01
    ensures ShiftN(1, 8) == 0xC0C1 && ShiftN(1, 16) == 0x9001 && ShiftN(1, 32) == 0xFC01
    ensures ShiftN(1, 64) == 0xCCC1 && ShiftN(1, 128) == 0x90C1
  {
    ShiftOne(1);
    assert Shift(1) == 0xA001;
    hide ShiftN;
    Times(1, 1, 0xA001, 0xA001, 0xF001);
    Times(2, 2, 0xF001, 0xF001, 0xCC01);
    Times(4, 4, 0xCC01, 0xCC01, 0xC0C1);
    Times(8, 8, 0xC0C1, 0xC0C1, 0x9001);
    Times(16, 16, 0x9001, 0x9001, 0xFC01);
    Times(32, 32, 0xFC01, 0xFC01, 0xCCC1);
    Times(64, 64, 0xCCC1, 0xCCC1, 0x90C1);
  }

  lemma LargePowers()
    ensures ShiftN(1, 128) == 0x90C1 && ShiftN(1, 256) == 0xAC01 && ShiftN(1, 512) == 0xF0C1
    ensures ShiftN(1, 1024) == 0x9C01 && ShiftN(1, 2048) == 0xFCC1 && ShiftN(1, 4096) == 0x9CC1
    ensures ShiftN(1, 8192) == 0xACC1 && ShiftN(1, 16384) == 0xA0C1 && ShiftN(1, 32768) == 0xA001
  {
    hide ShiftN;
    SmallPowers();
    Times(128, 128, 0x90C1, 0x90C1, 0xAC01);
    Times(256, 256, 0xAC01, 0xAC01, 0xF0C1);
    Times(512, 512, 0xF0C1, 0xF0C1, 0x9C01);
    Times(1024, 1024, 0x9C01, 0x9C01, 0xFCC1);
    Times(2048, 2048, 0xFCC1, 0xFCC1, 0x9CC1);
    Times(4096, 4096, 0x9CC1, 0x9CC1, 0xACC1);
    Times(8192, 8192, 0xACC1, 0xACC1, 0xA0C1);
    Times(16384, 16384, 0xA0C1, 0xA0C1, 0xA001);
  }

  /** 32767 steps are a period, and its largest divisors are not. */
  lemma KnownPeriods()
    ensures IsPeriod(32767) && !IsPeriod(217) && !IsPeriod(1057) && !IsPeriod(4681)
  {
    hide ShiftN;
    SmallPowers();
    LargePowers();
    Times(128, 64, 0x90C1, 0xCCC1, 0x955D);
    Times(192, 16, 0x955D, 0x9001, 0xFFF8);
    Times(208, 8, 0xFFF8, 0xC0C1, 0x82FE);
    Times(216, 1, 0x82FE, 0xA001, 0x417F);
    Times(1024, 32, 0x9C01, 0xFC01, 0xD2C1);
    Times(1056, 1, 0xD2C1, 0xA001, 0xC961);
    Times(4096, 512, 0x9CC1, 0xF0C1, 0x876D);
    Times(4608, 64, 0x876D, 0xCCC1, 0xB930);
    Times(4672, 8, 0xB930, 0xC0C1, 0x14B9);
    Times(4680, 1, 0x14B9, 0xA001, 0xAA5D);
    ShiftNAdd(1, 1, 32767);
    ShiftNAdd(1, 32767, 1);
    ShiftNInjective(ShiftN(1, 32767), 1, 1);
  }

  lemma PeriodDifference(m: nat, n: nat)
    requires IsPeriod(m) && m <= n
    ensures IsPeriod(n) <==> IsPeriod(n - m)
  {
    ShiftNAdd(1, m, n - m);
  }

  /** The remainder, by subtraction. */
  function Rest(n: nat, m: nat): nat
    requires m > 0
  {
    if n < m then n else Rest(n - m, m)
  }

  /** A number of steps is a period exactly if its remainder by one is. */
  lemma {:induction false} PeriodRemainder(m: nat, n: nat)
    requires IsPeriod(m) && m > 0
    ensures IsPeriod(n) <==> IsPeriod(Rest(n, m))
    ensures Rest(n, m) < m
  {
    hide ShiftN;
    hide IsPeriod;
    if n >= m {
      PeriodDifference(m, n);
      PeriodRemainder(m, n - m);
    }
  }

  lemma {:induction false} RestIsFactor(n: nat, m: nat) returns (q: nat)
    requires m > 0 && Rest(n, m) == 0
    ensures q * m == n
  {
    if n < m {
      q := 0;
    } else {
      q := RestIsFactor(n - m, m);
      assert (q + 1) * m == q * m + m;
      q := q + 1;
    }
  }

  lemma {:induction false} FactorHasNoRest(q: nat, m: nat)
    requires m > 0
    ensures Rest(q * m, m) == 0
  {
    if q > 0 {
      assert q * m == (q - 1) * m + m;
      FactorHasNoRest(q - 1, m);
    }
  }

  lemma {:induction false} RestOfOrder(n: nat)
    ensures Rest(n, 32767) == n % 32767
  {
    if n >= 32767 { RestOfOrder(n - 32767); }
  }

  /** The smallest period. */
  lemma {:induction false} SmallestPeriod(k: nat) returns (p: nat)
    requires 0 < k <= 32767 && forall m: nat :: 0 < m < k ==> !IsPeriod(m)
    ensures k <= p <= 32767 && IsPeriod(p) && forall m: nat :: 0 < m < p ==> !IsPeriod(m)
    decreases 32767 - k
  {
    KnownPeriods();
    hide IsPeriod;
    if IsPeriod(k) { p := k; } else { p := SmallestPeriod(k + 1); }
  }

  /** No divisor of 32767 up to `n` but these. */
  predicate FewDivisors(n: nat) {
    n == 0 || ((32767 % n != 0 || n == 1 || n == 7 || n == 31 || n == 151) && FewDivisors(n - 1))
  }

  lemma {:induction false} DivisorIsKnown(n: nat, top: nat)
    requires 0 < n <= top && FewDivisors(top) && 32767 % n == 0
    ensures n == 1 || n == 7 || n == 31 || n == 151
  {
    if n < top { DivisorIsKnown(n, top - 1); }
  }

  lemma DivisorsTo60()
    ensures FewDivisors(60)
  {
    assert FewDivisors(12);
    assert FewDivisors(24);
    assert FewDivisors(36);
    assert FewDivisors(48);
  }

  lemma DivisorsTo120()
    ensures FewDivisors(120)
  {
    DivisorsTo60();
    assert FewDivisors(72);
    assert FewDivisors(84);
    assert FewDivisors(96);
    assert FewDivisors(108);
  }

  lemma DivisorsChecked()
    ensures FewDivisors(181)
  {
    DivisorsTo120();
    assert FewDivisors(132);
    assert FewDivisors(144);
    assert FewDivisors(156);
    assert FewDivisors(168);
  }

  lemma {:induction false} Grows(a: nat, b: nat, n: nat)
    requires a <= b
    ensures a * n <= b * n
  {
    if a < b {
      Grows(a, b - 1, n);
      assert b * n == (b - 1) * n + n;
    }
  }

  lemma FactorDivides(q: nat, n: nat)
    requires n > 0 && q * n == 32767
    ensures 32767 % n == 0
  {
    var d, r := 32767 / n, 32767 % n;
    assert 32767 == d * n + r;
    if q > d {
      Grows(d + 1, q, n);
    } else {
      Grows(q, d, n);
    }
  }

  lemma Divisors(q: nat, n: nat)
    requires q * n == 32767
    ensures n in {1, 7, 31, 151, 217, 1057, 4681, 32767}
  {
    DivisorsChecked();
    hide FewDivisors;
    if n <= 181 {
      FactorDivides(q, n);
      DivisorIsKnown(n, 181);
    } else {
      SmallCofactor(q, n);
      assert n * q == q * n;
      FactorDivides(n, q);
      DivisorIsKnown(q, 181);
    }
  }

  lemma SmallCofactor(q: nat, n: nat)
    requires q * n == 32767 && n > 181
    ensures 0 < q <= 181
  {
    if q > 181 {
      Grows(182, q, n);
      assert false;
    }
  }

  /** The register is back at 1 exactly after multiples of 32767 steps. */
  lemma PeriodIff(n: nat)
    ensures IsPeriod(n) <==> n % 32767 == 0
  {
    var p := SmallestPeriod(1);
    OrderIs(p);
    assert IsPeriod(0);
    hide IsPeriod;
    PeriodRemainder(p, n);
    hide Rest;
    RestOfOrder(n);
  }

  lemma OrderIs(p: nat)
    requires 0 < p <= 32767 && IsPeriod(p) && forall m: nat :: 0 < m < p ==> !IsPeriod(m)
    ensures p == 32767
  {
    KnownPeriods();
    assert IsPeriod(0);
    hide IsPeriod;
    PeriodRemainder(p, 32767);
    var q := RestIsFactor(32767, p);
    Divisors(q, p);
    PeriodRemainder(p, 217);
    PeriodRemainder(p, 1057);
    PeriodRemainder(p, 4681);
  }

  // ---- Two wrong bits

  /** What a difference in the register becomes. */
  lemma {:induction false} FeedDifference(c: bv16, d: bv16, bits: seq<bool>)
    ensures Xor(Feed(c, bits), Feed(d, bits)) == ShiftN(Xor(c, d), |bits|)
  {
    hide Shift;
    hide Xor;
    if bits != [] {
      var t := bits[..|bits| - 1];
      var bit: bv16 := if bits[|bits| - 1] then 1 else 0;
      FeedDifference(c, d, t);
      XorTwice(Feed(c, t), Feed(d, t), bit);
      ShiftLinear(Xor(Feed(c, t), bit), Xor(Feed(d, t), bit));
    }
  }

  /** Two messages of one length that differ in exactly two places. */
  ghost predicate DifferAt(a: seq<bool>, b: seq<bool>, i: nat, j: nat) {
    && |a| == |b| && i < j < |a|
    && forall k :: 0 <= k < |a| ==> (a[k] != b[k] <==> k == i || k == j)
  }

  /** A wrong bit changes the register by one step of 1. */
  lemma WrongBit(c: bv16, bit: bool)
    ensures Xor(StepBit(c, bit), StepBit(c, !bit)) == ShiftN(1, 1)
  {
    ShiftOne(1);
    OneApart(c);
    hide Shift;
    var x, y := Xor(c, if bit then 1 else 0), Xor(c, if bit then 0 else 1);
    hide Xor;
    ShiftLinear(x, y);
  }

  lemma OneApart(c: bv16)
    ensures Xor(Xor(c, 1), Xor(c, 0)) == 1 && Xor(Xor(c, 0), Xor(c, 1)) == 1
  {
  }

  /** A second wrong bit undoes a difference exactly if that is 1. */
  lemma SecondWrongBit(c: bv16, d: bv16, bit: bool)
    ensures StepBit(c, bit) == StepBit(d, !bit) <==> Xor(c, d) == 1
  {
    var x, y := Xor(c, if bit then 1 else 0), Xor(d, if bit then 0 else 1);
    XorTakesBack(c, d);
    XorTakesBack(d, c);
    XorTakesBack(c, 1);
    XorTakesBack(d, 1);
    XorSymmetric(c, d);
    XorZero(c);
    XorZero(d);
    hide Xor;
    if Shift(x) == Shift(y) { ShiftInjective(x, y); }
    hide Shift;
  }

  lemma XorTakesBack(c: bv16, d: bv16)
    ensures Xor(c, Xor(c, d)) == d
  {
    assert c ^ (c ^ d) == d;
  }

  lemma XorSymmetric(c: bv16, d: bv16)
    ensures Xor(c, d) == Xor(d, c)
  {
  }

  /** Two wrong bits are noticed if and only if their distance is not a multiple of 32767, whatever the
      message, its length and the start. */
  lemma TwoErrorsDetected(c: bv16, a: seq<bool>, b: seq<bool>, i: nat, j: nat)
    requires DifferAt(a, b, i, j)
    ensures Feed(c, a) != Feed(c, b) <==> (j - i) % 32767 != 0
  {
    hide ShiftN;
    hide Xor;
    hide StepBit;
    hide Feed;
    var pre, mid, suf := a[..i], a[i + 1..j], a[j + 1..];
    var x, y := a[i], a[j];
    SplitAt(a, i, j);
    SplitAt(b, i, j);
    assert b[..i] == pre && b[i + 1..j] == mid && b[j + 1..] == suf && b[i] == !x && b[j] == !y;
    FeedParts(c, pre, x, mid, y, suf);
    FeedParts(c, pre, !x, mid, !y, suf);
    assert |mid| == j - i - 1;
    PartsDiffer(Feed(c, pre), x, mid, y, suf);
  }

  lemma SplitAt(a: seq<bool>, i: nat, j: nat)
    requires i < j < |a|
    ensures a == a[..i] + [a[i]] + a[i + 1..j] + [a[j]] + a[j + 1..]
  {
  }

  lemma PartsDiffer(c: bv16, x: bool, mid: seq<bool>, y: bool, suf: seq<bool>)
    ensures Feed(StepBit(Feed(StepBit(c, x), mid), y), suf) != Feed(StepBit(Feed(StepBit(c, !x), mid), !y), suf)
      <==> (|mid| + 1) % 32767 != 0
  {
    hide ShiftN;
    hide Xor;
    hide StepBit;
    hide Feed;
    var c1, d1 := StepBit(c, x), StepBit(c, !x);
    var c2, d2 := Feed(c1, mid), Feed(d1, mid);
    WrongBit(c, x);
    FeedDifference(c1, d1, mid);
    ShiftNAdd(1, 1, |mid|);
    SecondWrongBit(c2, d2, y);
    var c3, d3 := StepBit(c2, y), StepBit(d2, !y);
    if Feed(c3, suf) == Feed(d3, suf) { FeedInjective(c3, d3, suf); }
    PeriodIff(|mid| + 1);
  }

  lemma FeedParts(c: bv16, pre: seq<bool>, x: bool, mid: seq<bool>, y: bool, suf: seq<bool>)
    ensures Feed(c, pre + [x] + mid + [y] + suf) == Feed(StepBit(Feed(StepBit(Feed(c, pre), x), mid), y), suf)
  {
    FeedAppend(c, pre + [x] + mid + [y], suf);
    FeedLast(c, pre + [x] + mid, y);
    FeedAppend(c, pre + [x], mid);
    FeedLast(c, pre, x);
  }

  lemma FeedLast(c: bv16, bits: seq<bool>, bit: bool)
    ensures Feed(c, bits + [bit]) == StepBit(Feed(c, bits), bit)
  {
    assert (bits + [bit])[..|bits|] == bits;
  }

  /** The same for what CalculateCRC returns for two payloads of bytes. */
  lemma PayloadTwoErrorsDetected(start: bv32, a: seq<bv8>, b: seq<bv8>, i: nat, j: nat)
    requires DifferAt(Bits(a), Bits(b), i, j)
    ensures Crc.Narrow(Crc.CrcOf(a, start)) != Crc.Narrow(Crc.CrcOf(b, start)) <==> (j - i) % 32767 != 0
  {
    Crc.NarrowPromote(Feed(Crc.Narrow(start), Bits(a)));
    Crc.NarrowPromote(Feed(Crc.Narrow(start), Bits(b)));
    hide Crc.Narrow;
    hide Crc.Promote;
    TwoErrorsDetected(Crc.Narrow(start), Bits(a), Bits(b), i, j);
  }
}
