/**
 The CRC as polynomial division. A message M, first bit highest, is multiplied by x^16
 and divided over GF(2) by G = x^16 + x^15 + x^2 + 1; the CRC is the remainder, read in
 reflected bit order.
 */
module CrcDivision {
  import opened CrcTable
  import opened CrcRegister

  /** The register bit that holds the coefficient of x^k: bits are reversed, x^15 is the low bit. */
  function CoefMask(k: int): bv16 {
    match k
    case 15 => 0x0001
    case 14 => 0x0002
    case 13 => 0x0004
    case 12 => 0x0008
    case 11 => 0x0010
    case 10 => 0x0020
    case 9 => 0x0040
    case 8 => 0x0080
    case 7 => 0x0100
    case 6 => 0x0200
    case 5 => 0x0400
    case 4 => 0x0800
    case 3 => 0x1000
    case 2 => 0x2000
    case 1 => 0x4000
    case 0 => 0x8000
    case _ => 0
  }

  predicate RegisterCoef(c: bv16, k: int) {
    c & CoefMask(k) != 0
  }

  /** The generator polynomial 0x8005 with its leading term. */
  predicate GeneratorCoef(k: int) {
    k == 16 || k == 15 || k == 2 || k == 0
  }

  /** The coefficient of x^k in M times x^16. */
  predicate MessageCoef(m: seq<bool>, k: int) {
    16 <= k < 16 + |m| && m[|m| - 1 - (k - 16)]
  }

  /** The coefficient of x^k in Q times G, by Horner's rule. */
  predicate ProductCoef(q: seq<bool>, k: int)
    decreases |q|
  {
    q != [] && ProductCoef(q[..|q| - 1], k - 1) != (q[|q| - 1] && GeneratorCoef(k))
  }

  /** The quotient: one bit a step, set when the generator is subtracted. */
  function Quotient(m: seq<bool>): (q: seq<bool>)
    ensures |q| == |m|
  {
    if m == [] then []
    else
      var before := m[..|m| - 1];
      Quotient(before) + [RegisterCoef(Feed(0, before), 15) != m[|m| - 1]]
  }

  lemma MaskIsBit(k: int)
    ensures var m := CoefMask(k);
      m == 0 || m == 0x1 || m == 0x2 || m == 0x4 || m == 0x8 || m == 0x10 || m == 0x20 || m == 0x40 || m == 0x80
      || m == 0x100 || m == 0x200 || m == 0x400 || m == 0x800 || m == 0x1000 || m == 0x2000 || m == 0x4000
        || m == 0x8000
  {
  }

  lemma XorBit(a: bv16, b: bv16, m: bv16)
    requires m == 0 || m == 0x1 || m == 0x2 || m == 0x4 || m == 0x8 || m == 0x10 || m == 0x20 || m == 0x40 || m == 0x80
      || m == 0x100 || m == 0x200 || m == 0x400 || m == 0x800 || m == 0x1000 || m == 0x2000 || m == 0x4000
        || m == 0x8000
    ensures ((a ^ b) & m != 0) == ((a & m != 0) != (b & m != 0))
  {
  }

  lemma XorCoef(a: bv16, b: bv16, k: int)
    ensures RegisterCoef(Xor(a, b), k) == (RegisterCoef(a, k) != RegisterCoef(b, k))
  {
    MaskIsBit(k);
    XorBit(a, b, CoefMask(k));
    hide CoefMask;
  }

  lemma MaskDoubles(k: int)
    requires k < 16
    ensures CoefMask(k - 1) == CoefMask(k) << 1
  {
  }

  lemma HalfBit(c: bv16, m: bv16)
    ensures (c >> 1) & m != 0 <==> c & (m << 1) != 0
  {
  }

  lemma HalfCoef(c: bv16, k: int)
    requires k < 16
    ensures RegisterCoef(Half(c), k) == RegisterCoef(c, k - 1)
  {
    MaskDoubles(k);
    HalfBit(c, CoefMask(k));
    hide CoefMask;
  }

  lemma GeneratorIsRegister(k: int)
    requires k < 16
    ensures RegisterCoef(0xA001, k) == GeneratorCoef(k)
  {
  }

  lemma FeedLow(c: bv16, bit: bool)
    ensures var x := Xor(c, if bit then 1 else 0);
      Half(x) == Half(c) && Low(x) == (RegisterCoef(c, 15) != bit)
  {
  }

  /** One register step is one step of long division. */
  lemma StepDivides(c: bv16, bit: bool, k: int)
    ensures var t := RegisterCoef(c, 15) != bit;
      k < 16 ==> (RegisterCoef(StepBit(c, bit), k) <==> RegisterCoef(c, k - 1) != (t && GeneratorCoef(k)))
  {
    hide RegisterCoef;
    hide Xor;
    hide Half;
    hide Low;
    FeedLow(c, bit);
    if k < 16 {
      HalfCoef(c, k);
      GeneratorIsRegister(k);
      XorCoef(Half(c), 0xA001, k);
    }
  }

  lemma NoCoef(k: int)
    ensures !RegisterCoef(0, k)
  {
  }

  lemma OutsideCoef(c: bv16, k: int)
    ensures k >= 16 || k < 0 ==> !RegisterCoef(c, k)
  {
  }

  lemma ProductStep(q: seq<bool>, t: bool, k: int)
    ensures ProductCoef(q + [t], k) == (ProductCoef(q, k - 1) != (t && GeneratorCoef(k)))
  {
    assert (q + [t])[..|q|] == q;
  }

  lemma MessageStep(m: seq<bool>, k: int)
    requires m != []
    ensures var n := |m| - 1;
      MessageCoef(m, k) == (MessageCoef(m[..n], k - 1) != (k == 16 && m[n]))
  {
  }

  /** M times x^16 equals Q times G plus the CRC, coefficient by coefficient; as the CRC has
      no term beyond x^15, it is the remainder. */
  lemma {:induction false} CrcIsRemainder(m: seq<bool>, k: int)
    ensures MessageCoef(m, k) == (ProductCoef(Quotient(m), k) != RegisterCoef(Feed(0, m), k))
    ensures k >= 16 || k < 0 ==> !RegisterCoef(Feed(0, m), k)
    decreases |m|
  {
    if m == [] {
      NoCoef(k);
    } else {
      OutsideCoef(Feed(0, m), k);
      hide RegisterCoef;
      hide StepBit;
      var n := |m| - 1;
      var before := m[..n];
      var t := RegisterCoef(Feed(0, before), 15) != m[n];
      CrcIsRemainder(before, k - 1);
      MessageStep(m, k);
      ProductStep(Quotient(before), t, k);
      StepDivides(Feed(0, before), m[n], k);
    }
  }
}
