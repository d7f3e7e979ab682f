/** The CRC-16/ARC of a bit string: a reflected shift register fed one bit at a time. */
module CrcRegister {
  import opened CrcTable

  /** Feeds one message bit. */
  function StepBit(c: bv16, bit: bool): bv16 {
    Shift(Xor(c, if bit then 1 else 0))
  }

  function Feed(c: bv16, bits: seq<bool>): bv16 {
    if bits == [] then c else StepBit(Feed(c, bits[..|bits| - 1]), bits[|bits| - 1])
  }

  /** The bits of a byte in the order in which the register takes them: low bit first. */
  function ByteBits(b: bv8): (bits: seq<bool>)
    ensures |bits| == 8
  {
    [b & 1 != 0, b & 2 != 0, b & 4 != 0, b & 8 != 0, b & 16 != 0, b & 32 != 0, b & 64 != 0, b & 128 != 0]
  }

  function Bits(data: seq<bv8>): (bits: seq<bool>)
    ensures |bits| == 8 * |data|
  {
    if data == [] then [] else Bits(data[..|data| - 1]) + ByteBits(data[|data| - 1])
  }

  lemma {:induction false} FeedAppend(c: bv16, a: seq<bool>, b: seq<bool>)
    ensures Feed(c, a + b) == Feed(Feed(c, a), b)
  {
    if b == [] {
      assert a + b == a;
    } else {
      var t := b[..|b| - 1];
      assert (a + b)[..|a + b| - 1] == a + t;
      FeedAppend(c, a, t);
    }
  }

  lemma {:induction false} BitsAppend(a: seq<bv8>, b: seq<bv8>)
    ensures Bits(a + b) == Bits(a) + Bits(b)
  {
    if b == [] {
      assert a + b == a;
    } else {
      var t := b[..|b| - 1];
      assert (a + b)[..|a + b| - 1] == a + t;
      BitsAppend(a, t);
    }
  }

  // ---- The register is linear and loses nothing

  lemma HalfLinear(a: bv16, b: bv16)
    ensures Half(Xor(a, b)) == Xor(Half(a), Half(b))
    ensures Low(Xor(a, b)) <==> Low(a) != Low(b)
  {
  }

  lemma XorTwice(x: bv16, y: bv16, p: bv16)
    ensures Xor(Xor(x, p), Xor(y, p)) == Xor(x, y)
  {
    assert (x ^ p) ^ (y ^ p) == x ^ y;
  }

  lemma XorSwap(x: bv16, y: bv16, p: bv16)
    ensures Xor(Xor(x, p), y) == Xor(Xor(x, y), p)
  {
    assert (x ^ p) ^ y == (x ^ y) ^ p;
  }

  lemma XorAssoc(x: bv16, y: bv16, p: bv16)
    ensures Xor(x, Xor(y, p)) == Xor(Xor(x, y), p)
  {
    assert x ^ (y ^ p) == (x ^ y) ^ p;
  }

  lemma ShiftLinear(a: bv16, b: bv16)
    ensures Shift(Xor(a, b)) == Xor(Shift(a), Shift(b))
  {
    hide Low;
    hide Half;
    hide Xor;
    HalfLinear(a, b);
    XorTwice(Half(a), Half(b), 0xA001);
    XorSwap(Half(a), Half(b), 0xA001);
    XorAssoc(Half(a), Half(b), 0xA001);
  }

  lemma ShiftInjective(a: bv16, b: bv16)
    requires Shift(a) == Shift(b)
    ensures a == b
  {
  }

  function ShiftN(c: bv16, n: nat): bv16 {
    if n == 0 then c else Shift(ShiftN(c, n - 1))
  }

  lemma {:induction false} ShiftNLinear(a: bv16, b: bv16, n: nat)
    ensures ShiftN(Xor(a, b), n) == Xor(ShiftN(a, n), ShiftN(b, n))
  {
    hide Shift;
    hide Xor;
    if n > 0 {
      ShiftNLinear(a, b, n - 1);
      ShiftLinear(ShiftN(a, n - 1), ShiftN(b, n - 1));
    }
  }

  lemma {:induction false} ShiftNInjective(a: bv16, b: bv16, n: nat)
    requires ShiftN(a, n) == ShiftN(b, n)
    ensures a == b
  {
    if n > 0 {
      ShiftInjective(ShiftN(a, n - 1), ShiftN(b, n - 1));
      ShiftNInjective(a, b, n - 1);
    }
  }

  lemma XorCancel(a: bv16, b: bv16, x: bv16)
    requires Xor(a, x) == Xor(b, x)
    ensures a == b
  {
    assert (a ^ x) ^ x == a && (b ^ x) ^ x == b;
  }

  /** A state fed the same bits as another ends apart from it if it starts apart. */
  lemma {:induction false} FeedInjective(a: bv16, b: bv16, bits: seq<bool>)
    requires Feed(a, bits) == Feed(b, bits)
    ensures a == b
  {
    hide Shift;
    hide Xor;
    if bits != [] {
      var t := bits[..|bits| - 1];
      var bit: bv16 := if bits[|bits| - 1] then 1 else 0;
      ShiftInjective(Xor(Feed(a, t), bit), Xor(Feed(b, t), bit));
      XorCancel(Feed(a, t), Feed(b, t), bit);
      FeedInjective(a, b, t);
    }
  }

  // ---- Up to sixteen bits are fed as one word

  /** `1 << k`. */
  function Power(k: nat): bv16 {
    if k == 0 then 1 else Power(k - 1) << 1
  }

  /** The word whose bit `i` is the i-th of `bits`. */
  function Word(bits: seq<bool>): bv16 {
    if bits == [] then 0
    else Xor(Word(bits[..|bits| - 1]), if bits[|bits| - 1] then Power(|bits| - 1) else 0)
  }

  /** A single bit comes down to the low end unchanged. */
  lemma {:induction false} PowerDown(k: nat)
    requires k < 16
    ensures Power(k) != 0 && ShiftN(Power(k), k) == 1
  {
    PowerIsBit(k);
    if k > 0 {
      PowerIsBit(k - 1);
      PowerDown(k - 1);
      ShiftNSwap(Power(k), k);
      assert Shift(Power(k)) == Power(k - 1);
    }
  }

  lemma {:induction false} ShiftNSwap(c: bv16, n: nat)
    requires n > 0
    ensures ShiftN(c, n) == ShiftN(Shift(c), n - 1)
  {
    if n > 1 { ShiftNSwap(c, n - 1); }
  }

  lemma {:induction false} PowerIsBit(k: nat)
    requires k < 16
    ensures Power(k) in {0x1, 0x2, 0x4, 0x8, 0x10, 0x20, 0x40, 0x80, 0x100, 0x200, 0x400, 0x800, 0x1000, 0x2000,
      0x4000, 0x8000}
    ensures k < 15 ==> Power(k) != 0x8000
    ensures k < 14 ==> Power(k) != 0x4000
  {
    PowerTable();
  }

  lemma PowerTable()
    ensures Power(0) == 0x1 && Power(1) == 0x2 && Power(2) == 0x4 && Power(3) == 0x8
    ensures Power(4) == 0x10 && Power(5) == 0x20 && Power(6) == 0x40 && Power(7) == 0x80
    ensures Power(8) == 0x100 && Power(9) == 0x200 && Power(10) == 0x400 && Power(11) == 0x800
    ensures Power(12) == 0x1000 && Power(13) == 0x2000 && Power(14) == 0x4000 && Power(15) == 0x8000
  {
  }

  lemma XorZero(c: bv16)
    ensures Xor(c, 0) == c
  {
  }

  /** Feeding at most sixteen bits is xoring in their word and then shifting as often. */
  lemma {:induction false} FeedWord(c: bv16, bits: seq<bool>)
    requires |bits| <= 16
    ensures Feed(c, bits) == ShiftN(Xor(c, Word(bits)), |bits|)
  {
    hide Shift;
    hide Xor;
    hide Power;
    if bits == [] {
      assert Xor(c, 0) == c by { XorZero(c); }
    } else {
      var t := bits[..|bits| - 1];
      var k := |t|;
      var bit := bits[k];
      FeedWord(c, t);
      PowerDown(k);
      var p: bv16 := if bit then Power(k) else 0;
      ShiftNZero(k);
      ShiftNLinear(Xor(c, Word(t)), p, k);
      XorAssoc(c, Word(t), p);
    }
  }

  lemma {:induction false} ShiftNZero(n: nat)
    ensures ShiftN(0, n) == 0
  {
    if n > 0 { ShiftNZero(n - 1); }
  }
}
