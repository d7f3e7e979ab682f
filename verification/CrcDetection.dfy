/** Which transmission errors the CRC is certain to notice. */
module CrcDetection {
  import opened CrcTable
  import opened CrcRegister
  import Crc

  /** Two messages of one length that agree outside the window of `w` bits from `p`. */
  ghost predicate AgreeOutside(a: seq<bool>, b: seq<bool>, p: nat, w: nat) {
    |a| == |b| && forall i :: 0 <= i < |a| && !(p <= i < p + w) ==> a[i] == b[i]
  }

  // ---- Bursts

  predicate Clear(w: bv16, p: bv16) {
    w & p == 0
  }

  /** Bit `j` of a word is above all bits of a shorter message. */
  lemma {:induction false} WordBelow(bits: seq<bool>, j: nat)
    requires |bits| <= j < 16
    ensures Clear(Word(bits), Power(j))
  {
    if bits != [] {
      var t := bits[..|bits| - 1];
      WordBelow(t, j);
      PowersApart(|t|, j);
      AndXor(Word(t), if bits[|t|] then Power(|t|) else 0, Power(j));
    } else {
      ZeroAnd(Power(j));
    }
  }

  lemma ZeroAnd(p: bv16)
    ensures 0 & p == 0
  {
  }

  lemma AndXor(a: bv16, b: bv16, p: bv16)
    requires a & p == 0 && b & p == 0
    ensures Xor(a, b) & p == 0
  {
  }

  lemma PowersApart(i: nat, j: nat)
    requires i < j < 16
    ensures Power(i) & Power(j) == 0 && 0 & Power(j) == 0 && Power(j) != 0
  {
    PowerTable();
    hide Power;
    assert i == 0 || i == 1 || i == 2 || i == 3 || i == 4 || i == 5 || i == 6 || i == 7
        || i == 8 || i == 9 || i == 10 || i == 11 || i == 12 || i == 13 || i == 14;
    assert j == 1 || j == 2 || j == 3 || j == 4 || j == 5 || j == 6 || j == 7
        || j == 8 || j == 9 || j == 10 || j == 11 || j == 12 || j == 13 || j == 14 || j == 15;
  }

  lemma TopBitShows(u: bv16, v: bv16, p: bv16)
    requires Clear(u, p) && Clear(v, p) && p != 0
    ensures Xor(u, p) != v
  {
    assert (u ^ p) & p == p;
  }

  lemma WordLast(a: seq<bool>)
    requires a != []
    ensures var k := |a| - 1; Word(a) == Xor(Word(a[..k]), if a[k] then Power(k) else 0)
  {
  }

  /** Different messages of at most sixteen bits make different words. */
  lemma {:induction false} WordInjective(a: seq<bool>, b: seq<bool>)
    requires |a| == |b| <= 16 && Word(a) == Word(b)
    ensures a == b
  {
    hide Word;
    hide Power;
    hide Xor;
    hide Clear;
    if a != [] {
      var k := |a| - 1;
      var s, t := a[..k], b[..k];
      WordLast(a);
      WordLast(b);
      XorZero(Word(s));
      XorZero(Word(t));
      if a[k] != b[k] {
        WordBelow(s, k);
        WordBelow(t, k);
        PowerDown(k);
        TopBitShows(Word(s), Word(t), Power(k));
        TopBitShows(Word(t), Word(s), Power(k));
      } else {
        if a[k] { XorCancel(Word(s), Word(t), Power(k)); }
        WordInjective(s, t);
        assert a == s + [a[k]] && b == t + [b[k]];
      }
    }
  }

  lemma {:induction false} WindowSeen(c: bv16, a: seq<bool>, b: seq<bool>)
    requires |a| == |b| <= 16 && Feed(c, a) == Feed(c, b)
    ensures a == b
  {
    FeedWord(c, a);
    FeedWord(c, b);
    ShiftNInjective(Xor(c, Word(a)), Xor(c, Word(b)), |a|);
    XorSym(c, Word(a));
    XorSym(c, Word(b));
    XorCancel(Word(a), Word(b), c);
    WordInjective(a, b);
  }

  lemma XorSym(a: bv16, b: bv16)
    ensures Xor(a, b) == Xor(b, a)
  {
  }

  /** A burst within sixteen consecutive bits, anywhere in a message of any length,
      changes the CRC, whatever the start. */
  lemma BurstDetected(c: bv16, a: seq<bool>, b: seq<bool>, p: nat)
    requires AgreeOutside(a, b, p, 16) && a != b
    ensures Feed(c, a) != Feed(c, b)
  {
    hide Feed;
    var lo := if p <= |a| then p else |a|;
    var hi := if p + 16 <= |a| then p + 16 else |a|;
    var pre, wa, wb, suf := a[..lo], a[lo..hi], b[lo..hi], a[hi..];
    assert a == pre + wa + suf;
    assert b[..lo] == pre && b[hi..] == suf;
    assert b == pre + wb + suf;
    FeedAppend(c, pre + wa, suf);
    FeedAppend(c, pre + wb, suf);
    FeedAppend(c, pre, wa);
    FeedAppend(c, pre, wb);
    if Feed(c, a) == Feed(c, b) {
      FeedInjective(Feed(c, pre + wa), Feed(c, pre + wb), suf);
      WindowSeen(Feed(c, pre), wa, wb);
    }
  }

  // ---- Odd numbers of errors

  /** The parity of the register's bits. */
  function Parity(c: bv16): bool {
    if c == 0 then false else Low(c) != Parity(Half(c))
  }

  lemma ParityStep(c: bv16)
    ensures Parity(c) == (Low(c) != Parity(Half(c)))
  {
  }

  lemma {:induction false} ParityLinear(a: bv16, b: bv16)
    ensures Parity(Xor(a, b)) == (Parity(a) != Parity(b))
    decreases a, b
  {
    if a == 0 && b == 0 {
      assert Xor(a, b) == 0;
    } else {
      assert a != 0 ==> Half(a) < a;
      assert b != 0 ==> Half(b) < b;
      assert Half(0) == 0;
      HalfLinear(a, b);
      ParityLinear(Half(a), Half(b));
      ParityStep(a);
      ParityStep(b);
      ParityStep(Xor(a, b));
      hide Parity;
      hide Xor;
      hide Half;
      hide Low;
    }
  }

  function OddOnes(bits: seq<bool>): bool {
    bits != [] && OddOnes(bits[..|bits| - 1]) != bits[|bits| - 1]
  }

  /** The number of positions in which two messages differ. */
  function Differences(a: seq<bool>, b: seq<bool>): nat
    requires |a| == |b|
  {
    if a == [] then 0
    else Differences(a[..|a| - 1], b[..|b| - 1]) + if a[|a| - 1] != b[|b| - 1] then 1 else 0
  }

  lemma ConstantParities()
    ensures Parity(0xA001) && Parity(1) && !Parity(0)
  {
    assert !Parity(0);
    hide Parity;
    ParityStep(0xA001); ParityStep(0x5000); ParityStep(0x2800); ParityStep(0x1400);
    ParityStep(0x0A00); ParityStep(0x0500); ParityStep(0x0280); ParityStep(0x0140);
    ParityStep(0x00A0); ParityStep(0x0050); ParityStep(0x0028); ParityStep(0x0014);
    ParityStep(0x000A); ParityStep(0x0005); ParityStep(0x0002); ParityStep(0x0001);
  }

  /** The polynomial has an even number of terms, so the register carries the parity of all bits fed. */
  lemma StepParity(c: bv16, bit: bool)
    ensures Parity(StepBit(c, bit)) == (Parity(c) != bit)
  {
    hide Parity;
    ConstantParities();
    hide Xor;
    hide Half;
    hide Low;
    var x := Xor(c, if bit then 1 else 0);
    ParityLinear(c, if bit then 1 else 0);
    ParityStep(x);
    ParityLinear(Half(x), 0xA001);
  }

  lemma {:induction false} FeedParity(c: bv16, bits: seq<bool>)
    ensures Parity(Feed(c, bits)) == (Parity(c) != OddOnes(bits))
  {
    hide Parity;
    if bits != [] {
      FeedParity(c, bits[..|bits| - 1]);
      StepParity(Feed(c, bits[..|bits| - 1]), bits[|bits| - 1]);
    }
  }

  lemma {:induction false} DifferenceParity(a: seq<bool>, b: seq<bool>)
    requires |a| == |b|
    ensures Differences(a, b) % 2 == 1 <==> OddOnes(a) != OddOnes(b)
  {
    if a != [] {
      DifferenceParity(a[..|a| - 1], b[..|b| - 1]);
    }
  }

  /** Any odd number of wrong bits changes the CRC. */
  lemma OddErrorsDetected(c: bv16, a: seq<bool>, b: seq<bool>)
    requires |a| == |b| && Differences(a, b) % 2 == 1
    ensures Feed(c, a) != Feed(c, b)
  {
    FeedParity(c, a);
    FeedParity(c, b);
    DifferenceParity(a, b);
  }

  // ---- For the program's payloads

  lemma ByteBitsInjective(a: bv8, b: bv8)
    requires ByteBits(a) == ByteBits(b)
    ensures a == b
  {
    Crc.ByteWord(a);
    Crc.ByteWord(b);
    assert a as bv16 == b as bv16;
  }

  lemma {:induction false} BitsInjective(a: seq<bv8>, b: seq<bv8>)
    requires |a| == |b| && Bits(a) == Bits(b)
    ensures a == b
  {
    hide ByteBits;
    if a != [] {
      var k := |a| - 1;
      var s, t := Bits(a[..k]), Bits(b[..k]);
      assert Bits(a)[..8 * k] == s && Bits(b)[..8 * k] == t;
      assert Bits(a)[8 * k..] == ByteBits(a[k]) && Bits(b)[8 * k..] == ByteBits(b[k]);
      BitsInjective(a[..k], b[..k]);
      ByteBitsInjective(a[k], b[k]);
      assert a == a[..k] + [a[k]] && b == b[..k] + [b[k]];
    }
  }

  /** Two different payloads of one length whose bits differ only inside a window of
      sixteen, or in an odd number of places, have different CRCs in the low 16 bits of
      what CalculateCRC returns. */
  lemma PayloadErrorsDetected(start: bv32, a: seq<bv8>, b: seq<bv8>, p: nat)
    requires |a| == |b| && a != b
    requires AgreeOutside(Bits(a), Bits(b), p, 16) || Differences(Bits(a), Bits(b)) % 2 == 1
    ensures Crc.Narrow(Crc.CrcOf(a, start)) != Crc.Narrow(Crc.CrcOf(b, start))
  {
    hide Feed;
    hide Differences;
    if Bits(a) == Bits(b) { BitsInjective(a, b); }
    Crc.NarrowPromote(Feed(Crc.Narrow(start), Bits(a)));
    Crc.NarrowPromote(Feed(Crc.Narrow(start), Bits(b)));
    if AgreeOutside(Bits(a), Bits(b), p, 16) {
      BurstDetected(Crc.Narrow(start), Bits(a), Bits(b), p);
    } else {
      OddErrorsDetected(Crc.Narrow(start), Bits(a), Bits(b));
    }
  }

  /** The window of sixteen is the widest: these payloads differ in a burst of seventeen bits. */
  lemma SeventeenBitsMissed()
    ensures AgreeOutside(Bits([0x03, 0x40, 0x01]), Bits([0, 0, 0]), 0, 17)
    ensures Feed(0, Bits([0x03, 0x40, 0x01])) == Feed(0, Bits([0, 0, 0]))
  {
    ThreeBytes(0x03, 0x40, 0x01);
    ThreeBytes(0, 0, 0);
    MissedSteps();
    hide Crc.NextCrc;
    hide Feed;
    hide Bits;
  }

  lemma MissedSteps()
    ensures Crc.NextCrc(0, 0x03) == 0x0140 && Crc.NextCrc(0x0140, 0x40) == 0x0001 && Crc.NextCrc(0x0001, 0x01) == 0
    ensures Crc.NextCrc(0, 0) == 0
  {
  }

  lemma ThreeBytes(a: bv8, b: bv8, c: bv8)
    ensures Bits([a, b, c]) == ByteBits(a) + ByteBits(b) + ByteBits(c)
    ensures Feed(0, Bits([a, b, c])) == Crc.NextCrc(Crc.NextCrc(Crc.NextCrc(0, a), b), c)
  {
    assert [a, b, c][..2] == [a, b] && [a, b][..1] == [a] && [a][..0] == [];
    assert Bits([a]) == [] + ByteBits(a) == ByteBits(a);
    assert Bits([a, b]) == ByteBits(a) + ByteBits(b);
    FeedAppend(0, ByteBits(a), ByteBits(b));
    FeedAppend(0, ByteBits(a) + ByteBits(b), ByteBits(c));
    Crc.NextCrcIsFeed(0, a);
    Crc.NextCrcIsFeed(Crc.NextCrc(0, a), b);
    Crc.NextCrcIsFeed(Crc.NextCrc(Crc.NextCrc(0, a), b), c);
    hide *;
  }
}
