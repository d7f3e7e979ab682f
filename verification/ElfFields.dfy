/**
 The fields of the ELF structures in memory, and the byte swapping that elf2cfetbl.c does when the
 file (e_ident[EI_DATA]) and the machine it runs on store integers in different orders.
 */
module ElfFields {
  import opened Wrappers

  /** The integer in some bytes, least significant byte first. */
  function FromLittle(b: seq<uint8>): nat {
    if b == [] then 0 else b[0] + 256 * FromLittle(b[1..])
  }

  function Reversed<X>(s: seq<X>): (r: seq<X>)
    ensures |r| == |s|
  {
    if s == [] then [] else Reversed(s[1..]) + [s[0]]
  }

  lemma {:induction false} ReversedAt<X>(s: seq<X>, i: nat)
    requires i < |s|
    ensures Reversed(s)[i] == s[|s| - 1 - i]
  {
    if i < |s| - 1 { ReversedAt(s[1..], i); }
  }

  lemma ReversedTwice<X>(s: seq<X>)
    ensures Reversed(Reversed(s)) == s
  {
    forall i | 0 <= i < |s| ensures Reversed(Reversed(s))[i] == s[i] {
      ReversedAt(Reversed(s), i);
      ReversedAt(s, |s| - 1 - i);
    }
  }

  /** The integer in some bytes, in either order. */
  function Value(b: seq<uint8>, little: bool): nat {
    FromLittle(if little then b else Reversed(b))
  }

  lemma ValueSwapped(b: seq<uint8>, little: bool)
    ensures Value(Reversed(b), little) == Value(b, !little)
  {
    ReversedTwice(b);
  }

  function Limit(n: nat): nat {
    if n == 0 then 1 else 256 * Limit(n - 1)
  }

  lemma {:induction false} FromLittleBelow(b: seq<uint8>)
    ensures FromLittle(b) < Limit(|b|)
  {
    if b != [] { FromLittleBelow(b[1..]); }
  }

  lemma ValueBelow(b: seq<uint8>, little: bool)
    ensures Value(b, little) < Limit(|b|)
  {
    FromLittleBelow(if little then b else Reversed(b));
  }

  lemma Limits()
    ensures Limit(2) == 0x1_0000 && Limit(4) == 0x1_0000_0000 && Limit(8) == 0x1_0000_0000_0000_0000
  {
  }

  // ---- Structures

  /** A multi-byte member of a structure. */
  datatype Field = Field(at: nat, width: nat)

  predicate Inside(f: Field, n: nat) {
    f.at + f.width <= n
  }

  predicate Apart(f: Field, g: Field) {
    f.at + f.width <= g.at || g.at + g.width <= f.at
  }

  function Get(b: seq<uint8>, f: Field): seq<uint8>
    requires Inside(f, |b|)
  {
    b[f.at..f.at + f.width]
  }

  /** Reverses the bytes of one member. */
  function Swapped(b: seq<uint8>, f: Field): (r: seq<uint8>)
    requires Inside(f, |b|)
    ensures |r| == |b|
  {
    b[..f.at] + Reversed(Get(b, f)) + b[f.at + f.width..]
  }

  ghost predicate Proper(fields: seq<Field>, n: nat) {
    && (forall i :: 0 <= i < |fields| ==> Inside(fields[i], n))
    && (forall i, j :: 0 <= i < j < |fields| ==> Apart(fields[i], fields[j]))
  }

  /** Reverses the first `k` of these members. */
  function SwappedUpTo(b: seq<uint8>, fields: seq<Field>, k: nat): (r: seq<uint8>)
    requires k <= |fields| && forall i :: 0 <= i < |fields| ==> Inside(fields[i], |b|)
    ensures |r| == |b|
  {
    if k == 0 then b else Swapped(SwappedUpTo(b, fields, k - 1), fields[k - 1])
  }

  lemma SwappedGet(b: seq<uint8>, f: Field, g: Field)
    requires Inside(f, |b|) && Inside(g, |b|)
    ensures Get(Swapped(b, f), f) == Reversed(Get(b, f))
    ensures Apart(f, g) ==> Get(Swapped(b, f), g) == Get(b, g)
  {
  }

  /** Swapping proper members one after the other reverses each of them. */
  lemma {:induction false} SwappedField(b: seq<uint8>, fields: seq<Field>, k: nat, i: nat)
    requires k <= |fields| && i < |fields| && Proper(fields, |b|)
    ensures Get(SwappedUpTo(b, fields, k), fields[i]) ==
      if i < k then Reversed(Get(b, fields[i])) else Get(b, fields[i])
  {
    hide Get;
    hide Reversed;
    hide Swapped;
    if k > 0 {
      SwappedField(b, fields, k - 1, i);
      SwappedGet(SwappedUpTo(b, fields, k - 1), fields[k - 1], fields[i]);
      assert i < k - 1 ==> Apart(fields[i], fields[k - 1]);
      assert i > k - 1 ==> Apart(fields[k - 1], fields[i]);
    }
  }

  /** A byte that belongs to no member stays as it is. */
  lemma {:induction false} SwappedElsewhere(b: seq<uint8>, fields: seq<Field>, k: nat, j: nat)
    requires k <= |fields| && Proper(fields, |b|) && j < |b|
    requires forall i :: 0 <= i < k ==> j < fields[i].at || fields[i].at + fields[i].width <= j
    ensures SwappedUpTo(b, fields, k)[j] == b[j]
  {
    if k > 0 {
      SwappedElsewhere(b, fields, k - 1, j);
    }
  }

  /** What a machine reads from a structure that it has swapped if it needs to. */
  lemma SwapReads(b: seq<uint8>, fields: seq<Field>, i: nat, thisLittle: bool, targetLittle: bool)
    requires i < |fields| && Proper(fields, |b|)
    ensures var read := if thisLittle != targetLittle then SwappedUpTo(b, fields, |fields|) else b;
      Value(Get(read, fields[i]), thisLittle) == Value(Get(b, fields[i]), targetLittle)
  {
    SwappedField(b, fields, |fields|, i);
    ValueSwapped(Get(b, fields[i]), thisLittle);
  }

  // The members of Elf32_Sym and Elf64_Sym, Elf32_Shdr and Elf64_Shdr, Elf32_Ehdr and Elf64_Ehdr

  const ST_NAME := 0
  const ST_VALUE := 1
  const ST_SIZE := 2
  const ST_SHNDX := 3

  function SymbolLen(is32: bool): nat {
    if is32 then 16 else 24
  }

  function SymbolFields(is32: bool): (f: seq<Field>)
    ensures |f| == 4 && Proper(f, SymbolLen(is32))
  {
    if is32 then [Field(0, 4), Field(4, 4), Field(8, 4), Field(14, 2)]
    else [Field(0, 4), Field(8, 8), Field(16, 8), Field(6, 2)]
  }

  function SectionLen(is32: bool): nat {
    if is32 then 40 else 64
  }

  function SectionFields(is32: bool): (f: seq<Field>)
    ensures |f| == 10 && Proper(f, SectionLen(is32))
  {
    if is32 then
      [Field(0, 4), Field(4, 4), Field(8, 4), Field(12, 4), Field(16, 4), Field(20, 4), Field(32, 4), Field(36, 4),
       Field(24, 4), Field(28, 4)]
    else
      [Field(0, 4), Field(4, 4), Field(8, 8), Field(16, 8), Field(24, 8), Field(32, 8), Field(48, 8), Field(56, 8),
       Field(40, 4), Field(44, 4)]
  }

  function HeaderLen(is32: bool): nat {
    if is32 then 52 else 64
  }

  function HeaderFields(is32: bool): (f: seq<Field>)
    ensures |f| == 13 && Proper(f, HeaderLen(is32))
  {
    if is32 then
      [Field(16, 2), Field(18, 2), Field(20, 4), Field(24, 4), Field(28, 4), Field(32, 4), Field(36, 4), Field(40, 2),
       Field(42, 2), Field(44, 2), Field(46, 2), Field(48, 2), Field(50, 2)]
    else
      [Field(16, 2), Field(18, 2), Field(20, 4), Field(24, 8), Field(32, 8), Field(40, 8), Field(48, 4), Field(52, 2),
       Field(54, 2), Field(56, 2), Field(58, 2), Field(60, 2), Field(62, 2)]
  }

  // ---- In place

  function Exchanged(b: seq<uint8>, i: nat, j: nat): (r: seq<uint8>)
    requires i < j < |b|
    ensures |r| == |b|
  {
    b[i := b[j]][j := b[i]]
  }

  /** To reverse bytes, exchange the outer two and reverse those between them. */
  lemma SwappedEnds(b: seq<uint8>, f: Field)
    requires Inside(f, |b|) && f.width >= 2
    ensures Swapped(b, f) == Swapped(Exchanged(b, f.at, f.at + f.width - 1), Field(f.at + 1, f.width - 2))
  {
    var c, g := Exchanged(b, f.at, f.at + f.width - 1), Field(f.at + 1, f.width - 2);
    forall i | 0 <= i < |b| ensures Swapped(b, f)[i] == Swapped(c, g)[i] {
      if f.at <= i < f.at + f.width { ReversedAt(Get(b, f), i - f.at); }
      if g.at <= i < g.at + g.width { ReversedAt(Get(c, g), i - g.at); }
      hide Reversed;
    }
  }

  lemma SwappedNone(b: seq<uint8>, at: nat)
    requires at <= |b|
    ensures Swapped(b, Field(at, 0)) == b
  {
  }

  /** The exchange of two bytes that the swaps are made of. */
  method Exchange(a: array<uint8>, i: nat, j: nat)
    requires i < j < a.Length
    modifies a
    ensures a[..] == Exchanged(old(a[..]), i, j)
  {
    var temp := a[j];
    a[j] := a[i];
    a[i] := temp;
  }

  method SwapUInt16(a: array<uint8>, at: nat)
    requires Inside(Field(at, 2), a.Length)
    modifies a
    ensures a[..] == Swapped(old(a[..]), Field(at, 2))
  {
    hide Swapped;
    SwappedEnds(a[..], Field(at, 2));
    Exchange(a, at, at + 1);
    SwappedNone(a[..], at + 1);
  }

  method SwapUInt32(a: array<uint8>, at: nat)
    requires Inside(Field(at, 4), a.Length)
    modifies a
    ensures a[..] == Swapped(old(a[..]), Field(at, 4))
  {
    hide Swapped;
    SwappedEnds(a[..], Field(at, 4));
    Exchange(a, at, at + 3);
    SwappedEnds(a[..], Field(at + 1, 2));
    Exchange(a, at + 1, at + 2);
    SwappedNone(a[..], at + 2);
  }

  method SwapUInt64(a: array<uint8>, at: nat)
    requires Inside(Field(at, 8), a.Length)
    modifies a
    ensures a[..] == Swapped(old(a[..]), Field(at, 8))
  {
    hide Swapped;
    SwappedEnds(a[..], Field(at, 8));
    Exchange(a, at, at + 7);
    SwappedEnds(a[..], Field(at + 1, 6));
    Exchange(a, at + 1, at + 6);
    SwappedEnds(a[..], Field(at + 2, 4));
    Exchange(a, at + 2, at + 5);
    SwappedEnds(a[..], Field(at + 3, 2));
    Exchange(a, at + 3, at + 4);
    SwappedNone(a[..], at + 4);
  }

  /** Swaps the members of a structure one after the other. */
  method SwapMembers(a: array<uint8>, fields: seq<Field>)
    requires forall i :: 0 <= i < |fields| ==> Inside(fields[i], a.Length) && fields[i].width in {2, 4, 8}
    modifies a
    ensures a[..] == SwappedUpTo(old(a[..]), fields, |fields|)
  {
    hide Swapped;
    for k := 0 to |fields|
      invariant a[..] == SwappedUpTo(old(a[..]), fields, k)
    {
      match fields[k].width
      case 2 => SwapUInt16(a, fields[k].at);
      case 4 => SwapUInt32(a, fields[k].at);
      case 8 => SwapUInt64(a, fields[k].at);
    }
  }

  method SwapSymbol(a: array<uint8>, is32: bool)
    requires a.Length == SymbolLen(is32)
    modifies a
    ensures a[..] == SwappedUpTo(old(a[..]), SymbolFields(is32), 4)
  {
    SwapMembers(a, SymbolFields(is32));
  }

  method SwapSectionHeader(a: array<uint8>, is32: bool)
    requires a.Length == SectionLen(is32)
    modifies a
    ensures a[..] == SwappedUpTo(old(a[..]), SectionFields(is32), 10)
  {
    SwapMembers(a, SectionFields(is32));
  }

  method SwapElfHeader(a: array<uint8>, is32: bool)
    requires a.Length == HeaderLen(is32)
    modifies a
    ensures a[..] == SwappedUpTo(old(a[..]), HeaderFields(is32), 13)
  {
    SwapMembers(a, HeaderFields(is32));
  }
}
