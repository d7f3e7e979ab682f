/** The structures of an object file as they are declared, member after member: reading them gives back
    what was stored, for both classes and both orders. */
module ElfImages {
  import opened Wrappers
  import opened Bytes
  import opened ElfFields
  import opened ElfTableFile
  import opened ElfSections

  /** An integer in `n` bytes, least significant byte first. */
  function LittleBytes(x: nat, n: nat): (b: seq<uint8>)
    ensures |b| == n
  {
    if n == 0 then [] else [x % 256] + LittleBytes(x / 256, n - 1)
  }

  function Stored(x: nat, n: nat, little: bool): (b: seq<uint8>)
    ensures |b| == n
  {
    if little then LittleBytes(x, n) else Reversed(LittleBytes(x, n))
  }

  lemma {:induction false} LittleReadBack(x: nat, n: nat)
    requires x < Limit(n)
    ensures FromLittle(LittleBytes(x, n)) == x
  {
    if n > 0 {
      LittleReadBack(x / 256, n - 1);
      assert LittleBytes(x, n)[1..] == LittleBytes(x / 256, n - 1);
    }
  }

  lemma StoredReadBack(x: nat, n: nat, little: bool)
    requires x < Limit(n)
    ensures Value(Stored(x, n, little), little) == x
  {
    LittleReadBack(x, n);
    ReversedTwice(LittleBytes(x, n));
  }

  /** Which of two bytes counts more. */
  lemma ValueOfTwo(a: uint8, b: uint8)
    ensures Value([a, b], true) == a as int + 256 * b as int && Value([a, b], false) == 256 * a as int + b as int
  {
    assert Reversed([a, b]) == [b, a] by {
      ReversedAt([a, b], 0);
      ReversedAt([a, b], 1);
    }
    assert forall x: uint8, y: uint8 :: FromLittle([x, y]) == x as int + 256 * y as int by {
      forall x: uint8, y: uint8 ensures FromLittle([x, y]) == x as int + 256 * y as int {
        assert [x, y][1..] == [y] && [y][1..] == [];
        assert FromLittle([y]) == y as int;
      }
    }
  }

  // ---- Pieces one after the other

  function Joined(p: seq<seq<uint8>>): seq<uint8> {
    if p == [] then [] else Joined(p[..|p| - 1]) + p[|p| - 1]
  }

  /** A piece, with what is in front of it and behind it. */
  lemma {:induction false} PieceAt(p: seq<seq<uint8>>, i: nat)
    requires i < |p|
    ensures var at := |Joined(p[..i])|;
      && at + |p[i]| <= |Joined(p)|
      && Joined(p)[at..at + |p[i]|] == p[i]
  {
    var rest := p[..|p| - 1];
    if i == |p| - 1 {
      assert p[..i] == rest;
    } else {
      PieceAt(rest, i);
      assert rest[..i] == p[..i];
      var at := |Joined(p[..i])|;
      assert Joined(p)[at..at + |p[i]|] == Joined(rest)[at..at + |p[i]|];
    }
  }

  lemma JoinedStep(p: seq<seq<uint8>>, i: nat)
    requires i < |p|
    ensures |Joined(p[..i + 1])| == |Joined(p[..i])| + |p[i]|
  {
    assert p[..i + 1][..i] == p[..i];
  }

  lemma JoinedNone(p: seq<seq<uint8>>)
    ensures Joined(p[..0]) == []
  {
  }

  /** The member at a place holds the integer stored there. */
  lemma MemberAt(p: seq<seq<uint8>>, i: nat, at: nat, x: nat, n: nat, little: bool)
    requires i < |p| && |Joined(p[..i])| == at && p[i] == Stored(x, n, little) && x < Limit(n)
    ensures Inside(Field(at, n), |Joined(p)|) && Value(Get(Joined(p), Field(at, n)), little) == x
  {
    PieceAt(p, i);
    StoredReadBack(x, n, little);
    hide Stored;
    hide Value;
    hide Joined;
  }

  // ---- Symbols

  /** The pieces of Elf32_Sym and Elf64_Sym. */
  function SymbolPieces(s: Symbol, info: uint8, other: uint8, is32: bool, little: bool): seq<seq<uint8>> {
    if is32 then
      [Stored(s.name, 4, little), Stored(s.value, 4, little), Stored(s.size, 4, little), [info], [other],
       Stored(s.shndx, 2, little)]
    else
      [Stored(s.name, 4, little), [info], [other], Stored(s.shndx, 2, little), Stored(s.value, 8, little),
       Stored(s.size, 8, little)]
  }

  predicate SymbolFits(s: Symbol, is32: bool) {
    && s.name < Limit(4) && s.shndx < Limit(2)
    && s.value < Limit(if is32 then 4 else 8) && s.size < Limit(if is32 then 4 else 8)
  }

  lemma SymbolReadsBack(s: Symbol, info: uint8, other: uint8, is32: bool, little: bool)
    requires SymbolFits(s, is32)
    ensures var b := Joined(SymbolPieces(s, info, other, is32, little));
      |b| == SymbolLen(is32) && SymbolIn(b, is32, little) == s
  {
    hide Stored;
    hide Value;
    hide Limit;
    hide Joined;
    var p := SymbolPieces(s, info, other, is32, little);
    JoinedNone(p);
    JoinedStep(p, 0);
    JoinedStep(p, 1);
    JoinedStep(p, 2);
    JoinedStep(p, 3);
    JoinedStep(p, 4);
    JoinedStep(p, 5);
    assert p[..6] == p;
    MemberAt(p, 0, 0, s.name, 4, little);
    if is32 {
      MemberAt(p, 1, 4, s.value, 4, little);
      MemberAt(p, 2, 8, s.size, 4, little);
      MemberAt(p, 5, 14, s.shndx, 2, little);
    } else {
      MemberAt(p, 3, 6, s.shndx, 2, little);
      MemberAt(p, 4, 8, s.value, 8, little);
      MemberAt(p, 5, 16, s.size, 8, little);
    }
  }

  // ---- Section headers

  /** The members of a section header that do not matter. */
  datatype SectionRest = SectionRest(flags: nat, addr: nat, link: nat, info: nat, addralign: nat)

  /** The pieces of Elf32_Shdr and Elf64_Shdr, with words of `w` bytes. */
  function SectionPieces(s: SectionHeader, r: SectionRest, w: nat, little: bool): seq<seq<uint8>> {
    [Stored(s.name, 4, little), Stored(s.kind, 4, little), Stored(r.flags, w, little), Stored(r.addr, w, little),
     Stored(s.offset, w, little), Stored(s.size, w, little), Stored(r.link, 4, little), Stored(r.info, 4, little),
     Stored(r.addralign, w, little), Stored(s.entsize, w, little)]
  }

  function WordLen(is32: bool): nat {
    if is32 then 4 else 8
  }

  predicate SectionFits(s: SectionHeader, w: nat) {
    s.name < Limit(4) && s.kind < Limit(4) && s.offset < Limit(w) && s.size < Limit(w) && s.entsize < Limit(w)
  }

  lemma SectionReadsBack(s: SectionHeader, r: SectionRest, is32: bool, little: bool)
    requires SectionFits(s, WordLen(is32))
    ensures var b := Joined(SectionPieces(s, r, WordLen(is32), little));
      |b| == SectionLen(is32) && SectionIn(b, is32, little) == s
  {
    hide Stored;
    hide Value;
    hide Limit;
    hide Joined;
    var w := WordLen(is32);
    var p := SectionPieces(s, r, w, little);
    JoinedNone(p);
    JoinedStep(p, 0);
    JoinedStep(p, 1);
    JoinedStep(p, 2);
    JoinedStep(p, 3);
    JoinedStep(p, 4);
    JoinedStep(p, 5);
    JoinedStep(p, 6);
    JoinedStep(p, 7);
    JoinedStep(p, 8);
    JoinedStep(p, 9);
    assert p[..10] == p;
    MemberAt(p, 0, 0, s.name, 4, little);
    MemberAt(p, 1, 4, s.kind, 4, little);
    MemberAt(p, 4, 8 + 2 * w, s.offset, w, little);
    MemberAt(p, 5, 8 + 3 * w, s.size, w, little);
    MemberAt(p, 9, 16 + 5 * w, s.entsize, w, little);
  }

  // ---- The ELF header

  /** The members of the ELF header that do not matter. */
  datatype HeaderRest = HeaderRest(entry: nat, phoff: nat, flags: nat, ehsize: nat, phentsize: nat, phnum: nat)

  /** The pieces of Elf32_Ehdr and Elf64_Ehdr, with words of `w` bytes. */
  function HeaderPieces(ident: seq<uint8>, kind: nat, machine: nat, version: nat, h: Header, r: HeaderRest, w: nat)
    : seq<seq<uint8>>
  {
    var little := h.little;
    [ident, Stored(kind, 2, little), Stored(machine, 2, little), Stored(version, 4, little), Stored(r.entry, w, little),
     Stored(r.phoff, w, little), Stored(h.shoff, w, little), Stored(r.flags, 4, little), Stored(r.ehsize, 2, little),
     Stored(r.phentsize, 2, little), Stored(r.phnum, 2, little), Stored(h.shentsize, 2, little),
     Stored(h.shnum, 2, little), Stored(h.shstrndx, 2, little)]
  }

  predicate HeaderFits(kind: nat, machine: nat, version: nat, h: Header) {
    && kind < Limit(2) && machine < Limit(2) && version < Limit(4) && h.shoff < Limit(WordLen(h.is32))
    && h.shentsize < Limit(2) && h.shnum < Limit(2) && h.shstrndx < Limit(2)
  }

  lemma HeaderMembers(ident: seq<uint8>, kind: nat, machine: nat, version: nat, h: Header, r: HeaderRest)
    requires |ident| == EI_NIDENT && HeaderFits(kind, machine, version, h)
    ensures var b := Joined(HeaderPieces(ident, kind, machine, version, h, r, WordLen(h.is32)));
      && |b| == HeaderLen(h.is32) && b[..16] == ident && HeaderIn(b, h.is32, h.little) == h
      && var f := HeaderFields(h.is32);
      && Member(b, f, E_TYPE, h.little) == kind && Member(b, f, E_MACHINE, h.little) == machine
      && Member(b, f, E_VERSION, h.little) == version
  {
    hide Stored;
    hide Value;
    hide Limit;
    hide Joined;
    var w, little := WordLen(h.is32), h.little;
    var p := HeaderPieces(ident, kind, machine, version, h, r, w);
    JoinedNone(p);
    JoinedStep(p, 0);
    JoinedStep(p, 1);
    JoinedStep(p, 2);
    JoinedStep(p, 3);
    JoinedStep(p, 4);
    JoinedStep(p, 5);
    JoinedStep(p, 6);
    JoinedStep(p, 7);
    JoinedStep(p, 8);
    JoinedStep(p, 9);
    JoinedStep(p, 10);
    JoinedStep(p, 11);
    JoinedStep(p, 12);
    JoinedStep(p, 13);
    assert p[..14] == p;
    PieceAt(p, 0);
    MemberAt(p, 1, 16, kind, 2, little);
    MemberAt(p, 2, 18, machine, 2, little);
    MemberAt(p, 3, 20, version, 4, little);
    MemberAt(p, 6, 24 + 2 * w, h.shoff, w, little);
    MemberAt(p, 11, 34 + 3 * w, h.shentsize, 2, little);
    MemberAt(p, 12, 36 + 3 * w, h.shnum, 2, little);
    MemberAt(p, 13, 38 + 3 * w, h.shstrndx, 2, little);
  }

  /** A file that starts with such a header is accepted if and only if its identification, type, machine
      and version are, and then its members are those of the header. */
  lemma HeaderAccepted(ident: seq<uint8>, kind: nat, machine: nat, version: nat, h: Header, r: HeaderRest,
                       rest: seq<uint8>, known: nat -> bool)
    requires |ident| == EI_NIDENT && HeaderFits(kind, machine, version, h)
    requires h.is32 == (ident[4] == 1) && h.little == (ident[5] == 1)
    ensures var b := Joined(HeaderPieces(ident, kind, machine, version, h, r, WordLen(h.is32))) + rest;
      HeaderOf(b, known) ==
        if ident[..4] == [0x7f, 'E' as uint8, 'L' as uint8, 'F' as uint8] && ident[4] in {1, 2} && ident[5] in {1, 2}
           && ident[6] == 1 && kind <= 4 && known(machine) && version == 1
        then Some(h) else None
  {
    HeaderMembers(ident, kind, machine, version, h, r);
    var b := Joined(HeaderPieces(ident, kind, machine, version, h, r, WordLen(h.is32)));
    hide Joined;
    hide Member;
    hide HeaderPieces;
    hide HeaderFields;
    assert (b + rest)[..16] == b[..16];
    hide HeaderIn;
    hide Identified;
    IdentifiedIs(b + rest, ident);
    assert (b + rest)[..HeaderLen(h.is32)] == b;
    assert (b + rest)[4] == b[..16][4] && (b + rest)[5] == b[..16][5];
  }

  /** What identifies an object file: the magic number, a class, an order and the version. */
  lemma IdentifiedIs(bytes: seq<uint8>, ident: seq<uint8>)
    requires |ident| == EI_NIDENT <= |bytes| && bytes[..16] == ident
    ensures Identified(bytes) <==>
      && ident[..4] == [0x7f, 'E' as uint8, 'L' as uint8, 'F' as uint8]
      && ident[4] in {1, 2} && ident[5] in {1, 2} && ident[6] == 1
  {
    assert forall i :: 0 <= i < 16 ==> bytes[i] == ident[i];
    assert ident[..4] == [ident[0], ident[1], ident[2], ident[3]];
  }

  // ---- Table definitions

  /** The pieces of a CFE_TBL_FileDef_t: strings in their arrays, and the size. */
  function FileDefPieces(def: FileDef, little: bool): seq<seq<uint8>>
    requires |def.objectName| < 64 && |def.tableName| < 40 && |def.description| < 32 && |def.tgtFilename| < 20
  {
    [NameOver(def.objectName, Zeros(64)), NameOver(def.tableName, Zeros(40)), NameOver(def.description, Zeros(32)),
     NameOver(def.tgtFilename, Zeros(20)), Stored(def.objectSize, 4, little)]
  }

  lemma StringReadsBack(p: seq<seq<uint8>>, i: nat, at: nat, s: cstring, n: nat)
    requires i < |p| && |Joined(p[..i])| == at && |s| < n && p[i] == NameOver(s, Zeros(n))
    ensures at + n <= |Joined(p)| && StringIn(Joined(p), at, n) == s
  {
    PieceAt(p, i);
    hide Joined;
    var b := NameOver(s, Zeros(n));
    assert Joined(p)[at..at + n - 1] == b[..n - 1];
    if |s| < n - 1 {
      CStringOf(s, Zeros(n)[|s| + 1..n - 1]);
      assert b[..n - 1] == s + [0] + Zeros(n)[|s| + 1..n - 1];
    } else {
      assert b[..n - 1] == s;
      WholeString(s);
    }
  }

  lemma {:induction false} WholeString(s: cstring)
    ensures CString(s) == s
  {
    if s != [] {
      var t: cstring := s[1..];
      WholeString(t);
      assert s[0] in s;
    }
  }

  lemma FileDefReadsBack(def: FileDef, little: bool)
    requires |def.objectName| < 64 && |def.tableName| < 40 && |def.description| < 32 && |def.tgtFilename| < 20
    ensures var b := Joined(FileDefPieces(def, little));
      |b| == 160 && FileDefIn(b, little) == def
  {
    hide Stored;
    hide Value;
    hide Joined;
    hide NameOver;
    hide StringIn;
    Limits();
    var p := FileDefPieces(def, little);
    JoinedNone(p);
    JoinedStep(p, 0);
    JoinedStep(p, 1);
    JoinedStep(p, 2);
    JoinedStep(p, 3);
    JoinedStep(p, 4);
    assert p[..5] == p;
    StringReadsBack(p, 0, 0, def.objectName, 64);
    StringReadsBack(p, 1, 64, def.tableName, 40);
    StringReadsBack(p, 2, 104, def.description, 32);
    StringReadsBack(p, 3, 136, def.tgtFilename, 20);
    MemberAt(p, 4, 156, def.objectSize, 4, little);
  }
}
