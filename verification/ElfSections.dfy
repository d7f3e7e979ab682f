/** What elf2cfetbl.c learns from the header and the sections of an object file before it reads
    symbols. Nothing here depends on the machine it runs on. */
module ElfSections {
  import opened Wrappers
  import opened Bytes
  import opened ElfFields
  import opened ElfTableFile

  const EI_NIDENT := 16
  const SHT_SYMTAB := 2
  const SHT_STRTAB := 3

  // ".strtab"
  const STRTAB: cstring :=
    ['.' as uint8, 's' as uint8, 't' as uint8, 'r' as uint8, 't' as uint8, 'a' as uint8, 'b' as uint8]

  // Indices into HeaderFields and SectionFields
  const E_TYPE := 0
  const E_MACHINE := 1
  const E_VERSION := 2
  const E_SHOFF := 5
  const E_SHENTSIZE := 10
  const E_SHNUM := 11
  const E_SHSTRNDX := 12
  const SH_NAME := 0
  const SH_TYPE := 1
  const SH_OFFSET := 4
  const SH_SIZE := 5
  const SH_ENTSIZE := 7

  /** A member of a structure in memory. */
  function Member(b: seq<uint8>, f: seq<Field>, k: nat, little: bool): nat
    requires k < |f| && Inside(f[k], |b|)
  {
    Value(Get(b, f[k]), little)
  }

  /** The members of the ELF header that matter, with the class and the order of the file. */
  datatype Header = Header(is32: bool, little: bool, shoff: nat, shentsize: nat, shnum: nat, shstrndx: nat)

  datatype SectionHeader = SectionHeader(name: nat, kind: nat, offset: nat, size: nat, entsize: nat)

  function HeaderIn(b: seq<uint8>, is32: bool, little: bool): Header
    requires |b| == HeaderLen(is32)
  {
    var f := HeaderFields(is32);
    Header(is32, little, Member(b, f, E_SHOFF, little), Member(b, f, E_SHENTSIZE, little),
      Member(b, f, E_SHNUM, little),
           Member(b, f, E_SHSTRNDX, little))
  }

  function SectionIn(b: seq<uint8>, is32: bool, little: bool): SectionHeader
    requires |b| == SectionLen(is32)
  {
    var f := SectionFields(is32);
    SectionHeader(Member(b, f, SH_NAME, little), Member(b, f, SH_TYPE, little), Member(b, f, SH_OFFSET, little),
                  Member(b, f, SH_SIZE, little), Member(b, f, SH_ENTSIZE, little))
  }

  /** The identification at the start of the file: magic number, class, order and version. */
  predicate Identified(b: seq<uint8>) {
    && |b| >= EI_NIDENT
    && b[0] == 0x7f && b[1] == 0x45 && b[2] == 0x4c && b[3] == 0x46
    && (b[4] == 1 || b[4] == 2)
    && (b[5] == 1 || b[5] == 2)
    && b[6] == 1
  }

  /** Type, machine and version of the object. */
  predicate Supported(b: seq<uint8>, is32: bool, little: bool, known: nat -> bool)
    requires |b| == HeaderLen(is32)
  {
    var f := HeaderFields(is32);
    Member(b, f, E_TYPE, little) <= 4 && known(Member(b, f, E_MACHINE, little)) && Member(b, f, E_VERSION, little) == 1
  }

  /** GetElfHeader; `known` is the map of machine names. */
  function HeaderOf(bytes: seq<uint8>, known: nat -> bool): Option<Header> {
    if !Identified(bytes) then None
    else
      var is32, little := bytes[4] == 1, bytes[5] == 1;
      if HeaderLen(is32) <= |bytes| && Supported(bytes[..HeaderLen(is32)], is32, little, known)
      then Some(HeaderIn(bytes[..HeaderLen(is32)], is32, little)) else None
  }

  /** The conversion of a uint64 to int64. */
  function ToInt64(x: nat): int {
    var low := x % 0x1_0000_0000_0000_0000;
    if low < 0x8000_0000_0000_0000 then low else low - 0x1_0000_0000_0000_0000
  }

  /** It is congruent to the integer, and in the range of int64. */
  lemma ToInt64Is(x: nat)
    ensures -0x8000_0000_0000_0000 <= ToInt64(x) < 0x8000_0000_0000_0000
    ensures (ToInt64(x) - x) % 0x1_0000_0000_0000_0000 == 0
  {
    var wrap := 0x1_0000_0000_0000_0000;
    var q, low := x / wrap, x % wrap;
    assert x == q * wrap + low;
    assert ToInt64(x) - x == (if low < 0x8000_0000_0000_0000 then -q else -q - 1) * wrap;
  }

  /** Where a section header is. */
  function SectionOffset(h: Header, i: nat): int {
    ToInt64(h.shoff) + if i > 0 then i * h.shentsize else 0
  }

  /** The place of a section header that fseek and fread reach. */
  predicate Reached(bytes: seq<uint8>, h: Header, i: nat) {
    0 <= SectionOffset(h, i) && SectionOffset(h, i) + SectionLen(h.is32) <= |bytes|
  }

  function SectionAt(bytes: seq<uint8>, h: Header, i: nat): SectionHeader
    requires Reached(bytes, h, i)
  {
    var at := SectionOffset(h, i);
    SectionIn(bytes[at..at + SectionLen(h.is32)], h.is32, h.little)
  }

  /** A section gets a name, and counts, if the names are known and it has one. */
  predicate IsNamed(shstr: int, s: SectionHeader) {
    shstr != 0 && s.name != 0
  }

  /** Where the name is read; a negative place cannot be sought. */
  function SectionNameOffset(shstr: int, s: SectionHeader, behind: nat): nat {
    if shstr + s.name >= 0 then shstr + s.name else behind
  }

  /** The name ends within the buffer it is read to. */
  predicate Terminated(bytes: seq<uint8>, at: nat) {
    exists k: nat {:trigger ByteAt(bytes, at + k)} :: k < VERBOSE_STR_LEN && ByteAt(bytes, at + k) == 0
  }

  /** What the pass over the sections has found. */
  datatype Tables = Tables(sections: seq<Section>, symtab: int32, entsize: uint64, numSymbols: nat, strtab: uint64)

  const NO_TABLES := Tables([], 0, 0, 0, 0)

  /** The number of symbols behind the null symbol, in 64 bits. */
  function SymbolCount(s: SectionHeader): nat
    requires s.entsize > 0
  {
    (s.size / s.entsize - 1) % 0x1_0000_0000_0000_0000
  }

  function To64(x: nat): uint64 { x % 0x1_0000_0000_0000_0000 }

  /** GetSectionHeader for the i-th section: the last symbol table counts; of the string tables the
      last that is called ".strtab", and before that the first other than the section names. */
  function WithSection(t: Tables, h: Header, i: nat, s: SectionHeader, named: bool, name: cstring): Tables
    requires named && s.kind == SHT_SYMTAB ==> s.entsize > 0
  {
    var t1 := t.(sections := t.sections + [Section(To64(s.offset), name)]);
    if named && s.kind == SHT_SYMTAB then
      t1.(symtab := ToInt32(s.offset + SymbolLen(h.is32)), entsize := To64(s.entsize), numSymbols := SymbolCount(s))
    else if named && s.kind == SHT_STRTAB && (name == STRTAB || (t.strtab == 0 && i != h.shstrndx)) then
      t1.(strtab := To64(s.offset))
    else t1
  }

  /** What C leaves undefined in the pass: sums beyond int, endless names, and division by zero. */
  predicate SectionDefined(bytes: seq<uint8>, h: Header, shstr: int, i: nat) {
    && i * h.shentsize < 0x8000_0000
    && (Reached(bytes, h, i) ==>
          var s := SectionAt(bytes, h, i);
          IsNamed(shstr, s) ==>
            && Terminated(bytes, SectionNameOffset(shstr, s, SectionOffset(h, i) + SectionLen(h.is32)))
            && (s.kind == SHT_SYMTAB ==> s.entsize > 0))
  }

  function SectionName(bytes: seq<uint8>, h: Header, shstr: int, i: nat): cstring
    requires Reached(bytes, h, i)
  {
    var s := SectionAt(bytes, h, i);
    if IsNamed(shstr, s) then
      NameFrom(bytes, SectionNameOffset(shstr, s, SectionOffset(h, i) + SectionLen(h.is32)), VERBOSE_STR_LEN)
    else []
  }

  /** The pass over the first `n` sections. */
  function TablesUpTo(bytes: seq<uint8>, h: Header, shstr: int, n: nat): Option<Tables>
    requires forall i: nat :: i < n ==> SectionDefined(bytes, h, shstr, i)
  {
    if n == 0 then Some(NO_TABLES)
    else
      var t := TablesUpTo(bytes, h, shstr, n - 1);
      if t.Some? && Reached(bytes, h, n - 1) then
        assert SectionDefined(bytes, h, shstr, n - 1);
        var s := SectionAt(bytes, h, n - 1);
        Some(WithSection(t.value, h, n - 1, s, IsNamed(shstr, s), SectionName(bytes, h, shstr, n - 1)))
      else None
  }

  lemma {:induction false} TablesFail(bytes: seq<uint8>, h: Header, shstr: int, i: nat, n: nat)
    requires forall k: nat :: k < n ==> SectionDefined(bytes, h, shstr, k)
    requires i <= n && TablesUpTo(bytes, h, shstr, i) == None
    ensures TablesUpTo(bytes, h, shstr, n) == None
  {
    hide SectionDefined;
    hide SectionAt;
    hide WithSection;
    hide Reached;
    if i < n { TablesFail(bytes, h, shstr, i, n - 1); }
  }

  /** The place of the section names. */
  function NamesOffset(bytes: seq<uint8>, h: Header): int
    requires Reached(bytes, h, h.shstrndx)
  {
    ToInt64(SectionAt(bytes, h, h.shstrndx).offset)
  }

  ghost predicate FileDefined(bytes: seq<uint8>, known: nat -> bool) {
    var h := HeaderOf(bytes, known);
    h.Some? ==>
      && h.value.shstrndx * h.value.shentsize < 0x8000_0000
      && (Reached(bytes, h.value, h.value.shstrndx) ==>
            forall i: nat :: i < h.value.shnum ==> SectionDefined(bytes, h.value, NamesOffset(bytes, h.value), i))
  }

  /** main up to the symbols: the object with its sections, symbol table and string table. */
  function ObjectIn(bytes: seq<uint8>, known: nat -> bool): Option<Object>
    requires FileDefined(bytes, known)
  {
    match HeaderOf(bytes, known)
    case None => None
    case Some(h) =>
      if !Reached(bytes, h, h.shstrndx) || h.shnum == 0 then None
      else match TablesUpTo(bytes, h, NamesOffset(bytes, h), h.shnum)
        case None => None
        case Some(t) =>
          if t.strtab == 0 then None
          else Some(Object(bytes, h.is32, h.little, t.sections, t.symtab, t.entsize, t.numSymbols, t.strtab))
  }

  /** Symbols are read from their table: with entries of the size of a symbol, the i-th is the entry
      behind the null symbol and i others, and the last of them is the last of the section. */
  lemma SymbolsInSection(t: Tables, h: Header, i: nat, s: SectionHeader, name: cstring, bytes: seq<uint8>, k: nat)
    requires s.kind == SHT_SYMTAB && s.entsize == SymbolLen(h.is32)
    requires s.size % s.entsize == 0 && s.size > 0 && s.offset + s.size < 0x8000_0000
    requires k < WithSection(t, h, i, s, true, name).numSymbols
    ensures var u := WithSection(t, h, i, s, true, name);
      var o := Object(bytes, h.is32, h.little, u.sections, u.symtab, u.entsize, u.numSymbols, u.strtab);
      && (u.numSymbols + 1) * s.entsize == s.size
      && SymbolOffset(o, k) == s.offset + (k + 1) * s.entsize
      && s.offset <= SymbolOffset(o, k) && SymbolOffset(o, k) + SymbolLen(o.is32) <= s.offset + s.size
  {
    EntriesInSection(s.size, s.entsize);
    FromTable(t, h, i, s, name);
    hide WithSection;
    hide SymbolLen;
    EntryInSection(s.size, s.entsize, k);
  }

  lemma FromTable(t: Tables, h: Header, i: nat, s: SectionHeader, name: cstring)
    requires s.kind == SHT_SYMTAB && s.entsize == SymbolLen(h.is32)
    requires s.offset + s.entsize < 0x8000_0000 && 0 <= s.size / s.entsize - 1 < 0x8000_0000
    ensures var u := WithSection(t, h, i, s, true, name);
      u.symtab == s.offset + s.entsize && u.entsize == s.entsize && u.numSymbols == s.size / s.entsize - 1
  {
  }

  /** Without the first, the entries of a section. */
  lemma EntriesInSection(size: nat, e: nat)
    requires e > 0 && size % e == 0 && 0 < size < 0x8000_0000
    ensures 0 <= size / e - 1 < 0x8000_0000 && size / e * e == size && e <= size
  {
    var n := size / e;
    assert size == n * e;
    if n >= 1 { assert n * e == (n - 1) * e + e; }
  }

  lemma EntryInSection(size: nat, e: nat, k: nat)
    requires e > 0 && size / e * e == size && k + 1 < size / e
    ensures (k + 1) * e == k * e + e && (k + 1) * e + e <= size
  {
    Monotone(k + 2, size / e, e);
    Next(k, e);
    Next(k + 1, e);
  }

  lemma Next(k: nat, e: nat)
    ensures (k + 1) * e == k * e + e
  {
  }

  lemma {:induction false} Monotone(a: nat, b: nat, e: nat)
    requires a <= b
    ensures a * e <= b * e
  {
    if a < b {
      Monotone(a, b - 1, e);
      Next(b - 1, e);
    }
  }
}
