/** The first passes of elf2cfetbl.c, over the header and the sections of an object file, on a
    machine of either byte order. */
module ElfLoader {
  import opened Wrappers
  import opened Bytes
  import opened ElfFields
  import opened ElfTableFile
  import opened ElfSections
  import opened ElfInput

  /** A member of the ELF header reads the same on both machines. */
  lemma HeaderReads(b: seq<uint8>, is32: bool, k: nat, thisLittle: bool, targetLittle: bool)
    requires |b| == HeaderLen(is32) && k < 13
    ensures var read := if thisLittle != targetLittle then SwappedUpTo(b, HeaderFields(is32), 13) else b;
      Member(read, HeaderFields(is32), k, thisLittle) == Member(b, HeaderFields(is32), k, targetLittle)
  {
    SwapReads(b, HeaderFields(is32), k, thisLittle, targetLittle);
  }

  /** So does a member of a section header. */
  lemma SectionReads(b: seq<uint8>, is32: bool, k: nat, thisLittle: bool, targetLittle: bool)
    requires |b| == SectionLen(is32) && k < 10
    ensures var read := if thisLittle != targetLittle then SwappedUpTo(b, SectionFields(is32), 10) else b;
      Member(read, SectionFields(is32), k, thisLittle) == Member(b, SectionFields(is32), k, targetLittle)
  {
    SwapReads(b, SectionFields(is32), k, thisLittle, targetLittle);
  }

  class Loader {
    const bytes: seq<uint8>
    const known: nat -> bool
    const thisLittle: bool
    var header: Header
    var shstr: int
    var tables: Tables

    constructor (bytes: seq<uint8>, known: nat -> bool, thisLittle: bool)
      ensures this.bytes == bytes && this.known == known && this.thisLittle == thisLittle
      ensures shstr == 0 && tables == NO_TABLES
    {
      this.bytes := bytes;
      this.known := known;
      this.thisLittle := thisLittle;
      header := Header(true, true, 0, 0, 0, 0);
      shstr := 0;
      tables := NO_TABLES;
    }

    /** GetElfHeader. */
    method GetElfHeader() returns (ok: bool)
      modifies this`header
      ensures ok <==> HeaderOf(bytes, known).Some?
      ensures ok ==> header == HeaderOf(bytes, known).value
    {
      hide Member;
      hide HeaderFields;
      hide SwappedUpTo;
      if |bytes| < EI_NIDENT {
        return false;
      }
      if bytes[0] != 0x7f || bytes[1] != 0x45 || bytes[2] != 0x4c || bytes[3] != 0x46 {
        return false;
      }
      if bytes[4] != 1 && bytes[4] != 2 {
        return false;
      }
      if bytes[5] != 1 && bytes[5] != 2 {
        return false;
      }
      if bytes[6] != 1 {
        return false;
      }
      var is32, little := bytes[4] == 1, bytes[5] == 1;
      var image := ReadImage(bytes, 0, HeaderLen(is32));
      if image == null {
        return false;
      }
      ghost var b := image[..];
      assert b == bytes[..HeaderLen(is32)];
      if thisLittle != little {
        SwapElfHeader(image, is32);
      }
      forall k: nat | k < 13
        ensures Member(image[..], HeaderFields(is32), k, thisLittle) == Member(b, HeaderFields(is32), k, little)
      {
        HeaderReads(b, is32, k, thisLittle, little);
      }
      var f := HeaderFields(is32);
      if Member(image[..], f, E_TYPE, thisLittle) > 4 {
        return false;
      }
      if !known(Member(image[..], f, E_MACHINE, thisLittle)) {
        return false;
      }
      if Member(image[..], f, E_VERSION, thisLittle) != 1 {
        return false;
      }
      header := HeaderIn(image[..], is32, thisLittle).(little := little);
      ok := true;
    }

    /** The part of GetSectionHeader that reads the header. */
    method ReadSectionHeader(i: nat) returns (s: Option<SectionHeader>)
      ensures s.Some? <==> Reached(bytes, header, i)
      ensures s.Some? ==> s.value == SectionAt(bytes, header, i)
    {
      hide Member;
      hide SectionFields;
      hide SwappedUpTo;
      var seekOffset := SectionOffset(header, i);
      // fseek refuses a negative offset
      if seekOffset < 0 {
        return None;
      }
      var image := ReadImage(bytes, seekOffset, SectionLen(header.is32));
      if image == null {
        return None;
      }
      ghost var b := image[..];
      if thisLittle != header.little {
        SwapSectionHeader(image, header.is32);
      }
      forall k: nat | k < 10
        ensures Member(image[..], SectionFields(header.is32), k, thisLittle) ==
          Member(b, SectionFields(header.is32), k, header.little)
      {
        SectionReads(b, header.is32, k, thisLittle, header.little);
      }
      s := Some(SectionIn(image[..], header.is32, thisLittle));
    }

    /** GetSectionHeader for a section of the file. */
    method GetSectionHeader(i: nat) returns (ok: bool)
      requires SectionDefined(bytes, header, shstr, i)
      modifies this`tables
      ensures ok <==> Reached(bytes, header, i)
      ensures ok ==>
        var s := SectionAt(bytes, header, i);
        && (IsNamed(shstr, s) && s.kind == SHT_SYMTAB ==> s.entsize > 0)
        && tables == WithSection(old(tables), header, i, s, IsNamed(shstr, s), SectionName(bytes, header, shstr, i))
    {
      hide NameFrom;
      hide SectionOffset;
      hide SectionNameOffset;
      hide SectionAt;
      hide Terminated;
      hide ToInt32;
      hide To64;
      hide SymbolCount;
      var got := ReadSectionHeader(i);
      if got == None {
        return false;
      }
      var s := got.value;
      var name: cstring := [];
      if shstr != 0 && s.name != 0 {
        name := ReadString(bytes, SectionNameOffset(shstr, s, SectionOffset(header, i) + SectionLen(header.is32)),
          VERBOSE_STR_LEN);
        if s.kind == SHT_SYMTAB {
          tables := tables.(symtab := ToInt32(s.offset + SymbolLen(header.is32)), entsize := To64(s.entsize),
                            numSymbols := SymbolCount(s));
        } else if s.kind == SHT_STRTAB {
          if name == STRTAB || (tables.strtab == 0 && i != header.shstrndx) {
            tables := tables.(strtab := To64(s.offset));
          }
        }
      }
      tables := tables.(sections := tables.sections + [Section(To64(s.offset), name)]);
      ok := true;
    }

    /** main up to the symbols. */
    method Load() returns (o: Option<Object>)
      requires FileDefined(bytes, known) && shstr == 0 && tables == NO_TABLES
      modifies this
      ensures o == ObjectIn(bytes, known)
    {
      hide SectionDefined;
      hide HeaderOf;
      hide WithSection;
      hide SectionName;
      hide SectionAt;
      hide Reached;
      var ok := GetElfHeader();
      if !ok {
        return None;
      }
      var first := ReadSectionHeader(header.shstrndx);
      if first == None {
        return None;
      }
      shstr := ToInt64(first.value.offset);
      if header.shnum == 0 {
        return None;
      }
      var i := 0;
      while i < header.shnum
        invariant i <= header.shnum && Some(header) == HeaderOf(bytes, known) && shstr == NamesOffset(bytes, header)
        invariant TablesUpTo(bytes, header, shstr, i) == Some(tables)
      {
        assert SectionDefined(bytes, header, shstr, i);
        var got := GetSectionHeader(i);
        if !got {
          TablesFail(bytes, header, shstr, i + 1, header.shnum);
          return None;
        }
        i := i + 1;
      }
      if tables.strtab == 0 {
        return None;
      }
      o := Some(Object(bytes, header.is32, header.little, tables.sections, tables.symtab, tables.entsize,
        tables.numSymbols,
                       tables.strtab));
    }
  }
}
