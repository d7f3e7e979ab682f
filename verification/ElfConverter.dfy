/** The passes of elf2cfetbl.c over an object file, on a machine of either byte order. */
module ElfConverter {
  import opened Wrappers
  import opened Bytes
  import opened ElfFields
  import opened ElfTableFile
  import opened ElfSections
  import opened ElfLoader
  import opened ElfInput

  /** Both machines read the same symbol from the file: if they differ in byte order, after swapping it. */
  lemma SymbolReads(b: seq<uint8>, is32: bool, thisLittle: bool, targetLittle: bool)
    requires |b| == SymbolLen(is32)
    ensures var read := if thisLittle != targetLittle then SwappedUpTo(b, SymbolFields(is32), 4) else b;
      SymbolIn(read, is32, thisLittle) == SymbolIn(b, is32, targetLittle)
  {
    var f := SymbolFields(is32);
    SwapReads(b, f, ST_NAME, thisLittle, targetLittle);
    SwapReads(b, f, ST_VALUE, thisLittle, targetLittle);
    SwapReads(b, f, ST_SIZE, thisLittle, targetLittle);
    SwapReads(b, f, ST_SHNDX, thisLittle, targetLittle);
    hide Value;
    hide SymbolFields;
    hide Get;
    hide SwappedUpTo;
  }

  lemma OnlyFirstMatch(t: seq<Named>, wanted: cstring, i: nat)
    requires i <= |t| && (i < |t| ==> Matches(t[i].name, wanted))
    requires forall k :: 0 <= k < i ==> !Matches(t[k].name, wanted)
    ensures ObjectIndex(t, wanted) == i
  {
    ObjectIndexIsFirst(t, wanted);
  }

  /** The memory of a machine that stores a word. */
  function Stored32(x: uint32, little: bool): (b: seq<uint8>)
    ensures |b| == 4
  {
    if little then Little32(x) else Big32(x)
  }

  lemma StoredSwapped(x: uint32)
    ensures Swapped(Little32(x), Field(0, 4)) == Big32(x)
  {
    var b := Little32(x);
    forall i | 0 <= i < 4 ensures Swapped(b, Field(0, 4))[i] == Big32(x)[i] {
      assert Get(b, Field(0, 4)) == b;
      ReversedAt(b, i);
    }
  }

  /** A string cut off by a terminator in the last element of its array. */
  lemma {:induction false} CutByTerminator(b: seq<uint8>)
    ensures CString(b + [0]) == CString(b)
  {
    if b != [] && b[0] != 0 {
      assert (b + [0])[1..] == b[1..] + [0];
      CutByTerminator(b[1..]);
    }
  }

  /** A place that fseek can reach: below 2^31. */
  lemma Seekable(at: uint64)
    ensures var s: int := ToInt32(at); s % 0x1_0000_0000_0000_0000 == at && s >= 0 <==> at < 0x8000_0000
    ensures at < 0x8000_0000 ==> ToInt32(at) == at
  {
  }

  lemma NameSeeks(o: Object, symbol: Symbol, behind: nat)
    ensures var seekOffset := ToInt32((o.strtab + symbol.name) % 0x1_0000_0000_0000_0000);
      NameOffset(o, symbol, behind) == if seekOffset >= 0 then seekOffset else behind
  {
    LowWord(o.strtab + symbol.name);
  }

  lemma LowWord(x: nat)
    ensures x % 0x1_0000_0000_0000_0000 % WRAP32 == x % WRAP32
  {
    var q := x / 0x1_0000_0000_0000_0000;
    assert x == x % 0x1_0000_0000_0000_0000 + WRAP32 * (WRAP32 * q);
  }

  lemma DefIndexStep(t: seq<Named>, n: Named)
    ensures DefIndex(t + [n]) == if IsDefName(n.name) then |t| else DefIndex(t)
  {
    assert (t + [n])[..|t|] == t;
  }

  /** The globals of the program, after the header and the sections have been read. */
  class Converter {
    const o: Object
    const thisLittle: bool
    var pos: nat
    var table: seq<Named>
    var tblDefSymbolIndex: int
    var def: FileDef
    var userObjSymbolIndex: int
    var allZeros: bool
    var dst: seq<uint8>

    constructor (o: Object, thisLittle: bool)
      ensures this.o == o && this.thisLittle == thisLittle
      ensures table == [] && tblDefSymbolIndex == -1 && !allZeros && dst == []
    {
      this.o := o;
      this.thisLittle := thisLittle;
      pos := 0;
      table, tblDefSymbolIndex := [], -1;
      def := FileDef([], [], [], [], 0);
      userObjSymbolIndex := -1;
      allZeros := false;
      dst := [];
    }

    /** fread of some bytes into memory. */
    method Read(n: nat) returns (image: array?<uint8>)
      modifies this`pos
      ensures image != null <==> old(pos) + n <= |o.bytes|
      ensures image != null ==> fresh(image) && image[..] == o.bytes[old(pos)..old(pos) + n] && pos == old(pos) + n
    {
      image := ReadImage(o.bytes, pos, n);
      if image != null {
        pos := pos + n;
      }
    }

    /** GetSymbol. */
    method GetSymbol(i: nat) returns (ok: bool)
      requires i == |table| && tblDefSymbolIndex == DefIndex(table)
      modifies this`pos, this`table, this`tblDefSymbolIndex
      ensures ok <==> SymbolAt(o, i).Some?
      ensures ok ==> table == old(table) + [SymbolAt(o, i).value] && tblDefSymbolIndex == DefIndex(table)
      ensures !ok ==> table == old(table)
      ensures var place: nat := (o.symtab + i * o.entsize) % 0x1_0000_0000_0000_0000;
        var end := place + SymbolLen(o.is32);
        && (ok <==> place < 0x8000_0000 && end <= |o.bytes|)
        && (ok ==>
              var s := SymbolIn(o.bytes[place..end], o.is32, o.little);
              var low := (o.strtab + s.name) % WRAP32;
              table[i] == Named(s, NameFrom(o.bytes, if low < 0x8000_0000 then low else end, VERBOSE_STR_LEN)))
    {
      SymbolAtIs(o, i);
      hide SymbolIn;
      hide NameFrom;
      hide NameOffset;
      hide SymbolLen;
      hide DefIndex;
      var at: uint64 := SymbolOffset(o, i);
      hide SymbolOffset;
      var seekOffset: int := ToInt32(at);
      Seekable(at);
      hide ToInt32;
      // The comparison is made in uint64; fseek refuses a negative offset
      if seekOffset % 0x1_0000_0000_0000_0000 != at || seekOffset < 0 {
        return false;
      }
      pos := seekOffset;
      var got := ReadSymbol();
      if got == None {
        return false;
      }
      var name := ReadName(got.value);
      if IsDefName(name) {
        tblDefSymbolIndex := i;
      }
      DefIndexStep(table, Named(got.value, name));
      table := table + [Named(got.value, name)];
      ok := true;
    }

    /** Reads the symbol at the file position. */
    method ReadSymbol() returns (symbol: Option<Symbol>)
      modifies this`pos
      ensures var end := old(pos) + SymbolLen(o.is32);
        && (symbol.Some? <==> end <= |o.bytes|)
        && (symbol.Some? ==> pos == end && symbol.value == SymbolIn(o.bytes[old(pos)..end], o.is32, o.little))
    {
      hide SymbolIn;
      hide SymbolFields;
      hide SwappedUpTo;
      ghost var at := pos;
      var image := Read(SymbolLen(o.is32));
      if image == null {
        return None;
      }
      ghost var b := image[..];
      if thisLittle != o.little {
        SwapSymbol(image, o.is32);
      }
      SymbolReads(b, o.is32, thisLittle, o.little);
      symbol := Some(SymbolIn(image[..], o.is32, thisLittle));
    }

    /** The part of GetSymbol that reads the name. */
    method ReadName(symbol: Symbol) returns (name: cstring)
      modifies this`pos
      ensures name == NameFrom(o.bytes, NameOffset(o, symbol, old(pos)), VERBOSE_STR_LEN)
    {
      hide NameFrom;
      NameSeeks(o, symbol, pos);
      var seekOffset := ToInt32((o.strtab + symbol.name) % 0x1_0000_0000_0000_0000);
      hide ToInt32;
      hide NameOffset;
      if seekOffset >= 0 {
        pos := seekOffset;
      }
      name := ReadString(o.bytes, pos, VERBOSE_STR_LEN);
      pos := pos + |name|;
    }

    /** The loop of main over the symbols. */
    method GetSymbols() returns (ok: bool)
      requires table == [] && tblDefSymbolIndex == -1
      modifies this`pos, this`table, this`tblDefSymbolIndex
      ensures ok <==> Symbols(o, o.numSymbols).Some?
      ensures ok ==> table == Symbols(o, o.numSymbols).value && tblDefSymbolIndex == DefIndex(table)
    {
      var i := 0;
      while i < o.numSymbols
        invariant i <= o.numSymbols && |table| == i
        invariant Symbols(o, i) == Some(table) && tblDefSymbolIndex == DefIndex(table)
      {
        var got := GetSymbol(i);
        if !got {
          SymbolsFail(o, i + 1, o.numSymbols);
          return false;
        }
        i := i + 1;
      }
      ok := true;
    }

    /** GetTblDefInfo. */
    method GetTblDefInfo() returns (ok: bool)
      requires 0 <= tblDefSymbolIndex < |table| && table[tblDefSymbolIndex].symbol.shndx < |o.sections|
      modifies this`pos, this`def
      ensures var r := FileDefAt(o, table[tblDefSymbolIndex].symbol); (ok <==> r.Some?) && (ok ==> def == r.value)
      ensures var s := table[tblDefSymbolIndex].symbol;
        var at := (o.sections[s.shndx].offset + s.value) % 0x1_0000_0000_0000_0000;
        && (ok <==> (s.size == 160 || s.size == 0) && at < WRAP32 && at + 160 <= |o.bytes|)
        && (ok ==> def == FileDefIn(o.bytes[at..at + 160], o.little))
    {
      hide FileDefIn;
      var symbol := table[tblDefSymbolIndex].symbol;
      if symbol.size != FILE_DEF_LEN && symbol.size != 0 {
        return false;
      }
      var calculated: uint64 := ContentOffset(o, symbol);
      var seekOffset := calculated % WRAP32;
      ok := seekOffset == calculated;
      pos := seekOffset;
      var image := Read(FILE_DEF_LEN);
      if image == null {
        return false;
      }
      def := Terminated(image);
    }

    /** Ends the strings of a table definition in memory and brings its size into the order of the machine. */
    method Terminated(image: array<uint8>) returns (def: FileDef)
      requires image.Length == FILE_DEF_LEN
      modifies image
      ensures def == FileDefIn(old(image[..]), o.little)
    {
      ghost var b := image[..];
      image[63] := 0;
      image[103] := 0;
      image[135] := 0;
      image[155] := 0;
      CutByTerminator(b[0..63]);
      CutByTerminator(b[64..103]);
      CutByTerminator(b[104..135]);
      CutByTerminator(b[136..155]);
      var objectName, tableName := CString(image[0..64]), CString(image[64..104]);
      var description, tgtFilename := CString(image[104..136]), CString(image[136..156]);
      assert image[0..64] == b[0..63] + [0] && image[64..104] == b[64..103] + [0];
      assert image[104..136] == b[104..135] + [0] && image[136..156] == b[136..155] + [0];
      assert image[156..160] == b[156..160];
      ghost var size := image[..];
      if thisLittle != o.little {
        SwapUInt32(image, 156);
        SwappedGet(size, Field(156, 4), Field(156, 4));
        ValueSwapped(b[156..160], thisLittle);
      }
      assert image[156..160] == Get(image[..], Field(156, 4)) && Get(size, Field(156, 4)) == b[156..160];
      ValueBelow(image[156..160], thisLittle);
      Limits();
      def := FileDef(objectName, tableName, description, tgtFilename, Value(image[156..160], thisLittle));
    }

    /** The search of LocateAndReadUserObject. */
    method FindUserObject() returns (i: nat)
      ensures i == ObjectIndex(table, def.objectName) <= |table|
    {
      i := 0;
      while i < |table|
        invariant i <= |table| && forall k :: 0 <= k < i ==> !Matches(table[k].name, def.objectName)
      {
        var name := table[i].name;
        if def.objectName <= name {
          if |name| - |def.objectName| == 1 {
            if !IsPrint(CharAt(name, |name|)) {
              break;
            }
          } else if |name| - |def.objectName| == 0 {
            break;
          }
        }
        i := i + 1;
      }
      OnlyFirstMatch(table, def.objectName, i);
    }

    /** LocateAndReadUserObject: leaves the size of the table in its symbol. */
    method LocateAndReadUserObject() returns (ok: bool)
      requires !allZeros
      requires var u := ObjectIndex(table, def.objectName);
        u < |table| ==> table[u].symbol.shndx < |o.sections|
      modifies this`pos, this`table, this`userObjSymbolIndex, this`allZeros
      ensures var t := old(table);
        var u := ObjectIndex(t, def.objectName);
        ok <==>
          && u < |t|
          && var s := t[u].symbol;
             || o.sections[s.shndx].name == BSS
             || (o.sections[s.shndx].offset + s.value) % 0x1_0000_0000_0000_0000 < WRAP32
      ensures ok ==>
        var u := ObjectIndex(old(table), def.objectName);
        && u < |old(table)| == |table| && userObjSymbolIndex == u
        && var s := old(table)[u].symbol;
        && allZeros == (o.sections[s.shndx].name == BSS)
        && table[u].symbol.size ==
             (if allZeros then s.size else if s.size == 0 then def.objectSize else Min(s.size, def.objectSize))
        && (!allZeros ==> pos == (o.sections[s.shndx].offset + s.value) % 0x1_0000_0000_0000_0000)
    {
      var i := FindUserObject();
      if i == |table| {
        return false;
      }
      userObjSymbolIndex := i;
      var s := table[i].symbol;
      if InBss(o, s) {
        allZeros := true;
        ok := true;
      } else {
        var calculated := ContentOffset(o, s);
        var seekOffset := calculated % WRAP32;
        ok := seekOffset == calculated;
        pos := seekOffset;
        if s.size != 0 {
          if s.size != def.objectSize {
            if def.objectSize < s.size {
              table := table[i := table[i].(symbol := s.(size := def.objectSize))];
            }
          }
        } else {
          table := table[i := table[i].(symbol := s.(size := def.objectSize))];
        }
      }
    }

    /** Stores a word of a header, swaps it on a little-endian machine, and writes it. */
    method WriteWord(x: uint32)
      modifies this`dst
      ensures dst == old(dst) + Big32(x)
    {
      ghost var b := Stored32(x, thisLittle);
      var image := new uint8[4];
      image[0], image[1], image[2], image[3] :=
        Stored32(x, thisLittle)[0], Stored32(x, thisLittle)[1], Stored32(x, thisLittle)[2], Stored32(x, thisLittle)[3];
      assert image[..] == b;
      if thisLittle {
        SwapUInt32(image, 0);
        StoredSwapped(x);
      }
      dst := dst + image[..];
    }

    /** OutputDataToTargetFile. */
    method OutputDataToTargetFile(opt: Options)
      requires Cut(opt) && Fits(def) && 0 <= userObjSymbolIndex < |table|
      requires table[userObjSymbolIndex].symbol.size < 0x8000_0000
      modifies this`dst, this`pos
      ensures var n := table[userObjSymbolIndex].symbol.size;
        dst == old(dst) + FileHeaderImage(FileHeaderFor(def, opt)) + TableHeaderImage(TableHeaderFor(def, opt, n))
          + if allZeros then Zeros(n) else BytesFrom(o.bytes, old(pos), n)
    {
      var n := table[userObjSymbolIndex].symbol.size;
      WriteFileHeader(FileHeaderFor(def, opt));
      WriteTableHeader(TableHeaderFor(def, opt, n));
      WritePayload(n);
    }

    method WriteFileHeader(h: FileHeader)
      requires |h.description| < DESCRIPTION_LEN
      modifies this`dst
      ensures dst == old(dst) + FileHeaderImage(h)
    {
      hide Big32;
      hide NameOver;
      WriteWord(h.contentType);
      WriteWord(h.subType);
      WriteWord(h.length);
      WriteWord(h.spacecraftId);
      WriteWord(h.processorId);
      WriteWord(h.applicationId);
      WriteWord(h.timeSeconds);
      WriteWord(h.timeSubSeconds);
      dst := dst + NameOver(h.description, Zeros(DESCRIPTION_LEN));
      assert dst == old(dst) + FileHeaderImage(h);
    }

    method WriteTableHeader(h: TableHeader)
      requires |h.tableName| < TABLE_NAME_LEN
      modifies this`dst
      ensures dst == old(dst) + TableHeaderImage(h)
    {
      hide Big32;
      hide NameOver;
      WriteWord(h.reserved);
      WriteWord(h.offset);
      WriteWord(h.numBytes);
      dst := dst + NameOver(h.tableName, Zeros(TABLE_NAME_LEN));
      assert dst == old(dst) + TableHeaderImage(h);
    }

    method WritePayload(n: nat)
      modifies this`dst, this`pos
      ensures dst == old(dst) + if allZeros then Zeros(n) else BytesFrom(o.bytes, old(pos), n)
    {
      var i := 0;
      if allZeros {
        while i < n
          invariant i <= n && dst == old(dst) + Zeros(i)
        {
          dst := dst + [0];
          assert Zeros(i + 1) == Zeros(i) + [0];
          i := i + 1;
        }
      } else {
        while i < n
          invariant i <= n && pos == old(pos) + i && dst == old(dst) + BytesFrom(o.bytes, old(pos), i)
        {
          dst := dst + [ByteAt(o.bytes, pos)];
          pos := pos + 1;
          i := i + 1;
        }
      }
    }

    /** main, from the symbols on: it succeeds exactly when it can select a table, and then writes
        the table file of that selection, whatever the order of the machine it runs on. */
    method Convert(opt: Options) returns (ok: bool)
      requires Defined(o) && Cut(opt)
      requires table == [] && tblDefSymbolIndex == -1 && !allZeros && dst == []
      modifies this
      ensures ok <==> Selected(o).Some?
      ensures ok ==> Fits(Selected(o).value.def) && dst == TableFile(o, opt, Selected(o).value)
      ensures !ok ==> dst == []
    {
      hide Symbols;
      hide DefIndex;
      hide ObjectIndex;
      hide FileDefAt;
      hide FileHeaderImage;
      hide TableHeaderImage;
      hide BytesFrom;
      if o.numSymbols == 0 {
        return false;
      }
      ok := GetSymbols();
      if !ok {
        return;
      }
      ghost var t := table;
      DefIndexIsLast(t);
      if tblDefSymbolIndex == -1 {
        return false;
      }
      ok := GetTblDefInfo();
      if !ok {
        return;
      }
      ObjectIndexIsFirst(t, def.objectName);
      ok := LocateAndReadUserObject();
      if !ok {
        return;
      }
      SelectedFits(o);
      OutputDataToTargetFile(opt);
    }
  }

  /** What the program makes of a file. */
  function TableFileOf(bytes: seq<uint8>, known: nat -> bool, opt: Options): Option<seq<uint8>>
    requires FileDefined(bytes, known) && Cut(opt)
    requires var o := ObjectIn(bytes, known); o.Some? ==> Defined(o.value)
  {
    match ObjectIn(bytes, known)
    case None => None
    case Some(o) =>
      match Selected(o)
      case None => None
      case Some(sel) =>
        SelectedFits(o);
        Some(TableFile(o, opt, sel))
  }

  /** main: the same table file, or the same failure, on machines of both orders. */
  method ConvertFile(bytes: seq<uint8>, known: nat -> bool, thisLittle: bool, opt: Options)
    returns (dst: Option<seq<uint8>>)
    requires FileDefined(bytes, known) && Cut(opt)
    requires var o := ObjectIn(bytes, known); o.Some? ==> Defined(o.value)
    ensures dst == TableFileOf(bytes, known, opt)
  {
    hide Defined;
    hide FileDefined;
    hide Selected;
    hide TableFile;
    var loader := new Loader(bytes, known, thisLittle);
    var o := loader.Load();
    if o == None {
      return None;
    }
    var converter := new Converter(o.value, thisLittle);
    var ok := converter.Convert(opt);
    dst := if ok then Some(converter.dst) else None;
  }
}
