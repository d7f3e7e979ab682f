/** What elf2cfetbl.c makes of an ELF object: the symbols it reads, the table definition, the
    object it selects, and the table file. Nothing here depends on the machine it runs on. */
module ElfTableFile {
  import opened Wrappers
  import opened Bytes
  import opened ElfFields

  // "CFE_TBL_FileDef" and ".bss"
  const TBL_DEF_SYMBOL_NAME: cstring :=
    ['C' as uint8, 'F' as uint8, 'E' as uint8, '_' as uint8, 'T' as uint8, 'B' as uint8, 'L' as uint8, '_' as uint8,
     'F' as uint8, 'i' as uint8, 'l' as uint8, 'e' as uint8, 'D' as uint8, 'e' as uint8, 'f' as uint8]
  const BSS: cstring := ['.' as uint8, 'b' as uint8, 's' as uint8, 's' as uint8]

  const VERBOSE_STR_LEN := 60

  datatype Symbol = Symbol(name: nat, value: nat, size: nat, shndx: nat)

  datatype Section = Section(offset: uint64, name: cstring)

  /** An object file whose header and sections have been read: its class and data encoding, the
      sections, and where the symbol table and the symbol names are. */
  datatype Object = Object(bytes: seq<uint8>, is32: bool, little: bool, sections: seq<Section>,
                           symtab: int32, entsize: uint64, numSymbols: nat, strtab: uint64)

  /** A symbol with its name. */
  datatype Named = Named(symbol: Symbol, name: cstring)

  /** The members of a symbol, with integers in the given order. */
  function SymbolIn(b: seq<uint8>, is32: bool, little: bool): Symbol
    requires |b| == SymbolLen(is32)
  {
    var f := SymbolFields(is32);
    Symbol(Value(Get(b, f[ST_NAME]), little), Value(Get(b, f[ST_VALUE]), little),
           Value(Get(b, f[ST_SIZE]), little), Value(Get(b, f[ST_SHNDX]), little))
  }

  /** A byte of the file, or what fgetc gives at its end. */
  function ByteAt(bytes: seq<uint8>, at: nat): uint8 {
    if at < |bytes| then bytes[at] else 0xff
  }

  function BytesFrom(bytes: seq<uint8>, at: nat, n: nat): (r: seq<uint8>)
    ensures |r| == n
  {
    if n == 0 then [] else BytesFrom(bytes, at, n - 1) + [ByteAt(bytes, at + n - 1)]
  }

  /** Inside the file these are its bytes, and behind its end 0xff. */
  lemma {:induction false} BytesAre(bytes: seq<uint8>, at: nat, n: nat)
    ensures forall k :: 0 <= k < n ==> BytesFrom(bytes, at, n)[k] == if at + k < |bytes| then bytes[at + k] else 0xff
    ensures at + n <= |bytes| ==> BytesFrom(bytes, at, n) == bytes[at..at + n]
  {
    if n > 0 { BytesAre(bytes, at, n - 1); }
  }

  /** The string at a place in the file, up to a number of characters. */
  function NameFrom(bytes: seq<uint8>, at: nat, max: nat): cstring
    decreases max
  {
    if max == 0 || ByteAt(bytes, at) == 0 then [] else [ByteAt(bytes, at)] + NameFrom(bytes, at + 1, max - 1)
  }

  /** It ends in front of the first zero, or with its last character. */
  lemma {:induction false} NameIs(bytes: seq<uint8>, at: nat, max: nat)
    ensures var name := NameFrom(bytes, at, max);
      && |name| <= max
      && (forall k :: 0 <= k < |name| ==> name[k] == if at + k < |bytes| then bytes[at + k] else 0xff)
      && (|name| < max ==> at + |name| < |bytes| && bytes[at + |name|] == 0)
    decreases max
  {
    if max > 0 && ByteAt(bytes, at) != 0 { NameIs(bytes, at + 1, max - 1); }
  }

  /** Where a symbol is: a sum in 64 bits. */
  function SymbolOffset(o: Object, i: nat): uint64 {
    (o.symtab + i * o.entsize) % 0x1_0000_0000_0000_0000
  }

  /** Where the name of a symbol is read. A place outside the range of int32 cannot be sought, and
      reading goes on behind the symbol. */
  function NameOffset(o: Object, s: Symbol, behind: nat): nat {
    var low := (o.strtab + s.name) % WRAP32;
    if low < 0x8000_0000 then low else behind
  }

  /** The place, the symbol and its name. */
  lemma SymbolAtIs(o: Object, i: nat)
    ensures var place: nat := (o.symtab + i * o.entsize) % 0x1_0000_0000_0000_0000;
      var end := place + SymbolLen(o.is32);
      && SymbolOffset(o, i) == place
      && (SymbolAt(o, i).Some? <==> place < 0x8000_0000 && end <= |o.bytes|)
      && (SymbolAt(o, i).Some? ==>
            var s := SymbolIn(o.bytes[place..end], o.is32, o.little);
            var low := (o.strtab + s.name) % WRAP32;
            SymbolAt(o, i).value ==
              Named(s, NameFrom(o.bytes, if low < 0x8000_0000 then low else end, VERBOSE_STR_LEN)))
  {
    hide SymbolIn;
    hide SymbolLen;
    hide NameFrom;
  }

  /** GetSymbol: fails outside the range of int32 and at the end of the file. */
  function SymbolAt(o: Object, i: nat): Option<Named> {
    var at := SymbolOffset(o, i);
    var n := SymbolLen(o.is32);
    if at < 0x8000_0000 && at + n <= |o.bytes| then
      var s := SymbolIn(o.bytes[at..at + n], o.is32, o.little);
      Some(Named(s, NameFrom(o.bytes, NameOffset(o, s, at + n), VERBOSE_STR_LEN)))
    else None
  }

  /** The first `n` symbols, if all can be read. */
  function Symbols(o: Object, n: nat): Option<seq<Named>> {
    if n == 0 then Some([])
    else
      var before := Symbols(o, n - 1);
      if before.Some? && SymbolAt(o, n - 1).Some? then Some(before.value + [SymbolAt(o, n - 1).value]) else None
  }

  lemma {:induction false} SymbolsLength(o: Object, n: nat)
    ensures Symbols(o, n).Some? ==> |Symbols(o, n).value| == n
  {
    hide SymbolAt;
    if n > 0 { SymbolsLength(o, n - 1); }
  }

  lemma {:induction false} SymbolsFail(o: Object, i: nat, n: nat)
    requires i <= n && Symbols(o, i) == None
    ensures Symbols(o, n) == None
  {
    hide SymbolAt;
    if i < n { SymbolsFail(o, i, n - 1); }
  }

  /** The name of the table definition, with or without a character in front. */
  predicate IsDefName(name: cstring) {
    name == TBL_DEF_SYMBOL_NAME || (name != [] && name[1..] == TBL_DEF_SYMBOL_NAME)
  }

  /** The table definition: the last symbol with its name, or -1. */
  function DefIndex(t: seq<Named>): int {
    if t == [] then -1 else if IsDefName(t[|t| - 1].name) then |t| - 1 else DefIndex(t[..|t| - 1])
  }

  lemma {:induction false} DefIndexIsLast(t: seq<Named>)
    ensures -1 <= DefIndex(t) < |t|
    ensures DefIndex(t) >= 0 ==> IsDefName(t[DefIndex(t)].name)
    ensures forall i :: DefIndex(t) < i < |t| ==> !IsDefName(t[i].name)
  {
    if t != [] && !IsDefName(t[|t| - 1].name) { DefIndexIsLast(t[..|t| - 1]); }
  }

  /** CFE_TBL_FileDef_t. */
  datatype FileDef = FileDef(objectName: cstring, tableName: cstring, description: cstring, tgtFilename: cstring,
                             objectSize: uint32)

  const OBJECT_NAME_LEN := 64
  const TABLE_NAME_LEN := 40
  const DESCRIPTION_LEN := 32
  const FILE_NAME_LEN := 20
  const FILE_DEF_LEN := OBJECT_NAME_LEN + TABLE_NAME_LEN + DESCRIPTION_LEN + FILE_NAME_LEN + 4

  /** A string of at most `n - 1` characters in an array of `n`. */
  function StringIn(b: seq<uint8>, at: nat, n: nat): cstring
    requires 0 < n && at + n <= |b|
  {
    CString(b[at..at + n - 1])
  }

  function FileDefIn(b: seq<uint8>, little: bool): FileDef
    requires |b| == FILE_DEF_LEN
  {
    Limits();
    ValueBelow(Get(b, Field(156, 4)), little);
    FileDef(StringIn(b, 0, OBJECT_NAME_LEN), StringIn(b, 64, TABLE_NAME_LEN), StringIn(b, 104, DESCRIPTION_LEN),
            StringIn(b, 136, FILE_NAME_LEN), Value(Get(b, Field(156, 4)), little))
  }

  /** Where the contents of a symbol are: a sum in 64 bits. */
  function ContentOffset(o: Object, s: Symbol): uint64
    requires s.shndx < |o.sections|
  {
    (o.sections[s.shndx].offset + s.value) % 0x1_0000_0000_0000_0000
  }

  /** GetTblDefInfo: fails on a wrong size, outside the range of uint32 and at the end of the file. */
  function FileDefAt(o: Object, s: Symbol): Option<FileDef>
    requires s.shndx < |o.sections|
  {
    var at := ContentOffset(o, s);
    if s.size != FILE_DEF_LEN && s.size != 0 then None
    else if at < WRAP32 && at + FILE_DEF_LEN <= |o.bytes| then
      Some(FileDefIn(o.bytes[at..at + FILE_DEF_LEN], o.little))
    else None
  }

  /** isprint in the C locale. */
  predicate IsPrint(c: uint8) {
    0x20 <= c < 0x7f
  }

  lemma IsPrintIs(c: uint8)
    ensures IsPrint(c) <==> ' ' <= c as char <= '~'
  {
  }

  /** A character of a C string; behind the last one is the terminator. */
  function CharAt(s: cstring, i: nat): uint8 {
    if i < |s| then s[i] else 0
  }

  /** The test of the search: the name of the object, exactly or with one character behind it for
      which a test is made of the character that the code reads, the one after it. */
  predicate Matches(name: cstring, wanted: cstring) {
    && wanted <= name
    && (|name| == |wanted| || (|name| - |wanted| == 1 && !IsPrint(CharAt(name, |name|))))
  }

  /** The test that the comments describe: the extra character must not be printable. */
  predicate MatchesAsDocumented(name: cstring, wanted: cstring) {
    && wanted <= name
    && (|name| == |wanted| || (|name| - |wanted| == 1 && !IsPrint(CharAt(name, |wanted|))))
  }

  /** The terminator is never printable, so every extra character passes. */
  lemma TerminatorPasses(name: cstring, wanted: cstring)
    ensures Matches(name, wanted) <==> wanted <= name && |name| <= |wanted| + 1
    ensures MatchesAsDocumented(name, wanted) <==> Matches(name, wanted) && !IsPrintableMore(name, wanted)
  {
  }

  /** The name of the object with one printable character behind it. */
  predicate IsPrintableMore(name: cstring, wanted: cstring) {
    wanted <= name && |name| == |wanted| + 1 && IsPrint(CharAt(name, |wanted|))
  }

  /** The object that the comments describe. */
  function DocumentedIndex(t: seq<Named>, wanted: cstring): nat {
    if t == [] then 0 else if MatchesAsDocumented(t[0].name, wanted) then 0 else 1 + DocumentedIndex(t[1..], wanted)
  }

  lemma {:induction false} DocumentedIndexIsFirst(t: seq<Named>, wanted: cstring)
    ensures DocumentedIndex(t, wanted) <= |t|
    ensures DocumentedIndex(t, wanted) < |t| ==> MatchesAsDocumented(t[DocumentedIndex(t, wanted)].name, wanted)
    ensures forall i :: 0 <= i < DocumentedIndex(t, wanted) ==> !MatchesAsDocumented(t[i].name, wanted)
  {
    if t != [] && !MatchesAsDocumented(t[0].name, wanted) { DocumentedIndexIsFirst(t[1..], wanted); }
  }

  /** The code selects the object that the comments describe if and only if no symbol in front of
      that is the name with a printable character behind it; otherwise it selects the first of these. */
  lemma SelectedAsDocumented(t: seq<Named>, wanted: cstring)
    ensures var doc := DocumentedIndex(t, wanted);
      && doc <= |t|
      && (ObjectIndex(t, wanted) == doc <==> forall i :: 0 <= i < doc ==> !IsPrintableMore(t[i].name, wanted))
    ensures ObjectIndex(t, wanted) != DocumentedIndex(t, wanted) ==>
      var u := ObjectIndex(t, wanted);
      u < DocumentedIndex(t, wanted) && u < |t| && IsPrintableMore(t[u].name, wanted)
  {
    ObjectIndexIsFirst(t, wanted);
    DocumentedIndexIsFirst(t, wanted);
    var u, doc := ObjectIndex(t, wanted), DocumentedIndex(t, wanted);
    forall i | 0 <= i < |t|
      ensures MatchesAsDocumented(t[i].name, wanted) <==>
        Matches(t[i].name, wanted) && !IsPrintableMore(t[i].name, wanted)
      ensures IsPrintableMore(t[i].name, wanted) ==> Matches(t[i].name, wanted)
    {
      TerminatorPasses(t[i].name, wanted);
    }
    hide Matches;
    hide MatchesAsDocumented;
    hide IsPrintableMore;
  }

  /** The failing input: a neighbour whose name is one letter longer is taken for the object, for all
      names that are read whole. */
  lemma LongerNeighbourSelected(wanted: cstring, c: uint8, neighbour: Symbol, own: Symbol)
    requires 0 < |wanted| < VERBOSE_STR_LEN - 1 && IsPrint(c)
    ensures var t := [Named(neighbour, wanted + [c]), Named(own, wanted)];
      ObjectIndex(t, wanted) == 0 && DocumentedIndex(t, wanted) == 1
  {
    var t := [Named(neighbour, wanted + [c]), Named(own, wanted)];
    TerminatorPasses(t[0].name, wanted);
    TerminatorPasses(t[1].name, wanted);
    assert t[1..] == [t[1]];
  }

  /** The object of the table: the first symbol that matches, or as many as there are. */
  function ObjectIndex(t: seq<Named>, wanted: cstring): nat {
    if t == [] then 0 else if Matches(t[0].name, wanted) then 0 else 1 + ObjectIndex(t[1..], wanted)
  }

  lemma {:induction false} ObjectIndexIsFirst(t: seq<Named>, wanted: cstring)
    ensures ObjectIndex(t, wanted) <= |t|
    ensures ObjectIndex(t, wanted) < |t| ==> Matches(t[ObjectIndex(t, wanted)].name, wanted)
    ensures forall i :: 0 <= i < ObjectIndex(t, wanted) ==> !Matches(t[i].name, wanted)
  {
    if t != [] && !Matches(t[0].name, wanted) { ObjectIndexIsFirst(t[1..], wanted); }
  }

  predicate InBss(o: Object, s: Symbol)
    requires s.shndx < |o.sections|
  {
    o.sections[s.shndx].name == BSS
  }

  /** The size of the table: what the ELF file says in .bss, otherwise the smaller of that and the
      definition, or the definition alone if the ELF file does not say. */
  function TableSize(o: Object, s: Symbol, def: FileDef): nat
    requires s.shndx < |o.sections|
  {
    if InBss(o, s) then s.size
    else if s.size != 0 && s.size <= def.objectSize then s.size
    else def.objectSize
  }

  /** The contents of the table. */
  function Payload(o: Object, s: Symbol, def: FileDef): (p: seq<uint8>)
    requires s.shndx < |o.sections|
    ensures |p| == TableSize(o, s, def)
  {
    if InBss(o, s) then Zeros(s.size) else BytesFrom(o.bytes, ContentOffset(o, s), TableSize(o, s, def))
  }

  // ---- The table file

  /** CFE_FS_Header_t. */
  datatype FileHeader = FileHeader(contentType: uint32, subType: uint32, length: uint32, spacecraftId: uint32,
                                   processorId: uint32, applicationId: uint32, timeSeconds: uint32,
                                   timeSubSeconds: uint32, description: cstring)

  /** CFE_TBL_File_Hdr_t. */
  datatype TableHeader = TableHeader(reserved: uint32, offset: uint32, numBytes: uint32, tableName: cstring)

  const FILE_HEADER_LEN := 8 * 4 + DESCRIPTION_LEN
  const TABLE_HEADER_LEN := 3 * 4 + TABLE_NAME_LEN

  const CONTENT_TYPE: uint32 := 0x63464531
  const TBL_IMG: uint32 := 8

  /** What the command line may set. */
  datatype Options = Options(spacecraftId: Option<uint32>, processorId: Option<uint32>, applicationId: Option<uint32>,
                             time: Option<uint32>, tableName: Option<cstring>, description: Option<cstring>)

  /** Names from the command line have been cut to their buffers. */
  predicate Cut(opt: Options) {
    && (opt.tableName.Some? ==> |opt.tableName.value| < 38)
    && (opt.description.Some? ==> |opt.description.value| < DESCRIPTION_LEN)
  }

  function FileHeaderFor(def: FileDef, opt: Options): FileHeader {
    FileHeader(CONTENT_TYPE, TBL_IMG, FILE_HEADER_LEN, opt.spacecraftId.GetOr(0), opt.processorId.GetOr(0),
               opt.applicationId.GetOr(0), opt.time.GetOr(0), 0, opt.description.GetOr(def.description))
  }

  function TableHeaderFor(def: FileDef, opt: Options, numBytes: uint32): TableHeader {
    TableHeader(0, 0, numBytes, opt.tableName.GetOr(def.tableName))
  }

  /** Both headers in the file: integers most significant byte first, strings padded with zeros. */
  function FileHeaderImage(h: FileHeader): (b: seq<uint8>)
    requires |h.description| < DESCRIPTION_LEN
    ensures |b| == FILE_HEADER_LEN
  {
    Big32(h.contentType) + Big32(h.subType) + Big32(h.length) + Big32(h.spacecraftId) + Big32(h.processorId)
    + Big32(h.applicationId) + Big32(h.timeSeconds) + Big32(h.timeSubSeconds)
    + NameOver(h.description, Zeros(DESCRIPTION_LEN))
  }

  function TableHeaderImage(h: TableHeader): (b: seq<uint8>)
    requires |h.tableName| < TABLE_NAME_LEN
    ensures |b| == TABLE_HEADER_LEN
  {
    Big32(h.reserved) + Big32(h.offset) + Big32(h.numBytes) + NameOver(h.tableName, Zeros(TABLE_NAME_LEN))
  }

  lemma FileHeaderReadsBack(h: FileHeader)
    requires |h.description| < DESCRIPTION_LEN
    ensures var b := FileHeaderImage(h);
      && FromBig32(b[0..4]) == h.contentType && FromBig32(b[4..8]) == h.subType && FromBig32(b[8..12]) == h.length
      && FromBig32(b[12..16]) == h.spacecraftId && FromBig32(b[16..20]) == h.processorId
      && FromBig32(b[20..24]) == h.applicationId && FromBig32(b[24..28]) == h.timeSeconds
      && FromBig32(b[28..32]) == h.timeSubSeconds && CString(b[32..64]) == h.description
  {
    var b := FileHeaderImage(h);
    Big32ReadBack(h.contentType);
    Big32ReadBack(h.subType);
    Big32ReadBack(h.length);
    Big32ReadBack(h.spacecraftId);
    Big32ReadBack(h.processorId);
    Big32ReadBack(h.applicationId);
    Big32ReadBack(h.timeSeconds);
    Big32ReadBack(h.timeSubSeconds);
    CStringOf(h.description, Zeros(DESCRIPTION_LEN)[|h.description| + 1..]);
    var name := NameOver(h.description, Zeros(DESCRIPTION_LEN));
    assert CString(name) == h.description;
    hide FromBig32;
    hide Big32;
    hide CString;
    hide NameOver;
    assert b[0..4] == Big32(h.contentType) && b[4..8] == Big32(h.subType) && b[8..12] == Big32(h.length);
    assert b[12..16] == Big32(h.spacecraftId) && b[16..20] == Big32(h.processorId)
      && b[20..24] == Big32(h.applicationId);
    assert b[24..28] == Big32(h.timeSeconds) && b[28..32] == Big32(h.timeSubSeconds) && b[32..64] == name;
  }

  lemma TableHeaderReadsBack(h: TableHeader)
    requires |h.tableName| < TABLE_NAME_LEN
    ensures var b := TableHeaderImage(h);
      && FromBig32(b[0..4]) == h.reserved && FromBig32(b[4..8]) == h.offset && FromBig32(b[8..12]) == h.numBytes
      && CString(b[12..52]) == h.tableName
  {
    var b := TableHeaderImage(h);
    Big32ReadBack(h.reserved);
    Big32ReadBack(h.offset);
    Big32ReadBack(h.numBytes);
    CStringOf(h.tableName, Zeros(TABLE_NAME_LEN)[|h.tableName| + 1..]);
    var name := NameOver(h.tableName, Zeros(TABLE_NAME_LEN));
    assert CString(name) == h.tableName;
    hide FromBig32;
    hide Big32;
    hide CString;
    hide NameOver;
    assert b[0..4] == Big32(h.reserved) && b[4..8] == Big32(h.offset) && b[8..12] == Big32(h.numBytes)
      && b[12..52] == name;
  }

  /** The symbol of the table definition and the table definition, the symbol of the table, and
      where its contents are. */
  datatype Selection = Selection(def: FileDef, symbol: Symbol)

  /** All sections that the conversion looks up exist, and the table is below 2^31 bytes. */
  ghost predicate Defined(o: Object) {
    var t := Symbols(o, o.numSymbols);
    t.Some? ==>
      var d := DefIndex(t.value);
      DefIndexIsLast(t.value);
      d >= 0 ==>
        && t.value[d].symbol.shndx < |o.sections|
        && var def := FileDefAt(o, t.value[d].symbol);
        def.Some? ==>
          var u := ObjectIndex(t.value, def.value.objectName);
          ObjectIndexIsFirst(t.value, def.value.objectName);
          u < |t.value| ==>
            && t.value[u].symbol.shndx < |o.sections|
            && TableSize(o, t.value[u].symbol, def.value) < 0x8000_0000
  }

  /** What the conversion selects: the last table definition, and the first symbol that matches it.
      Outside .bss its contents have to start in the range of uint32. */
  function Selected(o: Object): (r: Option<Selection>)
    requires Defined(o)
    ensures r.Some? ==> r.value.symbol.shndx < |o.sections| && TableSize(o, r.value.symbol, r.value.def) < 0x8000_0000
  {
    var t := Symbols(o, o.numSymbols);
    if o.numSymbols == 0 || t == None then None
    else
      var d := DefIndex(t.value);
      DefIndexIsLast(t.value);
      if d < 0 then None
      else
        var def := FileDefAt(o, t.value[d].symbol);
        if def == None then None
        else
          var u := ObjectIndex(t.value, def.value.objectName);
          ObjectIndexIsFirst(t.value, def.value.objectName);
          if u == |t.value| then None
          else
            var s := t.value[u].symbol;
            if InBss(o, s) || ContentOffset(o, s) < WRAP32 then Some(Selection(def.value, s)) else None
  }

  /** Strings from the definition fit their arrays. */
  predicate Fits(def: FileDef) {
    |def.tableName| < TABLE_NAME_LEN && |def.description| < DESCRIPTION_LEN
  }

  lemma {:induction false} CStringShort(b: seq<uint8>)
    ensures |CString(b)| <= |b|
  {
    if b != [] && b[0] != 0 { CStringShort(b[1..]); }
  }

  lemma FileDefFits(b: seq<uint8>, little: bool)
    requires |b| == FILE_DEF_LEN
    ensures Fits(FileDefIn(b, little))
  {
    CStringShort(b[64..64 + TABLE_NAME_LEN - 1]);
    CStringShort(b[104..104 + DESCRIPTION_LEN - 1]);
    hide CString;
  }

  lemma SelectedFits(o: Object)
    requires Defined(o) && Selected(o).Some?
    ensures Fits(Selected(o).value.def)
  {
    hide Symbols;
    hide CString;
    hide Fits;
    hide FileDefAt;
    hide TableSize;
    hide ObjectIndex;
    hide IsDefName;
    var t := Symbols(o, o.numSymbols).value;
    DefIndexIsLast(t);
    DefinitionFits(o, t[DefIndex(t)].symbol);
  }

  lemma DefinitionFits(o: Object, s: Symbol)
    requires s.shndx < |o.sections|
    ensures FileDefAt(o, s).Some? ==> Fits(FileDefAt(o, s).value)
  {
    hide CString;
    hide FileDefIn;
    hide Fits;
    var at := ContentOffset(o, s);
    if at + FILE_DEF_LEN <= |o.bytes| { FileDefFits(o.bytes[at..at + FILE_DEF_LEN], o.little); }
  }

  /** The table file: both headers, and the contents. */
  function TableFile(o: Object, opt: Options, sel: Selection): seq<uint8>
    requires Cut(opt) && Fits(sel.def) && sel.symbol.shndx < |o.sections|
    requires TableSize(o, sel.symbol, sel.def) < 0x8000_0000
  {
    FileHeaderImage(FileHeaderFor(sel.def, opt))
    + TableHeaderImage(TableHeaderFor(sel.def, opt, TableSize(o, sel.symbol, sel.def)))
    + Payload(o, sel.symbol, sel.def)
  }

  /** Reading the table file most significant byte first gives back every field of both headers, the
      options where they are given, and behind them the contents of the table. */
  lemma TableFileReadsBack(o: Object, opt: Options, sel: Selection)
    requires Cut(opt) && Fits(sel.def) && sel.symbol.shndx < |o.sections|
    requires TableSize(o, sel.symbol, sel.def) < 0x8000_0000
    ensures var b := TableFile(o, opt, sel);
      && |b| == 116 + |Payload(o, sel.symbol, sel.def)|
      && FromBig32(b[0..4]) == 0x63464531 && FromBig32(b[4..8]) == 8 && FromBig32(b[8..12]) == 64
      && FromBig32(b[12..16]) == opt.spacecraftId.GetOr(0)
      && FromBig32(b[16..20]) == opt.processorId.GetOr(0)
      && FromBig32(b[20..24]) == opt.applicationId.GetOr(0)
      && FromBig32(b[24..28]) == opt.time.GetOr(0) && FromBig32(b[28..32]) == 0
      && CString(b[32..64]) == opt.description.GetOr(sel.def.description)
      && FromBig32(b[64..68]) == 0 && FromBig32(b[68..72]) == 0
      && FromBig32(b[72..76]) == |Payload(o, sel.symbol, sel.def)|
      && CString(b[76..116]) == opt.tableName.GetOr(sel.def.tableName)
      && b[116..] == Payload(o, sel.symbol, sel.def)
  {
    var b := TableFile(o, opt, sel);
    var n := TableSize(o, sel.symbol, sel.def);
    var h, t, p := FileHeaderImage(FileHeaderFor(sel.def, opt)), TableHeaderImage(TableHeaderFor(sel.def, opt, n)),
      Payload(o, sel.symbol, sel.def);
    FileHeaderReadsBack(FileHeaderFor(sel.def, opt));
    TableHeaderReadsBack(TableHeaderFor(sel.def, opt, n));
    hide FileHeaderImage;
    hide TableHeaderImage;
    hide Payload;
    hide FromBig32;
    hide CString;
    assert b == h + t + p;
    HeadersApart(h, t, p);
  }

  lemma HeadersApart(h: seq<uint8>, t: seq<uint8>, p: seq<uint8>)
    requires |h| == 64 && |t| == 52
    ensures var b := h + t + p;
      && b[0..4] == h[0..4] && b[4..8] == h[4..8] && b[8..12] == h[8..12] && b[12..16] == h[12..16]
      && b[16..20] == h[16..20] && b[20..24] == h[20..24] && b[24..28] == h[24..28] && b[28..32] == h[28..32]
      && b[32..64] == h[32..64]
      && b[64..68] == t[0..4] && b[68..72] == t[4..8] && b[72..76] == t[8..12] && b[76..116] == t[12..52]
      && b[116..] == p
  {
  }

  /** The contents: zeros in .bss, as many as the symbol says; otherwise as many bytes as the smaller of
      symbol and definition say, or the definition if the symbol says nothing, from the section's offset
      plus the symbol's value on, a sum in 64 bits; 0xff behind the end of the file. */
  lemma PayloadIsContents(o: Object, s: Symbol, def: FileDef)
    requires s.shndx < |o.sections|
    ensures o.sections[s.shndx].name == BSS ==>
      |Payload(o, s, def)| == s.size && forall k :: 0 <= k < s.size ==> Payload(o, s, def)[k] == 0
    ensures o.sections[s.shndx].name != BSS ==>
      var at := (o.sections[s.shndx].offset + s.value) % 0x1_0000_0000_0000_0000;
      var n := if s.size == 0 then def.objectSize else Min(s.size, def.objectSize);
      && |Payload(o, s, def)| == TableSize(o, s, def) == n
      && (forall k :: 0 <= k < n ==>
            Payload(o, s, def)[k] == if at + k < |o.bytes| then o.bytes[at + k] else 0xff)
      && (at + n <= |o.bytes| ==> Payload(o, s, def) == o.bytes[at..at + n])
  {
    if !InBss(o, s) { BytesAre(o.bytes, ContentOffset(o, s), TableSize(o, s, def)); }
    hide BytesFrom;
  }
}
