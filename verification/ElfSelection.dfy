/** Which sections, tables and symbols the conversion uses, told from the bytes of the object file. */
module ElfSelection {
  import opened Wrappers
  import opened Bytes
  import opened ElfFields
  import opened ElfTableFile
  import opened ElfSections

  // ---- Sections

  /** A section header is one of `shentsize` bytes each, from the section table on, and its name is in
      the section of names, from which a file with its tables below 2^63 is read at these places. */
  lemma SectionPlace(bytes: seq<uint8>, h: Header, i: nat)
    requires h.shoff < 0x8000_0000_0000_0000
    ensures var at := h.shoff + i * h.shentsize;
      && (Reached(bytes, h, i) <==> at + SectionLen(h.is32) <= |bytes|)
      && (Reached(bytes, h, i) ==>
            SectionAt(bytes, h, i) == SectionIn(bytes[at..at + SectionLen(h.is32)], h.is32, h.little))
  {
    hide SectionIn;
    hide SectionLen;
  }

  /** The name that a section is given: from the section of names, where it says, or none. */
  lemma SectionNameIs(bytes: seq<uint8>, h: Header, i: nat)
    requires Reached(bytes, h, h.shstrndx) && Reached(bytes, h, i)
    requires SectionAt(bytes, h, h.shstrndx).offset < 0x8000_0000_0000_0000
    ensures var names := SectionAt(bytes, h, h.shstrndx).offset;
      var s := SectionAt(bytes, h, i);
      SectionName(bytes, h, NamesOffset(bytes, h), i) ==
        if names == 0 || s.name == 0 then [] else NameFrom(bytes, names + s.name, VERBOSE_STR_LEN)
  {
    hide SectionAt;
    hide NameFrom;
  }

  /** A section that counts, and is of some type. */
  ghost predicate Counts(bytes: seq<uint8>, h: Header, shstr: int, i: nat, kind: nat)
    requires Reached(bytes, h, i)
  {
    var s := SectionAt(bytes, h, i);
    shstr != 0 && s.name != 0 && s.kind == kind
  }

  /** What has been found among the first `n` sections: the contents of each begin where its header
      says; the symbol table is the last one; and the string table the last that is called ".strtab",
      or, without such a one, the first that does not hold the section names. */
  ghost predicate Found(bytes: seq<uint8>, h: Header, shstr: int, n: nat, t: Tables) {
    && |t.sections| == n
    && (forall i :: 0 <= i < n ==> Reached(bytes, h, i))
    && (forall i :: 0 <= i < n ==>
          t.sections[i] == Section(SectionAt(bytes, h, i).offset % 0x1_0000_0000_0000_0000,
                                   SectionName(bytes, h, shstr, i)))
    && HasSymtab(bytes, h, shstr, n, t)
    && HasStrtab(bytes, h, shstr, n, t)
  }

  ghost predicate HasSymtab(bytes: seq<uint8>, h: Header, shstr: int, n: nat, t: Tables)
    requires forall i :: 0 <= i < n ==> Reached(bytes, h, i)
  {
    || ((forall i :: 0 <= i < n ==> !Counts(bytes, h, shstr, i, 2)) && t.numSymbols == 0)
    || exists i :: 0 <= i < n && Counts(bytes, h, shstr, i, 2)
         && (forall j :: i < j < n ==> !Counts(bytes, h, shstr, j, 2))
         && var s := SectionAt(bytes, h, i);
            && s.entsize > 0
            && t.symtab == ToInt32(s.offset + SymbolLen(h.is32))
            && t.entsize == s.entsize % 0x1_0000_0000_0000_0000
            && t.numSymbols == (s.size / s.entsize - 1) % 0x1_0000_0000_0000_0000
  }

  ghost predicate IsStrtab(bytes: seq<uint8>, h: Header, shstr: int, i: nat)
    requires Reached(bytes, h, i)
  {
    // ".strtab"
    Counts(bytes, h, shstr, i, 3) && SectionName(bytes, h, shstr, i) == [46, 115, 116, 114, 116, 97, 98]
  }

  ghost predicate HasStrtab(bytes: seq<uint8>, h: Header, shstr: int, n: nat, t: Tables)
    requires forall i :: 0 <= i < n ==> Reached(bytes, h, i)
  {
    || ((forall i :: 0 <= i < n && i != h.shstrndx ==> !Counts(bytes, h, shstr, i, 3))
        && (forall i :: 0 <= i < n ==> !IsStrtab(bytes, h, shstr, i)) && t.strtab == 0)
    || (exists i :: 0 <= i < n && IsStrtab(bytes, h, shstr, i)
          && (forall j :: i < j < n ==> !IsStrtab(bytes, h, shstr, j))
          && t.strtab == SectionAt(bytes, h, i).offset % 0x1_0000_0000_0000_0000)
    || ((forall i :: 0 <= i < n ==> !IsStrtab(bytes, h, shstr, i))
        && exists i :: 0 <= i < n && i != h.shstrndx && Counts(bytes, h, shstr, i, 3)
             && (forall j :: 0 <= j < i && j != h.shstrndx ==> !Counts(bytes, h, shstr, j, 3))
             && t.strtab == SectionAt(bytes, h, i).offset % 0x1_0000_0000_0000_0000)
  }

  /** No string table is at the start of the file, where the ELF header is. */
  ghost predicate NoneAtStart(bytes: seq<uint8>, h: Header, shstr: int, n: nat) {
    forall i :: 0 <= i < n && Reached(bytes, h, i) && Counts(bytes, h, shstr, i, 3) ==>
      SectionAt(bytes, h, i).offset % 0x1_0000_0000_0000_0000 != 0
  }

  lemma {:induction false} TablesAreFound(bytes: seq<uint8>, h: Header, shstr: int, n: nat)
    requires forall i: nat :: i < n ==> SectionDefined(bytes, h, shstr, i)
    requires NoneAtStart(bytes, h, shstr, n)
    ensures var t := TablesUpTo(bytes, h, shstr, n);
      && (t.Some? <==> forall i: nat :: i < n ==> Reached(bytes, h, i))
      && (t.Some? ==> Found(bytes, h, shstr, n, t.value))
  {
    hide SectionAt;
    hide SectionName;
    hide Reached;
    hide SectionDefined;
    hide HasSymtab;
    hide HasStrtab;
    if n == 0 {
      NothingFound(bytes, h, shstr);
    } else {
      TablesAreFound(bytes, h, shstr, n - 1);
      var before := TablesUpTo(bytes, h, shstr, n - 1);
      if before.Some? && Reached(bytes, h, n - 1) {
        FoundMore(bytes, h, shstr, n - 1, before.value);
      }
    }
  }

  lemma NothingFound(bytes: seq<uint8>, h: Header, shstr: int)
    ensures HasSymtab(bytes, h, shstr, 0, NO_TABLES) && HasStrtab(bytes, h, shstr, 0, NO_TABLES)
  {
  }

  lemma FoundMore(bytes: seq<uint8>, h: Header, shstr: int, n: nat, t: Tables)
    requires SectionDefined(bytes, h, shstr, n) && Reached(bytes, h, n) && Found(bytes, h, shstr, n, t)
    requires NoneAtStart(bytes, h, shstr, n + 1)
    ensures var s := SectionAt(bytes, h, n);
      && (IsNamed(shstr, s) && s.kind == SHT_SYMTAB ==> s.entsize > 0)
      && Found(bytes, h, shstr, n + 1,
               WithSection(t, h, n, s, IsNamed(shstr, s), SectionName(bytes, h, shstr, n)))
  {
    hide SectionAt;
    hide SectionName;
    hide Reached;
    hide HasSymtab;
    hide HasStrtab;
    var s := SectionAt(bytes, h, n);
    SymtabMore(bytes, h, shstr, n, t, s, SectionName(bytes, h, shstr, n));
    StrtabMore(bytes, h, shstr, n, t, s, SectionName(bytes, h, shstr, n));
  }

  lemma SymtabMore(bytes: seq<uint8>, h: Header, shstr: int, n: nat, t: Tables, s: SectionHeader, name: cstring)
    requires (forall i :: 0 <= i < n + 1 ==> Reached(bytes, h, i)) && HasSymtab(bytes, h, shstr, n, t)
    requires s == SectionAt(bytes, h, n) && (IsNamed(shstr, s) && s.kind == SHT_SYMTAB ==> s.entsize > 0)
    ensures HasSymtab(bytes, h, shstr, n + 1, WithSection(t, h, n, s, IsNamed(shstr, s), name))
  {
    hide SectionAt;
    hide Reached;
    hide ToInt32;
  }

  lemma StrtabMore(bytes: seq<uint8>, h: Header, shstr: int, n: nat, t: Tables, s: SectionHeader, name: cstring)
    requires (forall i :: 0 <= i < n + 1 ==> Reached(bytes, h, i)) && HasStrtab(bytes, h, shstr, n, t)
    requires s == SectionAt(bytes, h, n) && (IsNamed(shstr, s) && s.kind == SHT_SYMTAB ==> s.entsize > 0)
    requires name == SectionName(bytes, h, shstr, n) && NoneAtStart(bytes, h, shstr, n)
    ensures HasStrtab(bytes, h, shstr, n + 1, WithSection(t, h, n, s, IsNamed(shstr, s), name))
  {
    hide SectionAt;
    hide SectionName;
    hide Reached;
    hide ToInt32;
    hide SymbolCount;
  }

  /** The object of a file: there is one if and only if the header is accepted, there are sections, all
      section headers and that of the names can be read, and a string table is found; and it is what has
      been found. */
  lemma ObjectIs(bytes: seq<uint8>, known: nat -> bool, h: Header)
    requires FileDefined(bytes, known) && HeaderOf(bytes, known) == Some(h)
    requires Reached(bytes, h, h.shstrndx) ==> NoneAtStart(bytes, h, NamesOffset(bytes, h), h.shnum)
    ensures var r := ObjectIn(bytes, known);
      && (r.Some? <==>
            && h.shnum > 0 && Reached(bytes, h, h.shstrndx) && (forall i: nat :: i < h.shnum ==> Reached(bytes, h, i))
            && exists i: nat :: i < h.shnum && Counts(bytes, h, NamesOffset(bytes, h), i, 3)
                 && (i != h.shstrndx || IsStrtab(bytes, h, NamesOffset(bytes, h), i)))
      && (r.Some? ==>
            var o := r.value;
            && o.bytes == bytes && o.is32 == h.is32 && o.little == h.little
            && Found(bytes, h, NamesOffset(bytes, h), h.shnum,
                     Tables(o.sections, o.symtab, o.entsize, o.numSymbols, o.strtab)))
  {
    hide HeaderOf;
    hide SectionAt;
    hide SectionName;
    hide Reached;
    hide SectionDefined;
    hide HasSymtab;
    if Reached(bytes, h, h.shstrndx) {
      TablesAreFound(bytes, h, NamesOffset(bytes, h), h.shnum);
    }
  }

  // ---- Symbols

  /** "CFE_TBL_FileDef", or that with one character more in front. */
  ghost predicate NamesDef(name: cstring) {
    var def := ['C' as uint8, 'F' as uint8, 'E' as uint8, '_' as uint8, 'T' as uint8, 'B' as uint8, 'L' as uint8,
                '_' as uint8, 'F' as uint8, 'i' as uint8, 'l' as uint8, 'e' as uint8, 'D' as uint8, 'e' as uint8,
                'f' as uint8];
    name == def || exists c :: name == [c] + def
  }

  lemma DefNameIs(name: cstring)
    ensures IsDefName(name) <==> NamesDef(name)
  {
    if name != [] { assert name == [name[0]] + name[1..]; }
  }

  /** The table definition is the last symbol with its name, and can be read; the object is the first
      symbol that matches it; and its contents can be sought. */
  ghost predicate Chosen(o: Object, t: seq<Named>, d: nat, def: FileDef, u: nat) {
    && d < |t| && NamesDef(t[d].name) && (forall i :: d < i < |t| ==> !NamesDef(t[i].name))
    && t[d].symbol.shndx < |o.sections| && FileDefAt(o, t[d].symbol) == Some(def)
    && u < |t| && Matches(t[u].name, def.objectName) && (forall i :: 0 <= i < u ==> !Matches(t[i].name, def.objectName))
    && var s := t[u].symbol;
    && s.shndx < |o.sections|
    && (|| o.sections[s.shndx].name == BSS
        || (o.sections[s.shndx].offset + s.value) % 0x1_0000_0000_0000_0000 < WRAP32)
  }

  /** That is what the conversion selects, and it fails if and only if there is no such choice. */
  lemma SelectedIsChosen(o: Object, sel: Selection)
    requires Defined(o)
    ensures var t := Symbols(o, o.numSymbols);
      Selected(o) == Some(sel) <==>
        t.Some? && exists d: nat, u: nat :: Chosen(o, t.value, d, sel.def, u) && sel.symbol == t.value[u].symbol
  {
    var t := Symbols(o, o.numSymbols);
    SymbolsLength(o, o.numSymbols);
    hide Symbols;
    hide FileDefAt;
    if t.Some? {
      DefIndexIsLast(t.value);
      forall name: cstring { DefNameIs(name); }
      hide NamesDef;
      forall def: FileDef { ObjectIndexIsFirst(t.value, def.objectName); }
      hide Matches;
      hide IsDefName;
      forall d, u | Chosen(o, t.value, d, sel.def, u)
        ensures d == DefIndex(t.value) && u == ObjectIndex(t.value, sel.def.objectName)
      {
      }
      if Selected(o) == Some(sel) {
        assert Chosen(o, t.value, DefIndex(t.value), sel.def, ObjectIndex(t.value, sel.def.objectName));
      }
    }
  }

}
