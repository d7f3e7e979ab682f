/** The commands of dir.c that work through a whole directory. */
module DirCommands {
  import opened Wrappers
  import opened Bytes
  import opened Directories
  import opened OutputFiles
  import opened DirDeletion
  import opened DirListing

  /** What the messages of DIR_DeleteAllCmd report. */
  datatype DeleteReport = DeleteReport(deleted: uint32, notDeleted: uint32, skipped: uint32)

  /** DIR_ListPkt. */
  datatype ListPkt = ListPkt(dirName: cstring, dirFileCnt: uint32, pktFileCnt: uint32, dirListOffset: uint32,
    file: Entries)

  type Entries = f: seq<FileEntry> | |f| == FILEMGR_DIR_LIST_PKT_ENTRIES
    witness seq(FILEMGR_DIR_LIST_PKT_ENTRIES, _ => NO_ENTRY)

  /** The packet that CFE_MSG_Init leaves. */
  const CLEARED := ListPkt([], 0, 0, 0, seq(FILEMGR_DIR_LIST_PKT_ENTRIES, _ => NO_ENTRY))

  /** The path of a directory that is there and can be opened. */
  function Opened(w: World, dirName: cstring): Option<cstring> {
    if FileInfo(w, dirName) != IsDir then None
    else match AppendPathSep(dirName)
      case None => None
      case Some(d) => if w.opens(dirName) then Some(d) else None
  }

  /** It is there, can be opened, and has room for a separator. */
  lemma OpenedIs(w: World, dirName: cstring, d: cstring)
    ensures Opened(w, dirName) == Some(d) <==>
      && 0 < |dirName| < 64 && (forall i :: 0 <= i < |dirName| ==> ValidChar(dirName[i]))
      && w.state(dirName) == IsDir && w.opens(dirName)
      && if dirName[|dirName| - 1] == 47 then d == dirName else |dirName| < 63 && d == dirName + [47]
  {
    hide ValidChar;
  }

  /** The packet for a directory whose entries other than "." and ".." are `names`. */
  ghost predicate Lists(p: ListPkt, w: World, d: cstring, names: seq<cstring>, offset: uint16, includeSizeTime: bool) {
    var shown := Page(d, names, offset);
    && p.dirFileCnt == |names| % WRAP32
    && p.pktFileCnt == |shown|
    && p.dirListOffset == offset
    && forall i :: 0 <= i < FILEMGR_DIR_LIST_PKT_ENTRIES ==>
         p.file[i] == if i < |shown| then Loaded(w, d, shown[i], includeSizeTime) else NO_ENTRY
  }

  /** A warning counter that was at `start` has counted `n`. */
  predicate Warned(count: uint16, start: uint16, n: nat) {
    count == (start + n) % 0x1_0000
  }

  lemma WarnedMore(count: uint16, start: uint16, n: nat)
    requires Warned(count, start, n)
    ensures Warned(Inc16(count), start, n + 1)
  {
  }

  lemma WarnedNone(start: uint16)
    ensures Warned(start, start, 0)
  {
  }

  lemma WarnedInAll(count: uint16, n: nat)
    requires Warned(count, 0, n)
    ensures count == n % 0x1_0000
  {
  }

  lemma NoneRead(d: cstring, names: seq<cstring>)
    ensures NonDots(names[..0]) == []
    ensures forall offset :: Accepted(d, [], offset) == []
    ensures forall offset, max :: TooLong(d, [], offset, max) == 0
  {
  }

  /** DIR_Class. */
  class Dir {
    var cmdWarningCnt: uint16
    var listPkt: ListPkt
    var listFileStats: Stats

    /** DIR_Constructor. */
    constructor ()
      ensures cmdWarningCnt == 0 && listPkt == CLEARED && listFileStats == Stats([], 0, 0)
    {
      cmdWarningCnt := 0;
      listPkt := CLEARED;
      listFileStats := Stats([], 0, 0);
    }

    /** DIR_DeleteAllCmd: removes what can be removed and keeps the rest in order: what was at the
        places `left`. Its result is false in any case; the report is what it tells in its messages. */
    method DeleteAllCmd(w: World, dirName: cstring, dir: Directory)
      returns (result: bool, report: Option<DeleteReport>, ghost left: seq<nat>)
      modifies this`cmdWarningCnt, dir
      ensures !result && (report.Some? <==> Opened(w, dirName).Some?)
      ensures report == None ==> dir.entries == old(dir.entries) && cmdWarningCnt == old(cmdWarningCnt)
      ensures report.Some? ==>
        var c := Classified(w, Opened(w, dirName).value);
        && dir.entries == Survivors(c, old(dir.entries))
        && report.value.deleted == Count(c, old(dir.entries), Deletable) % WRAP32
        && report.value.notDeleted == Reads(c, [], old(dir.entries), Stuck) % WRAP32
        && report.value.skipped == Reads(c, [], old(dir.entries), SubDir) % WRAP32
        && cmdWarningCnt == if Warns(c, old(dir.entries)) then Inc16(old(cmdWarningCnt)) else old(cmdWarningCnt)
      ensures report.Some? ==>
        var d := Opened(w, dirName).value;
        && Picks(old(dir.entries), left, dir.entries)
        && (forall k :: 0 <= k < |old(dir.entries)| ==>
              var name := old(dir.entries)[k];
              k !in left <==>
                && name != [46] && name != [46, 46] && 0 < |d + name| < 64
                && (forall i :: 0 <= i < |d + name| ==> ValidChar((d + name)[i]))
                && w.state(d + name) == FileClosed && w.removable(d + name))
        && report.value.deleted == (|old(dir.entries)| - |left|) % WRAP32
    {
      hide Picks;
      hide ValidChar;
      hide Survivors;
      hide Count;
      hide Reads;
      result, report, left := false, None, [];
      if FileInfo(w, dirName) == IsDir {
        var dirWithSep := AppendPathSep(dirName);
        if dirWithSep.Some? {
          if w.opens(dirName) {
            dir.Rewind();
            left := SurvivorsPicked(Classified(w, dirWithSep.value), dir.entries);
            forall name: cstring { KindIs(w, dirWithSep.value, name); }
            hide KindOf;
            var r := DeleteEntries(w, dirWithSep.value, dir);
            report := Some(r);
            if r.notDeleted > 0 || r.skipped > 0 {
              cmdWarningCnt := Inc16(cmdWarningCnt);
            }
          }
        }
      }
    }

    /** Its loop, which starts over after each removal. */
    method DeleteEntries(w: World, d: cstring, dir: Directory) returns (r: DeleteReport)
      requires dir.next == 0
      modifies dir
      ensures var c := Classified(w, d);
        && dir.entries == Survivors(c, old(dir.entries))
        && r.deleted == Count(c, old(dir.entries), Deletable) % WRAP32
        && r.notDeleted == Reads(c, [], old(dir.entries), Stuck) % WRAP32
        && r.skipped == Reads(c, [], old(dir.entries), SubDir) % WRAP32
    {
      ghost var c := Classified(w, d);
      ghost var all := dir.entries;
      var deleted: uint32, notDeleted: uint32, skipped: uint32 := 0, 0, 0;
      DeletingStart(c, all);
      assert forall n: cstring :: KindOf(w, d, n) == c(n);
      hide *;
      while true
        invariant dir.next <= |dir.entries| && Deleting(c, all, dir.entries, dir.next, deleted, notDeleted, skipped)
        decreases |dir.entries|, |dir.entries| - dir.next
      {
        ghost var names, i := dir.entries, dir.next;
        var name := dir.Read();
        if name == None {
          DeletingDone(c, all, names, deleted, notDeleted, skipped);
          break;
        }
        var kind := DeleteEntry(w, d, dir, name.value);
        DeletingStep(c, all, names, i, deleted, notDeleted, skipped);
        match kind
        case Deletable => deleted := Inc32(deleted);
        case Stuck => notDeleted := Inc32(notDeleted);
        case SubDir => skipped := Inc32(skipped);
        case Dot =>
      }
      r := DeleteReport(deleted, notDeleted, skipped);
    }

    /** What the loop does with one entry, and with that the counter it increments. */
    method DeleteEntry(w: World, d: cstring, dir: Directory, name: cstring) returns (kind: Kind)
      modifies dir
      ensures kind == KindOf(w, d, name)
      ensures if kind == Deletable then dir.entries == Without(old(dir.entries), name) && dir.next == 0
              else dir.entries == old(dir.entries) && dir.next == old(dir.next)
    {
      kind := Dot;
      if !IsDot(name) {
        if |d| + |name| < OS_MAX_PATH_LEN {
          var path: cstring := d + name;
          match FileInfo(w, path)
          case FileClosed =>
            if w.removable(path) {
              dir.Remove(name);
              dir.Rewind();
              kind := Deletable;
            } else {
              kind := Stuck;
            }
          case IsDir => kind := SubDir;
          case _ => kind := Stuck;
        } else {
          kind := Stuck;
        }
      }
    }

    /** DIR_SendListPktCmd: the packet of a directory that cannot be listed is cleared at most. */
    method SendListPktCmd(w: World, dirName: cstring, offset: uint16, includeSizeTime: bool, dir: Directory)
      returns (sent: bool)
      modifies this`cmdWarningCnt, this`listPkt, dir`next
      ensures sent <==> Opened(w, dirName).Some?
      ensures !sent ==>
        && listPkt == (if FileInfo(w, dirName) == IsDir then CLEARED else old(listPkt))
        && cmdWarningCnt == old(cmdWarningCnt)
      ensures sent ==>
        var d := Opened(w, dirName).value;
        && Lists(listPkt, w, d, NonDots(dir.entries), offset, includeSizeTime) && listPkt.dirName == dirName
        && Warned(cmdWarningCnt, old(cmdWarningCnt),
          TooLong(d, NonDots(dir.entries), offset, FILEMGR_DIR_LIST_PKT_ENTRIES))
      ensures sent ==>
        var d := Opened(w, dirName).value;
        var shown := Page(d, NonDots(dir.entries), offset);
        && listPkt.pktFileCnt == |shown| <= 20
        && forall i :: 0 <= i < |shown| ==> Tells(listPkt.file[i], w, d, shown[i], includeSizeTime)
    {
      hide Tells;
      hide Loaded;
      sent := false;
      if FileInfo(w, dirName) == IsDir {
        listPkt := CLEARED;
        var dirWithSep := AppendPathSep(dirName);
        if dirWithSep.Some? {
          if w.opens(dirName) {
            dir.Rewind();
            listPkt := listPkt.(dirName := dirName, dirListOffset := offset);
            FillListPkt(w, dirWithSep.value, includeSizeTime, dir);
            forall name: cstring { LoadedTells(w, dirWithSep.value, name, includeSizeTime); }
            sent := true;
          }
        }
      }
    }

    /** Its loop. */
    method FillListPkt(w: World, d: cstring, includeSizeTime: bool, dir: Directory)
      requires dir.next == 0 && listPkt.(dirName := [], dirListOffset := 0) == CLEARED
        && listPkt.dirListOffset < 0x1_0000
      modifies this`cmdWarningCnt, this`listPkt, dir`next
      ensures Lists(listPkt, w, d, NonDots(dir.entries), old(listPkt).dirListOffset, includeSizeTime)
      ensures listPkt.dirName == old(listPkt).dirName
      ensures Warned(cmdWarningCnt, old(cmdWarningCnt),
                     TooLong(d, NonDots(dir.entries), old(listPkt).dirListOffset, FILEMGR_DIR_LIST_PKT_ENTRIES))
    {
      ghost var offset: uint16 := listPkt.dirListOffset;
      ghost var names: seq<cstring> := [];
      NoneRead(d, dir.entries);
      var creatingPkt := true;
      while creatingPkt
        invariant dir.next <= |dir.entries| && (!creatingPkt ==> dir.next == |dir.entries|)
        invariant names == NonDots(dir.entries[..dir.next])
        invariant Lists(listPkt, w, d, names, offset, includeSizeTime) && listPkt.dirName == old(listPkt).dirName
        invariant Warned(cmdWarningCnt, old(cmdWarningCnt), TooLong(d, names, offset, FILEMGR_DIR_LIST_PKT_ENTRIES))
        decreases |dir.entries| - dir.next, creatingPkt
      {
        var name := dir.Read();
        if name == None {
          creatingPkt := false;
        } else {
          NonDotsStep(dir.entries, dir.next - 1);
          if !IsDot(name.value) {
            AddToListPkt(w, d, includeSizeTime, name.value, names, offset, old(cmdWarningCnt));
            names := names + [name.value];
          }
        }
      }
      assert dir.entries[..dir.next] == dir.entries;
    }

    method AddToListPkt(w: World, d: cstring, includeSizeTime: bool, name: cstring, ghost names: seq<cstring>,
                        ghost offset: uint16, ghost start: uint16)
      requires Lists(listPkt, w, d, names, offset, includeSizeTime)
      requires Warned(cmdWarningCnt, start, TooLong(d, names, offset, FILEMGR_DIR_LIST_PKT_ENTRIES))
      modifies this`cmdWarningCnt, this`listPkt
      ensures Lists(listPkt, w, d, names + [name], offset, includeSizeTime) && listPkt.dirName == old(listPkt).dirName
      ensures Warned(cmdWarningCnt, start, TooLong(d, names + [name], offset, FILEMGR_DIR_LIST_PKT_ENTRIES))
    {
      FirstStep(d, names, name, offset, FILEMGR_DIR_LIST_PKT_ENTRIES);
      WarnedMore(cmdWarningCnt, start, TooLong(d, names, offset, FILEMGR_DIR_LIST_PKT_ENTRIES));
      ListsStep(listPkt, w, d, names, name, offset, includeSizeTime);
      ListsCounts(listPkt, w, d, names, offset, includeSizeTime);
      hide Lists;
      hide Warned;
      hide Accepted;
      hide TooLong;
      hide Loaded;
      listPkt := listPkt.(dirFileCnt := Inc32(listPkt.dirFileCnt));
      if listPkt.dirFileCnt > listPkt.dirListOffset && listPkt.pktFileCnt < FILEMGR_DIR_LIST_PKT_ENTRIES {
        if Fits(d, name) {
          listPkt := listPkt.(file := listPkt.file[listPkt.pktFileCnt := Loaded(w, d, name, includeSizeTime)],
                              pktFileCnt := Inc32(listPkt.pktFileCnt));
        } else {
          cmdWarningCnt := Inc16(cmdWarningCnt);
        }
      }
    }

    /** WriteDirListToFile. The file is created exactly if every write succeeds and the count of
        entries, which wraps around at 2^16, is not zero. */
    method WriteDirListToFile(l: Listing, dir: Directory, file: OutputFile, stack: seq<uint8>) returns (created: bool)
      requires |l.d| < OS_MAX_PATH_LEN == |stack| && dir.next == 0
      requires file.content == [] && file.pos == 0 && file.writes == 0
      modifies this`cmdWarningCnt, this`listFileStats, dir`next, file
      ensures var names := NonDots(dir.entries);
        var shown := Shown(l.d, names, l.max);
        && (created <==>
              && file.results(0) >= |l.header| && file.results(1) >= STATS_LEN
              && EntriesWritten(file.results, |shown|)
              && |names| % 0x1_0000 > 0 && file.results(2 + |shown|) >= STATS_LEN)
        && (created ==>
              && listFileStats == Stats(l.d, |names| % 0x1_0000, |shown|)
              && IsListFile(file.content, l.header, listFileStats, LoadedAll(l.w, l.d, shown, l.includeSizeTime))
              && EntriesTell(l, file.content, shown))
        && (file.results(0) >= |l.header| && file.results(1) >= STATS_LEN && EntriesWritten(file.results, |shown|) ==>
              Warned(cmdWarningCnt, old(cmdWarningCnt), TooLong(l.d, names, -1, l.max)))
    {
      hide EntriesWritten;
      hide Shown;
      hide IsListFile;
      hide StatsImage;
      hide Warned;
      hide TooLong;
      hide NonDots;
      hide LoadedAll;
      hide Written;
      hide EntriesTell;
      created := false;
      WritingStart(l, Stats(l.d, 0, 0), file.results, cmdWarningCnt);
      hide Writing;
      var n := file.Write(l.header);
      if n == |l.header| {
        listFileStats := Stats(l.d, 0, 0);
        n := file.Write(StatsImage(listFileStats));
        if n == STATS_LEN {
          assert file.content == l.header + StatsImage(listFileStats);
          ghost var names := NonDots(dir.entries);
          var ok, dirEntryCnt, fileEntryCnt := WriteEntries(l, dir, file, stack);
          if dirEntryCnt > 0 && ok {
            WritingDone(l, names, file.content, file.pos, file.writes, file.results, fileEntryCnt, cmdWarningCnt,
              old(cmdWarningCnt));
            listFileStats := listFileStats.(dirFileCnt := dirEntryCnt, filesWrittenCnt := fileEntryCnt);
            StatsRewritten(file.content, l.header, LoadedAll(l.w, l.d, Shown(l.d, names, l.max), l.includeSizeTime),
              listFileStats);
            file.Seek(|l.header|);
            n := file.Write(StatsImage(listFileStats));
            created := n == STATS_LEN;
            if created {
              ListFileTells(l, file.content, listFileStats, Shown(l.d, names, l.max));
            }
          } else if ok {
            WritingDone(l, names, file.content, file.pos, file.writes, file.results, fileEntryCnt, cmdWarningCnt,
              old(cmdWarningCnt));
          }
        }
      }
    }

    /** Its loop: writes entries until there is no more room, no more entry or an error. */
    method WriteEntries(l: Listing, dir: Directory, file: OutputFile, stack: seq<uint8>)
      returns (ok: bool, dirEntryCnt: uint16, fileEntryCnt: uint16)
      requires |stack| == OS_MAX_PATH_LEN && dir.next == 0 && file.Valid()
      requires Writing(l, [], file.content, file.pos, file.writes, file.results, 0, cmdWarningCnt, cmdWarningCnt)
      modifies this`cmdWarningCnt, dir`next, file
      ensures file.Valid()
      ensures var names := NonDots(dir.entries);
        if ok then
          && Writing(l, names, file.content, file.pos, file.writes, file.results, fileEntryCnt, cmdWarningCnt,
            old(cmdWarningCnt))
          && dirEntryCnt == |names| % 0x1_0000
        else !EntriesWritten(file.results, |Shown(l.d, names, l.max)|)
    {
      hide *;
      ok, dirEntryCnt, fileEntryCnt := true, 0, 0;
      var readingDir, buffer := true, stack;
      ghost var names: seq<cstring> := [];
      NoneRead(l.d, dir.entries);
      WarnedNone(0);
      while readingDir && ok
        invariant dir.next <= |dir.entries| && (!readingDir ==> dir.next == |dir.entries|) && file.Valid()
        invariant names == NonDots(dir.entries[..dir.next]) && |buffer| == OS_MAX_PATH_LEN
        invariant Warned(dirEntryCnt, 0, |names|)
        invariant if ok then
            Writing(l, names, file.content, file.pos, file.writes, file.results, fileEntryCnt, cmdWarningCnt,
              old(cmdWarningCnt))
          else !EntriesWritten(file.results, |Shown(l.d, names, l.max)|)
        decreases |dir.entries| - dir.next, readingDir
      {
        var name := dir.Read();
        if name == None {
          readingDir := false;
        } else {
          NonDotsStep(dir.entries, dir.next - 1);
          if !IsDot(name.value) {
            WarnedMore(dirEntryCnt, 0, |names|);
            dirEntryCnt := Inc16(dirEntryCnt);
            ok, fileEntryCnt, buffer :=
              WriteEntry(l, file, buffer, fileEntryCnt, name.value, names, old(cmdWarningCnt));
            names := names + [name.value];
          }
        }
      }
      ShownOfPart(l.d, dir.entries, dir.next, l.max);
      WarnedInAll(dirEntryCnt, |names|);
      if ok {
        assert dir.entries[..dir.next] == dir.entries;
      } else {
        MoreNotWritten(file.results, |Shown(l.d, names, l.max)|, |Shown(l.d, NonDots(dir.entries), l.max)|);
      }
    }

    method WriteEntry(l: Listing, file: OutputFile, stack: seq<uint8>, count: uint16, name: cstring,
                      ghost names: seq<cstring>, ghost start: uint16)
      returns (ok: bool, fileEntryCnt: uint16, buffer: seq<uint8>)
      requires |stack| == OS_MAX_PATH_LEN && file.Valid()
      requires Writing(l, names, file.content, file.pos, file.writes, file.results, count, cmdWarningCnt, start)
      modifies this`cmdWarningCnt, file
      ensures |buffer| == OS_MAX_PATH_LEN && file.Valid()
      ensures if ok then
          Writing(l, names + [name], file.content, file.pos, file.writes, file.results, fileEntryCnt, cmdWarningCnt,
            start)
        else !EntriesWritten(file.results, |Shown(l.d, names + [name], l.max)|)
    {
      ok, fileEntryCnt, buffer := true, count, stack;
      WritingStep(l, names, name, file.content, file.pos, file.writes, file.results, count, cmdWarningCnt, start);
      hide Writing;
      hide EntriesWritten;
      hide Shown;
      hide Loaded;
      hide EntryImage;
      hide Written;
      if fileEntryCnt < l.max {
        if Fits(l.d, name) {
          buffer := NameOver(name, buffer);
          var image := EntryImage(Loaded(l.w, l.d, name, l.includeSizeTime), buffer);
          var n := file.Write(image);
          if n == ENTRY_LEN {
            fileEntryCnt := Inc16(fileEntryCnt);
          } else {
            ok := false;
          }
        } else {
          cmdWarningCnt := Inc16(cmdWarningCnt);
        }
      }
    }
  }

  // ---- A listing in a file

  /** The first `n` entries were written without an error. */
  ghost predicate EntriesWritten(results: nat -> int, n: nat) {
    forall i :: 2 <= i < 2 + n ==> results(i) >= ENTRY_LEN
  }

  /** The entries that a listing file holds. */
  function Shown(d: cstring, names: seq<cstring>, max: nat): seq<cstring> {
    First(Accepted(d, names, -1), max)
  }

  /** Those are the first that fit. */
  lemma ShownIsFirstFitting(d: cstring, names: seq<cstring>, max: nat)
    ensures Shown(d, names, max) == First(Fitting(d, names), max)
  {
    AcceptedUncounted(d, names);
  }

  /** That is, the first of those whose paths are shorter than 64, up to the limit. */
  lemma ShownIs(d: cstring, names: seq<cstring>, max: nat) returns (at: seq<nat>)
    ensures Picks(names, at, Shown(d, names, max)) && |at| <= max
    ensures forall k :: 0 <= k < |names| ==>
      (k in at <==> |d| + |names[k]| < 64 && (|at| < max || (max > 0 && k <= at[max - 1])))
  {
    ShownIsFirstFitting(d, names, max);
    assert names[0..] == names;
    at := FirstPicked(d, names, 0, max);
  }

  /** What a listing file depends on: the directory, the most entries, whether they carry size
      and time, and the file header. */
  datatype Listing = Listing(w: World, d: cstring, max: uint16, includeSizeTime: bool, header: seq<uint8>)

  /** What a reader finds behind the statistics: an entry for each of these names, in order. */
  ghost predicate EntriesTell(l: Listing, content: seq<uint8>, shown: seq<cstring>) {
    && |l.header| + STATS_LEN <= |content|
    && var entries := EntriesOf(content[|l.header| + STATS_LEN..]);
    && |entries| == |shown|
    && forall i :: 0 <= i < |shown| ==> Tells(entries[i], l.w, l.d, shown[i], l.includeSizeTime)
  }

  lemma ListFileTells(l: Listing, content: seq<uint8>, stats: Stats, shown: seq<cstring>)
    requires IsListFile(content, l.header, stats, LoadedAll(l.w, l.d, shown, l.includeSizeTime))
    ensures EntriesTell(l, content, shown)
  {
    hide Tells;
    hide EntriesOf;
    LoadedAllTell(l.w, l.d, shown, l.includeSizeTime);
  }

  /** The state of the loop that has read `names`: the file holds what is shown of them, the end
      is where it will write, and entries and warnings have been counted. */
  ghost predicate Writing(l: Listing, names: seq<cstring>, content: seq<uint8>, pos: nat, writes: nat,
    results: nat -> int,
                          count: uint16, warned: uint16, start: uint16) {
    var shown := Shown(l.d, names, l.max);
    && HasEntries(content, l.header, LoadedAll(l.w, l.d, shown, l.includeSizeTime))
    && pos == |content|
    && writes == 2 + |shown|
    && EntriesWritten(results, |shown|)
    && count == |shown|
    && Warned(warned, start, TooLong(l.d, names, -1, l.max))
  }

  lemma WritingStart(l: Listing, stats: Stats, results: nat -> int, start: uint16)
    requires |stats.dirName| < OS_MAX_PATH_LEN
    ensures var content := l.header + StatsImage(stats);
      Writing(l, [], content, |content|, 2, results, 0, start, start)
  {
    var b := l.header + StatsImage(stats);
    hide StatsImage;
    assert b[..|l.header|] == l.header && b[|l.header| + STATS_LEN..] == [];
  }

  lemma WritingDone(l: Listing, names: seq<cstring>, content: seq<uint8>, pos: nat, writes: nat, results: nat -> int,
                    count: uint16, warned: uint16, start: uint16)
    requires Writing(l, names, content, pos, writes, results, count, warned, start)
    ensures var shown := Shown(l.d, names, l.max);
      && HasEntries(content, l.header, LoadedAll(l.w, l.d, shown, l.includeSizeTime))
      && |l.header| <= |content|
      && EntriesWritten(results, |shown|) && writes == 2 + |shown| && count == |shown|
      && Warned(warned, start, TooLong(l.d, names, -1, l.max))
  {
  }

  lemma MoreNotWritten(results: nat -> int, m: nat, n: nat)
    requires m <= n && !EntriesWritten(results, m)
    ensures !EntriesWritten(results, n)
  {
  }

  /** The loop goes on with one more name: it is passed over, reported, or the next to be written. */
  lemma WritingStep(l: Listing, names: seq<cstring>, name: cstring, content: seq<uint8>, pos: nat, writes: nat,
                    results: nat -> int, count: uint16, warned: uint16, start: uint16)
    requires Writing(l, names, content, pos, writes, results, count, warned, start)
    ensures pos == |content|
    ensures count >= l.max ==> Writing(l, names + [name], content, pos, writes, results, count, warned, start)
    ensures count < l.max && !Fits(l.d, name) ==>
      Writing(l, names + [name], content, pos, writes, results, count, Inc16(warned), start)
    ensures count < l.max && Fits(l.d, name) ==>
      var e := Loaded(l.w, l.d, name, l.includeSizeTime);
      && |e.name| < OS_MAX_PATH_LEN
      && if results(writes) < ENTRY_LEN then !EntriesWritten(results, |Shown(l.d, names + [name], l.max)|)
         else forall buffer: seq<uint8> :: |buffer| == OS_MAX_PATH_LEN ==>
           Writing(l, names + [name], content + EntryImage(e, buffer), pos + ENTRY_LEN, writes + 1, results,
             Inc16(count), warned, start)
  {
    hide HasEntries;
    hide EntryImage;
    hide Loaded;
    hide LoadedAll;
    hide Warned;
    hide TooLong;
    hide Shown;
    hide EntriesWritten;
    ShownStep(l.d, names, name, l.max);
    WarnedMore(warned, start, TooLong(l.d, names, -1, l.max));
    var e := Loaded(l.w, l.d, name, l.includeSizeTime);
    var shown := Shown(l.d, names, l.max);
    OneMoreWritten(results, |shown|);
    if count < l.max && Fits(l.d, name) {
      LoadedName(l.w, l.d, name, l.includeSizeTime);
      forall buffer: seq<uint8> | |buffer| == OS_MAX_PATH_LEN && results(writes) >= ENTRY_LEN
        ensures Writing(l, names + [name], content + EntryImage(e, buffer), pos + ENTRY_LEN, writes + 1, results,
          Inc16(count), warned, start)
      {
        EntryHolds(l, shown, name, content, buffer);
      }
    }
  }

  lemma OneMoreWritten(results: nat -> int, n: nat)
    requires EntriesWritten(results, n)
    ensures EntriesWritten(results, n + 1) <==> results(2 + n) >= ENTRY_LEN
  {
  }

  lemma LoadedName(w: World, d: cstring, name: cstring, includeSizeTime: bool)
    ensures Loaded(w, d, name, includeSizeTime).name == name
  {
  }

  lemma ShownStep(d: cstring, names: seq<cstring>, name: cstring, max: nat)
    ensures var shown := Shown(d, names, max);
      && |shown| <= max
      && Shown(d, names + [name], max) == (if |shown| < max && Fits(d, name) then shown + [name] else shown)
      && TooLong(d, names + [name], -1, max) ==
        TooLong(d, names, -1, max) + if |shown| < max && !Fits(d, name) then 1 else 0
  {
    FirstStep(d, names, name, -1, max);
  }

  lemma EntryHolds(l: Listing, shown: seq<cstring>, name: cstring, content: seq<uint8>, buffer: seq<uint8>)
    requires HasEntries(content, l.header, LoadedAll(l.w, l.d, shown, l.includeSizeTime))
    requires |name| < OS_MAX_PATH_LEN == |buffer|
    ensures var e := Loaded(l.w, l.d, name, l.includeSizeTime);
      && |e.name| < OS_MAX_PATH_LEN
      && HasEntries(content + EntryImage(e, buffer), l.header, LoadedAll(l.w, l.d, shown + [name], l.includeSizeTime))
  {
    var e := Loaded(l.w, l.d, name, l.includeSizeTime);
    hide HasEntries;
    hide EntryImage;
    assert (shown + [name])[..|shown|] == shown;
    HasOneMore(content, l.header, LoadedAll(l.w, l.d, shown, l.includeSizeTime), e, buffer);
  }

  lemma {:induction false} ShownGrows(d: cstring, names: seq<cstring>, i: nat, max: nat)
    requires i <= |names|
    ensures |Shown(d, names[..i], max)| <= |Shown(d, names, max)|
    decreases |names| - i
  {
    if i < |names| {
      assert names[..i + 1] == names[..i] + [names[i]];
      ShownStep(d, names[..i], names[i], max);
      ShownGrows(d, names, i + 1, max);
    } else {
      assert names[..i] == names;
    }
  }

  lemma {:induction false} NonDotsPrefix(names: seq<cstring>, i: nat)
    requires i <= |names|
    ensures NonDots(names[..i]) <= NonDots(names)
    decreases |names| - i
  {
    if i < |names| {
      NonDotsStep(names, i);
      NonDotsPrefix(names, i + 1);
    } else {
      assert names[..i] == names;
    }
  }

  /** What is shown of a part of the directory is no more than what is shown of all of it. */
  lemma ShownOfPart(d: cstring, names: seq<cstring>, i: nat, max: nat)
    requires i <= |names|
    ensures |Shown(d, NonDots(names[..i]), max)| <= |Shown(d, NonDots(names), max)|
  {
    NonDotsPrefix(names, i);
    assert NonDots(names)[..|NonDots(names[..i])|] == NonDots(names[..i]);
    ShownGrows(d, NonDots(names), |NonDots(names[..i])|, max);
  }

  lemma ListsCounts(p: ListPkt, w: World, d: cstring, names: seq<cstring>, offset: uint16, includeSizeTime: bool)
    requires Lists(p, w, d, names, offset, includeSizeTime)
    ensures Inc32(p.dirFileCnt) == (|names| + 1) % WRAP32 && p.dirListOffset == offset
    ensures p.pktFileCnt == |Page(d, names, offset)| <= FILEMGR_DIR_LIST_PKT_ENTRIES
  {
    hide Accepted;
  }

  /** The packet after one more name. */
  lemma ListsStep(p: ListPkt, w: World, d: cstring, names: seq<cstring>, name: cstring, offset: uint16,
    includeSizeTime: bool)
    requires Lists(p, w, d, names, offset, includeSizeTime)
    ensures var q := p.(dirFileCnt := Inc32(p.dirFileCnt));
      p.pktFileCnt <= FILEMGR_DIR_LIST_PKT_ENTRIES &&
      if q.dirFileCnt > offset && p.pktFileCnt < FILEMGR_DIR_LIST_PKT_ENTRIES && Fits(d, name) then
        Lists(q.(file := p.file[p.pktFileCnt := Loaded(w, d, name, includeSizeTime)],
          pktFileCnt := Inc32(p.pktFileCnt)),
              w, d, names + [name], offset, includeSizeTime)
      else Lists(q, w, d, names + [name], offset, includeSizeTime)
  {
    hide Accepted;
    hide TooLong;
    hide Loaded;
    hide Fits;
    FirstStep(d, names, name, offset, FILEMGR_DIR_LIST_PKT_ENTRIES);
    ListsCounts(p, w, d, names, offset, includeSizeTime);
    assert Page(d, names + [name], offset) ==
      if Inc32(p.dirFileCnt) > offset && p.pktFileCnt < FILEMGR_DIR_LIST_PKT_ENTRIES && Fits(d, name)
      then Page(d, names, offset) + [name] else Page(d, names, offset);
    hide Page;
    hide First;
  }

  // ---- The loop of DIR_DeleteAllCmd, between two reads

  ghost predicate Deleting(c: Kinds, all: seq<cstring>, names: seq<cstring>, i: nat,
                           deleted: uint32, notDeleted: uint32, skipped: uint32) {
    && i <= |names|
    && (forall j :: 0 <= j < i ==> c(names[j]) != Deletable)
    && Survivors(c, names) == Survivors(c, all)
    && Tally(deleted, Count(c, names, Deletable), Count(c, all, Deletable))
    && Tally(notDeleted, Reads(c, names[..i], names[i..], Stuck), Reads(c, [], all, Stuck))
    && Tally(skipped, Reads(c, names[..i], names[i..], SubDir), Reads(c, [], all, SubDir))
  }

  lemma DeletingStart(c: Kinds, all: seq<cstring>)
    ensures Deleting(c, all, all, 0, 0, 0, 0)
  {
    assert all[..0] == [] && all[0..] == all;
    hide Reads;
    hide Count;
    hide Survivors;
  }

  lemma DeletingStep(c: Kinds, all: seq<cstring>, names: seq<cstring>, i: nat,
                     deleted: uint32, notDeleted: uint32, skipped: uint32)
    requires i < |names| && Deleting(c, all, names, i, deleted, notDeleted, skipped)
    ensures match c(names[i])
      case Deletable =>
        && |Without(names, names[i])| == |names| - 1
        && Deleting(c, all, Without(names, names[i]), 0, Inc32(deleted), notDeleted, skipped)
      case Stuck => Deleting(c, all, names, i + 1, deleted, Inc32(notDeleted), skipped)
      case SubDir => Deleting(c, all, names, i + 1, deleted, notDeleted, Inc32(skipped))
      case Dot => Deleting(c, all, names, i + 1, deleted, notDeleted, skipped)
  {
    hide Reads;
    hide Count;
    hide Survivors;
    hide Without;
    hide Tally;
    if c(names[i]) == Deletable {
      RemoveStep(c, names, i, Stuck);
      RemoveStep(c, names, i, SubDir);
      TallyOne(deleted, Count(c, Without(names, names[i]), Deletable), Count(c, all, Deletable));
    } else {
      KeepStep(c, names, i, Stuck);
      KeepStep(c, names, i, SubDir);
      if c(names[i]) == Stuck {
        TallyOne(notDeleted, Reads(c, names[..i + 1], names[i + 1..], Stuck), Reads(c, [], all, Stuck));
      } else if c(names[i]) == SubDir {
        TallyOne(skipped, Reads(c, names[..i + 1], names[i + 1..], SubDir), Reads(c, [], all, SubDir));
      }
    }
  }

  lemma DeletingDone(c: Kinds, all: seq<cstring>, names: seq<cstring>, deleted: uint32, notDeleted: uint32,
    skipped: uint32)
    requires Deleting(c, all, names, |names|, deleted, notDeleted, skipped)
    ensures names == Survivors(c, all)
    ensures deleted == Count(c, all, Deletable) % WRAP32
    ensures notDeleted == Reads(c, [], all, Stuck) % WRAP32 && skipped == Reads(c, [], all, SubDir) % WRAP32
  {
    SurvivorsAll(c, names);
    CountPositive(c, names, Deletable);
    assert Reads(c, names[..|names|], names[|names|..], Stuck) == 0 ==
      Reads(c, names[..|names|], names[|names|..], SubDir);
    hide Reads;
    hide Count;
    hide Survivors;
    TallyDone(deleted, Count(c, all, Deletable));
    TallyDone(notDeleted, Reads(c, [], all, Stuck));
    TallyDone(skipped, Reads(c, [], all, SubDir));
  }
}
