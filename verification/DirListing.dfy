/** Which entries DIR_SendListPktCmd and WriteDirListToFile of dir.c list, and how a listing is
    laid out in a file. */
module DirListing {
  import opened Wrappers
  import opened Directories
  import opened Bytes
  import opened OutputFiles

  const FILEMGR_DIR_LIST_PKT_ENTRIES := 20

  /** DIR_FileEntry. */
  datatype FileEntry = FileEntry(name: cstring, size: uint32, time: uint32, mode: uint32)

  const NO_ENTRY := FileEntry([], 0, 0, 0)

  /** The name fits into an entry, and its path into a path. */
  predicate Fits(d: cstring, name: cstring) {
    |name| < OS_MAX_PATH_LEN && |d| + |name| < OS_MAX_PATH_LEN
  }

  /** LoadFileEntry. */
  function Loaded(w: World, d: cstring, name: cstring, includeSizeTime: bool): FileEntry {
    if includeSizeTime && w.stat(d + name).Some? then
      var s := w.stat(d + name).value;
      FileEntry(name, s.size, s.time, s.mode)
    else FileEntry(name, 0, 0, 0)
  }

  /** What an entry tells of a file: its name, and, if they are asked for and known, size, time and mode;
      otherwise these are zero. */
  ghost predicate Tells(e: FileEntry, w: World, d: cstring, name: cstring, includeSizeTime: bool) {
    && e.name == name
    && (forall s :: includeSizeTime && w.stat(d + name) == Some(s) ==>
          e.size == s.size && e.time == s.time && e.mode == s.mode)
    && (!includeSizeTime || w.stat(d + name) == None ==> e.size == 0 && e.time == 0 && e.mode == 0)
  }

  lemma LoadedTells(w: World, d: cstring, name: cstring, includeSizeTime: bool)
    ensures Tells(Loaded(w, d, name, includeSizeTime), w, d, name, includeSizeTime)
  {
  }

  lemma LoadedAllTell(w: World, d: cstring, names: seq<cstring>, includeSizeTime: bool)
    ensures var r := LoadedAll(w, d, names, includeSizeTime);
      |r| == |names| && forall i :: 0 <= i < |r| ==> Tells(r[i], w, d, names[i], includeSizeTime)
  {
    LoadedAt(w, d, names, includeSizeTime);
    hide LoadedAll;
    hide Loaded;
    hide Tells;
    forall i | 0 <= i < |names| { LoadedTells(w, d, names[i], includeSizeTime); }
  }

  function LoadedAll(w: World, d: cstring, names: seq<cstring>, includeSizeTime: bool): seq<FileEntry> {
    if names == [] then []
    else LoadedAll(w, d, names[..|names| - 1], includeSizeTime) + [Loaded(w, d, names[|names| - 1], includeSizeTime)]
  }

  lemma {:induction false} LoadedAt(w: World, d: cstring, names: seq<cstring>, includeSizeTime: bool)
    ensures var r := LoadedAll(w, d, names, includeSizeTime);
      |r| == |names| && forall i :: 0 <= i < |r| ==> r[i] == Loaded(w, d, names[i], includeSizeTime)
  {
    if names != [] { LoadedAt(w, d, names[..|names| - 1], includeSizeTime); }
  }

  /** The names that the loops accept: they fit, and their number, as counted, is above the offset. */
  function Accepted(d: cstring, names: seq<cstring>, offset: int): seq<cstring> {
    if names == [] then []
    else
      Accepted(d, names[..|names| - 1], offset)
      + if |names| % WRAP32 > offset && Fits(d, names[|names| - 1]) then [names[|names| - 1]] else []
  }

  /** The names that are reported as too long: those above the offset, until the listing is full. */
  function TooLong(d: cstring, names: seq<cstring>, offset: int, max: nat): nat {
    if names == [] then 0
    else
      TooLong(d, names[..|names| - 1], offset, max)
      + if |names| % WRAP32 > offset && |Accepted(d, names[..|names| - 1], offset)| < max
        && !Fits(d, names[|names| - 1])
        then 1 else 0
  }

  function First<X>(names: seq<X>, max: nat): seq<X> {
    if |names| <= max then names else names[..max]
  }

  function Fitting(d: cstring, names: seq<cstring>): seq<cstring> {
    if names == [] then []
    else Fitting(d, names[..|names| - 1]) + if Fits(d, names[|names| - 1]) then [names[|names| - 1]] else []
  }

  /** The names whose paths are shorter than 64, in order. */
  lemma {:induction false} FittingPicked(d: cstring, names: seq<cstring>) returns (at: seq<nat>)
    ensures Picks(names, at, Fitting(d, names))
    ensures forall k :: 0 <= k < |names| ==> (k in at <==> |d| + |names[k]| < 64)
  {
    at := [];
    if names != [] {
      var rest, last := names[..|names| - 1], names[|names| - 1];
      at := FittingPicked(d, rest);
      PicksMore(rest, at, Fitting(d, rest), last);
      assert rest + [last] == names;
      if Fits(d, last) { at := at + [|rest|]; }
      hide Picks;
    }
  }

  /** The first `max` of them from some place on: none that fits is left out in front of another. */
  lemma FirstPicked(d: cstring, names: seq<cstring>, from: nat, max: nat) returns (at: seq<nat>)
    requires from <= |names|
    ensures Picks(names, at, First(Fitting(d, names[from..]), max)) && |at| <= max
    ensures forall k :: 0 <= k < |names| ==>
      (k in at <==> from <= k && |d| + |names[k]| < 64 && (|at| < max || (max > 0 && k <= at[max - 1])))
  {
    var p := FittingPicked(d, names[from..]);
    var q := Shifted(names, from, p, Fitting(d, names[from..]));
    at := First(q, max);
    FirstOf(names, q, Fitting(d, names[from..]), max);
    hide Picks;
    hide First;
    forall k | 0 <= k < |names| ensures k in q <==> from <= k && |d| + |names[k]| < 64 {
      if from <= k { assert names[from..][k - from] == names[k]; }
    }
  }

  lemma FirstOf<X>(names: seq<X>, at: seq<nat>, to: seq<X>, max: nat)
    requires Picks(names, at, to)
    ensures var q := First(at, max);
      && Picks(names, q, First(to, max)) && |q| <= max
      && forall k :: k in q <==> k in at && (|q| < max || (max > 0 && k <= q[max - 1]))
  {
    var q := First(at, max);
    forall k | k in at && (|q| < max || (max > 0 && k <= q[max - 1])) ensures k in q {
      var i :| 0 <= i < |at| && at[i] == k;
      assert i < |q| ==> q[i] == k;
    }
  }

  /** Places in the rest of a sequence. */
  lemma Shifted<X>(names: seq<X>, from: nat, at: seq<nat>, to: seq<X>) returns (q: seq<nat>)
    requires from <= |names| && Picks(names[from..], at, to)
    ensures Picks(names, q, to) && forall k: nat :: k in q <==> from <= k && k - from in at
  {
    q := seq(|at|, i requires 0 <= i < |at| => from + at[i]);
    forall k: nat | from <= k && k - from in at ensures k in q {
      var i :| 0 <= i < |at| && at[i] == k - from;
      assert q[i] == k;
    }
  }

  /** Below 2^32 entries: the names from the offset on that fit. */
  lemma {:induction false} AcceptedIsFitting(d: cstring, names: seq<cstring>, offset: int)
    requires |names| < WRAP32 && -1 <= offset
    ensures Accepted(d, names, offset) ==
      if offset <= 0 then Fitting(d, names) else if |names| <= offset then [] else Fitting(d, names[offset..])
  {
    if names != [] {
      hide Accepted;
      hide Fitting;
      hide Fits;
      AcceptedLast(d, names, offset);
      AcceptedIsFitting(d, names[..|names| - 1], offset);
      if offset <= 0 {
        FittingLast(d, names);
      } else if offset < |names| {
        FittingFrom(d, names, offset);
        if offset == |names| - 1 { NothingFits(d, names[..offset], offset); }
      }
    }
  }

  lemma AcceptedLast(d: cstring, names: seq<cstring>, offset: int)
    requires names != [] && |names| < WRAP32
    ensures Accepted(d, names, offset) == Accepted(d, names[..|names| - 1], offset)
      + if |names| > offset && Fits(d, names[|names| - 1]) then [names[|names| - 1]] else []
  {
  }

  lemma FittingLast(d: cstring, names: seq<cstring>)
    requires names != []
    ensures Fitting(d, names) == Fitting(d, names[..|names| - 1])
      + if Fits(d, names[|names| - 1]) then [names[|names| - 1]] else []
  {
  }

  lemma NothingFits(d: cstring, names: seq<cstring>, offset: nat)
    requires offset == |names|
    ensures Fitting(d, names[offset..]) == []
  {
  }

  lemma FittingFrom(d: cstring, names: seq<cstring>, offset: nat)
    requires offset < |names|
    ensures Fitting(d, names[offset..]) == Fitting(d, names[..|names| - 1][offset..])
      + if Fits(d, names[|names| - 1]) then [names[|names| - 1]] else []
  {
    hide Fits;
    assert names[offset..][..|names| - offset - 1] == names[..|names| - 1][offset..];
  }

  /** Without an offset the counter does not matter. */
  lemma {:induction false} AcceptedUncounted(d: cstring, names: seq<cstring>)
    ensures Accepted(d, names, -1) == Fitting(d, names)
  {
    if names != [] { AcceptedUncounted(d, names[..|names| - 1]); }
  }

  lemma {:induction false} FittingFits(d: cstring, names: seq<cstring>)
    ensures forall i :: 0 <= i < |Fitting(d, names)| ==> Fits(d, Fitting(d, names)[i])
    ensures (forall i :: 0 <= i < |names| ==> Fits(d, names[i])) ==> Fitting(d, names) == names
  {
    if names != [] { FittingFits(d, names[..|names| - 1]); }
  }

  /** One name more, as the loops treat it. */
  lemma FirstStep(d: cstring, names: seq<cstring>, name: cstring, offset: int, max: nat)
    ensures var above := (|names| + 1) % WRAP32 > offset;
      var shown := First(Accepted(d, names, offset), max);
      && First(Accepted(d, names + [name], offset), max)
         == (if above && |shown| < max && Fits(d, name) then shown + [name] else shown)
      && TooLong(d, names + [name], offset, max)
         == TooLong(d, names, offset, max) + if above && |shown| < max && !Fits(d, name) then 1 else 0
  {
    assert (names + [name])[..|names|] == names;
  }

  // ---- Pages

  /** What one packet shows of a directory whose entries other than "." and ".." are `names`. */
  function Page(d: cstring, names: seq<cstring>, offset: nat): seq<cstring> {
    First(Accepted(d, names, offset), FILEMGR_DIR_LIST_PKT_ENTRIES)
  }

  /** It shows the first 20 of the names from the offset on whose paths are shorter than 64. */
  lemma PageIs(d: cstring, names: seq<cstring>, offset: nat) returns (at: seq<nat>)
    requires |names| < WRAP32
    ensures Picks(names, at, Page(d, names, offset)) && |at| <= 20
    ensures forall k :: 0 <= k < |names| ==>
      (k in at <==> offset <= k && |d| + |names[k]| < 64 && (|at| < 20 || k <= at[19]))
  {
    AcceptedIsFitting(d, names, offset);
    if offset < |names| {
      assert offset == 0 ==> names[offset..] == names;
      at := FirstPicked(d, names, offset, FILEMGR_DIR_LIST_PKT_ENTRIES);
    } else {
      at := [];
    }
  }

  /** The pages at this offset, 20 further, and so on to the end of the directory. */
  function Pages(d: cstring, names: seq<cstring>, offset: nat): seq<cstring>
    decreases |names| - offset
  {
    if offset >= |names| then [] else Page(d, names, offset) + Pages(d, names, offset + FILEMGR_DIR_LIST_PKT_ENTRIES)
  }

  /** The offset of a page is sent as a uint16. */
  lemma {:induction false} PagesShowRest(d: cstring, names: seq<cstring>, offset: nat)
    requires |names| <= 0x1_0000 && offset <= |names| && forall i :: 0 <= i < |names| ==> Fits(d, names[i])
    ensures Pages(d, names, offset) == names[offset..]
    decreases |names| - offset
  {
    if offset < |names| {
      var rest := names[offset..];
      assert Accepted(d, names, offset) == rest by {
        AcceptedIsFitting(d, names, offset);
        FittingFits(d, rest);
        assert offset == 0 ==> rest == names;
      }
      var next := offset + FILEMGR_DIR_LIST_PKT_ENTRIES;
      if next <= |names| {
        PagesShowRest(d, names, next);
        assert rest == names[offset..next] + names[next..];
        assert First(rest, FILEMGR_DIR_LIST_PKT_ENTRIES) == names[offset..next];
      }
    }
  }

  lemma PageFits(d: cstring, names: seq<cstring>, offset: nat)
    requires |names| <= 0x1_0000
    ensures forall i :: 0 <= i < |Page(d, names, offset)| ==> Fits(d, Page(d, names, offset)[i])
  {
    AcceptedIsFitting(d, names, offset);
    FittingFits(d, names);
    if offset <= |names| { FittingFits(d, names[offset..]); }
    hide Accepted;
    hide Fitting;
    hide Fits;
  }

  lemma {:induction false} PagesFit(d: cstring, names: seq<cstring>, offset: nat)
    requires |names| <= 0x1_0000
    ensures forall i :: 0 <= i < |Pages(d, names, offset)| ==> Fits(d, Pages(d, names, offset)[i])
    decreases |names| - offset
  {
    hide Page;
    hide Fits;
    if offset < |names| {
      PageFits(d, names, offset);
      PagesFit(d, names, offset + FILEMGR_DIR_LIST_PKT_ENTRIES);
    }
  }

  /** The pages of a directory show each entry once and in order exactly when every name fits. */
  lemma PagesShowAll(d: cstring, names: seq<cstring>)
    requires |names| <= 0x1_0000
    ensures Pages(d, names, 0) == names <==> forall i :: 0 <= i < |names| ==> Fits(d, names[i])
  {
    PagesFit(d, names, 0);
    if forall i :: 0 <= i < |names| ==> Fits(d, names[i]) {
      PagesShowRest(d, names, 0);
      assert names[0..] == names;
    }
  }

  // ---- A listing in a file, on a little-endian processor

  const STATS_LEN := OS_MAX_PATH_LEN + 8
  const ENTRY_LEN := OS_MAX_PATH_LEN + 12

  /** DIR_ListFilesStats. */
  datatype Stats = Stats(dirName: cstring, dirFileCnt: uint32, filesWrittenCnt: uint32)

  function StatsImage(s: Stats): (b: seq<uint8>)
    requires |s.dirName| < OS_MAX_PATH_LEN
    ensures |b| == STATS_LEN
  {
    NameOver(s.dirName, Zeros(OS_MAX_PATH_LEN)) + Little32(s.dirFileCnt) + Little32(s.filesWrittenCnt)
  }

  function StatsOf(b: seq<uint8>): Stats
    requires |b| == STATS_LEN
  {
    Stats(CString(b[..OS_MAX_PATH_LEN]), FromLittle32(b[OS_MAX_PATH_LEN..OS_MAX_PATH_LEN + 4]),
      FromLittle32(b[OS_MAX_PATH_LEN + 4..]))
  }

  lemma StatsReadBack(s: Stats)
    requires |s.dirName| < OS_MAX_PATH_LEN
    ensures StatsOf(StatsImage(s)) == s
    ensures var b := StatsImage(s);
      && b[..64] == NameOver(s.dirName, Zeros(64))
      && b[64..68] == Little32(s.dirFileCnt) && b[68..72] == Little32(s.filesWrittenCnt)
  {
    var n := NameOver(s.dirName, Zeros(OS_MAX_PATH_LEN));
    CStringOf(s.dirName, Zeros(OS_MAX_PATH_LEN)[|s.dirName| + 1..]);
    Little32ReadBack(s.dirFileCnt);
    Little32ReadBack(s.filesWrittenCnt);
    var b := n + Little32(s.dirFileCnt) + Little32(s.filesWrittenCnt);
    hide NameOver;
    hide CString;
    hide FromLittle32;
    hide Little32;
    assert b[..OS_MAX_PATH_LEN] == n;
    assert b[OS_MAX_PATH_LEN..OS_MAX_PATH_LEN + 4] == Little32(s.dirFileCnt);
    assert b[OS_MAX_PATH_LEN + 4..] == Little32(s.filesWrittenCnt);
  }

  /** An entry as it is written, with the name over what was in the array. */
  function EntryImage(e: FileEntry, buffer: seq<uint8>): (b: seq<uint8>)
    requires |e.name| < OS_MAX_PATH_LEN == |buffer|
    ensures |b| == ENTRY_LEN
  {
    NameOver(e.name, buffer) + Little32(e.size) + Little32(e.time) + Little32(e.mode)
  }

  function EntryOf(b: seq<uint8>): FileEntry
    requires |b| == ENTRY_LEN
  {
    var n := OS_MAX_PATH_LEN;
    FileEntry(CString(b[..n]), FromLittle32(b[n..n + 4]), FromLittle32(b[n + 4..n + 8]), FromLittle32(b[n + 8..]))
  }

  lemma EntryReadBack(e: FileEntry, buffer: seq<uint8>)
    requires |e.name| < OS_MAX_PATH_LEN == |buffer|
    ensures EntryOf(EntryImage(e, buffer)) == e
    ensures var b := EntryImage(e, buffer);
      && b[..64] == NameOver(e.name, buffer)
      && b[64..68] == Little32(e.size) && b[68..72] == Little32(e.time) && b[72..76] == Little32(e.mode)
  {
    var n, size, time, mode := NameOver(e.name, buffer), Little32(e.size), Little32(e.time), Little32(e.mode);
    CStringOf(e.name, buffer[|e.name| + 1..]);
    Little32ReadBack(e.size);
    Little32ReadBack(e.time);
    Little32ReadBack(e.mode);
    var b := n + size + time + mode;
    var at := OS_MAX_PATH_LEN;
    assert CString(n) == e.name;
    hide NameOver;
    hide CString;
    hide FromLittle32;
    hide Little32;
    assert b[..at] == n && b[at..at + 4] == size && b[at + 4..at + 8] == time && b[at + 8..] == mode;
  }

  /** The entries of a file behind its statistics. */
  function EntriesOf(b: seq<uint8>): seq<FileEntry> {
    if |b| < ENTRY_LEN then [] else EntriesOf(b[..|b| - ENTRY_LEN]) + [EntryOf(b[|b| - ENTRY_LEN..])]
  }

  lemma EntriesAppend(b: seq<uint8>, e: FileEntry, buffer: seq<uint8>)
    requires |e.name| < OS_MAX_PATH_LEN == |buffer|
    ensures EntriesOf(b + EntryImage(e, buffer)) == EntriesOf(b) + [e]
  {
    var i := EntryImage(e, buffer);
    EntryReadBack(e, buffer);
    hide EntryImage;
    hide EntryOf;
    assert (b + i)[..|b|] == b && (b + i)[|b|..] == i;
  }

  /** What a reader of a listing finds: the file header, the statistics and the entries. */
  ghost predicate IsListFile(content: seq<uint8>, header: seq<uint8>, stats: Stats, entries: seq<FileEntry>) {
    && |content| == |header| + STATS_LEN + ENTRY_LEN * |entries|
    && content[..|header|] == header
    && StatsOf(content[|header|..|header| + STATS_LEN]) == stats
    && EntriesOf(content[|header| + STATS_LEN..]) == entries
  }

  /** The entries written so far, behind a header and some statistics. */
  ghost predicate HasEntries(content: seq<uint8>, header: seq<uint8>, entries: seq<FileEntry>) {
    && |content| == |header| + STATS_LEN + ENTRY_LEN * |entries|
    && content[..|header|] == header
    && EntriesOf(content[|header| + STATS_LEN..]) == entries
  }

  /** One entry more. */
  lemma HasOneMore(content: seq<uint8>, header: seq<uint8>, entries: seq<FileEntry>, e: FileEntry, buffer: seq<uint8>)
    requires HasEntries(content, header, entries) && |e.name| < OS_MAX_PATH_LEN == |buffer|
    ensures HasEntries(content + EntryImage(e, buffer), header, entries + [e])
  {
    hide EntryImage;
    hide EntriesOf;
    hide EntryOf;
    var i := EntryImage(e, buffer);
    EntriesAppend(content[|header| + STATS_LEN..], e, buffer);
    SplitAppend(content, i, |header| + STATS_LEN);
    SplitAppend(content, i, |header|);
    assert |content + i| == |content| + ENTRY_LEN;
  }

  /** Writing the statistics over the old ones leaves header and entries alone. */
  lemma StatsRewritten(content: seq<uint8>, header: seq<uint8>, entries: seq<FileEntry>, s: Stats)
    requires HasEntries(content, header, entries) && |s.dirName| < OS_MAX_PATH_LEN
    ensures IsListFile(Written(content, |header|, StatsImage(s)), header, s, entries)
  {
    var b := StatsImage(s);
    var after := Written(content, |header|, b);
    StatsReadBack(s);
    WrittenAt(content, |header|, b);
    hide StatsImage;
    hide StatsOf;
    hide EntriesOf;
    assert after[|header| + STATS_LEN..] == content[|header| + STATS_LEN..];
  }
}
