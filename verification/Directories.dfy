/** Directories, their entries and the path helpers of fileutil.c, as the directory commands see them. */
module Directories {
  import opened Wrappers
  import opened Bytes

  const OS_MAX_PATH_LEN := 64

  // FILEUTIL_CURRENT_DIR, FILEUTIL_PARENT_DIR and FILEUTIL_DIR_SEP_CHAR
  const CURRENT_DIR: cstring := [46]
  const PARENT_DIR: cstring := [46, 46]
  const DIR_SEP: uint8 := 47

  // FileUtil_FileState
  datatype FileState = FilenameInvalid | Nonexistent | FileOpen | FileClosed | IsDir

  datatype Stat = Stat(size: uint32, time: uint32, mode: uint32)

  /** What the operating system answers: the state of a path, whether removing it and opening
      it as a directory succeed, and its status. */
  datatype World = World(state: cstring -> FileState, removable: cstring -> bool,
                         opens: cstring -> bool, stat: cstring -> Option<Stat>)

  predicate IsAlnum(c: uint8) {
    48 <= c <= 57 || 65 <= c <= 90 || 97 <= c <= 122
  }

  /** The characters that IsValidFilename allows: letters, digits and `~!@#$^&_-/.+= . */
  predicate ValidChar(c: uint8) {
    IsAlnum(c) || c in {96, 126, 33, 64, 35, 36, 94, 38, 95, 45, 47, 46, 43, 61}
  }

  /** In characters. */
  lemma ValidCharsAre(c: uint8)
    ensures ValidChar(c) <==>
      var ch := c as char;
      || '0' <= ch <= '9' || 'A' <= ch <= 'Z' || 'a' <= ch <= 'z'
      || ch in ['`', '~', '!', '@', '#', '$', '^', '&', '_', '-', '/', '.', '+', '=']
  {
    assert forall x: char :: x in ['`', '~', '!', '@', '#', '$', '^', '&', '_', '-', '/', '.', '+', '='] <==>
      x == '`' || x == '~' || x == '!' || x == '@' || x == '#' || x == '$' || x == '^' || x == '&' || x == '_'
      || x == '-' || x == '/' || x == '.' || x == '+' || x == '=';
  }

  /** FileUtil_VerifyFilenameStr. */
  predicate ValidFilename(path: cstring) {
    0 < |path| < OS_MAX_PATH_LEN && forall i :: 0 <= i < |path| ==> ValidChar(path[i])
  }

  /** FileUtil_GetFileInfo. */
  function FileInfo(w: World, path: cstring): FileState {
    if ValidFilename(path) then w.state(path) else FilenameInvalid
  }

  /** FileUtil_AppendPathSep into a buffer of OS_MAX_PATH_LEN. */
  function AppendPathSep(dir: cstring): (r: Option<cstring>)
    ensures r.Some? ==> 0 < |r.value| < OS_MAX_PATH_LEN && r.value[|r.value| - 1] == DIR_SEP && dir <= r.value
  {
    if 0 < |dir| < OS_MAX_PATH_LEN then
      if dir[|dir| - 1] == DIR_SEP then Some(dir)
      else if |dir| < OS_MAX_PATH_LEN - 1 then Some(dir + [DIR_SEP])
      else None
    else None
  }

  predicate IsDot(name: cstring) {
    name == CURRENT_DIR || name == PARENT_DIR
  }

  /** The entries other than "." and "..", in directory order. */
  function NonDots(names: seq<cstring>): seq<cstring> {
    if names == [] then []
    else NonDots(names[..|names| - 1]) + if IsDot(names[|names| - 1]) then [] else [names[|names| - 1]]
  }

  /** All entries but "." and "..", in order. */
  lemma {:induction false} NonDotsPicked(names: seq<cstring>) returns (at: seq<nat>)
    ensures Picks(names, at, NonDots(names))
    ensures forall k :: 0 <= k < |names| ==> (k in at <==> names[k] != [46] && names[k] != [46, 46])
  {
    at := [];
    if names != [] {
      var rest, last := names[..|names| - 1], names[|names| - 1];
      at := NonDotsPicked(rest);
      PicksMore(rest, at, NonDots(rest), last);
      assert rest + [last] == names;
      if !IsDot(last) { at := at + [|rest|]; }
      hide Picks;
    }
  }

  lemma NonDotsStep(names: seq<cstring>, i: nat)
    requires i < |names|
    ensures NonDots(names[..i + 1]) == NonDots(names[..i]) + if IsDot(names[i]) then [] else [names[i]]
  {
    assert names[..i + 1][..i] == names[..i];
  }

  /** Without the first occurrence of a name. */
  function Without(names: seq<cstring>, name: cstring): seq<cstring> {
    if names == [] then [] else if names[0] == name then names[1..] else [names[0]] + Without(names[1..], name)
  }

  lemma {:induction false} WithoutFirst(names: seq<cstring>, i: nat)
    requires i < |names| && forall j :: 0 <= j < i ==> names[j] != names[i]
    ensures Without(names, names[i]) == names[..i] + names[i + 1..]
  {
    if i > 0 {
      WithoutFirst(names[1..], i - 1);
      assert names[..i] + names[i + 1..] == [names[0]] + (names[1..][..i - 1] + names[1..][i..]);
    }
  }

  /** An open directory with its read position. */
  class Directory {
    var entries: seq<cstring>
    var next: nat

    constructor (entries: seq<cstring>)
      ensures this.entries == entries && next == 0
    {
      this.entries := entries;
      next := 0;
    }

    /** OS_DirectoryRead; None at the end. */
    method Read() returns (name: Option<cstring>)
      modifies this`next
      ensures name == if old(next) < |entries| then Some(entries[old(next)]) else None
      ensures next == if old(next) < |entries| then old(next) + 1 else old(next)
    {
      if next < |entries| {
        name := Some(entries[next]);
        next := next + 1;
      } else {
        name := None;
      }
    }

    /** OS_DirectoryOpen and OS_DirectoryRewind. */
    method Rewind()
      modifies this`next
      ensures next == 0
    {
      next := 0;
    }

    /** OS_remove of an entry. */
    method Remove(name: cstring)
      modifies this`entries
      ensures entries == Without(old(entries), name)
    {
      var i := 0;
      while i < |entries| && entries[i] != name
        invariant 0 <= i <= |entries| && forall j :: 0 <= j < i ==> entries[j] != name
      {
        i := i + 1;
      }
      if i < |entries| {
        WithoutFirst(entries, i);
        entries := entries[..i] + entries[i + 1..];
      } else {
        WithoutNone(entries, name);
      }
    }
  }

  lemma {:induction false} WithoutNone(names: seq<cstring>, name: cstring)
    requires forall j :: 0 <= j < |names| ==> names[j] != name
    ensures Without(names, name) == names
  {
    if names != [] { WithoutNone(names[1..], name); }
  }
}
