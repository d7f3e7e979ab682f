/** When the warning of DIR_DeleteAllCmd tells the truth: its counters count entries over and over,
    in 32 bits. */
module DirWarnings {
  import opened Wrappers
  import opened Bytes
  import opened Directories
  import opened DirDeletion
  import opened DirCommands

  /** Something other than "." and ".." is left. */
  ghost predicate SomethingLeft(c: Kinds, names: seq<cstring>) {
    exists i :: 0 <= i < |names| && (c(names[i]) == Stuck || c(names[i]) == SubDir)
  }

  /** That is what the survivors show. */
  lemma LeftIsLeft(w: World, d: cstring, names: seq<cstring>)
    ensures var c := Classified(w, d);
      SomethingLeft(c, names) <==> exists i :: 0 <= i < |Survivors(c, names)| && !IsDot(Survivors(c, names)[i])
  {
    var c := Classified(w, d);
    var left := Survivors(c, names);
    CountPositive(c, names, Stuck);
    CountPositive(c, names, SubDir);
    SurvivorsCount(c, names, Stuck);
    SurvivorsCount(c, names, SubDir);
    CountPositive(c, left, Stuck);
    CountPositive(c, left, SubDir);
    SurvivorsKept(c, names);
    hide Count;
    hide Survivors;
    forall i | 0 <= i < |left| ensures !IsDot(left[i]) <==> c(left[i]) == Stuck || c(left[i]) == SubDir { }
  }

  /** How often the loop reads entries of a kind that it keeps: once each, and for every removable
      entry those in front of it once more. */
  ghost function ReadCount(c: Kinds, names: seq<cstring>, k: Kind): nat {
    Count(c, names, k) + Rereads(c, names, 0, k)
  }

  lemma NothingReread(c: Kinds, names: seq<cstring>, k: Kind)
    requires k != Deletable
    ensures Reads(c, [], names, k) == ReadCount(c, names, k)
    ensures ReadCount(c, names, k) > 0 <==> exists i :: 0 <= i < |names| && c(names[i]) == k
  {
    TotalReads(c, names, k);
    CountPositive(c, names, k);
    RereadsBound(c, names, 0, k);
  }

  /** The warning is wrong if and only if something is left and both numbers of reads are multiples of 2^32. */
  lemma WarningIsWrong(c: Kinds, names: seq<cstring>)
    ensures (Warns(c, names) <==> SomethingLeft(c, names)) <==>
      !(SomethingLeft(c, names) && ReadCount(c, names, Stuck) % WRAP32 == 0
        && ReadCount(c, names, SubDir) % WRAP32 == 0)
  {
    NothingReread(c, names, Stuck);
    NothingReread(c, names, SubDir);
    hide ReadCount;
    hide Reads;
  }

  /** m * n, by addition. */
  function Product(m: nat, n: nat): nat {
    if m == 0 then 0 else Product(m - 1, n) + n
  }

  /** Every removable entry has at most all kept ones in front of it. */
  lemma {:induction false} RereadsBound(c: Kinds, names: seq<cstring>, i: nat, k: Kind)
    requires i <= |names|
    ensures Rereads(c, names, i, k) <= Product(Count(c, names[i..], Deletable), Count(c, names, k))
    ensures Count(c, names, k) == 0 ==> Rereads(c, names, i, k) == 0
    decreases |names| - i
  {
    hide Count;
    if i < |names| {
      RereadsBound(c, names, i + 1, k);
      CountFront(c, names, i, k);
      CountFrom(c, names, i, Deletable);
    }
  }

  lemma CountFront(c: Kinds, names: seq<cstring>, i: nat, k: Kind)
    requires i <= |names|
    ensures Count(c, names[..i], k) <= Count(c, names, k)
  {
    CountAppend(c, names[..i], names[i..], k);
    assert names == names[..i] + names[i..];
  }

  lemma CountFrom(c: Kinds, names: seq<cstring>, i: nat, k: Kind)
    requires i < |names|
    ensures Count(c, names[i..], k) == Count(c, names[i + 1..], k) + if c(names[i]) == k then 1 else 0
  {
    CountAppend(c, [names[i]], names[i + 1..], k);
    CountOne(c, names[i], k);
    assert names[i..] == [names[i]] + names[i + 1..];
  }

  lemma {:induction false} CountTwo(c: Kinds, names: seq<cstring>, k: Kind)
    requires k != Deletable
    ensures Count(c, names, k) + Count(c, names, Deletable) <= |names|
  {
    if names != [] { CountTwo(c, names[..|names| - 1], k); }
  }

  lemma {:induction false} ProductIsProduct(m: nat, n: nat)
    ensures Product(m, n) == m * n
  {
    if m > 0 {
      ProductIsProduct(m - 1, n);
      assert m * n == (m - 1) * n + n;
    }
  }

  lemma NotMore(s: nat, t: nat, m: nat)
    requires t <= m
    ensures s * t <= s * m
  {
    assert s * m == s * t + s * (m - t);
  }

  lemma AroundTheRoot(u: nat)
    requires u <= 0xffff
    ensures (0xffff - u) * (0x1_0000 + u) < WRAP32
  {
    assert (0xffff - u) * (0x1_0000 + u) == 0xffff * 0x1_0000 - u - u * u;
  }

  /** Of two numbers that add up to less than 2^17 the product is below 2^32. */
  lemma ProductBelow(s: nat, t: nat)
    requires s <= t && s + t < 0x2_0000
    ensures s * t < WRAP32
  {
    var u := 0xffff - s;
    NotMore(s, t, 0x1_0000 + u);
    AroundTheRoot(u);
  }

  lemma ReadsFew(s: nat, d: nat)
    requires s + d < 0x1_ffff
    ensures s + d * s < WRAP32
  {
    assert s + d * s == s * (d + 1) == (d + 1) * s;
    if s <= d + 1 { ProductBelow(s, d + 1); } else { ProductBelow(d + 1, s); }
  }

  lemma ReadsBelow(c: Kinds, names: seq<cstring>, k: Kind)
    requires k != Deletable && |names| < 0x1_ffff
    ensures ReadCount(c, names, k) < WRAP32
  {
    var s, d := Count(c, names, k), Count(c, names, Deletable);
    RereadsBound(c, names, 0, k);
    assert names[0..] == names;
    CountTwo(c, names, k);
    ProductIsProduct(d, s);
    hide Count;
    hide Rereads;
    ReadsFew(s, d);
  }

  /** Below 2^17 - 1 entries the warning is right: it is given exactly if something is left. */
  lemma WarnsIffSomethingLeft(w: World, d: cstring, names: seq<cstring>)
    requires |names| < 0x1_ffff
    ensures var c := Classified(w, d);
      Warns(c, names) <==> exists i :: 0 <= i < |Survivors(c, names)| && !IsDot(Survivors(c, names)[i])
  {
    var c := Classified(w, d);
    WarningIsWrong(c, names);
    LeftIsLeft(w, d, names);
    NothingReread(c, names, Stuck);
    NothingReread(c, names, SubDir);
    ReadsBelow(c, names, Stuck);
    ReadsBelow(c, names, SubDir);
    hide ReadCount;
    hide Survivors;
    hide Warns;
    assert !(SomethingLeft(c, names) && ReadCount(c, names, Stuck) % WRAP32 == 0
      && ReadCount(c, names, SubDir) % WRAP32 == 0);
  }

  // ---- With 2^17 - 1 entries it can be wrong

  const KEPT := 0x1_0000
  const REMOVED := 0xffff

  /** 64 characters: the digits, the letters, '_' and '-'. */
  function Letter(k: nat): uint8
    requires k < 64
  {
    if k < 10 then 48 + k else if k < 36 then 55 + k else if k < 62 then 61 + k else if k == 62 then 95 else 45
  }

  lemma LetterOk(k: nat)
    requires k < 64
    ensures Letter(k) != 0 && ValidChar(Letter(k)) && Letter(k) != DIR_SEP
  {
  }

  lemma LettersApart(k: nat, m: nat)
    requires k < 64 && m < 64 && Letter(k) == Letter(m)
    ensures k == m
  {
  }

  /** 'k' for a file that is kept, 'r' for one that is removed. */
  function Initial(i: nat): uint8 {
    if i < KEPT then 107 else 114
  }

  /** A name of its own for each number. */
  function NameOf(i: nat): (name: cstring)
    requires i < KEPT + REMOVED
    ensures |name| == 4 && name[0] == Initial(i)
    ensures name[1] == Letter(i % 64) && name[2] == Letter(i / 64 % 64) && name[3] == Letter(i / 4096)
  {
    LetterOk(i % 64);
    LetterOk(i / 64 % 64);
    LetterOk(i / 4096);
    [Initial(i), Letter(i % 64), Letter(i / 64 % 64), Letter(i / 4096)]
  }

  /** A name that a directory entry can have and that a path can hold. */
  lemma NameOk(i: nat)
    requires i < KEPT + REMOVED
    ensures ValidFilename(NameOf(i)) && DIR_SEP !in NameOf(i) && !IsDot(NameOf(i))
  {
    LetterOk(i % 64);
    LetterOk(i / 64 % 64);
    LetterOk(i / 4096);
    hide Letter;
  }

  /** 65536 files that cannot be removed in front of 65535 that can. */
  ghost function Crowded(): (names: seq<cstring>)
    ensures |names| == KEPT + REMOVED == 0x1_ffff
    ensures forall i :: 0 <= i < |names| ==> names[i] == NameOf(i)
  {
    seq(KEPT + REMOVED, i requires 0 <= i < KEPT + REMOVED => NameOf(i))
  }

  /** A directory of closed files, of which those can be removed whose names start with 'r'. */
  function MostlyReadOnly(dirName: cstring): World {
    World(
      (p: cstring) => if p == dirName then IsDir else FileClosed,
      (p: cstring) => |p| >= 4 && p[|p| - 4] == 114,
      (p: cstring) => true,
      (p: cstring) => None)
  }

  lemma NamesApart(i: nat, j: nat)
    requires i < j < KEPT + REMOVED
    ensures NameOf(i) != NameOf(j)
  {
    Digits(i);
    Digits(j);
    if NameOf(i) == NameOf(j) {
      LettersApart(i % 64, j % 64);
      LettersApart(i / 64 % 64, j / 64 % 64);
      LettersApart(i / 4096, j / 4096);
    }
  }

  /** A number is that of its three digits. */
  lemma Digits(i: nat)
    ensures i == i / 4096 * 4096 + i / 64 % 64 * 64 + i % 64
  {
    assert i / 4096 == i / 64 / 64;
  }

  /** The directory of the failing input, with its separator. */
  ghost predicate ShortDir(dirName: cstring, d: cstring) {
    ValidFilename(dirName) && AppendPathSep(dirName) == Some(d) && |d| < OS_MAX_PATH_LEN - 4
  }

  lemma CrowdedKind(dirName: cstring, d: cstring, i: nat)
    requires ShortDir(dirName, d) && i < KEPT + REMOVED
    ensures KindOf(MostlyReadOnly(dirName), d, NameOf(i)) == if i < KEPT then Stuck else Deletable
  {
    NameOk(i);
    var name := NameOf(i);
    hide NameOf;
    var path: cstring := d + name;
    assert path[|path| - 4] == name[0];
    assert forall k :: 0 <= k < |d| ==> ValidChar(d[k]);
    hide ValidChar;
    assert ValidFilename(path);
    assert |path| > |dirName|;
  }

  lemma CrowdedKinds(dirName: cstring, d: cstring)
    requires ShortDir(dirName, d)
    ensures var c := Classified(MostlyReadOnly(dirName), d);
      forall i :: 0 <= i < |Crowded()| ==> c(Crowded()[i]) == if i < KEPT then Stuck else Deletable
  {
    hide NameOf;
    forall i | 0 <= i < KEPT + REMOVED { CrowdedKind(dirName, d, i); }
  }

  /** Stuck entries in front of removable ones: counted for each of these, and once at the end. */
  lemma {:induction false} FrontReread(c: Kinds, names: seq<cstring>, s: nat, i: nat)
    requires s <= i <= |names|
    requires forall j :: 0 <= j < |names| ==> c(names[j]) == if j < s then Stuck else Deletable
    ensures Rereads(c, names, i, Stuck) == Product(|names| - i, s)
    decreases |names| - i
  {
    if i < |names| {
      FrontReread(c, names, s, i + 1);
      FrontCount(c, names, s, i);
    }
  }

  lemma {:induction false} FrontCount(c: Kinds, names: seq<cstring>, s: nat, i: nat)
    requires i <= |names|
    requires forall j :: 0 <= j < |names| ==> c(names[j]) == if j < s then Stuck else Deletable
    ensures Count(c, names[..i], Stuck) == if i < s then i else s
    ensures Count(c, names[..i], SubDir) == 0
  {
    if i > 0 {
      FrontCount(c, names, s, i - 1);
      assert names[..i][..i - 1] == names[..i - 1];
    }
  }

  lemma {:induction false} FrontSkipped(c: Kinds, names: seq<cstring>, s: nat, i: nat)
    requires i <= s <= |names|
    requires forall j :: 0 <= j < |names| ==> c(names[j]) == if j < s then Stuck else Deletable
    ensures Rereads(c, names, i, Stuck) == Rereads(c, names, s, Stuck)
    decreases s - i
  {
    if i < s { FrontSkipped(c, names, s, i + 1); }
  }

  /** The failing input, in any directory whose path leaves room for the names: the kept files are read
      exactly 2^32 times, so there is no warning although all of them are left. */
  lemma CrowdedIsMissed(dirName: cstring, d: cstring)
    requires ShortDir(dirName, d)
    ensures var w := MostlyReadOnly(dirName);
      var c := Classified(w, d);
      var names := Crowded();
      && Opened(w, dirName) == Some(d)
      && |names| == 0x1_ffff
      && (forall i :: 0 <= i < |names| ==> ValidFilename(names[i]) && DIR_SEP !in names[i] && !IsDot(names[i]))
      && (forall i, j :: 0 <= i < j < |names| ==> names[i] != names[j])
      && SomethingLeft(c, names)
      && ReadCount(c, names, Stuck) == WRAP32
      && !Warns(c, names)
  {
    hide NameOf;
    hide ValidFilename;
    hide Classified;
    hide Warns;
    hide SomethingLeft;
    hide Opened;
    DirectoryOpens(dirName, d);
    CrowdedNames();
    CrowdedKinds(dirName, d);
    MissedInFront(Classified(MostlyReadOnly(dirName), d), Crowded());
  }

  lemma DirectoryOpens(dirName: cstring, d: cstring)
    requires ShortDir(dirName, d)
    ensures Opened(MostlyReadOnly(dirName), dirName) == Some(d)
  {
  }

  lemma CrowdedNames()
    ensures var names := Crowded();
      && (forall i :: 0 <= i < |names| ==> ValidFilename(names[i]) && DIR_SEP !in names[i] && !IsDot(names[i]))
      && (forall i, j :: 0 <= i < j < |names| ==> names[i] != names[j])
  {
    hide NameOf;
    hide ValidFilename;
    hide IsDot;
    forall i | 0 <= i < KEPT + REMOVED { NameOk(i); }
    forall i, j | 0 <= i < j < KEPT + REMOVED { NamesApart(i, j); }
  }

  /** As many kept files in front of one less that can be removed. */
  lemma MissedInFront(c: Kinds, names: seq<cstring>)
    requires |names| == KEPT + REMOVED
    requires forall i :: 0 <= i < |names| ==> c(names[i]) == if i < KEPT then Stuck else Deletable
    ensures SomethingLeft(c, names) && ReadCount(c, names, Stuck) == WRAP32 && !Warns(c, names)
  {
    assert c(names[0]) == Stuck;
    FrontCount(c, names, KEPT, |names|);
    assert names[..|names|] == names;
    FrontSkipped(c, names, KEPT, 0);
    FrontReread(c, names, KEPT, KEPT);
    ProductIsProduct(REMOVED, KEPT);
    hide Count;
    hide Rereads;
    NothingReread(c, names, Stuck);
    NothingReread(c, names, SubDir);
    NoSubDirs(c, names);
  }

  lemma NoSubDirs(c: Kinds, names: seq<cstring>)
    requires forall i :: 0 <= i < |names| ==> c(names[i]) != SubDir
    ensures Reads(c, [], names, SubDir) == 0
  {
    NothingReread(c, names, SubDir);
    hide Reads;
    hide ReadCount;
  }
}
