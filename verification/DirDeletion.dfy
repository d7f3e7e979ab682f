/** What DIR_DeleteAllCmd of dir.c does to a directory, and how often its loop reads what it keeps. */
module DirDeletion {
  import opened Wrappers
  import opened Bytes
  import opened Directories

  /** How the loop treats an entry. */
  datatype Kind = Dot | Deletable | Stuck | SubDir

  function KindOf(w: World, dirWithSep: cstring, name: cstring): Kind {
    if IsDot(name) then Dot
    else if |dirWithSep| + |name| < OS_MAX_PATH_LEN then
      match FileInfo(w, dirWithSep + name)
      case FileClosed => if w.removable(dirWithSep + name) then Deletable else Stuck
      case IsDir => SubDir
      case _ => Stuck
    else Stuck
  }

  /** Which entries are removed, which are counted as directories, and which are passed over; all
      others are counted as not deleted. */
  lemma KindIs(w: World, d: cstring, name: cstring)
    ensures KindOf(w, d, name) == Dot <==> name == [46] || name == [46, 46]
    ensures KindOf(w, d, name) == Deletable <==>
      && name != [46] && name != [46, 46] && 0 < |d + name| < 64
      && (forall i :: 0 <= i < |d + name| ==> ValidChar((d + name)[i]))
      && w.state(d + name) == FileClosed && w.removable(d + name)
    ensures KindOf(w, d, name) == SubDir <==>
      && name != [46] && name != [46, 46] && 0 < |d + name| < 64
      && (forall i :: 0 <= i < |d + name| ==> ValidChar((d + name)[i]))
      && w.state(d + name) == IsDir
  {
    assert |d + name| == |d| + |name|;
    hide ValidChar;
  }

  type Kinds = cstring -> Kind

  function Classified(w: World, dirWithSep: cstring): Kinds {
    (name: cstring) => KindOf(w, dirWithSep, name)
  }

  function Count(c: Kinds, names: seq<cstring>, k: Kind): nat {
    if names == [] then 0 else Count(c, names[..|names| - 1], k) + if c(names[|names| - 1]) == k then 1 else 0
  }

  lemma {:induction false} CountAppend(c: Kinds, a: seq<cstring>, b: seq<cstring>, k: Kind)
    ensures Count(c, a + b, k) == Count(c, a, k) + Count(c, b, k)
  {
    if b == [] {
      assert a + b == a;
    } else {
      assert (a + b)[..|a + b| - 1] == a + b[..|b| - 1];
      CountAppend(c, a, b[..|b| - 1], k);
    }
  }

  lemma {:induction false} CountPositive(c: Kinds, names: seq<cstring>, k: Kind)
    ensures Count(c, names, k) <= |names|
    ensures Count(c, names, k) > 0 <==> exists i :: 0 <= i < |names| && c(names[i]) == k
  {
    if names != [] {
      CountPositive(c, names[..|names| - 1], k);
    }
  }

  /** The entries that the command keeps. */
  function Survivors(c: Kinds, names: seq<cstring>): seq<cstring> {
    if names == [] then []
    else Survivors(c, names[..|names| - 1]) + if c(names[|names| - 1]) == Deletable then [] else [names[|names| - 1]]
  }

  lemma {:induction false} SurvivorsAppend(c: Kinds, a: seq<cstring>, b: seq<cstring>)
    ensures Survivors(c, a + b) == Survivors(c, a) + Survivors(c, b)
  {
    if b == [] {
      assert a + b == a;
    } else {
      var t := b[..|b| - 1];
      assert (a + b)[..|a + b| - 1] == a + t;
      SurvivorsAppend(c, a, t);
    }
  }

  lemma {:induction false} SurvivorsAll(c: Kinds, names: seq<cstring>)
    requires forall i :: 0 <= i < |names| ==> c(names[i]) != Deletable
    ensures Survivors(c, names) == names
  {
    if names != [] { SurvivorsAll(c, names[..|names| - 1]); }
  }

  /** All entries that are not removed, in order. */
  lemma {:induction false} SurvivorsPicked(c: Kinds, names: seq<cstring>) returns (at: seq<nat>)
    ensures Picks(names, at, Survivors(c, names))
    ensures forall k :: 0 <= k < |names| ==> (k in at <==> c(names[k]) != Deletable)
    ensures Count(c, names, Deletable) == |names| - |at|
  {
    at := [];
    if names != [] {
      var rest, last := names[..|names| - 1], names[|names| - 1];
      at := SurvivorsPicked(c, rest);
      PicksMore(rest, at, Survivors(c, rest), last);
      assert rest + [last] == names;
      if c(last) != Deletable { at := at + [|rest|]; }
      hide Picks;
    }
  }

  lemma {:induction false} SurvivorsKept(c: Kinds, names: seq<cstring>)
    ensures forall i :: 0 <= i < |Survivors(c, names)| ==> c(Survivors(c, names)[i]) != Deletable
  {
    if names != [] { SurvivorsKept(c, names[..|names| - 1]); }
  }

  lemma CountLast(c: Kinds, names: seq<cstring>, k: Kind)
    requires names != []
    ensures Count(c, names, k) == Count(c, names[..|names| - 1], k) + if c(names[|names| - 1]) == k then 1 else 0
  {
  }

  lemma CountOne(c: Kinds, name: cstring, k: Kind)
    ensures Count(c, [name], k) == if c(name) == k then 1 else 0
  {
    assert [name][..0] == [];
  }

  lemma {:induction false} SurvivorsCount(c: Kinds, names: seq<cstring>, k: Kind)
    requires k != Deletable
    ensures Count(c, Survivors(c, names), k) == Count(c, names, k)
  {
    if names != [] {
      var t, last := names[..|names| - 1], names[|names| - 1];
      var s := Survivors(c, t);
      assert Survivors(c, names) == s + if c(last) == Deletable then [] else [last];
      hide Survivors;
      CountLast(c, names, k);
      SurvivorsCount(c, t, k);
      hide Count;
      CountAppend(c, s, [last], k);
      CountOne(c, last, k);
      assert s + [] == s;
    }
  }

  /** How often the loop reads an entry of kind `k`, when it has read past `done` and is about to
      read `todo`: a removal starts it over. */
  function Reads(c: Kinds, done: seq<cstring>, todo: seq<cstring>, k: Kind): nat
    decreases |done| + |todo|, |todo|
  {
    if todo == [] then 0
    else if c(todo[0]) == Deletable then Reads(c, [], done + todo[1..], k)
    else (if c(todo[0]) == k then 1 else 0) + Reads(c, done + [todo[0]], todo[1..], k)
  }

  /** For every removable entry from the `i`-th on, what is in front of it. */
  function Rereads(c: Kinds, names: seq<cstring>, i: nat, k: Kind): nat
    requires i <= |names|
    decreases |names| - i
  {
    if i == |names| then 0
    else (if c(names[i]) == Deletable then Count(c, names[..i], k) else 0) + Rereads(c, names, i + 1, k)
  }

  /** Reading past entries that are kept. */
  lemma {:induction false} ReadPast(c: Kinds, done: seq<cstring>, kept: seq<cstring>, todo: seq<cstring>, k: Kind)
    requires forall i :: 0 <= i < |kept| ==> c(kept[i]) != Deletable
    ensures Reads(c, done, kept + todo, k) == Count(c, kept, k) + Reads(c, done + kept, todo, k)
    decreases |kept|
  {
    if kept == [] {
      assert kept + todo == todo && done + kept == done;
    } else {
      var t := kept[1..];
      assert (kept + todo)[1..] == t + todo;
      ReadPast(c, done + [kept[0]], t, todo, k);
      assert done + [kept[0]] + t == done + kept;
      CountAppend(c, [kept[0]], t, k);
      assert [kept[0]] + t == kept;
      assert [kept[0]][..0] == [];
    }
  }

  lemma {:induction false} ReadsFrom(c: Kinds, names: seq<cstring>, i: nat, k: Kind)
    requires i <= |names| && k != Deletable
    ensures Reads(c, Survivors(c, names[..i]), names[i..], k) == Count(c, names[i..], k) + Rereads(c, names, i, k)
    decreases |names| - i
  {
    if i < |names| {
      var done, rest := Survivors(c, names[..i]), names[i + 1..];
      var next := Survivors(c, names[..i + 1]);
      ReadsFrom(c, names, i + 1, k);
      assert names[i..] == [names[i]] + rest && names[i..][1..] == rest;
      CountAppend(c, [names[i]], rest, k);
      CountOne(c, names[i], k);
      assert names[..i + 1][..i] == names[..i];
      hide Count;
      if c(names[i]) == Deletable {
        assert next == done;
        hide Survivors;
        SurvivorsKept(c, names[..i]);
        SurvivorsCount(c, names[..i], k);
        ReadPast(c, [], done, rest, k);
        assert [] + done == done;
      } else {
        assert next == done + [names[i]];
      }
    }
  }

  /** In all, an entry that is kept is read once, and once more for every removal behind it. */
  lemma TotalReads(c: Kinds, names: seq<cstring>, k: Kind)
    requires k != Deletable
    ensures Reads(c, [], names, k) == Count(c, names, k) + Rereads(c, names, 0, k)
  {
    ReadsFrom(c, names, 0, k);
    assert names[..0] == [] && names[0..] == names;
  }

  /** Whether the command counts a warning. */
  predicate Warns(c: Kinds, names: seq<cstring>) {
    Reads(c, [], names, Stuck) % WRAP32 > 0 || Reads(c, [], names, SubDir) % WRAP32 > 0
  }

  /** The loop is done with an entry it keeps. */
  lemma KeepStep(c: Kinds, names: seq<cstring>, i: nat, k: Kind)
    requires i < |names| && c(names[i]) != Deletable
    ensures Reads(c, names[..i], names[i..], k)
         == (if c(names[i]) == k then 1 else 0) + Reads(c, names[..i + 1], names[i + 1..], k)
  {
    assert names[..i + 1] == names[..i] + [names[i]] && names[i..][1..] == names[i + 1..];
  }

  /** The loop has removed an entry and starts over. */
  lemma RemoveStep(c: Kinds, names: seq<cstring>, i: nat, k: Kind)
    requires i < |names| && c(names[i]) == Deletable
    requires forall j :: 0 <= j < i ==> c(names[j]) != Deletable
    ensures var after := Without(names, names[i]);
      && |after| == |names| - 1
      && Survivors(c, after) == Survivors(c, names)
      && Count(c, names, Deletable) == Count(c, after, Deletable) + 1
      && Reads(c, names[..i], names[i..], k) == Reads(c, after[..0], after[0..], k)
  {
    WithoutFirst(names, i);
    var after := names[..i] + names[i + 1..];
    var at := [names[i]];
    assert names == names[..i] + at + names[i + 1..] && names[i..][1..] == names[i + 1..];
    assert after[..0] == [] && after[0..] == after && at[..0] == [];
    SurvivorsAppend(c, names[..i] + at, names[i + 1..]);
    SurvivorsAppend(c, names[..i], at);
    SurvivorsAppend(c, names[..i], names[i + 1..]);
    CountAppend(c, names[..i] + at, names[i + 1..], Deletable);
    CountAppend(c, names[..i], at, Deletable);
    CountAppend(c, names[..i], names[i + 1..], Deletable);
  }

  /** `x` counts, as a uint32, what is missing from `rest` to `total`. */
  ghost predicate Tally(x: uint32, rest: nat, total: nat) {
    (x + rest) % WRAP32 == total % WRAP32
  }

  lemma TallyOne(x: uint32, rest: nat, total: nat)
    requires Tally(x, rest + 1, total)
    ensures Tally(Inc32(x), rest, total)
  {
    assert x + 1 < WRAP32 || x + 1 == WRAP32;
  }

  lemma TallyDone(x: uint32, total: nat)
    requires Tally(x, 0, total)
    ensures x == total % WRAP32
  {
  }
}
