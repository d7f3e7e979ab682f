/**
 The stub table of utstubs.c as a value: 200 slots, the cyclic probe order of a
 key, and, for each key and entry type, the list of matching entries in that
 order. The order is what decides which of several entries a stub sees first.
 */
module StubEntries {
  import opened Wrappers

  const MAX_FUNC_STUBS := 200
  const STUBCONTEXT_MAXSIZE := 8

  /** UT_EntryKey_t, an address-sized integer. */
  type Key = nat

  /** An address; 0 is NULL. */
  type Ptr = nat

  datatype EntryType =
    Unused | Counter | ForceFail | DeferredRc | DataBuffer | CallbackHook | CallbackContext | CallOnce

  datatype Argument = Argument(ptr: Ptr, size: nat)

  /** The union inside an entry. Blank is the all-zero block left by memset. */
  datatype EntryData =
    | Blank
    | Retcode(count: uint32, value: int32)
    | Buffer(position: nat, totalSize: nat, base: Ptr)
    | Callback(hook: Ptr, arg: Ptr, isVarg: bool)
    | Context(args: seq<Argument>)

  /** `owned` is UT_MODEFLAG_ALLOC_BUF. */
  datatype Entry = Entry(kind: EntryType, key: Key, owned: bool, data: EntryData)

  const UNUSED := Entry(Unused, 0, false, Blank)

  type Slot = i: int | 0 <= i < MAX_FUNC_STUBS
  type Table = s: seq<Entry> | |s| == MAX_FUNC_STUBS witness seq(MAX_FUNC_STUBS, _ => UNUSED)

  /** The hash of a key: never the last slot. */
  function Home(key: Key): (h: Slot)
    ensures h < MAX_FUNC_STUBS - 1
  {
    key % (MAX_FUNC_STUBS - 1)
  }

  /** The slot reached after `d` probes past the home slot, wrapping once. */
  function At(key: Key, d: Slot): Slot {
    var i := Home(key) + d;
    if i >= MAX_FUNC_STUBS then i - MAX_FUNC_STUBS else i
  }

  /** The number of probes past the home slot at which slot `i` is reached. */
  function Dist(key: Key, i: Slot): Slot {
    if i >= Home(key) then i - Home(key) else i + MAX_FUNC_STUBS - Home(key)
  }

  /** Probing starts at the key modulo 199 and goes around all 200 slots, each at one distance. */
  lemma ProbeOrder(key: Key, d: Slot, i: Slot)
    ensures At(key, d) == (key % 199 + d) % 200
    ensures At(key, d) == i <==> Dist(key, i) == d
  {
  }

  /** The test of the probing loop; a search for a free slot compares with key 0. */
  predicate Matches(e: Entry, key: Key, mode: EntryType) {
    e.kind == mode && e.key == if mode == Unused then 0 else key
  }

  /** The least distance from `d` on at which an entry matches. */
  function FindFrom(s: Table, key: Key, mode: EntryType, d: nat): Option<Slot>
    requires d <= |s|
    decreases |s| - d
  {
    if d == |s| then None
    else if Matches(s[At(key, d)], key, mode) then Some(At(key, d))
    else FindFrom(s, key, mode, d + 1)
  }

  /** The matching slot nearest to the key's home, over the whole table. */
  function Find(s: Table, key: Key, mode: EntryType): Option<Slot> {
    FindFrom(s, key, mode, 0)
  }

  ghost predicate IsNearest(s: Table, key: Key, mode: EntryType, i: Slot) {
    && Matches(s[i], key, mode)
    && forall j: Slot :: Matches(s[j], key, mode) ==> Dist(key, i) <= Dist(key, j)
  }

  lemma {:induction false} FindFromIsNearest(s: Table, key: Key, mode: EntryType, d: nat)
    requires d <= |s|
    ensures var r := FindFrom(s, key, mode, d);
      match r
      case None => forall j: Slot :: Dist(key, j) >= d ==> !Matches(s[j], key, mode)
      case Some(i) => && Matches(s[i], key, mode) && Dist(key, i) >= d
                      && forall j: Slot ::
                        d <= Dist(key, j) && Matches(s[j], key, mode) ==> Dist(key, i) <= Dist(key, j)
    decreases |s| - d
  {
    if d < |s| {
      FindFromIsNearest(s, key, mode, d + 1);
      assert Dist(key, At(key, d)) == d;
    }
  }

  /** Find is the full scan: it fails only when nothing matches, and otherwise gives the nearest match. */
  lemma FindIsNearest(s: Table, key: Key, mode: EntryType)
    ensures Find(s, key, mode).None? <==> forall j: Slot :: !Matches(s[j], key, mode)
    ensures forall i: Slot :: Find(s, key, mode) == Some(i) <==> IsNearest(s, key, mode, i)
  {
    FindFromIsNearest(s, key, mode, 0);
    forall i: Slot | IsNearest(s, key, mode, i)
      ensures Find(s, key, mode) == Some(i)
    {
      var f := Find(s, key, mode).value;
      assert Dist(key, f) == Dist(key, i);
      assert At(key, Dist(key, f)) == At(key, Dist(key, i));
    }
  }

  /** A search finds the entry it found before when that is rewritten. */
  lemma Rewritten(s: Table, key: Key, mode: EntryType, i: Slot, e: Entry)
    requires Find(s, key, mode) == Some(i) && Matches(e, key, mode)
    ensures Find(s[i := e], key, mode) == Some(i)
  {
    FindIsNearest(s, key, mode);
    FindIsNearest(s[i := e], key, mode);
    assert IsNearest(s, key, mode, i);
    assert IsNearest(s[i := e], key, mode, i);
  }

  /** The matching entries at distances `lo` up to `hi`, in probe order. */
  function QueueRange(s: Table, key: Key, mode: EntryType, lo: nat, hi: nat): seq<Entry>
    requires lo <= hi <= |s|
    decreases hi - lo
  {
    if lo == hi then []
    else (if Matches(s[At(key, lo)], key, mode) then [s[At(key, lo)]] else []) + QueueRange(s, key, mode, lo + 1, hi)
  }

  /** The entries a key has of one type, in the order in which searches meet them. */
  function Queue(s: Table, key: Key, mode: EntryType): seq<Entry> {
    QueueRange(s, key, mode, 0, |s|)
  }

  lemma {:induction false} QueueSplit(s: Table, key: Key, mode: EntryType, lo: nat, mid: nat, hi: nat)
    requires lo <= mid <= hi <= |s|
    ensures QueueRange(s, key, mode, lo, hi) == QueueRange(s, key, mode, lo, mid) + QueueRange(s, key, mode, mid, hi)
    decreases mid - lo
  {
    if lo < mid {
      QueueSplit(s, key, mode, lo + 1, mid, hi);
    }
  }

  /** Slots that keep their entry, or match neither before nor after, do not change a queue. */
  lemma {:induction false} QueueFrame(s: Table, t: Table, key: Key, mode: EntryType, lo: nat, hi: nat)
    requires lo <= hi <= |s|
    requires forall d :: lo <= d < hi ==>
      s[At(key, d)] == t[At(key, d)] || (!Matches(s[At(key, d)], key, mode) && !Matches(t[At(key, d)], key, mode))
    ensures QueueRange(s, key, mode, lo, hi) == QueueRange(t, key, mode, lo, hi)
    decreases hi - lo
  {
    if lo < hi {
      QueueFrame(s, t, key, mode, lo + 1, hi);
    }
  }

  lemma {:induction false} QueueRangeEmpty(s: Table, key: Key, mode: EntryType, lo: nat, hi: nat)
    requires lo <= hi <= |s|
    ensures QueueRange(s, key, mode, lo, hi) == [] <==> forall d :: lo <= d < hi ==> !Matches(s[At(key, d)], key, mode)
    decreases hi - lo
  {
    if lo < hi {
      QueueRangeEmpty(s, key, mode, lo + 1, hi);
    }
  }

  /** The part of a queue nearer than slot `i`, and the part further away. */
  function Nearer(s: Table, key: Key, mode: EntryType, i: Slot): seq<Entry> {
    QueueRange(s, key, mode, 0, Dist(key, i))
  }

  function Further(s: Table, key: Key, mode: EntryType, i: Slot): seq<Entry> {
    QueueRange(s, key, mode, Dist(key, i) + 1, |s|)
  }

  /** The entry of slot `e` as a queue of its own: one element if it matches. */
  function Single(e: Entry, key: Key, mode: EntryType): seq<Entry> {
    if Matches(e, key, mode) then [e] else []
  }

  lemma QueueAround(s: Table, key: Key, mode: EntryType, i: Slot)
    ensures Queue(s, key, mode) == Nearer(s, key, mode, i) + (Single(s[i], key, mode) + Further(s, key, mode, i))
  {
    var d := Dist(key, i);
    QueueSplit(s, key, mode, 0, d, |s|);
    var rest := QueueRange(s, key, mode, d, |s|);
    assert rest == Single(s[i], key, mode) + Further(s, key, mode, i);
  }

  /** Overwriting slot `i` leaves both sides of it alone. */
  lemma SidesUpdate(s: Table, key: Key, mode: EntryType, i: Slot, e: Entry)
    ensures Nearer(s[i := e], key, mode, i) == Nearer(s, key, mode, i)
    ensures Further(s[i := e], key, mode, i) == Further(s, key, mode, i)
  {
    var d: nat := Dist(key, i);
    var t: Table := s[i := e];
    forall c | 0 <= c < |s| && c != d ensures t[At(key, c)] == s[At(key, c)] { }
    QueueFrame(s, t, key, mode, 0, d);
    QueueFrame(s, t, key, mode, d + 1, |s|);
  }

  /** Overwriting slot `i` changes a queue at the place of `i` only. */
  lemma QueueUpdate(s: Table, key: Key, mode: EntryType, i: Slot, e: Entry)
    ensures Queue(s[i := e], key, mode) == Nearer(s, key, mode, i) + (Single(e, key, mode) + Further(s, key, mode, i))
  {
    SidesUpdate(s, key, mode, i, e);
    QueueAround(s[i := e], key, mode, i);
  }

  lemma NearerEmpty(s: Table, key: Key, mode: EntryType, i: Slot)
    ensures Nearer(s, key, mode, i) == [] <==>
      forall j: Slot :: Dist(key, j) < Dist(key, i) ==> !Matches(s[j], key, mode)
  {
    QueueRangeEmpty(s, key, mode, 0, Dist(key, i));
    forall j: Slot ensures At(key, Dist(key, j)) == j { }
  }

  lemma FurtherEmpty(s: Table, key: Key, mode: EntryType, i: Slot)
    ensures Further(s, key, mode, i) == [] <==>
      forall j: Slot :: Dist(key, j) > Dist(key, i) ==> !Matches(s[j], key, mode)
  {
    QueueRangeEmpty(s, key, mode, Dist(key, i) + 1, |s|);
    forall j: Slot ensures At(key, Dist(key, j)) == j { }
  }

  /** A queue is empty exactly when the search fails. */
  lemma QueueEmpty(s: Table, key: Key, mode: EntryType)
    ensures Queue(s, key, mode) == [] <==> Find(s, key, mode).None?
  {
    hide QueueRange;
    hide Find;
    hide Matches;
    QueueRangeEmpty(s, key, mode, 0, |s|);
    FindIsNearest(s, key, mode);
    forall j: Slot ensures At(key, Dist(key, j)) == j { }
    hide At;
    hide Dist;
  }

  /** A search finds the head of the queue; overwriting that slot replaces the head or drops it. */
  lemma QueueHead(s: Table, key: Key, mode: EntryType, i: Slot, e: Entry)
    requires Find(s, key, mode) == Some(i)
    ensures var q := Queue(s, key, mode);
      && q != [] && q[0] == s[i]
      && Queue(s[i := e], key, mode) == Single(e, key, mode) + q[1..]
  {
    hide *;
    FoundIsFirst(s, key, mode, i);
    QueueAround(s, key, mode, i);
    QueueUpdate(s, key, mode, i, e);
    NilPlus(Single(e, key, mode) + Further(s, key, mode, i));
    DropHead(Queue(s, key, mode), s[i], Further(s, key, mode, i));
  }

  lemma FoundIsFirst(s: Table, key: Key, mode: EntryType, i: Slot)
    requires Find(s, key, mode) == Some(i)
    ensures Nearer(s, key, mode, i) == [] && Single(s[i], key, mode) == [s[i]]
  {
    hide Find;
    hide Nearer;
    FindIsNearest(s, key, mode);
    assert IsNearest(s, key, mode, i);
    NearerEmpty(s, key, mode, i);
  }

  lemma DropHead(q: seq<Entry>, head: Entry, rest: seq<Entry>)
    requires q == [] + ([head] + rest)
    ensures q != [] && q[0] == head && q[1..] == rest
  {
  }

  /** Overwriting a slot leaves alone every queue that neither the old nor the new entry belongs to. */
  lemma QueueOther(s: Table, key: Key, mode: EntryType, i: Slot, e: Entry)
    requires !Matches(s[i], key, mode) && !Matches(e, key, mode)
    ensures Queue(s[i := e], key, mode) == Queue(s, key, mode)
  {
    QueueAround(s, key, mode, i);
    QueueUpdate(s, key, mode, i, e);
  }

  /** A new entry joins its queue at the place its slot has in the probe order. */
  lemma QueueInsert(s: Table, key: Key, mode: EntryType, i: Slot, e: Entry)
    requires !Matches(s[i], key, mode) && Matches(e, key, mode)
    ensures Queue(s, key, mode) == Nearer(s, key, mode, i) + Further(s, key, mode, i)
    ensures Queue(s[i := e], key, mode) == Nearer(s, key, mode, i) + ([e] + Further(s, key, mode, i))
  {
    QueueAround(s, key, mode, i);
    assert Single(s[i], key, mode) + Further(s, key, mode, i) == Further(s, key, mode, i) by {
      NilPlus(Further(s, key, mode, i));
    }
    QueueUpdate(s, key, mode, i, e);
  }

  lemma NilPlus(q: seq<Entry>)
    ensures [] + q == q
  {
  }
}
