/** Where a put lands among the pending messages, told from the table before the call: registering the
    arguments and calling the default stub take and free slots of their own first. */
module StubPutPlace {
  import opened Wrappers
  import opened StubEntries
  import opened StubOps
  import opened StubRuns
  import opened StubLists
  import opened StubCounting
  import opened StubSchedules
  import opened StubStreams
  import opened StubQueue
  import opened StubQueueRoom

  /** The state in which a put or get has registered its arguments and called the default stub. */
  ghost function Prologue(st: State, key: Key, args: seq<Argument>, hooks: Hooks): Outcome<int32>
    requires Valid(st)
  {
    match RegisterAll(st, key, args)
    case Abort => Abort
    case Done(st1, _) => DefaultStub(st1, key, OS_SUCCESS, hooks)
  }

  // ---- The slots that are free when a put takes its slot

  /** The context that a call takes a slot for, as far as other slots are concerned. */
  function NewContext(key: Key): Entry {
    Entry(CallbackContext, key, false, Context([]))
  }

  /** The slot that the counter of a stub takes on its first call: the nearest free one, or the next
      if the context of the call takes that. */
  function CounterSlot(s: Table, key: Key, contextFirst: bool): Option<Slot> {
    match Find(s, key, Unused)
    case None => None
    case Some(u) => if contextFirst then Find(s[u := NewContext(key)], key, Unused) else Some(u)
  }

  function AsSet<X>(o: Option<X>): set<X> {
    match o
    case None => {}
    case Some(x) => {x}
  }

  /** The free slots, without the one that a first call takes for its counter, and with the one of a
      context that was registered before the call, which ends with it. */
  ghost function FreeForPut(s: Table, key: Key, args: seq<Argument>): set<Slot> {
    var context := Find(s, key, CallbackContext);
    var counter :=
      if Find(s, key, Counter).Some? then None else CounterSlot(s, key, args != [] && context.None?);
    Free(s) - AsSet(counter) + AsSet(context)
  }

  /** For a stub that has been called and has no context pending these are the free slots. */
  lemma LaterPutsAreFree(s: Table, key: Key, args: seq<Argument>)
    requires Find(s, key, Counter).Some? && Find(s, key, CallbackContext).None?
    ensures FreeForPut(s, key, args) == Free(s)
  {
  }

  /** Two tables whose slots serve the same purposes. */
  ghost predicate SameShape(s: Table, t: Table) {
    forall i: Slot :: t[i].kind == s[i].kind && t[i].key == s[i].key
  }

  lemma ShapeFinds(s: Table, t: Table, key: Key, mode: EntryType)
    requires SameShape(s, t)
    ensures Find(t, key, mode) == Find(s, key, mode) && Free(t) == Free(s)
  {
    FindIsNearest(s, key, mode);
    FindIsNearest(t, key, mode);
    assert forall i: Slot :: IsNearest(s, key, mode, i) <==> IsNearest(t, key, mode, i);
  }

  lemma ShapeTrans(s: Table, t: Table, u: Table)
    requires SameShape(s, t) && SameShape(t, u)
    ensures SameShape(s, u)
  {
  }

  /** The table after a stub has made sure that it has an entry. */
  function WithEntry(s: Table, e: Entry): Table {
    if Find(s, e.key, e.kind).Some? then s
    else match Find(s, e.key, Unused) case None => s case Some(u) => s[u := e]
  }

  lemma WithEntryShape(s: Table, t: Table, e: Entry)
    requires SameShape(s, t)
    ensures SameShape(WithEntry(s, e), WithEntry(t, e))
  {
    ShapeFinds(s, t, e.key, e.kind);
    ShapeFinds(s, t, e.key, Unused);
  }

  lemma RegisterShape(st: State, key: Key, arg: Argument)
    requires Valid(st)
    ensures var r := RegisterContext(st, key, arg);
      r.Done? ==>
        && SameShape(WithEntry(st.slots, NewContext(key)), r.st.slots)
        && Find(r.st.slots, key, CallbackContext).Some?
  {
    FindIsNearest(st.slots, key, CallbackContext);
    var r := RegisterContext(st, key, arg);
    if r.Done? {
      FindIsNearest(r.st.slots, key, CallbackContext);
      var i := Find(st.slots, key, CallbackContext).GetOr(Find(st.slots, key, Unused).GetOr(0));
      assert Matches(r.st.slots[i], key, CallbackContext);
    }
  }

  lemma {:induction false} RegisterAllShape(st: State, key: Key, args: seq<Argument>)
    requires Valid(st) && args != []
    ensures var r := RegisterAll(st, key, args);
      r.Done? ==> SameShape(WithEntry(st.slots, NewContext(key)), r.st.slots)
    decreases |args|
  {
    RegisterContextValid(st, key, args[0]);
    RegisterShape(st, key, args[0]);
    var r := RegisterContext(st, key, args[0]);
    hide RegisterContext;
    hide Valid;
    if r.Done? && args[1..] != [] {
      RegisterAllShape(r.st, key, args[1..]);
      var r2 := RegisterAll(r.st, key, args[1..]);
      if r2.Done? { ShapeTrans(WithEntry(st.slots, NewContext(key)), r.st.slots, r2.st.slots); }
    }
  }

  lemma ChooseShape(st: State, key: Key, defaultRc: int32)
    requires Valid(st) && Queue(st.slots, key, DeferredRc) == []
    ensures SameShape(st.slots, ChooseRetcode(st, key, defaultRc).0.slots)
  {
    QueueEmpty(st.slots, key, DeferredRc);
    FindIsNearest(st.slots, key, ForceFail);
  }

  lemma CountShape(st: State, key: Key, rc: int32)
    requires Valid(st)
    ensures var r := CountCall(st, key, rc);
      r.Done? ==> SameShape(WithEntry(st.slots, Entry(Counter, key, false, Retcode(1, 0))), r.st.slots)
  {
    FindIsNearest(st.slots, key, Counter);
  }

  /** The table without the context of a stub. */
  function WithoutContext(s: Table, key: Key): Table {
    match Find(s, key, CallbackContext) case None => s case Some(i) => s[i := UNUSED]
  }

  lemma HookShape(st: State, t: Table, key: Key, rc: int32, counter: uint32, hooks: Hooks)
    requires Valid(st) && SameShape(t, st.slots)
    ensures SameShape(WithoutContext(t, key), RunHook(st, key, rc, counter, hooks).0.slots)
  {
    ShapeFinds(t, st.slots, key, CallbackContext);
  }

  /** The shape of the table when the put takes its slot. */
  function TableForPut(s: Table, key: Key, args: seq<Argument>): Table {
    var s1 := if args == [] then s else WithEntry(s, NewContext(key));
    WithoutContext(WithEntry(s1, Entry(Counter, key, false, Retcode(1, 0))), key)
  }

  lemma DefaultStubShape(st: State, s: Table, key: Key, defaultRc: int32, hooks: Hooks)
    requires Valid(st) && Queue(st.slots, key, DeferredRc) == [] && SameShape(s, st.slots)
    ensures var r := DefaultStub(st, key, defaultRc, hooks);
      r.Done? ==>
        SameShape(WithoutContext(WithEntry(s, Entry(Counter, key, false, Retcode(1, 0))), key), r.st.slots)
  {
    var e := Entry(Counter, key, false, Retcode(1, 0));
    ChooseValid(st, key, defaultRc);
    ChooseShape(st, key, defaultRc);
    var (st1, rc) := ChooseRetcode(st, key, defaultRc);
    CountValid(st1, key, rc);
    CountShape(st1, key, rc);
    ShapeTrans(s, st.slots, st1.slots);
    WithEntryShape(s, st1.slots, e);
    var r := CountCall(st1, key, rc);
    hide ChooseRetcode;
    hide CountCall;
    hide RunHook;
    hide WithEntry;
    hide WithoutContext;
    hide SameShape;
    if r.Done? {
      ShapeTrans(WithEntry(s, e), WithEntry(st1.slots, e), r.st.slots);
      HookShape(r.st, WithEntry(s, e), key, rc, r.value, hooks);
    }
  }

  lemma PrologueShape(st: State, key: Key, args: seq<Argument>, hooks: Hooks)
    requires Valid(st) && Quiet(st, key)
    ensures var r := Prologue(st, key, args, hooks);
      r.Done? ==> SameShape(TableForPut(st.slots, key, args), r.st.slots)
  {
    hide Queue;
    hide Valid;
    hide DefaultStub;
    RegisterAllKeeps(st, key, args);
    if args != [] { RegisterAllShape(st, key, args); }
    var r1 := RegisterAll(st, key, args);
    if r1.Done? {
      assert Queue(r1.st.slots, key, DeferredRc) == Queue(st.slots, key, DeferredRc);
      var s := if args == [] then st.slots else WithEntry(st.slots, NewContext(key));
      DefaultStubShape(r1.st, s, key, OS_SUCCESS, hooks);
    }
  }

  lemma FreeUpdate(s: Table, i: Slot, e: Entry)
    ensures Free(s[i := e]) == if e.kind == Unused then Free(s) + {i} else Free(s) - {i}
  {
  }

  /** A new entry in a free slot is found, and the other searches find what they found before. */
  lemma FindsNew(s: Table, u: Slot, e: Entry, mode: EntryType)
    requires s[u].kind == Unused && e.kind != Unused && Find(s, e.key, e.kind).None? && mode != Unused
    ensures Find(s[u := e], e.key, mode) == if mode == e.kind then Some(u) else Find(s, e.key, mode)
  {
    var t: Table := s[u := e];
    FindIsNearest(s, e.key, e.kind);
    FindIsNearest(s, e.key, mode);
    FindIsNearest(t, e.key, mode);
    if mode == e.kind {
      assert IsNearest(t, e.key, mode, u);
    } else {
      assert forall i: Slot :: IsNearest(s, e.key, mode, i) <==> IsNearest(t, e.key, mode, i);
    }
  }

  /** What the counter's entry and the end of the context make of a table. */
  lemma FreeAfterCall(s: Table, key: Key)
    ensures var e := Entry(Counter, key, false, Retcode(1, 0));
      var counter := if Find(s, key, Counter).Some? then None else Find(s, key, Unused);
      Free(WithoutContext(WithEntry(s, e), key)) == Free(s) - AsSet(counter) + AsSet(Find(s, key, CallbackContext))
  {
    var e := Entry(Counter, key, false, Retcode(1, 0));
    var t := WithEntry(s, e);
    FindIsNearest(s, key, Unused);
    var u := Find(s, key, Unused);
    if Find(s, key, Counter).None? && u.Some? {
      FindsNew(s, u.value, e, CallbackContext);
      FreeUpdate(s, u.value, e);
    }
    assert Find(t, key, CallbackContext) == Find(s, key, CallbackContext);
    var i := Find(t, key, CallbackContext);
    hide Find;
    if i.Some? { FreeUpdate(t, i.value, UNUSED); }
  }

  lemma FreeAfter(s: Table, key: Key, args: seq<Argument>)
    ensures Free(TableForPut(s, key, args)) == FreeForPut(s, key, args)
  {
    var s1 := if args == [] then s else WithEntry(s, NewContext(key));
    FreeAfterCall(s1, key);
    FindIsNearest(s, key, Unused);
    var u := Find(s, key, Unused);
    if args != [] && Find(s, key, CallbackContext).None? && u.Some? {
      FindsNew(s, u.value, NewContext(key), Counter);
      FindsNew(s, u.value, NewContext(key), CallbackContext);
      FreeUpdate(s, u.value, NewContext(key));
      FindIsNearest(s1, key, Unused);
      assert u.value in Free(s);
    }
  }

  // ---- The place of the message

  /** No slot of this set lies in front of a pending message. */
  ghost predicate NoneInFront(s: Table, qid: Key, free: set<Slot>) {
    forall u: Slot, m: Slot :: u in free && Matches(s[m], qid, DataBuffer) ==> Dist(qid, m) < Dist(qid, u)
  }

  /** The slot of a set that is nearest to a key. */
  ghost predicate IsFirst(free: set<Slot>, key: Key, i: Slot) {
    i in free && forall u: Slot :: u in free ==> Dist(key, i) <= Dist(key, u)
  }

  lemma FirstIsFound(st: State, qid: Key)
    requires Valid(st) && Find(st.slots, qid, Unused).Some?
    ensures IsFirst(Free(st.slots), qid, Find(st.slots, qid, Unused).value)
  {
    FindIsNearest(st.slots, qid, Unused);
    forall u: Slot | st.slots[u].kind == Unused ensures Matches(st.slots[u], qid, Unused) {
      assert DataFits(st.slots[u]);
    }
  }

  lemma LastIffNoneInFront(s: Table, qid: Key, i: Slot)
    requires IsFirst(Free(s), qid, i)
    ensures Further(s, qid, DataBuffer, i) == [] <==> NoneInFront(s, qid, Free(s))
  {
    FurtherEmpty(s, qid, DataBuffer, i);
    hide Further;
    assert forall m: Slot :: Matches(s[m], qid, DataBuffer) ==> Dist(qid, m) != Dist(qid, i);
  }

  lemma TextsJoin(a: seq<Entry>, b: seq<Entry>, mem: map<Ptr, seq<uint8>>)
    ensures Texts(a + b, mem) == Texts(a, mem) + Texts(b, mem)
  {
    hide Texts;
    hide Text;
    assert forall i :: 0 <= i < |a + b| ==> Texts(a + b, mem)[i] == (Texts(a, mem) + Texts(b, mem))[i];
  }

  lemma TextsAround(a: seq<Entry>, e: Entry, b: seq<Entry>, mem: map<Ptr, seq<uint8>>)
    ensures var m := Texts(a + b, mem);
      && |a| <= |m|
      && Texts(a + ([e] + b), mem) == m[..|a|] + [Text(e, mem)] + m[|a|..]
  {
    TextsJoin(a, b, mem);
    TextsJoin(a, [e] + b, mem);
    assert ([e] + b)[1..] == b;
    assert Texts(a + b, mem)[|a|..] == Texts(b, mem);
  }

  /** Where a new message lands in a state: the messages before it and those behind it. */
  lemma BufferPlace(st: State, qid: Key, data: Ptr, size: nat) returns (i: Slot)
    requires Valid(st) && BufferOk(st, data, size, true) && data != 0 && size > 0
    requires SetDataBuffer(st, qid, data, size, true).Done?
    ensures IsFirst(Free(st.slots), qid, i)
    ensures var k := |Nearer(st.slots, qid, DataBuffer, i)|;
      var m := Messages(st, qid);
      && k <= |m|
      && Messages(SetDataBuffer(st, qid, data, size, true).st, qid) == m[..k] + [st.mem[data][..size]] + m[k..]
      && (k == |m| <==> NoneInFront(st.slots, qid, Free(st.slots)))
  {
    hide Queue;
    hide Nearer;
    hide Further;
    var e := Entry(DataBuffer, qid, true, Buffer(0, size, st.brk));
    i := Find(st.slots, qid, Unused).value;
    FirstIsFound(st, qid);
    PutQueues(st, e);
    var r := SetDataBuffer(st, qid, data, size, true);
    assert r.st.slots == Put(st, e).st.slots;
    var bytes := st.mem[data][..size];
    FreshMemory(st, qid, bytes);
    assert Text(e, r.st.mem) == bytes;
    var a, b := Nearer(st.slots, qid, DataBuffer, i), Further(st.slots, qid, DataBuffer, i);
    LastIffNoneInFront(st.slots, qid, i);
    hide *;
    TextsAround(a, e, b, r.st.mem);
    assert Texts(a + b, r.st.mem) == Texts(a + b, st.mem);
  }

  /** Registering and the default stub leave the pending messages where they are. */
  lemma SameMessages(s: State, t: State, key: Key, qid: Key, i: Slot)
    requires KeptButContext(s.slots, t.slots, key) && SameMemory(s, t)
    ensures Messages(t, qid) == Messages(s, qid)
    ensures Nearer(t.slots, qid, DataBuffer, i) == Nearer(s.slots, qid, DataBuffer, i)
    ensures forall m: Slot :: Matches(t.slots[m], qid, DataBuffer) <==> Matches(s.slots[m], qid, DataBuffer)
  {
    forall d: Slot
      ensures t.slots[d] == s.slots[d] || (s.slots[d].kind != DataBuffer && t.slots[d].kind != DataBuffer)
    {
    }
    hide KeptButContext;
    QueueFrame(s.slots, t.slots, qid, DataBuffer, 0, Dist(qid, i));
    QueueFrame(s.slots, t.slots, qid, DataBuffer, 0, |s.slots|);
  }

  /** Where a put that returns lands, for every state of the table before it: in the slot nearest to the
      queue of those that will be free, with the message at the place that slot gives it; which is
      behind all others if and only if none of those slots lies in front of a pending message. */
  lemma PutLandsBehind(st: State, putKey: Key, args: seq<Argument>, qid: Key, data: Ptr, size: nat, hooks: Hooks)
    returns (i: Slot)
    requires Valid(st) && BufferOk(st, data, size, true) && Quiet(st, putKey) && data != 0 && size > 0
    requires QueuePut(st, putKey, args, qid, data, size, hooks).Done?
    ensures IsFirst(FreeForPut(st.slots, putKey, args), qid, i)
    ensures var k := |Nearer(st.slots, qid, DataBuffer, i)|;
      var m := Messages(st, qid);
      && k <= |m|
      && Messages(QueuePut(st, putKey, args, qid, data, size, hooks).st, qid) ==
           m[..k] + [st.mem[data][..size]] + m[k..]
      && (k == |m| <==> NoneInFront(st.slots, qid, FreeForPut(st.slots, putKey, args)))
  {
    hide Queue;
    CallPrologue(st, putKey, args, hooks);
    RegisterAllKeeps(st, putKey, args);
    PrologueShape(st, putKey, args, hooks);
    var mid := Prologue(st, putKey, args, hooks).st;
    hide RegisterAll;
    hide DefaultStub;
    hide Valid;
    i := BufferPlace(mid, qid, data, size);
    SameMessages(st, mid, putKey, qid, i);
    ShapeFinds(TableForPut(st.slots, putKey, args), mid.slots, qid, Unused);
    FreeAfter(st.slots, putKey, args);
  }

  /** After the stub's first call, and with no context pending, that can be seen from the queue alone. */
  lemma LaterPutLandsBehind(s: Table, putKey: Key, args: seq<Argument>, qid: Key)
    requires Find(s, putKey, Counter).Some? && Find(s, putKey, CallbackContext).None?
    ensures NoneInFront(s, qid, FreeForPut(s, putKey, args)) <==> Packed(s, qid, DataBuffer)
  {
    LaterPutsAreFree(s, putKey, args);
  }
}
