/** How many free slots the queue stubs need: with enough of them no put and no get aborts. */
module StubQueueRoom {
  import opened Wrappers
  import opened StubEntries
  import opened StubOps
  import opened StubRuns
  import opened StubLists
  import opened StubCounting
  import opened StubStreams
  import opened StubQueue

  /** The free slots. */
  ghost function Free(s: Table): set<Slot> {
    set i: Slot | s[i].kind == Unused
  }

  ghost function Room(st: State): nat {
    |Free(st.slots)|
  }

  /** What a slot contributes. */
  function Used(e: Entry): int {
    if e.kind == Unused then 0 else 1
  }

  /** Overwriting a slot. */
  lemma RoomUpdate(s: Table, i: Slot, e: Entry)
    ensures |Free(s[i := e])| == |Free(s)| + Used(s[i]) - Used(e)
  {
    var t: Table := s[i := e];
    if s[i].kind == Unused {
      assert Free(t) == if e.kind == Unused then Free(s) else Free(s) - {i};
    } else {
      assert Free(t) == if e.kind == Unused then Free(s) + {i} else Free(s);
    }
  }

  /** A new entry needs a free slot, and takes it. */
  lemma PutRoom(st: State, e: Entry)
    requires WellTyped(st.slots) && e.kind != Unused
    ensures Put(st, e).Done? <==> Room(st) > 0
    ensures Put(st, e).Done? ==> Room(Put(st, e).st) == Room(st) - 1
  {
    FindIsNearest(st.slots, e.key, Unused);
    match Find(st.slots, e.key, Unused)
    case None =>
      forall j: Slot ensures j !in Free(st.slots) {
        assert DataFits(st.slots[j]) && !Matches(st.slots[j], e.key, Unused);
      }
      assert Free(st.slots) == {};
    case Some(i) =>
      assert i in Free(st.slots);
      RoomUpdate(st.slots, i, e);
  }

  predicate Has(st: State, key: Key, mode: EntryType) {
    Find(st.slots, key, mode).Some?
  }

  lemma HasIsQueue(st: State, key: Key, mode: EntryType)
    ensures Has(st, key, mode) <==> Queue(st.slots, key, mode) != []
  {
    QueueEmpty(st.slots, key, mode);
  }

  /** The room there is, or would be without the counter and the context of a stub. */
  ghost function Spare(st: State, key: Key): nat {
    Room(st) + (if Has(st, key, Counter) then 1 else 0) + (if Has(st, key, CallbackContext) then 1 else 0)
  }

  /** Entries of the other purposes have not come or gone. */
  lemma SameHas(s: State, t: State, other: Key, modes: set<EntryType>, key: Key, mode: EntryType)
    requires SameQueues(s.slots, t.slots, other, modes) && mode !in modes && mode != Unused
    ensures Has(t, key, mode) == Has(s, key, mode)
  {
    HasIsQueue(s, key, mode);
    HasIsQueue(t, key, mode);
    hide Queue;
    hide Has;
  }

  lemma RegisterSpares(st: State, key: Key, arg: Argument)
    requires Valid(st) && Spare(st, key) >= 2
    ensures var r := RegisterContext(st, key, arg); r.Done? && Valid(r.st) && Spare(r.st, key) == Spare(st, key)
  {
    hide Queue;
    RegisterContextValid(st, key, arg);
    RegisterContextFrame(st, key, arg);
    FindIsNearest(st.slots, key, CallbackContext);
    var r := RegisterContext(st, key, arg);
    match Find(st.slots, key, CallbackContext)
    case None =>
      var e := Entry(CallbackContext, key, false, Context([arg]));
      PutRoom(st, e);
      PutFound(st, e);
    case Some(i) =>
      RoomUpdate(st.slots, i, r.st.slots[i]);
      Rewritten(st.slots, key, CallbackContext, i, r.st.slots[i]);
      SameHas(st, r.st, key, {CallbackContext}, key, Counter);
  }

  lemma PutFound(st: State, e: Entry)
    requires Valid(st) && e.kind != Unused && Put(st, e).Done?
    ensures Has(Put(st, e).st, e.key, e.kind)
    ensures forall mode :: mode != Unused && mode != e.kind ==> Has(Put(st, e).st, e.key, mode) == Has(st, e.key, mode)
  {
    hide Queue;
    hide Has;
    hide Put;
    var t := Put(st, e).st;
    PutQueues(st, e);
    HasIsQueue(t, e.key, e.kind);
    forall mode | mode != Unused && mode != e.kind ensures Has(t, e.key, mode) == Has(st, e.key, mode) {
      SameHas(st, t, e.key, {e.kind}, e.key, mode);
    }
  }

  lemma {:induction false} RegisterAllSpares(st: State, key: Key, args: seq<Argument>)
    requires Valid(st) && Spare(st, key) >= 2
    ensures var r := RegisterAll(st, key, args); r.Done? && Spare(r.st, key) == Spare(st, key)
    decreases |args|
  {
    hide Spare;
    hide WellTyped;
    hide Singletons;
    hide MemoryOk;
    if args != [] {
      RegisterSpares(st, key, args[0]);
      RegisterAllSpares(RegisterContext(st, key, args[0]).st, key, args[1..]);
    }
  }

  lemma ChooseSpares(st: State, key: Key, defaultRc: int32)
    requires Valid(st)
    ensures var st1 := ChooseRetcode(st, key, defaultRc).0; Valid(st1) && Spare(st1, key) >= Spare(st, key)
  {
    hide Queue;
    ChooseValid(st, key, defaultRc);
    ChooseQueues(st, key, defaultRc);
    var st2 := ChooseRetcode(st, key, defaultRc).0;
    SameHas(st, st2, key, {DeferredRc, ForceFail}, key, Counter);
    SameHas(st, st2, key, {DeferredRc, ForceFail}, key, CallbackContext);
    ChooseRoom(st, key, defaultRc);
    hide Has;
    hide Room;
  }

  lemma ChooseRoom(st: State, key: Key, defaultRc: int32)
    requires Valid(st)
    ensures Room(ChooseRetcode(st, key, defaultRc).0) >= Room(st)
  {
    var st1 := CheckDeferredRetcode(st, key).0;
    CheckDeferredWellTyped(st, key);
    FindIsNearest(st.slots, key, DeferredRc);
    FindIsNearest(st1.slots, key, ForceFail);
    var i := Find(st.slots, key, DeferredRc);
    if i.Some? { RoomUpdate(st.slots, i.value, st1.slots[i.value]); }
    var st2 := CheckDefaultReturnValue(st1, key).0;
    var j := Find(st1.slots, key, ForceFail);
    if j.Some? { RoomUpdate(st1.slots, j.value, st2.slots[j.value]); }
  }

  lemma CountSpares(st: State, key: Key, rc: int32)
    requires Valid(st) && Spare(st, key) >= 2
    ensures var r := CountCall(st, key, rc); r.Done? && Valid(r.st) && Spare(r.st, key) == Spare(st, key)
  {
    hide Queue;
    CountValid(st, key, rc);
    FindIsNearest(st.slots, key, Counter);
    var r := CountCall(st, key, rc);
    match Find(st.slots, key, Counter)
    case None =>
      var e := Entry(Counter, key, false, Retcode(1, rc));
      PutRoom(st, e);
      PutFound(st, e);
    case Some(i) =>
      CountQueues(st, key, rc);
      RoomUpdate(st.slots, i, r.st.slots[i]);
      Rewritten(st.slots, key, Counter, i, r.st.slots[i]);
      SameHas(st, r.st, key, {Counter}, key, CallbackContext);
  }

  lemma HookSpares(st: State, key: Key, rc: int32, counter: uint32, hooks: Hooks)
    requires Valid(st)
    ensures var st1 := RunHook(st, key, rc, counter, hooks).0;
      && Spare(st1, key) == Spare(st, key) && !Has(st1, key, CallbackContext)
  {
    hide Queue;
    RunHookQueues(st, key, rc, counter, hooks);
    var st1 := RunHook(st, key, rc, counter, hooks).0;
    HasIsQueue(st1, key, CallbackContext);
    SameHas(st, st1, key, {CallbackContext}, key, Counter);
    FindIsNearest(st.slots, key, CallbackContext);
    var i := Find(st.slots, key, CallbackContext);
    if i.Some? { RoomUpdate(st.slots, i.value, UNUSED); }
  }

  /** What put and get have in common never aborts with two spare slots, and leaves as many. */
  lemma PrologueSpares(st: State, key: Key, args: seq<Argument>, hooks: Hooks)
    requires Valid(st) && Spare(st, key) >= 2
    ensures var r1 := RegisterAll(st, key, args);
      && r1.Done?
      && var r := DefaultStub(r1.st, key, OS_SUCCESS, hooks);
      && r.Done? && Spare(r.st, key) >= Spare(st, key) && !Has(r.st, key, CallbackContext)
  {
    hide Spare;
    hide WellTyped;
    hide Singletons;
    hide MemoryOk;
    RegisterAllSpares(st, key, args);
    var s1 := RegisterAll(st, key, args).st;
    ChooseSpares(s1, key, OS_SUCCESS);
    var (s2, rc) := ChooseRetcode(s1, key, OS_SUCCESS);
    CountSpares(s2, key, rc);
    var c := CountCall(s2, key, rc);
    HookSpares(c.st, key, rc, c.value, hooks);
  }

  lemma PutSpares(st: State, putKey: Key, args: seq<Argument>, qid: Key, data: Ptr, size: nat, hooks: Hooks)
    requires Valid(st) && BufferOk(st, data, size, true) && Spare(st, putKey) >= 2
    ensures var r := QueuePut(st, putKey, args, qid, data, size, hooks);
      r.Done? && Valid(r.st) && Spare(r.st, putKey) >= Spare(st, putKey) - 1
  {
    hide Queue;
    PutKeepsMemory(st, putKey, args, qid, data, size, hooks);
    PrologueSpares(st, putKey, args, hooks);
    var s1 := RegisterAll(st, putKey, args).st;
    var r2 := DefaultStub(s1, putKey, OS_SUCCESS, hooks);
    RegisterAllKeeps(st, putKey, args);
    DefaultStubMemory(s1, putKey, OS_SUCCESS, hooks);
    DefaultStubValid(s1, putKey, OS_SUCCESS, hooks);
    hide DefaultStub;
    hide SetDataBuffer;
    hide RegisterAll;
    hide Spare;
    hide Has;
    BufferSpares(r2.st, putKey, qid, data, size);
  }

  lemma BufferSpares(st: State, key: Key, qid: Key, data: Ptr, size: nat)
    requires WellTyped(st.slots) && BufferOk(st, data, size, true) && Spare(st, key) >= 2
      && !Has(st, key, CallbackContext)
    ensures var r := SetDataBuffer(st, qid, data, size, true);
      r.Done? && Spare(r.st, key) >= Spare(st, key) - 1
  {
    hide Queue;
    if data != 0 && size > 0 {
      var e := Entry(DataBuffer, qid, true, Buffer(0, size, st.brk));
      PutRoom(st, e);
      FindIsNearest(st.slots, qid, Unused);
      var i := Find(st.slots, qid, Unused).value;
      OverwriteOthers(st.slots, i, e, qid, {DataBuffer});
      var r := SetDataBuffer(st, qid, data, size, true);
      assert r.Done? && r.st.slots == Put(st, e).st.slots;
      hide SetDataBuffer;
      hide Put;
      hide Has;
      hide SameQueues;
      SameHas(st, r.st, qid, {DataBuffer}, key, Counter);
    }
  }

  lemma {:induction false} PutAllSpares(st: State, putKey: Key, args: seq<Argument>, qid: Key, msgs: seq<Message>,
    hooks: Hooks)
    requires Valid(st) && AllReadable(msgs, st.mem) && Spare(st, putKey) > |msgs|
    ensures var r := PutAll(st, putKey, args, qid, msgs, hooks);
      r.Done? && Valid(r.st) && Spare(r.st, putKey) >= Spare(st, putKey) - |msgs|
    decreases |msgs|
  {
    hide Spare;
    hide WellTyped;
    hide Singletons;
    hide MemoryOk;
    hide QueuePut;
    if msgs != [] {
      assert Readable(msgs[0], st.mem);
      PutKeepsMemory(st, putKey, args, qid, msgs[0].data, msgs[0].size, hooks);
      PutSpares(st, putKey, args, qid, msgs[0].data, msgs[0].size, hooks);
      var r := QueuePut(st, putKey, args, qid, msgs[0].data, msgs[0].size, hooks);
      SameCarried(msgs[1..], st.mem, r.st.mem);
      PutAllSpares(r.st, putKey, args, qid, msgs[1..], hooks);
    }
  }

  lemma CopySpares(st: State, key: Key, qid: Key, size: nat)
    requires Valid(st)
    ensures Spare(CopyToLocal(st, qid, size).0, key) >= Spare(st, key)
  {
    hide Queue;
    CopyQueues(st, qid, size, []);
    var st1 := CopyToLocal(st, qid, size).0;
    SameHas(st, st1, qid, {DataBuffer}, key, Counter);
    SameHas(st, st1, qid, {DataBuffer}, key, CallbackContext);
    FindIsNearest(st.slots, qid, DataBuffer);
    var i := Find(st.slots, qid, DataBuffer);
    if i.Some? { RoomUpdate(st.slots, i.value, st1.slots[i.value]); }
  }

  lemma GetSpares(st: State, getKey: Key, args: seq<Argument>, qid: Key, size: nat, hooks: Hooks)
    requires Valid(st) && Spare(st, getKey) >= 2
    ensures var r := QueueGet(st, getKey, args, qid, size, hooks);
      r.Done? && Valid(r.st) && Spare(r.st, getKey) >= Spare(st, getKey)
  {
    hide Spare;
    GetValid(st, getKey, args, qid, size, hooks);
    PrologueSpares(st, getKey, args, hooks);
    var s1 := RegisterAll(st, getKey, args).st;
    DefaultStubValid(s1, getKey, OS_SUCCESS, hooks);
    var s2 := DefaultStub(s1, getKey, OS_SUCCESS, hooks).st;
    CopySpares(s2, getKey, qid, size);
  }

  lemma {:induction false} GetAllSpares(st: State, getKey: Key, args: seq<Argument>, qid: Key, sizes: seq<nat>,
    hooks: Hooks)
    requires Valid(st) && Spare(st, getKey) >= 2
    ensures GetAll(st, getKey, args, qid, sizes, hooks).Done?
    decreases |sizes|
  {
    hide Spare;
    hide WellTyped;
    hide Singletons;
    hide MemoryOk;
    hide QueueGet;
    if sizes != [] {
      GetSpares(st, getKey, args, qid, sizes[0], hooks);
      GetAllSpares(QueueGet(st, getKey, args, qid, sizes[0], hooks).st, getKey, args, qid, sizes[1..], hooks);
    }
  }

  /** With four more free slots than messages neither the
      puts nor the gets abort, and the gets return the messages whole and in order, and then
      OS_QUEUE_EMPTY. */
  lemma QueueDelivers(st: State, putKey: Key, putArgs: seq<Argument>, getKey: Key, getArgs: seq<Argument>, qid: Key,
                      msgs: seq<Message>, sizes: seq<nat>, hooks: Hooks)
    requires Valid(st) && Quiet(st, putKey) && Quiet(st, getKey) && Messages(st, qid) == []
    requires AllReadable(msgs, st.mem) && Fits(Carried(msgs, st.mem), sizes)
    requires Room(st) >= |msgs| + 4
    ensures var r := PutAll(st, putKey, putArgs, qid, msgs, hooks);
      && r.Done? && Valid(r.st)
      && var g := GetAll(r.st, getKey, getArgs, qid, sizes, hooks);
      && g.Done?
      && Drained(g.value, Carried(msgs, st.mem), |sizes|)
  {
    PutThenDrain(st, putKey, putArgs, getKey, getArgs, qid, msgs, sizes, hooks);
    hide WellTyped;
    hide Singletons;
    hide MemoryOk;
    hide Quiet;
    hide Messages;
    hide PutAll;
    hide GetAll;
    hide Has;
    hide Room;
    PutAllSpares(st, putKey, putArgs, qid, msgs, hooks);
    var r := PutAll(st, putKey, putArgs, qid, msgs, hooks);
    assert Spare(r.st, getKey) >= 2;
    GetAllSpares(r.st, getKey, getArgs, qid, sizes, hooks);
  }
}
