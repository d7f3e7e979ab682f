/**
 Facts about whole runs of the stub framework: which queues a call can touch, call
 counts, and one-time calls.
 */
module StubCounting {
  import opened Wrappers
  import opened StubEntries
  import opened StubOps
  import opened StubRuns
  import opened StubLists

  /** The queues that one call may change. */
  predicate Touches(op: Op, key: Key, mode: EntryType) {
    match op
    case DoReset(k) => k == 0 || k == key
    case DoCallOnce(func) => func == key && mode == CallOnce
    case DoSetDeferred(k, _, _) => k == key && mode == DeferredRc
    case DoClearDeferred(k) => k == key && mode == DeferredRc
    case DoCheckDeferred(k) => k == key && mode == DeferredRc
    case DoSetDefault(k, _) => k == key && mode == ForceFail
    case DoClearDefault(k) => k == key && mode == ForceFail
    case DoCheckDefault(k) => k == key && mode == ForceFail
    case DoSetBuffer(k, _, _, _) => k == key && mode == DataBuffer
    case DoCopyToLocal(k, _) => k == key && mode == DataBuffer
    case DoCopyFromLocal(k, _) => k == key && mode == DataBuffer
    case DoSetHook(k, _, _, _) => k == key && mode == CallbackHook
    case DoRegisterContext(k, _) => k == key && mode == CallbackContext
    case DoStub(k, _) => k == key && mode in {DeferredRc, ForceFail, Counter, CallbackContext}
  }

  /** A slot written by a search for (key, mode): either the head of that queue or a free slot. */
  lemma SearchedSlot(st: State, key: Key, mode: EntryType, i: Slot, e: Entry)
    requires WellTyped(st.slots) && mode != Unused && (e == UNUSED || Matches(e, key, mode))
    requires Find(st.slots, key, mode) == Some(i) || Find(st.slots, key, Unused) == Some(i)
    ensures SameQueues(st.slots, st.slots[i := e], key, {mode})
  {
    FindIsNearest(st.slots, key, mode);
    FindIsNearest(st.slots, key, Unused);
    OverwriteOthers(st.slots, i, e, key, {mode});
  }

  lemma ResetQueues(st: State, k: Key, key: Key, mode: EntryType)
    requires mode != Unused
    ensures var s := ResetState(st, k).slots;
      Queue(s, key, mode) == if k == 0 || k == key then [] else Queue(st.slots, key, mode)
  {
    var s := ResetState(st, k).slots;
    if k == 0 || k == key {
      QueueRangeEmpty(s, key, mode, 0, |s|);
    } else {
      QueueFrame(st.slots, s, key, mode, 0, |s|);
    }
  }

  lemma ClearDeferredQueues(st: State, k: Key, key: Key, mode: EntryType)
    requires mode != Unused
    ensures var s := ClearDeferredRetcode(st, k).slots;
      Queue(s, key, mode) == if k == key && mode == DeferredRc then [] else Queue(st.slots, key, mode)
  {
    var s := ClearDeferredRetcode(st, k).slots;
    if k == key && mode == DeferredRc {
      QueueRangeEmpty(s, key, mode, 0, |s|);
    } else {
      QueueFrame(st.slots, s, key, mode, 0, |s|);
    }
  }

  /** The one-time mark is the whole queue of its function. */
  lemma CallOnceQueues(st: State, func: Key)
    requires Valid(st)
    ensures var r := CallOnceOp(st, func);
      r.Done? ==>
        && SameQueues(st.slots, r.st.slots, func, {CallOnce})
        && (r.value <==> func != 0 && Queue(st.slots, func, CallOnce) == [])
        && (func != 0 ==> Queue(r.st.slots, func, CallOnce) != [])
  {
    hide Queue;
    var free := (e: Entry) => e.kind == Unused;
    FindIsNearest(st.slots, func, CallOnce);
    QueueEmpty(st.slots, func, CallOnce);
    ScanFinds(st.slots, free, 0);
    var i := Scan(st.slots, free, 0);
    if i.Some? && func != 0 { MarkQueues(st.slots, func, i.value); }
  }

  lemma MarkQueues(s: Table, func: Key, i: Slot)
    requires s[i].kind == Unused
    ensures var t := s[i := Entry(CallOnce, func, false, Blank)];
      SameQueues(s, t, func, {CallOnce}) && Queue(t, func, CallOnce) != []
  {
    var e := Entry(CallOnce, func, false, Blank);
    OverwriteOthers(s, i, e, func, {CallOnce});
    QueueUpdate(s, func, CallOnce, i, e);
  }

  lemma CopyQueues(st: State, key: Key, maxSize: nat, local: seq<uint8>)
    requires Valid(st)
    ensures SameQueues(st.slots, CopyToLocal(st, key, maxSize).0.slots, key, {DataBuffer})
    ensures SameQueues(st.slots, CopyFromLocal(st, key, local).0.slots, key, {DataBuffer})
  {
    FindIsNearest(st.slots, key, DataBuffer);
    match Find(st.slots, key, DataBuffer)
    case None =>
    case Some(i) =>
      AdvanceSlots(st, key, CopyToLocal(st, key, maxSize).0.slots, i);
      AdvanceSlots(st, key, CopyFromLocal(st, key, local).0.slots, i);
  }

  lemma AdvanceSlots(st: State, key: Key, t: Table, i: Slot)
    requires Valid(st) && Find(st.slots, key, DataBuffer) == Some(i)
    requires t == st.slots[i := t[i]] && (t[i] == UNUSED || Matches(t[i], key, DataBuffer))
    ensures SameQueues(st.slots, t, key, {DataBuffer})
  {
    SearchedSlot(st, key, DataBuffer, i, t[i]);
  }

  lemma SetDeferredFrame(st: State, key: Key, count: int32, retcode: int32)
    requires Valid(st)
    ensures var r := SetDeferredRetcode(st, key, count, retcode);
      r.Done? ==> SameQueues(st.slots, r.st.slots, key, {DeferredRc})
  {
    if count > 0 { PutQueues(st, Entry(DeferredRc, key, false, Retcode(count, retcode))); }
  }

  lemma SetBufferFrame(st: State, key: Key, buffer: Ptr, size: nat, allocateCopy: bool)
    requires Valid(st) && BufferOk(st, buffer, size, allocateCopy)
    ensures var r := SetDataBuffer(st, key, buffer, size, allocateCopy);
      r.Done? ==> SameQueues(st.slots, r.st.slots, key, {DataBuffer})
  {
    hide Queue;
    match Find(st.slots, key, Unused)
    case None =>
    case Some(i) =>
      SearchedSlot(st, key, DataBuffer, i, Entry(DataBuffer, key, true, Buffer(0, size, st.brk)));
      SearchedSlot(st, key, DataBuffer, i, Entry(DataBuffer, key, false, Buffer(0, size, buffer)));
  }

  lemma ClearDefaultFrame(st: State, key: Key)
    requires Valid(st)
    ensures SameQueues(st.slots, ClearDefaultReturnValue(st, key).slots, key, {ForceFail})
  {
    hide Queue;
    match Find(st.slots, key, ForceFail)
    case None =>
    case Some(i) => SearchedSlot(st, key, ForceFail, i, UNUSED);
  }

  /** A call changes no queue but those of its own key and purpose. */
  lemma StepFrame(st: State, op: Op, hooks: Hooks, key: Key, mode: EntryType)
    requires Valid(st) && Defined(st, op) && mode != Unused && !Touches(op, key, mode)
    ensures var r := Step(st, op, hooks); r.Done? ==> Queue(r.st.slots, key, mode) == Queue(st.slots, key, mode)
  {
    hide Queue;
    hide Valid;
    match op
    case DoReset(k) => ResetQueues(st, k, key, mode);
    case DoCallOnce(func) => CallOnceQueues(st, func);
    case DoSetDeferred(k, count, retcode) => SetDeferredFrame(st, k, count, retcode);
    case DoClearDeferred(k) => ClearDeferredQueues(st, k, key, mode);
    case DoCheckDeferred(k) => CheckDeferredQueues(st, k);
    case DoSetDefault(k, value) => SetDefaultFrame(st, k, value);
    case DoClearDefault(k) => ClearDefaultFrame(st, k);
    case DoCheckDefault(k) => CheckDefaultQueues(st, k);
    case DoSetBuffer(k, buffer, size, allocateCopy) => SetBufferFrame(st, k, buffer, size, allocateCopy);
    case DoCopyToLocal(k, maxSize) => CopyQueues(st, k, maxSize, []);
    case DoCopyFromLocal(k, local) => CopyQueues(st, k, 0, local);
    case DoSetHook(k, hook, arg, isVarg) => SetHookFrame(st, k, hook, arg, isVarg);
    case DoRegisterContext(k, param) => RegisterContextFrame(st, k, param);
    case DoStub(k, defaultRc) => StubFrame(st, k, defaultRc, hooks);
  }

  lemma StubFrame(st: State, key: Key, defaultRc: int32, hooks: Hooks)
    requires Valid(st)
    ensures var r := DefaultStub(st, key, defaultRc, hooks);
      r.Done? ==> SameQueues(st.slots, r.st.slots, key, {DeferredRc, ForceFail, Counter, CallbackContext})
  {
    if DefaultStub(st, key, defaultRc, hooks).Done? { DefaultStubQueues(st, key, defaultRc, hooks); }
  }

  lemma SetDefaultFrame(st: State, key: Key, value: int32)
    requires Valid(st)
    ensures var r := SetDefaultReturnValue(st, key, value);
      r.Done? ==> SameQueues(st.slots, r.st.slots, key, {ForceFail})
  {
    FindIsNearest(st.slots, key, ForceFail);
    match Find(st.slots, key, ForceFail)
    case None => PutQueues(st, Entry(ForceFail, key, false, Retcode(0, value)));
    case Some(i) => SearchedSlot(st, key, ForceFail, i, st.slots[i].(data := st.slots[i].data.(value := value)));
  }

  lemma SetHookFrame(st: State, key: Key, hook: Ptr, arg: Ptr, isVarg: bool)
    requires Valid(st)
    ensures var r := SetHook(st, key, hook, arg, isVarg);
      r.Done? ==> SameQueues(st.slots, r.st.slots, key, {CallbackHook})
  {
    FindIsNearest(st.slots, key, CallbackHook);
    match Find(st.slots, key, CallbackHook)
    case None => if hook != 0 { PutQueues(st, Entry(CallbackHook, key, false, Callback(hook, arg, isVarg))); }
    case Some(i) =>
      SearchedSlot(st, key, CallbackHook, i, UNUSED);
      SearchedSlot(st, key, CallbackHook, i, st.slots[i].(data := Callback(hook, arg, isVarg)));
  }

  lemma RegisterContextFrame(st: State, key: Key, arg: Argument)
    requires Valid(st)
    ensures var r := RegisterContext(st, key, arg); r.Done? ==> SameQueues(st.slots, r.st.slots, key, {CallbackContext})
  {
    FindIsNearest(st.slots, key, CallbackContext);
    match Find(st.slots, key, CallbackContext)
    case None => PutQueues(st, Entry(CallbackContext, key, false, Context([arg])));
    case Some(i) => SearchedSlot(st, key, CallbackContext, i,
      st.slots[i].(data := Context(st.slots[i].data.args + [arg])));
  }

  // ---- Histories

  /** The default stub calls on a key since the last reset that covers it. */
  function Calls(ops: seq<Op>, key: Key): nat {
    if ops == [] then 0
    else
      var n := Calls(ops[..|ops| - 1], key);
      match ops[|ops| - 1]
      case DoReset(k) => if k == 0 || k == key then 0 else n
      case DoStub(k, _) => if k == key then n + 1 else n
      case _ => n
  }

  predicate Covers(op: Op, key: Key) {
    op.DoReset? && (op.key == 0 || op.key == key)
  }

  lemma StepCounts(st: State, op: Op, hooks: Hooks, key: Key)
    requires Valid(st) && Defined(st, op) && Step(st, op, hooks).Done?
    ensures Valid(Step(st, op, hooks).st)
    ensures GetStubCount(Step(st, op, hooks).st, key) ==
      if Covers(op, key) then 0
      else if op.DoStub? && op.key == key then Inc32(GetStubCount(st, key))
      else GetStubCount(st, key)
  {
    hide Valid;
    hide Queue;
    StepValid(st, op, hooks);
    var r := Step(st, op, hooks);
    CountIsQueue(st, key);
    CountIsQueue(r.st, key);
    if Covers(op, key) {
      ResetQueues(st, op.key, key, Counter);
    } else if op.DoStub? && op.key == key {
      DefaultStubQueues(st, key, op.defaultRc, hooks);
    } else {
      StepFrame(st, op, hooks, key, Counter);
    }
  }

  /** UT_GetStubCount is the number of calls since the last reset, as a uint32. */
  lemma {:induction false} CountTracksCalls(st: State, ops: seq<Op>, hooks: Hooks, key: Key)
    requires Valid(st) && GetStubCount(st, key) == 0 && Run(st, ops, hooks).Done?
    ensures GetStubCount(Run(st, ops, hooks).st, key) == Calls(ops, key) % WRAP32
  {
    hide GetStubCount;
    hide Valid;
    hide Step;
    hide Inc32;
    if ops != [] {
      var n := Calls(ops[..|ops| - 1], key);
      var op := ops[|ops| - 1];
      CountTracksCalls(st, ops[..|ops| - 1], hooks, key);
      StepCounts(Run(st, ops[..|ops| - 1], hooks).st, op, hooks, key);
      Add32Mod(n, 1);
      assert Calls(ops, key) == if Covers(op, key) then 0 else if op.DoStub? && op.key == key then n + 1 else n;
    }
  }

  lemma InitialCount(st: State, key: Key)
    requires Initial(st)
    ensures Valid(st) && GetStubCount(st, key) == 0
  {
    FindIsNearest(st.slots, key, Counter);
  }

  /** So it is from the cleared table on. */
  lemma CountFromStart(st: State, ops: seq<Op>, hooks: Hooks, key: Key)
    requires Initial(st) && Valid(st) && Run(st, ops, hooks).Done?
    ensures GetStubCount(Run(st, ops, hooks).st, key) == Calls(ops, key) % WRAP32
  {
    InitialCount(st, key);
    CountTracksCalls(st, ops, hooks, key);
  }

  /** Whether a one-time call of `func` was asked for since the last reset that covers it. */
  predicate Requested(ops: seq<Op>, func: Key) {
    if ops == [] then false
    else
      var before := Requested(ops[..|ops| - 1], func);
      match ops[|ops| - 1]
      case DoReset(k) => k != 0 && k != func && before
      case DoCallOnce(f) => f == func || before
      case _ => before
  }

  /** How often `func` has been run by one-time calls since the last reset that covers it. */
  ghost function Executions(st: State, ops: seq<Op>, hooks: Hooks, func: Key): nat
    requires Valid(st) && Run(st, ops, hooks).Done?
  {
    if ops == [] then 0
    else
      var n := Executions(st, ops[..|ops| - 1], hooks, func);
      var mid := Run(st, ops[..|ops| - 1], hooks).st;
      match ops[|ops| - 1]
      case DoReset(k) => if k == 0 || k == func then 0 else n
      case DoCallOnce(f) => if f == func && CallOnceOp(mid, f).value then n + 1 else n
      case _ => n
  }

  /** Whether the one-time mark of `func` is set. */
  ghost predicate Marked(st: State, func: Key) {
    Queue(st.slots, func, CallOnce) != []
  }

  lemma StepMarks(st: State, op: Op, hooks: Hooks, func: Key)
    requires func != 0 && Valid(st) && Defined(st, op) && Step(st, op, hooks).Done?
    ensures var r := Step(st, op, hooks);
      Marked(r.st, func) <==> !Covers(op, func) && (Marked(st, func) || op == DoCallOnce(func))
    ensures op == DoCallOnce(func) ==> (CallOnceOp(st, func).value <==> !Marked(st, func))
  {
    hide Valid;
    hide Queue;
    if Covers(op, func) {
      ResetQueues(st, op.key, func, CallOnce);
    } else if op == DoCallOnce(func) {
      CallOnceQueues(st, func);
    } else {
      StepFrame(st, op, hooks, func, CallOnce);
    }
  }

  /** Between resets a one-time function runs exactly once if it is asked for at all. */
  lemma {:induction false} CallOnceRunsOnce(st: State, ops: seq<Op>, hooks: Hooks, func: Key)
    requires Initial(st) && func != 0 && Valid(st) && Run(st, ops, hooks).Done?
    ensures Executions(st, ops, hooks, func) == if Requested(ops, func) then 1 else 0
    ensures Requested(ops, func) <==> Marked(Run(st, ops, hooks).st, func)
  {
    if ops == [] {
      QueueRangeEmpty(st.slots, func, CallOnce, 0, |st.slots|);
    } else {
      hide Marked;
      CallOnceRunsOnce(st, ops[..|ops| - 1], hooks, func);
      StepMarks(Run(st, ops[..|ops| - 1], hooks).st, ops[|ops| - 1], hooks, func);
    }
  }

  /** Every reachable state has at most one entry per key of each singleton type. */
  lemma ReachableSingletons(st: State, ops: seq<Op>, hooks: Hooks, key: Key, mode: EntryType)
    requires Initial(st) && Valid(st) && Run(st, ops, hooks).Done? && IsSingleton(mode)
    ensures |Queue(Run(st, ops, hooks).st.slots, key, mode)| <= 1
  {
    AtMostOne(Run(st, ops, hooks).st, key, mode);
  }
}
