/** Return codes from the call that asks for them to the call that gives them: deferred codes, the last
    code of a stub, and what the queue stubs do when their code is not OS_SUCCESS. */
module StubCodes {
  import opened Wrappers
  import opened StubEntries
  import opened StubOps
  import opened StubRuns
  import opened StubLists
  import opened StubCounting
  import opened StubSchedules
  import opened StubStreams
  import opened StubQueue
  import opened StubQueueRoom
  import opened StubPutPlace
  import opened StubEffects

  // ---- Deferred codes

  /** A deferred code joins the codes of its key with the count and the value asked for, at the place
      of the nearest free slot; without a positive count nothing happens. */
  lemma SetDeferredJoins(st: State, key: Key, count: int32, retcode: int32)
    requires Valid(st)
    ensures count <= 0 ==> SetDeferredRetcode(st, key, count, retcode) == Done(st, ())
    ensures count > 0 ==> (SetDeferredRetcode(st, key, count, retcode) == Abort <==> Free(st.slots) == {})
    ensures var r := SetDeferredRetcode(st, key, count, retcode);
      count > 0 && r.Done? ==>
        && Find(st.slots, key, Unused).Some?
        && var i := Find(st.slots, key, Unused).value;
        && IsFirst(Free(st.slots), key, i)
        && var q, k := Queue(st.slots, key, DeferredRc), |Nearer(st.slots, key, DeferredRc, i)|;
        && k <= |q|
        && Queue(r.st.slots, key, DeferredRc) ==
             q[..k] + [Entry(DeferredRc, key, false, Retcode(count, retcode))] + q[k..]
        && SameQueues(st.slots, r.st.slots, key, {DeferredRc}) && SameMemory(st, r.st)
  {
    hide Queue;
    hide Nearer;
    hide Further;
    if count > 0 {
      var e := Entry(DeferredRc, key, false, Retcode(count, retcode));
      PutQueues(st, e);
      PutRoom(st, e);
      if Find(st.slots, key, Unused).Some? {
        var i := Find(st.slots, key, Unused).value;
        FirstIsFound(st, key);
        Around(Nearer(st.slots, key, DeferredRc, i), e, Further(st.slots, key, DeferredRc, i));
      }
    }
  }

  lemma Around<X>(a: seq<X>, x: X, b: seq<X>)
    ensures var q := a + b; a + ([x] + b) == q[..|a|] + [x] + q[|a|..]
  {
  }

  /** A code deferred by `count` calls, with none pending and no hook, is returned by just that call
      of its stub, in every run that leaves deferred codes and the hook alone. */
  lemma DeferredReturnsOnCall(st: State, key: Key, count: int32, retcode: int32, st1: State, ops: seq<Op>, hooks: Hooks)
    requires Valid(st) && Queue(st.slots, key, DeferredRc) == [] && Queue(st.slots, key, CallbackHook) == []
    requires count > 0 && SetDeferredRetcode(st, key, count, retcode) == Done(st1, ())
    requires forall i :: 0 <= i < |ops| ==> Hands(ops[i], key)
    requires Valid(st1) && Run(st1, ops, hooks).Done?
    ensures var codes, others := Returned(st1, ops, hooks, key), Undeferred(st1, ops, hooks, key);
      && |codes| == |others| == StubCalls(ops, key)
      && forall t :: 0 <= t < |codes| ==> codes[t] == if t + 1 == count then retcode else others[t]
  {
    hide Queue;
    var e := Entry(DeferredRc, key, false, Retcode(count, retcode));
    PutFirst(st, e);
    PutQueues(st, e);
    assert Queue(st1.slots, key, CallbackHook) == [];
    hide Valid;
    hide SetDeferredRetcode;
    hide Hands;
    hide Run;
    hide Returned;
    hide Undeferred;
    DeferredSchedule(st1, ops, hooks, key);
    forall t: nat ensures Due([e], t) == if t == count then Some(retcode) else None { }
  }

  // ---- The last code

  /** After a call the stub reports the code that was chosen, before any hook, and the new count. */
  lemma LastCode(st: State, key: Key, defaultRc: int32, hooks: Hooks)
    requires Valid(st) && DefaultStub(st, key, defaultRc, hooks).Done?
    ensures Valid(DefaultStub(st, key, defaultRc, hooks).st) && IsCountdown(Queue(st.slots, key, DeferredRc))
    ensures GetStubRetcodeAndCount(DefaultStub(st, key, defaultRc, hooks).st, key) ==
      Some((Due(Queue(st.slots, key, DeferredRc), 1).GetOr(Forced(st, key).GetOr(defaultRc)),
            ToInt32(GetStubCount(st, key) + 1)))
  {
    hide Queue;
    hide WellTyped;
    hide Singletons;
    hide MemoryOk;
    DefaultStubValid(st, key, defaultRc, hooks);
    DefaultStubQueues(st, key, defaultRc, hooks);
    var r := DefaultStub(st, key, defaultRc, hooks);
    hide DefaultStub;
    DueNow(st, key);
    CountIsQueue(st, key);
    hide CheckDeferredRetcode;
    CounterFound(r.st, key);
  }

  lemma CounterFound(st: State, key: Key)
    requires Valid(st)
    ensures var q := Queue(st.slots, key, Counter);
      q != [] ==>
        && q[0].data.Retcode?
        && GetStubRetcodeAndCount(st, key) == Some((q[0].data.value, ToInt32(q[0].data.count)))
  {
    hide Queue;
    SingletonQueue(st.slots, key, Counter);
    FindIsNearest(st.slots, key, Counter);
    var i := Find(st.slots, key, Counter);
    if i.Some? { assert DataFits(st.slots[i.value]); }
  }

  /** The deferred code that a call reports is the one due now. */
  lemma DueNow(st: State, key: Key)
    requires Valid(st)
    ensures IsCountdown(Queue(st.slots, key, DeferredRc))
    ensures CheckDeferredRetcode(st, key).1 == Due(Queue(st.slots, key, DeferredRc), 1)
  {
    DeferredIsCountdown(st, key);
    CheckDeferredQueues(st, key);
    hide CheckDeferredRetcode;
  }

  // ---- Queue stubs whose code is a failure

  /** The code of a queue stub, in terms of the queues before the call: the deferred code due now, or
      the forced one, or OS_SUCCESS, and what the hook makes of it, which sees the arguments
      registered before and by the call, eight at most. */
  ghost function CodeOf(st: State, key: Key, args: seq<Argument>, hooks: Hooks): int32
    requires Valid(st)
  {
    DeferredIsCountdown(st, key);
    var before := ArgumentsOf(st, key);
    Hooked(HookOf(st, key), Due(Queue(st.slots, key, DeferredRc), 1).GetOr(Forced(st, key).GetOr(OS_SUCCESS)),
           CountOf(st, key).GetOr(0), if args == [] then before else Some(FirstEight(before.GetOr([]) + args)), hooks)
  }

  lemma PrologueCode(st: State, key: Key, args: seq<Argument>, hooks: Hooks)
    requires Valid(st)
    ensures var r := Prologue(st, key, args, hooks);
      r.Done? ==>
        && r.value == CodeOf(st, key, args, hooks)
        && Valid(r.st) && SameMemory(st, r.st)
        && SameQueues(st.slots, r.st.slots, key, {DeferredRc, ForceFail, Counter, CallbackContext})
        && forall k: Key :: Messages(r.st, k) == Messages(st, k)
  {
    hide Queue;
    hide CheckDeferredRetcode;
    hide WellTyped;
    hide Singletons;
    hide MemoryOk;
    RegisterAllKeeps(st, key, args);
    var r1 := RegisterAll(st, key, args);
    if r1.Done? {
      var s1 := r1.st;
      if args != [] { RegisterAllAdds(st, key, args); }
      hide RegisterAll;
      assert Queue(s1.slots, key, DeferredRc) == Queue(st.slots, key, DeferredRc);
      assert Queue(s1.slots, key, ForceFail) == Queue(st.slots, key, ForceFail);
      assert Queue(s1.slots, key, Counter) == Queue(st.slots, key, Counter);
      assert Queue(s1.slots, key, CallbackHook) == Queue(st.slots, key, CallbackHook);
      var r := DefaultStub(s1, key, OS_SUCCESS, hooks);
      if r.Done? {
        DueNow(s1, key);
        DefaultStubQueues(s1, key, OS_SUCCESS, hooks);
        DefaultStubValid(s1, key, OS_SUCCESS, hooks);
        DefaultStubMemory(s1, key, OS_SUCCESS, hooks);
        var modes := {DeferredRc, ForceFail, Counter, CallbackContext};
        SameQueuesTrans(st.slots, s1.slots, r.st.slots, key, {CallbackContext}, modes, modes);
        forall k: Key ensures Messages(r.st, k) == Messages(st, k) {
          assert Queue(r.st.slots, k, DataBuffer) == Queue(st.slots, k, DataBuffer);
        }
      }
    }
  }

  /** A put that returns gives its stub's code; if that is not OS_SUCCESS it queues nothing, and memory
      and the messages of every queue are as they were. */
  lemma PutFails(st: State, putKey: Key, args: seq<Argument>, qid: Key, data: Ptr, size: nat, hooks: Hooks)
    requires Valid(st) && BufferOk(st, data, size, true) && QueuePut(st, putKey, args, qid, data, size, hooks).Done?
    ensures var r := QueuePut(st, putKey, args, qid, data, size, hooks);
      var code := CodeOf(st, putKey, args, hooks);
      && r.value == code
      && (code != OS_SUCCESS ==>
            SameMemory(st, r.st) && forall k: Key :: Messages(r.st, k) == Messages(st, k))
  {
    hide Queue;
    hide CodeOf;
    hide Messages;
    hide DefaultStub;
    hide RegisterAll;
    PrologueCode(st, putKey, args, hooks);
  }

  /** A get that returns: if its stub's code is not OS_SUCCESS, it gives that code and no bytes, and
      memory and the messages of every queue are as they were. */
  lemma GetFails(st: State, getKey: Key, args: seq<Argument>, qid: Key, size: nat, hooks: Hooks)
    requires Valid(st) && QueueGet(st, getKey, args, qid, size, hooks).Done?
    ensures var r := QueueGet(st, getKey, args, qid, size, hooks);
      var code := CodeOf(st, getKey, args, hooks);
      if code != OS_SUCCESS then
        && r.value == (code, [])
        && SameMemory(st, r.st) && forall k: Key :: Messages(r.st, k) == Messages(st, k)
      else r.value.0 == if r.value.1 == [] then OS_QUEUE_EMPTY else OS_SUCCESS
  {
    hide Queue;
    hide CodeOf;
    hide Messages;
    hide DefaultStub;
    hide RegisterAll;
    PrologueCode(st, getKey, args, hooks);
  }
}
