/** What the calls that set something up mean for the calls that use it: forced codes, hooks,
    contexts and the buffer in use. */
module StubEffects {
  import opened Wrappers
  import opened StubEntries
  import opened StubOps
  import opened StubRuns
  import opened StubLists
  import opened StubCounting
  import opened StubSchedules
  import opened StubStreams
  import opened StubQueue

  /** A forced code is in force from the call that sets it to the one that clears it. */
  lemma SetDefaultForces(st: State, key: Key, value: int32)
    requires Valid(st)
    ensures var r := SetDefaultReturnValue(st, key, value); r.Done? ==> Forced(r.st, key) == Some(value)
    ensures Forced(ClearDefaultReturnValue(st, key), key) == None
  {
    hide Queue;
    FindIsNearest(st.slots, key, ForceFail);
    SingletonQueue(st.slots, key, ForceFail);
    match Find(st.slots, key, ForceFail)
    case None =>
      PutFirst(st, Entry(ForceFail, key, false, Retcode(0, value)));
    case Some(i) =>
      HeadQueues(st.slots, key, ForceFail, i, st.slots[i].(data := st.slots[i].data.(value := value)));
      HeadQueues(st.slots, key, ForceFail, i, UNUSED);
  }

  /** So is a hook; setting NULL removes it. */
  lemma SetHookHooks(st: State, key: Key, hook: Ptr, arg: Ptr, isVarg: bool)
    requires Valid(st)
    ensures var r := SetHook(st, key, hook, arg, isVarg);
      r.Done? ==> HookOf(r.st, key) == if hook == 0 then None else Some(Callback(hook, arg, isVarg))
  {
    hide Queue;
    FindIsNearest(st.slots, key, CallbackHook);
    SingletonQueue(st.slots, key, CallbackHook);
    var e := Entry(CallbackHook, key, false, Callback(hook, arg, isVarg));
    match Find(st.slots, key, CallbackHook)
    case None =>
      if hook != 0 { PutFirst(st, e); }
    case Some(i) =>
      HeadQueues(st.slots, key, CallbackHook, i, st.slots[i].(data := Callback(hook, arg, isVarg)));
      HeadQueues(st.slots, key, CallbackHook, i, UNUSED);
  }

  function FirstEight(args: seq<Argument>): seq<Argument> {
    if |args| <= STUBCONTEXT_MAXSIZE then args else args[..STUBCONTEXT_MAXSIZE]
  }

  /** A registered argument joins those registered before, unless there are eight. */
  lemma RegisterAdds(st: State, key: Key, arg: Argument)
    requires Valid(st)
    ensures var r := RegisterContext(st, key, arg);
      r.Done? ==> ArgumentsOf(r.st, key) == Some(FirstEight(ArgumentsOf(st, key).GetOr([]) + [arg]))
    ensures |ArgumentsOf(st, key).GetOr([])| <= STUBCONTEXT_MAXSIZE
  {
    hide Queue;
    HookFound(st, key);
    FindIsNearest(st.slots, key, CallbackContext);
    SingletonQueue(st.slots, key, CallbackContext);
    match Find(st.slots, key, CallbackContext)
    case None =>
      assert [] + [arg] == [arg];
      PutFirst(st, Entry(CallbackContext, key, false, Context([arg])));
    case Some(i) =>
      assert DataFits(st.slots[i]);
      var args := st.slots[i].data.args;
      if |args| < STUBCONTEXT_MAXSIZE {
        HeadQueues(st.slots, key, CallbackContext, i, st.slots[i].(data := Context(args + [arg])));
      } else {
        assert (args + [arg])[..STUBCONTEXT_MAXSIZE] == args;
      }
  }

  /** After a row of registrations the next call sees the first eight arguments. */
  lemma {:induction false} RegisterAllAdds(st: State, key: Key, args: seq<Argument>)
    requires Valid(st) && args != []
    ensures var r := RegisterAll(st, key, args);
      r.Done? ==> ArgumentsOf(r.st, key) == Some(FirstEight(ArgumentsOf(st, key).GetOr([]) + args))
    decreases |args|
  {
    hide ArgumentsOf;
    hide RegisterContext;
    RegisterAdds(st, key, args[0]);
    RegisterContextValid(st, key, args[0]);
    var before := ArgumentsOf(st, key).GetOr([]);
    var r := RegisterContext(st, key, args[0]);
    if r.Done? && args[1..] != [] {
      RegisterAllAdds(r.st, key, args[1..]);
      EightOfEight(before, args);
    } else if r.Done? {
      assert args == [args[0]];
    }
  }

  lemma EightOfEight(before: seq<Argument>, args: seq<Argument>)
    requires args != [] && |before| <= STUBCONTEXT_MAXSIZE
    ensures FirstEight(FirstEight(before + [args[0]]) + args[1..]) == FirstEight(before + args)
  {
    assert (before + [args[0]]) + args[1..] == before + args;
  }

  /** The address, size and position handed out are those of the buffer that holds the first message. */
  lemma BufferInUse(st: State, key: Key)
    requires Valid(st)
    ensures var (base, size, position) := GetDataBuffer(st, key);
      if Messages(st, key) == [] then (base, size, position) == (0, 0, 0)
      else base != 0 && base in st.mem && position < size <= |st.mem[base]|
           && st.mem[base][position..size] == Messages(st, key)[0]
  {
    FindIsNearest(st.slots, key, DataBuffer);
    QueueEmpty(st.slots, key, DataBuffer);
    var i := Find(st.slots, key, DataBuffer);
    if i.Some? {
      HeadMessages(st, key, i.value);
      assert DataFits(st.slots[i.value]);
    }
  }

  /** A buffer that is set when none is pending is the one in use, from its start. */
  lemma SetBufferInUse(st: State, key: Key, buffer: Ptr, size: nat, allocateCopy: bool)
    requires Valid(st) && BufferOk(st, buffer, size, allocateCopy) && buffer != 0 && size > 0
    requires Queue(st.slots, key, DataBuffer) == []
    ensures var r := SetDataBuffer(st, key, buffer, size, allocateCopy);
      r.Done? ==>
        && Valid(r.st)
        && GetDataBuffer(r.st, key) == (if allocateCopy then st.brk else buffer, size, 0)
        && Messages(r.st, key) == [st.mem[buffer][..size]]
  {
    hide Queue;
    SetDataBufferValid(st, key, buffer, size, allocateCopy);
    var r := SetDataBuffer(st, key, buffer, size, allocateCopy);
    if r.Done? {
      var e := Entry(DataBuffer, key, allocateCopy, Buffer(0, size, if allocateCopy then st.brk else buffer));
      assert r.st.slots == Put(st, e).st.slots;
      PutFirst(st, e);
      var whole := st.mem[buffer];
      assert BufferFits(e.data, r.st.mem) && whole[0..size] == whole[..size] == whole[..size][0..size];
      assert Unread(e.data, r.st.mem) == whole[..size];
      hide *;
      OnlyEntry(r.st, key, e);
    }
  }

  lemma OnlyEntry(st: State, key: Key, e: Entry)
    requires Valid(st) && Queue(st.slots, key, DataBuffer) == [e]
    requires e.data.Buffer? && BufferFits(e.data, st.mem)
    ensures GetDataBuffer(st, key) == (e.data.base, e.data.totalSize, e.data.position)
    ensures Messages(st, key) == [Unread(e.data, st.mem)]
  {
    QueueEmpty(st.slots, key, DataBuffer);
    var i := Find(st.slots, key, DataBuffer).value;
    QueueHead(st.slots, key, DataBuffer, i, e);
    FindIsNearest(st.slots, key, DataBuffer);
    assert [e][1..] == [];
  }
}
