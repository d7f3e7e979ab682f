/**
 The queue stubs of osapi-utstub-queue.c: a message queue made of the data buffers
 registered under the queue's ID. Each call first registers its arguments, which
 takes and frees a slot of its own, so that order has to survive holes in the table.
 */
module StubQueue {
  import opened Wrappers
  import opened StubEntries
  import opened StubOps
  import opened StubRuns
  import opened StubLists
  import opened StubCounting
  import opened StubSchedules
  import opened StubStreams
  import StubTable

  const OS_SUCCESS: int32 := 0
  const OS_QUEUE_EMPTY: int32 := -8

  /** The UT_Stub_RegisterContext calls at the top of a stub. */
  function RegisterAll(st: State, key: Key, args: seq<Argument>): (r: Outcome<()>)
    requires Valid(st)
    ensures r.Done? ==> Valid(r.st)
    decreases |args|
  {
    if args == [] then Done(st, ())
    else
      RegisterContextValid(st, key, args[0]);
      match RegisterContext(st, key, args[0])
      case Abort => Abort
      case Done(st1, _) => RegisterAll(st1, key, args[1..])
  }

  /** OS_QueuePut: the status returned. */
  function QueuePut(st: State, putKey: Key, args: seq<Argument>, qid: Key, data: Ptr, size: nat,
    hooks: Hooks): Outcome<int32>
    requires Valid(st) && BufferOk(st, data, size, true)
  {
    match RegisterAll(st, putKey, args)
    case Abort => Abort
    case Done(st1, _) =>
      match DefaultStub(st1, putKey, OS_SUCCESS, hooks)
      case Abort => Abort
      case Done(st2, status) =>
        if status != OS_SUCCESS then Done(st2, status)
        else
          RegisterAllKeeps(st, putKey, args);
          DefaultStubMemory(st1, putKey, OS_SUCCESS, hooks);
          match SetDataBuffer(st2, qid, data, size, true)
          case Abort => Abort
          case Done(st3, _) => Done(st3, status)
  }

  /** OS_QueueGet: the status and the bytes copied. */
  function QueueGet(st: State, getKey: Key, args: seq<Argument>, qid: Key, size: nat,
    hooks: Hooks): Outcome<(int32, seq<uint8>)>
    requires Valid(st)
  {
    match RegisterAll(st, getKey, args)
    case Abort => Abort
    case Done(st1, _) =>
      match DefaultStub(st1, getKey, OS_SUCCESS, hooks)
      case Abort => Abort
      case Done(st2, status) =>
        DefaultStubValid(st1, getKey, OS_SUCCESS, hooks);
        if status != OS_SUCCESS then Done(st2, (status, []))
        else
          var (st3, copied) := CopyToLocal(st2, qid, size);
          Done(st3, (if copied == [] then OS_QUEUE_EMPTY else status, copied))
  }

  // ---- What registering arguments and calling the default stub leave alone

  /** Used slots keep their purpose, and data buffers are untouched. */
  ghost predicate Kept(s: Table, t: Table) {
    forall u: Slot :: s[u].kind != Unused || t[u].kind == DataBuffer ==>
      t[u].kind == s[u].kind && t[u].key == s[u].key && (s[u].kind == DataBuffer ==> t[u] == s[u])
  }

  /** As Kept, but the context of `key` may be gone. */
  ghost predicate KeptButContext(s: Table, t: Table, key: Key) {
    forall u: Slot :: s[u].kind != Unused || t[u].kind == DataBuffer ==>
      || (Matches(s[u], key, CallbackContext) && t[u] == UNUSED)
      || (t[u].kind == s[u].kind && t[u].key == s[u].key && (s[u].kind == DataBuffer ==> t[u] == s[u]))
  }

  ghost predicate SameMemory(s: State, t: State) {
    t.mem == s.mem && t.brk == s.brk && t.callers == s.callers
  }

  lemma RegisterKeeps(st: State, key: Key, arg: Argument)
    requires Valid(st)
    ensures var r := RegisterContext(st, key, arg);
      r.Done? ==>
        && SameMemory(st, r.st) && Kept(st.slots, r.st.slots)
        && SameQueues(st.slots, r.st.slots, key, {CallbackContext})
  {
    hide Queue;
    FindIsNearest(st.slots, key, CallbackContext);
    FindIsNearest(st.slots, key, Unused);
    RegisterContextFrame(st, key, arg);
  }

  lemma {:induction false} RegisterAllKeeps(st: State, key: Key, args: seq<Argument>)
    requires Valid(st)
    ensures var r := RegisterAll(st, key, args);
      r.Done? ==>
        && SameMemory(st, r.st) && Kept(st.slots, r.st.slots)
        && SameQueues(st.slots, r.st.slots, key, {CallbackContext})
    decreases |args|
  {
    hide Queue;
    if args != [] {
      RegisterContextValid(st, key, args[0]);
      RegisterKeeps(st, key, args[0]);
      var r := RegisterContext(st, key, args[0]);
      if r.Done? {
        RegisterAllKeeps(r.st, key, args[1..]);
        var r2 := RegisterAll(r.st, key, args[1..]);
        if r2.Done? {
          SameQueuesTrans(st.slots, r.st.slots, r2.st.slots, key, {CallbackContext}, {CallbackContext},
            {CallbackContext});
        }
      }
    }
  }

  lemma DefaultStubMemory(st: State, key: Key, defaultRc: int32, hooks: Hooks)
    requires Valid(st)
    ensures var r := DefaultStub(st, key, defaultRc, hooks); r.Done? ==> SameMemory(st, r.st)
  {
    ChooseValid(st, key, defaultRc);
    FindIsNearest(st.slots, key, DeferredRc);
    var (st2, rc) := ChooseRetcode(st, key, defaultRc);
    assert SameMemory(st, st2);
    CountMemory(st2, key, rc);
    var r := CountCall(st2, key, rc);
    if r.Done? { FindIsNearest(r.st.slots, key, CallbackContext); }
  }

  lemma CountMemory(st: State, key: Key, rc: int32)
    requires Valid(st)
    ensures var r := CountCall(st, key, rc); r.Done? ==> SameMemory(st, r.st) && Kept(st.slots, r.st.slots)
  {
    FindIsNearest(st.slots, key, Counter);
    FindIsNearest(st.slots, key, Unused);
  }

  lemma ChooseKeeps(st: State, key: Key, defaultRc: int32)
    requires Valid(st) && Find(st.slots, key, DeferredRc) == None
    ensures Kept(st.slots, ChooseRetcode(st, key, defaultRc).0.slots)
  {
    FindIsNearest(st.slots, key, ForceFail);
  }

  lemma RunHookKeeps(s: Table, st: State, key: Key, rc: int32, counter: uint32, hooks: Hooks)
    requires Valid(st) && Kept(s, st.slots)
    ensures KeptButContext(s, RunHook(st, key, rc, counter, hooks).0.slots, key)
  {
    FindIsNearest(st.slots, key, CallbackContext);
    DropContext(s, st.slots, st.slots, key, Find(st.slots, key, CallbackContext));
  }

  /** A stub call that consumes no deferred code frees no slot but that of its context. */
  lemma DefaultStubKeeps(st: State, key: Key, defaultRc: int32, hooks: Hooks)
    requires Valid(st) && Queue(st.slots, key, DeferredRc) == []
    ensures var r := DefaultStub(st, key, defaultRc, hooks); r.Done? ==> KeptButContext(st.slots, r.st.slots, key)
  {
    QueueEmpty(st.slots, key, DeferredRc);
    hide Queue;
    ChooseValid(st, key, defaultRc);
    ChooseKeeps(st, key, defaultRc);
    var (st2, rc) := ChooseRetcode(st, key, defaultRc);
    CountMemory(st2, key, rc);
    CountValid(st2, key, rc);
    var r := CountCall(st2, key, rc);
    if r.Done? {
      KeptTwice(st.slots, st2.slots, r.st.slots);
      hide Kept;
      hide KeptButContext;
      RunHookKeeps(st.slots, r.st, key, rc, r.value, hooks);
    }
  }

  lemma KeptTwice(s: Table, t: Table, u: Table)
    requires Kept(s, t) && Kept(t, u)
    ensures Kept(s, u)
  {
  }

  lemma DropContext(s: Table, t: Table, u: Table, key: Key, context: Option<Slot>)
    requires Kept(s, t) && Kept(t, u)
    requires context.Some? ==> Matches(u[context.value], key, CallbackContext)
    ensures KeptButContext(s, if context.Some? then u[context.value := UNUSED] else u, key)
  {
  }

  // ---- One message

  /** The stub named by `key` returns OS_SUCCESS: no deferred code, no other forced code, no hook. */
  ghost predicate Quiet(st: State, key: Key) {
    && Queue(st.slots, key, DeferredRc) == []
    && Queue(st.slots, key, CallbackHook) == []
    && Forced(st, key).GetOr(OS_SUCCESS) == OS_SUCCESS
  }

  ghost predicate NoContext(st: State, key: Key) {
    Queue(st.slots, key, CallbackContext) == []
  }

  /** The part of a queue call that is common to put and get. */
  lemma CallPrologue(st: State, key: Key, args: seq<Argument>, hooks: Hooks)
    requires Valid(st) && Quiet(st, key)
    ensures var r1 := RegisterAll(st, key, args);
      r1.Done? ==>
        var r := DefaultStub(r1.st, key, OS_SUCCESS, hooks);
        r.Done? ==>
          && r.value == OS_SUCCESS
          && Valid(r.st) && SameMemory(st, r.st) && NoContext(r.st, key)
          && KeptButContext(st.slots, r.st.slots, key)
          && SameQueues(st.slots, r.st.slots, key, {DeferredRc, ForceFail, Counter, CallbackContext})
          && Quiet(r.st, key)
  {
    hide Queue;
    RegisterAllKeeps(st, key, args);
    var r1 := RegisterAll(st, key, args);
    if r1.Done? {
      var s1 := r1.st;
      assert Queue(s1.slots, key, DeferredRc) == Queue(st.slots, key, DeferredRc);
      assert Queue(s1.slots, key, CallbackHook) == Queue(st.slots, key, CallbackHook);
      assert Queue(s1.slots, key, ForceFail) == Queue(st.slots, key, ForceFail);
      var r := DefaultStub(s1, key, OS_SUCCESS, hooks);
      if r.Done? {
        CheckDeferredQueues(s1, key);
        DefaultStubQueues(s1, key, OS_SUCCESS, hooks);
        DefaultStubValid(s1, key, OS_SUCCESS, hooks);
        DefaultStubMemory(s1, key, OS_SUCCESS, hooks);
        DefaultStubKeeps(s1, key, OS_SUCCESS, hooks);
        assert Queue(r.st.slots, key, CallbackHook) == Queue(s1.slots, key, CallbackHook);
        var modes := {DeferredRc, ForceFail, Counter, CallbackContext};
        SameQueuesTrans(st.slots, s1.slots, r.st.slots, key, {CallbackContext}, modes, modes);
        KeptTrans(st.slots, s1.slots, r.st.slots, key);
      }
    }
  }

  lemma KeptTrans(s: Table, t: Table, u: Table, key: Key)
    requires Kept(s, t) && KeptButContext(t, u, key)
    ensures KeptButContext(s, u, key)
  {
  }

  /** A packed queue stays packed when no slot but an absent context's could have been freed. */
  lemma StaysPacked(s: Table, t: Table, key: Key, qid: Key)
    requires KeptButContext(s, t, key)
    requires Packed(s, qid, DataBuffer) && forall u: Slot :: !Matches(s[u], key, CallbackContext)
    ensures Packed(t, qid, DataBuffer)
  {
  }

  lemma EmptyIsPacked(s: Table, key: Key, mode: EntryType)
    requires Queue(s, key, mode) == []
    ensures Packed(s, key, mode)
  {
    QueueEmpty(s, key, mode);
    FindIsNearest(s, key, mode);
  }

  /** The order of the queue is safe: it is empty, or packed with no context about to be dropped. */
  ghost predicate Ordered(st: State, putKey: Key, qid: Key) {
    Messages(st, qid) == [] || (Packed(st.slots, qid, DataBuffer) && NoContext(st, putKey))
  }

  /** Fresh memory changes no pending buffer. */
  lemma FreshMemory(st: State, key: Key, bytes: seq<uint8>)
    requires Valid(st)
    ensures var q := Queue(st.slots, key, DataBuffer); Texts(q, st.mem[st.brk := bytes]) == Texts(q, st.mem)
  {
    forall d: Slot | Matches(st.slots[At(key, d)], key, DataBuffer)
      ensures Text(st.slots[At(key, d)], st.mem) == Text(st.slots[At(key, d)], st.mem[st.brk := bytes])
    {
      BufferText(st, At(key, d));
    }
    TextsFrame(st.slots, key, 0, |st.slots|, st.mem, st.mem[st.brk := bytes]);
  }

  lemma {:induction false} TextsAppend(q: seq<Entry>, e: Entry, mem: map<Ptr, seq<uint8>>)
    ensures Texts(q + [e], mem) == Texts(q, mem) + [Text(e, mem)]
  {
  }

  /** A copied buffer joins the end of a packed queue. */
  lemma BufferAppends(st: State, qid: Key, data: Ptr, size: nat)
    requires Valid(st) && BufferOk(st, data, size, true) && data != 0 && size > 0
    requires Packed(st.slots, qid, DataBuffer)
    ensures var r := SetDataBuffer(st, qid, data, size, true);
      r.Done? ==>
        && Messages(r.st, qid) == Messages(st, qid) + [st.mem[data][..size]]
        && Packed(r.st.slots, qid, DataBuffer)
        && (forall p :: p in st.mem ==> p in r.st.mem && r.st.mem[p] == st.mem[p])
  {
    var e := Entry(DataBuffer, qid, true, Buffer(0, size, st.brk));
    PackedAppends(st, e);
    hide Queue;
    hide Packed;
    var r := SetDataBuffer(st, qid, data, size, true);
    if r.Done? {
      var bytes := st.mem[data][..size];
      FreshMemory(st, qid, bytes);
      TextsAppend(Queue(st.slots, qid, DataBuffer), e, r.st.mem);
      assert Text(e, r.st.mem) == bytes;
    }
  }

  /** A put that returns adds its message to the end of the queue; an empty message is not queued. */
  lemma PutAppends(st: State, putKey: Key, args: seq<Argument>, qid: Key, data: Ptr, size: nat, hooks: Hooks)
    requires Valid(st) && BufferOk(st, data, size, true) && Quiet(st, putKey) && Ordered(st, putKey, qid)
    ensures var r := QueuePut(st, putKey, args, qid, data, size, hooks);
      r.Done? ==>
        && r.value == OS_SUCCESS
        && Valid(r.st) && Quiet(r.st, putKey) && Ordered(r.st, putKey, qid)
        && Messages(r.st, qid) == Messages(st, qid) + (if data != 0 && size > 0 then [st.mem[data][..size]] else [])
        && (forall p :: p in st.mem ==> p in r.st.mem && r.st.mem[p] == st.mem[p])
        && (forall k: Key :: k != putKey && Quiet(st, k) ==> Quiet(r.st, k))
  {
    hide Queue;
    CallPrologue(st, putKey, args, hooks);
    RegisterAllKeeps(st, putKey, args);
    var r1 := RegisterAll(st, putKey, args);
    if r1.Done? {
      DefaultStubMemory(r1.st, putKey, OS_SUCCESS, hooks);
      var r2 := DefaultStub(r1.st, putKey, OS_SUCCESS, hooks);
      if r2.Done? {
        PutOrder(st, r2.st, putKey, qid);
        SetDataBufferValid(r2.st, qid, data, size, true);
        SetBufferFrame(r2.st, qid, data, size, true);
        if data != 0 && size > 0 { BufferAppends(r2.st, qid, data, size); }
        var r := SetDataBuffer(r2.st, qid, data, size, true);
        if r.Done? {
          QuietKept(r2.st, r.st, putKey, qid, {DataBuffer});
          forall k: Key | k != putKey && Quiet(st, k) ensures Quiet(r.st, k) {
            QuietKept(st, r2.st, k, putKey, {DeferredRc, ForceFail, Counter, CallbackContext});
            QuietKept(r2.st, r.st, k, qid, {DataBuffer});
          }
        }
      }
    }
  }

  /** Calls for another key, or for data buffers only, leave a stub quiet. */
  lemma QuietKept(s: State, t: State, key: Key, other: Key, modes: set<EntryType>)
    requires Quiet(s, key) && SameQueues(s.slots, t.slots, other, modes)
    requires key != other || modes == {DataBuffer}
    ensures Quiet(t, key) && (NoContext(s, key) ==> NoContext(t, key))
  {
    hide Queue;
    assert Queue(t.slots, key, DeferredRc) == Queue(s.slots, key, DeferredRc);
    assert Queue(t.slots, key, CallbackHook) == Queue(s.slots, key, CallbackHook);
    assert Queue(t.slots, key, ForceFail) == Queue(s.slots, key, ForceFail);
    assert Queue(t.slots, key, CallbackContext) == Queue(s.slots, key, CallbackContext);
  }

  /** After the prologue of a put the queue is packed. */
  lemma PutOrder(s: State, t: State, putKey: Key, qid: Key)
    requires Ordered(s, putKey, qid) && SameMemory(s, t)
    requires KeptButContext(s.slots, t.slots, putKey)
    requires SameQueues(s.slots, t.slots, putKey, {DeferredRc, ForceFail, Counter, CallbackContext})
    ensures Packed(t.slots, qid, DataBuffer) && Messages(t, qid) == Messages(s, qid)
  {
    hide QueueRange;
    hide Packed;
    assert Queue(t.slots, qid, DataBuffer) == Queue(s.slots, qid, DataBuffer);
    if Messages(s, qid) == [] {
      EmptyIsPacked(t.slots, qid, DataBuffer);
    } else {
      QueueEmpty(s.slots, putKey, CallbackContext);
      FindIsNearest(s.slots, putKey, CallbackContext);
      hide Queue;
      hide Find;
      StaysPacked(s.slots, t.slots, putKey, qid);
    }
  }

  /** A get that returns takes from the first message, or reports an empty queue. */
  lemma GetTakes(st: State, getKey: Key, args: seq<Argument>, qid: Key, size: nat, hooks: Hooks)
    requires Valid(st) && Quiet(st, getKey)
    ensures var r := QueueGet(st, getKey, args, qid, size, hooks);
      var m := Messages(st, qid);
      r.Done? ==>
        && Valid(r.st) && Quiet(r.st, getKey)
        && (m == [] ==> r.value == (OS_QUEUE_EMPTY, []) && Messages(r.st, qid) == [])
        && (m != [] ==>
             var n := if size < |m[0]| then size else |m[0]|;
             && r.value == (if n == 0 then OS_QUEUE_EMPTY else OS_SUCCESS, m[0][..n])
             && Messages(r.st, qid) == (if n == |m[0]| then [] else [m[0][n..]]) + m[1..])
  {
    hide Queue;
    CallPrologue(st, getKey, args, hooks);
    var r1 := RegisterAll(st, getKey, args);
    if r1.Done? {
      var r2 := DefaultStub(r1.st, getKey, OS_SUCCESS, hooks);
      if r2.Done? {
        assert Queue(r2.st.slots, qid, DataBuffer) == Queue(st.slots, qid, DataBuffer);
        assert Messages(r2.st, qid) == Messages(st, qid);
        ReadMessages(r2.st, qid, size);
        CopyToLocalValid(r2.st, qid, size);
        CopyQueues(r2.st, qid, size, []);
        QuietKept(r2.st, CopyToLocal(r2.st, qid, size).0, getKey, qid, {DataBuffer});
      }
    }
  }

  // ---- Bursts

  datatype Message = Message(data: Ptr, size: nat)

  predicate Readable(m: Message, mem: map<Ptr, seq<uint8>>) {
    m.data != 0 && m.size > 0 ==> m.data in mem && m.size <= |mem[m.data]|
  }

  ghost predicate AllReadable(msgs: seq<Message>, mem: map<Ptr, seq<uint8>>) {
    forall i :: 0 <= i < |msgs| ==> Readable(msgs[i], mem)
  }

  /** What a message carries; an empty one, or one without an address, carries nothing. */
  ghost function Carried(msgs: seq<Message>, mem: map<Ptr, seq<uint8>>): seq<seq<uint8>>
    requires AllReadable(msgs, mem)
  {
    if msgs == [] then []
    else
      (if msgs[0].data != 0 && msgs[0].size > 0 then [mem[msgs[0].data][..msgs[0].size]] else [])
        + Carried(msgs[1..], mem)
  }

  ghost predicate MemoryKept(m1: map<Ptr, seq<uint8>>, m2: map<Ptr, seq<uint8>>) {
    forall p :: p in m1 ==> p in m2 && m2[p] == m1[p]
  }

  lemma PutKeepsMemory(st: State, putKey: Key, args: seq<Argument>, qid: Key, data: Ptr, size: nat, hooks: Hooks)
    requires Valid(st) && BufferOk(st, data, size, true)
    ensures var r := QueuePut(st, putKey, args, qid, data, size, hooks);
      r.Done? ==> Valid(r.st) && MemoryKept(st.mem, r.st.mem)
  {
    RegisterAllKeeps(st, putKey, args);
    var r1 := RegisterAll(st, putKey, args);
    if r1.Done? {
      DefaultStubMemory(r1.st, putKey, OS_SUCCESS, hooks);
      DefaultStubValid(r1.st, putKey, OS_SUCCESS, hooks);
      var r2 := DefaultStub(r1.st, putKey, OS_SUCCESS, hooks);
      if r2.Done? { SetDataBufferValid(r2.st, qid, data, size, true); }
    }
  }

  lemma GetValid(st: State, getKey: Key, args: seq<Argument>, qid: Key, size: nat, hooks: Hooks)
    requires Valid(st)
    ensures var r := QueueGet(st, getKey, args, qid, size, hooks); r.Done? ==> Valid(r.st)
  {
    var r1 := RegisterAll(st, getKey, args);
    if r1.Done? {
      DefaultStubValid(r1.st, getKey, OS_SUCCESS, hooks);
      var r2 := DefaultStub(r1.st, getKey, OS_SUCCESS, hooks);
      if r2.Done? { CopyToLocalValid(r2.st, qid, size); }
    }
  }

  /** Puts in a row, as long as none aborts. */
  ghost function PutAll(st: State, putKey: Key, args: seq<Argument>, qid: Key, msgs: seq<Message>,
    hooks: Hooks): Outcome<()>
    requires Valid(st) && AllReadable(msgs, st.mem)
    decreases |msgs|
  {
    if msgs == [] then Done(st, ())
    else
      PutKeepsMemory(st, putKey, args, qid, msgs[0].data, msgs[0].size, hooks);
      match QueuePut(st, putKey, args, qid, msgs[0].data, msgs[0].size, hooks)
      case Abort => Abort
      case Done(st1, _) => PutAll(st1, putKey, args, qid, msgs[1..], hooks)
  }

  /** Gets in a row: the status and data of each, as long as none aborts. */
  ghost function GetAll(st: State, getKey: Key, args: seq<Argument>, qid: Key, sizes: seq<nat>,
    hooks: Hooks): Outcome<seq<(int32, seq<uint8>)>>
    requires Valid(st)
    decreases |sizes|
  {
    if sizes == [] then Done(st, [])
    else
      GetValid(st, getKey, args, qid, sizes[0], hooks);
      match QueueGet(st, getKey, args, qid, sizes[0], hooks)
      case Abort => Abort
      case Done(st1, got) =>
        match GetAll(st1, getKey, args, qid, sizes[1..], hooks)
        case Abort => Abort
        case Done(st2, rest) => Done(st2, [got] + rest)
  }

  lemma SameCarried(msgs: seq<Message>, m1: map<Ptr, seq<uint8>>, m2: map<Ptr, seq<uint8>>)
    requires AllReadable(msgs, m1) && MemoryKept(m1, m2)
    ensures AllReadable(msgs, m2) && Carried(msgs, m1) == Carried(msgs, m2)
  {
    if msgs != [] {
      assert Readable(msgs[0], m1);
      SameCarried(msgs[1..], m1, m2);
    }
  }

  /** A burst of puts queues the non-empty messages behind what was there, in order. */
  lemma {:induction false} BurstQueues(st: State, putKey: Key, args: seq<Argument>, qid: Key, msgs: seq<Message>,
    hooks: Hooks)
    requires Valid(st) && Quiet(st, putKey) && Ordered(st, putKey, qid) && AllReadable(msgs, st.mem)
    ensures var r := PutAll(st, putKey, args, qid, msgs, hooks);
      r.Done? ==>
        && Valid(r.st) && Quiet(r.st, putKey)
        && Messages(r.st, qid) == Messages(st, qid) + Carried(msgs, st.mem)
        && (forall k: Key :: k != putKey && Quiet(st, k) ==> Quiet(r.st, k))
    decreases |msgs|
  {
    hide Valid;
    hide Quiet;
    hide Ordered;
    hide Messages;
    hide QueuePut;
    if msgs != [] {
      var data, size := msgs[0].data, msgs[0].size;
      assert Readable(msgs[0], st.mem);
      PutAppends(st, putKey, args, qid, data, size, hooks);
      PutKeepsMemory(st, putKey, args, qid, data, size, hooks);
      var r := QueuePut(st, putKey, args, qid, data, size, hooks);
      if r.Done? {
        SameCarried(msgs[1..], st.mem, r.st.mem);
        BurstQueues(r.st, putKey, args, qid, msgs[1..], hooks);
      }
    }
  }

  /** What each get returns: the messages one by one, then an empty queue. */
  ghost predicate Drained(got: seq<(int32, seq<uint8>)>, m: seq<seq<uint8>>, n: nat) {
    && |got| == n
    && forall i :: 0 <= i < n ==> got[i] == if i < |m| then (OS_SUCCESS, m[i]) else (OS_QUEUE_EMPTY, [])
  }

  lemma DrainedNext(got: seq<(int32, seq<uint8>)>, m: seq<seq<uint8>>, n: nat, first: (int32, seq<uint8>))
    requires Drained(got, if m == [] then [] else m[1..], n)
    requires first == if m == [] then (OS_QUEUE_EMPTY, []) else (OS_SUCCESS, m[0])
    ensures Drained([first] + got, m, n + 1)
  {
    var all := [first] + got;
    forall i | 0 <= i < n + 1 ensures all[i] == if i < |m| then (OS_SUCCESS, m[i]) else (OS_QUEUE_EMPTY, []) {
      if i > 0 { assert all[i] == got[i - 1]; }
    }
  }

  /** Gets with large enough buffers return the messages whole and in order, then report an empty queue. */
  lemma {:induction false} DrainReturnsAll(st: State, getKey: Key, args: seq<Argument>, qid: Key, sizes: seq<nat>,
    hooks: Hooks)
    requires Valid(st) && Quiet(st, getKey)
    requires Fits(Messages(st, qid), sizes)
    ensures var r := GetAll(st, getKey, args, qid, sizes, hooks);
      r.Done? ==> Drained(r.value, Messages(st, qid), |sizes|)
    decreases |sizes|
  {
    hide Valid;
    hide Quiet;
    hide Messages;
    hide QueueGet;
    hide Fits;
    MessagesNonEmpty(st, qid);
    if sizes != [] {
      GetTakes(st, getKey, args, qid, sizes[0], hooks);
      GetValid(st, getKey, args, qid, sizes[0], hooks);
      var m := Messages(st, qid);
      var r := QueueGet(st, getKey, args, qid, sizes[0], hooks);
      if r.Done? {
        var tail := if m == [] then [] else m[1..];
        FitsTail(m, sizes);
        if m != [] {
          assert m[0] in m;
          assert m[0][..|m[0]|] == m[0];
        }
        assert Messages(r.st, qid) == tail;
        DrainReturnsAll(r.st, getKey, args, qid, sizes[1..], hooks);
        var rest := GetAll(r.st, getKey, args, qid, sizes[1..], hooks);
        if rest.Done? { DrainedNext(rest.value, m, |sizes| - 1, r.value); }
      }
    }
  }

  /** Each get's buffer is large enough for the message it will meet. */
  ghost predicate Fits(m: seq<seq<uint8>>, sizes: seq<nat>) {
    forall i :: 0 <= i < |sizes| && i < |m| ==> |m[i]| <= sizes[i]
  }

  lemma FitsTail(m: seq<seq<uint8>>, sizes: seq<nat>)
    requires Fits(m, sizes) && sizes != []
    ensures Fits(if m == [] then [] else m[1..], sizes[1..])
    ensures m != [] ==> |m[0]| <= sizes[0]
  {
  }

  /** First in, first out: after a burst of puts into an empty queue, gets with large
      enough buffers return exactly the non-empty messages, whole and in order, and
      then OS_QUEUE_EMPTY. */
  lemma PutThenDrain(st: State, putKey: Key, putArgs: seq<Argument>, getKey: Key, getArgs: seq<Argument>, qid: Key,
                     msgs: seq<Message>, sizes: seq<nat>, hooks: Hooks)
    requires Valid(st) && Quiet(st, putKey) && Quiet(st, getKey) && Messages(st, qid) == []
    requires AllReadable(msgs, st.mem) && Fits(Carried(msgs, st.mem), sizes)
    ensures var r := PutAll(st, putKey, putArgs, qid, msgs, hooks);
      r.Done? ==>
        && Valid(r.st)
        && var g := GetAll(r.st, getKey, getArgs, qid, sizes, hooks);
        g.Done? ==> Drained(g.value, Carried(msgs, st.mem), |sizes|)
  {
    hide Quiet;
    hide Valid;
    hide Messages;
    BurstQueues(st, putKey, putArgs, qid, msgs, hooks);
    var r := PutAll(st, putKey, putArgs, qid, msgs, hooks);
    if r.Done? {
      var sent := Carried(msgs, st.mem);
      assert Messages(r.st, qid) == [] + sent == sent;
      DrainReturnsAll(r.st, getKey, getArgs, qid, sizes, hooks);
    }
  }

  // ---- The stubs themselves

  method RegisterArguments(t: StubTable.StubTable, key: Key, args: seq<Argument>) returns (ok: bool)
    requires t.Inv()
    modifies t`maxSearchLen, t.table
    ensures t.Inv()
    ensures var r := RegisterAll(old(t.Abstract()), key, args); ok == r.Done? && (ok ==> t.Abstract() == r.st)
  {
    ok := true;
    var i := 0;
    while i < |args|
      invariant 0 <= i <= |args|
      invariant t.Inv()
      invariant RegisterAll(t.Abstract(), key, args[i..]) == RegisterAll(old(t.Abstract()), key, args)
    {
      ok := t.RegisterContext(key, args[i]);
      if !ok { return; }
      assert args[i..][1..] == args[i + 1..];
      i := i + 1;
    }
  }

  /** OS_QueuePut; None when it aborts. */
  method OsQueuePut(t: StubTable.StubTable, putKey: Key, args: seq<Argument>, qid: Key, data: Ptr, size: nat,
    hooks: Hooks)
    returns (status: Option<int32>)
    requires t.Inv() && BufferOk(t.Abstract(), data, size, true)
    modifies t`maxSearchLen, t`mem, t`brk, t.table
    ensures t.Inv()
    ensures match QueuePut(old(t.Abstract()), putKey, args, qid, data, size, hooks)
      case Abort => status == None
      case Done(st, rc) => status == Some(rc) && t.Abstract() == st
  {
    RegisterAllKeeps(t.Abstract(), putKey, args);
    var ok := RegisterArguments(t, putKey, args);
    if !ok { return None; }
    DefaultStubMemory(t.Abstract(), putKey, OS_SUCCESS, hooks);
    status := t.DefaultStub(putKey, OS_SUCCESS, hooks);
    if status == Some(OS_SUCCESS) {
      ok := t.SetDataBuffer(qid, data, size, true);
      if !ok { return None; }
    }
  }

  /** OS_QueueGet; None when it aborts. */
  method OsQueueGet(t: StubTable.StubTable, getKey: Key, args: seq<Argument>, qid: Key, size: nat, hooks: Hooks)
    returns (r: Option<(int32, seq<uint8>)>)
    requires t.Inv()
    modifies t`maxSearchLen, t`mem, t.table
    ensures t.Inv()
    ensures match QueueGet(old(t.Abstract()), getKey, args, qid, size, hooks)
      case Abort => r == None
      case Done(st, got) => r == Some(got) && t.Abstract() == st
  {
    var ok := RegisterArguments(t, getKey, args);
    if !ok { return None; }
    var status := t.DefaultStub(getKey, OS_SUCCESS, hooks);
    if status.None? { return None; }
    if status.value != OS_SUCCESS { return Some((status.value, [])); }
    var copied := t.CopyToLocal(qid, size);
    return Some((if copied == [] then OS_QUEUE_EMPTY else status.value, copied));
  }
}
