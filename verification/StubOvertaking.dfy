/** The input with which a put does not land behind all pending messages. */
module StubOvertaking {
  import opened Wrappers
  import opened StubEntries
  import opened StubOps
  import opened StubRuns
  import opened StubLists
  import opened StubCounting
  import opened StubSchedules
  import opened StubStreams
  import opened StubQueue
  import opened StubPutPlace
  import StubObjIds

  // ---- A stub whose own entries stay in the first two slots of its probe path

  predicate InPair(key: Key, i: Slot) {
    i == At(key, 0) || i == At(key, 1)
  }

  predicate IsOwn(e: Entry, key: Key) {
    e.key == key && (e.kind == Counter || e.kind == CallbackContext)
  }

  /** The stub has no entries but its counter and its context; both are in its pair of slots, and
      nothing else is. */
  ghost predicate Homed(s: Table, key: Key) {
    && (forall i: Slot :: InPair(key, i) ==> s[i].kind == Unused || IsOwn(s[i], key))
    && (forall i: Slot :: s[i].key == key && s[i].kind != Unused && s[i].kind != DataBuffer && s[i].kind != CallOnce ==>
          InPair(key, i) && IsOwn(s[i], key))
  }

  /** What lies outside of the pair stays as it is. */
  ghost predicate SameOutside(s: Table, t: Table, key: Key) {
    forall i: Slot :: !InPair(key, i) ==> t[i] == s[i]
  }

  /** Without its counter or without its context one of the two slots is free, and next in line. */
  lemma PairHasRoom(s: Table, key: Key, mode: EntryType)
    requires WellTyped(s) && Singletons(s) && Homed(s, key)
    requires (mode == Counter || mode == CallbackContext) && Find(s, key, mode) == None
    ensures Find(s, key, Unused).Some? && InPair(key, Find(s, key, Unused).value)
  {
    FindIsNearest(s, key, mode);
    FindIsNearest(s, key, Unused);
    var a, b := At(key, 0), At(key, 1);
    assert a != b && Dist(key, a) == 0 && Dist(key, b) == 1;
    assert !Matches(s[a], key, mode) && !Matches(s[b], key, mode);
    assert s[a].kind == Unused || s[b].kind == Unused;
    assert DataFits(s[a]) && DataFits(s[b]);
    var i := Find(s, key, Unused).value;
    assert Dist(key, i) <= 1;
    assert At(key, Dist(key, i)) == i;
  }

  lemma PutInPair(st: State, e: Entry)
    requires Valid(st) && Homed(st.slots, e.key) && (e.kind == Counter || e.kind == CallbackContext)
    requires Find(st.slots, e.key, e.kind) == None
    ensures var r := Put(st, e);
      r.Done? && Homed(r.st.slots, e.key) && SameOutside(st.slots, r.st.slots, e.key) && SameMemory(st, r.st)
  {
    PairHasRoom(st.slots, e.key, e.kind);
  }

  lemma OverwriteInPair(s: Table, key: Key, i: Slot, e: Entry)
    requires Homed(s, key) && IsOwn(s[i], key) && (e == UNUSED || IsOwn(e, key))
    ensures Homed(s[i := e], key) && SameOutside(s, s[i := e], key)
  {
    assert InPair(key, i);
  }

  lemma {:induction false} RegisterInPair(st: State, key: Key, args: seq<Argument>)
    requires Valid(st) && Homed(st.slots, key)
    ensures var r := RegisterAll(st, key, args);
      r.Done? && Homed(r.st.slots, key) && SameOutside(st.slots, r.st.slots, key)
    decreases |args|
  {
    if args != [] {
      RegisterContextValid(st, key, args[0]);
      FindIsNearest(st.slots, key, CallbackContext);
      match Find(st.slots, key, CallbackContext) {
        case None =>
          PutInPair(st, Entry(CallbackContext, key, false, Context([args[0]])));
        case Some(i) =>
          OverwriteInPair(st.slots, key, i, RegisterContext(st, key, args[0]).st.slots[i]);
      }
      var r := RegisterContext(st, key, args[0]);
      assert Homed(r.st.slots, key) && SameOutside(st.slots, r.st.slots, key);
      hide Homed;
      RegisterInPair(r.st, key, args[1..]);
    }
  }

  lemma StubInPair(st: State, key: Key, hooks: Hooks)
    requires Valid(st) && Homed(st.slots, key)
    ensures var r := DefaultStub(st, key, OS_SUCCESS, hooks);
      r.Done? && Homed(r.st.slots, key) && SameOutside(st.slots, r.st.slots, key)
  {
    FindIsNearest(st.slots, key, DeferredRc);
    FindIsNearest(st.slots, key, ForceFail);
    assert ChooseRetcode(st, key, OS_SUCCESS) == (st, OS_SUCCESS);
    FindIsNearest(st.slots, key, Counter);
    match Find(st.slots, key, Counter) {
      case None => PutInPair(st, Entry(Counter, key, false, Retcode(1, OS_SUCCESS)));
      case Some(i) => OverwriteInPair(st.slots, key, i, CountCall(st, key, OS_SUCCESS).st.slots[i]);
    }
    var r := CountCall(st, key, OS_SUCCESS);
    CountValid(st, key, OS_SUCCESS);
    FindIsNearest(r.st.slots, key, CallbackContext);
    var context := Find(r.st.slots, key, CallbackContext);
    if context.Some? { OverwriteInPair(r.st.slots, key, context.value, UNUSED); }
  }

  lemma HomedIsQuiet(st: State, key: Key)
    requires Valid(st) && Homed(st.slots, key)
    ensures Quiet(st, key)
  {
    QueueEmpty(st.slots, key, DeferredRc);
    QueueEmpty(st.slots, key, CallbackHook);
    QueueEmpty(st.slots, key, ForceFail);
    FindIsNearest(st.slots, key, DeferredRc);
    FindIsNearest(st.slots, key, CallbackHook);
    FindIsNearest(st.slots, key, ForceFail);
    hide Queue;
  }

  /** The prologue of a put or get touches nothing outside of its pair of slots. */
  lemma PrologueInPair(st: State, key: Key, args: seq<Argument>, hooks: Hooks)
    requires Valid(st) && Homed(st.slots, key)
    ensures var r := Prologue(st, key, args, hooks);
      && r.Done? && r.value == OS_SUCCESS && Valid(r.st) && SameMemory(st, r.st)
      && Homed(r.st.slots, key) && SameOutside(st.slots, r.st.slots, key)
  {
    HomedIsQuiet(st, key);
    CallPrologue(st, key, args, hooks);
    RegisterInPair(st, key, args);
    StubInPair(RegisterAll(st, key, args).st, key, hooks);
  }

  // ---- The failing input

  /** The first two slots on the probe paths of three keys are all different. */
  predicate Separate(k1: Key, k2: Key, k3: Key) {
    && k1 != k2
    && forall i: Slot ::
      !(InPair(k1, i) && InPair(k2, i)) && !(InPair(k1, i) && InPair(k3, i)) && !(InPair(k2, i) && InPair(k3, i))
  }

  predicate Far(i: Slot, j: Slot) {
    i - j >= 2 || j - i >= 2
  }

  /** Keys are separate if and only if their homes are at least two slots apart. */
  lemma SeparateIff(k1: Key, k2: Key, k3: Key)
    ensures Separate(k1, k2, k3) <==> Far(Home(k1), Home(k2)) && Far(Home(k1), Home(k3)) && Far(Home(k2), Home(k3))
  {
    PairsIff(k1, k2);
    PairsIff(k1, k3);
    PairsIff(k2, k3);
    hide InPair;
    hide Home;
  }

  lemma PairsIff(k1: Key, k2: Key)
    ensures (forall i: Slot :: !(InPair(k1, i) && InPair(k2, i))) <==> Far(Home(k1), Home(k2))
  {
    HomePair(k1);
    HomePair(k2);
    hide Home;
    if !Far(Home(k1), Home(k2)) {
      var i := if Home(k1) >= Home(k2) then Home(k1) else Home(k2);
      assert InPair(k1, i) && InPair(k2, i);
    }
  }

  lemma HomePair(key: Key)
    ensures At(key, 0) == Home(key) && At(key, 1) == Home(key) + 1
  {
  }

  /** For example the first queue ID that is issued and two stubs at these addresses. */
  lemma SomeKeysAreSeparate()
    ensures Separate(0x40_1200, 0x40_1280, StubObjIds.Compose(1, StubObjIds.OS_OBJECT_TYPE_OS_QUEUE) as nat)
  {
    hide Separate;
    FirstQueueId();
    SeparateIff(0x40_1200, 0x40_1280, 0x4002_0001);
  }

  lemma FirstQueueId()
    ensures StubObjIds.Compose(1, StubObjIds.OS_OBJECT_TYPE_OS_QUEUE) as nat == 0x4002_0001
  {
    assert StubObjIds.Compose(1, StubObjIds.OS_OBJECT_TYPE_OS_QUEUE) == 0x4002_0001;
  }

  predicate Sendable(m: Message, mem: map<Ptr, seq<uint8>>) {
    m.data != 0 && m.size > 0 && m.data in mem && m.size <= |mem[m.data]|
  }

  /** A put into a free first slot of the queue, or into the second if the first is taken. */
  lemma PutTakes(st: State, putKey: Key, args: seq<Argument>, qid: Key, m: Message, hooks: Hooks, d: Slot)
    requires Valid(st) && Homed(st.slots, putKey) && Sendable(m, st.mem)
    requires InPair(qid, At(qid, d)) && !InPair(putKey, At(qid, 0)) && !InPair(putKey, At(qid, 1))
    requires st.slots[At(qid, d)].kind == Unused && forall c: Slot :: c < d ==> st.slots[At(qid, c)].kind != Unused
    ensures var r := QueuePut(st, putKey, args, qid, m.data, m.size, hooks);
      && r.Done? && Valid(r.st) && Homed(r.st.slots, putKey)
      && Matches(r.st.slots[At(qid, d)], qid, DataBuffer)
      && r.st.callers == st.callers
      && forall i: Slot :: !InPair(putKey, i) && i != At(qid, d) ==> r.st.slots[i] == st.slots[i]
  {
    hide DefaultStub;
    hide RegisterAll;
    hide Singletons;
    hide MemoryOk;
    hide Homed;
    PutKeepsMemory(st, putKey, args, qid, m.data, m.size, hooks);
    PrologueInPair(st, putKey, args, hooks);
    var mid := Prologue(st, putKey, args, hooks).st;
    TwoAhead(st.slots, mid.slots, putKey, qid, d);
    BufferLands(mid, qid, m.data, m.size, d);
    var r := QueuePut(st, putKey, args, qid, m.data, m.size, hooks);
    assert r == Done(SetDataBuffer(mid, qid, m.data, m.size, true).st, OS_SUCCESS);
    hide SetDataBuffer;
    hide WellTyped;
    StaysHomed(mid.slots, r.st.slots, putKey);
  }

  lemma BufferLands(st: State, qid: Key, data: Ptr, size: nat, d: Slot)
    requires WellTyped(st.slots) && BufferOk(st, data, size, true) && data != 0 && size > 0
    requires st.slots[At(qid, d)].kind == Unused && forall c: Slot :: c < d ==> st.slots[At(qid, c)].kind != Unused
    ensures var r := SetDataBuffer(st, qid, data, size, true);
      && r.Done?
      && Matches(r.st.slots[At(qid, d)], qid, DataBuffer) && r.st.callers == st.callers
      && forall i: Slot :: i != At(qid, d) ==> r.st.slots[i] == st.slots[i]
  {
    assert DataFits(st.slots[At(qid, d)]);
    FindAt(st.slots, qid, Unused, d);
  }

  lemma TwoAhead(s: Table, t: Table, putKey: Key, qid: Key, d: Slot)
    requires SameOutside(s, t, putKey) && InPair(qid, At(qid, d))
    requires !InPair(putKey, At(qid, 0)) && !InPair(putKey, At(qid, 1))
    ensures d <= 1 && forall c: Slot :: c <= d ==> t[At(qid, c)] == s[At(qid, c)]
  {
    assert Dist(qid, At(qid, d)) == d;
  }

  /** A put in one step: it returns OS_SUCCESS and leaves this state. */
  ghost predicate Puts(st: State, putKey: Key, args: seq<Argument>, qid: Key, m: Message, hooks: Hooks, after: State) {
    && Valid(st) && BufferOk(st, m.data, m.size, true)
    && QueuePut(st, putKey, args, qid, m.data, m.size, hooks) == Done(after, OS_SUCCESS)
  }

  ghost predicate Gets(st: State, getKey: Key, args: seq<Argument>, qid: Key, size: nat, hooks: Hooks,
    got: seq<uint8>, after: State) {
    Valid(st) && QueueGet(st, getKey, args, qid, size, hooks) == Done(after, (OS_SUCCESS, got))
  }

  /** A put behind all pending messages. */
  lemma PutBehind(st: State, putKey: Key, args: seq<Argument>, qid: Key, m: Message, hooks: Hooks, d: Slot)
    returns (after: State)
    requires Valid(st) && Homed(st.slots, putKey) && Ordered(st, putKey, qid)
    requires Sendable(m, st.mem)
    requires InPair(qid, At(qid, d)) && !InPair(putKey, At(qid, 0)) && !InPair(putKey, At(qid, 1))
    requires st.slots[At(qid, d)].kind == Unused && forall c: Slot :: c < d ==> st.slots[At(qid, c)].kind != Unused
    ensures Puts(st, putKey, args, qid, m, hooks, after)
    ensures Valid(after) && Homed(after.slots, putKey) && Ordered(after, putKey, qid)
    ensures Messages(after, qid) == Messages(st, qid) + [st.mem[m.data][..m.size]] && MemoryKept(st.mem, after.mem)
    ensures Matches(after.slots[At(qid, d)], qid, DataBuffer) && after.callers == st.callers
    ensures forall i: Slot :: !InPair(putKey, i) && i != At(qid, d) ==> after.slots[i] == st.slots[i]
  {
    hide Valid;
    hide Homed;
    hide QueuePut;
    hide Messages;
    hide Ordered;
    HomedIsQuiet(st, putKey);
    PutTakes(st, putKey, args, qid, m, hooks, d);
    PutAppends(st, putKey, args, qid, m.data, m.size, hooks);
    after := QueuePut(st, putKey, args, qid, m.data, m.size, hooks).st;
  }

  /** A put into a hole in front of all pending messages. */
  lemma PutInFront(st: State, putKey: Key, args: seq<Argument>, qid: Key, m: Message, hooks: Hooks)
    returns (after: State)
    requires Valid(st) && Homed(st.slots, putKey)
    requires Sendable(m, st.mem)
    requires !InPair(putKey, At(qid, 0)) && st.slots[At(qid, 0)].kind == Unused
    ensures Puts(st, putKey, args, qid, m, hooks, after)
    ensures Messages(after, qid) == [st.mem[m.data][..m.size]] + Messages(st, qid)
  {
    hide Queue;
    PrologueInPair(st, putKey, args, hooks);
    HomedIsQuiet(st, putKey);
    CallPrologue(st, putKey, args, hooks);
    var mid := Prologue(st, putKey, args, hooks).st;
    assert Queue(mid.slots, qid, DataBuffer) == Queue(st.slots, qid, DataBuffer);
    assert DataFits(mid.slots[At(qid, 0)]);
    BufferInFront(mid, qid, m.data, m.size);
    RegisterAllKeeps(st, putKey, args);
    DefaultStubMemory(RegisterAll(st, putKey, args).st, putKey, OS_SUCCESS, hooks);
    hide DefaultStub;
    hide RegisterAll;
    hide SetDataBuffer;
    hide Valid;
    after := QueuePut(st, putKey, args, qid, m.data, m.size, hooks).st;
  }

  lemma BufferInFront(st: State, qid: Key, data: Ptr, size: nat)
    requires Valid(st) && BufferOk(st, data, size, true) && data != 0 && size > 0
    requires st.slots[At(qid, 0)] == UNUSED
    ensures var r := SetDataBuffer(st, qid, data, size, true);
      r.Done? && Messages(r.st, qid) == [st.mem[data][..size]] + Messages(st, qid)
  {
    hide Queue;
    hide Valid;
    var bytes := st.mem[data][..size];
    var e := Entry(DataBuffer, qid, true, Buffer(0, size, st.brk));
    var q := Queue(st.slots, qid, DataBuffer);
    FindAt(st.slots, qid, Unused, 0);
    InsertedInFront(st.slots, qid, e);
    FreshMemory(st, qid, bytes);
    var r := SetDataBuffer(st, qid, data, size, true);
    assert r == Done(st.(slots := st.slots[At(qid, 0) := e], mem := st.mem[st.brk := bytes], brk := st.brk + 1), ());
    hide SetDataBuffer;
    assert ([e] + q)[1..] == q;
    assert Text(e, r.st.mem) == bytes by { assert bytes[0..size] == bytes; }
  }

  lemma InsertedInFront(s: Table, qid: Key, e: Entry)
    requires s[At(qid, 0)] == UNUSED && Matches(e, qid, DataBuffer)
    ensures Queue(s[At(qid, 0) := e], qid, DataBuffer) == [e] + Queue(s, qid, DataBuffer)
  {
    var i := At(qid, 0);
    assert Dist(qid, i) == 0;
    assert Nearer(s, qid, DataBuffer, i) == [];
    hide Queue;
    hide Nearer;
    hide Further;
    QueueInsert(s, qid, DataBuffer, i, e);
    NilPlus(Further(s, qid, DataBuffer, i));
    NilPlus([e] + Queue(s, qid, DataBuffer));
  }

  /** A get that takes the message in the first slot whole frees that slot and no other. */
  lemma GetFrees(st: State, getKey: Key, args: seq<Argument>, qid: Key, size: nat, hooks: Hooks) returns (after: State)
    requires Valid(st) && Homed(st.slots, getKey) && !InPair(getKey, At(qid, 0))
    requires Matches(st.slots[At(qid, 0)], qid, DataBuffer) && Messages(st, qid) != [] && |Messages(st, qid)[0]| <= size
    ensures Gets(st, getKey, args, qid, size, hooks, Messages(st, qid)[0], after) && Valid(after)
    ensures Homed(after.slots, getKey)
    ensures Messages(after, qid) == Messages(st, qid)[1..]
    ensures after.slots[At(qid, 0)] == UNUSED
    ensures forall i: Slot :: !InPair(getKey, i) && i != At(qid, 0) ==> after.slots[i] == st.slots[i]
  {
    hide Homed;
    hide Queue;
    hide DefaultStub;
    hide RegisterAll;
    hide Valid;
    hide CopyToLocal;
    HomedIsQuiet(st, getKey);
    PrologueInPair(st, getKey, args, hooks);
    CallPrologue(st, getKey, args, hooks);
    var mid := Prologue(st, getKey, args, hooks).st;
    assert Queue(mid.slots, qid, DataBuffer) == Queue(st.slots, qid, DataBuffer);
    assert Messages(mid, qid) == Messages(st, qid);
    TakesFirst(mid, qid, size);
    after := CopyToLocal(mid, qid, size).0;
    var m := Messages(st, qid);
    MessagesNonEmpty(st, qid);
    assert m[0] in m;
    hide Messages;
    assert QueueGet(st, getKey, args, qid, size, hooks) == Done(after, (OS_SUCCESS, m[0]));
    StaysHomed(mid.slots, after.slots, getKey);
  }

  lemma TakesFirst(st: State, qid: Key, size: nat)
    requires Valid(st) && Matches(st.slots[At(qid, 0)], qid, DataBuffer)
    requires Messages(st, qid) != [] && |Messages(st, qid)[0]| <= size
    ensures var (after, out) := CopyToLocal(st, qid, size);
      var m := Messages(st, qid);
      && Valid(after) && after.slots == st.slots[At(qid, 0) := UNUSED] && out == m[0] && Messages(after, qid) == m[1..]
  {
    hide Queue;
    hide Singletons;
    hide MemoryOk;
    var m := Messages(st, qid);
    FindAt(st.slots, qid, DataBuffer, 0);
    HeadMessages(st, qid, At(qid, 0));
    CopyToLocalValid(st, qid, size);
    ReadMessages(st, qid, size);
    assert m[0][..|m[0]|] == m[0] && [] + m[1..] == m[1..];
  }

  /** A stub's pair is not touched by what happens elsewhere to entries of other keys, or to buffers. */
  lemma StaysHomed(s: Table, t: Table, key: Key)
    requires Homed(s, key)
    requires forall i: Slot :: InPair(key, i) ==> t[i] == s[i]
    requires forall i: Slot :: t[i] != s[i] ==> t[i].key != key || t[i].kind == Unused || t[i].kind == DataBuffer
    ensures Homed(t, key)
  {
  }

  /** Put A, put B, get, put C: the get frees the slot of A, C takes it, and is in front of B. */
  lemma PutOvertakes(st: State, putKey: Key, putArgs: seq<Argument>, getKey: Key, getArgs: seq<Argument>, qid: Key,
                     a: Message, b: Message, c: Message, size: nat, hooks: Hooks)
    returns (s1: State, s2: State, s3: State, s4: State)
    requires Initial(st) && Valid(st) && Separate(putKey, getKey, qid)
    requires Sendable(a, st.mem) && Sendable(b, st.mem) && Sendable(c, st.mem) && size >= a.size
    ensures Puts(st, putKey, putArgs, qid, a, hooks, s1)
    ensures Puts(s1, putKey, putArgs, qid, b, hooks, s2)
    ensures Gets(s2, getKey, getArgs, qid, size, hooks, st.mem[a.data][..a.size], s3)
    ensures Puts(s3, putKey, putArgs, qid, c, hooks, s4)
    ensures c.data in s3.mem && s3.mem[c.data] == st.mem[c.data]
    ensures Messages(s4, qid) == [st.mem[c.data][..c.size], st.mem[b.data][..b.size]]
  {
    hide Valid;
    hide Messages;
    hide Homed;
    hide Gets;
    hide Puts;
    hide Separate;
    hide Initial;
    s1, s2 := TwoPuts(st, putKey, putArgs, getKey, qid, a, b, hooks);
    s3, s4 := GetAndPut(s2, putKey, putArgs, getKey, getArgs, qid, st.mem[a.data][..a.size], c, size, hooks);
    assert [st.mem[a.data][..a.size], st.mem[b.data][..b.size]][1..] == [st.mem[b.data][..b.size]];
  }

  /** Two messages in the first two slots of the queue's probe path. */
  lemma TwoPuts(st: State, putKey: Key, args: seq<Argument>, getKey: Key, qid: Key, a: Message, b: Message,
    hooks: Hooks)
    returns (s1: State, s2: State)
    requires Initial(st) && Valid(st) && Separate(putKey, getKey, qid)
    requires Sendable(a, st.mem) && Sendable(b, st.mem)
    ensures Puts(st, putKey, args, qid, a, hooks, s1)
    ensures Puts(s1, putKey, args, qid, b, hooks, s2)
    ensures Valid(s2) && Homed(s2.slots, putKey) && Homed(s2.slots, getKey)
    ensures Matches(s2.slots[At(qid, 0)], qid, DataBuffer)
    ensures Messages(s2, qid) == [st.mem[a.data][..a.size], st.mem[b.data][..b.size]]
    ensures forall p :: p in st.mem ==> p in s2.callers && p in s2.mem && s2.mem[p] == st.mem[p]
  {
    hide Valid;
    hide Messages;
    hide Homed;
    hide Puts;
    hide Separate;
    hide InPair;
    hide At;
    hide Ordered;
    FirstTwo(qid);
    ApartFromQueue(putKey, getKey, qid);
    s1 := FirstPut(st, putKey, args, getKey, qid, a, hooks);
    s2 := PutBehind(s1, putKey, args, qid, b, hooks, 1);
    PairsApart(s1.slots, s2.slots, putKey, getKey, At(qid, 1));
  }

  /** A message in the first slot of the queue's probe path. */
  lemma FirstPut(st: State, putKey: Key, args: seq<Argument>, getKey: Key, qid: Key, a: Message, hooks: Hooks)
    returns (s1: State)
    requires Initial(st) && Valid(st) && Separate(putKey, getKey, qid) && Sendable(a, st.mem)
    ensures Puts(st, putKey, args, qid, a, hooks, s1)
    ensures Valid(s1) && Homed(s1.slots, putKey) && Homed(s1.slots, getKey) && Ordered(s1, putKey, qid)
    ensures Matches(s1.slots[At(qid, 0)], qid, DataBuffer) && s1.slots[At(qid, 1)] == UNUSED
    ensures Messages(s1, qid) == [st.mem[a.data][..a.size]]
    ensures MemoryKept(st.mem, s1.mem) && s1.callers == st.callers == st.mem.Keys
  {
    hide Valid;
    hide Messages;
    hide Homed;
    hide Puts;
    hide Separate;
    hide InPair;
    hide At;
    EmptyQueue(st, qid);
    InitialHomed(st, putKey);
    InitialHomed(st, getKey);
    FirstTwo(qid);
    ApartFromQueue(putKey, getKey, qid);
    s1 := PutBehind(st, putKey, args, qid, a, hooks, 0);
    PairsApart(st.slots, s1.slots, putKey, getKey, At(qid, 0));
  }

  lemma GetAndPut(s2: State, putKey: Key, putArgs: seq<Argument>, getKey: Key, getArgs: seq<Argument>, qid: Key,
                  first: seq<uint8>, c: Message, size: nat, hooks: Hooks)
    returns (s3: State, s4: State)
    requires Valid(s2) && Separate(putKey, getKey, qid) && Homed(s2.slots, putKey) && Homed(s2.slots, getKey)
    requires Matches(s2.slots[At(qid, 0)], qid, DataBuffer)
    requires Messages(s2, qid) != [] && Messages(s2, qid)[0] == first && |first| <= size
    requires Sendable(c, s2.mem) && c.data in s2.callers
    ensures Gets(s2, getKey, getArgs, qid, size, hooks, first, s3)
    ensures Puts(s3, putKey, putArgs, qid, c, hooks, s4)
    ensures c.data in s3.mem && s3.mem[c.data] == s2.mem[c.data]
    ensures Messages(s4, qid) == [s2.mem[c.data][..c.size]] + Messages(s2, qid)[1..]
  {
    hide Valid;
    hide Messages;
    hide Homed;
    hide Gets;
    hide Puts;
    FirstTwo(qid);
    s3 := GetFrees(s2, getKey, getArgs, qid, size, hooks);
    PairsApart(s2.slots, s3.slots, getKey, putKey, At(qid, 0));
    GetsKeep(s2, getKey, getArgs, qid, size, hooks, first, s3);
    s4 := PutInFront(s3, putKey, putArgs, qid, c, hooks);
  }

  lemma ApartFromQueue(putKey: Key, getKey: Key, qid: Key)
    requires Separate(putKey, getKey, qid)
    ensures putKey != getKey && forall i: Slot :: !(InPair(putKey, i) && InPair(getKey, i))
    ensures !InPair(putKey, At(qid, 0)) && !InPair(putKey, At(qid, 1))
    ensures !InPair(getKey, At(qid, 0)) && !InPair(getKey, At(qid, 1))
  {
    FirstTwo(qid);
  }

  lemma FirstTwo(qid: Key)
    ensures InPair(qid, At(qid, 0)) && InPair(qid, At(qid, 1)) && At(qid, 0) != At(qid, 1)
  {
  }

  /** What one stub does in its pair and in a slot of buffers leaves the pair of another alone. */
  lemma PairsApart(s: Table, t: Table, key: Key, other: Key, q: Slot)
    requires Homed(s, other) && Homed(t, key) && key != other
    requires forall i: Slot :: !(InPair(key, i) && InPair(other, i))
    requires !InPair(other, q) && (t[q].kind == Unused || t[q].kind == DataBuffer)
    requires forall i: Slot :: !InPair(key, i) && i != q ==> t[i] == s[i]
    ensures Homed(t, other)
  {
    StaysHomed(s, t, other);
  }

  lemma InitialHomed(st: State, key: Key)
    requires Initial(st)
    ensures Homed(st.slots, key) && forall i: Slot :: st.slots[i] == UNUSED
  {
  }

  lemma EmptyQueue(st: State, qid: Key)
    requires Initial(st) && Valid(st)
    ensures Messages(st, qid) == []
  {
    QueueEmpty(st.slots, qid, DataBuffer);
    FindIsNearest(st.slots, qid, DataBuffer);
  }

  /** A get changes no memory that the caller keeps. */
  lemma GetsKeep(st: State, getKey: Key, args: seq<Argument>, qid: Key, size: nat, hooks: Hooks, got: seq<uint8>,
    after: State)
    requires Gets(st, getKey, args, qid, size, hooks, got, after)
    ensures forall p :: p in st.callers && p in st.mem ==> p in after.mem && after.mem[p] == st.mem[p]
  {
    hide DefaultStub;
    hide RegisterAll;
    RegisterAllKeeps(st, getKey, args);
    var r1 := RegisterAll(st, getKey, args);
    DefaultStubMemory(r1.st, getKey, OS_SUCCESS, hooks);
    DefaultStubValid(r1.st, getKey, OS_SUCCESS, hooks);
    var r2 := DefaultStub(r1.st, getKey, OS_SUCCESS, hooks);
    FindIsNearest(r2.st.slots, qid, DataBuffer);
  }
}
