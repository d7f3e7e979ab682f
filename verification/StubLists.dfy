/**
 What each call does to the per-key queues. Together with the search results this
 is the simple list picture of the framework: deferred codes and data buffers are
 queues, the other entry types hold at most one element, and a call touches only
 the queues of its own key.
 */
module StubLists {
  import opened Wrappers
  import opened StubEntries
  import opened StubOps
  import opened StubRuns

  /** All queues agree, except those of `key` for the types in `modes`. */
  ghost predicate SameQueues(s: Table, t: Table, key: Key, modes: set<EntryType>) {
    forall k: Key, m: EntryType {:trigger Queue(t, k, m)} :: m != Unused && !(k == key && m in modes) ==>
      Queue(t, k, m) == Queue(s, k, m)
  }

  lemma OverwriteOthers(s: Table, i: Slot, e: Entry, key: Key, modes: set<EntryType>)
    requires s[i].kind == Unused || (s[i].key == key && s[i].kind in modes)
    requires e.kind == Unused || (e.key == key && e.kind in modes)
    ensures SameQueues(s, s[i := e], key, modes)
  {
    var t: Table := s[i := e];
    forall k: Key, m: EntryType | m != Unused && !(k == key && m in modes)
      ensures Queue(t, k, m) == Queue(s, k, m)
    {
      QueueOther(s, k, m, i, e);
    }
  }

  lemma SameQueuesTrans(s: Table, t: Table, u: Table, key: Key, m1: set<EntryType>, m2: set<EntryType>,
    modes: set<EntryType>)
    requires SameQueues(s, t, key, m1) && SameQueues(t, u, key, m2) && m1 <= modes && m2 <= modes
    ensures SameQueues(s, u, key, modes)
  {
    forall k: Key, m: EntryType | m != Unused && !(k == key && m in modes)
      ensures Queue(u, k, m) == Queue(s, k, m)
    {
      assert Queue(t, k, m) == Queue(s, k, m);
    }
  }

  /** A singleton queue is the entry that the search finds. */
  lemma SingletonQueue(s: Table, key: Key, mode: EntryType)
    requires Singletons(s) && IsSingleton(mode)
    ensures match Find(s, key, mode)
      case None => Queue(s, key, mode) == []
      case Some(i) => Queue(s, key, mode) == [s[i]]
  {
    FindIsNearest(s, key, mode);
    QueueEmpty(s, key, mode);
    var r := Find(s, key, mode);
    if r.Some? {
      NearerEmpty(s, key, mode, r.value);
      FurtherEmpty(s, key, mode, r.value);
      QueueAround(s, key, mode, r.value);
    }
  }

  /** In every valid state the types that are not queues have at most one entry per key. */
  lemma AtMostOne(st: State, key: Key, mode: EntryType)
    requires Valid(st) && IsSingleton(mode)
    ensures |Queue(st.slots, key, mode)| <= 1
  {
    SingletonQueue(st.slots, key, mode);
  }

  /** A new entry, put in the nearest free slot, joins its own queue and no other. */
  lemma PutQueues(st: State, e: Entry)
    requires WellTyped(st.slots) && e.kind != Unused
    ensures var r := Put(st, e);
      match r
      case Abort => forall j: Slot :: st.slots[j].kind != Unused
      case Done(st', _) =>
        && Find(st.slots, e.key, Unused).Some?
        && var i := Find(st.slots, e.key, Unused).value;
        && SameQueues(st.slots, st'.slots, e.key, {e.kind})
        && Queue(st.slots, e.key, e.kind) == Nearer(st.slots, e.key, e.kind, i) + Further(st.slots, e.key, e.kind, i)
        && Queue(st'.slots, e.key, e.kind) ==
          Nearer(st.slots, e.key, e.kind, i) + ([e] + Further(st.slots, e.key, e.kind, i))
  {
    FindIsNearest(st.slots, e.key, Unused);
    var r := Find(st.slots, e.key, Unused);
    if r.Some? {
      OverwriteOthers(st.slots, r.value, e, e.key, {e.kind});
      QueueInsert(st.slots, e.key, e.kind, r.value, e);
    } else {
      forall j: Slot ensures st.slots[j].kind != Unused {
        assert !Matches(st.slots[j], e.key, Unused);
        assert DataFits(st.slots[j]);
      }
    }
  }

  /** Putting the first entry of a queue makes a one-element queue. */
  lemma PutFirst(st: State, e: Entry)
    requires WellTyped(st.slots) && e.kind != Unused && Queue(st.slots, e.key, e.kind) == []
    ensures var r := Put(st, e); r.Done? ==> Queue(r.st.slots, e.key, e.kind) == [e]
  {
    PutQueues(st, e);
  }

  /** Rewriting or clearing the head of a queue touches that queue only. */
  lemma HeadQueues(s: Table, key: Key, mode: EntryType, i: Slot, e: Entry)
    requires mode != Unused && Find(s, key, mode) == Some(i) && (e == UNUSED || Matches(e, key, mode))
    ensures var q := Queue(s, key, mode);
      && q != []
      && q[0] == s[i]
      && Queue(s[i := e], key, mode) == Single(e, key, mode) + q[1..]
      && SameQueues(s, s[i := e], key, {mode})
  {
    FindIsNearest(s, key, mode);
    QueueHead(s, key, mode, i, e);
    OverwriteOthers(s, i, e, key, {mode});
  }

  /** The deferred queue counts down its head, which is reported and dropped at the end of its count. */
  lemma CheckDeferredQueues(st: State, key: Key)
    requires Valid(st)
    ensures var (st', rc) := CheckDeferredRetcode(st, key);
      var q := Queue(st.slots, key, DeferredRc);
      var q' := Queue(st'.slots, key, DeferredRc);
      && SameQueues(st.slots, st'.slots, key, {DeferredRc})
      && (q == [] ==> rc == None && q' == [])
      && (q != [] ==> q[0].data.Retcode? && q[0].data.count > 0)
      && (q != [] && q[0].data.count == 1 ==> rc == Some(q[0].data.value) && q' == q[1..])
      && (q != [] && q[0].data.count > 1
        ==> rc == None && q' == [q[0].(data := q[0].data.(count := q[0].data.count - 1))] + q[1..])
  {
    FindIsNearest(st.slots, key, DeferredRc);
    QueueEmpty(st.slots, key, DeferredRc);
    match Find(st.slots, key, DeferredRc)
    case None =>
    case Some(i) =>
      HeadQueues(st.slots, key, DeferredRc, i, UNUSED);
      var rc := st.slots[i].data;
      NilPlus(Queue(st.slots, key, DeferredRc)[1..]);
      if rc.count > 1 { HeadQueues(st.slots, key, DeferredRc, i, st.slots[i].(data := rc.(count := rc.count - 1))); }
  }

  lemma CheckDefaultQueues(st: State, key: Key)
    requires Valid(st)
    ensures var (st', rc) := CheckDefaultReturnValue(st, key);
      && SameQueues(st.slots, st'.slots, key, {ForceFail})
      && rc == Forced(st, key)
      && Forced(st', key) == Forced(st, key)
  {
    FindIsNearest(st.slots, key, ForceFail);
    SingletonQueue(st.slots, key, ForceFail);
    match Find(st.slots, key, ForceFail)
    case None =>
    case Some(i) =>
      var rc := st.slots[i].data;
      HeadQueues(st.slots, key, ForceFail, i, st.slots[i].(data := rc.(count := Inc32(rc.count))));
  }

  /** The forced return value of a key. */
  ghost function Forced(st: State, key: Key): Option<int32> {
    var q := Queue(st.slots, key, ForceFail);
    if q != [] && q[0].data.Retcode? then Some(q[0].data.value) else None
  }

  /** The hook of a key, and the arguments registered for its next call. */
  ghost function HookOf(st: State, key: Key): Option<EntryData> {
    var q := Queue(st.slots, key, CallbackHook);
    if q != [] && q[0].data.Callback? then Some(q[0].data) else None
  }

  ghost function ArgumentsOf(st: State, key: Key): Option<seq<Argument>> {
    var q := Queue(st.slots, key, CallbackContext);
    if q != [] && q[0].data.Context? then Some(q[0].data.args) else None
  }

  /** The code of a call after its hook, if it has one. */
  ghost function Hooked(hook: Option<EntryData>, rc: int32, counter: uint32, args: Option<seq<Argument>>,
    hooks: Hooks): int32 {
    if hook.Some? && hook.value.Callback? then
      hooks(hook.value.hook, hook.value.arg, hook.value.isVarg, rc, counter, args)
    else rc
  }

  lemma CountQueues(st: State, key: Key, rc: int32)
    requires Valid(st)
    ensures var r := CountCall(st, key, rc);
      r.Done? ==>
        && SameQueues(st.slots, r.st.slots, key, {Counter})
        && r.value == GetStubCount(st, key)
        && Queue(r.st.slots, key, Counter) == [Entry(Counter, key, false, Retcode(Inc32(GetStubCount(st, key)), rc))]
  {
    FindIsNearest(st.slots, key, Counter);
    SingletonQueue(st.slots, key, Counter);
    match Find(st.slots, key, Counter)
    case None =>
      PutQueues(st, Entry(Counter, key, false, Retcode(1, rc)));
      PutFirst(st, Entry(Counter, key, false, Retcode(1, rc)));
    case Some(i) =>
      HeadQueues(st.slots, key, Counter, i, st.slots[i].(data := Retcode(Inc32(st.slots[i].data.count), rc)));
  }

  /** The code a stub call reports before any hook, and the queues it leaves. */
  lemma ChooseQueues(st: State, key: Key, defaultRc: int32)
    requires Valid(st)
    ensures var (st1, deferred) := CheckDeferredRetcode(st, key);
      var (st2, rc) := ChooseRetcode(st, key, defaultRc);
      && SameQueues(st.slots, st2.slots, key, {DeferredRc, ForceFail})
      && Queue(st2.slots, key, DeferredRc) == Queue(st1.slots, key, DeferredRc)
      && Forced(st2, key) == Forced(st, key)
      && rc == deferred.GetOr(Forced(st, key).GetOr(defaultRc))
  {
    hide Queue;
    hide Singletons;
    hide MemoryOk;
    CheckDeferredValid(st, key);
    CheckDeferredQueues(st, key);
    var (st1, deferred) := CheckDeferredRetcode(st, key);
    assert Queue(st1.slots, key, ForceFail) == Queue(st.slots, key, ForceFail);
    if deferred.None? {
      CheckDefaultQueues(st1, key);
      var st2 := CheckDefaultReturnValue(st1, key).0;
      assert Queue(st2.slots, key, DeferredRc) == Queue(st1.slots, key, DeferredRc);
      SameQueuesTrans(st.slots, st1.slots, st2.slots, key, {DeferredRc}, {ForceFail}, {DeferredRc, ForceFail});
    }
  }

  /** What a default stub call returns and what it leaves behind, in terms of the queues it finds. */
  lemma DefaultStubQueues(st: State, key: Key, defaultRc: int32, hooks: Hooks)
    requires Valid(st) && DefaultStub(st, key, defaultRc, hooks).Done?
    ensures var r := DefaultStub(st, key, defaultRc, hooks);
      var (st1, rc) := CheckDeferredRetcode(st, key);
      && SameQueues(st.slots, r.st.slots, key, {DeferredRc, ForceFail, Counter, CallbackContext})
      && Queue(r.st.slots, key, DeferredRc) == Queue(st1.slots, key, DeferredRc)
      && Forced(r.st, key) == Forced(st, key)
      && Queue(r.st.slots, key, CallbackContext) == []
      && CountOf(r.st, key) == Some(Inc32(CountOf(st, key).GetOr(0)))
      && Queue(r.st.slots, key, Counter) ==
           [Entry(Counter, key, false, Retcode(Inc32(CountOf(st, key).GetOr(0)),
                                               rc.GetOr(Forced(st, key).GetOr(defaultRc))))]
      && r.value == Hooked(HookOf(st, key), rc.GetOr(Forced(st, key).GetOr(defaultRc)), CountOf(st, key).GetOr(0),
                           ArgumentsOf(st, key), hooks)
  {
    ChooseValid(st, key, defaultRc);
    ChooseQueues(st, key, defaultRc);
    var (st2, rc) := ChooseRetcode(st, key, defaultRc);
    var r := CountCall(st2, key, rc);
    CountQueues(st2, key, rc);
    CountValid(st2, key, rc);
    CountIsQueue(st2, key);
    RunHookQueues(r.st, key, rc, r.value, hooks);
    var st4 := RunHook(r.st, key, rc, r.value, hooks).0;
    SameQueuesTrans(st2.slots, r.st.slots, st4.slots, key, {Counter}, {CallbackContext}, {Counter, CallbackContext});
    StubTail(st, st2, r.st, st4, key);
  }

  /** Counting and running the hook leave the queues that the choice of the code left. */
  lemma StubTail(st: State, st2: State, st3: State, st4: State, key: Key)
    requires SameQueues(st.slots, st2.slots, key, {DeferredRc, ForceFail})
    requires SameQueues(st2.slots, st3.slots, key, {Counter})
    requires SameQueues(st3.slots, st4.slots, key, {CallbackContext})
    ensures SameQueues(st.slots, st4.slots, key, {DeferredRc, ForceFail, Counter, CallbackContext})
    ensures Queue(st4.slots, key, DeferredRc) == Queue(st2.slots, key, DeferredRc)
    ensures Queue(st4.slots, key, ForceFail) == Queue(st2.slots, key, ForceFail)
    ensures Queue(st4.slots, key, Counter) == Queue(st3.slots, key, Counter)
    ensures Queue(st2.slots, key, Counter) == Queue(st.slots, key, Counter)
    ensures Queue(st3.slots, key, CallbackHook) == Queue(st.slots, key, CallbackHook)
    ensures Queue(st3.slots, key, CallbackContext) == Queue(st.slots, key, CallbackContext)
  {
    hide Queue;
    var s, t, u, v := st.slots, st2.slots, st3.slots, st4.slots;
    assert Queue(v, key, DeferredRc) == Queue(u, key, DeferredRc) == Queue(t, key, DeferredRc);
    assert Queue(v, key, ForceFail) == Queue(u, key, ForceFail) == Queue(t, key, ForceFail);
    assert Queue(u, key, CallbackHook) == Queue(t, key, CallbackHook) == Queue(s, key, CallbackHook);
    assert Queue(u, key, CallbackContext) == Queue(t, key, CallbackContext) == Queue(s, key, CallbackContext);
    forall k: Key, m: EntryType | m != Unused && !(k == key && m in {DeferredRc, ForceFail, Counter, CallbackContext})
      ensures Queue(v, k, m) == Queue(s, k, m)
    {
      assert Queue(v, k, m) == Queue(u, k, m) == Queue(t, k, m);
    }
  }

  /** The count in the counter entry of a key. */
  ghost function CountOf(st: State, key: Key): Option<uint32> {
    var q := Queue(st.slots, key, Counter);
    if q != [] && q[0].data.Retcode? then Some(q[0].data.count) else None
  }

  lemma CountIsQueue(st: State, key: Key)
    requires Valid(st)
    ensures GetStubCount(st, key) == CountOf(st, key).GetOr(0)
  {
    SingletonQueue(st.slots, key, Counter);
    FindIsNearest(st.slots, key, Counter);
    match Find(st.slots, key, Counter)
    case None =>
    case Some(i) => assert DataFits(st.slots[i]);
  }

  lemma RunHookQueues(st: State, key: Key, rc: int32, counter: uint32, hooks: Hooks)
    requires Valid(st)
    ensures var (st', v) := RunHook(st, key, rc, counter, hooks);
      && SameQueues(st.slots, st'.slots, key, {CallbackContext})
      && Queue(st'.slots, key, CallbackContext) == []
      && v == Hooked(HookOf(st, key), rc, counter, ArgumentsOf(st, key), hooks)
  {
    hide Queue;
    HookFound(st, key);
    SingletonQueue(st.slots, key, CallbackContext);
    match Find(st.slots, key, CallbackContext)
    case None =>
    case Some(i) => HeadQueues(st.slots, key, CallbackContext, i, UNUSED);
  }

  /** What a search for the hook and for the context finds. */
  lemma HookFound(st: State, key: Key)
    requires Valid(st)
    ensures match Find(st.slots, key, CallbackHook)
      case None => HookOf(st, key) == None
      case Some(i) => st.slots[i].data.Callback? && HookOf(st, key) == Some(st.slots[i].data)
    ensures match Find(st.slots, key, CallbackContext)
      case None => ArgumentsOf(st, key) == None
      case Some(i) => st.slots[i].data.Context? && ArgumentsOf(st, key) == Some(st.slots[i].data.args)
  {
    hide Queue;
    SingletonQueue(st.slots, key, CallbackHook);
    SingletonQueue(st.slots, key, CallbackContext);
    FindIsNearest(st.slots, key, CallbackHook);
    FindIsNearest(st.slots, key, CallbackContext);
    var i, j := Find(st.slots, key, CallbackHook), Find(st.slots, key, CallbackContext);
    if i.Some? { assert DataFits(st.slots[i.value]); }
    if j.Some? { assert DataFits(st.slots[j.value]); }
  }
}
