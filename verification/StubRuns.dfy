/** Runs of the stub framework: any sequence of calls from the cleared table keeps the invariant. */
module StubRuns {
  import opened Wrappers
  import opened StubEntries
  import opened StubOps

  // ---- Each way of changing a slot keeps the invariant

  /** An entry may be rewritten in place if it stays the same kind of entry over the same memory. */
  lemma WriteValid(st: State, i: Slot, e: Entry)
    requires Valid(st) && DataFits(e)
    requires var o := st.slots[i]; e.kind == o.kind && e.key == o.key && e.owned == o.owned
    requires st.slots[i].data.Buffer?
      ==> e.data.Buffer? && e.data.base == st.slots[i].data.base && e.data.totalSize == st.slots[i].data.totalSize
    ensures Valid(Write(st, i, e))
  {
    var st' := Write(st, i, e);
    forall p | p in st'.mem && p !in st.callers
      ensures Owned(st'.slots, p)
    {
      var j: Slot :| st.slots[j].owned && st.slots[j].data.Buffer? && st.slots[j].data.base == p;
      assert st'.slots[j].owned && st'.slots[j].data.Buffer? && st'.slots[j].data.base == p;
    }
  }

  lemma ClearValid(st: State, i: Slot)
    requires Valid(st)
    ensures Valid(Clear(st, i))
  {
    var st' := Clear(st, i);
    forall p | p in st'.mem && p !in st.callers
      ensures Owned(st'.slots, p)
    {
      var j: Slot :| st.slots[j].owned && st.slots[j].data.Buffer? && st.slots[j].data.base == p;
      assert st'.slots[j] == st.slots[j];
    }
  }

  /** A free slot may take any entry without a buffer, if a singleton type is new to its key. */
  lemma PutValid(st: State, e: Entry)
    requires Valid(st) && DataFits(e) && !e.data.Buffer? && !e.owned
    requires IsSingleton(e.kind) ==> forall j: Slot :: !Matches(st.slots[j], e.key, e.kind)
    requires e.kind != Unused
    ensures var r := Put(st, e); r.Done? ==> Valid(r.st)
  {
    FindIsNearest(st.slots, e.key, Unused);
    var r := Find(st.slots, e.key, Unused);
    if r.Some? { FreeSlotValid(st, r.value, e); }
  }

  lemma FreeSlotValid(st: State, i: Slot, e: Entry)
    requires Valid(st) && st.slots[i] == UNUSED
    requires DataFits(e) && !e.data.Buffer? && !e.owned && e.kind != Unused
    requires IsSingleton(e.kind) ==> forall j: Slot :: !Matches(st.slots[j], e.key, e.kind)
    ensures Valid(Write(st, i, e))
  {
    var st' := Write(st, i, e);
    forall j: Slot | j != i && st'.slots[j].kind == e.kind && IsSingleton(e.kind)
      ensures st'.slots[j].key != e.key
    {
      assert !Matches(st.slots[j], e.key, e.kind);
    }
    forall p | p in st'.mem && p !in st.callers
      ensures Owned(st'.slots, p)
    {
      var j: Slot :| st.slots[j].owned && st.slots[j].data.Buffer? && st.slots[j].data.base == p;
      assert st'.slots[j] == st.slots[j];
    }
  }

  /** A new buffer over a live address that no copy owns keeps the invariant. */
  lemma BufferValid(st: State, i: Slot, key: Key, size: nat, base: Ptr)
    requires Valid(st) && st.slots[i] == UNUSED
    requires base != 0 && size > 0 && base in st.callers && size <= |st.mem[base]|
    ensures Valid(Write(st, i, Entry(DataBuffer, key, false, Buffer(0, size, base))))
  {
    var st' := Write(st, i, Entry(DataBuffer, key, false, Buffer(0, size, base)));
    forall p | p in st'.mem && p !in st.callers
      ensures Owned(st'.slots, p)
    {
      var j: Slot :| st.slots[j].owned && st.slots[j].data.Buffer? && st.slots[j].data.base == p;
      assert st'.slots[j] == st.slots[j];
    }
  }

  /** A copy in fresh memory keeps the invariant. */
  lemma CopyValid(st: State, i: Slot, key: Key, bytes: seq<uint8>)
    requires Valid(st) && st.slots[i] == UNUSED && bytes != []
    ensures Valid(st.(slots := st.slots[i := Entry(DataBuffer, key, true, Buffer(0, |bytes|, st.brk))],
                      mem := st.mem[st.brk := bytes], brk := st.brk + 1))
  {
    var e := Entry(DataBuffer, key, true, Buffer(0, |bytes|, st.brk));
    var st' := st.(slots := st.slots[i := e], mem := st.mem[st.brk := bytes], brk := st.brk + 1);
    assert st'.slots[i] == e;
    forall j: Slot | j != i && st.slots[j].data.Buffer?
      ensures st.slots[j].data.base < st.brk
    {
      assert BufferFits(st.slots[j].data, st.mem);
    }
    forall p | p in st'.mem && p !in st.callers
      ensures Owned(st'.slots, p)
    {
      if p != st.brk {
        var j: Slot :| st.slots[j].owned && st.slots[j].data.Buffer? && st.slots[j].data.base == p;
        assert st'.slots[j] == st.slots[j];
      }
    }
  }

  lemma SetDataBufferValid(st: State, key: Key, buffer: Ptr, size: nat, allocateCopy: bool)
    requires Valid(st) && BufferOk(st, buffer, size, allocateCopy)
    ensures var r := SetDataBuffer(st, key, buffer, size, allocateCopy); r.Done? ==> Valid(r.st)
  {
    FindIsNearest(st.slots, key, Unused);
    var i := Find(st.slots, key, Unused);
    if i.Some? && buffer != 0 && size != 0 {
      assert st.slots[i.value] == UNUSED by { assert DataFits(st.slots[i.value]); }
      if allocateCopy {
        CopyValid(st, i.value, key, st.mem[buffer][..size]);
      } else {
        BufferValid(st, i.value, key, size, buffer);
      }
    }
  }

  lemma AdvanceValid(st: State, i: Slot, n: nat)
    requires Valid(st) && st.slots[i].kind == DataBuffer
    ensures Valid(Advance(st, i, n))
  {
    ClearValid(st, i);
    var b := st.slots[i].data;
    if b.position + n < b.totalSize {
      WriteValid(st, i, st.slots[i].(data := b.(position := b.position + n)));
    }
  }

  lemma CopyToLocalValid(st: State, key: Key, maxSize: nat)
    requires Valid(st)
    ensures Valid(CopyToLocal(st, key, maxSize).0)
  {
    FindIsNearest(st.slots, key, DataBuffer);
    var i := Find(st.slots, key, DataBuffer);
    if i.Some? {
      var rest := Unread(st.slots[i.value].data, st.mem);
      AdvanceValid(st, i.value, if maxSize < |rest| then maxSize else |rest|);
    }
  }

  lemma MemoryValid(st: State, p: Ptr, bytes: seq<uint8>)
    requires Valid(st) && p in st.mem && |bytes| == |st.mem[p]|
    ensures Valid(st.(mem := st.mem[p := bytes]))
  {
  }

  lemma CopyFromLocalValid(st: State, key: Key, local: seq<uint8>)
    requires Valid(st)
    ensures Valid(CopyFromLocal(st, key, local).0)
  {
    FindIsNearest(st.slots, key, DataBuffer);
    var i := Find(st.slots, key, DataBuffer);
    if i.Some? {
      var b := st.slots[i.value].data;
      var n := if |local| < b.totalSize - b.position then |local| else b.totalSize - b.position;
      var old' := st.mem[b.base];
      var new' := old'[..b.position] + local[..n] + old'[b.position + n..];
      var mid := st.(mem := st.mem[b.base := new']);
      assert CopyFromLocal(st, key, local).0 == Advance(mid, i.value, n);
      MemoryValid(st, b.base, new');
      hide *;
      AdvanceValid(mid, i.value, n);
    }
  }

  lemma ResetValid(st: State, key: Key)
    requires Valid(st)
    ensures Valid(ResetState(st, key))
  {
    var st' := ResetState(st, key);
    forall p | p in st'.mem && p !in st.callers
      ensures Owned(st'.slots, p)
    {
      var j: Slot :| st.slots[j].owned && st.slots[j].data.Buffer? && st.slots[j].data.base == p;
      assert st'.slots[j] == st.slots[j];
    }
  }

  lemma ClearDeferredValid(st: State, key: Key)
    requires Valid(st)
    ensures Valid(ClearDeferredRetcode(st, key))
  {
    var st' := ClearDeferredRetcode(st, key);
    forall p | p in st'.mem && p !in st.callers
      ensures Owned(st'.slots, p)
    {
      var j: Slot :| st.slots[j].owned && st.slots[j].data.Buffer? && st.slots[j].data.base == p;
      assert st'.slots[j] == st.slots[j];
    }
  }

  lemma CheckDeferredValid(st: State, key: Key)
    requires Valid(st)
    ensures Valid(CheckDeferredRetcode(st, key).0)
  {
    FindIsNearest(st.slots, key, DeferredRc);
    var i := Find(st.slots, key, DeferredRc);
    if i.Some? {
      ClearValid(st, i.value);
      var rc := st.slots[i.value].data;
      if rc.count > 1 { WriteValid(st, i.value, st.slots[i.value].(data := rc.(count := rc.count - 1))); }
    }
  }

  lemma DefaultReturnValid(st: State, key: Key, value: int32)
    requires Valid(st)
    ensures Valid(CheckDefaultReturnValue(st, key).0) && Valid(ClearDefaultReturnValue(st, key))
    ensures var r := SetDefaultReturnValue(st, key, value); r.Done? ==> Valid(r.st)
  {
    FindIsNearest(st.slots, key, ForceFail);
    match Find(st.slots, key, ForceFail)
    case None => PutValid(st, Entry(ForceFail, key, false, Retcode(0, value)));
    case Some(i) =>
      var rc := st.slots[i].data;
      ClearValid(st, i);
      WriteValid(st, i, st.slots[i].(data := rc.(value := value)));
      WriteValid(st, i, st.slots[i].(data := rc.(count := Inc32(rc.count))));
  }

  lemma SetHookValid(st: State, key: Key, hook: Ptr, arg: Ptr, isVarg: bool)
    requires Valid(st)
    ensures var r := SetHook(st, key, hook, arg, isVarg); r.Done? ==> Valid(r.st)
  {
    FindIsNearest(st.slots, key, CallbackHook);
    match Find(st.slots, key, CallbackHook)
    case None => if hook != 0 { PutValid(st, Entry(CallbackHook, key, false, Callback(hook, arg, isVarg))); }
    case Some(i) =>
      ClearValid(st, i);
      if hook != 0 { WriteValid(st, i, st.slots[i].(data := Callback(hook, arg, isVarg))); }
  }

  lemma RegisterContextValid(st: State, key: Key, arg: Argument)
    requires Valid(st)
    ensures var r := RegisterContext(st, key, arg); r.Done? ==> Valid(r.st)
  {
    FindIsNearest(st.slots, key, CallbackContext);
    match Find(st.slots, key, CallbackContext)
    case None => PutValid(st, Entry(CallbackContext, key, false, Context([arg])));
    case Some(i) =>
      var args := st.slots[i].data.args;
      if |args| < STUBCONTEXT_MAXSIZE { WriteValid(st, i, st.slots[i].(data := Context(args + [arg]))); }
  }

  lemma CountValid(st: State, key: Key, rc: int32)
    requires Valid(st)
    ensures var r := CountCall(st, key, rc); r.Done? ==> Valid(r.st)
  {
    FindIsNearest(st.slots, key, Counter);
    match Find(st.slots, key, Counter)
    case None => PutValid(st, Entry(Counter, key, false, Retcode(1, rc)));
    case Some(i) => WriteValid(st, i, st.slots[i].(data := Retcode(Inc32(st.slots[i].data.count), rc)));
  }

  lemma ChooseValid(st: State, key: Key, defaultRc: int32)
    requires Valid(st)
    ensures Valid(ChooseRetcode(st, key, defaultRc).0)
  {
    CheckDeferredValid(st, key);
    DefaultReturnValid(CheckDeferredRetcode(st, key).0, key, 0);
  }

  lemma DefaultStubValid(st: State, key: Key, defaultRc: int32, hooks: Hooks)
    requires Valid(st)
    ensures var r := DefaultStub(st, key, defaultRc, hooks); r.Done? ==> Valid(r.st)
  {
    ChooseValid(st, key, defaultRc);
    var (st1, rc) := ChooseRetcode(st, key, defaultRc);
    CountValid(st1, key, rc);
    var r := CountCall(st1, key, rc);
    if r.Done? {
      var context := Find(r.st.slots, key, CallbackContext);
      if context.Some? { ClearValid(r.st, context.value); }
    }
  }

  lemma ScanFinds(s: Table, p: Entry -> bool, i: nat)
    requires i <= |s|
    ensures match Scan(s, p, i)
      case None => forall j: Slot :: j >= i ==> !p(s[j])
      case Some(k) => p(s[k]) && k >= i && forall j: Slot :: i <= j < k ==> !p(s[j])
    decreases |s| - i
  {
    if i < |s| && !p(s[i]) { ScanFinds(s, p, i + 1); }
  }

  lemma CallOnceValid(st: State, func: Key)
    requires Valid(st)
    ensures var r := CallOnceOp(st, func); r.Done? ==> Valid(r.st)
  {
    var free := (e: Entry) => e.kind == Unused;
    ScanFinds(st.slots, free, 0);
    var r := Scan(st.slots, free, 0);
    if r.Some? && func != 0 && forall i: Slot :: !Matches(st.slots[i], func, CallOnce) {
      FreeSlotValid(st, r.value, Entry(CallOnce, func, false, Blank));
    }
  }

  // ---- Runs

  /** One call into the framework. */
  datatype Op =
    | DoReset(key: Key)
    | DoCallOnce(func: Key)
    | DoSetDeferred(key: Key, count: int32, retcode: int32)
    | DoClearDeferred(key: Key)
    | DoCheckDeferred(key: Key)
    | DoSetDefault(key: Key, value: int32)
    | DoClearDefault(key: Key)
    | DoCheckDefault(key: Key)
    | DoSetBuffer(key: Key, buffer: Ptr, size: nat, allocateCopy: bool)
    | DoCopyToLocal(key: Key, maxSize: nat)
    | DoCopyFromLocal(key: Key, local: seq<uint8>)
    | DoSetHook(key: Key, hook: Ptr, arg: Ptr, isVarg: bool)
    | DoRegisterContext(key: Key, param: Argument)
    | DoStub(key: Key, defaultRc: int32)

  /** The only calls C leaves undefined are those that pass a bad buffer. */
  ghost predicate Defined(st: State, op: Op) {
    op.DoSetBuffer? ==> BufferOk(st, op.buffer, op.size, op.allocateCopy)
  }

  function Unit<T>(r: Outcome<T>): Outcome<()> {
    match r
    case Abort => Abort
    case Done(st, _) => Done(st, ())
  }

  ghost function Step(st: State, op: Op, hooks: Hooks): Outcome<()>
    requires Valid(st) && Defined(st, op)
  {
    match op
    case DoReset(key) => Done(ResetState(st, key), ())
    case DoCallOnce(func) => Unit(CallOnceOp(st, func))
    case DoSetDeferred(key, count, retcode) => SetDeferredRetcode(st, key, count, retcode)
    case DoClearDeferred(key) => Done(ClearDeferredRetcode(st, key), ())
    case DoCheckDeferred(key) => Done(CheckDeferredRetcode(st, key).0, ())
    case DoSetDefault(key, value) => SetDefaultReturnValue(st, key, value)
    case DoClearDefault(key) => Done(ClearDefaultReturnValue(st, key), ())
    case DoCheckDefault(key) => Done(CheckDefaultReturnValue(st, key).0, ())
    case DoSetBuffer(key, buffer, size, allocateCopy) => SetDataBuffer(st, key, buffer, size, allocateCopy)
    case DoCopyToLocal(key, maxSize) => Done(CopyToLocal(st, key, maxSize).0, ())
    case DoCopyFromLocal(key, local) => Done(CopyFromLocal(st, key, local).0, ())
    case DoSetHook(key, hook, arg, isVarg) => SetHook(st, key, hook, arg, isVarg)
    case DoRegisterContext(key, arg) => RegisterContext(st, key, arg)
    case DoStub(key, defaultRc) => Unit(DefaultStub(st, key, defaultRc, hooks))
  }

  lemma StepValid(st: State, op: Op, hooks: Hooks)
    requires Valid(st) && Defined(st, op)
    ensures var r := Step(st, op, hooks); r.Done? ==> Valid(r.st)
  {
    match op
    case DoReset(key) => ResetValid(st, key);
    case DoCallOnce(func) => CallOnceValid(st, func);
    case DoSetDeferred(key, count, retcode) =>
      if count > 0 { PutValid(st, Entry(DeferredRc, key, false, Retcode(count, retcode))); }
    case DoClearDeferred(key) => ClearDeferredValid(st, key);
    case DoCheckDeferred(key) => CheckDeferredValid(st, key);
    case DoSetDefault(key, value) => DefaultReturnValid(st, key, value);
    case DoClearDefault(key) => DefaultReturnValid(st, key, 0);
    case DoCheckDefault(key) => DefaultReturnValid(st, key, 0);
    case DoSetBuffer(key, buffer, size, allocateCopy) => SetDataBufferValid(st, key, buffer, size, allocateCopy);
    case DoCopyToLocal(key, maxSize) => CopyToLocalValid(st, key, maxSize);
    case DoCopyFromLocal(key, local) => CopyFromLocalValid(st, key, local);
    case DoSetHook(key, hook, arg, isVarg) => SetHookValid(st, key, hook, arg, isVarg);
    case DoRegisterContext(key, arg) => RegisterContextValid(st, key, arg);
    case DoStub(key, defaultRc) => DefaultStubValid(st, key, defaultRc, hooks);
  }

  /** A sequence of calls, first to last. It ends as Abort when a call aborts, or
      when a call is one that C leaves undefined. */
  ghost function Run(st: State, ops: seq<Op>, hooks: Hooks): (r: Outcome<()>)
    requires Valid(st)
    ensures r.Done? ==> Valid(r.st)
  {
    if ops == [] then Done(st, ())
    else
      var r := Run(st, ops[..|ops| - 1], hooks);
      var op := ops[|ops| - 1];
      if r.Done? && Defined(r.st, op) then StepValid(r.st, op, hooks); Step(r.st, op, hooks) else Abort
  }

  /** The cleared table; all memory belongs to the test program. */
  ghost predicate Initial(st: State) {
    && (forall i: Slot :: st.slots[i] == UNUSED)
    && st.mem.Keys == st.callers
    && (forall p :: p in st.mem ==> p < st.brk)
    && 0 < st.brk
  }

  lemma InitialValid(st: State)
    requires Initial(st)
    ensures Valid(st)
  {
  }

  /** After a full reset no copy made by the framework is still allocated. */
  lemma ResetFreesCopies(st: State)
    requires Valid(st)
    ensures Initial(ResetState(st, 0))
  {
    ResetValid(st, 0);
  }
}
