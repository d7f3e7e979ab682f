/**
 The operations of utstubs.c as functions on the table's contents. Every search
 here is the full scan `Find`; that the program's bounded search gives the same
 answer is proved in StubTable.
 */
module StubOps {
  import opened Wrappers
  import opened StubEntries


  /** The table together with the memory its buffers point into. Addresses from
      `brk` on have never been handed out; `callers` are the test program's own. */
  datatype State = State(slots: Table, mem: map<Ptr, seq<uint8>>, brk: Ptr, callers: set<Ptr>)

  /** UtAssert_Abort shuts the test program down. */
  datatype Outcome<+T> = Done(st: State, value: T) | Abort

  /** A user hook: (function, user object, vararg flag, code so far, calls before this one, context). */
  type Hooks = (Ptr, Ptr, bool, int32, uint32, Option<seq<Argument>>) -> int32

  // ---- Single slots

  function Write(st: State, i: Slot, e: Entry): State {
    st.(slots := st.slots[i := e])
  }

  /** UT_ClearStubEntry. */
  function Clear(st: State, i: Slot): State {
    var e := st.slots[i];
    var mem := if e.kind == DataBuffer && e.data.Buffer? && e.data.base != 0 && e.owned then st.mem - {e.data.base}
      else st.mem;
    st.(slots := st.slots[i := UNUSED], mem := mem)
  }

  /** Takes the nearest free slot for a new entry. */
  function Put(st: State, e: Entry): Outcome<()> {
    match Find(st.slots, e.key, Unused)
    case None => Abort
    case Some(i) => Done(Write(st, i, e), ())
  }

  // ---- Return codes

  function SetDeferredRetcode(st: State, key: Key, count: int32, retcode: int32): Outcome<()> {
    if count > 0 then Put(st, Entry(DeferredRc, key, false, Retcode(count, retcode))) else Done(st, ())
  }

  /** Every deferred code of the key goes. */
  function ClearDeferredRetcode(st: State, key: Key): State {
    st.(slots := seq(|st.slots|, i requires 0 <= i < |st.slots| =>
      if Matches(st.slots[i], key, DeferredRc) then UNUSED else st.slots[i]))
  }

  /** The code whose turn it is, if the countdown of the first deferred entry ends now. */
  function CheckDeferredRetcode(st: State, key: Key): (State, Option<int32>)
    requires WellTyped(st.slots)
  {
    match Find(st.slots, key, DeferredRc)
    case None => (st, None)
    case Some(i) =>
      FindIsNearest(st.slots, key, DeferredRc);
      var rc := st.slots[i].data;
      if rc.count <= 1 then (Clear(st, i), Some(rc.value))
      else (Write(st, i, st.slots[i].(data := rc.(count := rc.count - 1))), None)
  }

  function SetDefaultReturnValue(st: State, key: Key, value: int32): Outcome<()>
    requires WellTyped(st.slots)
  {
    match Find(st.slots, key, ForceFail)
    case None => Put(st, Entry(ForceFail, key, false, Retcode(0, value)))
    case Some(i) =>
      FindIsNearest(st.slots, key, ForceFail);
      Done(Write(st, i, st.slots[i].(data := st.slots[i].data.(value := value))), ())
  }

  function ClearDefaultReturnValue(st: State, key: Key): State {
    match Find(st.slots, key, ForceFail)
    case None => st
    case Some(i) => Clear(st, i)
  }

  function CheckDefaultReturnValue(st: State, key: Key): (State, Option<int32>)
    requires WellTyped(st.slots)
  {
    match Find(st.slots, key, ForceFail)
    case None => (st, None)
    case Some(i) =>
      FindIsNearest(st.slots, key, ForceFail);
      var rc := st.slots[i].data;
      (Write(st, i, st.slots[i].(data := rc.(count := Inc32(rc.count)))), Some(rc.value))
  }

  /** UT_GetStubRetcodeAndCount: code of the last call and the count, which it hands out as an int32. */
  function GetStubRetcodeAndCount(st: State, key: Key): Option<(int32, int32)>
    requires WellTyped(st.slots)
  {
    match Find(st.slots, key, Counter)
    case None => None
    case Some(i) =>
      FindIsNearest(st.slots, key, Counter);
      Some((st.slots[i].data.value, ToInt32(st.slots[i].data.count)))
  }

  /** UT_GetStubCount. */
  function GetStubCount(st: State, key: Key): uint32
    requires WellTyped(st.slots)
  {
    match Find(st.slots, key, Counter)
    case None => 0
    case Some(i) =>
      FindIsNearest(st.slots, key, Counter);
      st.slots[i].data.count
  }

  // ---- Data buffers

  function SetDataBuffer(st: State, key: Key, buffer: Ptr, size: nat, allocateCopy: bool): Outcome<()>
    requires BufferOk(st, buffer, size, allocateCopy)
  {
    if buffer == 0 || size == 0 then Done(st, ())
    else match Find(st.slots, key, Unused)
      case None => Abort
      case Some(i) =>
        if allocateCopy then
          Done(st.(slots := st.slots[i := Entry(DataBuffer, key, true, Buffer(0, size, st.brk))],
                   mem := st.mem[st.brk := st.mem[buffer][..size]], brk := st.brk + 1), ())
        else Done(Write(st, i, Entry(DataBuffer, key, false, Buffer(0, size, buffer))), ())
  }

  /** What C asks of the caller: `size` readable bytes, and, for a buffer that is
      used directly, memory that the caller keeps. */
  ghost predicate BufferOk(st: State, buffer: Ptr, size: nat, allocateCopy: bool) {
    buffer != 0 && size > 0 ==>
      buffer in st.mem && size <= |st.mem[buffer]| && (!allocateCopy ==> buffer in st.callers)
  }

  /** UT_GetDataBuffer: address, size and position of the buffer in use. */
  function GetDataBuffer(st: State, key: Key): (Ptr, nat, nat)
    requires WellTyped(st.slots)
  {
    match Find(st.slots, key, DataBuffer)
    case None => (0, 0, 0)
    case Some(i) =>
      FindIsNearest(st.slots, key, DataBuffer);
      var b := st.slots[i].data;
      (b.base, b.totalSize, b.position)
  }

  /** The bytes of a buffer that have not been consumed. */
  function Unread(b: EntryData, mem: map<Ptr, seq<uint8>>): seq<uint8>
    requires b.Buffer? && BufferFits(b, mem)
  {
    mem[b.base][b.position..b.totalSize]
  }

  /** Moves the position of the buffer in slot `i` on, and drops an exhausted buffer. */
  function Advance(st: State, i: Slot, n: nat): State
    requires st.slots[i].data.Buffer?
  {
    var b := st.slots[i].data;
    if b.position + n >= b.totalSize then Clear(st, i)
    else Write(st, i, st.slots[i].(data := b.(position := b.position + n)))
  }

  /** UT_Stub_CopyToLocal: the bytes handed to the stub. */
  function CopyToLocal(st: State, key: Key, maxSize: nat): (State, seq<uint8>)
    requires Valid(st)
  {
    match Find(st.slots, key, DataBuffer)
    case None => (st, [])
    case Some(i) =>
      FindIsNearest(st.slots, key, DataBuffer);
      var rest := Unread(st.slots[i].data, st.mem);
      var n := if maxSize < |rest| then maxSize else |rest|;
      (Advance(st, i, n), rest[..n])
  }

  /** UT_Stub_CopyFromLocal: `local` is the stub's data; the result counts the bytes taken. */
  function CopyFromLocal(st: State, key: Key, local: seq<uint8>): (State, nat)
    requires Valid(st)
  {
    match Find(st.slots, key, DataBuffer)
    case None => (st, 0)
    case Some(i) =>
      FindIsNearest(st.slots, key, DataBuffer);
      var b := st.slots[i].data;
      var n := if |local| < b.totalSize - b.position then |local| else b.totalSize - b.position;
      var old' := st.mem[b.base];
      var new' := old'[..b.position] + local[..n] + old'[b.position + n..];
      (Advance(st.(mem := st.mem[b.base := new']), i, n), n)
  }

  // ---- Hooks, contexts and the default stub

  /** UT_DoSetHookFunction; a NULL hook removes the entry. */
  function SetHook(st: State, key: Key, hook: Ptr, arg: Ptr, isVarg: bool): Outcome<()> {
    match Find(st.slots, key, CallbackHook)
    case None =>
      if hook == 0 then Done(st, ())
      else Put(st, Entry(CallbackHook, key, false, Callback(hook, arg, isVarg)))
    case Some(i) =>
      if hook == 0 then Done(Clear(st, i), ())
      else Done(Write(st, i, st.slots[i].(data := Callback(hook, arg, isVarg))), ())
  }

  /** UT_Stub_RegisterContext; arguments beyond the eighth are dropped. */
  function RegisterContext(st: State, key: Key, arg: Argument): Outcome<()>
    requires WellTyped(st.slots)
  {
    match Find(st.slots, key, CallbackContext)
    case None => Put(st, Entry(CallbackContext, key, false, Context([arg])))
    case Some(i) =>
      FindIsNearest(st.slots, key, CallbackContext);
      var args := st.slots[i].data.args;
      if |args| < STUBCONTEXT_MAXSIZE then
        Done(Write(st, i, st.slots[i].(data := Context(args + [arg]))), ())
      else Done(st, ())
  }

  /** First half of the default stub: the code from the table, or `defaultRc`. */
  function ChooseRetcode(st: State, key: Key, defaultRc: int32): (State, int32)
    requires WellTyped(st.slots)
  {
    var (st1, deferred) := CheckDeferredRetcode(st, key);
    match deferred
    case Some(rc) => (st1, rc)
    case None =>
      CheckDeferredWellTyped(st, key);
      var (st2, forced) := CheckDefaultReturnValue(st1, key);
      (st2, forced.GetOr(defaultRc))
  }

  /** The counter step of the default stub; the value is the count before the call. */
  function CountCall(st: State, key: Key, retcode: int32): Outcome<uint32>
    requires WellTyped(st.slots)
  {
    match Find(st.slots, key, Counter)
    case None =>
      (match Put(st, Entry(Counter, key, false, Retcode(1, retcode)))
       case Abort => Abort
       case Done(st', _) => Done(st', 0))
    case Some(i) =>
      FindIsNearest(st.slots, key, Counter);
      var n := st.slots[i].data.count;
      Done(Write(st, i, st.slots[i].(data := Retcode(Inc32(n), retcode))), n)
  }

  /** The hook step of the default stub: run the hook on the registered context, then drop the context. */
  function RunHook(st: State, key: Key, retcode: int32, counter: uint32, hooks: Hooks): (State, int32)
    requires WellTyped(st.slots)
  {
    FindIsNearest(st.slots, key, CallbackContext);
    FindIsNearest(st.slots, key, CallbackHook);
    var context := Find(st.slots, key, CallbackContext);
    var args := if context.Some? then Some(st.slots[context.value].data.args) else None;
    var rc :=
      match Find(st.slots, key, CallbackHook)
      case None => retcode
      case Some(i) => var cb := st.slots[i].data; hooks(cb.hook, cb.arg, cb.isVarg, retcode, counter, args);
    (if context.Some? then Clear(st, context.value) else st, rc)
  }

  /** UT_DefaultStubImplWithArgs. */
  function DefaultStub(st: State, key: Key, defaultRc: int32, hooks: Hooks): Outcome<int32>
    requires WellTyped(st.slots)
  {
    ChooseWellTyped(st, key, defaultRc);
    var (st1, rc) := ChooseRetcode(st, key, defaultRc);
    match CountCall(st1, key, rc)
    case Abort => Abort
    case Done(st2, counter) =>
      CountWellTyped(st1, key, rc);
      var (st3, rc') := RunHook(st2, key, rc, counter, hooks);
      Done(st3, rc')
  }

  // ---- Resets and one-time calls

  predicate Covered(e: Entry, key: Key) {
    key == 0 || e.key == key
  }

  /** The copies freed when the covered slots below `n` are cleared. */
  function Freed(s: Table, key: Key, n: nat): set<Ptr> {
    set i: Slot | i < n && Covered(s[i], key) && s[i].owned && s[i].data.Buffer? :: s[i].data.base
  }

  /** UT_ResetState; key 0 clears everything. */
  function ResetState(st: State, key: Key): State {
    st.(slots := seq(|st.slots|, i requires 0 <= i < |st.slots| =>
          if Covered(st.slots[i], key) then UNUSED else st.slots[i]),
        mem := st.mem - Freed(st.slots, key, |st.slots|))
  }

  /** The least index at or after `i` whose entry satisfies `p`. */
  function Scan(s: Table, p: Entry -> bool, i: nat): Option<Slot>
    requires i <= |s|
    decreases |s| - i
  {
    if i == |s| then None else if p(s[i]) then Some(i) else Scan(s, p, i + 1)
  }

  /** UT_Stub_CallOnce; the value tells whether `func` is run now. */
  function CallOnceOp(st: State, func: Key): Outcome<bool> {
    if func == 0 || exists i: Slot :: Matches(st.slots[i], func, CallOnce) then Done(st, false)
    else match Scan(st.slots, (e: Entry) => e.kind == Unused, 0)
      case None => Abort
      case Some(i) => Done(Write(st, i, Entry(CallOnce, func, false, Blank)), true)
  }

  // ---- What every reachable state keeps

  predicate DataFits(e: Entry) {
    match e.kind
    case Unused => e == UNUSED
    case Counter | ForceFail => e.data.Retcode?
    case DeferredRc => e.data.Retcode? && e.data.count > 0
    case DataBuffer => e.data.Buffer? && e.data.base != 0 && e.data.position < e.data.totalSize
    case CallbackHook => e.data.Callback? && e.data.hook != 0
    case CallbackContext => e.data.Context? && 1 <= |e.data.args| <= STUBCONTEXT_MAXSIZE
    case CallOnce => e.data == Blank && e.key != 0
  }

  /** Free slots are all zero, and every entry uses the union member of its type. */
  predicate WellTyped(s: Table) {
    forall i: Slot :: DataFits(s[i]) && (s[i].owned ==> s[i].kind == DataBuffer)
  }

  predicate BufferFits(b: EntryData, mem: map<Ptr, seq<uint8>>) {
    b.Buffer? ==> b.base in mem && b.position <= b.totalSize <= |mem[b.base]|
  }

  predicate IsSingleton(mode: EntryType) {
    mode in {Counter, ForceFail, CallbackHook, CallbackContext, CallOnce}
  }

  /** At most one entry per key of the types that are not queues. */
  ghost predicate Singletons(s: Table) {
    forall i: Slot, j: Slot :: i != j && IsSingleton(s[i].kind) && s[i].kind == s[j].kind ==> s[i].key != s[j].key
  }

  /** Live buffers point to live memory, copies have one owner, and nothing is leaked:
      every address in memory is the caller's or that of a live copy. */
  ghost predicate MemoryOk(st: State) {
    && (forall i: Slot :: BufferFits(st.slots[i].data, st.mem))
    && (forall i: Slot, j: Slot ::
      i != j && st.slots[i].owned && st.slots[j].data.Buffer? && st.slots[i].data.Buffer? ==>
         st.slots[i].data.base != st.slots[j].data.base)
    && (forall i: Slot :: st.slots[i].owned && st.slots[i].data.Buffer? ==> st.slots[i].data.base !in st.callers)
    && (forall p :: p in st.mem ==> p < st.brk && (p in st.callers || Owned(st.slots, p)))
    && st.callers <= st.mem.Keys
    && 0 < st.brk
  }

  ghost predicate Owned(s: Table, p: Ptr) {
    exists i: Slot :: s[i].owned && s[i].data.Buffer? && s[i].data.base == p
  }

  ghost predicate Valid(st: State) {
    WellTyped(st.slots) && Singletons(st.slots) && MemoryOk(st)
  }

  lemma CheckDeferredWellTyped(st: State, key: Key)
    requires WellTyped(st.slots)
    ensures WellTyped(CheckDeferredRetcode(st, key).0.slots)
  {
    FindIsNearest(st.slots, key, DeferredRc);
  }

  lemma ChooseWellTyped(st: State, key: Key, defaultRc: int32)
    requires WellTyped(st.slots)
    ensures WellTyped(ChooseRetcode(st, key, defaultRc).0.slots)
  {
    CheckDeferredWellTyped(st, key);
    var st1 := CheckDeferredRetcode(st, key).0;
    FindIsNearest(st1.slots, key, ForceFail);
  }

  lemma CountWellTyped(st: State, key: Key, rc: int32)
    requires WellTyped(st.slots)
    ensures var r := CountCall(st, key, rc); r.Done? ==> WellTyped(r.st.slots)
  {
    FindIsNearest(st.slots, key, Counter);
  }
}
