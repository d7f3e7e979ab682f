/**
 The stub table as the program keeps it: an array of 200 entries changed in place,
 and the longest search so far, which bounds every later search. Each method is
 proved against the function of StubOps with the same purpose.
 */
module StubTable {
  import opened Wrappers
  import opened StubEntries
  import opened StubOps
  import opened StubRuns
  import opened StubLists

  /** No entry placed by probing is further from home than the search bound. */
  ghost predicate Bounded(s: Table, maxSearchLen: nat) {
    forall i: Slot :: s[i].kind != Unused && s[i].kind != CallOnce ==> Dist(s[i].key, i) < maxSearchLen
  }

  /** Probing complete within the bound: a match found is the nearest, and a miss means there is none. */
  lemma BoundedSearchIsComplete(s: Table, key: Key, mode: EntryType, bound: nat, n: nat)
    requires WellTyped(s) && mode != CallOnce && n <= |s|
    requires mode != Unused ==> Bounded(s, bound)
    requires forall d :: 0 <= d < n ==> !Matches(s[At(key, d)], key, mode)
    ensures n < |s| && Matches(s[At(key, n)], key, mode) ==> Find(s, key, mode) == Some(At(key, n))
    ensures n >= (if mode == Unused then |s| else bound) ==>
      Find(s, key, mode) == None && forall i: Slot :: s[i].kind == mode ==> s[i].key != key || mode == Unused
    ensures mode == Unused && n == |s| ==> forall i: Slot :: s[i].kind != Unused
  {
    FindIsNearest(s, key, mode);
    forall i: Slot | Dist(key, i) < n ensures !Matches(s[i], key, mode) {
      assert At(key, Dist(key, i)) == i;
    }
    forall i: Slot ensures DataFits(s[i]) { }
    if n < |s| && Matches(s[At(key, n)], key, mode) {
      assert Dist(key, At(key, n)) == n;
    }
  }

  /** Some deferred entries of the key have been cleared, and nothing else has changed. */
  ghost predicate PartlyCleared(before: Table, s: Table, key: Key) {
    forall i: Slot :: s[i] == before[i] || (Matches(before[i], key, DeferredRc) && s[i] == UNUSED)
  }

  lemma ClearingShrinks(before: Table, s: Table, key: Key, i: Slot)
    requires PartlyCleared(before, s, key) && Find(s, key, DeferredRc) == Some(i)
    ensures Matches(s[i], key, DeferredRc)
    ensures PartlyCleared(before, s[i := UNUSED], key)
    ensures |Queue(s[i := UNUSED], key, DeferredRc)| < |Queue(s, key, DeferredRc)|
  {
    FindIsNearest(s, key, DeferredRc);
    HeadQueues(s, key, DeferredRc, i, UNUSED);
  }

  lemma AllCleared(st: State, s: Table, key: Key)
    requires PartlyCleared(st.slots, s, key) && Find(s, key, DeferredRc) == None
    ensures s == ClearDeferredRetcode(st, key).slots
  {
    FindIsNearest(s, key, DeferredRc);
    forall i | 0 <= i < |s| ensures s[i] == if Matches(st.slots[i], key, DeferredRc) then UNUSED else st.slots[i] {
      assert !Matches(s[i], key, DeferredRc);
    }
  }

  /** The slots below `n` have been reset. */
  ghost predicate ResetSoFar(s: Table, t: Table, key: Key, n: nat) {
    forall j: Slot :: t[j] == if j < n && Covered(s[j], key) then UNUSED else s[j]
  }

  /** StubOps.CopyFromLocal with its parts named. */
  lemma CopyFromLocalParts(st: State, key: Key, local: seq<uint8>, i: Slot)
    requires Valid(st) && Find(st.slots, key, DataBuffer) == Some(i)
    ensures st.slots[i].kind == DataBuffer && DataFits(st.slots[i]) && BufferFits(st.slots[i].data, st.mem)
    ensures var b := st.slots[i].data;
      var n := if |local| < b.totalSize - b.position then |local| else b.totalSize - b.position;
      var filled := st.mem[b.base][..b.position] + local[..n] + st.mem[b.base][b.position + n..];
      StubOps.CopyFromLocal(st, key, local) == (StubOps.Advance(st.(mem := st.mem[b.base := filled]), i, n), n)
  {
    hide StubOps.Advance;
    FindIsNearest(st.slots, key, DataBuffer);
  }

  lemma ResetNone(s: Table, key: Key)
    ensures ResetSoFar(s, s, key, 0) && Freed(s, key, 0) == {}
  {
  }

  lemma SliceOfSlice<X>(s: seq<X>, lo: nat, hi: nat, n: nat)
    requires lo + n <= hi <= |s|
    ensures s[lo..hi][..n] == s[lo..lo + n]
  {
  }

  lemma ResetNext(s: Table, t: Table, key: Key, i: Slot)
    requires WellTyped(s) && ResetSoFar(s, t, key, i)
    ensures t[i] == s[i]
    ensures ResetSoFar(s, if Covered(s[i], key) then t[i := UNUSED] else t, key, i + 1)
    ensures Freed(s, key, i + 1) == Freed(s, key, i) + if Covered(s[i], key) && s[i].owned then {s[i].data.base} else {}
  {
    assert DataFits(s[i]);
  }

  lemma ResetDone(st: State, t: Table, key: Key)
    requires ResetSoFar(st.slots, t, key, |t|)
    ensures t == ResetState(st, key).slots
    ensures key == 0 ==> Bounded(t, 0)
  {
  }

  class StubTable {
    const table: array<Entry>
    var maxSearchLen: nat
    var mem: map<Ptr, seq<uint8>>
    var brk: Ptr
    const callers: set<Ptr>

    ghost function Abstract(): State
      reads this, table
      requires table.Length == MAX_FUNC_STUBS
    {
      State(table[..], mem, brk, callers)
    }

    ghost predicate Inv()
      reads this, table
    {
      && table.Length == MAX_FUNC_STUBS
      && maxSearchLen <= MAX_FUNC_STUBS
      && Bounded(table[..], maxSearchLen)
      && Valid(Abstract())
    }

    /** A cleared table beside the memory of the test program. */
    constructor (memory: map<Ptr, seq<uint8>>, next: Ptr)
      requires 0 < next && forall p :: p in memory ==> p < next
      ensures Inv() && fresh(table) && Initial(Abstract())
      ensures mem == memory && callers == memory.Keys
    {
      table := new Entry[MAX_FUNC_STUBS](_ => UNUSED);
      maxSearchLen := 0;
      mem := memory;
      brk := next;
      callers := memory.Keys;
      new;
      InitialValid(Abstract());
    }

    /** UT_GetStubEntry. The search for a free slot looks at the whole table, any
        other only as far as the longest search so far; both are complete. */
    method GetStubEntry(key: Key, mode: EntryType) returns (r: Option<Slot>)
      requires Inv() && mode != CallOnce
      modifies this`maxSearchLen
      ensures Inv() && maxSearchLen >= old(maxSearchLen)
      ensures r == Find(table[..], key, mode)
      ensures r.Some? ==> Dist(key, r.value) < maxSearchLen
    {
      var idx := key % (MAX_FUNC_STUBS - 1);
      var searchLen := 0;
      var searchLimit := if mode == Unused then MAX_FUNC_STUBS else maxSearchLen;
      var searchKey := if mode == Unused then 0 else key;
      r := None;
      while searchLen < searchLimit
        invariant 0 <= searchLen <= searchLimit <= MAX_FUNC_STUBS
        invariant searchLen < MAX_FUNC_STUBS ==> idx == At(key, searchLen)
        invariant forall d :: 0 <= d < searchLen ==> !Matches(table[At(key, d)], key, mode)
        invariant r == None && maxSearchLen == old(maxSearchLen)
      {
        BoundedSearchIsComplete(table[..], key, mode, maxSearchLen, searchLen);
        searchLen := searchLen + 1;
        if table[idx].kind == mode && table[idx].key == searchKey {
          r := Some(idx);
          break;
        }
        idx := idx + 1;
        if idx >= MAX_FUNC_STUBS {
          idx := 0;
        }
      }
      if r.None? {
        BoundedSearchIsComplete(table[..], key, mode, maxSearchLen, searchLen);
      }
      if searchLen > maxSearchLen {
        maxSearchLen := searchLen;
      }
    }

    /** UT_ClearStubEntry: frees a copied buffer and zeroes the slot. */
    method ClearStubEntry(i: Slot)
      requires Inv()
      modifies this`mem, table
      ensures Inv()
      ensures Abstract() == Clear(old(Abstract()), i)
    {
      ClearValid(Abstract(), i);
      var e := table[i];
      if e.kind == DataBuffer && e.data.Buffer? && e.data.base != 0 && e.owned {
        mem := mem - {e.data.base};
      }
      table[i] := UNUSED;
    }

    /** Overwrites slot `i`, which a search for `e.key` has just returned. */
    method Store(i: Slot, e: Entry)
      requires Inv() && e.kind != Unused
      requires e.kind == CallOnce || Dist(e.key, i) < maxSearchLen
      requires Valid(Write(Abstract(), i, e))
      modifies table
      ensures Inv()
      ensures Abstract() == Write(old(Abstract()), i, e)
    {
      table[i] := e;
    }

    method SetDeferredRetcode(key: Key, count: int32, retcode: int32) returns (ok: bool)
      requires Inv()
      modifies this`maxSearchLen, table
      ensures Inv()
      ensures var r := StubOps.SetDeferredRetcode(old(Abstract()), key, count, retcode);
        ok == r.Done? && Abstract() == if ok then r.st else old(Abstract())
    {
      ok := true;
      if count > 0 {
        var slot := GetStubEntry(key, Unused);
        if slot.None? { return false; }
        var e := Entry(DeferredRc, key, false, Retcode(count, retcode));
        PutValid(Abstract(), e);
        Store(slot.value, e);
      }
    }

    method ClearDeferredRetcode(key: Key)
      requires Inv()
      modifies this`maxSearchLen, this`mem, table
      ensures Inv()
      ensures Abstract() == StubOps.ClearDeferredRetcode(old(Abstract()), key)
    {
      ghost var before: Table := table[..];
      var slot := GetStubEntry(key, DeferredRc);
      while slot.Some?
        invariant Inv()
        invariant slot == Find(table[..], key, DeferredRc)
        invariant mem == old(mem) && brk == old(brk)
        invariant PartlyCleared(before, table[..], key)
        decreases |Queue(table[..], key, DeferredRc)|
      {
        ghost var s: Table := table[..];
        ClearingShrinks(before, s, key, slot.value);
        assert DataFits(s[slot.value]);
        ClearStubEntry(slot.value);
        assert table[..] == s[slot.value := UNUSED];
        slot := GetStubEntry(key, DeferredRc);
      }
      AllCleared(old(Abstract()), table[..], key);
    }

    method CheckDeferredRetcode(key: Key) returns (retcode: Option<int32>)
      requires Inv()
      modifies this`maxSearchLen, this`mem, table
      ensures Inv()
      ensures (Abstract(), retcode) == StubOps.CheckDeferredRetcode(old(Abstract()), key)
    {
      retcode := None;
      var slot := GetStubEntry(key, DeferredRc);
      if slot.Some? {
        FindIsNearest(table[..], key, DeferredRc);
        var i := slot.value;
        assert DataFits(table[i]);
        var rc := table[i].data;
        if rc.count > 1 {
          var e := table[i].(data := rc.(count := rc.count - 1));
          WriteValid(Abstract(), i, e);
          Store(i, e);
        } else {
          retcode := Some(rc.value);
          ClearStubEntry(i);
        }
      }
    }

    method SetDefaultReturnValue(key: Key, value: int32) returns (ok: bool)
      requires Inv()
      modifies this`maxSearchLen, table
      ensures Inv()
      ensures var r := StubOps.SetDefaultReturnValue(old(Abstract()), key, value);
        ok == r.Done? && Abstract() == if ok then r.st else old(Abstract())
    {
      DefaultReturnValid(Abstract(), key, value);
      ok := true;
      var slot := GetStubEntry(key, ForceFail);
      if slot.Some? {
        FindIsNearest(table[..], key, ForceFail);
        assert DataFits(table[slot.value]);
        Store(slot.value, table[slot.value].(data := table[slot.value].data.(value := value)));
      } else {
        slot := GetStubEntry(key, Unused);
        if slot.None? { return false; }
        Store(slot.value, Entry(ForceFail, key, false, Retcode(0, value)));
      }
    }

    method ClearDefaultReturnValue(key: Key)
      requires Inv()
      modifies this`maxSearchLen, this`mem, table
      ensures Inv()
      ensures Abstract() == StubOps.ClearDefaultReturnValue(old(Abstract()), key)
    {
      var slot := GetStubEntry(key, ForceFail);
      if slot.Some? {
        ClearStubEntry(slot.value);
      }
    }

    method CheckDefaultReturnValue(key: Key) returns (value: Option<int32>)
      requires Inv()
      modifies this`maxSearchLen, table
      ensures Inv()
      ensures (Abstract(), value) == StubOps.CheckDefaultReturnValue(old(Abstract()), key)
    {
      DefaultReturnValid(Abstract(), key, 0);
      value := None;
      var slot := GetStubEntry(key, ForceFail);
      if slot.Some? {
        FindIsNearest(table[..], key, ForceFail);
        assert DataFits(table[slot.value]);
        var rc := table[slot.value].data;
        Store(slot.value, table[slot.value].(data := rc.(count := Inc32(rc.count))));
        value := Some(rc.value);
      }
    }

    method GetStubRetcodeAndCount(key: Key) returns (r: Option<(int32, int32)>)
      requires Inv()
      modifies this`maxSearchLen
      ensures Inv()
      ensures r == StubOps.GetStubRetcodeAndCount(Abstract(), key)
    {
      r := None;
      var slot := GetStubEntry(key, Counter);
      if slot.Some? {
        FindIsNearest(table[..], key, Counter);
        assert DataFits(table[slot.value]);
        r := Some((table[slot.value].data.value, ToInt32(table[slot.value].data.count)));
      }
    }

    method GetStubCount(key: Key) returns (count: uint32)
      requires Inv()
      modifies this`maxSearchLen
      ensures Inv()
      ensures count == StubOps.GetStubCount(Abstract(), key)
    {
      count := 0;
      var slot := GetStubEntry(key, Counter);
      if slot.Some? {
        FindIsNearest(table[..], key, Counter);
        assert DataFits(table[slot.value]);
        count := table[slot.value].data.count;
      }
    }

    method SetDataBuffer(key: Key, buffer: Ptr, size: nat, allocateCopy: bool) returns (ok: bool)
      requires Inv() && BufferOk(Abstract(), buffer, size, allocateCopy)
      modifies this`maxSearchLen, this`mem, this`brk, table
      ensures Inv()
      ensures var r := StubOps.SetDataBuffer(old(Abstract()), key, buffer, size, allocateCopy);
        ok == r.Done? && Abstract() == if ok then r.st else old(Abstract())
    {
      SetDataBufferValid(Abstract(), key, buffer, size, allocateCopy);
      ok := true;
      if buffer != 0 && size > 0 {
        var slot := GetStubEntry(key, Unused);
        if slot.None? { return false; }
        if allocateCopy {
          table[slot.value] := Entry(DataBuffer, key, true, Buffer(0, size, brk));
          mem := mem[brk := mem[buffer][..size]];
          brk := brk + 1;
        } else {
          table[slot.value] := Entry(DataBuffer, key, false, Buffer(0, size, buffer));
        }
      }
    }

    method GetDataBuffer(key: Key) returns (buffer: Ptr, maxSize: nat, position: nat)
      requires Inv()
      modifies this`maxSearchLen
      ensures Inv()
      ensures (buffer, maxSize, position) == StubOps.GetDataBuffer(Abstract(), key)
    {
      buffer, maxSize, position := 0, 0, 0;
      var slot := GetStubEntry(key, DataBuffer);
      if slot.Some? {
        FindIsNearest(table[..], key, DataBuffer);
        assert DataFits(table[slot.value]);
        var b := table[slot.value].data;
        buffer, maxSize, position := b.base, b.totalSize, b.position;
      }
    }

    /** Moves a buffer's position on; a buffer that is used up is dropped. */
    method Advance(i: Slot, actualCopy: nat)
      requires Inv() && table[i].kind == DataBuffer
      modifies this`mem, table
      ensures Inv()
      ensures Abstract() == StubOps.Advance(old(Abstract()), i, actualCopy)
    {
      assert DataFits(table[i]);
      AdvanceValid(Abstract(), i, actualCopy);
      var b := table[i].data;
      if b.position + actualCopy >= b.totalSize {
        ClearStubEntry(i);
      } else {
        Store(i, table[i].(data := b.(position := b.position + actualCopy)));
      }
    }

    /** UT_Stub_CopyToLocal: `copied` is what lands in the stub's buffer. */
    method CopyToLocal(key: Key, maxSize: nat) returns (copied: seq<uint8>)
      requires Inv()
      modifies this`maxSearchLen, this`mem, table
      ensures Inv()
      ensures (Abstract(), copied) == StubOps.CopyToLocal(old(Abstract()), key, maxSize)
    {
      copied := [];
      var slot := GetStubEntry(key, DataBuffer);
      if slot.Some? {
        FindIsNearest(table[..], key, DataBuffer);
        var i := slot.value;
        assert DataFits(table[i]) && BufferFits(table[i].data, mem);
        var b := table[i].data;
        var actualCopy := b.totalSize - b.position;
        if maxSize < actualCopy {
          actualCopy := maxSize;
        }
        copied := mem[b.base][b.position..b.position + actualCopy];
        SliceOfSlice(mem[b.base], b.position, b.totalSize, actualCopy);
        Advance(i, actualCopy);
      }
    }

    method CopyFromLocal(key: Key, local: seq<uint8>) returns (actualCopy: nat)
      requires Inv()
      modifies this`maxSearchLen, this`mem, table
      ensures Inv()
      ensures (Abstract(), actualCopy) == StubOps.CopyFromLocal(old(Abstract()), key, local)
    {
      hide StubOps.Advance;
      hide Bounded;
      hide Valid;
      actualCopy := 0;
      var slot := GetStubEntry(key, DataBuffer);
      if slot.Some? {
        var i := slot.value;
        CopyFromLocalParts(Abstract(), key, local, i);
        hide StubOps.CopyFromLocal;
        var b := table[i].data;
        actualCopy := b.totalSize - b.position;
        if |local| < actualCopy {
          actualCopy := |local|;
        }
        var target := mem[b.base];
        var filled := target[..b.position] + local[..actualCopy] + target[b.position + actualCopy..];
        MemoryValid(Abstract(), b.base, filled);
        mem := mem[b.base := filled];
        Advance(i, actualCopy);
      }
    }

    method SetHook(key: Key, hook: Ptr, arg: Ptr, isVarg: bool) returns (ok: bool)
      requires Inv()
      modifies this`maxSearchLen, this`mem, table
      ensures Inv()
      ensures var r := StubOps.SetHook(old(Abstract()), key, hook, arg, isVarg);
        ok == r.Done? && Abstract() == if ok then r.st else old(Abstract())
    {
      SetHookValid(Abstract(), key, hook, arg, isVarg);
      FindIsNearest(table[..], key, CallbackHook);
      ok := true;
      var slot := GetStubEntry(key, CallbackHook);
      if slot.None? && hook != 0 {
        slot := GetStubEntry(key, Unused);
        if slot.None? { return false; }
        Store(slot.value, Entry(CallbackHook, key, false, Callback(hook, arg, isVarg)));
      } else if hook == 0 && slot.Some? {
        ClearStubEntry(slot.value);
      } else if slot.Some? {
        Store(slot.value, table[slot.value].(data := Callback(hook, arg, isVarg)));
      }
    }

    method RegisterContext(key: Key, arg: Argument) returns (ok: bool)
      requires Inv()
      modifies this`maxSearchLen, table
      ensures Inv()
      ensures var r := StubOps.RegisterContext(old(Abstract()), key, arg);
        ok == r.Done? && Abstract() == if ok then r.st else old(Abstract())
    {
      RegisterContextValid(Abstract(), key, arg);
      FindIsNearest(table[..], key, CallbackContext);
      ok := true;
      var slot := GetStubEntry(key, CallbackContext);
      if slot.None? {
        slot := GetStubEntry(key, Unused);
        if slot.None? { return false; }
        Store(slot.value, Entry(CallbackContext, key, false, Context([arg])));
      } else {
        assert DataFits(table[slot.value]);
        var args := table[slot.value].data.args;
        if |args| < STUBCONTEXT_MAXSIZE {
          Store(slot.value, table[slot.value].(data := Context(args + [arg])));
        }
      }
    }

    /** The counter step of the default stub. */
    method CountCall(key: Key, retcode: int32) returns (counter: Option<uint32>)
      requires Inv()
      modifies this`maxSearchLen, table
      ensures Inv()
      ensures match StubOps.CountCall(old(Abstract()), key, retcode)
        case Abort => counter == None && Abstract() == old(Abstract())
        case Done(st, n) => counter == Some(n) && Abstract() == st
    {
      CountValid(Abstract(), key, retcode);
      FindIsNearest(table[..], key, Counter);
      var slot := GetStubEntry(key, Counter);
      if slot.Some? {
        assert DataFits(table[slot.value]);
        var n := table[slot.value].data.count;
        Store(slot.value, table[slot.value].(data := Retcode(Inc32(n), retcode)));
        return Some(n);
      }
      slot := GetStubEntry(key, Unused);
      if slot.None? { return None; }
      Store(slot.value, Entry(Counter, key, false, Retcode(1, retcode)));
      return Some(0);
    }

    /** The choice of the return code: deferred, forced, or the default. */
    method ChooseRetcode(key: Key, defaultRc: int32) returns (retcode: int32)
      requires Inv()
      modifies this`maxSearchLen, this`mem, table
      ensures Inv()
      ensures (Abstract(), retcode) == StubOps.ChooseRetcode(old(Abstract()), key, defaultRc)
    {
      var rc := CheckDeferredRetcode(key);
      if rc.None? {
        rc := CheckDefaultReturnValue(key);
      }
      retcode := rc.GetOr(defaultRc);
    }

    /** The hook is called with the registered context, which is then dropped. */
    method RunHook(key: Key, retcode: int32, counter: uint32, hooks: Hooks) returns (rc: int32)
      requires Inv()
      modifies this`maxSearchLen, this`mem, table
      ensures Inv()
      ensures (Abstract(), rc) == StubOps.RunHook(old(Abstract()), key, retcode, counter, hooks)
    {
      FindIsNearest(table[..], key, CallbackContext);
      FindIsNearest(table[..], key, CallbackHook);
      rc := retcode;
      var args := None;
      var context := GetStubEntry(key, CallbackContext);
      if context.Some? {
        assert DataFits(table[context.value]);
        args := Some(table[context.value].data.args);
      }
      var hook := GetStubEntry(key, CallbackHook);
      if hook.Some? {
        assert DataFits(table[hook.value]);
        var cb := table[hook.value].data;
        rc := hooks(cb.hook, cb.arg, cb.isVarg, rc, counter, args);
      }
      if context.Some? {
        ClearStubEntry(context.value);
      }
    }

    /** UT_DefaultStubImplWithArgs; None when it aborts. */
    method DefaultStub(key: Key, defaultRc: int32, hooks: Hooks) returns (retcode: Option<int32>)
      requires Inv()
      modifies this`maxSearchLen, this`mem, table
      ensures Inv()
      ensures match StubOps.DefaultStub(old(Abstract()), key, defaultRc, hooks)
        case Abort => retcode == None
        case Done(st, rc) => retcode == Some(rc) && Abstract() == st
    {
      var rc := ChooseRetcode(key, defaultRc);
      var counter := CountCall(key, rc);
      if counter.None? { return None; }
      rc := RunHook(key, rc, counter.value, hooks);
      return Some(rc);
    }

    method ResetState(key: Key)
      requires Inv()
      modifies this`maxSearchLen, this`mem, table
      ensures Inv()
      ensures Abstract() == StubOps.ResetState(old(Abstract()), key)
    {
      hide ResetSoFar;
      hide Freed;
      hide Bounded;
      ghost var s: Table := table[..];
      ResetNone(s, key);
      for i := 0 to MAX_FUNC_STUBS
        invariant Inv() && brk == old(brk)
        invariant ResetSoFar(s, table[..], key, i)
        invariant mem == old(mem) - Freed(s, key, i)
      {
        ghost var t: Table := table[..];
        ResetNext(s, t, key, i);
        assert DataFits(s[i]);
        if key == 0 || table[i].key == key {
          ClearStubEntry(i);
          assert table[..] == t[i := UNUSED];
        }
      }
      if key == 0 {
        maxSearchLen := 0;
      }
      ResetDone(old(Abstract()), table[..], key);
    }

    /** UT_Stub_CallOnce; `ran` tells whether `func` is run now. */
    method StubCallOnce(func: Key) returns (ok: bool, ran: bool)
      requires Inv()
      modifies table
      ensures Inv()
      ensures match CallOnceOp(old(Abstract()), func)
        case Abort => !ok && Abstract() == old(Abstract())
        case Done(st, v) => ok && ran == v && Abstract() == st
    {
      if func == 0 { return true, false; }
      CallOnceValid(Abstract(), func);
      ghost var free := (e: Entry) => e.kind == Unused;
      ScanFinds(table[..], free, 0);
      var once: Option<Slot> := None;
      var i := 0;
      while i < MAX_FUNC_STUBS
        invariant 0 <= i <= MAX_FUNC_STUBS
        invariant forall j: Slot :: j < i ==> !Matches(table[j], func, CallOnce)
        invariant once.None? ==> forall j: Slot :: j < i ==> table[j].kind != Unused
        invariant once.Some? ==> once.value < i && table[once.value].kind == Unused
        invariant once.Some? ==> forall j: Slot :: j < once.value ==> table[j].kind != Unused
      {
        if table[i].kind == Unused && once.None? {
          once := Some(i);
        } else if table[i].kind == CallOnce && table[i].key == func {
          assert Matches(table[i], func, CallOnce);
          return true, false;
        }
        i := i + 1;
      }
      if once.None? { return false, false; }
      Store(once.value, Entry(CallOnce, func, false, Blank));
      return true, true;
    }

    /** One call of a run. */
    method Perform(op: Op, hooks: Hooks) returns (ok: bool)
      requires Inv() && Defined(Abstract(), op)
      modifies this`maxSearchLen, this`mem, this`brk, table
      ensures Inv()
      ensures var r := Step(old(Abstract()), op, hooks); ok == r.Done? && (ok ==> Abstract() == r.st)
    {
      hide Valid;
      hide Bounded;
      hide StubOps.ResetState;
      hide StubOps.CallOnceOp;
      hide StubOps.SetDeferredRetcode;
      hide StubOps.ClearDeferredRetcode;
      hide StubOps.CheckDeferredRetcode;
      hide StubOps.SetDefaultReturnValue;
      hide StubOps.ClearDefaultReturnValue;
      hide StubOps.CheckDefaultReturnValue;
      hide StubOps.SetDataBuffer;
      hide StubOps.CopyToLocal;
      hide StubOps.CopyFromLocal;
      hide StubOps.SetHook;
      hide StubOps.RegisterContext;
      hide StubOps.DefaultStub;
      ok := true;
      match op {
        case DoReset(key) => ResetState(key);
        case DoCallOnce(func) => var ran; ok, ran := StubCallOnce(func);
        case DoSetDeferred(key, count, retcode) => ok := SetDeferredRetcode(key, count, retcode);
        case DoClearDeferred(key) => ClearDeferredRetcode(key);
        case DoCheckDeferred(key) => var _ := CheckDeferredRetcode(key);
        case DoSetDefault(key, value) => ok := SetDefaultReturnValue(key, value);
        case DoClearDefault(key) => ClearDefaultReturnValue(key);
        case DoCheckDefault(key) => var _ := CheckDefaultReturnValue(key);
        case DoSetBuffer(key, buffer, size, allocateCopy) => ok := SetDataBuffer(key, buffer, size, allocateCopy);
        case DoCopyToLocal(key, maxSize) => var _ := CopyToLocal(key, maxSize);
        case DoCopyFromLocal(key, local) => var _ := CopyFromLocal(key, local);
        case DoSetHook(key, hook, arg, isVarg) => ok := SetHook(key, hook, arg, isVarg);
        case DoRegisterContext(key, param) => ok := RegisterContext(key, param);
        case DoStub(key, defaultRc) => var rc := DefaultStub(key, defaultRc, hooks); ok := rc.Some?;
      }
    }
  }
}
