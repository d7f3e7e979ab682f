/**
 What a key's queues mean to the stub that reads them: deferred return codes are a
 schedule, and a new entry is served after an older one exactly when every slot in
 front of the older one is in use.
 */
module StubSchedules {
  import opened Wrappers
  import opened StubEntries
  import opened StubOps
  import opened StubRuns
  import opened StubLists
  import opened StubCounting

  /** The slot of a member of a queue. */
  lemma {:induction false} MemberSlot(s: Table, key: Key, mode: EntryType, lo: nat, hi: nat, e: Entry) returns (d: Slot)
    requires lo <= hi <= |s| && e in QueueRange(s, key, mode, lo, hi)
    ensures lo <= d < hi && s[At(key, d)] == e && Matches(e, key, mode)
    decreases hi - lo
  {
    if Matches(s[At(key, lo)], key, mode) && s[At(key, lo)] == e {
      d := lo;
    } else {
      d := MemberSlot(s, key, mode, lo + 1, hi, e);
    }
  }

  // ---- Deferred return codes

  ghost predicate IsCountdown(q: seq<Entry>) {
    forall e :: e in q ==> e.data.Retcode? && e.data.count > 0
  }

  lemma DeferredIsCountdown(st: State, key: Key)
    requires Valid(st)
    ensures IsCountdown(Queue(st.slots, key, DeferredRc))
  {
    hide QueueRange;
    forall e | e in Queue(st.slots, key, DeferredRc)
      ensures e.data.Retcode? && e.data.count > 0
    {
      var d := MemberSlot(st.slots, key, DeferredRc, 0, |st.slots|, e);
      assert DataFits(st.slots[At(key, d)]);
    }
  }

  /** The code that falls due on the `t`-th call from now, if any. */
  ghost function Due(q: seq<Entry>, t: nat): Option<int32>
    requires IsCountdown(q)
  {
    if q == [] || t < q[0].data.count then None
    else if t == q[0].data.count then Some(q[0].data.value)
    else Due(q[1..], t - q[0].data.count)
  }

  /** The counts of the first `j` entries together. */
  ghost function Total(q: seq<Entry>, j: nat): nat
    requires IsCountdown(q) && j <= |q|
  {
    if j == 0 then 0 else q[0].data.count + Total(q[1..], j - 1)
  }

  /** Entry `j` falls due on call n_0 + ... + n_j. */
  lemma {:induction false} DueOnTotals(q: seq<Entry>, j: nat)
    requires IsCountdown(q) && j < |q|
    ensures Total(q, j + 1) > 0 && Due(q, Total(q, j + 1)) == Some(q[j].data.value)
  {
    assert q[0] in q;
    if j > 0 {
      DueOnTotals(q[1..], j - 1);
    }
  }

  /** No other call has a code due. */
  lemma {:induction false} DueOnlyOnTotals(q: seq<Entry>, t: nat) returns (j: nat)
    requires IsCountdown(q) && Due(q, t).Some?
    ensures j < |q| && t == Total(q, j + 1)
  {
    if t == q[0].data.count {
      j := 0;
    } else {
      var k := DueOnlyOnTotals(q[1..], t - q[0].data.count);
      j := k + 1;
    }
  }

  /** One call's effect on the countdown. */
  ghost function Tick(q: seq<Entry>): seq<Entry>
    requires IsCountdown(q)
  {
    if q == [] then []
    else if q[0].data.count == 1 then q[1..]
    else [q[0].(data := q[0].data.(count := q[0].data.count - 1))] + q[1..]
  }

  lemma TickCountdown(q: seq<Entry>)
    requires IsCountdown(q)
    ensures IsCountdown(Tick(q))
  {
    forall e | e in Tick(q) ensures e.data.Retcode? && e.data.count > 0 {
      if e !in q[1..] { assert q[0] in q; }
    }
  }

  ghost function Elapse(q: seq<Entry>, n: nat): (r: seq<Entry>)
    requires IsCountdown(q)
    ensures IsCountdown(r)
  {
    if n == 0 then q else TickCountdown(Elapse(q, n - 1)); Tick(Elapse(q, n - 1))
  }

  lemma {:induction false} DueAfterTick(q: seq<Entry>, t: nat)
    requires IsCountdown(q) && t > 0
    ensures IsCountdown(Tick(q)) && Due(Tick(q), t) == Due(q, t + 1)
  {
    TickCountdown(q);
    if q != [] {
      assert q[0] in q;
      var q' := Tick(q);
      if q[0].data.count > 1 { assert q'[1..] == q[1..]; }
    }
  }

  lemma {:induction false} DueAfterElapse(q: seq<Entry>, n: nat, t: nat)
    requires IsCountdown(q) && t > 0
    ensures Due(Elapse(q, n), t) == Due(q, n + t)
  {
    if n > 0 {
      DueAfterTick(Elapse(q, n - 1), t);
      DueAfterElapse(q, n - 1, t + 1);
    }
  }

  /** A step that leaves the deferred codes and the hook of `key` to its stub calls. */
  predicate Hands(op: Op, key: Key) {
    (Touches(op, key, DeferredRc) ==> op.DoStub?) && !Touches(op, key, CallbackHook)
  }

  /** How often `key`'s stub is called in a run. */
  function StubCalls(ops: seq<Op>, key: Key): nat {
    if ops == [] then 0
    else StubCalls(ops[..|ops| - 1], key) + if ops[|ops| - 1].DoStub? && ops[|ops| - 1].key == key then 1 else 0
  }

  /** The codes that `key`'s stub calls return in a run. */
  ghost function Returned(st: State, ops: seq<Op>, hooks: Hooks, key: Key): seq<int32>
    requires Valid(st) && Run(st, ops, hooks).Done?
  {
    if ops == [] then []
    else
      var mid := Run(st, ops[..|ops| - 1], hooks).st;
      var op := ops[|ops| - 1];
      Returned(st, ops[..|ops| - 1], hooks, key) +
        if op.DoStub? && op.key == key then [DefaultStub(mid, key, op.defaultRc, hooks).value] else []
  }

  /** The codes that the same calls would return without deferred codes. */
  ghost function Undeferred(st: State, ops: seq<Op>, hooks: Hooks, key: Key): seq<int32>
    requires Valid(st) && Run(st, ops, hooks).Done?
  {
    if ops == [] then []
    else
      var mid := Run(st, ops[..|ops| - 1], hooks).st;
      var op := ops[|ops| - 1];
      Undeferred(st, ops[..|ops| - 1], hooks, key) +
        if op.DoStub? && op.key == key then [Forced(mid, key).GetOr(op.defaultRc)] else []
  }

  /** One stub call without a hook: the code due now, or the forced or default one. */
  lemma StubTick(st: State, key: Key, defaultRc: int32, hooks: Hooks)
    requires Valid(st) && Queue(st.slots, key, CallbackHook) == [] && DefaultStub(st, key, defaultRc, hooks).Done?
    ensures var r := DefaultStub(st, key, defaultRc, hooks);
      var q := Queue(st.slots, key, DeferredRc);
      && IsCountdown(q)
      && Queue(r.st.slots, key, DeferredRc) == Tick(q)
      && r.value == Due(q, 1).GetOr(Forced(st, key).GetOr(defaultRc))
  {
    hide Queue;
    DeferredIsCountdown(st, key);
    DefaultStubQueues(st, key, defaultRc, hooks);
    CheckDeferredQueues(st, key);
    var q := Queue(st.slots, key, DeferredRc);
    if q != [] { assert q[0] in q; }
  }

  lemma ScheduleStep(st: State, op: Op, hooks: Hooks, key: Key)
    requires Valid(st) && Defined(st, op) && Step(st, op, hooks).Done?
    requires Hands(op, key) && Queue(st.slots, key, CallbackHook) == []
    ensures var r := Step(st, op, hooks);
      var q := Queue(st.slots, key, DeferredRc);
      && Queue(r.st.slots, key, CallbackHook) == []
      && IsCountdown(q)
      && if op.DoStub? && op.key == key then
           && Queue(r.st.slots, key, DeferredRc) == Tick(q)
           && DefaultStub(st, key, op.defaultRc, hooks).Done?
           && DefaultStub(st, key, op.defaultRc, hooks).value == Due(q, 1).GetOr(Forced(st, key).GetOr(op.defaultRc))
         else Queue(r.st.slots, key, DeferredRc) == q
  {
    hide Queue;
    hide Valid;
    DeferredIsCountdown(st, key);
    StepFrame(st, op, hooks, key, CallbackHook);
    if op.DoStub? && op.key == key {
      StubTick(st, key, op.defaultRc, hooks);
    } else {
      StepFrame(st, op, hooks, key, DeferredRc);
    }
  }

  /** Deferred codes are a schedule: in any run that leaves them to the stub calls of
      their key, the t-th call returns the code due then, and otherwise what it would
      have returned without deferred codes. */
  lemma {:induction false} DeferredSchedule(st: State, ops: seq<Op>, hooks: Hooks, key: Key)
    requires Valid(st) && Run(st, ops, hooks).Done?
    requires forall i :: 0 <= i < |ops| ==> Hands(ops[i], key)
    requires Queue(st.slots, key, CallbackHook) == []
    ensures var q := Queue(st.slots, key, DeferredRc);
      var n := StubCalls(ops, key);
      && IsCountdown(q)
      && Queue(Run(st, ops, hooks).st.slots, key, DeferredRc) == Elapse(q, n)
      && Queue(Run(st, ops, hooks).st.slots, key, CallbackHook) == []
      && |Returned(st, ops, hooks, key)| == n && |Undeferred(st, ops, hooks, key)| == n
      && forall t ::
        0 <= t < n ==> Returned(st, ops, hooks, key)[t] == Due(q, t + 1).GetOr(Undeferred(st, ops, hooks, key)[t])
  {
    hide Queue;
    hide Valid;
    hide Forced;
    hide Step;
    hide Hands;
    hide Due;
    hide IsCountdown;
    hide DefaultStub;
    DeferredIsCountdown(st, key);
    if ops != [] {
      var before, op := ops[..|ops| - 1], ops[|ops| - 1];
      DeferredSchedule(st, before, hooks, key);
      var mid := Run(st, before, hooks).st;
      ScheduleStep(mid, op, hooks, key);
      DueAfterElapse(Queue(st.slots, key, DeferredRc), StubCalls(before, key), 1);
    }
  }

  // ---- Order of service

  /** A newer entry is served after an older one exactly when every slot in front of the older one is in use. */
  lemma ServedInOrder(s: Table, key: Key, mode: EntryType, older: Slot, newer: Slot)
    requires WellTyped(s) && mode != Unused && Matches(s[older], key, mode)
    requires Find(s, key, Unused) == Some(newer)
    ensures Dist(key, older) < Dist(key, newer) <==> forall u: Slot ::
      Dist(key, u) < Dist(key, older) ==> s[u].kind != Unused
  {
    FindIsNearest(s, key, Unused);
    assert DataFits(s[older]);
    forall u: Slot | s[u].kind == Unused ensures Matches(s[u], key, Unused) { assert DataFits(s[u]); }
    assert At(key, Dist(key, older)) == older;
    assert At(key, Dist(key, newer)) == newer;
    assert s[newer].kind == Unused;
    if Dist(key, newer) <= Dist(key, older) {
      assert Dist(key, newer) != Dist(key, older);
    }
  }

  /** In particular when no slot that was in use when the older entry was added is free when the newer one is. */
  lemma ServedInOrderIfNothingFreed(s0: Table, s1: Table, key: Key, mode: EntryType, older: Slot, newer: Slot)
    requires WellTyped(s0) && WellTyped(s1) && mode != Unused
    requires Find(s0, key, Unused) == Some(older)
    requires Matches(s1[older], key, mode)
    requires forall u: Slot :: s0[u].kind != Unused ==> s1[u].kind != Unused
    requires Find(s1, key, Unused) == Some(newer)
    ensures Dist(key, older) < Dist(key, newer)
  {
    FindIsNearest(s0, key, Unused);
    forall u: Slot | Dist(key, u) < Dist(key, older) ensures s1[u].kind != Unused {
      assert !Matches(s0[u], key, Unused);
      assert DataFits(s0[u]);
    }
    ServedInOrder(s1, key, mode, older, newer);
  }

  /** No free slot lies in front of a member of the queue. */
  ghost predicate Packed(s: Table, key: Key, mode: EntryType) {
    forall u: Slot, m: Slot :: s[u].kind == Unused && Matches(s[m], key, mode) ==> Dist(key, m) < Dist(key, u)
  }

  /** A new entry lands behind all members of its queue if and only if the queue is packed. */
  lemma LandsBehind(st: State, e: Entry)
    requires WellTyped(st.slots) && e.kind != Unused && Find(st.slots, e.key, Unused).Some?
    ensures var i := Find(st.slots, e.key, Unused).value;
      (forall m: Slot :: Matches(st.slots[m], e.key, e.kind) ==> Dist(e.key, m) < Dist(e.key, i))
      <==> Packed(st.slots, e.key, e.kind)
  {
    FindIsNearest(st.slots, e.key, Unused);
    var i := Find(st.slots, e.key, Unused).value;
    forall u: Slot | st.slots[u].kind == Unused ensures Dist(e.key, i) <= Dist(e.key, u) {
      assert DataFits(st.slots[u]);
    }
  }

  /** A packed queue takes a new entry at its end, and stays packed. */
  lemma PackedAppends(st: State, e: Entry)
    requires WellTyped(st.slots) && e.kind != Unused && Packed(st.slots, e.key, e.kind)
    ensures var r := Put(st, e);
      r.Done? ==>
        && Queue(r.st.slots, e.key, e.kind) == Queue(st.slots, e.key, e.kind) + [e]
        && Packed(r.st.slots, e.key, e.kind)
  {
    FindIsNearest(st.slots, e.key, Unused);
    PutQueues(st, e);
    var r := Find(st.slots, e.key, Unused);
    if r.Some? {
      var i := r.value;
      FurtherEmpty(st.slots, e.key, e.kind, i);
      AppendNil(Nearer(st.slots, e.key, e.kind, i), e, Further(st.slots, e.key, e.kind, i));
      forall u: Slot | st.slots[u].kind == Unused && u != i ensures Dist(e.key, i) < Dist(e.key, u) {
        assert DataFits(st.slots[u]);
        assert At(e.key, Dist(e.key, u)) == u && At(e.key, Dist(e.key, i)) == i;
      }
    }
  }

  lemma AppendNil(q: seq<Entry>, e: Entry, rest: seq<Entry>)
    requires rest == []
    ensures q + rest == q && q + ([e] + rest) == q + [e]
  {
  }

  lemma FindAt(s: Table, key: Key, mode: EntryType, d: Slot)
    requires Matches(s[At(key, d)], key, mode)
    requires forall c: Slot :: c < d ==> !Matches(s[At(key, c)], key, mode)
    ensures Find(s, key, mode) == Some(At(key, d))
  {
    FindIsNearest(s, key, mode);
    forall j: Slot | Matches(s[j], key, mode) ensures d <= Dist(key, j) {
      assert At(key, Dist(key, j)) == j;
    }
    assert Dist(key, At(key, d)) == d;
    assert IsNearest(s, key, mode, At(key, d));
  }

  /** In general first-in first-out fails: once a code has been consumed, a code added
      later takes the freed slot and is served before one that has been waiting. */
  lemma RefilledHoleOvertakes(st: State, hooks: Hooks, key: Key, a: int32, b: int32, c: int32)
    requires Initial(st) && Valid(st)
    ensures var r1 := SetDeferredRetcode(st, key, 1, a);
      && r1.Done?
      && var r2 := SetDeferredRetcode(r1.st, key, 1, b);
      && r2.Done?
      && var st2 := r2.st;
      && WellTyped(st2.slots)
      && Queue(st2.slots, key, DeferredRc) == [Code(key, a), Code(key, b)]
      && var (st3, first) := CheckDeferredRetcode(st2, key);
      && first == Some(a)
      && var r4 := SetDeferredRetcode(st3, key, 1, c);
      && r4.Done?
      && Queue(r4.st.slots, key, DeferredRc) == [Code(key, c), Code(key, b)]
  {
    hide Queue;
    var s0 := st.slots;
    FindAt(s0, key, Unused, 0);
    var s1: Table := s0[At(key, 0) := Code(key, a)];
    FindAt(s1, key, Unused, 1);
    var s2: Table := s1[At(key, 1) := Code(key, b)];
    FindAt(s2, key, DeferredRc, 0);
    var s3: Table := s2[At(key, 0) := UNUSED];
    FindAt(s3, key, Unused, 0);
    TwoCodes(s2, key, a, b);
    TwoCodes(s3[At(key, 0) := Code(key, c)], key, c, b);
  }

  function Code(key: Key, v: int32): Entry {
    Entry(DeferredRc, key, false, Retcode(1, v))
  }

  lemma TwoCodes(s: Table, key: Key, a: int32, b: int32)
    requires s[At(key, 0)] == Code(key, a) && s[At(key, 1)] == Code(key, b)
    requires forall i: Slot :: i != At(key, 0) && i != At(key, 1) ==> s[i] == UNUSED
    ensures Queue(s, key, DeferredRc) == [Code(key, a), Code(key, b)]
  {
    forall d: Slot | d >= 2 ensures s[At(key, d)] == UNUSED { }
    QueueRangeEmpty(s, key, DeferredRc, 2, |s|);
    assert QueueRange(s, key, DeferredRc, 1, |s|) == [Code(key, b)];
  }
}
