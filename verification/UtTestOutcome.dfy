/** What the entries of a run assert, and what the exit code says about it. */
module UtTestOutcome {
  import opened Wrappers
  import opened UtTestEntry
  import opened UtAssert
  import opened UtTestRun

  function ScriptAsserts(s: Option<Script>): seq<Assertion> {
    if s.Some? then s.value.asserts else []
  }

  function AssertEvents(asserts: seq<Assertion>): seq<Event> {
    if asserts == [] then []
    else AssertEvents(asserts[..|asserts| - 1]) + [Assert(asserts[|asserts| - 1])]
  }

  /** What executing an entry does to the counters. */
  function Events(e: Entry): seq<Event> {
    [Begin, Context(TSF)] + AssertEvents(ScriptAsserts(e.setup))
    + [Context(FAILURE)] + AssertEvents(ScriptAsserts(e.test))
    + [Context(TTF)] + AssertEvents(ScriptAsserts(e.teardown))
    + [Done]
  }

  function AfterEntry(h: History, e: Entry): History {
    AfterAll(h, Events(e))
  }

  function AfterRun(h: History, trace: seq<Ran>): History
    decreases |trace|
  {
    if trace == [] then h else AfterRun(AfterEntry(h, trace[0].entry), trace[1..])
  }

  lemma {:induction false} AfterRunAppend(h: History, a: seq<Ran>, b: seq<Ran>)
    ensures AfterRun(h, a + b) == AfterRun(AfterRun(h, a), b)
    decreases |a|
  {
    if a == [] {
      assert a + b == b;
    } else {
      assert (a + b)[1..] == a[1..] + b;
      AfterRunAppend(AfterEntry(h, a[0].entry), a[1..], b);
    }
  }

  /** The types recorded for assertions that are made in one context. */
  function Types(asserts: seq<Assertion>, context: nat): seq<nat> {
    if asserts == [] then []
    else Types(asserts[..|asserts| - 1], context) + [Recorded(asserts[|asserts| - 1], context)]
  }

  /** The types an entry records: failures of its setup and teardown are of types of their own. */
  function EntryTypes(e: Entry): seq<nat> {
    Types(ScriptAsserts(e.setup), TSF) + Types(ScriptAsserts(e.test), FAILURE) + Types(ScriptAsserts(e.teardown), TTF)
  }

  /** Each false assertion without a type of its own is recorded as TSF if the setup made it, as FAILURE
      if the test did, and as TTF if the teardown did; each true one as PASS. */
  lemma EntryTypesAre(e: Entry)
    requires forall a :: a in ScriptAsserts(e.setup) + ScriptAsserts(e.test) + ScriptAsserts(e.teardown) ==>
      a.caseType == None
    ensures Count(EntryTypes(e), 3) == Falses(ScriptAsserts(e.setup))
    ensures Count(EntryTypes(e), 2) == Falses(ScriptAsserts(e.test))
    ensures Count(EntryTypes(e), 4) == Falses(ScriptAsserts(e.teardown))
    ensures |EntryTypes(e)| == Count(EntryTypes(e), 10)
      + Falses(ScriptAsserts(e.setup)) + Falses(ScriptAsserts(e.test)) + Falses(ScriptAsserts(e.teardown))
  {
    var s, t, d := ScriptAsserts(e.setup), ScriptAsserts(e.test), ScriptAsserts(e.teardown);
    hide ScriptAsserts;
    forall c: nat
      ensures Count(EntryTypes(e), c) ==
        Count(Types(s, TSF), c) + Count(Types(t, FAILURE), c) + Count(Types(d, TTF), c)
    {
      CountAppend(Types(s, TSF) + Types(t, FAILURE), Types(d, TTF), c);
      CountAppend(Types(s, TSF), Types(t, FAILURE), c);
    }
    TypesCount(s, TSF);
    TypesCount(t, FAILURE);
    TypesCount(d, TTF);
    hide Count;
    hide Types;
  }

  /** The assertions that do not hold. */
  function Falses(asserts: seq<Assertion>): nat {
    if asserts == [] then 0 else Falses(asserts[..|asserts| - 1]) + if asserts[|asserts| - 1].expression then 0 else 1
  }

  lemma {:induction false} TypesCount(asserts: seq<Assertion>, context: nat)
    requires context != PASS && forall a :: a in asserts ==> a.caseType == None
    ensures |Types(asserts, context)| == |asserts| && Falses(asserts) <= |asserts|
    ensures Count(Types(asserts, context), context) == Falses(asserts)
    ensures Count(Types(asserts, context), PASS) == |asserts| - Falses(asserts)
    ensures forall c :: c != context && c != PASS ==> Count(Types(asserts, context), c) == 0
  {
    if asserts != [] {
      var before := asserts[..|asserts| - 1];
      assert forall a :: a in before ==> a in asserts;
      assert asserts[|asserts| - 1] in asserts;
      TypesCount(before, context);
    }
  }

  lemma {:induction false} AfterAsserts(h: History, asserts: seq<Assertion>)
    ensures AfterAll(h, AssertEvents(asserts)) == h.(open := h.open + Types(asserts, h.context))
  {
    if asserts != [] {
      var before := asserts[..|asserts| - 1];
      var events := AssertEvents(before);
      AfterAsserts(h, before);
      assert AssertEvents(asserts)[..|events|] == events;
    }
  }

  lemma AfterOne(h: History, events: seq<Event>, e: Event)
    ensures AfterAll(h, events + [e]) == After(AfterAll(h, events), e)
  {
    assert (events + [e])[..|events|] == events;
  }

  /** Closing a segment adds it to the totals, unless it looks empty. */
  function Close(h: History, types: seq<nat>): History {
    if |types| % WRAP32 == 0 then History([], h.closed, h.segments, TTF)
    else History([], h.closed + types, h.segments + 1, TTF)
  }

  lemma CloseShort(h: History, types: seq<nat>)
    requires |types| < WRAP32
    ensures Close(h, types) == History([], h.closed + types, h.segments + if types == [] then 0 else 1, TTF)
  {
  }

  /** The events of an entry, one group after the other. */
  lemma EntryHistory(h: History, e: Entry)
    ensures var h1 := AfterAll(After(After(h, Begin), Context(TSF)), AssertEvents(ScriptAsserts(e.setup)));
      var h2 := AfterAll(After(h1, Context(FAILURE)), AssertEvents(ScriptAsserts(e.test)));
      var h3 := AfterAll(After(h2, Context(TTF)), AssertEvents(ScriptAsserts(e.teardown)));
      AfterEntry(h, e) == After(h3, Done)
  {
    var start := [Begin, Context(TSF)];
    assert AfterAll(h, start) == After(After(h, Begin), Context(TSF)) by {
      AfterOne(h, [Begin], Context(TSF));
      AfterOne(h, [], Begin);
      assert [] + [Begin] == [Begin] && [Begin] + [Context(TSF)] == start;
    }
    var e1 := start + AssertEvents(ScriptAsserts(e.setup));
    var e2 := e1 + [Context(FAILURE)] + AssertEvents(ScriptAsserts(e.test));
    var e3 := e2 + [Context(TTF)] + AssertEvents(ScriptAsserts(e.teardown));
    assert Events(e) == e3 + [Done];
    hide AfterAll;
    hide After;
    hide AssertEvents;
    AfterAppend(h, start, AssertEvents(ScriptAsserts(e.setup)));
    AfterOne(h, e1, Context(FAILURE));
    AfterAppend(h, e1 + [Context(FAILURE)], AssertEvents(ScriptAsserts(e.test)));
    AfterOne(h, e2, Context(TTF));
    AfterAppend(h, e2 + [Context(TTF)], AssertEvents(ScriptAsserts(e.teardown)));
    AfterOne(h, e3, Done);
  }

  /** An entry is one segment: whatever was open before it is dropped, its own assertions are closed. */
  lemma EntryIsSegment(h: History, e: Entry)
    ensures AfterEntry(h, e) == Close(h, EntryTypes(e))
  {
    EntryHistory(h, e);
    hide AfterEntry;
    hide AfterAll;
    hide Types;
    hide AssertEvents;
    hide ScriptAsserts;
    var h1 := History([], h.closed, h.segments, TSF);
    AfterAsserts(h1, ScriptAsserts(e.setup));
    var t1 := Types(ScriptAsserts(e.setup), TSF);
    assert [] + t1 == t1;
    AfterAsserts(History(t1, h.closed, h.segments, FAILURE), ScriptAsserts(e.test));
    var t2 := t1 + Types(ScriptAsserts(e.test), FAILURE);
    AfterAsserts(History(t2, h.closed, h.segments, TTF), ScriptAsserts(e.teardown));
  }

  /** Everything a run records. */
  function RunTypes(trace: seq<Ran>): seq<nat> {
    if trace == [] then [] else EntryTypes(trace[0].entry) + RunTypes(trace[1..])
  }

  /** The number of entries that assert anything. */
  function Asserting(trace: seq<Ran>): nat {
    if trace == [] then 0
    else (if EntryTypes(trace[0].entry) == [] then 0 else 1) + Asserting(trace[1..])
  }

  /** The totals are those of all executed entries together; entries without assertions are not counted. */
  lemma {:induction false} RunCloses(h: History, trace: seq<Ran>)
    requires |RunTypes(trace)| < WRAP32
    ensures AfterRun(h, trace).closed == h.closed + RunTypes(trace)
    ensures AfterRun(h, trace).segments == h.segments + Asserting(trace)
    decreases |trace|
  {
    hide AfterEntry;
    hide EntryTypes;
    if trace == [] {
      assert h.closed + [] == h.closed;
    } else {
      RunStep(h, trace);
      hide *;
      var h1 := AfterEntry(h, trace[0].entry);
      var types := EntryTypes(trace[0].entry);
      var rest := trace[1..];
      EntryIsSegment(h, trace[0].entry);
      CloseShort(h, types);
      RunCloses(h1, rest);
      assert (h.closed + types) + RunTypes(rest) == h.closed + (types + RunTypes(rest));
    }
  }

  lemma RunStep(h: History, trace: seq<Ran>)
    requires trace != []
    ensures AfterRun(h, trace) == AfterRun(AfterEntry(h, trace[0].entry), trace[1..])
    ensures var types := EntryTypes(trace[0].entry);
      && RunTypes(trace) == types + RunTypes(trace[1..])
      && Asserting(trace) == (if types == [] then 0 else 1) + Asserting(trace[1..])
  {
    hide AfterEntry;
    hide EntryTypes;
  }

  /** What the totals see of a run: an entry with a multiple of 2^32 assertions looks empty and is dropped. */
  function SeenTypes(trace: seq<Ran>): seq<nat> {
    if trace == [] then []
    else (if |EntryTypes(trace[0].entry)| % WRAP32 == 0 then [] else EntryTypes(trace[0].entry)) + SeenTypes(trace[1..])
  }

  /** For runs of any length the totals are those of what they see. */
  lemma {:induction false} RunClosesSeen(h: History, trace: seq<Ran>)
    ensures AfterRun(h, trace).closed == h.closed + SeenTypes(trace)
    decreases |trace|
  {
    hide AfterEntry;
    hide EntryTypes;
    if trace == [] {
      assert h.closed + [] == h.closed;
    } else {
      RunStep(h, trace);
      EntryIsSegment(h, trace[0].entry);
      var types := EntryTypes(trace[0].entry);
      var seen := if |types| % WRAP32 == 0 then [] else types;
      assert AfterEntry(h, trace[0].entry).closed == h.closed + seen;
      assert SeenTypes(trace) == seen + SeenTypes(trace[1..]);
      hide *;
      RunClosesSeen(AfterEntry(h, trace[0].entry), trace[1..]);
      assert (h.closed + seen) + SeenTypes(trace[1..]) == h.closed + (seen + SeenTypes(trace[1..]));
    }
  }

  /** An assertion that does not hold and counts against the run. */
  predicate Failing(a: Assertion, context: nat) {
    !a.expression && Fails(a.caseType.GetOr(context))
  }

  predicate EntryFails(e: Entry) {
    || (exists a :: a in ScriptAsserts(e.setup) && Failing(a, TSF))
    || (exists a :: a in ScriptAsserts(e.test) && Failing(a, FAILURE))
    || (exists a :: a in ScriptAsserts(e.teardown) && Failing(a, TTF))
  }

  lemma {:induction false} TypesFail(asserts: seq<Assertion>, context: nat)
    ensures (exists t :: t in Types(asserts, context) && Fails(t)) <==>
      (exists a :: a in asserts && Failing(a, context))
  {
    if asserts != [] {
      var before, last := asserts[..|asserts| - 1], asserts[|asserts| - 1];
      TypesFail(before, context);
      assert asserts == before + [last];
      var t := Recorded(last, context);
      assert t in Types(asserts, context) && last in asserts && (Fails(t) <==> Failing(last, context));
      assert forall a :: a in asserts <==> a in before || a == last;
      assert forall t' :: t' in Types(asserts, context) <==> t' in Types(before, context) || t' == t;
    }
  }

  lemma EntryTypesFail(e: Entry)
    ensures (exists t :: t in EntryTypes(e) && Fails(t)) <==> EntryFails(e)
  {
    TypesFail(ScriptAsserts(e.setup), TSF);
    TypesFail(ScriptAsserts(e.test), FAILURE);
    TypesFail(ScriptAsserts(e.teardown), TTF);
    hide Types;
    hide Failing;
  }

  lemma {:induction false} RunTypesFail(trace: seq<Ran>)
    ensures (exists t :: t in RunTypes(trace) && Fails(t)) <==> (exists r :: r in trace && EntryFails(r.entry))
  {
    if trace != [] {
      EntryTypesFail(trace[0].entry);
      RunTypesFail(trace[1..]);
      hide EntryTypes;
      hide EntryFails;
      assert forall r :: r in trace <==> r == trace[0] || r in trace[1..];
    }
  }

  /** A run of fewer than 2^32 assertions exits with success exactly when no executed entry failed. */
  lemma ExitCodeOfRun(h: History, trace: seq<Ran>)
    requires h.closed == [] && |RunTypes(trace)| < WRAP32
    ensures ExitCodeOf(AfterRun(h, trace).closed) == OS_SUCCESS <==> forall r :: r in trace ==> !EntryFails(r.entry)
  {
    RunCloses(h, trace);
    ExitCodeTells(RunTypes(trace));
    RunTypesFail(trace);
    hide *;
    assert [] + RunTypes(trace) == RunTypes(trace);
    assert (forall t :: t in RunTypes(trace) ==> !Fails(t)) <==> !(exists t :: t in RunTypes(trace) && Fails(t));
  }

  /** For a run of any length: the exit code tells whether an executed entry failed if and only if none
      did, or the totals saw some failing type a number of times that is not a multiple of 2^32. */
  lemma ExitCodeOfAnyRun(h: History, trace: seq<Ran>)
    requires h.closed == []
    ensures (ExitCodeOf(AfterRun(h, trace).closed) == OS_SUCCESS <==>
        forall r :: r in trace ==> !EntryFails(r.entry)) <==>
      || (forall r :: r in trace ==> !EntryFails(r.entry))
      || exists c :: Fails(c) && Count(SeenTypes(trace), c) % WRAP32 > 0
  {
    RunClosesSeen(h, trace);
    assert [] + SeenTypes(trace) == SeenTypes(trace);
    SeenFails(trace);
    hide *;
    var seen := SeenTypes(trace);
    assert AfterRun(h, trace).closed == seen;
    if c :| Fails(c) && Count(seen, c) % WRAP32 > 0 {
      ExitCodeTellsError(seen, c);
    } else {
      NoneCounted(seen);
    }
  }

  lemma ExitCodeTellsError(closed: seq<nat>, c: nat)
    requires Fails(c) && Count(closed, c) % WRAP32 > 0
    ensures ExitCodeOf(closed) == OS_ERROR != OS_SUCCESS && c in closed
  {
    CountBound(closed, c);
  }

  lemma NoneCounted(closed: seq<nat>)
    requires forall c :: Fails(c) ==> Count(closed, c) % WRAP32 == 0
    ensures ExitCodeOf(closed) == OS_SUCCESS
  {
  }

  /** What the totals see of a failing type comes from an entry that failed. */
  lemma {:induction false} SeenFails(trace: seq<Ran>)
    ensures forall c :: c in SeenTypes(trace) && Fails(c) ==> exists r :: r in trace && EntryFails(r.entry)
  {
    if trace != [] {
      EntryTypesFail(trace[0].entry);
      SeenFails(trace[1..]);
      hide EntryTypes;
      hide EntryFails;
      assert trace[0] in trace && forall r :: r in trace[1..] ==> r in trace;
    }
  }

  // ---- The failing inputs

  /** A test that makes `n` false assertions. */
  function FailingEntry(n: nat): Entry {
    Entry(None, Some(Script(seq(n, _ => Assertion(false, None)), [])), None, "")
  }

  lemma {:induction false} FailingTypes(n: nat)
    ensures var asserts := seq(n, _ => Assertion(false, None));
      |Types(asserts, FAILURE)| == n && forall i :: 0 <= i < n ==> Types(asserts, FAILURE)[i] == FAILURE
  {
    if n > 0 {
      var asserts, before := seq(n, _ => Assertion(false, None)), seq(n - 1, _ => Assertion(false, None));
      assert asserts[..n - 1] == before;
      FailingTypes(n - 1);
    }
  }

  lemma FailingEntryTypes(n: nat)
    ensures |EntryTypes(FailingEntry(n))| == n && forall i :: 0 <= i < n ==> EntryTypes(FailingEntry(n))[i] == FAILURE
    ensures n > 0 ==> EntryFails(FailingEntry(n))
  {
    FailingTypes(n);
    var e := FailingEntry(n);
    var asserts := seq(n, _ => Assertion(false, None));
    assert e.test.value.asserts == asserts;
    if n > 0 {
      assert asserts[0] in ScriptAsserts(e.test) && Failing(asserts[0], FAILURE);
    }
  }

  /** The registry when only these tests have been added. */
  function TestsOnly(tests: seq<Entry>): Queues {
    [[], [], tests, []]
  }

  /** A run of one or two tests that register nothing executes just these. */
  lemma FewTestsRun(e: Entry)
    requires Adds(e) == []
    ensures Exec(TestsOnly([e]), 0, 0) == [Ran(GROUP_TEST, e)]
    ensures Exec(TestsOnly([e, e]), 0, 0) == [Ran(GROUP_TEST, e), Ran(GROUP_TEST, e)]
  {
    hide Exec;
    hide Adds;
    var one, two := TestsOnly([e]), TestsOnly([e, e]);
    SkipTo(one);
    SkipTo(two);
    RunsQuietly(one, 0, e);
    RunsQuietly(two, 0, e);
    RunsQuietly(two, 1, e);
  }

  lemma RunsQuietly(queues: Queues, k: nat, e: Entry)
    requires k < |queues[GROUP_TEST]| && queues[GROUP_TEST][k] == e && Adds(e) == []
    ensures Exec(queues, GROUP_TEST, k) == [Ran(GROUP_TEST, e)] + Exec(queues, GROUP_TEST, k + 1)
  {
    hide Exec;
    hide Adds;
    hide Load;
    ExecStep(queues, GROUP_TEST, k);
  }

  /** Around the tests nothing is executed. */
  lemma SkipTo(queues: Queues)
    requires queues[GROUP_DEFAULT] == queues[GROUP_SETUP] == queues[GROUP_TEARDOWN] == []
    ensures Exec(queues, 0, 0) == Exec(queues, GROUP_TEST, 0)
    ensures Exec(queues, GROUP_TEST, |queues[GROUP_TEST]|) == []
  {
    ExecSkip(queues, GROUP_DEFAULT);
    ExecSkip(queues, GROUP_SETUP);
    ExecSkip(queues, GROUP_TEST);
    ExecSkip(queues, GROUP_TEARDOWN);
    hide Exec;
  }

  /** A run of one test that fails 2^32 times, which looks empty, and a run of two that fail 2^31 times
      each, which fill the counter exactly: both exit with success. */
  lemma FailingRunsPass(h: History)
    requires h.closed == []
    ensures var e := FailingEntry(WRAP32);
      EntryFails(e) && ExitCodeOf(AfterRun(h, Exec(TestsOnly([e]), 0, 0)).closed) == OS_SUCCESS
    ensures var e := FailingEntry(WRAP32 / 2);
      EntryFails(e) && ExitCodeOf(AfterRun(h, Exec(TestsOnly([e, e]), 0, 0)).closed) == OS_SUCCESS
  {
    FewTestsRun(FailingEntry(WRAP32));
    FewTestsRun(FailingEntry(WRAP32 / 2));
    hide Exec;
    hide Adds;
    TracesPass(h);
  }

  lemma TracesPass(h: History)
    requires h.closed == []
    ensures var once := [Ran(GROUP_TEST, FailingEntry(WRAP32))];
      EntryFails(once[0].entry) && ExitCodeOf(AfterRun(h, once).closed) == OS_SUCCESS
    ensures var half := Ran(GROUP_TEST, FailingEntry(WRAP32 / 2));
      EntryFails(half.entry) && ExitCodeOf(AfterRun(h, [half, half]).closed) == OS_SUCCESS
  {
    hide EntryTypes;
    hide EntryFails;
    hide AfterRun;
    hide FailingEntry;
    var once := [Ran(GROUP_TEST, FailingEntry(WRAP32))];
    var half := Ran(GROUP_TEST, FailingEntry(WRAP32 / 2));
    FailingEntryTypes(WRAP32);
    FailingEntryTypes(WRAP32 / 2);
    RunClosesSeen(h, once);
    RunClosesSeen(h, [half, half]);
    SeenOnce(once[0]);
    SeenTwice(half);
    var types := EntryTypes(half.entry);
    hide SeenTypes;
    assert [] + (types + types) == types + types && h.closed + [] == [];
    NoneCounted([]) by { forall c ensures Count([], c) == 0 { } }
    FailuresWrap(types + types);
  }

  lemma SeenOnce(r: Ran)
    requires |EntryTypes(r.entry)| % WRAP32 == 0
    ensures SeenTypes([r]) == []
  {
    hide EntryTypes;
    assert [r][1..] == [];
  }

  lemma SeenTwice(r: Ran)
    requires |EntryTypes(r.entry)| % WRAP32 != 0
    ensures SeenTypes([r, r]) == EntryTypes(r.entry) + EntryTypes(r.entry)
  {
    hide EntryTypes;
    var types := EntryTypes(r.entry);
    assert [r, r][1..] == [r] && [r][1..] == [];
    assert SeenTypes([r]) == types + SeenTypes([]) == types;
  }
}
