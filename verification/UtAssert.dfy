/**
 The assert counters of utassert.c and the exit code of utbsp.c: what is counted while a
 segment is open, what closing it adds to the totals, and what the exit code then says.
 */
module UtAssert {
  import opened Wrappers
  import opened UtTestEntry

  // UtAssert_CaseType_t
  const FAILURE := 2
  const TSF := 3
  const TTF := 4
  const PASS := 10
  const CASETYPE_MAX := 12

  const OS_SUCCESS: int32 := 0
  const OS_ERROR: int32 := -1

  type Counts = s: seq<uint32> | |s| == CASETYPE_MAX witness seq(CASETYPE_MAX, _ => 0)

  /** UtAssert_TestCounter_t. */
  datatype Counters = Counters(testSegmentCount: uint32, totalTestCases: uint32, caseCount: Counts)

  const ZERO := Counters(0, 0, seq(CASETYPE_MAX, _ => 0))

  // ---- The history that the counters summarise

  datatype Event = Begin | Done | Context(caseType: nat) | Assert(assertion: Assertion)

  /** The type under which an assertion is recorded: PASS if it holds, else its own or the context's. */
  function Recorded(a: Assertion, context: nat): nat {
    if a.expression then PASS else a.caseType.GetOr(context)
  }


  /** The open segment, all closed segments together, the number of closed segments that
      were not empty, and the current context. */
  datatype History = History(open: seq<nat>, closed: seq<nat>, segments: nat, context: nat)

  function After(h: History, e: Event): History {
    match e
    case Begin => h.(open := [])
    case Done => if |h.open| % WRAP32 == 0 then h.(open := [])
      else History([], h.closed + h.open, h.segments + 1, h.context)
    case Context(c) => h.(context := c)
    case Assert(a) => h.(open := h.open + [Recorded(a, h.context)])
  }

  function AfterAll(h: History, events: seq<Event>): History {
    if events == [] then h else After(AfterAll(h, events[..|events| - 1]), events[|events| - 1])
  }

  lemma {:induction false} AfterAppend(h: History, a: seq<Event>, b: seq<Event>)
    ensures AfterAll(h, a + b) == AfterAll(AfterAll(h, a), b)
  {
    if b == [] {
      assert a + b == a;
    } else {
      var t := b[..|b| - 1];
      assert (a + b)[..|a + b| - 1] == a + t;
      AfterAppend(h, a, t);
    }
  }

  function Count(types: seq<nat>, c: nat): nat {
    if types == [] then 0 else Count(types[..|types| - 1], c) + if types[|types| - 1] == c then 1 else 0
  }

  lemma {:induction false} CountAppend(a: seq<nat>, b: seq<nat>, c: nat)
    ensures Count(a + b, c) == Count(a, c) + Count(b, c)
  {
    if b == [] {
      assert a + b == a;
    } else {
      var t := b[..|b| - 1];
      assert (a + b)[..|a + b| - 1] == a + t;
      CountAppend(a, t, c);
    }
  }

  lemma {:induction false} CountBound(types: seq<nat>, c: nat)
    ensures Count(types, c) <= |types|
    ensures Count(types, c) > 0 <==> c in types
  {
    if types != [] {
      CountBound(types[..|types| - 1], c);
      assert types == types[..|types| - 1] + [types[|types| - 1]];
    }
  }

  /** The counters of a list of recorded types. */
  ghost predicate Counted(k: Counters, types: seq<nat>) {
    && k.totalTestCases == |types| % WRAP32
    && forall c :: 0 <= c < CASETYPE_MAX ==> k.caseCount[c] == Count(types, c) % WRAP32
  }

  function Sum(s: seq<uint32>): nat {
    if s == [] then 0 else Sum(s[..|s| - 1]) + s[|s| - 1]
  }

  ghost function CountsBelow(types: seq<nat>, n: nat): nat {
    if n == 0 then 0 else CountsBelow(types, n - 1) + Count(types, n - 1)
  }

  lemma {:induction false} CountsBelowAll(types: seq<nat>, n: nat)
    requires forall t :: t in types ==> t < n
    ensures CountsBelow(types, n) == |types|
  {
    if types == [] {
      NoCounts(n);
    } else {
      var before, last := types[..|types| - 1], types[|types| - 1];
      assert types == before + [last] && last in types;
      forall t | t in before ensures t < n { assert t in types; }
      CountsBelowAll(before, n);
      CountsBelowStep(types, n);
    }
  }

  lemma NoCounts(n: nat)
    ensures CountsBelow([], n) == 0
  {
    if n > 0 { NoCounts(n - 1); }
  }

  lemma CountsBelowStep(types: seq<nat>, n: nat)
    requires types != []
    ensures CountsBelow(types, n) == CountsBelow(types[..|types| - 1], n) + if types[|types| - 1] < n then 1 else 0
  {
    if n > 0 { CountsBelowStep(types, n - 1); }
  }

  lemma {:induction false} SumIsCountsBelow(k: Counts, types: seq<nat>, n: nat)
    requires n <= CASETYPE_MAX && forall c :: 0 <= c < CASETYPE_MAX ==> k[c] == Count(types, c) % WRAP32
    ensures Sum(k[..n]) % WRAP32 == CountsBelow(types, n) % WRAP32
    ensures |types| < WRAP32 ==> Sum(k[..n]) == CountsBelow(types, n)
  {
    if n > 0 {
      SumIsCountsBelow(k, types, n - 1);
      var c := Count(types, n - 1);
      assert Sum(k[..n]) == Sum(k[..n - 1]) + c % WRAP32 by { assert k[..n][..n - 1] == k[..n - 1]; }
      assert CountsBelow(types, n) == CountsBelow(types, n - 1) + c;
      CountBound(types, n - 1);
      hide Sum;
      hide CountsBelow;
      SameMod(Sum(k[..n - 1]), CountsBelow(types, n - 1), c);
    }
  }

  lemma SameMod(a: nat, b: nat, c: nat)
    requires a % WRAP32 == b % WRAP32
    ensures (a + c % WRAP32) % WRAP32 == (b + c) % WRAP32
    ensures c < WRAP32 ==> c % WRAP32 == c
  {
    Add32Mod(a, c % WRAP32);
    Add32Mod(b, c);
  }

  /** Conservation: if every recorded type is a valid one, the case counts add up to the test
      cases, modulo the counters' width and exactly below it. */
  lemma CaseCountsConserved(k: Counters, types: seq<nat>)
    requires Counted(k, types) && forall t :: t in types ==> t < CASETYPE_MAX
    ensures Sum(k.caseCount) % WRAP32 == k.totalTestCases
    ensures |types| < WRAP32 ==> Sum(k.caseCount) == k.totalTestCases == |types|
  {
    SumIsCountsBelow(k.caseCount, types, CASETYPE_MAX);
    assert k.caseCount[..CASETYPE_MAX] == k.caseCount;
    CountsBelowAll(types, CASETYPE_MAX);
  }

  /** Whether a recorded type makes the run fail. */
  predicate Fails(c: nat) {
    c == FAILURE || c == TSF || c == TTF
  }

  // ---- The counters themselves

  class Asserts {
    var segment: Counters
    var total: Counters
    var context: nat
    ghost var history: History

    /** The counters tell the history, modulo their width. */
    ghost predicate Valid()
      reads this
    {
      && context == history.context
      && Counted(segment, history.open)
      && Counted(total, history.closed)
      && total.testSegmentCount == history.segments % WRAP32
    }

    /** UtTest_EarlyInit leaves the counters of the program's start. */
    constructor ()
      ensures Valid() && history == History([], [], 0, FAILURE)
    {
      segment := ZERO;
      total := ZERO;
      context := FAILURE;
      history := History([], [], 0, FAILURE);
    }

    method BeginTest()
      requires Valid()
      modifies this
      ensures Valid() && history == After(old(history), Begin)
    {
      segment := ZERO;
      history := history.(open := []);
    }

    method SetContext(c: nat)
      requires Valid()
      modifies this
      ensures Valid() && history == After(old(history), Context(c))
    {
      context := c;
      history := history.(context := c);
    }

    /** UtAssertEx, with the type of UtAssert when none is given. */
    method AssertEx(a: Assertion) returns (expression: bool)
      requires Valid()
      modifies this
      ensures Valid() && history == After(old(history), Assert(a))
      ensures var caseType :=
          if a.expression then 10 else if a.caseType.Some? then a.caseType.value else old(history).context;
        history == old(history).(open := old(history).open + [caseType])
      ensures expression == a.expression
    {
      var caseType := a.caseType.GetOr(context);
      segment := segment.(totalTestCases := Inc32(segment.totalTestCases));
      if a.expression {
        caseType := PASS;
      }
      if caseType < CASETYPE_MAX {
        segment := segment.(caseCount := segment.caseCount[caseType := Inc32(segment.caseCount[caseType])]);
      }
      ghost var type' := Recorded(a, history.context);
      CountedOneMore(old(segment), segment, history.open, type');
      history := After(history, Assert(a));
      return a.expression;
    }

    /** UtAssert_EndTest: a segment that is not empty is added to the totals; then it is cleared. */
    method EndTest()
      requires Valid()
      modifies this
      ensures Valid() && history == After(old(history), Done)
      ensures history.open == [] && history.context == old(history).context
      ensures if |old(history).open| % WRAP32 == 0 then
          history.closed == old(history).closed && history.segments == old(history).segments
        else
          && history.closed == old(history).closed + old(history).open
          && history.segments == old(history).segments + 1
    {
      if segment.totalTestCases > 0 {
        total := total.(testSegmentCount := Inc32(total.testSegmentCount));
        segment := segment.(testSegmentCount := total.testSegmentCount);
        total := total.(totalTestCases := Add32(total.totalTestCases, segment.totalTestCases));
        ghost var counts := total.caseCount;
        for ct := 0 to CASETYPE_MAX
          invariant segment == old(segment).(testSegmentCount := total.testSegmentCount)
          invariant total == old(total).(testSegmentCount := Inc32(old(total).testSegmentCount),
            totalTestCases := Add32(old(total).totalTestCases, segment.totalTestCases), caseCount := total.caseCount)
          invariant forall c :: 0 <= c < CASETYPE_MAX ==>
            total.caseCount[c] == if c < ct then Add32(counts[c], segment.caseCount[c]) else counts[c]
          invariant history == old(history) && context == old(context)
        {
          total := total.(caseCount := total.caseCount[ct := Add32(total.caseCount[ct], segment.caseCount[ct])]);
        }
        CountedAppend(old(total), old(segment), total, history.closed, history.open);
      }
      segment := ZERO;
      history := After(history, Done);
    }

    /** UT_BSP_EndTest. */
    method ExitCode() returns (code: int32)
      requires Valid()
      ensures code == ExitCodeOf(history.closed)
      ensures code ==
        if Count(history.closed, 2) % WRAP32 > 0 || Count(history.closed, 3) % WRAP32 > 0
           || Count(history.closed, 4) % WRAP32 > 0
        then -1 else 0
    {
      if total.caseCount[FAILURE] > 0 || total.caseCount[TSF] > 0 || total.caseCount[TTF] > 0 {
        code := OS_ERROR;
      } else {
        code := OS_SUCCESS;
      }
    }
  }

  /** The exit code looks at the counters, so it sees a count only modulo 2^32. */
  ghost function ExitCodeOf(closed: seq<nat>): int32 {
    if exists c :: Fails(c) && Count(closed, c) % WRAP32 > 0 then OS_ERROR else OS_SUCCESS
  }

  /** The exit code tells whether a failure was recorded if and only if none of a failing type was, or
      some failing type was recorded a number of times that is not a multiple of 2^32. */
  lemma ExitCodeIsRight(closed: seq<nat>)
    ensures (ExitCodeOf(closed) == OS_SUCCESS <==> forall t :: t in closed ==> !Fails(t)) <==>
      (forall c :: Fails(c) ==> Count(closed, c) == 0) || exists c :: Fails(c) && Count(closed, c) % WRAP32 > 0
  {
    forall c ensures Count(closed, c) > 0 <==> c in closed {
      CountBound(closed, c);
    }
    hide Count;
  }

  /** Below 2^32 assertions the exit code is success exactly when no closed segment recorded a failure. */
  lemma ExitCodeTells(closed: seq<nat>)
    requires |closed| < WRAP32
    ensures ExitCodeOf(closed) == OS_SUCCESS <==> forall t :: t in closed ==> !Fails(t)
  {
    forall c ensures Count(closed, c) % WRAP32 == Count(closed, c) && (Count(closed, c) > 0 <==> c in closed) {
      CountBound(closed, c);
    }
  }

  /** Beyond that it does not: 2^32 failures look like none. */
  lemma FailuresWrap(closed: seq<nat>)
    requires |closed| == WRAP32 && forall i :: 0 <= i < |closed| ==> closed[i] == FAILURE
    ensures FAILURE in closed && ExitCodeOf(closed) == OS_SUCCESS
  {
    CountAll(closed, FAILURE);
    assert closed[0] in closed;
    forall c | c != FAILURE ensures Count(closed, c) == 0 {
      CountBound(closed, c);
    }
  }

  lemma {:induction false} CountAll(types: seq<nat>, c: nat)
    requires forall i :: 0 <= i < |types| ==> types[i] == c
    ensures Count(types, c) == |types|
  {
    if types != [] {
      CountAll(types[..|types| - 1], c);
    }
  }

  /** One more assertion is recorded. */
  lemma CountedOneMore(k: Counters, after: Counters, types: seq<nat>, t: nat)
    requires Counted(k, types)
    requires after.totalTestCases == Inc32(k.totalTestCases)
    requires after.caseCount == if t < CASETYPE_MAX then k.caseCount[t := Inc32(k.caseCount[t])] else k.caseCount
    ensures Counted(after, types + [t])
  {
    hide Inc32;
    Add32Mod(|types|, 1);
    assert (types + [t])[..|types|] == types;
    forall c | 0 <= c < CASETYPE_MAX ensures after.caseCount[c] == Count(types + [t], c) % WRAP32 {
      Add32Mod(Count(types, c), 1);
    }
  }

  lemma CountedAppend(k: Counters, added: Counters, sum: Counters, types: seq<nat>, more: seq<nat>)
    requires Counted(k, types) && Counted(added, more)
    requires sum.totalTestCases == Add32(k.totalTestCases, added.totalTestCases)
    requires forall c :: 0 <= c < CASETYPE_MAX ==> sum.caseCount[c] == Add32(k.caseCount[c], added.caseCount[c])
    ensures Counted(sum, types + more)
  {
    hide Add32;
    forall c | 0 <= c < CASETYPE_MAX ensures sum.caseCount[c] == Count(types + more, c) % WRAP32 {
      CountAppend(types, more, c);
      Add32Mod(Count(types, c), Count(more, c));
    }
    Add32Mod(|types|, |more|);
  }
}
