/**
 The order in which UtTest_Run of uttest.c executes the registered entries, also when the
 entries register further ones while they run.

 Each tag has a queue. Once the rings are merged, the head of a tag follows the queue of the
 tag before it, so a registration made during the run lands at the end of that queue.
 */
module UtTestRun {
  import opened Wrappers
  import opened UtTestEntry

  const GROUP_DEFAULT := 0
  const GROUP_SETUP := 1
  const GROUP_TEST := 2
  const GROUP_TEARDOWN := 3
  const GROUP_MAX := 4

  type Queues = q: seq<seq<Entry>> | |q| == GROUP_MAX witness [[], [], [], []]

  /** What the callbacks of an entry register, in order. */
  function Adds(e: Entry): seq<Registration> {
    ScriptAdds(e.setup) + ScriptAdds(e.test) + ScriptAdds(e.teardown)
  }

  function ScriptAdds(s: Option<Script>): seq<Registration> {
    if s.Some? then s.value.adds else []
  }

  /** The queue that a registration joins while the rings are merged. */
  function Target(tag: nat): nat {
    if tag == GROUP_DEFAULT then GROUP_MAX - 1 else tag - 1
  }

  function Registered(queues: Queues, a: Registration): Queues {
    if a.tag < GROUP_MAX then queues[Target(a.tag) := queues[Target(a.tag)] + [a.entry]] else queues
  }

  function RegisteredAll(queues: Queues, adds: seq<Registration>): Queues
    decreases |adds|
  {
    if adds == [] then queues else RegisteredAll(Registered(queues, adds[0]), adds[1..])
  }

  lemma {:induction false} RegisteredAppend(queues: Queues, a: seq<Registration>, b: seq<Registration>)
    ensures RegisteredAll(queues, a + b) == RegisteredAll(RegisteredAll(queues, a), b)
    decreases |a|
  {
    if a == [] {
      assert a + b == b;
    } else {
      assert (a + b)[1..] == a[1..] + b;
      RegisteredAppend(Registered(queues, a[0]), a[1..], b);
    }
  }

  /** The entries of the registrations that join the queue `p`. */
  function Joining(adds: seq<Registration>, p: nat): seq<Entry>
    decreases |adds|
  {
    if adds == [] then []
    else (if adds[0].tag < GROUP_MAX && Target(adds[0].tag) == p then [adds[0].entry] else []) + Joining(adds[1..], p)
  }

  lemma {:induction false} QueueGrows(queues: Queues, adds: seq<Registration>, p: nat)
    requires p < GROUP_MAX
    ensures RegisteredAll(queues, adds)[p] == queues[p] + Joining(adds, p)
    decreases |adds|
  {
    if adds != [] {
      QueueGrows(Registered(queues, adds[0]), adds[1..], p);
    }
  }

  // ---- Termination: every entry holds finitely many registrations

  function Weight(e: Entry): nat {
    1 + ScriptWeight(e.setup) + ScriptWeight(e.test) + ScriptWeight(e.teardown)
  }

  function ScriptWeight(s: Option<Script>): nat {
    match s
    case None => 0
    case Some(script) => AddsWeight(script.adds)
  }

  function RegistrationWeight(a: Registration): nat {
    match a case Registration(entry, _) => Weight(entry)
  }

  function AddsWeight(adds: seq<Registration>): nat {
    if adds == [] then 0
    else
      assert adds[0] in adds;
      RegistrationWeight(adds[0]) + AddsWeight(adds[1..])
  }

  function QueueWeight(q: seq<Entry>): nat {
    if q == [] then 0 else Weight(q[0]) + QueueWeight(q[1..])
  }

  lemma {:induction false} QueueWeightAppend(a: seq<Entry>, b: seq<Entry>)
    ensures QueueWeight(a + b) == QueueWeight(a) + QueueWeight(b)
  {
    if a == [] {
      assert a + b == b;
    } else {
      assert (a + b)[1..] == a[1..] + b;
      QueueWeightAppend(a[1..], b);
    }
  }

  lemma {:induction false} AddsWeightAppend(a: seq<Registration>, b: seq<Registration>)
    ensures AddsWeight(a + b) == AddsWeight(a) + AddsWeight(b)
  {
    if a == [] {
      assert a + b == b;
    } else {
      assert (a + b)[1..] == a[1..] + b;
      AddsWeightAppend(a[1..], b);
    }
  }

  lemma WeightOfAdds(e: Entry)
    ensures Weight(e) == 1 + AddsWeight(Adds(e))
  {
    AddsWeightAppend(ScriptAdds(e.setup), ScriptAdds(e.test));
    AddsWeightAppend(ScriptAdds(e.setup) + ScriptAdds(e.test), ScriptAdds(e.teardown));
  }

  /** What is still queued, from the `k`-th entry of queue `g` on. */
  function Load(queues: Queues, g: nat, k: nat): nat
    requires g < GROUP_MAX && k <= |queues[g]|
    decreases GROUP_MAX - g
  {
    QueueWeight(queues[g][k..]) + if g + 1 < GROUP_MAX then Load(queues, g + 1, 0) else 0
  }

  lemma {:induction false} RegisteredLoad(queues: Queues, a: Registration, g: nat, k: nat)
    requires g < GROUP_MAX && k <= |queues[g]|
    ensures k <= |Registered(queues, a)[g]|
    ensures Load(Registered(queues, a), g, k) <= Load(queues, g, k) + Weight(a.entry)
    ensures a.tag >= GROUP_MAX || Target(a.tag) < g ==> Load(Registered(queues, a), g, k) == Load(queues, g, k)
    decreases GROUP_MAX - g
  {
    if g + 1 < GROUP_MAX { RegisteredLoad(queues, a, g + 1, 0); }
    if a.tag < GROUP_MAX && Target(a.tag) == g {
      assert Registered(queues, a)[g][k..] == queues[g][k..] + [a.entry];
      QueueWeightAppend(queues[g][k..], [a.entry]);
      assert QueueWeight([a.entry]) == Weight(a.entry) by { assert [a.entry][1..] == []; }
    }
  }

  lemma {:induction false} RegisteredAllLoad(queues: Queues, adds: seq<Registration>, g: nat, k: nat)
    requires g < GROUP_MAX && k <= |queues[g]|
    ensures k <= |RegisteredAll(queues, adds)[g]|
    ensures Load(RegisteredAll(queues, adds), g, k) <= Load(queues, g, k) + AddsWeight(adds)
    decreases |adds|
  {
    hide Load;
    hide Weight;
    if adds != [] {
      RegisteredLoad(queues, adds[0], g, k);
      RegisteredAllLoad(Registered(queues, adds[0]), adds[1..], g, k);
    }
  }

  /** Executing an entry takes more away than it registers. */
  lemma ExecLoad(queues: Queues, g: nat, k: nat)
    requires g < GROUP_MAX && k < |queues[g]|
    ensures var after := RegisteredAll(queues, Adds(queues[g][k]));
      k + 1 <= |after[g]| && Load(after, g, k + 1) < Load(queues, g, k)
  {
    WeightOfAdds(queues[g][k]);
    assert queues[g][k..] == [queues[g][k]] + queues[g][k + 1..];
    RegisteredAllLoad(queues, Adds(queues[g][k]), g, k + 1);
  }

  // ---- The run

  /** An entry and the phase in which it was executed. */
  datatype Ran = Ran(phase: nat, entry: Entry)

  /** What is executed from the `k`-th entry of queue `g` on. */
  function Exec(queues: Queues, g: nat, k: nat): seq<Ran>
    requires g < GROUP_MAX && k <= |queues[g]|
    decreases Load(queues, g, k), GROUP_MAX - g
  {
    if k < |queues[g]| then
      ExecLoad(queues, g, k);
      [Ran(g, queues[g][k])] + Exec(RegisteredAll(queues, Adds(queues[g][k])), g, k + 1)
    else if g + 1 < GROUP_MAX then Exec(queues, g + 1, 0)
    else []
  }

  lemma ExecStep(queues: Queues, g: nat, k: nat)
    requires g < GROUP_MAX && k < |queues[g]|
    ensures var after := RegisteredAll(queues, Adds(queues[g][k]));
      && k + 1 <= |after[g]| && Load(after, g, k + 1) < Load(queues, g, k)
      && Exec(queues, g, k) == [Ran(g, queues[g][k])] + Exec(after, g, k + 1)
  {
    ExecLoad(queues, g, k);
  }

  lemma ExecSkip(queues: Queues, g: nat)
    requires g < GROUP_MAX
    ensures Exec(queues, g, |queues[g]|) == if g + 1 < GROUP_MAX then Exec(queues, g + 1, 0) else []
    ensures g + 1 < GROUP_MAX ==> Load(queues, g + 1, 0) <= Load(queues, g, |queues[g]|)
  {
  }

  /** The entries of one phase. */
  function InPhase(trace: seq<Ran>, p: nat): seq<Entry> {
    if trace == [] then []
    else (if trace[0].phase == p then [trace[0].entry] else []) + InPhase(trace[1..], p)
  }

  /** What entries of the phases up to `p` registered into the queue of phase `p`. */
  function InTime(trace: seq<Ran>, p: nat): seq<Entry> {
    if trace == [] then []
    else (if trace[0].phase <= p then Joining(Adds(trace[0].entry), p) else []) + InTime(trace[1..], p)
  }

  ghost predicate Ordered(trace: seq<Ran>) {
    forall i, j :: 0 <= i < j < |trace| ==> trace[i].phase <= trace[j].phase
  }

  /** What is still to be executed of queue `p`. */
  function Pending(queues: Queues, g: nat, k: nat, p: nat): seq<Entry>
    requires g < GROUP_MAX && k <= |queues[g]| && p < GROUP_MAX
  {
    if p < g then [] else if p == g then queues[g][k..] else queues[p]
  }

  lemma PendingStep(queues: Queues, g: nat, k: nat, p: nat)
    requires g < GROUP_MAX && k < |queues[g]| && p < GROUP_MAX
    ensures var e := queues[g][k];
      var after := RegisteredAll(queues, Adds(e));
      && k + 1 <= |after[g]|
      && (if p == g then [e] else []) + Pending(after, g, k + 1, p)
         == Pending(queues, g, k, p) + if g <= p then Joining(Adds(e), p) else []
  {
    hide RegisteredAll;
    hide Joining;
    hide Adds;
    var e := queues[g][k];
    QueueGrows(queues, Adds(e), g);
    QueueGrows(queues, Adds(e), p);
    if p == g { TailGrows(queues[g], Joining(Adds(e), g), k); }
  }

  lemma TailGrows<X>(q: seq<X>, more: seq<X>, k: nat)
    requires k < |q|
    ensures [q[k]] + (q + more)[k + 1..] == q[k..] + more
  {
  }

  /** One executed entry in front of a trace that starts from the queues it leaves. */
  lemma InTimeStep(before: seq<Entry>, after: seq<Entry>, g: nat, e: Entry, rest: seq<Ran>, p: nat)
    requires (if p == g then [e] else []) + after == before + if g <= p then Joining(Adds(e), p) else []
    requires InPhase(rest, p) == after + InTime(rest, p)
    ensures InPhase([Ran(g, e)] + rest, p) == before + InTime([Ran(g, e)] + rest, p)
  {
    assert ([Ran(g, e)] + rest)[1..] == rest;
    hide Joining;
    hide Adds;
    var first := if p == g then [e] else [];
    var joins := if g <= p then Joining(Adds(e), p) else [];
    assert first + (after + InTime(rest, p)) == (first + after) + InTime(rest, p);
    assert before + (joins + InTime(rest, p)) == (before + joins) + InTime(rest, p);
  }

  /** Each phase executes its queue and whatever joins it before the phase is over, once each and
      in that order; what is registered into the queue of an earlier phase is never executed. */
  lemma {:induction false} ExecutesWhatJoinsInTime(queues: Queues, g: nat, k: nat)
    requires g < GROUP_MAX && k <= |queues[g]|
    ensures forall p :: 0 <= p < GROUP_MAX ==>
      InPhase(Exec(queues, g, k), p) == Pending(queues, g, k, p) + InTime(Exec(queues, g, k), p)
    decreases Load(queues, g, k), GROUP_MAX - g
  {
    if k < |queues[g]| {
      ExecStep(queues, g, k);
      var e := queues[g][k];
      var after := RegisteredAll(queues, Adds(e));
      hide Exec;
      ExecutesWhatJoinsInTime(after, g, k + 1);
      forall p | 0 <= p < GROUP_MAX
        ensures InPhase(Exec(queues, g, k), p) == Pending(queues, g, k, p) + InTime(Exec(queues, g, k), p)
      {
        PendingStep(queues, g, k, p);
        hide *;
        InTimeStep(Pending(queues, g, k, p), Pending(after, g, k + 1, p), g, e, Exec(after, g, k + 1), p);
      }
    } else if g + 1 < GROUP_MAX {
      var trace := Exec(queues, g + 1, 0);
      PhasesInOrder(queues, g + 1, 0);
      ExecutesWhatJoinsInTime(queues, g + 1, 0);
      NothingInTime(trace, g);
    }
  }

  lemma {:induction false} PhasesInOrder(queues: Queues, g: nat, k: nat)
    requires g < GROUP_MAX && k <= |queues[g]|
    ensures Ordered(Exec(queues, g, k))
    ensures forall i :: 0 <= i < |Exec(queues, g, k)| ==> g <= Exec(queues, g, k)[i].phase < GROUP_MAX
    decreases Load(queues, g, k), GROUP_MAX - g
  {
    hide Exec;
    hide Load;
    hide RegisteredAll;
    hide Adds;
    if k < |queues[g]| {
      ExecStep(queues, g, k);
      PhasesInOrder(RegisteredAll(queues, Adds(queues[g][k])), g, k + 1);
    } else {
      ExecSkip(queues, g);
      if g + 1 < GROUP_MAX { PhasesInOrder(queues, g + 1, 0); }
    }
  }

  lemma {:induction false} NothingInTime(trace: seq<Ran>, p: nat)
    requires forall i :: 0 <= i < |trace| ==> trace[i].phase > p
    ensures InTime(trace, p) == []
  {
    if trace != [] { NothingInTime(trace[1..], p); }
  }

  /** A registration that misses the run when made in phase `g`: its tag is unknown, or the head
      of its tag is already behind the cursor. */
  predicate TooLate(a: Registration, g: nat) {
    a.tag >= GROUP_MAX || Target(a.tag) < g
  }

  ghost predicate AllTooLate(queues: Queues, g: nat) {
    forall p, i, a :: g <= p < GROUP_MAX && 0 <= i < |queues[p]| && a in Adds(queues[p][i]) ==> TooLate(a, p)
  }

  lemma {:induction false} NoneJoins(adds: seq<Registration>, g: nat, p: nat)
    requires g <= p && forall a :: a in adds ==> TooLate(a, g)
    ensures Joining(adds, p) == []
    decreases |adds|
  {
    if adds != [] {
      assert adds[0] in adds;
      NoneJoins(adds[1..], g, p);
    }
  }

  lemma LateLeavesQueues(queues: Queues, adds: seq<Registration>, g: nat)
    requires forall a :: a in adds ==> TooLate(a, g)
    ensures forall p :: g <= p < GROUP_MAX ==> RegisteredAll(queues, adds)[p] == queues[p]
  {
    forall p | g <= p < GROUP_MAX ensures RegisteredAll(queues, adds)[p] == queues[p] {
      QueueGrows(queues, adds, p);
      NoneJoins(adds, g, p);
    }
  }

  /** Unless something is registered in time, every entry is executed once: SETUP, then TEST,
      then TEARDOWN, each in registration order (the default group, if used, comes first). */
  lemma {:induction false} RunsInOrder(queues: Queues, g: nat, k: nat)
    requires g < GROUP_MAX && k <= |queues[g]| && AllTooLate(queues, g)
    ensures Entries(Exec(queues, g, k)) == Remaining(queues, g, k)
    decreases Load(queues, g, k), GROUP_MAX - g
  {
    hide Exec;
    hide Load;
    hide RegisteredAll;
    hide Adds;
    hide TooLate;
    hide Entries;
    if k < |queues[g]| {
      var e := queues[g][k];
      var after := RegisteredAll(queues, Adds(e));
      ExecStep(queues, g, k);
      assert forall a :: a in Adds(e) ==> TooLate(a, g);
      LateLeavesQueues(queues, Adds(e), g);
      assert AllTooLate(after, g);
      hide AllTooLate;
      RunsInOrder(after, g, k + 1);
      hide Remaining;
      EntriesStep(Ran(g, e), Exec(after, g, k + 1));
      RemainingStep(queues, g, k);
      SameRemaining(after, queues, g, k + 1);
    } else {
      ExecSkip(queues, g);
      assert Entries([]) == [] by { NoEntries(); }
      if g + 1 < GROUP_MAX {
        assert AllTooLate(queues, g + 1);
        RunsInOrder(queues, g + 1, 0);
      }
    }
  }

  /** The whole run: setups, tests and teardowns, behind whatever is in the default group. */
  lemma RunsGroupsInOrder(queues: Queues)
    requires AllTooLate(queues, 0)
    ensures Entries(Exec(queues, 0, 0)) ==
      queues[GROUP_DEFAULT] + queues[GROUP_SETUP] + queues[GROUP_TEST] + queues[GROUP_TEARDOWN]
  {
    hide Exec;
    hide Entries;
    hide AllTooLate;
    hide Remaining;
    RunsInOrder(queues, 0, 0);
    RemainingOf(queues, GROUP_TEARDOWN);
    RemainingOf(queues, GROUP_TEST);
    RemainingOf(queues, GROUP_SETUP);
    RemainingOf(queues, GROUP_DEFAULT);
    OneAfterAnother(queues[0], queues[1], queues[2], queues[3]);
  }

  lemma RemainingOf(queues: Queues, g: nat)
    requires g < GROUP_MAX
    ensures Remaining(queues, g, 0) == queues[g] + if g + 1 < GROUP_MAX then Remaining(queues, g + 1, 0) else []
  {
    assert queues[g][0..] == queues[g];
  }

  lemma OneAfterAnother<X>(a: seq<X>, b: seq<X>, c: seq<X>, d: seq<X>)
    ensures a + (b + (c + (d + []))) == a + b + c + d
  {
  }

  lemma NoEntries()
    ensures Entries([]) == []
  {
  }

  lemma SameRemaining(a: Queues, b: Queues, g: nat, k: nat)
    requires g < GROUP_MAX && k <= |a[g]| && forall p :: g <= p < GROUP_MAX ==> a[p] == b[p]
    ensures Remaining(a, g, k) == Remaining(b, g, k)
    decreases GROUP_MAX - g
  {
    if g + 1 < GROUP_MAX { SameRemaining(a, b, g + 1, 0); }
  }

  lemma EntriesStep(r: Ran, rest: seq<Ran>)
    ensures Entries([r] + rest) == [r.entry] + Entries(rest)
  {
    assert ([r] + rest)[1..] == rest;
  }

  lemma RemainingStep(queues: Queues, g: nat, k: nat)
    requires g < GROUP_MAX && k < |queues[g]|
    ensures Remaining(queues, g, k) == [queues[g][k]] + Remaining(queues, g, k + 1)
  {
    assert queues[g][k..] == [queues[g][k]] + queues[g][k + 1..];
  }

  function Entries(trace: seq<Ran>): seq<Entry> {
    if trace == [] then [] else [trace[0].entry] + Entries(trace[1..])
  }

  function Remaining(queues: Queues, g: nat, k: nat): seq<Entry>
    requires g < GROUP_MAX && k <= |queues[g]|
    decreases GROUP_MAX - g
  {
    queues[g][k..] + if g + 1 < GROUP_MAX then Remaining(queues, g + 1, 0) else []
  }

  // ---- What is registered in the end

  /** The queues after a run with this trace. */
  function AfterTrace(queues: Queues, trace: seq<Ran>): Queues
    decreases |trace|
  {
    if trace == [] then queues else AfterTrace(RegisteredAll(queues, Adds(trace[0].entry)), trace[1..])
  }

  /** All entries of a trace register into queue `p`, in time or not. */
  function JoinedBy(trace: seq<Ran>, p: nat): seq<Entry> {
    if trace == [] then [] else Joining(Adds(trace[0].entry), p) + JoinedBy(trace[1..], p)
  }

  lemma {:induction false} AfterTraceAppend(queues: Queues, a: seq<Ran>, b: seq<Ran>)
    ensures AfterTrace(queues, a + b) == AfterTrace(AfterTrace(queues, a), b)
    decreases |a|
  {
    hide RegisteredAll;
    hide Adds;
    if a == [] {
      assert a + b == b;
    } else {
      assert (a + b)[1..] == a[1..] + b;
      AfterTraceAppend(RegisteredAll(queues, Adds(a[0].entry)), a[1..], b);
    }
  }

  /** A queue ends with its entries and whatever joined it, also too late to be executed. */
  lemma {:induction false} QueuesInTheEnd(queues: Queues, trace: seq<Ran>, p: nat)
    requires p < GROUP_MAX
    ensures AfterTrace(queues, trace)[p] == queues[p] + JoinedBy(trace, p)
    decreases |trace|
  {
    hide RegisteredAll;
    hide Joining;
    hide Adds;
    if trace != [] {
      var next := RegisteredAll(queues, Adds(trace[0].entry));
      QueuesInTheEnd(next, trace[1..], p);
      QueueGrows(queues, Adds(trace[0].entry), p);
    }
  }

  lemma NothingRan(queues: Queues)
    ensures AfterTrace(queues, []) == queues
  {
  }

  lemma OneRan(queues: Queues, r: Ran)
    ensures AfterTrace(queues, [r]) == RegisteredAll(queues, Adds(r.entry))
  {
    assert [r][1..] == [];
    hide RegisteredAll;
    hide Adds;
  }

  // ---- Which entries are executed at all

  lemma {:induction false} InEntries(trace: seq<Ran>, e: Entry)
    ensures e in Entries(trace) <==> exists r :: r in trace && r.entry == e
  {
    if trace != [] {
      InEntries(trace[1..], e);
      assert forall r :: r in trace <==> r == trace[0] || r in trace[1..];
    }
  }

  lemma {:induction false} InPhaseOf(trace: seq<Ran>, p: nat, e: Entry)
    ensures e in InPhase(trace, p) <==> exists r :: r in trace && r.phase == p && r.entry == e
  {
    if trace != [] {
      InPhaseOf(trace[1..], p, e);
      assert forall r :: r in trace <==> r == trace[0] || r in trace[1..];
    }
  }

  lemma {:induction false} InJoining(adds: seq<Registration>, p: nat, e: Entry)
    ensures e in Joining(adds, p) <==> exists a :: a in adds && a.tag < GROUP_MAX && Target(a.tag) == p && a.entry == e
    decreases |adds|
  {
    if adds != [] {
      InJoining(adds[1..], p, e);
      assert forall a :: a in adds <==> a == adds[0] || a in adds[1..];
    }
  }

  lemma {:induction false} JoinedInTime(trace: seq<Ran>, p: nat, e: Entry)
    ensures e in InTime(trace, p) <==> exists r :: r in trace && r.phase <= p && e in Joining(Adds(r.entry), p)
  {
    hide Joining;
    hide Adds;
    if trace != [] {
      JoinedInTime(trace[1..], p, e);
      assert forall r :: r in trace <==> r == trace[0] || r in trace[1..];
    }
  }

  /** The entry `e` is registered during the run, before it is too late. */
  ghost predicate RegisteredInTime(trace: seq<Ran>, e: Entry) {
    exists r, a :: r in trace && a in Adds(r.entry) && a.entry == e && !TooLate(a, r.phase)
  }

  lemma ThenRegistered(trace: seq<Ran>, p: nat, e: Entry)
    requires p < GROUP_MAX && e in InTime(trace, p)
    ensures RegisteredInTime(trace, e)
  {
    hide Adds;
    JoinedInTime(trace, p, e);
    var r :| r in trace && r.phase <= p && e in Joining(Adds(r.entry), p);
    InJoining(Adds(r.entry), p, e);
    var a :| a in Adds(r.entry) && a.tag < GROUP_MAX && Target(a.tag) == p && a.entry == e;
    assert !TooLate(a, r.phase);
  }

  lemma ThenJoins(trace: seq<Ran>, e: Entry) returns (p: nat)
    requires RegisteredInTime(trace, e)
    ensures p < GROUP_MAX && e in InTime(trace, p)
  {
    hide Adds;
    var r, a :| r in trace && a in Adds(r.entry) && a.entry == e && !TooLate(a, r.phase);
    p := Target(a.tag);
    InJoining(Adds(r.entry), p, e);
    JoinedInTime(trace, p, e);
  }

  /** A run executes exactly the entries that were registered before it and those that its entries
      register in time. */
  lemma ExecutedIffInTime(queues: Queues, e: Entry)
    ensures var trace := Exec(queues, 0, 0);
      e in Entries(trace) <==> (exists p :: 0 <= p < GROUP_MAX && e in queues[p]) || RegisteredInTime(trace, e)
  {
    hide Exec;
    hide InTime;
    hide InPhase;
    hide Load;
    hide Entries;
    hide RegisteredInTime;
    var trace := Exec(queues, 0, 0);
    ExecutesWhatJoinsInTime(queues, 0, 0);
    PhasesInOrder(queues, 0, 0);
    forall p | 0 <= p < GROUP_MAX ensures Pending(queues, 0, 0, p) == queues[p] { }
    ExecutedFrom(queues, trace, e);
  }

  lemma PhaseOf(trace: seq<Ran>, e: Entry) returns (p: nat)
    requires e in Entries(trace) && forall i :: 0 <= i < |trace| ==> 0 <= trace[i].phase < GROUP_MAX
    ensures p < GROUP_MAX && e in InPhase(trace, p)
  {
    InEntries(trace, e);
    var r :| r in trace && r.entry == e;
    p := r.phase;
    InPhaseOf(trace, p, e);
  }

  lemma ExecutedFrom(queues: Queues, trace: seq<Ran>, e: Entry)
    requires forall p :: 0 <= p < GROUP_MAX ==> InPhase(trace, p) == queues[p] + InTime(trace, p)
    requires forall i :: 0 <= i < |trace| ==> 0 <= trace[i].phase < GROUP_MAX
    ensures e in Entries(trace) <==> (exists p :: 0 <= p < GROUP_MAX && e in queues[p]) || RegisteredInTime(trace, e)
  {
    hide Entries;
    hide InPhase;
    hide InTime;
    hide RegisteredInTime;
    if e in Entries(trace) {
      var p := PhaseOf(trace, e);
      if e !in queues[p] { ThenRegistered(trace, p, e); }
    }
    if p :| 0 <= p < GROUP_MAX && e in queues[p] { ThenExecuted(trace, p, e); }
    if RegisteredInTime(trace, e) {
      var p := ThenJoins(trace, e);
      ThenExecuted(trace, p, e);
    }
  }

  lemma ThenExecuted(trace: seq<Ran>, p: nat, e: Entry)
    requires e in InPhase(trace, p)
    ensures e in Entries(trace)
  {
    InPhaseOf(trace, p, e);
    InEntries(trace, e);
  }

  /** So an entry that is only ever added as a test, and only by entries that run with the tests or
      teardowns, is never executed. */
  lemma TestAddedByTestNeverRuns(queues: Queues, e: Entry)
    requires forall p :: 0 <= p < GROUP_MAX ==> e !in queues[p]
    requires forall r, a :: r in Exec(queues, 0, 0) && a in Adds(r.entry) && a.entry == e ==>
      a.tag == GROUP_TEST && r.phase >= GROUP_TEST
    ensures e !in Entries(Exec(queues, 0, 0))
  {
    ExecutedIffInTime(queues, e);
    hide Exec;
    hide Adds;
    hide Entries;
  }
}
