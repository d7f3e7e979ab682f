/** The test runner of uttest.c on its tagged lists and assert counters. */
module UtTest {
  import opened Wrappers
  import opened UtTestEntry
  import opened UtAssert
  import opened UtTestRun
  import opened UtTestOutcome
  import opened UtList
  import opened UtTestRing

  // The default of OSAL_CONFIG_MAX_API_NAME
  const OS_MAX_API_NAME := 20

  /** strncpy into the TestName of an entry, which keeps room for the terminator. */
  function CopiedName(name: Option<string>): string {
    var s := name.GetOr("");
    if |s| < OS_MAX_API_NAME * 2 then s else s[..OS_MAX_API_NAME * 2 - 1]
  }

  /** The name itself if it has less than 40 characters, otherwise its first 39; no name is an empty one. */
  lemma CopiedNameIs(name: Option<string>)
    ensures var s, r := name.GetOr(""), CopiedName(name);
      r <= s && |r| == Min(|s|, 39)
  {
  }

  /** The nodes of a segment hold these entries. */
  ghost predicate Holds(nodes: seq<Node>, entries: seq<Entry>) {
    && |nodes| == |entries|
    && forall i :: 0 <= i < |nodes| ==> nodes[i].data == Some(entries[i])
  }

  ghost predicate Held(segs: Segments, queues: Queues) {
    forall p :: 0 <= p < GROUP_MAX ==> Holds(segs[p], queues[p])
  }

  /** Every segment has kept its nodes, and may have more behind them. */
  ghost predicate Extends(a: Segments, b: Segments) {
    forall p :: 0 <= p < GROUP_MAX ==> a[p] <= b[p]
  }

  lemma ExtendsTwice(a: Segments, b: Segments, c: Segments)
    requires Extends(a, b) && Extends(b, c)
    ensures Extends(a, c)
  {
  }

  /** The nodes of all segments. */
  ghost predicate AllIn(segs: Segments, freed: seq<Node>) {
    forall p, k :: 0 <= p < GROUP_MAX && 0 <= k < |segs[p]| ==> segs[p][k] in freed
  }

  lemma ExtendsAt(a: Segments, b: Segments, p: nat, k: nat)
    requires Extends(a, b) && p < GROUP_MAX && k < |a[p]|
    ensures k < |b[p]| && b[p][k] == a[p][k]
  {
    assert b[p][..|a[p]|] == a[p];
  }

  /** The entries executed that have a test. */
  function Tests(trace: seq<Ran>): nat {
    if trace == [] then 0 else Tests(trace[..|trace| - 1]) + if trace[|trace| - 1].entry.test.Some? then 1 else 0
  }

  /** UtAssert_Global with the counters of utassert.c. */
  class Framework {
    const list: ListHead
    const asserts: Asserts
    var executedCount: uint32
    /** The entries registered under each tag, the nodes that hold them, and the number of tags
        whose rings have been merged into the first. */
    ghost var queues: Queues
    ghost var segs: Segments
    ghost var joined: nat

    ghost predicate Valid()
      reads this`queues, this`segs, this`joined, list, list.rings.Keys, asserts
    {
      Registered() && asserts.Valid()
    }

    /** The lists hold what has been registered. */
    ghost predicate Registered()
      reads this`queues, this`segs, this`joined, list, list.rings.Keys
    {
      && list.Valid() && |list.tags| == GROUP_MAX
      && Arranged(list.rings, list.tags, segs, joined)
      && Held(segs, queues)
    }

    /** UtTest_EarlyInit. */
    constructor ()
      ensures Valid() && joined == 1 && queues == [[], [], [], []] && executedCount == 0
      ensures fresh(list) && fresh(list.rings.Keys) && fresh(asserts)
      ensures asserts.history == History([], [], 0, FAILURE) && list.freed == []
    {
      list := new ListHead(GROUP_MAX);
      asserts := new Asserts();
      executedCount := 0;
      queues, segs, joined := [[], [], [], []], seq(GROUP_MAX, _ => []), 1;
      new;
      assert Layout(list.tags, segs, 1) == [list.tags[0]] by { assert Layout(list.tags, segs, 0) == []; }
    }

    /** UtTest_AddCommon. */
    method AddCommon(test: Option<Script>, setup: Option<Script>, teardown: Option<Script>, name: Option<string>,
      tag: nat)
      requires Valid()
      modifies this`queues, this`segs, list, list.rings.Keys
      ensures Valid() && list.freed == old(list.freed)
      ensures fresh(list.rings.Keys - old(list.rings.Keys))
      ensures var e := Entry(setup, test, teardown, CopiedName(name));
        queues == if tag < GROUP_MAX then old(queues)[Place(joined, tag) := old(queues)[Place(joined, tag)] + [e]]
          else old(queues)
    {
      AddEntry(Entry(setup, test, teardown, CopiedName(name)), tag);
    }

    method Add(test: Option<Script>, setup: Option<Script>, teardown: Option<Script>, name: Option<string>)
      requires Valid()
      modifies this`queues, this`segs, list, list.rings.Keys
      ensures Valid() && list.freed == old(list.freed)
      ensures fresh(list.rings.Keys - old(list.rings.Keys))
      ensures var p := Place(joined, GROUP_TEST);
        queues == old(queues)[p := old(queues)[p] + [Entry(setup, test, teardown, CopiedName(name))]]
    {
      AddCommon(test, setup, teardown, name, GROUP_TEST);
    }

    method AddSetup(setup: Option<Script>, name: Option<string>)
      requires Valid()
      modifies this`queues, this`segs, list, list.rings.Keys
      ensures Valid() && list.freed == old(list.freed)
      ensures fresh(list.rings.Keys - old(list.rings.Keys))
      ensures var p := Place(joined, GROUP_SETUP);
        queues == old(queues)[p := old(queues)[p] + [Entry(setup, None, None, CopiedName(name))]]
    {
      AddCommon(None, setup, None, name, GROUP_SETUP);
    }

    method AddTeardown(teardown: Option<Script>, name: Option<string>)
      requires Valid()
      modifies this`queues, this`segs, list, list.rings.Keys
      ensures Valid() && list.freed == old(list.freed)
      ensures fresh(list.rings.Keys - old(list.rings.Keys))
      ensures var p := Place(joined, GROUP_TEARDOWN);
        queues == old(queues)[p := old(queues)[p] + [Entry(None, None, teardown, CopiedName(name))]]
    {
      AddCommon(None, None, teardown, name, GROUP_TEARDOWN);
    }

    /** The call of UtList_Add that every registration comes down to. */
    method AddEntry(e: Entry, tag: nat)
      requires Valid()
      modifies this`queues, this`segs, list, list.rings.Keys
      ensures Valid() && list.freed == old(list.freed)
      ensures fresh(list.rings.Keys - old(list.rings.Keys))
      ensures queues ==
        if tag < GROUP_MAX then old(queues)[Place(joined, tag) := old(queues)[Place(joined, tag)] + [e]]
        else old(queues)
      ensures Extends(old(segs), segs)
    {
      hide Layout;
      hide Grew;
      RingsDistinct(list.rings, list.tags);
      ghost var added := list.Add(e, tag);
      if tag < GROUP_MAX {
        ghost var p := Place(joined, tag);
        ghost var node := added.value;
        GrewKeys(old(list.rings), list.rings, list.tags, list.tags[tag], node);
        GrowArranges(old(list.rings), list.rings, list.tags, segs, joined, tag, node);
        hide Arranged;
        segs := segs[p := segs[p] + [node]];
        queues := queues[p := queues[p] + [e]];
      }
    }

    /** A callback during the run: it asserts, and it registers. */
    method RunScript(s: Option<Script>)
      requires Valid() && joined == GROUP_MAX
      modifies this`queues, this`segs, list, list.rings.Keys, asserts
      ensures Valid() && list.freed == old(list.freed)
      ensures fresh(list.rings.Keys - old(list.rings.Keys))
      ensures queues == RegisteredAll(old(queues), ScriptAdds(s))
      ensures asserts.history == AfterAll(old(asserts.history), AssertEvents(ScriptAsserts(s)))
      ensures Extends(old(segs), segs)
    {
      hide Arranged;
      hide Held;
      if s.Some? {
        RunAsserts(s.value.asserts);
        RunAdds(s.value.adds);
      }
    }

    method RunAsserts(all: seq<Assertion>)
      requires asserts.Valid()
      modifies asserts
      ensures asserts.Valid()
      ensures asserts.history == AfterAll(old(asserts.history), AssertEvents(all))
    {
      var i := 0;
      assert all[..i] == [];
      while i < |all|
        invariant 0 <= i <= |all| && asserts.Valid()
        invariant asserts.history == AfterAll(old(asserts.history), AssertEvents(all[..i]))
      {
        var _ := asserts.AssertEx(all[i]);
        AfterOne(old(asserts.history), AssertEvents(all[..i]), Assert(all[i]));
        assert all[..i + 1][..i] == all[..i];
        i := i + 1;
      }
      assert all[..i] == all;
    }

    method RunAdds(adds: seq<Registration>)
      requires Valid() && joined == GROUP_MAX
      modifies this`queues, this`segs, list, list.rings.Keys
      ensures Valid() && list.freed == old(list.freed)
      ensures fresh(list.rings.Keys - old(list.rings.Keys))
      ensures queues == RegisteredAll(old(queues), adds)
      ensures Extends(old(segs), segs)
    {
      hide Arranged;
      hide Held;
      var i := 0;
      while i < |adds|
        invariant 0 <= i <= |adds| && Valid() && list.freed == old(list.freed)
        invariant fresh(list.rings.Keys - old(list.rings.Keys))
        invariant RegisteredAll(queues, adds[i..]) == RegisteredAll(old(queues), adds)
        invariant Extends(old(segs), segs)
      {
        ghost var before := queues;
        AddEntry(adds[i].entry, adds[i].tag);
        assert queues == UtTestRun.Registered(before, adds[i]);
        assert adds[i..][1..] == adds[i + 1..];
        i := i + 1;
      }
    }

    /** The body of the loop of UtTest_Run, for a node that holds an entry. */
    method RunEntry(e: Entry)
      requires Valid() && joined == GROUP_MAX
      modifies this`queues, this`segs, this`executedCount, list, list.rings.Keys, asserts
      ensures Valid() && list.freed == old(list.freed)
      ensures asserts.Valid() && fresh(list.rings.Keys - old(list.rings.Keys))
      ensures queues == RegisteredAll(old(queues), Adds(e))
      ensures asserts.history == AfterEntry(old(asserts.history), e)
      ensures executedCount == if e.test.Some? then Inc32(old(executedCount)) else old(executedCount)
      ensures Extends(old(segs), segs)
    {
      hide Registered;
      hide Extends;
      hide AfterAll;
      hide AfterEntry;
      hide AssertEvents;
      hide RegisteredAll;
      hide ScriptAdds;
      ghost var h0, q0, s0 := asserts.history, queues, segs;
      asserts.BeginTest();
      RunPart(TSF, e.setup);
      ghost var s1 := segs;
      RunPart(FAILURE, e.test);
      if e.test.Some? {
        executedCount := Inc32(executedCount);
      }
      ghost var s2 := segs;
      RunPart(TTF, e.teardown);
      asserts.EndTest();
      hide Asserts.Valid;
      EntryHistory(h0, e);
      RegisteredAppend(q0, ScriptAdds(e.setup), ScriptAdds(e.test));
      RegisteredAppend(q0, ScriptAdds(e.setup) + ScriptAdds(e.test), ScriptAdds(e.teardown));
      ExtendsTwice(s0, s1, s2);
      ExtendsTwice(s0, s2, segs);
    }

    /** One callback of an entry, in its context. */
    method RunPart(c: nat, s: Option<Script>)
      requires Valid() && joined == GROUP_MAX
      modifies this`queues, this`segs, list, list.rings.Keys, asserts
      ensures Valid() && list.freed == old(list.freed)
      ensures fresh(list.rings.Keys - old(list.rings.Keys))
      ensures queues == RegisteredAll(old(queues), ScriptAdds(s))
      ensures asserts.history == AfterAll(After(old(asserts.history), Context(c)), AssertEvents(ScriptAsserts(s)))
      ensures Extends(old(segs), segs)
    {
      hide Registered;
      hide Extends;
      hide AfterAll;
      asserts.SetContext(c);
      RunScript(s);
    }

    /** UtTest_Run, with the exit code of UT_BSP_EndTest: the entries are executed as `Exec` says,
        every node registered before or during the run is freed, and the exit code is that of the
        closed segments. */
    method Run() returns (code: int32)
      requires Valid() && joined == 1
      modifies this, list, list.rings.Keys, asserts
      ensures var trace := Exec(old(queues), 0, 0);
        && asserts.history == AfterRun(old(asserts.history), trace)
        && executedCount == (old(executedCount) + Tests(trace)) % 0x1_0000_0000
        && queues == AfterTrace(old(queues), trace)
      ensures code == ExitCodeOf(asserts.history.closed)
      ensures forall n: Node :: n in list.rings ==> n in list.tags
      ensures old(list.freed) <= list.freed && list.Valid()
      ensures Held(segs, queues) && Extends(old(segs), segs) && AllIn(segs, list.freed)
    {
      hide *;
      MergeAll();
      RunAll();
      code := asserts.ExitCode();
      HeldNow();
      DestroyAll();
    }

    lemma HeldNow()
      requires Valid()
      ensures Held(segs, queues)
    {
    }

    method DestroyAll()
      requires Valid() && joined == GROUP_MAX
      modifies list, list.rings.Keys
      ensures list.Valid() && old(list.freed) <= list.freed
      ensures forall n: Node :: n in list.rings ==> n in list.tags
      ensures AllIn(segs, list.freed)
    {
      forall p, n | 0 <= p < GROUP_MAX && n in segs[p] ensures n in list.rings && n.data.Some? {
        InLayout(p, n);
      }
      hide ListHead.Valid;
      hide Arranged;
      list.Destroy();
      assert list.freed == old(list.freed) + list.freed[|old(list.freed)|..];
    }

    lemma InLayout(p: nat, n: Node)
      requires Valid() && joined == GROUP_MAX && p < GROUP_MAX && n in segs[p]
      ensures n in list.rings && n.data.Some?
    {
      assert Holds(segs[p], queues[p]);
      var k := IndexOf(segs[p], n);
      assert n.data == Some(queues[p][k]);
      hide Holds;
      hide Held;
      hide AllRings;
      var r := Layout(list.tags, segs, GROUP_MAX);
      hide Layout;
      hide Pos;
      LayoutAt(list.tags, segs, p, GROUP_MAX);
      assert r[Pos(segs, p) + 1 + k] == n;
      assert Grouped(list.rings, list.tags, list.tags[0]);
    }

    /** The rings of the tags become one. */
    method MergeAll()
      requires Valid() && joined == 1
      modifies this`joined, list`rings, list.rings.Keys
      ensures Valid() && joined == GROUP_MAX
      ensures list.rings.Keys == old(list.rings.Keys)
    {
      hide Held;
      MergeNext(1);
      MergeNext(2);
      MergeNext(3);
    }

    method MergeNext(j: nat)
      requires Valid() && joined == j < GROUP_MAX
      modifies this`joined, list`rings, list.rings.Keys
      ensures Valid() && joined == j + 1
      ensures list.rings.Keys == old(list.rings.Keys)
    {
      hide Held;
      hide Layout;
      hide Joined;
      RingsDistinct(list.rings, list.tags);
      NextApart(list.rings, list.tags, segs, j);
      ghost var before := list.rings;
      list.MergeTags(0, j);
      MergeArranges(before, list.rings, list.tags, segs, j);
      JoinedKeys(before, list.tags, list.tags[0], list.tags[j], list.rings);
      joined := j + 1;
    }

    /** Walks the ring until it is back at its first head. */
    method RunAll()
      requires Valid() && joined == GROUP_MAX
      modifies this`queues, this`segs, this`executedCount, list, list.rings.Keys, asserts
      ensures Valid() && asserts.Valid() && list.freed == old(list.freed)
      ensures fresh(list.rings.Keys - old(list.rings.Keys))
      ensures var trace := Exec(old(queues), 0, 0);
        && asserts.history == AfterRun(old(asserts.history), trace)
        && executedCount == (old(executedCount) + Tests(trace)) % 0x1_0000_0000
        && queues == AfterTrace(old(queues), trace)
      ensures Extends(old(segs), segs)
    {
      hide *;
      RunStart(asserts.history);
      AtStart();
      NothingRan(queues);
      var main := list.tags[0];
      ghost var g: nat, k: nat := 0, 0;
      ghost var trace: seq<Ran> := [];
      var node := main.next;
      while node != main
        invariant Valid() && asserts.Valid() && joined == GROUP_MAX && list.freed == old(list.freed)
        invariant fresh(list.rings.Keys - old(list.rings.Keys))
        invariant g < GROUP_MAX && k <= |segs[g]| && |segs[g]| == |queues[g]| && node == Cursor(list.tags, segs, g, k)
        invariant trace + Exec(queues, g, k) == Exec(old(queues), 0, 0)
        invariant asserts.history == AfterRun(old(asserts.history), trace)
        invariant executedCount == (old(executedCount) + Tests(trace)) % 0x1_0000_0000
        invariant Extends(old(segs), segs) && queues == AfterTrace(old(queues), trace)
        decreases Load(queues, g, k), GROUP_MAX - g
      {
        ghost var before := segs;
        ghost var g', k', ran;
        node, g', k', ran := Step(node, g, k);
        ExtendsTwice(old(segs), before, segs);
        AfterRunAppend(old(asserts.history), trace, ran);
        AfterTraceAppend(old(queues), trace, ran);
        TestsAppend(trace, ran);
        CountOn(old(executedCount), Tests(trace), Tests(ran));
        TraceOn(trace, ran, Exec(queues, g', k'));
        g, k, trace := g', k', trace + ran;
      }
      AtCursor(g, k);
      ExecSkip(queues, g);
      TraceOn(trace, [], []);
    }

    /** The body of the loop of UtTest_Run. */
    method Step(node: Node, ghost g: nat, ghost k: nat)
      returns (next: Node, ghost g': nat, ghost k': nat, ghost ran: seq<Ran>)
      requires Valid() && joined == GROUP_MAX && |list.tags| == GROUP_MAX
      requires g < GROUP_MAX && k <= |segs[g]| && |segs[g]| == |queues[g]|
      requires node == Cursor(list.tags, segs, g, k) != list.tags[0]
      modifies this`queues, this`segs, this`executedCount, list, list.rings.Keys, asserts
      ensures Valid() && asserts.Valid() && list.freed == old(list.freed)
      ensures fresh(list.rings.Keys - old(list.rings.Keys))
      ensures g' < GROUP_MAX && k' <= |segs[g']| && |segs[g']| == |queues[g']|
        && next == Cursor(list.tags, segs, g', k')
      ensures Exec(old(queues), g, k) == ran + Exec(queues, g', k')
      ensures asserts.history == AfterRun(old(asserts.history), ran)
      ensures executedCount == (old(executedCount) + Tests(ran)) % 0x1_0000_0000
      ensures Extends(old(segs), segs) && queues == AfterTrace(old(queues), ran)
      ensures Load(queues, g', k') <= Load(old(queues), g, k)
      ensures Load(queues, g', k') == Load(old(queues), g, k) ==> g < g'
    {
      hide Registered;
      hide Exec;
      hide Load;
      hide AfterEntry;
      hide AfterRun;
      hide Tests;
      hide RegisteredAll;
      hide AfterTrace;
      assert Extends(segs, segs);
      hide Extends;
      RunStart(asserts.history);
      ghost var h0, s0 := asserts.history, segs;
      hide Valid;
      AtCursor(g, k);
      if node.data.Some? {
        ExecStep(queues, g, k);
        ghost var r := Ran(g, queues[g][k]);
        OneRan(queues, r);
        RunEntry(node.data.value);
        ExtendsAt(s0, segs, g, k);
        OneMore(h0, [], r);
        assert [] + [r] == [r];
        g', k', ran := g, k + 1, [r];
      } else {
        ExecSkip(queues, g);
        NothingRan(queues);
        g', k', ran := g + 1, 0, [];
        assert Exec(queues, g', k') == ran + Exec(queues, g', k');
      }
      AtCursor(g', k');
      next := node.next;
    }

    lemma AtStart()
      requires Valid() && joined == GROUP_MAX
      ensures asserts.Valid() && |list.tags| == GROUP_MAX > 0 && |segs[0]| == |queues[0]| && Extends(segs, segs)
      ensures list.tags[0].next == Cursor(list.tags, segs, 0, 0)
    {
      AtCursor(0, 0);
    }

    /** What the node at a cursor holds, and where its link leads. */
    lemma AtCursor(g: nat, k: nat)
      requires Valid() && joined == GROUP_MAX && g < GROUP_MAX && k <= |segs[g]|
      ensures |queues[g]| == |segs[g]|
      ensures (if k == 0 then list.tags[g] else segs[g][k - 1]).next == Cursor(list.tags, segs, g, k)
      ensures Cursor(list.tags, segs, g, k) == list.tags[0] <==> g + 1 == GROUP_MAX && k == |segs[g]|
      ensures Cursor(list.tags, segs, g, k).data == if k < |segs[g]| then Some(queues[g][k]) else None
    {
      assert Held(segs, queues) ==> Holds(segs[g], queues[g]);
      var tags := list.tags;
      assert Grouped(list.rings, tags, tags[0]);
      var r := Layout(tags, segs, GROUP_MAX);
      assert Ring(r);
      NextOfCursor(tags, segs, g, k);
      CursorAtEnd(tags, segs, g, k);
      if k == |segs[g]| {
        var next := if g + 1 < GROUP_MAX then tags[g + 1] else tags[0];
        assert next in tags && Grouped(list.rings, tags, next);
      }
    }
  }

  lemma {:induction false} TestsAppend(a: seq<Ran>, b: seq<Ran>)
    ensures Tests(a + b) == Tests(a) + Tests(b)
  {
    if b == [] {
      assert a + b == a;
    } else {
      var t := b[..|b| - 1];
      assert (a + b)[..|a + b| - 1] == a + t;
      TestsAppend(a, t);
    }
  }

  lemma CountOn(count: uint32, a: nat, b: nat)
    ensures ((count + a) % 0x1_0000_0000 + b) % 0x1_0000_0000 == (count + (a + b)) % 0x1_0000_0000
  {
  }

  lemma TraceOn(a: seq<Ran>, b: seq<Ran>, c: seq<Ran>)
    ensures (a + b) + c == a + (b + c)
    ensures a + [] == a
  {
  }

  lemma RunStart(h: History)
    ensures AfterRun(h, []) == h && Tests([]) == 0
  {
  }

  /** One more entry has been executed. */
  lemma OneMore(h: History, trace: seq<Ran>, r: Ran)
    ensures AfterRun(h, trace + [r]) == AfterEntry(AfterRun(h, trace), r.entry)
    ensures Tests(trace + [r]) == Tests(trace) + if r.entry.test.Some? then 1 else 0
  {
    hide AfterEntry;
    AfterRunAppend(h, trace, [r]);
    assert AfterRun(AfterRun(h, trace), [r]) == AfterEntry(AfterRun(h, trace), r.entry) by { assert [r][1..] == []; }
    assert (trace + [r])[..|trace|] == trace;
  }

  lemma JoinedKeys(before: Rings, tags: seq<Node>, h1: Node, h2: Node, after: Rings)
    requires Grouping(before, tags) && Joined(before, h1, h2, after)
    ensures after.Keys == before.Keys
  {
    assert Grouped(before, tags, h1) && Grouped(before, tags, h2);
  }

  lemma GrewKeys(before: Rings, after: Rings, tags: seq<Node>, h: Node, node: Node)
    requires Grouping(before, tags) && Grew(before, after, h, node)
    ensures forall n :: n in after ==> n in before || n == node
  {
    assert Grouped(before, tags, h);
    hide Inserted;
    forall n | n in after ensures n in before || n == node { InsertedAt(before[h], h, node, n); }
  }
}
