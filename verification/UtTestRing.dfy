/** The rings of the tags as UtTest_Run of uttest.c lays them out, one after the other. */
module UtTestRing {
  import opened Wrappers
  import opened UtTestEntry
  import opened UtTestRun
  import opened UtList

  type Segments = s: seq<seq<Node>> | |s| == GROUP_MAX witness seq(GROUP_MAX, _ => [])

  /** The first `n` tags, each with the nodes that follow its head. */
  ghost function Layout(tags: seq<Node>, segs: Segments, n: nat): (r: seq<Node>)
    requires |tags| == GROUP_MAX && n <= GROUP_MAX
  {
    if n == 0 then [] else Layout(tags, segs, n - 1) + ([tags[n - 1]] + segs[n - 1])
  }

  /** The place of the head of tag `n` in the layout. */
  ghost function Pos(segs: Segments, n: nat): nat
    requires n <= GROUP_MAX
  {
    if n == 0 then 0 else Pos(segs, n - 1) + 1 + |segs[n - 1]|
  }

  lemma {:induction false} LayoutLength(tags: seq<Node>, segs: Segments, n: nat)
    requires |tags| == GROUP_MAX && n <= GROUP_MAX
    ensures |Layout(tags, segs, n)| == Pos(segs, n)
  {
    if n > 0 { LayoutLength(tags, segs, n - 1); }
  }

  /** The layout of fewer tags is the beginning of the layout of more. */
  lemma {:induction false} LayoutPrefix(tags: seq<Node>, segs: Segments, m: nat, n: nat)
    requires |tags| == GROUP_MAX && m <= n <= GROUP_MAX
    ensures Pos(segs, m) <= |Layout(tags, segs, n)| && Layout(tags, segs, n)[..Pos(segs, m)] == Layout(tags, segs, m)
  {
    LayoutLength(tags, segs, m);
    if m < n {
      LayoutPrefix(tags, segs, m, n - 1);
      var l := Layout(tags, segs, n - 1);
      assert Layout(tags, segs, n)[..|l|] == l;
    }
  }

  lemma LayoutAt(tags: seq<Node>, segs: Segments, g: nat, n: nat)
    requires |tags| == GROUP_MAX && g < n <= GROUP_MAX
    ensures var r := Layout(tags, segs, n);
      && Pos(segs, g) + 1 + |segs[g]| <= |r|
      && r[Pos(segs, g)] == tags[g]
      && forall k :: 0 <= k < |segs[g]| ==> r[Pos(segs, g) + 1 + k] == segs[g][k]
  {
    hide Layout;
    hide Pos;
    LayoutPrefix(tags, segs, g + 1, n);
    var r := Layout(tags, segs, n);
    var q := Layout(tags, segs, g + 1);
    var l := Layout(tags, segs, g);
    LayoutLength(tags, segs, g);
    LayoutLast(tags, segs, g + 1);
    PosNext(segs, g);
    assert q[|l|] == tags[g];
    forall k | 0 <= k < |segs[g]| ensures r[Pos(segs, g) + 1 + k] == segs[g][k] {
      assert q[|l| + 1 + k] == segs[g][k];
    }
  }

  /** A longer segment: everything before and behind it stays in place. */
  lemma {:induction false} LayoutGrows(tags: seq<Node>, segs: Segments, g: nat, node: Node, n: nat)
    requires |tags| == GROUP_MAX && g < n <= GROUP_MAX
    ensures var grown := segs[g := segs[g] + [node]];
      var r := Layout(tags, segs, n);
      && Pos(segs, g + 1) <= |r|
      && Layout(tags, grown, n) == r[..Pos(segs, g + 1)] + [node] + r[Pos(segs, g + 1)..]
  {
    hide Layout;
    hide Pos;
    var grown := segs[g := segs[g] + [node]];
    var r := Layout(tags, segs, n);
    var at := Pos(segs, g + 1);
    LayoutPrefix(tags, segs, g + 1, n);
    LayoutLast(tags, segs, n);
    LayoutLast(tags, grown, n);
    if n == g + 1 {
      LayoutSame(tags, segs, grown, g);
      LayoutLength(tags, segs, n);
      AddedLast(Layout(tags, segs, g), tags[g], segs[g], node);
    } else {
      LayoutGrows(tags, segs, g, node, n - 1);
      AddedWithin(Layout(tags, segs, n - 1), [tags[n - 1]] + segs[n - 1], at, node);
    }
  }

  lemma AddedLast<X>(front: seq<X>, head: X, segment: seq<X>, x: X)
    ensures var r := front + ([head] + segment);
      front + ([head] + (segment + [x])) == r[..|r|] + [x] + r[|r|..]
  {
  }

  lemma AddedWithin<X>(s: seq<X>, t: seq<X>, k: nat, x: X)
    requires k <= |s|
    ensures (s[..k] + [x] + s[k..]) + t == (s + t)[..k] + [x] + (s + t)[k..]
  {
    SplitAppend(s, t, k);
  }

  lemma LayoutLast(tags: seq<Node>, segs: Segments, n: nat)
    requires |tags| == GROUP_MAX && 0 < n <= GROUP_MAX
    ensures Layout(tags, segs, n) == Layout(tags, segs, n - 1) + ([tags[n - 1]] + segs[n - 1])
  {
  }

  lemma {:induction false} LayoutSame(tags: seq<Node>, a: Segments, b: Segments, n: nat)
    requires |tags| == GROUP_MAX && n <= GROUP_MAX && forall i :: 0 <= i < n ==> a[i] == b[i]
    ensures Layout(tags, a, n) == Layout(tags, b, n)
  {
    if n > 0 { LayoutSame(tags, a, b, n - 1); }
  }

  /** The first `j` tags share one ring; each of the others has its own. */
  ghost predicate Arranged(rings: Rings, tags: seq<Node>, segs: Segments, j: nat) {
    && |tags| == GROUP_MAX && 1 <= j <= GROUP_MAX
    && tags[0] in rings && rings[tags[0]] == Layout(tags, segs, j)
    && forall i :: j <= i < GROUP_MAX ==> tags[i] in rings && rings[tags[i]] == [tags[i]] + segs[i]
  }

  /** The segment at the end of which a new node of tag `u` lands. */
  function Place(j: nat, u: nat): (p: nat)
    requires 1 <= j <= GROUP_MAX && u < GROUP_MAX
    ensures p < GROUP_MAX
    ensures j == 1 ==> p == u
    ensures j == GROUP_MAX ==> p == Target(u)
  {
    if u >= j then u else if u == 0 then j - 1 else u - 1
  }

  ghost predicate DistinctRings(rings: Rings) {
    forall n :: n in rings ==> Distinct(rings[n])
  }

  lemma RingsDistinct(rings: Rings, tags: seq<Node>)
    requires Grouping(rings, tags) && AllRings(rings, tags)
    ensures DistinctRings(rings)
  {
    forall n | n in rings ensures Distinct(rings[n]) { assert Grouped(rings, tags, n); }
  }

  lemma FromHead(rings: Rings, tags: seq<Node>, h: Node)
    requires Grouping(rings, tags) && DistinctRings(rings) && h in rings && rings[h] != [] && rings[h][0] == h
    ensures h in rings[h] && From(rings, h) == rings[h]
  {
    assert Grouped(rings, tags, h);
    IndexUnique(rings[h], h, 0);
  }

  lemma LayoutHead(tags: seq<Node>, segs: Segments, n: nat)
    requires |tags| == GROUP_MAX && 1 <= n <= GROUP_MAX
    ensures Layout(tags, segs, n) != [] && Layout(tags, segs, n)[0] == tags[0]
  {
    LayoutAt(tags, segs, 0, n);
    assert Pos(segs, 0) == 0;
  }

  /** The next tag's ring is still its own. */
  lemma NextApart(rings: Rings, tags: seq<Node>, segs: Segments, j: nat)
    requires Grouping(rings, tags) && Arranged(rings, tags, segs, j) && j < GROUP_MAX
    ensures tags[j] !in rings[tags[0]]
  {
    LayoutHead(tags, segs, j);
    assert tags[0] in tags;
    assert Grouped(rings, tags, tags[0]);
    assert tags[0] != tags[j];
  }

  /** Merging the next tag's ring to the layout. */
  lemma MergeArranges(before: Rings, after: Rings, tags: seq<Node>, segs: Segments, j: nat)
    requires Grouping(before, tags) && DistinctRings(before) && Arranged(before, tags, segs, j) && j < GROUP_MAX
    requires Joined(before, tags[0], tags[j], after)
    ensures Arranged(after, tags, segs, j + 1)
  {
    LayoutHead(tags, segs, j);
    FromHead(before, tags, tags[0]);
    FromHead(before, tags, tags[j]);
    var q := Layout(tags, segs, j + 1);
    assert Regrouped(before, q, after);
    LayoutHead(tags, segs, j + 1);
    hide Layout;
    hide From;
    assert tags[0] in q;
    forall i | j + 1 <= i < GROUP_MAX ensures tags[i] in after && after[tags[i]] == [tags[i]] + segs[i] {
      OwnRing(before, tags, tags[0], tags[i]);
      OwnRing(before, tags, tags[j], tags[i]);
      assert tags[i] !in q by { assert q == before[tags[0]] + before[tags[j]]; }
    }
  }

  /** A head that starts a ring is in no ring that starts with another. */
  lemma OwnRing(rings: Rings, tags: seq<Node>, h: Node, t: Node)
    requires Grouping(rings, tags) && h in rings && t in rings && rings[h] != [] && rings[t] != []
    requires rings[h][0] != rings[t][0]
    ensures t !in rings[h]
  {
    assert Grouped(rings, tags, h);
  }

  lemma {:induction false} PosMonotone(segs: Segments, m: nat, n: nat)
    requires m < n <= GROUP_MAX
    ensures Pos(segs, m) < Pos(segs, n)
  {
    if m < n - 1 { PosMonotone(segs, m, n - 1); }
  }

  lemma InsertedInto(before: Rings, h: Node, node: Node)
    requires h in before && h in before[h] && node !in before
    ensures forall n: Node :: n in before ==> (n in Inserted(before[h], h, node) <==> n in before[h])
  {
    forall n: Node | n in before { InsertedAt(before[h], h, node, n); }
  }

  lemma PlaceOf(j: nat, u: nat)
    requires 1 <= j <= GROUP_MAX && u < GROUP_MAX
    ensures if u >= j then Place(j, u) == u else Place(j, u) < j
  {
  }

  /** UtList_Add puts a node at the end of a segment. */
  lemma GrowArranges(before: Rings, after: Rings, tags: seq<Node>, segs: Segments, j: nat, u: nat, node: Node)
    requires Grouping(before, tags) && DistinctRings(before) && Arranged(before, tags, segs, j) && u < GROUP_MAX
    requires Grew(before, after, tags[u], node) && node !in before
    ensures var p := Place(j, u); Arranged(after, tags, segs[p := segs[p] + [node]], j)
  {
    hide Distinct;
    hide DistinctRings;
    hide Layout;
    hide Regrouped;
    hide Inserted;
    hide Place;
    var p := Place(j, u);
    var grown := segs[p := segs[p] + [node]];
    var h := tags[u];
    var q := Inserted(before[h], h, node);
    assert Regrouped(before, q, after);
    InsertedInto(before, h, node);
    PlaceOf(j, u);
    if u >= j {
      GrowOwn(before, tags, segs, j, u, node);
    } else {
      GrowShared(before, tags, segs, j, u, node);
    }
    assert tags[u] in before && tags[u] in before[tags[u]];
    hide Grouping;
    hide Arranged;
    GrowOthers(before, after, tags, segs, grown, j, u, q);
  }

  /** A tag with a ring of its own: the node becomes the last of it. */
  lemma GrowOwn(before: Rings, tags: seq<Node>, segs: Segments, j: nat, u: nat, node: Node)
    requires Grouping(before, tags) && DistinctRings(before) && Arranged(before, tags, segs, j) && j <= u < GROUP_MAX
    ensures var h := tags[u];
      var grown := segs[u := segs[u] + [node]];
      && h in before && h in before[h] && h !in before[tags[0]]
      && Inserted(before[h], h, node) == [h] + grown[u]
      && Layout(tags, grown, j) == Layout(tags, segs, j)
  {
    var h := tags[u];
    assert Grouped(before, tags, h);
    LayoutHead(tags, segs, j);
    IndexUnique(before[h], h, 0);
    OwnRing(before, tags, tags[0], h);
    LayoutSame(tags, segs, segs[u := segs[u] + [node]], j);
  }

  /** A tag in the common ring: the node lands in front of its head. */
  lemma GrowShared(before: Rings, tags: seq<Node>, segs: Segments, j: nat, u: nat, node: Node)
    requires Grouping(before, tags) && DistinctRings(before) && Arranged(before, tags, segs, j) && u < j
    ensures var h := tags[u];
      var p := Place(j, u);
      var grown := segs[p := segs[p] + [node]];
      && h in before && h in before[h] && h in before[tags[0]]
      && Inserted(before[h], h, node) == Layout(tags, grown, j)
  {
    hide Layout;
    hide Pos;
    hide Inserted;
    SharedRing(before, tags, segs, j, u);
    hide Grouping;
    hide DistinctRings;
    hide Distinct;
    hide Arranged;
    var at := Pos(segs, u);
    var r := Layout(tags, segs, j);
    IndexUnique(r, tags[u], at);
    LayoutGrows(tags, segs, Place(j, u), node, j);
    LayoutLength(tags, segs, j);
    PosNext(segs, 0);
    if u > 0 { PosMonotone(segs, 0, u); }
    InsertedAtPlace(r, tags[u], node, at);
  }

  /** The common ring is that of each of its tags. */
  lemma SharedRing(before: Rings, tags: seq<Node>, segs: Segments, j: nat, u: nat)
    requires Grouping(before, tags) && DistinctRings(before) && Arranged(before, tags, segs, j) && u < j
    ensures var r := Layout(tags, segs, j);
      && tags[u] in before && before[tags[u]] == r == before[tags[0]] && tags[u] in r && Distinct(r)
      && Pos(segs, u) < |r| && r[Pos(segs, u)] == tags[u]
  {
    hide Layout;
    hide Pos;
    hide Distinct;
    LayoutAt(tags, segs, u, j);
    assert Grouped(before, tags, tags[u]) && Grouped(before, tags, tags[0]);
  }

  lemma InsertedAtPlace(r: seq<Node>, h: Node, node: Node, at: nat)
    requires h in r && IndexOf(r, h) == at
    ensures Inserted(r, h, node) == if at == 0 then r[..|r|] + [node] + r[|r|..] else r[..at] + [node] + r[at..]
  {
  }

  /** The head of a tag with a ring of its own is in no other tag's ring. */
  lemma OtherHead(before: Rings, tags: seq<Node>, segs: Segments, j: nat, u: nat, i: nat)
    requires Grouping(before, tags) && Arranged(before, tags, segs, j) && u < GROUP_MAX && j <= i < GROUP_MAX && i != u
    requires tags[u] in before
    ensures tags[i] in before && tags[i] !in before[tags[u]]
  {
    LayoutHead(tags, segs, j);
    hide Layout;
    assert tags[u] in tags && Grouped(before, tags, tags[u]) && Grouped(before, tags, tags[0]);
  }

  lemma GrowOthers(before: Rings, after: Rings, tags: seq<Node>, segs: Segments, grown: Segments, j: nat, u: nat,
    q: seq<Node>)
    requires Grouping(before, tags) && Arranged(before, tags, segs, j) && u < GROUP_MAX
    requires tags[u] in before && tags[u] in before[tags[u]]
    requires Regrouped(before, q, after) && q != []
    requires forall n: Node :: n in before ==> (n in q <==> n in before[tags[u]])
    requires forall i :: j <= i < GROUP_MAX && i != u ==> grown[i] == segs[i]
    requires if u < j then tags[u] in before[tags[0]] && q == Layout(tags, grown, j)
      else
        && tags[u] !in before[tags[0]] && q == [tags[u]] + grown[u]
        && Layout(tags, grown, j) == Layout(tags, segs, j)
    ensures Arranged(after, tags, grown, j)
  {
    hide Layout;
    var h := tags[u];
    LayoutHead(tags, segs, j);
    assert forall n :: n in before ==> n in after && after[n] == if n in q then q else before[n];
    hide Regrouped;
    assert tags[0] in tags && Grouped(before, tags, tags[0]) && Grouped(before, tags, h);
    assert before[tags[0]][0] == tags[0];
    assert after[tags[0]] == Layout(tags, grown, j) by { hide Distinct; }
    forall i | j <= i < GROUP_MAX ensures tags[i] in after && after[tags[i]] == [tags[i]] + grown[i] {
      assert tags[i] in tags && Grouped(before, tags, tags[i]);
      if i != u { OtherHead(before, tags, segs, j, u, i); }
    }
  }

  /** Where the run is when it is about to look at the `k`-th node of segment `g`. */
  ghost function Cursor(tags: seq<Node>, segs: Segments, g: nat, k: nat): Node
    requires |tags| == GROUP_MAX && g < GROUP_MAX && k <= |segs[g]|
  {
    if k < |segs[g]| then segs[g][k] else if g + 1 < GROUP_MAX then tags[g + 1] else tags[0]
  }

  /** The links of the layout lead from each cursor to the next. */
  lemma NextOfCursor(tags: seq<Node>, segs: Segments, g: nat, k: nat)
    requires |tags| == GROUP_MAX && g < GROUP_MAX && k <= |segs[g]| && Ring(Layout(tags, segs, GROUP_MAX))
    ensures (if k == 0 then tags[g] else segs[g][k - 1]).next == Cursor(tags, segs, g, k)
  {
    hide Ring;
    hide Layout;
    hide Pos;
    var r := Layout(tags, segs, GROUP_MAX);
    var at := Pos(segs, g) + k;
    LayoutAt(tags, segs, g, GROUP_MAX);
    LayoutAt(tags, segs, 0, GROUP_MAX);
    LayoutLength(tags, segs, GROUP_MAX);
    if g + 1 < GROUP_MAX { LayoutAt(tags, segs, g + 1, GROUP_MAX); }
    PosNext(segs, g);
    assert r[at] == if k == 0 then tags[g] else segs[g][k - 1];
    RingNext(r, at);
  }

  lemma PosNext(segs: Segments, g: nat)
    requires g < GROUP_MAX
    ensures Pos(segs, g + 1) == Pos(segs, g) + 1 + |segs[g]| && Pos(segs, 0) == 0
  {
  }

  lemma RingNext(r: seq<Node>, i: nat)
    requires Ring(r) && i < |r|
    ensures r[i].next == if i + 1 < |r| then r[i + 1] else r[0]
  {
  }

  /** Only the end of the last segment looks like the end of the run. */
  lemma CursorAtEnd(tags: seq<Node>, segs: Segments, g: nat, k: nat)
    requires |tags| == GROUP_MAX && g < GROUP_MAX && k <= |segs[g]| && Ring(Layout(tags, segs, GROUP_MAX))
    ensures Cursor(tags, segs, g, k) == tags[0] <==> g + 1 == GROUP_MAX && k == |segs[g]|
  {
    assert Cursor(tags, segs, g, k) ==
      if k < |segs[g]| then segs[g][k] else if g + 1 < GROUP_MAX then tags[g + 1] else tags[0];
    var r := Layout(tags, segs, GROUP_MAX);
    LayoutAt(tags, segs, g, GROUP_MAX);
    LayoutAt(tags, segs, 0, GROUP_MAX);
    if g + 1 < GROUP_MAX { LayoutAt(tags, segs, g + 1, GROUP_MAX); }
    assert Pos(segs, g + 1) == Pos(segs, g) + 1 + |segs[g]| && Pos(segs, 0) == 0;
    RingDistinct(r);
    hide *;
    if k < |segs[g]| {
      ApartInOrder(r, 0, Pos(segs, g) + 1 + k);
    } else if g + 1 < GROUP_MAX {
      ApartInOrder(r, 0, Pos(segs, g + 1));
    }
  }

  lemma ApartInOrder<X>(r: seq<X>, i: nat, j: nat)
    requires Distinct(r) && i < j < |r|
    ensures r[i] != r[j]
  {
  }
}
