/**
 The circular, tagged lists of utlist.c. A ring is a sequence of nodes in which each
 node's successor is the next and the last leads back to the first.
 */
module UtList {
  import opened Wrappers
  import UtTestEntry

  /** What the framework keeps in its lists. */
  type Data = UtTestEntry.Entry

  /** A node; the heads of the tags carry no data. */
  class Node {
    var next: Node
    var prev: Node
    const data: Option<Data>
    const tag: nat

    /** UtList_NewNode, and the loop of UtList_Create: a ring of one. */
    constructor (data: Option<Data>, tag: nat)
      ensures this.data == data && this.tag == tag
      ensures Ring([this])
    {
      this.data := data;
      this.tag := tag;
      next := this;
      prev := this;
    }
  }

  ghost predicate Distinct<X>(s: seq<X>) {
    forall i, j :: 0 <= i < j < |s| ==> s[i] != s[j]
  }

  /** Each node is linked to the next one, both ways. */
  ghost predicate Chain(s: seq<Node>)
    reads s
  {
    forall i :: 0 <= i < |s| - 1 ==> s[i].next == s[i + 1] && s[i + 1].prev == s[i]
  }

  ghost predicate Ring(r: seq<Node>)
    reads r
  {
    && r != []
    && Distinct(r)
    && Chain(r)
    && r[|r| - 1].next == r[0]
    && r[0].prev == r[|r| - 1]
  }

  function Rotated<X>(r: seq<X>, k: nat): (q: seq<X>)
    requires k <= |r|
    ensures |q| == |r|
  {
    r[k..] + r[..k]
  }

  /** The i-th node of a rotation. */
  lemma RotatedAt<X>(r: seq<X>, k: nat, i: nat)
    requires k <= |r| && i < |r|
    ensures Rotated(r, k)[i] == if i < |r| - k then r[k + i] else r[i - (|r| - k)]
  {
  }

  /** A ring has no first node. */
  lemma RotateRing(r: seq<Node>, k: nat)
    requires Ring(r) && k <= |r|
    ensures Ring(Rotated(r, k))
  {
    var q := Rotated(r, k);
    if k == |r| {
      assert q == r;
      return;
    }
    hide Rotated;
    var m := |r| - k;
    forall i | 0 <= i < |r| - 1
      ensures q[i].next == q[i + 1] && q[i + 1].prev == q[i]
    {
      RotatedAt(r, k, i);
      RotatedAt(r, k, i + 1);
      if i + 1 < m { assert r[k + i].next == r[k + i + 1]; }
      else if i >= m { assert r[i - m].next == r[i - m + 1]; }
    }
    forall i, j | 0 <= i < j < |q| ensures q[i] != q[j] {
      RotatedAt(r, k, i);
      RotatedAt(r, k, j);
    }
    RotatedAt(r, k, 0);
    RotatedAt(r, k, |r| - 1);
    if k > 0 { assert r[k - 1].next == r[k - 1 + 1]; }
  }

  lemma ChainAppend(s: seq<Node>, t: seq<Node>)
    requires s != [] && t != []
    ensures Chain(s + t) <==> Chain(s) && Chain(t) && s[|s| - 1].next == t[0] && t[0].prev == s[|s| - 1]
  {
    var r := s + t;
    assert r[|s| - 1] == s[|s| - 1] && r[|s| - 1 + 1] == t[0];
    if Chain(r) {
      forall i | 0 <= i < |s| - 1 ensures s[i].next == s[i + 1] && s[i + 1].prev == s[i] {
        assert r[i] == s[i] && r[i + 1] == s[i + 1];
      }
      forall i | 0 <= i < |t| - 1 ensures t[i].next == t[i + 1] && t[i + 1].prev == t[i] {
        var k := |s| + i;
        assert r[k] == t[i] && r[k + 1] == t[i + 1];
      }
    }
  }

  lemma DistinctAppend<X>(s: seq<X>, t: seq<X>)
    ensures Distinct(s + t) <==>
      && Distinct(s) && Distinct(t)
      && forall i, j :: 0 <= i < |s| && 0 <= j < |t| ==> s[i] != t[j]
  {
    var r := s + t;
    if Distinct(r) {
      forall i, j | 0 <= i < |s| && 0 <= j < |t| ensures s[i] != t[j] {
        assert r[i] == s[i] && r[|s| + j] == t[j];
      }
      forall i, j | 0 <= i < j < |s| ensures s[i] != s[j] {
        assert r[i] == s[i] && r[j] == s[j];
      }
      forall i, j | 0 <= i < j < |t| ensures t[i] != t[j] {
        assert r[|s| + i] == t[i] && r[|s| + j] == t[j];
      }
    }
  }

  /** UtList_Merge: two rings become one, one ring falls back into two, and merging a head with itself
      changes nothing. */
  method Merge(h1: Node, h2: Node, ghost r1: seq<Node>, ghost r2: seq<Node>)
    requires r1 != [] && r2 != [] && h1 == r1[0] && h2 == r2[0]
    requires Ring(r1 + r2) || (Ring(r1) && Ring(r2) && (h1 == h2 || Distinct(r1 + r2)))
    modifies h1, h2, h1.prev, h2.prev
    ensures h1 != h2 && old(Ring(r1 + r2)) ==> Ring(r1) && Ring(r2)
    ensures h1 != h2 && old(Ring(r1) && Ring(r2)) ==> Ring(r1 + r2)
    ensures h1 == h2 ==> unchanged(h1, old(h1.prev))
  {
    ghost var r := r1 + r2;
    assert r[0] == h1 && r[|r| - 1] == r2[|r2| - 1];
    ChainAppend(r1, r2);
    DistinctAppend(r1, r2);
    var tail1 := h1.prev;
    var tail2 := h2.prev;
    assert h1 != h2 ==> {tail1, tail2} == {r1[|r1| - 1], r2[|r2| - 1]};
    tail1.next := h2;
    tail2.next := h1;
    h1.prev := tail2;
    h2.prev := tail1;
    if h1 != h2 {
      assert Chain(r1) && Chain(r2);
      ChainAppend(r1, r2);
    }
  }

  /** UtList_Insert_Before, at the head of a ring: the new node becomes its last. */
  method InsertBefore(existing: Node, node: Node, ghost r: seq<Node>)
    requires Ring(r) && r[0] == existing && node !in r
    modifies node, existing, existing.prev
    ensures Ring(r + [node])
  {
    node.next := existing;
    node.prev := existing.prev;
    node.prev.next := node;
    node.next.prev := node;
  }

  /** UtList_Insert_After. */
  method InsertAfter(existing: Node, node: Node, ghost r: seq<Node>)
    requires Ring(r) && r[0] == existing && node !in r
    modifies node, existing, existing.next
    ensures Ring([existing, node] + r[1..])
  {
    ghost var q := [existing, node] + r[1..];
    ghost var second := existing.next;
    assert second == if |r| == 1 then r[0] else r[0 + 1];
    node.next := existing.next;
    node.prev := existing;
    node.prev.next := node;
    node.next.prev := node;
    forall i | 2 <= i < |q| - 1 ensures q[i].next == q[i + 1] && q[i + 1].prev == q[i] {
      ghost var k := i - 1;
      assert q[i] == r[k] && q[i + 1] == r[k + 1];
      assert old(r[k].next == r[k + 1] && r[k + 1].prev == r[k]);
      assert r[0] != r[k] && r[1] != r[k + 1] && r[0] != r[k + 1];
      assert r[k] in r && r[k + 1] in r;
    }
    assert q[1].next == q[if |r| == 1 then 0 else 2];
    forall i, j | 0 <= i < j < |q| ensures q[i] != q[j] {
      if i >= 2 { assert q[i] == r[i - 1]; }
      if j >= 2 { assert q[j] == r[j - 1]; }
    }
  }

  /** The place of a node in its ring. */
  ghost function IndexOf<X>(r: seq<X>, x: X): (i: nat)
    requires x in r
    ensures i < |r| && r[i] == x
  {
    var i: nat :| i < |r| && r[i] == x;
    i
  }

  /** A ring without one of its nodes. */
  ghost function Removed<X>(r: seq<X>, x: X): (q: seq<X>)
    requires x in r
    ensures |q| == |r| - 1
  {
    var i := IndexOf(r, x);
    r[..i] + r[i + 1..]
  }

  lemma RemovedParts<X>(r: seq<X>, x: X)
    requires Distinct(r) && x in r
    ensures forall y :: y in Removed(r, x) <==> y in r && y != x
    ensures r[0] != x ==> Removed(r, x) != [] && Removed(r, x)[0] == r[0]
  {
    var i := IndexOf(r, x);
    assert r == r[..i] + [x] + r[i + 1..];
  }

  /** UtList_Extract: the node is on its own, and the others, if any, still form a ring. */
  method Extract(node: Node, ghost r: seq<Node>)
    requires Ring(r) && node in r
    modifies node, node.next, node.prev
    ensures Ring([node])
    ensures |r| > 1 ==> Ring(Removed(r, node))
  {
    hide Ring;
    hide Rotated;
    hide Removed;
    ghost var i := IndexOf(r, node);
    ghost var k := if i == 0 then |r| - 1 else i - 1;
    RotateRing(r, k);
    ghost var from := Rotated(r, k);
    RotatedAt(r, k, if |r| == 1 then 0 else 1);
    ExtractSecond(node, from);
    if |r| > 1 {
      RotateRing([from[0]] + from[2..], if i == 0 then 1 else |r| - i);
      RemovedRotated(r, node);
    }
  }

  /** The ring without the second node, counted from where it was before. */
  lemma RemovedRotated(r: seq<Node>, node: Node)
    requires |r| > 1 && node in r
    ensures var i := IndexOf(r, node);
      var from := Rotated(r, if i == 0 then |r| - 1 else i - 1);
      Removed(r, node) == Rotated([from[0]] + from[2..], if i == 0 then 1 else |r| - i)
  {
    if IndexOf(r, node) == 0 { WithoutFirst(r); } else { WithoutLater(r, IndexOf(r, node)); }
  }

  lemma WithoutFirst(r: seq<Node>)
    requires |r| > 1
    ensures var from := Rotated(r, |r| - 1);
      r[1..] == Rotated([from[0]] + from[2..], 1)
  {
    assert Rotated(r, |r| - 1) == [r[|r| - 1], r[0]] + r[1..|r| - 1];
    var q := [r[|r| - 1]] + r[1..|r| - 1];
    assert q[1..] == r[1..|r| - 1] && q[..1] == [r[|r| - 1]];
  }

  lemma WithoutLater(r: seq<Node>, i: nat)
    requires 0 < i < |r|
    ensures var from := Rotated(r, i - 1);
      r[..i] + r[i + 1..] == Rotated([from[0]] + from[2..], |r| - i)
  {
    assert Rotated(r, i - 1) == [r[i - 1], r[i]] + (r[i + 1..] + r[..i - 1]);
    var q := [r[i - 1]] + (r[i + 1..] + r[..i - 1]);
    assert q[..|r| - i] == [r[i - 1]] + r[i + 1..] && q[|r| - i..] == r[..i - 1];
  }

  /** The work of UtList_Extract, on the second node of a ring or the only one. */
  method ExtractSecond(node: Node, ghost r: seq<Node>)
    requires Ring(r) && node == r[if |r| == 1 then 0 else 1]
    modifies node, node.next, node.prev
    ensures Ring([node])
    ensures |r| > 1 ==> Ring([r[0]] + r[2..])
  {
    ghost var q := if |r| == 1 then [] else [r[0]] + r[2..];
    assert node.prev == r[0] by { assert |r| > 1 ==> r[0].next == r[0 + 1]; }
    assert node.next == if |r| <= 2 then r[0] else r[1 + 1];
    node.next.prev := node.prev;
    node.prev.next := node.next;
    node.next := node;
    node.prev := node;
    forall i | 1 <= i < |q| - 1 ensures q[i].next == q[i + 1] && q[i + 1].prev == q[i] {
      ghost var k := i + 1;
      assert q[i] == r[k] && q[i + 1] == r[k + 1];
      assert old(r[k].next == r[k + 1] && r[k + 1].prev == r[k]);
      assert r[0] != r[k] && r[1] != r[k] && r[1] != r[k + 1] && r[2] != r[k + 1];
    }
    assert |r| > 1 ==> q[|q| - 1] == if |r| == 2 then r[0] else r[|r| - 1];
    forall i, j | 0 <= i < j < |q| ensures q[i] != q[j] {
      if i >= 1 { assert q[i] == r[i + 1]; }
      assert q[j] == r[j + 1];
    }
  }

  // ---- Several rings at once

  /** The ring of each node. */
  type Rings = map<Node, seq<Node>>

  /** A node's ring holds it, is the ring of all its nodes, and starts with the head of a
      tag; exactly the heads carry no data. */
  ghost predicate Grouped(rings: Rings, tags: seq<Node>, n: Node)
    requires n in rings
  {
    && n in rings[n]
    && rings[n][0] in tags
    && (forall m :: m in rings[n] ==> m in rings && rings[m] == rings[n])
    && (n.data.None? <==> n in tags)
  }

  /** The nodes are divided among rings. */
  ghost predicate Grouping(rings: Rings, tags: seq<Node>) {
    && Distinct(tags)
    && (forall t :: t in tags ==> t in rings)
    && (forall n {:trigger Grouped(rings, tags, n)} :: n in rings ==> Grouped(rings, tags, n))
  }

  /** The rings are as they should be in memory. */
  ghost predicate AllRings(rings: Rings, tags: seq<Node>)
    requires Grouping(rings, tags)
    reads rings.Keys
  {
    forall n {:trigger Grouped(rings, tags, n)} :: n in rings ==> Grouped(rings, tags, n) && Ring(rings[n])
  }

  /** `g` is the grouping after the nodes of `r` have been joined into that ring; `r` may bring in new nodes. */
  ghost predicate Regrouped(rings: Rings, r: seq<Node>, g: Rings) {
    && (forall n :: n in rings ==> n in g)
    && (forall n :: n in r ==> n in g)
    && (forall n :: n in g ==> n in r || n in rings)
    && (forall n :: n in g ==> g[n] == if n in r then r else rings[n])
  }

  ghost function Regroup(rings: Rings, r: seq<Node>): (g: Rings)
    ensures Regrouped(rings, r, g)
  {
    map n | n in rings.Keys + (set m | m in r) :: if n in r then r else rings[n]
  }

  lemma RegroupedAt(rings: Rings, r: seq<Node>, g: Rings, n: Node)
    requires Regrouped(rings, r, g)
    ensures n in g <==> n in rings || n in r
  {
  }

  /** A set of nodes that takes whole rings. */
  ghost predicate Closed(rings: Rings, r: seq<Node>) {
    forall n, m :: n in rings && m in rings[n] ==> (n in r <==> m in r)
  }

  lemma RegroupClosed(rings: Rings, tags: seq<Node>, r: seq<Node>, g: Rings)
    requires Grouping(rings, tags) && Closed(rings, r) && r != [] && r[0] in tags && Regrouped(rings, r, g)
    requires forall n: Node :: n in r ==> n in rings || (n.data.Some? && n !in tags)
    ensures Grouping(g, tags)
  {
    forall n | n in g ensures Grouped(g, tags, n) {
      if n in rings { assert Grouped(rings, tags, n); }
      if n !in r {
        forall m | m in g[n] ensures m in g && g[m] == g[n] {
          assert m in rings[n];
        }
      }
    }
  }

  /** The ring of a node, started at that node. */
  ghost function From(rings: Rings, h: Node): (r: seq<Node>)
    requires h in rings && h in rings[h]
    ensures |r| == |rings[h]| > 0 && r[0] == h
    ensures (forall n :: n in r ==> n in rings[h]) && (forall n :: n in rings[h] ==> n in r)
  {
    var i := IndexOf(rings[h], h);
    assert rings[h] == rings[h][..i] + rings[h][i..];
    Rotated(rings[h], i)
  }

  lemma FromIsRing(rings: Rings, tags: seq<Node>, h: Node)
    requires Grouping(rings, tags) && AllRings(rings, tags) && h in rings
    ensures Grouped(rings, tags, h) && Ring(From(rings, h))
  {
    assert Grouped(rings, tags, h);
    RotateRing(rings[h], IndexOf(rings[h], h));
  }

  /** A ring with `node` inserted in front of `h`, which at the front of the ring is its end. */
  ghost function Inserted(r: seq<Node>, h: Node, node: Node): (q: seq<Node>)
    requires h in r
    ensures q != [] && q[0] == r[0]
    ensures node in q && (forall n :: n in r ==> n in q) && (forall n :: n in q ==> n in r || n == node)
  {
    var i := IndexOf(r, h);
    if i == 0 then r + [node]
    else
      assert r == r[..i] + r[i..];
      r[..i] + [node] + r[i..]
  }

  lemma InsertedAt(r: seq<Node>, h: Node, node: Node, n: Node)
    requires h in r
    ensures n in Inserted(r, h, node) <==> n in r || n == node
  {
  }

  /** Seen from `h`, the inserted node is the last of the ring. */
  lemma InsertedIsLast(r: seq<Node>, h: Node, node: Node)
    requires h in r
    ensures var i := IndexOf(r, h); var q := Rotated(r, i) + [node];
      Inserted(r, h, node) == if i == 0 then q else Rotated(q, |r| - i)
  {
    var i := IndexOf(r, h);
    var first, second := r[..i], r[i..];
    var q := second + first + [node];
    assert Rotated(r, i) + [node] == q;
    if i > 0 {
      assert Inserted(r, h, node) == first + [node] + second;
      hide *;
      assert q[..|r| - i] == second && q[|r| - i..] == first + [node];
      assert (first + [node]) + second == Rotated(q, |r| - i) by { RotatedParts(q, |r| - i); }
    }
  }

  lemma RotatedParts<X>(r: seq<X>, k: nat)
    requires k <= |r|
    ensures Rotated(r, k) == r[k..] + r[..k]
  {
  }

  /** UtList_Insert_Before at any node of a ring. */
  method InsertInto(h: Node, node: Node, ghost r: seq<Node>)
    requires Ring(r) && h in r && node !in r
    modifies node, h, h.prev
    ensures Ring(Inserted(r, h, node))
  {
    ghost var i := IndexOf(r, h);
    RotateRing(r, i);
    ghost var from := Rotated(r, i);
    RotatedAt(r, i, 0);
    assert forall n :: n in from ==> n in r;
    InsertBefore(h, node, from);
    InsertedIsLast(r, h, node);
    if i > 0 { RotateRing(from + [node], |r| - i); }
  }

  lemma PrevInRing(r: seq<Node>, h: Node)
    requires Ring(r) && h in r
    ensures h.prev in r && h.next in r
  {
    var i := IndexOf(r, h);
    if i > 0 { assert r[i - 1].next == r[i - 1 + 1]; }
    if i < |r| - 1 { assert r[i].next == r[i + 1]; }
  }

  /** The rings that lie outside a changed set of nodes are in order. */
  ghost predicate RingsOutside(rings: Rings, tags: seq<Node>, q: seq<Node>)
    requires Grouping(rings, tags)
    reads rings.Keys
  {
    forall n {:trigger Grouped(rings, tags, n)} :: n in rings && n !in q ==> Grouped(rings, tags, n) && Ring(rings[n])
  }

  /** Joining the nodes of a closed set into one ring keeps the list in order. */
  lemma RegroupKeeps(rings: Rings, tags: seq<Node>, q: seq<Node>, g: Rings)
    requires Grouping(rings, tags) && RingsOutside(rings, tags, q)
    requires Closed(rings, q) && Ring(q) && q[0] in tags && Regrouped(rings, q, g)
    requires forall n: Node :: n in q ==> n in rings || (n.data.Some? && n !in tags)
    ensures Grouping(g, tags) && AllRings(g, tags)
  {
    RegroupClosed(rings, tags, q, g);
    forall n | n in g ensures Ring(g[n]) {
      if n !in q { assert Grouped(rings, tags, n); }
    }
  }

  lemma InsertedClosed(rings: Rings, tags: seq<Node>, h: Node, node: Node)
    requires Grouping(rings, tags) && h in rings && node !in rings
    ensures Grouped(rings, tags, h) && Closed(rings, Inserted(rings[h], h, node))
  {
    assert Grouped(rings, tags, h);
    forall n, m | n in rings && m in rings[n]
      ensures n in Inserted(rings[h], h, node) <==> m in Inserted(rings[h], h, node)
    {
      assert Grouped(rings, tags, n);
    }
  }

  /** `after` is `before` with `node` inserted in front of `h`. */
  ghost predicate Grew(before: Rings, after: Rings, h: Node, node: Node) {
    && h in before && h in before[h]
    && Regrouped(before, Inserted(before[h], h, node), after)
  }

  /** The list head of utlist.c: the heads of its tags, and a record of the nodes freed. */
  class ListHead {
    const tags: seq<Node>
    ghost var rings: Rings
    var freed: seq<Node>

    ghost predicate Valid()
      reads this, rings.Keys
    {
      && Grouping(rings, tags)
      && AllRings(rings, tags)
      && Distinct(freed)
      && (forall n: Node :: n in freed ==> n !in rings && n.data.Some?)
    }

    /** Rings outside a set of changed nodes stay in order. */
    twostate lemma OutsideKept(new q: seq<Node>)
      requires old(Valid()) && rings == old(rings) && Closed(rings, q)
      requires forall m: Node :: m in rings && m !in q ==> m.next == old(m.next) && m.prev == old(m.prev)
      ensures RingsOutside(rings, tags, q)
    {
      forall n | n in rings && n !in q ensures Grouped(rings, tags, n) && Ring(rings[n]) {
        assert Grouped(rings, tags, n);
        assert old(Ring(rings[n]));
        assert forall m :: m in rings[n] ==> m in rings && m !in q;
      }
    }

    /** UtList_Create: each tag starts as a ring of its own. */
    constructor (numTags: nat)
      ensures Valid() && |tags| == numTags && freed == []
      ensures forall i :: 0 <= i < |tags| ==> fresh(tags[i]) && tags[i].tag == i
      ensures rings == map t | t in tags :: [t]
    {
      var heads: seq<Node> := [];
      while |heads| < numTags
        invariant |heads| <= numTags && Distinct(heads)
        invariant forall i :: 0 <= i < |heads| ==> fresh(heads[i]) && heads[i].tag == i && heads[i].data.None?
        invariant forall t :: t in heads ==> Ring([t])
      {
        var head := new Node(None, |heads|);
        heads := heads + [head];
      }
      tags := heads;
      rings := map t | t in heads :: [t];
      freed := [];
    }

    /** Takes over a new grouping. */
    ghost method Adopt(g: Rings)
      requires Grouping(g, tags) && AllRings(g, tags) && Distinct(freed)
      requires forall n: Node :: n in freed ==> n !in g && n.data.Some?
      modifies this`rings
      ensures rings == g && Valid()
    {
      hide Grouping;
      rings := g;
    }

    /** UtList_Add: a new node in front of the head of its tag; an unknown tag is ignored. */
    method Add(data: Data, tag: nat) returns (ghost added: Option<Node>)
      requires Valid()
      modifies this, rings.Keys
      ensures Valid() && freed == old(freed)
      ensures tag >= |tags| ==> added == None && rings == old(rings)
      ensures tag < |tags|
        ==> added.Some? && fresh(added.value) && added.value.data == Some(data) && added.value.tag == tag
      ensures tag < |tags| ==> Grew(old(rings), rings, tags[tag], added.value)
    {
      hide Regrouped;
      hide Inserted;
      hide Closed;
      hide IndexOf;
      hide Ring;
      hide RingsOutside;
      added := None;
      if tag < |tags| {
        var h := tags[tag];
        assert Grouped(rings, tags, h);
        ghost var r := rings[h];
        PrevInRing(r, h);
        var node := new Node(Some(data), tag);
        added := Some(node);
        InsertInto(h, node, r);
        ghost var q := Inserted(r, h, node);
        assert Closed(rings, q) by { InsertedClosed(rings, tags, h, node); }
        ghost var g := Regroup(rings, q);
        OutsideKept(q);
        RegroupKeeps(rings, tags, q, g);
        forall n | n in freed ensures n !in g {
          RegroupedAt(rings, q, g, n);
          InsertedAt(r, h, node, n);
        }
        Adopt(g);
      }
    }

    /** Counts the ring of `h` from `h`; nothing moves. */
    ghost method Rebase(h: Node)
      requires Valid() && h in tags
      modifies this`rings
      ensures Valid()
      ensures h in old(rings) && h in old(rings)[h] && Regrouped(old(rings), From(old(rings), h), rings)
    {
      hide Regrouped;
      hide From;
      assert Grouped(rings, tags, h);
      FromIsRing(rings, tags, h);
      var q := From(rings, h);
      RingClosed(rings, tags, h, q);
      var g := Regroup(rings, q);
      OutsideInOrder(rings, tags, q);
      RegroupKeeps(rings, tags, q, g);
      forall n | n in freed ensures n !in g { RegroupedAt(rings, q, g, n); }
      Adopt(g);
    }

    /** What a merge of two heads works on: their rings, or the two parts of their common ring. */
    ghost method Parts(h1: Node, h2: Node) returns (r1: seq<Node>, r2: seq<Node>)
      requires Valid() && h1 in tags && h2 in tags && h1 != h2
      ensures h1 in rings && h2 in rings && h1 in rings[h1]
      ensures r1 != [] && r2 != [] && r1[0] == h1 && r2[0] == h2
      ensures h1.prev in r1 + r2 && h2.prev in r1 + r2 && forall n :: n in r1 + r2 ==> n in rings
      ensures Closed(rings, r1 + r2) && Distinct(r1 + r2) && Apart(r1, r2)
      ensures if h2 in rings[h1] then
                var r := From(rings, h1);
                && h2 in r && r1 == r[..IndexOf(r, h2)] && r2 == r[IndexOf(r, h2)..] && Ring(r1 + r2)
              else r1 == From(rings, h1) && h2 in rings[h2] && r2 == From(rings, h2) && Ring(r1) && Ring(r2)
    {
      hide Closed;
      hide Ring;
      assert Grouped(rings, tags, h1) && Grouped(rings, tags, h2);
      FromIsRing(rings, tags, h1);
      FromIsRing(rings, tags, h2);
      if h2 in rings[h1] {
        var r := From(rings, h1);
        var k := IndexOf(r, h2);
        r1, r2 := r[..k], r[k..];
        assert r1 + r2 == r;
        RingClosed(rings, tags, h1, r);
        RingDistinct(r);
        PrevInRing(r, h1);
        PrevInRing(r, h2);
      } else {
        r1, r2 := From(rings, h1), From(rings, h2);
        ApartDistinct(rings, tags, h1, h2);
        JoinClosed(rings, tags, h1, h2);
        PrevInRing(r1, h1);
        PrevInRing(r2, h2);
      }
      DistinctAppend(r1, r2);
    }

    /** UtList_Merge of the heads of two tags: their rings become one, or, if they are in one
        ring already, that ring falls apart in front of the second head. A head merged with
        itself changes nothing. */
    method MergeTags(i: nat, j: nat)
      requires Valid() && i < |tags| && j < |tags|
      modifies this`rings, rings.Keys
      ensures Valid()
      ensures tags[i] in old(rings)
      ensures if i == j then rings == old(rings)
              else if tags[j] in old(rings)[tags[i]] then Parted(old(rings), tags[i], tags[j], rings)
              else Joined(old(rings), tags[i], tags[j], rings)
    {
      hide Closed;
      hide From;
      hide Ring;
      hide RingsOutside;
      hide Regrouped;
      hide IsPart;
      hide Apart;
      var h1, h2 := tags[i], tags[j];
      if i == j {
        ghost var r := Own(h1);
        Merge(h1, h1, r, r);
      } else {
        ghost var r1, r2 := Parts(h1, h2);
        Merge(h1, h2, r1, r2);
        OutsideKept(r1 + r2);
        ghost var g := AfterMerge(old(h2 in rings[h1]), r1, r2);
        Adopt(g);
      }
    }

    /** The ring of a head, counted from there. */
    ghost method Own(h: Node) returns (r: seq<Node>)
      requires Valid() && h in tags
      ensures h in rings && r != [] && r[0] == h && Ring(r) && h.prev in rings
    {
      FromIsRing(rings, tags, h);
      r := From(rings, h);
      PrevInRing(r, h);
    }

    /** The grouping after a merge of `r1` and `r2`, which were one ring or two. */
    ghost method AfterMerge(one: bool, r1: seq<Node>, r2: seq<Node>) returns (g: Rings)
      requires Grouping(rings, tags) && RingsOutside(rings, tags, r1 + r2)
      requires Closed(rings, r1 + r2) && Apart(r1, r2) && r1 != [] && r2 != [] && r1[0] in tags && r2[0] in tags
      requires if one then Ring(r1) && Ring(r2) else Ring(r1 + r2)
      requires forall n: Node :: n in r1 + r2 ==> n in rings
      requires Distinct(freed) && forall n: Node :: n in freed ==> n !in rings && n.data.Some?
      ensures Grouping(g, tags) && AllRings(g, tags)
      ensures if one then IsPart(rings, r1, r2, g) else Regrouped(rings, r1 + r2, g)
      ensures forall n :: n in freed ==> n !in g
    {
      hide Closed;
      hide Ring;
      hide RingsOutside;
      assert forall n :: n in r1 || n in r2 ==> n in r1 + r2;
      if one {
        g := Part(rings, r1, r2);
        PartKeeps(rings, tags, r1, r2, g);
      } else {
        g := Regroup(rings, r1 + r2);
        assert (r1 + r2)[0] == r1[0];
        RegroupKeeps(rings, tags, r1 + r2, g);
      }
      hide AllRings;
      hide Grouping;
      hide Apart;
    }

    /** UtList_DeleteNode: the node is taken out of its ring, which is counted from a head in it
        afterwards, and freed unless it is a head itself. `h` is another head in the ring of `d`; if
        there is none it is `d`, whose data nodes are left in a ring that no tag leads to. */
    method DeleteNode(d: Node, ghost h: Node)
      requires Valid() && h in tags && h in rings && d in rings[h]
      requires d == h ==> forall n :: n in rings[h] && n != h ==> n !in tags
      modifies this, rings.Keys
      ensures Valid()
      ensures d == h ==> Cut(old(rings), h, rings)
      ensures d == h && |old(rings)[h]| > 1 ==> h in old(rings)[h] && Ring(Removed(From(old(rings), h), h))
      ensures d != h ==> h in old(rings)[h] && d in From(old(rings), h)
      ensures d != h ==> IsDrop(old(rings), Removed(From(old(rings), h), d), d, rings)
      ensures freed == old(freed) + if d.data.Some? then [d] else []
    {
      hide Closed;
      hide RingsOutside;
      hide IsDrop;
      hide Grouping;
      hide AllRings;
      hide Removed;
      hide From;
      ghost var r, q := BeforeDrop(d, h);
      Extract(d, r);
      OutsideKept(q + [d]);
      ghost var g;
      if d == h {
        g := AfterCut(q, h);
      } else {
        g := AfterDrop(q, d);
      }
      if d.data.Some? {
        OneMoreFreed(freed, d);
        freed := freed + [d];
      }
      hide Distinct;
      Adopt(g);
    }

    lemma OneMoreFreed(freed: seq<Node>, d: Node)
      requires Distinct(freed) && d !in freed
      ensures Distinct(freed + [d]) && forall n :: n in freed + [d] <==> n in freed || n == d
    {
    }

    /** The grouping after the only head of a ring has been cut out. */
    ghost method AfterCut(q: seq<Node>, h: Node) returns (g: Rings)
      requires Grouping(rings, tags) && RingsOutside(rings, tags, q + [h]) && Closed(rings, q + [h])
      requires h in tags && h in rings && Ring([h])
      requires forall n :: n in rings[h] <==> n in q + [h]
      requires forall n :: n in q ==> n !in tags
      requires forall n :: n in freed ==> n !in rings
      ensures Grouping(g, tags) && AllRings(g, tags) && Cut(rings, h, g)
      ensures forall n :: n in freed ==> n !in g
    {
      g := map n | n in rings && (n == h || n !in rings[h]) :: if n == h then [h] else rings[n];
      assert Grouped(rings, tags, h);
      forall n | n in g ensures Grouped(g, tags, n) && Ring(g[n]) {
        assert Grouped(rings, tags, n);
        assert n == h || n !in q + [h];
      }
    }

    /** The ring of `d` counted from `h`, and what is left of it without `d`. */
    ghost method BeforeDrop(d: Node, h: Node) returns (r: seq<Node>, q: seq<Node>)
      requires Valid() && h in tags && h in rings && d in rings[h]
      ensures h in rings[h] && r == From(rings, h) && Ring(r) && d in r && q == Removed(r, d)
      ensures d.next in r && d.prev in r && d in rings && d !in q
      ensures if d == h then d.data.None? else q != [] && q[0] == h
      ensures Closed(rings, q + [d]) && forall n :: n in rings[h] <==> n in q + [d]
      ensures (forall n :: n in r ==> n in q + [d]) && forall n :: n in q ==> n in rings
    {
      hide Closed;
      hide From;
      hide Ring;
      hide Distinct;
      assert Grouped(rings, tags, h);
      FromIsRing(rings, tags, h);
      r := From(rings, h);
      RingDistinct(r);
      PrevInRing(r, d);
      q := Removed(r, d);
      RemovedParts(r, d);
      RingClosed(rings, tags, h, q + [d]);
    }

    /** The node behind a head at the front of its ring. */
    lemma BehindHead(h: Node)
      requires Valid() && h in tags && h in rings && |rings[h]| >= 2 && rings[h][0] == h
      ensures h in rings[h] && h.next == rings[h][1] && h.next in From(rings, h) && h.next != h
      ensures Removed(From(rings, h), h.next) == [h] + rings[h][2..]
    {
      var r := rings[h];
      assert Grouped(rings, tags, h);
      assert h.next == r[0 + 1];
      IndexUnique(r, h, 0);
      IndexUnique(r, r[1], 1);
      assert From(rings, h) == r;
    }

    /** The grouping after `d` has been cut out of the ring `q`. */
    ghost method AfterDrop(q: seq<Node>, d: Node) returns (g: Rings)
      requires Grouping(rings, tags) && RingsOutside(rings, tags, q + [d])
      requires Closed(rings, q + [d]) && d !in q && d in rings && q != [] && q[0] in tags && Ring(q) && Ring([d])
      requires forall n: Node :: n in q ==> n in rings
      requires forall n :: n in freed ==> n !in rings
      ensures Grouping(g, tags) && AllRings(g, tags) && IsDrop(rings, q, d, g)
      ensures q[0] in g && g[q[0]] == q
      ensures (forall n :: n in freed ==> n !in g) && (d.data.Some? ==> d !in g)
    {
      if d.data.Some? {
        g := map n | n in rings && n != d :: if n in q then q else rings[n];
        DropGrouping(rings, tags, q, d, g);
        DropRings(rings, tags, q, d, g);
      } else {
        assert Grouped(rings, tags, d);
        g := Part(rings, q, [d]);
        PartKeeps(rings, tags, q, [d], g);
      }
      hide Grouping;
      hide AllRings;
    }

    /** UtList_Reset: takes every other node out of the ring of a head; those with data are
        freed, heads of other tags are left alone in rings of their own. */
    method Reset(t: nat)
      requires Valid() && t < |tags|
      modifies this, rings.Keys
      ensures Valid()
      ensures tags[t] in old(rings) && Clearing(old(rings), tags[t], rings, old(freed), freed)
      ensures tags[t] in rings && rings[tags[t]] == [tags[t]]
    {
      hide Dropped;
      hide Clearing;
      var h := tags[t];
      ghost var before := rings;
      RebaseForReset(h);
      while h.next != h
        invariant Valid() && h in tags && h in rings && rings[h] != [] && rings[h][0] == h
        invariant Clearing(before, h, rings, old(freed), freed)
        invariant rings.Keys <= before.Keys
        decreases |rings[h]|
      {
        EmptyMeansAlone(h);
        BehindHead(h);
        ghost var prev, done := rings, freed;
        DeleteNode(h.next, h);
        ClearingStep(before, h, prev, rings, old(freed), done, freed);
      }
      EmptyMeansAlone(h);
    }

    ghost method RebaseForReset(h: Node)
      requires Valid() && h in tags
      modifies this`rings
      ensures Valid() && h in rings && rings[h] != [] && rings[h][0] == h
      ensures h in old(rings) && Clearing(old(rings), h, rings, freed, freed) && rings.Keys == old(rings).Keys
    {
      assert Grouped(rings, tags, h);
      var before := rings;
      Rebase(h);
      RebaseClears(before, tags, h, rings, freed);
    }

    /** UtList_IsEmpty tells whether the head is alone. */
    lemma EmptyMeansAlone(h: Node)
      requires Valid() && h in tags && h in rings && rings[h] != [] && rings[h][0] == h
      ensures h.data.None? && h in rings[h]
      ensures h.next == h <==> rings[h] == [h]
    {
      assert Grouped(rings, tags, h);
      var r := rings[h];
      if |r| >= 2 { assert r[0].next == r[0 + 1] && r[0] != r[1]; }
    }

    /** UtList_Destroy: every node with data is freed, exactly once, and no head is; the heads
        go with the block of the list itself. */
    method Destroy()
      requires Valid()
      modifies this, rings.Keys
      ensures Valid()
      ensures |old(freed)| <= |freed| && freed[..|old(freed)|] == old(freed)
      ensures forall n: Node :: n in freed[|old(freed)|..] <==> n in old(rings) && n.data.Some?
      ensures forall n: Node :: n in rings ==> n in tags
    {
      hide Clearing;
      hide Valid;
      ghost var before := rings;
      ValidGrouping();
      var i := 0;
      while i < |tags|
        invariant 0 <= i <= |tags| && Valid()
        invariant Destroying(before, tags, i, rings, old(freed), freed)
      {
        ghost var prev, done := rings, freed;
        ValidGrouping();
        Reset(i);
        ValidGrouping();
        DestroyStep(before, tags, i, prev, rings, old(freed), done, freed);
        i := i + 1;
      }
      ValidGrouping();
      DestroyDone(before, tags, rings, old(freed), freed);
    }

    lemma ValidGrouping()
      requires Valid()
      ensures Grouping(rings, tags)
      ensures forall n: Node :: n in freed ==> n !in rings && n.data.Some?
    {
    }
  }

  /** From `before` to `after` only the ring of `h` has been taken apart: each of its nodes is
      still in it, is the head of a tag and alone, or has been freed. */
  ghost predicate Clearing(before: Rings, h: Node, after: Rings, freed0: seq<Node>, freed1: seq<Node>) {
    && h in before
    && freed0 <= freed1
    && (forall n :: n in freed1[|freed0|..] ==> n in before[h])
    && (forall n :: n in after ==> n in before)
    && (forall n :: n in before && n !in before[h] ==> n in after && after[n] == before[n])
    && (forall n :: n in before[h] && n in before && n !in after ==> n in freed1[|freed0|..])
    && (forall n :: n in before[h] && n in after ==> (h in after && n in after[h]) || after[n] == [n])
    && (h in after ==> forall n :: n in after[h] ==> n in before[h])
  }

  /** The first `i` tags are down to their heads; nodes no longer in a ring have been freed. */
  ghost predicate Destroying(before: Rings, tags: seq<Node>, i: nat, cur: Rings, freed0: seq<Node>, freed1: seq<Node>) {
    && freed0 <= freed1
    && (forall n :: n in cur ==> n in before)
    && (forall n :: n in before ==> n in cur || n in freed1[|freed0|..])
    && (forall n :: n in freed1[|freed0|..] ==> n in before)
    && (forall k :: 0 <= k < i && k < |tags| ==> tags[k] in cur && cur[tags[k]] == [tags[k]])
  }

  lemma DestroyStep(before: Rings, tags: seq<Node>, i: nat, prev: Rings, after: Rings,
                    freed0: seq<Node>, done: seq<Node>, freed1: seq<Node>)
    requires i < |tags| && Grouping(prev, tags) && Grouping(after, tags)
    requires Destroying(before, tags, i, prev, freed0, done)
    requires Clearing(prev, tags[i], after, done, freed1) && tags[i] in after && after[tags[i]] == [tags[i]]
    ensures Destroying(before, tags, i + 1, after, freed0, freed1)
  {
    var h := tags[i];
    assert Grouped(prev, tags, h);
    assert freed1[|freed0|..] == done[|freed0|..] + freed1[|done|..];
    forall k | 0 <= k < i + 1 ensures tags[k] in after && after[tags[k]] == [tags[k]] {
      var t := tags[k];
      assert t in tags;
      if t in prev[h] && t !in after[h] { assert after[t] == [t]; }
    }
  }

  lemma DestroyDone(before: Rings, tags: seq<Node>, cur: Rings, freed0: seq<Node>, freed1: seq<Node>)
    requires Grouping(before, tags) && Grouping(cur, tags) && Destroying(before, tags, |tags|, cur, freed0, freed1)
    requires forall n: Node :: n in freed1 ==> n !in cur && n.data.Some?
    ensures |freed0| <= |freed1| && freed1[..|freed0|] == freed0
    ensures forall n: Node :: n in freed1[|freed0|..] <==> n in before && n.data.Some?
    ensures forall n: Node :: n in cur ==> n in tags
  {
    forall n | n in cur ensures n in tags {
      assert Grouped(cur, tags, n);
      var t := cur[n][0];
      var k :| 0 <= k < |tags| && tags[k] == t;
    }
    forall n: Node | n in freed1[|freed0|..] ensures n in freed1 { }
    forall n: Node | n in before && n.data.Some? ensures n in freed1[|freed0|..] {
      assert Grouped(before, tags, n);
    }
  }

  lemma RebaseClears(before: Rings, tags: seq<Node>, h: Node, after: Rings, freed: seq<Node>)
    requires Grouping(before, tags) && h in before && h in before[h] && Regrouped(before, From(before, h), after)
    ensures Clearing(before, h, after, freed, freed) && after.Keys == before.Keys
  {
    assert Grouped(before, tags, h);
    assert freed[|freed|..] == [];
  }

  lemma WithoutSecond<X>(r: seq<X>)
    requires |r| >= 2
    ensures forall x :: x in r <==> x in [r[0]] + r[2..] || x == r[1]
    ensures r[0] in [r[0]] + r[2..]
  {
    assert r == [r[0], r[1]] + r[2..];
  }

  lemma FreedGrows(freed0: seq<Node>, done: seq<Node>, freed1: seq<Node>, d: Node)
    requires freed0 <= done && freed1 == done + if d.data.Some? then [d] else []
    ensures freed0 <= freed1
    ensures forall n: Node :: n in freed1[|freed0|..] <==> n in done[|freed0|..] || (n == d && d.data.Some?)
  {
    assert freed1[|freed0|..] == done[|freed0|..] + if d.data.Some? then [d] else [];
  }

  lemma ClearingStep(before: Rings, h: Node, prev: Rings, after: Rings, freed0: seq<Node>, done: seq<Node>,
    freed1: seq<Node>)
    requires Clearing(before, h, prev, freed0, done) && Dropped(prev, h, after) && h in prev[h] && prev[h][0] == h
    requires h.data.None?
    requires freed1 == done + if prev[h][1].data.Some? then [prev[h][1]] else []
    ensures Clearing(before, h, after, freed0, freed1)
  {
    var d := prev[h][1];
    var q := [h] + prev[h][2..];
    WithoutSecond(prev[h]);
    FreedGrows(freed0, done, freed1, d);
    assert h in after && after[h] == q;
    forall n | n in before[h] && n in after ensures n in after[h] || after[n] == [n] {
      if n in prev[h] { assert n in q || n == d; }
    }
  }

  /** `g` is the grouping with the head `h` alone and the other nodes of its ring out of the list. */
  ghost predicate Cut(rings: Rings, h: Node, g: Rings) {
    && h in rings && h in g
    && (forall n :: n in g ==> n in rings && (n == h || n !in rings[h]))
    && (forall n :: n in rings && n !in rings[h] ==> n in g)
    && (forall n :: n in g ==> g[n] == if n == h then [h] else rings[n])
  }

  /** `g` is the grouping with `d` out of the ring `q`: gone if it carried data, alone if it is a head. */
  ghost predicate IsDrop(rings: Rings, q: seq<Node>, d: Node, g: Rings) {
    && (forall n: Node :: n in rings && (n != d || d.data.None?) ==> n in g)
    && (forall n: Node :: n in g ==> n in rings && (n != d || d.data.None?))
    && (forall n :: n in g ==> g[n] == if n in q then q else if n == d then [d] else rings[n])
  }

  ghost predicate Dropped(before: Rings, h: Node, after: Rings) {
    h in before && |before[h]| >= 2 && IsDrop(before, [h] + before[h][2..], before[h][1], after)
  }

  lemma DropGrouping(rings: Rings, tags: seq<Node>, q: seq<Node>, d: Node, g: Rings)
    requires Grouping(rings, tags) && IsDrop(rings, q, d, g) && d.data.Some? && d in rings
    requires Closed(rings, q + [d]) && d !in q && q != [] && q[0] in tags
    requires forall n: Node :: n in q ==> n in rings
    ensures Grouping(g, tags)
  {
    assert Grouped(rings, tags, d);
    forall n | n in g ensures Grouped(g, tags, n) {
      assert Grouped(rings, tags, n);
      if n !in q {
        assert n !in q + [d];
        forall m | m in g[n] ensures m in g && g[m] == g[n] {
          assert m in rings[n] && m !in q + [d];
          assert m !in q && m != d;
        }
      }
    }
  }

  lemma DropRings(rings: Rings, tags: seq<Node>, q: seq<Node>, d: Node, g: Rings)
    requires Grouping(rings, tags) && RingsOutside(rings, tags, q + [d]) && Grouping(g, tags)
    requires IsDrop(rings, q, d, g) && d.data.Some? && Ring(q)
    ensures AllRings(g, tags)
  {
    hide Ring;
    forall n | n in g ensures Ring(g[n]) {
      if n !in q {
        assert n !in q + [d];
        assert Grouped(rings, tags, n);
      }
    }
  }

  /** `after` is `before` with the rings of `h1` and `h2`, each counted from there, in one. */
  ghost predicate Joined(before: Rings, h1: Node, h2: Node, after: Rings) {
    && h1 in before && h1 in before[h1]
    && h2 in before && h2 in before[h2]
    && Regrouped(before, From(before, h1) + From(before, h2), after)
  }

  /** `after` is `before` with the ring of `h1`, counted from there, cut in front of `h2`. */
  ghost predicate Parted(before: Rings, h1: Node, h2: Node, after: Rings) {
    && h1 in before && h1 in before[h1]
    && h2 in From(before, h1)
    && var r := From(before, h1);
    var k := IndexOf(r, h2);
    IsPart(before, r[..k], r[k..], after)
  }

  ghost predicate IsPart(rings: Rings, r1: seq<Node>, r2: seq<Node>, g: Rings) {
    && (forall n :: n in rings ==> n in g)
    && (forall n :: n in g ==> n in rings)
    && (forall n :: n in g ==> g[n] == if n in r1 then r1 else if n in r2 then r2 else rings[n])
  }

  ghost function Part(rings: Rings, r1: seq<Node>, r2: seq<Node>): (g: Rings)
    ensures IsPart(rings, r1, r2, g)
  {
    map n | n in rings :: if n in r1 then r1 else if n in r2 then r2 else rings[n]
  }

  lemma PartGrouped(rings: Rings, tags: seq<Node>, r1: seq<Node>, r2: seq<Node>, g: Rings, n: Node)
    requires Grouping(rings, tags) && n in rings && IsPart(rings, r1, r2, g)
    requires Closed(rings, r1 + r2) && Apart(r1, r2) && r1 != [] && r2 != [] && r1[0] in tags && r2[0] in tags
    requires forall n: Node :: n in r1 || n in r2 ==> n in rings
    ensures n in g && Grouped(g, tags, n)
  {
    assert Grouped(rings, tags, n);
    if n !in r1 && n !in r2 {
      assert n !in r1 + r2;
      forall m | m in g[n] ensures m in g && g[m] == g[n] {
        assert m in rings[n] && m !in r1 + r2;
        assert m !in r1 && m !in r2;
      }
    }
  }

  ghost predicate Apart(r1: seq<Node>, r2: seq<Node>) {
    forall n :: n in r1 ==> n !in r2
  }

  /** Cutting a ring in front of a head keeps the list in order. */
  lemma PartKeeps(rings: Rings, tags: seq<Node>, r1: seq<Node>, r2: seq<Node>, g: Rings)
    requires Grouping(rings, tags) && RingsOutside(rings, tags, r1 + r2)
    requires Closed(rings, r1 + r2) && Apart(r1, r2) && Ring(r1) && Ring(r2) && r1[0] in tags && r2[0] in tags
    requires IsPart(rings, r1, r2, g)
    requires forall n: Node :: n in r1 || n in r2 ==> n in rings
    ensures Grouping(g, tags) && AllRings(g, tags)
  {
    PartGrouping(rings, tags, r1, r2, g);
    hide Closed;
    hide Apart;
    hide Ring;
    hide Distinct;
    forall n | n in g ensures Ring(g[n]) {
      if n !in r1 && n !in r2 {
        assert n !in r1 + r2;
        assert Grouped(rings, tags, n);
      }
    }
  }

  lemma PartGrouping(rings: Rings, tags: seq<Node>, r1: seq<Node>, r2: seq<Node>, g: Rings)
    requires Grouping(rings, tags) && IsPart(rings, r1, r2, g)
    requires Closed(rings, r1 + r2) && Apart(r1, r2) && r1 != [] && r2 != [] && r1[0] in tags && r2[0] in tags
    requires forall n: Node :: n in r1 || n in r2 ==> n in rings
    ensures Grouping(g, tags)
  {
    hide Closed;
    hide Apart;
    hide Distinct;
    hide Grouped;
    forall n | n in g ensures Grouped(g, tags, n) {
      PartGrouped(rings, tags, r1, r2, g, n);
    }
  }

  lemma RingDistinct(r: seq<Node>)
    requires Ring(r)
    ensures Distinct(r)
  {
  }

  /** Merging twice with the same heads gives back the two rings, each counted from its head. */
  lemma MergeTwiceRestores(before: Rings, mid: Rings, after: Rings, tags: seq<Node>, h1: Node, h2: Node)
    requires Grouping(before, tags) && h1 in before && h2 in before && h1 in before[h1] && h2 in before[h2]
    requires h2 !in before[h1] && Distinct(From(before, h1) + From(before, h2))
    requires Joined(before, h1, h2, mid) && Parted(mid, h1, h2, after)
    ensures IsPart(before, From(before, h1), From(before, h2), after)
  {
    var r1, r2 := From(before, h1), From(before, h2);
    var q := r1 + r2;
    assert Grouped(before, tags, h1) && Grouped(before, tags, h2);
    assert q[0] == h1 && q[|r1|] == h2;
    assert mid[h1] == q;
    IndexUnique(q, h1, 0);
    assert From(mid, h1) == q;
    IndexUnique(q, h2, |r1|);
    assert q[..|r1|] == r1 && q[|r1|..] == r2;
    PartOfJoin(before, q, mid, r1, r2, after);
  }

  lemma PartOfJoin(before: Rings, q: seq<Node>, mid: Rings, r1: seq<Node>, r2: seq<Node>, after: Rings)
    requires q == r1 + r2 && Regrouped(before, q, mid) && IsPart(mid, r1, r2, after)
    requires forall n :: n in r1 || n in r2 ==> n in before
    ensures IsPart(before, r1, r2, after)
  {
    forall n | n in before ensures n in after && after[n] == if n in r1 then r1 else if n in r2 then r2 else before[n] {
      RegroupedAt(before, q, mid, n);
    }
  }

  lemma IndexUnique<X>(r: seq<X>, x: X, i: nat)
    requires Distinct(r) && i < |r| && r[i] == x
    ensures IndexOf(r, x) == i
  {
  }

  lemma JoinClosed(rings: Rings, tags: seq<Node>, h1: Node, h2: Node)
    requires Grouping(rings, tags) && h1 in rings && h2 in rings
    ensures Grouped(rings, tags, h1) && Grouped(rings, tags, h2)
    ensures Closed(rings, From(rings, h1) + From(rings, h2))
  {
    assert Grouped(rings, tags, h1) && Grouped(rings, tags, h2);
    var q := From(rings, h1) + From(rings, h2);
    forall n, m | n in rings && m in rings[n] ensures n in q <==> m in q {
      assert Grouped(rings, tags, n);
    }
  }

  lemma RingClosed(rings: Rings, tags: seq<Node>, h: Node, q: seq<Node>)
    requires Grouping(rings, tags) && h in rings
    requires forall n :: n in q ==> n in rings[h]
    requires forall n :: n in rings[h] ==> n in q
    ensures Closed(rings, q)
  {
    assert Grouped(rings, tags, h);
    forall n, m | n in rings && m in rings[n] ensures n in q <==> m in q {
      assert Grouped(rings, tags, n);
    }
  }

  lemma OutsideInOrder(rings: Rings, tags: seq<Node>, q: seq<Node>)
    requires Grouping(rings, tags) && AllRings(rings, tags)
    ensures RingsOutside(rings, tags, q)
  {
  }

  lemma ApartDistinct(rings: Rings, tags: seq<Node>, h1: Node, h2: Node)
    requires Grouping(rings, tags) && AllRings(rings, tags) && h1 in rings && h2 in rings && h2 !in rings[h1]
    ensures Grouped(rings, tags, h1) && Grouped(rings, tags, h2)
    ensures Distinct(From(rings, h1) + From(rings, h2))
  {
    assert Grouped(rings, tags, h1) && Grouped(rings, tags, h2);
    FromIsRing(rings, tags, h1);
    FromIsRing(rings, tags, h2);
    var r1, r2 := From(rings, h1), From(rings, h2);
    forall i, j | 0 <= i < |r1| && 0 <= j < |r2| ensures r1[i] != r2[j] {
      assert r1[i] in rings[h1] && r2[j] in rings[h2];
    }
    DistinctAppend(r1, r2);
  }
}
