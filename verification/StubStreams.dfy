/** Data buffers as streams: what reads of any sizes deliver and what they leave. */
module StubStreams {
  import opened Wrappers
  import opened StubEntries
  import opened StubOps
  import opened StubRuns
  import opened StubLists
  import opened StubCounting
  import opened StubSchedules

  /** The unread bytes of an entry. */
  function Text(e: Entry, mem: map<Ptr, seq<uint8>>): seq<uint8> {
    if e.data.Buffer? && BufferFits(e.data, mem) then Unread(e.data, mem) else []
  }

  function Texts(q: seq<Entry>, mem: map<Ptr, seq<uint8>>): (r: seq<seq<uint8>>)
    ensures |r| == |q| && forall i :: 0 <= i < |q| ==> r[i] == Text(q[i], mem)
  {
    if q == [] then [] else [Text(q[0], mem)] + Texts(q[1..], mem)
  }

  /** What each pending buffer of a key still holds, in the order of delivery. */
  function Messages(st: State, key: Key): seq<seq<uint8>> {
    Texts(Queue(st.slots, key, DataBuffer), st.mem)
  }

  function Flatten(chunks: seq<seq<uint8>>): seq<uint8> {
    if chunks == [] then [] else chunks[0] + Flatten(chunks[1..])
  }

  /** Every pending buffer holds at least one byte. */
  lemma MessagesNonEmpty(st: State, key: Key)
    requires Valid(st)
    ensures forall m :: m in Messages(st, key) ==> m != []
  {
    hide QueueRange;
    var q := Queue(st.slots, key, DataBuffer);
    forall i | 0 <= i < |q| ensures Messages(st, key)[i] != [] {
      var d := MemberSlot(st.slots, key, DataBuffer, 0, |st.slots|, q[i]);
      BufferText(st, At(key, d));
    }
  }

  lemma BufferText(st: State, i: Slot)
    requires Valid(st) && st.slots[i].kind == DataBuffer
    ensures st.slots[i].data.Buffer? && BufferFits(st.slots[i].data, st.mem)
    ensures Text(st.slots[i], st.mem) == Unread(st.slots[i].data, st.mem) != []
  {
    assert DataFits(st.slots[i]);
  }

  /** Freeing the buffer of slot `i`, or moving its position, leaves the bytes of every other slot alone. */
  lemma AdvanceKeepsText(st: State, i: Slot, n: nat, j: Slot)
    requires Valid(st) && st.slots[i].kind == DataBuffer && j != i && st.slots[j].kind == DataBuffer
    ensures Text(st.slots[j], Advance(st, i, n).mem) == Text(st.slots[j], st.mem)
  {
    assert DataFits(st.slots[i]) && DataFits(st.slots[j]);
    assert BufferFits(st.slots[j].data, st.mem);
  }

  lemma TextsFrame(s: Table, key: Key, lo: nat, hi: nat, m1: map<Ptr, seq<uint8>>, m2: map<Ptr, seq<uint8>>)
    requires lo <= hi <= |s|
    requires forall d ::
      lo <= d < hi && Matches(s[At(key, d)], key, DataBuffer) ==> Text(s[At(key, d)], m1) == Text(s[At(key, d)], m2)
    ensures var q := QueueRange(s, key, DataBuffer, lo, hi); Texts(q, m1) == Texts(q, m2)
  {
    var q := QueueRange(s, key, DataBuffer, lo, hi);
    forall k | 0 <= k < |q| ensures Texts(q, m1)[k] == Texts(q, m2)[k] {
      var d := MemberSlot(s, key, DataBuffer, lo, hi, q[k]);
    }
  }

  /** What is pending behind the buffer in slot `i`. */
  lemma HeadMessages(st: State, key: Key, i: Slot)
    requires Valid(st) && Find(st.slots, key, DataBuffer) == Some(i)
    ensures st.slots[i].kind == DataBuffer && st.slots[i].data.Buffer? && BufferFits(st.slots[i].data, st.mem)
    ensures Messages(st, key) ==
      [Unread(st.slots[i].data, st.mem)] + Texts(Further(st.slots, key, DataBuffer, i), st.mem)
  {
    FindIsNearest(st.slots, key, DataBuffer);
    NearerEmpty(st.slots, key, DataBuffer, i);
    QueueAround(st.slots, key, DataBuffer, i);
    assert DataFits(st.slots[i]);
    DropHead(Queue(st.slots, key, DataBuffer), st.slots[i], Further(st.slots, key, DataBuffer, i));
  }

  /** Moving one buffer on leaves what is pending in any part of the table without it. */
  lemma AdvanceTexts(st: State, i: Slot, n: nat, key: Key, lo: nat, hi: nat)
    requires Valid(st) && st.slots[i].kind == DataBuffer && lo <= hi <= |st.slots|
    requires forall d :: lo <= d < hi && Matches(st.slots[At(key, d)], key, DataBuffer) ==> At(key, d) != i
    ensures var q := QueueRange(st.slots, key, DataBuffer, lo, hi); Texts(q, Advance(st, i, n).mem) == Texts(q, st.mem)
  {
    var st' := Advance(st, i, n);
    forall d | lo <= d < hi && Matches(st.slots[At(key, d)], key, DataBuffer)
      ensures Text(st.slots[At(key, d)], st.mem) == Text(st.slots[At(key, d)], st'.mem)
    {
      AdvanceKeepsText(st, i, n, At(key, d));
    }
    TextsFrame(st.slots, key, lo, hi, st.mem, st'.mem);
  }

  /** The queue after its head has been rewritten or dropped, and what it holds. */
  lemma AdvanceQueue(st: State, key: Key, i: Slot, n: nat)
    requires Valid(st) && Find(st.slots, key, DataBuffer) == Some(i) && st.slots[i].data.Buffer?
    ensures var st' := Advance(st, i, n);
      && Queue(st'.slots, key, DataBuffer) ==
        Single(st'.slots[i], key, DataBuffer) + Further(st.slots, key, DataBuffer, i)
      && Texts(Further(st.slots, key, DataBuffer, i), st'.mem) == Texts(Further(st.slots, key, DataBuffer, i), st.mem)
  {
    hide QueueRange;
    FindIsNearest(st.slots, key, DataBuffer);
    var e := Advance(st, i, n).slots[i];
    NearerEmpty(st.slots, key, DataBuffer, i);
    QueueUpdate(st.slots, key, DataBuffer, i, e);
    NilPlus(Single(e, key, DataBuffer) + Further(st.slots, key, DataBuffer, i));
    forall d | Dist(key, i) + 1 <= d < |st.slots| ensures At(key, d) != i { }
    AdvanceTexts(st, i, n, key, Dist(key, i) + 1, |st.slots|);
  }

  /** The pending buffers after the head has moved on. */
  lemma AdvanceMessages(st: State, key: Key, i: Slot, n: nat)
    requires Valid(st) && Find(st.slots, key, DataBuffer) == Some(i)
    requires st.slots[i].data.Buffer? && Messages(st, key) != [] && n <= |Messages(st, key)[0]|
    ensures var m := Messages(st, key);
      Messages(Advance(st, i, n), key) == (if n == |m[0]| then [] else [m[0][n..]]) + m[1..]
  {
    hide Queue;
    hide Further;
    HeadMessages(st, key, i);
    FindIsNearest(st.slots, key, DataBuffer);
    BufferText(st, i);
    AdvanceQueue(st, key, i, n);
    var st' := Advance(st, i, n);
    var e := st'.slots[i];
    var rest := Further(st.slots, key, DataBuffer, i);
    if n < |Messages(st, key)[0]| {
      assert ([e] + rest)[1..] == rest;
    } else {
      NilPlus(rest);
    }
  }

  lemma AdvanceOthers(st: State, i: Slot, n: nat, key: Key)
    requires Valid(st) && st.slots[i].kind == DataBuffer && st.slots[i].key != key
    ensures Messages(Advance(st, i, n), key) == Messages(st, key)
  {
    hide QueueRange;
    assert DataFits(st.slots[i]);
    QueueOther(st.slots, key, DataBuffer, i, Advance(st, i, n).slots[i]);
    AdvanceTexts(st, i, n, key, 0, |st.slots|);
  }

  /** A read delivers the front of the first pending buffer and leaves the rest; a
      buffer is dropped exactly when its last byte is delivered. */
  lemma ReadMessages(st: State, key: Key, maxSize: nat)
    requires Valid(st)
    ensures var (st', out) := CopyToLocal(st, key, maxSize);
      var m := Messages(st, key);
      if m == [] then out == [] && st' == st
      else
        var n := if maxSize < |m[0]| then maxSize else |m[0]|;
        out == m[0][..n] && Messages(st', key) == (if n == |m[0]| then [] else [m[0][n..]]) + m[1..]
    ensures forall k: Key :: k != key ==> Messages(CopyToLocal(st, key, maxSize).0, k) == Messages(st, k)
  {
    hide Queue;
    QueueEmpty(st.slots, key, DataBuffer);
    match Find(st.slots, key, DataBuffer)
    case None =>
    case Some(i) =>
      HeadMessages(st, key, i);
      var m := Messages(st, key);
      var n := if maxSize < |m[0]| then maxSize else |m[0]|;
      AdvanceMessages(st, key, i, n);
      forall k: Key | k != key ensures Messages(Advance(st, i, n), k) == Messages(st, k) {
        FindIsNearest(st.slots, key, DataBuffer);
        AdvanceOthers(st, i, n, k);
      }
  }

  /** A sequence of reads and what each of them delivers. */
  function Reads(st: State, key: Key, sizes: seq<nat>): (r: (State, seq<seq<uint8>>))
    requires Valid(st)
    ensures Valid(r.0)
    decreases |sizes|
  {
    if sizes == [] then (st, [])
    else
      CopyToLocalValid(st, key, sizes[0]);
      var (st1, out) := CopyToLocal(st, key, sizes[0]);
      var (st2, outs) := Reads(st1, key, sizes[1..]);
      (st2, [out] + outs)
  }

  lemma FlattenSplit(chunks: seq<seq<uint8>>, n: nat)
    requires chunks != [] && n <= |chunks[0]|
    ensures Flatten(chunks) ==
      chunks[0][..n] + Flatten((if n == |chunks[0]| then [] else [chunks[0][n..]]) + chunks[1..])
  {
    var c, rest := chunks[0], chunks[1..];
    if n == |c| {
      assert [] + rest == rest;
      assert c[..n] == c;
    } else {
      var t := [c[n..]] + rest;
      assert t[0] == c[n..] && t[1..] == rest;
      assert c[..n] + c[n..] == c;
    }
  }

  /** Streams are conserved: whatever the sizes of the reads, the bytes delivered
      followed by the bytes still pending are the bytes pending at the start. */
  lemma {:induction false} StreamConserved(st: State, key: Key, sizes: seq<nat>)
    requires Valid(st)
    ensures var (st', outs) := Reads(st, key, sizes);
      && |outs| == |sizes|
      && Flatten(outs) + Flatten(Messages(st', key)) == Flatten(Messages(st, key))
      && forall k: Key :: k != key ==> Messages(st', k) == Messages(st, k)
    decreases |sizes|
  {
    hide Messages;
    hide CopyToLocal;
    if sizes != [] {
      CopyToLocalValid(st, key, sizes[0]);
      ReadMessages(st, key, sizes[0]);
      var (st1, out) := CopyToLocal(st, key, sizes[0]);
      var m := Messages(st, key);
      if m != [] { FlattenSplit(m, if sizes[0] < |m[0]| then sizes[0] else |m[0]|); }
      StreamConserved(st1, key, sizes[1..]);
      var (st2, outs) := Reads(st1, key, sizes[1..]);
      assert ([out] + outs)[1..] == outs;
      assert out + Flatten(outs) + Flatten(Messages(st2, key)) == out + (Flatten(outs) + Flatten(Messages(st2, key)));
    }
  }

  /** Reads that are large enough deliver the buffers whole, in order, one a read. */
  lemma {:induction false} LargeReadsDeliverWhole(st: State, key: Key, sizes: seq<nat>)
    requires Valid(st) && |sizes| <= |Messages(st, key)|
    requires forall i :: 0 <= i < |sizes| ==> |Messages(st, key)[i]| <= sizes[i]
    ensures var (st', outs) := Reads(st, key, sizes);
      outs == Messages(st, key)[..|sizes|] && Messages(st', key) == Messages(st, key)[|sizes|..]
    decreases |sizes|
  {
    hide Messages;
    hide CopyToLocal;
    if sizes != [] {
      CopyToLocalValid(st, key, sizes[0]);
      ReadMessages(st, key, sizes[0]);
      var m := Messages(st, key);
      var st1 := CopyToLocal(st, key, sizes[0]).0;
      var tail := m[1..];
      assert Messages(st1, key) == [] + tail == tail;
      forall i | 0 <= i < |sizes| - 1 ensures |tail[i]| <= sizes[1..][i] {
        assert tail[i] == m[i + 1];
      }
      LargeReadsDeliverWhole(st1, key, sizes[1..]);
      assert m[0][..|m[0]|] == m[0];
      assert m[..|sizes|] == [m[0]] + m[1..][..|sizes| - 1];
      assert m[|sizes|..] == m[1..][|sizes| - 1..];
    }
  }
}
