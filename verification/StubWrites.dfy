/** Data buffers as sinks: what writes of any sizes put into memory, and which pending buffers see it. */
module StubWrites {
  import opened Wrappers
  import opened StubEntries
  import opened StubOps
  import opened StubRuns
  import opened StubLists
  import opened StubStreams

  /** A block with some bytes written over it. */
  function Overlay(block: seq<uint8>, at: nat, bytes: seq<uint8>): seq<uint8>
    requires at + |bytes| <= |block|
  {
    block[..at] + bytes + block[at + |bytes|..]
  }

  lemma OverlayTwice(block: seq<uint8>, at: nat, a: seq<uint8>, b: seq<uint8>)
    requires at + |a| + |b| <= |block|
    ensures |Overlay(block, at, a)| == |block|
    ensures Overlay(Overlay(block, at, a), at + |a|, b) == Overlay(block, at, a + b)
  {
  }

  /** The buffer that the next write goes to. */
  function Sink(st: State, key: Key): Option<Slot> {
    Find(st.slots, key, DataBuffer)
  }

  lemma SinkFits(st: State, key: Key)
    requires Valid(st) && Sink(st, key).Some?
    ensures var e := st.slots[Sink(st, key).value];
      && e.kind == DataBuffer && e.key == key && e.data.Buffer? && e.data.base != 0 && e.data.base in st.mem
      && e.data.position < e.data.totalSize <= |st.mem[e.data.base]|
  {
    FindIsNearest(st.slots, key, DataBuffer);
    assert DataFits(st.slots[Sink(st, key).value]);
  }

  /** One write: how much is taken, what becomes of the sink, and every block of memory afterwards. */
  lemma WriteEffect(st: State, key: Key, local: seq<uint8>)
    requires Valid(st)
    ensures var (st', n) := CopyFromLocal(st, key, local);
      match Sink(st, key)
      case None => st' == st && n == 0
      case Some(i) =>
        && st.slots[i].data.Buffer?
        && var b := st.slots[i].data;
        && b.position < b.totalSize && b.base in st.mem && b.totalSize <= |st.mem[b.base]|
        && n == Min(|local|, b.totalSize - b.position)
        && var full := b.position + n == b.totalSize;
        && st'.slots == st.slots[i := if full then UNUSED else st.slots[i].(data := b.(position := b.position + n))]
        && (forall p :: p in st'.mem <==> p in st.mem && !(full && st.slots[i].owned && p == b.base))
        && forall p :: p in st'.mem ==>
             st'.mem[p] == if p == b.base then Overlay(st.mem[p], b.position, local[..n]) else st.mem[p]
  {
    if Sink(st, key).Some? { SinkFits(st, key); }
  }

  /** A pending buffer other than the sink sees a write exactly as far as it lies over it: it has the
      sink's address, and otherwise it is unchanged. */
  lemma OthersSeeWrites(st: State, key: Key, local: seq<uint8>, j: Slot)
    requires Valid(st) && Sink(st, key).Some? && j != Sink(st, key).value && st.slots[j].kind == DataBuffer
    ensures var i := Sink(st, key).value;
      var (st', n) := CopyFromLocal(st, key, local);
      && st'.slots[j] == st.slots[j] && st.slots[i].data.Buffer? && st.slots[j].data.Buffer?
      && var b, other := st.slots[i].data, st.slots[j].data;
      && n <= |local| && other.base in st.mem && b.position + n <= |st.mem[b.base]|
      && other.position <= other.totalSize <= |st.mem[other.base]|
      && Text(st.slots[j], st'.mem) ==
           if other.base == b.base
           then Overlay(st.mem[b.base], b.position, local[..n])[other.position..other.totalSize]
           else Text(st.slots[j], st.mem)
  {
    WriteEffect(st, key, local);
    BufferText(st, j);
    SinkFits(st, key);
    var i := Sink(st, key).value;
    assert BufferFits(st.slots[j].data, st.mem);
    assert st.slots[i].owned ==> st.slots[i].data.base != st.slots[j].data.base;
    hide CopyFromLocal;
    hide Find;
  }

  // ---- Rows of writes

  function Writes(st: State, key: Key, locals: seq<seq<uint8>>): (r: (State, seq<nat>))
    requires Valid(st)
    ensures Valid(r.0)
    decreases |locals|
  {
    if locals == [] then (st, [])
    else
      CopyFromLocalValid(st, key, locals[0]);
      var (st1, n) := CopyFromLocal(st, key, locals[0]);
      var (st2, rest) := Writes(st1, key, locals[1..]);
      (st2, [n] + rest)
  }

  /** The bytes that land in a buffer with so much room: a write that reaches its end is cut there,
      and what follows goes elsewhere. */
  function Landed(locals: seq<seq<uint8>>, room: nat): (r: seq<uint8>)
    ensures |r| <= room
  {
    if locals == [] then []
    else if |locals[0]| >= room then locals[0][..room]
    else locals[0] + Landed(locals[1..], room - |locals[0]|)
  }

  /** Writes that fit land whole. */
  lemma {:induction false} LandedWhole(locals: seq<seq<uint8>>, room: nat)
    requires |Flatten(locals)| <= room
    ensures Landed(locals, room) == Flatten(locals)
  {
    if locals != [] {
      if |locals[0]| >= room {
        assert locals[0][..room] == locals[0];
        assert Flatten(locals[1..]) == [];
      } else {
        LandedWhole(locals[1..], room - |locals[0]|);
      }
    }
  }

  /** No pending buffer of the key lies at this address, except perhaps in slot `i`. */
  ghost predicate Alone(s: Table, key: Key, p: Ptr, i: Slot) {
    forall j: Slot :: j != i && Matches(s[j], key, DataBuffer) && s[j].data.Buffer? ==> s[j].data.base != p
  }

  /** Writes leave alone a block at which no pending buffer of their key lies. */
  lemma {:induction false} WritesElsewhere(st: State, key: Key, locals: seq<seq<uint8>>, p: Ptr, i: Slot)
    requires Valid(st) && p in st.mem && Alone(st.slots, key, p, i) && !Matches(st.slots[i], key, DataBuffer)
    ensures var st' := Writes(st, key, locals).0;
      p in st'.mem && st'.mem[p] == st.mem[p]
    decreases |locals|
  {
    hide Valid;
    hide CopyFromLocal;
    if locals != [] {
      CopyFromLocalValid(st, key, locals[0]);
      WriteEffect(st, key, locals[0]);
      var st1 := CopyFromLocal(st, key, locals[0]).0;
      if Sink(st, key).Some? { SinkFits(st, key); }
      assert p in st1.mem && st1.mem[p] == st.mem[p];
      assert Alone(st1.slots, key, p, i) && !Matches(st1.slots[i], key, DataBuffer);
      WritesElsewhere(st1, key, locals[1..], p, i);
    }
  }

  /** Over writes of any sizes, a block of the caller to which the first pending buffer points holds in
      the end, from that buffer's position on, the bytes written one after the other up to its end. */
  lemma {:induction false} WritesLand(st: State, key: Key, locals: seq<seq<uint8>>, i: Slot)
    requires Valid(st) && Sink(st, key) == Some(i) && !st.slots[i].owned
    requires st.slots[i].data.Buffer? && Alone(st.slots, key, st.slots[i].data.base, i)
    ensures var b := st.slots[i].data;
      var st' := Writes(st, key, locals).0;
      && b.base in st.mem && b.base in st'.mem && b.position < b.totalSize <= |st.mem[b.base]|
      && st'.mem[b.base] == Overlay(st.mem[b.base], b.position, Landed(locals, b.totalSize - b.position))
    decreases |locals|
  {
    hide Valid;
    hide CopyFromLocal;
    hide Writes;
    hide Landed;
    hide Alone;
    hide Overlay;
    SinkFits(st, key);
    var b := st.slots[i].data;
    var block, room := st.mem[b.base], b.totalSize - b.position;
    WritesStep(st, key, locals);
    LandedStep(locals, room);
    if locals == [] {
      OverlayNothing(block, b.position);
    } else {
      CopyFromLocalValid(st, key, locals[0]);
      FirstWriteLands(st, key, locals[0], i);
      var (st1, n) := CopyFromLocal(st, key, locals[0]);
      if n == room {
        WritesElsewhere(st1, key, locals[1..], b.base, i);
      } else {
        WritesLand(st1, key, locals[1..], i);
        assert locals[0][..n] == locals[0];
        OverlayTwice(block, b.position, locals[0], Landed(locals[1..], room - n));
      }
    }
  }

  lemma WritesStep(st: State, key: Key, locals: seq<seq<uint8>>)
    requires Valid(st)
    ensures locals == [] ==> Writes(st, key, locals).0 == st
    ensures locals != [] ==>
      var st1 := CopyFromLocal(st, key, locals[0]).0;
      Valid(st1) && Writes(st, key, locals).0 == Writes(st1, key, locals[1..]).0
  {
    hide CopyFromLocal;
    hide Valid;
    if locals != [] { CopyFromLocalValid(st, key, locals[0]); }
  }

  lemma LandedStep(locals: seq<seq<uint8>>, room: nat)
    ensures locals == [] ==> Landed(locals, room) == []
    ensures locals != [] && |locals[0]| >= room ==> Landed(locals, room) == locals[0][..room]
    ensures locals != [] && |locals[0]| < room ==>
      Landed(locals, room) == locals[0] + Landed(locals[1..], room - |locals[0]|)
  {
  }

  lemma OverlayNothing(block: seq<uint8>, at: nat)
    requires at <= |block|
    ensures Overlay(block, at, []) == block
  {
  }

  /** The first of these writes: the sink is full and gone, or it goes on where the write ended. */
  lemma FirstWriteLands(st: State, key: Key, local: seq<uint8>, i: Slot)
    requires Valid(st) && Sink(st, key) == Some(i) && !st.slots[i].owned
    requires st.slots[i].data.Buffer? && Alone(st.slots, key, st.slots[i].data.base, i)
    ensures var b := st.slots[i].data;
      var (st1, n) := CopyFromLocal(st, key, local);
      && b.base in st.mem && b.base in st1.mem && b.position < b.totalSize <= |st.mem[b.base]|
      && n == Min(|local|, b.totalSize - b.position)
      && st1.mem[b.base] == Overlay(st.mem[b.base], b.position, local[..n])
      && Alone(st1.slots, key, b.base, i)
      && if b.position + n == b.totalSize then !Matches(st1.slots[i], key, DataBuffer)
         else Sink(st1, key) == Some(i) && !st1.slots[i].owned && st1.slots[i].data == b.(position := b.position + n)
  {
    SinkFits(st, key);
    WriteEffect(st, key, local);
    FindIsNearest(st.slots, key, DataBuffer);
    var (st1, n) := CopyFromLocal(st, key, local);
    hide Valid;
    hide CopyFromLocal;
    hide Overlay;
    if n < st.slots[i].data.totalSize - st.slots[i].data.position {
      Rewritten(st.slots, key, DataBuffer, i, st1.slots[i]);
    }
  }

  /** So writes that fit fill the block with exactly their bytes. */
  lemma WritesFill(st: State, key: Key, locals: seq<seq<uint8>>, i: Slot)
    requires Valid(st) && Sink(st, key) == Some(i) && !st.slots[i].owned
    requires st.slots[i].data.Buffer? && Alone(st.slots, key, st.slots[i].data.base, i)
    requires |Flatten(locals)| <= st.slots[i].data.totalSize - st.slots[i].data.position
    ensures var b := st.slots[i].data;
      var st' := Writes(st, key, locals).0;
      && b.base in st.mem && b.base in st'.mem && b.position < b.totalSize <= |st.mem[b.base]|
      && st'.mem[b.base] == Overlay(st.mem[b.base], b.position, Flatten(locals))
  {
    hide Valid;
    hide Alone;
    hide Writes;
    WritesLand(st, key, locals, i);
    LandedWhole(locals, st.slots[i].data.totalSize - st.slots[i].data.position);
  }

  // ---- Room is conserved

  function Sum(counts: seq<nat>): nat {
    if counts == [] then 0 else counts[0] + Sum(counts[1..])
  }

  function RoomOf(e: Entry): nat {
    if e.data.Buffer? && e.data.position <= e.data.totalSize then e.data.totalSize - e.data.position else 0
  }

  /** The bytes still to be read or written in the pending buffers of a queue. */
  function Space(q: seq<Entry>): nat {
    if q == [] then 0 else RoomOf(q[0]) + Space(q[1..])
  }

  lemma SpaceHead(e: Entry, rest: seq<Entry>)
    ensures Space([e] + rest) == RoomOf(e) + Space(rest)
  {
    assert ([e] + rest)[1..] == rest;
  }

  lemma WriteSpace(st: State, key: Key, local: seq<uint8>)
    requires Valid(st)
    ensures var (st', n) := CopyFromLocal(st, key, local);
      Space(Queue(st'.slots, key, DataBuffer)) + n == Space(Queue(st.slots, key, DataBuffer))
  {
    hide CopyFromLocal;
    hide Valid;
    hide Queue;
    hide Space;
    WriteEffect(st, key, local);
    if Sink(st, key).Some? {
      var i := Sink(st, key).value;
      SinkFits(st, key);
      var e := CopyFromLocal(st, key, local).0.slots[i];
      var q := Queue(st.slots, key, DataBuffer);
      QueueHead(st.slots, key, DataBuffer, i, e);
      assert q == [st.slots[i]] + q[1..];
      SpaceHead(st.slots[i], q[1..]);
      if e == UNUSED {
        NilPlus(q[1..]);
      } else {
        SpaceHead(e, q[1..]);
      }
    }
  }

  /** Whatever the sizes of the writes, the bytes taken and the room that is left add up to the room
      there was. */
  lemma {:induction false} RoomConserved(st: State, key: Key, locals: seq<seq<uint8>>)
    requires Valid(st)
    ensures var (st', counts) := Writes(st, key, locals);
      && |counts| == |locals|
      && Sum(counts) + Space(Queue(st'.slots, key, DataBuffer)) == Space(Queue(st.slots, key, DataBuffer))
    decreases |locals|
  {
    hide Valid;
    hide CopyFromLocal;
    hide Queue;
    hide Space;
    if locals != [] {
      CopyFromLocalValid(st, key, locals[0]);
      WriteSpace(st, key, locals[0]);
      var (st1, n) := CopyFromLocal(st, key, locals[0]);
      RoomConserved(st1, key, locals[1..]);
      var (st2, rest) := Writes(st1, key, locals[1..]);
      assert ([n] + rest)[1..] == rest;
    }
  }
}
