/**
 The stub object IDs of utstub-helpers.c: a bitmap of live indices per object type,
 and the packing of index and type into one ID.
 */
module StubObjIds {
  import opened Wrappers
  import opened StubEntries
  import opened StubOps
  import StubTable

  const OS_OBJECT_TYPE_UNDEFINED := 0
  const OS_OBJECT_TYPE_OS_QUEUE: bv32 := 2
  const OS_OBJECT_TYPE_USER := 16
  const VALID_BYTES := 16
  const LAST_INDEX := 8 * VALID_BYTES - 1

  // ---- Packing

  /** UT_ObjIdCompose, on the 32 bits of an osal_id_t. */
  function Compose(indx: bv32, objtype: bv32): bv32 {
    indx | ((0x4000 | objtype) << 16)
  }

  /** UT_ObjIdDecompose: index and type. */
  function Decompose(id: bv32): (bv32, bv32) {
    (id & 0xFFFF, (id >> 16) ^ 0x4000)
  }

  /** Unpacking recovers index and type exactly when both fit in 16 bits and the
      type does not use the bit that marks an ID. */
  lemma DecomposeCompose(indx: bv32, objtype: bv32)
    ensures Decompose(Compose(indx, objtype)) == (indx, objtype)
      <==> indx <= 0xFFFF && objtype <= 0xFFFF && objtype & 0x4000 == 0
  {
    var id := Compose(indx, objtype);
    assert id & 0xFFFF == indx & 0xFFFF;
    assert (id >> 16) ^ 0x4000 == (((indx >> 16) | objtype | 0x4000) & 0xFFFF) ^ 0x4000;
  }

  /** Packing recovers an ID exactly when it carries the mark. */
  lemma ComposeDecompose(id: bv32)
    ensures Compose(Decompose(id).0, Decompose(id).1) == id <==> id & 0x4000_0000 != 0
  {
  }

  // ---- The live indices of one type

  /** What one type's state means: the last index issued and the live indices. */
  datatype Ids = Ids(last: nat, live: set<nat>)

  ghost predicate IdsOk(s: Ids) {
    s.last <= LAST_INDEX && forall i :: i in s.live ==> 1 <= i <= s.last
  }

  /** The index the next allocation issues; it stops at the last bit of the map. */
  function NextIndex(s: Ids): nat {
    if s.last < LAST_INDEX then s.last + 1 else s.last
  }

  function Allocate(s: Ids): Ids {
    Ids(NextIndex(s), s.live + {NextIndex(s)})
  }

  function Release(s: Ids, i: nat): Ids {
    s.(live := s.live - {i})
  }

  datatype IdOp = Issue | Drop(index: nat)

  ghost function After(s: Ids, ops: seq<IdOp>): Ids {
    if ops == [] then s
    else
      var p := After(s, ops[..|ops| - 1]);
      match ops[|ops| - 1]
      case Issue => Allocate(p)
      case Drop(i) => Release(p, i)
  }

  /** The indices issued in a run, in order. */
  ghost function Issued(s: Ids, ops: seq<IdOp>): seq<nat> {
    if ops == [] then []
    else
      Issued(s, ops[..|ops| - 1]) +
        if ops[|ops| - 1] == Issue then [NextIndex(After(s, ops[..|ops| - 1]))] else []
  }

  /** Whether index `i` has been issued and not dropped since. */
  ghost predicate Outstanding(s: Ids, ops: seq<IdOp>, i: nat) {
    ops != [] &&
    match ops[|ops| - 1]
    case Issue => i == NextIndex(After(s, ops[..|ops| - 1])) || Outstanding(s, ops[..|ops| - 1], i)
    case Drop(j) => i != j && Outstanding(s, ops[..|ops| - 1], i)
  }

  /** From the cleared state on, indices are issued as 1, 2, 3, ... and then 127 again and
      again; the live ones are those issued and not dropped; and a reissue of a live
      index can only be of 127. */
  lemma {:induction false} IssueOrder(ops: seq<IdOp>)
    ensures var s := After(Ids(0, {}), ops);
      var issued := Issued(Ids(0, {}), ops);
      && IdsOk(s)
      && s.last == (if |issued| < LAST_INDEX then |issued| else LAST_INDEX)
      && (forall k :: 0 <= k < |issued| ==> issued[k] == if k < LAST_INDEX then k + 1 else LAST_INDEX)
      && (forall i :: i in s.live <==> Outstanding(Ids(0, {}), ops, i))
      && (NextIndex(s) in s.live <==> s.last == LAST_INDEX && LAST_INDEX in s.live)
  {
    if ops != [] {
      IssueOrder(ops[..|ops| - 1]);
    }
  }

  // ---- The bitmap

  /** `1 << k`. */
  function Mask(k: nat): bv8 {
    match k
    case 0 => 1
    case 1 => 2
    case 2 => 4
    case 3 => 8
    case 4 => 16
    case 5 => 32
    case 6 => 64
    case _ => 128
  }

  predicate Bit(b: bv8, k: nat) {
    b & Mask(k) != 0
  }

  /** Setting and clearing one bit of a byte leaves the other bits alone. */
  lemma ByteBits(b: bv8, i: nat, j: nat)
    requires i < 8 && j < 8
    ensures Bit(b | Mask(i), j) <==> i == j || Bit(b, j)
    ensures Bit(b & !Mask(i), j) <==> i != j && Bit(b, j)
  {
  }

  lemma OtherBits(b: bv8, i: nat)
    requires i < 8
    ensures forall j: nat :: j < 8 ==> (Bit(b & !Mask(i), j) <==> Bit(b, j) && i != j)
  {
    hide Bit;
    hide Mask;
    forall j: nat | j < 8 { ByteBits(b, i, j); }
  }

  lemma SameByte(i: nat, j: nat)
    requires i / 8 == j / 8
    ensures i % 8 == j % 8 <==> i == j
  {
    assert i == 8 * (i / 8) + i % 8 && j == 8 * (j / 8) + j % 8;
  }

  // ---- The memory of all types, one after the other

  /** The bytes of one UT_ObjTypeState_t: a uint32 and the map. */
  const STATE_LEN := 4 + VALID_BYTES

  /** What a bit at some index of a map, or behind it, belongs to. */
  datatype Spot = MapBit(objType: nat, index: nat) | LastBit(objType: nat, bit: nat) | Outside

  function SpotOf(objType: nat, indx: nat): (spot: Spot)
    ensures spot.MapBit? ==> spot.objType < OS_OBJECT_TYPE_USER && spot.index <= LAST_INDEX
    ensures spot.LastBit? ==> spot.objType < OS_OBJECT_TYPE_USER && spot.bit < 32
  {
    var at := objType * STATE_LEN + 4 + indx / 8;
    var t, r := at / STATE_LEN, at % STATE_LEN;
    if t >= OS_OBJECT_TYPE_USER then Outside
    else if r < 4 then LastBit(t, 8 * r + indx % 8)
    else MapBit(t, 8 * (r - 4) + indx % 8)
  }

  /** The bit is that in the byte at this address, with 20 bytes for each of the 16 types: four of its last
      issue number, and its map. */
  lemma SpotAddress(objType: nat, indx: nat)
    ensures var at := 20 * objType + 4 + indx / 8;
      match SpotOf(objType, indx)
      case MapBit(t, i) => 20 * t + 4 + i / 8 == at && i % 8 == indx % 8 && i < 128 && t < 16
      case LastBit(t, k) => 20 * t + k / 8 == at && k % 8 == indx % 8 && k < 32 && t < 16
      case Outside => at >= 320
  {
    var at := 20 * objType + 4 + indx / 8;
    var t, r, b := at / 20, at % 20, indx % 8;
    assert at == 20 * t + r;
    assert (8 * r + b) / 8 == r && (8 * r + b) % 8 == b;
    if r >= 4 { assert (8 * (r - 4) + b) / 8 == r - 4 && (8 * (r - 4) + b) % 8 == b; }
  }

  /** A bit of a map is its own if and only if the index is in range. */
  lemma SpotInRange(objType: nat, indx: nat)
    requires objType < OS_OBJECT_TYPE_USER
    ensures SpotOf(objType, indx) == MapBit(objType, indx) <==> indx <= LAST_INDEX
    ensures indx > LAST_INDEX ==> SpotOf(objType, indx).Outside? || SpotOf(objType, indx).objType > objType
  {
    var b := indx / 8;
    var at := objType * STATE_LEN + 4 + b;
    if b < VALID_BYTES {
      assert at / STATE_LEN == objType && at % STATE_LEN == 4 + b;
    } else {
      assert at / STATE_LEN > objType;
    }
  }

  /** Bit `k` of a number, and the number without it. */
  predicate HasBit(n: nat, k: nat) {
    if k == 0 then n % 2 == 1 else HasBit(n / 2, k - 1)
  }

  function WithoutBit(n: nat, k: nat): nat {
    if k == 0 then n - n % 2 else 2 * WithoutBit(n / 2, k - 1) + n % 2
  }

  lemma {:induction false} ZeroBits(k: nat)
    ensures !HasBit(0, k)
  {
    if k > 0 { ZeroBits(k - 1); }
  }

  lemma {:induction false} WithoutBitBits(n: nat, k: nat, j: nat)
    ensures HasBit(WithoutBit(n, k), j) <==> j != k && HasBit(n, j)
  {
    if k > 0 && j > 0 { WithoutBitBits(n / 2, k - 1, j - 1); }
    if k > 0 { assert WithoutBit(n, k) / 2 == WithoutBit(n / 2, k - 1) && WithoutBit(n, k) % 2 == n % 2; }
    if k == 0 { assert WithoutBit(n, k) / 2 == n / 2; }
  }

  /** Whether the bit is set in the state of its type. */
  predicate IsSet(s: Ids, spot: Spot) {
    match spot
    case MapBit(_, i) => i in s.live
    case LastBit(_, k) => HasBit(s.last, k)
    case Outside => false
  }

  lemma NothingSet(spot: Spot)
    ensures !IsSet(Ids(0, {}), spot)
  {
    if spot.LastBit? { ZeroBits(spot.bit); }
  }

  /** The state of type `t` after a bit has been cleared somewhere. */
  function Hit(s: Ids, spot: Spot, t: nat): Ids {
    match spot
    case MapBit(u, i) => if u == t then Release(s, i) else s
    case LastBit(u, k) => if u == t then s.(last := WithoutBit(s.last, k)) else s
    case Outside => s
  }

  /** The failures that a deletion records. */
  datatype DeleteFailures = DeleteFailures(wrongType: bool, outOfRange: bool, neverCreated: bool)

  class ObjectIds {
    const lastIssue: array<nat>
    const validBits: array2<bv8>

    ghost predicate Shape()
      reads this
    {
      lastIssue.Length == OS_OBJECT_TYPE_USER && validBits.Length0 == OS_OBJECT_TYPE_USER
        && validBits.Length1 == VALID_BYTES
    }

    ghost predicate Live(objType: nat, i: nat)
      reads this, validBits
      requires Shape() && objType < OS_OBJECT_TYPE_USER && i <= LAST_INDEX
    {
      Bit(validBits[objType, i / 8], i % 8)
    }

    /** What the state of one type means. */
    ghost function State(objType: nat): Ids
      reads this, lastIssue, validBits
      requires Shape() && objType < OS_OBJECT_TYPE_USER
    {
      Ids(lastIssue[objType], set i: nat | i <= LAST_INDEX && Live(objType, i))
    }

    ghost predicate Valid()
      reads this, lastIssue, validBits
    {
      Shape() && forall t :: 0 <= t < OS_OBJECT_TYPE_USER ==> IdsOk(State(t))
    }

    constructor ()
      ensures Valid() && fresh(lastIssue) && fresh(validBits)
      ensures forall t :: 0 <= t < OS_OBJECT_TYPE_USER ==> State(t) == Ids(0, {})
    {
      lastIssue := new nat[OS_OBJECT_TYPE_USER](_ => 0);
      validBits := new bv8[OS_OBJECT_TYPE_USER, VALID_BYTES]((_, _) => 0);
    }

    /** UT_ClearAllStubObjects. */
    method ClearAll()
      requires Shape()
      modifies lastIssue, validBits
      ensures Valid()
      ensures forall t :: 0 <= t < OS_OBJECT_TYPE_USER ==> State(t) == Ids(0, {})
    {
      forall t | 0 <= t < OS_OBJECT_TYPE_USER { lastIssue[t] := 0; }
      forall t, k | 0 <= t < OS_OBJECT_TYPE_USER && 0 <= k < VALID_BYTES { validBits[t, k] := 0; }
    }

    /** Sets a bit of the map and tells whether it was set before. */
    method SetBit(objType: nat, indx: nat) returns (was: bool)
      requires Shape() && objType < OS_OBJECT_TYPE_USER && indx <= LAST_INDEX
      modifies validBits
      ensures was <==> old(Live(objType, indx))
      ensures forall t, i: nat {:trigger Live(t, i)} :: 0 <= t < OS_OBJECT_TYPE_USER && i <= LAST_INDEX ==>
        (Live(t, i) <==> (t == objType && i == indx) || old(Live(t, i)))
    {
      hide Bit;
      var b := validBits[objType, indx / 8];
      was := Bit(b, indx % 8);
      validBits[objType, indx / 8] := b | Mask(indx % 8);
      forall t, i: nat | 0 <= t < OS_OBJECT_TYPE_USER && i <= LAST_INDEX
        ensures Live(t, i) <==> (t == objType && i == indx) || old(Live(t, i))
      {
        if t == objType && i / 8 == indx / 8 {
          SameByte(indx, i);
          ByteBits(b, indx % 8, i % 8);
        }
      }
    }

    /** Clears a bit of the map if it is set, and tells whether it was. */
    method ClearBit(objType: nat, indx: nat) returns (was: bool)
      requires Shape() && objType < OS_OBJECT_TYPE_USER && indx <= LAST_INDEX
      modifies validBits
      ensures was <==> old(Live(objType, indx))
      ensures forall t, i: nat {:trigger Live(t, i)} :: 0 <= t < OS_OBJECT_TYPE_USER && i <= LAST_INDEX ==>
        (Live(t, i) <==> !(t == objType && i == indx) && old(Live(t, i)))
    {
      hide Bit;
      var b := validBits[objType, indx / 8];
      was := Bit(b, indx % 8);
      if was {
        validBits[objType, indx / 8] := b & !Mask(indx % 8);
      }
      forall t, i: nat | 0 <= t < OS_OBJECT_TYPE_USER && i <= LAST_INDEX
        ensures Live(t, i) <==> !(t == objType && i == indx) && old(Live(t, i))
      {
        if t == objType && i / 8 == indx / 8 {
          SameByte(indx, i);
          ByteBits(b, indx % 8, i % 8);
        }
      }
    }

    /** The body of UT_AllocStubObjId for a type in range. `overlap` is the recorded failure. */
    method Alloc(objType: nat) returns (indx: nat, overlap: bool)
      requires Valid() && OS_OBJECT_TYPE_UNDEFINED < objType < OS_OBJECT_TYPE_USER
      modifies lastIssue, validBits
      ensures Valid()
      ensures State(objType) == Allocate(old(State(objType)))
      ensures forall t :: 0 <= t < OS_OBJECT_TYPE_USER && t != objType ==> State(t) == old(State(t))
      ensures overlap <==> NextIndex(old(State(objType))) in old(State(objType)).live
      ensures indx == State(objType).last
    {
      hide Live;
      assert IdsOk(State(objType));
      if lastIssue[objType] < LAST_INDEX {
        lastIssue[objType] := lastIssue[objType] + 1;
      }
      indx := lastIssue[objType];
      overlap := SetBit(objType, indx);
      assert State(objType).live == old(State(objType)).live + {indx};
      forall t | 0 <= t < OS_OBJECT_TYPE_USER && t != objType
        ensures State(t) == old(State(t)) && IdsOk(State(t))
      {
        assert State(t).live == old(State(t)).live;
        assert IdsOk(old(State(t)));
      }
    }

    /** Clears a bit of the last issue number if it is set, and tells whether it was. */
    method ClearLastBit(objType: nat, k: nat) returns (was: bool)
      requires Shape() && objType < OS_OBJECT_TYPE_USER
      modifies lastIssue
      ensures was <==> HasBit(old(State(objType)).last, k)
      ensures forall t :: 0 <= t < OS_OBJECT_TYPE_USER ==> State(t) == Hit(old(State(t)), LastBit(objType, k), t)
    {
      hide Live;
      hide HasBit;
      hide WithoutBit;
      was := HasBit(lastIssue[objType], k);
      lastIssue[objType] := WithoutBit(lastIssue[objType], k);
      forall t | 0 <= t < OS_OBJECT_TYPE_USER
        ensures State(t) == Hit(old(State(t)), LastBit(objType, k), t)
      {
        assert State(t).live == old(State(t)).live;
      }
    }

    /** Clears a bit of a map if it is set, and tells whether it was. */
    method ClearMapBit(objType: nat, indx: nat) returns (was: bool)
      requires Valid() && objType < OS_OBJECT_TYPE_USER && indx <= LAST_INDEX
      modifies validBits
      ensures Valid()
      ensures was <==> indx in old(State(objType)).live
      ensures forall t :: 0 <= t < OS_OBJECT_TYPE_USER ==> State(t) == Hit(old(State(t)), MapBit(objType, indx), t)
    {
      hide Live;
      was := ClearBit(objType, indx);
      forall t | 0 <= t < OS_OBJECT_TYPE_USER
        ensures State(t) == Hit(old(State(t)), MapBit(objType, indx), t) && IdsOk(State(t))
      {
        assert IdsOk(old(State(t)));
        assert State(t).live == if t == objType then old(State(t)).live - {indx} else old(State(t)).live;
      }
    }

    /** Clears a bit of the map, or of the last issue number, of some type. */
    method ClearSpot(spot: Spot) returns (was: bool)
      requires Valid() && spot != Outside && spot.objType < OS_OBJECT_TYPE_USER
      requires spot.MapBit? ==> spot.index <= LAST_INDEX
      modifies lastIssue, validBits
      ensures Shape() && (spot.MapBit? ==> Valid())
      ensures forall t :: 0 <= t < OS_OBJECT_TYPE_USER ==> State(t) == Hit(old(State(t)), spot, t)
      ensures was <==> IsSet(old(State(spot.objType)), spot)
    {
      hide Live;
      hide HasBit;
      if spot.MapBit? {
        was := ClearMapBit(spot.objType, spot.index);
      } else {
        was := ClearLastBit(spot.objType, spot.bit);
      }
    }

    /** UT_DeleteStubObjId after its one-time call and unpacking. It records up to three failures, and
        goes on after each: with an index out of range it tests and clears the bit at that place behind
        the map, in the state of a later type, or in the byte `behind` that memory holds behind all of
        them, and leaves `left` in it. Clearing a last issue number can break the invariant. */
    method Delete(objType: nat, checkidx: nat, checktype: nat, behind: bv8) returns (f: DeleteFailures, left: bv8)
      requires Valid() && objType < OS_OBJECT_TYPE_USER
      modifies lastIssue, validBits
      ensures Shape() && (!SpotOf(objType, checkidx).LastBit? ==> Valid())
      ensures forall t :: 0 <= t < OS_OBJECT_TYPE_USER ==> State(t) == Hit(old(State(t)), SpotOf(objType, checkidx), t)
      ensures var spot := SpotOf(objType, checkidx);
        f.neverCreated <==>
          if spot == Outside then !Bit(behind, checkidx % 8) else !IsSet(old(State(spot.objType)), spot)
      ensures forall k: nat :: k < 8 ==>
        (Bit(left, k) <==> Bit(behind, k) && !(SpotOf(objType, checkidx) == Outside && k == checkidx % 8))
      ensures f.wrongType <==> objType != checktype
      ensures f.outOfRange <==> checkidx > LAST_INDEX
    {
      hide Live;
      hide Bit;
      hide HasBit;
      left := behind;
      var spot := SpotOf(objType, checkidx);
      var was;
      if spot == Outside {
        was := Bit(behind, checkidx % 8);
        if was {
          left := behind & !Mask(checkidx % 8);
        }
        OtherBits(behind, checkidx % 8);
      } else {
        was := ClearSpot(spot);
      }
      f := DeleteFailures(objType != checktype, checkidx >= 8 * VALID_BYTES, !was);
    }

    /** UT_Stub_CallOnce(UT_ClearAllStubObjects): the first use after a reset of the framework clears all objects. */
    method ClearOnce(t: StubTable.StubTable, clearKey: Key) returns (ok: bool)
      requires Valid() && t.Inv() && clearKey != 0
      modifies t.table, lastIssue, validBits
      ensures Valid() && t.Inv()
      ensures match CallOnceOp(old(t.Abstract()), clearKey)
        case Abort => !ok && forall u :: 0 <= u < OS_OBJECT_TYPE_USER ==> State(u) == old(State(u))
        case Done(st, ran) =>
          && ok && t.Abstract() == st
          && forall u :: 0 <= u < OS_OBJECT_TYPE_USER ==> State(u) == if ran then Ids(0, {}) else old(State(u))
    {
      var ran;
      ok, ran := t.StubCallOnce(clearKey);
      if ok && ran { ClearAll(); }
    }

    /** UT_AllocStubObjId; None when it aborts. */
    method AllocStubObjId(t: StubTable.StubTable, clearKey: Key, objType: nat) returns (id: Option<bv32>, overlap: bool)
      requires Valid() && t.Inv() && clearKey != 0
      modifies t.table, lastIssue, validBits
      ensures Valid() && t.Inv()
      ensures match CallOnceOp(old(t.Abstract()), clearKey)
        case Abort => id == None && forall u :: 0 <= u < OS_OBJECT_TYPE_USER ==> State(u) == old(State(u))
        case Done(st, ran) =>
          && t.Abstract() == st
          && (forall u :: 0 <= u < OS_OBJECT_TYPE_USER && u != objType ==>
                State(u) == if ran then Ids(0, {}) else old(State(u)))
          && if OS_OBJECT_TYPE_UNDEFINED < objType < OS_OBJECT_TYPE_USER then
               var before := if ran then Ids(0, {}) else old(State(objType));
               && State(objType) == Allocate(before)
               && id == Some(Compose(NextIndex(before) as bv32, objType as bv32))
               && (overlap <==> NextIndex(before) in before.live)
             else
               && id == None
               && (objType == OS_OBJECT_TYPE_UNDEFINED ==>
                     State(objType) == if ran then Ids(0, {}) else old(State(objType)))
    {
      id, overlap := None, false;
      var ok := ClearOnce(t, clearKey);
      if !ok || objType == OS_OBJECT_TYPE_UNDEFINED || objType >= OS_OBJECT_TYPE_USER { return; }
      var indx;
      indx, overlap := Alloc(objType);
      id := Some(Compose(indx as bv32, objType as bv32));
    }

    /** UT_DeleteStubObjId; None when the one-time call aborts. */
    method DeleteStubObjId(t: StubTable.StubTable, clearKey: Key, objType: nat, id: bv32, behind: bv8)
      returns (f: Option<DeleteFailures>, left: bv8)
      requires Valid() && t.Inv() && clearKey != 0 && objType < OS_OBJECT_TYPE_USER
      modifies t.table, lastIssue, validBits
      ensures Shape() && t.Inv()
      ensures f == None || !SpotOf(objType, Decompose(id).0 as nat).LastBit? ==> Valid()
      ensures match CallOnceOp(old(t.Abstract()), clearKey)
        case Abort => f == None && forall u :: 0 <= u < OS_OBJECT_TYPE_USER ==> State(u) == old(State(u))
        case Done(st, ran) =>
          var i := Decompose(id).0 as nat;
          var spot := SpotOf(objType, i);
          && f.Some? && t.Abstract() == st
          && (forall u :: 0 <= u < OS_OBJECT_TYPE_USER ==>
                State(u) == Hit(if ran then Ids(0, {}) else old(State(u)), spot, u))
          && (f.value.wrongType <==> objType != Decompose(id).1 as nat)
          && (f.value.outOfRange <==> i > LAST_INDEX)
          && (f.value.neverCreated <==>
                if spot == Outside then !Bit(behind, i % 8) else ran || !IsSet(old(State(spot.objType)), spot))
    {
      hide HasBit;
      hide WithoutBit;
      hide Bit;
      hide Decompose;
      hide SpotOf;
      var ok := ClearOnce(t, clearKey);
      if !ok { return None, behind; }
      var (checkidx, checktype) := Decompose(id);
      NothingSet(SpotOf(objType, checkidx as nat));
      var failures;
      failures, left := Delete(objType, checkidx as nat, checktype as nat, behind);
      f := Some(failures);
    }
  }
}
