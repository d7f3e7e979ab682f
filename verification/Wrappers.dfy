/** Small types shared by the models of the C modules. */
module Wrappers {
  datatype Option<+T> = None | Some(value: T) {
    /** The value in Some, or the given default. */
    function GetOr(default: T): T {
      match this
      case Some(v) => v
      case None => default
    }
  }

  type uint8 = x: int | 0 <= x < 0x100
  type uint16 = x: int | 0 <= x < 0x1_0000
  type uint32 = x: int | 0 <= x < 0x1_0000_0000
  type uint64 = x: int | 0 <= x < 0x1_0000_0000_0000_0000
  type int32 = x: int | -0x8000_0000 <= x < 0x8000_0000

  /** 2^32. */
  const WRAP32 := 0x1_0000_0000

  /** The conversion of an unsigned integer to int32. */
  function ToInt32(x: nat): int32 {
    var low := x % WRAP32;
    if low < 0x8000_0000 then low else low - WRAP32
  }

  /** It is congruent to the integer, and in the range of int32 by its type. */
  lemma ToInt32Is(x: nat)
    ensures (ToInt32(x) - x) % WRAP32 == 0
    ensures x < 0x8000_0000 ==> ToInt32(x) == x
  {
    var q, low := x / WRAP32, x % WRAP32;
    assert x == q * WRAP32 + low;
    assert ToInt32(x) - x == (if low < 0x8000_0000 then -q else -q - 1) * WRAP32;
  }

  /** `++x` on a C uint16. */
  function Inc16(x: uint16): uint16 { (x + 1) % 0x1_0000 }

  /** `++x` on a C uint32. */
  function Inc32(x: uint32): uint32 { (x + 1) % WRAP32 }

  /** `a + b` on C uint32. */
  function Add32(a: uint32, b: uint32): uint32 { (a + b) % WRAP32 }

  /** Counting wraps around where adding does. */
  lemma Add32Mod(a: nat, b: nat)
    ensures Add32(a % WRAP32, b % WRAP32) == (a + b) % WRAP32
    ensures Inc32(a % WRAP32) == (a + 1) % WRAP32
  {
  }

  function Min(a: int, b: int): int {
    if a < b then a else b
  }

  /** `to` holds the elements of `from` at these places, in their order. */
  ghost predicate Picks<X>(from: seq<X>, at: seq<nat>, to: seq<X>) {
    && |at| == |to|
    && (forall i, j :: 0 <= i < j < |at| ==> at[i] < at[j])
    && (forall i :: 0 <= i < |at| ==> at[i] < |from| && from[at[i]] == to[i])
  }

  lemma PicksMore<X>(from: seq<X>, at: seq<nat>, to: seq<X>, x: X)
    requires Picks(from, at, to)
    ensures Picks(from + [x], at, to) && Picks(from + [x], at + [|from|], to + [x])
  {
  }

  /** Cutting a sequence in front of its end. */
  lemma SplitAppend<X>(s: seq<X>, t: seq<X>, k: nat)
    requires k <= |s|
    ensures (s + t)[..k] == s[..k] && (s + t)[k..] == s[k..] + t
  {
  }
}
