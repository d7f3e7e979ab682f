/** Integers and strings as bytes in memory and in files. */
module Bytes {
  import opened Wrappers

  function Little16(x: uint16): (b: seq<uint8>)
    ensures |b| == 2
  {
    [x % 256, x / 256]
  }

  function Little32(x: uint32): (b: seq<uint8>)
    ensures |b| == 4
  {
    Little16(x % 0x1_0000) + Little16(x / 0x1_0000)
  }

  function FromLittle16(b: seq<uint8>): uint16
    requires |b| == 2
  {
    var low: int, high: int := b[0], b[1];
    low + 256 * high
  }

  function FromLittle32(b: seq<uint8>): uint32
    requires |b| == 4
  {
    var low: int, high: int := FromLittle16(b[..2]), FromLittle16(b[2..]);
    low + 0x1_0000 * high
  }

  function Big16(x: uint16): (b: seq<uint8>)
    ensures |b| == 2
  {
    [x / 256, x % 256]
  }

  function Big32(x: uint32): (b: seq<uint8>)
    ensures |b| == 4
  {
    Big16(x / 0x1_0000) + Big16(x % 0x1_0000)
  }

  function FromBig32(b: seq<uint8>): uint32
    requires |b| == 4
  {
    FromLittle32([b[3], b[2], b[1], b[0]])
  }

  lemma Little16ReadBack(x: uint16)
    ensures FromLittle16(Little16(x)) == x
  {
  }

  /** Least significant byte first. */
  lemma Little32ReadBack(x: uint32)
    ensures FromLittle32(Little32(x)) == x
    ensures var b := Little32(x);
      var b0: int, b1: int, b2: int, b3: int := b[0], b[1], b[2], b[3];
      x == b0 + 0x100 * b1 + 0x1_0000 * b2 + 0x100_0000 * b3
  {
    Little16ReadBack(x % 0x1_0000);
    Little16ReadBack(x / 0x1_0000);
    hide Little16;
    hide FromLittle16;
    assert Little32(x)[..2] == Little16(x % 0x1_0000) && Little32(x)[2..] == Little16(x / 0x1_0000);
  }

  /** Most significant byte first. */
  lemma Big32ReadBack(x: uint32)
    ensures FromBig32(Big32(x)) == x
    ensures var b := Big32(x);
      var b0: int, b1: int, b2: int, b3: int := b[0], b[1], b[2], b[3];
      x == 0x100_0000 * b0 + 0x1_0000 * b1 + 0x100 * b2 + b3
  {
    var b := Big32(x);
    assert [b[3], b[2], b[1], b[0]] == Little32(x);
    Little32ReadBack(x);
  }

  function Zeros(n: nat): (b: seq<uint8>)
    ensures |b| == n
  {
    seq(n, _ => 0)
  }

  // ---- Strings in character arrays

  /** A C string without its terminator. */
  type cstring = s: seq<uint8> | 0 !in s

  /** The string at the start of a character array. */
  function CString(b: seq<uint8>): cstring {
    if b == [] || b[0] == 0 then [] else [b[0]] + CString(b[1..])
  }

  lemma {:induction false} CStringOf(s: cstring, rest: seq<uint8>)
    ensures CString(s + [0] + rest) == s
  {
    if s == [] {
      assert (s + [0] + rest)[0] == 0;
    } else {
      var t: cstring := s[1..];
      CStringOf(t, rest);
      assert (s + [0] + rest)[1..] == t + [0] + rest && s[0] in s;
    }
  }

  /** A name copied over what an array held before. */
  function NameOver(name: cstring, buffer: seq<uint8>): (b: seq<uint8>)
    requires |name| < |buffer|
    ensures |b| == |buffer|
  {
    name + [0] + buffer[|name| + 1..]
  }
}
