/** Reading structures and names from an object file. */
module ElfInput {
  import opened Wrappers
  import opened Bytes
  import opened ElfFields
  import opened ElfTableFile

  /** fread of a structure of `n` bytes. */
  method ReadImage(bytes: seq<uint8>, at: nat, n: nat) returns (image: array?<uint8>)
    ensures image != null <==> at + n <= |bytes|
    ensures image != null ==> fresh(image) && image[..] == bytes[at..at + n]
  {
    if at + n > |bytes| {
      return null;
    }
    image := new uint8[n];
    var k := 0;
    while k < n
      invariant 0 <= k <= n && image[..k] == bytes[at..at + k]
    {
      image[k] := bytes[at + k];
      assert image[..k + 1] == image[..k] + [bytes[at + k]];
      k := k + 1;
    }
    assert image[..] == image[..n];
  }

  lemma {:induction false} NameFromGrows(bytes: seq<uint8>, at: nat, name: cstring, max: nat)
    requires |name| <= max && forall k :: 0 <= k < |name| ==> name[k] == ByteAt(bytes, at + k)
    ensures |name| == max || ByteAt(bytes, at + |name|) == 0 ==> NameFrom(bytes, at, max) == name
    decreases |name|
  {
    if name != [] {
      var rest: cstring := name[1..];
      forall k | 0 <= k < |rest| ensures rest[k] == ByteAt(bytes, at + 1 + k) {
        assert name[k + 1] == ByteAt(bytes, at + (k + 1));
      }
      assert name[0] == ByteAt(bytes, at + 0) && name[0] in name;
      NameFromGrows(bytes, at + 1, rest, max - 1);
    }
  }

  /** The loops of fgetc that read a name. */
  method ReadString(bytes: seq<uint8>, at: nat, max: nat) returns (name: cstring)
    ensures name == NameFrom(bytes, at, max)
  {
    hide NameFrom;
    var pos := at;
    name := [];
    while |name| < max && ByteAt(bytes, pos) != 0
      invariant |name| <= max && pos == at + |name|
      invariant forall k :: 0 <= k < |name| ==> name[k] == ByteAt(bytes, at + k)
    {
      name := name + [ByteAt(bytes, pos)];
      pos := pos + 1;
    }
    NameFromGrows(bytes, at, name, max);
  }
}
