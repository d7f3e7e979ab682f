/** A file opened for writing, as far as the programs that write listings and tables see it. */
module OutputFiles {
  import opened Wrappers

  /** `content` with `b` written at `pos`. */
  function Written(content: seq<uint8>, pos: nat, b: seq<uint8>): seq<uint8>
    requires pos <= |content|
  {
    content[..pos] + b + if pos + |b| <= |content| then content[pos + |b|..] else []
  }

  lemma WrittenAt(content: seq<uint8>, pos: nat, b: seq<uint8>)
    requires pos <= |content|
    ensures var r := Written(content, pos, b);
      && |content| <= |r| && pos + |b| <= |r| && r[..pos] == content[..pos] && r[pos..pos + |b|] == b
      && r[pos + |b|..] == (if pos + |b| <= |content| then content[pos + |b|..] else [])
      && (pos == |content| ==> r == content + b)
  {
  }

  class OutputFile {
    var content: seq<uint8>
    var pos: nat
    var writes: nat
    /** The result that the operating system gives to each write: what it wrote, or an error below zero. */
    const results: nat -> int

    constructor (results: nat -> int)
      ensures Valid() && content == [] && pos == 0 && writes == 0 && this.results == results
    {
      this.results := results;
      content, pos, writes := [], 0, 0;
    }

    predicate Valid()
      reads this
    {
      pos <= |content|
    }

    /** OS_write or fwrite: all of the bytes, some of them, or an error. */
    method Write(b: seq<uint8>) returns (n: int)
      requires Valid()
      modifies this`content, this`pos, this`writes
      ensures Valid() && writes == old(writes) + 1
      ensures n == Min(results(old(writes)), |b|)
      ensures n == |b| ==> content == Written(old(content), old(pos), b) && pos == old(pos) + |b| <= |content|
      ensures n == |b| && old(pos) == |old(content)| ==> content == old(content) + b
    {
      n := Min(results(writes), |b|);
      WrittenAt(content, pos, b);
      if n > 0 { WrittenAt(content, pos, b[..n]); }
      writes := writes + 1;
      if n > 0 {
        content := Written(content, pos, b[..n]);
        pos := pos + n;
        assert n == |b| ==> b[..n] == b;
      } else if b == [] {
        assert Written(content, pos, b) == content;
      }
    }

    /** OS_lseek from the start, within the file. */
    method Seek(at: nat)
      requires Valid() && at <= |content|
      modifies this`pos
      ensures Valid() && pos == at
    {
      pos := at;
    }
  }
}
