/**
 CalculateCRC and the reading loop of cfe_ts_crc.c, with C's promotion of the signed
 16-bit running value to 32 bits written out.
 */
module Crc {
  import opened CrcTable
  import opened CrcRegister

  /** The value of an int16 as an int: the sign bit fills the upper half. */
  function Promote(c: bv16): bv32 {
    if c & 0x8000 == 0 then c as bv32 else (c as bv32) | 0xFFFF_0000
  }

  /** `>> 8` on a signed int. */
  function ShiftRight8(x: bv32): bv32 {
    if x & 0x8000_0000 == 0 then x >> 8 else (x >> 8) | 0xFF00_0000
  }

  /** Assignment of an int to an int16: the low half. */
  function Narrow(x: bv32): bv16 {
    (x & 0xFFFF) as bv16
  }

  /** The index computed in one iteration. */
  function Index(crc: bv16, b: bv8): (r: bv16)
    ensures r < 256
  {
    Narrow((Promote(crc) ^ (b as bv32)) & 0x00FF)
  }

  /** The sign extension of the running value never reaches the index ... */
  lemma IndexIgnoresSign(crc: bv16, b: bv8)
    ensures Index(crc, b) == Xor(crc, b as bv16) & 0xFF
  {
    if crc & 0x8000 == 0 {
      assert ((crc as bv32) ^ (b as bv32)) & 0xFF & 0xFFFF == ((crc ^ (b as bv16)) & 0xFF) as bv32;
    } else {
      assert (((crc as bv32) | 0xFFFF_0000) ^ (b as bv32)) & 0xFF & 0xFFFF == ((crc ^ (b as bv16)) & 0xFF) as bv32;
    }
  }

  /** ... nor the part that is shifted down ... */
  lemma ShiftIgnoresSign(crc: bv16)
    ensures ShiftRight8(Promote(crc)) & 0x00FF == (crc >> 8) as bv32
  {
    if crc & 0x8000 == 0 {
      assert ((crc as bv32) >> 8) & 0xFF == (crc >> 8) as bv32;
    } else {
      assert ((((crc as bv32) | 0xFFFF_0000) >> 8) | 0xFF00_0000) & 0xFF == (crc >> 8) as bv32;
    }
  }

  /** ... and is cut off when a result is passed back in. */
  lemma NarrowPromote(crc: bv16)
    ensures Narrow(Promote(crc)) == crc
  {
    LowHalf(crc);
    WidenNarrow(crc);
    var wide := crc as bv32;
    assert Promote(crc) == wide || Promote(crc) == wide | 0xFFFF_0000;
    hide Promote;
  }

  /** A result is the CRC in its low half, and copies of its sign bit above. */
  lemma PromoteIs(c: bv16)
    ensures Promote(c) & 0xFFFF == c as bv32
    ensures Promote(c) & 0xFFFF_0000 == if Promote(c) & 0x8000 == 0 then 0 else 0xFFFF_0000
  {
    LowHalf(c);
    assert (c as bv32) & 0x8000 == 0 <==> c & 0x8000 == 0;
    assert ((c as bv32) | 0xFFFF_0000) & 0x8000 == (c as bv32) & 0x8000;
    assert (c as bv32) & 0xFFFF_0000 == 0 && ((c as bv32) | 0xFFFF_0000) & 0xFFFF_0000 == 0xFFFF_0000;
  }

  lemma LowHalf(c: bv16)
    ensures (c as bv32) & 0xFFFF == c as bv32 && ((c as bv32) | 0xFFFF_0000) & 0xFFFF == c as bv32
  {
  }

  lemma WidenNarrow(c: bv16)
    ensures (c as bv32) as bv16 == c
  {
  }

  lemma WordStep(bits: seq<bool>, k: nat)
    requires k < |bits|
    ensures Word(bits[..k + 1]) == Xor(Word(bits[..k]), if bits[k] then Power(k) else 0)
  {
    assert bits[..k + 1][..k] == bits[..k];
  }

  function BitOr0(c: bool, p: bv16): bv16 {
    if c then p else 0
  }

  lemma EightBits(b: bv8)
    ensures BitOr0(b & 1 != 0, 1) ^ BitOr0(b & 2 != 0, 2) ^ BitOr0(b & 4 != 0, 4) ^ BitOr0(b & 8 != 0, 8)
          ^ BitOr0(b & 16 != 0, 16) ^ BitOr0(b & 32 != 0, 32) ^ BitOr0(b & 64 != 0, 64) ^ BitOr0(b & 128 != 0, 128) ==
            b as bv16
  {
  }

  /** A byte's bits make up the byte. */
  lemma ByteWord(b: bv8)
    ensures Word(ByteBits(b)) == b as bv16
  {
    var bits := ByteBits(b);
    PowerTable();
    hide Power;
    WordStep(bits, 0);
    WordStep(bits, 1);
    WordStep(bits, 2);
    WordStep(bits, 3);
    WordStep(bits, 4);
    WordStep(bits, 5);
    WordStep(bits, 6);
    WordStep(bits, 7);
    assert bits[..8] == bits;
    EightBits(b);
    hide Word;
  }

  lemma Shift8IsShiftN(c: bv16)
    ensures Shift8(c) == ShiftN(c, 8)
  {
    hide Shift;
    assert ShiftN(c, 1) == Shift(c);
    assert ShiftN(c, 2) == Shift(Shift(c));
    assert ShiftN(c, 4) == Shift(Shift(ShiftN(c, 2)));
    assert ShiftN(c, 6) == Shift(Shift(ShiftN(c, 4)));
  }

  lemma Shift8Linear(a: bv16, b: bv16)
    ensures Shift8(Xor(a, b)) == Xor(Shift8(a), Shift8(b))
  {
    hide Shift8;
    hide Xor;
    ShiftNLinear(a, b, 8);
    Shift8IsShiftN(a);
    Shift8IsShiftN(b);
    Shift8IsShiftN(Xor(a, b));
  }

  /** Eight steps move the high byte down unchanged. */
  lemma HighByteDown(x: bv16)
    ensures Shift8(x & 0xFF00) == x >> 8
  {
    hide Shift;
    var y := x & 0xFF00;
    ShiftEven(y);
    ShiftEven(y >> 1);
    ShiftEven(y >> 2);
    ShiftEven(y >> 3);
    ShiftEven(y >> 4);
    ShiftEven(y >> 5);
    ShiftEven(y >> 6);
    ShiftEven(y >> 7);
    assert (y >> 1) >> 1 == y >> 2 && (y >> 2) >> 1 == y >> 3 && (y >> 3) >> 1 == y >> 4 && (y >> 4) >> 1 == y >> 5;
    assert (y >> 5) >> 1 == y >> 6 && (y >> 6) >> 1 == y >> 7 && (y >> 7) >> 1 == y >> 8;
    assert Shift(Shift(Shift(Shift(y)))) == y >> 4;
    assert Shift(Shift(Shift(Shift(y >> 4)))) == y >> 8;
    assert Shift8(y) == y >> 8;
    assert y >> 8 == x >> 8;
  }

  lemma ShiftEven(c: bv16)
    requires c & 1 == 0
    ensures Shift(c) == c >> 1
  {
  }

  /** One iteration: the running value after byte `b`. */
  function NextCrc(crc: bv16, b: bv8): bv16 {
    Narrow((ShiftRight8(Promote(crc)) & 0x00FF) ^ (Entry(Index(crc, b)) as bv32))
  }

  lemma NarrowXor(a: bv16, b: bv16)
    ensures Narrow((a as bv32) ^ (b as bv32)) == Xor(a, b)
  {
    assert ((a as bv32) ^ (b as bv32)) & 0xFFFF == (a ^ b) as bv32;
  }

  lemma SplitWord(x: bv16)
    ensures Xor(x & 0xFF00, x & 0xFF) == x
  {
  }

  lemma SameHighByte(crc: bv16, b: bv8)
    ensures Xor(crc, b as bv16) >> 8 == crc >> 8
  {
  }

  lemma NextCrcIsXor(crc: bv16, b: bv8)
    ensures NextCrc(crc, b) == Xor(crc >> 8, Shift8(Xor(crc, b as bv16) & 0xFF))
  {
    IndexIgnoresSign(crc, b);
    ShiftIgnoresSign(crc);
    TableIsShift8(Index(crc, b));
    NarrowXor(crc >> 8, Entry(Index(crc, b)));
    hide *;
  }

  lemma Shift8Split(x: bv16)
    ensures Shift8(x) == Xor(x >> 8, Shift8(x & 0xFF))
  {
    hide Shift8;
    hide Xor;
    SplitWord(x);
    Shift8Linear(x & 0xFF00, x & 0xFF);
    HighByteDown(x);
  }

  /** The table step does the work of eight register steps, whatever the sign of the running value. */
  lemma NextCrcIsFeed(crc: bv16, b: bv8)
    ensures NextCrc(crc, b) == Feed(crc, ByteBits(b))
  {
    hide NextCrc;
    hide Shift8;
    hide Xor;
    hide Feed;
    hide ShiftN;
    hide Word;
    var x := Xor(crc, b as bv16);
    NextCrcIsXor(crc, b);
    SameHighByte(crc, b);
    Shift8Split(x);
    ByteWord(b);
    FeedWord(crc, ByteBits(b));
    Shift8IsShiftN(x);
  }

  lemma FeedNothing(c: bv16)
    ensures Feed(c, []) == c
  {
  }

  /** The bitwise CRC of a buffer from a given start, as a sign-extended uint32: only the
      low half of the start counts, and only the low half of the result is the CRC. */
  function CrcOf(data: seq<bv8>, start: bv32): bv32 {
    Promote(Feed(Narrow(start), Bits(data)))
  }

  /** Its low half is the CRC of the data from the low half of the start, and its upper half sixteen
      copies of the sign bit. */
  lemma CrcOfIs(data: seq<bv8>, start: bv32)
    ensures CrcOf(data, start) & 0xFFFF == Feed((start & 0xFFFF) as bv16, Bits(data)) as bv32
    ensures CrcOf(data, start) & 0xFFFF_0000 == if CrcOf(data, start) & 0x8000 == 0 then 0 else 0xFFFF_0000
  {
    hide Feed;
    hide Promote;
    PromoteIs(Feed(Narrow(start), Bits(data)));
  }

  /** CalculateCRC: folding the table over a buffer gives its bitwise CRC. */
  method CalculateCRC(data: seq<bv8>, inputCRC: bv32) returns (r: bv32)
    ensures r == CrcOf(data, inputCRC)
    ensures Narrow(r) == Feed(Narrow(inputCRC), Bits(data))
  {
    hide Feed;
    var crc: bv16 := Narrow(inputCRC);
    var i := 0;
    assert data[..0] == [];
    FeedNothing(crc);
    while i < |data|
      invariant 0 <= i <= |data|
      invariant crc == Feed(Narrow(inputCRC), Bits(data[..i]))
    {
      NextCrcIsFeed(crc, data[i]);
      assert data[..i + 1][..i] == data[..i];
      FeedAppend(Narrow(inputCRC), Bits(data[..i]), ByteBits(data[i]));
      crc := NextCrc(crc, data[i]);
      i := i + 1;
    }
    assert data[..i] == data;
    NarrowPromote(crc);
    return Promote(crc);
  }

  /** Passing a result on as the next start continues the CRC: its sign extension is cut off. */
  lemma CrcContinues(a: seq<bv8>, b: seq<bv8>, start: bv32)
    ensures CrcOf(b, CrcOf(a, start)) == CrcOf(a + b, start)
  {
    BitsAppend(a, b);
    FeedAppend(Narrow(start), Bits(a), Bits(b));
    NarrowPromote(Feed(Narrow(start), Bits(a)));
    hide Feed;
    hide Promote;
    hide Narrow;
    hide Bits;
  }

  function Concat(chunks: seq<seq<bv8>>): seq<bv8> {
    if chunks == [] then [] else Concat(chunks[..|chunks| - 1]) + chunks[|chunks| - 1]
  }

  /** The CRC computed chunk by chunk. */
  function Folded(chunks: seq<seq<bv8>>, start: bv32): bv32 {
    if chunks == [] then start else CrcOf(chunks[|chunks| - 1], Folded(chunks[..|chunks| - 1], start))
  }

  /** Chunk independence: over any division of the data into chunks, empty ones included,
      the fold gives the CRC of the whole. */
  lemma {:induction false} ChunkIndependence(chunks: seq<seq<bv8>>, start: bv32)
    requires chunks != []
    ensures Folded(chunks, start) == CrcOf(Concat(chunks), start)
  {
    hide CrcOf;
    var before, last := chunks[..|chunks| - 1], chunks[|chunks| - 1];
    if before == [] {
      assert Concat(chunks) == [] + last == last;
    } else {
      ChunkIndependence(before, start);
      CrcContinues(Concat(before), last, start);
    }
  }

  // ---- The program around it

  const BUFFER_SIZE := 100

  /** What a read at `offset` delivers: -1 for an error, otherwise as many bytes as the
      system chooses (`piece`), within the buffer and the file, and 0 only at its end. */
  function ReadSize(piece: nat -> int, offset: nat, available: nat): (n: int)
    ensures n != -1 ==> 0 <= n <= available && n <= BUFFER_SIZE && (n == 0 <==> available == 0)
    ensures n == -1 <==> piece(offset) < 0
  {
    var most := if available < BUFFER_SIZE then available else BUFFER_SIZE;
    if piece(offset) < 0 then -1
    else if most == 0 then 0
    else if piece(offset) == 0 then 1
    else if piece(offset) < most then piece(offset) else most
  }

  datatype Report = ReadFailed | Report(size: nat, crc: bv32)

  /** The loop of `main` over the bytes behind the two headers: however the reads are cut,
      the size and CRC are those of the whole table, unless a read fails. */
  method CrcOfFile(table: seq<bv8>, piece: nat -> int) returns (r: Report)
    ensures r.Report? ==> r == Report(|table|, CrcOf(table, 0))
    ensures r.ReadFailed? ==> exists o: nat :: o <= |table| && piece(o) < 0
  {
    hide CrcOf;
    var fileCRC: bv32 := 0;
    var fileSize := 0;
    var readSize := -1;
    while readSize != 0
      invariant 0 <= fileSize <= |table|
      invariant fileSize > 0 || readSize == 0 ==> fileCRC == CrcOf(table[..fileSize], 0)
      invariant fileSize == 0 && readSize != 0 ==> fileCRC == 0
      invariant readSize == 0 ==> fileSize == |table|
      decreases readSize != 0, |table| - fileSize
    {
      readSize := ReadSize(piece, fileSize, |table| - fileSize);
      if readSize < 0 { return ReadFailed; }
      var buffer := table[fileSize..fileSize + readSize];
      assert table[..fileSize + readSize] == table[..fileSize] + buffer;
      assert fileSize == 0 ==> table[..readSize] == buffer;
      CrcContinues(table[..fileSize], buffer, 0);
      fileCRC := CalculateCRC(buffer, fileCRC);
      fileSize := fileSize + readSize;
    }
    assert table[..fileSize] == table;
    return Report(fileSize, fileCRC);
  }
}
