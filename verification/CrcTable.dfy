/**
 The CRC table of cfe_ts_crc.c and the shift register it tabulates: entry `i` is the
 register `i` after eight steps with the polynomial 0x8005 in reflected bit order.
 */
module CrcTable {
  /** One step of the reflected shift register; 0xA001 is 0x8005 with its bits reversed. */
  function Shift(c: bv16): bv16 {
    if Low(c) then Xor(Half(c), 0xA001) else Half(c)
  }

  function Xor(a: bv16, b: bv16): bv16 {
    a ^ b
  }

  predicate Low(c: bv16) {
    c & 1 == 1
  }

  function Half(c: bv16): bv16 {
    c >> 1
  }

  function Shift8(c: bv16): bv16 {
    Shift(Shift(Shift(Shift(Shift(Shift(Shift(Shift(c))))))))
  }

  const ROW_0: seq<bv16> := [
    0x0000, 0xC0C1, 0xC181, 0x0140, 0xC301, 0x03C0,
    0x0280, 0xC241, 0xC601, 0x06C0, 0x0780, 0xC741, 0x0500, 0xC5C1, 0xC481, 0x0440]
  const ROW_1: seq<bv16> := [
    0xCC01, 0x0CC0, 0x0D80, 0xCD41, 0x0F00, 0xCFC1,
    0xCE81, 0x0E40, 0x0A00, 0xCAC1, 0xCB81, 0x0B40, 0xC901, 0x09C0, 0x0880, 0xC841]
  const ROW_2: seq<bv16> := [
    0xD801, 0x18C0, 0x1980, 0xD941, 0x1B00, 0xDBC1,
    0xDA81, 0x1A40, 0x1E00, 0xDEC1, 0xDF81, 0x1F40, 0xDD01, 0x1DC0, 0x1C80, 0xDC41]
  const ROW_3: seq<bv16> := [
    0x1400, 0xD4C1, 0xD581, 0x1540, 0xD701, 0x17C0,
    0x1680, 0xD641, 0xD201, 0x12C0, 0x1380, 0xD341, 0x1100, 0xD1C1, 0xD081, 0x1040]
  const ROW_4: seq<bv16> := [
    0xF001, 0x30C0, 0x3180, 0xF141, 0x3300, 0xF3C1,
    0xF281, 0x3240, 0x3600, 0xF6C1, 0xF781, 0x3740, 0xF501, 0x35C0, 0x3480, 0xF441]
  const ROW_5: seq<bv16> := [
    0x3C00, 0xFCC1, 0xFD81, 0x3D40, 0xFF01, 0x3FC0,
    0x3E80, 0xFE41, 0xFA01, 0x3AC0, 0x3B80, 0xFB41, 0x3900, 0xF9C1, 0xF881, 0x3840]
  const ROW_6: seq<bv16> := [
    0x2800, 0xE8C1, 0xE981, 0x2940, 0xEB01, 0x2BC0,
    0x2A80, 0xEA41, 0xEE01, 0x2EC0, 0x2F80, 0xEF41, 0x2D00, 0xEDC1, 0xEC81, 0x2C40]
  const ROW_7: seq<bv16> := [
    0xE401, 0x24C0, 0x2580, 0xE541, 0x2700, 0xE7C1,
    0xE681, 0x2640, 0x2200, 0xE2C1, 0xE381, 0x2340, 0xE101, 0x21C0, 0x2080, 0xE041]
  const ROW_8: seq<bv16> := [
    0xA001, 0x60C0, 0x6180, 0xA141, 0x6300, 0xA3C1,
    0xA281, 0x6240, 0x6600, 0xA6C1, 0xA781, 0x6740, 0xA501, 0x65C0, 0x6480, 0xA441]
  const ROW_9: seq<bv16> := [
    0x6C00, 0xACC1, 0xAD81, 0x6D40, 0xAF01, 0x6FC0,
    0x6E80, 0xAE41, 0xAA01, 0x6AC0, 0x6B80, 0xAB41, 0x6900, 0xA9C1, 0xA881, 0x6840]
  const ROW_A: seq<bv16> := [
    0x7800, 0xB8C1, 0xB981, 0x7940, 0xBB01, 0x7BC0,
    0x7A80, 0xBA41, 0xBE01, 0x7EC0, 0x7F80, 0xBF41, 0x7D00, 0xBDC1, 0xBC81, 0x7C40]
  const ROW_B: seq<bv16> := [
    0xB401, 0x74C0, 0x7580, 0xB541, 0x7700, 0xB7C1,
    0xB681, 0x7640, 0x7200, 0xB2C1, 0xB381, 0x7340, 0xB101, 0x71C0, 0x7080, 0xB041]
  const ROW_C: seq<bv16> := [
    0x5000, 0x90C1, 0x9181, 0x5140, 0x9301, 0x53C0,
    0x5280, 0x9241, 0x9601, 0x56C0, 0x5780, 0x9741, 0x5500, 0x95C1, 0x9481, 0x5440]
  const ROW_D: seq<bv16> := [
    0x9C01, 0x5CC0, 0x5D80, 0x9D41, 0x5F00, 0x9FC1,
    0x9E81, 0x5E40, 0x5A00, 0x9AC1, 0x9B81, 0x5B40, 0x9901, 0x59C0, 0x5880, 0x9841]
  const ROW_E: seq<bv16> := [
    0x8801, 0x48C0, 0x4980, 0x8941, 0x4B00, 0x8BC1,
    0x8A81, 0x4A40, 0x4E00, 0x8EC1, 0x8F81, 0x4F40, 0x8D01, 0x4DC0, 0x4C80, 0x8C41]
  const ROW_F: seq<bv16> := [
    0x4400, 0x84C1, 0x8581, 0x4540, 0x8701, 0x47C0,
    0x4680, 0x8641, 0x8201, 0x42C0, 0x4380, 0x8341, 0x4100, 0x81C1, 0x8081, 0x4040]

  /** The table, sixteen entries to a row. */
  function Entry(i: bv16): bv16
    requires i < 256
  {
    if i < 16 then ROW_0[i as nat]
    else if i < 32 then ROW_1[(i - 16) as nat]
    else if i < 48 then ROW_2[(i - 32) as nat]
    else if i < 64 then ROW_3[(i - 48) as nat]
    else if i < 80 then ROW_4[(i - 64) as nat]
    else if i < 96 then ROW_5[(i - 80) as nat]
    else if i < 112 then ROW_6[(i - 96) as nat]
    else if i < 128 then ROW_7[(i - 112) as nat]
    else if i < 144 then ROW_8[(i - 128) as nat]
    else if i < 160 then ROW_9[(i - 144) as nat]
    else if i < 176 then ROW_A[(i - 160) as nat]
    else if i < 192 then ROW_B[(i - 176) as nat]
    else if i < 208 then ROW_C[(i - 192) as nat]
    else if i < 224 then ROW_D[(i - 208) as nat]
    else if i < 240 then ROW_E[(i - 224) as nat]
    else ROW_F[(i - 240) as nat]
  }

  lemma Sixteen(k: bv16)
    requires k < 16
    ensures k == 0 || k == 1 || k == 2 || k == 3 || k == 4 || k == 5 || k == 6 || k == 7
         || k == 8 || k == 9 || k == 10 || k == 11 || k == 12 || k == 13 || k == 14 || k == 15
  {
  }

  lemma RowZero(j: bv16)
    requires 16 <= j < 32
    ensures ROW_0[(j - 16) as nat] == Shift8(j - 16)
  {
    Sixteen(j - 16);
  }

  lemma Row0(i: bv16)
    requires i < 16
    ensures ROW_0[i as nat] == Shift8(i)
  {
    hide Shift8;
    RowZero(i + 16);
    assert i + 16 - 16 == i;
  }

  lemma Row1(i: bv16)
    requires 16 <= i < 32
    ensures ROW_1[(i - 16) as nat] == Shift8(i)
  {
    Sixteen(i - 16);
  }

  lemma Row2(i: bv16)
    requires 32 <= i < 48
    ensures ROW_2[(i - 32) as nat] == Shift8(i)
  {
    Sixteen(i - 32);
  }

  lemma Row3(i: bv16)
    requires 48 <= i < 64
    ensures ROW_3[(i - 48) as nat] == Shift8(i)
  {
    Sixteen(i - 48);
  }

  lemma Row4(i: bv16)
    requires 64 <= i < 80
    ensures ROW_4[(i - 64) as nat] == Shift8(i)
  {
    Sixteen(i - 64);
  }

  lemma Row5(i: bv16)
    requires 80 <= i < 96
    ensures ROW_5[(i - 80) as nat] == Shift8(i)
  {
    Sixteen(i - 80);
  }

  lemma Row6(i: bv16)
    requires 96 <= i < 112
    ensures ROW_6[(i - 96) as nat] == Shift8(i)
  {
    Sixteen(i - 96);
  }

  lemma Row7(i: bv16)
    requires 112 <= i < 128
    ensures ROW_7[(i - 112) as nat] == Shift8(i)
  {
    Sixteen(i - 112);
  }

  lemma Row8(i: bv16)
    requires 128 <= i < 144
    ensures ROW_8[(i - 128) as nat] == Shift8(i)
  {
    Sixteen(i - 128);
  }

  lemma Row9(i: bv16)
    requires 144 <= i < 160
    ensures ROW_9[(i - 144) as nat] == Shift8(i)
  {
    Sixteen(i - 144);
  }

  lemma RowA(i: bv16)
    requires 160 <= i < 176
    ensures ROW_A[(i - 160) as nat] == Shift8(i)
  {
    Sixteen(i - 160);
  }

  lemma RowB(i: bv16)
    requires 176 <= i < 192
    ensures ROW_B[(i - 176) as nat] == Shift8(i)
  {
    Sixteen(i - 176);
  }

  lemma RowC(i: bv16)
    requires 192 <= i < 208
    ensures ROW_C[(i - 192) as nat] == Shift8(i)
  {
    Sixteen(i - 192);
  }

  lemma RowD(i: bv16)
    requires 208 <= i < 224
    ensures ROW_D[(i - 208) as nat] == Shift8(i)
  {
    Sixteen(i - 208);
  }

  lemma RowE(i: bv16)
    requires 224 <= i < 240
    ensures ROW_E[(i - 224) as nat] == Shift8(i)
  {
    Sixteen(i - 224);
  }

  lemma RowF(i: bv16)
    requires 240 <= i < 256
    ensures ROW_F[(i - 240) as nat] == Shift8(i)
  {
    Sixteen(i - 240);
  }

  /** Every entry of the table is eight steps of the register. */
  lemma TableIsShift8(i: bv16)
    requires i < 256
    ensures Entry(i) == Shift8(i)
  {
    hide Shift8;
    if i < 16 { Row0(i);
    } else if i < 32 { Row1(i);
    } else if i < 48 { Row2(i);
    } else if i < 64 { Row3(i);
    } else if i < 80 { Row4(i);
    } else if i < 96 { Row5(i);
    } else if i < 112 { Row6(i);
    } else if i < 128 { Row7(i);
    } else if i < 144 { Row8(i);
    } else if i < 160 { Row9(i);
    } else if i < 176 { RowA(i);
    } else if i < 192 { RowB(i);
    } else if i < 208 { RowC(i);
    } else if i < 224 { RowD(i);
    } else if i < 240 { RowE(i);
    } else { RowF(i); }
  }
}
