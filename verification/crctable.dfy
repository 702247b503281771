/** The table of bin_crc_make's CRC, and what its entries are. */
module CrcTable {
  function Xor(a: bv32, b: bv32): bv32 {
    a ^ b
  }

  predicate Odd(x: bv32) {
    x & 1 == 1
  }

  function Half(x: bv32): bv32 {
    x >> 1
  }

  /** One bit of the bitwise CRC. */
  function Shift(crc: bv32): bv32 {
    if Odd(crc) then Xor(Half(crc), 0xedb88320) else Half(crc)
  }

  function Shift2(crc: bv32): bv32 {
    Shift(Shift(crc))
  }

  function Shift4(crc: bv32): bv32 {
    Shift2(Shift2(crc))
  }

  function Shift8(crc: bv32): bv32 {
    Shift4(Shift4(crc))
  }

  // crc32tab, sixteen entries at a time

  const ROW0: seq<bv32> := [
    0x00000000, 0x77073096, 0xee0e612c, 0x990951ba, 0x076dc419, 0x706af48f, 0xe963a535, 0x9e6495a3,
    0x0edb8832, 0x79dcb8a4, 0xe0d5e91e, 0x97d2d988, 0x09b64c2b, 0x7eb17cbd, 0xe7b82d07, 0x90bf1d91
  ]

  const ROW1: seq<bv32> := [
    0x1db71064, 0x6ab020f2, 0xf3b97148, 0x84be41de, 0x1adad47d, 0x6ddde4eb, 0xf4d4b551, 0x83d385c7,
    0x136c9856, 0x646ba8c0, 0xfd62f97a, 0x8a65c9ec, 0x14015c4f, 0x63066cd9, 0xfa0f3d63, 0x8d080df5
  ]

  const ROW2: seq<bv32> := [
    0x3b6e20c8, 0x4c69105e, 0xd56041e4, 0xa2677172, 0x3c03e4d1, 0x4b04d447, 0xd20d85fd, 0xa50ab56b,
    0x35b5a8fa, 0x42b2986c, 0xdbbbc9d6, 0xacbcf940, 0x32d86ce3, 0x45df5c75, 0xdcd60dcf, 0xabd13d59
  ]

  const ROW3: seq<bv32> := [
    0x26d930ac, 0x51de003a, 0xc8d75180, 0xbfd06116, 0x21b4f4b5, 0x56b3c423, 0xcfba9599, 0xb8bda50f,
    0x2802b89e, 0x5f058808, 0xc60cd9b2, 0xb10be924, 0x2f6f7c87, 0x58684c11, 0xc1611dab, 0xb6662d3d
  ]

  const ROW4: seq<bv32> := [
    0x76dc4190, 0x01db7106, 0x98d220bc, 0xefd5102a, 0x71b18589, 0x06b6b51f, 0x9fbfe4a5, 0xe8b8d433,
    0x7807c9a2, 0x0f00f934, 0x9609a88e, 0xe10e9818, 0x7f6a0dbb, 0x086d3d2d, 0x91646c97, 0xe6635c01
  ]

  const ROW5: seq<bv32> := [
    0x6b6b51f4, 0x1c6c6162, 0x856530d8, 0xf262004e, 0x6c0695ed, 0x1b01a57b, 0x8208f4c1, 0xf50fc457,
    0x65b0d9c6, 0x12b7e950, 0x8bbeb8ea, 0xfcb9887c, 0x62dd1ddf, 0x15da2d49, 0x8cd37cf3, 0xfbd44c65
  ]

  const ROW6: seq<bv32> := [
    0x4db26158, 0x3ab551ce, 0xa3bc0074, 0xd4bb30e2, 0x4adfa541, 0x3dd895d7, 0xa4d1c46d, 0xd3d6f4fb,
    0x4369e96a, 0x346ed9fc, 0xad678846, 0xda60b8d0, 0x44042d73, 0x33031de5, 0xaa0a4c5f, 0xdd0d7cc9
  ]

  const ROW7: seq<bv32> := [
    0x5005713c, 0x270241aa, 0xbe0b1010, 0xc90c2086, 0x5768b525, 0x206f85b3, 0xb966d409, 0xce61e49f,
    0x5edef90e, 0x29d9c998, 0xb0d09822, 0xc7d7a8b4, 0x59b33d17, 0x2eb40d81, 0xb7bd5c3b, 0xc0ba6cad
  ]

  const ROW8: seq<bv32> := [
    0xedb88320, 0x9abfb3b6, 0x03b6e20c, 0x74b1d29a, 0xead54739, 0x9dd277af, 0x04db2615, 0x73dc1683,
    0xe3630b12, 0x94643b84, 0x0d6d6a3e, 0x7a6a5aa8, 0xe40ecf0b, 0x9309ff9d, 0x0a00ae27, 0x7d079eb1
  ]

  const ROW9: seq<bv32> := [
    0xf00f9344, 0x8708a3d2, 0x1e01f268, 0x6906c2fe, 0xf762575d, 0x806567cb, 0x196c3671, 0x6e6b06e7,
    0xfed41b76, 0x89d32be0, 0x10da7a5a, 0x67dd4acc, 0xf9b9df6f, 0x8ebeeff9, 0x17b7be43, 0x60b08ed5
  ]

  const ROW10: seq<bv32> := [
    0xd6d6a3e8, 0xa1d1937e, 0x38d8c2c4, 0x4fdff252, 0xd1bb67f1, 0xa6bc5767, 0x3fb506dd, 0x48b2364b,
    0xd80d2bda, 0xaf0a1b4c, 0x36034af6, 0x41047a60, 0xdf60efc3, 0xa867df55, 0x316e8eef, 0x4669be79
  ]

  const ROW11: seq<bv32> := [
    0xcb61b38c, 0xbc66831a, 0x256fd2a0, 0x5268e236, 0xcc0c7795, 0xbb0b4703, 0x220216b9, 0x5505262f,
    0xc5ba3bbe, 0xb2bd0b28, 0x2bb45a92, 0x5cb36a04, 0xc2d7ffa7, 0xb5d0cf31, 0x2cd99e8b, 0x5bdeae1d
  ]

  const ROW12: seq<bv32> := [
    0x9b64c2b0, 0xec63f226, 0x756aa39c, 0x026d930a, 0x9c0906a9, 0xeb0e363f, 0x72076785, 0x05005713,
    0x95bf4a82, 0xe2b87a14, 0x7bb12bae, 0x0cb61b38, 0x92d28e9b, 0xe5d5be0d, 0x7cdcefb7, 0x0bdbdf21
  ]

  const ROW13: seq<bv32> := [
    0x86d3d2d4, 0xf1d4e242, 0x68ddb3f8, 0x1fda836e, 0x81be16cd, 0xf6b9265b, 0x6fb077e1, 0x18b74777,
    0x88085ae6, 0xff0f6a70, 0x66063bca, 0x11010b5c, 0x8f659eff, 0xf862ae69, 0x616bffd3, 0x166ccf45
  ]

  const ROW14: seq<bv32> := [
    0xa00ae278, 0xd70dd2ee, 0x4e048354, 0x3903b3c2, 0xa7672661, 0xd06016f7, 0x4969474d, 0x3e6e77db,
    0xaed16a4a, 0xd9d65adc, 0x40df0b66, 0x37d83bf0, 0xa9bcae53, 0xdebb9ec5, 0x47b2cf7f, 0x30b5ffe9
  ]

  const ROW15: seq<bv32> := [
    0xbdbdf21c, 0xcabac28a, 0x53b39330, 0x24b4a3a6, 0xbad03605, 0xcdd70693, 0x54de5729, 0x23d967bf,
    0xb3667a2e, 0xc4614ab8, 0x5d681b02, 0x2a6f2b94, 0xb40bbe37, 0xc30c8ea1, 0x5a05df1b, 0x2d02ef8d
  ]

  /** crc32tab[16 * r..16 * r + 16] */
  function Row(r: nat): (row: seq<bv32>)
    requires r < 16
    ensures |row| == 16
  {
    if r < 8 then
      if r < 4 then (if r < 2 then (if r == 0 then ROW0 else ROW1) else if r == 2 then ROW2 else ROW3)
      else (if r < 6 then (if r == 4 then ROW4 else ROW5) else if r == 6 then ROW6 else ROW7)
    else
      if r < 12 then (if r < 10 then (if r == 8 then ROW8 else ROW9) else if r == 10 then ROW10 else ROW11)
      else (if r < 14 then (if r == 12 then ROW12 else ROW13) else if r == 14 then ROW14 else ROW15)
  }

  /** crc32tab[x], for an index of eight bits */
  function Table(x: bv32): bv32
    requires x < 0x100
  {
    Row((x >> 4) as int)[(x & 0xf) as int]
  }

  // Shifting is linear

  lemma HalfXor(x: bv32, y: bv32)
    ensures Half(Xor(x, y)) == Xor(Half(x), Half(y))
    ensures Odd(Xor(x, y)) <==> Odd(x) != Odd(y)
  {}

  lemma XorAssoc(a: bv32, b: bv32, c: bv32)
    ensures Xor(Xor(a, b), c) == Xor(a, Xor(b, c))
  {}

  lemma XorComm(a: bv32, b: bv32)
    ensures Xor(a, b) == Xor(b, a)
  {}

  lemma XorCancels(a: bv32, p: bv32)
    ensures Xor(Xor(a, p), p) == a
  {}

  lemma XorSwap(a: bv32, b: bv32, p: bv32)
    ensures Xor(Xor(a, b), p) == Xor(Xor(a, p), b) && Xor(Xor(a, p), Xor(b, p)) == Xor(a, b)
    ensures Xor(Xor(a, b), p) == Xor(a, Xor(b, p))
  {
    hide Xor;
    XorAssoc(a, b, p);
    XorComm(b, p);
    XorAssoc(a, p, b);
    XorAssoc(Xor(a, p), b, p);
    XorAssoc(Xor(a, b), p, p);
    XorCancels(Xor(a, b), p);
  }

  /** One shift of an exclusive or is the exclusive or of the shifts. */
  lemma ShiftXor(x: bv32, y: bv32)
    ensures Shift(Xor(x, y)) == Xor(Shift(x), Shift(y))
  {
    hide Xor, Odd, Half;
    HalfXor(x, y);
    XorSwap(Half(x), Half(y), 0xedb88320);
  }

  lemma Shift2Xor(x: bv32, y: bv32)
    ensures Shift2(Xor(x, y)) == Xor(Shift2(x), Shift2(y))
  {
    hide Shift, Xor;
    ShiftXor(x, y);
    ShiftXor(Shift(x), Shift(y));
  }

  lemma Shift4Xor(x: bv32, y: bv32)
    ensures Shift4(Xor(x, y)) == Xor(Shift4(x), Shift4(y))
  {
    hide Shift2, Xor;
    Shift2Xor(x, y);
    Shift2Xor(Shift2(x), Shift2(y));
  }

  lemma Shift8Xor(x: bv32, y: bv32)
    ensures Shift8(Xor(x, y)) == Xor(Shift8(x), Shift8(y))
  {
    hide Shift4, Xor;
    Shift4Xor(x, y);
    Shift4Xor(Shift4(x), Shift4(y));
  }

  // The entries

  /** What the shifts make of the low four bits of an octet, and of the high four. */
  lemma LowOctets()
    ensures Shift8(0) == 0x00000000 && Shift8(1) == 0x77073096 && Shift8(2) == 0xee0e612c && Shift8(3) == 0x990951ba
    ensures Shift8(4) == 0x076dc419 && Shift8(5) == 0x706af48f && Shift8(6) == 0xe963a535 && Shift8(7) == 0x9e6495a3
    ensures Shift8(8) == 0x0edb8832 && Shift8(9) == 0x79dcb8a4 && Shift8(10) == 0xe0d5e91e && Shift8(11) == 0x97d2d988
    ensures Shift8(12) == 0x09b64c2b && Shift8(13) == 0x7eb17cbd && Shift8(14) == 0xe7b82d07 && Shift8(15) == 0x90bf1d91
  {}

  lemma HighOctets()
    ensures Shift8(0) == 0x00000000 && Shift8(16) == 0x1db71064 && Shift8(32) == 0x3b6e20c8 && Shift8(48) == 0x26d930ac
    ensures Shift8(64) == 0x76dc4190 && Shift8(80) == 0x6b6b51f4 && Shift8(96) == 0x4db26158
            && Shift8(112) == 0x5005713c
    ensures Shift8(128) == 0xedb88320 && Shift8(144) == 0xf00f9344 && Shift8(160) == 0xd6d6a3e8
            && Shift8(176) == 0xcb61b38c
    ensures Shift8(192) == 0x9b64c2b0 && Shift8(208) == 0x86d3d2d4 && Shift8(224) == 0xa00ae278
            && Shift8(240) == 0xbdbdf21c
  {}

  /** A row is the first row with its own first entry on top. */
  ghost predicate Linear(row: seq<bv32>) {
    |row| == 16 && forall l :: 0 <= l < 16 ==> row[l] == row[0] ^ ROW0[l]
  }

  lemma Linear0()
    ensures Linear(ROW0)
  {}

  lemma Linear1()
    ensures Linear(ROW1)
  {}

  lemma Linear2()
    ensures Linear(ROW2)
  {}

  lemma Linear3()
    ensures Linear(ROW3)
  {}

  lemma Linear4()
    ensures Linear(ROW4)
  {}

  lemma Linear5()
    ensures Linear(ROW5)
  {}

  lemma Linear6()
    ensures Linear(ROW6)
  {}

  lemma Linear7()
    ensures Linear(ROW7)
  {}

  lemma Linear8()
    ensures Linear(ROW8)
  {}

  lemma Linear9()
    ensures Linear(ROW9)
  {}

  lemma Linear10()
    ensures Linear(ROW10)
  {}

  lemma Linear11()
    ensures Linear(ROW11)
  {}

  lemma Linear12()
    ensures Linear(ROW12)
  {}

  lemma Linear13()
    ensures Linear(ROW13)
  {}

  lemma Linear14()
    ensures Linear(ROW14)
  {}

  lemma Linear15()
    ensures Linear(ROW15)
  {}

  lemma RowIsLinear(r: nat)
    requires r < 16
    ensures Linear(Row(r))
  {
    hide Linear;
    if r < 8 {
      Linear0();
      Linear1();
      Linear2();
      Linear3();
      Linear4();
      Linear5();
      Linear6();
      Linear7();
    } else {
      Linear8();
      Linear9();
      Linear10();
      Linear11();
      Linear12();
      Linear13();
      Linear14();
      Linear15();
    }
  }

  lemma BackToInt(x: bv32)
    ensures (x as int) as bv32 == x
  {}

  lemma LowEntry(x: bv32)
    requires x < 0x10
    ensures ROW0[x as int] == Shift8(x)
  {
    hide Shift8;
    BackToInt(x);
    LowOctets();
  }

  lemma FirstOfRow(x: bv32)
    requires x < 0x10
    ensures Row(x as int)[0] == Shift8(x << 4)
  {
    hide Shift8;
    BackToInt(x);
    HighOctets();
  }

  lemma Halves(x: bv32)
    requires x < 0x100
    ensures x == Xor((x >> 4) << 4, x & 0xf) && x >> 4 < 0x10 && x & 0xf < 0x10
  {}

  lemma RowAt(r: nat, l: nat)
    requires r < 16 && l < 16
    ensures Row(r)[l] == Xor(Row(r)[0], ROW0[l])
  {
    hide Row;
    RowIsLinear(r);
  }

  /** Entry x of the table is what eight shifts make of x. */
  lemma Entry(x: bv32)
    requires x < 0x100
    ensures Table(x) == Shift8(x)
  {
    hide Shift8, Row, Linear, Xor;
    Halves(x);
    var h, l := x >> 4, x & 0xf;
    FirstOfRow(h);
    LowEntry(l);
    RowAt(h as int, l as int);
    Shift8Xor(h << 4, l);
  }
}
