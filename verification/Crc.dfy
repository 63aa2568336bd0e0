/** CRC-32, bit by bit and by table. */
module Crc {
  import opened Bytes

  /** A 32-bit word. */
  datatype Word = Word(v: bv32)

  function Xor(x: Word, y: Word): Word {
    Word(x.v ^ y.v)
  }

  const ONES: Word := Word(0xffffffff)

  // ----- the definition, section 8 of RFC 1952 -----

  /** One bit: the polynomial is subtracted when a one is shifted out. */
  function RawBit(x: bv32): bv32 {
    if x & 1 == 1 then (x >> 1) ^ 0xedb88320 else x >> 1
  }

  function Bit(x: Word): Word {
    Word(RawBit(x.v))
  }

  function Two(x: Word): Word {
    Bit(Bit(x))
  }

  function Four(x: Word): Word {
    Two(Two(x))
  }

  function Eight(x: Word): Word {
    Four(Four(x))
  }

  function OfByte(b: byte): Word {
    Word(b as bv32)
  }

  /** Byte by byte, each bit by bit. */
  function Define(c: Word, bs: seq<byte>): Word
    decreases |bs|
  {
    if bs == [] then c else Eight(Xor(Define(c, bs[..|bs| - 1]), OfByte(bs[|bs| - 1])))
  }

  /** The checksum begins and ends with a complement. */
  function Checksum(c: Word, bs: seq<byte>): Word {
    Xor(Define(Xor(c, ONES), bs), ONES)
  }

  lemma {:induction false} DefineAppend(c: Word, a: seq<byte>, b: seq<byte>)
    ensures Define(c, a + b) == Define(Define(c, a), b)
    decreases |b|
  {
    hide Eight, OfByte, Xor;
    if b == [] {
      assert a + b == a;
    } else {
      assert (a + b)[..|a + b| - 1] == a + b[..|b| - 1];
      DefineAppend(c, a, b[..|b| - 1]);
    }
  }

  lemma Twice(x: Word, y: Word)
    ensures Xor(Xor(x, y), y) == x
  {
  }

  /** The checksum of a whole is that of its second part begun with that of its first. */
  lemma Compose(c: Word, a: seq<byte>, b: seq<byte>)
    ensures Checksum(c, a + b) == Checksum(Checksum(c, a), b)
  {
    hide Define, Xor;
    DefineAppend(Xor(c, ONES), a, b);
    Twice(Define(Xor(c, ONES), a), ONES);
  }

  // ----- linearity -----

  lemma XorFacts(x: bv32, y: bv32, z: bv32)
    ensures (x ^ z) ^ (y ^ z) == x ^ y && (x ^ z) ^ y == (x ^ y) ^ z && x ^ (y ^ z) == (x ^ y) ^ z
  {
  }

  lemma XorBits(x: bv32, y: bv32)
    ensures (x ^ y) & 1 == 1 <==> ((x & 1 == 1) != (y & 1 == 1))
    ensures (x ^ y) >> 1 == (x >> 1) ^ (y >> 1)
  {
  }

  lemma RawLinear(x: bv32, y: bv32)
    ensures RawBit(x ^ y) == RawBit(x) ^ RawBit(y)
  {
    XorBits(x, y);
    XorFacts(x >> 1, y >> 1, 0xedb88320);
  }

  lemma BitIs(x: bv32)
    ensures Bit(Word(x)) == Word(RawBit(x))
  {
    hide RawBit;
  }

  lemma XorIs(x: bv32, y: bv32)
    ensures Xor(Word(x), Word(y)) == Word(x ^ y)
  {
  }

  lemma WordLinear(x: bv32, y: bv32)
    ensures Bit(Xor(Word(x), Word(y))) == Xor(Bit(Word(x)), Bit(Word(y)))
  {
    hide Bit, Xor, RawBit;
    XorIs(x, y);
    BitIs(x);
    BitIs(y);
    BitIs(x ^ y);
    RawLinear(x, y);
    XorIs(RawBit(x), RawBit(y));
  }

  lemma BitLinear(x: Word, y: Word)
    ensures Bit(Xor(x, y)) == Xor(Bit(x), Bit(y))
  {
    hide Bit, Xor;
    WordLinear(x.v, y.v);
  }

  lemma TwoLinear(x: Word, y: Word)
    ensures Two(Xor(x, y)) == Xor(Two(x), Two(y))
  {
    hide Bit, Xor;
    BitLinear(x, y);
    BitLinear(Bit(x), Bit(y));
  }

  lemma FourLinear(x: Word, y: Word)
    ensures Four(Xor(x, y)) == Xor(Four(x), Four(y))
  {
    hide Two, Xor;
    TwoLinear(x, y);
    TwoLinear(Two(x), Two(y));
  }

  /** The bits of a sum come to the sum of what the bits of its parts come to. */
  lemma EightLinear(x: Word, y: Word)
    ensures Eight(Xor(x, y)) == Xor(Eight(x), Eight(y))
  {
    hide Four, Xor;
    FourLinear(x, y);
    FourLinear(Four(x), Four(y));
  }

  function Shift8(x: Word): Word {
    Word(x.v >> 8)
  }

  /** On the bare word. */
  function Bits8(x: bv32): bv32 {
    RawBit(RawBit(RawBit(RawBit(RawBit(RawBit(RawBit(RawBit(x))))))))
  }

  lemma EightIs(x: Word)
    ensures Eight(x) == Word(Bits8(x.v))
  {
    hide RawBit;
  }

  /** Zeros are only shifted out. */
  lemma EightZeros(x: bv32)
    requires x & 0xff == 0
    ensures Bits8(x) == x >> 8
  {
    ZerosOut(x);
  }

  lemma ZerosOut(x: bv32)
    requires x & 0xff == 0
    ensures x & 1 != 1 && (x >> 1) & 1 != 1 && (x >> 2) & 1 != 1 && (x >> 3) & 1 != 1
    ensures (x >> 4) & 1 != 1 && (x >> 5) & 1 != 1 && (x >> 6) & 1 != 1 && (x >> 7) & 1 != 1
    ensures (x >> 1) >> 1 == x >> 2 && (x >> 2) >> 1 == x >> 3 && (x >> 3) >> 1 == x >> 4 && (x >> 4) >> 1 == x >> 5
    ensures (x >> 5) >> 1 == x >> 6 && (x >> 6) >> 1 == x >> 7 && (x >> 7) >> 1 == x >> 8
  {
  }

  // ----- the table -----

  const ROW_0: seq<bv32> := [
    0x00000000, 0x77073096, 0xee0e612c, 0x990951ba, 0x076dc419, 0x706af48f, 0xe963a535, 0x9e6495a3,
    0x0edb8832, 0x79dcb8a4, 0xe0d5e91e, 0x97d2d988, 0x09b64c2b, 0x7eb17cbd, 0xe7b82d07, 0x90bf1d91
  ]
  const ROW_1: seq<bv32> := [
    0x1db71064, 0x6ab020f2, 0xf3b97148, 0x84be41de, 0x1adad47d, 0x6ddde4eb, 0xf4d4b551, 0x83d385c7,
    0x136c9856, 0x646ba8c0, 0xfd62f97a, 0x8a65c9ec, 0x14015c4f, 0x63066cd9, 0xfa0f3d63, 0x8d080df5
  ]
  const ROW_2: seq<bv32> := [
    0x3b6e20c8, 0x4c69105e, 0xd56041e4, 0xa2677172, 0x3c03e4d1, 0x4b04d447, 0xd20d85fd, 0xa50ab56b,
    0x35b5a8fa, 0x42b2986c, 0xdbbbc9d6, 0xacbcf940, 0x32d86ce3, 0x45df5c75, 0xdcd60dcf, 0xabd13d59
  ]
  const ROW_3: seq<bv32> := [
    0x26d930ac, 0x51de003a, 0xc8d75180, 0xbfd06116, 0x21b4f4b5, 0x56b3c423, 0xcfba9599, 0xb8bda50f,
    0x2802b89e, 0x5f058808, 0xc60cd9b2, 0xb10be924, 0x2f6f7c87, 0x58684c11, 0xc1611dab, 0xb6662d3d
  ]
  const ROW_4: seq<bv32> := [
    0x76dc4190, 0x01db7106, 0x98d220bc, 0xefd5102a, 0x71b18589, 0x06b6b51f, 0x9fbfe4a5, 0xe8b8d433,
    0x7807c9a2, 0x0f00f934, 0x9609a88e, 0xe10e9818, 0x7f6a0dbb, 0x086d3d2d, 0x91646c97, 0xe6635c01
  ]
  const ROW_5: seq<bv32> := [
    0x6b6b51f4, 0x1c6c6162, 0x856530d8, 0xf262004e, 0x6c0695ed, 0x1b01a57b, 0x8208f4c1, 0xf50fc457,
    0x65b0d9c6, 0x12b7e950, 0x8bbeb8ea, 0xfcb9887c, 0x62dd1ddf, 0x15da2d49, 0x8cd37cf3, 0xfbd44c65
  ]
  const ROW_6: seq<bv32> := [
    0x4db26158, 0x3ab551ce, 0xa3bc0074, 0xd4bb30e2, 0x4adfa541, 0x3dd895d7, 0xa4d1c46d, 0xd3d6f4fb,
    0x4369e96a, 0x346ed9fc, 0xad678846, 0xda60b8d0, 0x44042d73, 0x33031de5, 0xaa0a4c5f, 0xdd0d7cc9
  ]
  const ROW_7: seq<bv32> := [
    0x5005713c, 0x270241aa, 0xbe0b1010, 0xc90c2086, 0x5768b525, 0x206f85b3, 0xb966d409, 0xce61e49f,
    0x5edef90e, 0x29d9c998, 0xb0d09822, 0xc7d7a8b4, 0x59b33d17, 0x2eb40d81, 0xb7bd5c3b, 0xc0ba6cad
  ]
  const ROW_8: seq<bv32> := [
    0xedb88320, 0x9abfb3b6, 0x03b6e20c, 0x74b1d29a, 0xead54739, 0x9dd277af, 0x04db2615, 0x73dc1683,
    0xe3630b12, 0x94643b84, 0x0d6d6a3e, 0x7a6a5aa8, 0xe40ecf0b, 0x9309ff9d, 0x0a00ae27, 0x7d079eb1
  ]
  const ROW_9: seq<bv32> := [
    0xf00f9344, 0x8708a3d2, 0x1e01f268, 0x6906c2fe, 0xf762575d, 0x806567cb, 0x196c3671, 0x6e6b06e7,
    0xfed41b76, 0x89d32be0, 0x10da7a5a, 0x67dd4acc, 0xf9b9df6f, 0x8ebeeff9, 0x17b7be43, 0x60b08ed5
  ]
  const ROW_A: seq<bv32> := [
    0xd6d6a3e8, 0xa1d1937e, 0x38d8c2c4, 0x4fdff252, 0xd1bb67f1, 0xa6bc5767, 0x3fb506dd, 0x48b2364b,
    0xd80d2bda, 0xaf0a1b4c, 0x36034af6, 0x41047a60, 0xdf60efc3, 0xa867df55, 0x316e8eef, 0x4669be79
  ]
  const ROW_B: seq<bv32> := [
    0xcb61b38c, 0xbc66831a, 0x256fd2a0, 0x5268e236, 0xcc0c7795, 0xbb0b4703, 0x220216b9, 0x5505262f,
    0xc5ba3bbe, 0xb2bd0b28, 0x2bb45a92, 0x5cb36a04, 0xc2d7ffa7, 0xb5d0cf31, 0x2cd99e8b, 0x5bdeae1d
  ]
  const ROW_C: seq<bv32> := [
    0x9b64c2b0, 0xec63f226, 0x756aa39c, 0x026d930a, 0x9c0906a9, 0xeb0e363f, 0x72076785, 0x05005713,
    0x95bf4a82, 0xe2b87a14, 0x7bb12bae, 0x0cb61b38, 0x92d28e9b, 0xe5d5be0d, 0x7cdcefb7, 0x0bdbdf21
  ]
  const ROW_D: seq<bv32> := [
    0x86d3d2d4, 0xf1d4e242, 0x68ddb3f8, 0x1fda836e, 0x81be16cd, 0xf6b9265b, 0x6fb077e1, 0x18b74777,
    0x88085ae6, 0xff0f6a70, 0x66063bca, 0x11010b5c, 0x8f659eff, 0xf862ae69, 0x616bffd3, 0x166ccf45
  ]
  const ROW_E: seq<bv32> := [
    0xa00ae278, 0xd70dd2ee, 0x4e048354, 0x3903b3c2, 0xa7672661, 0xd06016f7, 0x4969474d, 0x3e6e77db,
    0xaed16a4a, 0xd9d65adc, 0x40df0b66, 0x37d83bf0, 0xa9bcae53, 0xdebb9ec5, 0x47b2cf7f, 0x30b5ffe9
  ]
  const ROW_F: seq<bv32> := [
    0xbdbdf21c, 0xcabac28a, 0x53b39330, 0x24b4a3a6, 0xbad03605, 0xcdd70693, 0x54de5729, 0x23d967bf,
    0xb3667a2e, 0xc4614ab8, 0x5d681b02, 0x2a6f2b94, 0xb40bbe37, 0xc30c8ea1, 0x5a05df1b, 0x2d02ef8d
  ]

  /** The 256 entries, sixteen to a row. */
  const TABLE: seq<seq<bv32>> := [
    ROW_0, ROW_1, ROW_2, ROW_3, ROW_4, ROW_5, ROW_6, ROW_7,
    ROW_8, ROW_9, ROW_A, ROW_B, ROW_C, ROW_D, ROW_E, ROW_F
  ]

  lemma LowEntries()
    ensures |ROW_0| == 16
    ensures ROW_0[0] == Bits8(0) && ROW_0[1] == Bits8(1) && ROW_0[2] == Bits8(2) && ROW_0[3] == Bits8(3)
    ensures ROW_0[4] == Bits8(4) && ROW_0[5] == Bits8(5) && ROW_0[6] == Bits8(6) && ROW_0[7] == Bits8(7)
    ensures ROW_0[8] == Bits8(8) && ROW_0[9] == Bits8(9) && ROW_0[10] == Bits8(10) && ROW_0[11] == Bits8(11)
    ensures ROW_0[12] == Bits8(12) && ROW_0[13] == Bits8(13) && ROW_0[14] == Bits8(14) && ROW_0[15] == Bits8(15)
  {
    hide Bits8;
    Low0();
    Low4();
    Low8();
    Low12();
  }

  lemma Low0()
    ensures |ROW_0| == 16
    ensures ROW_0[0] == Bits8(0) && ROW_0[1] == Bits8(1) && ROW_0[2] == Bits8(2) && ROW_0[3] == Bits8(3)
  {
  }

  lemma Low4()
    ensures |ROW_0| == 16
    ensures ROW_0[4] == Bits8(4) && ROW_0[5] == Bits8(5) && ROW_0[6] == Bits8(6) && ROW_0[7] == Bits8(7)
  {
  }

  lemma Low8()
    ensures |ROW_0| == 16
    ensures ROW_0[8] == Bits8(8) && ROW_0[9] == Bits8(9) && ROW_0[10] == Bits8(10) && ROW_0[11] == Bits8(11)
  {
  }

  lemma Low12()
    ensures |ROW_0| == 16
    ensures ROW_0[12] == Bits8(12) && ROW_0[13] == Bits8(13) && ROW_0[14] == Bits8(14) && ROW_0[15] == Bits8(15)
  {
  }

  /** A row is its first entry, with each entry of the first row added. */
  predicate RowOf(row: seq<bv32>, high: bv32) {
    && |row| == 16 && |ROW_0| == 16 && row[0] == Bits8(high)
    && forall c {:trigger row[c]} | 0 <= c < 16 :: row[c] == row[0] ^ ROW_0[c]
  }

  lemma Row0()
    ensures RowOf(ROW_0, 0x0)
  {
  }

  lemma Row1()
    ensures RowOf(ROW_1, 0x10)
  {
  }

  lemma Row2()
    ensures RowOf(ROW_2, 0x20)
  {
  }

  lemma Row3()
    ensures RowOf(ROW_3, 0x30)
  {
  }

  lemma Row4()
    ensures RowOf(ROW_4, 0x40)
  {
  }

  lemma Row5()
    ensures RowOf(ROW_5, 0x50)
  {
  }

  lemma Row6()
    ensures RowOf(ROW_6, 0x60)
  {
  }

  lemma Row7()
    ensures RowOf(ROW_7, 0x70)
  {
  }

  lemma Row8()
    ensures RowOf(ROW_8, 0x80)
  {
  }

  lemma Row9()
    ensures RowOf(ROW_9, 0x90)
  {
  }

  lemma RowA()
    ensures RowOf(ROW_A, 0xa0)
  {
  }

  lemma RowB()
    ensures RowOf(ROW_B, 0xb0)
  {
  }

  lemma RowC()
    ensures RowOf(ROW_C, 0xc0)
  {
  }

  lemma RowD()
    ensures RowOf(ROW_D, 0xd0)
  {
  }

  lemma RowE()
    ensures RowOf(ROW_E, 0xe0)
  {
  }

  lemma RowF()
    ensures RowOf(ROW_F, 0xf0)
  {
  }

  lemma LowEntry(x: bv32)
    requires x <= 0xf
    ensures x as int < 16 == |ROW_0| && Word(ROW_0[x as int]) == Eight(Word(x))
  {
    hide Eight, Bits8;
    LowEntries();
    EightIs(Word(x));
  }

  lemma Nibbles(x: bv32)
    requires x <= 0xff
    ensures x == (x & 0xf0) ^ (x & 0xf) && x & 0xf <= 0xf && (x & 0xf) as int < 16 && (x >> 4) as int < 16
  {
  }

  lemma RowAt(x: bv32)
    requires x <= 0xff
    ensures (x >> 4) as int < 16 == |TABLE| && RowOf(TABLE[(x >> 4) as int], x & 0xf0)
  {
    if x < 0x40 {
      Rows0(x);
    } else if x < 0x80 {
      Rows4(x);
    } else if x < 0xc0 {
      Rows8(x);
    } else {
      RowsC(x);
    }
  }

  lemma Rows0(x: bv32)
    requires x < 0x40
    ensures (x >> 4) as int < 16 == |TABLE| && RowOf(TABLE[(x >> 4) as int], x & 0xf0)
  {
    hide RowOf;
    Row0();
    Row1();
    Row2();
    Row3();
  }

  lemma Rows4(x: bv32)
    requires 0x40 <= x < 0x80
    ensures (x >> 4) as int < 16 == |TABLE| && RowOf(TABLE[(x >> 4) as int], x & 0xf0)
  {
    hide RowOf;
    Row4();
    Row5();
    Row6();
    Row7();
  }

  lemma Rows8(x: bv32)
    requires 0x80 <= x < 0xc0
    ensures (x >> 4) as int < 16 == |TABLE| && RowOf(TABLE[(x >> 4) as int], x & 0xf0)
  {
    hide RowOf;
    Row8();
    Row9();
    RowA();
    RowB();
  }

  lemma RowsC(x: bv32)
    requires 0xc0 <= x <= 0xff
    ensures (x >> 4) as int < 16 == |TABLE| && RowOf(TABLE[(x >> 4) as int], x & 0xf0)
  {
    hide RowOf;
    RowC();
    RowD();
    RowE();
    RowF();
  }

  /** The entry with the number in the lowest byte. */
  function Entry(x: Word): Word {
    var i := x.v & 0xff;
    ByteOf(x.v);
    RowAt(i);
    Nibbles(i);
    Word(TABLE[(i >> 4) as int][(i & 0xf) as int])
  }

  lemma ByteOf(x: bv32)
    ensures x & 0xff <= 0xff
  {
  }

  lemma RawEntry(row: seq<bv32>, high: bv32, c: nat)
    requires RowOf(row, high) && c < 16
    ensures row[c] == Bits8(high) ^ ROW_0[c]
  {
    hide Bits8;
  }

  lemma RowEntry(row: seq<bv32>, high: bv32, c: nat)
    requires RowOf(row, high) && c < 16
    ensures Word(row[c]) == Xor(Eight(Word(high)), Word(ROW_0[c]))
  {
    hide Eight, Bits8, RowOf, Xor;
    RawEntry(row, high, c);
    EightIs(Word(high));
    XorIs(Bits8(high), ROW_0[c]);
    RowSize(row, high);
  }

  lemma RowSize(row: seq<bv32>, high: bv32)
    requires RowOf(row, high)
    ensures |row| == 16 == |ROW_0|
  {
  }

  function Low(x: Word): Word {
    Word(x.v & 0xff)
  }

  lemma EntryParts(x: Word)
    ensures Entry(x) == Xor(Eight(Word(Low(x).v & 0xf0)), Eight(Word(Low(x).v & 0xf)))
  {
    hide Eight, RowOf, Xor;
    var i := x.v & 0xff;
    ByteOf(x.v);
    Nibbles(i);
    RowAt(i);
    LowEntry(i & 0xf);
    RowEntry(TABLE[(i >> 4) as int], i & 0xf0, (i & 0xf) as int);
  }

  lemma LowParts(x: Word)
    ensures Low(x) == Xor(Word(Low(x).v & 0xf0), Word(Low(x).v & 0xf))
  {
  }

  /** Every entry is what the eight bits of its number come to. */
  lemma EntryIs(x: Word)
    ensures Entry(x) == Eight(Low(x))
  {
    hide Eight, Entry, Xor, Low;
    EntryParts(x);
    LowParts(x);
    EightLinear(Word(Low(x).v & 0xf0), Word(Low(x).v & 0xf));
  }

  lemma RawHalves(x: bv32)
    ensures x == (x & 0xff) ^ (x & 0xffffff00) && (x & 0xffffff00) & 0xff == 0 && (x & 0xffffff00) >> 8 == x >> 8
  {
  }

  /** One look-up does eight bits at once. */
  lemma LookUp(x: Word)
    ensures Eight(x) == Xor(Entry(x), Shift8(x))
  {
    hide Eight, Entry, Bits8;
    var low, rest := x.v & 0xff, x.v & 0xffffff00;
    RawHalves(x.v);
    assert x == Xor(Word(low), Word(rest));
    EightLinear(Word(low), Word(rest));
    EightIs(Word(rest));
    EightZeros(rest);
    EntryIs(x);
  }

  /** LZO_DO1. */
  function Step(crc: Word, b: byte): Word {
    Xor(Entry(Xor(crc, OfByte(b))), Shift8(crc))
  }

  lemma SmallWord(b: byte)
    ensures OfByte(b).v <= 0xff
  {
  }

  lemma UpperKept(crc: Word, w: Word)
    requires w.v <= 0xff
    ensures Shift8(Xor(crc, w)) == Shift8(crc)
  {
  }

  lemma StepIs(crc: Word, b: byte)
    ensures Step(crc, b) == Eight(Xor(crc, OfByte(b)))
  {
    hide Eight, Entry, OfByte, Xor, Shift8;
    SmallWord(b);
    UpperKept(crc, OfByte(b));
    LookUp(Xor(crc, OfByte(b)));
  }

  lemma Joined(buf: array<byte>, c: Word, i: nat, j: nat, k: nat)
    requires i <= j <= k <= buf.Length
    ensures Define(c, buf[i..k]) == Define(Define(c, buf[i..j]), buf[j..k])
  {
    hide Define;
    assert buf[i..j] + buf[j..k] == buf[i..k];
    DefineAppend(c, buf[i..j], buf[j..k]);
  }

  // ----- the residue -----

  function AsByte(x: bv32): byte
    requires x <= 0xff
  {
    x as int
  }

  lemma ByteBack(x: bv32)
    requires x <= 0xff
    ensures OfByte(AsByte(x)) == Word(x)
  {
  }

  lemma Narrow(x: bv32)
    ensures x & 0xff <= 0xff && (x >> 8) & 0xff <= 0xff && (x >> 16) & 0xff <= 0xff && x >> 24 <= 0xff
  {
  }

  /** The bytes of a word, the lowest first. */
  function BytesOf(w: Word): (bs: seq<byte>)
    ensures |bs| == 4
  {
    Narrow(w.v);
    [AsByte(w.v & 0xff), AsByte((w.v >> 8) & 0xff), AsByte((w.v >> 16) & 0xff), AsByte(w.v >> 24)]
  }

  lemma DefineNext(c: Word, bs: seq<byte>, b: byte)
    ensures Define(c, bs + [b]) == Eight(Xor(Define(c, bs), OfByte(b)))
  {
    hide Eight, Xor, OfByte;
    assert (bs + [b])[..|bs|] == bs;
  }

  lemma DefineFour(c: Word, b0: byte, b1: byte, b2: byte, b3: byte)
    ensures Define(c, [b0, b1, b2, b3]) ==
            Eight(Xor(Eight(Xor(Eight(Xor(Eight(Xor(c, OfByte(b0))), OfByte(b1))), OfByte(b2))), OfByte(b3)))
  {
    hide Define, Eight, Xor, OfByte;
    Nothing(c);
    DefineNext(c, [], b0);
    DefineNext(c, [b0], b1);
    DefineNext(c, [b0, b1], b2);
    DefineNext(c, [b0, b1, b2], b3);
    assert [] + [b0] == [b0] && [b0] + [b1] == [b0, b1] && [b0, b1] + [b2] == [b0, b1, b2];
    assert [b0, b1, b2] + [b3] == [b0, b1, b2, b3];
  }

  /** Zeros below are only shifted out. */
  lemma Raised(x: bv32)
    requires x & 0xff == 0
    ensures Eight(Word(x)) == Word(x >> 8)
  {
    hide Bits8, Eight;
    EightIs(Word(x));
    EightZeros(x);
  }

  /** The places of a word. */
  function Place(w: Word, k: nat): Word
    requires k < 4
  {
    Word(w.v & (if k == 0 then 0xff else if k == 1 then 0xff00 else if k == 2 then 0xff0000 else 0xff000000))
  }

  lemma Places(x: bv32)
    ensures (x & 0xff00) & 0xff == 0 && (x & 0xff00) >> 8 == (x >> 8) & 0xff
    ensures (x & 0xff0000) & 0xff == 0 && ((x & 0xff0000) >> 8) & 0xff == 0
    ensures (x & 0xff0000) >> 8 >> 8 == (x >> 16) & 0xff
  {
  }

  lemma TopPlace(x: bv32)
    ensures (x & 0xff000000) & 0xff == 0 && ((x & 0xff000000) >> 8) & 0xff == 0
    ensures ((x & 0xff000000) >> 8 >> 8) & 0xff == 0 && (x & 0xff000000) >> 8 >> 8 >> 8 == x >> 24
  {
  }

  /** A byte of a word is its place shifted down. */
  lemma BytePlaces(w: Word)
    ensures OfByte(BytesOf(w)[0]) == Place(w, 0) && OfByte(BytesOf(w)[1]) == Eight(Place(w, 1))
    ensures OfByte(BytesOf(w)[2]) == Eight(Eight(Place(w, 2)))
    ensures OfByte(BytesOf(w)[3]) == Eight(Eight(Eight(Place(w, 3))))
  {
    hide Eight, OfByte, AsByte;
    var x := w.v;
    Narrow(x);
    ByteBack(x & 0xff);
    ByteBack((x >> 8) & 0xff);
    ByteBack((x >> 16) & 0xff);
    ByteBack(x >> 24);
    Places(x);
    TopPlace(x);
    Raised(x & 0xff00);
    Raised(x & 0xff0000);
    Raised((x & 0xff0000) >> 8);
    Raised(x & 0xff000000);
    Raised((x & 0xff000000) >> 8);
    Raised((x & 0xff000000) >> 8 >> 8);
  }

  lemma RawAssoc(x: bv32, y: bv32, z: bv32)
    ensures (x ^ y) ^ z == x ^ (y ^ z)
  {
  }

  lemma AssocOf(x: bv32, y: bv32, z: bv32)
    ensures Xor(Xor(Word(x), Word(y)), Word(z)) == Xor(Word(x), Xor(Word(y), Word(z)))
  {
    hide Xor;
    calc {
      Xor(Xor(Word(x), Word(y)), Word(z));
      { XorIs(x, y); }
      Xor(Word(x ^ y), Word(z));
      { XorIs(x ^ y, z); }
      Word((x ^ y) ^ z);
      { RawAssoc(x, y, z); }
      Word(x ^ (y ^ z));
      { XorIs(x, y ^ z); }
      Xor(Word(x), Word(y ^ z));
      { XorIs(y, z); }
      Xor(Word(x), Xor(Word(y), Word(z)));
    }
  }

  lemma XorAssoc(x: Word, y: Word, z: Word)
    ensures Xor(Xor(x, y), z) == Xor(x, Xor(y, z))
  {
    hide Xor;
    AssocOf(x.v, y.v, z.v);
  }

  lemma PlacePairs(w: Word)
    ensures Xor(Place(w, 0), Place(w, 1)) == Word(w.v & 0xffff)
    ensures Xor(Place(w, 2), Place(w, 3)) == Word(w.v & 0xffff0000)
  {
  }

  lemma PairsSum(w: Word)
    ensures Xor(Word(w.v & 0xffff), Word(w.v & 0xffff0000)) == w
  {
  }

  lemma AllPlaces(w: Word)
    ensures Xor(Xor(Place(w, 0), Place(w, 1)), Xor(Place(w, 2), Place(w, 3))) == w
  {
    hide Xor, Place;
    PlacePairs(w);
    PairsSum(w);
  }

  lemma PlacesSum(c: Word, w: Word)
    ensures Xor(Xor(Xor(Xor(c, Place(w, 0)), Place(w, 1)), Place(w, 2)), Place(w, 3)) == Xor(c, w)
  {
    hide Xor, Place;
    var p0, p1, p2, p3 := Place(w, 0), Place(w, 1), Place(w, 2), Place(w, 3);
    AllPlaces(w);
    XorAssoc(c, p0, p1);
    XorAssoc(Xor(c, Xor(p0, p1)), p2, p3);
    XorAssoc(c, Xor(p0, p1), Xor(p2, p3));
  }

  /** The four bytes of a word go in as one: what is added later was there from the beginning. */
  lemma DefineWord(c: Word, w: Word)
    ensures Define(c, BytesOf(w)) == Eight(Eight(Eight(Eight(Xor(c, w)))))
  {
    hide Define, Eight, Xor, OfByte, BytesOf, Place;
    var bs := BytesOf(w);
    assert bs == [bs[0], bs[1], bs[2], bs[3]];
    DefineFour(c, bs[0], bs[1], bs[2], bs[3]);
    BytePlaces(w);
    var p1, p2, p3 := Place(w, 1), Place(w, 2), Place(w, 3);
    var c0 := Xor(c, Place(w, 0));
    var c1 := Xor(c0, p1);
    var c2 := Xor(c1, p2);
    EightLinear(c0, p1);
    EightLinear(Eight(c1), Eight(p2));
    EightLinear(c1, p2);
    EightLinear(Eight(Eight(c2)), Eight(Eight(p3)));
    EightLinear(Eight(c2), Eight(p3));
    EightLinear(c2, p3);
    PlacesSum(c, w);
  }

  lemma OnesShifted()
    ensures Bits8(0xffffffff) == 0x2dfd1072 && Bits8(0x2dfd1072) == 0xbe26ed00
    ensures Bits8(0xbe26ed00) == 0x00be26ed && Bits8(0x00be26ed) == 0xdebb20e3
  {
  }

  lemma OnesOut()
    ensures Eight(Eight(Eight(Eight(Word(0xffffffff))))) == Word(0xdebb20e3)
  {
    hide Eight, Bits8;
    OnesShifted();
    EightIs(Word(0xffffffff));
    EightIs(Word(0x2dfd1072));
    EightIs(Word(0xbe26ed00));
    EightIs(Word(0x00be26ed));
  }

  lemma Complement(x: bv32)
    ensures x ^ (x ^ 0xffffffff) == 0xffffffff
  {
  }

  lemma Cancels(x: Word)
    ensures Xor(x, Xor(x, ONES)) == Word(0xffffffff) && Xor(Word(0xdebb20e3), ONES) == Word(0x2144df1c)
  {
    Complement(x.v);
  }

  /** Whatever has been summed up, its checksum behind it gives one and the same number. */
  lemma Residue(c: Word, bs: seq<byte>)
    ensures Checksum(c, bs + BytesOf(Checksum(c, bs))) == Word(0x2144df1c)
  {
    hide Define, Eight, Xor, BytesOf;
    var r := Define(Xor(c, ONES), bs);
    DefineAppend(Xor(c, ONES), bs, BytesOf(Checksum(c, bs)));
    DefineWord(r, Xor(r, ONES));
    Cancels(r);
    OnesOut();
  }

  lemma Digits1()
    ensures Bits8(0xffffffce) == 0x7c231048 && Bits8(0x7c23107a) == 0xb0acbb32 && Bits8(0xb0acbb01) == 0x77b79c2d
  {
  }

  lemma Digits4()
    ensures Bits8(0x77b79c19) == 0x641c1f5c && Bits8(0x641c1f69) == 0x340ac5e3 && Bits8(0x340ac5d5) == 0xf68d2c9e
  {
  }

  lemma Digits7()
    ensures Bits8(0xf68d2ca9) == 0xaffc9660 && Bits8(0xaffc9658) == 0x651f2550 && Bits8(0x651f2569) == 0x340bc6d9
  {
  }

  lemma DefineDigit(c: Word, bs: seq<byte>, i: nat, x: bv32, b: bv32, y: bv32, z: bv32)
    requires i < |bs| && b <= 0xff && bs[i] == AsByte(b)
    requires Define(c, bs[..i]) == Word(x) && x ^ b == y && Bits8(y) == z
    ensures Define(c, bs[..i + 1]) == Word(z)
  {
    hide Define, Eight, Bits8, Xor, OfByte, AsByte;
    assert bs[..i] + [bs[i]] == bs[..i + 1];
    DefineNext(c, bs[..i], bs[i]);
    ByteBack(b);
    XorIs(x, b);
    EightIs(Word(y));
  }

  lemma DigitBytes()
    ensures AsByte(0x31) == 0x31 && AsByte(0x32) == 0x32 && AsByte(0x33) == 0x33 && AsByte(0x34) == 0x34
    ensures AsByte(0x35) == 0x35 && AsByte(0x36) == 0x36 && AsByte(0x37) == 0x37 && AsByte(0x38) == 0x38
    ensures AsByte(0x39) == 0x39
  {
  }

  lemma Begun(c: Word, bs: seq<byte>)
    ensures Define(c, bs[..0]) == c
  {
  }

  /** The check value: of the nine digits. */
  lemma CheckValue()
    ensures Checksum(Word(0), [0x31, 0x32, 0x33, 0x34, 0x35, 0x36, 0x37, 0x38, 0x39]) == Word(0xcbf43926)
  {
    hide Define, Eight, Bits8, AsByte;
    var c := Word(0xffffffff);
    var bs: seq<byte> := [0x31, 0x32, 0x33, 0x34, 0x35, 0x36, 0x37, 0x38, 0x39];
    Begun(c, bs);
    DigitBytes();
    Digits1();
    Digits4();
    Digits7();
    DefineDigit(c, bs, 0, 0xffffffff, 0x31, 0xffffffce, 0x7c231048);
    DefineDigit(c, bs, 1, 0x7c231048, 0x32, 0x7c23107a, 0xb0acbb32);
    DefineDigit(c, bs, 2, 0xb0acbb32, 0x33, 0xb0acbb01, 0x77b79c2d);
    DefineDigit(c, bs, 3, 0x77b79c2d, 0x34, 0x77b79c19, 0x641c1f5c);
    DefineDigit(c, bs, 4, 0x641c1f5c, 0x35, 0x641c1f69, 0x340ac5e3);
    DefineDigit(c, bs, 5, 0x340ac5e3, 0x36, 0x340ac5d5, 0xf68d2c9e);
    DefineDigit(c, bs, 6, 0xf68d2c9e, 0x37, 0xf68d2ca9, 0xaffc9660);
    DefineDigit(c, bs, 7, 0xaffc9660, 0x38, 0xaffc9658, 0x651f2550);
    DefineDigit(c, bs, 8, 0x651f2550, 0x39, 0x651f2569, 0x340bc6d9);
    assert bs[..9] == bs;
  }

  // ----- the loops -----

  method Do1(buf: array<byte>, i: nat, crc: Word) returns (r: Word)
    requires i < buf.Length
    ensures r == Define(crc, buf[i..i + 1])
  {
    hide Eight, Entry, OfByte, Xor, Shift8;
    StepIs(crc, buf[i]);
    r := Xor(Entry(Xor(crc, OfByte(buf[i]))), Shift8(crc));
    assert buf[i..i + 1][..0] == [];
  }

  method Do2(buf: array<byte>, i: nat, crc: Word) returns (r: Word)
    requires i + 2 <= buf.Length
    ensures r == Define(crc, buf[i..i + 2])
  {
    hide Define;
    r := Do1(buf, i, crc);
    r := Do1(buf, i + 1, r);
    Joined(buf, crc, i, i + 1, i + 2);
  }

  method Do4(buf: array<byte>, i: nat, crc: Word) returns (r: Word)
    requires i + 4 <= buf.Length
    ensures r == Define(crc, buf[i..i + 4])
  {
    hide Define;
    r := Do2(buf, i, crc);
    r := Do2(buf, i + 2, r);
    Joined(buf, crc, i, i + 2, i + 4);
  }

  method Do8(buf: array<byte>, i: nat, crc: Word) returns (r: Word)
    requires i + 8 <= buf.Length
    ensures r == Define(crc, buf[i..i + 8])
  {
    hide Define;
    r := Do4(buf, i, crc);
    r := Do4(buf, i + 4, r);
    Joined(buf, crc, i, i + 4, i + 8);
  }

  method Do16(buf: array<byte>, i: nat, crc: Word) returns (r: Word)
    requires i + 16 <= buf.Length
    ensures r == Define(crc, buf[i..i + 16])
  {
    hide Define;
    r := Do8(buf, i, crc);
    r := Do8(buf, i + 8, r);
    Joined(buf, crc, i, i + 8, i + 16);
  }

  lemma Nothing(c: Word)
    ensures Define(c, []) == c
  {
  }

  /** lzo_crc32: the result is the defined one, and 0 when there is no buffer. */
  method Crc32(c: Word, buf: array?<byte>, at: nat, len: nat) returns (r: Word)
    requires buf != null ==> at + len <= buf.Length
    ensures r == if buf == null then Word(0) else Checksum(c, buf[at..at + len])
  {
    hide Define, Xor;
    if buf == null {
      return Word(0);
    }
    var crc, k := Xor(c, ONES), len;
    assert buf[at..at] == [];
    Nothing(crc);
    while k >= 16
      invariant 0 <= k <= len && crc == Define(Xor(c, ONES), buf[at..at + (len - k)])
    {
      Joined(buf, Xor(c, ONES), at, at + (len - k), at + (len - k) + 16);
      crc := Do16(buf, at + (len - k), crc);
      k := k - 16;
    }
    while k > 0
      invariant 0 <= k <= len && crc == Define(Xor(c, ONES), buf[at..at + (len - k)])
    {
      Joined(buf, Xor(c, ONES), at, at + (len - k), at + (len - k) + 1);
      crc := Do1(buf, at + (len - k), crc);
      k := k - 1;
    }
    r := Xor(crc, ONES);
  }
}
