/** The file format of examples/lzopack.c: a header, blocks that are stored compressed when that is
    shorter, an end marker and a checksum. */
module Container {
  import opened Bytes
  import opened Format
  import opened Expansion
  import opened Emission
  import opened Adler

  const MAGIC: seq<byte> := [0x00, 0xe9, 0x4c, 0x5a, 0x4f, 0xff, 0x1a]
  const MIN_BLOCK: nat := 1024
  const MAX_BLOCK: nat := 8 * 1024 * 1024

  // ----- 32-bit numbers -----

  function Digit(v: u32, place: nat): byte
    requires place > 0
  {
    v / place % 256
  }

  /** The most significant byte first. */
  function BE32(v: u32): (r: seq<byte>)
    ensures |r| == 4
  {
    [Digit(v, 0x100_0000), Digit(v, 0x1_0000), Digit(v, 0x100), v % 256]
  }

  function FromBE32(b: seq<byte>): u32
    requires |b| == 4
  {
    var b0: nat, b1: nat, b2: nat, b3: nat := b[0], b[1], b[2], b[3];
    b0 * 0x100_0000 + b1 * 0x1_0000 + b2 * 0x100 + b3
  }

  lemma BE32Back(v: u32)
    ensures FromBE32(BE32(v)) == v
  {
    assert v == v / 0x100 * 0x100 + v % 0x100;
    assert v / 0x100 == v / 0x1_0000 * 0x100 + v / 0x100 % 0x100;
    assert v / 0x1_0000 == v / 0x100_0000 * 0x100 + v / 0x1_0000 % 0x100;
  }

  lemma BE32Inverse(b: seq<byte>)
    requires |b| == 4
    ensures BE32(FromBE32(b)) == b
  {
    var b0: nat, b1: nat, b2: nat, b3: nat := b[0], b[1], b[2], b[3];
    LastDigit((b0 * 0x100 + b1) * 0x100 + b2, b3);
    LastDigit(b0 * 0x100 + b1, b2);
    LastDigit(b0, b1);
    Places(FromBE32(b));
  }

  lemma LastDigit(m: nat, d: nat)
    requires d < 0x100
    ensures (m * 0x100 + d) / 0x100 == m && (m * 0x100 + d) % 0x100 == d
  {
  }

  lemma Places(v: nat)
    ensures v / 0x1_0000 == v / 0x100 / 0x100 && v / 0x100_0000 == v / 0x100 / 0x100 / 0x100
  {
  }

  // ----- blocks -----

  /** A block of the file and what is stored for it. */
  datatype Chunk = Chunk(data: seq<byte>, body: seq<byte>)

  /** Stored as it is, or compressed and then shorter: the two lengths tell which. */
  ghost predicate ChunkOK(word: nat, c: Chunk, blockSize: nat) {
    && 1 <= |c.data| <= blockSize
    && (|| c.body == c.data
        || (1 <= |c.body| < |c.data| && Encodes(LZO1X, word, Ctx(Start, 0, []), c.body, c.data, RUN_SLACK)))
  }

  function ChunkBytes(c: Chunk): seq<byte>
    requires |c.data| < 0x1_0000_0000 && |c.body| < 0x1_0000_0000
  {
    BE32(|c.data|) + BE32(|c.body|) + c.body
  }

  ghost predicate AllOK(word: nat, cs: seq<Chunk>, blockSize: nat) {
    forall i | 0 <= i < |cs| :: ChunkOK(word, cs[i], blockSize)
  }

  function Body(cs: seq<Chunk>): seq<byte>
    requires Small32(cs)
  {
    if cs == [] then [] else ChunkBytes(cs[0]) + Body(cs[1..])
  }

  function Data(cs: seq<Chunk>): seq<byte> {
    if cs == [] then [] else cs[0].data + Data(cs[1..])
  }

  predicate Small32(cs: seq<Chunk>) {
    forall i | 0 <= i < |cs| :: |cs[i].data| < 0x1_0000_0000 && |cs[i].body| < 0x1_0000_0000
  }

  lemma {:induction false} Snoc(cs: seq<Chunk>, c: Chunk)
    requires Small32(cs) && |c.data| < 0x1_0000_0000 && |c.body| < 0x1_0000_0000
    ensures Small32(cs + [c])
    ensures Body(cs + [c]) == Body(cs) + ChunkBytes(c) && Data(cs + [c]) == Data(cs) + c.data
  {
    hide ChunkBytes;
    assert [c][0] == c && [c][1..] == [];
    if cs == [] {
      assert [] + [c] == [c];
    } else {
      Snoc(cs[1..], c);
      assert (cs + [c])[1..] == cs[1..] + [c];
    }
  }

  // ----- the whole file -----

  function Header(level: byte, blockSize: u32): (r: seq<byte>)
    ensures |r| == 17
  {
    MAGIC + BE32(1) + [1, level] + BE32(blockSize)
  }

  function Tail(cs: seq<Chunk>): (r: seq<byte>)
    ensures |r| == 8
  {
    BE32(0) + BE32(Checksum(1, Data(cs)))
  }

  ghost predicate IsPack(word: nat, file: seq<byte>, cs: seq<Chunk>, level: byte, blockSize: nat) {
    && MIN_BLOCK <= blockSize <= MAX_BLOCK && AllOK(word, cs, blockSize) && Small32(cs)
    && file == Header(level, blockSize) + Body(cs) + Tail(cs)
  }
}
