/** What do_decompress of examples/lzopack.c makes of any file, as a function of the file's bytes, and
    the files that it accepts. */
module Unpacking {
  import opened Bytes
  import opened Format
  import opened Decoder
  import opened Emission
  import opened Greedy
  import opened Decompress
  import opened Compress
  import opened Adler
  import opened Container
  import opened Locality
  import Overlap

  /** What do_decompress returns, or that the program ended in xread. */
  datatype Exit = Return(r: nat) | ReadError

  // ----- one block -----

  /** `Torn` when the decoder would overwrite input that it has not read. */
  datatype Block = Torn | Corrupt | Good(data: seq<byte>)

  /** The block's bytes at the top of a buffer of `size` bytes, and room for `n` at its bottom. */
  ghost function BlockEnv(word: nat, body: seq<byte>, n: nat, size: nat): Env
    requires |body| <= size
  {
    Env(LZO1X, word, false, seq(size - |body|, _ => 0) + body, size, seq(n, _ => 0))
  }

  /** The `n` bytes that a block stands for. */
  ghost function Decoded(word: nat, body: seq<byte>, n: nat, size: nat): (b: Block)
    requires 0x1_0000 <= word && |body| <= size
    ensures b.Good? ==> |b.data| == n
  {
    if |body| == n then Good(body)
    else
      var e, c := BlockEnv(word, body, n, size), Cfg(size - |body|, C0);
      if !ClearRun(0, e, c) then Torn
      else
        var r := Decode(e, c);
        if r.status.OK? && |r.out| == n then Good(r.out) else Corrupt
  }

  /** Whatever else the buffer holds, the decoder makes of the block what `Decoded` says. */
  lemma DecodedHere(e: Env, body: seq<byte>, n: nat, size: nat)
    requires Valid(e) && e.v.LZO1X? && !e.dict && e.end == |e.input| == size && |e.room| == n
    requires |body| <= size && e.input[size - |body|..] == body && |body| != n
    ensures var c, d := Cfg(size - |body|, C0), Decoded(e.word, body, n, size);
            && (ClearRun(0, e, c) <==> !d.Torn?)
            && (!d.Torn? ==> (d.Good? <==> Decode(e, c).status.OK? && |Decode(e, c).out| == n))
            && (d.Good? ==> Decode(e, c).out == d.data)
  {
    hide Decode, ClearRun;
    var e' := BlockEnv(e.word, body, n, size);
    forall i | size - |body| <= i < size ensures e.input[i] == e'.input[i] {
      assert e.input[i] == e.input[size - |body|..][i - (size - |body|)];
    }
    SameDecode(0, e', e, Cfg(size - |body|, C0));
  }

  /** What lzopack stores for a block stands for the block. */
  lemma PackedBlock(word: nat, c: Chunk, blockSize: nat)
    requires 0x1_0000 <= word && ChunkOK(word, c, blockSize)
    ensures 1 <= |c.body| <= |c.data| <= blockSize
    ensures Decoded(word, c.body, |c.data|, Room(blockSize)) == Good(c.data)
  {
    hide Decode, ClearRun, Encodes;
    var size := Room(blockSize);
    if |c.body| < |c.data| {
      var e := BlockEnv(word, c.body, |c.data|, size);
      assert e.input[size - |c.body|..][..|c.body|] == c.body;
      Overlap.InPlace(e, 0, size - |c.body|, c.body, c.data, size - |c.data|);
    }
  }

  /** Corrupt files do tear: here a match of 600 bytes reaches into the second half of its own block. */
  lemma TornReached(word: nat, more: seq<byte>)
    requires 0x1_0000 <= word && |more| == 589
    ensures Decoded(word, [21, 1, 2, 3, 4, 32, 0, 0, 57, 0, 0] + more, 1000, Room(1024)) == Torn
  {
    hide ClearRun, Decode, Step;
    var body := [21, 1, 2, 3, 4, 32, 0, 0, 57, 0, 0] + more;
    var e := BlockEnv(word, body, 1000, Room(1024));
    assert e.input[555..] == body && e.input[555..][..11] == body[..11];
    var c := Cfg(560, Ctx(AfterRun, 0, e.input[556..560]));
    TornSteps(e, c);
    OneStep(0, e, Cfg(555, C0));
    OneStep(0, e, c);
  }

  lemma TornSteps(e: Env, c: Cfg)
    requires Valid(e) && e.v.LZO1X? && !e.dict && e.end == |e.input| == 1155 && |e.room| == 1000
    requires e.input[555..][..11] == [21, 1, 2, 3, 4, 32, 0, 0, 57, 0, 0]
    requires c == Cfg(560, Ctx(AfterRun, 0, e.input[556..560]))
    ensures Step(e, Cfg(555, C0)) == Go(c)
    ensures Step(e, c).Go? && Step(e, c).cfg.ip == 566 && |Step(e, c).cfg.ctx.out| == 604
  {
    hide Copied;
    forall i | 0 <= i < 11 ensures e.input[555 + i] == e.input[555..][..11][i] {
    }
    assert e.input[555] == 21 && e.input[560] == 32 && e.input[561] == 0 && e.input[562] == 0 && e.input[563] == 57;
    assert e.input[564] == 0 && e.input[565] == 0;
    assert [] + e.input[556..560] == e.input[556..560];
    assert ReadExt(e, 563, 510) == LenOK(567, 564);
    assert ReadExt(e, 562, 255) == LenOK(567, 564);
    assert ReadHead(e, c) == Copy(M3, 600, 1, 566);
  }

  // ----- the blocks -----

  /** All of it, up to an end marker or an accepted checksum; or what had been written when the program
      stopped; or, once a block is torn, what had been written before it. */
  datatype Unpacked =
    | Whole(data: seq<byte>, rest: seq<byte>)
    | Stopped(e: Exit, data: seq<byte>)
    | Tainted(data: seq<byte>)

  function Behind(w: seq<byte>, u: Unpacked): Unpacked {
    u.(data := w + u.data)
  }

  predicate SizesOK(n: nat, m: nat, blockSize: nat) {
    1 <= m <= n <= blockSize
  }

  ghost function FromBlocks(word: nat, f: seq<byte>, blockSize: nat): Unpacked
    requires 0x1_0000 <= word
    decreases |f|
  {
    if |f| < 4 then Stopped(ReadError, [])
    else if FromBE32(f[..4]) == 0 then Whole([], f[4..])
    else if |f| < 8 then Stopped(ReadError, [])
    else if !SizesOK(FromBE32(f[..4]), FromBE32(f[4..8]), blockSize) then Stopped(Return(5), [])
    else FirstBlock(word, f, FromBE32(f[..4]), FromBE32(f[4..8]), blockSize)
  }

  ghost function FirstBlock(word: nat, f: seq<byte>, n: nat, m: nat, blockSize: nat): Unpacked
    requires 0x1_0000 <= word && 8 <= |f| && SizesOK(n, m, blockSize)
    decreases |f|, 0
  {
    if |f| < 8 + m then Stopped(ReadError, [])
    else
      match Decoded(word, f[8..8 + m], n, Room(blockSize))
      case Torn => Tainted([])
      case Corrupt => Stopped(Return(6), [])
      case Good(data) => Behind(data, FromBlocks(word, f[8 + m..], blockSize))
  }

  /** A block of the file whose bytes stand for its data. */
  ghost predicate BlockOK(word: nat, c: Chunk, blockSize: nat)
    requires 0x1_0000 <= word
  {
    SizesOK(|c.data|, |c.body|, blockSize) && Decoded(word, c.body, |c.data|, Room(blockSize)) == Good(c.data)
  }

  ghost predicate BlocksOK(word: nat, cs: seq<Chunk>, blockSize: nat)
    requires 0x1_0000 <= word
  {
    forall i | 0 <= i < |cs| :: BlockOK(word, cs[i], blockSize)
  }

  /** `f` begins with the blocks `cs` and the end marker. */
  ghost predicate BeginsWith(word: nat, f: seq<byte>, cs: seq<Chunk>, blockSize: nat, rest: seq<byte>)
    requires 0x1_0000 <= word
  {
    Small32(cs) && BlocksOK(word, cs, blockSize) && f == Body(cs) + (BE32(0) + rest)
  }

  lemma OneBlock(word: nat, c: Chunk, blockSize: nat, more: seq<byte>)
    requires 0x1_0000 <= word && BlockOK(word, c, blockSize) && |c.data| < 0x1_0000_0000 && |c.body| < 0x1_0000_0000
    ensures FromBlocks(word, ChunkBytes(c) + more, blockSize) == Behind(c.data, FromBlocks(word, more, blockSize))
    ensures |ChunkBytes(c)| >= 8
  {
    hide Decoded, BE32, FromBE32;
    var f := ChunkBytes(c) + more;
    assert f[..4] == BE32(|c.data|) && f[4..8] == BE32(|c.body|);
    assert f[8..8 + |c.body|] == c.body && f[8 + |c.body|..] == more;
    BE32Back(|c.data|);
    BE32Back(|c.body|);
  }

  lemma {:induction false} BlocksAt(word: nat, f: seq<byte>, cs: seq<Chunk>, blockSize: nat, rest: seq<byte>)
    requires 0x1_0000 <= word && BeginsWith(word, f, cs, blockSize, rest)
    ensures FromBlocks(word, f, blockSize) == Whole(Data(cs), rest)
    decreases |cs|
  {
    hide BE32, FromBE32, Decoded, ChunkBytes, BlockOK;
    if cs == [] {
      BE32Back(0);
      assert f[..4] == BE32(0) && f[4..] == rest;
    } else {
      var more := Body(cs[1..]) + (BE32(0) + rest);
      assert f == ChunkBytes(cs[0]) + more;
      OneBlock(word, cs[0], blockSize, more);
      BlocksAt(word, more, cs[1..], blockSize, rest);
    }
  }

  lemma {:induction false} BlocksInverse(word: nat, f: seq<byte>, blockSize: nat) returns (cs: seq<Chunk>)
    requires 0x1_0000 <= word && blockSize < 0x1_0000_0000 && FromBlocks(word, f, blockSize).Whole?
    ensures BeginsWith(word, f, cs, blockSize, FromBlocks(word, f, blockSize).rest)
    ensures FromBlocks(word, f, blockSize).data == Data(cs)
    decreases |f|
  {
    hide BE32, FromBE32, Decoded, ChunkBytes;
    BE32Inverse(f[..4]);
    if FromBE32(f[..4]) == 0 {
      cs := [];
      assert f == f[..4] + f[4..];
    } else {
      var m := FromBE32(f[4..8]);
      var c := Chunk(Decoded(word, f[8..8 + m], FromBE32(f[..4]), Room(blockSize)).data, f[8..8 + m]);
      var cs' := BlocksInverse(word, f[8 + m..], blockSize);
      cs := [c] + cs';
      BytesOfBlock(f, c);
      assert cs[1..] == cs';
    }
  }

  lemma BytesOfBlock(f: seq<byte>, c: Chunk)
    requires |c.data| < 0x1_0000_0000 && |c.body| < 0x1_0000_0000 && 8 + |c.body| <= |f|
    requires |c.data| == FromBE32(f[..4]) && |c.body| == FromBE32(f[4..8]) && c.body == f[8..8 + |c.body|]
    ensures f == ChunkBytes(c) + f[8 + |c.body|..]
  {
    hide BE32, FromBE32;
    BE32Inverse(f[..4]);
    BE32Inverse(f[4..8]);
  }

  // ----- the whole file -----

  /** Its format, its method and its block size are ones that are known. */
  predicate HeaderOK(f: seq<byte>) {
    17 <= |f| && f[..7] == MAGIC && f[11] == 1 && MIN_BLOCK <= FromBE32(f[13..17]) <= MAX_BLOCK
  }

  function HeaderExit(f: seq<byte>): Exit {
    if |f| < 7 || f[..7] != MAGIC then Return(1)
    else if |f| < 13 then ReadError
    else if f[11] != 1 then Return(2)
    else if |f| < 17 then ReadError
    else Return(3)
  }

  /** Whether a checksum follows the blocks. */
  predicate Summed(f: seq<byte>)
    requires 17 <= |f|
  {
    f[10] % 2 == 1
  }

  ghost function AfterSum(data: seq<byte>, rest: seq<byte>): Unpacked {
    if |rest| < 4 then Stopped(ReadError, data)
    else if rest[..4] != BE32(Checksum(1, data)) then Stopped(Return(7), data)
    else Whole(data, rest[4..])
  }

  ghost function UnpackFile(word: nat, f: seq<byte>): Unpacked
    requires 0x1_0000 <= word
  {
    if !HeaderOK(f) then Stopped(HeaderExit(f), [])
    else
      var u := FromBlocks(word, f[17..], FromBE32(f[13..17]));
      if u.Whole? && Summed(f) then AfterSum(u.data, u.rest) else u
  }

  /** `f` is a known header, blocks that stand for their data, the end marker and, when the flags say
      so, the checksum of the data. */
  ghost predicate Spells(word: nat, f: seq<byte>, cs: seq<Chunk>, rest: seq<byte>)
    requires 0x1_0000 <= word
  {
    && HeaderOK(f)
    && BeginsWith(word, f[17..], cs, FromBE32(f[13..17]),
                  if Summed(f) then BE32(Checksum(1, Data(cs))) + rest else rest)
  }

  lemma SpelledUnpacks(word: nat, f: seq<byte>, cs: seq<Chunk>, rest: seq<byte>)
    requires 0x1_0000 <= word && Spells(word, f, cs, rest)
    ensures UnpackFile(word, f) == Whole(Data(cs), rest)
  {
    hide BeginsWith, Checksum, BE32, FromBE32, FromBlocks;
    var sum := BE32(Checksum(1, Data(cs)));
    BlocksAt(word, f[17..], cs, FromBE32(f[13..17]), if Summed(f) then sum + rest else rest);
    assert (sum + rest)[..4] == sum && (sum + rest)[4..] == rest;
  }

  lemma UnpackedSpells(word: nat, f: seq<byte>) returns (cs: seq<Chunk>)
    requires 0x1_0000 <= word && UnpackFile(word, f).Whole?
    ensures Spells(word, f, cs, UnpackFile(word, f).rest) && UnpackFile(word, f).data == Data(cs)
  {
    hide BeginsWith, Checksum, BE32, FromBE32, FromBlocks;
    cs := BlocksInverse(word, f[17..], FromBE32(f[13..17]));
    var before := FromBlocks(word, f[17..], FromBE32(f[13..17])).rest;
    assert Summed(f) ==> before == before[..4] + before[4..];
  }

  /** do_decompress returns 0 exactly for such files, having written the data of the blocks. */
  lemma UnpacksExactly(word: nat, f: seq<byte>, data: seq<byte>, rest: seq<byte>)
    requires 0x1_0000 <= word
    ensures UnpackFile(word, f) == Whole(data, rest) <==> exists cs :: Spells(word, f, cs, rest) && Data(cs) == data
  {
    hide UnpackFile, Spells;
    if UnpackFile(word, f) == Whole(data, rest) {
      var cs := UnpackedSpells(word, f);
      assert Spells(word, f, cs, rest) && Data(cs) == data;
    }
    forall cs | Spells(word, f, cs, rest) && Data(cs) == data ensures UnpackFile(word, f) == Whole(data, rest) {
      SpelledUnpacks(word, f, cs, rest);
    }
  }

  /** What lzopack writes is such a file, with nothing behind it. */
  lemma PackSpells(word: nat, f: seq<byte>, cs: seq<Chunk>, level: byte, blockSize: nat)
    requires 0x1_0000 <= word && IsPack(word, f, cs, level, blockSize)
    ensures Spells(word, f, cs, []) && UnpackFile(word, f) == Whole(Data(cs), [])
  {
    hide Checksum, BE32, FromBE32, FromBlocks, Decoded, ChunkOK, Body, Data;
    forall i | 0 <= i < |cs| ensures BlockOK(word, cs[i], blockSize) {
      PackedBlock(word, cs[i], blockSize);
    }
    PackParts(f, Body(cs) + Tail(cs), level, blockSize);
    var sum := BE32(Checksum(1, Data(cs)));
    assert sum + [] == sum;
    assert f == Header(level, blockSize) + (Body(cs) + Tail(cs));
    SpelledUnpacks(word, f, cs, []);
  }

  lemma PackParts(f: seq<byte>, rest: seq<byte>, level: byte, blockSize: nat)
    requires MIN_BLOCK <= blockSize <= MAX_BLOCK && f == Header(level, blockSize) + rest
    ensures HeaderOK(f) && Summed(f) && f[17..] == rest && FromBE32(f[13..17]) == blockSize
  {
    hide FromBE32;
    assert f[13..17] == BE32(blockSize);
    assert f[..7] == MAGIC;
    assert f[7..11] == BE32(1);
    assert f[10] == f[7..11][3];
    BE32Back(blockSize);
  }
}
