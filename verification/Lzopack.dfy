/** do_compress and do_decompress of examples/lzopack.c. */
module Lzopack {
  import opened Bytes
  import opened Format
  import opened Decoder
  import opened Expansion
  import opened Emission
  import opened Greedy
  import opened Copying
  import opened Decompress
  import opened Compress
  import opened Theorems
  import opened Adler
  import opened Container
  import opened Unpacking
  import Lzo999

  // ----- files -----

  class InFile {
    const data: seq<byte>
    var pos: nat

    constructor (data: seq<byte>)
      ensures this.data == data && pos == 0
    {
      this.data := data;
      pos := 0;
    }

    ghost predicate Valid()
      reads this
    {
      pos <= |data|
    }

    ghost function Rest(): seq<byte>
      requires Valid()
      reads this
    {
      data[pos..]
    }

    /** xread: as much as there is, up to `len` bytes; with less the program ends unless `allowEof`. */
    method XRead(buf: array<byte>, at: nat, len: nat, allowEof: bool) returns (ok: bool, l: nat)
      requires Valid() && at + len <= buf.Length
      modifies this`pos, buf
      ensures Valid() && l == (if len <= old(|Rest()|) then len else old(|Rest()|)) && (ok <==> l == len || allowEof)
      ensures Rest() == old(Rest())[l..] && buf[at..at + l] == old(Rest())[..l]
      ensures forall i {:trigger buf[i]} | 0 <= i < buf.Length && !(at <= i < at + l) :: buf[i] == old(buf[i])
    {
      l := if len <= |data| - pos then len else |data| - pos;
      forall i | 0 <= i < l {
        buf[at + i] := data[pos + i];
      }
      pos := pos + l;
      ok := l == len || allowEof;
    }

    method XGetc() returns (ok: bool, c: byte)
      requires Valid()
      modifies this`pos
      ensures Valid() && (ok <==> 1 <= old(|Rest()|))
      ensures ok ==> c == old(Rest())[0] && Rest() == old(Rest())[1..]
    {
      ok, c := pos < |data|, 0;
      if ok {
        c := data[pos];
        pos := pos + 1;
      }
    }

    method XRead32() returns (ok: bool, v: u32)
      requires Valid()
      modifies this`pos
      ensures Valid() && (ok <==> 4 <= old(|Rest()|))
      ensures ok ==> BE32(v) == old(Rest())[..4] && v == FromBE32(old(Rest())[..4]) && Rest() == old(Rest())[4..]
    {
      ok, v := pos + 4 <= |data|, 0;
      if ok {
        BE32Inverse(data[pos..pos + 4]);
        v := FromBE32(data[pos..pos + 4]);
        pos := pos + 4;
        assert data[pos - 4..pos] == old(Rest())[..4];
      }
    }
  }

  class OutFile {
    var data: seq<byte>

    constructor ()
      ensures data == []
    {
      data := [];
    }

    method XWrite(bytes: seq<byte>)
      modifies this
      ensures data == old(data) + bytes
    {
      data := data + bytes;
    }
  }

  // ----- compression -----

  /** Which compressor is called how: the level, the build, and what stands for the match finder. */
  datatype Options =
    Options(level: byte, blockSize: nat, word: nat, addr: nat, width: Width, find: seq<byte> -> nat -> Lzo999.Offer)

  ghost predicate OptionsOK(o: Options) {
    && MIN_BLOCK <= o.blockSize <= MAX_BLOCK && 2 * MAX_BLOCK <= o.word
    && forall s {:trigger o.find(s)} :: Lzo999.FinderOK([], s, o.find(s))
  }

  /** What the level's compressor makes of a block: at level 9 LZO1X-999 at its own level 8, else LZO1X-1. */
  ghost predicate StreamOf(o: Options, s: seq<byte>, bs: seq<byte>)
    requires OptionsOK(o) && |s| <= MAX_BLOCK
  {
    if o.level == 9 then Lzo999.Compressed(Lzo999.SetupFor(LZO1X, o.word, [], s, o.find(s), Lzo999.LEVELS[7]), bs)
    else bs == Compressed(Params(LZO1X, o.word, o.addr), s)
  }

  /** The stream is stored when it is shorter than the block, and else the block itself. */
  ghost predicate Stored(o: Options, c: Chunk)
    requires OptionsOK(o)
  {
    && |c.data| <= MAX_BLOCK
    && exists bs :: StreamOf(o, c.data, bs) && c.body == if |bs| < |c.data| then bs else c.data
  }

  method CompressOne9(o: Options, buf: array<byte>, n: nat, out: array<byte>) returns (outLen: nat)
    requires OptionsOK(o) && 1 <= n <= o.blockSize == buf.Length && out.Length == Room(o.blockSize) && buf != out
    modifies out
    ensures outLen <= Room(n)
    ensures Encodes(LZO1X, o.word, Ctx(Start, 0, []), out[..outLen], buf[..n], RUN_SLACK)
    ensures Lzo999.Compressed(Lzo999.SetupFor(LZO1X, o.word, [], buf[..n], o.find(buf[..n]), Lzo999.LEVELS[7]),
              out[..outLen])
  {
    hide Encodes, Lzo999.FinderOK, TrimDict, Lzo999.Compressed, Lzo999.SetupFor;
    var s := buf[..n];
    NoDict();
    assert Lzo999.FinderOK([], s, o.find(s));
    var ok;
    ok, outLen := Lzo999.CompressLevel(LZO1X, o.word, [], s, o.find(s), 8, out);
    assert [] + s == s;
    SizeBound(LZO1X, o.word, Ctx(Start, 0, []), out[..outLen], s, RUN_SLACK);
    assert buf[..n] == s;
  }

  lemma NoDict()
    ensures TrimDict([]) == []
  {
  }

  method CompressOne1(o: Options, buf: array<byte>, n: nat, out: array<byte>) returns (outLen: nat)
    requires OptionsOK(o) && 1 <= n <= o.blockSize == buf.Length && out.Length == Room(o.blockSize) && buf != out
    modifies out
    ensures outLen <= Room(n)
    ensures Encodes(LZO1X, o.word, Ctx(Start, 0, []), out[..outLen], buf[..n], RUN_SLACK)
    ensures out[..outLen] == Compressed(Params(LZO1X, o.word, o.addr), buf[..n])
  {
    hide Encodes, Compressed;
    ghost var s := buf[..n];
    var p := Params(LZO1X, o.word, o.addr);
    var wrkmem := new nat[D_SIZE];
    assert buf[0..n] == s;
    outLen := CompressAll(Job(p, o.width, buf, 0, n, out, 0), wrkmem);
    assert out[0..outLen] == out[..outLen] && buf[..n] == s;
    CompressedEncodes(p, s);
  }

  /** One block: at level 9 by LZO1X-999, which has levels of its own and uses its eighth, and by LZO1X-1
      otherwise. */
  method CompressOne(o: Options, buf: array<byte>, n: nat, out: array<byte>) returns (outLen: nat)
    requires OptionsOK(o) && 1 <= n <= o.blockSize == buf.Length && out.Length == Room(o.blockSize) && buf != out
    modifies out
    ensures 1 <= outLen <= Room(n)
    ensures Encodes(LZO1X, o.word, Ctx(Start, 0, []), out[..outLen], buf[..n], RUN_SLACK)
    ensures StreamOf(o, buf[..n], out[..outLen])
  {
    hide Encodes, Compressed, Lzo999.Compressed;
    if o.level == 9 {
      outLen := CompressOne9(o, buf, n, out);
    } else {
      outLen := CompressOne1(o, buf, n, out);
    }
    NotEmpty(LZO1X, o.word, Ctx(Start, 0, []), out[..outLen], buf[..n]);
  }

  lemma NotEmpty(v: Variant, word: nat, c0: Ctx, bs: seq<byte>, w: seq<byte>)
    requires Encodes(v, word, c0, bs, w, RUN_SLACK)
    ensures 3 <= |bs|
  {
    var ts :| EncodedBy(v, word, c0, ts, bs, w, RUN_SLACK);
  }

  method XWrite32(fo: OutFile, v: u32)
    modifies fo
    ensures fo.data == old(fo.data) + BE32(v)
  {
    fo.XWrite([Digit(v, 0x100_0000), Digit(v, 0x1_0000), Digit(v, 0x100), v % 256]);
  }

  /** Compresses one block and writes it, or the block itself when that is not longer. */
  method PackBlock(o: Options, buf: array<byte>, n: nat, out: array<byte>, fo: OutFile)
    returns (ok: bool, ghost c: Chunk)
    requires OptionsOK(o) && 1 <= n <= o.blockSize == buf.Length && out.Length == Room(o.blockSize) && buf != out
    modifies out, fo
    ensures ok && ChunkOK(o.word, c, o.blockSize) && c.data == buf[..n] && |c.body| <= n
    ensures fo.data == old(fo.data) + ChunkBytes(c) && Stored(o, c)
  {
    hide Encodes, BE32, StreamOf;
    var outLen := CompressOne(o, buf, n, out);
    if outLen > n + n / 16 + 64 + 3 {
      ok := false;
      assert false;
    }
    ok := true;
    XWrite32(fo, n);
    if outLen < n {
      XWrite32(fo, outLen);
      fo.XWrite(out[..outLen]);
      c := Chunk(buf[..n], out[..outLen]);
    } else {
      XWrite32(fo, n);
      fo.XWrite(buf[..n]);
      c := Chunk(buf[..n], buf[..n]);
    }
    assert fo.data == old(fo.data) + ChunkBytes(c);
  }

  /** Every block but the last one is full. */
  ghost predicate Filled(o: Options, cs: seq<Chunk>, more: bool) {
    forall i | 0 <= i < |cs| && (more || i < |cs| - 1) :: |cs[i].data| == o.blockSize
  }

  ghost predicate AllStored(o: Options, cs: seq<Chunk>)
    requires OptionsOK(o)
  {
    forall i | 0 <= i < |cs| :: Stored(o, cs[i])
  }

  /** What has been written is the header `h` and the blocks `cs` of what has been read of `all`. */
  ghost predicate Packed(o: Options, fo: OutFile, h: seq<byte>, cs: seq<Chunk>, sum: u32, all: seq<byte>,
                         rest: seq<byte>)
    requires OptionsOK(o)
    reads fo
  {
    && AllOK(o.word, cs, o.blockSize) && Small32(cs) && AllStored(o, cs) && Filled(o, cs, rest != [])
    && Data(cs) + rest == all && fo.data == h + Body(cs) && sum == Checksum(1, Data(cs))
  }

  lemma PackedNext(o: Options, h: seq<byte>, cs: seq<Chunk>, c: Chunk, all: seq<byte>, rest: seq<byte>, n: nat)
    requires AllOK(o.word, cs, o.blockSize) && Small32(cs) && ChunkOK(o.word, c, o.blockSize)
    requires n <= |rest| && c.data == rest[..n] && |c.data| < 0x1_0000_0000 && |c.body| < 0x1_0000_0000
    requires Data(cs) + rest == all
    ensures AllOK(o.word, cs + [c], o.blockSize) && Small32(cs + [c])
    ensures Data(cs + [c]) + rest[n..] == all && h + Body(cs) + ChunkBytes(c) == h + Body(cs + [c])
    ensures Checksum(1, Data(cs + [c])) == Checksum(Checksum(1, Data(cs)), rest[..n])
  {
    hide ChunkOK, ChunkBytes, Body, Data, Checksum;
    Snoc(cs, c);
    Compose(1, Data(cs), rest[..n]);
    assert h + Body(cs) + ChunkBytes(c) == h + (Body(cs) + ChunkBytes(c));
    assert rest[..n] + rest[n..] == rest;
    assert Data(cs) + rest[..n] + rest[n..] == Data(cs) + (rest[..n] + rest[n..]);
  }

  lemma PackedMore(o: Options, cs: seq<Chunk>, c: Chunk, rest: seq<byte>, n: nat)
    requires OptionsOK(o) && AllStored(o, cs) && Filled(o, cs, rest != []) && Stored(o, c) && |c.data| == n
    requires 1 <= n == if o.blockSize <= |rest| then o.blockSize else |rest|
    ensures AllStored(o, cs + [c]) && Filled(o, cs + [c], rest[n..] != [])
  {
    hide Stored, OptionsOK;
  }

  /** One round of the block loop. */
  method PackNext(fi: InFile, fo: OutFile, o: Options, buf: array<byte>, out: array<byte>, sum: u32,
                  ghost h: seq<byte>, ghost cs: seq<Chunk>, ghost all: seq<byte>)
    returns (more: bool, sum': u32, ghost cs': seq<Chunk>)
    requires fi.Valid() && OptionsOK(o) && buf.Length == o.blockSize && out.Length == Room(o.blockSize) && buf != out
    requires Packed(o, fo, h, cs, sum, all, fi.Rest())
    modifies fi`pos, fo, buf, out
    ensures fi.Valid() && Packed(o, fo, h, cs', sum', all, fi.Rest())
    ensures if more then |fi.Rest()| < old(|fi.Rest()|) else fi.Rest() == []
  {
    hide ChunkOK, ChunkBytes, Body, Data, Checksum, Stored;
    ghost var rest := fi.Rest();
    var _, n := fi.XRead(buf, 0, o.blockSize, true);
    if n == 0 {
      return false, sum, cs;
    }
    assert buf[0..n] == buf[..n] == rest[..n];
    sum' := Adler32(sum, buf, 0, n);
    var ok, c := PackBlock(o, buf, n, out, fo);
    PackedNext(o, h, cs, c, all, rest, n);
    PackedMore(o, cs, c, rest, n);
    more, cs' := true, cs + [c];
  }

  /** do_compress: whatever is left of `fi` becomes a packed file. */
  method DoCompress(fi: InFile, fo: OutFile, o: Options) returns (r: nat, ghost cs: seq<Chunk>)
    requires fi.Valid() && OptionsOK(o)
    modifies fi`pos, fo
    ensures r == 0 && fi.Valid() && Data(cs) == old(fi.Rest())
    ensures |old(fo.data)| <= |fo.data| && IsPack(o.word, fo.data[|old(fo.data)|..], cs, o.level, o.blockSize)
    ensures AllStored(o, cs) && Filled(o, cs, false)
  {
    hide AllOK, BE32, Body, Data, Checksum, Header, Stored;
    cs := [];
    WriteHeader(fo, o);
    var sum := Adler32(0, null, 0, 0);
    var buf, out := Buffers(o);
    ghost var all := fi.Rest();
    ghost var head := Header(o.level, o.blockSize);
    ghost var h := old(fo.data) + head;
    NoChunks();
    assert AllOK(o.word, [], o.blockSize) by {
      NoneOK(o.word, o.blockSize);
    }
    var more := true;
    while more
      invariant fi.Valid() && Packed(o, fo, h, cs, sum, all, fi.Rest())
      invariant !more ==> fi.Rest() == []
      decreases |fi.Rest()|, more
    {
      more, sum, cs := PackNext(fi, fo, o, buf, out, sum, h, cs, all);
    }
    XWrite32(fo, 0);
    XWrite32(fo, sum);
    r := 0;
    assert old(fo.data) + head + Body(cs) + BE32(0) + BE32(sum) ==
      old(fo.data) + (head + Body(cs) + (BE32(0) + BE32(sum)));
  }

  lemma NoneOK(word: nat, blockSize: nat)
    ensures AllOK(word, [], blockSize)
  {
  }

  lemma NoChunks()
    ensures Body([]) == [] && Data([]) == [] && Checksum(1, []) == 1
  {
  }

  method Buffers(o: Options) returns (buf: array<byte>, out: array<byte>)
    requires OptionsOK(o)
    ensures fresh(buf) && fresh(out) && buf != out
    ensures MIN_BLOCK <= o.blockSize == buf.Length <= MAX_BLOCK && out.Length == Room(o.blockSize)
  {
    buf := new byte[o.blockSize];
    out := new byte[Room(o.blockSize)];
  }

  method WriteHeader(fo: OutFile, o: Options)
    requires OptionsOK(o)
    modifies fo
    ensures o.blockSize <= MAX_BLOCK && fo.data == old(fo.data) + Header(o.level, o.blockSize)
  {
    fo.XWrite(MAGIC);
    XWrite32(fo, 1);
    fo.XWrite([1]);
    fo.XWrite([o.level]);
    XWrite32(fo, o.blockSize);
    assert fo.data == old(fo.data) + Header(o.level, o.blockSize);
  }

  // ----- decompression -----

  datatype Start = Refused(e: Exit) | Begun(flags: u32, blockSize: nat)

  method ReadMagic(fi: InFile) returns (ok: bool)
    requires fi.Valid()
    modifies fi`pos
    ensures fi.Valid() && (ok <==> 7 <= old(|fi.Rest()|) && old(fi.Rest())[..7] == MAGIC)
    ensures ok ==> fi.Rest() == old(fi.Rest())[7..]
  {
    var m := new byte[7];
    var _, l := fi.XRead(m, 0, 7, true);
    assert m[0..0 + l] == m[..l];
    ok := l == 7 && m[..7] == MAGIC;
  }

  /** Step 1: the header. */
  method ReadHeader(fi: InFile) returns (h: Start)
    requires fi.Valid()
    modifies fi`pos
    ensures fi.Valid()
    ensures h == Refused(Return(1)) <==> !(7 <= old(|fi.Rest()|) && old(fi.Rest())[..7] == MAGIC)
    ensures h == Refused(Return(2)) <==>
              13 <= old(|fi.Rest()|) && old(fi.Rest())[..7] == MAGIC && old(fi.Rest())[11] != 1
    ensures h == Refused(Return(3)) <==> var f := old(fi.Rest());
                                     && 17 <= |f| && f[..7] == MAGIC && f[11] == 1
                                     && !(MIN_BLOCK <= FromBE32(f[13..17]) <= MAX_BLOCK)
    ensures h == Refused(ReadError) <==> var f := old(fi.Rest());
                                     && 7 <= |f| < 17 && f[..7] == MAGIC && (13 <= |f| ==> f[11] == 1)
    ensures h.Begun? <==> HeaderOK(old(fi.Rest()))
    ensures h.Refused? ==> h.e == HeaderExit(old(fi.Rest()))
    ensures h.Begun? ==>
              && fi.Rest() == old(fi.Rest())[17..]
              && BE32(h.flags) == old(fi.Rest())[7..11] && h.blockSize == FromBE32(old(fi.Rest())[13..17])
  {
    hide BE32, FromBE32;
    ghost var file := fi.Rest();
    var ok := ReadMagic(fi);
    if !ok {
      return Refused(Return(1));
    }
    var flags, kind, anyLevel, size;
    ok, flags := fi.XRead32();
    if !ok {
      return Refused(ReadError);
    }
    assert fi.Rest() == file[11..];
    ok, kind := fi.XGetc();
    if !ok {
      return Refused(ReadError);
    }
    assert fi.Rest() == file[12..];
    ok, anyLevel := fi.XGetc();
    if !ok {
      return Refused(ReadError);
    }
    assert fi.Rest() == file[13..];
    if kind != 1 {
      return Refused(Return(2));
    }
    ok, size := fi.XRead32();
    if !ok {
      return Refused(ReadError);
    }
    assert fi.Rest() == file[17..];
    assert file[7..][..4] == file[7..11] && file[13..][..4] == file[13..17];
    if size < MIN_BLOCK || size > MAX_BLOCK {
      return Refused(Return(3));
    }
    h := Begun(flags, size);
  }

  lemma Read(v: u32, w: u32)
    ensures BE32(v) == BE32(w) ==> v == w
  {
    BE32Back(v);
    BE32Back(w);
  }

  /** Decompresses the block at the top of the buffer to its bottom. */
  method DecodeBlock(buf: array<byte>, inLen: nat, outLen: nat, word: nat, width: Width) returns (ok: bool)
    requires inLen < outLen <= buf.Length && 0x1_0000 <= word
    modifies buf
    ensures var d := Decoded(word, old(buf[buf.Length - inLen..]), outLen, buf.Length);
            !d.Torn? ==> (ok <==> d.Good?) && (ok ==> buf[..outLen] == d.data)
  {
    hide Decode, Decoded, ClearRun;
    var ip := buf.Length - inLen;
    var k := Call(Build(LZO1X, word, true, false, width), buf, buf.Length, buf, 0, outLen, []);
    DecodedHere(EnvFor(k), buf[ip..], outLen, buf.Length);
    var status, newLen := DecompressAll(k, ip);
    ok := status == OK && newLen == outLen;
    assert [] + buf[0..newLen] == buf[..newLen];
  }

  datatype Next = More | Last | Fail(e: Exit)

  /** The two sizes of a block, or the end marker. */
  method ReadSizes(fi: InFile, blockSize: nat) returns (r: Next, outLen: u32, inLen: u32)
    requires fi.Valid()
    modifies fi`pos
    ensures fi.Valid()
    ensures r.Last? <==> 4 <= old(|fi.Rest()|) && FromBE32(old(fi.Rest())[..4]) == 0
    ensures r == Fail(ReadError) <==> var f := old(fi.Rest()); |f| < 8 && (4 <= |f| ==> FromBE32(f[..4]) != 0)
    ensures r == Fail(Return(5)) <==> var f := old(fi.Rest());
                                      && 8 <= |f| && FromBE32(f[..4]) != 0
                                      && !SizesOK(FromBE32(f[..4]), FromBE32(f[4..8]), blockSize)
    ensures r.Fail? ==> r.e == ReadError || r.e == Return(5)
    ensures r.Last? ==> fi.Rest() == old(fi.Rest())[4..]
    ensures r.More? ==>
              && SizesOK(outLen, inLen, blockSize) && fi.Rest() == old(fi.Rest())[8..]
              && outLen == FromBE32(old(fi.Rest())[..4]) && inLen == FromBE32(old(fi.Rest())[4..8])
  {
    hide BE32, FromBE32;
    ghost var file := fi.Rest();
    var ok;
    inLen := 0;
    ok, outLen := fi.XRead32();
    if !ok {
      return Fail(ReadError), 0, 0;
    }
    if outLen == 0 {
      return Last, 0, 0;
    }
    ok, inLen := fi.XRead32();
    if !ok {
      return Fail(ReadError), 0, 0;
    }
    assert file[4..][..4] == file[4..8] && file[4..][4..] == file[8..];
    if inLen > blockSize || outLen > blockSize || inLen == 0 || inLen > outLen {
      return Fail(Return(5)), 0, 0;
    }
    r := More;
  }

  /** Writes a block and adds it to the checksum. */
  method WriteBlock(fo: OutFile, buf: array<byte>, at: nat, n: nat, flags: u32, sum: u32) returns (sum': u32)
    requires at + n <= buf.Length
    modifies fo
    ensures fo.data == old(fo.data) + buf[at..at + n]
    ensures sum' == if flags % 2 == 1 then Checksum(sum, buf[at..at + n]) else sum
  {
    fo.XWrite(buf[at..at + n]);
    sum' := sum;
    if flags % 2 == 1 {
      sum' := Adler32(sum, buf, at, n);
    }
  }

  /** The body of a block: decompressed in place when it is shorter, else written as it is. */
  method UnpackBody(fi: InFile, fo: OutFile, buf: array<byte>, outLen: nat, inLen: nat, flags: u32, sum: u32,
                    word: nat, width: Width)
    returns (r: Next, sum': u32, ghost w: seq<byte>)
    requires fi.Valid() && 1 <= inLen <= outLen <= buf.Length && 0x1_0000 <= word
    modifies fi`pos, fo, buf
    ensures fi.Valid() && !r.Last? && fo.data == old(fo.data) + w && (r.Fail? ==> w == [])
    ensures sum' == if flags % 2 == 1 then Checksum(sum, w) else sum
    ensures r == Fail(ReadError) <==> old(|fi.Rest()|) < inLen
    ensures r.Fail? ==> r.e == ReadError || r.e == Return(6)
    ensures r.More? ==> fi.Rest() == old(fi.Rest())[inLen..]
    ensures inLen <= old(|fi.Rest()|) ==>
              var d := Decoded(word, old(fi.Rest())[..inLen], outLen, buf.Length);
              !d.Torn? ==> (r.More? <==> d.Good?) && (r.More? ==> w == d.data)
  {
    hide Checksum, Decode, ClearRun;
    NoSum(sum);
    var at := buf.Length - inLen;
    var ok, l := fi.XRead(buf, at, inLen, false);
    if !ok {
      return Fail(ReadError), sum, [];
    }
    assert buf[at..] == buf[at..at + inLen];
    if inLen < outLen {
      var done := DecodeBlock(buf, inLen, outLen, word, width);
      if !done {
        return Fail(Return(6)), sum, [];
      }
      w := buf[0..outLen];
      assert w == buf[..outLen];
      sum' := WriteBlock(fo, buf, 0, outLen, flags, sum);
    } else {
      w := buf[at..at + inLen];
      sum' := WriteBlock(fo, buf, at, inLen, flags, sum);
    }
    r := More;
  }

  /** Where the block loop stands when it has written `w` of `u`. After a torn block, only what was written
      before it is known. */
  ghost predicate Goes(word: nat, u: Unpacked, r: Next, w: seq<byte>, rest: seq<byte>, blockSize: nat)
    requires 0x1_0000 <= word
  {
    || (u.Tainted? && u.data <= w)
    || (match r
        case More => u == Behind(w, FromBlocks(word, rest, blockSize))
        case Last => u == Whole(w, rest)
        case Fail(e) => u == Stopped(e, w))
  }

  /** One round of the block loop. */
  method UnpackNext(fi: InFile, fo: OutFile, buf: array<byte>, blockSize: nat, flags: u32, sum: u32, word: nat,
                    width: Width)
    returns (r: Next, sum': u32, ghost w: seq<byte>)
    requires fi.Valid() && buf.Length == Room(blockSize) && 0x1_0000 <= word
    modifies fi`pos, fo, buf
    ensures fi.Valid() && fo.data == old(fo.data) + w && (r.Fail? ==> r.e != Return(0))
    ensures sum' == if flags % 2 == 1 then Checksum(sum, w) else sum
    ensures !r.Fail? ==>
              old(|fi.Rest()|) >= |fi.Rest()| + 4 && fi.Rest() == old(fi.Rest())[old(|fi.Rest()|) - |fi.Rest()|..]
    ensures Goes(word, FromBlocks(word, old(fi.Rest()), blockSize), r, w, fi.Rest(), blockSize)
  {
    hide FromBE32, Checksum, Decoded;
    ghost var file := fi.Rest();
    var outLen, inLen;
    r, outLen, inLen := ReadSizes(fi, blockSize);
    sum', w := sum, [];
    NoSum(sum);
    if r.More? {
      assert 8 + inLen <= |file| ==>
        file[8..][..inLen] == file[8..8 + inLen] && file[8..][inLen..] == file[8 + inLen..];
      r, sum', w := UnpackBody(fi, fo, buf, outLen, inLen, flags, sum, word, width);
    }
  }

  lemma NoSum(sum: u32)
    ensures Checksum(sum, []) == sum
  {
  }

  lemma Onward(word: nat, u: Unpacked, w: seq<byte>, f: seq<byte>, r: Next, w': seq<byte>, rest: seq<byte>,
               blockSize: nat)
    requires 0x1_0000 <= word && Goes(word, u, More, w, f, blockSize)
    requires Goes(word, FromBlocks(word, f, blockSize), r, w', rest, blockSize)
    ensures Goes(word, u, r, w + w', rest, blockSize)
  {
    hide FromBlocks;
    if r.More? && !u.Tainted? {
      var data := FromBlocks(word, rest, blockSize).data;
      assert w + (w' + data) == w + w' + data;
    }
  }

  lemma Onwards(word: nat, u: Unpacked, f: seq<byte>, blockSize: nat)
    requires 0x1_0000 <= word && u == FromBlocks(word, f, blockSize)
    ensures Goes(word, u, More, [], f, blockSize)
  {
    hide FromBlocks;
    assert u == Behind([], u);
  }

  /** Step 3: the blocks up to the end marker. */
  method UnpackBlocks(fi: InFile, fo: OutFile, blockSize: nat, flags: u32, word: nat, width: Width)
    returns (r: Next, sum: u32, ghost w: seq<byte>)
    requires fi.Valid() && 0x1_0000 <= word
    modifies fi`pos, fo
    ensures fi.Valid() && fo.data == old(fo.data) + w && !r.More? && (r.Fail? ==> r.e != Return(0))
    ensures sum == if flags % 2 == 1 then Checksum(1, w) else 1
    ensures r.Last? ==>
              old(|fi.Rest()|) >= |fi.Rest()| + 4 && fi.Rest() == old(fi.Rest())[old(|fi.Rest()|) - |fi.Rest()|..]
    ensures Goes(word, FromBlocks(word, old(fi.Rest()), blockSize), r, w, fi.Rest(), blockSize)
  {
    hide Checksum, FromBlocks, Goes;
    var buf := new byte[Room(blockSize)];
    sum := Adler32(0, null, 0, 0);
    w := [];
    NoSum(1);
    r := More;
    ghost var u := FromBlocks(word, fi.Rest(), blockSize);
    Onwards(word, u, fi.Rest(), blockSize);
    while r.More?
      invariant fi.Valid() && fo.data == old(fo.data) + w
      invariant sum == if flags % 2 == 1 then Checksum(1, w) else 1
      invariant r.Fail? ==> r.e != Return(0)
      invariant !r.Fail? ==> old(|fi.Rest()|) >= |fi.Rest()| + (if r.Last? then 4 else 0)
      invariant !r.Fail? ==> fi.Rest() == old(fi.Rest())[old(|fi.Rest()|) - |fi.Rest()|..]
      invariant Goes(word, u, r, w, fi.Rest(), blockSize)
      decreases if r.More? then 1 + |fi.Rest()| else 0
    {
      var sum';
      ghost var w';
      ghost var file := fi.Rest();
      r, sum', w' := UnpackNext(fi, fo, buf, blockSize, flags, sum, word, width);
      Compose(1, w, w');
      Onward(word, u, w, file, r, w', fi.Rest(), blockSize);
      sum := sum';
      w := w + w';
    }
  }

  /** The bytes that have been read of `file` end in the checksum of `w`. */
  ghost predicate Checked(file: seq<byte>, rest: seq<byte>, w: seq<byte>) {
    && |rest| + 21 <= |file| && rest == file[|file| - |rest|..]
    && (file[10] % 2 == 1 ==> file[|file| - |rest| - 4..|file| - |rest|] == BE32(Checksum(1, w)))
  }

  /** Reads and verifies the checksum. */
  method ReadSum(fi: InFile, flags: u32, sum: u32) returns (e: Exit)
    requires fi.Valid()
    modifies fi`pos
    ensures fi.Valid()
    ensures e == Return(0) <==> (flags % 2 == 1 ==> 4 <= old(|fi.Rest()|) && old(fi.Rest())[..4] == BE32(sum))
    ensures e.Return? && e != Return(0) ==> e == Return(7) && 4 <= old(|fi.Rest()|)
    ensures e == ReadError ==> old(|fi.Rest()|) < 4 && flags % 2 == 1
    ensures e == Return(0) ==> fi.Rest() == if flags % 2 == 1 then old(fi.Rest())[4..] else old(fi.Rest())
  {
    hide BE32;
    if flags % 2 == 1 {
      var ok, c := fi.XRead32();
      if !ok {
        return ReadError;
      }
      Read(c, sum);
      if c != sum {
        return Return(7);
      }
    }
    e := Return(0);
  }

  lemma SumRead(file: seq<byte>, before: seq<byte>, rest: seq<byte>, flags: u32, w: seq<byte>)
    requires |before| + 21 <= |file| && before == file[|file| - |before|..] && BE32(flags) == file[7..11]
    requires flags % 2 == 1 ==> 4 <= |before| && before[..4] == BE32(Checksum(1, w))
    requires rest == if flags % 2 == 1 then before[4..] else before
    ensures Checked(file, rest, w)
  {
    hide BE32, Checksum;
    FlagBit(flags, file);
    if flags % 2 == 1 {
      assert before[..4] == file[|file| - |before|..|file| - |before| + 4];
      assert before[4..] == file[|file| - |before| + 4..];
    }
  }

  /** do_decompress. For any file what is returned and written is what `UnpackFile` says, as long as no block
      is torn. And in no case is 0 returned when the checksum, if the flags announce one, is not that of what
      has been written. */
  method DoDecompress(fi: InFile, fo: OutFile, word: nat, width: Width) returns (e: Exit)
    requires fi.Valid() && 0x1_0000 <= word
    modifies fi`pos, fo
    ensures fi.Valid() && old(fo.data) <= fo.data
    ensures var u := UnpackFile(word, old(fi.Rest()));
            if u.Tainted? then old(fo.data) + u.data <= fo.data
            else fo.data == old(fo.data) + u.data
                 && e == (if u.Whole? then Return(0) else u.e) && (u.Whole? ==> fi.Rest() == u.rest)
    ensures e == Return(0) ==> Checked(old(fi.Rest()), fi.Rest(), fo.data[|old(fo.data)|..])
  {
    hide BE32, FromBE32, Checksum, Checked, FromBlocks;
    ghost var file := fi.Rest();
    var h := ReadHeader(fi);
    if h.Refused? {
      assert fo.data == old(fo.data) + [];
      return h.e;
    }
    FlagBit(h.flags, file);
    var r, sum;
    ghost var w;
    r, sum, w := UnpackBlocks(fi, fo, h.blockSize, h.flags, word, width);
    assert fo.data[|old(fo.data)|..] == w;
    if r.Fail? {
      return r.e;
    }
    ghost var before := fi.Rest();
    assert before == file[|file| - |before|..];
    e := ReadSum(fi, h.flags, sum);
    if e == Return(0) {
      SumRead(file, before, fi.Rest(), h.flags, w);
    }
  }

  lemma FlagBit(flags: u32, file: seq<byte>)
    requires 17 <= |file| && BE32(flags) == file[7..11]
    ensures flags % 2 == file[10] % 2
  {
    assert file[7..11][3] == file[10];
  }

  /** Every file comes back from its packed form. */
  method PackThenUnpack(o: Options, s: seq<byte>) returns (t: seq<byte>, e: Exit)
    requires OptionsOK(o)
    ensures e == Return(0) && t == s
  {
    var fi := new InFile(s);
    var mid := new OutFile();
    var r, cs := DoCompress(fi, mid, o);
    var packed := new InFile(mid.data);
    var fo := new OutFile();
    assert packed.Rest() == mid.data[0..] == mid.data;
    PackSpells(o.word, mid.data, cs, o.level, o.blockSize);
    e := DoDecompress(packed, fo, o.word, o.width);
    t := fo.data;
  }
}
