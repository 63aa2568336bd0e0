/** LZO1X-1 from end to end, and the overlapping use of its buffers (examples/overlap.c). */
module Overlap {
  import opened Bytes
  import opened Decoder
  import opened Grammar
  import opened Expansion
  import opened Emission
  import opened Greedy
  import opened Copying
  import opened Decompress
  import opened Compress
  import opened Theorems

  /** Every input is what its compressed form decodes to. */
  lemma Lossless(p: Params, s: seq<byte>, e: Env, ip: nat)
    requires ParamsOK(p) && |s| + 511 <= p.word && e.v == p.v && e.word == p.word
    requires Spans(e, ip, e.end, Compressed(p, s)) && |s| <= |e.room|
    ensures Decode(e, Cfg(ip, C0)) == Result(OK, s)
  {
    hide Decode, Compressed, Encodes;
    CompressedEncodes(p, s);
    RoundTrip(e, Cfg(ip, C0), Compressed(p, s), s, RUN_SLACK);
  }

  lemma CompressedSize(p: Params, s: seq<byte>)
    requires ParamsOK(p) && |s| + 511 <= p.word
    ensures |Compressed(p, s)| <= |s| + |s| / 16 + 5
  {
    hide Compressed, Encodes;
    CompressedEncodes(p, s);
    SizeBound(p.v, p.word, C0, Compressed(p, s), s, RUN_SLACK);
  }

  /** The stream of a lean encoder at the top of a buffer with seven bytes and a sixteenth to spare
      decodes in place, to the same as elsewhere. */
  lemma InPlace(e: Env, low: int, ip: nat, bs: seq<byte>, s: seq<byte>, overhead: nat)
    requires Valid(e) && Encodes(e.v, e.word, C0, bs, s, RUN_SLACK) && Spans(e, ip, e.end, bs)
    requires |s| <= |e.room| && e.end == low + |s| + overhead && |s| / 16 + 7 <= overhead
    ensures ip <= e.end && ClearRun(low, e, Cfg(ip, C0)) && Decode(e, Cfg(ip, C0)) == Result(OK, s)
  {
    hide Decode, Encodes, ClearRun, Spans;
    InPlaceClear(low, e, Cfg(ip, C0), bs, s, overhead, RUN_SLACK);
    RoundTrip(e, Cfg(ip, C0), bs, s, RUN_SLACK);
  }

  datatype Outcome = Fine | CompressFailed | InPlaceCompressFailed | InPlaceDecompressFailed

  method CopyTo(dst: array<byte>, at: nat, src: array<byte>, n: nat)
    requires dst != src && n <= src.Length && at + n <= dst.Length
    modifies dst
    ensures dst[at..at + n] == src[..n]
  {
    forall i | 0 <= i < n {
      dst[at + i] := src[i];
    }
  }

  method Compressing(p: Params, width: Width, input: array<byte>) returns (out: array<byte>, outLen: nat)
    requires ParamsOK(p) && Room(input.Length) < p.word
    ensures fresh(out) && outLen <= out.Length == Room(input.Length)
    ensures out[..outLen] == Compressed(p, input[..])
  {
    var n := input.Length;
    out := new byte[Room(n)];
    var wrkmem := new nat[D_SIZE];
    outLen := CompressAll(Job(p, width, input, 0, n, out, 0), wrkmem);
    assert input[0..n] == input[..];
  }

  /** Step 4: the input at the top of the buffer, compressed to its bottom. */
  method CompressInPlace(p: Params, width: Width, input: array<byte>) returns (buf: array<byte>, newLen: nat)
    requires ParamsOK(p) && Room(input.Length) < p.word
    ensures fresh(buf) && newLen <= buf.Length && buf[..newLen] == Compressed(p, input[..])
  {
    hide Compressed;
    var n := input.Length;
    var offset := Overhead(n);
    buf := new byte[n + offset];
    CopyTo(buf, offset, input, n);
    assert buf[offset..offset + n] == input[..];
    var wrkmem := new nat[D_SIZE];
    newLen := CompressAll(Job(p, width, buf, offset, n, buf, 0), wrkmem);
  }

  /** Step 5: the compressed data at the top of a buffer, decompressed to its bottom. */
  method DecompressInPlace(p: Params, width: Width, bs: array<byte>, len: nat, n: nat, overhead: nat,
                           ghost s: seq<byte>)
    returns (status: Status, buf: array<byte>, newLen: nat)
    requires ParamsOK(p) && n + 511 <= p.word && len <= bs.Length && len <= n + overhead
    requires n == |s| && bs[..len] == Compressed(p, s)
    ensures newLen <= n <= buf.Length
    ensures n / 16 + 7 <= overhead ==> status.OK? && buf[..newLen] == s
  {
    hide Decode, Compressed, Encodes, ClearRun;
    var offset := n + overhead - len;
    buf := new byte[n + overhead];
    CopyTo(buf, offset, bs, len);
    var k := Call(Build(p.v, p.word, true, false, width), buf, n + overhead, buf, 0, n, []);
    CompressedEncodes(p, s);
    if n / 16 + 7 <= overhead {
      InPlace(EnvFor(k), 0, offset, Compressed(p, s), s, overhead);
    }
    status, newLen := DecompressAll(k, offset);
    assert [] + buf[0..newLen] == buf[..newLen];
  }

  /** do_file, from step 3 on. The three buffers lie at addresses of their own. */
  method DoFile(p: Params, width: Width, input: array<byte>, addr: nat, optOverhead: nat) returns (r: Outcome)
    requires ParamsOK(p) && 0 < input.Length && Room(input.Length) < p.word
    ensures !r.CompressFailed? && !r.InPlaceCompressFailed?
    ensures optOverhead == 0 || input.Length / 16 + 7 <= optOverhead ==> r.Fine?
  {
    hide Decode, Compressed;
    var n := input.Length;
    ghost var s := input[..];
    var out, outLen := Compressing(p, width, input);
    CompressedSize(p, s);
    if outLen > n + n / 16 + 64 + 3 {
      return CompressFailed;
    }
    var buf, newLen := CompressInPlace(p.(addr := addr), width, input);
    if out[..outLen] != buf[..newLen] {
      var tmp := new byte[n];
      var k := Call(Build(p.v, p.word, true, false, width), buf, newLen, tmp, 0, n, []);
      assert buf[0..newLen] == Compressed(p.(addr := addr), s);
      Lossless(p.(addr := addr), s, EnvFor(k), 0);
      var status, ll := DecompressAll(k, 0);
      assert [] + tmp[0..ll] == tmp[..ll];
      if status != OK || tmp[..ll] != input[..] {
        return InPlaceCompressFailed;
      }
    }
    var overhead := if optOverhead == 0 || outLen >= n then n / 16 + 64 + 3 else optOverhead;
    var status, back, ll := DecompressInPlace(p, width, out, outLen, n, overhead, s);
    r := if status == OK && ll == n && back[..ll] == input[..] then Fine else InPlaceDecompressFailed;
  }
}
