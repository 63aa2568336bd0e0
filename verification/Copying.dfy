/** The copy loops that compressor and decompressor share, on arrays that may be one array. */
module Copying {
  import opened Bytes
  import opened Format
  import opened Words

  /** How many bytes a copy or comparison handles at a time: the builds with and without unaligned access,
      and how they look into a word. */
  datatype Width = Bytewise | Words4(how: Locate) | Words8(how: Locate)

  /** UA_COPY4 and UA_COPY8: every byte is loaded before any is stored. */
  method CopyChunk(dst: array<byte>, op: nat, src: array<byte>, ip: nat, n: nat)
    requires op + n <= dst.Length && ip + n <= src.Length
    modifies dst
    ensures forall i {:trigger dst[i]} | op <= i < op + n :: dst[i] == old(src[i - op + ip])
    ensures forall i {:trigger dst[i]} | 0 <= i < dst.Length && !(op <= i < op + n) :: dst[i] == old(dst[i])
  {
    forall k | 0 <= k < n {
      dst[op + k] := src[ip + k];
    }
  }

  /** The widest chunk the build allows, of the `n` bytes that are left. */
  function Chunk(width: Width, n: nat): (c: nat)
    requires n > 0
    ensures 1 <= c <= n
  {
    if width.Words8? && n >= 8 then 8 else if !width.Bytewise? && n >= 4 then 4 else 1
  }

  /** Literals, in chunks as wide as the build allows. Moving down in one array is safe. */
  method CopyLits(width: Width, dst: array<byte>, op: nat, src: array<byte>, ip: nat, n: nat)
    requires op + n <= dst.Length && ip + n <= src.Length
    modifies dst
    ensures src != dst || op <= ip ==> forall i {:trigger dst[i]} | op <= i < op + n :: dst[i] == old(src[i - op + ip])
    ensures forall i {:trigger dst[i]} | 0 <= i < dst.Length && !(op <= i < op + n) :: dst[i] == old(dst[i])
  {
    hide Chunk;
    var k := 0;
    while k < n
      invariant 0 <= k <= n
      invariant src != dst || op <= ip ==> forall i {:trigger dst[i]} | op <= i < op + k ::
                  dst[i] == old(src[i - op + ip])
      invariant forall i {:trigger dst[i]} | 0 <= i < dst.Length && !(op <= i < op + k) :: dst[i] == old(dst[i])
    {
      var c := Chunk(width, n - k);
      CopyChunk(dst, op + k, src, ip + k, c);
      k := k + c;
    }
  }

  /** Literals, sixteen at a time and the rest one by one. */
  method CopySixteens(dst: array<byte>, op: nat, src: array<byte>, ip: nat, n: nat)
    requires op + n <= dst.Length && ip + n <= src.Length && (src != dst || op <= ip)
    modifies dst
    ensures forall i {:trigger dst[i]} | op <= i < op + n :: dst[i] == old(src[i - op + ip])
    ensures forall i {:trigger dst[i]} | 0 <= i < dst.Length && !(op <= i < op + n) :: dst[i] == old(dst[i])
  {
    var k := 0;
    while n - k >= 16
      invariant 0 <= k <= n
      invariant forall i {:trigger dst[i]} | op <= i < op + k :: dst[i] == old(src[i - op + ip])
      invariant forall i {:trigger dst[i]} | 0 <= i < dst.Length && !(op <= i < op + k) :: dst[i] == old(dst[i])
    {
      CopyChunk(dst, op + k, src, ip + k, 8);
      CopyChunk(dst, op + k + 8, src, ip + k + 8, 8);
      k := k + 16;
    }
    CopyLits(Bytewise, dst, op + k, src, ip + k, n - k);
  }

  /** Four or more literals as the compressor's wide builds store them: fewer than seventeen as two
      words, which may be up to twelve bytes too many. */
  method CopyWide(dst: array<byte>, op: nat, src: array<byte>, ip: nat, n: nat)
    requires 4 <= n && op + n + 12 <= dst.Length && ip + n <= src.Length && (n <= 16 ==> ip + 16 <= src.Length)
    requires src != dst || op <= ip
    modifies dst
    ensures forall i {:trigger dst[i]} | op <= i < op + n :: dst[i] == old(src[i - op + ip])
    ensures forall i {:trigger dst[i]} | 0 <= i < dst.Length && !(op <= i < op + n + 12) :: dst[i] == old(dst[i])
  {
    if n <= 16 {
      CopyChunk(dst, op, src, ip, 8);
      CopyChunk(dst, op + 8, src, ip + 8, 8);
    } else {
      CopySixteens(dst, op, src, ip, n);
    }
  }

  /** A match: the wide copies are only used where no chunk overlaps its own source. At distance 0 every
      byte is copied onto itself. */
  method CopyBack(width: Width, dst: array<byte>, op: nat, off: nat, len: nat)
    requires off <= op && op + len <= dst.Length
    modifies dst
    ensures forall i {:trigger dst[i]} | op <= i < op + len :: dst[i] == if off == 0 then old(dst[i]) else dst[i - off]
    ensures forall i {:trigger dst[i]} | 0 <= i < dst.Length && !(op <= i < op + len) :: dst[i] == old(dst[i])
  {
    var wide := if width.Words8? && off >= 8 then 8 else if width.Words4? && len >= 8 && off >= 4 then 4 else 1;
    var k := 0;
    while k < len
      invariant 0 <= k <= len
      invariant forall i {:trigger dst[i]} | op <= i < op + k ::
                  dst[i] == if off == 0 then old(dst[i]) else dst[i - off]
      invariant forall i {:trigger dst[i]} | 0 <= i < dst.Length && !(op <= i < op + k) :: dst[i] == old(dst[i])
    {
      var c := if len - k >= wide then wide else if wide == 8 && len - k >= 4 then 4 else 1;
      CopyChunk(dst, op + k, dst, op + k - off, c);
      k := k + c;
    }
  }

  /** The same byte by byte, on an output that begins with the array. */
  method CopyOut(dst: array<byte>, op: nat, off: nat, len: nat)
    requires 1 <= off <= op && op + len <= dst.Length
    modifies dst
    ensures dst[..op + len] == CopyMatch(old(dst[..op]), off, len)
    ensures forall i {:trigger dst[i]} | op + len <= i < dst.Length :: dst[i] == old(dst[i])
  {
    CopyBack(Bytewise, dst, op, off, len);
    assert dst[..op + len][..op] == dst[..op] == old(dst[..op]);
    CopyUnique(dst[..op], off, len, dst[..op + len]);
  }
}
