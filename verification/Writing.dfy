/** What every encoder does to its output buffer: bytes, literals and extended lengths at the end of what
    has been written from `lo` on. */
module Writing {
  import opened Bytes
  import opened Format

  /** The bytes of `dst` outside `[lo, hi)` are as they were. */
  twostate predicate OnlyWithin(dst: array<byte>, lo: int, hi: int)
    reads dst
  {
    forall i {:trigger dst[i]} | 0 <= i < dst.Length && !(lo <= i < hi) :: dst[i] == old(dst[i])
  }

  method PutByte(dst: array<byte>, lo: nat, op: nat, b: byte) returns (op': nat)
    requires lo <= op < dst.Length
    modifies dst
    ensures op' == op + 1 && dst[lo..op'] == old(dst[lo..op]) + [b]
    ensures OnlyWithin(dst, op, op')
  {
    dst[op] := b;
    op' := op + 1;
    assert dst[lo..op] == old(dst[lo..op]);
  }

  /** Bytes from elsewhere, one by one. */
  method PutBytes(dst: array<byte>, lo: nat, op: nat, bs: seq<byte>, from: nat, n: nat) returns (op': nat)
    requires lo <= op && op + n <= dst.Length && from + n <= |bs|
    modifies dst
    ensures op' == op + n && dst[lo..op'] == old(dst[lo..op]) + bs[from..from + n]
    ensures OnlyWithin(dst, op, op')
  {
    var i := 0;
    while i < n
      invariant i <= n && dst[lo..op + i] == old(dst[lo..op]) + bs[from..from + i]
      invariant OnlyWithin(dst, op, op + i)
    {
      ghost var w := dst[lo..op + i];
      dst[op + i] := bs[from + i];
      i := i + 1;
      assert dst[lo..op + i] == w + [bs[from + i - 1]];
    }
    op' := op + n;
  }

  /** A zero byte for each 255, then the rest. */
  method PutExt(dst: array<byte>, lo: nat, op: nat, n: nat) returns (op': nat)
    requires n >= 1 && lo <= op && op + |Ext(n)| <= dst.Length
    modifies dst
    ensures op' == op + |Ext(n)| && dst[lo..op'] == old(dst[lo..op]) + Ext(n)
    ensures OnlyWithin(dst, op, op')
  {
    var tt := n;
    op' := op;
    ghost var w := dst[lo..op] + Ext(n);
    while tt > 255
      invariant 1 <= tt && op <= op' && op' + |Ext(tt)| == op + |Ext(n)|
      invariant dst[lo..op'] + Ext(tt) == w
      invariant OnlyWithin(dst, op, op')
    {
      ghost var done := dst[lo..op'];
      assert done + ([0] + Ext(tt - 255)) == done + [0] + Ext(tt - 255);
      tt := tt - 255;
      dst[op'] := 0;
      op' := op' + 1;
      assert dst[lo..op'] == done + [0];
    }
    ghost var done := dst[lo..op'];
    dst[op'] := tt;
    op' := op' + 1;
    assert dst[lo..op'] == done + [tt];
  }

  /** A marker with the length in its low bits, or extended. */
  method PutLen(dst: array<byte>, lo: nat, op: nat, marker: byte, n: nat, max: nat) returns (op': nat)
    requires n >= 1 && marker + max < 256 && lo <= op && op + |LenBytes(marker, n, max)| <= dst.Length
    modifies dst
    ensures op' == op + |LenBytes(marker, n, max)| && dst[lo..op'] == old(dst[lo..op]) + LenBytes(marker, n, max)
    ensures OnlyWithin(dst, op, op')
  {
    hide Ext, LenBytes;
    LenCases(dst[lo..op], marker, n, max);
    if n <= max {
      op' := PutByte(dst, lo, op, marker + n);
    } else {
      op' := PutByte(dst, lo, op, marker);
      op' := PutExt(dst, lo, op', n - max);
    }
  }

  lemma LenCases(w: seq<byte>, marker: byte, n: nat, max: nat)
    requires n >= 1 && marker + max < 256
    ensures n <= max ==> LenBytes(marker, n, max) == [marker + n]
    ensures n > max ==> |LenBytes(marker, n, max)| == 1 + |Ext(n - max)|
    ensures n > max ==> w + [marker] + Ext(n - max) == w + LenBytes(marker, n, max)
  {
    hide Ext;
  }

  method PutTwo(dst: array<byte>, lo: nat, op: nat, b0: byte, b1: byte) returns (op': nat)
    requires lo <= op && op + 2 <= dst.Length
    modifies dst
    ensures op' == op + 2 && dst[lo..op'] == old(dst[lo..op]) + [b0, b1]
    ensures OnlyWithin(dst, op, op')
  {
    dst[op] := b0;
    dst[op + 1] := b1;
    op' := op + 2;
    assert dst[lo..op] == old(dst[lo..op]);
    assert dst[lo..op'] == dst[lo..op] + [dst[op], dst[op + 1]];
  }

  lemma AsWritten(dst: array<byte>, op: nat)
    requires op <= dst.Length
    ensures dst[0..op] == dst[..op]
  {
  }
}
