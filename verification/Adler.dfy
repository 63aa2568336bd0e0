/** Adler-32 with the modulo deferred over blocks of NMAX bytes. */
module Adler {
  import opened Bytes

  const BASE: nat := 65521
  const NMAX: nat := 5552

  type u32 = x: int | 0 <= x < 0x1_0000_0000

  datatype Sums = Sums(s1: nat, s2: nat)

  function Unpack(adler: u32): Sums {
    Sums(adler % 0x1_0000, adler / 0x1_0000)
  }

  function Pack(s: Sums): (r: u32)
    requires s.s1 < 0x1_0000 && s.s2 < 0x1_0000
    ensures Unpack(r) == s
  {
    s.s2 * 0x1_0000 + s.s1
  }

  // ----- the definition, section 8.2 of RFC 1950 -----

  /** Both sums are reduced after every byte. */
  function Define(s: Sums, bs: seq<byte>): (r: Sums)
    ensures s.s1 < 0x1_0000 && s.s2 < 0x1_0000 ==> r.s1 < 0x1_0000 && r.s2 < 0x1_0000
  {
    if |bs| == 0 then s
    else
      var p := Define(s, bs[..|bs| - 1]);
      var s1 := (p.s1 + bs[|bs| - 1]) % BASE;
      Sums(s1, (p.s2 + s1) % BASE)
  }

  function Checksum(adler: u32, bs: seq<byte>): u32 {
    Pack(Define(Unpack(adler), bs))
  }

  /** The checksum of a whole is that of its second part begun with that of its first. */
  lemma Compose(adler: u32, a: seq<byte>, b: seq<byte>)
    ensures Checksum(adler, a + b) == Checksum(Checksum(adler, a), b)
  {
    DefineAppend(Unpack(adler), a, b);
  }

  lemma {:induction false} DefineAppend(s: Sums, a: seq<byte>, b: seq<byte>)
    ensures Define(s, a + b) == Define(Define(s, a), b)
    decreases |b|
  {
    if b == [] {
      assert a + b == a;
    } else {
      assert (a + b)[..|a + b| - 1] == a + b[..|b| - 1];
      DefineAppend(s, a, b[..|b| - 1]);
    }
  }

  // ----- the sums without the modulo -----

  function Raw(s: Sums, bs: seq<byte>): Sums {
    if |bs| == 0 then s
    else
      var p := Raw(s, bs[..|bs| - 1]);
      Sums(p.s1 + bs[|bs| - 1], p.s2 + p.s1 + bs[|bs| - 1])
  }

  lemma {:induction false} RawAppend(s: Sums, a: seq<byte>, b: seq<byte>)
    ensures Raw(s, a + b) == Raw(Raw(s, a), b)
    decreases |b|
  {
    if b == [] {
      assert a + b == a;
    } else {
      assert (a + b)[..|a + b| - 1] == a + b[..|b| - 1];
      RawAppend(s, a, b[..|b| - 1]);
    }
  }

  lemma ModAdd(x: nat, y: nat)
    ensures (x % BASE + y) % BASE == (x + y) % BASE
  {
    assert x == x / BASE * BASE + x % BASE;
  }

  /** Deferring the modulo to the end of any nonempty block changes nothing. */
  lemma {:induction false} Deferred(s: Sums, bs: seq<byte>)
    requires bs != []
    ensures var r := Raw(s, bs); Define(s, bs) == Sums(r.s1 % BASE, r.s2 % BASE)
    decreases |bs|
  {
    var us, b: nat := bs[..|bs| - 1], bs[|bs| - 1];
    var p := Raw(s, us);
    if us != [] {
      Deferred(s, us);
      ModAdd(p.s1, b);
      ModAdd(p.s2, (p.s1 + b) % BASE);
    }
    ModAdd(p.s1 + b, p.s2);
  }

  /** How large the sums can have become after `n` bytes, from any 32-bit start value. */
  predicate Small(s: Sums, n: nat) {
    s.s1 <= 0xffff + 255 * n && 2 * s.s2 <= 2 * 0xffff * (n + 1) + 255 * (n * (n + 1))
  }

  lemma SmallNext(s: Sums, n: nat, b: byte)
    requires Small(s, n)
    ensures Small(Sums(s.s1 + b, s.s2 + s.s1 + b), n + 1)
  {
    assert (n + 1) * (n + 2) == n * (n + 1) + 2 * (n + 1);
  }

  lemma {:induction false} Growing(n: nat, m: nat)
    requires n <= m
    ensures n * (n + 1) <= m * (m + 1)
    decreases m - n
  {
    if n < m {
      Growing(n + 1, m);
      assert (n + 1) * (n + 2) == n * (n + 1) + 2 * (n + 1);
    }
  }

  /** NMAX bytes do not overflow 32 bits. */
  lemma SmallFits(s: Sums, n: nat)
    requires Small(s, n) && n <= NMAX
    ensures s.s1 < 0x1_0000_0000 && s.s2 < 0x1_0000_0000
  {
    Growing(n, NMAX);
  }

  lemma {:induction false} FullBlock(s: Sums, bs: seq<byte>)
    requires forall i | 0 <= i < |bs| :: bs[i] == 255
    ensures var r, n := Raw(s, bs), |bs|;
            r.s1 == s.s1 + 255 * n && 2 * r.s2 == 2 * s.s2 + 2 * (n * s.s1) + 255 * (n * (n + 1))
    decreases |bs|
  {
    if |bs| > 0 {
      var n := |bs| - 1;
      FullBlock(s, bs[..n]);
      assert (n + 1) * (n + 2) == n * (n + 1) + 2 * (n + 1);
      assert (n + 1) * s.s1 == n * s.s1 + s.s1;
    }
  }

  /** One byte more than NMAX can, even from reduced sums. */
  lemma NmaxIsLargest(bs: seq<byte>)
    requires |bs| == NMAX + 1 && forall i | 0 <= i < |bs| :: bs[i] == 255
    ensures Raw(Sums(BASE - 1, BASE - 1), bs).s2 >= 0x1_0000_0000
  {
    FullBlock(Sums(BASE - 1, BASE - 1), bs);
  }

  // ----- in closed form -----

  function Sum(bs: seq<byte>): nat {
    if bs == [] then 0 else bs[0] + Sum(bs[1..])
  }

  /** Every byte as often as there are bytes from it on. */
  function Weighted(bs: seq<byte>): nat {
    if bs == [] then 0 else |bs| * bs[0] + Weighted(bs[1..])
  }

  lemma {:induction false} SumNext(bs: seq<byte>, b: byte)
    ensures Sum(bs + [b]) == Sum(bs) + b && Weighted(bs + [b]) == Weighted(bs) + Sum(bs) + b
    decreases |bs|
  {
    if bs == [] {
      assert [] + [b] == [b] && [b][1..] == [];
    } else {
      SumNext(bs[1..], b);
      assert (bs + [b])[1..] == bs[1..] + [b];
      assert |bs + [b]| * bs[0] == |bs| * bs[0] + bs[0];
    }
  }

  lemma {:induction false} RawSums(bs: seq<byte>)
    ensures Raw(Sums(1, 0), bs) == Sums(1 + Sum(bs), |bs| + Weighted(bs))
    decreases |bs|
  {
    hide Sum, Weighted;
    if bs == [] {
      NoSum();
    } else {
      RawSums(bs[..|bs| - 1]);
      SumNext(bs[..|bs| - 1], bs[|bs| - 1]);
      assert bs[..|bs| - 1] + [bs[|bs| - 1]] == bs;
    }
  }

  lemma NoSum()
    ensures Sum([]) == 0 && Weighted([]) == 0
  {
  }

  /** The two halves of the checksum are two sums modulo 65521. */
  lemma ClosedForm(bs: seq<byte>)
    ensures Checksum(1, bs) % 0x1_0000 == (1 + Sum(bs)) % 65521
    ensures Checksum(1, bs) / 0x1_0000 == (|bs| + Weighted(bs)) % 65521
  {
    hide Define, Raw, Sum, Weighted;
    RawSums(bs);
    if bs == [] {
      NoSum();
      Nothing(Sums(1, 0));
    } else {
      Deferred(Sums(1, 0), bs);
    }
  }

  // ----- the loops -----

  /** LZO_DO1 at the `n`-th byte since the sums were last reduced. */
  method Do1(buf: array<byte>, i: nat, s1: u32, s2: u32, ghost n: nat) returns (r1: u32, r2: u32)
    requires i < buf.Length && Small(Sums(s1, s2), n) && n + 1 <= NMAX
    ensures Sums(r1, r2) == Raw(Sums(s1, s2), buf[i..i + 1]) && Small(Sums(r1, r2), n + 1)
  {
    var b: nat := buf[i];
    SmallNext(Sums(s1, s2), n, b);
    SmallFits(Sums(s1 + b, s2 + s1 + b), n + 1);
    r1 := s1 + b;
    r2 := s2 + r1;
    assert buf[i..i + 1][..0] == [];
  }

  method Do2(buf: array<byte>, i: nat, s1: u32, s2: u32, ghost n: nat) returns (r1: u32, r2: u32)
    requires i + 2 <= buf.Length && Small(Sums(s1, s2), n) && n + 2 <= NMAX
    ensures Sums(r1, r2) == Raw(Sums(s1, s2), buf[i..i + 2]) && Small(Sums(r1, r2), n + 2)
  {
    r1, r2 := Do1(buf, i, s1, s2, n);
    r1, r2 := Do1(buf, i + 1, r1, r2, n + 1);
    Joined(buf, Sums(s1, s2), i, i + 1, i + 2);
  }

  method Do4(buf: array<byte>, i: nat, s1: u32, s2: u32, ghost n: nat) returns (r1: u32, r2: u32)
    requires i + 4 <= buf.Length && Small(Sums(s1, s2), n) && n + 4 <= NMAX
    ensures Sums(r1, r2) == Raw(Sums(s1, s2), buf[i..i + 4]) && Small(Sums(r1, r2), n + 4)
  {
    r1, r2 := Do2(buf, i, s1, s2, n);
    r1, r2 := Do2(buf, i + 2, r1, r2, n + 2);
    Joined(buf, Sums(s1, s2), i, i + 2, i + 4);
  }

  method Do8(buf: array<byte>, i: nat, s1: u32, s2: u32, ghost n: nat) returns (r1: u32, r2: u32)
    requires i + 8 <= buf.Length && Small(Sums(s1, s2), n) && n + 8 <= NMAX
    ensures Sums(r1, r2) == Raw(Sums(s1, s2), buf[i..i + 8]) && Small(Sums(r1, r2), n + 8)
  {
    r1, r2 := Do4(buf, i, s1, s2, n);
    r1, r2 := Do4(buf, i + 4, r1, r2, n + 4);
    Joined(buf, Sums(s1, s2), i, i + 4, i + 8);
  }

  method Do16(buf: array<byte>, i: nat, s1: u32, s2: u32, ghost n: nat) returns (r1: u32, r2: u32)
    requires i + 16 <= buf.Length && Small(Sums(s1, s2), n) && n + 16 <= NMAX
    ensures Sums(r1, r2) == Raw(Sums(s1, s2), buf[i..i + 16]) && Small(Sums(r1, r2), n + 16)
  {
    r1, r2 := Do8(buf, i, s1, s2, n);
    r1, r2 := Do8(buf, i + 8, r1, r2, n + 8);
    Joined(buf, Sums(s1, s2), i, i + 8, i + 16);
  }

  lemma Joined(buf: array<byte>, s: Sums, i: nat, j: nat, k: nat)
    requires i <= j <= k <= buf.Length
    ensures Raw(s, buf[i..k]) == Raw(Raw(s, buf[i..j]), buf[j..k])
  {
    assert buf[i..j] + buf[j..k] == buf[i..k];
    RawAppend(s, buf[i..j], buf[j..k]);
  }

  lemma Nothing(s: Sums)
    ensures Raw(s, []) == s && Define(s, []) == s
    ensures s.s1 < 0x1_0000 && s.s2 < 0x1_0000 ==> Small(s, 0)
  {
  }

  /** Up to NMAX bytes without a reduction. */
  method Block(buf: array<byte>, at: nat, len: nat, s1: u32, s2: u32) returns (r1: u32, r2: u32)
    requires at + len <= buf.Length && len <= NMAX && s1 < 0x1_0000 && s2 < 0x1_0000
    ensures Sums(r1, r2) == Raw(Sums(s1, s2), buf[at..at + len])
  {
    hide Raw, Small;
    var k := len;
    r1, r2 := s1, s2;
    assert buf[at..at] == [];
    Nothing(Sums(s1, s2));
    while k >= 16
      invariant 0 <= k <= len
      invariant Sums(r1, r2) == Raw(Sums(s1, s2), buf[at..at + (len - k)]) && Small(Sums(r1, r2), len - k)
    {
      Joined(buf, Sums(s1, s2), at, at + (len - k), at + (len - k) + 16);
      r1, r2 := Do16(buf, at + (len - k), r1, r2, len - k);
      k := k - 16;
    }
    while k > 0
      invariant 0 <= k <= len
      invariant Sums(r1, r2) == Raw(Sums(s1, s2), buf[at..at + (len - k)]) && Small(Sums(r1, r2), len - k)
    {
      Joined(buf, Sums(s1, s2), at, at + (len - k), at + (len - k) + 1);
      r1, r2 := Do1(buf, at + (len - k), r1, r2, len - k);
      k := k - 1;
    }
  }

  /** lzo_adler32: every intermediate value fits 32 bits, and the result is the defined one. */
  method Adler32(adler: u32, buf: array?<byte>, at: nat, len: nat) returns (r: u32)
    requires buf != null ==> at + len <= buf.Length
    ensures r == if buf == null then 1 else Checksum(adler, buf[at..at + len])
  {
    hide Raw, Define;
    if buf == null {
      return 1;
    }
    var s1: u32, s2: u32 := adler % 0x1_0000, adler / 0x1_0000 % 0x1_0000;
    var n := len;
    assert buf[at..at] == [];
    Nothing(Sums(s1, s2));
    while n > 0
      invariant 0 <= n <= len && s1 < 0x1_0000 && s2 < 0x1_0000
      invariant Sums(s1, s2) == Define(Unpack(adler), buf[at..at + (len - n)])
    {
      var k := if n < NMAX then n else NMAX;
      var p := at + (len - n);
      var r1, r2 := Block(buf, p, k, s1, s2);
      Deferred(Sums(s1, s2), buf[p..p + k]);
      assert buf[at..p] + buf[p..p + k] == buf[at..p + k];
      DefineAppend(Unpack(adler), buf[at..p], buf[p..p + k]);
      s1, s2 := r1 % BASE, r2 % BASE;
      n := n - k;
    }
    r := s2 * 0x1_0000 + s1;
  }
}
