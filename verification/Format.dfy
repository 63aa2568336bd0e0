/** Bytes as the C code sees them: `unsigned char` values, with the truncating cast
    and the one bit operation whose operands may overlap written out in arithmetic. */
module Bytes {
  type byte = b: int | 0 <= b < 256

  /** LZO_BYTE: the cast to `unsigned char`. */
  function Trunc(x: nat): byte {
    x % 256
  }

  /** Bitwise or of two two-bit numbers. */
  function Or2(x: nat, y: nat): (r: nat)
    requires x < 4 && y < 4
    ensures r < 4
  {
    (if x / 2 == 1 || y / 2 == 1 then 2 else 0) + (if x % 2 == 1 || y % 2 == 1 then 1 else 0)
  }

  /** `b | t` for a two-bit `t`, which is how a short literal count is patched into a byte. */
  function OrLow(b: byte, t: nat): byte
    requires t < 4
  {
    b - b % 4 + Or2(b % 4, t)
  }

  /** The bytes `bs` lie at `ip` in `s`. */
  ghost predicate LiesAt(s: seq<byte>, ip: nat, bs: seq<byte>) {
    ip + |bs| <= |s| && s[ip..ip + |bs|] == bs
  }

  lemma LiesSplit(s: seq<byte>, ip: nat, a: seq<byte>, b: seq<byte>)
    ensures LiesAt(s, ip, a + b) <==> LiesAt(s, ip, a) && LiesAt(s, ip + |a|, b)
  {
    if LiesAt(s, ip, a + b) {
      var t := s[ip..ip + |a + b|];
      assert t[..|a|] == a && t[|a|..] == b;
      assert s[ip..ip + |a|] == t[..|a|] && s[ip + |a|..ip + |a| + |b|] == t[|a|..];
    }
    if LiesAt(s, ip, a) && LiesAt(s, ip + |a|, b) {
      assert s[ip..ip + |a + b|] == s[ip..ip + |a|] + s[ip + |a|..ip + |a| + |b|];
    }
  }
}

/** The compressed format of LZO1X, LZO1Y and LZO1Z as a list of tokens: which tokens may
    follow which, what each appends to the output, and the bytes that encode it. */
module Format {
  import opened Bytes

  datatype Variant = LZO1X | LZO1Y | LZO1Z

  const M1_MAX_OFFSET: nat := 0x400
  const M3_MAX_OFFSET: nat := 0x4000
  const M4_MAX_OFFSET: nat := 0xbfff
  const M3_MAX_LEN: nat := 33
  const M4_MAX_LEN: nat := 9
  const M3_MARKER: byte := 32
  const M4_MARKER: byte := 16

  function M2MaxOffset(v: Variant): nat {
    match v
    case LZO1X => 0x800
    case LZO1Y => 0x400
    case LZO1Z => 0x700
  }

  function M2MaxLen(v: Variant): nat {
    if v.LZO1Y? then 14 else 8
  }

  function MXMaxOffset(v: Variant): nat {
    M1_MAX_OFFSET + M2MaxOffset(v)
  }

  /** The match forms. M1a needs 1 to 3 literals before it, M1b needs 4 or more;
      M2Rep is LZO1Z's one-byte form that repeats the previous offset. */
  datatype Kind = M1a | M1b | M2 | M2Rep | M3 | M4

  /** `First` is the initial literal run with its own header, `Run` a run of four or more
      literals, and a match carries the up to three literals whose number sits in its low bits. */
  datatype Token =
    | First(lits: seq<byte>)
    | Run(lits: seq<byte>)
    | Match(kind: Kind, len: nat, off: nat, trail: seq<byte>)

  /** Where the decoder stands: before the first byte, after a match without literals,
      after a run of four or more literals, or after one to three literals. */
  datatype State = Start | Fresh | AfterRun | AfterTrail

  /** The part of the decoder's state that the tokens determine; `last` is LZO1Z's last_m_off. */
  datatype Ctx = Ctx(st: State, last: nat, out: seq<byte>)

  // ----- meaning -----

  /** Appends `len` bytes, each a copy of the byte `off` positions earlier: the source may
      overlap the bytes being produced. */
  function CopyMatch(w: seq<byte>, off: nat, len: nat): (r: seq<byte>)
    requires 1 <= off <= |w|
    ensures |r| == |w| + len
    ensures r[..|w|] == w
    decreases len
  {
    if len == 0 then w
    else
      var r := CopyMatch(w, off, len - 1);
      r + [r[|r| - off]]
  }

  /** Every byte that is appended repeats the one `off` before it. */
  lemma {:induction false} CopyRepeats(w: seq<byte>, off: nat, len: nat, k: nat)
    requires 1 <= off <= |w| <= k < |w| + len
    ensures CopyMatch(w, off, len)[k] == CopyMatch(w, off, len)[k - off]
    decreases len
  {
    if k < |w| + len - 1 {
      CopyRepeats(w, off, len - 1, k);
    }
  }

  /** The bytes that CopyMatch appends are the only ones that repeat at the given distance. */
  lemma CopyUnique(w: seq<byte>, off: nat, len: nat, r: seq<byte>)
    requires 1 <= off <= |w| && |r| == |w| + len && r[..|w|] == w
    requires forall k | |w| <= k < |r| :: r[k] == r[k - off]
    ensures r == CopyMatch(w, off, len)
    decreases len
  {
    if len > 0 {
      var p := r[..|r| - 1];
      assert p[..|w|] == w;
      forall k | |w| <= k < |p| ensures p[k] == p[k - off] {
        assert p[k] == r[k];
      }
      CopyUnique(w, off, len - 1, p);
      assert r == p + [r[|r| - 1]];
    } else {
      assert r == r[..|w|];
    }
  }

  /** One token's effect; a match that looks back too far has none, and is never legal. */
  function Apply(c: Ctx, t: Token): Ctx
  {
    match t
    case First(lits) => Ctx(if |lits| < 4 then AfterTrail else AfterRun, c.last, c.out + lits)
    case Run(lits) => Ctx(AfterRun, c.last, c.out + lits)
    case Match(_, len, off, trail) =>
      if 1 <= off <= |c.out|
      then Ctx(if trail == [] then Fresh else AfterTrail, off, CopyMatch(c.out, off, len) + trail)
      else c
  }

  // ----- bytes -----

  /** A length that does not fit its marker: a zero byte for each 255, then the rest. */
  function Ext(n: nat): (r: seq<byte>)
    requires n >= 1
    ensures |r| >= 1
  {
    if n <= 255 then [n] else [0] + Ext(n - 255)
  }

  /** A length `n` in the low bits of a marker when it is at most `max`, else extended. */
  function LenBytes(marker: byte, n: nat, max: nat): seq<byte>
    requires n >= 1 && marker + max < 256
  {
    if n <= max then [marker + n] else [marker] + Ext(n - max)
  }

  /** A 14-bit offset and the literal count in the two low bits that are left. */
  function OffBytes(v: Variant, o: nat, low: nat): (r: seq<byte>)
    requires o < 0x4000 && low < 4
    ensures |r| == 2
  {
    if v.LZO1Z? then [o / 64, o % 64 * 4 + low] else [o % 64 * 4 + low, o / 64]
  }

  function M1Bytes(v: Variant, o: nat, low: nat): (r: seq<byte>)
    requires o < 0x400 && low < 4
    ensures |r| == 2
  {
    if v.LZO1Z? then [o / 64, o % 64 * 4 + low] else [o % 4 * 4 + low, o / 4]
  }

  function M2Bytes(v: Variant, len: nat, o: nat, low: nat): (r: seq<byte>)
    requires 3 <= len <= M2MaxLen(v) && o < M2MaxOffset(v) && low < 4
    ensures |r| == 2
  {
    match v
    case LZO1X => [(len - 1) * 32 + o % 8 * 4 + low, o / 8]
    case LZO1Y => [(len + 1) * 16 + o % 4 * 4 + low, o / 4]
    case LZO1Z => [(len - 1) * 32 + o / 64, o % 64 * 4 + low]
  }

  function M3Bytes(v: Variant, len: nat, o: nat, low: nat): seq<byte>
    requires 3 <= len && o < 0x4000 && low < 4
  {
    LenBytes(M3_MARKER, len - 2, 31) + OffBytes(v, o, low)
  }

  /** The offset less 0x4000 is `hi * 0x4000 + o`; its top bit goes to bit 3 of the marker. */
  function M4Bytes(v: Variant, len: nat, hi: nat, o: nat, low: nat): seq<byte>
    requires 3 <= len && hi < 2 && o < 0x4000 && low < 4
  {
    LenBytes(M4_MARKER + hi * 8, len - 2, 7) + OffBytes(v, o, low)
  }

  predicate InRange(v: Variant, kind: Kind, len: nat, off: nat) {
    match kind
    case M1a => len == 2 && 1 <= off <= M1_MAX_OFFSET
    case M1b => len == 3 && M2MaxOffset(v) < off <= MXMaxOffset(v)
    case M2 => 3 <= len <= M2MaxLen(v) && 1 <= off <= M2MaxOffset(v)
    case M2Rep => v.LZO1Z? && 3 <= len <= 8 && 1 <= off
    case M3 => 3 <= len && 1 <= off <= M3_MAX_OFFSET
    case M4 => 3 <= len && M3_MAX_OFFSET < off <= M4_MAX_OFFSET
  }

  function MatchBytes(v: Variant, kind: Kind, len: nat, off: nat, low: nat): seq<byte>
    requires InRange(v, kind, len, off) && low < 4
  {
    match kind
    case M1a => M1Bytes(v, off - 1, low)
    case M1b => M1Bytes(v, off - 1 - M2MaxOffset(v), low)
    case M2 => M2Bytes(v, len, off - 1, low)
    case M2Rep => [(len - 1) * 32 + 28 + low]
    case M3 => M3Bytes(v, len, off - 1, low)
    case M4 => M4Bytes(v, len, (off - 0x4000) / 0x4000, (off - 0x4000) % 0x4000, low)
  }

  predicate Shaped(v: Variant, t: Token) {
    match t
    case First(lits) => 1 <= |lits| <= 238
    case Run(lits) => 4 <= |lits|
    case Match(kind, len, off, trail) => InRange(v, kind, len, off) && |trail| < 4
  }

  function Enc(v: Variant, t: Token): (r: seq<byte>)
    requires Shaped(v, t)
  {
    match t
    case First(lits) => [17 + |lits|] + lits
    case Run(lits) => LenBytes(0, |lits| - 3, 15) + lits
    case Match(kind, len, off, trail) => MatchBytes(v, kind, len, off, |trail|) + trail
  }

  // ----- which tokens may come next -----

  /** The extended part of a length never pushes a `word`-valued counter past its 511 margin. */
  predicate Fits(word: nat, n: int, max: nat) {
    n <= max || 255 * (|Ext(n - max)| - 1) + 511 <= word
  }

  predicate LenFits(word: nat, t: Token) {
    match t
    case First(_) => true
    case Run(lits) => Fits(word, |lits| - 3, 15)
    case Match(kind, len, _, _) =>
      (kind.M3? ==> Fits(word, len - 2, 31)) && (kind.M4? ==> Fits(word, len - 2, 7))
  }

  predicate Legal(v: Variant, word: nat, c: Ctx, t: Token): (r: bool)
    ensures r ==> Shaped(v, t)
  {
    && Shaped(v, t)
    && LenFits(word, t)
    && (t.First? ==> c.st.Start?)
    && (t.Run? ==> c.st.Start? || c.st.Fresh?)
    && (t.Match? ==>
          && t.off <= |c.out|
          && (t.kind.M1a? ==> c.st.AfterTrail?)
          && (t.kind.M1b? ==> c.st.AfterRun?)
          && (t.kind.M2Rep? ==> t.off == c.last)
          && (c.st.Start? ==> Enc(v, t)[0] <= 17))
  }

  ghost function ApplyAll(c: Ctx, ts: seq<Token>): Ctx
    decreases |ts|
  {
    if |ts| == 0 then c else Apply(ApplyAll(c, ts[..|ts| - 1]), ts[|ts| - 1])
  }

  ghost predicate LegalAll(v: Variant, word: nat, c: Ctx, ts: seq<Token>) {
    forall i | 0 <= i < |ts| :: Legal(v, word, ApplyAll(c, ts[..i]), ts[i])
  }

  ghost predicate ShapedAll(v: Variant, ts: seq<Token>) {
    forall i | 0 <= i < |ts| :: Shaped(v, ts[i])
  }

  ghost function EncAll(v: Variant, ts: seq<Token>): seq<byte>
    requires ShapedAll(v, ts)
    decreases |ts|
  {
    if |ts| == 0 then [] else EncAll(v, ts[..|ts| - 1]) + Enc(v, ts[|ts| - 1])
  }

  // ----- dictionaries -----

  /** Compressor and decompressor keep only the last M4_MAX_OFFSET bytes of a dictionary. */
  function TrimDict(dict: seq<byte>): (r: seq<byte>)
    ensures |r| <= M4_MAX_OFFSET
    ensures |r| <= |dict|
  {
    if |dict| > M4_MAX_OFFSET then dict[|dict| - M4_MAX_OFFSET..] else dict
  }
}
