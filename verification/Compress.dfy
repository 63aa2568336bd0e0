/** lzo1x_1_compress and lzo1y_1_compress on arrays. `src` and `dst` may be one array, with the
    input far enough above the output: overlapping compression. */
module Compress {
  import opened Bytes
  import opened Format
  import opened Expansion
  import opened Emission
  import opened Greedy
  import opened Copying
  import opened Words
  import opened Writing

  // ----- writing -----

  /** Two offset bytes. */
  method PutOff(v: Variant, dst: array<byte>, lo: nat, op: nat, o: nat) returns (op': nat)
    requires !v.LZO1Z? && lo <= op && op + 2 <= dst.Length
    modifies dst
    ensures op' == op + 2 && dst[lo..op'] == old(dst[lo..op]) + OffBytes(v, o % 0x4000, 0)
    ensures OnlyWithin(dst, op, op')
  {
    OffTruncated(o);
    op' := PutTwo(dst, lo, op, Trunc(o * 4), Trunc(o / 64));
  }

  method PutM2(v: Variant, dst: array<byte>, lo: nat, op: nat, len: nat, off: nat) returns (op': nat)
    requires !v.LZO1Z? && InRange(v, M2, len, off) && lo <= op && op + 2 <= dst.Length
    modifies dst
    ensures op' == op + 2 && dst[lo..op'] == old(dst[lo..op]) + M2Bytes(v, len, off - 1, 0)
    ensures OnlyWithin(dst, op, op')
  {
    hide OnlyWithin;
    var o := off - 1;
    if v.LZO1X? {
      op' := PutTwo(dst, lo, op, Trunc((len - 1) * 32 + o % 8 * 4), Trunc(o / 8));
    } else {
      op' := PutTwo(dst, lo, op, Trunc((len + 1) * 16 + o % 4 * 4), Trunc(o / 4));
    }
  }

  /** The bytes of a match without literals. */
  method PutMatch(v: Variant, dst: array<byte>, lo: nat, op: nat, len: nat, off: nat) returns (op': nat)
    requires !v.LZO1Z? && 4 <= len && 1 <= off <= M4_MAX_OFFSET && lo <= op
    requires op + |MatchBytes(v, KindFor(v, len, off), len, off, 0)| <= dst.Length
    modifies dst
    ensures op' == op + |MatchBytes(v, KindFor(v, len, off), len, off, 0)|
    ensures dst[lo..op'] == old(dst[lo..op]) + MatchBytes(v, KindFor(v, len, off), len, off, 0)
    ensures OnlyWithin(dst, op, op')
  {
    hide M1Bytes, M2Bytes, OffBytes, LenBytes;
    if len <= M2MaxLen(v) && off <= M2MaxOffset(v) {
      op' := PutM2(v, dst, lo, op, len, off);
    } else if off <= M3_MAX_OFFSET {
      var o := off - 1;
      op' := PutLen(dst, lo, op, M3_MARKER, len - 2, 31);
      op' := PutOff(v, dst, lo, op', o);
    } else {
      var o := off - 0x4000;
      op' := PutLen(dst, lo, op, M4_MARKER + o / 0x4000 % 2 * 8, len - 2, 7);
      op' := PutOff(v, dst, lo, op', o);
    }
  }

  // ----- reading -----

  /** One call: `n` input bytes at `s`, output from `d` on. */
  datatype Job = Job(p: Params, width: Width, src: array<byte>, s: nat, n: nat, dst: array<byte>, d: nat)

  /** The output buffer that the documentation asks for. */
  function Room(n: nat): nat {
    n + n / 16 + 64 + 3
  }

  /** How far above the output the input must lie to be compressed in place. */
  function Overhead(n: nat): nat {
    (if n > M4_MAX_OFFSET then M4_MAX_OFFSET else n) + n / 16 + 64 + 3
  }

  predicate JobOK(j: Job) {
    && ParamsOK(j.p) && Room(j.n) < j.p.word
    && j.s + j.n <= j.src.Length && j.d + Room(j.n) <= j.dst.Length
    && (j.src == j.dst ==> j.d + Overhead(j.n) <= j.s)
  }

  /** From position `lo` on the array still holds the input. */
  ghost predicate Intact(j: Job, input: seq<byte>, lo: nat)
    reads j.src
  {
    && |input| == j.n && j.s + j.n <= j.src.Length
    && forall i {:trigger j.src[i]} | j.s + lo <= i < j.s + j.n :: j.src[i] == input[i - j.s]
  }

  lemma IntactAbove(j: Job, input: seq<byte>, lo: nat, hi: nat)
    requires Intact(j, input, lo) && lo <= hi
    ensures Intact(j, input, hi) && |input| == j.n
  {
  }

  method Get32(j: Job, i: nat, ghost input: seq<byte>) returns (v: nat)
    requires Intact(j, input, i) && i + 4 <= j.n
    ensures v == LE32(input, i)
  {
    hide LE;
    LoadedInput(j, input, i, 4);
    v := LE(j.src[j.s + i..j.s + i + 4]);
  }

  /** The search for the next match. The table's entries fit its 16-bit type: they are below BLOCK. */
  method FindMatch(j: Job, dict: array<nat>, bs: nat, be: nat, ii: nat, start: nat, ghost input: seq<byte>)
    returns (found: bool, ip: nat, pos: nat)
    requires Intact(j, input, bs) && bs + 20 < be <= j.n && bs <= ii <= start
    requires dict.Length == D_SIZE && DictOK(dict[..], bs, start)
    modifies dict
    ensures Search(input, bs, be, ii, start, old(dict[..])) == if found then Found(ip, pos, dict[..]) else NotFound
  {
    hide DIndex, LE32, Search, DictOK;
    ip := start;
    pos := 0;
    while ip < be - 20
      invariant start <= ip && DictOK(dict[..], bs, ip)
      invariant Search(input, bs, be, ii, ip, dict[..]) == Search(input, bs, be, ii, start, old(dict[..]))
      decreases be - ip
    {
      SearchRound(input, bs, be, ii, ip, dict[..]);
      var dv := Get32(j, ip, input);
      var h := DIndex(dv);
      pos := bs + dict[h];
      ghost var before: seq<nat> := dict[..];
      var entry: nat := ip - bs;
      dict[h] := entry;
      assert dict[..] == before[h := entry];
      var mv := Get32(j, pos, input);
      if dv == mv {
        return true, ip, pos;
      }
      ip := ip + 1 + (ip - ii) / 32;
    }
    assert Search(input, bs, be, ii, ip, dict[..]) == NotFound by {
      SearchEnds(input, bs, be, ii, ip, dict[..]);
    }
    found := false;
  }

  /** The number of leading equal bytes among `k`. */
  method EqualBytes(j: Job, a: nat, b: nat, k: nat, ghost input: seq<byte>) returns (m: nat)
    requires Intact(j, input, b) && b <= a && a + k <= j.n
    ensures m <= k && (m < k ==> input[a + m] != input[b + m])
    ensures Same(input, a, a - b, m)
  {
    m := 0;
    while m < k && j.src[j.s + a + m] == j.src[j.s + b + m]
      invariant m <= k && Same(input, a, a - b, m)
    {
      m := m + 1;
    }
  }

  /** The exclusive or of the words at two places of the input. */
  function Difference(j: Job, how: Locate, a: nat, b: nat, n: nat): nat
    requires j.s + a + n <= j.src.Length && j.s + b + n <= j.src.Length
    reads j.src
  {
    Xor(Load(how, j.src[j.s + a..j.s + a + n]), Load(how, j.src[j.s + b..j.s + b + n]))
  }

  lemma LoadedInput(j: Job, input: seq<byte>, a: nat, n: nat)
    requires Intact(j, input, a) && a + n <= j.n
    ensures |input| == j.n && j.s + j.n <= j.src.Length && j.src[j.s + a..j.s + a + n] == input[a..a + n]
  {
  }

  /** Words are equal exactly when their bytes are; and the first difference is that of the bytes. */
  lemma SameWords(input: seq<byte>, how: Locate, a: nat, b: nat, n: nat)
    requires b <= a && a + n <= |input|
    ensures var s, t := input[a..a + n], input[b..b + n];
            var m := FirstDiff(s, t);
            && (Xor(Load(how, s), Load(how, t)) == 0 <==> m == n)
            && Same(input, a, a - b, m) && (m < n ==> input[a + m] != input[b + m])
  {
    hide FirstDiff, Xor;
    var s, t := input[a..a + n], input[b..b + n];
    LoadsDiffer(how, s, t);
    var m := FirstDiff(s, t);
    forall i | a <= i < a + m ensures input[i] == input[i - (a - b)] {
      assert s[..m][i - a] == t[..m][i - a];
    }
  }

  /** Equal words are equal bytes. */
  lemma EqualWords(j: Job, how: Locate, a: nat, b: nat, n: nat, input: seq<byte>)
    requires Intact(j, input, b) && b <= a && a + n <= j.n == |input|
    requires j.s + a + n <= j.src.Length && Difference(j, how, a, b, n) == 0
    ensures Same(input, a, a - b, n)
  {
    hide Intact, Same, FirstDiff, Xor;
    IntactAbove(j, input, b, a);
    LoadedInput(j, input, a, n);
    LoadedInput(j, input, b, n);
    SameWords(input, how, a, b, n);
  }

  /** The first differing byte, given that the words differ. */
  method Locating(j: Job, how: Locate, v: nat, a: nat, b: nat, n: nat, ghost input: seq<byte>) returns (m: nat)
    requires Intact(j, input, b) && b <= a && a + n <= j.n
    requires j.s + a + n <= j.src.Length && v == Difference(j, how, a, b, n) && v != 0
    ensures |input| == j.n && m < n && input[a + m] != input[b + m] && Same(input, a, a - b, m)
  {
    hide Intact, Same, FirstDiff, Xor;
    IntactAbove(j, input, b, a);
    LoadedInput(j, input, a, n);
    LoadedInput(j, input, b, n);
    SameWords(input, how, a, b, n);
    m := FirstDifferent(how, v, j.src[j.s + a..j.s + a + n], j.src[j.s + b..j.s + b + n]);
  }

  /** The words at `len` differ, of the eight bytes from `base` on that are compared in this round. */
  method LastWord(j: Job, how: Locate, v: nat, ip: nat, pos: nat, be: nat, ghost base: nat, len: nat, n: nat,
                  ghost input: seq<byte>)
    returns (len': nat)
    requires Intact(j, input, pos) && pos < ip && ip < be - 20 && be <= j.n == |input| && j.s + j.n <= j.src.Length
    requires 4 <= base <= len && (base == 4 || ip + base < be - 20) && len - base + n <= 8
    requires Same(input, ip + base, ip - pos, len - base)
    requires v == Difference(j, how, ip + len, pos + len, n) && v != 0
    ensures len' == MatchLen(input[..be], ip, pos, be - 20, base, 0)
  {
    hide MatchLen, Intact, Same, Difference;
    IntactAbove(j, input, pos, pos + len);
    var m := Locating(j, how, v, ip + len, pos + len, n, input);
    SameJoin(input, ip + base, ip - pos, len - base, m);
    MatchEnds(input, be, ip, pos, base, len - base + m);
    len' := len + m;
  }

  lemma MatchEnds(input: seq<byte>, be: nat, ip: nat, pos: nat, n: nat, k: nat)
    requires pos < ip < be - 20 && be <= |input| && 4 <= n && k < 8 && (n == 4 || ip + n < be - 20)
    requires Same(input, ip + n, ip - pos, k) && input[ip + n + k] != input[pos + n + k]
    ensures MatchLen(input[..be], ip, pos, be - 20, n, 0) == n + k
  {
    hide MatchLen, Same;
    SameTake(input, ip + n, ip - pos, k, be);
    MatchLenSkip(input[..be], ip, pos, be - 20, n, k);
  }

  /** The match length by 8-byte words: the next word is loaded before the block's end is looked at. */
  method MatchLength8(j: Job, how: Locate, ip: nat, pos: nat, be: nat, ghost input: seq<byte>) returns (len: nat)
    requires Intact(j, input, pos) && pos < ip && ip < be - 20 && be <= j.n == |input| && j.s + j.n <= j.src.Length
    ensures len == MatchLen(input[..be], ip, pos, be - 20, 4, 0)
  {
    hide MatchLen, Intact, Same, Difference;
    ghost var s := input[..be];
    len := 4;
    var v := Difference(j, how, ip + len, pos + len, 8);
    while v == 0
      invariant 4 <= len && (len == 4 || ip + len < be - 20) && v == Difference(j, how, ip + len, pos + len, 8)
      invariant MatchLen(s, ip, pos, be - 20, len, 0) == MatchLen(s, ip, pos, be - 20, 4, 0)
      decreases be - ip - len
    {
      IntactAbove(j, input, pos, pos + len);
      EqualWords(j, how, ip + len, pos + len, 8, input);
      EightMore(input, ip, pos, be, len);
      len := len + 8;
      v := Difference(j, how, ip + len, pos + len, 8);
      if ip + len >= be - 20 {
        return;
      }
    }
    SameNone(input, ip + len, ip - pos);
    len := LastWord(j, how, v, ip, pos, be, len, len, 8, input);
  }

  /** By 4-byte words, two to a round: the end is looked at after the second. */
  method MatchLength4(j: Job, how: Locate, ip: nat, pos: nat, be: nat, ghost input: seq<byte>) returns (len: nat)
    requires Intact(j, input, pos) && pos < ip && ip < be - 20 && be <= j.n == |input| && j.s + j.n <= j.src.Length
    ensures len == MatchLen(input[..be], ip, pos, be - 20, 4, 0)
  {
    hide MatchLen, Intact, Same, Difference;
    ghost var s, off := input[..be], ip - pos;
    ghost var base := 4;
    len := 4;
    var v := Difference(j, how, ip + len, pos + len, 4);
    SameNone(input, ip + 4, off);
    while v == 0
      invariant 4 <= base == len && (base == 4 || ip + base < be - 20)
      invariant v == Difference(j, how, ip + len, pos + len, 4) && Same(input, ip + base, off, 0)
      invariant MatchLen(s, ip, pos, be - 20, base, 0) == MatchLen(s, ip, pos, be - 20, 4, 0)
      decreases be - ip - len
    {
      EqualHere(j, how, ip, pos, base, len, input);
      len := len + 4;
      v := Difference(j, how, ip + len, pos + len, 4);
      if v != 0 {
        break;
      }
      EqualHere(j, how, ip, pos, base, len, input);
      EightMore(input, ip, pos, be, base);
      len := len + 4;
      v := Difference(j, how, ip + len, pos + len, 4);
      if ip + len >= be - 20 {
        return;
      }
      base := len;
      SameNone(input, ip + base, off);
    }
    len := LastWord(j, how, v, ip, pos, be, base, len, 4, input);
  }

  lemma EightMore(input: seq<byte>, ip: nat, pos: nat, be: nat, n: nat)
    requires pos < ip < be - 20 && be <= |input| && 4 <= n
    requires (n == 4 || ip + n < be - 20) && Same(input, ip + n, ip - pos, 8)
    ensures var s := input[..be];
            MatchLen(s, ip, pos, be - 20, n, 0) ==
            if ip + n + 8 >= be - 20 then n + 8 else MatchLen(s, ip, pos, be - 20, n + 8, 0)
  {
    hide MatchLen, Same;
    SameTake(input, ip + n, ip - pos, 8, be);
    MatchLenSkip(input[..be], ip, pos, be - 20, n, 8);
  }

  /** Four more equal bytes at `len`, behind those from `base` on. */
  lemma EqualHere(j: Job, how: Locate, ip: nat, pos: nat, base: nat, len: nat, input: seq<byte>)
    requires Intact(j, input, pos) && pos < ip && base <= len
    requires ip + len + 4 <= j.n == |input| && j.s + j.n <= j.src.Length
    requires Difference(j, how, ip + len, pos + len, 4) == 0 && Same(input, ip + base, ip - pos, len - base)
    ensures Same(input, ip + base, ip - pos, len + 4 - base)
  {
    hide Intact, Same, Difference;
    IntactAbove(j, input, pos, pos + len);
    EqualWords(j, how, ip + len, pos + len, 4, input);
    SameJoin(input, ip + base, ip - pos, len - base, 4);
  }

  lemma SameNone(s: seq<byte>, ip: nat, off: nat)
    requires off <= ip <= |s|
    ensures Same(s, ip, off, 0)
  {
  }

  /** Byte by byte, eight to a round. */
  method MatchLength1(j: Job, ip: nat, pos: nat, be: nat, ghost input: seq<byte>) returns (len: nat)
    requires Intact(j, input, pos) && pos < ip && ip < be - 20 && be <= j.n == |input| && j.s + j.n <= j.src.Length
    ensures len == MatchLen(input[..be], ip, pos, be - 20, 4, 0)
  {
    hide MatchLen, Intact, Same;
    ghost var s := input[..be];
    len := 4;
    while true
      invariant 4 <= len && (len == 4 || ip + len < be - 20)
      invariant MatchLen(s, ip, pos, be - 20, len, 0) == MatchLen(s, ip, pos, be - 20, 4, 0)
      decreases be - ip - len
    {
      IntactAbove(j, input, pos, pos + len);
      var m := EqualBytes(j, ip + len, pos + len, 8, input);
      if m < 8 {
        MatchEnds(input, be, ip, pos, len, m);
        return len + m;
      }
      EightMore(input, ip, pos, be, len);
      len := len + 8;
      if ip + len >= be - 20 {
        return;
      }
    }
  }

  /** The match length, in each build. */
  method MatchLength(j: Job, ip: nat, pos: nat, be: nat, ghost input: seq<byte>) returns (len: nat)
    requires Intact(j, input, pos) && pos < ip && ip < be - 20 && be <= j.n
    ensures len == Length(input, be, ip, pos)
  {
    hide MatchLen;
    match j.width {
      case Words8(how) => len := MatchLength8(j, how, ip, pos, be, input);
      case Words4(how) => len := MatchLength4(j, how, ip, pos, be, input);
      case Bytewise => len := MatchLength1(j, ip, pos, be, input);
    }
  }

  // ----- literals -----

  /** The output so far is the encoding of `ts`. */
  ghost predicate Holds(j: Job, op: nat, ts: seq<Token>)
    reads j.dst
  {
    && ShapedAll(j.p.v, ts) && j.d <= op <= j.dst.Length
    && op == j.d + |EncAll(j.p.v, ts)| && j.dst[j.d..op] == EncAll(j.p.v, ts)
  }

  /** One to three literals; the wide build stores four bytes at once. */
  method CopyTrail(j: Job, op: nat, lit: nat, t: nat, ghost input: seq<byte>)
    requires JobOK(j) && 1 <= t < 4 && lit + 4 <= j.n && Intact(j, input, lit)
    requires op + 4 <= j.dst.Length && (j.src == j.dst ==> op <= j.s + lit)
    modifies j.dst
    ensures j.dst[op..op + t] == input[lit..lit + t]
    ensures OnlyWithin(j.dst, op, op + 4)
  {
    if j.width.Bytewise? {
      CopyLits(Bytewise, j.dst, op, j.src, j.s + lit, t);
    } else {
      CopyChunk(j.dst, op, j.src, j.s + lit, 4);
    }
    forall i | op <= i < op + t ensures j.dst[i] == input[lit + i - op] {
      var i' := i - op + (j.s + lit);
      assert old(j.src[i']) == input[i' - j.s];
    }
  }

  /** Their number goes into the match before them. */
  method PutTrail(j: Job, op: nat, lit: nat, t: nat, ghost input: seq<byte>) returns (op': nat)
    requires JobOK(j) && !j.p.v.LZO1Z? && 1 <= t < 4 && lit + 4 <= j.n && Intact(j, input, lit)
    requires j.d + 2 <= op && op + 4 <= j.dst.Length && (j.src == j.dst ==> op <= j.s + lit)
    modifies j.dst
    ensures op' == op + t
    ensures var w := old(j.dst[j.d..op]);
            j.dst[j.d..op'] == w[|w| - 2 := OrLow(w[|w| - 2], t)] + input[lit..lit + t]
    ensures OnlyWithin(j.dst, j.d, op + 4)
  {
    hide OrLow;
    j.dst[op - 2] := OrLow(j.dst[op - 2], t);
    ghost var w := j.dst[j.d..op];
    assert w == old(j.dst[j.d..op])[op - j.d - 2 := j.dst[op - 2]];
    CopyTrail(j, op, lit, t, input);
    op' := op + t;
    assert j.dst[j.d..op] == w;
    assert j.dst[j.d..op'] == j.dst[j.d..op] + j.dst[op..op'];
  }

  /** Four or more literals; a wide build stores sixteen bytes at a time, and up to twelve too many
      when there are fewer. */
  method CopyRun(j: Job, op: nat, lit: nat, t: nat, ghost input: seq<byte>)
    requires JobOK(j) && 4 <= t && lit + t <= j.n && (t <= 16 ==> lit + 16 <= j.n) && Intact(j, input, lit)
    requires j.d <= op && op + t + 12 <= j.dst.Length && (j.src == j.dst ==> op <= j.s + lit)
    modifies j.dst
    ensures j.dst[j.d..op + t] == old(j.dst[j.d..op]) + input[lit..lit + t]
    ensures OnlyWithin(j.dst, op, op + t + 12)
  {
    if j.width.Bytewise? {
      CopyLits(Bytewise, j.dst, op, j.src, j.s + lit, t);
    } else {
      CopyWide(j.dst, op, j.src, j.s + lit, t);
    }
    forall i | op <= i < op + t ensures j.dst[i] == input[lit + i - op] {
      var i' := i - op + (j.s + lit);
      assert old(j.src[i']) == input[i' - j.s];
    }
    assert j.dst[op..op + t] == input[lit..lit + t];
    assert j.dst[j.d..op] == old(j.dst[j.d..op]);
    assert j.dst[j.d..op + t] == j.dst[j.d..op] + j.dst[op..op + t];
  }

  /** A run with its header. */
  method PutRun(j: Job, op: nat, lit: nat, t: nat, ghost input: seq<byte>) returns (op': nat)
    requires JobOK(j) && 4 <= t && lit + t <= j.n && (t <= 16 ==> lit + 16 <= j.n) && Intact(j, input, lit)
    requires j.d <= op && op + |LenBytes(0, t - 3, 15)| + t + 12 <= j.dst.Length
    requires j.src == j.dst ==> op + |LenBytes(0, t - 3, 15)| <= j.s + lit
    modifies j.dst
    ensures op' == op + |LenBytes(0, t - 3, 15)| + t
    ensures j.dst[j.d..op'] == old(j.dst[j.d..op]) + (LenBytes(0, t - 3, 15) + input[lit..lit + t])
    ensures OnlyWithin(j.dst, op, op' + 12)
  {
    hide LenBytes;
    ghost var w := j.dst[j.d..op];
    var q := PutLen(j.dst, j.d, op, 0, t - 3, 15);
    assert Intact(j, input, lit);
    CopyRun(j, q, lit, t, input);
    op' := q + t;
    assert w + LenBytes(0, t - 3, 15) + input[lit..lit + t] == w + (LenBytes(0, t - 3, 15) + input[lit..lit + t]);
  }

  // ----- one block -----

  /** Where the output stands before and after the literals. */
  lemma LitsFit(j: Job, op: nat, lit: nat, ip: nat, ts: seq<Token>, input: seq<byte>)
    requires JobOK(j) && Good(j.p, input, ts, lit) && lit <= ip <= |input|
    requires (ip - lit < 4 ==> ts != []) && Holds(j, op, ts)
    ensures op <= j.d + lit + lit / 16 + 1
    ensures var us := AddLits(ts, input[lit..ip]);
            ShapedAll(j.p.v, us) && |EncAll(j.p.v, us)| <= ip + ip / 16 + 2
  {
    hide LegalAll, ApplyAll, EncAll, AddLits;
    LitsBefore(j.p, input, ts, lit, ip);
    EmittedSize(j.p.v, j.p.word, C0, ts, input[..lit], 0);
    EmittedSize(j.p.v, j.p.word, C0, AddLits(ts, input[lit..ip]), input[..ip], RUN_SLACK);
  }

  method PutFew(j: Job, op: nat, lit: nat, ip: nat, ghost ts: seq<Token>, ghost input: seq<byte>) returns (op': nat)
    requires JobOK(j) && 1 <= ip - lit < 4 && lit + 4 <= j.n && Open(ts) && ts != []
    requires Holds(j, op, ts) && Intact(j, input, lit)
    requires op + 4 <= j.dst.Length && (j.src == j.dst ==> op <= j.s + lit)
    modifies j.dst
    ensures op <= op' && Holds(j, op', Patch(ts, input[lit..ip]))
    ensures OnlyWithin(j.dst, j.d, op' + 12)
  {
    hide EncAll, ShapedAll, OrLow, Intact, Open;
    IntactAbove(j, input, lit, lit);
    PatchEnc(j.p.v, ts, input[lit..ip]);
    op' := PutTrail(j, op, lit, ip - lit, input);
  }

  method PutMany(j: Job, op: nat, lit: nat, ip: nat, ghost ts: seq<Token>, ghost input: seq<byte>) returns (op': nat)
    requires JobOK(j) && 4 <= ip - lit && ip <= j.n && (ip - lit <= 16 ==> lit + 16 <= j.n)
    requires Holds(j, op, ts) && Intact(j, input, lit)
    requires ShapedAll(j.p.v, ts + [Run(input[lit..ip])])
    requires j.d + |EncAll(j.p.v, ts + [Run(input[lit..ip])])| + 12 <= j.dst.Length
    requires j.src == j.dst ==> j.d + |EncAll(j.p.v, ts + [Run(input[lit..ip])])| <= j.s + ip
    modifies j.dst
    ensures op <= op' && Holds(j, op', ts + [Run(input[lit..ip])])
    ensures OnlyWithin(j.dst, j.d, op' + 12)
  {
    hide EncAll, ShapedAll, LenBytes, Intact;
    IntactAbove(j, input, lit, lit);
    RunEnc(j.p.v, ts, input[lit..ip]);
    op' := PutRun(j, op, lit, ip - lit, input);
  }

  /** The literals before a match at `ip`. */
  method PutLits(j: Job, op: nat, lit: nat, ip: nat, ghost ts: seq<Token>, ghost input: seq<byte>) returns (op': nat)
    requires JobOK(j) && Good(j.p, input, ts, lit) && lit <= ip && ip + 20 <= j.n && (ip - lit < 4 ==> ts != [])
    requires Holds(j, op, ts) && Intact(j, input, lit)
    modifies j.dst
    ensures op <= op' && Holds(j, op', AddLits(ts, input[lit..ip]))
    ensures OnlyWithin(j.dst, j.d, op' + 12)
  {
    hide EncAll, ShapedAll, Emitted, Holds;
    LitsFit(j, op, lit, ip, ts, input);
    if ip == lit {
      op' := op;
    } else if ip - lit < 4 {
      op' := PutFew(j, op, lit, ip, ts, input);
    } else {
      op' := PutMany(j, op, lit, ip, ts, input);
    }
  }

  /** The match behind them. */
  method PutToken(j: Job, op: nat, ip: nat, len: nat, off: nat, ghost us: seq<Token>, ghost input: seq<byte>)
    returns (op': nat)
    requires JobOK(j) && 4 <= len && 1 <= off <= M4_MAX_OFFSET && ip + len <= j.n == |input|
    requires Good(j.p, input, us + [MatchToken(j.p.v, len, off)], ip + len)
    requires Holds(j, op, us)
    modifies j.dst
    ensures op <= op' && Holds(j, op', us + [MatchToken(j.p.v, len, off)])
    ensures OnlyWithin(j.dst, op, op')
  {
    hide LegalAll, ApplyAll, EncAll, MatchBytes, Enc, Cost;
    ghost var m := MatchToken(j.p.v, len, off);
    ghost var ts := us + [m];
    assert ts[|us|] == m;
    MatchEnc(j.p.v, us, m);
    EmittedSize(j.p.v, j.p.word, C0, ts, input[..ip + len], 0);
    op' := PutMatch(j.p.v, j.dst, j.d, op, len, off);
  }

  /** Everything written so far lies below this. */
  function Written(j: Job, lit: nat): nat {
    j.d + lit + lit / 16 + 15
  }

  /** Above that, the array still holds the input. */
  ghost predicate Clean(j: Job, input: seq<byte>, lit: nat)
    reads j.src
  {
    && |input| == j.n && j.s + j.n <= j.src.Length
    && forall i {:trigger j.src[i]} | j.s <= i < j.s + j.n && (j.src == j.dst ==> Written(j, lit) <= i) ::
         j.src[i] == input[i - j.s]
  }

  /** So it does from any position less than a match distance back. */
  lemma StillIntact(j: Job, input: seq<byte>, lo: nat, lit: nat)
    requires JobOK(j) && Clean(j, input, lit) && lo <= lit <= j.n && lit - lo <= M4_MAX_OFFSET
    ensures Intact(j, input, lo)
  {
  }

  lemma BelowWritten(j: Job, input: seq<byte>, ts: seq<Token>, lit: nat, slack: int, op: nat)
    requires lit <= |input| && Emitted(j.p.v, j.p.word, C0, ts, input[..lit], slack)
    requires slack <= RUN_SLACK && Holds(j, op, ts)
    ensures j.d <= op && op + 13 <= Written(j, lit)
  {
    hide LegalAll, ApplyAll, EncAll, Lean;
    EmittedSize(j.p.v, j.p.word, C0, ts, input[..lit], slack);
  }

  /** The group of a match that has been found: the literals, the match length, the match. */
  method PutGroup(j: Job, be: nat, op: nat, lit: nat, ip: nat, pos: nat, ghost ts: seq<Token>, ghost input: seq<byte>)
    returns (op': nat, len: nat)
    requires JobOK(j) && pos < ip < be - 20 && be <= j.n && ip - pos <= M4_MAX_OFFSET
    requires lit <= ip && (ip - lit < 4 ==> ts != []) && Clean(j, input, lit) && Intact(j, input, lit)
    requires Good(j.p, input, ts, lit) && Holds(j, op, ts)
    requires var len := Length(input, be, ip, pos);
             Good(j.p, input, AddLits(ts, input[lit..ip]) + [MatchToken(j.p.v, len, ip - pos)], ip + len)
    modifies j.dst
    ensures len == Length(input, be, ip, pos)
    ensures Holds(j, op', AddLits(ts, input[lit..ip]) + [MatchToken(j.p.v, len, ip - pos)])
    ensures OnlyWithin(j.dst, j.d, Written(j, ip + len)) && Clean(j, input, ip + len)
  {
    hide MatchLen, EncAll, LegalAll, ApplyAll, Lean, AddLits, Holds, Length, Intact;
    ghost var us := AddLits(ts, input[lit..ip]);
    LitsBefore(j.p, input, ts, lit, ip);
    op' := PutLits(j, op, lit, ip, ts, input);
    BelowWritten(j, input, us, ip, RUN_SLACK, op');
    assert Clean(j, input, ip);
    StillIntact(j, input, pos, ip);
    len := MatchLength(j, ip, pos, be, input);
    op' := PutToken(j, op', ip, len, ip - pos, us, input);
    BelowWritten(j, input, us + [MatchToken(j.p.v, len, ip - pos)], ip + len, 0, op');
  }

  /** do_compress: one block. What it returns is where the literals begin that are still pending. */
  method CompressBlock(j: Job, dict: array<nat>, bs: nat, be: nat, op: nat, lit: nat, ghost ts: seq<Token>,
                       ghost input: seq<byte>)
    returns (op': nat, lit': nat, ghost ts': seq<Token>)
    requires JobOK(j) && lit <= bs && bs + 20 < be <= j.n == |input| && be - bs <= BLOCK
    requires dict.Length == D_SIZE && dict[..] == EmptyDict()
    requires Good(j.p, input, ts, lit) && Holds(j, op, ts) && Clean(j, input, lit)
    modifies j.dst, dict
    ensures Block(j.p.v, input, bs, be, FirstScan(ts, lit, bs)) == Progress(ts', lit')
    ensures lit' <= be && Good(j.p, input, ts', lit') && Holds(j, op', ts')
    ensures OnlyWithin(j.dst, j.d, Written(j, lit')) && Clean(j, input, lit')
  {
    hide Good, Search, DictOK, Holds, Clean, NextScan, EmptyDict, Length, AddLits;
    var ip := FirstIp(bs, lit);
    var ii := bs;
    EmptyDictOK(bs, ip);
    op', lit', ts' := op, lit, ts;
    while true
      invariant ScanOK(input, bs, be, Scan(ts', lit', ii, ip, dict[..]))
      invariant GoodScan(j.p, input, Scan(ts', lit', ii, ip, dict[..]))
      invariant Block(j.p.v, input, bs, be, Scan(ts', lit', ii, ip, dict[..])) ==
                  Block(j.p.v, input, bs, be, FirstScan(ts, lit, bs))
      invariant Holds(j, op', ts') && Clean(j, input, lit')
      invariant OnlyWithin(j.dst, j.d, Written(j, lit'))
      decreases be - ip
    {
      ghost var x := Scan(ts', lit', ii, ip, dict[..]);
      StillIntact(j, input, if lit' < bs then lit' else bs, lit');
      var found, at, pos := FindMatch(j, dict, bs, be, ii, ip, input);
      if !found {
        return;
      }
      RoundIs(j.p.v, input, bs, be, x, at, pos, dict[..]);
      NextGood(j.p, input, bs, be, x);
      var len;
      op', len := PutGroup(j, be, op', lit', at, pos, ts', input);
      ts' := AddLits(ts', input[lit'..at]) + [MatchToken(j.p.v, len, at - pos)];
      ip := at + len;
      lit', ii := ip, ip;
    }
  }

  lemma RoundIs(v: Variant, s: seq<byte>, bs: nat, be: nat, x: Scan, ip: nat, pos: nat, dict: seq<nat>)
    requires ScanOK(s, bs, be, x) && Search(s, bs, be, x.ii, x.ip, x.dict) == Found(ip, pos, dict)
    ensures bs <= pos < ip < be - 20 && x.ip <= ip && ip - pos <= M4_MAX_OFFSET && x.lit <= ip
    ensures Look(s, bs, be, x) == Found(ip, pos, dict)
    ensures var len := Length(s, be, ip, pos);
            NextScan(v, s, bs, be, x) ==
              Scan(AddLits(x.ts, s[x.lit..ip]) + [MatchToken(v, len, ip - pos)], ip + len, ip + len, ip + len, dict)
  {
    hide Length, AddLits, DictOK, Search;
  }

  // ----- the whole input -----

  method PutHeader(j: Job, op: nat, t: nat) returns (op': nat)
    requires !j.p.v.LZO1Z? && 1 <= t && j.d <= op && (op == j.d || j.d + 2 <= op) && op <= j.dst.Length
    requires j.d + |Headed(j.p.v, j.dst[j.d..op], t)| <= j.dst.Length
    modifies j.dst
    ensures j.d <= op' == j.d + |old(Headed(j.p.v, j.dst[j.d..op], t))|
    ensures j.dst[j.d..op'] == old(Headed(j.p.v, j.dst[j.d..op], t))
    ensures OnlyWithin(j.dst, j.d, op')
  {
    hide LenBytes, OrLow;
    ghost var w := j.dst[j.d..op];
    if op == j.d && t <= 238 {
      j.dst[op] := 17 + t;
      op' := op + 1;
      assert j.dst[j.d..op'] == [17 + t];
    } else if t <= 3 {
      j.dst[op - 2] := OrLow(j.dst[op - 2], t);
      op' := op;
      assert j.dst[j.d..op] == w[op - j.d - 2 := j.dst[op - 2]];
    } else {
      op' := PutLen(j.dst, j.d, op, 0, t - 3, 15);
    }
  }

  lemma LastFits(j: Job, op: nat, lit: nat, ts: seq<Token>, input: seq<byte>)
    requires lit <= j.n == |input| && !j.p.v.LZO1Z? && Good(j.p, input, ts, lit) && Holds(j, op, ts)
    ensures var us := Store(ts, input[lit..]);
            ShapedAll(j.p.v, us) && |EncAll(j.p.v, us)| <= j.n + j.n / 16 + 2
    ensures op == j.d || j.d + 2 <= op
    ensures lit < j.n ==>
              EncAll(j.p.v, Store(ts, input[lit..])) == Headed(j.p.v, EncAll(j.p.v, ts), j.n - lit) + input[lit..]
  {
    hide LenBytes, MatchBytes, LegalAll, ApplyAll, EncAll, Shaped, Headed, Store;
    var lits := input[lit..];
    EmitEnd(j.p, input, ts, lit);
    EmittedSize(j.p.v, j.p.word, C0, Store(ts, lits), input, RUN_SLACK);
    EncSome(j.p.v, ts);
    if lit < j.n {
      StoreEnc(j.p.v, ts, lits);
    }
  }

  method CopyLast(j: Job, op: nat, lit: nat, t: nat, ghost input: seq<byte>)
    requires JobOK(j) && lit + t <= j.n && Intact(j, input, lit)
    requires j.d <= op && op + t <= j.dst.Length && (j.src == j.dst ==> op <= j.s + lit)
    modifies j.dst
    ensures j.dst[j.d..op + t] == old(j.dst[j.d..op]) + input[lit..lit + t]
    ensures OnlyWithin(j.dst, op, op + t)
  {
    CopyLits(j.width, j.dst, op, j.src, j.s + lit, t);
    forall i | op <= i < op + t ensures j.dst[i] == input[lit + i - op] {
      var i' := i - op + (j.s + lit);
      assert old(j.src[i']) == input[i' - j.s];
    }
    assert j.dst[op..op + t] == input[lit..lit + t];
    assert j.dst[j.d..op] == old(j.dst[j.d..op]);
    assert j.dst[j.d..op + t] == j.dst[j.d..op] + j.dst[op..op + t];
  }

  /** The literals behind the last match, with their header. */
  method PutLast(j: Job, op: nat, lit: nat, ghost ts: seq<Token>, ghost input: seq<byte>) returns (op': nat)
    requires JobOK(j) && lit <= j.n == |input|
    requires Good(j.p, input, ts, lit) && Holds(j, op, ts) && Clean(j, input, lit)
    modifies j.dst
    ensures Holds(j, op', Store(ts, input[lit..])) && op' <= j.d + j.n + j.n / 16 + 2
    ensures OnlyWithin(j.dst, j.d, op')
  {
    hide Good, ShapedAll, EncAll, Headed, Store, Clean;
    ghost var lits := input[lit..];
    LastFits(j, op, lit, ts, input);
    var t := j.n - lit;
    if t == 0 {
      assert lits == [];
      StoreNothing(ts);
      return op;
    }
    StillIntact(j, input, lit, lit);
    var q := PutHeader(j, op, t);
    assert Intact(j, input, lit);
    assert input[lit..lit + t] == lits;
    CopyLast(j, q, lit, t, input);
    op' := q + t;
  }

  /** memset of the hash table. */
  method ClearDict(dict: array<nat>)
    requires dict.Length == D_SIZE
    modifies dict
    ensures dict[..] == EmptyDict()
  {
    forall h | 0 <= h < D_SIZE {
      dict[h] := 0;
    }
  }

  method PutEof(j: Job, op: nat, ghost ts: seq<Token>) returns (op': nat)
    requires Holds(j, op, ts) && op + 3 <= j.dst.Length
    modifies j.dst
    ensures op' == op + 3 && j.dst[j.d..op'] == EncAll(j.p.v, ts) + EOF_MARK
    ensures OnlyWithin(j.dst, op, op')
  {
    ghost var w := j.dst[j.d..op];
    j.dst[op], j.dst[op + 1], j.dst[op + 2] := M4_MARKER + 1, 0, 0;
    op' := op + 3;
    assert j.dst[j.d..op] == w;
    assert j.dst[j.d..op'] == w + [j.dst[op], j.dst[op + 1], j.dst[op + 2]];
  }

  /** The block loop. */
  method CompressBlocks(j: Job, dict: array<nat>, ghost input: seq<byte>)
    returns (op: nat, lit: nat, ghost ts: seq<Token>)
    requires JobOK(j) && dict.Length == D_SIZE && input == j.src[j.s..j.s + j.n]
    modifies j.dst, dict
    ensures lit <= j.n && Blocks(j.p, input, 0, [], 0) == Progress(ts, lit)
    ensures Good(j.p, input, ts, lit) && Holds(j, op, ts) && Clean(j, input, lit)
    ensures OnlyWithin(j.dst, j.d, Written(j, j.n))
  {
    hide Good, Holds, Clean, Block, EncAll, EmptyDict, Stops;
    op, lit, ts := j.d, 0, [];
    var pos: nat := 0;
    Nothing(j, input);
    while j.n - pos > 20
      invariant lit <= pos <= j.n
      invariant Blocks(j.p, input, pos, ts, lit) == Blocks(j.p, input, 0, [], 0)
      invariant Good(j.p, input, ts, lit) && Holds(j, op, ts) && Clean(j, input, lit)
      invariant OnlyWithin(j.dst, j.d, Written(j, j.n))
    {
      var ll := BlockLen(j.n - pos);
      if Stops(j.p, pos, lit, ll) {
        break;
      }
      ClearDict(dict);
      op, lit, ts := CompressBlock(j, dict, pos, pos + ll, op, lit, ts, input);
      pos := pos + ll;
    }
  }

  /** lzo1x_1_compress and lzo1y_1_compress. `dict` is the work memory, with whatever is in it. */
  method CompressAll(j: Job, dict: array<nat>) returns (outLen: nat)
    requires JobOK(j) && dict.Length == D_SIZE
    modifies j.dst, dict
    ensures j.d + outLen <= j.dst.Length && outLen <= j.n + j.n / 16 + 5
    ensures j.dst[j.d..j.d + outLen] == Compressed(j.p, old(j.src[j.s..j.s + j.n]))
    ensures OnlyWithin(j.dst, j.d, j.d + Room(j.n))
  {
    hide Good, Clean, Blocks, EncAll, Store, LegalAll, ApplyAll;
    ghost var input := j.src[j.s..j.s + j.n];
    var op, lit;
    ghost var ts;
    op, lit, ts := CompressBlocks(j, dict, input);
    op := PutLast(j, op, lit, ts, input);
    op := PutEof(j, op, Store(ts, input[lit..]));
    outLen := op - j.d;
  }

  lemma Nothing(j: Job, input: seq<byte>)
    requires JobOK(j) && input == j.src[j.s..j.s + j.n]
    ensures Good(j.p, input, [], 0) && Holds(j, j.d, []) && Clean(j, input, 0)
  {
    EmitNothing(j.p.v, j.p.word, C0, 0);
  }
}
