/** LZO1 and LZO1A: the compressors for any contents of their dictionaries, and the decompressors.
    LZO1A folds a single literal into the three-byte match before it by clearing that match's length. */
module Lzo1 {
  import opened Bytes
  import Emission
  import opened Copying
  import opened Writing

  datatype Algorithm = LZO1 | LZO1A

  const R0MIN: nat := 32
  const R0FAST: nat := 280
  const MIN_MATCH: nat := 3
  const MIN_MATCH_LONG: nat := 9
  const MAX_MATCH_LONG: nat := 264
  const MAX_OFFSET: nat := 8192
  const DVAL_LEN: nat := 3

  // ----- tokens -----

  /** A run of literals, a match coded in two bytes, one coded in three, and LZO1A's match of three
      bytes with a literal behind it. */
  datatype Tok = Run(lits: seq<byte>) | Short(len: nat, off: nat) | Long(len: nat, off: nat) | Mux(off: nat, lit: byte)

  /** The output, and whether LZO1A's decompressor takes the next marker for a match in any case. */
  datatype Ctx = Ctx(out: seq<byte>, lit: bool)

  /** The long runs that have codes of their own: 280, and 512 to 32768. */
  function RunCode(n: nat): (k: nat)
    ensures k <= 8
  {
    if n == R0FAST then 0 else if n == 512 then 1 else if n == 1024 then 2 else if n == 2048 then 3
    else if n == 4096 then 4 else if n == 8192 then 5 else if n == 16384 then 6 else if n == 32768 then 7 else 8
  }

  predicate Sized(t: Tok) {
    match t
    case Run(lits) => 1 <= |lits| < R0FAST || RunCode(|lits|) < 8
    case Short(len, off) => MIN_MATCH <= len < MIN_MATCH_LONG && 1 <= off <= MAX_OFFSET
    case Long(len, off) => MIN_MATCH_LONG <= len <= MAX_MATCH_LONG && 1 <= off <= MAX_OFFSET
    case Mux(off, _) => 1 <= off <= MAX_OFFSET
  }

  function Len(t: Tok): nat {
    match t
    case Run(lits) => |lits|
    case Short(len, _) => len
    case Long(len, _) => len
    case Mux(_, _) => MIN_MATCH
  }

  /** Only behind a short run, or behind its own literal, is a multiplexed match read as one; there
      no run can follow. */
  predicate TokOK(a: Algorithm, c: Ctx, t: Tok) {
    && Sized(t) && (!t.Run? ==> t.off <= |c.out|)
    && (t.Mux? ==> a.LZO1A? && c.lit)
    && (t.Run? ==> a.LZO1? || !c.lit)
  }

  function Apply(c: Ctx, t: Tok): Ctx {
    match t
    case Run(lits) => Ctx(c.out + lits, |lits| < R0FAST)
    case Short(len, off) => if 1 <= off <= |c.out| then Ctx(Format.CopyMatch(c.out, off, len), false) else c
    case Long(len, off) => if 1 <= off <= |c.out| then Ctx(Format.CopyMatch(c.out, off, len), false) else c
    case Mux(off, lit) => if 1 <= off <= |c.out| then Ctx(Format.CopyMatch(c.out, off, MIN_MATCH) + [lit], true) else c
  }

  function RunHead(n: nat): seq<byte>
    requires 1 <= n < R0FAST || RunCode(n) < 8
  {
    if n < R0MIN then [n] else if n < R0FAST then [0, n - R0MIN] else [0, R0FAST - R0MIN + RunCode(n)]
  }

  function Enc(t: Tok): (r: seq<byte>)
    requires Sized(t)
    ensures |r| >= 2
  {
    match t
    case Run(lits) => RunHead(|lits|) + lits
    case Short(len, off) => [(len - 2) * 32 + (off - 1) % 32, (off - 1) / 32]
    case Long(len, off) => [7 * 32 + (off - 1) % 32, (off - 1) / 32, len - MIN_MATCH_LONG]
    case Mux(off, lit) => [(off - 1) % 32, (off - 1) / 32, lit]
  }

  ghost function ApplyAll(c: Ctx, ts: seq<Tok>): Ctx
    decreases |ts|
  {
    if ts == [] then c else ApplyAll(Apply(c, ts[0]), ts[1..])
  }

  ghost predicate Legal(a: Algorithm, c: Ctx, ts: seq<Tok>)
    decreases |ts|
  {
    ts == [] || (TokOK(a, c, ts[0]) && Legal(a, Apply(c, ts[0]), ts[1..]))
  }

  ghost predicate AllSized(ts: seq<Tok>) {
    ts == [] || (Sized(ts[0]) && AllSized(ts[1..]))
  }

  ghost function EncAll(ts: seq<Tok>): seq<byte>
    requires AllSized(ts)
  {
    if ts == [] then [] else Enc(ts[0]) + EncAll(ts[1..])
  }

  lemma {:induction false} Snoc(a: Algorithm, c: Ctx, ts: seq<Tok>, t: Tok)
    ensures Legal(a, c, ts + [t]) <==> Legal(a, c, ts) && TokOK(a, ApplyAll(c, ts), t)
    ensures ApplyAll(c, ts + [t]) == Apply(ApplyAll(c, ts), t)
    ensures AllSized(ts + [t]) <==> AllSized(ts) && Sized(t)
    ensures AllSized(ts + [t]) ==> EncAll(ts + [t]) == EncAll(ts) + Enc(t)
    decreases |ts|
  {
    hide Apply, Sized, TokOK, Enc;
    assert [t][1..] == [];
    if ts == [] {
      assert ts + [t] == [t];
      if Sized(t) {
        assert EncAll([t]) == Enc(t) + EncAll([]);
      }
    } else {
      Snoc(a, Apply(c, ts[0]), ts[1..], t);
      assert (ts + [t])[1..] == ts[1..] + [t];
    }
  }

  /** `bs` is the encoding of legal tokens that mean `s`. */
  ghost predicate Encoding(a: Algorithm, ts: seq<Tok>, bs: seq<byte>, s: seq<byte>) {
    AllSized(ts) && Legal(a, C0, ts) && bs == EncAll(ts) && ApplyAll(C0, ts).out == s
  }

  // ----- the decompressors -----

  lemma ByteAt(src: seq<byte>, ip: nat, bs: seq<byte>, i: nat)
    requires LiesAt(src, ip, bs) && i < |bs|
    ensures ip + |bs| <= |src| && src[ip + i] == bs[i]
  {
    assert src[ip..ip + |bs|][i] == src[ip + i];
  }

  function Doubled(k: nat): (n: nat)
    ensures n >= 256
  {
    if k == 0 then 256 else 2 * Doubled(k - 1)
  }

  lemma RunCodeBack(n: nat)
    requires 1 <= RunCode(n) < 8
    ensures n == Doubled(RunCode(n)) && n >= 512
  {
    assert Doubled(1) == 512 && Doubled(2) == 1024 && Doubled(3) == 2048 && Doubled(4) == 4096;
    assert Doubled(5) == 8192 && Doubled(6) == 16384 && Doubled(7) == 32768;
  }

  /** The number of literals that a run's marker announces. */
  method ReadRun(src: seq<byte>, ip: nat, ghost lits: seq<byte>) returns (n: nat, ip': nat)
    requires Sized(Run(lits)) && LiesAt(src, ip, Enc(Run(lits)))
    ensures n == |lits| && ip' == ip + |RunHead(|lits|)| && LiesAt(src, ip', lits)
  {
    LiesSplit(src, ip, RunHead(|lits|), lits);
    ByteAt(src, ip, RunHead(|lits|), 0);
    var t: nat := src[ip];
    ip' := ip + 1;
    if t != 0 {
      return t, ip';
    }
    ByteAt(src, ip, RunHead(|lits|), 1);
    t := src[ip'];
    ip' := ip' + 1;
    if t < R0FAST - R0MIN {
      return t + R0MIN, ip';
    }
    t := t - (R0FAST - R0MIN);
    if t == 0 {
      return R0FAST, ip';
    }
    RunCodeBack(|lits|);
    n := 512;
    ghost var k := 1;
    while t > 1
      invariant 1 <= t && 1 <= k && n == Doubled(k) && k + t == 1 + RunCode(|lits|)
    {
      n, t, k := 2 * n, t - 1, k + 1;
    }
  }

  /** A match's length and offset: the length is in the marker, in a third byte, or, when the marker's
      length bits are clear, three. */
  method ReadMatch(src: seq<byte>, ip: nat, ghost t: Tok) returns (len: nat, off: nat, ip': nat)
    requires Sized(t) && !t.Run? && LiesAt(src, ip, Enc(t))
    ensures len == Len(t) && off == t.off && ip' == ip + |Enc(t)| - (if t.Mux? then 1 else 0)
    ensures t.Mux? ==> ip' < |src| && src[ip'] == t.lit
  {
    ByteAt(src, ip, Enc(t), 0);
    ByteAt(src, ip, Enc(t), 1);
    var m: nat, h: nat := src[ip], src[ip + 1];
    off := 1 + m % 32 + h * 32;
    len := m / 32 + 2;
    ip' := ip + 2;
    if m < 32 {
      ByteAt(src, ip, Enc(t), 2);
      len := MIN_MATCH;
    } else if m >= 7 * 32 {
      ByteAt(src, ip, Enc(t), 2);
      len := MIN_MATCH_LONG + src[ip'];
      ip' := ip' + 1;
    }
  }

  /** A match and, when it is a multiplexed one, its literal. */
  method TakeMatch(src: seq<byte>, ip: nat, dst: array<byte>, op: nat, ghost t: Tok) returns (ip': nat, op': nat)
    requires Sized(t) && !t.Run? && LiesAt(src, ip, Enc(t)) && 1 <= t.off <= op
    requires op + Len(t) + (if t.Mux? then 1 else 0) <= dst.Length
    requires ip < |src| && (t.Mux? <==> src[ip] < 32)
    modifies dst
    ensures ip' == ip + |Enc(t)| && op <= op' <= dst.Length
    ensures var m := Format.CopyMatch(old(dst[..op]), t.off, Len(t)); dst[..op'] == if t.Mux? then m + [t.lit] else m
  {
    hide Enc, Sized, LiesAt, Format.CopyMatch;
    var len: nat, off: nat;
    len, off, ip' := ReadMatch(src, ip, t);
    CopyOut(dst, op, off, len);
    op' := op + len;
    if src[ip] < 32 {
      assert src[ip'..ip' + 1] == [src[ip']];
      AsWritten(dst, op');
      op' := PutBytes(dst, 0, op', src, ip', 1);
      AsWritten(dst, op');
      ip' := ip' + 1;
    }
  }

  /** What is left of the input encodes `left`, which leads to the whole output. */
  ghost predicate Left(a: Algorithm, src: seq<byte>, ip: nat, c: Ctx, left: seq<Tok>, all: seq<byte>) {
    && AllSized(left) && LiesAt(src, ip, EncAll(left)) && ip + |EncAll(left)| == |src|
    && Legal(a, c, left) && ApplyAll(c, left).out == all
  }

  lemma AllLeft(a: Algorithm, ts: seq<Tok>)
    requires Legal(a, Ctx([], false), ts) && AllSized(ts)
    ensures Left(a, EncAll(ts), 0, Ctx([], false), ts, ApplyAll(Ctx([], false), ts).out)
  {
    hide EncAll;
    assert EncAll(ts)[0..|EncAll(ts)|] == EncAll(ts);
  }

  lemma NothingLeft(a: Algorithm, src: seq<byte>, ip: nat, c: Ctx, left: seq<Tok>, all: seq<byte>)
    requires Left(a, src, ip, c, left, all)
    ensures ip <= |src| && (left == [] <==> ip == |src|) && (left == [] ==> c.out == all)
  {
    hide Enc;
  }

  lemma NextTok(a: Algorithm, src: seq<byte>, ip: nat, c: Ctx, left: seq<Tok>, all: seq<byte>)
    requires left != [] && Left(a, src, ip, c, left, all)
    ensures var t := left[0];
            && Sized(t) && LiesAt(src, ip, Enc(t)) && ip < |src|
            && Left(a, src, ip + |Enc(t)|, Apply(c, t), left[1..], all)
            && (t.Run? <==> src[ip] < 32 && !(a.LZO1A? && c.lit))
            && (!t.Run? ==> (t.Mux? <==> src[ip] < 32) && 1 <= t.off <= |c.out|)
            && |c.out| + Len(t) + (if t.Mux? then 1 else 0) <= |all|
            && |Apply(c, t).out| == |c.out| + Len(t) + (if t.Mux? then 1 else 0)
  {
    hide Enc, Sized, LiesAt;
    var t := left[0];
    LiesSplit(src, ip, Enc(t), EncAll(left[1..]));
    ByteAt(src, ip, Enc(t), 0);
    Marker(t);
    Grows(Apply(c, t), left[1..]);
  }

  /** One token on the output. */
  method TakeTok(a: Algorithm, src: seq<byte>, ip: nat, dst: array<byte>, op: nat, lit: bool, ghost t: Tok)
    returns (ip': nat, op': nat, lit': bool)
    requires Sized(t) && LiesAt(src, ip, Enc(t)) && ip < |src| && op + Len(t) + (if t.Mux? then 1 else 0) <= dst.Length
    requires t.Run? <==> src[ip] < 32 && !(a.LZO1A? && lit)
    requires !t.Run? ==> (t.Mux? <==> src[ip] < 32) && 1 <= t.off <= op
    modifies dst
    ensures ip' == ip + |Enc(t)| && op <= op' <= dst.Length
    ensures Ctx(dst[..op'], lit') == Apply(Ctx(old(dst[..op]), lit), t)
  {
    hide Sized, Enc, LiesAt, RunHead;
    if src[ip] < 32 && !(a.LZO1A? && lit) {
      RunSize(t);
      var n;
      n, ip' := ReadRun(src, ip, t.lits);
      RunAt(src, ip', t.lits);
      AsWritten(dst, op);
      op' := PutBytes(dst, 0, op, src, ip', n);
      AsWritten(dst, op');
      ip', lit' := ip' + n, n < R0FAST;
    } else {
      ip', op' := TakeMatch(src, ip, dst, op, t);
      lit' := src[ip] < 32;
    }
  }

  lemma RunSize(t: Tok)
    requires Sized(t) && t.Run?
    ensures |Enc(t)| == |RunHead(|t.lits|)| + |t.lits|
  {
  }

  lemma RunAt(src: seq<byte>, ip: nat, lits: seq<byte>)
    requires LiesAt(src, ip, lits)
    ensures ip + |lits| <= |src| && src[ip..ip + |lits|] == lits
  {
  }

  /** lzo1_decompress and lzo1a_decompress, which test nothing: the input is what a compressor made. */
  method Decompress(a: Algorithm, src: seq<byte>, dst: array<byte>, ghost ts: seq<Tok>)
    returns (consumed: bool, op: nat)
    requires Legal(a, Ctx([], false), ts) && AllSized(ts) && src == EncAll(ts)
    requires |ApplyAll(Ctx([], false), ts).out| <= dst.Length
    modifies dst
    ensures consumed && op <= dst.Length && dst[..op] == ApplyAll(Ctx([], false), ts).out
  {
    hide Apply, Enc, Left, Sized, TokOK, LiesAt, Len, EncAll, ApplyAll, Legal, AllSized;
    ghost var all := ApplyAll(Ctx([], false), ts).out;
    AllLeft(a, ts);
    var ip: nat := 0;
    var lit := false;
    op := 0;
    ghost var left := ts;
    assert dst[..0] == [];
    NothingLeft(a, src, ip, Ctx([], false), left, all);
    while ip < |src|
      invariant op <= dst.Length && ip <= |src| && Left(a, src, ip, Ctx(dst[..op], lit), left, all)
      decreases |left|
    {
      ghost var c := Ctx(dst[..op], lit);
      NothingLeft(a, src, ip, c, left, all);
      NextTok(a, src, ip, c, left, all);
      ip, op, lit := TakeTok(a, src, ip, dst, op, lit, left[0]);
      left := left[1..];
      NothingLeft(a, src, ip, Ctx(dst[..op], lit), left, all);
    }
    NothingLeft(a, src, ip, Ctx(dst[..op], lit), left, all);
    consumed := ip == |src|;
  }

  /** Runs and multiplexed matches share their markers. */
  lemma Marker(t: Tok)
    requires Sized(t)
    ensures Enc(t)[0] < 32 <==> t.Run? || t.Mux?
    ensures t.Run? ==> |Enc(t)| == |RunHead(|t.lits|)| + |t.lits|
    ensures !t.Run? ==> 1 <= t.off
  {
  }

  lemma {:induction false} Grows(c: Ctx, ts: seq<Tok>)
    ensures |c.out| <= |ApplyAll(c, ts).out|
    decreases |ts|
  {
    if ts != [] {
      Grows(Apply(c, ts[0]), ts[1..]);
    }
  }

  // ----- the compressors -----

  const C0: Ctx := Ctx([], false)

  // ----- which tokens -----

  predicate InReach(pos: nat, i: nat) {
    pos < i && i - pos <= 8192
  }

  /** How far back the match at `i` lies, or 0 when there is none: of the dictionary's two places the
      second is asked only when the first is in reach and its three bytes differ. */
  function Distance(input: seq<byte>, dict: nat -> (nat, nat), i: nat): nat
    requires i + 3 <= |input|
  {
    var (p, q) := dict(i);
    if !InReach(p, i) then 0
    else if input[p..p + 3] == input[i..i + 3] then i - p
    else if InReach(q, i) && input[q..q + 3] == input[i..i + 3] then i - q
    else 0
  }

  /** No match, at a place where one is looked for. */
  ghost predicate Refused(input: seq<byte>, dict: nat -> (nat, nat), i: nat) {
    1 <= i && i + 12 < |input| ==> Distance(input, dict, i) == 0
  }

  /** It goes on to the first difference, 264 bytes, or three bytes before the end. */
  ghost predicate Longest(input: seq<byte>, i: nat, len: nat, off: nat) {
    && 1 <= off <= i && 3 <= len <= 264 && i + len + 3 <= |input| && Emission.Same(input, i, off, len)
    && (input[i + len] != input[i + len - off] || len == 264 || i + len + 3 == |input|)
  }

  /** Literals and the match behind them. */
  datatype Group = Group(lits: seq<byte>, len: nat, off: nat)

  /** No literal stands where there is a match, and the match is the first there is, in full. */
  ghost predicate GroupRule(input: seq<byte>, dict: nat -> (nat, nat), from: nat, g: Group) {
    var i := from + |g.lits|;
    && 1 <= i && i + 12 < |input| && g.lits == input[from..i]
    && (forall j | from <= j < i :: Refused(input, dict, j))
    && g.off == Distance(input, dict, i) && Longest(input, i, g.len, g.off)
  }

  function Covered(gs: seq<Group>): nat {
    if gs == [] then 0 else Covered(gs[..|gs| - 1]) + |gs[|gs| - 1].lits| + gs[|gs| - 1].len
  }

  ghost predicate Chosen(input: seq<byte>, dict: nat -> (nat, nat), gs: seq<Group>) {
    gs == [] || (Chosen(input, dict, gs[..|gs| - 1])
                 && GroupRule(input, dict, Covered(gs[..|gs| - 1]), gs[|gs| - 1]))
  }

  /** The groups take in all there is to be found: behind them are literals only. */
  ghost predicate AllChosen(input: seq<byte>, dict: nat -> (nat, nat), gs: seq<Group>) {
    && Chosen(input, dict, gs) && Covered(gs) <= |input|
    && forall j | Covered(gs) <= j < |input| :: Refused(input, dict, j)
  }

  /** The longest run of at most `n` literals that has a code. */
  function Piece(n: nat): (r: nat)
    ensures r <= n && (n > 0 ==> r > 0)
  {
    if n >= 32768 then 32768 else if n >= 16384 then 16384 else if n >= 8192 then 8192 else if n >= 4096 then 4096
    else if n >= 2048 then 2048 else if n >= 1024 then 1024 else if n >= 512 then 512 else if n >= 280 then 280 else n
  }

  /** The longest pieces first. */
  function Cuts(lits: seq<byte>): seq<Tok>
    decreases |lits|
  {
    if lits == [] then [] else [Run(lits[..Piece(|lits|)])] + Cuts(lits[Piece(|lits|)..])
  }

  /** Behind a match of three bytes that follows a run of less than 280 literals, or a folded one. */
  predicate Foldable(ts: seq<Tok>) {
    var n := |ts|;
    && 2 <= n && ts[n - 1].Short? && ts[n - 1].len == 3
    && (ts[n - 2].Mux? || (ts[n - 2].Run? && |ts[n - 2].lits| < 280 && (n == 2 || !ts[n - 3].Run?)))
  }

  /** A single literal is folded into the match before it where that can be. */
  function WithLits(a: Algorithm, ts: seq<Tok>, lits: seq<byte>): seq<Tok> {
    if a.LZO1A? && |lits| == 1 && Foldable(ts) then ts[..|ts| - 1] + [Mux(ts[|ts| - 1].off, lits[0])]
    else ts + Cuts(lits)
  }

  function MatchTok(len: nat, off: nat): Tok {
    if len < 9 then Short(len, off) else Long(len, off)
  }

  function Tokens(a: Algorithm, gs: seq<Group>): seq<Tok> {
    if gs == [] then []
    else
      var g := gs[|gs| - 1];
      WithLits(a, Tokens(a, gs[..|gs| - 1]), g.lits) + [MatchTok(g.len, g.off)]
  }

  /** What a compressor makes of its input, given what the dictionary holds. */
  ghost predicate Compressed(a: Algorithm, input: seq<byte>, dict: nat -> (nat, nat), bs: seq<byte>) {
    exists gs :: AllChosen(input, dict, gs) && Encoding(a, Tokens(a, gs) + Cuts(input[Covered(gs)..]), bs, input)
  }

  lemma GroupsSnoc(a: Algorithm, input: seq<byte>, dict: nat -> (nat, nat), gs: seq<Group>, g: Group)
    requires Chosen(input, dict, gs) && GroupRule(input, dict, Covered(gs), g)
    ensures Chosen(input, dict, gs + [g]) && Covered(gs + [g]) == Covered(gs) + |g.lits| + g.len
    ensures Tokens(a, gs + [g]) == WithLits(a, Tokens(a, gs), g.lits) + [MatchTok(g.len, g.off)]
  {
    hide GroupRule, WithLits;
    assert (gs + [g])[..|gs|] == gs;
  }

  lemma FirstMatch(input: seq<byte>, dict: nat -> (nat, nat), from: nat, g: Group, h: Group)
    requires GroupRule(input, dict, from, g) && GroupRule(input, dict, from, h)
    ensures |h.lits| <= |g.lits|
  {
    hide Distance, Emission.Same, Refused;
    NotRefused(input, dict, from, g);
  }

  lemma NotRefused(input: seq<byte>, dict: nat -> (nat, nat), from: nat, g: Group)
    requires GroupRule(input, dict, from, g)
    ensures !Refused(input, dict, from + |g.lits|)
  {
    hide Distance, Emission.Same;
  }

  /** At one place there is one group. */
  lemma OneGroup(input: seq<byte>, dict: nat -> (nat, nat), from: nat, g: Group, h: Group)
    requires GroupRule(input, dict, from, g) && GroupRule(input, dict, from, h)
    ensures g == h
  {
    hide Distance, Longest, Refused;
    FirstMatch(input, dict, from, g, h);
    FirstMatch(input, dict, from, h, g);
    NoLonger(input, from + |g.lits|, g.len, h.len, g.off);
    NoLonger(input, from + |g.lits|, h.len, g.len, g.off);
  }

  lemma NoLonger(input: seq<byte>, i: nat, len: nat, len': nat, off: nat)
    requires Longest(input, i, len, off) && Longest(input, i, len', off)
    ensures len' <= len
  {
    hide Emission.Same;
    if len < len' {
      SameThere(input, i, off, len', len);
    }
  }

  lemma SameThere(input: seq<byte>, i: nat, off: nat, len: nat, k: nat)
    requires Emission.Same(input, i, off, len) && k < len && 1 <= off <= i
    ensures i + k < |input| && input[i + k] == input[i + k - off]
  {
  }

  lemma {:induction false} SameGroups(input: seq<byte>, dict: nat -> (nat, nat), gs: seq<Group>, hs: seq<Group>, k: nat)
    requires Chosen(input, dict, gs) && AllChosen(input, dict, hs) && k <= |gs|
    ensures k <= |hs| && hs[..k] == gs[..k]
    decreases k
  {
    hide GroupRule, Refused;
    if k > 0 {
      SameGroups(input, dict, gs, hs, k - 1);
      ChosenAt(input, dict, gs, k - 1);
      if k - 1 == |hs| {
        assert hs[..k - 1] == hs;
        NoGroup(input, dict, Covered(hs), gs[k - 1]);
        assert false;
      }
      ChosenAt(input, dict, hs, k - 1);
      OneGroup(input, dict, Covered(gs[..k - 1]), gs[k - 1], hs[k - 1]);
      assert hs[..k] == hs[..k - 1] + [hs[k - 1]] && gs[..k] == gs[..k - 1] + [gs[k - 1]];
    }
  }

  lemma NoGroup(input: seq<byte>, dict: nat -> (nat, nat), from: nat, g: Group)
    requires forall j | from <= j < |input| :: Refused(input, dict, j)
    ensures !GroupRule(input, dict, from, g)
  {
    hide Distance, Refused, Longest;
    if GroupRule(input, dict, from, g) {
      NotRefused(input, dict, from, g);
    }
  }

  lemma {:induction false} ChosenAt(input: seq<byte>, dict: nat -> (nat, nat), gs: seq<Group>, k: nat)
    requires Chosen(input, dict, gs) && k < |gs|
    ensures GroupRule(input, dict, Covered(gs[..k]), gs[k])
    decreases |gs|
  {
    hide GroupRule;
    if k < |gs| - 1 {
      ChosenAt(input, dict, gs[..|gs| - 1], k);
      assert gs[..|gs| - 1][..k] == gs[..k];
    }
  }

  /** The rules leave no choice: input and dictionary determine every byte of the output. */
  lemma CompressedUnique(a: Algorithm, input: seq<byte>, dict: nat -> (nat, nat), b: seq<byte>, c: seq<byte>)
    requires Compressed(a, input, dict, b) && Compressed(a, input, dict, c)
    ensures b == c
  {
    hide Chosen, Tokens, Cuts, EncAll, AllSized, Legal, ApplyAll;
    var gs :| AllChosen(input, dict, gs) && Encoding(a, Tokens(a, gs) + Cuts(input[Covered(gs)..]), b, input);
    var hs :| AllChosen(input, dict, hs) && Encoding(a, Tokens(a, hs) + Cuts(input[Covered(hs)..]), c, input);
    SameGroups(input, dict, gs, hs, |gs|);
    SameGroups(input, dict, hs, gs, |hs|);
    assert gs == hs[..|gs|] == hs;
  }

  lemma CutOne(lits: seq<byte>)
    requires 1 <= |lits| < 280
    ensures Cuts(lits) == [Run(lits)]
  {
    assert lits[..Piece(|lits|)] == lits && lits[Piece(|lits|)..] == [];
  }

  lemma PieceAt(k: nat, n: nat)
    requires 1 <= k <= 7 && Doubled(k) <= n && (k == 7 || n < 2 * Doubled(k))
    ensures Piece(n) == Doubled(k)
  {
    assert Doubled(1) == 512 && Doubled(2) == 1024 && Doubled(3) == 2048 && Doubled(4) == 4096;
    assert Doubled(5) == 8192 && Doubled(6) == 16384 && Doubled(7) == 32768;
  }

  /** A last piece of less than 280 may stand behind others: then it is no short run of its own. */
  lemma {:induction false} CutsEnd(ts: seq<Tok>, lits: seq<byte>)
    requires lits != [] && (ts == [] || !ts[|ts| - 1].Run?)
    ensures var us := ts + Cuts(lits); var n := |us|;
            && us != [] && us[n - 1].Run?
            && (|us[n - 1].lits| < 280 && (n == 1 || !us[n - 2].Run?) <==> |lits| < 280)
  {
    CutsRuns(lits);
    if |lits| < 280 {
      CutOne(lits);
    }
  }

  lemma {:induction false} CutsRuns(lits: seq<byte>)
    requires lits != []
    ensures var us := Cuts(lits);
            us != [] && (forall i | 0 <= i < |us| :: us[i].Run?) && us[0].lits == lits[..Piece(|lits|)]
    decreases |lits|
  {
    var rest := lits[Piece(|lits|)..];
    if rest != [] {
      CutsRuns(rest);
    }
  }

  class Coder {
    const a: Algorithm
    const input: seq<byte>
    /** The two places where the dictionary may say that the bytes at a position occur before. */
    const dict: nat -> (nat, nat)
    const buf: array<byte>
    var op: nat
    ghost var ts: seq<Tok>
    ghost var gs: seq<Group>

    constructor (a: Algorithm, input: seq<byte>, dict: nat -> (nat, nat), buf: array<byte>)
      ensures this.a == a && this.input == input && this.dict == dict && this.buf == buf
      ensures op == 0 && Emitted(0) && ts == [] && gs == []
    {
      this.a, this.input, this.dict, this.buf := a, input, dict, buf;
      op, ts, gs := 0, [], [];
    }

    /** A sixteenth and a byte are room for any output. */
    ghost predicate Roomy() {
      |input| + |input| / 16 + 1 <= buf.Length
    }

    /** The output's size, where the short run at its end may owe fifteen sixteenths of its header. */
    ghost predicate Paid(at: nat, owed: nat)
      reads `op
    {
      16 * op <= 17 * at + owed
    }

    /** The input up to `at` has been emitted. */
    ghost predicate Emitted(at: nat)
      reads `op, `ts, buf
    {
      && at <= |input| && op <= buf.Length && AllSized(ts) && buf[..op] == EncAll(ts)
      && Legal(a, C0, ts) && ApplyAll(C0, ts).out == input[..at]
    }

    lemma AtStart()
      requires ts == []
      ensures !State()
    {
    }

    ghost function State(): bool
      reads this
    {
      ApplyAll(C0, ts).lit
    }

    lemma Extended(t: Tok, at: nat)
      requires Emitted(at) && TokOK(a, ApplyAll(C0, ts), t) && at + Len(t) <= |input|
      requires Apply(ApplyAll(C0, ts), t).out == input[..at + Len(t)]
      ensures Sized(t) && Legal(a, C0, ts + [t]) && AllSized(ts + [t]) && EncAll(ts + [t]) == buf[..op] + Enc(t)
      ensures ApplyAll(C0, ts + [t]) == Apply(ApplyAll(C0, ts), t)
    {
      hide Apply, Enc, Sized;
      Snoc(a, C0, ts, t);
    }

    /** What a token takes: a header of two bytes pays off after 32 literals, and a match has fifteen
        sixteenths to spare. */
    lemma Cost(t: Tok)
      requires Sized(t) && !t.Mux?
      ensures |Enc(t)| == (if t.Run? then |RunHead(|t.lits|)| + |t.lits| else if t.Short? then 2 else 3)
      ensures if t.Run? then 16 * |Enc(t)| <= 17 * Len(t) + (if Len(t) < R0MIN then 15 else 0)
              else 16 * |Enc(t)| + 15 <= 17 * Len(t)
    {
    }

    method Put(b: byte)
      requires op < buf.Length
      modifies `op, buf
      ensures op == old(op) + 1 && buf[..op] == old(buf[..op]) + [b]
    {
      AsWritten(buf, op);
      op := PutByte(buf, 0, op, b);
      AsWritten(buf, op);
    }

    method PutPair(b0: byte, b1: byte)
      requires op + 2 <= buf.Length
      modifies `op, buf
      ensures op == old(op) + 2 && buf[..op] == old(buf[..op]) + [b0, b1]
    {
      AsWritten(buf, op);
      op := PutTwo(buf, 0, op, b0, b1);
      AsWritten(buf, op);
    }

    method PutHead(n: nat)
      requires (1 <= n < R0FAST || RunCode(n) < 8) && op + |RunHead(n)| <= buf.Length
      modifies `op, buf
      ensures op == old(op) + |RunHead(n)| && buf[..op] == old(buf[..op]) + RunHead(n)
    {
      if n < R0MIN {
        Put(n);
      } else if n < R0FAST {
        PutPair(0, n - R0MIN);
      } else {
        PutPair(0, R0FAST - R0MIN + RunCode(n));
      }
    }

    /** A marker, and the literals. */
    method PutRun(ii: nat, n: nat)
      requires Emitted(ii) && ii + n <= |input| && (1 <= n < R0FAST || RunCode(n) < 8) && (a.LZO1A? ==> !State())
      requires Roomy() && Paid(ii, 0)
      modifies `op, buf, `ts
      ensures Emitted(ii + n) && State() == (n < R0FAST)
      ensures ts == old(ts) + [Run(input[ii..ii + n])] && Paid(ii + n, if n < R0MIN then 15 else 0)
    {
      hide EncAll, Legal, ApplyAll, AllSized, RunHead, RunCode, Enc;
      ghost var lits := input[ii..ii + n];
      ghost var t := Run(lits);
      ghost var was := buf[..op];
      assert input[..ii] + lits == input[..ii + n];
      Extended(t, ii);
      Cost(t);
      RunBytes(was, lits);
      PutHead(n);
      AsWritten(buf, op);
      op := PutBytes(buf, 0, op, input, ii, n);
      AsWritten(buf, op);
      ts := ts + [t];
    }

    lemma RunBytes(was: seq<byte>, lits: seq<byte>)
      requires Sized(Run(lits))
      ensures was + RunHead(|lits|) + lits == was + Enc(Run(lits))
    {
    }

    /** As many pieces of one size as there are, of the `n` literals before `end`. */
    method PutPieces(end: nat, n: nat, size: nat) returns (n': nat)
      requires n <= end && Emitted(end - n) && end <= |input| && R0FAST <= size
      requires RunCode(size) < 8 && (a.LZO1A? ==> !State())
      requires forall m {:trigger Piece(m)} | size <= m <= n :: Piece(m) == size
      requires Roomy() && Paid(end - n, 0)
      modifies `op, buf, `ts
      ensures n' <= n && n' < size && Emitted(end - n') && Paid(end - n', 0) && (a.LZO1A? ==> !State())
      ensures ts + Cuts(input[end - n'..end]) == old(ts) + Cuts(input[end - n..end])
    {
      hide Emitted, RunCode, Cuts, Piece;
      n' := n;
      while n' >= size
        invariant n' <= n && Emitted(end - n') && Paid(end - n', 0) && (a.LZO1A? ==> !State())
        invariant ts + Cuts(input[end - n'..end]) == old(ts) + Cuts(input[end - n..end])
      {
        CutOff(ts, input[end - n'..end]);
        assert input[end - n'..end][..size] == input[end - n'..end - n' + size];
        assert input[end - n'..end][size..] == input[end - n' + size..end];
        PutRun(end - n', size);
        n' := n' - size;
      }
    }

    lemma CutOff(us: seq<Tok>, lits: seq<byte>)
      requires lits != []
      ensures us + Cuts(lits) == us + [Run(lits[..Piece(|lits|)])] + Cuts(lits[Piece(|lits|)..])
    {
    }

    /** store_run: the longest pieces first. */
    method StoreRun(ii: nat, len: nat)
      requires Emitted(ii) && 1 <= len && ii + len <= |input| && (a.LZO1A? ==> !State())
      requires Roomy() && Paid(ii, 0)
      modifies `op, buf, `ts
      ensures Emitted(ii + len) && ts == old(ts) + Cuts(input[ii..ii + len]) && Paid(ii + len, 15)
    {
      hide Emitted, RunCode, Cuts, Piece, State, Roomy;
      Codes();
      var n: nat := len;
      if n >= 512 {
        var bits: nat, size: nat := 7, 32768;
        while bits > 0
          invariant bits <= 7 && size == (if bits == 0 then 256 else Doubled(bits)) && n <= len
          invariant bits == 7 || n < 2 * size
          invariant Emitted(ii + len - n) && Paid(ii + len - n, 0) && (a.LZO1A? ==> !State())
          invariant ts + Cuts(input[ii + len - n..ii + len]) == old(ts) + Cuts(input[ii..ii + len])
          decreases bits
        {
          PiecesOf(bits, n);
          n := PutPieces(ii + len, n, size);
          bits, size := bits - 1, size / 2;
        }
      }
      FastPieces();
      n := PutPieces(ii + len, n, R0FAST);
      if n > 0 {
        CutOne(input[ii + len - n..ii + len]);
        PutRun(ii + len - n, n);
      } else {
        assert input[ii + len - n..ii + len] == [];
        NoCuts();
      }
    }

    lemma PiecesOf(k: nat, n: nat)
      requires 1 <= k <= 7 && (k == 7 || n < 2 * Doubled(k))
      ensures forall m {:trigger Piece(m)} | Doubled(k) <= m <= n :: Piece(m) == Doubled(k)
    {
      forall m {:trigger Piece(m)} | Doubled(k) <= m <= n ensures Piece(m) == Doubled(k) {
        PieceAt(k, m);
      }
    }

    lemma FastPieces()
      ensures forall m {:trigger Piece(m)} | R0FAST <= m < 512 :: Piece(m) == R0FAST
    {
    }

    lemma NoCuts()
      ensures Cuts([]) == []
    {
    }

    // ----- matches -----

    predicate Near(pos: nat, ip: nat) {
      pos < ip && ip - pos <= MAX_OFFSET
    }

    predicate Three(pos: nat, ip: nat)
      requires pos < ip && ip + 3 <= |input|
    {
      input[pos] == input[ip] && input[pos + 1] == input[ip + 1] && input[pos + 2] == input[ip + 2]
    }

    /** The first of the dictionary's two places where three bytes agree; the second is not asked
        when the first is out of range. */
    method Probe(ip: nat) returns (found: bool, pos: nat)
      requires ip + 3 <= |input|
      ensures found ==> pos < ip && ip - pos <= MAX_OFFSET && Emission.Same(input, ip, ip - pos, 3)
      ensures Distance(input, dict, ip) == if found then ip - pos else 0
    {
      hide Emission.Same;
      found := false;
      pos := dict(ip).0;
      ThreeBytes(dict(ip).0, ip);
      ThreeBytes(dict(ip).1, ip);
      if !Near(pos, ip) {
        return;
      }
      if !Three(pos, ip) {
        pos := dict(ip).1;
        if !Near(pos, ip) || !Three(pos, ip) {
          return;
        }
      }
      found := true;
      ThreeSame(pos, ip);
    }

    lemma ThreeBytes(pos: nat, ip: nat)
      requires ip + 3 <= |input|
      ensures pos < ip ==> (Three(pos, ip) <==> input[pos..pos + 3] == input[ip..ip + 3])
    {
      if pos < ip {
        assert input[pos..pos + 3] == [input[pos], input[pos + 1], input[pos + 2]];
        assert input[ip..ip + 3] == [input[ip], input[ip + 1], input[ip + 2]];
      }
    }

    lemma ThreeSame(pos: nat, ip: nat)
      requires pos < ip && ip + 3 <= |input| && Three(pos, ip)
      ensures Emission.Same(input, ip, ip - pos, 3)
    {
      forall i {:trigger input[i]} | ip <= i < ip + 3 ensures input[i] == input[i - (ip - pos)] {
        assert i == ip || i == ip + 1 || i == ip + 2;
      }
    }

    /** How long the match is: six more comparisons decide whether it is a long one, which goes on to
        the first difference or the greatest length. */
    method MatchLength(ip: nat, pos: nat) returns (len: nat)
      requires pos < ip && ip + MIN_MATCH_LONG + DVAL_LEN <= |input| && Emission.Same(input, ip, ip - pos, 3)
      ensures 3 <= len <= MAX_MATCH_LONG && ip + len + DVAL_LEN <= |input| && Emission.Same(input, ip, ip - pos, len)
      ensures input[ip + len] != input[pos + len] || len == MAX_MATCH_LONG || ip + len + DVAL_LEN == |input|
    {
      hide Emission.Same;
      len := MIN_MATCH;
      while len < MIN_MATCH_LONG && input[pos + len] == input[ip + len]
        invariant 3 <= len <= MIN_MATCH_LONG && Emission.Same(input, ip, ip - pos, len)
      {
        Emission.SameNext(input, ip, ip - pos, len);
        len := len + 1;
      }
      if len == MIN_MATCH_LONG {
        var room := |input| - DVAL_LEN - ip;
        var end := if room <= MAX_MATCH_LONG then room else MAX_MATCH_LONG;
        while len < end && input[pos + len] == input[ip + len]
          invariant MIN_MATCH_LONG <= len <= end && Emission.Same(input, ip, ip - pos, len)
        {
          Emission.SameNext(input, ip, ip - pos, len);
          len := len + 1;
        }
      }
    }

    lemma MatchMeans(c: Ctx, ip: nat, len: nat, off: nat)
      requires 3 <= len <= MAX_MATCH_LONG && 1 <= off <= MAX_OFFSET
      requires Emission.Same(input, ip, off, len) && c.out == input[..ip]
      ensures var t := if len < MIN_MATCH_LONG then Short(len, off) else Long(len, off);
              ip + len <= |input| && TokOK(a, c, t) && Apply(c, t) == Ctx(input[..ip + len], false)
    {
      Emission.SameIsCopy(input, ip, off, len);
    }

    method PutMatch(ip: nat, len: nat, off: nat)
      requires Emitted(ip) && 3 <= len <= MAX_MATCH_LONG && 1 <= off <= MAX_OFFSET && Emission.Same(input, ip, off, len)
      requires Roomy() && Paid(ip, 15)
      modifies `op, buf, `ts
      ensures Emitted(ip + len) && !State() && Paid(ip + len, 0)
      ensures ts == old(ts) + [if len < MIN_MATCH_LONG then Short(len, off) else Long(len, off)]
    {
      hide EncAll, Legal, AllSized, ApplyAll, Apply, TokOK, Emission.Same;
      ghost var t := if len < MIN_MATCH_LONG then Short(len, off) else Long(len, off);
      MatchMeans(ApplyAll(C0, ts), ip, len, off);
      Extended(t, ip);
      Cost(t);
      var o := off - 1;
      if len < MIN_MATCH_LONG {
        PutPair((len - 2) * 32 + o % 32, o / 32);
      } else {
        PutPair(7 * 32 + o % 32, o / 32);
        Put(len - MIN_MATCH_LONG);
      }
      ts := ts + [t];
    }

    // ----- LZO1A's multiplexing -----

    /** The last match is one of three bytes at `r1`, and a marker below 32 in its place would be read
        as a match too. */
    ghost predicate Muxable(r1: nat)
      reads `ts
    {
      && ts != [] && ts[|ts| - 1].Short? && ts[|ts| - 1].len == 3 && r1 <= |input|
      && ApplyAll(C0, ts[..|ts| - 1]) == Ctx(input[..r1], true)
    }

    /** Clears the length bits of the last match and puts the literal behind it. */
    method Multiplex(r1: nat)
      requires a.LZO1A? && Muxable(r1) && Emitted(r1 + 3) && r1 + 4 <= |input|
      requires Roomy() && Paid(r1 + 3, 0)
      modifies `op, buf, `ts
      ensures Paid(r1 + 4, 0) && Emitted(r1 + 4) && State()
      ensures ts == old(ts)[..|old(ts)| - 1] + [Mux(old(ts)[|old(ts)| - 1].off, input[r1 + 3])]
    {
      hide EncAll, Legal, AllSized, ApplyAll, Apply, Enc, Sized, TokOK;
      ghost var us, m := ts[..|ts| - 1], ts[|ts| - 1];
      ghost var x := Mux(m.off, input[r1 + 3]);
      assert ts == us + [m];
      Snoc(a, C0, us, m);
      MuxMeans(ApplyAll(C0, us), m, x, r1);
      Snoc(a, C0, us, x);
      MuxBytes(m, x);
      ghost var was := buf[..op];
      assert was == EncAll(us) + Enc(m);
      buf[op - 2] := buf[op - 2] % 32;
      assert buf[..op] == EncAll(us) + [Enc(m)[0] % 32, Enc(m)[1]];
      Put(input[r1 + 3]);
      assert buf[..op] == EncAll(us) + Enc(x);
      ts := us + [x];
    }

    lemma MuxMeans(c: Ctx, m: Tok, x: Tok, r1: nat)
      requires m.Short? && m.len == 3 && r1 + 4 <= |input| && x == Mux(m.off, input[r1 + 3]) && a.LZO1A?
      requires c == Ctx(input[..r1], true) && TokOK(a, c, m) && Apply(c, m).out == input[..r1 + 3]
      ensures TokOK(a, c, x) && Apply(c, x) == Ctx(input[..r1 + 4], true) && Sized(x) && Sized(m)
    {
      assert input[..r1 + 3] + [input[r1 + 3]] == input[..r1 + 4];
    }

    lemma MuxBytes(m: Tok, x: Tok)
      requires Sized(m) && Sized(x) && m.Short? && m.len == 3 && x.Mux? && x.off == m.off
      ensures |Enc(m)| == 2 && Enc(x) == [Enc(m)[0] % 32, Enc(m)[1], x.lit]
    {
    }

    // ----- the main loop -----

    /** `r1` is where the last match began, or several matches ago, or there has been none. When only
        three bytes have come since, that match can be multiplexed, and in no other case. */
    ghost predicate Marked(r1: int, ii: nat, ipEnd: int)
      reads `ts
    {
      a.LZO1A? ==>
        && (r1 == ipEnd || (0 <= r1 && r1 + 3 <= ii && (ii - r1 == 3 ==> Muxable(r1))))
        && (ii - r1 == 3 <==> Foldable(ts))
    }

    /** The input up to `at` is in groups. */
    ghost predicate Grouped(at: nat)
      reads `ts, `gs
    {
      Chosen(input, dict, gs) && Covered(gs) == at && ts == Tokens(a, gs)
    }

    ghost predicate AfterMatch()
      reads `ts
    {
      ts == [] || ts[|ts| - 1].Short? || ts[|ts| - 1].Long?
    }

    /** The literals before a match at `ip`. A single one that comes four bytes behind the last match to
        follow literals is folded into it, and no other. */
    method PutLits(ii: nat, ip: nat, r1: int, ghost ipEnd: int) returns (r1': int)
      requires Emitted(ii) && ii <= ip < ipEnd <= |input| && (a.LZO1A? ==> !State()) && Marked(r1, ii, ipEnd)
      requires Roomy() && Paid(ii, 0) && AfterMatch()
      modifies `op, buf, `ts
      ensures Emitted(ip) && Paid(ip, 15) && (a.LZO1A? && r1' == ip ==> State())
      ensures r1' != ip ==> r1' == r1 && (a.LZO1A? && r1 != ipEnd ==> r1 + 3 <= ip)
      ensures ts == WithLits(a, old(ts), input[ii..ip])
      ensures a.LZO1A? ==> (r1' == ip <==> ShortRun())
    {
      hide Emitted, Muxable, RunCode, Cuts;
      var t := ip - ii;
      r1' := r1;
      if t == 0 {
        NoCuts();
        return;
      }
      CutsEnd(ts, input[ii..ip]);
      if a.LZO1A? {
        if ip - r1 == MIN_MATCH + 1 {
          Multiplex(r1);
          r1' := ip;
        } else if t < R0FAST {
          CutOne(input[ii..ip]);
          PutRun(ii, t);
          r1' := ip;
        } else {
          StoreRun(ii, t);
        }
      } else {
        StoreRun(ii, t);
      }
    }

    /** A match that comes now can have a literal folded into it. */
    ghost predicate ShortRun()
      reads `ts
    {
      var n := |ts|;
      && 1 <= n
      && (ts[n - 1].Mux? || (ts[n - 1].Run? && |ts[n - 1].lits| < 280 && (n == 1 || !ts[n - 2].Run?)))
    }

    /** One match with the literals before it. */
    method PutGroup(ii: nat, ip: nat, pos: nat, r1: int, ipEnd: int) returns (next: nat, r1': int)
      requires Emitted(ii) && ii <= ip < ipEnd && ipEnd + MIN_MATCH_LONG + DVAL_LEN == |input|
      requires pos < ip && ip - pos <= MAX_OFFSET && AfterMatch()
      requires Emission.Same(input, ip, ip - pos, 3) && (a.LZO1A? ==> !State()) && Marked(r1, ii, ipEnd)
      requires Roomy() && Paid(ii, 0)
      modifies `op, buf, `ts
      ensures ip < next <= |input| - DVAL_LEN && Paid(next, 0) && Emitted(next) && !State() && AfterMatch()
      ensures next < ipEnd ==> Marked(r1', next, ipEnd)
      ensures Longest(input, ip, next - ip, ip - pos)
      ensures ts == WithLits(a, old(ts), input[ii..ip]) + [MatchTok(next - ip, ip - pos)]
    {
      hide Emission.Same, Legal, AllSized, EncAll, ApplyAll, WithLits;
      r1' := PutLits(ii, ip, r1, ipEnd);
      var len := MatchLength(ip, pos);
      ghost var us := ts;
      ghost var c := ApplyAll(C0, ts);
      PutMatch(ip, len, ip - pos);
      next := ip + len;
      assert ts[..|ts| - 1] == us;
      assert c == Ctx(input[..ip], c.lit);
    }

    /** do_compress. */
    method CompressBlock()
      requires Emitted(0) && ts == [] && gs == [] && |input| > MIN_MATCH_LONG + DVAL_LEN + 1 && Roomy() && Paid(0, 0)
      modifies `op, buf, `ts, `gs
      ensures Emitted(|input|) && Paid(|input|, 15)
      ensures AllChosen(input, dict, gs) && ts == Tokens(a, gs) + Cuts(input[Covered(gs)..])
    {
      hide Emitted, Emission.Same, Muxable, Distance, Tokens, Chosen, Covered, WithLits, Cuts, Longest;
      var ipEnd := |input| - DVAL_LEN - MIN_MATCH_LONG;
      var ip: nat, ii: nat, r1: int := 1, 0, ipEnd;
      NoGroups();
      assert !State();
      while ip < ipEnd
        invariant ii <= ip <= |input| - DVAL_LEN && Emitted(ii) && Paid(ii, 0) && (a.LZO1A? ==> !State())
        invariant 1 <= ip && Grouped(ii) && AfterMatch() && forall j | ii <= j < ip :: Refused(input, dict, j)
        invariant ip < ipEnd ==> Marked(r1, ii, ipEnd)
        decreases ipEnd - ip
      {
        var found, pos := Probe(ip);
        if !found {
          ip := ip + 1;
        } else {
          ghost var g := Group(input[ii..ip], 0, ip - pos);
          ghost var at := ip;
          ip, r1 := PutGroup(ii, ip, pos, r1, ipEnd);
          g := g.(len := ip - at);
          assert GroupRule(input, dict, ii, g);
          GroupsSnoc(a, input, dict, gs, g);
          gs := gs + [g];
          ii := ip;
        }
      }
      StoreRun(ii, |input| - ii);
      assert input[ii..|input|] == input[ii..];
    }

    lemma NoGroups()
      ensures Chosen(input, dict, []) && Covered([]) == 0 && Tokens(a, []) == []
    {
    }

    lemma Codes()
      ensures RunCode(R0FAST) == 0
      ensures forall k {:trigger Doubled(k)} | 1 <= k <= 7 ::
                RunCode(Doubled(k)) == k && Doubled(k) >= 512 && Doubled(k - 1) * 2 == Doubled(k)
      ensures Doubled(7) == 32768 && Doubled(0) == 256
    {
      assert Doubled(1) == 512 && Doubled(2) == 1024 && Doubled(3) == 2048 && Doubled(4) == 4096;
      assert Doubled(5) == 8192 && Doubled(6) == 16384 && Doubled(7) == 32768;
    }
  }

  /** lzo1_compress and lzo1a_compress. */
  method Compress(a: Algorithm, input: seq<byte>, dict: nat -> (nat, nat), dst: array<byte>) returns (outLen: nat)
    requires |input| + |input| / 16 + 1 <= dst.Length
    modifies dst
    ensures outLen <= dst.Length && outLen <= |input| + |input| / 16 + 1
    ensures Compressed(a, input, dict, dst[..outLen])
  {
    hide AllSized, Legal, EncAll, ApplyAll, Chosen, Tokens, Cuts;
    var c := new Coder(a, input, dict, dst);
    c.NoGroups();
    if |input| == 0 {
      assert input == input[..0] == input[0..];
      c.NoCuts();
    } else if |input| <= MIN_MATCH_LONG + DVAL_LEN + 1 {
      c.AtStart();
      c.StoreRun(0, |input|);
      assert input[0..|input|] == input[0..];
    } else {
      c.CompressBlock();
    }
    assert input[..|input|] == input;
    outLen := c.op;
    assert AllChosen(input, dict, c.gs);
    assert c.ts == Tokens(a, c.gs) + Cuts(input[Covered(c.gs)..]);
    assert Encoding(a, Tokens(a, c.gs) + Cuts(input[Covered(c.gs)..]), dst[..outLen], input);
  }

  /** Every input is what its compressed form decompresses to, whatever the dictionary holds. */
  method RoundTrip(a: Algorithm, input: seq<byte>, dict: nat -> (nat, nat), dst: array<byte>)
    returns (consumed: bool, op: nat)
    requires |input| <= dst.Length
    modifies dst
    ensures consumed && op <= dst.Length && dst[..op] == input
  {
    hide AllSized, Legal, EncAll, ApplyAll;
    var mid := new byte[|input| + |input| / 16 + 1];
    var n := Compress(a, input, dict, mid);
    ghost var gs :| AllChosen(input, dict, gs)
      && Encoding(a, Tokens(a, gs) + Cuts(input[Covered(gs)..]), mid[..n], input);
    ghost var ts := Tokens(a, gs) + Cuts(input[Covered(gs)..]);
    consumed, op := Decompress(a, mid[..n], dst, ts);
  }
}
