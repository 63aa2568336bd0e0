/** The LZO1X-1 and LZO1Y-1 compressor as a function: which tokens it chooses for which input. */
module Greedy {
  import opened Bytes
  import opened Format
  import opened Expansion
  import opened Emission
  import opened Words

  const D_SIZE: nat := 0x4000
  const BLOCK: nat := 49152

  /** What the result depends on besides the input: `addr` is the address of the first input
      byte, which only the wrap-around test of the block loop looks at. */
  datatype Params = Params(v: Variant, word: nat, addr: nat)

  predicate ParamsOK(p: Params) {
    !p.v.LZO1Z? && 0x1_0000 <= p.word
  }

  /** UA_GET_LE32. */
  function LE32(s: seq<byte>, i: nat): nat
    requires i + 4 <= |s|
  {
    LE(s[i..i + 4])
  }

  lemma LE32Injective(s: seq<byte>, i: nat, j: nat)
    requires i + 4 <= |s| && j + 4 <= |s| && LE32(s, i) == LE32(s, j)
    ensures s[i..i + 4] == s[j..j + 4]
  {
    LEInjective(s[i..i + 4], s[j..j + 4]);
  }

  /** DINDEX: a 32-bit product, of which the top 14 bits are the index. */
  function DIndex(dv: nat): (h: nat)
    ensures h < D_SIZE
  {
    0x1824429d * dv % 0x1_0000_0000 / 0x4_0000
  }

  // ----- finding a match -----

  /** The hash table holds positions in the block that lie before `ip`. */
  ghost predicate DictOK(dict: seq<nat>, bs: nat, ip: nat) {
    |dict| == D_SIZE && forall h | 0 <= h < D_SIZE :: bs + dict[h] < ip
  }

  datatype Found = NotFound | Found(ip: nat, pos: nat, dict: seq<nat>)

  /** The search loop: skips ahead faster the longer nothing has matched. */
  ghost function Search(s: seq<byte>, bs: nat, be: nat, ii: nat, ip: nat, dict: seq<nat>): (r: Found)
    requires bs + 20 < be <= |s| && bs <= ii <= ip && DictOK(dict, bs, ip)
    ensures r.Found? ==> ip <= r.ip < be - 20 && bs <= r.pos < r.ip && DictOK(r.dict, bs, r.ip + 1)
    ensures r.Found? ==> s[r.pos..r.pos + 4] == s[r.ip..r.ip + 4]
    decreases be - ip
  {
    hide DIndex;
    if ip >= be - 20 then NotFound
    else
      var h := DIndex(LE32(s, ip));
      var pos := bs + dict[h];
      var dict' := dict[h := ip - bs];
      if LE32(s, ip) != LE32(s, pos) then
        Search(s, bs, be, ii, ip + 1 + (ip - ii) / 32, dict')
      else
        LE32Injective(s, pos, ip);
        Found(ip, pos, dict')
  }

  /** One round of the loop: the table at `ip`'s hash now holds `ip`. */
  lemma SearchRound(s: seq<byte>, bs: nat, be: nat, ii: nat, ip: nat, dict: seq<nat>)
    requires bs + 20 < be <= |s| && bs <= ii <= ip < be - 20 && DictOK(dict, bs, ip)
    ensures var h := DIndex(LE32(s, ip));
            var pos, dict' := bs + dict[h], dict[h := ip - bs];
            && bs <= pos < ip && DictOK(dict', bs, ip + 1 + (ip - ii) / 32)
            && Search(s, bs, be, ii, ip, dict)
               == if LE32(s, ip) == LE32(s, pos) then Found(ip, pos, dict')
                  else Search(s, bs, be, ii, ip + 1 + (ip - ii) / 32, dict')
  {
    hide DIndex, LE32;
  }

  lemma SearchEnds(s: seq<byte>, bs: nat, be: nat, ii: nat, ip: nat, dict: seq<nat>)
    requires bs + 20 < be <= |s| && bs <= ii <= ip && be - 20 <= ip && DictOK(dict, bs, ip)
    ensures Search(s, bs, be, ii, ip, dict) == NotFound
  {
  }

  /** How far the match at `pos` goes: to the first difference, or to where, after every eight
      bytes, `stop` is found to be reached. `k` of the eight have been compared. */
  ghost function MatchLen(s: seq<byte>, ip: nat, pos: nat, stop: nat, n: nat, k: nat): (r: nat)
    requires pos < ip < stop && stop + 20 <= |s| && k < 8 && k + 4 <= n
    requires n - k == 4 || ip + n - k < stop
    ensures n <= r && ip + r < stop + 12
    ensures Same(s, ip, ip - pos, n) ==> Same(s, ip, ip - pos, r)
    decreases stop + 12 - (ip + n)
  {
    if s[ip + n] != s[pos + n] then n
    else if k < 7 then MatchLen(s, ip, pos, stop, n + 1, k + 1)
    else if ip + n + 1 >= stop then n + 1
    else MatchLen(s, ip, pos, stop, n + 1, 0)
  }

  /** It ends nowhere else: at a difference, or after a whole number of eights where `stop` is reached. */
  lemma {:induction false} MatchLenEnds(s: seq<byte>, ip: nat, pos: nat, stop: nat, n: nat, k: nat)
    requires pos < ip < stop && stop + 20 <= |s| && k < 8 && k + 4 <= n
    requires n - k == 4 || ip + n - k < stop
    ensures var r := MatchLen(s, ip, pos, stop, n, k);
            s[ip + r] != s[pos + r] || (stop <= ip + r && (r - (n - k)) % 8 == 0)
    decreases stop + 12 - (ip + n)
  {
    hide Same;
    if s[ip + n] == s[pos + n] {
      if k < 7 {
        MatchLenEnds(s, ip, pos, stop, n + 1, k + 1);
      } else if ip + n + 1 < stop {
        MatchLenEnds(s, ip, pos, stop, n + 1, 0);
      }
    }
  }

  /** Eight equal bytes at once give the same length as one byte at a time. */
  lemma {:induction false} MatchLenSkip(s: seq<byte>, ip: nat, pos: nat, stop: nat, n: nat, j: nat)
    requires pos < ip < stop && stop + 20 <= |s| && 4 <= n && j <= 8
    requires n == 4 || ip + n < stop
    requires Same(s, ip + n, ip - pos, j)
    ensures j < 8 ==> MatchLen(s, ip, pos, stop, n, 0) == MatchLen(s, ip, pos, stop, n + j, j)
    ensures j < 8 && s[ip + n + j] != s[pos + n + j] ==> MatchLen(s, ip, pos, stop, n, 0) == n + j
    ensures j == 8 ==>
              MatchLen(s, ip, pos, stop, n, 0) ==
              if ip + n + 8 >= stop then n + 8 else MatchLen(s, ip, pos, stop, n + 8, 0)
    decreases j
  {
    if j > 0 {
      MatchLenSkip(s, ip, pos, stop, n, j - 1);
      assert s[ip + n + j - 1] == s[pos + n + j - 1];
    }
  }

  // ----- the tokens -----

  function KindFor(v: Variant, len: nat, off: nat): Kind {
    if len <= M2MaxLen(v) && off <= M2MaxOffset(v) then M2 else if off <= M3_MAX_OFFSET then M3 else M4
  }

  function MatchToken(v: Variant, len: nat, off: nat): Token {
    Match(KindFor(v, len, off), len, off, [])
  }

  const C0: Ctx := Ctx(Start, 0, [])

  /** What holds between two matches: `ts` encodes the input up to `lit`. */
  ghost predicate Good(p: Params, s: seq<byte>, ts: seq<Token>, lit: nat) {
    && ParamsOK(p) && lit <= |s| && |s| + 511 <= p.word
    && Emitted(p.v, p.word, C0, ts, s[..lit], 0) && Open(ts)
  }

  lemma MatchGain(v: Variant, c: Ctx, len: nat, off: nat)
    requires !v.LZO1Z? && 4 <= len && 1 <= off <= |c.out| && off <= M4_MAX_OFFSET
    ensures Shaped(v, MatchToken(v, len, off))
    ensures TokenCost(v, c, MatchToken(v, len, off)) <= -MATCH_GAIN
  {
    hide MatchBytes;
    MatchSize(v, KindFor(v, len, off), len, off);
  }

  lemma LitsBefore(p: Params, s: seq<byte>, ts: seq<Token>, lit: nat, ip: nat)
    requires Good(p, s, ts, lit) && lit <= ip <= |s| && (ip - lit < 4 ==> ts != [])
    ensures Emitted(p.v, p.word, C0, AddLits(ts, s[lit..ip]), s[..ip], RUN_SLACK)
    ensures !ApplyAll(C0, AddLits(ts, s[lit..ip])).st.Start?
  {
    hide LegalAll, ApplyAll, EncAll, Cost, AddLits;
    assert s[..lit] + s[lit..ip] == s[..ip];
    EmitLits(p.v, p.word, C0, ts, s[..lit], s[lit..ip], 0);
    LeanMore(p.v, C0, AddLits(ts, s[lit..ip]), if ip - lit < 4 then 0 else RUN_SLACK, RUN_SLACK);
  }

  /** Literals, then a match of four or more bytes: the match pays for the run's header. */
  lemma EmitGroup(p: Params, s: seq<byte>, ts: seq<Token>, lit: nat, ip: nat, len: nat, off: nat)
    requires Good(p, s, ts, lit) && lit <= ip && (ip - lit < 4 ==> ts != [])
    requires 4 <= len && 1 <= off <= M4_MAX_OFFSET && Same(s, ip, off, len)
    ensures Good(p, s, AddLits(ts, s[lit..ip]) + [MatchToken(p.v, len, off)], ip + len)
  {
    hide LegalAll, ApplyAll, EncAll, Cost, TokenCost, Lean, MatchBytes;
    LitsBefore(p, s, ts, lit, ip);
    var us, m := AddLits(ts, s[lit..ip]), MatchToken(p.v, len, off);
    var c := ApplyAll(C0, us);
    FitsInput(p.word, len - 2, 31);
    FitsInput(p.word, len - 2, 7);
    assert Legal(p.v, p.word, c, m);
    MatchGain(p.v, c, len, off);
    SameIsCopy(s, ip, off, len);
    EmitToken(p.v, p.word, C0, us, s[..ip], m, RUN_SLACK, 0);
    assert us != [];
  }

  lemma EmitEnd(p: Params, s: seq<byte>, ts: seq<Token>, lit: nat)
    requires Good(p, s, ts, lit)
    ensures Emitted(p.v, p.word, C0, Store(ts, s[lit..]), s, RUN_SLACK)
  {
    hide LegalAll, ApplyAll, EncAll, Cost, Store;
    var lits := s[lit..];
    assert s[..lit] + lits == s;
    if lits == [] {
      StoreNothing(ts);
      LeanMore(p.v, C0, ts, 0, RUN_SLACK);
    } else {
      EmitStore(p.v, p.word, C0, ts, s[..lit], lits, 0);
      LeanMore(p.v, C0, Store(ts, lits), if |lits| < 4 then 0 else RUN_SLACK, RUN_SLACK);
    }
  }

  // ----- the compressor -----

  /** Tokens, and where the literals that are still pending begin. */
  datatype Progress = Progress(ts: seq<Token>, lit: nat)

  /** The block loop's variables: what has been emitted, where the pending literals and the search
      began, where it stands, and the hash table. */
  datatype Scan = Scan(ts: seq<Token>, lit: nat, ii: nat, ip: nat, dict: seq<nat>)

  ghost predicate ScanOK(s: seq<byte>, bs: nat, be: nat, x: Scan) {
    && bs + 20 < be <= |s| && be - bs <= BLOCK && bs <= x.ii <= x.ip && x.lit <= x.ip
    && (x.lit <= bs || x.lit + 8 <= be)
    && DictOK(x.dict, bs, x.ip)
  }

  ghost function Look(s: seq<byte>, bs: nat, be: nat, x: Scan): Found
    requires ScanOK(s, bs, be, x)
  {
    Search(s, bs, be, x.ii, x.ip, x.dict)
  }

  ghost function Length(s: seq<byte>, be: nat, ip: nat, pos: nat): (r: nat)
    requires pos < ip < be - 20 && be <= |s|
    ensures 4 <= r && ip + r + 8 <= be
  {
    MatchLen(s[..be], ip, pos, be - 20, 4, 0)
  }

  /** One round of the block loop: the match found, its length, and the tokens with its group. */
  ghost function NextScan(v: Variant, s: seq<byte>, bs: nat, be: nat, x: Scan): (y: Scan)
    requires ScanOK(s, bs, be, x) && Look(s, bs, be, x).Found?
    ensures ScanOK(s, bs, be, y) && x.ip < y.ip && y.lit == y.ii == y.ip && y.ip + 8 <= be
  {
    var f := Look(s, bs, be, x);
    var len := Length(s, be, f.ip, f.pos);
    var q := f.ip + len;
    Scan(AddLits(x.ts, s[x.lit..f.ip]) + [MatchToken(v, len, f.ip - f.pos)], q, q, q, f.dict)
  }

  /** do_compress: one block `[bs, be)`. */
  ghost function Block(v: Variant, s: seq<byte>, bs: nat, be: nat, x: Scan): (r: Progress)
    requires ScanOK(s, bs, be, x)
    ensures r.lit <= be
    decreases be - x.ip
  {
    if Look(s, bs, be, x).NotFound? then Progress(x.ts, x.lit) else Block(v, s, bs, be, NextScan(v, s, bs, be, x))
  }

  /** Where the search of a block begins: at least five literals before its first match. */
  function FirstIp(bs: nat, lit: nat): (r: nat)
    requires lit <= bs
    ensures bs < r && 5 <= r - lit
  {
    var ip := bs + if bs - lit < 4 then 4 - (bs - lit) else 0;
    ip + 1 + (ip - bs) / 32
  }

  /** The block loop's test: no room to step over the block, or the address would wrap around. */
  predicate Stops(p: Params, pos: nat, lit: nat, ll: nat)
    requires lit <= pos && ParamsOK(p)
  {
    var end := (p.addr + pos + ll) % p.word;
    (end + (pos - lit + ll) / 32) % p.word <= end
  }

  ghost function EmptyDict(): (d: seq<nat>)
    ensures |d| == D_SIZE && forall h | 0 <= h < D_SIZE :: d[h] == 0
  {
    seq(D_SIZE, _ => 0)
  }

  function BlockLen(l: nat): nat {
    if l < BLOCK then l else BLOCK
  }

  ghost function FirstScan(ts: seq<Token>, lit: nat, pos: nat): Scan
    requires lit <= pos
  {
    Scan(ts, lit, pos, FirstIp(pos, lit), EmptyDict())
  }

  /** The block loop of lzo1x_1_compress, from `pos` with literals pending from `lit`. */
  ghost function Blocks(p: Params, s: seq<byte>, pos: nat, ts: seq<Token>, lit: nat): (r: Progress)
    requires lit <= pos <= |s| && ParamsOK(p)
    ensures r.lit <= |s|
    decreases |s| - pos
  {
    var l := |s| - pos;
    var ll := BlockLen(l);
    if l <= 20 || Stops(p, pos, lit, ll) then Progress(ts, lit)
    else
      var r := Block(p.v, s, pos, pos + ll, FirstScan(ts, lit, pos));
      Blocks(p, s, pos + ll, r.ts, r.lit)
  }

  /** The tokens lzo1x_1_compress chooses for `s`. */
  ghost function Tokens(p: Params, s: seq<byte>): seq<Token>
    requires ParamsOK(p)
  {
    var r := Blocks(p, s, 0, [], 0);
    Store(r.ts, s[r.lit..])
  }

  // ----- they encode the input -----

  lemma FoundSame(s: seq<byte>, be: nat, ip: nat, pos: nat)
    requires pos < ip && ip < be - 20 && be <= |s| && s[pos..pos + 4] == s[ip..ip + 4]
    ensures Same(s, ip, ip - pos, Length(s, be, ip, pos))
  {
    forall i | ip <= i < ip + 4 ensures s[i] == s[i - (ip - pos)] {
      assert s[i] == s[ip..ip + 4][i - ip] && s[i - (ip - pos)] == s[pos..pos + 4][i - ip];
    }
    assert Same(s[..be], ip, ip - pos, 4);
  }

  /** What holds at the top of the block loop. */
  ghost predicate GoodScan(p: Params, s: seq<byte>, x: Scan) {
    Good(p, s, x.ts, x.lit) && x.lit <= x.ip && (x.ip - x.lit < 4 ==> x.ts != [])
  }

  lemma NextGood(p: Params, s: seq<byte>, bs: nat, be: nat, x: Scan)
    requires ScanOK(s, bs, be, x) && GoodScan(p, s, x) && Look(s, bs, be, x).Found?
    ensures GoodScan(p, s, NextScan(p.v, s, bs, be, x))
  {
    hide Good, Search, MatchLen, DictOK, Same, AddLits;
    var f := Look(s, bs, be, x);
    FoundSame(s, be, f.ip, f.pos);
    EmitGroup(p, s, x.ts, x.lit, f.ip, Length(s, be, f.ip, f.pos), f.ip - f.pos);
  }

  lemma {:induction false} BlockGood(p: Params, s: seq<byte>, bs: nat, be: nat, x: Scan)
    requires ScanOK(s, bs, be, x) && GoodScan(p, s, x)
    ensures var r := Block(p.v, s, bs, be, x); Good(p, s, r.ts, r.lit)
    decreases be - x.ip
  {
    hide Good, Search, NextScan, DictOK, Look;
    if Look(s, bs, be, x).Found? {
      NextGood(p, s, bs, be, x);
      BlockGood(p, s, bs, be, NextScan(p.v, s, bs, be, x));
    }
  }

  lemma {:induction false} BlocksGood(p: Params, s: seq<byte>, pos: nat, ts: seq<Token>, lit: nat)
    requires lit <= pos <= |s| && Good(p, s, ts, lit)
    ensures var r := Blocks(p, s, pos, ts, lit); Good(p, s, r.ts, r.lit)
    decreases |s| - pos
  {
    hide Emitted, Block, DictOK, Stops;
    var ll := BlockLen(|s| - pos);
    if |s| - pos > 20 && !Stops(p, pos, lit, ll) {
      var x := FirstScan(ts, lit, pos);
      assert DictOK(x.dict, pos, x.ip) by {
        EmptyDictOK(pos, x.ip);
      }
      BlockGood(p, s, pos, pos + ll, x);
      var r := Block(p.v, s, pos, pos + ll, x);
      BlocksGood(p, s, pos + ll, r.ts, r.lit);
    }
  }

  lemma EmptyDictOK(bs: nat, ip: nat)
    requires bs < ip
    ensures DictOK(EmptyDict(), bs, ip)
  {
  }

  /** Of every input, the tokens are legal, mean the input, and are lean. */
  lemma TokensGood(p: Params, s: seq<byte>)
    requires ParamsOK(p) && |s| + 511 <= p.word
    ensures Emitted(p.v, p.word, C0, Tokens(p, s), s, RUN_SLACK)
  {
    hide Blocks;
    EmitNothing(p.v, p.word, C0, 0);
    assert s[..0] == [];
    BlocksGood(p, s, 0, [], 0);
    var r := Blocks(p, s, 0, [], 0);
    EmitEnd(p, s, r.ts, r.lit);
  }

  /** The compressed form of `s`. */
  ghost function Compressed(p: Params, s: seq<byte>): seq<byte>
    requires ParamsOK(p) && |s| + 511 <= p.word
  {
    TokensGood(p, s);
    EncAll(p.v, Tokens(p, s)) + EOF_MARK
  }

  lemma CompressedEncodes(p: Params, s: seq<byte>)
    requires ParamsOK(p) && |s| + 511 <= p.word
    ensures Encodes(p.v, p.word, C0, Compressed(p, s), s, RUN_SLACK)
  {
    TokensGood(p, s);
    assert EncodedBy(p.v, p.word, C0, Tokens(p, s), Compressed(p, s), s, RUN_SLACK);
  }
}
