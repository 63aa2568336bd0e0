/** What LZO1X-1 and LZO1Y-1 must find, whatever the tables and the search look like: said of the tokens
    and of the bytes alone. */
module Coverage {
  import opened Bytes
  import opened Format
  import opened Expansion
  import opened Emission
  import opened Greedy

  // ----- the block loop -----

  /** The addresses up to a 32nd behind the input do not wrap around. */
  predicate NoWrap(p: Params, n: nat) {
    p.addr + n + n / 32 < p.word
  }

  /** Then a block is left out exactly when, with the literals before it, it has less than 32 bytes. */
  lemma StopsExactly(p: Params, n: nat, pos: nat, lit: nat, ll: nat)
    requires ParamsOK(p) && NoWrap(p, n) && lit <= pos && pos + ll <= n
    ensures Stops(p, pos, lit, ll) <==> pos - lit + ll < 32
  {
    var t := pos - lit + ll;
    ThirtySecond(t, n);
    var end := p.addr + pos + ll;
    Below(end, p.word);
    Below(end + t / 32, p.word);
  }

  lemma ThirtySecond(t: nat, n: nat)
    requires t <= n
    ensures t / 32 <= n / 32 && (t / 32 == 0 <==> t < 32)
  {
  }

  lemma Below(x: nat, m: nat)
    requires x < m
    ensures x % m == x
  {
  }

  // ----- one byte over and over -----

  predicate OneByte(s: seq<byte>) {
    forall i | 0 <= i < |s| :: s[i] == s[0]
  }

  lemma LitsSize(v: Variant, ts: seq<Token>, lits: seq<byte>)
    requires ShapedAll(v, ts) && Open(ts) && |lits| <= 200 && (|lits| < 4 ==> ts != [])
    ensures ShapedAll(v, AddLits(ts, lits)) && |EncAll(v, AddLits(ts, lits))| <= |EncAll(v, ts)| + |lits| + 2
  {
    hide EncAll, ShapedAll, Patch;
    if lits != [] {
      if |lits| < 4 {
        PatchEnc(v, ts, lits);
      } else {
        RunEnc(v, ts, lits);
        RunHeader(|lits|);
      }
    }
  }

  lemma RunHeader(n: nat)
    requires 4 <= n <= 200
    ensures |LenBytes(0, n - 3, 15)| <= 2
  {
  }

  lemma StoreSize(v: Variant, ts: seq<Token>, lits: seq<byte>)
    requires ShapedAll(v, ts) && Open(ts) && |lits| <= 200
    ensures ShapedAll(v, Store(ts, lits)) && |EncAll(v, Store(ts, lits))| <= |EncAll(v, ts)| + |lits| + 2
  {
    hide EncAll, ShapedAll, Store, Headed, LenBytes;
    if lits == [] {
      StoreNothing(ts);
    } else {
      EncSome(v, ts);
      StoreEnc(v, ts, lits);
      HeadedCases(v, EncAll(v, ts), |lits|);
      if |lits| >= 4 {
        RunHeader(|lits|);
      }
      if EncAll(v, ts) == [] {
        EmptyTokens(v, ts);
      }
    }
  }

  lemma EmptyTokens(v: Variant, ts: seq<Token>)
    requires ShapedAll(v, ts) && Open(ts) && EncAll(v, ts) == []
    ensures ts == []
  {
    EncSome(v, ts);
  }

  /** A match of near bytes takes four bytes and one for each 255. */
  lemma NearSize(v: Variant, ts: seq<Token>, len: nat, off: nat)
    requires ShapedAll(v, ts) && 4 <= len && 1 <= off <= 5
    ensures var us := ts + [MatchToken(v, len, off)];
            ShapedAll(v, us) && |EncAll(v, us)| <= |EncAll(v, ts)| + 4 + len / 255
  {
    hide EncAll, ShapedAll, M2Bytes, OffBytes;
    MatchEnc(v, ts, MatchToken(v, len, off));
    if len > 33 {
      ExtSize(len - 33);
    }
  }

  lemma FirstLook(s: seq<byte>, bs: nat, be: nat, ts: seq<Token>, lit: nat)
    requires OneByte(s) && lit <= bs && bs + 20 < be <= |s| && be - bs <= BLOCK && FirstIp(bs, lit) < be - 20
    ensures ScanOK(s, bs, be, FirstScan(ts, lit, bs))
    ensures var f := Look(s, bs, be, FirstScan(ts, lit, bs)); f.Found? && f.ip == FirstIp(bs, lit) && f.pos == bs
  {
    hide DIndex, Search, LE32;
    var x := FirstScan(ts, lit, bs);
    EmptyDictOK(bs, x.ip);
    SearchRound(s, bs, be, bs, x.ip, x.dict);
    SameBytes(s, bs, x.ip);
  }

  lemma SameBytes(s: seq<byte>, i: nat, j: nat)
    requires OneByte(s) && i + 4 <= |s| && j + 4 <= |s|
    ensures LE32(s, i) == LE32(s, j)
  {
    assert s[i..i + 4] == s[j..j + 4];
  }

  /** In a block of one byte the first search is at once successful, and the match goes on to the end of
      the block but for its margin. */
  lemma FirstFound(p: Params, s: seq<byte>, bs: nat, be: nat, ts: seq<Token>, lit: nat)
    requires ParamsOK(p) && OneByte(s) && lit <= bs && bs + 20 < be <= |s| && be - bs <= BLOCK
    requires FirstIp(bs, lit) < be - 20
    ensures ScanOK(s, bs, be, FirstScan(ts, lit, bs))
    ensures var q := Block(p.v, s, bs, be, FirstScan(ts, lit, bs)).lit;
            var ip := FirstIp(bs, lit);
            && be - 20 <= q <= be - 8 && ip + 4 <= q && q == ip + Length(s, be, ip, bs)
            && Block(p.v, s, bs, be, FirstScan(ts, lit, bs)).ts ==
               AddLits(ts, s[lit..ip]) + [MatchToken(p.v, q - ip, ip - bs)]
  {
    hide DIndex, AddLits, MatchLen, Search, LE32, DictOK, EmptyDict;
    FirstLook(s, bs, be, ts, lit);
    var x := FirstScan(ts, lit, bs);
    var y := NextScan(p.v, s, bs, be, x);
    MatchLenEnds(s[..be], x.ip, bs, be - 20, 4, 0);
    SearchEnds(s, bs, be, y.ii, y.ip, y.dict);
  }

  lemma GroupSize(v: Variant, ts: seq<Token>, lits: seq<byte>, len: nat, off: nat)
    requires ShapedAll(v, ts) && Open(ts) && |lits| <= 200 && (|lits| < 4 ==> ts != [])
    requires 4 <= len && 1 <= off <= 5
    ensures var us := AddLits(ts, lits) + [MatchToken(v, len, off)];
            ShapedAll(v, us) && |EncAll(v, us)| <= |EncAll(v, ts)| + |lits| + 6 + len / 255
  {
    hide EncAll, ShapedAll, AddLits;
    LitsSize(v, ts, lits);
    NearSize(v, AddLits(ts, lits), len, off);
  }

  lemma BlockSize(p: Params, s: seq<byte>, bs: nat, be: nat, ts: seq<Token>, lit: nat)
    requires ParamsOK(p) && OneByte(s) && Good(p, s, ts, lit)
    requires lit <= bs && (if bs == 0 then ts == [] else 8 <= bs - lit <= 20)
    requires bs + 20 < be <= |s| && be - bs <= BLOCK && FirstIp(bs, lit) < be - 20
    ensures var x := FirstScan(ts, lit, bs);
            && ScanOK(s, bs, be, x)
            && var r := Block(p.v, s, bs, be, x);
               && Good(p, s, r.ts, r.lit) && 8 <= be - r.lit <= 20
               && |EncAll(p.v, r.ts)| <= |EncAll(p.v, ts)| + 27 + (be - bs) / 255
  {
    hide EncAll, Block, Good, ScanOK, AddLits;
    FirstFound(p, s, bs, be, ts, lit);
    var x := FirstScan(ts, lit, bs);
    var r := Block(p.v, s, bs, be, x);
    ScanGood(p, s, bs, be, ts, lit);
    BlockGood(p, s, bs, be, x);
    GoodShape(p, s, ts, lit);
    GroupSize(p.v, ts, s[lit..x.ip], r.lit - x.ip, x.ip - bs);
  }

  lemma ScanGood(p: Params, s: seq<byte>, bs: nat, be: nat, ts: seq<Token>, lit: nat)
    requires Good(p, s, ts, lit) && lit <= bs
    ensures GoodScan(p, s, FirstScan(ts, lit, bs))
  {
  }

  /** What is left behind the last block, and what has been written till then. */
  lemma {:induction false} BlocksSize(p: Params, s: seq<byte>, pos: nat, ts: seq<Token>, lit: nat)
    requires ParamsOK(p) && OneByte(s) && NoWrap(p, |s|) && Good(p, s, ts, lit)
    requires lit <= pos <= |s| && (if pos == 0 then ts == [] else 8 <= pos - lit <= 20)
    ensures var r := Blocks(p, s, pos, ts, lit);
            && Good(p, s, r.ts, r.lit) && |s| - r.lit <= 45
            && |EncAll(p.v, r.ts)| <= |EncAll(p.v, ts)| + (|s| - pos) / 100 + (if |s| - r.lit <= 20 then 32 else 0)
            && (pos == |s| ==> r == Progress(ts, lit))
    decreases |s| - pos
  {
    hide EncAll, Block, Good, ScanOK, Stops;
    var l := |s| - pos;
    var ll := BlockLen(l);
    StopsExactly(p, |s|, pos, lit, ll);
    if l > 20 && !Stops(p, pos, lit, ll) {
      if FirstIp(pos, lit) < pos + ll - 20 {
        BlockSize(p, s, pos, pos + ll, ts, lit);
        Hundredth(ll, l);
        var r := Block(p.v, s, pos, pos + ll, FirstScan(ts, lit, pos));
        BlocksSize(p, s, pos + ll, r.ts, r.lit);
      } else {
        ShortBlock(p, s, pos, pos + ll, ts, lit);
      }
    }
  }

  lemma GoodShape(p: Params, s: seq<byte>, ts: seq<Token>, lit: nat)
    requires Good(p, s, ts, lit)
    ensures ShapedAll(p.v, ts) && Open(ts)
  {
  }

  lemma Hundredth(ll: nat, l: nat)
    requires ll == l < BLOCK || ll == BLOCK <= l
    ensures ll < BLOCK ==> 27 + ll / 255 <= l / 100 + 32
    ensures ll == BLOCK ==> 27 + ll / 255 + (l - ll) / 100 <= l / 100
  {
  }

  lemma ShortBlock(p: Params, s: seq<byte>, bs: nat, be: nat, ts: seq<Token>, lit: nat)
    requires lit <= bs && bs + 20 < be <= |s| && be - bs <= BLOCK && be - 20 <= FirstIp(bs, lit)
    ensures ScanOK(s, bs, be, FirstScan(ts, lit, bs))
    ensures Block(p.v, s, bs, be, FirstScan(ts, lit, bs)) == Progress(ts, lit)
  {
    var x := FirstScan(ts, lit, bs);
    EmptyDictOK(bs, x.ip);
    SearchEnds(s, bs, be, x.ii, x.ip, x.dict);
  }

  /** One byte over and over, however often, is compressed to a hundredth and 60 bytes. */
  lemma RepeatedByte(p: Params, s: seq<byte>)
    requires ParamsOK(p) && |s| + 511 <= p.word && OneByte(s) && NoWrap(p, |s|)
    ensures |Compressed(p, s)| <= |s| / 100 + 60
  {
    hide EncAll, Blocks, Store;
    EmitNothing(p.v, p.word, C0, 0);
    NoTokens(p.v);
    assert s[..0] == [];
    BlocksSize(p, s, 0, [], 0);
    var r := Blocks(p, s, 0, [], 0);
    GoodShape(p, s, r.ts, r.lit);
    StoreSize(p.v, r.ts, s[r.lit..]);
  }

  lemma NoTokens(v: Variant)
    ensures ShapedAll(v, []) && EncAll(v, []) == []
  {
  }

  // ----- repeats behind a match -----

  /** What a match covers. */
  datatype Span = Span(start: nat, end: nat)

  ghost function Matches(ts: seq<Token>): seq<Span> {
    if ts == [] then []
    else
      var us, t := ts[..|ts| - 1], ts[|ts| - 1];
      var at := |ApplyAll(C0, us).out|;
      if t.Match? then Matches(us) + [Span(at, at + t.len)] else Matches(us)
  }

  ghost predicate Covered(ms: seq<Span>, i: nat) {
    exists k :: 0 <= k < |ms| && ms[k].start <= i < ms[k].end
  }

  ghost predicate EndsAt(ms: seq<Span>, i: nat) {
    exists k :: 0 <= k < |ms| && ms[k].end == i
  }

  /** The four bytes at `j` come again at `i`, and between them are none with the same hash. */
  ghost predicate ComesAgain(s: seq<byte>, j: nat, i: nat) {
    && j < i && i + 4 <= |s| && s[j..j + 4] == s[i..i + 4]
    && forall k {:trigger LE32(s, k)} | j < k < i :: DIndex(LE32(s, k)) != DIndex(LE32(s, i))
  }

  /** `i` is looked at when the search goes on from `ip`: by single steps at first, and by one byte more for every
      32 bytes since `ii`. */
  ghost predicate Probed(ii: nat, ip: nat, i: nat)
    requires ii <= ip
    decreases i - ip
  {
    i == ip || (ip < i && Probed(ii, ip + 1 + (ip - ii) / 32, i))
  }

  /** The search does not pass over such a place. */
  lemma {:induction false} SearchStops(s: seq<byte>, bs: nat, be: nat, ii: nat, ip: nat, dict: seq<nat>, j: nat, i: nat)
    requires bs + 20 < be <= |s| && bs <= ii <= ip && i < be - 20 && DictOK(dict, bs, ip)
    requires ComesAgain(s, j, i) && bs <= j && Probed(ii, ip, i)
    requires if j < ip then bs + dict[DIndex(LE32(s, i))] == j else Probed(ii, ip, j)
    ensures var r := Search(s, bs, be, ii, ip, dict); r.Found? && r.ip <= i
    decreases i - ip
  {
    hide DIndex, Search, LE32;
    SearchRound(s, bs, be, ii, ip, dict);
    SameLoad(s, j, i);
    var dict' := dict[DIndex(LE32(s, ip)) := ip - bs];
    if ip < i && LE32(s, ip) != LE32(s, bs + dict[DIndex(LE32(s, ip))]) {
      assert j < ip ==> DIndex(LE32(s, ip)) != DIndex(LE32(s, i));
      SearchStops(s, bs, be, ii, ip + 1 + (ip - ii) / 32, dict', j, i);
    }
  }

  /** And it stops nowhere else than at places it looks at. */
  lemma {:induction false} SearchProbed(s: seq<byte>, bs: nat, be: nat, ii: nat, ip: nat, dict: seq<nat>)
    requires bs + 20 < be <= |s| && bs <= ii <= ip && DictOK(dict, bs, ip)
    ensures var r := Search(s, bs, be, ii, ip, dict); r.Found? ==> Probed(ii, ip, r.ip)
    decreases be - ip
  {
    hide DIndex, Search, LE32;
    if ip < be - 20 {
      SearchRound(s, bs, be, ii, ip, dict);
      var dict' := dict[DIndex(LE32(s, ip)) := ip - bs];
      if LE32(s, ip) != LE32(s, bs + dict[DIndex(LE32(s, ip))]) {
        SearchProbed(s, bs, be, ii, ip + 1 + (ip - ii) / 32, dict');
      }
    } else {
      SearchEnds(s, bs, be, ii, ip, dict);
    }
  }

  lemma SameLoad(s: seq<byte>, j: nat, i: nat)
    requires ComesAgain(s, j, i)
    ensures LE32(s, j) == LE32(s, i)
  {
  }

  lemma MatchesSnoc(ts: seq<Token>, t: Token)
    ensures var at := |ApplyAll(C0, ts).out|;
            Matches(ts + [t]) == if t.Match? then Matches(ts) + [Span(at, at + t.len)] else Matches(ts)
  {
    hide ApplyAll;
    assert (ts + [t])[..|ts|] == ts && (ts + [t])[|ts|] == t;
  }

  /** Literals change nothing. */
  lemma MatchesStore(ts: seq<Token>, lits: seq<byte>)
    ensures Matches(AddLits(ts, lits)) == Matches(ts) == Matches(Store(ts, lits))
  {
    hide ApplyAll;
    if |lits| >= 4 {
      MatchesSnoc(ts, Run(lits));
    }
    if lits != [] && ts != [] && ts[|ts| - 1].Match? {
      assert Patch(ts, lits)[..|ts| - 1] == ts[..|ts| - 1];
    }
    if ts == [] && lits != [] {
      MatchesSnoc([], First(lits));
      assert [] + [First(lits)] == [First(lits)];
    }
  }

  /** One round adds its match. */
  lemma NextMatches(p: Params, s: seq<byte>, bs: nat, be: nat, x: Scan)
    requires ScanOK(s, bs, be, x) && GoodScan(p, s, x) && Look(s, bs, be, x).Found?
    ensures var y := NextScan(p.v, s, bs, be, x);
            && Matches(y.ts) == Matches(x.ts) + [Span(Look(s, bs, be, x).ip, y.ip)]
            && x.ip <= Look(s, bs, be, x).ip < y.ip
  {
    hide Search, MatchLen, DictOK, AddLits, ApplyAll, LegalAll, Lean;
    var f := Look(s, bs, be, x);
    var us := AddLits(x.ts, s[x.lit..f.ip]);
    LitsBefore(p, s, x.ts, x.lit, f.ip);
    MatchesStore(x.ts, s[x.lit..f.ip]);
    MatchesSnoc(us, MatchToken(p.v, Length(s, be, f.ip, f.pos), f.ip - f.pos));
  }

  /** `ns` is `ms` and matches from `lo` on. */
  ghost predicate Goes(ms: seq<Span>, lo: nat, ns: seq<Span>) {
    ms <= ns && forall k | |ms| <= k < |ns| :: lo <= ns[k].start <= ns[k].end
  }

  ghost predicate AllBelow(ms: seq<Span>, hi: nat) {
    forall k | 0 <= k < |ms| :: ms[k].end <= hi
  }

  lemma {:induction false} BlockMatches(p: Params, s: seq<byte>, bs: nat, be: nat, x: Scan)
    requires ScanOK(s, bs, be, x) && GoodScan(p, s, x) && AllBelow(Matches(x.ts), x.ip)
    ensures var r := Block(p.v, s, bs, be, x);
            && Goes(Matches(x.ts), x.ip, Matches(r.ts)) && AllBelow(Matches(r.ts), if x.ip <= be then be else x.ip)
            && (r.lit == x.lit || r.lit + 8 <= be)
    decreases be - x.ip
  {
    hide Good, Search, NextScan, DictOK, Look, Matches;
    if Look(s, bs, be, x).Found? {
      var y := NextScan(p.v, s, bs, be, x);
      NextGood(p, s, bs, be, x);
      NextMatches(p, s, bs, be, x);
      BlockMatches(p, s, bs, be, y);
    }
  }

  /** Of a block: what is looked at and comes again behind a match, or since the search began, is not left out. */
  lemma {:induction false} BlockFinds(p: Params, s: seq<byte>, bs: nat, be: nat, x: Scan, ii: nat, j: nat, i: nat)
    requires ScanOK(s, bs, be, x) && GoodScan(p, s, x) && AllBelow(Matches(x.ts), x.ii)
    requires x.ii <= ii <= j < i && i + 20 < be && ComesAgain(s, j, i)
    requires var from := if ii == x.ii then x.ip else ii; Probed(ii, from, j) && Probed(ii, from, i)
    requires var ms := Matches(Block(p.v, s, bs, be, x).ts); ii == x.ii || EndsAt(ms, ii)
    ensures var ms := Matches(Block(p.v, s, bs, be, x).ts); exists q :: ii <= q <= i && Covered(ms, q)
    decreases be - x.ip
  {
    hide Good, Search, NextScan, DictOK, Look, Matches, LE32, DIndex, Probed;
    if ii == x.ii {
      Noticed(s, bs, be, x, j, i);
    }
    var f := Look(s, bs, be, x);
    if f.Found? {
      var y := NextScan(p.v, s, bs, be, x);
      NextGood(p, s, bs, be, x);
      NextMatches(p, s, bs, be, x);
      BlockMatches(p, s, bs, be, y);
      var ms := Matches(Block(p.v, s, bs, be, x).ts);
      if ii == x.ii {
        assert ms[|Matches(x.ts)|] == Span(f.ip, y.ip);
        assert Covered(ms, f.ip);
      } else if y.ip <= ii {
        BlockFinds(p, s, bs, be, y, ii, j, i);
      }
    }
  }

  lemma ProbedFrom(ii: nat, ip: nat, i: nat)
    requires ii <= ip && Probed(ii, ip, i)
    ensures ip <= i
  {
  }

  /** Of a block: a match begins only where the search looks. */
  lemma {:induction false} BlockLooks(p: Params, s: seq<byte>, bs: nat, be: nat, x: Scan, k: nat)
    requires ScanOK(s, bs, be, x) && GoodScan(p, s, x) && AllBelow(Matches(x.ts), x.ii)
    requires |Matches(x.ts)| <= k < |Matches(Block(p.v, s, bs, be, x).ts)|
    ensures var ms := Matches(Block(p.v, s, bs, be, x).ts);
            if k == |Matches(x.ts)| then Probed(x.ii, x.ip, ms[k].start)
            else Probed(ms[k - 1].end, ms[k - 1].end, ms[k].start)
    decreases be - x.ip
  {
    hide Good, Search, NextScan, DictOK, Look, Matches, Probed;
    if Look(s, bs, be, x).Found? {
      var y := NextScan(p.v, s, bs, be, x);
      NextGood(p, s, bs, be, x);
      NextMatches(p, s, bs, be, x);
      BlockMatches(p, s, bs, be, y);
      LookProbed(s, bs, be, x);
      if k > |Matches(x.ts)| {
        BlockLooks(p, s, bs, be, y, k);
      }
    }
  }

  lemma LookProbed(s: seq<byte>, bs: nat, be: nat, x: Scan)
    requires ScanOK(s, bs, be, x) && Look(s, bs, be, x).Found?
    ensures Probed(x.ii, x.ip, Look(s, bs, be, x).ip)
  {
    SearchProbed(s, bs, be, x.ii, x.ip, x.dict);
  }

  lemma Noticed(s: seq<byte>, bs: nat, be: nat, x: Scan, j: nat, i: nat)
    requires ScanOK(s, bs, be, x) && j < i && i + 20 < be && ComesAgain(s, j, i)
    requires Probed(x.ii, x.ip, j) && Probed(x.ii, x.ip, i)
    ensures Look(s, bs, be, x).Found? && x.ip <= Look(s, bs, be, x).ip <= i
  {
    hide Search, ComesAgain, DIndex, LE32;
    ProbedFrom(x.ii, x.ip, j);
    SearchStops(s, bs, be, x.ii, x.ip, x.dict, j, i);
  }

  lemma OneBlock(p: Params, s: seq<byte>, pos: nat, be: nat, ts: seq<Token>, lit: nat)
    requires Good(p, s, ts, lit) && lit <= pos && pos + 20 < be <= |s| && be - pos <= BLOCK
    requires AllBelow(Matches(ts), pos)
    ensures var x := FirstScan(ts, lit, pos);
            && ScanOK(s, pos, be, x) && GoodScan(p, s, x)
            && var r := Block(p.v, s, pos, be, x);
               && Good(p, s, r.ts, r.lit) && Goes(Matches(ts), pos, Matches(r.ts))
               && AllBelow(Matches(r.ts), if x.ip <= be then be else x.ip) && (r.lit == lit || r.lit + 8 <= be)
  {
    hide Block, Good, Matches;
    var x := FirstScan(ts, lit, pos);
    EmptyDictOK(pos, x.ip);
    ScanGood(p, s, pos, be, ts, lit);
    BlockGood(p, s, pos, be, x);
    BlockMatches(p, s, pos, be, x);
  }

  lemma {:induction false} BlocksMatches(p: Params, s: seq<byte>, pos: nat, ts: seq<Token>, lit: nat)
    requires ParamsOK(p) && lit <= pos <= |s| && Good(p, s, ts, lit) && AllBelow(Matches(ts), pos)
    ensures Goes(Matches(ts), pos, Matches(Blocks(p, s, pos, ts, lit).ts))
    decreases |s| - pos
  {
    hide Block, Good, Matches, Stops, ScanOK;
    var ll := BlockLen(|s| - pos);
    if |s| - pos > 20 && !Stops(p, pos, lit, ll) {
      OneBlock(p, s, pos, pos + ll, ts, lit);
      var r := Block(p.v, s, pos, pos + ll, FirstScan(ts, lit, pos));
      BlocksMatches(p, s, pos + ll, r.ts, r.lit);
    }
  }

  /** The block `[bs, bs + 49152)`, or what there is of it. */
  function BlockEnd(s: seq<byte>, bs: nat): nat {
    if bs + 49152 <= |s| then bs + 49152 else |s|
  }

  /** A search begins behind a match, or at the second byte of a block; at the very beginning behind five bytes. */
  function From(bs: nat, ii: nat): (r: nat)
    ensures ii <= r
  {
    if bs < ii then ii else if bs == 0 then 5 + ii else ii + 1
  }

  ghost predicate Begins(ms: seq<Span>, bs: nat, ii: nat) {
    ii == bs || (bs < ii && EndsAt(ms, ii))
  }

  /** Where the pending literals begin: in the first block there is nothing before them, and each later one finds
      eight bytes or more. */
  ghost predicate Carried(pos: nat, lit: nat) {
    lit <= pos && if pos == 0 then lit == 0 else lit + 4 <= pos
  }

  lemma EndsBefore(ms: seq<Span>, lo: nat, ns: seq<Span>, ii: nat)
    requires Goes(ms, lo, ns) && EndsAt(ns, ii) && ii < lo
    ensures EndsAt(ms, ii)
  {
  }

  lemma StaysCovered(ms: seq<Span>, lo: nat, ns: seq<Span>, q: nat)
    requires Goes(ms, lo, ns) && Covered(ms, q)
    ensures Covered(ns, q)
  {
  }

  lemma {:induction false} BlocksFind(p: Params, s: seq<byte>, pos: nat, ts: seq<Token>, lit: nat,
                                      bs: nat, ii: nat, j: nat, i: nat)
    requires ParamsOK(p) && NoWrap(p, |s|) && lit <= pos <= bs && Good(p, s, ts, lit) && AllBelow(Matches(ts), pos)
    requires Carried(pos, lit) && bs % 49152 == 0 == pos % 49152 && bs + 32 <= |s| && i + 20 < BlockEnd(s, bs)
    requires bs <= ii && j < i && ComesAgain(s, j, i) && Probed(ii, From(bs, ii), j) && Probed(ii, From(bs, ii), i)
    requires Begins(Matches(Blocks(p, s, pos, ts, lit).ts), bs, ii)
    ensures var ms := Matches(Blocks(p, s, pos, ts, lit).ts); exists q :: ii <= q <= i && Covered(ms, q)
    decreases |s| - pos
  {
    hide Block, Good, Matches, Stops, ScanOK, ComesAgain, Probed, Goes, Covered, EndsAt;
    var ll := BlockLen(|s| - pos);
    StopsExactly(p, |s|, pos, lit, ll);
    OneBlock(p, s, pos, pos + ll, ts, lit);
    var x := FirstScan(ts, lit, pos);
    var r := Block(p.v, s, pos, pos + ll, x);
    var ms := Matches(Blocks(p, s, pos, ts, lit).ts);
    if bs == pos {
      ProbedFrom(ii, From(bs, ii), j);
      BlocksMatches(p, s, pos + ll, r.ts, r.lit);
      if ii != bs {
        EndsBefore(Matches(r.ts), pos + ll, ms, ii);
      }
      BlockFinds(p, s, pos, pos + ll, x, ii, j, i);
      var q :| ii <= q <= i && Covered(Matches(r.ts), q);
      StaysCovered(Matches(r.ts), pos + ll, ms, q);
    } else {
      BlocksFind(p, s, pos + ll, r.ts, r.lit, bs, ii, j, i);
    }
  }

  /** Of every input: where the search of a block looks, and from the block's beginning or the last match on it has
      looked at the same four bytes, with none of the same hash in between, there no literal is left. */
  lemma RepeatsFound(p: Params, s: seq<byte>, bs: nat, ii: nat, j: nat, i: nat)
    requires ParamsOK(p) && |s| + 511 <= p.word && NoWrap(p, |s|)
    requires bs % 49152 == 0 && bs + 32 <= |s| && i + 20 < BlockEnd(s, bs)
    requires bs <= ii && Begins(Matches(Tokens(p, s)), bs, ii)
    requires j < i && ComesAgain(s, j, i) && Probed(ii, From(bs, ii), j) && Probed(ii, From(bs, ii), i)
    ensures exists q :: ii <= q <= i && Covered(Matches(Tokens(p, s)), q)
  {
    hide Blocks, ComesAgain, Store, Probed;
    EmitNothing(p.v, p.word, C0, 0);
    assert s[..0] == [];
    var r := Blocks(p, s, 0, [], 0);
    MatchesStore(r.ts, s[r.lit..]);
    BlocksFind(p, s, 0, [], 0, bs, ii, j, i);
  }

  /** Where the search began that found the `k`-th match. */
  function Since(ms: seq<Span>, k: nat): (r: nat)
    requires k < |ms|
  {
    var bs := ms[k].start / 49152 * 49152;
    if k > 0 && bs < ms[k - 1].end then ms[k - 1].end else bs
  }

  ghost predicate LookedAt(ms: seq<Span>, k: nat)
    requires k < |ms|
  {
    Probed(Since(ms, k), From(ms[k].start / 49152 * 49152, Since(ms, k)), ms[k].start)
  }

  lemma {:induction false} BlocksLook(p: Params, s: seq<byte>, pos: nat, ts: seq<Token>, lit: nat, k: nat)
    requires ParamsOK(p) && lit <= pos <= |s| && Good(p, s, ts, lit) && AllBelow(Matches(ts), pos)
    requires Carried(pos, lit) && (pos < |s| ==> pos % 49152 == 0)
    requires |Matches(ts)| <= k < |Matches(Blocks(p, s, pos, ts, lit).ts)|
    ensures LookedAt(Matches(Blocks(p, s, pos, ts, lit).ts), k)
    decreases |s| - pos
  {
    hide Block, Good, Matches, Stops, ScanOK, Probed, Since, From;
    var ll := BlockLen(|s| - pos);
    if |s| - pos > 20 && !Stops(p, pos, lit, ll) {
      OneBlock(p, s, pos, pos + ll, ts, lit);
      var x := FirstScan(ts, lit, pos);
      var r := Block(p.v, s, pos, pos + ll, x);
      BlocksMatches(p, s, pos + ll, r.ts, r.lit);
      if k < |Matches(r.ts)| {
        BlockLooks(p, s, pos, pos + ll, x, k);
        BlockStarts(p, s, pos, pos + ll, x, k);
        SinceIs(Matches(ts), pos, Matches(r.ts), Matches(Blocks(p, s, pos, ts, lit).ts), k, lit);
      } else {
        BlocksLook(p, s, pos + ll, r.ts, r.lit, k);
      }
    }
  }

  lemma SinceIs(ms: seq<Span>, pos: nat, ns: seq<Span>, fs: seq<Span>, k: nat, lit: nat)
    requires pos % 49152 == 0 && AllBelow(ms, pos) && ms <= ns <= fs && |ms| <= k < |ns| && Carried(pos, lit)
    requires pos <= ns[k].start < pos + 49152 && (k > |ms| ==> pos < ns[k - 1].end)
    ensures fs[k] == ns[k] && fs[k].start / 49152 * 49152 == pos
    ensures Since(fs, k) == (if k == |ms| then pos else ns[k - 1].end)
    ensures From(pos, pos) == FirstIp(pos, lit) && (k > |ms| ==> From(pos, ns[k - 1].end) == ns[k - 1].end)
  {
    BlockOf(ns[k].start, pos);
    assert k > 0 && k == |ms| ==> fs[k - 1] == ms[k - 1];
  }

  lemma BlockOf(i: nat, pos: nat)
    requires pos % 49152 == 0 && pos <= i < pos + 49152
    ensures i / 49152 * 49152 == pos
  {
  }

  lemma {:induction false} BlockStarts(p: Params, s: seq<byte>, bs: nat, be: nat, x: Scan, k: nat)
    requires ScanOK(s, bs, be, x) && GoodScan(p, s, x) && AllBelow(Matches(x.ts), x.ip)
    requires |Matches(x.ts)| <= k < |Matches(Block(p.v, s, bs, be, x).ts)|
    ensures var ms := Matches(Block(p.v, s, bs, be, x).ts);
            x.ip <= ms[k].start < be && (k > |Matches(x.ts)| ==> x.ip < ms[k - 1].end)
    decreases be - x.ip
  {
    hide Good, Search, NextScan, DictOK, Look, Matches;
    if Look(s, bs, be, x).Found? {
      var y := NextScan(p.v, s, bs, be, x);
      NextGood(p, s, bs, be, x);
      NextMatches(p, s, bs, be, x);
      BlockMatches(p, s, bs, be, y);
      if k > |Matches(x.ts)| {
        BlockStarts(p, s, bs, be, y, k);
      }
    }
  }

  /** Of every input: a match begins only where the search looks, counted from the match before it or from the
      beginning of its block of 49152 bytes. */
  lemma MatchesLookedAt(p: Params, s: seq<byte>, k: nat)
    requires ParamsOK(p) && |s| + 511 <= p.word && k < |Matches(Tokens(p, s))|
    ensures LookedAt(Matches(Tokens(p, s)), k)
  {
    hide Blocks, Store, LookedAt;
    EmitNothing(p.v, p.word, C0, 0);
    assert s[..0] == [];
    var r := Blocks(p, s, 0, [], 0);
    MatchesStore(r.ts, s[r.lit..]);
    BlocksLook(p, s, 0, [], 0, k);
  }

  /** In the first 32 bytes every place is looked at. */
  lemma {:induction false} AllProbed(ii: nat, ip: nat, i: nat)
    requires ii <= ip <= i <= ii + 32
    ensures Probed(ii, ip, i)
    decreases i - ip
  {
    if ip < i {
      AllProbed(ii, ip + 1, i);
    }
  }

  /** So four bytes that repeat those one byte before are never left out there. */
  lemma NeighboursFound(p: Params, s: seq<byte>, bs: nat, ii: nat, i: nat)
    requires ParamsOK(p) && |s| + 511 <= p.word && NoWrap(p, |s|)
    requires bs % 49152 == 0 && bs + 32 <= |s| && i + 20 < BlockEnd(s, bs)
    requires bs <= ii && Begins(Matches(Tokens(p, s)), bs, ii)
    requires From(bs, ii) < i <= ii + 32 && s[i - 1..i + 3] == s[i..i + 4]
    ensures exists q :: ii <= q <= i && Covered(Matches(Tokens(p, s)), q)
  {
    hide Tokens, Matches, Probed;
    AllProbed(ii, From(bs, ii), i - 1);
    AllProbed(ii, From(bs, ii), i);
    RepeatsFound(p, s, bs, ii, i - 1, i);
  }
}
