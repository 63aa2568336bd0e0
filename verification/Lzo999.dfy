/** The LZO1X/LZO1Y/LZO1Z-999 compressor over any match finder. */
module Lzo999 {
  import opened Bytes
  import opened Format
  import opened Decoder
  import opened Language
  import opened Expansion
  import opened Emission
  import opened Writing

  const M2_MIN_LEN: nat := 3
  const SWD_F: nat := 2048
  const SWD_BEST_OFF: nat := 34

  // ----- the match finder -----

  /** What the search at one position found: the best match and, for each short length, the offset
      of a match of that length (0 when there is none). */
  datatype Offer = Offer(len: nat, off: nat, best: seq<nat>)

  /** assert_match: `len` bytes at `at` that lie `off` before, in the input or in the dictionary. */
  ghost predicate IsMatch(w: seq<byte>, at: nat, len: nat, off: nat) {
    2 <= len && 1 <= off <= M4_MAX_OFFSET && Same(w, at, off, len)
  }

  ghost predicate BestOK(w: seq<byte>, at: nat, best: seq<nat>) {
    |best| == SWD_BEST_OFF && forall l {:trigger best[l]} | 2 <= l < SWD_BEST_OFF && best[l] != 0 ::
      IsMatch(w, at, l, best[l])
  }

  ghost predicate OfferOK(w: seq<byte>, at: nat, o: Offer) {
    (o.len < 2 || IsMatch(w, at, o.len, o.off)) && BestOK(w, at, o.best)
  }

  /** A match finder: what it finds at any position of the input is a match in the window. */
  ghost predicate FinderOK(dict: seq<byte>, input: seq<byte>, find: nat -> Offer) {
    forall i {:trigger find(i)} | 0 <= i < |input| :: OfferOK(dict + input, |dict| + i, find(i))
  }

  /** A call: `find` is the match finder, which the compressor asks at most once per position. */
  datatype Setup = Setup(v: Variant, word: nat, dict: seq<byte>, input: seq<byte>, find: nat -> Offer,
                         tryLazy: nat, maxLazy: nat, useBest: bool)
  {
    function Window(): seq<byte> {
      dict + input
    }

    function Start(): Ctx {
      Ctx(State.Start, 0, dict)
    }

    ghost predicate OK() {
      |input| + 511 <= word && FinderOK(dict, input, find)
    }
  }

  // ----- what a match costs -----

  /** The form code_match chooses, given the number of literals just stored and the last offset. */
  function KindOf(v: Variant, len: nat, off: nat, lit: nat, last: nat): Kind {
    if len == 2 then M1a
    else if v.LZO1Z? && len <= M2MaxLen(v) && off == last then M2Rep
    else if len <= M2MaxLen(v) && off <= M2MaxOffset(v) then M2
    else if len == 3 && off <= MXMaxOffset(v) && lit >= 4 then M1b
    else if off <= M3_MAX_OFFSET then M3
    else M4
  }

  /** What code_match's asserts demand. */
  predicate Codable(len: nat, off: nat, lit: nat) {
    2 <= len && 1 <= off <= M4_MAX_OFFSET && (len == 2 ==> off <= M1_MAX_OFFSET && 0 < lit < 4)
  }

  function CodedLen(v: Variant, len: nat, off: nat, lit: nat): nat {
    if len < 2 then 0
    else if len == 2 then (if off <= M1_MAX_OFFSET && 0 < lit < 4 then 2 else 0)
    else if len <= M2MaxLen(v) && off <= M2MaxOffset(v) then 2
    else if len == 3 && off <= MXMaxOffset(v) && lit >= 4 then 2
    else if off <= M3_MAX_OFFSET then |LenBytes(M3_MARKER, len - 2, 31)| + 2
    else if off <= M4_MAX_OFFSET then |LenBytes(M4_MARKER, len - 2, 7)| + 2
    else 0
  }

  /** len_of_coded_match is nonzero exactly on what code_match can code, and then it is the number of
      bytes that code_match emits; only LZO1Z's repeated offset is shorter. */
  lemma CodedLenExact(v: Variant, len: nat, off: nat, lit: nat, last: nat)
    requires 1 <= off
    ensures CodedLen(v, len, off, lit) > 0 <==> Codable(len, off, lit)
    ensures CodedLen(v, len, off, lit) <= len
    ensures Codable(len, off, lit) ==>
              var kind := KindOf(v, len, off, lit, last);
              && InRange(v, kind, len, off)
              && |MatchBytes(v, kind, len, off, 0)| == if kind.M2Rep? then 1 else CodedLen(v, len, off, lit)
  {
    hide M1Bytes, M2Bytes, OffBytes;
    if len > 33 {
      ExtSize(len - 33);
    }
    if len > 9 {
      ExtSize(len - 9);
    }
  }

  /** A match that pays for the header of the run before it. */
  predicate Pays(v: Variant, len: nat, off: nat, lit: nat, last: nat) {
    lit < 4 || len >= 4 || off <= MXMaxOffset(v) || (v.LZO1Z? && off == last)
  }

  /** What a coded match saves: seventeen for each byte it covers, less sixteen for each it takes. */
  function Worth(v: Variant, len: nat, off: nat, lit: nat, last: nat): int {
    17 * len - 16 * (if KindOf(v, len, off, lit, last).M2Rep? then 1 else CodedLen(v, len, off, lit))
  }

  lemma WorthPays(v: Variant, len: nat, off: nat, lit: nat, last: nat)
    requires Codable(len, off, lit)
    ensures var worth := Worth(v, len, off, lit, last);
            0 <= worth && (lit >= 4 && Pays(v, len, off, lit, last) ==> RUN_SLACK <= worth)
  {
    hide CodedLen;
    CodedLenExact(v, len, off, lit, last);
    LongCode(v, len, off, lit);
    SmallSize(v, len, off, lit);
  }

  /** No match that may be coded costs more than it covers; and those that pay, pay for a run's header. */
  lemma CodedGain(v: Variant, c: Ctx, len: nat, off: nat, lit: nat, last: nat)
    requires Codable(len, off, lit) && off <= |c.out|
    ensures var m := Match(KindOf(v, len, off, lit, last), len, off, []);
            && Shaped(v, m) && TokenCost(v, c, m) == -Worth(v, len, off, lit, last) <= 0
            && (lit >= 4 && Pays(v, len, off, lit, last) ==> TokenCost(v, c, m) <= -RUN_SLACK)
  {
    hide MatchBytes, CodedLen, Pays;
    CodedLenExact(v, len, off, lit, last);
    WorthPays(v, len, off, lit, last);
  }

  lemma SmallSize(v: Variant, len: nat, off: nat, lit: nat)
    ensures len <= 9 ==> CodedLen(v, len, off, lit) <= 3
    ensures 2 <= len <= 3 && (len == 2 || off <= M2MaxOffset(v) || (off <= MXMaxOffset(v) && lit >= 4)) ==>
              CodedLen(v, len, off, lit) <= 2
  {
  }

  /** What better_match exchanges a match for: a slightly shorter one may have a much shorter code. */
  ghost function BetterMatch(v: Variant, last: nat, best: seq<nat>, len: nat, off: nat): (nat, nat)
    requires |best| == SWD_BEST_OFF
  {
    if len <= M2_MIN_LEN || (v.LZO1Z? && off == last && len <= M2MaxLen(v)) then (len, off)
    else if v.LZO1Z? && len <= M2MaxLen(v) + 1 && last != 0 && best[len - 1] == last then (len - 1, best[len - 1])
    else if off <= M2MaxOffset(v) then (len, off)
    else if len <= M2MaxLen(v) + 1 && 1 <= best[len - 1] <= M2MaxOffset(v) then (len - 1, best[len - 1])
    else if off > M3_MAX_OFFSET && M4_MAX_LEN + 1 <= len <= M2MaxLen(v) + 2 && 1 <= best[len - 2] <= M2MaxOffset(v) then
      (len - 2, best[len - 2])
    else if off > M3_MAX_OFFSET && M4_MAX_LEN + 1 <= len <= M3_MAX_LEN + 1 && 1 <= best[len - 1] <= M3_MAX_OFFSET then
      (len - 1, best[len - 1])
    else (len, off)
  }

  lemma BetterMatchOK(v: Variant, w: seq<byte>, at: nat, last: nat, best: seq<nat>, len: nat, off: nat)
    requires IsMatch(w, at, len, off) && BestOK(w, at, best)
    ensures var (len', off') := BetterMatch(v, last, best, len, off);
            && IsMatch(w, at, len', off') && len' <= len
            && (forall lit :: Codable(len, off, lit) ==> Codable(len', off', lit))
            && (forall lit :: Pays(v, len, off, lit, last) ==> Pays(v, len', off', lit, last))
  {
    hide Same;
  }

  // ----- what is emitted -----

  /** Where the decoder stands after `lit` literals that a match is to follow. */
  function StateAfter(lit: nat): State {
    if lit == 0 then Fresh else if lit < 4 then AfterTrail else AfterRun
  }

  lemma EmitStored(p: Setup, ts: seq<Token>, at: nat, lit: nat, slack: nat)
    requires p.OK() && |p.dict| + lit <= at <= |p.Window()|
    requires Emitted(p.v, p.word, p.Start(), ts, p.Window()[..at - lit], slack) && Open(ts) && (ts == [] ==> lit != 0)
    ensures var us := Store(ts, p.Window()[at - lit..at]);
            && us != []
            && Emitted(p.v, p.word, p.Start(), us, p.Window()[..at], if lit < 4 then slack else slack + RUN_SLACK)
            && ApplyAll(p.Start(), us).st == StateAfter(lit)
            && ApplyAll(p.Start(), us).last == ApplyAll(p.Start(), ts).last
  {
    hide LegalAll, ApplyAll, EncAll, Cost, Lean, Same;
    var w, c0 := p.Window(), p.Start();
    var lits := w[at - lit..at];
    assert w[..at - lit] + lits == w[..at];
    if lit == 0 {
      StoreNothing(ts);
      OpenState(p.v, p.word, c0, ts);
    } else {
      EmitStore(p.v, p.word, c0, ts, w[..at - lit], lits, slack);
      StoreLast(p.v, c0, ts, lits);
    }
  }

  lemma CodedLegal(v: Variant, word: nat, c: Ctx, len: nat, off: nat, lit: nat)
    requires Codable(len, off, lit) && off <= |c.out| && len + 511 <= word && c.st == StateAfter(lit)
    ensures Legal(v, word, c, Match(KindOf(v, len, off, lit, c.last), len, off, []))
  {
    hide Enc, Fits;
    FitsInput(word, len - 2, 31);
    FitsInput(word, len - 2, 7);
    CodedLenExact(v, len, off, lit, c.last);
  }

  /** The slack behind a group of literals and a match: what the run's header costs more than the match
      saves is added to it. */
  function Settle(slack: nat, lit: nat, worth: int): nat {
    var s := slack + (if lit < 4 then 0 else RUN_SLACK) - worth;
    if s < 0 then 0 else s
  }

  lemma EmitCoded(p: Setup, us: seq<Token>, at: nat, lit: nat, len: nat, off: nat, slack: nat)
    requires p.OK() && at <= |p.Window()|
    requires Emitted(p.v, p.word, p.Start(), us, p.Window()[..at], if lit < 4 then slack else slack + RUN_SLACK)
    requires us != []
    requires ApplyAll(p.Start(), us).st == StateAfter(lit)
    requires |p.dict| <= at && Codable(len, off, lit) && Same(p.Window(), at, off, len)
    ensures var last := ApplyAll(p.Start(), us).last;
            var ts := us + [Match(KindOf(p.v, len, off, lit, last), len, off, [])];
            Emitted(p.v, p.word, p.Start(), ts, p.Window()[..at + len],
              Settle(slack, lit, Worth(p.v, len, off, lit, last)))
  {
    hide LegalAll, ApplyAll, EncAll, Cost, Lean, MatchBytes, KindOf, Pays, TokenCost, Legal, Worth;
    var w, c0 := p.Window(), p.Start();
    var c := ApplyAll(c0, us);
    var m := Match(KindOf(p.v, len, off, lit, c.last), len, off, []);
    CodedLegal(p.v, p.word, c, len, off, lit);
    CodedGain(p.v, c, len, off, lit, c.last);
    SameIsCopy(w, at, off, len);
    assert Apply(c, m).out == w[..at + len];
    EmitToken(p.v, p.word, c0, us, w[..at], m, if lit < 4 then slack else slack + RUN_SLACK,
              Settle(slack, lit, Worth(p.v, len, off, lit, c.last)));
  }

  /** Literals and a match behind them. */
  lemma EmitGroup(p: Setup, ts: seq<Token>, at: nat, lit: nat, len: nat, off: nat, slack: nat)
    requires p.OK() && |p.dict| + lit <= at <= |p.Window()|
    requires Emitted(p.v, p.word, p.Start(), ts, p.Window()[..at - lit], slack) && Open(ts) && (ts == [] ==> lit != 0)
    requires Codable(len, off, lit) && Same(p.Window(), at, off, len)
    ensures var w := p.Window();
            var last := ApplyAll(p.Start(), ts).last;
            var ts' := Store(ts, w[at - lit..at]) + [Match(KindOf(p.v, len, off, lit, last), len, off, [])];
            && Emitted(p.v, p.word, p.Start(), ts', w[..at + len], Settle(slack, lit, Worth(p.v, len, off, lit, last)))
            && Open(ts')
  {
    hide Emitted, ApplyAll, KindOf, Pays, Store, StateAfter, Codable, Same, Worth, Settle;
    EmitStored(p, ts, at, lit, slack);
    EmitCoded(p, Store(ts, p.Window()[at - lit..at]), at, lit, len, off, slack);
  }

  // ----- what a deferred match still owes -----

  /** What a match of four or more bytes saves at least, behind any literals. */
  function Gain(v: Variant, len: nat, off: nat): int {
    17 * len - 16 * CodedLen(v, len, off, 0)
  }

  lemma GainIsWorth(v: Variant, len: nat, off: nat, lit: nat, last: nat)
    requires 4 <= len && 1 <= off <= M4_MAX_OFFSET
    ensures CodedLen(v, len, off, lit) == CodedLen(v, len, off, 0) >= 2
    ensures Gain(v, len, off) <= Worth(v, len, off, lit, last)
  {
  }

  /** The match found makes good for the slack, with something to spare. */
  predicate Covers(v: Variant, slack: nat, len: nat, off: nat, spare: nat) {
    2 <= len && 1 <= off <= M4_MAX_OFFSET && 3 * slack + spare <= Gain(v, len, off)
  }

  lemma CoverBound(v: Variant, slack: nat, len: nat, off: nat, spare: nat)
    ensures Covers(v, slack, len, off, spare) ==> slack <= 17 * len
  {
  }

  /** Only a long match can gain so much. */
  lemma GainLong(v: Variant, len: nat, off: nat)
    requires 2 <= len && 1 <= off <= M4_MAX_OFFSET
    ensures Gain(v, len, off) >= 105 ==> 8 <= len
    ensures Gain(v, len, off) >= 107 ==> 9 <= len && (v.LZO1Z? ==> 10 <= len)
  {
    if len >= 4 {
      GainIsWorth(v, len, off, 0, 0);
    }
  }

  lemma {:induction false} ExtExact(n: nat)
    requires n >= 1
    ensures |Ext(n)| == (n + 254) / 255
    decreases n
  {
    if n > 255 {
      ExtExact(n - 255);
    }
  }

  /** The size of a match of ten or more bytes, from both sides. */
  lemma LongCode(v: Variant, len: nat, off: nat, lit: nat)
    requires 1 <= off <= M4_MAX_OFFSET
    ensures 10 <= len ==> CodedLen(v, len, off, lit) <= 4 + (len - 10) / 255
    ensures CodedLen(v, len, off, lit) >= 4 ==>
              10 <= len && (34 <= len ==> CodedLen(v, len, off, lit) >= 4 + (len - 34) / 255)
  {
    if len > 33 {
      ExtExact(len - 33);
    }
    if len > 9 {
      ExtExact(len - 9);
    }
  }

  /** A match that is worth looking three bytes ahead of gains much. */
  lemma FarGain(v: Variant, len: nat, off: nat, lit: nat)
    requires Codable(len, off, lit) && CodedLen(v, len, off, lit) >= 4
    ensures 10 <= len && 106 <= Gain(v, len, off)
  {
    hide CodedLen;
    LongCode(v, len, off, lit);
    GainIsWorth(v, len, off, lit, 0);
  }

  /** better_match gives little of that away. */
  lemma BetterGain(v: Variant, w: seq<byte>, at: nat, last: nat, best: seq<nat>, len: nat, off: nat)
    requires IsMatch(w, at, len, off) && BestOK(w, at, best) && Gain(v, len, off) >= 107
    ensures var (len', off') := BetterMatch(v, last, best, len, off);
            Gain(v, len', off') + 2 >= Gain(v, len, off)
  {
    hide Same;
    GainLong(v, len, off);
  }

  /** How much more the later match gains, when it is preferred. */
  lemma DeferGain(v: Variant, lit: nat, len: nat, off: nat, ahead: nat, l3: nat, len2: nat, off2: nat)
    requires 4 <= len && Codable(len, off, lit) && 1 <= off2 <= M4_MAX_OFFSET && 1 <= ahead < CodedLen(v, len, off, lit)
    requires l3 == 0 || l3 == CodedLen(v, ahead, off, lit)
    requires var l1, l2 := CodedLen(v, len, off, lit), CodedLen(v, len2, off2, lit + ahead);
             l2 > 0 && len2 >= len + MinGain(ahead, lit, lit + ahead, l1, l2, l3)
    ensures len <= len2
    ensures var gain := Gain(v, len2, off2) - Gain(v, len, off);
            && (l3 == 0 || ahead <= 2 ==> gain >= 2)
            && (l3 != 0 && ahead == 3 ==> gain >= 32 || (l3 == 2 && gain >= 16))
            && (l3 != 0 && ahead >= 4 ==> gain >= -16)
  {
    hide CodedLen;
    GainIsWorth(v, len, off, lit, 0);
    GainIsWorth(v, len2, off2, lit + ahead, 0);
    SmallSize(v, ahead, off, lit);
    ShortCode(v, ahead, off, lit);
    var l1, l2 := CodedLen(v, len, off, lit), CodedLen(v, len2, off2, lit + ahead);
    if ahead >= 4 {
      LongCode(v, len, off, lit);
      LongCode(v, len2, off2, lit + ahead);
      Longer(len, len2, l1, l2);
    }
  }

  lemma ShortCode(v: Variant, len: nat, off: nat, lit: nat)
    ensures len <= 3 && CodedLen(v, len, off, lit) != 0 ==>
              2 <= len && CodedLen(v, len, off, lit) >= 2 && (len == 2 ==> 0 < lit < 4)
  {
  }

  lemma Longer(len: nat, len2: nat, l1: int, l2: int)
    requires 10 <= len <= len2 && 4 <= l1 && (34 <= len ==> l1 >= 4 + (len - 34) / 255) && l2 <= 4 + (len2 - 10) / 255
    ensures 17 * (len2 - len) - 16 * (l2 - l1) >= -16
  {
    var q := (len2 - 10) / 255;
    var r := if 34 <= len then (len - 34) / 255 else 0;
    assert l2 - l1 <= q - r;
    assert 255 * q <= len2 - 10;
    assert 255 * (r + 1) > len - 34;
  }

  /** How much longer a later match must be. */
  ghost function MinGain(ahead: nat, lit1: nat, lit2: nat, l1: nat, l2: nat, l3: nat): nat {
    var runs := if lit1 <= 3 then (if lit2 <= 3 then 0 else 2) else if lit1 <= 18 && lit2 > 18 then 1 else 0;
    var g := ahead + runs + (l2 - l1) * 2 - (if l3 != 0 then (ahead - l3) * 2 else 0);
    if g < 0 then 0 else g
  }

  // ----- which matches are coded -----

  /** Which matches become literals at once: behind `lit` literals, `first` when none has been coded. */
  predicate Refused(v: Variant, first: bool, lit: nat, len: nat, off: nat) {
    || len < 2 || (len == 2 && (off > M1_MAX_OFFSET || lit == 0 || lit >= 4)) || (len == 2 && first)
    || (first && lit == 0)
    || (len == 3 && off > MXMaxOffset(v) && lit >= 4)
  }

  /** A match that is looked at: its length, 0 if there is none, and its offset. */
  datatype Pick = Pick(len: nat, off: nat)

  ghost function Improved(p: Setup, last: nat, best: seq<nat>, m: Pick): (r: Pick)
    requires |best| == SWD_BEST_OFF
    ensures 2 <= m.len ==> 2 <= r.len <= m.len
  {
    if p.useBest then
      var b := BetterMatch(p.v, last, best, m.len, m.off);
      Pick(b.0, b.1)
    else m
  }

  /** How far to look for a better match than `m`. */
  function Scope(p: Setup, m: Pick, lit: nat): nat {
    if p.tryLazy == 0 || m.len >= p.maxLazy then 0
    else
      var l1 := CodedLen(p.v, m.len, m.off, lit);
      if p.tryLazy < l1 - 1 then p.tryLazy else if l1 == 0 then 0 else l1 - 1
  }

  lemma ScopeLimit(p: Setup, m: Pick, lit: nat)
    ensures Scope(p, m, lit) <= p.tryLazy
  {
  }

  datatype Maybe = None | Some(m: Pick)

  /** What is found at `at`, if it may be better than `m`: it is not shorter, and of the same length nearer. */
  ghost function Later(p: Setup, last: nat, m: Pick, at: nat): Maybe
    requires p.OK() && at < |p.input|
  {
    var o := p.find(at);
    var lost := p.v.LZO1Z? && m.off == last && o.off != last && M2_MIN_LEN <= m.len <= M2MaxLen(p.v);
    var len := if lost then 0 else o.len;
    BestSize(p, at);
    if len < m.len || (len == m.len && o.off >= m.off) then None else Some(Improved(p, last, o.best, Pick(len, o.off)))
  }

  lemma BestSize(p: Setup, at: nat)
    requires p.OK() && at < |p.input|
    ensures |p.find(at).best| == SWD_BEST_OFF && (p.find(at).len < 2 || at + p.find(at).len <= |p.input|)
  {
    assert OfferOK(p.dict + p.input, |p.dict| + at, p.find(at));
  }

  /** The size of the shortened match that would be coded before a match `ahead` bytes further on, 0 when the bytes
      become literals. */
  function ShortLen(v: Variant, first: bool, lit: nat, m: Pick, ahead: nat): nat {
    if first then 0 else CodedLen(v, ahead, m.off, lit)
  }

  /** Whether the match `m2`, `ahead` bytes further on, is worth deferring `m` for. */
  ghost predicate Preferred(v: Variant, first: bool, lit: nat, m: Pick, ahead: nat, m2: Pick) {
    var l1, l2 := CodedLen(v, m.len, m.off, lit), CodedLen(v, m2.len, m2.off, lit + ahead);
    l2 != 0 && m2.len >= m.len + MinGain(ahead, lit, lit + ahead, l1, l2, ShortLen(v, first, lit, m, ahead))
  }

  /** How much of the input the match finder sees. */
  function Look(p: Setup, at: nat): nat {
    if at > |p.input| then 0 else if |p.input| - at > SWD_F + 1 then SWD_F + 1 else |p.input| - at
  }

  /** How far ahead the first match is that is preferred to `m`, more than `ahead` and at most `max` bytes; or 0. */
  ghost function Ahead(p: Setup, first: bool, last: nat, at: nat, lit: nat, m: Pick, ahead: nat, max: nat): (r: nat)
    requires p.OK() && 2 <= m.len
    ensures r == 0 || (ahead < r <= max && at + r < |p.input| && Later(p, last, m, at + r).Some?
                       && Preferred(p.v, first, lit, m, r, Later(p, last, m, at + r).m))
    decreases max - ahead
  {
    hide CodedLen, MinGain, BetterMatch, FinderOK, Preferred, Later, Improved;
    if ahead >= max || Look(p, at + ahead) <= m.len then 0
    else
      var l := Later(p, last, m, at + ahead + 1);
      if l.Some? && Preferred(p.v, first, lit, m, ahead + 1, l.m) then ahead + 1
      else Ahead(p, first, last, at, lit, m, ahead + 1, max)
  }

  lemma AheadIs(p: Setup, first: bool, last: nat, at: nat, lit: nat, m: Pick, ahead: nat, max: nat)
    requires p.OK() && 2 <= m.len
    ensures Ahead(p, first, last, at, lit, m, ahead, max) ==
            if ahead >= max || Look(p, at + ahead) <= m.len then 0
            else
              var l := Later(p, last, m, at + ahead + 1);
              if l.Some? && Preferred(p.v, first, lit, m, ahead + 1, l.m) then ahead + 1
              else Ahead(p, first, last, at, lit, m, ahead + 1, max)
  {
    hide Later, Preferred, FinderOK;
  }

  /** The main loop's variables: the tokens, the position, the pending literals, the last offset, and the match that
      is looked at. */
  datatype Parse = Parse(ts: seq<Token>, at: nat, lit: nat, last: nat, m: Pick)

  function FoundAt(p: Setup, at: nat): Pick {
    if at < |p.input| then Pick(p.find(at).len, p.find(at).off) else Pick(0, 0)
  }

  ghost predicate ParseOK(p: Setup, x: Parse) {
    p.OK() && x.lit <= x.at <= |p.input| && (x.at < |p.input| && 2 <= x.m.len ==> x.at + x.m.len <= |p.input|)
  }

  function Coded(p: Setup, x: Parse, m: Pick): seq<Token>
    requires x.lit <= x.at <= |p.input|
  {
    Store(x.ts, p.input[x.at - x.lit..x.at]) + [Match(KindOf(p.v, m.len, m.off, x.lit, x.last), m.len, m.off, [])]
  }

  /** The match to be coded at `x`, unless a later one is preferred. */
  ghost function Taken(p: Setup, x: Parse): (m: Pick)
    requires ParseOK(p, x) && x.at < |p.input|
    ensures 2 <= x.m.len ==> 2 <= m.len <= x.m.len
  {
    BestSize(p, x.at);
    Improved(p, x.last, p.find(x.at).best, x.m)
  }

  /** How far ahead the match is for which that one is deferred, or 0. */
  ghost function Deferral(p: Setup, x: Parse): (a: nat)
    requires ParseOK(p, x) && x.at < |p.input| && 2 <= x.m.len
    ensures a > 0 ==> a <= p.tryLazy && x.at + a < |p.input| && Later(p, x.last, Taken(p, x), x.at + a).Some?
  {
    hide FinderOK, Scope, Taken, Later, Preferred;
    var m := Taken(p, x);
    ScopeLimit(p, m, x.lit);
    Ahead(p, x.ts == [], x.last, x.at, x.lit, m, 0, Scope(p, m, x.lit))
  }

  /** One round: a literal, a match, or the bytes before a later match, as a shortened match or as literals. */
  ghost function Next(p: Setup, x: Parse): (y: Parse)
    requires ParseOK(p, x) && x.at < |p.input|
    ensures ParseOK(p, y) && x.at < y.at
  {
    hide Taken, Deferral, Store, KindOf, ShortLen, Later, FinderOK, FoundAt, Coded;
    if Refused(p.v, x.ts == [], x.lit, x.m.len, x.m.off) then
      FoundFits(p, x.at + 1);
      Parse(x.ts, x.at + 1, x.lit + 1, x.last, FoundAt(p, x.at + 1))
    else
      var m, a := Taken(p, x), Deferral(p, x);
      if a == 0 then
        FoundFits(p, x.at + m.len);
        Parse(Coded(p, x, m), x.at + m.len, 0, m.off, FoundAt(p, x.at + m.len))
      else
        var m2 := Later(p, x.last, m, x.at + a).m;
        LaterFits(p, x.last, m, x.at + a);
        if ShortLen(p.v, x.ts == [], x.lit, m, a) != 0 then Parse(Coded(p, x, Pick(a, m.off)), x.at + a, 0, m.off, m2)
        else Parse(x.ts, x.at + a, x.lit + a, x.last, m2)
  }

  lemma FoundFits(p: Setup, at: nat)
    requires p.OK() && at <= |p.input|
    ensures at < |p.input| && 2 <= FoundAt(p, at).len ==> at + FoundAt(p, at).len <= |p.input|
  {
    if at < |p.input| {
      BestSize(p, at);
    }
  }

  lemma LaterFits(p: Setup, last: nat, m: Pick, at: nat)
    requires p.OK() && at < |p.input| && 2 <= m.len && Later(p, last, m, at).Some?
    ensures var m2 := Later(p, last, m, at).m; 2 <= m2.len && at + m2.len <= |p.input|
  {
    BestSize(p, at);
  }

  ghost function Parses(p: Setup, x: Parse): (y: Parse)
    requires ParseOK(p, x)
    ensures ParseOK(p, y) && y.at == |p.input|
    decreases |p.input| - x.at
  {
    if x.at == |p.input| then x else Parses(p, Next(p, x))
  }

  /** The cases of a round. */
  lemma NextIs(p: Setup, x: Parse)
    requires ParseOK(p, x) && x.at < |p.input|
    ensures Refused(p.v, x.ts == [], x.lit, x.m.len, x.m.off) ==>
              Next(p, x) == Parse(x.ts, x.at + 1, x.lit + 1, x.last, FoundAt(p, x.at + 1))
    ensures !Refused(p.v, x.ts == [], x.lit, x.m.len, x.m.off) ==>
              2 <= x.m.len &&
              var m, a := Taken(p, x), Deferral(p, x);
              if a == 0 then Next(p, x) == Parse(Coded(p, x, m), x.at + m.len, 0, m.off, FoundAt(p, x.at + m.len))
              else
                && Later(p, x.last, m, x.at + a).Some?
                && Next(p, x) ==
                   var m2 := Later(p, x.last, m, x.at + a).m;
                   if ShortLen(p.v, x.ts == [], x.lit, m, a) != 0
                   then Parse(Coded(p, x, Pick(a, m.off)), x.at + a, 0, m.off, m2)
                   else Parse(x.ts, x.at + a, x.lit + a, x.last, m2)
  {
    hide Ahead, Improved, Later, ShortLen, Scope, Coded, FinderOK;
  }

  lemma OneRound(p: Setup, x: Parse)
    requires ParseOK(p, x)
    ensures Parses(p, x) == if x.at == |p.input| then x else Parses(p, Next(p, x))
  {
    hide Next;
  }

  ghost function FirstParse(p: Setup): (x: Parse)
    requires p.OK()
    ensures ParseOK(p, x)
  {
    FoundFits(p, 0);
    Parse([], 0, 0, 0, FoundAt(p, 0))
  }

  /** The tokens lzo1x_999_compress_internal chooses. */
  ghost function Tokens(p: Setup): seq<Token>
    requires p.OK()
  {
    var y := Parses(p, FirstParse(p));
    Store(y.ts, p.input[|p.input| - y.lit..])
  }

  /** `bs` is the compressed form of the input. */
  ghost predicate Compressed(p: Setup, bs: seq<byte>) {
    p.OK() && ShapedAll(p.v, Tokens(p)) && bs == EncAll(p.v, Tokens(p)) + EOF_MARK
  }

  // ----- the compressor -----

  /** min_gain. */
  method LazyMinGain(ahead: nat, lit1: nat, lit2: nat, l1: nat, l2: nat, l3: nat) returns (n: nat)
    ensures n == MinGain(ahead, lit1, lit2, l1, l2, l3)
  {
    var g: int := ahead;
    if lit1 <= 3 {
      g := g + if lit2 <= 3 then 0 else 2;
    } else if lit1 <= 18 {
      g := g + if lit2 <= 18 then 0 else 1;
    }
    g := g + (l2 - l1) * 2;
    if l3 != 0 {
      g := g - (ahead - l3) * 2;
    }
    if g < 0 {
      g := 0;
    }
    n := g;
  }

  /** better_match. */
  method Exchange(v: Variant, last: nat, best: seq<nat>, len: nat, off: nat) returns (len': nat, off': nat)
    requires |best| == SWD_BEST_OFF
    ensures (len', off') == BetterMatch(v, last, best, len, off)
  {
    len', off' := len, off;
    if len <= M2_MIN_LEN {
      return;
    }
    if v.LZO1Z? {
      if off == last && len <= M2MaxLen(v) {
        return;
      }
      if M2_MIN_LEN + 1 <= len <= M2MaxLen(v) + 1 && last != 0 && best[len - 1] == last {
        return len - 1, best[len - 1];
      }
    }
    if off <= M2MaxOffset(v) {
      return;
    }
    if M2_MIN_LEN + 1 <= len <= M2MaxLen(v) + 1 && best[len - 1] != 0 && best[len - 1] <= M2MaxOffset(v) {
      return len - 1, best[len - 1];
    }
    if off > M3_MAX_OFFSET {
      if M4_MAX_LEN + 1 <= len <= M2MaxLen(v) + 2 && best[len - 2] != 0 && best[len - 2] <= M2MaxOffset(v) {
        return len - 2, best[len - 2];
      }
      if M4_MAX_LEN + 1 <= len <= M3_MAX_LEN + 1 && best[len - 1] != 0 && best[len - 1] <= M3_MAX_OFFSET {
        return len - 1, best[len - 1];
      }
    }
  }

  /** len_of_coded_match. */
  method LenOfCodedMatch(v: Variant, len: nat, off: nat, lit: nat) returns (n: nat)
    ensures n == CodedLen(v, len, off, lit)
  {
    if len < 2 {
      return 0;
    }
    if len == 2 {
      return if off <= M1_MAX_OFFSET && lit > 0 && lit < 4 then 2 else 0;
    }
    if (len <= M2MaxLen(v) && off <= M2MaxOffset(v)) || (len == M2_MIN_LEN && off <= MXMaxOffset(v) && lit >= 4) {
      return 2;
    }
    if off > M4_MAX_OFFSET {
      return 0;
    }
    var max := if off <= M3_MAX_OFFSET then M3_MAX_LEN else M4_MAX_LEN;
    if len <= max {
      return 3;
    }
    var m := len - max;
    n := 4;
    while m > 255
      invariant 1 <= m && n + |Ext(m)| == 4 + |Ext(len - max)|
    {
      m := m - 255;
      n := n + 1;
    }
  }

  /** The struct `c`: what has been emitted, and what the match finder has found at `bp`. */
  class Coder {
    const p: Setup
    const buf: array<byte>
    var op: nat
    var r1Lit: nat
    var lastOff: nat
    var litBytes: nat
    var matchBytes: nat
    var bp: nat
    var look: nat
    var mLen: nat
    var mOff: nat
    var best: seq<nat>
    ghost var ts: seq<Token>
    ghost var slack: nat

    constructor (p: Setup, buf: array<byte>)
      ensures this.p == p && this.buf == buf && op == 0 && litBytes == 0 && matchBytes == 0 && lastOff == 0
      ensures bp == 0 && ts == [] && slack == 0
    {
      this.p, this.buf := p, buf;
      op, ts, slack := 0, [], 0;
      r1Lit, lastOff, litBytes, matchBytes := 0, 0, 0, 0;
      bp, look, mLen, mOff, best := 0, 0, 0, 0, [];
    }

    /** A sixteenth more than the input, and five bytes. */
    predicate Roomy() {
      |p.input| + |p.input| / 16 + 5 <= buf.Length
    }

    /** What has been written. */
    ghost function Out(): seq<byte>
      requires op <= buf.Length
      reads `op, buf
    {
      buf[..op]
    }

    /** The output encodes the tokens, and the last offset is the decoder's. */
    ghost predicate Holds()
      reads `op, buf, `lastOff, `ts
    {
      && op <= buf.Length && ShapedAll(p.v, ts) && Out() == EncAll(p.v, ts)
      && lastOff == ApplyAll(p.Start(), ts).last
    }

    /** The input up to `at` has been emitted, but for its last `lit` bytes. */
    ghost predicate Pending(at: nat, lit: nat)
      reads `op, buf, `lastOff, `litBytes, `matchBytes, `ts, `slack
    {
      && p.OK() && Roomy() && lit <= at <= |p.input|
      && Emitted(p.v, p.word, p.Start(), ts, p.Window()[..|p.dict| + at - lit], slack) && Open(ts)
      && Holds() && litBytes + matchBytes == at - lit
    }

    /** Every part of the output is paid for, or the match found at `bp` will pay for it. */
    ghost predicate Owed()
      reads `ts, `slack, `look, `mLen, `mOff
    {
      slack == 0 || (ts != [] && look > 0 && Covers(p.v, slack, mLen, mOff, 104))
    }

    /** What is known about the position `bp`. */
    ghost predicate Found()
      reads `bp, `look, `mLen, `mOff, `best
    {
      && bp <= |p.input|
      && look == (if |p.input| - bp > SWD_F + 1 then SWD_F + 1 else |p.input| - bp)
      && (look > 0 ==> OfferOK(p.Window(), |p.dict| + bp, Offer(mLen, mOff, best)) && best == p.find(bp).best)
    }

    /** find_match: accepts `thisLen` bytes, of which `skip - 1` have been accepted before. */
    method FindMatch(thisLen: nat, skip: nat)
      requires p.OK() && (if skip > 0 then skip <= thisLen else thisLen <= 1)
      requires bp + (if skip > 0 then thisLen - skip + 1 else thisLen) <= |p.input|
      modifies `bp, `look, `mLen, `mOff, `best
      ensures bp == old(bp) + (if skip > 0 then thisLen - skip + 1 else thisLen) && Found()
      ensures look > 0 ==> Pick(mLen, mOff) == FoundAt(p, bp)
    {
      hide BestOK, IsMatch;
      bp := bp + if skip > 0 then thisLen - skip + 1 else thisLen;
      look := if |p.input| - bp > SWD_F + 1 then SWD_F + 1 else |p.input| - bp;
      if look == 0 {
        mLen := 0;
      } else {
        var o := p.find(bp);
        mLen, mOff, best := o.len, o.off, o.best;
      }
    }

    /** `*op++ = b`. */
    method Put(b: byte)
      requires op < buf.Length
      modifies `op, buf
      ensures op == old(op) + 1 && Out() == old(Out()) + [b]
    {
      AsWritten(buf, op);
      op := PutByte(buf, 0, op, b);
      AsWritten(buf, op);
    }

    method PutPair(b0: byte, b1: byte)
      requires op + 2 <= buf.Length
      modifies `op, buf
      ensures op == old(op) + 2 && Out() == old(Out()) + [b0, b1]
    {
      AsWritten(buf, op);
      op := PutTwo(buf, 0, op, b0, b1);
      AsWritten(buf, op);
    }

    /** A marker with the length in its low bits, or extended. */
    method PutLength(marker: byte, n: nat, max: nat)
      requires n >= 1 && marker + max < 256 && op + |LenBytes(marker, n, max)| <= buf.Length
      modifies `op, buf
      ensures op == old(op) + |LenBytes(marker, n, max)| && Out() == old(Out()) + LenBytes(marker, n, max)
    {
      hide LenBytes;
      AsWritten(buf, op);
      op := PutLen(buf, 0, op, marker, n, max);
      AsWritten(buf, op);
    }

    method PutOff(o: nat)
      requires op + 2 <= buf.Length
      modifies `op, buf
      ensures op == old(op) + 2 && Out() == old(Out()) + OffBytes(p.v, o % 0x4000, 0)
    {
      OffTruncated(o);
      if p.v.LZO1Z? {
        PutPair(Trunc(o / 64), Trunc(o * 4));
      } else {
        PutPair(Trunc(o * 4), Trunc(o / 64));
      }
    }

    method PutM1(o: nat)
      requires o < M1_MAX_OFFSET && op + 2 <= buf.Length
      modifies `op, buf
      ensures op == old(op) + 2 && Out() == old(Out()) + M1Bytes(p.v, o, 0)
    {
      hide Trunc;
      SmallOff(o);
      if p.v.LZO1Z? {
        PutPair(o / 64, Trunc(o * 4));
      } else {
        PutPair(o % 4 * 4, o / 4);
      }
    }

    method PutM2(len: nat, off: nat)
      requires InRange(p.v, M2, len, off) && op + 2 <= buf.Length
      modifies `op, buf
      ensures op == old(op) + 2 && Out() == old(Out()) + M2Bytes(p.v, len, off - 1, 0)
    {
      hide Trunc;
      var o := off - 1;
      match p.v {
        case LZO1X => PutPair((len - 1) * 32 + o % 8 * 4, o / 8);
        case LZO1Y => PutPair((len + 1) * 16 + o % 4 * 4, o / 4);
        case LZO1Z =>
          SmallOff(o);
          PutPair((len - 1) * 32 + o / 64, Trunc(o * 4));
      }
    }

    /** The bytes of a match without literals. */
    method PutMatch(len: nat, off: nat)
      requires Codable(len, off, r1Lit) && InRange(p.v, KindOf(p.v, len, off, r1Lit, lastOff), len, off)
      requires op + |MatchBytes(p.v, KindOf(p.v, len, off, r1Lit, lastOff), len, off, 0)| <= buf.Length
      modifies `op, buf
      ensures var bs := MatchBytes(p.v, KindOf(p.v, len, off, r1Lit, lastOff), len, off, 0);
              op == old(op) + |bs| && Out() == old(Out()) + bs
    {
      hide LenBytes, CodedLen, M1Bytes, M2Bytes, OffBytes, Out;
      if len == 2 {
        PutM1(off - 1);
      } else if len <= M2MaxLen(p.v) && (off <= M2MaxOffset(p.v) || (p.v.LZO1Z? && off == lastOff)) {
        if p.v.LZO1Z? && off == lastOff {
          Put((len - 1) * 32 + 0x700 / 64);
        } else {
          PutM2(len, off);
        }
      } else if len == M2_MIN_LEN && off <= MXMaxOffset(p.v) && r1Lit >= 4 {
        PutM1(off - 1 - M2MaxOffset(p.v));
      } else if off <= M3_MAX_OFFSET {
        PutLong(M3_MARKER, len - 2, 31, off - 1);
      } else {
        var o := off - 0x4000;
        PutLong(M4_MARKER + o / 0x4000 * 8, len - 2, 7, o);
      }
    }

    /** A length and an offset. */
    method PutLong(marker: byte, n: nat, max: nat, o: nat)
      requires n >= 1 && marker + max < 256 && op + |LenBytes(marker, n, max)| + 2 <= buf.Length
      modifies `op, buf
      ensures op == old(op) + |LenBytes(marker, n, max)| + 2
      ensures Out() == old(Out()) + (LenBytes(marker, n, max) + OffBytes(p.v, o % 0x4000, 0))
    {
      hide LenBytes, OffBytes, Out;
      PutLength(marker, n, max);
      PutOff(o);
    }

    /** code_match. */
    method CodeMatch(len: nat, off: nat)
      requires Codable(len, off, r1Lit) && Holds() && off <= |ApplyAll(p.Start(), ts).out|
      requires InRange(p.v, KindOf(p.v, len, off, r1Lit, lastOff), len, off)
      requires op + |MatchBytes(p.v, KindOf(p.v, len, off, r1Lit, lastOff), len, off, 0)| <= buf.Length
      modifies `op, buf, `lastOff, `matchBytes, `ts
      ensures ts == old(ts) + [Match(KindOf(p.v, len, off, r1Lit, old(lastOff)), len, off, [])]
      ensures Holds() && matchBytes == old(matchBytes) + len && lastOff == off
    {
      hide MatchBytes, KindOf, ApplyAll, EncAll, LegalAll, Enc;
      ghost var m := Match(KindOf(p.v, len, off, r1Lit, lastOff), len, off, []);
      matchBytes := matchBytes + len;
      PutMatch(len, off);
      MatchEnc(p.v, ts, m);
      LegalSnoc(p.v, 0, p.Start(), ts, m);
      lastOff := off;
      ts := ts + [m];
    }

    method PutLits(ii: nat, t: nat)
      requires ii + t <= |p.input| && op + t <= buf.Length
      modifies `op, buf
      ensures op == old(op) + t && Out() == old(Out()) + p.input[ii..ii + t]
    {
      AsWritten(buf, op);
      op := PutBytes(buf, 0, op, p.input, ii, t);
      AsWritten(buf, op);
    }

    /** STORE_RUN. */
    method StoreRun(ii: nat, t: nat)
      requires 1 <= t && ii + t <= |p.input| && Holds() && Open(ts)
      requires ShapedAll(p.v, Store(ts, p.input[ii..ii + t]))
      requires |EncAll(p.v, Store(ts, p.input[ii..ii + t]))| <= buf.Length
      modifies `op, buf, `litBytes, `ts
      ensures ts == Store(old(ts), p.input[ii..ii + t]) && Holds() && litBytes == old(litBytes) + t
    {
      hide Headed, LenBytes, OrLow, ApplyAll, EncAll, ShapedAll, Store;
      ghost var lits := p.input[ii..ii + t];
      StoreEnc(p.v, ts, lits);
      StoreLast(p.v, p.Start(), ts, lits);
      litBytes := litBytes + t;
      PutHeader(t);
      PutLits(ii, t);
      ts := Store(ts, lits);
    }

    method PutHeader(t: nat)
      requires 1 <= t && op <= buf.Length && (op == 0 || TrailBack(p.v) <= op) && |Headed(p.v, Out(), t)| <= buf.Length
      modifies `op, buf
      ensures op <= buf.Length && Out() == old(Headed(p.v, Out(), t))
    {
      hide LenBytes, OrLow;
      if op == 0 && t <= 238 {
        Put(17 + t);
      } else if t <= 3 {
        if op != 0 {
          var at := op - TrailBack(p.v);
          buf[at] := OrLow(buf[at], t);
        }
      } else {
        PutLength(0, t - 3, 15);
      }
    }

    /** code_run. */
    method CodeRun(ii: nat, lit: nat, len: nat)
      requires ii + lit <= |p.input| && Holds() && Open(ts) && (if lit > 0 then len >= 2 else len >= 3)
      requires ShapedAll(p.v, Store(ts, p.input[ii..ii + lit]))
      requires |EncAll(p.v, Store(ts, p.input[ii..ii + lit]))| <= buf.Length
      modifies `op, buf, `litBytes, `r1Lit, `ts
      ensures ts == Store(old(ts), p.input[ii..ii + lit]) && Holds()
      ensures litBytes == old(litBytes) + lit && r1Lit == lit
    {
      if lit > 0 {
        StoreRun(ii, lit);
      } else {
        StoreNothing(ts);
      }
      r1Lit := lit;
    }

    /** The tokens up to `at` fit the buffer, when what is owed for them is covered by the rest of the input. */
    lemma RoomFor(us: seq<Token>, at: nat, owed: nat)
      requires p.OK() && Roomy() && at <= |p.input| && owed <= 17 * (|p.input| - at) + RUN_SLACK
      requires Emitted(p.v, p.word, p.Start(), us, p.Window()[..|p.dict| + at], owed)
      ensures ShapedAll(p.v, us) && |EncAll(p.v, us)| + 3 <= buf.Length
    {
      hide LegalAll, ApplyAll, EncAll;
      EmittedSize(p.v, p.word, p.Start(), us, p.Window()[..|p.dict| + at], owed);
    }

    lemma Reaches(us: seq<Token>, at: nat, len: nat, off: nat, owed: nat)
      requires at <= |p.input| && Emitted(p.v, p.word, p.Start(), us, p.Window()[..|p.dict| + at], owed)
      requires Same(p.Window(), |p.dict| + at, off, len)
      ensures off <= |ApplyAll(p.Start(), us).out|
    {
    }

    /** Literals and the match behind them, at `at`. */
    method PutGroup(at: nat, lit: nat, len: nat, off: nat)
      requires Pending(at, lit) && Codable(len, off, lit)
      requires Same(p.Window(), |p.dict| + at, off, len) && at + len <= |p.input|
      requires op == 0 ==> lit != 0
      requires slack <= 17 * (|p.input| - at)
      requires Settle(slack, lit, Worth(p.v, len, off, lit, lastOff)) <= 17 * (|p.input| - at - len)
      modifies `op, buf, `r1Lit, `lastOff, `litBytes, `matchBytes, `ts, `slack
      ensures Pending(at + len, 0) && ts != []
      ensures slack == Settle(old(slack), lit, Worth(p.v, len, off, lit, old(lastOff)))
      ensures ts == Store(old(ts), p.input[at - lit..at]) +
                    [Match(KindOf(p.v, len, off, lit, old(lastOff)), len, off, [])]
      ensures lastOff == off
    {
      hide ApplyAll, EncAll, LegalAll, Lean, Store, KindOf, Pays, Worth, Settle, Emitted, Same, ShapedAll, MatchBytes;
      ghost var w, lits := p.Window(), p.input[at - lit..at];
      assert w[|p.dict| + at - lit..|p.dict| + at] == lits;
      EncNil(p.v, ts);
      ghost var us := Store(ts, lits);
      EmitStored(p, ts, |p.dict| + at, lit, slack);
      RoomFor(us, at, if lit < 4 then slack else slack + RUN_SLACK);
      EmitGroup(p, ts, |p.dict| + at, lit, len, off, slack);
      RoomFor(us + [Match(KindOf(p.v, len, off, lit, lastOff), len, off, [])], at + len,
           Settle(slack, lit, Worth(p.v, len, off, lit, lastOff)));
      Reaches(us, at, len, off, if lit < 4 then slack else slack + RUN_SLACK);
      slack := Settle(slack, lit, Worth(p.v, len, off, lit, lastOff));
      CodedLenExact(p.v, len, off, lit, lastOff);
      MatchEnc(p.v, us, Match(KindOf(p.v, len, off, lit, lastOff), len, off, []));
      CodeRun(at - lit, lit, len);
      CodeMatch(len, off);
    }

    lemma PendingLater(at: nat, lit: nat, k: nat)
      requires Pending(at, lit) && at + k <= |p.input|
      ensures Pending(at + k, lit + k)
    {
    }

    /** The match at the next position, if it may be better than one of length `len`. */
    method LookAhead(len: nat, off: nat) returns (better: bool)
      requires p.OK() && Found() && 2 <= len < look
      modifies `bp, `look, `mLen, `mOff, `best
      ensures Found() && bp == old(bp) + 1 && look > 0
      ensures var l := Later(p, lastOff, Pick(len, off), bp);
              (better <==> l.Some?) && (better ==> l.m == Pick(mLen, mOff))
    {
      hide Same, BetterMatch, Codable, Pays, FinderOK;
      FindMatch(1, 0);
      if p.v.LZO1Z? && off == lastOff && mOff != lastOff && M2_MIN_LEN <= len <= M2MaxLen(p.v) {
        mLen := 0;
      }
      if mLen < len || (mLen == len && mOff >= off) {
        return false;
      }
      if p.useBest {
        BetterMatchOK(p.v, p.Window(), |p.dict| + bp, lastOff, best, mLen, mOff);
        mLen, mOff := Exchange(p.v, lastOff, best, mLen, mOff);
      }
      better := true;
    }

    lemma OfferInRange()
      requires Found() && look > 0
      ensures mLen >= 2 ==> 1 <= mOff <= M4_MAX_OFFSET && bp + mLen <= |p.input|
    {
    }

    /** Whether the match found `ahead` bytes further on is worth it; if so the bytes before it become
        literals, or a shortened form of the match at hand. */
    method Prefer(lit: nat, len: nat, off: nat, ahead: nat, l1: nat) returns (done: bool, lit': nat)
      requires 1 <= ahead < len && ahead <= bp <= |p.input| && Pending(bp - ahead, lit) && Found() && look > 0
      requires IsMatch(p.Window(), |p.dict| + bp - ahead, len, off) && Codable(len, off, lit)
      requires ahead < l1 == CodedLen(p.v, len, off, lit) && Backed(len, off)
      modifies `op, buf, `r1Lit, `lastOff, `litBytes, `matchBytes, `ts, `slack
      ensures if done then Pending(bp, lit') && Owed() else Pending(bp - ahead, lit)
      ensures !done ==> op == old(op) && lastOff == old(lastOff) && slack == old(slack) && ts == old(ts)
      ensures done <==> Preferred(p.v, old(ts) == [], lit, Pick(len, off), ahead, Pick(mLen, mOff))
      ensures done ==> Deferred(old(ts), old(lastOff), bp - ahead, lit, Pick(len, off), ahead, lit')
    {
      hide Pending, IsMatch, CodedLen, Pays, MinGain, Worth, Covers, Same, Store, KindOf;
      OfferInRange();
      NoneYet(bp - ahead, lit);
      done, lit' := false, lit;
      var l2 := LenOfCodedMatch(p.v, mLen, mOff, lit + ahead);
      if l2 == 0 {
        return;
      }
      var l3 := 0;
      if op != 0 {
        l3 := LenOfCodedMatch(p.v, ahead, off, lit);
      }
      var gain := LazyMinGain(ahead, lit, lit + ahead, l1, l2, l3);
      if mLen < len + gain {
        return;
      }
      StillCovers(p.v, slack, lit, len, off, ahead, l3, mLen, mOff, lastOff);
      if l3 != 0 {
        MatchFits(bp - ahead, len, off);
        CoverBound(p.v, slack, len, off, 102);
        CoverBound(p.v, Settle(slack, lit, Worth(p.v, ahead, off, lit, lastOff)), mLen, mOff, 104);
        Shortened(p.v, p.Window(), |p.dict| + bp - ahead, len, off, ahead, lit);
        PutGroup(bp - ahead, lit, ahead, off);
        return true, 0;
      }
      PendingLater(bp - ahead, lit, ahead);
      done, lit' := true, lit + ahead;
    }

    /** The bytes before a later match have been coded as a shortened match, or left as literals. */
    ghost predicate Deferred(ts0: seq<Token>, last: nat, at: nat, lit: nat, m: Pick, ahead: nat, lit': nat)
      requires lit <= at <= |p.input|
      reads `ts, `lastOff
    {
      if ShortLen(p.v, ts0 == [], lit, m, ahead) != 0 then
        && ts == Store(ts0, p.input[at - lit..at]) + [Match(KindOf(p.v, ahead, m.off, lit, last), ahead, m.off, [])]
        && lastOff == m.off && lit' == 0
      else ts == ts0 && lastOff == last && lit' == lit + ahead
    }

    lemma NoneYet(at: nat, lit: nat)
      requires Pending(at, lit)
      ensures lit <= at <= |p.input| && (op == 0 <==> ts == [])
    {
      EncSome(p.v, ts);
    }

    /** How far to look for a better match, and the size of this one. */
    method Horizon(len: nat, off: nat, lit: nat) returns (l1: nat, maxAhead: nat)
      requires Codable(len, off, lit)
      ensures maxAhead < len && (maxAhead > 0 ==> maxAhead < l1 == CodedLen(p.v, len, off, lit))
      ensures maxAhead == Scope(p, Pick(len, off), lit)
    {
      if p.tryLazy == 0 || len >= p.maxLazy {
        return 0, 0;
      }
      CodedLenExact(p.v, len, off, lit, 0);
      l1 := LenOfCodedMatch(p.v, len, off, lit);
      maxAhead := if p.tryLazy < l1 - 1 then p.tryLazy else l1 - 1;
    }

    /** What is owed is covered by the match that has been accepted. */
    ghost predicate Backed(len: nat, off: nat)
      reads `ts, `slack
    {
      slack > 0 ==> ts != [] && Covers(p.v, slack, len, off, 102)
    }

    /** The lazy loop: looks for a longer match up to `tryLazy` bytes further on. */
    method TryLazy(lit: nat, len: nat, off: nat) returns (done: bool, ahead: nat, lit': nat)
      requires Pending(bp, lit) && Found() && IsMatch(p.Window(), |p.dict| + bp, len, off)
      requires Codable(len, off, lit) && Backed(len, off)
      modifies this, buf
      ensures Found() && bp == old(bp) + ahead && ahead < len
      ensures if done then 1 <= ahead && Pending(bp, lit') && Owed() else Pending(old(bp), lit)
      ensures !done ==> op == old(op) && lastOff == old(lastOff) && slack == old(slack) && ts == old(ts)
      ensures var m := Pick(len, off);
              var a := Ahead(p, old(ts) == [], old(lastOff), old(bp), lit, m, 0, Scope(p, m, lit));
              && (done <==> a != 0)
              && (done ==> ahead == a && Later(p, old(lastOff), m, bp) == Some(Pick(mLen, mOff))
                           && Deferred(old(ts), old(lastOff), old(bp), lit, m, a, lit'))
    {
      hide IsMatch, Codable, OfferOK, Emitted, Open, Holds, Covers, CodedLen, Later, Preferred, FinderOK, Deferred,
        Scope;
      hide Ahead, Same, BestOK, EncAll, ShapedAll, LegalAll, ApplyAll;
      done, ahead, lit' := false, 0, lit;
      MatchFits(bp, len, off);
      var l1, maxAhead := Horizon(len, off, lit);
      ghost var a := Ahead(p, ts == [], lastOff, bp, lit, Pick(len, off), 0, maxAhead);
      while ahead < maxAhead && look > len
        invariant ahead <= maxAhead < len && bp == old(bp) + ahead
        invariant Found() && Pending(old(bp), lit)
        invariant op == old(op) && lastOff == old(lastOff) && slack == old(slack) && ts == old(ts)
        invariant a == Ahead(p, ts == [], lastOff, old(bp), lit, Pick(len, off), ahead, maxAhead)
      {
        AheadIs(p, ts == [], lastOff, bp - ahead, lit, Pick(len, off), ahead, maxAhead);
        var better := LookAhead(len, off);
        ahead := ahead + 1;
        if better {
          done, lit' := Prefer(lit, len, off, ahead, l1);
          if done {
            return;
          }
        }
      }
      AheadIs(p, ts == [], lastOff, bp - ahead, lit, Pick(len, off), ahead, maxAhead);
    }

    /** better_match, if it is asked for. */
    method Improve(len: nat, off: nat) returns (len': nat, off': nat)
      requires Found() && look > 0 && IsMatch(p.Window(), |p.dict| + bp, len, off)
      requires slack > 0 ==> ts != [] && Covers(p.v, slack, len, off, 104)
      ensures IsMatch(p.Window(), |p.dict| + bp, len', off') && Backed(len', off')
      ensures forall lit :: Codable(len, off, lit) ==> Codable(len', off', lit)
      ensures forall lit :: Pays(p.v, len, off, lit, lastOff) ==> Pays(p.v, len', off', lit, lastOff)
      ensures |best| == SWD_BEST_OFF && Pick(len', off') == Improved(p, lastOff, best, Pick(len, off))
    {
      hide Same, BetterMatch, Gain;
      len', off' := len, off;
      if p.useBest {
        BetterMatchOK(p.v, p.Window(), |p.dict| + bp, lastOff, best, len, off);
        if slack > 0 {
          BetterGain(p.v, p.Window(), |p.dict| + bp, lastOff, best, len, off);
        }
        len', off' := Exchange(p.v, lastOff, best, len, off);
      }
    }

    /** Which matches are coded at all; 0 stands for a literal. */
    method Accept(lit: nat) returns (len: nat, off: nat)
      requires p.OK() && Found() && look > 0 && Holds() && Open(ts) && Owed()
      ensures len != 0 ==>
                && IsMatch(p.Window(), |p.dict| + bp, len, off) && Codable(len, off, lit)
                && (op == 0 ==> lit != 0) && Pays(p.v, len, off, lit, lastOff)
      ensures if len == 0 then slack == 0 else Backed(len, off)
      ensures |best| == SWD_BEST_OFF
      ensures if Refused(p.v, ts == [], lit, mLen, mOff) then len == 0
              else Pick(len, off) == Improved(p, lastOff, best, Pick(mLen, mOff))
    {
      hide Same, Gain, BestOK, MatchBytes;
      len, off := mLen, mOff;
      EncSome(p.v, ts);
      BestSize(p, bp);
      if slack > 0 {
        GainLong(p.v, len, off);
      }
      if len < 2 || (len == 2 && (off > M1_MAX_OFFSET || lit == 0 || lit >= 4)) || (len == 2 && op == 0)
         || (op == 0 && lit == 0) {
        return 0, off;
      }
      if len == M2_MIN_LEN && off > MXMaxOffset(p.v) && lit >= 4 {
        return 0, off;
      }
      len, off := Improve(len, off);
    }

    /** The main loop stands at `x`. */
    ghost predicate At(x: Parse, lit: nat)
      reads `bp, `look, `mLen, `mOff, `lastOff, `ts
    {
      && ParseOK(p, x) && x.at == bp && x.lit == lit && x.ts == ts && x.last == lastOff
      && (look > 0 ==> x.m == Pick(mLen, mOff))
    }

    /** One round of the main loop: a literal, or a match unless a later one is preferred. */
    method Round(lit: nat, ghost x: Parse) returns (lit': nat)
      requires Pending(bp, lit) && Found() && look > 0 && Owed() && At(x, lit)
      modifies this, buf
      ensures Pending(bp, lit') && Found() && Owed() && bp > old(bp) && At(Next(p, x), lit')
    {
      hide IsMatch, Codable, OfferOK, Emitted, Open, Holds, Pays, Covers, Worth, FinderOK, Refused, Improved, Ahead,
        Later;
      hide Preferred, ShortLen, Scope, KindOf, Store, Next, FoundAt;
      hide Same, CodedLen, BetterMatch, EncAll, ShapedAll;
      NextIs(p, x);
      var len, off := Accept(lit);
      NotRefused(p.v, ts == [], lit, mLen, mOff);
      if len == 0 {
        PendingLater(bp, lit, 1);
        FindMatch(1, 0);
        return lit + 1;
      }
      MatchFits(bp, len, off);
      var done, ahead, l := TryLazy(lit, len, off);
      if done {
        return l;
      }
      PaidFor(p.v, slack, lit, len, off, lastOff);
      CoverBound(p.v, slack, len, off, 102);
      PutGroup(bp - ahead, lit, len, off);
      FindMatch(len, 1 + ahead);
      lit' := 0;
    }

    lemma NotRefused(v: Variant, first: bool, lit: nat, len: nat, off: nat)
      ensures !Refused(v, first, lit, len, off) ==> 2 <= len
    {
    }

    lemma MatchFits(at: nat, len: nat, off: nat)
      requires IsMatch(p.Window(), |p.dict| + at, len, off)
      ensures 2 <= len && at + len <= |p.input| && Same(p.Window(), |p.dict| + at, off, len)
    {
    }

    /** lzo1x_999_compress_internal, for every setting of the search parameters. */
    method CompressInternal()
      requires p.OK() && Roomy() && op == 0 && ts == [] && slack == 0
      requires lastOff == 0 && bp == 0 && litBytes == 0 && matchBytes == 0
      modifies this, buf
      ensures op <= buf.Length && Encodes(p.v, p.word, p.Start(), Out(), p.Window(), RUN_SLACK)
      ensures litBytes + matchBytes == |p.input| && Compressed(p, Out())
    {
      hide Emitted, Holds, FinderOK, Next, Store, Parses, EncAll, ShapedAll, Encodes, OfferOK, Open, Covers, Compressed;
      hide FoundAt;
      Initially();
      FindMatch(0, 0);
      var lit := 0;
      ghost var x := FirstParse(p);
      while look > 0
        invariant Pending(bp, lit) && Found() && Owed() && At(x, lit) && Parses(p, x) == Parses(p, FirstParse(p))
        decreases |p.input| - bp
      {
        OneRound(p, x);
        lit := Round(lit, x);
        x := Next(p, x);
      }
      OneRound(p, x);
      Last(lit);
      Finished(lit);
    }

    lemma Finished(lit: nat)
      requires p.OK() && lit <= |p.input| && Parses(p, FirstParse(p)).lit == lit
      requires op <= buf.Length && ShapedAll(p.v, ts)
      requires ts == Store(Parses(p, FirstParse(p)).ts, p.input[|p.input| - lit..|p.input|])
      requires Out() == EncAll(p.v, ts) + EOF_MARK
      ensures Compressed(p, Out())
    {
      hide Parses, Store, ShapedAll, EncAll, FirstParse;
      assert p.input[|p.input| - lit..|p.input|] == p.input[|p.input| - lit..];
    }

    lemma Initially()
      requires p.OK() && Roomy() && op == 0 && ts == [] && slack == 0
      requires lastOff == 0 && litBytes == 0 && matchBytes == 0
      ensures Pending(0, 0)
    {
      EmitNothing(p.v, p.word, p.Start(), 0);
      assert p.Window()[..|p.dict|] == p.dict;
    }

    /** The final run and the end marker. */
    method Last(lit: nat)
      requires Pending(|p.input|, lit) && slack == 0
      modifies `op, buf, `litBytes, `ts, `slack
      ensures op <= buf.Length && Encodes(p.v, p.word, p.Start(), Out(), p.Window(), RUN_SLACK)
      ensures litBytes + matchBytes == |p.input|
      ensures ts == Store(old(ts), p.input[|p.input| - lit..|p.input|])
      ensures ShapedAll(p.v, ts) && Out() == EncAll(p.v, ts) + EOF_MARK
    {
      hide LegalAll, ApplyAll, EncAll, Lean, Same, Store;
      ghost var w := p.Window();
      var n := |p.input|;
      assert w[|p.dict| + n - lit..] == p.input[n - lit..n];
      assert w[..|p.dict| + n - lit] + w[|p.dict| + n - lit..] == w;
      if lit > 0 {
        EmitStore(p.v, p.word, p.Start(), ts, w[..|p.dict| + n - lit], p.input[n - lit..n], 0);
        slack := if lit < 4 then 0 else RUN_SLACK;
        RoomFor(Store(ts, p.input[n - lit..n]), n, slack);
        StoreRun(n - lit, lit);
      } else {
        RoomFor(ts, n, 0);
        StoreNothing(ts);
      }
      PutPair(M4_MARKER + 1, 0);
      Put(0);
      assert Out() == EncAll(p.v, ts) + EOF_MARK;
      assert EncodedBy(p.v, p.word, p.Start(), ts, Out(), w, slack);
      EncodesMore(p.v, p.word, p.Start(), Out(), w, slack, RUN_SLACK);
    }
  }

  /** When a later match is preferred, it covers what is owed then. */
  lemma StillCovers(v: Variant, slack: nat, lit: nat, len: nat, off: nat, ahead: nat, l3: nat, len2: nat, off2: nat,
                    last: nat)
    requires Codable(len, off, lit) && 1 <= ahead < CodedLen(v, len, off, lit)
    requires slack > 0 ==> Covers(v, slack, len, off, 102)
    requires l3 == 0 || l3 == CodedLen(v, ahead, off, lit)
    requires var l1, l2 := CodedLen(v, len, off, lit), CodedLen(v, len2, off2, lit + ahead);
             l2 > 0 && len2 >= len + MinGain(ahead, lit, lit + ahead, l1, l2, l3)
    requires 2 <= len2 && 1 <= off2 <= M4_MAX_OFFSET
    ensures var slack' := if l3 == 0 then slack else Settle(slack, lit, Worth(v, ahead, off, lit, last));
            slack' == 0 || Covers(v, slack', len2, off2, 104)
  {
    hide CodedLen, MinGain, Gain, KindOf;
    if slack > 0 {
      GainLong(v, len, off);
      DeferGain(v, lit, len, off, ahead, l3, len2, off2);
    }
    if l3 != 0 {
      ShortWorth(v, ahead, off, lit, last);
      if ahead >= 3 {
        FarGain(v, len, off, lit);
        DeferGain(v, lit, len, off, ahead, l3, len2, off2);
      }
    }
  }

  /** What a shortened match saves. */
  lemma ShortWorth(v: Variant, len: nat, off: nat, lit: nat, last: nat)
    requires 1 <= off <= M4_MAX_OFFSET && CodedLen(v, len, off, lit) != 0
    ensures 2 <= len && (len == 2 ==> lit < 4 && Worth(v, len, off, lit, last) >= 2)
    ensures len == 3 ==> Worth(v, len, off, lit, last) >= if CodedLen(v, len, off, lit) == 2 then 19 else 3
    ensures len >= 4 ==> Worth(v, len, off, lit, last) >= 20
  {
    hide CodedLen;
    CodedLenExact(v, len, off, lit, last);
    LongCode(v, len, off, lit);
    SmallSize(v, len, off, lit);
    ShortCode(v, len, off, lit);
  }

  /** What is owed is paid by the match that covers it; and a match that pays leaves nothing. */
  lemma PaidFor(v: Variant, slack: nat, lit: nat, len: nat, off: nat, last: nat)
    requires Codable(len, off, lit) && Pays(v, len, off, lit, last) && (slack > 0 ==> Covers(v, slack, len, off, 102))
    ensures Settle(slack, lit, Worth(v, len, off, lit, last)) == 0
  {
    hide CodedLen, KindOf;
    if slack > 0 {
      GainLong(v, len, off);
      GainIsWorth(v, len, off, lit, last);
    } else {
      WorthPays(v, len, off, lit, last);
    }
  }

  /** A match cut short is a match, and may be coded exactly when its size is not zero. */
  lemma Shortened(v: Variant, w: seq<byte>, at: nat, len: nat, off: nat, ahead: nat, lit: nat)
    requires IsMatch(w, at, len, off) && ahead < len
    ensures Same(w, at, off, ahead) && (CodedLen(v, ahead, off, lit) != 0 <==> Codable(ahead, off, lit))
  {
    CodedLenExact(v, ahead, off, lit, 0);
  }

  lemma EncNil(v: Variant, ts: seq<Token>)
    requires ShapedAll(v, ts)
    ensures ts == [] ==> EncAll(v, ts) == []
  {
  }

  // ----- compression levels -----

  /** What lzo1x_999_compress_level passes on that the emitted stream depends on. */
  datatype Level = Level(tryLazy: int, maxLazy: nat, useBest: bool)

  const LEVELS: seq<Level> := [
    Level(0, 0, false), Level(0, 0, false), Level(0, 0, false),
    Level(1, 4, false), Level(1, 16, false), Level(1, 16, false),
    Level(2, 32, false), Level(2, 128, true), Level(2, SWD_F, true)
  ]

  /** lzo1x_999_compress_internal's defaults, and swd_initdict's cut of the dictionary. */
  function SetupFor(v: Variant, word: nat, dict: seq<byte>, input: seq<byte>, find: nat -> Offer, l: Level): Setup {
    Setup(v, word, TrimDict(dict), input, find, if l.tryLazy < 0 then 1 else l.tryLazy,
          if l.maxLazy == 0 then 32 else l.maxLazy, l.useBest)
  }

  /** lzo1x_999_compress_level, into a buffer of the size that is ever needed. */
  method CompressLevel(v: Variant, word: nat, dict: seq<byte>, input: seq<byte>, find: nat -> Offer, level: int,
                       dst: array<byte>)
    returns (ok: bool, outLen: nat)
    requires |input| + 511 <= word && FinderOK(TrimDict(dict), input, find)
    requires |input| + |input| / 16 + 5 <= dst.Length
    modifies dst
    ensures ok <==> 1 <= level <= 9
    ensures !ok ==> dst[..] == old(dst[..])
    ensures ok ==> outLen <= dst.Length &&
                   Encodes(v, word, Ctx(Start, 0, TrimDict(dict)), dst[..outLen], TrimDict(dict) + input, RUN_SLACK)
    ensures ok ==> Compressed(SetupFor(v, word, dict, input, find, LEVELS[level - 1]), dst[..outLen])
  {
    if level < 1 || level > 9 {
      return false, 0;
    }
    hide FinderOK, Encodes, Compressed;
    var p := SetupFor(v, word, dict, input, find, LEVELS[level - 1]);
    var c := new Coder(p, dst);
    c.CompressInternal();
    ok, outLen := true, c.op;
  }
}
