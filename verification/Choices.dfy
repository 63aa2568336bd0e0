/** What the 999 compressors must find: of every stream, which bytes are literals and which matches are
    coded, told by what the match finder offers. */
module Choices {
  import opened Bytes
  import opened Format
  import opened Emission
  import opened Lzo999

  /** A number of literals and the match behind them. */
  datatype Group = Group(lits: nat, len: nat, off: nat)

  function Covered(gs: seq<Group>): nat {
    if gs == [] then 0 else Covered(gs[..|gs| - 1]) + gs[|gs| - 1].lits + gs[|gs| - 1].len
  }

  function LastOff(gs: seq<Group>): nat {
    if gs == [] then 0 else gs[|gs| - 1].off
  }

  function TokensOf(p: Setup, gs: seq<Group>): seq<Token>
    requires Covered(gs) <= |p.input|
  {
    if gs == [] then []
    else
      var us, g := gs[..|gs| - 1], gs[|gs| - 1];
      Store(TokensOf(p, us), p.input[Covered(us)..Covered(us) + g.lits])
      + [Match(KindOf(p.v, g.len, g.off, g.lits, LastOff(us)), g.len, g.off, [])]
  }

  // ----- the rules -----

  /** The match finder's best match at `i`, or a shorter one of three bytes or more when these are asked for. */
  ghost predicate Offered(p: Setup, i: nat, m: Pick) {
    && i < |p.input|
    && (|| m == Pick(p.find(i).len, p.find(i).off)
        || (p.useBest && 3 <= m.len < p.find(i).len && m.len < |p.find(i).best| && m.off == p.find(i).best[m.len] > 0))
  }

  /** The farthest offset of the short forms behind four literals or more. */
  function Near(v: Variant): nat {
    match v
    case LZO1X => 0xc00
    case LZO1Y => 0x800
    case LZO1Z => 0xb00
  }

  /** The matches that are not coded: none; of two bytes, too far, without one to three literals before it or at the
      beginning; any without literals at the very beginning; and of three bytes, far behind four literals or more. */
  predicate TooPoor(v: Variant, first: bool, lit: nat, m: Pick) {
    || m.len < 2
    || (m.len == 2 && (m.off > 0x400 || lit == 0 || lit >= 4 || first))
    || (m.len == 3 && m.off > Near(v) && lit >= 4)
    || (first && lit == 0)
  }

  /** A literal `j - from` bytes behind the last match: there was nothing worth coding, or the match at a place `b` not
      behind it was left for one at least as long further on. */
  ghost predicate Passed(p: Setup, first: bool, from: nat, j: nat)
    requires from <= j
  {
    || (exists m :: Offered(p, j, m) && TooPoor(p.v, first, j - from, m))
    || (exists b: nat, a: nat, m, m2 :: LeftFor(p, first, from, b, a, m, m2) && b <= j < b + a)
  }

  ghost predicate LeftFor(p: Setup, first: bool, from: nat, b: nat, a: nat, m: Pick, m2: Pick) {
    && from <= b && 1 <= a <= p.tryLazy && Offered(p, b, m) && Offered(p, b + a, m2) && 2 <= m.len <= m2.len
    && Preferred(p.v, first, b - from, m, a, m2)
  }

  ghost predicate AllPassed(p: Setup, first: bool, from: nat, to: nat) {
    forall j | from <= j < to :: Passed(p, first, from, j)
  }

  /** The match behind the literals is one that is offered there and not too poor, or one of the shorter ones for it;
      or its beginning, when a match at least as long follows. */
  ghost predicate GroupRule(p: Setup, first: bool, from: nat, g: Group) {
    var i := from + g.lits;
    && AllPassed(p, first, from, i)
    && exists m, m' :: Offered(p, i, m') && !TooPoor(p.v, first, g.lits, m') && Offered(p, i, m) && m.len <= m'.len
                       && CodedAs(p, i, m, g)
  }

  ghost predicate CodedAs(p: Setup, i: nat, m: Pick, g: Group) {
    && g.off == m.off
    && (g.len == m.len || (1 <= g.len <= p.tryLazy && exists m2 :: Offered(p, i + g.len, m2) && m.len <= m2.len))
  }

  ghost predicate Chosen(p: Setup, gs: seq<Group>) {
    gs == [] || (var us := gs[..|gs| - 1]; Chosen(p, us) && GroupRule(p, us == [], Covered(us), gs[|gs| - 1]))
  }

  ghost predicate AllChosen(p: Setup, gs: seq<Group>) {
    && Chosen(p, gs) && Covered(gs) <= |p.input|
    && AllPassed(p, gs == [], Covered(gs), |p.input|)
  }

  // ----- the stream keeps them -----

  ghost predicate Explains(p: Setup, gs: seq<Group>, x: Parse) {
    && Chosen(p, gs) && Covered(gs) + x.lit == x.at <= |p.input|
    && x.ts == TokensOf(p, gs) && x.last == LastOff(gs)
    && AllPassed(p, gs == [], Covered(gs), x.at)
    && (x.at < |p.input| ==> Offered(p, x.at, x.m))
  }

  lemma NoTokens(p: Setup, gs: seq<Group>)
    requires Covered(gs) <= |p.input|
    ensures TokensOf(p, gs) == [] <==> gs == []
  {
    hide Store;
  }

  lemma PoorIsRefused(v: Variant, first: bool, lit: nat, m: Pick)
    ensures TooPoor(v, first, lit, m) <==> Refused(v, first, lit, m.len, m.off)
  {
  }

  lemma ImprovedOffered(p: Setup, i: nat, last: nat, m: Pick)
    requires p.OK() && Offered(p, i, m) && 2 <= m.len && |p.find(i).best| == SWD_BEST_OFF
    ensures Offered(p, i, Improved(p, last, p.find(i).best, m))
  {
    hide FinderOK;
  }

  lemma LaterOffered(p: Setup, last: nat, m: Pick, at: nat)
    requires p.OK() && at < |p.input| && 2 <= m.len && Later(p, last, m, at).Some?
    ensures Offered(p, at, Later(p, last, m, at).m)
  {
    hide FinderOK, Improved, Offered;
    BestSize(p, at);
    FoundOffered(p, at);
    ImprovedOffered(p, at, last, Pick(p.find(at).len, p.find(at).off));
  }

  lemma FoundOffered(p: Setup, at: nat)
    requires p.OK() && at < |p.input|
    ensures Offered(p, at, FoundAt(p, at)) && FoundAt(p, at) == Pick(p.find(at).len, p.find(at).off)
  {
  }

  lemma PreferredLonger(v: Variant, first: bool, lit: nat, m: Pick, ahead: nat, m2: Pick)
    requires Preferred(v, first, lit, m, ahead, m2)
    ensures m.len <= m2.len
  {
    hide CodedLen;
  }

  lemma GroupsSnoc(p: Setup, gs: seq<Group>, g: Group)
    requires Chosen(p, gs) && GroupRule(p, gs == [], Covered(gs), g) && Covered(gs) + g.lits + g.len <= |p.input|
    ensures Chosen(p, gs + [g]) && Covered(gs + [g]) == Covered(gs) + g.lits + g.len && LastOff(gs + [g]) == g.off
    ensures TokensOf(p, gs + [g]) ==
            Store(TokensOf(p, gs), p.input[Covered(gs)..Covered(gs) + g.lits])
            + [Match(KindOf(p.v, g.len, g.off, g.lits, LastOff(gs)), g.len, g.off, [])]
  {
    hide GroupRule, Store, KindOf;
    assert (gs + [g])[..|gs|] == gs;
  }

  /** A literal at once. */
  lemma RefusedExplained(p: Setup, gs: seq<Group>, x: Parse)
    requires ParseOK(p, x) && x.at < |p.input| && Explains(p, gs, x)
    requires Refused(p.v, x.ts == [], x.lit, x.m.len, x.m.off)
    ensures Explains(p, gs, Next(p, x))
  {
    hide Chosen, Offered, TokensOf, TooPoor, Refused, Next, FinderOK, LeftFor;
    NextIs(p, x);
    NoTokens(p, gs);
    PoorIsRefused(p.v, gs == [], x.lit, x.m);
    assert Passed(p, gs == [], Covered(gs), x.at);
    if x.at + 1 < |p.input| {
      FoundOffered(p, x.at + 1);
    }
  }

  lemma TakenOffered(p: Setup, x: Parse)
    requires ParseOK(p, x) && x.at < |p.input| && 2 <= x.m.len && Offered(p, x.at, x.m)
    ensures Offered(p, x.at, Taken(p, x))
  {
    hide FinderOK, Improved, Offered;
    BestSize(p, x.at);
    ImprovedOffered(p, x.at, x.last, x.m);
  }

  /** A group is coded: a match, or the beginning of one. */
  lemma CodedExplained(p: Setup, gs: seq<Group>, x: Parse, len: nat, m: Pick, next: Pick)
    requires ParseOK(p, x) && x.at < |p.input| && Explains(p, gs, x) && x.at + len <= |p.input|
    requires !Refused(p.v, x.ts == [], x.lit, x.m.len, x.m.off) && m == Taken(p, x)
    requires len == m.len || (1 <= len <= p.tryLazy && exists m2 :: Offered(p, x.at + len, m2) && m.len <= m2.len)
    requires x.at + len < |p.input| ==> Offered(p, x.at + len, next)
    ensures Explains(p, gs + [Group(x.lit, len, m.off)],
                     Parse(Coded(p, x, Pick(len, m.off)), x.at + len, 0, m.off, next))
  {
    hide Chosen, Offered, TokensOf, TooPoor, Refused, FinderOK, Passed, Taken, Covered, Store, KindOf;
    var g := Group(x.lit, len, m.off);
    NoTokens(p, gs);
    NotRefused(p.v, x.ts == [], x.lit, x.m);
    PoorIsRefused(p.v, gs == [], x.lit, x.m);
    TakenOffered(p, x);
    TakenShorter(p, x);
    assert CodedAs(p, x.at, m, g);
    assert GroupRule(p, gs == [], Covered(gs), g);
    GroupsSnoc(p, gs, g);
  }

  lemma NotRefused(v: Variant, first: bool, lit: nat, m: Pick)
    requires !Refused(v, first, lit, m.len, m.off)
    ensures 2 <= m.len
  {
  }

  lemma TakenShorter(p: Setup, x: Parse)
    requires ParseOK(p, x) && x.at < |p.input| && 2 <= x.m.len
    ensures 2 <= Taken(p, x).len <= x.m.len
  {
    hide Taken;
  }

  /** The bytes before a later match are left as literals. */
  lemma LeftExplained(p: Setup, gs: seq<Group>, x: Parse)
    requires ParseOK(p, x) && x.at < |p.input| && Explains(p, gs, x)
    requires !Refused(p.v, x.ts == [], x.lit, x.m.len, x.m.off) && Deferral(p, x) != 0
    requires ShortLen(p.v, x.ts == [], x.lit, Taken(p, x), Deferral(p, x)) == 0
    ensures Explains(p, gs, Next(p, x))
  {
    hide Chosen, Offered, TokensOf, TooPoor, Refused, FinderOK, Taken, Covered, Next, Later, Preferred, ShortLen,
      Deferral;
    NotRefused(p.v, x.ts == [], x.lit, x.m);
    var m, a := Taken(p, x), Deferral(p, x);
    NextIs(p, x);
    NoTokens(p, gs);
    TakenOffered(p, x);
    TakenShorter(p, x);
    DeferralPreferred(p, x);
    var m2 := Later(p, x.last, m, x.at + a).m;
    LaterOffered(p, x.last, m, x.at + a);
    PreferredLonger(p.v, x.ts == [], x.lit, m, a, m2);
    assert LeftFor(p, gs == [], Covered(gs), x.at, a, m, m2);
    AllLeft(p, gs == [], Covered(gs), x.at, a, m, m2);
  }

  lemma AllLeft(p: Setup, first: bool, from: nat, b: nat, a: nat, m: Pick, m2: Pick)
    requires from <= b && AllPassed(p, first, from, b) && LeftFor(p, first, from, b, a, m, m2)
    ensures AllPassed(p, first, from, b + a)
  {
    hide LeftFor;
  }

  lemma DeferralPreferred(p: Setup, x: Parse)
    requires ParseOK(p, x) && x.at < |p.input| && 2 <= x.m.len && Deferral(p, x) != 0
    ensures var m, a := Taken(p, x), Deferral(p, x);
            && a <= p.tryLazy && x.at + a < |p.input| && Later(p, x.last, m, x.at + a).Some?
            && Preferred(p.v, x.ts == [], x.lit, m, a, Later(p, x.last, m, x.at + a).m)
  {
    hide Taken, FinderOK, Later, Preferred, Ahead, Scope;
  }

  /** A round keeps it. */
  lemma NextExplained(p: Setup, gs: seq<Group>, x: Parse) returns (hs: seq<Group>)
    requires ParseOK(p, x) && x.at < |p.input| && Explains(p, gs, x)
    ensures Explains(p, hs, Next(p, x))
  {
    hide Explains, Offered, FinderOK, Next, Refused, Taken, Deferral, Later, Preferred, ShortLen, Coded;
    NextIs(p, x);
    hs := gs;
    if Refused(p.v, x.ts == [], x.lit, x.m.len, x.m.off) {
      RefusedExplained(p, gs, x);
    } else {
      var m, a := Taken(p, x), Deferral(p, x);
      NotRefused(p.v, x.ts == [], x.lit, x.m);
      TakenShorter(p, x);
      if a == 0 {
        if x.at + m.len < |p.input| {
          FoundOffered(p, x.at + m.len);
        }
        CodedExplained(p, gs, x, m.len, m, FoundAt(p, x.at + m.len));
        hs := gs + [Group(x.lit, m.len, m.off)];
      } else if ShortLen(p.v, x.ts == [], x.lit, m, a) != 0 {
        DeferralPreferred(p, x);
        var m2 := Later(p, x.last, m, x.at + a).m;
        LaterOffered(p, x.last, m, x.at + a);
        PreferredLonger(p.v, x.ts == [], x.lit, m, a, m2);
        CodedExplained(p, gs, x, a, m, m2);
        hs := gs + [Group(x.lit, a, m.off)];
      } else {
        LeftExplained(p, gs, x);
      }
    }
  }

  lemma {:induction false} AllExplained(p: Setup, gs: seq<Group>, x: Parse) returns (hs: seq<Group>)
    requires ParseOK(p, x) && Explains(p, gs, x)
    ensures Explains(p, hs, Parses(p, x))
    decreases |p.input| - x.at
  {
    hide Explains, FinderOK, Next, Parses;
    OneRound(p, x);
    hs := gs;
    if x.at < |p.input| {
      hs := NextExplained(p, gs, x);
      hs := AllExplained(p, hs, Next(p, x));
    }
  }

  /** `bs` codes the groups and the literals behind them. */
  ghost predicate Codes(p: Setup, gs: seq<Group>, bs: seq<byte>) {
    && AllChosen(p, gs)
    && var ts := Store(TokensOf(p, gs), p.input[Covered(gs)..]);
       ShapedAll(p.v, ts) && bs == EncAll(p.v, ts) + EOF_MARK
  }

  /** For every match finder and every setting: in the compressed form no byte is a literal but where the match finder
      offers nothing worth coding, or shortly before a match at least as long. */
  lemma Thorough(p: Setup, bs: seq<byte>) returns (gs: seq<Group>)
    requires Compressed(p, bs)
    ensures Codes(p, gs, bs)
  {
    hide FinderOK, Parses, Store, EncAll, ShapedAll, Passed;
    var x := FirstParse(p);
    if 0 < |p.input| {
      FoundOffered(p, 0);
    }
    gs := AllExplained(p, [], x);
    var y := Parses(p, x);
    assert p.input[|p.input| - y.lit..] == p.input[Covered(gs)..];
  }

  // ----- the settings without lazy evaluation -----

  /** Every literal where the match finder's match is too poor, and every match the one that it finds. */
  ghost predicate Greedy(p: Setup, first: bool, from: nat, g: Group) {
    var i := from + g.lits;
    && i < |p.input| && AllPoor(p, first, from, i)
    && g.len == p.find(i).len && g.off == p.find(i).off && !TooPoor(p.v, first, g.lits, Pick(g.len, g.off))
  }

  ghost predicate AllPoor(p: Setup, first: bool, from: nat, to: nat) {
    forall j {:trigger p.find(j)} | from <= j < to :: TooPoor(p.v, first, j - from, Pick(p.find(j).len, p.find(j).off))
  }

  ghost predicate AllGreedy(p: Setup, gs: seq<Group>) {
    && (forall k | 0 <= k < |gs| :: Greedy(p, k == 0, Covered(gs[..k]), gs[k]))
    && AllPoor(p, gs == [], Covered(gs), |p.input|)
  }

  lemma PoorOnly(p: Setup, first: bool, from: nat, to: nat)
    requires p.tryLazy == 0 && !p.useBest && to <= |p.input| && AllPassed(p, first, from, to)
    ensures AllPoor(p, first, from, to)
  {
    hide TooPoor, Preferred;
    forall j {:trigger p.find(j)} | from <= j < to
      ensures TooPoor(p.v, first, j - from, Pick(p.find(j).len, p.find(j).off))
    {
      assert Passed(p, first, from, j);
    }
  }

  lemma GreedyOnly(p: Setup, first: bool, from: nat, g: Group)
    requires p.tryLazy == 0 && !p.useBest && GroupRule(p, first, from, g)
    ensures Greedy(p, first, from, g)
  {
    hide TooPoor, AllPassed, AllPoor;
    PoorOnly(p, first, from, from + g.lits);
  }

  lemma {:induction false} AllGreedyOnly(p: Setup, gs: seq<Group>, k: nat)
    requires p.tryLazy == 0 && !p.useBest && Chosen(p, gs) && k < |gs|
    ensures Greedy(p, k == 0, Covered(gs[..k]), gs[k])
    decreases |gs|
  {
    hide GroupRule, Greedy;
    if k == |gs| - 1 {
      GreedyOnly(p, k == 0, Covered(gs[..k]), gs[k]);
    } else {
      AllGreedyOnly(p, gs[..|gs| - 1], k);
      assert gs[..|gs| - 1][..k] == gs[..k];
    }
  }

  /** At the levels without lazy evaluation every match worth coding is coded, in full. */
  lemma ThoroughLevels(v: Variant, word: nat, dict: seq<byte>, input: seq<byte>, find: nat -> Offer, level: nat,
                       bs: seq<byte>)
    returns (gs: seq<Group>)
    requires 1 <= level <= 3 && Compressed(SetupFor(v, word, dict, input, find, LEVELS[level - 1]), bs)
    ensures var p := SetupFor(v, word, dict, input, find, LEVELS[level - 1]); Codes(p, gs, bs) && AllGreedy(p, gs)
  {
    hide Compressed, Chosen, GroupRule, Store, EncAll, ShapedAll, Greedy, AllPassed, AllPoor;
    var p := SetupFor(v, word, dict, input, find, LEVELS[level - 1]);
    gs := Thorough(p, bs);
    forall k | 0 <= k < |gs| ensures Greedy(p, k == 0, Covered(gs[..k]), gs[k]) {
      AllGreedyOnly(p, gs, k);
    }
    PoorOnly(p, gs == [], Covered(gs), |p.input|);
  }
}
