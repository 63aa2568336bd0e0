/** Known answers: what the formats and the compressors make of a few inputs, byte by byte. */
module Known {
  import opened Bytes
  import opened Format
  import opened Emission
  import opened Greedy
  import opened Coverage
  import Container
  import Choices
  import Lzo999
  import Lzo1
  import Lzo2a
  import BitStream
  import Division

  // ----- the bytes of matches, at the limits of their forms -----

  lemma ShortMatches()
    ensures MatchBytes(LZO1X, M1a, 2, 0x400, 0) == [0x0c, 0xff] && MatchBytes(LZO1Z, M1a, 2, 0x400, 0) == [0x0f, 0xfc]
    ensures MatchBytes(LZO1X, M1b, 3, 0x801, 0) == [0, 0] && MatchBytes(LZO1X, M1b, 3, 0xc00, 0) == [0x0c, 0xff]
    ensures MatchBytes(LZO1Y, M1b, 3, 0x401, 0) == [0, 0] && MatchBytes(LZO1Z, M1b, 3, 0x701, 0) == [0, 0]
    ensures MatchBytes(LZO1X, M2, 8, 0x800, 0) == [0xfc, 0xff] && MatchBytes(LZO1Y, M2, 14, 0x400, 0) == [0xfc, 0xff]
    ensures MatchBytes(LZO1Z, M2, 8, 0x700, 0) == [0xfb, 0xfc] && MatchBytes(LZO1Z, M2Rep, 8, 1, 0) == [0xfc]
  {
  }

  lemma LongMatches()
    ensures MatchBytes(LZO1X, M3, 33, 0x4000, 0) == [0x3f, 0xfc, 0xff]
    ensures MatchBytes(LZO1X, M3, 34, 0x4000, 0) == [0x20, 1, 0xfc, 0xff]
    ensures MatchBytes(LZO1X, M4, 9, 0x4001, 0) == [0x17, 4, 0]
    ensures MatchBytes(LZO1X, M4, 9, 0xbfff, 0) == [0x1f, 0xfc, 0xff]
    ensures MatchBytes(LZO1X, M4, 10, 0x4001, 0) == [0x10, 1, 4, 0]
    ensures MatchBytes(LZO1Z, M3, 3, 0x4000, 0) == [0x21, 0xff, 0xfc]
  {
  }

  lemma Headers(lits: seq<byte>)
    ensures |lits| == 238 ==> Enc(LZO1X, First(lits)) == [0xff] + lits
    ensures |lits| == 18 ==> Enc(LZO1X, Run(lits)) == [15] + lits
    ensures |lits| == 19 ==> Enc(LZO1X, Run(lits)) == [0, 1] + lits
    ensures EOF_MARK == [0x11, 0, 0]
  {
  }

  /** The hashes of one in the lowest and in the second byte. */
  lemma Hashes()
    ensures DIndex(1) == 1545 && DIndex(0x100) == 2320
  {
  }

  // ----- a hundred zero bytes by LZO1X-1 -----

  lemma {:induction false} ZerosMatch(s: seq<byte>, n: nat)
    requires OneByte(s) && |s| == 100 && n % 8 == 4 && n <= 68
    ensures MatchLen(s, 5, 0, 80, n, 0) == 76
    decreases 68 - n
  {
    MatchLenSkip(s, 5, 0, 80, n, 8);
    if n < 68 {
      ZerosMatch(s, n + 8);
    }
  }

  function Zeros(n: nat): (s: seq<byte>)
    ensures |s| == n && forall i | 0 <= i < n :: s[i] == 0
  {
    seq(n, _ => 0)
  }

  lemma ZerosBlock(p: Params)
    requires ParamsOK(p) && NoWrap(p, 100)
    ensures Tokens(p, Zeros(100)) == [Run(Zeros(5)), MatchToken(p.v, 76, 5), Run(Zeros(19))]
  {
    hide Block, Search, MatchLen, Look, Length, DictOK, EmptyDict, NextScan, Stops;
    var s := Zeros(100);
    StopsExactly(p, 100, 0, 0, 100);
    FirstFound(p, s, 0, 100, [], 0);
    ZerosLength(s);
    assert s[0..5] == Zeros(5) && s[81..] == Zeros(19);
  }

  lemma ZerosLength(s: seq<byte>)
    requires OneByte(s) && |s| == 100
    ensures Length(s, 100, 5, 0) == 76
  {
    hide MatchLen;
    ZerosMatch(s, 4);
    assert s[..100] == s;
  }

  lemma ZerosBytes(v: Variant)
    requires !v.LZO1Z?
    ensures var ts := [Run(Zeros(5)), MatchToken(v, 76, 5), Run(Zeros(19))];
            && ShapedAll(v, ts)
            && EncAll(v, ts) == [2, 0, 0, 0, 0, 0] + [32, 43, 16, 0] + ([0, 1] + Zeros(19))
  {
    hide EncAll, ShapedAll;
    var a: Token, b: Token, c: Token := Run(Zeros(5)), MatchToken(v, 76, 5), Run(Zeros(19));
    assert [] + [a] == [a] && [a] + [b] == [a, b] && [a, b] + [c] == [a, b, c];
    NoTokens(v);
    RunEnc(v, [], Zeros(5));
    MatchEnc(v, [a], b);
    RunEnc(v, [a, b], Zeros(19));
    assert LenBytes(0, 2, 15) + Zeros(5) == [2, 0, 0, 0, 0, 0];
    assert MatchBytes(v, M3, 76, 5, 0) == [32, 43, 16, 0];
  }

  /** 34 bytes for a hundred. */
  lemma ZerosByLzo1x1(p: Params)
    requires ParamsOK(p) && NoWrap(p, 100) && 611 <= p.word
    ensures Compressed(p, Zeros(100)) ==
            [2, 0, 0, 0, 0, 0] + [32, 43, 16, 0] + ([0, 1] + Zeros(19)) + [17, 0, 0]
  {
    hide EncAll, Tokens, ShapedAll, MatchToken;
    TokensGood(p, Zeros(100));
    ZerosBlock(p);
    ZerosBytes(p.v);
  }

  // ----- a repeated word by LZO1X-999 -----

  /** Eight bytes, another, and the eight again. */
  const TWICE: seq<byte> := [
    0x61, 0x62, 0x63, 0x64, 0x65, 0x66, 0x67, 0x68, 0x58, 0x61, 0x62, 0x63, 0x64, 0x65, 0x66, 0x67, 0x68
  ]

  /** One group: nine literals and the match of eight bytes. */
  lemma TwiceGroups(p: Lzo999.Setup, gs: seq<Choices.Group>)
    requires p.v.LZO1X? && p.input == TWICE && p.tryLazy == 0 && !p.useBest
    requires forall i {:trigger p.find(i)} | 0 <= i < 17 :: p.find(i).len == (if i == 9 then 8 else 0)
    requires p.find(9).off == 9 && Choices.AllGreedy(p, gs) && Choices.Covered(gs) <= 17
    ensures gs == [Choices.Group(9, 8, 9)]
  {
    hide Choices.Covered;
    NoneCovered();
    if gs != [] {
      OneCovered(gs);
    }
  }

  lemma NoneCovered()
    ensures Choices.Covered([]) == 0
  {
  }

  lemma OneCovered(gs: seq<Choices.Group>)
    requires gs != []
    ensures gs[..0] == [] && Choices.Covered(gs[..1]) == gs[0].lits + gs[0].len
  {
    assert gs[..1] == [gs[0]] && [gs[0]][..0] == [];
  }

  lemma TwiceTokens(p: Lzo999.Setup)
    requires p.v.LZO1X? && p.input == TWICE
    ensures Choices.Covered([Choices.Group(9, 8, 9)]) == 17
    ensures Choices.TokensOf(p, [Choices.Group(9, 8, 9)]) == [First(TWICE[..9]), Match(M2, 8, 9, [])]
  {
    var gs := [Choices.Group(9, 8, 9)];
    assert gs[..0] == [] && p.input[0..9] == TWICE[..9];
  }

  lemma TwiceBytes()
    ensures var ts := [First(TWICE[..9]), Match(M2, 8, 9, [])];
            ShapedAll(LZO1X, ts) && EncAll(LZO1X, ts) == [26] + TWICE[..9] + [224, 1]
  {
    hide EncAll, ShapedAll;
    var a: Token, b: Token := First(TWICE[..9]), Match(M2, 8, 9, []);
    FirstEnc(LZO1X, TWICE[..9]);
    MatchEnc(LZO1X, [a], b);
    assert [a] + [b] == [a, b];
    assert MatchBytes(LZO1X, M2, 8, 9, 0) == [224, 1];
  }

  /** At the levels without lazy evaluation, when the match finder finds the repeated eight bytes and nothing else. */
  lemma TwiceBy999(word: nat, find: nat -> Lzo999.Offer, level: nat, bs: seq<byte>)
    requires 1 <= level <= 3 && find(9).off == 9
    requires forall i {:trigger find(i)} | 0 <= i < 17 :: find(i).len == (if i == 9 then 8 else 0)
    requires Lzo999.Compressed(Lzo999.SetupFor(LZO1X, word, [], TWICE, find, Lzo999.LEVELS[level - 1]), bs)
    ensures bs == [26] + TWICE[..9] + [224, 1] + [17, 0, 0]
  {
    hide Lzo999.Compressed, Choices.AllGreedy, Choices.Chosen, Choices.TokensOf, Choices.Covered, EncAll, ShapedAll,
      Store;
    var p := Lzo999.SetupFor(LZO1X, word, [], TWICE, find, Lzo999.LEVELS[level - 1]);
    var gs := Choices.ThoroughLevels(LZO1X, word, [], TWICE, find, level, bs);
    TwiceGroups(p, gs);
    TwiceTokens(p);
    TwiceBytes();
    StoreNothing([First(TWICE[..9]), Match(M2, 8, 9, [])]);
    assert TWICE[17..] == [];
  }

  /** What the levels pass on. */
  lemma Levels()
    ensures |Lzo999.LEVELS| == 9
    ensures forall l | 0 <= l < 9 :: Lzo999.LEVELS[l].tryLazy == (if l < 3 then 0 else if l < 6 then 1 else 2)
    ensures forall l | 0 <= l < 9 :: Lzo999.LEVELS[l].useBest <==> l >= 7
    ensures Lzo999.LEVELS[3].maxLazy == 4 && Lzo999.LEVELS[4].maxLazy == 16 && Lzo999.LEVELS[5].maxLazy == 16
    ensures Lzo999.LEVELS[6].maxLazy == 32 && Lzo999.LEVELS[7].maxLazy == 128 && Lzo999.LEVELS[8].maxLazy == 2048
  {
  }

  // ----- a hundred zero bytes by LZO1 and LZO1A -----

  lemma ZerosChosen(dict: nat -> (nat, nat))
    requires dict(1).0 == 0
    ensures Lzo1.AllChosen(Zeros(100), dict, [Lzo1.Group([0], 96, 1)])
    ensures Lzo1.Covered([Lzo1.Group([0], 96, 1)]) == 97
  {
    var s, g := Zeros(100), Lzo1.Group([0], 96, 1);
    assert [g][..0] == [];
    assert s[0..1] == [0] && s[0..3] == s[1..4];
    assert Lzo1.Longest(s, 1, 96, 1);
    assert Lzo1.GroupRule(s, dict, 0, g);
  }

  lemma ZerosTokens(a: Lzo1.Algorithm)
    ensures Lzo1.Tokens(a, [Lzo1.Group([0], 96, 1)]) + Lzo1.Cuts(Zeros(100)[97..]) ==
            [Lzo1.Run([0]), Lzo1.Long(96, 1), Lzo1.Run([0, 0, 0])]
  {
    var gs := [Lzo1.Group([0], 96, 1)];
    assert gs[..0] == [];
    assert Zeros(100)[97..] == [0, 0, 0];
    Lzo1.CutOne([0]);
    Lzo1.CutOne([0, 0, 0]);
  }

  lemma ZerosEncoded()
    ensures var ts := [Lzo1.Run([0]), Lzo1.Long(96, 1), Lzo1.Run([0, 0, 0])];
            Lzo1.AllSized(ts) && Lzo1.EncAll(ts) == [1, 0, 224, 0, 87, 3, 0, 0, 0]
  {
    var a, b, c := Lzo1.Run([0]), Lzo1.Long(96, 1), Lzo1.Run([0, 0, 0]);
    assert [a, b, c][1..] == [b, c] && [b, c][1..] == [c] && [c][1..] == [];
    assert Lzo1.AllSized([c]) && Lzo1.AllSized([b, c]) && Lzo1.AllSized([a, b, c]);
    assert Lzo1.EncAll([c]) == Lzo1.Enc(c) + Lzo1.EncAll([]);
    assert Lzo1.EncAll([b, c]) == Lzo1.Enc(b) + Lzo1.EncAll([c]);
    assert Lzo1.EncAll([a, b, c]) == Lzo1.Enc(a) + Lzo1.EncAll([b, c]);
    assert Lzo1.Enc(a) == [1, 0] && Lzo1.Enc(b) == [224, 0, 87] && Lzo1.Enc(c) == [3, 0, 0, 0];
  }

  /** Nine bytes for a hundred. */
  lemma ZerosByLzo1(a: Lzo1.Algorithm, dict: nat -> (nat, nat), bs: seq<byte>)
    requires dict(1).0 == 0 && Lzo1.Compressed(a, Zeros(100), dict, bs)
    ensures bs == [1, 0, 224, 0, 87, 3, 0, 0, 0]
  {
    hide Lzo1.Chosen, Lzo1.Tokens, Lzo1.Cuts, Lzo1.EncAll, Lzo1.AllSized, Lzo1.Legal, Lzo1.ApplyAll, Lzo1.Covered,
      Zeros;
    var s, gs := Zeros(100), [Lzo1.Group([0], 96, 1)];
    ZerosChosen(dict);
    ZerosTokens(a);
    ZerosEncoded();
    var hs :| Lzo1.AllChosen(s, dict, hs)
      && Lzo1.Encoding(a, Lzo1.Tokens(a, hs) + Lzo1.Cuts(s[Lzo1.Covered(hs)..]), bs, s);
    Lzo1.SameGroups(s, dict, hs, gs, |hs|);
    Lzo1.SameGroups(s, dict, gs, hs, |gs|);
    assert hs == gs[..|hs|] == gs;
  }

  lemma RunHeads()
    ensures Lzo1.RunHead(31) == [31] && Lzo1.RunHead(32) == [0, 0] && Lzo1.RunHead(279) == [0, 247]
    ensures Lzo1.RunHead(280) == [0, 248] && Lzo1.RunHead(512) == [0, 249] && Lzo1.RunHead(32768) == [0, 255]
    ensures Lzo1.Enc(Lzo1.Short(8, 8192)) == [223, 255] && Lzo1.Enc(Lzo1.Long(9, 8192)) == [255, 255, 0]
    ensures Lzo1.Enc(Lzo1.Mux(8192, 7)) == [31, 255, 7]
  {
  }

  // ----- LZO2A -----

  lemma Puts(b: byte)
    ensures BitStream.ItemOK(BitStream.Bits(1, 0)) && BitStream.ItemOK(BitStream.Bits(1, 1))
    ensures BitStream.Put(BitStream.EMPTY, BitStream.Bits(1, 0)) == BitStream.Writer([0], 0, 0, 1)
    ensures BitStream.WriterOK(BitStream.Writer([0, b], 0, 0, 1))
    ensures BitStream.WriterOK(BitStream.Writer([0, b], 0, 2, 2))
    ensures BitStream.Put(BitStream.Writer([0, b], 0, 0, 1), BitStream.Bits(1, 1)) == BitStream.Writer([0, b], 0, 2, 2)
    ensures BitStream.Put(BitStream.Writer([0, b], 0, 2, 2), BitStream.Bits(1, 1)) == BitStream.Writer([0, b], 0, 6, 3)
  {
    assert Division.Pow2(0) == 1 && Division.Pow2(1) == 2 && Division.Pow2(2) == 4 && Division.Pow2(3) == 8;
  }

  lemma Then(items: seq<BitStream.Item>, i: BitStream.Item, w: BitStream.Writer)
    requires BitStream.AllOK(items) && BitStream.ItemOK(i) && BitStream.Put(BitStream.Written(items), i) == w
    ensures BitStream.AllOK(items + [i]) && BitStream.Written(items + [i]) == w
  {
    hide BitStream.Put, BitStream.Written;
    BitStream.WrittenSnoc(items, i);
  }

  lemma NoItems()
    ensures BitStream.AllOK([]) && BitStream.Written([]) == BitStream.EMPTY
  {
  }

  /** One literal and the end marker: their three bits lie in the first byte. */
  lemma OneLiteral(b: byte)
    ensures var items := [BitStream.Bits(1, 0), BitStream.Byte(b)]
                         + [BitStream.Bits(1, 1), BitStream.Bits(1, 1), BitStream.Byte(32), BitStream.Byte(0)];
            BitStream.AllOK(items) && BitStream.Stream(items) == [6, b, 32, 0]
  {
    hide BitStream.Written, BitStream.ItemOK, Division.Pow2, BitStream.PutBits;
    var i0, i1, i2, i3 := BitStream.Bits(1, 0), BitStream.Byte(b), BitStream.Bits(1, 1), BitStream.Byte(32);
    var i4 := BitStream.Byte(0);
    NoItems();
    Puts(b);
    WholeBytes(b);
    Then([], i0, BitStream.Writer([0], 0, 0, 1));
    assert [] + [i0] == [i0] && [i0] + [i1] == [i0, i1] && [i0, i1] + [i2] == [i0, i1, i2];
    assert [i0, i1, i2] + [i2] == [i0, i1, i2, i2] && [i0, i1, i2, i2] + [i3] == [i0, i1, i2, i2, i3];
    assert [i0, i1, i2, i2, i3] + [i4] == [i0, i1] + [i2, i2, i3, i4];
    Then([i0], i1, BitStream.Writer([0, b], 0, 0, 1));
    Then([i0, i1], i2, BitStream.Writer([0, b], 0, 2, 2));
    Then([i0, i1, i2], i2, BitStream.Writer([0, b], 0, 6, 3));
    Then([i0, i1, i2, i2], i3, BitStream.Writer([0, b, 32], 0, 6, 3));
    Then([i0, i1, i2, i2, i3], i4, BitStream.Writer([0, b, 32, 0], 0, 6, 3));
  }

  lemma WholeBytes(b: byte)
    ensures BitStream.ItemOK(BitStream.Byte(b)) && BitStream.ItemOK(BitStream.Byte(32))
    ensures BitStream.ItemOK(BitStream.Byte(0))
  {
  }

  lemma OneRuled(word: nat, b: byte, find: nat -> Lzo2a.Pick)
    requires find(0).len < 2
    ensures var us := [Lzo2a.Lit(b)];
            && Lzo2a.AllSized(us) && Lzo2a.Ruled([b], find, us) && Lzo2a.Meaning([], us) == [b]
            && Lzo2a.Encoded(us) == [6, b, 32, 0]
  {
    hide BitStream.Stream;
    var us := [Lzo2a.Lit(b)];
    assert us[..0] == [] && us[1..] == [];
    assert Lzo2a.ItemsAll(us) == Lzo2a.Items(us[0]) + Lzo2a.ItemsAll([]) == Lzo2a.Items(us[0]);
    OneLiteral(b);
  }

  lemma OneByLzo2a(word: nat, b: byte, find: nat -> Lzo2a.Pick, bs: seq<byte>)
    requires find(0).len < 2 && Lzo2a.Compressed(word, [b], find, bs)
    ensures bs == [6, b, 32, 0]
  {
    hide Lzo2a.LegalToks, Lzo2a.Encoded, Lzo2a.Ruled, Lzo2a.Meaning;
    var ts :| Lzo2a.Encoding(word, ts, bs, [b]) && Lzo2a.Ruled([b], find, ts);
    var us := [Lzo2a.Lit(b)];
    OneRuled(word, b, find);
    Lzo2a.SameTokens([b], find, ts, us, |ts|);
    Lzo2a.SameTokens([b], find, us, ts, |us|);
    assert ts == us[..|ts|] == us;
  }

  // ----- lzopack -----

  /** The header of level 1 and blocks of 262144 bytes. */
  lemma PackHeader()
    ensures Container.Header(1, 262144) ==
            [0x00, 0xe9, 0x4c, 0x5a, 0x4f, 0xff, 0x1a, 0, 0, 0, 1, 1, 1, 0, 4, 0, 0]
    ensures Container.MIN_BLOCK == 1024 && Container.MAX_BLOCK == 8388608
  {
  }
}
