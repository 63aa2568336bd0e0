/** LZO2A: the compressor over any match finder, and the safe decompressor. */
module Lzo2a {
  import opened Bytes
  import opened Format
  import opened Decoder
  import Grammar
  import opened Emission
  import opened Copying
  import opened BitStream
  import opened Division

  const SWD_N: nat := 8191
  const SWD_F: nat := 2048
  const M1_MIN_LEN: nat := 2
  const M1_MAX_LEN: nat := 5

  // ----- tokens -----

  /** A literal; a match of two to five bytes nearby; one of three to nine bytes; a longer one; the
      end marker. */
  datatype Tok = Lit(b: byte) | Near(len: nat, off: nat) | Medium(len: nat, off: nat) | Long(len: nat, off: nat) | Stop

  predicate Sized(t: Tok) {
    match t
    case Lit(_) => true
    case Near(len, off) => M1_MIN_LEN <= len <= M1_MAX_LEN && 1 <= off <= 256
    case Medium(len, off) => 3 <= len <= 9 && 1 <= off <= SWD_N
    case Long(len, off) => 10 <= len && 1 <= off <= SWD_N
    case Stop => true
  }

  /** The zero bytes of a long match's length keep the margin of 511. */
  predicate LongFits(word: nat, t: Tok)
    requires Sized(t)
  {
    t.Long? && t.len > 264 ==> 255 * (|Ext(t.len - 9)| - 1) + 9 + 511 <= word
  }

  /** It reaches back into the `n` bytes of output, and its length does not overflow. */
  predicate TokOK(word: nat, t: Tok, n: nat) {
    !t.Stop? && Sized(t) && (!t.Lit? ==> t.off <= n) && LongFits(word, t)
  }

  function ApplyTok(w: seq<byte>, t: Tok): seq<byte> {
    if t.Lit? then w + [t.b] else if !t.Stop? && 1 <= t.off <= |w| then CopyMatch(w, t.off, t.len) else w
  }

  function AsItems(bs: seq<byte>): (r: seq<Item>)
    ensures |r| == |bs| && forall i | 0 <= i < |bs| :: r[i] == Byte(bs[i])
  {
    seq(|bs|, i requires 0 <= i < |bs| => Byte(bs[i]))
  }

  function Items(t: Tok): (r: seq<Item>)
    requires Sized(t)
    ensures |r| >= 2
  {
    match t
    case Lit(b) => [Bits(1, 0), Byte(b)]
    case Near(len, off) => [Bits(1, 1), Bits(1, 0), Bits(2, len - 2), Byte(off - 1)]
    case Medium(len, off) => [Bits(1, 1), Bits(1, 1), Byte((len - 2) * 32 + off % 32), Byte(off / 32)]
    case Long(len, off) => [Bits(1, 1), Bits(1, 1), Byte(off % 32), Byte(off / 32)] + AsItems(Ext(len - 9))
    case Stop => [Bits(1, 1), Bits(1, 1), Byte(32), Byte(0)]
  }

  ghost predicate AllSized(ts: seq<Tok>) {
    forall i | 0 <= i < |ts| :: Sized(ts[i])
  }

  ghost function ItemsAll(ts: seq<Tok>): seq<Item>
    requires AllSized(ts)
  {
    if ts == [] then [] else Items(ts[0]) + ItemsAll(ts[1..])
  }

  ghost function Meaning(w: seq<byte>, ts: seq<Tok>): seq<byte>
    decreases |ts|
  {
    if ts == [] then w else Meaning(ApplyTok(w, ts[0]), ts[1..])
  }

  ghost predicate LegalToks(word: nat, w: seq<byte>, ts: seq<Tok>)
    decreases |ts|
  {
    ts == [] || (TokOK(word, ts[0], |w|) && LegalToks(word, ApplyTok(w, ts[0]), ts[1..]))
  }

  lemma SizedTok(word: nat, t: Tok, n: nat)
    requires TokOK(word, t, n)
    ensures Sized(t) && !t.Stop? && LongFits(word, t) && (t.Lit? || t.off <= n)
  {
  }

  lemma {:induction false} ToksSnoc(word: nat, w: seq<byte>, ts: seq<Tok>, t: Tok)
    requires LegalToks(word, w, ts) && TokOK(word, t, |Meaning(w, ts)|)
    ensures LegalToks(word, w, ts + [t]) && Meaning(w, ts + [t]) == ApplyTok(Meaning(w, ts), t)
    decreases |ts|
  {
    hide ApplyTok, TokOK;
    assert [t][1..] == [];
    if ts == [] {
      assert ts + [t] == [t];
    } else {
      ToksSnoc(word, ApplyTok(w, ts[0]), ts[1..], t);
      assert (ts + [t])[1..] == ts[1..] + [t];
    }
  }

  lemma {:induction false} ItemsSnoc(ts: seq<Tok>, t: Tok)
    requires AllSized(ts) && Sized(t)
    ensures AllSized(ts + [t]) && ItemsAll(ts + [t]) == ItemsAll(ts) + Items(t)
  {
    hide Items, Sized;
    assert [t][1..] == [];
    if ts == [] {
      assert ts + [t] == [t];
      assert ItemsAll([t]) == Items(t) + ItemsAll([]);
    } else {
      ItemsSnoc(ts[1..], t);
      assert (ts + [t])[1..] == ts[1..] + [t];
    }
  }

  lemma {:induction false} ItemsOK(ts: seq<Tok>)
    requires AllSized(ts)
    ensures AllOK(ItemsAll(ts)) && AllOK(ItemsAll(ts) + Items(Stop))
  {
    hide Items;
    ItemsOne(Stop);
    if ts != [] {
      ItemsOK(ts[1..]);
      ItemsOne(ts[0]);
    }
  }

  lemma PowValues2()
    ensures Pow2(1) == 2 && Pow2(2) == 4
  {
  }

  lemma ItemsOne(t: Tok)
    requires Sized(t)
    ensures AllOK(Items(t))
  {
    PowValues2();
  }

  /** The bytes of a finished stream. */
  ghost function Encoded(ts: seq<Tok>): seq<byte>
    requires AllSized(ts)
  {
    ItemsOK(ts);
    Stream(ItemsAll(ts) + Items(Stop))
  }

  /** `bs` is the encoding of legal tokens that mean `s`. */
  ghost predicate Encoding(word: nat, ts: seq<Tok>, bs: seq<byte>, s: seq<byte>) {
    AllSized(ts) && LegalToks(word, [], ts) && bs == Encoded(ts) && Meaning([], ts) == s
  }

  // ----- what the reader gets -----

  /** From `r` on the reader gets exactly these items. */
  ghost function After(f: seq<byte>, r: Reader, items: seq<Item>): Got
    decreases |items|
  {
    if items == [] then Got(0, r)
    else if !ItemOK(items[0]) then Short
    else
      var g := Get(f, r, items[0]);
      if g.Short? || g.x != Value(items[0]) then Short else After(f, g.r, items[1..])
  }

  lemma {:induction false} AfterSplit(f: seq<byte>, r: Reader, a: seq<Item>, b: seq<Item>)
    ensures After(f, r, a + b) == match After(f, r, a) case Short => Short case Got(_, r') => After(f, r', b)
    decreases |a|
  {
    hide Get, ItemOK;
    if a == [] {
      assert a + b == b;
    } else {
      assert (a + b)[0] == a[0] && (a + b)[1..] == a[1..] + b;
      if ItemOK(a[0]) && Get(f, r, a[0]).Got? {
        AfterSplit(f, Get(f, r, a[0]).r, a[1..], b);
      }
    }
  }

  /** A whole number of bytes lies in one piece. */
  lemma {:induction false} AfterBytes(f: seq<byte>, r: Reader, bs: seq<byte>)
    requires r.ip <= |f|
    ensures After(f, r, AsItems(bs)) ==
            if r.ip + |bs| <= |f| && f[r.ip..r.ip + |bs|] == bs then Got(0, r.(ip := r.ip + |bs|)) else Short
    decreases |bs|
  {
    if bs == [] {
      assert f[r.ip..r.ip] == [];
    } else {
      assert AsItems(bs)[1..] == AsItems(bs[1..]);
      if r.ip < |f| {
        AfterBytes(f, r.(ip := r.ip + 1), bs[1..]);
        if r.ip + |bs| <= |f| {
          assert f[r.ip..r.ip + |bs|] == [f[r.ip]] + f[r.ip + 1..r.ip + |bs|];
          assert bs == [bs[0]] + bs[1..];
        }
      }
    }
  }

  /** All of a stream's items are got from its bytes. */
  lemma {:induction false} AfterStream(items: seq<Item>, n: nat)
    requires AllOK(items) && n <= |items|
    ensures After(Stream(items), ReaderAt(items, n), items[n..]) == Got(0, ReaderAt(items, |items|))
    decreases |items| - n
  {
    hide Get, Stream, ReaderAt;
    if n < |items| {
      ReadBack(items, n);
      AfterStream(items, n + 1);
      assert items[n..][0] == items[n] && items[n..][1..] == items[n + 1..];
    }
  }

  lemma {:induction false} AfterMoves(f: seq<byte>, r: Reader, items: seq<Item>)
    requires r.ip <= |f| && After(f, r, items).Got?
    ensures r.ip <= After(f, r, items).r.ip <= |f|
    ensures items != [] && items[|items| - 1].Byte? ==> r.ip < After(f, r, items).r.ip
    decreases |items|
  {
    if items != [] {
      var m := Get(f, r, items[0]).r;
      AfterMoves(f, m, items[1..]);
    }
  }

  // ----- the decoder -----

  datatype Failure = InputShort | OutputShort | BadOffset | NoEof

  datatype Read = Read(t: Tok, r: Reader) | Error(status: Failure)

  /** Bits and bytes left to read. */
  function Left(f: seq<byte>, r: Reader): nat
    requires r.ip <= |f|
  {
    8 * (|f| - r.ip) + r.k
  }

  function EnvOf(f: seq<byte>, word: nat): Env {
    Env(LZO1X, word, false, f, |f|, [])
  }

  /** Two bytes: a medium match, the start of a long one, or the end marker. */
  function ReadFar(f: seq<byte>, word: nat, r: Reader): (m: Read)
    requires 0x1_0000 <= word && r.ip <= |f|
    ensures m.Read? ==> r.ip < m.r.ip <= |f| && m.r.k == r.k && (m.t.Medium? || m.t.Long? || m.t.Stop?)
  {
    if |f| - r.ip < 2 then Error(InputShort)
    else
      var low: nat, high: nat := f[r.ip], f[r.ip + 1];
      var len, off, r' := low / 32, low % 32 + high * 32, r.(ip := r.ip + 2);
      if len > 0 then Read(if off == 0 then Stop else Medium(len + 2, off), r')
      else if r'.ip >= |f| then Error(InputShort)
      else
        match ReadExt(EnvOf(f, word), r'.ip, 9)
        case LenOK(n, ip) => Read(Long(n, off), r.(ip := ip))
        case LenWrap => Error(OutputShort)
        case LenShort => Error(InputShort)
  }

  function ReadNear(f: seq<byte>, r: Reader): (m: Read)
    requires r.ip <= |f|
    ensures m.Read? ==> m.r.ip <= |f| && Left(f, m.r) < Left(f, r) && m.t.Near? && 1 <= m.t.off
  {
    var g := GetBits(f, r, 2);
    if g.Short? || g.r.ip >= |f| then Error(InputShort)
    else
      var o: nat := f[g.r.ip];
      Read(Near(M1_MIN_LEN + g.x, o + 1), g.r.(ip := g.r.ip + 1))
  }

  /** The first bits tell the kinds apart. */
  function ReadTok(f: seq<byte>, word: nat, r: Reader): (m: Read)
    requires 0x1_0000 <= word && r.ip <= |f|
    ensures m.Read? ==> m.r.ip <= |f| && Left(f, m.r) < Left(f, r) && (m.t.Near? ==> 1 <= m.t.off)
  {
    var g := GetBits(f, r, 1);
    if g.Short? then Error(InputShort)
    else if g.x == 0 then
      (if g.r.ip >= |f| then Error(InputShort) else Read(Lit(f[g.r.ip]), g.r.(ip := g.r.ip + 1)))
    else
      var g' := GetBits(f, g.r, 1);
      if g'.Short? then Error(InputShort) else if g'.x == 0 then ReadNear(f, g'.r) else ReadFar(f, word, g'.r)
  }

  datatype Check = Pass | Fail(status: Failure)

  /** The tests on the output, in the order of each kind. */
  function CheckTok(t: Tok, n: nat, cap: nat): Check
    requires n <= cap && !t.Stop?
  {
    if t.Lit? then (if cap - n < 1 then Fail(OutputShort) else Pass)
    else if t.Near? && cap - n < t.len then Fail(OutputShort)
    else if !(1 <= t.off <= n) then Fail(BadOffset)
    else if cap - n < t.len then Fail(OutputShort)
    else Pass
  }

  datatype Outcome = Done(consumed: bool) | Failed(status: Failure)

  datatype Ending = Ending(o: Outcome, w: seq<byte>)

  /** The whole run from `r` on, in a buffer of `cap` bytes. */
  function Decode(f: seq<byte>, word: nat, cap: nat, r: Reader, w: seq<byte>): (d: Ending)
    requires 0x1_0000 <= word && r.ip <= |f| && |w| <= cap
    ensures |d.w| <= cap
    decreases Left(f, r)
  {
    if r.ip == |f| then Ending(Failed(NoEof), w)
    else
      var m := ReadTok(f, word, r);
      if m.Error? then Ending(Failed(m.status), w)
      else if m.t.Stop? then Ending(Done(m.r.ip == |f|), w)
      else
        match CheckTok(m.t, |w|, cap)
        case Fail(status) => Ending(Failed(status), w)
        case Pass => Decode(f, word, cap, m.r, ApplyTok(w, m.t))
  }

  // ----- tokens and their items -----

  /** Every form of the end marker: distance 0, and any length but that of a long match. */
  function StopItems(j: nat): seq<Item>
    requires 1 <= j < 8
  {
    [Bits(1, 1), Bits(1, 1), Byte(j * 32), Byte(0)]
  }

  lemma AfterFour(f: seq<byte>, r: Reader, a: Item, b: Item, c: Item, d: Item)
    ensures After(f, r, [a, b, c, d]) ==
            match After(f, r, [a, b]) case Short => Short case Got(_, r') => After(f, r', [c, d])
  {
    assert [a, b, c, d] == [a, b] + [c, d];
    AfterSplit(f, r, [a, b], [c, d]);
  }

  lemma AfterOne(f: seq<byte>, r: Reader, b: Item)
    requires ItemOK(b)
    ensures After(f, r, [b]) == var g := Get(f, r, b); if g.Short? || g.x != Value(b) then Short else Got(0, g.r)
  {
    assert [b][1..] == [];
  }

  lemma AfterTwo(f: seq<byte>, r: Reader, a: Item, b: Item)
    requires ItemOK(a) && ItemOK(b)
    ensures After(f, r, [a, b]) ==
            var g := Get(f, r, a);
            if g.Short? || g.x != Value(a) then Short
            else
              var g' := Get(f, g.r, b);
              if g'.Short? || g'.x != Value(b) then Short else Got(0, g'.r)
  {
    hide Get, ItemOK;
    assert [a, b][1..] == [b];
    if Get(f, r, a).Got? {
      AfterOne(f, Get(f, r, a).r, b);
    }
  }

  lemma PairItems(f: seq<byte>, r: Reader, b0: byte, b1: byte)
    requires r.ip <= |f|
    ensures After(f, r, [Byte(b0), Byte(b1)]) ==
            if r.ip + 2 <= |f| && f[r.ip] == b0 && f[r.ip + 1] == b1 then Got(0, r.(ip := r.ip + 2)) else Short
  {
    AfterTwo(f, r, Byte(b0), Byte(b1));
  }

  lemma OneBit(f: seq<byte>, r: Reader)
    requires r.ip <= |f| && GetBits(f, r, 1).Got?
    ensures GetBits(f, r, 1).x < 2
  {
    PowValues2();
  }

  lemma TwoBits(f: seq<byte>, r: Reader)
    requires r.ip <= |f| && GetBits(f, r, 2).Got?
    ensures GetBits(f, r, 2).x < 4
  {
    PowValues2();
  }

  lemma BitsOK()
    ensures ItemOK(Bits(1, 0)) && ItemOK(Bits(1, 1))
    ensures forall x {:trigger Bits(2, x)} | 0 <= x < 4 :: ItemOK(Bits(2, x))
  {
    PowValues2();
  }

  /** The two bits with which a match begins. */
  lemma FlagsAfter(f: seq<byte>, r: Reader, y: nat)
    requires r.ip <= |f| && y < 2
    ensures After(f, r, [Bits(1, 1), Bits(1, y)]) ==
            var g := GetBits(f, r, 1);
            if g.Short? || g.x == 0 then Short
            else
              var g' := GetBits(f, g.r, 1);
              if g'.Short? || g'.x != y then Short else Got(0, g'.r)
  {
    hide GetBits;
    BitsOK();
    AfterTwo(f, r, Bits(1, 1), Bits(1, y));
    if GetBits(f, r, 1).Got? {
      OneBit(f, r);
    }
  }

  /** What a far match's bytes are, behind its two bits. */
  function FarBytes(t: Tok): (bs: seq<byte>)
    requires Sized(t) && (t.Medium? || t.Long? || t.Stop?)
    ensures |bs| >= 2 && (t.Long? ==> bs[2..] == Ext(t.len - 9)) && (!t.Long? ==> |bs| == 2)
  {
    if t.Stop? then [32, 0]
    else if t.Medium? then [(t.len - 2) * 32 + t.off % 32, t.off / 32]
    else [t.off % 32, t.off / 32] + Ext(t.len - 9)
  }

  lemma FarIs(t: Tok)
    requires Sized(t) && (t.Medium? || t.Long? || t.Stop?)
    ensures Items(t) == [Bits(1, 1), Bits(1, 1)] + AsItems(FarBytes(t))
  {
    hide Ext;
  }

  lemma PairFirst(f: seq<byte>, r: Reader, bs: seq<byte>)
    requires r.ip <= |f| && |bs| >= 2
    ensures After(f, r, AsItems(bs)) ==
            if r.ip + 2 <= |f| && f[r.ip] == bs[0] && f[r.ip + 1] == bs[1]
               && r.ip + |bs| <= |f| && f[r.ip + 2..r.ip + |bs|] == bs[2..]
            then Got(0, r.(ip := r.ip + |bs|)) else Short
  {
    hide After, AsItems;
    FarSplit(bs);
    AfterSplit(f, r, [Byte(bs[0]), Byte(bs[1])], AsItems(bs[2..]));
    PairItems(f, r, bs[0], bs[1]);
    if |f| - r.ip >= 2 {
      AfterBytes(f, r.(ip := r.ip + 2), bs[2..]);
    }
  }

  lemma FarReads(f: seq<byte>, word: nat, r: Reader, t: Tok)
    requires 0x1_0000 <= word && r.ip <= |f| && Sized(t) && (t.Medium? || t.Long?)
    ensures ReadFar(f, word, r).Read? && ReadFar(f, word, r).t == t <==>
              LongFits(word, t) && After(f, r, AsItems(FarBytes(t))).Got?
    ensures ReadFar(f, word, r).Read? && ReadFar(f, word, r).t == t ==>
              After(f, r, AsItems(FarBytes(t))) == Got(0, ReadFar(f, word, r).r)
  {
    hide Ext, ReadExt, After, FarBytes, AsItems;
    PairFirst(f, r, FarBytes(t));
    if |f| - r.ip >= 2 {
      FarPair(f[r.ip], f[r.ip + 1], t);
      if t.Long? {
        LengthReads(f, word, r.ip + 2, t.len - 9);
      } else {
        assert f[r.ip + 2..r.ip + 2] == FarBytes(t)[2..] == [];
      }
    }
  }

  lemma FarSplit(bs: seq<byte>)
    requires |bs| >= 2
    ensures AsItems(bs) == [Byte(bs[0]), Byte(bs[1])] + AsItems(bs[2..])
  {
  }

  lemma FarPair(low: nat, high: nat, t: Tok)
    requires low < 256 && high < 256 && Sized(t) && (t.Medium? || t.Long?)
    ensures low == FarBytes(t)[0] && high == FarBytes(t)[1] <==>
              low % 32 + high * 32 == t.off && low / 32 == if t.Medium? then t.len - 2 else 0
  {
    hide Ext;
    if low % 32 + high * 32 == t.off {
      assert t.off % 32 == low % 32 && t.off / 32 == high;
    }
  }

  lemma ExtOne(n: nat)
    requires n >= 1
    ensures |Ext(n)| > 1 <==> n > 255
  {
  }

  /** A long match's length is read exactly from its own bytes. */
  lemma LengthReads(f: seq<byte>, word: nat, p: nat, n: nat)
    requires 0x1_0000 <= word && p <= |f| && n >= 1
    ensures var got := p < |f| && ReadExt(EnvOf(f, word), p, 9).LenOK? && ReadExt(EnvOf(f, word), p, 9).n == 9 + n;
            && (got <==> (n > 255 ==> 255 * (|Ext(n)| - 1) + 9 + 511 <= word)
                         && p + |Ext(n)| <= |f| && f[p..p + |Ext(n)|] == Ext(n))
            && (got ==> ReadExt(EnvOf(f, word), p, 9).ip == p + |Ext(n)|)
  {
    hide Ext, ReadExt;
    var e := EnvOf(f, word);
    ExtOne(n);
    if p < |f| && ReadExt(e, p, 9).LenOK? {
      Grammar.ReadExtInverse(e, p, 9);
    }
    if (n > 255 ==> 255 * (|Ext(n)| - 1) + 9 + 511 <= word) && p + |Ext(n)| <= |f| && f[p..p + |Ext(n)|] == Ext(n) {
      Grammar.ReadExtAt(e, p, n, 9);
    }
  }

  /** A token is read exactly from its own items, whatever the bits behind it. */
  lemma TokReads(f: seq<byte>, word: nat, r: Reader, t: Tok)
    requires 0x1_0000 <= word && r.ip <= |f| && Sized(t) && !t.Stop?
    ensures var m := ReadTok(f, word, r);
            && (m.Read? && m.t == t <==> LongFits(word, t) && After(f, r, Items(t)).Got?)
            && (m.Read? && m.t == t ==> After(f, r, Items(t)) == Got(0, m.r))
  {
    hide GetBits, ReadFar, ReadNear;
    if GetBits(f, r, 1).Got? {
      OneBit(f, r);
      var r1 := GetBits(f, r, 1).r;
      if GetBits(f, r1, 1).Got? {
        OneBit(f, r1);
      }
    }
    match t
    case Lit(b) =>
      BitsOK();
      AfterTwo(f, r, Bits(1, 0), Byte(b));
    case Near(len, off) =>
      NearReads(f, word, r, t);
    case Medium(_, _) =>
      FarTokReads(f, word, r, t);
    case Long(_, _) =>
      FarTokReads(f, word, r, t);
  }

  lemma NearReads(f: seq<byte>, word: nat, r: Reader, t: Tok)
    requires 0x1_0000 <= word && r.ip <= |f| && Sized(t) && t.Near?
    ensures var m := ReadTok(f, word, r);
            && (m.Read? && m.t == t <==> After(f, r, Items(t)).Got?)
            && (m.Read? && m.t == t ==> After(f, r, Items(t)) == Got(0, m.r))
  {
    hide GetBits, ReadFar, After;
    BitsOK();
    FlagsAfter(f, r, 0);
    AfterFour(f, r, Bits(1, 1), Bits(1, 0), Bits(2, t.len - 2), Byte(t.off - 1));
    var g := After(f, r, [Bits(1, 1), Bits(1, 0)]);
    if g.Got? {
      AfterTwo(f, g.r, Bits(2, t.len - 2), Byte(t.off - 1));
    }
    if GetBits(f, r, 1).Got? {
      OneBit(f, r);
      if GetBits(f, GetBits(f, r, 1).r, 1).Got? {
        OneBit(f, GetBits(f, r, 1).r);
      }
    }
  }

  lemma FarTokReads(f: seq<byte>, word: nat, r: Reader, t: Tok)
    requires 0x1_0000 <= word && r.ip <= |f| && Sized(t) && (t.Medium? || t.Long?)
    ensures var m := ReadTok(f, word, r);
            && (m.Read? && m.t == t <==> LongFits(word, t) && After(f, r, Items(t)).Got?)
            && (m.Read? && m.t == t ==> After(f, r, Items(t)) == Got(0, m.r))
  {
    hide GetBits, ReadFar, After, FarBytes, LongFits;
    FlagsAfter(f, r, 1);
    FarIs(t);
    AfterSplit(f, r, [Bits(1, 1), Bits(1, 1)], AsItems(FarBytes(t)));
    if GetBits(f, r, 1).Got? {
      OneBit(f, r);
      var r1 := GetBits(f, r, 1).r;
      if GetBits(f, r1, 1).Got? {
        OneBit(f, r1);
        FarReads(f, word, GetBits(f, r1, 1).r, t);
      }
    }
  }

  /** So is an end marker. */
  lemma StopReads(f: seq<byte>, word: nat, r: Reader, j: nat)
    requires 0x1_0000 <= word && r.ip <= |f| && 1 <= j < 8
    ensures After(f, r, StopItems(j)).Got? ==> ReadTok(f, word, r) == Read(Stop, After(f, r, StopItems(j)).r)
  {
    hide GetBits, After;
    FlagsAfter(f, r, 1);
    AfterFour(f, r, Bits(1, 1), Bits(1, 1), Byte(j * 32), Byte(0));
    var g := After(f, r, [Bits(1, 1), Bits(1, 1)]);
    if g.Got? {
      PairItems(f, g.r, j * 32, 0);
    }
  }

  lemma StopRead(f: seq<byte>, word: nat, r: Reader) returns (j: nat)
    requires 0x1_0000 <= word && r.ip <= |f| && ReadTok(f, word, r).Read? && ReadTok(f, word, r).t.Stop?
    ensures 1 <= j < 8 && After(f, r, StopItems(j)) == Got(0, ReadTok(f, word, r).r)
  {
    hide GetBits, After;
    OneBit(f, r);
    var r1 := GetBits(f, r, 1).r;
    OneBit(f, r1);
    var r2 := GetBits(f, r1, 1).r;
    var low: nat := f[r2.ip];
    j := low / 32;
    FlagsAfter(f, r, 1);
    AfterFour(f, r, Bits(1, 1), Bits(1, 1), Byte(j * 32), Byte(0));
    PairItems(f, r2, j * 32, 0);
  }

  lemma ReadSized(f: seq<byte>, word: nat, r: Reader)
    requires 0x1_0000 <= word && r.ip <= |f| && ReadTok(f, word, r).Read?
    ensures var t := ReadTok(f, word, r).t; t.Stop? || t.Lit? || 1 <= t.off ==> Sized(t)
  {
    hide GetBits;
    if GetBits(f, r, 1).Got? {
      var r1 := GetBits(f, r, 1).r;
      if GetBits(f, r1, 1).Got? {
        var r2 := GetBits(f, r1, 1).r;
        if GetBits(f, r2, 2).Got? {
          TwoBits(f, r2);
        }
      }
    }
  }

  // ----- which inputs are accepted -----

  const R0: Reader := Reader(0, 0, 0)

  /** The reader gets legal tokens and an end marker from `f`, and is then at its end. */
  ghost predicate Spells(f: seq<byte>, word: nat, r: Reader, w: seq<byte>, ts: seq<Tok>, j: nat) {
    && 1 <= j < 8 && AllSized(ts) && LegalToks(word, w, ts)
    && After(f, r, ItemsAll(ts) + StopItems(j)).Got? && After(f, r, ItemsAll(ts) + StopItems(j)).r.ip == |f|
  }

  lemma {:induction false} MeaningGrows(w: seq<byte>, ts: seq<Tok>)
    ensures |w| <= |Meaning(w, ts)|
    decreases |ts|
  {
    if ts != [] {
      MeaningGrows(ApplyTok(w, ts[0]), ts[1..]);
    }
  }

  lemma TokPasses(word: nat, t: Tok, w: seq<byte>, cap: nat)
    requires |w| <= cap && !t.Stop? && Sized(t)
    ensures CheckTok(t, |w|, cap).Pass? <==> (t.Lit? || t.off <= |w|) && |ApplyTok(w, t)| <= cap
  {
  }

  lemma {:induction false} Accepted(f: seq<byte>, word: nat, cap: nat, r: Reader, w: seq<byte>, ts: seq<Tok>, j: nat)
    requires 0x1_0000 <= word && r.ip <= |f| && |Meaning(w, ts)| <= cap && Spells(f, word, r, w, ts, j)
    ensures |w| <= cap && Decode(f, word, cap, r, w) == Ending(Done(true), Meaning(w, ts))
    decreases |ts|
  {
    hide After, Items, ApplyTok, ReadTok, CheckTok, LongFits, Sized, StopItems;
    MeaningGrows(w, ts);
    AfterMoves(f, r, ItemsAll(ts) + StopItems(j));
    LastByte(ItemsAll(ts), j);
    if ts == [] {
      assert ItemsAll(ts) + StopItems(j) == StopItems(j);
      StopReads(f, word, r, j);
    } else {
      var t, us := ts[0], ts[1..];
      assert ItemsAll(ts) + StopItems(j) == Items(t) + (ItemsAll(us) + StopItems(j));
      AfterSplit(f, r, Items(t), ItemsAll(us) + StopItems(j));
      TokReads(f, word, r, t);
      SizedTok(word, t, |w|);
      MeaningGrows(ApplyTok(w, t), us);
      TokPasses(word, t, w, cap);
      Accepted(f, word, cap, ReadTok(f, word, r).r, ApplyTok(w, t), us, j);
    }
  }

  lemma LastByte(a: seq<Item>, j: nat)
    requires 1 <= j < 8
    ensures var items := a + StopItems(j); items != [] && items[|items| - 1].Byte?
  {
  }

  lemma {:induction false} AcceptedOnly(f: seq<byte>, word: nat, cap: nat, r: Reader, w: seq<byte>)
    returns (ts: seq<Tok>, j: nat)
    requires 0x1_0000 <= word && r.ip <= |f| && |w| <= cap && Decode(f, word, cap, r, w).o == Done(true)
    ensures Spells(f, word, r, w, ts, j) && Decode(f, word, cap, r, w).w == Meaning(w, ts)
    decreases Left(f, r)
  {
    hide After, Items, ApplyTok, ReadTok, CheckTok, LongFits, Sized, StopItems, Left;
    var m := ReadTok(f, word, r);
    if m.t.Stop? {
      ts := [];
      j := StopRead(f, word, r);
      assert ItemsAll(ts) + StopItems(j) == StopItems(j);
    } else {
      var t, w' := m.t, ApplyTok(w, m.t);
      ReadSized(f, word, r);
      PassesNear(t, |w|, cap);
      TokReads(f, word, r, t);
      TokPasses(word, t, w, cap);
      var us;
      us, j := AcceptedOnly(f, word, cap, m.r, w');
      ts := [t] + us;
      assert ts[1..] == us;
      SizedOK(word, t, |w|);
      assert ItemsAll(ts) + StopItems(j) == Items(t) + (ItemsAll(us) + StopItems(j));
      AfterSplit(f, r, Items(t), ItemsAll(us) + StopItems(j));
    }
  }

  lemma PassesNear(t: Tok, n: nat, cap: nat)
    requires n <= cap && !t.Stop? && CheckTok(t, n, cap).Pass? && (t.Near? ==> 1 <= t.off)
    ensures t.Lit? || 1 <= t.off <= n
  {
  }

  lemma SizedOK(word: nat, t: Tok, n: nat)
    requires Sized(t) && !t.Stop? && LongFits(word, t) && (t.Lit? || t.off <= n)
    ensures TokOK(word, t, n)
  {
  }

  /** LZO_E_OK exactly on the inputs that spell legal tokens and an end marker whose meaning fits the
      buffer; and then the output is that meaning. */
  lemma AcceptsExactly(f: seq<byte>, word: nat, cap: nat)
    requires 0x1_0000 <= word
    ensures Decode(f, word, cap, R0, []).o == Done(true) <==>
            exists ts, j :: Spells(f, word, R0, [], ts, j) && |Meaning([], ts)| <= cap
    ensures forall ts, j :: Spells(f, word, R0, [], ts, j) && |Meaning([], ts)| <= cap ==>
              Decode(f, word, cap, R0, []).w == Meaning([], ts)
  {
    forall ts, j | Spells(f, word, R0, [], ts, j) && |Meaning([], ts)| <= cap
      ensures Decode(f, word, cap, R0, []) == Ending(Done(true), Meaning([], ts))
    {
      Accepted(f, word, cap, R0, [], ts, j);
    }
    if Decode(f, word, cap, R0, []).o == Done(true) {
      var ts, j := AcceptedOnly(f, word, cap, R0, []);
    }
  }

  lemma StopIs()
    ensures Items(Stop) == StopItems(1)
  {
  }

  /** A compressor's stream is such an input. */
  lemma EncodedSpells(word: nat, ts: seq<Tok>)
    requires AllSized(ts) && LegalToks(word, [], ts)
    ensures Spells(Encoded(ts), word, R0, [], ts, 1)
  {
    hide Items, ItemsAll, After, ReaderAt, Stream, LegalToks;
    ItemsOK(ts);
    var items := ItemsAll(ts) + Items(Stop);
    StopIs();
    AfterStream(items, 0);
    ReaderEnds(items);
    assert items[0..] == items;
  }

  // ----- in the program -----

  method ReadLong(s: BitSource, word: nat) returns (m: LenResult)
    requires 0x1_0000 <= word && s.ip < |s.src|
    modifies s`ip
    ensures m == ReadExt(EnvOf(s.src, word), old(s.ip), 9) && (m.LenOK? ==> s.ip == m.ip)
  {
    ghost var e := EnvOf(s.src, word);
    ghost var p := s.ip;
    var t: nat := 9;
    while s.src[s.ip] == 0
      invariant p <= s.ip < |s.src| && ReadExt(e, s.ip, t) == ReadExt(e, p, 9)
      decreases |s.src| - s.ip
    {
      t := t + 255;
      var _, _ := s.TakeByte();
      if t > word - 511 {
        return LenWrap;
      }
      if |s.src| - s.ip < 1 {
        return LenShort;
      }
    }
    var _, last := s.TakeByte();
    m := LenOK(t + last, s.ip);
  }

  method TakeFar(s: BitSource, word: nat) returns (m: Read)
    requires 0x1_0000 <= word && s.ip <= |s.src|
    modifies s`ip
    ensures m == ReadFar(s.src, word, old(s.R())) && (m.Read? ==> m.r == s.R())
  {
    ghost var r := s.R();
    if |s.src| - s.ip < 2 {
      return Error(InputShort);
    }
    var _, b0 := s.TakeByte();
    var _, b1 := s.TakeByte();
    var low: nat, high: nat := b0, b1;
    var len, off := low / 32, low % 32 + high * 32;
    if len == 0 {
      if s.ip >= |s.src| {
        return Error(InputShort);
      }
      var l := ReadLong(s, word);
      match l {
        case LenOK(n, _) => m := Read(Long(n, off), Reader(s.ip, s.b, s.k));
        case LenWrap => m := Error(OutputShort);
        case LenShort => m := Error(InputShort);
      }
    } else {
      m := Read(if off == 0 then Stop else Medium(len + 2, off), Reader(s.ip, s.b, s.k));
    }
  }

  method TakeNear(s: BitSource) returns (m: Read)
    requires s.ip <= |s.src|
    modifies s
    ensures m == ReadNear(s.src, old(s.R())) && (m.Read? ==> m.r == s.R())
  {
    var ok, x := s.TakeBits(2);
    if !ok {
      return Error(InputShort);
    }
    var ok1, b := s.TakeByte();
    if !ok1 {
      return Error(InputShort);
    }
    var o: nat := b;
    m := Read(Near(M1_MIN_LEN + x, o + 1), Reader(s.ip, s.b, s.k));
  }

  /** One token from the input. */
  method TakeItems(s: BitSource, word: nat) returns (m: Read)
    requires 0x1_0000 <= word && s.ip <= |s.src|
    modifies s
    ensures m == ReadTok(s.src, word, old(s.R())) && (m.Read? ==> m.r == s.R())
  {
    hide ReadFar, ReadNear, GetBits;
    var ok, x := s.TakeBits(1);
    if !ok {
      return Error(InputShort);
    }
    if x == 0 {
      var ok1, b := s.TakeByte();
      return if ok1 then Read(Lit(b), Reader(s.ip, s.b, s.k)) else Error(InputShort);
    }
    ok, x := s.TakeBits(1);
    if !ok {
      return Error(InputShort);
    }
    if x == 0 {
      m := TakeNear(s);
    } else {
      m := TakeFar(s, word);
    }
  }

  /** One token on the output. */
  method TakeTok(t: Tok, dst: array<byte>, op: nat) returns (ok: bool, status: Failure, op': nat)
    requires op <= dst.Length && !t.Stop?
    modifies dst
    ensures op <= op' <= dst.Length && (!ok ==> op' == op)
    ensures forall i {:trigger dst[i]} | 0 <= i < dst.Length && !(op <= i < op') :: dst[i] == old(dst[i])
    ensures ok <==> (t.Lit? || 1 <= t.off <= op) && op + (if t.Lit? then 1 else t.len) <= dst.Length
    ensures ok ==> dst[..op'] == ApplyTok(old(dst[..op]), t)
    ensures CheckTok(t, op, dst.Length) == if ok then Pass else Fail(status)
  {
    ok, status, op' := false, OutputShort, op;
    if t.Lit? {
      if dst.Length - op < 1 {
        return;
      }
      dst[op] := t.b;
      assert dst[..op + 1] == old(dst[..op]) + [t.b];
      return true, status, op + 1;
    }
    if t.Near? && dst.Length - op < t.len {
      return;
    }
    if !(1 <= t.off <= op) {
      return false, BadOffset, op;
    }
    if dst.Length - op < t.len {
      return;
    }
    CopyBack(Bytewise, dst, op, t.off, t.len);
    ok, op' := true, op + t.len;
    assert dst[..op'][..op] == dst[..op] == old(dst[..op]);
    CopyUnique(dst[..op], t.off, t.len, dst[..op']);
  }

  /** lzo2a_decompress_safe, on any input. */
  method DecompressSafe(src: seq<byte>, dst: array<byte>, word: nat) returns (r: Outcome, op: nat)
    requires 0x1_0000 <= word
    modifies dst
    ensures op <= dst.Length && Decode(src, word, dst.Length, R0, []) == Ending(r, dst[..op])
    ensures forall i {:trigger dst[i]} | op <= i < dst.Length :: dst[i] == old(dst[i])
  {
    hide ReadTok, ApplyTok, CheckTok, Left;
    var s := new BitSource(src);
    op := 0;
    assert dst[..0] == [];
    while s.ip < |s.src|
      invariant op <= dst.Length && s.ip <= |s.src| && s.src == src
      invariant forall i {:trigger dst[i]} | op <= i < dst.Length :: dst[i] == old(dst[i])
      invariant Decode(src, word, dst.Length, s.R(), dst[..op]) == Decode(src, word, dst.Length, R0, [])
      decreases Left(src, s.R())
    {
      var m := TakeItems(s, word);
      if m.Error? {
        return Failed(m.status), op;
      }
      if m.t.Stop? {
        return Done(s.ip == |s.src|), op;
      }
      var ok, status, op' := TakeTok(m.t, dst, op);
      if !ok {
        return Failed(status), op;
      }
      op := op';
    }
    r := Failed(NoEof);
  }

  // ----- the compressor -----

  /** What the match finder found at one position. */
  datatype Pick = Pick(len: nat, off: nat)

  ghost predicate PickOK(w: seq<byte>, at: nat, p: Pick) {
    p.len < 2 || (1 <= p.off <= SWD_N && Same(w, at, p.off, p.len))
  }

  ghost predicate FinderOK(w: seq<byte>, find: nat -> Pick) {
    forall i {:trigger find(i)} | 0 <= i < |w| :: PickOK(w, i, find(i))
  }

  predicate IsNear(len: nat, off: nat) {
    M1_MIN_LEN <= len <= M1_MAX_LEN && off <= 256
  }

  function TokFor(len: nat, off: nat): Tok {
    if IsNear(len, off) then Near(len, off) else if len <= 9 then Medium(len, off) else Long(len, off)
  }

  lemma InputFits(word: nat, len: nat, off: nat)
    requires len + 511 <= word && 1 <= off <= SWD_N && (IsNear(len, off) || 3 <= len)
    ensures Sized(TokFor(len, off)) && LongFits(word, TokFor(len, off))
  {
    if len > 9 {
      ExtSize(len - 9);
    }
  }

  // ----- which tokens -----

  /** What the shortest form can code, and what is coded at all. */
  predicate Close(p: Pick) {
    2 <= p.len <= 5 && p.off <= 256
  }

  predicate Usable(p: Pick) {
    Close(p) || 3 <= p.len
  }

  /** How much longer the next position's match `q` must be to be preferred to `p`. */
  function Margin(p: Pick, q: Pick): int {
    var m := (if Close(p) then 2 else 1) + (if Close(p) && !Close(q) then 2 else 0) - (if Close(q) then 1 else 0);
    if m < 1 then 1 else m
  }

  /** A match that is left for a longer one at the next position. */
  ghost predicate Deferred(input: seq<byte>, find: nat -> Pick, at: nat) {
    && find(at).len < |input| - at && find(at).len <= 2048
    && find(at + 1).len >= find(at).len + Margin(find(at), find(at + 1))
  }

  /** What is coded at `at` follows from what the match finder says there and one byte further on: a
      literal where no match can be used or a longer one comes next, and else the match, in full. */
  ghost predicate Rule(input: seq<byte>, find: nat -> Pick, at: nat, t: Tok) {
    && at < |input|
    && if !Usable(find(at)) || Deferred(input, find, at) then t == Lit(input[at])
       else (t.Near? || t.Medium? || t.Long?) && t.len == find(at).len && t.off == find(at).off
            && (t.Near? <==> Close(find(at)))
  }

  ghost predicate Ruled(input: seq<byte>, find: nat -> Pick, ts: seq<Tok>) {
    forall k | 0 <= k < |ts| :: Rule(input, find, |Meaning([], ts[..k])|, ts[k])
  }

  lemma RuledSnoc(input: seq<byte>, find: nat -> Pick, ts: seq<Tok>, t: Tok)
    requires Ruled(input, find, ts) && Rule(input, find, |Meaning([], ts)|, t)
    ensures Ruled(input, find, ts + [t])
  {
    hide Rule, Meaning;
    forall k | 0 <= k <= |ts| ensures Rule(input, find, |Meaning([], (ts + [t])[..k])|, (ts + [t])[k]) {
      assert (ts + [t])[..k] == ts[..k];
      assert ts[..|ts|] == ts;
    }
  }

  /** What the compressor makes of its input. */
  ghost predicate Compressed(word: nat, input: seq<byte>, find: nat -> Pick, bs: seq<byte>) {
    exists ts :: Encoding(word, ts, bs, input) && Ruled(input, find, ts)
  }

  lemma OneRule(input: seq<byte>, find: nat -> Pick, at: nat, t: Tok, u: Tok)
    requires Rule(input, find, at, t) && Rule(input, find, at, u) && Sized(t) && Sized(u)
    ensures t == u
  {
  }

  lemma {:induction false} SameTokens(input: seq<byte>, find: nat -> Pick, ts: seq<Tok>, us: seq<Tok>, k: nat)
    requires Ruled(input, find, ts) && Ruled(input, find, us) && AllSized(ts) && AllSized(us)
    requires Meaning([], ts) == Meaning([], us) == input && k <= |ts|
    ensures k <= |us| && us[..k] == ts[..k]
    decreases k
  {
    hide Rule, Meaning, Sized;
    if k > 0 {
      SameTokens(input, find, ts, us, k - 1);
      assert ts[..k] == ts[..k - 1] + [ts[k - 1]] && us[..|us|] == us;
      InsideInput(input, find, |Meaning([], ts[..k - 1])|, ts[k - 1]);
      assert us[..k] == us[..k - 1] + [us[k - 1]];
      OneRule(input, find, |Meaning([], ts[..k - 1])|, ts[k - 1], us[k - 1]);
    }
  }

  lemma InsideInput(input: seq<byte>, find: nat -> Pick, at: nat, t: Tok)
    requires Rule(input, find, at, t)
    ensures at < |input|
  {
  }

  /** The rule leaves no choice: input and match finder determine every byte of the output. */
  lemma CompressedUnique(word: nat, input: seq<byte>, find: nat -> Pick, b: seq<byte>, c: seq<byte>)
    requires Compressed(word, input, find, b) && Compressed(word, input, find, c)
    ensures b == c
  {
    hide Ruled, LegalToks, Meaning, Encoded;
    var ts :| Encoding(word, ts, b, input) && Ruled(input, find, ts);
    var us :| Encoding(word, us, c, input) && Ruled(input, find, us);
    SameTokens(input, find, ts, us, |ts|);
    SameTokens(input, find, us, ts, |us|);
    assert ts == us[..|us|] == us;
  }

  /** The bits of a token, which are at most nine for each byte of output. */
  function TokWidth(t: Tok): nat {
    match t
    case Lit(_) => 9
    case Near(_, _) => 12
    case Long(len, _) => 18 + 8 * |Ext(if len >= 10 then len - 9 else 1)|
    case _ => 18
  }

  lemma WidthPaid(len: nat, off: nat)
    requires IsNear(len, off) || 3 <= len
    ensures TokWidth(TokFor(len, off)) <= 9 * len
  {
    if len > 9 {
      ExtSize(len - 9);
    }
  }

  class Coder {
    const input: seq<byte>
    const find: nat -> Pick
    const sink: BitSink
    var bp: nat
    var look: nat
    var mLen: nat
    var mOff: nat
    ghost var ts: seq<Tok>

    constructor (input: seq<byte>, find: nat -> Pick, dst: array<byte>)
      ensures this.input == input && this.find == find && fresh(sink) && sink.buf == dst
      ensures bp == 0 && ts == [] && sink.Valid() && sink.items == []
    {
      this.input, this.find := input, find;
      sink := new BitSink(dst);
      bp, look, mLen, mOff, ts := 0, 0, 0, 0, [];
    }

    /** The input up to `at` has been emitted. */
    ghost predicate Emitted(word: nat, at: nat)
      reads `ts, sink, sink.buf
    {
      && |input| + 511 <= word && FinderOK(input, find) && at <= |input| && Ruled(input, find, ts)
      && LegalToks(word, [], ts) && Meaning([], ts) == input[..at] && AllSized(ts)
      && sink.Valid() && sink.items == ItemsAll(ts) && Weight(sink.items) <= 9 * at
    }

    /** An eighth and four bytes are room for any output. */
    ghost predicate Roomy() {
      |input| + |input| / 8 + 4 <= sink.buf.Length
    }

    /** There is room for `n` bits more. */
    ghost predicate Room(n: nat)
      reads sink
    {
      Weight(sink.items) + n + 7 <= 8 * sink.buf.Length
    }

    ghost predicate Found()
      reads `bp, `look, `mLen, `mOff
    {
      && bp <= |input| && look == (if |input| - bp > SWD_F + 1 then SWD_F + 1 else |input| - bp)
      && (look > 0 ==> PickOK(input, bp, Pick(mLen, mOff)) && Pick(mLen, mOff) == find(bp))
      && (look == 0 ==> mLen == 0)
    }

    method FindMatch(thisLen: nat, skip: nat)
      requires FinderOK(input, find) && (if skip > 0 then skip <= thisLen else thisLen <= 1)
      requires bp + (if skip > 0 then thisLen - skip + 1 else thisLen) <= |input|
      modifies `bp, `look, `mLen, `mOff
      ensures bp == old(bp) + (if skip > 0 then thisLen - skip + 1 else thisLen) && Found()
    {
      bp := bp + if skip > 0 then thisLen - skip + 1 else thisLen;
      look := if |input| - bp > SWD_F + 1 then SWD_F + 1 else |input| - bp;
      if look == 0 {
        mLen := 0;
      } else {
        var p := find(bp);
        mLen, mOff := p.len, p.off;
      }
    }

    method PutFlags(second: nat)
      requires sink.Valid() && second < 2 && Room(2)
      modifies sink, sink.buf
      ensures sink.Valid() && sink.items == old(sink.items) + [Bits(1, 1), Bits(1, second)]
      ensures Weight(sink.items) == old(Weight(sink.items)) + 2
    {
      PowValues2();
      sink.PutBits(1, 1);
      sink.PutBits(1, second);
    }

    method PutPair(b0: byte, b1: byte)
      requires sink.Valid() && Room(16)
      modifies sink, sink.buf
      ensures sink.Valid() && sink.items == old(sink.items) + [Byte(b0), Byte(b1)]
      ensures Weight(sink.items) == old(Weight(sink.items)) + 16
    {
      sink.PutByte(b0);
      sink.PutByte(b1);
    }

    method PutNear(len: nat, off: nat)
      requires Sized(Near(len, off)) && sink.Valid() && Room(12)
      modifies sink, sink.buf
      ensures sink.Valid() && sink.items == old(sink.items) + Items(Near(len, off))
      ensures Weight(sink.items) == old(Weight(sink.items)) + 12
    {
      PowValues2();
      PutFlags(0);
      sink.PutBits(2, len - M1_MIN_LEN);
      sink.PutByte(off - 1);
    }

    method PutFar(t: Tok, b0: byte, b1: byte)
      requires Sized(t) && (t.Medium? || t.Long? || t.Stop?) && b0 == FarBytes(t)[0] && b1 == FarBytes(t)[1]
      requires sink.Valid() && Room(TokWidth(t))
      modifies sink, sink.buf
      ensures sink.Valid() && sink.items == old(sink.items) + Items(t)
      ensures Weight(sink.items) == old(Weight(sink.items)) + TokWidth(t)
    {
      hide Ext, FarBytes, Items, AsItems, Weight, BitSink.Valid;
      FarIs(t);
      ghost var was := sink.items;
      PutFlags(1);
      PutPair(b0, b1);
      if t.Long? {
        PutExt(t.len - 9);
      }
      assert sink.items == was + ([Bits(1, 1), Bits(1, 1)] + AsItems(FarBytes(t)));
    }

    /** The bits and bytes of a token. */
    method PutItems(t: Tok)
      requires Sized(t) && sink.Valid() && Room(TokWidth(t))
      modifies sink, sink.buf
      ensures sink.Valid() && sink.items == old(sink.items) + Items(t)
      ensures Weight(sink.items) == old(Weight(sink.items)) + TokWidth(t)
    {
      hide Pow2, Ext, AsItems;
      match t {
        case Lit(b) =>
          PowValues2();
          sink.PutBits(1, 0);
          sink.PutByte(b);
        case Near(len, off) =>
          PutNear(len, off);
        case Medium(len, off) =>
          PutFar(t, (len - 2) * 32 + off % 32, off / 32);
        case Long(len, off) =>
          PutFar(t, off % 32, off / 32);
        case Stop =>
          PutFar(t, 32, 0);
      }
    }

    method PutExt(n: nat)
      requires n >= 1 && sink.Valid() && Room(8 * |Ext(n)|)
      modifies sink, sink.buf
      ensures sink.Valid() && sink.items == old(sink.items) + AsItems(Ext(n))
      ensures Weight(sink.items) == old(Weight(sink.items)) + 8 * |Ext(n)|
    {
      hide Weight, BitSink.Valid;
      var m := n;
      while m > 255
        invariant m >= 1 && sink.Valid() && sink.items + AsItems(Ext(m)) == old(sink.items) + AsItems(Ext(n))
        invariant Weight(sink.items) + 8 * |Ext(m)| == old(Weight(sink.items)) + 8 * |Ext(n)|
      {
        ghost var was := sink.items;
        assert was + AsItems(Ext(m)) == was + [Byte(0)] + AsItems(Ext(m - 255));
        m := m - 255;
        sink.PutByte(0);
      }
      sink.PutByte(m);
      assert AsItems(Ext(m)) == [Byte(m)];
    }

    /** A token for the next bytes of the input. */
    method PutTok(t: Tok, ghost word: nat, ghost at: nat, ghost len: nat)
      requires Emitted(word, at) && TokOK(word, t, at) && at + len <= |input|
      requires ApplyTok(input[..at], t) == input[..at + len]
      requires Roomy() && TokWidth(t) <= 9 * len && Rule(input, find, at, t)
      modifies `ts, sink, sink.buf
      ensures Emitted(word, at + len)
    {
      hide Items, ApplyTok, TokOK, LegalToks, ItemsAll, Meaning, Ruled, Rule;
      SizedTok(word, t, at);
      RuledSnoc(input, find, ts, t);
      ToksSnoc(word, [], ts, t);
      ItemsSnoc(ts, t);
      PutItems(t);
      ts := ts + [t];
    }

    method PutLit(b: byte, ghost word: nat, ghost at: nat)
      requires Emitted(word, at) && at < |input| && b == input[at] && Roomy()
      requires !Usable(find(at)) || Deferred(input, find, at)
      modifies `ts, sink, sink.buf
      ensures Emitted(word, at + 1)
    {
      assert input[..at] + [b] == input[..at + 1];
      PutTok(Lit(b), word, at, 1);
    }

    method PutMatch(len: nat, off: nat, ghost word: nat, ghost at: nat)
      requires Emitted(word, at) && PickOK(input, at, Pick(len, off)) && (IsNear(len, off) || 3 <= len) && Roomy()
      requires find(at) == Pick(len, off) && !Deferred(input, find, at)
      modifies `ts, sink, sink.buf
      ensures Emitted(word, at + len) && at + len <= |input|
    {
      hide LongFits;
      SameIsCopy(input, at, off, len);
      InputFits(word, len, off);
      WidthPaid(len, off);
      PutTok(TokFor(len, off), word, at, len);
    }

    /** One round of the main loop. */
    method Round(ghost word: nat)
      requires Emitted(word, bp) && Found() && look > 0 && Roomy()
      modifies this, sink, sink.buf
      ensures Emitted(word, bp) && Found() && bp > old(bp)
    {
      hide Emitted, Same;
      assert FinderOK(input, find) by { EmittedFinder(word, bp); }
      var len, off, gain, ahead := mLen, mOff, 0, 0;
      if IsNear(len, off) {
        gain := 2;
      } else if len >= 3 {
        gain := 1;
      } else {
        len := 0;
      }
      if gain > 0 && look > len {
        var lit := input[bp];
        FindMatch(1, 0);
        if IsNear(len, off) && !IsNear(mLen, mOff) {
          gain := gain + 2;
        }
        if IsNear(mLen, mOff) {
          gain := gain - 1;
        }
        if gain < 1 {
          gain := 1;
        }
        if mLen >= len + gain {
          PutLit(lit, word, bp - 1);
          return;
        }
        ahead := 1;
      }
      if len == 0 {
        PutLit(input[bp], word, bp);
        FindMatch(1, 0);
      } else {
        ghost var at := bp - ahead;
        PutMatch(len, off, word, at);
        FindMatch(len, 1 + ahead);
      }
    }

    lemma EmittedFinder(word: nat, at: nat)
      requires Emitted(word, at)
      ensures FinderOK(input, find)
    {
    }
  }

  /** lzo2a_999_compress_callback. */
  method Compress(input: seq<byte>, find: nat -> Pick, ghost word: nat, dst: array<byte>) returns (outLen: nat)
    requires |input| + 511 <= word && FinderOK(input, find) && |input| + |input| / 8 + 4 <= dst.Length
    modifies dst
    ensures outLen <= dst.Length && outLen <= |input| + |input| / 8 + 4
    ensures Compressed(word, input, find, dst[..outLen])
  {
    hide Stream, Items, Weight;
    var c := new Coder(input, find, dst);
    NoWeight();
    c.FindMatch(0, 0);
    assert input[..0] == [];
    while c.look > 0
      invariant fresh(c) && fresh(c.sink) && c.input == input && c.find == find && c.sink.buf == dst
      invariant c.Emitted(word, c.bp) && c.Found()
      decreases |input| - c.bp
    {
      c.Round(word);
    }
    assert input[..c.bp] == input;
    c.PutItems(Stop);
    LastByte(ItemsAll(c.ts), 1);
    StopIs();
    c.sink.FlushBits();
    outLen := c.sink.op;
    assert Encoding(word, c.ts, dst[..outLen], input);
  }

  /** Every input is what its compressed form decompresses to. */
  method RoundTrip(input: seq<byte>, find: nat -> Pick, word: nat, dst: array<byte>) returns (r: Outcome, op: nat)
    requires 0x1_0000 <= word && |input| + 511 <= word && FinderOK(input, find) && |input| <= dst.Length
    modifies dst
    ensures r == Done(true) && op <= dst.Length && dst[..op] == input
  {
    hide Encoded, LegalToks, Meaning, Decode, Spells;
    var mid := new byte[|input| + |input| / 8 + 4];
    var n := Compress(input, find, word, mid);
    ghost var ts :| Encoding(word, ts, mid[..n], input);
    EncodedSpells(word, ts);
    Accepted(mid[..n], word, dst.Length, R0, [], ts, 1);
    r, op := DecompressSafe(mid[..n], dst, word);
  }
}
