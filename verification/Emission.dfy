/** What every encoder keeps: the tokens emitted so far begin with literals, are legal, mean the input so far,
    and are lean. Each way of emitting something preserves it. */
module Emission {
  import opened Bytes
  import opened Format
  import opened Decoder
  import opened Language
  import opened Expansion
  import opened Division

  /** Every encoder begins with literals. */
  predicate LitsFirst(ts: seq<Token>) {
    ts != [] ==> !ts[0].Match?
  }

  ghost predicate Emitted(v: Variant, word: nat, c0: Ctx, ts: seq<Token>, w: seq<byte>, slack: int) {
    && LegalAll(v, word, c0, ts)
    && ApplyAll(c0, ts).out == w
    && Lean(v, c0, ts, slack)
    && LitsFirst(ts)
  }

  /** Nothing, or literals and at last a match without literals, has been emitted. */
  ghost predicate Open(ts: seq<Token>) {
    ts == [] || (2 <= |ts| && ts[|ts| - 1].Match? && ts[|ts| - 1].trail == [])
  }

  /** The state in which an encoder starts; the dictionary, if any, is the initial window. */
  ghost predicate AtStart(c0: Ctx) {
    c0.st == Start && c0.last == 0
  }

  lemma EmitNothing(v: Variant, word: nat, c0: Ctx, slack: nat)
    ensures Emitted(v, word, c0, [], c0.out, slack) && Open([])
  {
  }

  lemma EmitToken(v: Variant, word: nat, c0: Ctx, ts: seq<Token>, w: seq<byte>, t: Token, slack: int, slack': int)
    requires Emitted(v, word, c0, ts, w, slack) && Legal(v, word, ApplyAll(c0, ts), t) && 0 <= slack'
    requires var cost := TokenCost(v, ApplyAll(c0, ts), t);
             if t.First? then ts == [] && cost <= slack' + HEAD_COST else slack + cost <= slack' && cost <= slack'
    requires t.Match? ==> ts != []
    ensures Emitted(v, word, c0, ts + [t], Apply(ApplyAll(c0, ts), t).out, slack')
  {
    hide LegalAll, ApplyAll, Legal, TokenCost, Apply, Lean;
    LegalSnoc(v, word, c0, ts, t);
    LeanSnoc(v, c0, ts, t, slack, slack');
  }

  lemma OpenState(v: Variant, word: nat, c0: Ctx, ts: seq<Token>)
    requires AtStart(c0) && LegalAll(v, word, c0, ts) && Open(ts)
    ensures ApplyAll(c0, ts).st == if ts == [] then Start else Fresh
  {
    if ts != [] {
      assert Legal(v, word, ApplyAll(c0, ts[..|ts| - 1]), ts[|ts| - 1]);
    }
  }

  lemma ExtSize(n: nat)
    requires n >= 1
    ensures 255 * (|Ext(n)| - 1) < n
    decreases n
  {
    if n > 255 {
      ExtSize(n - 255);
    }
  }

  lemma FitsInput(word: nat, n: nat, max: nat)
    requires n + 511 <= word
    ensures Fits(word, n, max)
  {
    if n > max {
      ExtSize(n - max);
    }
  }

  lemma EmitRun(v: Variant, word: nat, c0: Ctx, ts: seq<Token>, w: seq<byte>, lits: seq<byte>, slack: nat)
    requires AtStart(c0) && Emitted(v, word, c0, ts, w, slack) && Open(ts) && 4 <= |lits| && |lits| + 511 <= word
    ensures Emitted(v, word, c0, ts + [Run(lits)], w + lits, slack + RUN_SLACK)
    ensures ApplyAll(c0, ts + [Run(lits)]).st == AfterRun
  {
    hide LegalAll, ApplyAll, Lean, MatchBytes, InRange;
    OpenState(v, word, c0, ts);
    FitsInput(word, |lits| - 3, 15);
    if |lits| > 18 {
      ExtSize(|lits| - 18);
    }
    EmitToken(v, word, c0, ts, w, Run(lits), slack, slack + RUN_SLACK);
    LegalSnoc(v, word, c0, ts, Run(lits));
  }

  lemma EmitFirst(v: Variant, word: nat, c0: Ctx, lits: seq<byte>, slack: nat)
    requires AtStart(c0) && 1 <= |lits| <= 238
    ensures Emitted(v, word, c0, [First(lits)], c0.out + lits, slack)
    ensures ApplyAll(c0, [First(lits)]).st == if |lits| < 4 then AfterTrail else AfterRun
  {
    hide MatchBytes, Lean, InRange, Fits;
    EmitNothing(v, word, c0, slack);
    assert TokenCost(v, c0, First(lits)) == 16 - |lits|;
    assert Legal(v, word, c0, First(lits));
    EmitToken(v, word, c0, [], c0.out, First(lits), slack, slack);
    assert [] + [First(lits)] == [First(lits)];
    LegalSnoc(v, word, c0, [], First(lits));
  }

  /** The list with the last match given these literals. */
  function Patch(ts: seq<Token>, lits: seq<byte>): seq<Token>
    requires ts != [] && ts[|ts| - 1].Match?
  {
    ts[..|ts| - 1] + [ts[|ts| - 1].(trail := lits)]
  }

  lemma NotStart(v: Variant, word: nat, c0: Ctx, ts: seq<Token>)
    requires LegalAll(v, word, c0, ts) && ts != []
    ensures !ApplyAll(c0, ts).st.Start?
  {
    assert Legal(v, word, ApplyAll(c0, ts[..|ts| - 1]), ts[|ts| - 1]);
  }

  lemma LegalTrail(v: Variant, word: nat, c: Ctx, m: Token, lits: seq<byte>)
    requires Legal(v, word, c, m) && !c.st.Start? && m.Match? && m.trail == [] && 1 <= |lits| < 4
    ensures Legal(v, word, c, m.(trail := lits))
    ensures Apply(c, m.(trail := lits)).out == Apply(c, m).out + lits
    ensures Apply(c, m.(trail := lits)).st == AfterTrail
    ensures m.off <= |c.out|
  {
    hide Enc, Fits;
    assert 1 <= m.off <= |c.out|;
    assert CopyMatch(c.out, m.off, m.len) + [] == CopyMatch(c.out, m.off, m.len);
  }

  lemma EmitTrail(v: Variant, word: nat, c0: Ctx, ts: seq<Token>, w: seq<byte>, lits: seq<byte>, slack: nat)
    requires AtStart(c0) && Emitted(v, word, c0, ts, w, slack) && Open(ts) && ts != [] && 1 <= |lits| < 4
    ensures Emitted(v, word, c0, Patch(ts, lits), w + lits, slack)
    ensures ApplyAll(c0, Patch(ts, lits)).st == AfterTrail
  {
    hide LegalAll, ApplyAll, Legal, Lean, Apply;
    var us, m := ts[..|ts| - 1], ts[|ts| - 1];
    assert us + [m] == ts;
    LegalSnoc(v, word, c0, us, m);
    NotStart(v, word, c0, us);
    var m' := m.(trail := lits);
    LegalTrail(v, word, ApplyAll(c0, us), m, lits);
    LeanPatch(v, c0, us, m, lits, slack);
    LegalSnoc(v, word, c0, us, m');
  }

  /** How far the output can have got. */
  lemma EmittedSize(v: Variant, word: nat, c0: Ctx, ts: seq<Token>, w: seq<byte>, slack: int)
    requires Emitted(v, word, c0, ts, w, slack)
    ensures 16 * |EncAll(v, ts)| <= 17 * (|w| - |c0.out|) + slack + HEAD_COST
  {
  }

  /** Patching, on the bytes: one byte is or-ed with the count and the literals follow. */
  lemma PatchEnc(v: Variant, ts: seq<Token>, lits: seq<byte>)
    requires ShapedAll(v, ts) && Open(ts) && ts != [] && 1 <= |lits| < 4
    ensures ShapedAll(v, Patch(ts, lits))
    ensures var bs := EncAll(v, ts);
            var at := |bs| - TrailBack(v);
            0 <= at && EncAll(v, Patch(ts, lits)) == bs[at := OrLow(bs[at], |lits|)] + lits
  {
    hide Enc, MatchBytes, LegalAll, ApplyAll, EncAll, Legal, Apply, OrLow;
    var us, m := ts[..|ts| - 1], ts[|ts| - 1];
    assert us + [m] == ts;
    var m' := m.(trail := lits);
    LegalSnoc(v, 0, Ctx(Start, 0, []), us, m);
    LegalSnoc(v, 0, Ctx(Start, 0, []), us, m');
    PatchBytes(v, m, lits);
    var a, b := EncAll(v, us), Enc(v, m);
    var i := |b| - TrailBack(v);
    assert (a + b)[|a| + i := OrLow(b[i], |lits|)] == a + b[i := OrLow(b[i], |lits|)];
  }

  // ----- literals -----

  /** Literals before a match: up to three go into the match before them, which there always is. */
  function AddLits(ts: seq<Token>, lits: seq<byte>): seq<Token> {
    if lits == [] then ts
    else if |lits| < 4 then (if ts != [] && ts[|ts| - 1].Match? then Patch(ts, lits) else ts)
    else ts + [Run(lits)]
  }

  /** The same when nothing has been emitted yet and they may have a header of their own. */
  function Store(ts: seq<Token>, lits: seq<byte>): seq<Token> {
    if lits != [] && ts == [] && |lits| <= 238 then [First(lits)] else AddLits(ts, lits)
  }

  lemma EmitLits(v: Variant, word: nat, c0: Ctx, ts: seq<Token>, w: seq<byte>, lits: seq<byte>, slack: nat)
    requires AtStart(c0) && Emitted(v, word, c0, ts, w, slack) && Open(ts)
    requires |lits| + 511 <= word && (|lits| < 4 ==> ts != [])
    ensures Emitted(v, word, c0, AddLits(ts, lits), w + lits, if |lits| < 4 then slack else slack + RUN_SLACK)
    ensures ApplyAll(c0, AddLits(ts, lits)).st ==
            if lits == [] then Fresh else if |lits| < 4 then AfterTrail else AfterRun
  {
    hide LegalAll, ApplyAll, EncAll, Cost;
    if lits == [] {
      OpenState(v, word, c0, ts);
      assert w + lits == w;
    } else if |lits| < 4 {
      EmitTrail(v, word, c0, ts, w, lits, slack);
    } else {
      EmitRun(v, word, c0, ts, w, lits, slack);
    }
  }

  lemma EmitStore(v: Variant, word: nat, c0: Ctx, ts: seq<Token>, w: seq<byte>, lits: seq<byte>, slack: nat)
    requires AtStart(c0) && Emitted(v, word, c0, ts, w, slack) && Open(ts) && |lits| + 511 <= word && lits != []
    ensures Emitted(v, word, c0, Store(ts, lits), w + lits, if |lits| < 4 then slack else slack + RUN_SLACK)
    ensures ApplyAll(c0, Store(ts, lits)).st == if |lits| < 4 then AfterTrail else AfterRun
  {
    hide LegalAll, ApplyAll, EncAll, Cost, Lean, AddLits;
    if ts == [] && |lits| <= 238 {
      EmitFirst(v, word, c0, lits, if |lits| < 4 then slack else slack + RUN_SLACK);
      assert w == c0.out by { ApplyNil(c0); }
    } else {
      EmitLits(v, word, c0, ts, w, lits, slack);
    }
  }

  /** Literals leave the offset that LZO1Z can repeat alone, in whatever way they are stored. */
  lemma StoreLast(v: Variant, c0: Ctx, ts: seq<Token>, lits: seq<byte>)
    ensures ApplyAll(c0, Store(ts, lits)).last == ApplyAll(c0, ts).last
  {
    hide ApplyAll, LegalAll, EncAll, Legal, Enc;
    if lits == [] {
    } else if ts == [] && |lits| <= 238 {
      assert [] + [First(lits)] == [First(lits)];
      LegalSnoc(v, 0, c0, [], First(lits));
    } else if |lits| >= 4 {
      LegalSnoc(v, 0, c0, ts, Run(lits));
    } else if ts != [] && ts[|ts| - 1].Match? {
      var us, m := ts[..|ts| - 1], ts[|ts| - 1];
      assert us + [m] == ts;
      LegalSnoc(v, 0, c0, us, m);
      LegalSnoc(v, 0, c0, us, m.(trail := lits));
    }
  }

  lemma StoreNothing(ts: seq<Token>)
    ensures Store(ts, []) == ts
  {
  }

  lemma ApplyNil(c0: Ctx)
    ensures ApplyAll(c0, []) == c0
  {
  }

  // ----- matches -----

  /** The `n` bytes at `ip` are those `off` positions before them. */
  ghost predicate Same(s: seq<byte>, ip: nat, off: nat, n: nat) {
    off <= ip && ip + n <= |s| && forall i {:trigger s[i]} | ip <= i < ip + n :: s[i] == s[i - off]
  }

  lemma SameJoin(s: seq<byte>, ip: nat, off: nat, m: nat, n: nat)
    requires Same(s, ip, off, m) && Same(s, ip + m, off, n)
    ensures Same(s, ip, off, m + n)
  {
  }

  lemma SameNext(s: seq<byte>, ip: nat, off: nat, n: nat)
    requires Same(s, ip, off, n) && ip + n < |s| && s[ip + n] == s[ip + n - off]
    ensures Same(s, ip, off, n + 1)
  {
  }

  lemma SameTake(s: seq<byte>, ip: nat, off: nat, n: nat, be: nat)
    requires Same(s, ip, off, n) && ip + n <= be <= |s|
    ensures Same(s[..be], ip, off, n)
  {
  }

  lemma SameIsCopy(s: seq<byte>, ip: nat, off: nat, len: nat)
    requires 1 <= off && Same(s, ip, off, len)
    ensures CopyMatch(s[..ip], off, len) == s[..ip + len] && s[..ip + len] + [] == s[..ip + len]
  {
    CopyUnique(s[..ip], off, len, s[..ip + len]);
  }

  lemma MatchSize(v: Variant, kind: Kind, len: nat, off: nat)
    requires InRange(v, kind, len, off) && 4 <= len && (kind.M2? || kind.M3? || kind.M4?)
    ensures 16 * |MatchBytes(v, kind, len, off, 0)| + MATCH_GAIN <= 17 * len
  {
    hide M1Bytes, M2Bytes, OffBytes;
    if kind.M3? && len > 33 {
      ExtSize(len - 33);
    }
    if kind.M4? && len > 9 {
      ExtSize(len - 9);
    }
  }

  // ----- the tokens' bytes -----

  lemma RunEnc(v: Variant, ts: seq<Token>, lits: seq<byte>)
    requires ShapedAll(v, ts) && 4 <= |lits|
    ensures ShapedAll(v, ts + [Run(lits)])
    ensures EncAll(v, ts + [Run(lits)]) == EncAll(v, ts) + (LenBytes(0, |lits| - 3, 15) + lits)
  {
    hide LegalAll, ApplyAll, EncAll, Legal, Apply, LenBytes;
    assert Enc(v, Run(lits)) == LenBytes(0, |lits| - 3, 15) + lits;
    LegalSnoc(v, 0, Ctx(Start, 0, []), ts, Run(lits));
  }

  lemma MatchEnc(v: Variant, ts: seq<Token>, m: Token)
    requires ShapedAll(v, ts) && Shaped(v, m) && m.Match? && m.trail == []
    ensures ShapedAll(v, ts + [m])
    ensures EncAll(v, ts + [m]) == EncAll(v, ts) + MatchBytes(v, m.kind, m.len, m.off, 0)
  {
    hide LegalAll, ApplyAll, EncAll, Legal, Apply, MatchBytes;
    LegalSnoc(v, 0, Ctx(Start, 0, []), ts, m);
    assert Enc(v, m) == MatchBytes(v, m.kind, m.len, m.off, 0);
  }

  lemma FirstEnc(v: Variant, lits: seq<byte>)
    requires 1 <= |lits| <= 238
    ensures ShapedAll(v, [First(lits)]) && EncAll(v, [First(lits)]) == [17 + |lits|] + lits
  {
    assert [First(lits)][..0] == [];
    assert EncAll(v, [First(lits)][..0]) == [];
    assert Enc(v, First(lits)) == [17 + |lits|] + lits;
  }

  /** Casting to `unsigned char` drops the bits that the marker or nothing carries. */
  lemma OffTruncated(o: nat)
    ensures Trunc(o * 4) == o % 0x4000 % 64 * 4 && Trunc(o / 64) == o % 0x4000 / 64
  {
    var a, b, r := o / 64 / 256, o / 64 % 256, o % 64;
    Digits(o, a, b, r);
  }

  lemma SmallOff(o: nat)
    requires o < 0x4000
    ensures Trunc(o * 4) == o % 64 * 4
  {
    OffTruncated(o);
  }

  lemma Digits(o: nat, a: nat, b: nat, r: nat)
    requires o == a * 0x4000 + b * 64 + r && b < 256 && r < 64
    ensures o * 4 % 256 == r * 4 && o % 0x4000 == b * 64 + r && o / 64 % 256 == b
    ensures (b * 64 + r) % 64 == r && (b * 64 + r) / 64 == b
  {
    DivUnique(o * 4, 256, a * 256 + b, r * 4);
    DivUnique(o, 0x4000, a, b * 64 + r);
    DivUnique(o, 64, a * 256 + b, r);
    DivUnique(a * 256 + b, 256, a, b);
  }

  /** The bytes `w` with the number `t` of the last literals: in a header of the whole input, in the
      match before them, or in a run's header. */
  function Headed(v: Variant, w: seq<byte>, t: nat): seq<byte>
    requires 1 <= t && (w == [] || TrailBack(v) <= |w|)
  {
    if w == [] && t <= 238 then [17 + t]
    else if t <= 3 then (if w == [] then w else w[|w| - TrailBack(v) := OrLow(w[|w| - TrailBack(v)], t)])
    else w + LenBytes(0, t - 3, 15)
  }

  lemma StoreCases(ts: seq<Token>, lits: seq<byte>)
    requires lits != [] && Open(ts)
    ensures Store(ts, lits) ==
            if ts == [] && |lits| <= 238 then [First(lits)]
            else if |lits| <= 3 then Patch(ts, lits) else ts + [Run(lits)]
  {
  }

  lemma HeadedCases(v: Variant, w: seq<byte>, t: nat)
    requires 1 <= t && (w == [] || TrailBack(v) <= |w|)
    ensures w == [] && t <= 238 ==> Headed(v, w, t) == [17 + t]
    ensures w != [] && t <= 3 ==> Headed(v, w, t) == w[|w| - TrailBack(v) := OrLow(w[|w| - TrailBack(v)], t)]
    ensures t > 3 && !(w == [] && t <= 238) ==> Headed(v, w, t) == w + LenBytes(0, t - 3, 15)
  {
  }

  lemma StoreEnc(v: Variant, ts: seq<Token>, lits: seq<byte>)
    requires lits != [] && ShapedAll(v, ts) && Open(ts)
    ensures var w := EncAll(v, ts);
            && (w == [] || TrailBack(v) <= |w|) && ShapedAll(v, Store(ts, lits))
            && EncAll(v, Store(ts, lits)) == Headed(v, w, |lits|) + lits
  {
    hide LenBytes, OrLow, EncAll, ShapedAll, Patch, Store, Headed;
    EncSome(v, ts);
    StoreCases(ts, lits);
    HeadedCases(v, EncAll(v, ts), |lits|);
    if ts == [] && |lits| <= 238 {
      FirstEnc(v, lits);
    } else if |lits| <= 3 {
      PatchEnc(v, ts, lits);
    } else {
      RunEnc(v, ts, lits);
      assert EncAll(v, ts) + (LenBytes(0, |lits| - 3, 15) + lits) == EncAll(v, ts) + LenBytes(0, |lits| - 3, 15) + lits;
    }
  }

  lemma EncSome(v: Variant, ts: seq<Token>)
    requires ShapedAll(v, ts) && Open(ts)
    ensures ts == [] ==> EncAll(v, ts) == []
    ensures ts != [] ==> TrailBack(v) <= |EncAll(v, ts)|
  {
    hide Enc, MatchBytes;
    if ts != [] {
      PatchEnc(v, ts, [0]);
    }
  }

  // ----- finished streams -----

  const EOF_MARK: seq<byte> := [M4_MARKER + 1, 0, 0]

  /** What a finished encoder leaves: legal tokens whose meaning is the window `w`, and the marker. */
  ghost predicate EncodedBy(v: Variant, word: nat, c0: Ctx, ts: seq<Token>, bs: seq<byte>, w: seq<byte>, slack: nat) {
    && AtStart(c0)
    && Emitted(v, word, c0, ts, w, slack)
    && bs == EncAll(v, ts) + EOF_MARK
  }

  ghost predicate Encodes(v: Variant, word: nat, c0: Ctx, bs: seq<byte>, w: seq<byte>, slack: nat) {
    exists ts :: EncodedBy(v, word, c0, ts, bs, w, slack)
  }

  lemma EncodesMore(v: Variant, word: nat, c0: Ctx, bs: seq<byte>, w: seq<byte>, slack: nat, slack': nat)
    requires Encodes(v, word, c0, bs, w, slack) && slack <= slack'
    ensures Encodes(v, word, c0, bs, w, slack')
  {
    var ts :| EncodedBy(v, word, c0, ts, bs, w, slack);
    LeanMore(v, c0, ts, slack, slack');
    assert EncodedBy(v, word, c0, ts, bs, w, slack');
  }
}
