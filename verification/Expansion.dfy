/** How much a token list can expand: sixteen times the encoded size against seventeen times the
    output, over every suffix of the list. */
module Expansion {
  import opened Bytes
  import opened Format
  import opened Decoder
  import opened Language

  /** A run without its match may cost this much; the match that follows pays it back. */
  const RUN_SLACK: int := 13
  const MATCH_GAIN: int := 16

  function TokenCost(v: Variant, c: Ctx, t: Token): int
    requires Shaped(v, t)
  {
    16 * |Enc(v, t)| - 17 * (|Apply(c, t).out| - |c.out|)
  }

  ghost function Cost(v: Variant, c0: Ctx, ts: seq<Token>): int
    requires ShapedAll(v, ts)
  {
    16 * |EncAll(v, ts)| - 17 * (|ApplyAll(c0, ts).out| - |c0.out|)
  }

  /** The header of an initial run comes on top. */
  const HEAD_COST: int := 15

  function HeadCost(ts: seq<Token>): int {
    if ts != [] && ts[0].First? then HEAD_COST else 0
  }

  /** Every suffix costs at most `slack`, and the whole at most the initial header more. */
  ghost predicate Lean(v: Variant, c0: Ctx, ts: seq<Token>, slack: int) {
    && ShapedAll(v, ts)
    && Cost(v, c0, ts) <= slack + HeadCost(ts)
    && forall i {:trigger ts[..i]} | 1 <= i <= |ts| :: Cost(v, c0, ts) - Cost(v, c0, ts[..i]) <= slack
  }

  lemma SuffixCost(v: Variant, c0: Ctx, ts: seq<Token>, slack: int, i: nat)
    requires Lean(v, c0, ts, slack) && i <= |ts|
    ensures Cost(v, c0, ts) - Cost(v, c0, ts[..i]) <= slack + HEAD_COST
  {
    hide EncAll;
    if i == 0 {
      assert ts[..0] == [];
    }
  }

  lemma CostSnoc(v: Variant, word: nat, c0: Ctx, ts: seq<Token>, t: Token)
    requires ShapedAll(v, ts) && Shaped(v, t)
    ensures ShapedAll(v, ts + [t])
    ensures Cost(v, c0, ts + [t]) == Cost(v, c0, ts) + TokenCost(v, ApplyAll(c0, ts), t)
  {
    LegalSnoc(v, word, c0, ts, t);
  }

  /** A token is paid for by the slack; only an initial run has its own. */
  lemma LeanSnoc(v: Variant, c0: Ctx, ts: seq<Token>, t: Token, slack: int, slack': int)
    requires Lean(v, c0, ts, slack) && Shaped(v, t) && 0 <= slack'
    requires var cost := TokenCost(v, ApplyAll(c0, ts), t);
             if t.First? then ts == [] && cost <= slack' + HEAD_COST else slack + cost <= slack' && cost <= slack'
    ensures Lean(v, c0, ts + [t], slack')
  {
    hide TokenCost, Cost;
    var us := ts + [t];
    CostSnoc(v, 0, c0, ts, t);
    CostNil(v, c0);
    forall i | 1 <= i <= |us| ensures Cost(v, c0, us) - Cost(v, c0, us[..i]) <= slack' {
      if i <= |ts| {
        assert us[..i] == ts[..i];
        assert ts[..|ts|] == ts;
      } else {
        assert us[..i] == us;
      }
    }
  }

  lemma LeanMore(v: Variant, c0: Ctx, ts: seq<Token>, slack: int, slack': int)
    requires Lean(v, c0, ts, slack) && slack <= slack'
    ensures Lean(v, c0, ts, slack')
  {
    hide Cost;
  }

  lemma CostNil(v: Variant, c0: Ctx)
    ensures ShapedAll(v, []) && Cost(v, c0, []) == 0
  {
  }

  // ----- patching the literal count into a match -----

  /** `b` is `a` with the count `low` in the low bits of the byte the decoder re-reads. */
  ghost predicate Patched(v: Variant, a: seq<byte>, b: seq<byte>, low: nat)
    requires low < 4
  {
    var at := |a| - TrailBack(v);
    0 <= at && a[at] % 4 == 0 && b == a[at := OrLow(a[at], low)]
  }

  lemma OrLowAdds(b: byte, low: nat)
    requires low < 4 && b % 4 == 0
    ensures OrLow(b, low) == b + low
  {
  }

  lemma PatchM1(v: Variant, o: nat, low: nat)
    requires o < 0x400 && low < 4
    ensures Patched(v, M1Bytes(v, o, 0), M1Bytes(v, o, low), low)
  {
    OrLowAdds(if v.LZO1Z? then o % 64 * 4 else o % 4 * 4, low);
  }

  lemma PatchM2(v: Variant, len: nat, o: nat, low: nat)
    requires 3 <= len <= M2MaxLen(v) && o < M2MaxOffset(v) && low < 4
    ensures Patched(v, M2Bytes(v, len, o, 0), M2Bytes(v, len, o, low), low)
  {
    match v
    case LZO1X =>
      var b := (len - 1) * 32 + o % 8 * 4;
      assert b == 4 * ((len - 1) * 8 + o % 8);
      OrLowAdds(b, low);
    case LZO1Y =>
      var b := (len + 1) * 16 + o % 4 * 4;
      assert b == 4 * ((len + 1) * 4 + o % 4);
      OrLowAdds(b, low);
    case LZO1Z =>
      OrLowAdds(o % 64 * 4, low);
  }

  lemma PatchM2Rep(len: nat, low: nat)
    requires 3 <= len <= 8 && low < 4
    ensures Patched(LZO1Z, [(len - 1) * 32 + 28], [(len - 1) * 32 + 28 + low], low)
  {
    var b := (len - 1) * 32 + 28;
    assert b == 4 * ((len - 1) * 8 + 7);
    OrLowAdds(b, low);
  }

  lemma PatchOff(v: Variant, a: seq<byte>, o: nat, low: nat)
    requires o < 0x4000 && low < 4
    ensures Patched(v, a + OffBytes(v, o, 0), a + OffBytes(v, o, low), low)
  {
    OrLowAdds(o % 64 * 4, low);
  }

  /** `op[-2] |= t` (LZO1Z: `op[-1] |= t`) turns the bytes of a match without literals into those
      of the same match with `t` of them. */
  lemma PatchBytes(v: Variant, m: Token, lits: seq<byte>)
    requires m.Match? && Shaped(v, m) && m.trail == [] && |lits| < 4
    ensures Shaped(v, m.(trail := lits))
    ensures var bs := MatchBytes(v, m.kind, m.len, m.off, |lits|);
            && Patched(v, Enc(v, m), bs, |lits|) && |bs| == |Enc(v, m)|
            && Enc(v, m.(trail := lits)) == bs + lits
  {
    hide M1Bytes, M2Bytes, OffBytes, LenBytes;
    assert Enc(v, m) == MatchBytes(v, m.kind, m.len, m.off, 0);
    match m.kind
    case M1a => PatchM1(v, m.off - 1, |lits|);
    case M1b => PatchM1(v, m.off - 1 - M2MaxOffset(v), |lits|);
    case M2 => PatchM2(v, m.len, m.off - 1, |lits|);
    case M2Rep => PatchM2Rep(m.len, |lits|);
    case M3 => PatchOff(v, LenBytes(M3_MARKER, m.len - 2, 31), m.off - 1, |lits|);
    case M4 =>
      var k := m.off - 0x4000;
      PatchOff(v, LenBytes(M4_MARKER + k / 0x4000 * 8, m.len - 2, 7), k % 0x4000, |lits|);
  }

  lemma PatchCost(v: Variant, c: Ctx, m: Token, lits: seq<byte>)
    requires m.Match? && Shaped(v, m) && m.trail == [] && |lits| < 4 && m.off <= |c.out|
    ensures Shaped(v, m.(trail := lits))
    ensures TokenCost(v, c, m.(trail := lits)) == TokenCost(v, c, m) - |lits|
  {
    hide MatchBytes;
    PatchBytes(v, m, lits);
  }

  /** Folding up to three literals into the last match makes no suffix cost more. */
  lemma LeanPatch(v: Variant, c0: Ctx, us: seq<Token>, m: Token, lits: seq<byte>, slack: int)
    requires Lean(v, c0, us + [m], slack) && m.Match? && m.trail == [] && |lits| < 4 && 0 <= slack
    requires us != [] && m.off <= |ApplyAll(c0, us).out|
    ensures Lean(v, c0, us + [m.(trail := lits)], slack)
  {
    hide TokenCost, Cost;
    var ts, m' := us + [m], m.(trail := lits);
    var ts' := us + [m'];
    assert ts[|us|] == m;
    assert forall i | 0 <= i < |us| :: ts[i] == us[i];
    PatchCost(v, ApplyAll(c0, us), m, lits);
    CostSnoc(v, 0, c0, us, m);
    CostSnoc(v, 0, c0, us, m');
    forall i | 1 <= i <= |ts'| ensures Cost(v, c0, ts') - Cost(v, c0, ts'[..i]) <= slack {
      if i <= |us| {
        assert ts'[..i] == us[..i] && ts[..i] == us[..i];
      } else {
        assert ts'[..i] == ts';
      }
    }
  }
}
