/** What the decoder makes of a finished encoder's stream: the round trip, the size of the stream,
    and why it can be decoded in place. */
module Theorems {
  import opened Bytes
  import opened Format
  import opened Decoder
  import opened Grammar
  import opened Language
  import opened Expansion
  import opened Emission
  import opened Decompress

  lemma EofMark(v: Variant)
    ensures EOF_MARK == EofBytes(v, 1, 0)
  {
  }

  /** Every encoder's stream is accepted, for every output capacity that holds the result. */
  lemma RoundTrip(e: Env, c0: Cfg, bs: seq<byte>, w: seq<byte>, slack: nat)
    requires Encodes(e.v, e.word, c0.ctx, bs, w, slack) && Spans(e, c0.ip, e.end, bs) && |w| <= |e.room|
    ensures Decode(e, c0) == Result(OK, w)
  {
    var ts :| EncodedBy(e.v, e.word, c0.ctx, ts, bs, w, slack);
    EofMark(e.v);
    StreamAccepted(e, c0, ts, 1, 0);
  }

  /** Sixteen output bytes cost at most seventeen. */
  lemma SizeBound(v: Variant, word: nat, c0: Ctx, bs: seq<byte>, w: seq<byte>, slack: nat)
    requires Encodes(v, word, c0, bs, w, slack)
    ensures |c0.out| <= |w|
    ensures var n := |w| - |c0.out|; |bs| <= n + (n + slack + HEAD_COST) / 16 + 3
  {
    hide LegalAll, EncAll;
    var ts :| EncodedBy(v, word, c0, ts, bs, w, slack);
    CostAll(v, c0, ts);
    OutGrows(c0, ts, 0);
    EmittedSize(v, word, c0, ts, w, slack);
  }

  lemma CostAll(v: Variant, c0: Ctx, ts: seq<Token>)
    requires ShapedAll(v, ts)
    ensures Cost(v, c0, ts) == 16 * |EncAll(v, ts)| - 17 * (|ApplyAll(c0, ts).out| - |c0.out|)
    ensures ts[..0] == [] && Cost(v, c0, ts[..0]) == 0 && ApplyAll(c0, ts[..0]) == c0
  {
  }

  // ----- decoding in place -----

  /** The configuration after the first `i` tokens. */
  ghost function After(e: Env, c0: Cfg, ts: seq<Token>, i: nat): Cfg
    requires i <= |ts| && ShapedAll(e.v, ts)
  {
    Cfg(c0.ip + |EncAll(e.v, ts[..i])|, ApplyAll(c0.ctx, ts[..i]))
  }

  /** Between any two tokens the decoder's output is at least two bytes below its input. */
  lemma GapAfter(low: int, e: Env, c0: Cfg, ts: seq<Token>, i: nat, overhead: nat, slack: nat)
    requires Emitted(e.v, e.word, c0.ctx, ts, ApplyAll(c0.ctx, ts).out, slack) && i <= |ts|
    requires c0.ip + |EncAll(e.v, ts)| + 3 == e.end == low + |ApplyAll(c0.ctx, ts).out| + overhead
    requires (|ApplyAll(c0.ctx, ts).out| - |c0.ctx.out| + slack + HEAD_COST) / 16 + 5 <= overhead
    ensures low + |After(e, c0, ts, i).ctx.out| + 2 <= After(e, c0, ts, i).ip
  {
    OutGrows(c0.ctx, ts, i);
    OutGrows(c0.ctx, ts[..i], 0);
    assert ts[..i][..0] == [];
    SuffixCost(e.v, c0.ctx, ts, slack, i);
  }

  lemma {:induction false} ClearFrom(low: int, e: Env, c0: Cfg, ts: seq<Token>, i: nat, overhead: nat, slack: nat)
    requires Valid(e) && Emitted(e.v, e.word, c0.ctx, ts, ApplyAll(c0.ctx, ts).out, slack)
    requires i <= |ts| && AtStart(c0.ctx)
    requires Spans(e, c0.ip, e.end, EncAll(e.v, ts) + EOF_MARK) && |ApplyAll(c0.ctx, ts).out| <= |e.room|
    requires e.end == low + |ApplyAll(c0.ctx, ts).out| + overhead
    requires (|ApplyAll(c0.ctx, ts).out| - |c0.ctx.out| + slack + HEAD_COST) / 16 + 5 <= overhead
    ensures After(e, c0, ts, i).ip <= e.end && ClearRun(low, e, After(e, c0, ts, i))
    decreases |ts| - i
  {
    hide Legal, Enc, Apply, Step, Lean, Cost;
    AtSplit(e, c0.ip, EncAll(e.v, ts), EOF_MARK);
    if i == |ts| {
      assert ts[..i] == ts;
      EofMark(e.v);
      EofStep(e, After(e, c0, ts, i), 1, 0);
    } else {
      NextAt(e, c0, ts, i);
      GapAfter(low, e, c0, ts, i + 1, overhead, slack);
      ClearFrom(low, e, c0, ts, i + 1, overhead, slack);
    }
  }

  lemma LegalPrefix(v: Variant, word: nat, c: Ctx, ts: seq<Token>, i: nat)
    requires LegalAll(v, word, c, ts) && ShapedAll(v, ts) && i < |ts|
    ensures LegalAll(v, word, c, ts[..i]) && ShapedAll(v, ts[..i]) && ShapedAll(v, ts[..i + 1])
    ensures Legal(v, word, ApplyAll(c, ts[..i]), ts[i])
    ensures ts[..i + 1] == ts[..i] + [ts[i]]
  {
    hide Legal, ApplyAll;
    forall j | 0 <= j < i ensures Legal(v, word, ApplyAll(c, ts[..i][..j]), ts[..i][j]) {
      assert ts[..i][..j] == ts[..j];
    }
  }

  /** The step from the configuration after `i` tokens goes to the one after `i + 1`. */
  lemma NextAt(e: Env, c0: Cfg, ts: seq<Token>, i: nat)
    requires LegalAll(e.v, e.word, c0.ctx, ts) && ShapedAll(e.v, ts) && i < |ts|
    requires At(e, c0.ip, EncAll(e.v, ts)) && c0.ip + |EncAll(e.v, ts)| + 3 <= e.end
    requires |ApplyAll(c0.ctx, ts).out| <= |e.room|
    ensures After(e, c0, ts, i).ip <= e.end && After(e, c0, ts, i + 1).ip <= e.end
    ensures Step(e, After(e, c0, ts, i)) == Go(After(e, c0, ts, i + 1))
  {
    hide LegalAll, ShapedAll, Legal, Enc, Apply, Step, ApplyAll, EncAll;
    var us, t := ts[..i], ts[i];
    LegalPrefix(e.v, e.word, c0.ctx, ts, i);
    EncPrefix(e, c0, ts, i + 1);
    LegalSnoc(e.v, e.word, c0.ctx, us, t);
    AtSplit(e, c0.ip, EncAll(e.v, us), Enc(e.v, t));
    OutGrows(c0.ctx, ts, i + 1);
    StepAt(e, After(e, c0, ts, i), t);
  }

  lemma {:induction false} EncPrefix(e: Env, c0: Cfg, ts: seq<Token>, i: nat)
    requires ShapedAll(e.v, ts) && i <= |ts| && At(e, c0.ip, EncAll(e.v, ts))
    ensures At(e, c0.ip, EncAll(e.v, ts[..i])) && |EncAll(e.v, ts[..i])| <= |EncAll(e.v, ts)|
    decreases |ts|
  {
    if i < |ts| {
      var us := ts[..|ts| - 1];
      AtSplit(e, c0.ip, EncAll(e.v, us), Enc(e.v, ts[|ts| - 1]));
      EncPrefix(e, c0, us, i);
      assert us[..i] == ts[..i];
    } else {
      assert ts[..i] == ts;
    }
  }

  /** A stream of a lean encoder at the top of a buffer of n + n/16 + 7 bytes or more decodes in place: no write
      reaches a byte that is still to be read. */
  lemma InPlaceClear(low: int, e: Env, c0: Cfg, bs: seq<byte>, w: seq<byte>, overhead: nat, slack: nat)
    requires Valid(e) && AtStart(c0.ctx) && Encodes(e.v, e.word, c0.ctx, bs, w, slack) && Spans(e, c0.ip, e.end, bs)
    requires |c0.ctx.out| <= |w| <= |e.room| && e.end == low + |w| + overhead
    requires (|w| - |c0.ctx.out| + slack + HEAD_COST) / 16 + 5 <= overhead
    ensures c0.ip <= e.end && ClearRun(low, e, c0)
  {
    var ts :| EncodedBy(e.v, e.word, c0.ctx, ts, bs, w, slack);
    ClearFrom(low, e, c0, ts, 0, overhead, slack);
    assert ts[..0] == [];
    assert After(e, c0, ts, 0) == c0;
  }
}
