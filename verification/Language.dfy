/** The safe decoder as an acceptor: it returns LZO_E_OK exactly on the encodings of legal token
    lists that fit the output, and then its output is what the tokens mean. */
module Language {
  import opened Bytes
  import opened Format
  import opened Decoder
  import opened Grammar
  import opened Repeat

  /** The tokens so far have led from `c0` to `c`, through exactly the bytes between them. */
  ghost predicate Reached(e: Env, c0: Cfg, ts: seq<Token>, c: Cfg) {
    && LegalAll(e.v, e.word, c0.ctx, ts)
    && ShapedAll(e.v, ts)
    && Spans(e, c0.ip, c.ip, EncAll(e.v, ts))
    && c.ctx == ApplyAll(c0.ctx, ts)
  }

  lemma LegalSnoc(v: Variant, word: nat, c: Ctx, ts: seq<Token>, t: Token)
    ensures LegalAll(v, word, c, ts + [t]) <==> LegalAll(v, word, c, ts) && Legal(v, word, ApplyAll(c, ts), t)
    ensures ShapedAll(v, ts + [t]) <==> ShapedAll(v, ts) && Shaped(v, t)
    ensures ApplyAll(c, ts + [t]) == Apply(ApplyAll(c, ts), t)
    ensures ShapedAll(v, ts + [t]) ==> EncAll(v, ts + [t]) == EncAll(v, ts) + Enc(v, t)
  {
    var us := ts + [t];
    assert us[..|ts|] == ts;
    assert forall i | 0 <= i <= |ts| :: us[..i] == ts[..i];
    if LegalAll(v, word, c, us) {
      assert Legal(v, word, ApplyAll(c, us[..|ts|]), us[|ts|]);
      forall i | 0 <= i < |ts| ensures Legal(v, word, ApplyAll(c, ts[..i]), ts[i]) {
        assert us[i] == ts[i];
      }
    }
    if ShapedAll(v, us) {
      assert Shaped(v, us[|ts|]);
      assert forall i | 0 <= i < |ts| :: us[i] == ts[i];
    }
  }

  lemma ReachedSnoc(e: Env, c0: Cfg, ts: seq<Token>, c: Cfg, t: Token)
    requires Reached(e, c0, ts, c) && Legal(e.v, e.word, c.ctx, t) && At(e, c.ip, Enc(e.v, t))
    ensures Reached(e, c0, ts + [t], Cfg(c.ip + |Enc(e.v, t)|, Apply(c.ctx, t)))
  {
    hide Legal, Enc, Apply;
    LegalSnoc(e.v, e.word, c0.ctx, ts, t);
    AtSplit(e, c0.ip, EncAll(e.v, ts), Enc(e.v, t));
  }

  // ----- every legal stream is accepted -----

  /** A legal token with at least three more bytes behind it and room for its output is one step. */
  lemma StepAt(e: Env, c: Cfg, t: Token)
    requires Legal(e.v, e.word, c.ctx, t) && At(e, c.ip, Enc(e.v, t))
    requires c.ip + |Enc(e.v, t)| + 3 <= e.end && |Apply(c.ctx, t).out| <= |e.room|
    ensures Step(e, c) == Go(Cfg(c.ip + |Enc(e.v, t)|, Apply(c.ctx, t)))
  {
    match t
    case First(lits) => FirstStepAt(e, c, t);
    case Run(lits) => RunStepAt(e, c, t);
    case Match(kind, len, off, trail) => MatchStepAt(e, c, t);
  }

  lemma FirstStepAt(e: Env, c: Cfg, t: Token)
    requires t.First? && Legal(e.v, e.word, c.ctx, t) && At(e, c.ip, Enc(e.v, t))
    requires c.ip + |Enc(e.v, t)| + 3 <= e.end && |Apply(c.ctx, t).out| <= |e.room|
    ensures Step(e, c) == Go(Cfg(c.ip + |Enc(e.v, t)|, Apply(c.ctx, t)))
  {
    hide StepRun, StepMatch;
    AtSplit(e, c.ip, [17 + |t.lits|], t.lits);
    assert e.input[c.ip..c.ip + 1] == [e.input[c.ip]];
  }

  lemma RunStepAt(e: Env, c: Cfg, t: Token)
    requires t.Run? && Legal(e.v, e.word, c.ctx, t) && At(e, c.ip, Enc(e.v, t))
    requires c.ip + |Enc(e.v, t)| + 3 <= e.end && |Apply(c.ctx, t).out| <= |e.room|
    ensures Step(e, c) == Go(Cfg(c.ip + |Enc(e.v, t)|, Apply(c.ctx, t)))
  {
    hide StepMatch, Fits, LenBytes, ReadLen;
    var n := |t.lits| - 3;
    var lb := LenBytes(0, n, 15);
    assert Enc(e.v, t) == lb + t.lits;
    AtSplit(e, c.ip, lb, t.lits);
    ReadLenAt(e, c.ip, 0, n, 15);
    var ip := c.ip + |lb|;
    assert e.input[ip..ip + |t.lits|] == t.lits;
  }

  lemma MatchStepAt(e: Env, c: Cfg, t: Token)
    requires t.Match? && Legal(e.v, e.word, c.ctx, t) && At(e, c.ip, Enc(e.v, t))
    requires c.ip + |Enc(e.v, t)| + 3 <= e.end && |Apply(c.ctx, t).out| <= |e.room|
    ensures Step(e, c) == Go(Cfg(c.ip + |Enc(e.v, t)|, Apply(c.ctx, t)))
  {
    hide StepMatch, Enc, Apply;
    MatchGoesAt(e, c, t);
    MatchFirstByte(e, c, t);
  }

  lemma MatchGoesAt(e: Env, c: Cfg, t: Token)
    requires t.Match? && Legal(e.v, e.word, c.ctx, t) && At(e, c.ip, Enc(e.v, t))
    requires c.ip + |Enc(e.v, t)| + 3 <= e.end && |Apply(c.ctx, t).out| <= |e.room|
    ensures StepMatch(e, c) == Go(Cfg(c.ip + |Enc(e.v, t)|, Apply(c.ctx, t)))
  {
    hide ReadHead, Enc, Legal, CopyMatch, Trail, Shaped, LiesAt;
    var ip := HeadOf(e, c, t);
    TrailAt(e, ip, t.off, CopyMatch(c.ctx.out, t.off, t.len), t.trail);
  }

  /** What is read of a match, and its literals behind it. */
  lemma HeadOf(e: Env, c: Cfg, t: Token) returns (ip: nat)
    requires t.Match? && Legal(e.v, e.word, c.ctx, t) && At(e, c.ip, Enc(e.v, t))
    requires c.ip + |Enc(e.v, t)| + 3 <= e.end
    ensures ReadHead(e, c) == Copy(t.kind, t.len, t.off, ip) && ip + |t.trail| == c.ip + |Enc(e.v, t)|
    ensures TrailBack(e.v) <= ip && e.input[ip - TrailBack(e.v)] % 4 == |t.trail|
    ensures e.input[ip..ip + |t.trail|] == t.trail && |t.trail| < 4 && 1 <= t.off <= |c.ctx.out|
  {
    hide ReadHead, MatchBytes, Fits;
    var bs := MatchBytes(e.v, t.kind, t.len, t.off, |t.trail|);
    AtSplit(e, c.ip, bs, t.trail);
    HeadAt(e, c, t);
    ip := c.ip + |bs|;
  }

  lemma TrailAt(e: Env, ip: nat, off: nat, out: seq<byte>, trail: seq<byte>)
    requires Valid(e) && TrailBack(e.v) <= ip && ip + |trail| + 3 <= e.end && |trail| < 4
    requires e.input[ip - TrailBack(e.v)] % 4 == |trail| && e.input[ip..ip + |trail|] == trail
    requires |out| + |trail| <= |e.room|
    ensures Trail(e, ip, off, out) ==
            Go(Cfg(ip + |trail|, Ctx(if trail == [] then Fresh else AfterTrail, off, out + trail)))
  {
    assert out + [] == out;
  }

  lemma MatchFirstByte(e: Env, c: Cfg, t: Token)
    requires t.Match? && Legal(e.v, e.word, c.ctx, t) && At(e, c.ip, Enc(e.v, t)) && c.ip < e.end
    ensures c.ctx.st.Start? ==> 16 <= e.input[c.ip] <= 17
    ensures c.ctx.st.Fresh? ==> 16 <= e.input[c.ip]
  {
    hide MatchBytes, Fits;
    MatchMarker(e.v, t);
    assert e.input[c.ip] == e.input[c.ip..c.ip + |Enc(e.v, t)|][0];
  }

  /** Only the two-byte forms of short matches have markers below 16. */
  lemma MatchMarker(v: Variant, t: Token)
    requires t.Match? && Shaped(v, t)
    ensures |Enc(v, t)| > 0 && (t.kind.M1a? || t.kind.M1b? || 16 <= Enc(v, t)[0])
  {
  }

  lemma OutGrows(c: Ctx, ts: seq<Token>, k: nat)
    requires k <= |ts|
    ensures |ApplyAll(c, ts[..k]).out| <= |ApplyAll(c, ts).out|
    decreases |ts|
  {
    if k < |ts| {
      assert ts[..|ts| - 1][..k] == ts[..k];
      OutGrows(c, ts[..|ts| - 1], k);
    } else {
      assert ts[..k] == ts;
    }
  }

  /** The decoder takes every prefix of a legal token list, one step per token. */
  lemma {:induction false} RunAt(e: Env, c0: Cfg, ts: seq<Token>)
    requires LegalAll(e.v, e.word, c0.ctx, ts) && ShapedAll(e.v, ts) && At(e, c0.ip, EncAll(e.v, ts))
    requires c0.ip + |EncAll(e.v, ts)| + 3 <= e.end && |ApplyAll(c0.ctx, ts).out| <= |e.room|
    ensures Decode(e, c0) == Decode(e, Cfg(c0.ip + |EncAll(e.v, ts)|, ApplyAll(c0.ctx, ts)))
    decreases |ts|
  {
    hide Legal, Enc, Apply, Step;
    if |ts| > 0 {
      var us, t := ts[..|ts| - 1], ts[|ts| - 1];
      assert us + [t] == ts;
      LegalSnoc(e.v, e.word, c0.ctx, us, t);
      AtSplit(e, c0.ip, EncAll(e.v, us), Enc(e.v, t));
      OutGrows(c0.ctx, ts, |us|);
      RunAt(e, c0, us);
      StepAt(e, Cfg(c0.ip + |EncAll(e.v, us)|, ApplyAll(c0.ctx, us)), t);
    }
  }

  /** A stream: legal tokens, then any form of the end marker on the last bytes of the input. */
  ghost predicate IsStream(e: Env, c0: Cfg, ts: seq<Token>, n: nat, low: nat) {
    && Valid(e) && n >= 1 && low < 4 && Fits(e.word, n, 7)
    && LegalAll(e.v, e.word, c0.ctx, ts) && ShapedAll(e.v, ts)
    && Spans(e, c0.ip, e.end, EncAll(e.v, ts) + EofBytes(e.v, n, low))
    && |ApplyAll(c0.ctx, ts).out| <= |e.room|
    && (ApplyAll(c0.ctx, ts).st.Start? ==> EofBytes(e.v, n, low)[0] <= 17)
  }

  lemma EofStep(e: Env, c: Cfg, n: nat, low: nat)
    requires n >= 1 && low < 4 && Fits(e.word, n, 7) && At(e, c.ip, EofBytes(e.v, n, low))
    requires c.ip + |EofBytes(e.v, n, low)| == e.end && (c.ctx.st.Start? ==> EofBytes(e.v, n, low)[0] <= 17)
    ensures Step(e, c) == Halt(OK, c.ctx.out)
  {
    hide ReadHead, StepRun, EofBytes;
    EofAt(e, c, n, low);
  }

  lemma StreamAccepted(e: Env, c0: Cfg, ts: seq<Token>, n: nat, low: nat)
    requires IsStream(e, c0, ts, n, low)
    ensures c0.ip <= e.end && Decode(e, c0) == Result(OK, ApplyAll(c0.ctx, ts).out)
  {
    hide LegalAll, ShapedAll, ApplyAll, EncAll, EofBytes, Step, Fits;
    AtSplit(e, c0.ip, EncAll(e.v, ts), EofBytes(e.v, n, low));
    var c := Cfg(c0.ip + |EncAll(e.v, ts)|, ApplyAll(c0.ctx, ts));
    EofStep(e, c, n, low);
    assert 3 <= |EofBytes(e.v, n, low)| by {
      EofAt(e, c, n, low);
    }
    RunAt(e, c0, ts);
  }

  // ----- only legal streams are accepted -----

  /** Every step that does not halt is a legal token, its bytes and its effect, unless it copies the
      output buffer onto itself. */
  lemma StepInverse(e: Env, c: Cfg) returns (t: Token)
    requires Valid(e) && c.ip <= e.end && Step(e, c).Go? && |c.ctx.out| <= |e.room| && !ZeroCopy(e, c)
    ensures Legal(e.v, e.word, c.ctx, t)
    ensures Spans(e, c.ip, Step(e, c).cfg.ip, Enc(e.v, t))
    ensures Step(e, c).cfg.ctx == Apply(c.ctx, t)
    ensures |Apply(c.ctx, t).out| <= |e.room|
  {
    var c' := Step(e, c).cfg;
    ZeroCopyExact(e, c);
    if c.ctx.st.Start? && e.input[c.ip] > 17 {
      t := First(e.input[c.ip + 1..c'.ip]);
      assert e.input[c.ip..c.ip + 1] == [e.input[c.ip]];
      AtSplit(e, c.ip, [17 + |t.lits|], t.lits);
    } else if e.input[c.ip] < 16 && (c.ctx.st.Start? || c.ctx.st.Fresh?) {
      t := RunInverse(e, c);
    } else {
      t := MatchInverse(e, c);
    }
  }

  lemma RunInverse(e: Env, c: Cfg) returns (t: Token)
    requires Valid(e) && c.ip + 3 <= e.end && StepRun(e, c).Go? && |c.ctx.out| <= |e.room|
    requires e.input[c.ip] < 16 && (c.ctx.st.Start? || c.ctx.st.Fresh?)
    ensures Legal(e.v, e.word, c.ctx, t)
    ensures Spans(e, c.ip, StepRun(e, c).cfg.ip, Enc(e.v, t))
    ensures StepRun(e, c).cfg.ctx == Apply(c.ctx, t)
    ensures |Apply(c.ctx, t).out| <= |e.room|
  {
    hide LenBytes, Fits, ReadLen;
    var r := ReadLen(e, c.ip + 1, e.input[c.ip], 15);
    ReadLenInverse(e, c.ip, 0, e.input[c.ip], 15);
    t := Run(e.input[r.ip..r.ip + r.n + 3]);
    assert Enc(e.v, t) == LenBytes(0, r.n, 15) + t.lits;
    AtSplit(e, c.ip, LenBytes(0, r.n, 15), t.lits);
  }

  lemma MatchInverse(e: Env, c: Cfg) returns (t: Token)
    requires Valid(e) && c.ip + 3 <= e.end && StepMatch(e, c).Go? && |c.ctx.out| <= |e.room|
    requires e.input[c.ip] < 16 ==> c.ctx.st.AfterRun? || c.ctx.st.AfterTrail?
    requires (c.ctx.st.Start? ==> e.input[c.ip] <= 17) && 1 <= ReadHead(e, c).off
    ensures Legal(e.v, e.word, c.ctx, t)
    ensures Spans(e, c.ip, StepMatch(e, c).cfg.ip, Enc(e.v, t))
    ensures StepMatch(e, c).cfg.ctx == Apply(c.ctx, t)
    ensures |Apply(c.ctx, t).out| <= |e.room|
  {
    hide ReadHead, MatchBytes, Fits, StepMatch, Apply;
    var h, low;
    h, low, t := MatchGoes(e, c);
    HeadInverse(e, c);
    var bs := MatchBytes(e.v, h.kind, h.len, h.off, low);
    assert Enc(e.v, t) == bs + t.trail;
    AtSplit(e, c.ip, bs, t.trail);
    assert e.input[c.ip] == e.input[c.ip..c.ip + |Enc(e.v, t)|][0];
  }

  /** What a match's step comes to. */
  lemma MatchGoes(e: Env, c: Cfg) returns (h: Head, low: nat, t: Token)
    requires Valid(e) && c.ip + 3 <= e.end && StepMatch(e, c).Go? && |c.ctx.out| <= |e.room| && 1 <= ReadHead(e, c).off
    ensures h == ReadHead(e, c) && h.Copy? && 1 <= h.off <= |c.ctx.out|
    ensures TrailBack(e.v) <= h.ip && h.ip + low <= e.end && low == e.input[h.ip - TrailBack(e.v)] % 4
    ensures t == Match(h.kind, h.len, h.off, e.input[h.ip..h.ip + low])
    ensures StepMatch(e, c).cfg == Cfg(h.ip + low, Apply(c.ctx, t)) && |Apply(c.ctx, t).out| <= |e.room|
  {
    hide ReadHead;
    h := ReadHead(e, c);
    low := e.input[h.ip - TrailBack(e.v)] % 4;
    t := Match(h.kind, h.len, h.off, e.input[h.ip..h.ip + low]);
  }

  lemma HaltOK(e: Env, c: Cfg)
    requires Valid(e) && c.ip <= e.end && Step(e, c).Halt? && Step(e, c).status.OK?
    ensures Step(e, c).out == c.ctx.out && IsEofMark(e, c.ip, e.end)
    ensures c.ip < e.end && (c.ctx.st.Start? ==> e.input[c.ip] <= 17)
  {
    hide ReadHead;
    var h := ReadHead(e, c);
    if h.Eof? {
      EofInverse(e, c);
    }
  }

  lemma {:induction false} AcceptedFrom(e: Env, c0: Cfg, us: seq<Token>, c: Cfg)
    returns (ts: seq<Token>, n: nat, low: nat)
    requires Reached(e, c0, us, c) && |c.ctx.out| <= |e.room|
    requires c.ip <= e.end && Decode(e, c).status.OK? && !Skips(e, c)
    ensures IsStream(e, c0, ts, n, low) && Decode(e, c).out == ApplyAll(c0.ctx, ts).out
    decreases e.end - c.ip
  {
    hide Legal, Enc, Apply, Step;
    if Step(e, c).Go? {
      var t := StepInverse(e, c);
      ReachedSnoc(e, c0, us, c, t);
      ts, n, low := AcceptedFrom(e, c0, us + [t], Step(e, c).cfg);
    } else {
      HaltOK(e, c);
      n, low :| n >= 1 && low < 4 && Fits(e.word, n, 7) && Spans(e, c.ip, e.end, EofBytes(e.v, n, low));
      AtSplit(e, c0.ip, EncAll(e.v, us), EofBytes(e.v, n, low));
      assert e.input[c.ip] == e.input[c.ip..c.ip + |EofBytes(e.v, n, low)|][0];
      ts := us;
    }
  }

  // ----- no legal stream copies the output buffer onto itself -----

  lemma TokenNoSkip(e: Env, c: Cfg, t: Token)
    requires Legal(e.v, e.word, c.ctx, t) && At(e, c.ip, Enc(e.v, t)) && c.ip + |Enc(e.v, t)| + 3 <= e.end
    ensures !ZeroCopy(e, c)
  {
    hide ReadHead, M1Bytes, M2Bytes, M3Bytes, M4Bytes, Fits;
    if t.Match? {
      AtSplit(e, c.ip, MatchBytes(e.v, t.kind, t.len, t.off, |t.trail|), t.trail);
      HeadAt(e, c, t);
      ZeroOffset(e, c);
    } else {
      assert c.ctx.st.Start? || e.input[c.ip] == e.input[c.ip..c.ip + |Enc(e.v, t)|][0];
    }
  }

  lemma {:induction false} RunNoSkip(e: Env, c0: Cfg, ts: seq<Token>)
    requires LegalAll(e.v, e.word, c0.ctx, ts) && ShapedAll(e.v, ts) && At(e, c0.ip, EncAll(e.v, ts))
    requires c0.ip + |EncAll(e.v, ts)| + 3 <= e.end && |ApplyAll(c0.ctx, ts).out| <= |e.room|
    ensures Skips(e, c0) == Skips(e, Cfg(c0.ip + |EncAll(e.v, ts)|, ApplyAll(c0.ctx, ts)))
    decreases |ts|
  {
    hide Legal, Enc, Apply, Step;
    if |ts| > 0 {
      var us, t := ts[..|ts| - 1], ts[|ts| - 1];
      assert us + [t] == ts;
      LegalSnoc(e.v, e.word, c0.ctx, us, t);
      AtSplit(e, c0.ip, EncAll(e.v, us), Enc(e.v, t));
      OutGrows(c0.ctx, ts, |us|);
      RunNoSkip(e, c0, us);
      var c := Cfg(c0.ip + |EncAll(e.v, us)|, ApplyAll(c0.ctx, us));
      StepAt(e, c, t);
      TokenNoSkip(e, c, t);
    }
  }

  lemma StreamNoSkip(e: Env, c0: Cfg, ts: seq<Token>, n: nat, low: nat)
    requires IsStream(e, c0, ts, n, low) && c0.ip <= e.end
    ensures !Skips(e, c0)
  {
    hide LegalAll, ShapedAll, ApplyAll, EncAll, EofBytes, Step, Fits;
    AtSplit(e, c0.ip, EncAll(e.v, ts), EofBytes(e.v, n, low));
    var c := Cfg(c0.ip + |EncAll(e.v, ts)|, ApplyAll(c0.ctx, ts));
    EofStep(e, c, n, low);
    EofAt(e, c, n, low);
    RunNoSkip(e, c0, ts);
  }

  /** LZO_E_OK exactly on streams, and then the output is the tokens' meaning; but a run of the
      dictionary build that copies the output buffer onto itself is never one of a stream. */
  lemma AcceptsExactlyStreams(e: Env, c0: Cfg)
    requires Valid(e) && c0.ip <= e.end && |c0.ctx.out| <= |e.room|
    ensures Decode(e, c0).status.OK? && !Skips(e, c0) <==> exists ts, n, low :: IsStream(e, c0, ts, n, low)
    ensures forall ts, n, low :: IsStream(e, c0, ts, n, low) ==> Decode(e, c0).out == ApplyAll(c0.ctx, ts).out
    ensures !(e.dict && e.v.LZO1Z?) ==> !Skips(e, c0)
  {
    forall ts, n, low | IsStream(e, c0, ts, n, low)
      ensures Decode(e, c0) == Result(OK, ApplyAll(c0.ctx, ts).out) && !Skips(e, c0)
    {
      StreamAccepted(e, c0, ts, n, low);
      StreamNoSkip(e, c0, ts, n, low);
    }
    if Decode(e, c0).status.OK? && !Skips(e, c0) {
      var ts, n, low := AcceptedFrom(e, c0, [], c0);
    }
    if !(e.dict && e.v.LZO1Z?) {
      SkipsOnlyZ(e, c0);
    }
  }
}
