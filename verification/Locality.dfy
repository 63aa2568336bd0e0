/** What a step depends on: the input from its first byte on, and of the ordinary build's output buffer
    only the size. */
module Locality {
  import opened Bytes
  import opened Format
  import opened Decoder
  import opened Decompress

  /** The same input from `ip` on, for the same variant. */
  ghost predicate SameInput(e: Env, e': Env, ip: nat) {
    && e'.v == e.v && e'.word == e.word && e'.end == e.end && Valid(e) && Valid(e')
    && forall i | ip <= i < e.end :: e'.input[i] == e.input[i]
  }

  lemma {:induction false} SameExtAt(e: Env, e': Env, ip: nat, t: nat)
    requires SameInput(e, e', ip) && ip < e.end
    ensures ReadExt(e', ip, t) == ReadExt(e, ip, t)
    decreases e.end - ip
  {
    if e.input[ip] == 0 && t + 255 <= e.word - 511 && ip + 1 < e.end {
      SameExtAt(e, e', ip + 1, t + 255);
    }
  }

  lemma SameExt(e: Env, e': Env, low: nat)
    requires SameInput(e, e', low)
    ensures forall ip: nat, m: nat, max: nat | low <= ip < e.end :: ReadLen(e', ip, m, max) == ReadLen(e, ip, m, max)
  {
    forall ip: nat, m: nat, max: nat | low <= ip < e.end ensures ReadLen(e', ip, m, max) == ReadLen(e, ip, m, max) {
      SameExtAt(e, e', ip, 0);
    }
  }

  lemma SameLong(e: Env, e': Env, ip: nat, m: nat, max: nat)
    requires SameInput(e, e', ip) && ip + 3 <= e.end
    ensures ReadLongLen(e', ip, m, max) == ReadLongLen(e, ip, m, max)
  {
    hide ReadLen;
    SameExt(e, e', ip);
  }

  /** What a match's bytes mean does not depend on the output. */
  lemma SameHead(e: Env, e': Env, c: Cfg, c': Cfg)
    requires SameInput(e, e', c.ip) && c.ip + 3 <= e.end
    requires c'.ip == c.ip && c'.ctx.st == c.ctx.st && c'.ctx.last == c.ctx.last
    ensures ReadHead(e', c') == ReadHead(e, c)
  {
    hide ReadLongLen, ReadOff;
    var t := e.input[c.ip];
    SameLong(e, e', c.ip, t % 32, 31);
    SameLong(e, e', c.ip, t % 8, 7);
  }

  // ----- the ordinary build -----

  ghost predicate SameCall(e: Env, e': Env, ip: nat) {
    SameInput(e, e', ip) && !e.dict && !e'.dict && |e'.room| == |e.room|
  }

  lemma SameLits(e: Env, e': Env, ip: nat, n: nat, c: Ctx)
    requires SameCall(e, e', ip) && ip <= e.end
    ensures TakeLits(e', ip, n, c) == TakeLits(e, ip, n, c)
  {
    if n <= e.end - ip {
      assert e'.input[ip..ip + n] == e.input[ip..ip + n];
    }
  }

  lemma SameTrail(e: Env, e': Env, ip: nat, off: nat, out: seq<byte>)
    requires TrailBack(e.v) <= ip <= e.end && SameCall(e, e', ip - TrailBack(e.v))
    ensures Trail(e', ip, off, out) == Trail(e, ip, off, out)
  {
    hide TakeLits;
    SameLits(e, e', ip, e.input[ip - TrailBack(e.v)] % 4, Ctx(AfterTrail, off, out));
  }

  lemma SameMatch(e: Env, e': Env, c: Cfg)
    requires SameCall(e, e', c.ip) && c.ip + 3 <= e.end
    ensures StepMatch(e', c) == StepMatch(e, c)
  {
    hide ReadHead, Trail;
    SameHead(e, e', c, c);
    var h := ReadHead(e, c);
    if h.Copy? && CopyTest(e, h.len, h.off, |c.ctx.out|).OK? {
      SameTrail(e, e', h.ip, h.off, Copied(e, c.ctx.out, h.off, h.len));
    }
  }

  lemma SameStep(e: Env, e': Env, c: Cfg)
    requires SameCall(e, e', c.ip) && c.ip <= e.end
    ensures Step(e', c) == Step(e, c)
  {
    hide StepMatch, ReadLen, TakeLits;
    SameExt(e, e', c.ip);
    if c.ip < e.end {
      if c.ctx.st.Start? && e.input[c.ip] > 17 {
        var n := e.input[c.ip] - 17;
        SameLits(e, e', c.ip + 1, n, c.ctx.(st := if n < 4 then AfterTrail else AfterRun));
      } else if c.ip + 3 <= e.end {
        SameMatch(e, e', c);
        SameRun(e, e', c);
      }
    }
  }

  lemma SameRun(e: Env, e': Env, c: Cfg)
    requires SameCall(e, e', c.ip) && c.ip + 3 <= e.end
    ensures StepRun(e', c) == StepRun(e, c)
  {
    hide ReadLen, TakeLits;
    SameExt(e, e', c.ip);
    var r := ReadLen(e, c.ip + 1, e.input[c.ip], 15);
    if r.LenOK? {
      SameLits(e, e', r.ip, r.n + 3, c.ctx.(st := AfterRun));
    }
  }

  /** Neither what lies below the input nor what the output buffer holds makes a difference, to the
      result or to whether it can be decoded in place. */
  lemma {:induction false} SameDecode(low: int, e: Env, e': Env, c: Cfg)
    requires SameCall(e, e', c.ip) && c.ip <= e.end
    ensures Decode(e', c) == Decode(e, c) && (ClearRun(low, e', c) <==> ClearRun(low, e, c))
    decreases e.end - c.ip
  {
    hide Step, Clear;
    SameStep(e, e', c);
    if Step(e, c).Go? {
      SameDecode(low, e, e', Step(e, c).cfg);
    }
  }
}
