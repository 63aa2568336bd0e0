/** COPY_DICT's assertions, which only a debugging build makes: the inputs on which one of them fails, and
    that no encoder's stream is among them. */
module Assertions {
  import opened Bytes
  import opened Format
  import opened Decoder
  import opened Grammar
  import opened Language
  import opened Emission
  import opened Theorems
  import opened Repeat

  /** The next step runs COPY_DICT with `m_off == 0`, or where `size` bytes of the window end: `op == out`. */
  predicate Refuted(e: Env, c: Cfg, size: nat)
    requires Valid(e)
  {
    && AtMatch(e, c) && ReadHead(e, c).Copy? && |c.ctx.out| + ReadHead(e, c).len <= |e.room|
    && (ReadHead(e, c).off == 0 || |c.ctx.out| == size)
  }

  /** So does some step of the run from `c`. */
  predicate Aborts(e: Env, c: Cfg, size: nat)
    requires Valid(e) && c.ip <= e.end
    decreases e.end - c.ip
  {
    Refuted(e, c, size) || (Step(e, c).Go? && Aborts(e, Step(e, c).cfg, size))
  }

  lemma StepGrows(e: Env, c: Cfg)
    requires Valid(e) && c.ip <= e.end && Step(e, c).Go?
    ensures |c.ctx.out| < |Step(e, c).cfg.ctx.out|
  {
    hide ReadHead, ReadLen;
  }

  lemma {:induction false} AbortsLater(e: Env, c: Cfg, size: nat)
    requires Valid(e) && c.ip <= e.end && size < |c.ctx.out| && e.dict
    ensures Aborts(e, c, size) <==> Skips(e, c)
    decreases e.end - c.ip
  {
    hide Step, ReadHead;
    ZeroCopyExact(e, c);
    if Step(e, c).Go? {
      StepGrows(e, c);
      AbortsLater(e, Step(e, c).cfg, size);
    }
  }

  /** The input begins with a match, which can only be one of 0x4000 bytes back or more. */
  predicate MatchFirst(e: Env, ip: nat, size: nat)
    requires Valid(e)
  {
    && ip + 3 <= e.end && 16 <= e.input[ip] <= 17
    && var h := ReadM4(e, e.input[ip], ip); h.Copy? && size + h.len <= |e.room|
  }

  /** An assertion fails exactly on the inputs that begin with a match, or repeat an offset before there
      is one. */
  lemma AbortsExactly(e: Env, ip: nat, dict: seq<byte>)
    requires Valid(e) && ip <= e.end && e.dict
    ensures Aborts(e, Cfg(ip, Ctx(Start, 0, dict)), |dict|) <==>
              MatchFirst(e, ip, |dict|) || (e.v.LZO1Z? && RepeatsFirst(e, ip, |dict|))
  {
    hide Step, ReadM1, ReadM2, ReadM3, ReadM4, ReadLen;
    var c := Cfg(ip, Ctx(Start, 0, dict));
    SkipsExactly(e, ip, dict);
    if AtMatch(e, c) && ReadHead(e, c).Copy? {
      ZeroOffset(e, c);
    }
    if Step(e, c).Go? {
      StepGrows(e, c);
      AbortsLater(e, Step(e, c).cfg, |dict|);
    }
  }

  lemma {:induction false} FirstByte(v: Variant, ts: seq<Token>)
    requires ShapedAll(v, ts) && ts != []
    ensures |Enc(v, ts[0])| >= 1 && |EncAll(v, ts)| >= 1 && EncAll(v, ts)[0] == Enc(v, ts[0])[0]
    decreases |ts|
  {
    hide Enc;
    FirstOfOne(v, ts[0]);
    if |ts| == 1 {
      assert ts[..0] == [];
    } else {
      FirstByte(v, ts[..|ts| - 1]);
    }
  }

  lemma FirstOfOne(v: Variant, t: Token)
    requires Shaped(v, t)
    ensures |Enc(v, t)| >= 1 && (!t.Match? ==> !(16 <= Enc(v, t)[0] <= 17))
  {
    hide Ext, OffBytes;
  }

  /** No encoder's stream makes an assertion fail. */
  lemma EncodedNeverAborts(e: Env, ip: nat, dict: seq<byte>, bs: seq<byte>, w: seq<byte>, slack: nat)
    requires Encodes(e.v, e.word, Ctx(Start, 0, dict), bs, w, slack)
    requires Spans(e, ip, e.end, bs) && |w| <= |e.room| && e.dict
    ensures ip <= e.end && !Aborts(e, Cfg(ip, Ctx(Start, 0, dict)), |dict|)
  {
    hide Legal, Enc, Apply, Skips, Aborts, ReadM4;
    var c0 := Cfg(ip, Ctx(Start, 0, dict));
    var ts :| EncodedBy(e.v, e.word, c0.ctx, ts, bs, w, slack);
    EofMark(e.v);
    StreamNoSkip(e, c0, ts, 1, 0);
    SkipsExactly(e, ip, dict);
    AbortsExactly(e, ip, dict);
    assert e.input[ip] == e.input[ip..ip + |bs|][0];
    if ts == [] {
      assert EncAll(e.v, ts) + EOF_MARK == EOF_MARK;
      EofAt(e, c0, 1, 0);
    } else {
      FirstByte(e.v, ts);
      FirstOfOne(e.v, ts[0]);
    }
  }

  /** Six bytes on which `op > out` fails: a match of three bytes 0x4001 back, the end marker. Without
      assertions they are decoded as they stand. */
  lemma MatchFirstReached(e: Env, dict: seq<byte>)
    requires e.v.LZO1X? && Valid(e) && e.input == [17, 4, 0, 17, 0, 0] && e.end == 6 && e.dict
    requires |dict| == 0x4001 && |e.room| == |dict| + 3
    ensures MatchFirst(e, 0, |dict|) && Aborts(e, Cfg(0, Ctx(Start, 0, dict)), |dict|)
    ensures Decode(e, Cfg(0, Ctx(Start, 0, dict))) == Result(OK, dict + dict[..3])
  {
    var c := Cfg(0, Ctx(Start, 0, dict));
    var out := dict + dict[..3];
    assert out[..|dict|] == dict;
    CopyUnique(dict, 0x4001, 3, out);
    var c' := Cfg(3, Ctx(Fresh, 0x4001, out));
    assert ReadHead(e, c) == Copy(M4, 3, 0x4001, 3);
    assert Step(e, c) == Go(c');
    assert Step(e, c') == Halt(OK, out);
    AbortsExactly(e, 0, dict);
  }
}
