/** LZO1Z's repeat form before any match. The ordinary decoder reports a look-behind overrun; the one
    with a preset dictionary only asserts that it does not happen, and otherwise makes whatever the
    output buffer held part of its output. Here is exactly when that happens. */
module Repeat {
  import opened Bytes
  import opened Format
  import opened Decoder

  /** A match at distance 0 comes from LZO1Z's repeat form when no match has set the offset yet, and
      from nothing else. */
  lemma ZeroOffset(e: Env, c: Cfg)
    requires Valid(e) && c.ip + 3 <= e.end && ReadHead(e, c).Copy?
    ensures ReadHead(e, c).off == 0 <==>
              e.v.LZO1Z? && e.input[c.ip] >= 64 && e.input[c.ip] % 32 >= 28 && c.ctx.last == 0
  {
    hide ReadLongLen;
  }

  /** A repeat form at `ip`, three bytes or more before the end, that the room behind `size` bytes holds. */
  predicate RepeatAt(e: Env, ip: nat, size: nat)
    requires Valid(e)
  {
    && ip + 3 <= e.end && e.input[ip] >= 64 && e.input[ip] % 32 >= 28
    && size + e.input[ip] / 32 + 1 <= |e.room|
  }

  /** The next step copies the output buffer onto itself. */
  predicate ZeroCopy(e: Env, c: Cfg)
    requires Valid(e)
  {
    e.dict && e.v.LZO1Z? && !c.ctx.st.Start? && c.ctx.last == 0 && RepeatAt(e, c.ip, |c.ctx.out|)
  }

  /** So does some step of the run from `c`. */
  predicate Skips(e: Env, c: Cfg)
    requires Valid(e) && c.ip <= e.end
    decreases e.end - c.ip
  {
    ZeroCopy(e, c) || (Step(e, c).Go? && Skips(e, Step(e, c).cfg))
  }

  /** A step that takes a match, once any test for input has been passed. */
  predicate AtMatch(e: Env, c: Cfg)
    requires Valid(e)
  {
    && c.ip + 3 <= e.end
    && !(c.ctx.st.Start? && e.input[c.ip] > 17)
    && !(e.input[c.ip] < 16 && (c.ctx.st.Start? || c.ctx.st.Fresh?))
  }

  /** It is the next step exactly when that is a match at distance 0 which passes the build's tests. */
  lemma ZeroCopyExact(e: Env, c: Cfg)
    requires Valid(e) && c.ip <= e.end
    ensures ZeroCopy(e, c) <==>
              AtMatch(e, c) && ReadHead(e, c).Copy? && ReadHead(e, c).off == 0
              && CopyTest(e, ReadHead(e, c).len, 0, |c.ctx.out|).OK?
    ensures AtMatch(e, c) ==> Step(e, c) == StepMatch(e, c)
  {
    hide ReadM3, ReadM4, StepMatch, StepRun;
    if AtMatch(e, c) && ReadHead(e, c).Copy? {
      ZeroOffset(e, c);
    }
  }

  /** Until a match has been decoded the offset is 0, and afterwards it is not. */
  lemma LastOffset(e: Env, c: Cfg)
    requires Valid(e) && c.ip <= e.end && Step(e, c).Go?
    ensures Step(e, c).cfg.ctx.last == c.ctx.last || 1 <= Step(e, c).cfg.ctx.last <= |c.ctx.out|
    ensures !Step(e, c).cfg.ctx.st.Start?
    ensures Step(e, c).cfg.ctx.last == 0 && !ZeroCopy(e, c) ==> !AtMatch(e, c)
  {
    hide ReadHead, ReadLen;
    ZeroCopyExact(e, c);
  }

  lemma {:induction false} NoMoreSkips(e: Env, c: Cfg)
    requires Valid(e) && c.ip <= e.end && 1 <= c.ctx.last
    ensures !Skips(e, c)
    decreases e.end - c.ip
  {
    hide Step;
    if Step(e, c).Go? {
      LastOffset(e, c);
      NoMoreSkips(e, Step(e, c).cfg);
    }
  }

  /** Only the dictionary build of LZO1Z can skip. */
  lemma {:induction false} SkipsOnlyZ(e: Env, c: Cfg)
    requires Valid(e) && c.ip <= e.end && !(e.dict && e.v.LZO1Z?)
    ensures !Skips(e, c)
    decreases e.end - c.ip
  {
    hide Step;
    if Step(e, c).Go? {
      SkipsOnlyZ(e, Step(e, c).cfg);
    }
  }

  /** The input begins with literals, behind which a repeat form follows at once: a test on the bytes
      that a caller can make beforehand. */
  predicate RepeatsFirst(e: Env, ip: nat, size: nat)
    requires Valid(e)
  {
    && ip + 3 <= e.end
    && if e.input[ip] > 17 then RepeatAt(e, ip + 1 + (e.input[ip] - 17), size + (e.input[ip] - 17))
       else if e.input[ip] < 16 then
         var r := ReadLen(e, ip + 1, e.input[ip], 15);
         r.LenOK? && RepeatAt(e, r.ip + r.n + 3, size + r.n + 3)
       else false
  }

  /** A call to the dictionary build of LZO1Z skips exactly on such inputs. */
  lemma SkipsExactly(e: Env, ip: nat, dict: seq<byte>)
    requires Valid(e) && ip <= e.end
    ensures Skips(e, Cfg(ip, Ctx(Start, 0, dict))) <==> e.dict && e.v.LZO1Z? && RepeatsFirst(e, ip, |dict|)
  {
    hide ReadLen, ReadHead, StepMatch;
    var c := Cfg(ip, Ctx(Start, 0, dict));
    if !(e.dict && e.v.LZO1Z?) {
      SkipsOnlyZ(e, c);
    } else if Step(e, c).Go? {
      LastOffset(e, c);
      var c' := Step(e, c).cfg;
      if c'.ctx.last != 0 {
        NoMoreSkips(e, c');
      } else {
        SkipsSecond(e, c');
      }
    }
  }

  /** Behind literals a match follows, and unless it repeats nothing it sets the offset. */
  lemma SkipsSecond(e: Env, c: Cfg)
    requires Valid(e) && c.ip <= e.end && (c.ctx.st.AfterRun? || c.ctx.st.AfterTrail?)
    ensures Skips(e, c) <==> ZeroCopy(e, c)
  {
    hide StepRun, StepMatch, ReadHead;
    if !ZeroCopy(e, c) && Step(e, c).Go? {
      LastOffset(e, c);
      NoMoreSkips(e, Step(e, c).cfg);
    }
  }

  /** Six bytes that do: one literal, the repeat form, the end marker. The call returns LZO_E_OK, with
      three bytes of output that nobody has written. */
  lemma ZeroOffsetReached(e: Env)
    requires e.v.LZO1Z? && Valid(e) && e.input == [18, 0, 92, 17, 0, 0] && e.end == 6 && |e.room| == 4 && e.dict
    ensures RepeatsFirst(e, 0, 0)
    ensures Decode(e, Cfg(0, Ctx(Start, 0, []))) == Result(OK, [0] + e.room[1..])
    ensures Decode(e.(dict := false), Cfg(0, Ctx(Start, 0, []))) == Result(LookbehindOverrun, [0])
  {
    var c := Cfg(0, Ctx(Start, 0, []));
    var c' := Cfg(2, Ctx(AfterTrail, 0, [0]));
    assert [] + e.input[1..2] == [0];
    assert Step(e, c) == Go(c') && Step(e.(dict := false), c) == Go(c');
    assert Decode(e.(dict := false), c') == Result(LookbehindOverrun, [0]);
    RepeatThenEnd(e);
    assert Decode(e, c) == Decode(e, c');
  }

  lemma RepeatThenEnd(e: Env)
    requires e.v.LZO1Z? && Valid(e) && e.input == [18, 0, 92, 17, 0, 0] && e.end == 6 && |e.room| == 4 && e.dict
    ensures Decode(e, Cfg(2, Ctx(AfterTrail, 0, [0]))) == Result(OK, [0] + e.room[1..])
  {
    var c := Cfg(2, Ctx(AfterTrail, 0, [0]));
    var c' := Cfg(3, Ctx(Fresh, 0, [0] + e.room[1..]));
    assert e.room[1..] == e.room[1..1 + 3];
    assert Step(e, c) == Go(c');
    assert Step(e, c') == Halt(OK, c'.ctx.out);
    assert Decode(e, c') == Result(OK, c'.ctx.out);
  }
}
