/** Where the input ends decides: a stream is accepted at its own length and at no other. */
module Truncation {
  import opened Decoder

  /** With another end a length is the same, or is cut short. */
  ghost predicate SameOrShort(r: LenResult, more: bool, r': LenResult) {
    r.LenOK? ==> r' == r || (!more && r'.LenShort?)
  }

  lemma {:induction false} EndExt(e: Env, end: nat, ip: nat, t: nat)
    requires Valid(e) && end <= |e.input| && ip < e.end && ip < end
    ensures SameOrShort(ReadExt(e, ip, t), e.end <= end, ReadExt(e.(end := end), ip, t))
    decreases e.end - ip
  {
    if e.input[ip] == 0 && ip + 1 < e.end && ip + 1 < end {
      EndExt(e, end, ip + 1, t + 255);
    }
  }

  lemma EndLen(e: Env, end: nat, ip: nat, m: nat, max: nat)
    requires Valid(e) && end <= |e.input| && ip < e.end && ip < end
    ensures SameOrShort(ReadLen(e, ip, m, max), e.end <= end, ReadLen(e.(end := end), ip, m, max))
  {
    EndExt(e, end, ip, 0);
  }

  lemma EndHead(e: Env, end: nat, c: Cfg)
    requires Valid(e) && end <= |e.input| && c.ip + 3 <= e.end && c.ip + 3 <= end && !ReadHead(e, c).Bad?
    ensures var h, h' := ReadHead(e, c), ReadHead(e.(end := end), c);
            h' == h || (end < e.end && h' == Bad(InputOverrun))
  {
    hide ReadLen, ReadOff;
    var t := e.input[c.ip];
    if 32 <= t < 64 {
      EndLen(e, end, c.ip + 1, t % 32, 31);
    } else if 16 <= t < 32 {
      EndLen(e, end, c.ip + 1, t % 8, 7);
    }
  }

  /** What becomes of a step that goes on or ends well when the input ends at `end` instead. */
  ghost predicate EndsAt(s: StepResult, e: Env, end: nat, s': StepResult) {
    match s
    case Halt(status, out) =>
      status.OK? ==> s'.Halt? &&
                     (if end < e.end then s'.status.InputOverrun?
                      else s' == Halt(if end == e.end then OK else InputNotConsumed, out))
    case Go(c) => s' == s || (end < e.end && s'.Halt? && s'.status.InputOverrun?)
  }

  lemma EndMatch(e: Env, end: nat, c: Cfg)
    requires Valid(e) && end <= |e.input| && c.ip + 3 <= e.end && c.ip + 3 <= end
    ensures EndsAt(StepMatch(e, c), e, end, StepMatch(e.(end := end), c))
  {
    hide ReadHead;
    if !ReadHead(e, c).Bad? {
      EndHead(e, end, c);
    }
  }

  lemma EndStep(e: Env, end: nat, c: Cfg)
    requires Valid(e) && end <= |e.input| && c.ip <= e.end && c.ip <= end
    ensures EndsAt(Step(e, c), e, end, Step(e.(end := end), c))
  {
    hide StepMatch, ReadLen;
    if c.ip + 3 <= e.end && c.ip + 3 <= end {
      EndMatch(e, end, c);
      EndLen(e, end, c.ip + 1, e.input[c.ip], 15);
    }
    EofNeedsThree(e, c);
  }

  lemma EofNeedsThree(e: Env, c: Cfg)
    requires Valid(e) && c.ip <= e.end
    ensures c.ip + 3 > e.end && Step(e, c).Halt? ==> !Step(e, c).status.OK?
  {
  }

  /** A prefix of an accepted stream is an input overrun, and with anything behind it the stream is
      decoded but reported as not consumed. */
  lemma {:induction false} LengthExact(e: Env, end: nat, c: Cfg)
    requires Valid(e) && end <= |e.input| && c.ip <= e.end && c.ip <= end && Decode(e, c).status.OK?
    ensures var r, r' := Decode(e, c), Decode(e.(end := end), c);
            if end < e.end then r'.status.InputOverrun?
            else if end == e.end then r' == r
            else r' == Result(InputNotConsumed, r.out)
    decreases e.end - c.ip
  {
    hide Step;
    EndStep(e, end, c);
    if Step(e, c).Go? && Step(e.(end := end), c).Go? {
      LengthExact(e, end, Step(e, c).cfg);
    }
  }
}
