/** What the output buffer's size decides: whether a stream is accepted, and nothing else. */
module Capacity {
  import opened Bytes
  import opened Decoder
  import opened Dictionary
  import opened Locality
  import opened Repeat

  ghost predicate Resized(s: StepResult, size: nat, s': StepResult) {
    match s
    case Halt(status, out) => Ended(status) ==> |out| <= size && s' == s
    case Go(c) => if |c.ctx.out| <= size then s' == s else s'.Halt? && s'.status.OutputOverrun?
  }

  /** What the buffer holds before the call matters only to a run that makes it output: for such a run
      one buffer begins as the other does. */
  ghost predicate Comparable(e: Env, c: Cfg, room: seq<byte>)
    requires Valid(e) && c.ip <= e.end
  {
    Skips(e, c) ==> room <= e.room || e.room <= room
  }

  lemma ResizedTrail(e: Env, ip: nat, off: nat, out: seq<byte>, room: seq<byte>)
    requires Valid(e) && TrailBack(e.v) <= ip <= e.end && |out| <= |room|
    ensures Resized(Trail(e, ip, off, out), |room|, Trail(e.(room := room), ip, off, out))
  {
  }

  lemma ResizedMatch(e: Env, c: Cfg, room: seq<byte>)
    requires Valid(e) && AtMatch(e, c) && |c.ctx.out| <= |room| && Comparable(e, c, room)
    ensures Resized(StepMatch(e, c), |room|, StepMatch(e.(room := room), c))
  {
    hide ReadHead, Step, Trail;
    SameHead(e, e.(room := room), c, c);
    ZeroCopyExact(e, c);
    var h := ReadHead(e, c);
    if h.Copy? && CopyTest(e, h.len, h.off, |c.ctx.out|).OK? && |c.ctx.out| + h.len <= |room| {
      var w := c.ctx.out;
      assert h.off == 0 ==> e.room[|w|..|w| + h.len] == room[|w|..|w| + h.len];
      assert Copied(e, w, h.off, h.len) == Copied(e.(room := room), w, h.off, h.len);
      ResizedTrail(e, h.ip, h.off, Copied(e, w, h.off, h.len), room);
    }
  }

  lemma ResizedStep(e: Env, c: Cfg, room: seq<byte>)
    requires Valid(e) && c.ip <= e.end && |c.ctx.out| <= |room| && Comparable(e, c, room)
    ensures Resized(Step(e, c), |room|, Step(e.(room := room), c))
  {
    hide StepMatch, ReadLen, Comparable;
    SameExt(e, e.(room := room), c.ip);
    if AtMatch(e, c) {
      ResizedMatch(e, c, room);
    }
  }

  /** A stream that decodes in some buffer decodes to the same in every buffer that holds the result,
      and reports an output overrun in every smaller one. */
  lemma {:induction false} CapacityExact(e: Env, c: Cfg, room: seq<byte>)
    requires Valid(e) && c.ip <= e.end && |c.ctx.out| <= |room| && Ended(Decode(e, c).status) && Comparable(e, c, room)
    ensures var r, r' := Decode(e, c), Decode(e.(room := room), c);
            if |r.out| <= |room| then r' == r else r'.status.OutputOverrun?
    decreases e.end - c.ip
  {
    hide Step;
    ResizedStep(e, c, room);
    if Step(e, c).Go? {
      var c' := Step(e, c).cfg;
      Kept(e, c');
      if |c'.ctx.out| <= |room| {
        CapacityExact(e, c', room);
      }
    }
  }
}
