/** The decoder as a function of its input: one step per token, with every overrun test in the
    order in which the C code makes it. */
module Decoder {
  import opened Bytes
  import opened Format

  datatype Status = OK | InputOverrun | OutputOverrun | LookbehindOverrun | InputNotConsumed

  /** The end marker was found. */
  predicate Ended(s: Status) {
    s.OK? || s.InputNotConsumed?
  }

  /** What a call fixes: the variant, 2^w for the w-bit `lzo_uint`, whether a match copy tests the
      output before the look-behind (the preset-dictionary build does), the input bytes, which end
      at `end`, and the room for the window: the dictionary and the output buffer, whatever that holds. */
  datatype Env = Env(v: Variant, word: nat, dict: bool, input: seq<byte>, end: nat, room: seq<byte>)

  datatype Cfg = Cfg(ip: nat, ctx: Ctx)

  datatype StepResult = Halt(status: Status, out: seq<byte>) | Go(cfg: Cfg)

  predicate Valid(e: Env) {
    e.end <= |e.input| && 0x1_0000 <= e.word
  }

  // ----- lengths -----

  datatype LenResult = LenOK(n: nat, ip: nat) | LenWrap | LenShort

  /** The loop over zero bytes, with its wrap-around margin of 511 and its test for one more byte. */
  function ReadExt(e: Env, ip: nat, t: nat): (r: LenResult)
    requires Valid(e) && ip < e.end
    ensures r.LenOK? ==> ip < r.ip <= e.end && r.n >= t + 1
    ensures r.LenOK? && (t == 0 || t + 511 <= e.word) ==> r.n + 256 <= e.word
    decreases e.end - ip
  {
    if e.input[ip] != 0 then LenOK(t + e.input[ip], ip + 1)
    else if t + 255 > e.word - 511 then LenWrap
    else if ip + 1 >= e.end then LenShort
    else ReadExt(e, ip + 1, t + 255)
  }

  /** A length whose marker bits are `m`. */
  function ReadLen(e: Env, ip: nat, m: nat, max: nat): (r: LenResult)
    requires Valid(e) && ip < e.end
    ensures r.LenOK? ==> ip <= r.ip <= e.end && r.n >= 1
  {
    if m != 0 then LenOK(m, ip)
    else
      var r := ReadExt(e, ip, 0);
      if r.LenOK? then LenOK(r.n + max, r.ip) else r
  }

  // ----- matches -----

  datatype Head =
    | Copy(kind: Kind, len: nat, off: nat, ip: nat)
    | Eof(ip: nat)
    | Bad(status: Status)

  function ReadOff(v: Variant, b0: byte, b1: byte): (r: nat)
    ensures r < 0x4000
  {
    if v.LZO1Z? then b0 * 64 + b1 / 4 else b0 / 4 + b1 * 64
  }

  function ReadM2(e: Env, t: byte, b: byte, ip: nat, last: nat): (h: Head)
    requires t >= 64
    ensures h.Copy?
  {
    match e.v
    case LZO1X => Copy(M2, t / 32 + 1, 1 + t / 4 % 8 + 8 * b, ip + 2)
    case LZO1Y => Copy(M2, t / 16 - 1, 1 + t / 4 % 4 + 4 * b, ip + 2)
    case LZO1Z =>
      if t % 32 >= 28 then Copy(M2Rep, t / 32 + 1, last, ip + 1)
      else Copy(M2, t / 32 + 1, 1 + t % 32 * 64 + b / 4, ip + 2)
  }

  /** A length from the marker bits `m`, then room for two offset bytes, which only the extended
      form has to test for. */
  function ReadLongLen(e: Env, ip: nat, m: nat, max: nat): (r: LenResult)
    requires Valid(e) && ip + 3 <= e.end
    ensures r.LenOK? ==> ip < r.ip && r.ip + 2 <= e.end && r.n >= 1
  {
    var r := ReadLen(e, ip + 1, m, max);
    if r.LenOK? && m == 0 && e.end - r.ip < 2 then LenShort else r
  }

  function LenError(r: LenResult): (h: Head)
    requires !r.LenOK?
    ensures h.Bad? && !Ended(h.status)
  {
    Bad(if r.LenWrap? then OutputOverrun else InputOverrun)
  }

  function ReadM3(e: Env, t: byte, ip: nat): (h: Head)
    requires Valid(e) && 32 <= t < 64 && ip + 3 <= e.end
    ensures !h.Eof?
    ensures if h.Bad? then !Ended(h.status) else ip + 3 <= h.ip <= e.end
  {
    var r := ReadLongLen(e, ip, t % 32, 31);
    if !r.LenOK? then LenError(r)
    else Copy(M3, r.n + 2, 1 + ReadOff(e.v, e.input[r.ip], e.input[r.ip + 1]), r.ip + 2)
  }

  function ReadM4(e: Env, t: byte, ip: nat): (h: Head)
    requires Valid(e) && 16 <= t < 32 && ip + 3 <= e.end
    ensures if h.Bad? then !Ended(h.status) else ip + 3 <= h.ip <= e.end
  {
    var r := ReadLongLen(e, ip, t % 8, 7);
    if !r.LenOK? then LenError(r)
    else
      var k := t / 8 % 2 * 0x4000 + ReadOff(e.v, e.input[r.ip], e.input[r.ip + 1]);
      if k == 0 then Eof(r.ip + 2) else Copy(M4, r.n + 2, 0x4000 + k, r.ip + 2)
  }

  function ReadM1(e: Env, t: byte, b: byte, ip: nat, st: State): (h: Head)
    requires t < 16
    ensures h.Copy?
  {
    var o := if e.v.LZO1Z? then t * 64 + b / 4 else t / 4 + 4 * b;
    if st.AfterRun? then Copy(M1b, 3, 1 + M2MaxOffset(e.v) + o, ip + 2)
    else Copy(M1a, 2, 1 + o, ip + 2)
  }

  function ReadHead(e: Env, c: Cfg): (h: Head)
    requires Valid(e) && c.ip + 3 <= e.end
    ensures h.Copy? ==> c.ip + TrailBack(e.v) <= h.ip && 2 <= h.len && (e.v.LZO1Z? || 1 <= h.off)
    ensures if h.Bad? then !Ended(h.status) else c.ip < h.ip <= e.end
  {
    var t, b := e.input[c.ip], e.input[c.ip + 1];
    if t >= 64 then ReadM2(e, t, b, c.ip, c.ctx.last)
    else if t >= 32 then ReadM3(e, t, c.ip)
    else if t >= 16 then ReadM4(e, t, c.ip)
    else ReadM1(e, t, b, c.ip, c.ctx.st)
  }

  /** How far behind the end of a match the byte with its literal count lies. */
  function TrailBack(v: Variant): (r: nat)
    ensures 1 <= r <= 2
  {
    if v.LZO1Z? then 1 else 2
  }

  // ----- steps -----

  function TakeLits(e: Env, ip: nat, n: nat, c: Ctx): (r: StepResult)
    requires Valid(e) && ip <= e.end
    ensures r.Go? ==> ip + n + 3 <= e.end && r.cfg.ip == ip + n
    ensures r.Go? ==> |r.cfg.ctx.out| == |c.out| + n <= |e.room|
    ensures r.Halt? ==> !Ended(r.status) && r.out == c.out
  {
    if |e.room| - |c.out| < n then Halt(OutputOverrun, c.out)
    else if e.end - ip < n + 3 then Halt(InputOverrun, c.out)
    else Go(Cfg(ip + n, c.(out := c.out + e.input[ip..ip + n])))
  }

  /** Whether a match can be copied, and the failure reported when it cannot. Only the ordinary build
      refuses distance 0; COPY_DICT asserts that it does not happen, and goes on. */
  function CopyTest(e: Env, len: nat, off: nat, size: nat): Status {
    var lb := off > size || (off == 0 && !e.dict);
    var full := |e.room| - size < len;
    if e.dict then (if full then OutputOverrun else if lb then LookbehindOverrun else OK)
    else (if lb then LookbehindOverrun else if full then OutputOverrun else OK)
  }

  /** The window behind a match. At distance 0 the output buffer is copied onto itself: what it held
      before the call becomes output. */
  function Copied(e: Env, w: seq<byte>, off: nat, len: nat): (r: seq<byte>)
    requires off <= |w| && |w| + len <= |e.room|
    ensures |r| == |w| + len && r[..|w|] == w
  {
    if off == 0 then w + e.room[|w|..|w| + len] else CopyMatch(w, off, len)
  }

  /** After a copy: the literal count is re-read from the match's bytes, then that many literals. */
  function Trail(e: Env, ip: nat, off: nat, out: seq<byte>): (r: StepResult)
    requires Valid(e) && TrailBack(e.v) <= ip <= e.end
    ensures r.Go? ==> ip <= r.cfg.ip <= e.end && |r.cfg.ctx.out| - |out| == r.cfg.ip - ip
    ensures r.Halt? ==> !Ended(r.status) && r.out == out
  {
    var low := e.input[ip - TrailBack(e.v)] % 4;
    if low == 0 then Go(Cfg(ip, Ctx(Fresh, off, out)))
    else TakeLits(e, ip, low, Ctx(AfterTrail, off, out))
  }

  function StepMatch(e: Env, c: Cfg): (r: StepResult)
    requires Valid(e) && c.ip + 3 <= e.end
    ensures r.Go? ==> c.ip < r.cfg.ip <= e.end
  {
    match ReadHead(e, c)
    case Bad(s) => Halt(s, c.ctx.out)
    case Eof(ip) => Halt(if ip == e.end then OK else InputNotConsumed, c.ctx.out)
    case Copy(_, len, off, ip) =>
      var test := CopyTest(e, len, off, |c.ctx.out|);
      if test != OK then Halt(test, c.ctx.out)
      else Trail(e, ip, off, Copied(e, c.ctx.out, off, len))
  }

  function StepRun(e: Env, c: Cfg): (r: StepResult)
    requires Valid(e) && c.ip + 3 <= e.end
    ensures r.Go? ==> c.ip < r.cfg.ip <= e.end
  {
    match ReadLen(e, c.ip + 1, e.input[c.ip], 15)
    case LenWrap => Halt(InputOverrun, c.ctx.out)
    case LenShort => Halt(InputOverrun, c.ctx.out)
    case LenOK(n, p) => TakeLits(e, p, n + 3, c.ctx.(st := AfterRun))
  }

  function Step(e: Env, c: Cfg): (r: StepResult)
    requires Valid(e) && c.ip <= e.end
    ensures r.Go? ==> c.ip < r.cfg.ip <= e.end
  {
    if c.ctx.st.Start? && c.ip < e.end && e.input[c.ip] > 17 then
      var n := e.input[c.ip] - 17;
      TakeLits(e, c.ip + 1, n, c.ctx.(st := if n < 4 then AfterTrail else AfterRun))
    else if e.end - c.ip < 3 then Halt(InputOverrun, c.ctx.out)
    else if e.input[c.ip] < 16 && (c.ctx.st.Start? || c.ctx.st.Fresh?) then StepRun(e, c)
    else StepMatch(e, c)
  }

  datatype Result = Result(status: Status, out: seq<byte>)

  /** The whole run from `c`. */
  function Decode(e: Env, c: Cfg): (r: Result)
    requires Valid(e) && c.ip <= e.end
    decreases e.end - c.ip
  {
    match Step(e, c)
    case Halt(s, out) => Result(s, out)
    case Go(c') => Decode(e, c')
  }
}
