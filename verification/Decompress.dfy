/** The decompressors on arrays. `src` and `dst` may be one array: decompression in place. */
module Decompress {
  import opened Bytes
  import opened Format
  import opened Decoder
  import opened Copying

  /** A build of the decompressor: `safe` keeps the overrun tests, `dict` is the one with a preset
      dictionary. */
  datatype Build = Build(v: Variant, word: nat, safe: bool, dict: bool, width: Width)

  // ----- copying -----

  /** The dictionary followed by the output so far: what a match may refer to. */
  ghost function Window(dict: seq<byte>, dst: array<byte>, d: nat, op: nat): seq<byte>
    requires d <= op <= dst.Length
    reads dst
  {
    dict + dst[d..op]
  }

  lemma WindowCopied(dict: seq<byte>, s: seq<byte>, n: nat, off: nat)
    requires n <= |s| && 1 <= off <= |dict| + n
    requires forall i {:trigger s[i]} | n <= i < |s| :: s[i] == if i >= off then s[i - off] else dict[|dict| + i - off]
    ensures dict + s == CopyMatch(dict + s[..n], off, |s| - n)
  {
    var r := dict + s;
    assert r[..|dict| + n] == dict + s[..n];
    forall k | |dict| + n <= k < |r| ensures r[k] == r[k - off] {
      var i := k - |dict|;
      assert s[i] == if i >= off then s[i - off] else dict[|dict| + i - off];
    }
    CopyUnique(dict + s[..n], off, |s| - n, r);
  }

  /** COPY_DICT: a match that may begin in the dictionary and run on into the output. */
  method CopyDict(dict: seq<byte>, dst: array<byte>, d: nat, op: nat, off: nat, len: nat) returns (ok: bool)
    requires d <= op && op + len <= dst.Length && 2 <= len
    modifies dst
    ensures ok <==> off <= |dict| + (op - d)
    ensures ok ==> forall i {:trigger dst[i]} | op <= i < op + len ::
                     dst[i] ==
                     if off == 0 then old(dst[i])
                     else if i - off >= d then dst[i - off] else dict[|dict| + i - d - off]
    ensures forall i {:trigger dst[i]} | 0 <= i < dst.Length && !(ok && op <= i < op + len) :: dst[i] == old(dst[i])
  {
    ok := true;
    if off <= op - d {
      if off >= len {
        CopyChunk(dst, op, dst, op - off, len);
      } else {
        CopyBack(Bytewise, dst, op, off, len);
      }
    } else {
      var m := off - (op - d);
      if m > |dict| {
        ok := false;
        return;
      }
      var n := if len > m then m else len;
      forall i | op <= i < op + n {
        dst[i] := dict[|dict| - m + i - op];
      }
      if len > m {
        CopyBack(Bytewise, dst, op + m, off, len - m);
      }
    }
  }

  /** A match, from the output alone or, in the dictionary build, from the whole window. */
  method CopyFrom(b: Build, dict: seq<byte>, dst: array<byte>, d: nat, op: nat, off: nat, len: nat, wide: bool)
    returns (ok: bool)
    requires d <= op && op + len <= dst.Length && 2 <= len && (!b.dict ==> dict == [] && 1 <= off <= op - d)
    modifies dst
    ensures ok <==> off <= |dict| + (op - d)
    ensures ok ==> Window(dict, dst, d, op + len) ==
                   if off == 0 then old(Window(dict, dst, d, op + len))
                   else CopyMatch(old(Window(dict, dst, d, op)), off, len)
    ensures forall i {:trigger dst[i]} | 0 <= i < dst.Length && !(ok && op <= i < op + len) :: dst[i] == old(dst[i])
  {
    if b.dict {
      ok := CopyDict(dict, dst, d, op, off, len);
    } else {
      CopyBack(if wide then b.width else Bytewise, dst, op, off, len);
      ok := true;
    }
    if ok {
      assert dst[d..op] == old(dst[d..op]);
      if off == 0 {
        assert dst[d..op + len] == old(dst[d..op + len]);
      } else {
        WindowGrown(dict, dst, d, op, off, len);
      }
    }
  }

  lemma WindowGrown(dict: seq<byte>, dst: array<byte>, d: nat, op: nat, off: nat, len: nat)
    requires d <= op && op + len <= dst.Length && 1 <= off <= |dict| + (op - d)
    requires forall i {:trigger dst[i]} | op <= i < op + len ::
               dst[i] == if i - off >= d then dst[i - off] else dict[|dict| + i - d - off]
    ensures Window(dict, dst, d, op + len) == CopyMatch(Window(dict, dst, d, op), off, len)
  {
    var s := dst[d..op + len];
    assert s[..op - d] == dst[d..op];
    forall i | op - d <= i < |s| ensures s[i] == if i >= off then s[i - off] else dict[|dict| + i - off] {
      var j := d + i;
      assert s[i] == dst[j];
      if i >= off {
        assert s[i - off] == dst[j - off];
      }
    }
    WindowCopied(dict, s, op - d, off);
  }

  // ----- reading -----

  /** From `ip` to `end` the array still holds the input that `e` describes. */
  ghost predicate Unread(e: Env, src: array<byte>, ip: nat)
    reads src
  {
    && Valid(e) && e.end <= src.Length
    && forall i | ip <= i < e.end :: src[i] == e.input[i]
  }

  ghost predicate For(b: Build, e: Env) {
    e.v == b.v && e.word == b.word && e.dict == b.dict
  }

  /** The loop over zero bytes; every value `t` takes is below 2^w. */
  method ReadExtension(b: Build, src: array<byte>, ip: nat, end: nat, ghost e: Env) returns (r: LenResult)
    requires For(b, e) && end == e.end && ip < end && Unread(e, src, ip)
    requires b.safe || ReadExt(e, ip, 0).LenOK?
    ensures r == ReadExt(e, ip, 0)
  {
    var t, p := 0, ip;
    while src[p] == 0
      invariant ip <= p < end
      invariant ReadExt(e, p, t) == ReadExt(e, ip, 0)
      invariant t == 0 || t + 511 <= b.word
      decreases end - p
    {
      t := t + 255;
      p := p + 1;
      assert t < b.word;
      if b.safe {
        if t > b.word - 511 {
          return LenWrap;
        }
        if end - p < 1 {
          return LenShort;
        }
      }
    }
    assert t + src[p] + 256 <= b.word;
    r := LenOK(t + src[p], p + 1);
  }

  method ReadLength(b: Build, src: array<byte>, ip: nat, end: nat, m: nat, max: nat, ghost e: Env)
    returns (r: LenResult)
    requires For(b, e) && end == e.end && ip < end && Unread(e, src, ip)
    requires b.safe || ReadLen(e, ip, m, max).LenOK?
    ensures r == ReadLen(e, ip, m, max)
  {
    if m != 0 {
      r := LenOK(m, ip);
    } else {
      r := ReadExtension(b, src, ip, end, e);
      if r.LenOK? {
        r := LenOK(r.n + max, r.ip);
      }
    }
  }

  /** The marker, length and offset of a match. */
  method ReadMatch(b: Build, src: array<byte>, ip: nat, end: nat, st: State, last: nat, ghost e: Env, ghost c: Cfg)
    returns (h: Head)
    requires For(b, e) && end == e.end && ip + 3 <= end && Unread(e, src, ip)
    requires c.ip == ip && c.ctx.st == st && c.ctx.last == last
    requires b.safe || !ReadHead(e, c).Bad?
    ensures h == ReadHead(e, c)
  {
    var t: nat, t1: nat := src[ip], src[ip + 1];
    if t >= 64 {
      match b.v {
        case LZO1X => h := Copy(M2, t / 32 + 1, 1 + t / 4 % 8 + 8 * t1, ip + 2);
        case LZO1Y => h := Copy(M2, t / 16 - 1, 1 + t / 4 % 4 + 4 * t1, ip + 2);
        case LZO1Z =>
          if t % 32 >= 28 {
            h := Copy(M2Rep, t / 32 + 1, last, ip + 1);
          } else {
            h := Copy(M2, t / 32 + 1, 1 + t % 32 * 64 + t1 / 4, ip + 2);
          }
      }
    } else if t >= 16 {
      h := ReadLongMatch(b, src, ip, end, e, c);
    } else {
      var o: nat := if b.v.LZO1Z? then t * 64 + t1 / 4 else t / 4 + 4 * t1;
      if st.AfterRun? {
        h := Copy(M1b, 3, 1 + M2MaxOffset(b.v) + o, ip + 2);
      } else {
        h := Copy(M1a, 2, 1 + o, ip + 2);
      }
    }
  }

  method ReadLongLength(b: Build, src: array<byte>, ip: nat, end: nat, m: nat, max: nat, ghost e: Env)
    returns (r: LenResult)
    requires For(b, e) && end == e.end && ip + 3 <= end && Unread(e, src, ip)
    requires b.safe || ReadLongLen(e, ip, m, max).LenOK?
    ensures r == ReadLongLen(e, ip, m, max)
  {
    r := ReadLength(b, src, ip + 1, end, m, max, e);
    if r.LenOK? && b.safe && m == 0 && end - r.ip < 2 {
      r := LenShort;
    }
  }

  method ReadLongMatch(b: Build, src: array<byte>, ip: nat, end: nat, ghost e: Env, ghost c: Cfg) returns (h: Head)
    requires For(b, e) && end == e.end && ip + 3 <= end && Unread(e, src, ip) && 16 <= src[ip] < 64
    requires c.ip == ip
    requires b.safe || !ReadHead(e, c).Bad?
    ensures h == ReadHead(e, c)
  {
    hide ReadM1, ReadM2, ReadLongLen;
    var t: nat := src[ip];
    var r := ReadLongLength(b, src, ip, end, if t >= 32 then t % 32 else t % 8, if t >= 32 then 31 else 7, e);
    if r.LenWrap? {
      return Bad(OutputOverrun);
    }
    if r.LenShort? {
      return Bad(InputOverrun);
    }
    var b0: nat, b1: nat := src[r.ip], src[r.ip + 1];
    var o: nat := if b.v.LZO1Z? then b0 * 64 + b1 / 4 else b0 / 4 + b1 * 64;
    if t >= 32 {
      h := Copy(M3, r.n + 2, 1 + o, r.ip + 2);
    } else {
      var k: nat := t / 8 % 2 * 0x4000 + o;
      h := if k == 0 then Eof(r.ip + 2) else Copy(M4, r.n + 2, 0x4000 + k, r.ip + 2);
    }
  }

  // ----- one step -----

  /** What one call is given: input `src[..end]`, output from `d` up to `opEnd`, and a dictionary. */
  datatype Call = Call(b: Build, src: array<byte>, end: nat, dst: array<byte>, d: nat, opEnd: nat, dict: seq<byte>)

  /** The C code's local variables; `st` stands for the label at which it continues. */
  datatype Regs = Regs(ip: nat, op: nat, st: State, last: nat)

  /** Within the arrays; behind literals, three more bytes have already been tested for. */
  ghost predicate InBounds(k: Call, r: Regs) {
    && k.d <= r.op <= k.opEnd <= k.dst.Length
    && r.ip <= k.end <= k.src.Length
    && (r.st.AfterRun? || r.st.AfterTrail? ==> r.ip + 3 <= k.end)
  }

  ghost predicate EnvOf(k: Call, e: Env) {
    && For(k.b, e) && Valid(e) && e.end == k.end && k.d <= k.opEnd
    && |e.room| == |k.dict| + (k.opEnd - k.d)
    && (!k.b.dict ==> k.dict == [])
  }

  /** From `op` on the output buffer still holds what it did before the call. */
  ghost predicate Unwritten(k: Call, e: Env, op: nat)
    requires k.d <= op <= k.opEnd <= k.dst.Length && EnvOf(k, e)
    reads k.dst
  {
    forall i {:trigger k.dst[i]} | op <= i < k.opEnd :: k.dst[i] == e.room[|k.dict| + (i - k.d)]
  }

  ghost function CfgOf(k: Call, r: Regs): Cfg
    requires InBounds(k, r)
    reads k.dst
  {
    Cfg(r.ip, Ctx(r.st, r.last, Window(k.dict, k.dst, k.d, r.op)))
  }

  /** The outcome of a step on the arrays is the outcome `s` of the decoder's step. */
  ghost predicate Agrees(k: Call, s: StepResult, halt: bool, status: Status, r: Regs)
    requires InBounds(k, r)
    reads k.dst
  {
    match s
    case Halt(status', out) => halt && status == status' && CfgOf(k, r).ctx.out == out
    case Go(c) => !halt && c == CfgOf(k, r)
  }

  /** A step whose writes stay two bytes below what is still to be read, the byte with the literal
      count included, or that writes nothing. Of one array, the window would begin at `low`. */
  ghost predicate Clear(low: int, c: Cfg, s: StepResult) {
    match s
    case Halt(_, out) => |out| == |c.ctx.out|
    case Go(c') => low + |c'.ctx.out| + 2 <= c'.ip
  }

  /** Where the dictionary would begin if it lay right below the output. */
  function Low(k: Call): int {
    k.d - |k.dict|
  }

  /** Two arrays, or one array and a step that is clear. */
  ghost predicate Apart(k: Call, c: Cfg, s: StepResult) {
    k.src != k.dst || Clear(Low(k), c, s)
  }

  /** The literals of `input` at `ip`, when they are still in the array and lie above the output. */
  method PutLits(width: Width, dict: seq<byte>, dst: array<byte>, d: nat, op: nat, src: array<byte>, ip: nat, n: nat,
                 ghost input: seq<byte>)
    requires d <= op && op + n <= dst.Length && ip + n <= src.Length && ip + n <= |input|
    modifies dst
    ensures forall i {:trigger dst[i]} | 0 <= i < dst.Length && !(op <= i < op + n) :: dst[i] == old(dst[i])
    ensures (src != dst || op <= ip) && old(forall i | ip <= i < ip + n :: src[i] == input[i]) ==>
              Window(dict, dst, d, op + n) == old(Window(dict, dst, d, op)) + input[ip..ip + n]
  {
    CopyLits(width, dst, op, src, ip, n);
    if (src != dst || op <= ip) && old(forall i | ip <= i < ip + n :: src[i] == input[i]) {
      var lits := input[ip..ip + n];
      forall i | op <= i < op + n ensures dst[i] == lits[i - op] {
        assert old(src[i - op + ip]) == input[i - op + ip];
      }
      assert dst[op..op + n] == lits;
      assert dst[d..op] == old(dst[d..op]);
      assert dst[d..op + n] == dst[d..op] + lits;
    }
  }

  method TakeLiterals(k: Call, r: Regs, n: nat, wide: bool, ghost e: Env) returns (halt: bool, status: Status, r': Regs)
    requires k.d <= r.op <= k.opEnd <= k.dst.Length && r.ip <= k.end <= k.src.Length
    requires EnvOf(k, e) && (k.src != k.dst || r.op + 2 <= r.ip ==> Unread(e, k.src, r.ip))
    requires !k.b.safe ==> r.op + n <= k.opEnd && r.ip + n + 3 <= k.end
    modifies k.dst
    ensures InBounds(k, r') && r.op <= r'.op
    ensures r'.ip == if halt then r.ip else r.ip + n
    ensures r'.op == if halt then r.op else r.op + n
    ensures !halt ==> r'.ip + 3 <= k.end && r'.st == r.st && r'.last == r.last
    ensures forall i {:trigger k.dst[i]} | 0 <= i < k.dst.Length && !(r.op <= i < r'.op) :: k.dst[i] == old(k.dst[i])
    ensures var s := TakeLits(e, r.ip, n, Ctx(r.st, r.last, old(Window(k.dict, k.dst, k.d, r.op))));
            k.src != k.dst || r.op + 2 <= r.ip || s.Halt? ==> Agrees(k, s, halt, status, r')
  {
    var fail := r.(st := Fresh);
    if k.b.safe && k.opEnd - r.op < n {
      return true, OutputOverrun, fail;
    }
    if k.b.safe && k.end - r.ip < n + 3 {
      return true, InputOverrun, fail;
    }
    PutLits(if wide then k.b.width else Bytewise, k.dict, k.dst, k.d, r.op, k.src, r.ip, n, e.input);
    halt, status, r' := false, OK, r.(ip := r.ip + n, op := r.op + n);
  }

  /** What a build without tests relies on: no step fails, and none overwrites unread input. */
  ghost predicate Trusted(k: Call, c: Cfg, s: StepResult) {
    Apart(k, c, s) && (s.Halt? ==> Ended(s.status))
  }

  method TakeTrail(k: Call, r: Regs, ghost e: Env) returns (halt: bool, status: Status, r': Regs)
    requires InBounds(k, r) && EnvOf(k, e) && TrailBack(k.b.v) <= r.ip
    requires k.src != k.dst || r.op + 2 <= r.ip ==> Unread(e, k.src, r.ip - TrailBack(k.b.v))
    requires k.b.safe || ((k.src != k.dst || r.op + 2 <= r.ip) && Trail(e, r.ip, r.last, CfgOf(k, r).ctx.out).Go?)
    modifies k.dst
    ensures InBounds(k, r') && r.op <= r'.op && r.ip <= r'.ip
    ensures forall i {:trigger k.dst[i]} | 0 <= i < k.dst.Length && !(r.op <= i < r'.op) :: k.dst[i] == old(k.dst[i])
    ensures k.src != k.dst || r.op + 2 <= r.ip ==>
              Agrees(k, Trail(e, r.ip, r.last, old(CfgOf(k, r)).ctx.out), halt, status, r')
  {
    var low := k.src[r.ip - TrailBack(k.b.v)] % 4;
    if low == 0 {
      halt, status, r' := false, OK, r.(st := Fresh);
    } else {
      halt, status, r' := TakeLiterals(k, r.(st := AfterTrail), low, false, e);
    }
  }

  /** What a copy of the output buffer onto itself appends. */
  lemma StaleBytes(k: Call, op: nat, len: nat, e: Env)
    requires k.d <= op && op + len <= k.opEnd <= k.dst.Length && EnvOf(k, e) && Unwritten(k, e, op)
    ensures var w := Window(k.dict, k.dst, k.d, op);
            Window(k.dict, k.dst, k.d, op + len) == w + e.room[|w|..|w| + len]
  {
    var n := |k.dict| + (op - k.d);
    var a, b := k.dst[k.d..op], k.dst[op..op + len];
    assert b == e.room[n..n + len] by {
      assert forall i | 0 <= i < len :: b[i] == k.dst[op + i];
    }
    assert k.dst[k.d..op + len] == a + b;
    assert k.dict + (a + b) == k.dict + a + b;
  }

  /** The copy and the literals behind it, once the output is known to be large enough. */
  method TakeCopy(k: Call, r: Regs, h: Head, ghost e: Env) returns (halt: bool, status: Status, r': Regs)
    requires InBounds(k, r) && EnvOf(k, e) && Unread(e, k.src, r.ip) && Unwritten(k, e, r.op)
    requires h.Copy? && r.ip + TrailBack(k.b.v) <= h.ip <= k.end && 2 <= h.len
    requires r.op + h.len <= k.opEnd && (!k.b.dict ==> 1 <= h.off <= r.op - k.d)
    requires k.b.safe ||
             (h.off <= |CfgOf(k, r).ctx.out| &&
              (k.src != k.dst || r.op + h.len + 2 <= h.ip) &&
              Trail(e, h.ip, h.off, Copied(e, CfgOf(k, r).ctx.out, h.off, h.len)).Go?)
    modifies k.dst
    ensures InBounds(k, r') && r.op <= r'.op && (!halt ==> r.ip < r'.ip)
    ensures forall i {:trigger k.dst[i]} | 0 <= i < k.dst.Length && !(r.op <= i < r'.op) :: k.dst[i] == old(k.dst[i])
    ensures var w := old(CfgOf(k, r)).ctx.out;
            if h.off > |w| then Agrees(k, Halt(LookbehindOverrun, w), halt, status, r')
            else k.src != k.dst || r.op + h.len + 2 <= h.ip ==>
              Agrees(k, Trail(e, h.ip, h.off, Copied(e, w, h.off, h.len)), halt, status, r')
  {
    hide Trail, Unwritten, CopyMatch;
    ghost var w := CfgOf(k, r).ctx.out;
    StaleBytes(k, r.op, h.len, e);
    var ok := CopyFrom(k.b, k.dict, k.dst, k.d, r.op, h.off, h.len, h.kind.M3? || h.kind.M4?);
    if !ok {
      return true, LookbehindOverrun, r.(st := Fresh);
    }
    halt, status, r' := TakeTrail(k, Regs(h.ip, r.op + h.len, Fresh, h.off), e);
  }

  method TakeMatch(k: Call, r: Regs, ghost e: Env) returns (halt: bool, status: Status, r': Regs)
    requires InBounds(k, r) && r.ip + 3 <= k.end && EnvOf(k, e) && Unread(e, k.src, r.ip) && Unwritten(k, e, r.op)
    requires k.b.safe || Trusted(k, CfgOf(k, r), StepMatch(e, CfgOf(k, r)))
    modifies k.dst
    ensures InBounds(k, r') && r.op <= r'.op && (!halt ==> r.ip < r'.ip)
    ensures forall i {:trigger k.dst[i]} | 0 <= i < k.dst.Length && !(r.op <= i < r'.op) :: k.dst[i] == old(k.dst[i])
    ensures var c := old(CfgOf(k, r));
            Apart(k, c, StepMatch(e, c)) ==> Agrees(k, StepMatch(e, c), halt, status, r')
  {
    hide ReadHead, Trail, Unwritten;
    ghost var c := CfgOf(k, r);
    var fail := r.(st := Fresh);
    var h := ReadMatch(k.b, k.src, r.ip, k.end, r.st, r.last, e, c);
    if h.Bad? {
      return true, h.status, fail;
    }
    if h.Eof? {
      return true, if h.ip == k.end then OK else InputNotConsumed, fail;
    }
    if k.b.safe && !k.b.dict && !(1 <= h.off <= r.op - k.d) {
      return true, LookbehindOverrun, fail;
    }
    if k.b.safe && k.opEnd - r.op < h.len {
      return true, OutputOverrun, fail;
    }
    halt, status, r' := TakeCopy(k, r, h, e);
  }

  method TakeRun(k: Call, r: Regs, ghost e: Env) returns (halt: bool, status: Status, r': Regs)
    requires InBounds(k, r) && r.ip + 3 <= k.end && EnvOf(k, e) && Unread(e, k.src, r.ip)
    requires k.b.safe || Trusted(k, CfgOf(k, r), StepRun(e, CfgOf(k, r)))
    modifies k.dst
    ensures InBounds(k, r') && r.op <= r'.op && (!halt ==> r.ip < r'.ip)
    ensures forall i {:trigger k.dst[i]} | 0 <= i < k.dst.Length && !(r.op <= i < r'.op) :: k.dst[i] == old(k.dst[i])
    ensures var c := old(CfgOf(k, r));
            Apart(k, c, StepRun(e, c)) ==> Agrees(k, StepRun(e, c), halt, status, r')
  {
    hide ReadLen;
    var len := ReadLength(k.b, k.src, r.ip + 1, k.end, k.src[r.ip], 15, e);
    if !len.LenOK? {
      return true, InputOverrun, r.(st := Fresh);
    }
    halt, status, r' := TakeLiterals(k, r.(ip := len.ip, st := AfterRun), len.n + 3, true, e);
  }

  method TakeStep(k: Call, r: Regs, ghost e: Env) returns (halt: bool, status: Status, r': Regs)
    requires InBounds(k, r) && EnvOf(k, e) && Unread(e, k.src, r.ip) && Unwritten(k, e, r.op)
    requires k.b.safe || Trusted(k, CfgOf(k, r), Step(e, CfgOf(k, r)))
    modifies k.dst
    ensures InBounds(k, r') && r.op <= r'.op && (!halt ==> r.ip < r'.ip)
    ensures forall i {:trigger k.dst[i]} | 0 <= i < k.dst.Length && !(r.op <= i < r'.op) :: k.dst[i] == old(k.dst[i])
    ensures var c := old(CfgOf(k, r));
            Apart(k, c, Step(e, c)) ==> Agrees(k, Step(e, c), halt, status, r')
  {
    hide StepMatch, StepRun, Unwritten;
    if r.st.Start? {
      if k.b.safe && k.end - r.ip < 1 {
        return true, InputOverrun, r.(st := Fresh);
      }
      if k.src[r.ip] > 17 {
        var n := k.src[r.ip] - 17;
        var r1 := r.(ip := r.ip + 1, st := if n < 4 then AfterTrail else AfterRun);
        halt, status, r' := TakeLiterals(k, r1, n, false, e);
        return;
      }
    }
    if k.b.safe && k.end - r.ip < 3 {
      return true, InputOverrun, r.(st := Fresh);
    }
    if k.src[r.ip] < 16 && (r.st.Start? || r.st.Fresh?) {
      halt, status, r' := TakeRun(k, r, e);
    } else {
      halt, status, r' := TakeMatch(k, r, e);
    }
  }

  // ----- the whole run -----

  /** Every step from `c` on is clear: decompression in place never overwrites unread input. */
  ghost predicate ClearRun(low: int, e: Env, c: Cfg)
    requires Valid(e) && c.ip <= e.end
    decreases e.end - c.ip
  {
    Clear(low, c, Step(e, c)) && (Step(e, c).Go? ==> ClearRun(low, e, Step(e, c).cfg))
  }

  /** What the arrays hold at the time of the call. */
  ghost function EnvFor(k: Call): Env
    requires k.d <= k.opEnd <= k.dst.Length
    reads k.src, k.dst
  {
    Env(k.b.v, k.b.word, k.b.dict, k.src[..], k.end, Window(k.dict, k.dst, k.d, k.opEnd))
  }

  function Begin(k: Call, s: nat): Cfg {
    Cfg(s, Ctx(Start, 0, k.dict))
  }

  predicate CallOK(k: Call, s: nat) {
    && s <= k.end <= k.src.Length && k.d <= k.opEnd <= k.dst.Length && 0x1_0000 <= k.b.word
    && (!k.b.dict ==> k.dict == [])
  }

  lemma OneStep(low: int, e: Env, c: Cfg)
    requires Valid(e) && c.ip <= e.end
    ensures Decode(e, c) == match Step(e, c) case Halt(status, out) => Result(status, out) case Go(c') => Decode(e, c')
    ensures ClearRun(low, e, c) ==> Clear(low, c, Step(e, c)) && (Step(e, c).Go? ==> ClearRun(low, e, Step(e, c).cfg))
    ensures Ended(Decode(e, c).status) && Step(e, c).Halt? ==> Ended(Step(e, c).status)
  {
    hide Step, Clear;
  }

  lemma UnwrittenYet(k: Call, e: Env, op: nat, was: seq<byte>)
    requires k.d <= op <= k.opEnd <= k.dst.Length == |was| && EnvOf(k, e) && e.room == k.dict + was[k.d..k.opEnd]
    requires forall i {:trigger k.dst[i]} | op <= i < k.dst.Length :: k.dst[i] == was[i]
    ensures Unwritten(k, e, op)
  {
  }

  /** Two arrays, or one in which the whole run from `c` is clear. */
  ghost predicate ApartRun(k: Call, e: Env, c: Cfg)
    requires Valid(e) && c.ip <= e.end
  {
    k.src != k.dst || ClearRun(Low(k), e, c)
  }

  /** One step of a run: its result is the run's, or the run goes on. */
  method TakeNext(k: Call, r: Regs, ghost e: Env) returns (halt: bool, status: Status, r': Regs)
    requires InBounds(k, r) && EnvOf(k, e) && Unread(e, k.src, r.ip) && Unwritten(k, e, r.op)
    requires k.b.safe || (Ended(Decode(e, CfgOf(k, r)).status) && ApartRun(k, e, CfgOf(k, r)))
    modifies k.dst
    ensures InBounds(k, r') && r.op <= r'.op && (!halt ==> r.ip < r'.ip)
    ensures forall i {:trigger k.dst[i]} | 0 <= i < k.dst.Length && !(r.op <= i < r'.op) :: k.dst[i] == old(k.dst[i])
    ensures var c := old(CfgOf(k, r));
            var d := Decode(e, c);
            ApartRun(k, e, c) ==>
              if halt then d == Result(status, CfgOf(k, r').ctx.out)
              else Unread(e, k.src, r'.ip) && Decode(e, CfgOf(k, r')) == d && ApartRun(k, e, CfgOf(k, r'))
  {
    hide Step, Decode, ClearRun, Unwritten;
    ghost var c := CfgOf(k, r);
    OneStep(Low(k), e, c);
    halt, status, r' := TakeStep(k, r, e);
    if ApartRun(k, e, c) && !halt && k.src == k.dst {
      assert r'.op + 2 <= r'.ip;
    }
  }

  /** lzo1x_decompress, lzo1x_decompress_safe and lzo1x_decompress_dict_safe, and their LZO1Y and LZO1Z
      forms. Any input is decoded within the arrays; the result is the decoder's when the arrays are
      distinct or no step of the run reaches unread input. */
  method DecompressAll(k: Call, s: nat) returns (status: Status, outLen: nat)
    requires CallOK(k, s)
    requires k.b.safe || (Ended(Decode(EnvFor(k), Begin(k, s)).status) && ApartRun(k, EnvFor(k), Begin(k, s)))
    modifies k.dst
    ensures k.d + outLen <= k.opEnd
    ensures forall i {:trigger k.dst[i]} | 0 <= i < k.dst.Length && !(k.d <= i < k.d + outLen) ::
              k.dst[i] == old(k.dst[i])
    ensures var e := old(EnvFor(k));
            ApartRun(k, e, Begin(k, s)) ==>
              Decode(e, Begin(k, s)) == Result(status, k.dict + k.dst[k.d..k.d + outLen])
  {
    hide Decode, ApartRun, Unwritten, Unread;
    ghost var e := EnvFor(k);
    ghost var c0 := Begin(k, s);
    ghost var good := ApartRun(k, e, c0);
    var r := Regs(s, k.d, Start, 0);
    assert CfgOf(k, r) == c0 by {
      assert k.dict + k.dst[k.d..k.d] == k.dict;
    }
    var halt := false;
    status := OK;
    AsGiven(k, s, k.d);
    while !halt
      invariant InBounds(k, r)
      invariant forall i {:trigger k.dst[i]} | 0 <= i < k.dst.Length && !(k.d <= i < r.op) :: k.dst[i] == old(k.dst[i])
      invariant good && halt ==> Decode(e, c0) == Result(status, CfgOf(k, r).ctx.out)
      invariant good && !halt ==>
                  Unread(e, k.src, r.ip) && ApartRun(k, e, CfgOf(k, r)) && Decode(e, CfgOf(k, r)) == Decode(e, c0)
      decreases if halt then 0 else 1 + k.end - r.ip
    {
      ghost var e1 := e;
      if good {
        UnwrittenYet(k, e, r.op, old(k.dst[..]));
      } else {
        e1 := EnvFor(k);
        AsGiven(k, r.ip, r.op);
      }
      halt, status, r := TakeNext(k, r, e1);
    }
    outLen := r.op - k.d;
  }

  /** At the time of the call nothing has been read or written. */
  lemma AsGiven(k: Call, ip: nat, op: nat)
    requires CallOK(k, ip) && k.d <= op <= k.opEnd
    ensures EnvOf(k, EnvFor(k)) && Unread(EnvFor(k), k.src, ip) && Unwritten(k, EnvFor(k), op)
  {
  }
}
