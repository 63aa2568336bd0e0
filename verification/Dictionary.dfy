/** Preset dictionaries: decoding over a window that begins with the dictionary, of which only the
    last M4_MAX_OFFSET bytes can matter. */
module Dictionary {
  import opened Bytes
  import opened Format
  import opened Decoder
  import opened Grammar
  import opened Expansion
  import opened Emission
  import opened Decompress
  import opened Theorems
  import opened Locality
  import opened Repeat
  import opened Writing
  import Lzo999

  // ----- a trimmed dictionary -----

  lemma CopyDropped(w: seq<byte>, k: nat, off: nat, len: nat)
    requires k <= |w| && 1 <= off <= |w| - k
    ensures CopyMatch(w, off, len)[k..] == CopyMatch(w[k..], off, len)
  {
    var r := CopyMatch(w, off, len);
    assert r[k..][..|w| - k] == r[..|w|][k..];
    forall i | |w| - k <= i < |r| - k ensures r[k..][i] == r[k..][i - off] {
      CopyRepeats(w, off, len, i + k);
    }
    CopyUnique(w[k..], off, len, r[k..]);
  }

  /** `c'` is `c` without the first `k` bytes of the window, and enough of it is left. */
  ghost predicate Dropped(c: Ctx, k: nat, c': Ctx) {
    && k + M4_MAX_OFFSET <= |c.out|
    && c' == c.(out := c.out[k..])
    && c.last <= M4_MAX_OFFSET
  }

  ghost predicate DroppedStep(s: StepResult, k: nat, s': StepResult) {
    match s
    case Halt(status, out) => k <= |out| && s' == Halt(status, out[k..])
    case Go(c) => s'.Go? && s'.cfg.ip == c.ip && Dropped(c.ctx, k, s'.cfg.ctx)
  }

  lemma DroppedLits(e: Env, ip: nat, n: nat, c: Ctx, k: nat, c': Ctx)
    requires Valid(e) && ip <= e.end && k <= |e.room| && Dropped(c, k, c')
    ensures DroppedStep(TakeLits(e, ip, n, c), k, TakeLits(e.(room := e.room[k..]), ip, n, c'))
  {
    if |e.room| - |c.out| >= n && e.end - ip >= n + 3 {
      var lits := e.input[ip..ip + n];
      assert (c.out + lits)[k..] == c.out[k..] + lits;
    }
  }

  lemma HeadNear(e: Env, c: Cfg)
    requires Valid(e) && c.ip + 3 <= e.end && c.ctx.last <= M4_MAX_OFFSET && ReadHead(e, c).Copy?
    ensures ReadHead(e, c).off <= M4_MAX_OFFSET
  {
    hide ReadLongLen;
  }

  lemma DroppedCopy(e: Env, w: seq<byte>, off: nat, len: nat, k: nat)
    requires k <= |w| && off + k <= |w| && |w| + len <= |e.room|
    ensures Copied(e, w, off, len)[k..] == Copied(e.(room := e.room[k..]), w[k..], off, len)
  {
    if off == 0 {
      var n := |w|;
      assert e.room[k..][n - k..n - k + len] == e.room[n..n + len];
      assert (w + e.room[n..n + len])[k..] == w[k..] + e.room[n..n + len];
    } else {
      CopyDropped(w, k, off, len);
    }
  }

  lemma DroppedTrail(e: Env, ip: nat, off: nat, out: seq<byte>, k: nat)
    requires Valid(e) && TrailBack(e.v) <= ip <= e.end
    requires k + M4_MAX_OFFSET <= |out| && k <= |e.room| && off <= M4_MAX_OFFSET
    ensures DroppedStep(Trail(e, ip, off, out), k, Trail(e.(room := e.room[k..]), ip, off, out[k..]))
  {
    hide TakeLits;
    var low := e.input[ip - TrailBack(e.v)] % 4;
    DroppedLits(e, ip, low, Ctx(AfterTrail, off, out), k, Ctx(AfterTrail, off, out[k..]));
  }

  lemma DroppedMatch(e: Env, c: Cfg, k: nat, c': Cfg)
    requires Valid(e) && c.ip + 3 <= e.end && k <= |e.room| && c'.ip == c.ip && Dropped(c.ctx, k, c'.ctx)
    ensures DroppedStep(StepMatch(e, c), k, StepMatch(e.(room := e.room[k..]), c'))
  {
    hide Trail, ReadHead, Copied;
    var e' := e.(room := e.room[k..]);
    var h := ReadHead(e, c);
    SameHead(e, e', c, c');
    if h.Copy? {
      HeadNear(e, c);
      assert CopyTest(e', h.len, h.off, |c'.ctx.out|) == CopyTest(e, h.len, h.off, |c.ctx.out|);
      if CopyTest(e, h.len, h.off, |c.ctx.out|).OK? {
        DroppedCopy(e, c.ctx.out, h.off, h.len, k);
        DroppedTrail(e, h.ip, h.off, Copied(e, c.ctx.out, h.off, h.len), k);
      }
    }
  }

  lemma DroppedOne(e: Env, c: Cfg, k: nat, c': Cfg)
    requires Valid(e) && c.ip <= e.end && k <= |e.room| && c'.ip == c.ip && Dropped(c.ctx, k, c'.ctx)
    ensures DroppedStep(Step(e, c), k, Step(e.(room := e.room[k..]), c'))
  {
    hide TakeLits, ReadLen, StepMatch, DroppedStep;
    var e' := e.(room := e.room[k..]);
    if c.ctx.st.Start? && c.ip < e.end && e.input[c.ip] > 17 {
      var n := e.input[c.ip] - 17;
      var st := if n < 4 then AfterTrail else AfterRun;
      DroppedLits(e, c.ip + 1, n, c.ctx.(st := st), k, c'.ctx.(st := st));
    } else if e.end - c.ip < 3 {
      HaltDropped(InputOverrun, c.ctx.out, k);
    } else if e.input[c.ip] < 16 && (c.ctx.st.Start? || c.ctx.st.Fresh?) {
      SameExt(e, e', c.ip);
      var r := ReadLen(e, c.ip + 1, e.input[c.ip], 15);
      if r.LenOK? {
        DroppedLits(e, r.ip, r.n + 3, c.ctx.(st := AfterRun), k, c'.ctx.(st := AfterRun));
      } else {
        HaltDropped(InputOverrun, c.ctx.out, k);
      }
    } else {
      DroppedMatch(e, c, k, c');
    }
  }

  lemma HaltDropped(s: Status, out: seq<byte>, k: nat)
    requires k <= |out|
    ensures DroppedStep(Halt(s, out), k, Halt(s, out[k..]))
  {
  }

  /** Any run ends the same way when the oldest bytes of the window are dropped, as long as
      M4_MAX_OFFSET are left. */
  lemma {:induction false} DroppedRun(e: Env, c: Cfg, k: nat, c': Cfg)
    requires Valid(e) && c.ip <= e.end && k <= |e.room| && c'.ip == c.ip && Dropped(c.ctx, k, c'.ctx)
    ensures var r := Decode(e, c);
            k <= |r.out| && Decode(e.(room := e.room[k..]), c') == Result(r.status, r.out[k..])
    decreases e.end - c.ip
  {
    hide Step;
    DroppedOne(e, c, k, c');
    if Step(e, c).Go? {
      DroppedRun(e, Step(e, c).cfg, k, Step(e.(room := e.room[k..]), c').cfg);
    }
  }

  /** Trimming the dictionary changes neither the status nor the output. */
  lemma TrimInvisible(e: Env, ip: nat, dict: seq<byte>)
    requires Valid(e) && ip <= e.end && |dict| <= |e.room|
    ensures var k := |dict| - |TrimDict(dict)|;
            var r := Decode(e.(room := e.room[k..]), Cfg(ip, Ctx(Start, 0, TrimDict(dict))));
            Decode(e, Cfg(ip, Ctx(Start, 0, dict))) == Result(r.status, dict[..k] + r.out)
  {
    hide Decode;
    if |dict| <= M4_MAX_OFFSET {
      assert e.(room := e.room[0..]) == e;
      assert dict[..0] + Decode(e, Cfg(ip, Ctx(Start, 0, dict))).out == Decode(e, Cfg(ip, Ctx(Start, 0, dict))).out;
    } else {
      var k := |dict| - M4_MAX_OFFSET;
      assert TrimDict(dict) == dict[k..] && |dict| - |TrimDict(dict)| == k;
      DropInvisible(e, ip, dict, k);
    }
  }

  lemma DropInvisible(e: Env, ip: nat, dict: seq<byte>, k: nat)
    requires Valid(e) && ip <= e.end && |dict| <= |e.room| && k + M4_MAX_OFFSET <= |dict|
    ensures var r := Decode(e.(room := e.room[k..]), Cfg(ip, Ctx(Start, 0, dict[k..])));
            Decode(e, Cfg(ip, Ctx(Start, 0, dict))) == Result(r.status, dict[..k] + r.out)
  {
    hide Decode;
    var c := Cfg(ip, Ctx(Start, 0, dict));
    Kept(e, c);
    DroppedRun(e, c, k, Cfg(ip, Ctx(Start, 0, dict[k..])));
    var out := Decode(e, c).out;
    assert out[..k] == out[..|dict|][..k];
    assert out == out[..k] + out[k..];
  }

  /** A run keeps the window it began with. */
  lemma {:induction false} Kept(e: Env, c: Cfg)
    requires Valid(e) && c.ip <= e.end
    ensures |c.ctx.out| <= |Decode(e, c).out| && Decode(e, c).out[..|c.ctx.out|] == c.ctx.out
    decreases e.end - c.ip
  {
    hide Step;
    KeptStep(e, c);
    if Step(e, c).Go? {
      var c' := Step(e, c).cfg;
      Kept(e, c');
      assert c.ctx.out == c'.ctx.out[..|c.ctx.out|];
    }
  }

  lemma KeptStep(e: Env, c: Cfg)
    requires Valid(e) && c.ip <= e.end
    ensures var out := match Step(e, c) case Halt(_, w) => w case Go(c') => c'.ctx.out;
            |c.ctx.out| <= |out| && out[..|c.ctx.out|] == c.ctx.out
  {
    hide ReadHead, ReadLen;
  }

  // ----- the dictionary build -----

  lemma TrimSplit(dict: seq<byte>)
    ensures dict[..|dict| - |TrimDict(dict)|] + TrimDict(dict) == dict
  {
  }

  /** What a compressor made with a dictionary decodes with it. */
  lemma DictRoundTrip(e: Env, ip: nat, dict: seq<byte>, bs: seq<byte>, s: seq<byte>, slack: nat)
    requires Encodes(e.v, e.word, Ctx(Start, 0, TrimDict(dict)), bs, TrimDict(dict) + s, slack)
    requires Spans(e, ip, e.end, bs) && |dict| + |s| <= |e.room|
    ensures Decode(e, Cfg(ip, Ctx(Start, 0, dict))) == Result(OK, dict + s)
  {
    hide Decode, Encodes;
    var k := |dict| - |TrimDict(dict)|;
    var e' := e.(room := e.room[k..]);
    assert Spans(e', ip, e'.end, bs);
    RoundTrip(e', Cfg(ip, Ctx(Start, 0, TrimDict(dict))), bs, TrimDict(dict) + s, slack);
    TrimInvisible(e, ip, dict);
    TrimSplit(dict);
    assert dict[..k] + (TrimDict(dict) + s) == dict + s;
  }

  /** The next step is a match that reaches back too far and does not fit either: each build reports the
      overrun for which it tests first. */
  predicate BothFail(e: Env, c: Cfg)
    requires Valid(e)
  {
    && AtMatch(e, c) && ReadHead(e, c).Copy?
    && (ReadHead(e, c).off == 0 || ReadHead(e, c).off > |c.ctx.out|)
    && |e.room| < |c.ctx.out| + ReadHead(e, c).len
  }

  /** So is some step of the run from `c`. */
  predicate Tears(e: Env, c: Cfg)
    requires Valid(e) && c.ip <= e.end
    decreases e.end - c.ip
  {
    BothFail(e, c) || (Step(e, c).Go? && Tears(e, Step(e, c).cfg))
  }

  /** What the two builds give: the same, but for a run that copies the output buffer onto itself, which the
      ordinary build refuses, and for one whose last match fails both tests. */
  ghost predicate Tells(r: Result, r': Result, skips: bool, tears: bool) {
    if skips then r.status.LookbehindOverrun? && |r.out| < |r'.out|
    else if tears then r.status.LookbehindOverrun? && r'.status.OutputOverrun? && r.out == r'.out
    else r == r'
  }

  /** The dictionary build tests the output before the look-behind, the ordinary one the other way round.
      Over one window they give one result exactly when no step copies the output buffer onto itself and
      none fails both tests. */
  lemma {:induction false} SameButOverruns(e: Env, c: Cfg)
    requires Valid(e) && c.ip <= e.end && !e.dict
    ensures var r, r' := Decode(e, c), Decode(e.(dict := true), c);
            && Tells(r, r', Skips(e.(dict := true), c), Tears(e, c))
            && (r == r' <==> !Skips(e.(dict := true), c) && !Tears(e, c))
    decreases e.end - c.ip
  {
    hide Step, BothFail;
    var e' := e.(dict := true);
    if ZeroCopy(e', c) {
      SkipStep(e, c);
      if Step(e', c).Go? {
        Kept(e', Step(e', c).cfg);
      }
    } else {
      TearStep(e, c);
      if Step(e, c).Go? {
        SameButOverruns(e, Step(e, c).cfg);
      }
    }
  }

  lemma SkipStep(e: Env, c: Cfg)
    requires Valid(e) && c.ip <= e.end && !e.dict && ZeroCopy(e.(dict := true), c)
    ensures Step(e, c) == Halt(LookbehindOverrun, c.ctx.out)
    ensures var s' := Step(e.(dict := true), c); |c.ctx.out| < if s'.Go? then |s'.cfg.ctx.out| else |s'.out|
  {
    hide ReadHead;
    var e' := e.(dict := true);
    ZeroCopyExact(e', c);
    SameHead(e, e', c, c);
  }

  lemma TearStep(e: Env, c: Cfg)
    requires Valid(e) && c.ip <= e.end && !e.dict && !ZeroCopy(e.(dict := true), c)
    ensures Step(e, c) == Step(e.(dict := true), c) <==> !BothFail(e, c)
    ensures BothFail(e, c) ==>
              && Step(e, c) == Halt(LookbehindOverrun, c.ctx.out)
              && Step(e.(dict := true), c) == Halt(OutputOverrun, c.ctx.out)
  {
    hide StepMatch, ReadLen, ReadHead;
    SameExt(e, e.(dict := true), c.ip);
    if AtMatch(e, c) {
      TearMatch(e, c);
    }
  }

  lemma TearMatch(e: Env, c: Cfg)
    requires Valid(e) && AtMatch(e, c) && !e.dict && !ZeroCopy(e.(dict := true), c)
    ensures StepMatch(e, c) == StepMatch(e.(dict := true), c) <==> !BothFail(e, c)
    ensures BothFail(e, c) ==>
              && StepMatch(e, c) == Halt(LookbehindOverrun, c.ctx.out)
              && StepMatch(e.(dict := true), c) == Halt(OutputOverrun, c.ctx.out)
  {
    hide ReadHead;
    SameHead(e, e.(dict := true), c, c);
    ZeroCopyExact(e.(dict := true), c);
  }

  /** Seven bytes on which they differ: one literal, a match nine back that a room of two does not hold. */
  lemma TearsReached(e: Env)
    requires e.v.LZO1X? && Valid(e) && e.input == [18, 0, 64, 1, 17, 0, 0] && e.end == 7 && |e.room| == 2 && !e.dict
    ensures Decode(e, Cfg(0, Ctx(Start, 0, []))) == Result(LookbehindOverrun, [0])
    ensures Decode(e.(dict := true), Cfg(0, Ctx(Start, 0, []))) == Result(OutputOverrun, [0])
  {
    var c, c' := Cfg(0, Ctx(Start, 0, [])), Cfg(2, Ctx(AfterTrail, 0, [0]));
    assert [] + e.input[1..2] == [0];
    assert Step(e, c) == Go(c') && Step(e.(dict := true), c) == Go(c');
    assert ReadHead(e, c') == Copy(M2, 3, 9, 4);
    TearStep(e, c');
  }

  /** No input byte gives more than this many output bytes. */
  const MOST: nat := 255

  lemma {:induction false} ExtGrows(e: Env, ip: nat, t: nat)
    requires Valid(e) && ip < e.end && ReadExt(e, ip, t).LenOK?
    ensures ReadExt(e, ip, t).n <= t + MOST * (ReadExt(e, ip, t).ip - ip)
    decreases e.end - ip
  {
    if e.input[ip] == 0 {
      ExtGrows(e, ip + 1, t + 255);
    }
  }

  lemma HeadGrows(e: Env, c: Cfg)
    requires Valid(e) && c.ip + 3 <= e.end && ReadHead(e, c).Copy?
    ensures ReadHead(e, c).len <= MOST * (ReadHead(e, c).ip - c.ip)
  {
    hide ReadOff, ReadExt;
    if ReadExt(e, c.ip + 1, 0).LenOK? {
      ExtGrows(e, c.ip + 1, 0);
    }
  }

  lemma StepGrowth(e: Env, c: Cfg)
    requires Valid(e) && c.ip <= e.end && Step(e, c).Go?
    ensures var c' := Step(e, c).cfg; |c'.ctx.out| - |c.ctx.out| <= MOST * (c'.ip - c.ip)
  {
    hide ReadHead, ReadExt;
    if c.ip + 3 <= e.end {
      if ReadExt(e, c.ip + 1, 0).LenOK? {
        ExtGrows(e, c.ip + 1, 0);
      }
      if ReadHead(e, c).Copy? {
        HeadGrows(e, c);
      }
    }
  }

  /** In a buffer with room for anything that the input can give, the look-behind is all that can fail. */
  lemma {:induction false} RoomyNeverTears(e: Env, c: Cfg)
    requires Valid(e) && c.ip <= e.end && |c.ctx.out| + MOST * (e.end - c.ip) <= |e.room|
    ensures !Tears(e, c)
    decreases e.end - c.ip
  {
    hide Step, ReadHead;
    if AtMatch(e, c) && ReadHead(e, c).Copy? {
      HeadGrows(e, c);
    }
    if Step(e, c).Go? {
      StepGrowth(e, c);
      RoomyNeverTears(e, Step(e, c).cfg);
    }
  }

  /** lzo1x_decompress_dict_safe, and lzo1y and lzo1z: the dictionary is trimmed; the outcome is that of
      the ordinary decoder over a window that begins with the whole dictionary, but on the LZO1Z inputs
      that repeat an offset before there is one, and but for which of two overruns is reported where both
      tests fail. */
  method DecompressDict(k: Call, s: nat) returns (status: Status, outLen: nat)
    requires CallOK(k, s) && k.b.dict && k.b.safe && k.src != k.dst
    modifies k.dst
    ensures k.d + outLen <= k.opEnd
    ensures var e := old(EnvFor(k));
            var r := Result(status, k.dict + k.dst[k.d..k.d + outLen]);
            var r0, skips, tears := Decode(e.(dict := false), Begin(k, s)), e.v.LZO1Z? && RepeatsFirst(e, s, |k.dict|),
                                    Tears(e.(dict := false), Begin(k, s));
            && Decode(e, Begin(k, s)) == r && Tells(r0, r, skips, tears) && (r0 == r <==> !skips && !tears)
            && (MOST * (k.end - s) <= k.opEnd - k.d ==> !tears)
    ensures forall i {:trigger k.dst[i]} | 0 <= i < k.dst.Length && !(k.d <= i < k.d + outLen) ::
              k.dst[i] == old(k.dst[i])
  {
    hide Decode, Tells, Tears, Skips, RepeatsFirst;
    ghost var e := EnvFor(k);
    ghost var n := |k.dict| - |TrimDict(k.dict)|;
    TrimSplit(k.dict);
    assert EnvFor(k.(dict := TrimDict(k.dict))) == e.(room := e.room[n..]);
    status, outLen := DecompressAll(k.(dict := TrimDict(k.dict)), s);
    TrimInvisible(e, s, k.dict);
    assert k.dict[..n] + (TrimDict(k.dict) + k.dst[k.d..k.d + outLen]) == k.dict + k.dst[k.d..k.d + outLen];
    assert e.(dict := false).(dict := true) == e;
    SameButOverruns(e.(dict := false), Begin(k, s));
    if MOST * (k.end - s) <= k.opEnd - k.d {
      RoomyNeverTears(e.(dict := false), Begin(k, s));
    }
    SkipsExactly(e, s, k.dict);
  }

  /** Compressing with a dictionary and decompressing with it: lzo1x_999_compress_level and
      lzo1x_decompress_dict_safe, lzo1y and lzo1z. Every input comes back at every level, whatever the
      match finder, the dictionary, and the buffer's contents before the call. */
  method RoundTrip999(b: Build, dict: seq<byte>, input: seq<byte>, find: nat -> Lzo999.Offer, level: int,
                      dst: array<byte>)
    returns (ok: bool, status: Status, outLen: nat)
    requires b.safe && b.dict && 0x1_0000 <= b.word && |input| + 511 <= b.word
    requires Lzo999.FinderOK(TrimDict(dict), input, find) && |input| <= dst.Length
    modifies dst
    ensures ok <==> 1 <= level <= 9
    ensures ok ==> status.OK? && outLen == |input| && dst[..outLen] == input
  {
    hide Decode, Encodes, Tells, Lzo999.FinderOK, TrimDict, Lzo999.Compressed, Lzo999.SetupFor;
    var buf := new byte[|input| + |input| / 16 + 5];
    var n;
    ok, n := Lzo999.CompressLevel(b.v, b.word, dict, input, find, level, buf);
    status, outLen := OK, 0;
    if !ok {
      return;
    }
    var src := new byte[n];
    var _ := PutBytes(src, 0, 0, buf[..n], 0, n);
    AsWritten(src, n);
    var k := Call(b, src, n, dst, 0, dst.Length, dict);
    ghost var e := EnvFor(k);
    assert e.input[0..0 + n] == buf[..n];
    DictRoundTrip(e, 0, dict, buf[..n], input, RUN_SLACK);
    status, outLen := DecompressDict(k, 0);
    assert dst[0..outLen] == (dict + dst[0..outLen])[|dict|..] == (dict + input)[|dict|..] == input;
  }
}
