/** The bytes of lengths, matches and end markers, and what the decoder reads them as, in both directions. */
module Grammar {
  import opened Bytes
  import opened Format
  import opened Decoder
  import opened Fields

  /** The bytes `bs` lie at `ip` in the input, before its end. */
  ghost predicate At(e: Env, ip: nat, bs: seq<byte>) {
    Valid(e) && ip + |bs| <= e.end && LiesAt(e.input, ip, bs)
  }

  lemma AtSplit(e: Env, ip: nat, a: seq<byte>, b: seq<byte>)
    ensures At(e, ip, a + b) <==> At(e, ip, a) && At(e, ip + |a|, b)
  {
    LiesSplit(e.input, ip, a, b);
  }

  // ----- lengths -----

  lemma {:induction false} ReadExtAt(e: Env, ip: nat, n: nat, t: nat)
    requires n >= 1 && At(e, ip, Ext(n))
    requires |Ext(n)| > 1 ==> 255 * (|Ext(n)| - 1) + t + 511 <= e.word
    ensures ReadExt(e, ip, t) == LenOK(t + n, ip + |Ext(n)|)
    decreases n
  {
    var s := e.input[ip..ip + |Ext(n)|];
    assert s[0] == e.input[ip];
    if n > 255 {
      AtSplit(e, ip, [0], Ext(n - 255));
      ReadExtAt(e, ip + 1, n - 255, t + 255);
    }
  }

  lemma {:induction false} ReadExtInverse(e: Env, ip: nat, t: nat)
    requires Valid(e) && ip < e.end && ReadExt(e, ip, t).LenOK?
    ensures var r := ReadExt(e, ip, t);
            var n := r.n - t;
            && n >= 1 && At(e, ip, Ext(n)) && r.ip == ip + |Ext(n)|
            && (|Ext(n)| > 1 ==> 255 * (|Ext(n)| - 1) + t + 511 <= e.word)
    decreases e.end - ip
  {
    AtOne(e, ip);
    if e.input[ip] == 0 {
      ReadExtInverse(e, ip + 1, t + 255);
      var n := ReadExt(e, ip, t).n - t;
      AtSplit(e, ip, [0], Ext(n - 255));
    }
  }

  lemma ReadLenAt(e: Env, ip: nat, marker: byte, n: nat, max: nat)
    requires n >= 1 && marker + max < 256 && At(e, ip, LenBytes(marker, n, max)) && Fits(e.word, n, max)
    requires ip + 1 < e.end
    ensures e.input[ip] == marker + if n <= max then n else 0
    ensures ReadLen(e, ip + 1, if n <= max then n else 0, max) == LenOK(n, ip + |LenBytes(marker, n, max)|)
  {
    var bs := LenBytes(marker, n, max);
    assert e.input[ip..ip + |bs|][0] == e.input[ip];
    if n > max {
      AtSplit(e, ip, [marker], Ext(n - max));
      ReadExtAt(e, ip + 1, n - max, 0);
    }
  }

  lemma ReadLenInverse(e: Env, ip: nat, marker: byte, m: nat, max: nat)
    requires Valid(e) && ip + 1 < e.end && m <= max && marker + max < 256 && e.input[ip] == marker + m
    requires ReadLen(e, ip + 1, m, max).LenOK?
    ensures var r := ReadLen(e, ip + 1, m, max);
            At(e, ip, LenBytes(marker, r.n, max)) &&
            r.ip == ip + |LenBytes(marker, r.n, max)| && Fits(e.word, r.n, max) &&
            m == if r.n <= max then r.n else 0
  {
    hide At, Ext, ReadExt;
    AtOne(e, ip);
    if m == 0 {
      ReadExtInverse(e, ip + 1, 0);
      var n := ReadExt(e, ip + 1, 0).n;
      assert LenBytes(marker, n + max, max) == [marker] + Ext(n);
      AtSplit(e, ip, [marker], Ext(n));
    }
  }

  lemma AtOne(e: Env, ip: nat)
    requires Valid(e) && ip < e.end
    ensures At(e, ip, [e.input[ip]])
  {
  }

  // ----- matches -----

  /** Two bytes at `ip` are the two bytes there. */
  lemma AtTwo(e: Env, ip: nat, bs: seq<byte>)
    requires Valid(e) && |bs| == 2 && ip + 2 <= e.end
    ensures At(e, ip, bs) <==> bs == [e.input[ip], e.input[ip + 1]]
    ensures TrailByte(e.v, e.input[ip], e.input[ip + 1]) == e.input[ip + 2 - TrailBack(e.v)]
  {
    assert e.input[ip..ip + 2] == [e.input[ip], e.input[ip + 1]];
  }

  /** The bytes of a match, at least three bytes before the end, read back as that match. */
  ghost predicate ReadsAs(e: Env, h: Head, ip: nat, size: nat, kind: Kind, len: nat, off: nat, low: nat)
    requires Valid(e) && TrailBack(e.v) <= ip + size <= e.end
  {
    h == Copy(kind, len, off, ip + size) && e.input[ip + size - TrailBack(e.v)] % 4 == low
  }

  lemma M1At(e: Env, ip: nat, st: State, o: nat, low: nat)
    requires o < 0x400 && low < 4 && At(e, ip, M1Bytes(e.v, o, low))
    ensures e.input[ip] < 16
    ensures ReadsAs(e, ReadM1(e, e.input[ip], e.input[ip + 1], ip, st), ip, 2,
                    if st.AfterRun? then M1b else M1a, if st.AfterRun? then 3 else 2, 1 + M1Base(e.v, st) + o, low)
  {
    AtTwo(e, ip, M1Bytes(e.v, o, low));
    M1Back(e, o, low, ip, st);
  }

  lemma M2At(e: Env, ip: nat, len: nat, o: nat, low: nat, last: nat)
    requires 3 <= len <= M2MaxLen(e.v) && o < M2MaxOffset(e.v) && low < 4 && At(e, ip, M2Bytes(e.v, len, o, low))
    ensures e.input[ip] >= 64
    ensures ReadsAs(e, ReadM2(e, e.input[ip], e.input[ip + 1], ip, last), ip, 2, M2, len, 1 + o, low)
  {
    AtTwo(e, ip, M2Bytes(e.v, len, o, low));
    M2Back(e, len, o, low, ip, last);
  }

  /** The common part of M3, M4 and the end marker: a length and two offset bytes. */
  lemma LongAt(e: Env, ip: nat, marker: byte, n: nat, max: nat, o: nat, low: nat)
    requires n >= 1 && marker + max < 256 && Fits(e.word, n, max) && o < 0x4000 && low < 4
    requires At(e, ip, LenBytes(marker, n, max) + OffBytes(e.v, o, low))
    ensures ip + 3 <= e.end
    ensures e.input[ip] == marker + if n <= max then n else 0
    ensures var p := ip + |LenBytes(marker, n, max)|;
            && p + 2 <= e.end
            && ReadLongLen(e, ip, if n <= max then n else 0, max) == LenOK(n, p)
            && ReadOff(e.v, e.input[p], e.input[p + 1]) == o
            && e.input[p + 2 - TrailBack(e.v)] % 4 == low
  {
    var lb, ob := LenBytes(marker, n, max), OffBytes(e.v, o, low);
    AtSplit(e, ip, lb, ob);
    ReadLenAt(e, ip, marker, n, max);
    AtTwo(e, ip + |lb|, ob);
    OffBack(e.v, o, low);
  }

  lemma M3At(e: Env, ip: nat, len: nat, o: nat, low: nat)
    requires 3 <= len && o < 0x4000 && low < 4 && Fits(e.word, len - 2, 31) && At(e, ip, M3Bytes(e.v, len, o, low))
    ensures ip + 3 <= e.end && 32 <= e.input[ip] < 64
    ensures ReadsAs(e, ReadM3(e, e.input[ip], ip), ip, |M3Bytes(e.v, len, o, low)|, M3, len, 1 + o, low)
  {
    LongAt(e, ip, M3_MARKER, len - 2, 31, o, low);
  }

  lemma M4Marker(j: nat, m: nat)
    requires j < 2 && m < 8
    ensures var t := M4_MARKER + j * 8 + m; 16 <= t < 32 && t % 8 == m && t / 8 % 2 == j
  {
  }

  lemma M4At(e: Env, ip: nat, len: nat, hi: nat, o: nat, low: nat)
    requires 3 <= len && hi < 2 && o < 0x4000 && 1 <= hi * 0x4000 + o && low < 4
    requires Fits(e.word, len - 2, 7) && At(e, ip, M4Bytes(e.v, len, hi, o, low))
    ensures ip + 3 <= e.end && 16 <= e.input[ip] < 32
    ensures ReadsAs(e, ReadM4(e, e.input[ip], ip), ip, |M4Bytes(e.v, len, hi, o, low)|,
                    M4, len, 0x4000 + hi * 0x4000 + o, low)
  {
    hide Ext, Fits, ReadLongLen;
    LongAt(e, ip, M4_MARKER + hi * 8, len - 2, 7, o, low);
    M4Marker(hi, if len - 2 <= 7 then len - 2 else 0);
  }

  lemma HeadAt(e: Env, c: Cfg, t: Token)
    requires t.Match? && Legal(e.v, e.word, c.ctx, t) && c.ip + 3 <= e.end
    requires At(e, c.ip, MatchBytes(e.v, t.kind, t.len, t.off, |t.trail|))
    ensures ReadsAs(e, ReadHead(e, c), c.ip, |MatchBytes(e.v, t.kind, t.len, t.off, |t.trail|)|,
                    t.kind, t.len, t.off, |t.trail|)
  {
    hide M1Bytes, M2Bytes, M3Bytes, M4Bytes, ReadM1, ReadM2, ReadM3, ReadM4;
    var low := |t.trail|;
    match t.kind
    case M1a => M1At(e, c.ip, c.ctx.st, t.off - 1, low);
    case M1b => M1At(e, c.ip, c.ctx.st, t.off - 1 - M2MaxOffset(e.v), low);
    case M2 => M2At(e, c.ip, t.len, t.off - 1, low, c.ctx.last);
    case M2Rep =>
      assert e.input[c.ip..c.ip + 1] == [e.input[c.ip]];
      M2RepBack(e, t.len, low, e.input[c.ip + 1], c.ip, c.ctx.last);
    case M3 => M3At(e, c.ip, t.len, t.off - 1, low);
    case M4 => M4At(e, c.ip, t.len, (t.off - 0x4000) / 0x4000, (t.off - 0x4000) % 0x4000, low);
  }

  /** What is read as the match `h` is the encoding of `h`, in a state where `h` is allowed. */
  ghost predicate ReadFrom(e: Env, c: Cfg, h: Head)
    requires Valid(e) && h.Copy? && c.ip + TrailBack(e.v) <= h.ip <= e.end
  {
    var low := e.input[h.ip - TrailBack(e.v)] % 4;
    && InRange(e.v, h.kind, h.len, h.off)
    && LenFits(e.word, Match(h.kind, h.len, h.off, []))
    && (h.kind.M1a? ==> c.ctx.st.AfterTrail?)
    && (h.kind.M1b? ==> c.ctx.st.AfterRun?)
    && (h.kind.M2Rep? ==> h.off == c.ctx.last)
    && Spans(e, c.ip, h.ip, MatchBytes(e.v, h.kind, h.len, h.off, low))
  }

  /** The common part of M3, M4 and the end marker, from what was read to its bytes. */
  lemma LongInverse(e: Env, ip: nat, marker: byte, m: nat, max: nat)
    requires Valid(e) && ip + 3 <= e.end && m <= max && marker + max < 256 && e.input[ip] == marker + m
    requires ReadLongLen(e, ip, m, max).LenOK?
    ensures var r := ReadLongLen(e, ip, m, max);
            var o := ReadOff(e.v, e.input[r.ip], e.input[r.ip + 1]);
            var low := e.input[r.ip + 2 - TrailBack(e.v)] % 4;
            var bs := LenBytes(marker, r.n, max) + OffBytes(e.v, o, low);
            At(e, ip, bs) && r.ip + 2 == ip + |bs| && Fits(e.word, r.n, max)
  {
    hide At, ReadLen, LenBytes, OffBytes, Fits;
    ReadLenInverse(e, ip, marker, m, max);
    var r := ReadLongLen(e, ip, m, max);
    var o := ReadOff(e.v, e.input[r.ip], e.input[r.ip + 1]);
    var low := TrailByte(e.v, e.input[r.ip], e.input[r.ip + 1]) % 4;
    OffInverse(e.v, e.input[r.ip], e.input[r.ip + 1]);
    AtTwo(e, r.ip, OffBytes(e.v, o, low));
    AtSplit(e, ip, LenBytes(marker, r.n, max), OffBytes(e.v, o, low));
  }

  /** `bs` is what lies between `ip` and the end `ip'` of what was read. */
  ghost predicate Spans(e: Env, ip: nat, ip': nat, bs: seq<byte>) {
    At(e, ip, bs) && ip' == ip + |bs|
  }

  lemma M3Inverse(e: Env, ip: nat)
    requires Valid(e) && ip + 3 <= e.end && 32 <= e.input[ip] < 64 && ReadM3(e, e.input[ip], ip).Copy?
    ensures var h := ReadM3(e, e.input[ip], ip);
            && h.kind.M3? && 3 <= h.len && 1 <= h.off <= 0x4000 && Fits(e.word, h.len - 2, 31)
            && Spans(e, ip, h.ip, M3Bytes(e.v, h.len, h.off - 1, e.input[h.ip - TrailBack(e.v)] % 4))
  {
    hide Ext, Fits;
    LongInverse(e, ip, M3_MARKER, e.input[ip] % 32, 31);
  }

  lemma M4Inverse(e: Env, ip: nat)
    requires Valid(e) && ip + 3 <= e.end && 16 <= e.input[ip] < 32 && ReadM4(e, e.input[ip], ip).Copy?
    ensures var h, hi := ReadM4(e, e.input[ip], ip), e.input[ip] / 8 % 2;
            var low, o := e.input[h.ip - TrailBack(e.v)] % 4, ReadOff(e.v, e.input[h.ip - 2], e.input[h.ip - 1]);
            && h.kind.M4? && 3 <= h.len && h.off == 0x4000 + (hi * 0x4000 + o) && hi * 0x4000 + o >= 1
            && Fits(e.word, h.len - 2, 7) && Spans(e, ip, h.ip, M4Bytes(e.v, h.len, hi, o, low))
  {
    hide Ext, Fits, ReadLongLen, ReadOff, At, OffBytes, LenBytes;
    var t := e.input[ip];
    M4MarkerInverse(t);
    LongInverse(e, ip, M4_MARKER + t / 8 % 2 * 8, t % 8, 7);
  }

  lemma M4MarkerInverse(t: byte)
    requires 16 <= t < 32
    ensures t == M4_MARKER + t / 8 % 2 * 8 + t % 8
  {
  }

  lemma ShortHeadInverse(e: Env, c: Cfg)
    requires Valid(e) && c.ip + 3 <= e.end && ReadHead(e, c).Copy? && ReadHead(e, c).off >= 1
    requires e.input[c.ip] >= 64 || (e.input[c.ip] < 16 && (c.ctx.st.AfterRun? || c.ctx.st.AfterTrail?))
    ensures ReadFrom(e, c, ReadHead(e, c))
  {
    hide M1Bytes, M2Bytes, M3Bytes, M4Bytes, ReadM1, ReadM2, ReadM3, ReadM4, Fits;
    var t, b := e.input[c.ip], e.input[c.ip + 1];
    if t < 16 {
      M1Inverse(e, t, b, c.ip, c.ctx.st);
      AtTwo(e, c.ip, [t, b]);
    } else if e.v.LZO1Z? && t % 32 >= 28 {
      M2RepInverse(e, t, b, c.ip, c.ctx.last);
      assert e.input[c.ip..c.ip + 1] == [t];
    } else {
      M2Inverse(e, t, b, c.ip, c.ctx.last);
      AtTwo(e, c.ip, [t, b]);
    }
  }

  lemma Split14(hi: nat, o: nat)
    requires o < 0x4000
    ensures (hi * 0x4000 + o) / 0x4000 == hi && (hi * 0x4000 + o) % 0x4000 == o
  {
  }

  lemma LongHeadInverse(e: Env, c: Cfg)
    requires Valid(e) && c.ip + 3 <= e.end && 16 <= e.input[c.ip] < 64 && ReadHead(e, c).Copy?
    ensures ReadFrom(e, c, ReadHead(e, c))
  {
    hide M1Bytes, M2Bytes, M3Bytes, M4Bytes, ReadM1, ReadM2, ReadM3, ReadM4, ReadOff, Fits;
    if e.input[c.ip] >= 32 {
      M3Inverse(e, c.ip);
    } else {
      M4Inverse(e, c.ip);
      var h := ReadM4(e, e.input[c.ip], c.ip);
      Split14(e.input[c.ip] / 8 % 2, ReadOff(e.v, e.input[h.ip - 2], e.input[h.ip - 1]));
    }
  }

  /** Whatever is read as a match is the encoding of that match, where that match is allowed. */
  lemma HeadInverse(e: Env, c: Cfg)
    requires Valid(e) && c.ip + 3 <= e.end && ReadHead(e, c).Copy? && ReadHead(e, c).off >= 1
    requires e.input[c.ip] < 16 ==> c.ctx.st.AfterRun? || c.ctx.st.AfterTrail?
    ensures ReadFrom(e, c, ReadHead(e, c))
  {
    if 16 <= e.input[c.ip] < 64 {
      LongHeadInverse(e, c);
    } else {
      ShortHeadInverse(e, c);
    }
  }

  // ----- the end marker -----

  /** Every form of the end marker: an M4 match at distance 0x4000, of any length and count. */
  function EofBytes(v: Variant, n: nat, low: nat): seq<byte>
    requires n >= 1 && low < 4
  {
    LenBytes(M4_MARKER, n, 7) + OffBytes(v, 0, low)
  }

  ghost predicate IsEofMark(e: Env, ip: nat, ip': nat) {
    exists n: nat, low: nat | n >= 1 && low < 4 && Fits(e.word, n, 7) ::
      Spans(e, ip, ip', EofBytes(e.v, n, low))
  }

  lemma EofAt(e: Env, c: Cfg, n: nat, low: nat)
    requires n >= 1 && low < 4 && Fits(e.word, n, 7) && At(e, c.ip, EofBytes(e.v, n, low))
    ensures c.ip + 3 <= e.end && 16 <= e.input[c.ip] < 24 && e.input[c.ip] == EofBytes(e.v, n, low)[0]
    ensures ReadHead(e, c) == Eof(c.ip + |EofBytes(e.v, n, low)|)
  {
    LongAt(e, c.ip, M4_MARKER, n, 7, 0, low);
    M4Marker(0, if n <= 7 then n else 0);
  }

  lemma EofInverse(e: Env, c: Cfg)
    requires Valid(e) && c.ip + 3 <= e.end && ReadHead(e, c).Eof?
    ensures 16 <= e.input[c.ip] < 24 && IsEofMark(e, c.ip, ReadHead(e, c).ip)
  {
    hide Ext, Fits, ReadLongLen, ReadOff, ReadM1, ReadM2, ReadM3;
    var t := e.input[c.ip];
    assert 16 <= t < 32 && ReadHead(e, c) == ReadM4(e, t, c.ip);
    M4MarkerInverse(t);
    assert t / 8 % 2 == 0;
    LongInverse(e, c.ip, M4_MARKER, t % 8, 7);
    var r := ReadLongLen(e, c.ip, t % 8, 7);
    assert Spans(e, c.ip, r.ip + 2, EofBytes(e.v, r.n, e.input[r.ip + 2 - TrailBack(e.v)] % 4));
  }
}
