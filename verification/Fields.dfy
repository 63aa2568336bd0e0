/** The bit fields of the short match forms: packing them and reading them back are inverse.
    Only here does the solver meet several divisions by constants at once. */
module Fields {
  import opened Bytes
  import opened Format
  import opened Decoder

  lemma Pack(q: nat, r: nat, low: nat, d: nat)
    requires (d == 8 || d == 4) && r < d && low < 4
    ensures var t := q * (4 * d) + r * 4 + low;
            t / (4 * d) == q && t / 4 % d == r && t % 4 == low
  {
    var t := q * (4 * d) + r * 4 + low;
    if d == 8 {
      assert t / 4 == q * 8 + r;
    } else {
      assert t / 4 == q * 4 + r;
    }
  }

  lemma Pack64(q: nat, r: nat, low: nat)
    requires r < 64 && low < 4
    ensures (q * 64 + r) / 64 == q && (q * 64 + r) % 64 == r
    ensures (r * 4 + low) / 4 == r && (r * 4 + low) % 4 == low
  {
  }

  lemma Unpack(t: nat)
    ensures t == t / 32 * 32 + t / 4 % 8 * 4 + t % 4
    ensures t == t / 16 * 16 + t / 4 % 4 * 4 + t % 4
  {
    var q := t / 4;
    assert t == q * 4 + t % 4;
    assert q == q / 8 * 8 + q % 8 && q / 8 == t / 32;
    assert q == q / 4 * 4 + q % 4 && q / 4 == t / 16;
  }

  /** The byte in which the bytes of an M1 or M2 match keep the literal count. */
  function TrailByte(v: Variant, b0: byte, b1: byte): byte {
    if v.LZO1Z? then b1 else b0
  }

  // ----- M2 -----

  lemma M2BackX(e: Env, len: nat, o: nat, low: nat, ip: nat, last: nat)
    requires e.v.LZO1X? && 3 <= len <= 8 && o < 0x800 && low < 4
    ensures var bs := M2Bytes(e.v, len, o, low);
            bs[0] >= 64 && ReadM2(e, bs[0], bs[1], ip, last) == Copy(M2, len, 1 + o, ip + 2) && bs[0] % 4 == low
  {
    Pack(len - 1, o % 8, low, 8);
  }

  lemma M2BackY(e: Env, len: nat, o: nat, low: nat, ip: nat, last: nat)
    requires e.v.LZO1Y? && 3 <= len <= 14 && o < 0x400 && low < 4
    ensures var bs := M2Bytes(e.v, len, o, low);
            bs[0] >= 64 && ReadM2(e, bs[0], bs[1], ip, last) == Copy(M2, len, 1 + o, ip + 2) && bs[0] % 4 == low
  {
    Pack(len + 1, o % 4, low, 4);
  }

  lemma M2BackZ(e: Env, len: nat, o: nat, low: nat, ip: nat, last: nat)
    requires e.v.LZO1Z? && 3 <= len <= 8 && o < 0x700 && low < 4
    ensures var bs := M2Bytes(e.v, len, o, low);
            bs[0] >= 64 && ReadM2(e, bs[0], bs[1], ip, last) == Copy(M2, len, 1 + o, ip + 2) && bs[1] % 4 == low
  {
    Pack64(o / 64, o % 64, low);
    assert ((len - 1) * 32 + o / 64) / 32 == len - 1;
  }

  lemma M2Back(e: Env, len: nat, o: nat, low: nat, ip: nat, last: nat)
    requires 3 <= len <= M2MaxLen(e.v) && o < M2MaxOffset(e.v) && low < 4
    ensures var bs := M2Bytes(e.v, len, o, low);
            && bs[0] >= 64 && TrailByte(e.v, bs[0], bs[1]) % 4 == low
            && ReadM2(e, bs[0], bs[1], ip, last) == Copy(M2, len, 1 + o, ip + 2)
  {
    match e.v
    case LZO1X => M2BackX(e, len, o, low, ip, last);
    case LZO1Y => M2BackY(e, len, o, low, ip, last);
    case LZO1Z => M2BackZ(e, len, o, low, ip, last);
  }

  lemma M2InverseX(e: Env, t: byte, b: byte, ip: nat, last: nat)
    requires t >= 64 && e.v.LZO1X?
    ensures var h := ReadM2(e, t, b, ip, last);
            h.Copy? && h.kind.M2? && InRange(e.v, M2, h.len, h.off) && M2Bytes(e.v, h.len, h.off - 1, t % 4) == [t, b]
  {
    Unpack(t);
    var o := t / 4 % 8 + 8 * b;
    assert o / 8 == b && o % 8 == t / 4 % 8;
  }

  lemma M2InverseY(e: Env, t: byte, b: byte, ip: nat, last: nat)
    requires t >= 64 && e.v.LZO1Y?
    ensures var h := ReadM2(e, t, b, ip, last);
            h.Copy? && h.kind.M2? && InRange(e.v, M2, h.len, h.off) && M2Bytes(e.v, h.len, h.off - 1, t % 4) == [t, b]
  {
    Unpack(t);
    var o := t / 4 % 4 + 4 * b;
    assert o / 4 == b && o % 4 == t / 4 % 4;
  }

  lemma M2InverseZ(e: Env, t: byte, b: byte, ip: nat, last: nat)
    requires t >= 64 && e.v.LZO1Z? && t % 32 < 28
    ensures var h := ReadM2(e, t, b, ip, last);
            h.Copy? && h.kind.M2? && InRange(e.v, M2, h.len, h.off) && M2Bytes(e.v, h.len, h.off - 1, b % 4) == [t, b]
  {
    Pack64(t % 32, b / 4, b % 4);
  }

  lemma M2Inverse(e: Env, t: byte, b: byte, ip: nat, last: nat)
    requires t >= 64 && (e.v.LZO1Z? ==> t % 32 < 28)
    ensures var h := ReadM2(e, t, b, ip, last);
            && h.Copy? && h.kind.M2? && InRange(e.v, M2, h.len, h.off) && h.ip == ip + 2
            && M2Bytes(e.v, h.len, h.off - 1, TrailByte(e.v, t, b) % 4) == [t, b]
  {
    match e.v
    case LZO1X => M2InverseX(e, t, b, ip, last);
    case LZO1Y => M2InverseY(e, t, b, ip, last);
    case LZO1Z => M2InverseZ(e, t, b, ip, last);
  }

  /** LZO1Z's one-byte repeat of the previous offset is told from a real offset by bits 2 to 4. */
  lemma M2RepBack(e: Env, len: nat, low: nat, b: byte, ip: nat, last: nat)
    requires e.v.LZO1Z? && 3 <= len <= 8 && low < 4
    ensures var t := (len - 1) * 32 + 28 + low;
            64 <= t < 256 && t % 4 == low && ReadM2(e, t, b, ip, last) == Copy(M2Rep, len, last, ip + 1)
  {
    var t := (len - 1) * 32 + 28 + low;
    assert t / 32 == len - 1 && t % 32 == 28 + low;
  }

  lemma M2RepInverse(e: Env, t: byte, b: byte, ip: nat, last: nat)
    requires t >= 64 && e.v.LZO1Z? && t % 32 >= 28
    ensures var h := ReadM2(e, t, b, ip, last);
            && h.Copy? && h.kind.M2Rep? && 3 <= h.len <= 8 && h.off == last && h.ip == ip + 1
            && (h.len - 1) * 32 + 28 + t % 4 == t
  {
    assert t == t / 32 * 32 + t % 32;
  }

  // ----- M1 -----

  function M1Base(v: Variant, st: State): nat {
    if st.AfterRun? then M2MaxOffset(v) else 0
  }

  lemma M1Back(e: Env, o: nat, low: nat, ip: nat, st: State)
    requires o < 0x400 && low < 4
    ensures var bs := M1Bytes(e.v, o, low);
            && bs[0] < 16 && TrailByte(e.v, bs[0], bs[1]) % 4 == low
            && ReadM1(e, bs[0], bs[1], ip, st)
               == Copy(if st.AfterRun? then M1b else M1a, if st.AfterRun? then 3 else 2,
                       1 + M1Base(e.v, st) + o, ip + 2)
  {
    if e.v.LZO1Z? {
      Pack64(o / 64, o % 64, low);
    } else {
      assert (o % 4 * 4 + low) / 4 == o % 4;
    }
  }

  lemma M1Inverse(e: Env, t: byte, b: byte, ip: nat, st: State)
    requires t < 16
    ensures var h := ReadM1(e, t, b, ip, st);
            && h.Copy? && h.kind == (if st.AfterRun? then M1b else M1a)
            && InRange(e.v, h.kind, h.len, h.off) && h.ip == ip + 2
            && M1Bytes(e.v, h.off - 1 - M1Base(e.v, st), TrailByte(e.v, t, b) % 4) == [t, b]
  {
    if e.v.LZO1Z? {
      Pack64(t, b / 4, b % 4);
    } else {
      assert (t / 4 + 4 * b) / 4 == b && (t / 4 + 4 * b) % 4 == t / 4;
    }
  }

  // ----- the offset bytes of M3 and M4 -----

  lemma OffBack(v: Variant, o: nat, low: nat)
    requires o < 0x4000 && low < 4
    ensures var bs := OffBytes(v, o, low);
            ReadOff(v, bs[0], bs[1]) == o && TrailByte(v, bs[0], bs[1]) % 4 == low
  {
    Pack64(o / 64, o % 64, low);
  }

  lemma OffInverse(v: Variant, b0: byte, b1: byte)
    ensures OffBytes(v, ReadOff(v, b0, b1), TrailByte(v, b0, b1) % 4) == [b0, b1]
  {
    if v.LZO1Z? {
      Pack64(b0, b1 / 4, b1 % 4);
    } else {
      Pack64(b1, b0 / 4, b0 % 4);
    }
  }
}
