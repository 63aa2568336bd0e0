/** Machine words as numbers: loads in either byte order, exclusive or, and the three ways to find the
    first byte in which two words differ. */
module Words {
  import opened Bytes
  import opened Division

  // ----- exclusive or -----

  /** Bit by bit. */
  function Xor(a: nat, b: nat): nat
    decreases a
  {
    if a == 0 then b else (a + b) % 2 + 2 * Xor(a / 2, b / 2)
  }

  lemma {:induction false} XorZero(a: nat, b: nat)
    ensures Xor(a, b) == 0 <==> a == b
    decreases a
  {
    if a != 0 {
      XorZero(a / 2, b / 2);
    }
  }

  lemma XorBit(a: nat, b: nat)
    ensures Xor(a, b) == (a + b) % 2 + 2 * Xor(a / 2, b / 2)
  {
    if a == 0 {
      assert a / 2 == 0;
    }
  }

  lemma Halves(a: nat)
    ensures a == a % 2 + 2 * (a / 2) && a % 2 < 2
  {
  }

  /** `x` above the place of value `h`, `a` below. */
  function Above(a: nat, h: nat, x: nat): nat {
    a + h * x
  }

  lemma AboveHalf(a: nat, h: nat, x: nat)
    ensures Above(a, 2 * h, x) % 2 == a % 2 && Above(a, 2 * h, x) / 2 == Above(a / 2, h, x)
  {
    Halves(a);
    assert a + 2 * h * x == a % 2 + 2 * (a / 2 + h * x);
  }

  lemma AboveTwice(p: nat, r: nat, h: nat, z: nat)
    ensures p + 2 * Above(r, h, z) == Above(p + 2 * r, 2 * h, z)
  {
    assert p + 2 * (r + h * z) == p + 2 * r + 2 * h * z;
  }

  /** Exclusive or works on the low `k` bits and on those above separately. */
  lemma {:induction false} XorSplit(k: nat, a: nat, b: nat, x: nat, y: nat)
    requires a < Pow2(k) && b < Pow2(k)
    ensures Xor(a, b) < Pow2(k)
    ensures Xor(Above(a, Pow2(k), x), Above(b, Pow2(k), y)) == Above(Xor(a, b), Pow2(k), Xor(x, y))
    decreases k
  {
    if k == 0 {
      assert Xor(0, 0) == 0;
    } else {
      hide Xor, Above;
      var h := Pow2(k - 1);
      XorSplit(k - 1, a / 2, b / 2, x, y);
      XorBit(a, b);
      XorBit(Above(a, 2 * h, x), Above(b, 2 * h, y));
      AboveHalf(a, h, x);
      AboveHalf(b, h, y);
      Odd(a, b, Above(a, 2 * h, x), Above(b, 2 * h, y));
      AboveTwice((a + b) % 2, Xor(a / 2, b / 2), h, Xor(x, y));
    }
  }

  lemma Odd(a: nat, b: nat, a': nat, b': nat)
    requires a % 2 == a' % 2 && b % 2 == b' % 2
    ensures (a + b) % 2 == (a' + b') % 2
  {
  }

  // ----- loads -----

  /** A little-endian load. */
  function LE(s: seq<byte>): nat {
    if s == [] then 0 else s[0] + 256 * LE(s[1..])
  }

  /** A big-endian load. */
  function BE(s: seq<byte>): nat {
    if s == [] then 0 else Pow2(8 * (|s| - 1)) * s[0] + BE(s[1..])
  }

  lemma {:induction false} BEBound(s: seq<byte>)
    ensures BE(s) < Pow2(8 * |s|)
  {
    if s != [] {
      BEBound(s[1..]);
      var h := Pow2(8 * (|s| - 1));
      PowAdd(8, 8 * (|s| - 1));
      Pow2Of8();
      Scaled(h, s[0], 255);
    }
  }

  lemma Scaled(h: nat, x: nat, y: nat)
    requires x <= y
    ensures h * x <= h * y
  {
  }

  /** The first place in which two byte strings differ, or their length. */
  function FirstDiff(s: seq<byte>, t: seq<byte>): (m: nat)
    requires |s| == |t|
    ensures m <= |s| && s[..m] == t[..m] && (m < |s| ==> s[m] != t[m])
  {
    if s == [] || s[0] != t[0] then 0
    else
      var m := 1 + FirstDiff(s[1..], t[1..]);
      assert s[..m] == [s[0]] + s[1..][..m - 1] && t[..m] == [t[0]] + t[1..][..m - 1];
      m
  }

  /** The exclusive or of two loads, as those of their first bytes and of the rest. */
  lemma XorLE(s: seq<byte>, t: seq<byte>)
    requires |s| == |t| > 0
    ensures Xor(s[0], t[0]) < 256
    ensures Xor(LE(s), LE(t)) == Above(Xor(s[0], t[0]), 256, Xor(LE(s[1..]), LE(t[1..])))
  {
    hide Xor, Pow2, Above;
    Pow2Of8();
    XorSplit(8, s[0], t[0], LE(s[1..]), LE(t[1..]));
    LEAbove(s);
    LEAbove(t);
  }

  lemma LEAbove(s: seq<byte>)
    requires s != []
    ensures LE(s) == Above(s[0], 256, LE(s[1..]))
  {
  }

  lemma XorBE(s: seq<byte>, t: seq<byte>)
    requires |s| == |t| > 0
    ensures var h := Pow2(8 * (|s| - 1));
            && Xor(s[0], t[0]) < 256 && Xor(BE(s[1..]), BE(t[1..])) < h
            && Xor(BE(s), BE(t)) == Above(Xor(BE(s[1..]), BE(t[1..])), h, Xor(s[0], t[0]))
  {
    hide Xor, Pow2, Above, BE;
    Pow2Of8();
    BEBound(s[1..]);
    BEBound(t[1..]);
    BEAbove(s);
    BEAbove(t);
    XorSplit(8 * (|s| - 1), BE(s[1..]), BE(t[1..]), s[0], t[0]);
    XorSplit(8, s[0], t[0], 0, 0);
  }

  lemma BEAbove(s: seq<byte>)
    requires s != []
    ensures BE(s) == Above(BE(s[1..]), Pow2(8 * (|s| - 1)), s[0])
  {
  }

  /** Two words are equal exactly when their bytes are. */
  lemma {:induction false} LEInjective(s: seq<byte>, t: seq<byte>)
    requires |s| == |t|
    ensures LE(s) == LE(t) <==> s == t
  {
    if s != [] {
      LEInjective(s[1..], t[1..]);
      assert s == [s[0]] + s[1..] && t == [t[0]] + t[1..];
    }
  }

  // ----- the first differing byte -----

  /** The number of zero bits below the lowest one. */
  function TrailingZeros(v: nat): nat
    requires v > 0
  {
    if v % 2 == 1 then 0 else 1 + TrailingZeros(v / 2)
  }

  lemma {:induction false} ZerosBelow(k: nat, a: nat, x: nat)
    requires 0 < a < Pow2(k)
    ensures TrailingZeros(Above(a, Pow2(k), x)) == TrailingZeros(a) < k
    decreases k
  {
    hide Above;
    var h := Pow2(k - 1);
    AboveHalf(a, h, x);
    AboveSome(a, 2 * h, x);
    if a % 2 == 0 {
      ZerosBelow(k - 1, a / 2, x);
    }
  }

  lemma AboveSome(a: nat, h: nat, x: nat)
    requires 0 < h
    ensures Above(a, h, x) > 0 <==> a > 0 || x > 0
    ensures Above(a, h, x) >= a && Above(a, h, 0) == a
  {
  }

  lemma {:induction false} ZerosShifted(k: nat, x: nat)
    requires x > 0
    ensures Above(0, Pow2(k), x) > 0 && TrailingZeros(Above(0, Pow2(k), x)) == k + TrailingZeros(x)
    decreases k
  {
    if k == 0 {
      assert Above(0, 1, x) == x;
    } else {
      hide Above;
      ZerosShifted(k - 1, x);
      AboveHalf(0, Pow2(k - 1), x);
      AboveSome(0, Pow2(k), x);
    }
  }

  /** Counting the trailing zeros of a little-endian word's difference finds the first differing byte. */
  lemma {:induction false} TrailingFindsFirst(s: seq<byte>, t: seq<byte>)
    requires |s| == |t| && s != t
    ensures Xor(LE(s), LE(t)) > 0 && TrailingZeros(Xor(LE(s), LE(t))) / 8 == FirstDiff(s, t)
  {
    hide Xor, LE, TrailingZeros, Pow2, Above;
    XorLE(s, t);
    XorZero(s[0], t[0]);
    Pow2Of8();
    var a, x := Xor(s[0], t[0]), Xor(LE(s[1..]), LE(t[1..]));
    AboveSome(a, 256, x);
    if s[0] == t[0] {
      assert s == [s[0]] + s[1..] && t == [t[0]] + t[1..];
      TrailingFindsFirst(s[1..], t[1..]);
      ZerosShifted(8, x);
    } else {
      ZerosBelow(8, a, x);
    }
  }

  /** The number of zero bits above the highest one of a word of `w` bits. */
  function LeadingZeros(v: nat, w: nat): nat
    requires 0 < v < Pow2(w)
  {
    if v >= Pow2(w - 1) then 0 else 1 + LeadingZeros(v, w - 1)
  }

  lemma AboveBound(a: nat, h: nat, x: nat, j: nat, k: nat)
    requires a < h == Pow2(k) && x < Pow2(j)
    ensures Above(a, h, x) < Pow2(k + j)
  {
    PowAdd(k, j);
    Scaled(h, x, Pow2(j) - 1);
  }

  lemma AboveReaches(a: nat, x: nat, j: nat, k: nat)
    requires Pow2(j) <= x
    ensures Pow2(k + j) <= Above(a, Pow2(k), x)
  {
    PowAdd(k, j);
    Scaled(Pow2(k), Pow2(j), x);
  }

  /** `j` bits above `k`: the leading zeros are those of the upper part, unless that is zero. */
  lemma {:induction false} ZerosAbove(k: nat, j: nat, x: nat, a: nat)
    requires a < Pow2(k) && x < Pow2(j) && (a > 0 || x > 0)
    ensures 0 < Above(a, Pow2(k), x) < Pow2(k + j)
    ensures if x > 0 then LeadingZeros(Above(a, Pow2(k), x), k + j) == LeadingZeros(x, j) < j
            else LeadingZeros(a, k + j) == j + LeadingZeros(a, k)
    decreases j
  {
    hide Above, Pow2;
    AboveBound(a, Pow2(k), x, j, k);
    AboveSome(a, Pow2(k), x);
    if j > 0 {
      if x >= Pow2(j - 1) {
        AboveReaches(a, x, j - 1, k);
      } else {
        ZerosAbove(k, j - 1, x, a);
      }
    } else {
      Pow2Zero();
    }
  }

  /** Counting the leading zeros of a big-endian word's difference finds the first differing byte. */
  lemma {:induction false} LeadingFindsFirst(s: seq<byte>, t: seq<byte>)
    requires |s| == |t| && s != t
    ensures 0 < Xor(BE(s), BE(t)) < Pow2(8 * |s|) && LeadingZeros(Xor(BE(s), BE(t)), 8 * |s|) / 8 == FirstDiff(s, t)
  {
    hide Xor, BE, Pow2, Above, LeadingZeros;
    XorBE(s, t);
    XorZero(s[0], t[0]);
    Pow2Of8();
    var k := 8 * (|s| - 1);
    assert k + 8 == 8 * |s|;
    var x, a := Xor(s[0], t[0]), Xor(BE(s[1..]), BE(t[1..]));
    AboveSome(a, Pow2(k), x);
    if s[0] == t[0] {
      assert s == [s[0]] + s[1..] && t == [t[0]] + t[1..];
      LeadingFindsFirst(s[1..], t[1..]);
    }
    ZerosAbove(k, 8, x, a);
  }

  // ----- in the program -----

  /** How the first differing byte of two words is found: counting zero bits or shifting bytes out, from
      the low end on a little-endian machine and from the high end on a big-endian one, or comparing
      the bytes again where the byte order is not known. */
  datatype Locate = CountTrailing | ShiftDown | CountLeading | ShiftUp | Rescan

  /** UA_GET_NE32 and UA_GET_NE64: a load in the machine's own byte order. */
  function Load(how: Locate, s: seq<byte>): nat {
    if how.CountLeading? || how.ShiftUp? then BE(s) else LE(s)
  }

  /** The exclusive or of two loads is zero exactly when the bytes are equal. */
  lemma LoadsDiffer(how: Locate, s: seq<byte>, t: seq<byte>)
    requires |s| == |t|
    ensures Xor(Load(how, s), Load(how, t)) == 0 <==> FirstDiff(s, t) == |s|
  {
    hide Xor, LE, BE;
    if s == t {
      XorZero(Load(how, s), Load(how, t));
    } else if how.CountLeading? || how.ShiftUp? {
      LeadingFindsFirst(s, t);
    } else {
      TrailingFindsFirst(s, t);
    }
  }

  lemma AboveParts(a: nat, h: nat, x: nat)
    requires a < h
    ensures Above(a, h, x) % h == a && Above(a, h, x) / h == x
  {
    DivUnique(a + h * x, h, x, a);
  }

  lemma DiffNext(s: seq<byte>, t: seq<byte>, m: nat)
    requires |s| == |t| && m < |s| && s[m..] != t[m..]
    ensures if s[m] == t[m] then
              && m + 1 <= |s| && s[m + 1..] != t[m + 1..]
              && FirstDiff(s[m..], t[m..]) == 1 + FirstDiff(s[m + 1..], t[m + 1..])
            else FirstDiff(s[m..], t[m..]) == 0
    ensures s[m..][1..] == s[m + 1..] && t[m..][1..] == t[m + 1..]
  {
    assert s[m..] == [s[m]] + s[m + 1..] && t[m..] == [t[m]] + t[m + 1..];
  }

  /** Shifts down while the lowest byte is zero. */
  method ShiftsDown(v: nat, ghost s: seq<byte>, ghost t: seq<byte>) returns (m: nat)
    requires |s| == |t| && s != t && v == Xor(LE(s), LE(t))
    ensures m == FirstDiff(s, t)
  {
    hide Xor, LE, Above, FirstDiff;
    m := 0;
    var u := v;
    assert s[0..] == s && t[0..] == t;
    while true
      invariant m < |s| && s[m..] != t[m..] && u == Xor(LE(s[m..]), LE(t[m..]))
      invariant m + FirstDiff(s[m..], t[m..]) == FirstDiff(s, t)
      decreases |s| - m
    {
      XorLE(s[m..], t[m..]);
      XorZero(s[m], t[m]);
      DiffNext(s, t, m);
      AboveParts(Xor(s[m], t[m]), 256, Xor(LE(s[m + 1..]), LE(t[m + 1..])));
      if u % 256 != 0 {
        return;
      }
      u := u / 256;
      m := m + 1;
    }
  }

  lemma TopByte(k: nat, i: nat, x: nat, a: nat)
    requires a < Pow2(8 * i) && x < 256
    ensures var u := Pow2(8 * k) * Above(a, Pow2(8 * i), x);
            && u / Pow2(8 * (k + i)) == x
            && (x == 0 ==> u * 256 % Pow2(8 * (k + i + 1)) == Pow2(8 * (k + 1)) * a)
  {
    hide Pow2;
    var p, q := Pow2(8 * k), Pow2(8 * i);
    PowAdd(8 * k, 8 * i);
    assert 8 * k + 8 * i == 8 * (k + i);
    Scaled(p, a + 1, q);
    assert p * (a + 1) == p * a + p;
    assert p * (a + q * x) == p * a + p * q * x;
    AboveParts(p * a, p * q, x);
    if x == 0 {
      PowAdd(8 * (k + i), 8);
      PowAdd(8 * k, 8);
      Pow2Of8();
      assert 8 * (k + i) + 8 == 8 * (k + i + 1) && 8 * k + 8 == 8 * (k + 1);
      assert q * 0 == 0;
      assert p * a * 256 == p * 256 * a;
      AboveParts(p * a * 256, p * q * 256, 0);
    }
  }

  /** Shifts up, in a word as wide as the loads, while the highest byte is zero. */
  method ShiftsUp(v: nat, n: nat, ghost s: seq<byte>, ghost t: seq<byte>) returns (m: nat)
    requires |s| == |t| == n && s != t && v == Xor(BE(s), BE(t))
    ensures m == FirstDiff(s, t)
  {
    hide Xor, BE, Above, FirstDiff, Pow2;
    m := 0;
    var u := v;
    assert s[0..] == s && t[0..] == t;
    Pow2Zero();
    while true
      invariant m < n && s[m..] != t[m..] && u == Pow2(8 * m) * Xor(BE(s[m..]), BE(t[m..]))
      invariant m + FirstDiff(s[m..], t[m..]) == FirstDiff(s, t)
      decreases n - m
    {
      XorBE(s[m..], t[m..]);
      XorZero(s[m], t[m]);
      DiffNext(s, t, m);
      TopByte(m, n - m - 1, Xor(s[m], t[m]), Xor(BE(s[m + 1..]), BE(t[m + 1..])));
      if u / Pow2(8 * (n - 1)) != 0 {
        return;
      }
      u := u * 256 % Pow2(8 * n);
      m := m + 1;
    }
  }

  /** From the exclusive or `v` of two loads, the first differing byte. */
  method FirstDifferent(how: Locate, v: nat, s: seq<byte>, t: seq<byte>) returns (m: nat)
    requires |s| == |t| && v == Xor(Load(how, s), Load(how, t)) && v != 0
    ensures m == FirstDiff(s, t) < |s|
  {
    hide Xor, LE, BE, FirstDiff;
    LoadsDiffer(how, s, t);
    match how {
      case CountTrailing =>
        TrailingFindsFirst(s, t);
        m := TrailingZeros(v) / 8;
      case ShiftDown =>
        m := ShiftsDown(v, s, t);
      case CountLeading =>
        LeadingFindsFirst(s, t);
        m := LeadingZeros(v, 8 * |s|) / 8;
      case ShiftUp =>
        m := ShiftsUp(v, |s|, s, t);
      case Rescan =>
        m := 0;
        while s[m] == t[m]
          invariant m <= FirstDiff(s, t)
          decreases |s| - m
        {
          assert m < FirstDiff(s, t);
          m := m + 1;
        }
    }
  }
}
