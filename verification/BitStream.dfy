/** LZO2A's interleaving of bits and bytes: the writer reserves a byte for the bits to come and fills
    it in later; the reader fetches it where the writer reserved it. */
module BitStream {
  import opened Bytes
  import opened Division

  /** `x << k`. */
  function Shl(x: nat, k: nat): nat {
    x * Pow2(k)
  }

  /** MASKBITS: the last `k` bits. */
  function Mask(b: nat, k: nat): nat {
    b % Pow2(k)
  }

  /** DUMPBITS: the others, `b >> k`. */
  function Shr(b: nat, k: nat): nat {
    DivNat(b, Pow2(k));
    b / Pow2(k)
  }

  /** What is put: `j` bits, or a whole byte. */
  datatype Item = Bits(j: nat, x: nat) | Byte(b: byte)

  predicate ItemOK(i: Item) {
    i.Bits? ==> 1 <= i.j < 8 && i.x < Pow2(i.j)
  }

  // ----- the writer -----

  /** `out[slot]` is reserved for the `k` bits in `b` and those to come; there is none when `k` is 0. */
  datatype Writer = Writer(out: seq<byte>, slot: nat, b: nat, k: nat)

  predicate WriterOK(w: Writer) {
    w.k < 8 && w.b < Pow2(w.k) && (w.k > 0 ==> w.slot < |w.out|)
  }

  /** SETBITS and, with eight bits or more, DUMPBITS. */
  function PutBits(w: Writer, j: nat, x: nat): Writer
    requires w.slot < |w.out|
  {
    var b, k := w.b + Shl(x, w.k), w.k + j;
    if k < 8 then Writer(w.out, w.slot, b, k)
    else
      var out := w.out[w.slot := b % 256];
      if k > 8 then Writer(out + [0], |out|, b / 256, k - 8) else Writer(out, w.slot, b / 256, 0)
  }

  function Reserve(w: Writer): Writer {
    w.(out := w.out + [0], slot := |w.out|)
  }

  function Put(w: Writer, i: Item): Writer
    requires WriterOK(w)
  {
    match i
    case Bits(j, x) => PutBits(if w.k == 0 then Reserve(w) else w, j, x)
    case Byte(b) => w.(out := w.out + [b])
  }

  function Flush(w: Writer): seq<byte>
    requires WriterOK(w)
  {
    if w.k > 0 then w.out[w.slot := w.b % 256] else w.out
  }

  // ----- bits -----

  lemma SmallPowers()
    ensures forall k | 0 <= k < 8 :: Pow2(k) <= 128
  {
    assert Pow2(0) == 1 && Pow2(1) == 2 && Pow2(2) == 4 && Pow2(3) == 8;
    assert Pow2(4) == 16 && Pow2(5) == 32 && Pow2(6) == 64 && Pow2(7) == 128;
  }

  lemma Ends(b: nat)
    ensures Mask(b, 8) == b % 256 && Shr(b, 8) == b / 256
    ensures Shr(b, 0) == b && Mask(b, 0) == 0 && Pow2(0) == 1
  {
    Pow2Of8();
  }

  /** The buffered bits, with the new ones above them. */
  lemma Buffered(b: nat, k: nat, j: nat, x: nat)
    requires b < Pow2(k) && x < Pow2(j)
    ensures b + Shl(x, k) < Pow2(k + j)
    ensures k + j >= 8 ==> (b + Shl(x, k)) / 256 < Pow2(k + j - 8)
  {
    Room(b, k, j, x);
    hide Pow2, Shl;
    if k + j >= 8 {
      BelowPow(b + Shl(x, k), k + j - 8);
    }
  }

  lemma Room(b: nat, k: nat, j: nat, x: nat)
    requires b < Pow2(k) && x < Pow2(j)
    ensures b + Shl(x, k) < Pow2(k + j)
  {
    hide Pow2;
    PowAdd(k, j);
    AtMost(x, Pow2(j), Pow2(k));
  }

  lemma BelowPow(v: nat, n: nat)
    requires v < Pow2(n + 8)
    ensures v / 256 < Pow2(n)
  {
    hide Pow2;
    PowAdd(n, 8);
    Pow2Of8();
    Below(v, 256, Pow2(n));
  }

  /** `f` ends in the bits of `b` and, above them, those of `x`. */
  lemma Above(f: nat, b: nat, k: nat, x: nat, j: nat)
    requires b < Pow2(k) && x < Pow2(j) && Mask(f, k + j) == b + Shl(x, k)
    ensures Mask(f, k) == b && Mask(Shr(f, k), j) == x && Shr(Shr(f, k), j) == Shr(f, k + j)
  {
    hide Pow2;
    PowAdd(k, j);
    Digits(f, b, x, Pow2(k), Pow2(j));
  }

  /** The bits of `x` begin above `b` in the byte `f0` and go on in `f1`. */
  lemma Across(f0: nat, f1: nat, b: nat, k: nat, x: nat, j: nat)
    requires k <= 8 <= k + j && b < Pow2(k) && x < Pow2(j)
    requires f0 == (b + Shl(x, k)) % 256 && Mask(f1, k + j - 8) == (b + Shl(x, k)) / 256
    ensures Mask(f0, k) == b
    ensures var r := Shr(f0, k) + Shl(f1, 8 - k); Mask(r, j) == x && Shr(r, j) == Shr(f1, k + j - 8)
  {
    hide Pow2;
    PowAdd(k, 8 - k);
    PowAdd(8 - k, k + j - 8);
    Pow2Of8();
    Straddle(b, x, Pow2(k), Pow2(8 - k), Pow2(k + j - 8), f0, f1);
  }

  // ----- what the reader needs to know of the final bytes -----

  /** `f` holds what has been written by `w` so far, and in the slot at least its bits. */
  ghost predicate Agree(w: Writer, f: seq<byte>)
    requires WriterOK(w)
  {
    && |w.out| <= |f|
    && (forall i | 0 <= i < |w.out| && (w.k == 0 || i != w.slot) :: f[i] == w.out[i])
    && (w.k > 0 ==> Mask(f[w.slot], w.k) == w.b)
  }

  lemma PutOK(w: Writer, i: Item)
    requires WriterOK(w) && ItemOK(i)
    ensures WriterOK(Put(w, i)) && |w.out| <= |Put(w, i).out|
  {
    hide Pow2, Shl;
    if i.Bits? {
      Buffered(w.b, w.k, i.j, i.x);
      Ends(0);
    }
  }

  /** What agrees after an item agreed before it. */
  lemma AgreeBefore(w: Writer, i: Item, f: seq<byte>)
    requires WriterOK(w) && ItemOK(i) && WriterOK(Put(w, i)) && Agree(Put(w, i), f)
    ensures Agree(w, f)
  {
    hide Pow2, Shl, Mask, Shr;
    if i.Bits? && w.k > 0 {
      if w.k + i.j < 8 {
        Above(f[w.slot], w.b, w.k, i.x, i.j);
      } else {
        Filled(w, i.j, i.x, f);
      }
    }
  }

  /** A slot whose eight bits are complete. */
  lemma Filled(w: Writer, j: nat, x: nat, f: seq<byte>)
    requires WriterOK(w) && 1 <= j < 8 && x < Pow2(j) && w.k + j >= 8 && |w.out| <= |f|
    requires var w' := Put(w, Bits(j, x)); WriterOK(w') && Agree(w', f)
    ensures f[w.slot] == (w.b + Shl(x, w.k)) % 256 && Mask(f[w.slot], w.k) == w.b
    ensures w.k + j == 8 ==> Mask(Shr(f[w.slot], w.k), j) == x && Shr(Shr(f[w.slot], w.k), j) == 0
  {
    hide Pow2, Shl, Mask, Shr;
    Ends(f[w.slot]);
    Buffered(w.b, w.k, j, x);
    if w.k + j == 8 {
      Above(f[w.slot], w.b, w.k, x, j);
    } else {
      Small((w.b + Shl(x, w.k)) / 256, w.k + j - 8);
      Across(f[w.slot], (w.b + Shl(x, w.k)) / 256, w.b, w.k, x, j);
    }
  }

  lemma Small(b: nat, k: nat)
    requires b < Pow2(k)
    ensures Mask(b, k) == b
  {
    hide Pow2;
    DivUnique(b, Pow2(k), 0, b);
  }

  ghost function PutAll(w: Writer, items: seq<Item>): (r: Writer)
    requires WriterOK(w) && forall i | 0 <= i < |items| :: ItemOK(items[i])
    ensures WriterOK(r)
    decreases |items|
  {
    if items == [] then w
    else
      PutOK(w, items[0]);
      PutAll(Put(w, items[0]), items[1..])
  }

  /** Whatever is put later, the final bytes agree with what has been written. */
  lemma {:induction false} AgreeAlways(w: Writer, items: seq<Item>)
    requires WriterOK(w) && forall i | 0 <= i < |items| :: ItemOK(items[i])
    ensures Agree(w, Flush(PutAll(w, items)))
    decreases |items|
  {
    hide Put, Agree;
    if items == [] {
      AgreeFlush(w);
    } else {
      PutOK(w, items[0]);
      AgreeAlways(Put(w, items[0]), items[1..]);
      AgreeBefore(w, items[0], Flush(PutAll(w, items)));
    }
  }

  lemma AgreeFlush(w: Writer)
    requires WriterOK(w)
    ensures Agree(w, Flush(w))
  {
    SmallPowers();
    hide Pow2, Mask;
    Small(w.b, w.k);
  }

  // ----- the reader -----

  /** `k` unread bits in `b`, and the position of the next byte. */
  datatype Reader = Reader(ip: nat, b: nat, k: nat)

  datatype Got = Short | Got(x: nat, r: Reader)

  /** NEEDBITS, MASKBITS and DUMPBITS. */
  function GetBits(f: seq<byte>, r: Reader, j: nat): (g: Got)
    requires j < 8
    ensures g.Got? ==> r.ip <= g.r.ip <= (if r.ip <= |f| then |f| else r.ip)
    ensures g.Got? ==> 8 * (|f| - g.r.ip) + g.r.k + j == 8 * (|f| - r.ip) + r.k
  {
    if r.k >= j then Got(Mask(r.b, j), Reader(r.ip, Shr(r.b, j), r.k - j))
    else if r.ip >= |f| then Short
    else
      var b := r.b + Shl(f[r.ip], r.k);
      Got(Mask(b, j), Reader(r.ip + 1, Shr(b, j), r.k + 8 - j))
  }

  function Get(f: seq<byte>, r: Reader, i: Item): Got
    requires ItemOK(i)
  {
    if i.Bits? then GetBits(f, r, i.j)
    else if r.ip >= |f| then Short else Got(f[r.ip], r.(ip := r.ip + 1))
  }

  /** Where the reader stands when the writer stood at `w`. */
  function At(w: Writer, f: seq<byte>): Reader
    requires WriterOK(w) && |w.out| <= |f|
  {
    if w.k == 0 then Reader(|w.out|, 0, 0) else Reader(|w.out|, Shr(f[w.slot], w.k), 8 - w.k)
  }

  /** The reader gets what was put, and is then where the writer was. */
  lemma GetBack(w: Writer, i: Item, f: seq<byte>)
    requires WriterOK(w) && ItemOK(i) && WriterOK(Put(w, i)) && Agree(Put(w, i), f) && |w.out| <= |f|
    ensures Get(f, At(w, f), i) == Got(if i.Bits? then i.x else i.b, At(Put(w, i), f))
  {
    if i.Bits? {
      GetBitsBack(w, i.j, i.x, f);
    }
  }

  lemma GetBitsBack(w: Writer, j: nat, x: nat, f: seq<byte>)
    requires WriterOK(w) && 1 <= j < 8 && x < Pow2(j) && |w.out| <= |f|
    requires var w' := Put(w, Bits(j, x)); WriterOK(w') && Agree(w', f)
    ensures GetBits(f, At(w, f), j) == Got(x, At(Put(w, Bits(j, x)), f))
  {
    hide Pow2, Shl, Mask, Shr;
    var w' := Put(w, Bits(j, x));
    if w.k == 0 {
      Ends(f[|w.out|]);
      ShlZero(x);
      ShlZero(f[|w.out|]);
    } else if w.k + j < 8 {
      Above(f[w.slot], w.b, w.k, x, j);
    } else {
      Filled(w, j, x, f);
      if w.k + j > 8 {
        Across(f[w.slot], f[w'.slot], w.b, w.k, x, j);
      }
    }
  }

  lemma ShlZero(x: nat)
    ensures Shl(x, 0) == x
  {
  }

  // ----- whole streams -----

  const EMPTY: Writer := Writer([], 0, 0, 0)

  predicate AllOK(items: seq<Item>) {
    forall i | 0 <= i < |items| :: ItemOK(items[i])
  }

  function Value(i: Item): nat {
    if i.Bits? then i.x else i.b
  }

  ghost function Written(items: seq<Item>): (w: Writer)
    requires AllOK(items)
    ensures WriterOK(w)
  {
    EmptyOK();
    PutAll(EMPTY, items)
  }

  lemma EmptyOK()
    ensures WriterOK(EMPTY)
  {
  }

  /** The bytes of a sequence of items. */
  ghost function Stream(items: seq<Item>): seq<byte>
    requires AllOK(items)
  {
    Flush(Written(items))
  }

  lemma {:induction false} PutAppend(w: Writer, a: seq<Item>, b: seq<Item>)
    requires WriterOK(w) && AllOK(a) && AllOK(b)
    ensures AllOK(a + b) && PutAll(w, a + b) == PutAll(PutAll(w, a), b)
    decreases |a|
  {
    hide Put;
    if a == [] {
      assert a + b == b;
    } else {
      PutOK(w, a[0]);
      PutAppend(Put(w, a[0]), a[1..], b);
      assert (a + b)[1..] == a[1..] + b;
    }
  }

  lemma PutOne(w: Writer, i: Item)
    requires WriterOK(w) && ItemOK(i)
    ensures WriterOK(Put(w, i)) && PutAll(w, [i]) == Put(w, i)
  {
    hide Put;
    PutOK(w, i);
    assert [i][1..] == [];
  }

  lemma WrittenSnoc(items: seq<Item>, i: Item)
    requires AllOK(items) && ItemOK(i)
    ensures AllOK(items + [i]) && Written(items + [i]) == Put(Written(items), i)
  {
    hide Put, PutAll;
    EmptyOK();
    PutAppend(EMPTY, items, [i]);
    PutOne(Written(items), i);
  }

  /** The reader's position before the `n`-th item. */
  ghost function ReaderAt(items: seq<Item>, n: nat): Reader
    requires AllOK(items) && n <= |items|
  {
    Agreed(items, n);
    At(Written(items[..n]), Stream(items))
  }

  lemma Agreed(items: seq<Item>, n: nat)
    requires AllOK(items) && n <= |items|
    ensures Agree(Written(items[..n]), Stream(items)) && |Written(items[..n]).out| <= |Stream(items)|
  {
    hide PutAll, Put, Flush;
    EmptyOK();
    assert items == items[..n] + items[n..];
    PutAppend(EMPTY, items[..n], items[n..]);
    AgreeAlways(Written(items[..n]), items[n..]);
  }

  /** Every item is read back where it was put, with the bytes put between the bits or not. */
  lemma ReadBack(items: seq<Item>, n: nat)
    requires AllOK(items) && n < |items|
    ensures Get(Stream(items), ReaderAt(items, n), items[n]) == Got(Value(items[n]), ReaderAt(items, n + 1))
  {
    hide PutAll, Put, Flush, Get, Agree;
    assert items[..n + 1] == items[..n] + [items[n]];
    WrittenSnoc(items[..n], items[n]);
    Agreed(items, n);
    Agreed(items, n + 1);
    GetBack(Written(items[..n]), items[n], Stream(items));
  }

  lemma ReaderEnds(items: seq<Item>)
    requires AllOK(items)
    ensures ReaderAt(items, 0) == Reader(0, 0, 0) && ReaderAt(items, |items|).ip == |Stream(items)|
  {
    hide Put;
    assert items[..0] == [] && items[..|items|] == items;
  }

  // ----- sizes -----

  function Width(i: Item): nat {
    if i.Bits? then i.j else 8
  }

  /** The number of bits put. */
  ghost function Weight(items: seq<Item>): nat {
    if items == [] then 0 else Width(items[0]) + Weight(items[1..])
  }

  lemma {:induction false} WeightSum(a: seq<Item>, b: seq<Item>)
    ensures Weight(a + b) == Weight(a) + Weight(b)
    decreases |a|
  {
    if a == [] {
      assert a + b == b;
    } else {
      WeightSum(a[1..], b);
      assert (a + b)[1..] == a[1..] + b;
    }
  }

  lemma WeightSnoc(items: seq<Item>, i: Item)
    ensures Weight(items + [i]) == Weight(items) + Width(i)
  {
    WeightSum(items, [i]);
    assert [i][1..] == [];
  }

  lemma NoWeight()
    ensures Weight([]) == 0
  {
  }

  /** The bits of a reserved byte that are still to come. */
  function Spare(w: Writer): int {
    if w.k == 0 then 0 else 8 - w.k
  }

  lemma {:induction false} PutAllSize(w: Writer, items: seq<Item>)
    requires WriterOK(w) && AllOK(items)
    ensures 8 * |PutAll(w, items).out| - Spare(PutAll(w, items)) == 8 * |w.out| - Spare(w) + Weight(items)
    decreases |items|
  {
    hide Pow2, Shl;
    if items != [] {
      PutOK(w, items[0]);
      PutAllSize(Put(w, items[0]), items[1..]);
    }
  }

  /** A stream of bits and bytes is no longer than its bits: less than a byte is lost. */
  lemma WrittenSize(items: seq<Item>)
    requires AllOK(items)
    ensures 8 * |Written(items).out| == Weight(items) + Spare(Written(items))
    ensures Weight(items) <= 8 * |Written(items).out| <= Weight(items) + 7
  {
    hide PutAll, Weight;
    EmptyOK();
    PutAllSize(EMPTY, items);
  }

  lemma SlotBehind(items: seq<Item>)
    requires AllOK(items) && items != [] && items[|items| - 1].Byte?
    ensures var w := Written(items); w.k > 0 ==> w.slot + 1 < |w.out| && w.b < Pow2(w.k)
  {
    hide PutAll, Pow2;
    var n := |items| - 1;
    WrittenSnoc(items[..n], items[n]);
    assert items[..n] + [items[n]] == items;
  }

  // ----- the macros -----

  /** The reserved byte counts as zero. */
  function Blank(bs: seq<byte>, slot: nat, k: nat): seq<byte>
    requires k > 0 ==> slot < |bs|
  {
    if k > 0 then bs[slot := 0] else bs
  }

  /** putbits, putbit and putbyte, and the flush at the end. A reserved byte holds anything until it
      is filled. */
  class BitSink {
    const buf: array<byte>
    var op: nat
    var bitp: nat
    var b: nat
    var k: nat
    ghost var items: seq<Item>

    ghost predicate Valid()
      reads this, buf
    {
      && op <= buf.Length && AllOK(items) && (k > 0 ==> bitp < op)
      && Writer(Blank(buf[..op], bitp, k), bitp, b, k) == Written(items)
    }

    constructor (buf: array<byte>)
      ensures this.buf == buf && Valid() && items == []
    {
      this.buf := buf;
      op, bitp, b, k := 0, 0, 0, 0;
      items := [];
    }

    method PutBits(j: nat, x: nat)
      requires Valid() && 1 <= j < 8 && x < Pow2(j) && Weight(items) + j + 7 <= 8 * buf.Length
      modifies this, buf
      ensures Valid() && items == old(items) + [Bits(j, x)] && Weight(items) == old(Weight(items)) + j
    {
      hide Pow2, Shl, PutAll, Weight;
      WrittenSnoc(items, Bits(j, x));
      WeightSnoc(items, Bits(j, x));
      WrittenSize(items);
      WrittenSize(items + [Bits(j, x)]);
      items := items + [Bits(j, x)];
      if k == 0 {
        bitp, op := op, op + 1;
      }
      b, k := b + Shl(x, k), k + j;
      assert k <= 32;
      if k >= 8 {
        buf[bitp] := b % 256;
        b, k := b / 256, k - 8;
        if k > 0 {
          bitp, op := op, op + 1;
        }
      }
    }

    method PutByte(x: byte)
      requires Valid() && Weight(items) + 8 + 7 <= 8 * buf.Length
      modifies this, buf
      ensures Valid() && items == old(items) + [Byte(x)] && Weight(items) == old(Weight(items)) + 8
    {
      hide PutAll, Weight;
      WrittenSnoc(items, Byte(x));
      WeightSnoc(items, Byte(x));
      WrittenSize(items);
      ghost var was := Blank(buf[..op], bitp, k);
      items := items + [Byte(x)];
      buf[op] := x;
      op := op + 1;
      assert Blank(buf[..op], bitp, k) == was + [x];
    }

    /** Behind a byte, the reserved one is not the last. */
    method FlushBits()
      requires Valid() && items != [] && items[|items| - 1].Byte?
      modifies buf
      ensures buf[..op] == Stream(items) && 8 * op <= Weight(items) + 7
    {
      hide PutAll, Put;
      WrittenSize(items);
      SlotBehind(items);
      if k > 0 {
        Small(b, k);
        assert b == Mask(b, k) && op - bitp > 1;
        buf[bitp] := b % 256;
      }
    }
  }

  /** NEEDBITS, MASKBITS and DUMPBITS, and the next whole byte. */
  class BitSource {
    const src: seq<byte>
    var ip: nat
    var b: nat
    var k: nat

    ghost function R(): Reader
      reads this
    {
      Reader(ip, b, k)
    }

    constructor (src: seq<byte>)
      ensures this.src == src && R() == Reader(0, 0, 0)
    {
      this.src := src;
      ip, b, k := 0, 0, 0;
    }

    method TakeBits(j: nat) returns (ok: bool, x: nat)
      requires j < 8 && ip <= |src|
      modifies this
      ensures ip <= |src| && old(ip) <= ip && (ok <==> GetBits(src, old(R()), j).Got?)
      ensures ok ==> GetBits(src, old(R()), j) == Got(x, R())
      ensures ok ==> 8 * (|src| - ip) + k + j == old(8 * (|src| - ip) + k)
    {
      if k < j {
        if ip >= |src| {
          return false, 0;
        }
        b := b + Shl(src[ip], k);
        k, ip := k + 8, ip + 1;
      }
      ok, x := true, Mask(b, j);
      b, k := Shr(b, j), k - j;
    }

    method TakeByte() returns (ok: bool, x: byte)
      requires ip <= |src|
      modifies `ip
      ensures ip <= |src| && old(ip) <= ip && (ok <==> old(ip) < |src|)
      ensures ok ==> x == src[old(ip)] && ip == old(ip) + 1
    {
      ok, x := ip < |src|, 0;
      if ok {
        x := src[ip];
        ip := ip + 1;
      }
    }
  }
}
