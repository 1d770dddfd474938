/**
 Inserting and extracting codes of 9 to 13 bits at any bit offset of a byte
 buffer, as output() and getcode() do it.  Masks and shifts are written as
 remainders and quotients by powers of two.
 */
module LzwBits {
  import opened Common
  import opened LzwStream

  /** x & rmask[k] */
  function Low(x: nat, k: nat): nat {
    x % Pow2Small(k)
  }

  /** x >> k */
  function Shr(x: nat, k: nat): nat {
    x / Pow2Small(k)
  }

  /** x << k */
  function Shl(x: nat, k: nat): nat {
    x * Pow2(k)
  }

  // ----- arithmetic of shifts -----

  lemma SmallIsPow2(k: nat)
    requires k <= 8
    ensures Pow2Small(k) == Pow2(k) <= 256
  {
    Pow2Table();
  }

  lemma LowIs(x: nat, k: nat)
    requires k <= 8 && x < Pow2(k)
    ensures Low(x, k) == x && x < 256
  {
    hide Pow2, Pow2Small;
    SmallIsPow2(k);
  }

  lemma LowFits(x: nat, k: nat)
    requires k <= 8
    ensures Low(x, k) < Pow2(k) <= 256
  {
    hide Pow2, Pow2Small;
    SmallIsPow2(k);
  }

  lemma Recombine(x: nat, k: nat)
    requires k <= 8
    ensures x == Low(x, k) + Shl(Shr(x, k), k)
  {
    hide Pow2, Pow2Small;
    SmallIsPow2(k);
  }

  lemma MulMono(p: nat, a: nat, b: nat)
    requires a <= b
    ensures p * a <= p * b
  {
  }

  lemma ShrFits(x: nat, n: nat, k: nat)
    requires k <= n && k <= 8 && x < Pow2(n)
    ensures Shr(x, k) < Pow2(n - k)
  {
    hide Pow2, Pow2Small;
    SmallIsPow2(k);
    Pow2Add(k, n - k);
    var p := Pow2Small(k);
    if x / p >= Pow2(n - k) {
      MulMono(p, Pow2(n - k), x / p);
      assert false;
    }
  }

  lemma ShlSum(a: nat, b: nat, k: nat)
    ensures Shl(a + Shl(b, 8), k) == Shl(a, k) + Shl(b, k + 8)
  {
    hide Pow2;
    Pow2Add(k, 8);
    assert b * Pow2(8) * Pow2(k) == b * (Pow2(8) * Pow2(k));
  }

  lemma NoShift(x: nat)
    ensures Shr(x, 0) == x && Shl(x, 0) == x && Shl(0, x) == 0
  {
  }

  // ----- codes in buffers -----

  /** A code is its first a bits and then the rest. */
  lemma {:induction false} CodeSplit(bs: seq<byte>, off: nat, a: nat, b: nat)
    requires off + a + b <= 8 * |bs|
    ensures CodeAt(bs, off, a + b) == CodeAt(bs, off, a) + Shl(CodeAt(bs, off + a, b), a)
    decreases a
  {
    hide BitAt;
    if a > 0 {
      CodeSplit(bs, off + 1, a - 1, b);
      Doubled(CodeAt(bs, off + a, b), Pow2(a - 1));
    }
  }

  lemma Doubled(x: nat, y: nat)
    ensures 2 * (x * y) == x * (2 * y)
  {
  }

  lemma DivStep(x: byte, r: nat)
    requires r < 8
    ensures Shr(x, r + 1) == Shr(x, r) / 2
  {
  }

  lemma ModStep(x: nat, m: nat)
    requires 1 <= m <= 8
    ensures Low(x, m) == x % 2 + 2 * Low(x / 2, m - 1)
  {
    var h, y := Pow2Small(m - 1), x / 2;
    assert Pow2Small(m) == 2 * h;
    ModDouble(x, y, h);
  }

  lemma ModDouble(x: nat, y: nat, h: nat)
    requires h >= 1 && y == x / 2
    ensures x % (2 * h) == x % 2 + 2 * (y % h)
  {
    assert x == 2 * (h * (y / h) + y % h) + x % 2;
    Doubled(y / h, h);
    DivModUnique(x, 2 * h, y / h, 2 * (y % h) + x % 2);
  }

  /** Bits within one byte. */
  lemma {:induction false} CodeInByte(bs: seq<byte>, q: nat, r: nat, m: nat)
    requires q < |bs| && r + m <= 8
    ensures CodeAt(bs, 8 * q + r, m) == Low(Shr(bs[q], r), m)
    decreases m
  {
    if m > 0 {
      hide Pow2Small, Low;
      CodeInByte(bs, q, r + 1, m - 1);
      assert (8 * q + r) / 8 == q && (8 * q + r) % 8 == r;
      DivStep(bs[q], r);
      ModStep(Shr(bs[q], r), m);
    }
  }

  /** Buffers that agree below bit off hold the same codes there. */
  ghost predicate SameBelow(a: seq<byte>, b: seq<byte>, off: nat) {
    && |a| == |b| && off <= 8 * |a|
    && (forall i :: 0 <= i < off / 8 ==> a[i] == b[i])
    && (off % 8 != 0 ==> Low(a[off / 8], off % 8) == Low(b[off / 8], off % 8))
  }

  lemma DivHalf(x: byte, t: nat)
    requires 1 <= t < 8
    ensures Shr(x, t) == Shr(x / 2, t - 1)
  {
  }

  lemma {:induction false} LowBit(x: byte, r: nat, t: nat)
    requires t < r < 8
    ensures Shr(x, t) % 2 == Shr(Low(x, r), t) % 2
    decreases t
  {
    hide Pow2Small, Low, Shr;
    NoShift(x);
    NoShift(Low(x, r));
    ModStep(x, r);
    if t > 0 {
      DivHalf(x, t);
      LowFits(x, r);
      DivHalf(Low(x, r), t);
      LowBit(x / 2, r - 1, t - 1);
    }
  }

  lemma {:induction false} SameCode(a: seq<byte>, b: seq<byte>, off: nat, o: nat, n: nat)
    requires SameBelow(a, b, off) && o + n <= off
    ensures CodeAt(a, o, n) == CodeAt(b, o, n)
    decreases n
  {
    hide Low, Pow2Small;
    if n > 0 {
      SameCode(a, b, off, o + 1, n - 1);
      if o / 8 == off / 8 {
        LowBit(a[o / 8], off % 8, o % 8);
        LowBit(b[o / 8], off % 8, o % 8);
      }
    }
  }

  /** A code that starts on a byte boundary. */
  lemma AlignedCode(bs: seq<byte>, q: nat, n: nat, c: nat)
    requires 1 <= n <= 12 && c < Pow2(n) && 8 * q + n <= 8 * |bs|
    requires bs[q] == Low(c, 8)
    requires n > 8 ==> q + 1 < |bs| && bs[q + 1] == Low(Shr(c, 8), 8)
    ensures CodeAt(bs, 8 * q, n) == c
  {
    hide CodeAt, Pow2, Pow2Small, Low, Shr, Shl;
    NoShift(bs[q]);
    if n <= 8 {
      CodeInByte(bs, q, 0, n);
      LowLow(c, n);
      LowIs(c, n);
    } else {
      CodeInByte(bs, q, 0, 8);
      LowLow(c, 8);
      NoShift(bs[q + 1]);
      CodeInByte(bs, q + 1, 0, n - 8);
      ShrFits(c, n, 8);
      LowLow(Shr(c, 8), n - 8);
      LowIs(Shr(c, 8), n - 8);
      CodeSplit(bs, 8 * q, 8, n - 8);
      Recombine(c, 8);
    }
  }

  lemma LowLow(c: nat, n: nat)
    requires n <= 8 && (n == 8 || c < Pow2(n))
    ensures Low(Low(c, 8), n) == Low(c, n)
  {
    hide Pow2, Pow2Small;
    SmallIsPow2(n);
    SmallIsPow2(8);
    EightBits();
  }

  lemma EightBits()
    ensures Pow2Small(8) == 256
  {
  }

  /** A code that fills the upper part of byte q and goes on after it. */
  lemma SplitCode(bs: seq<byte>, q: nat, r: nat, n: nat, code: nat)
    requires r < 8 && 9 <= n <= 13 && 8 * q + r + n <= 8 * |bs|
    requires Shr(bs[q], r) == Low(code, 8 - r)
    requires CodeAt(bs, 8 * (q + 1), n - (8 - r)) == Shr(code, 8 - r)
    ensures CodeAt(bs, 8 * q + r, n) == code
  {
    hide CodeAt, Pow2, Pow2Small, Low, Shr, Shl;
    CodeInByte(bs, q, r, 8 - r);
    CodeSplit(bs, 8 * q + r, 8 - r, n - (8 - r));
    assert 8 * q + r + (8 - r) == 8 * (q + 1);
    LowFits(code, 8 - r);
    LowIs(Low(code, 8 - r), 8 - r);
    Recombine(code, 8 - r);
  }

  /** A byte with its low r bits kept and the bits above them replaced. */
  function Join(b: byte, r: nat, low: nat): (x: byte)
    requires r < 8 && low < Pow2Small(8 - r)
    ensures Low(x, r) == Low(b, r)
    ensures Shr(x, r) == low
  {
    var k := Pow2Small(r);
    Joined(b % k, low, r);
    b % k + low * k
  }

  lemma Joined(a: nat, low: nat, r: nat)
    requires r < 8 && low < Pow2Small(8 - r) && a < Pow2Small(r)
    ensures var x := a + low * Pow2Small(r);
            x < 256 && Low(x, r) == Low(a, r) == a && Shr(x, r) == low
  {
    var k, m := Pow2Small(r), Pow2Small(8 - r);
    assert k * m == 256;
    hide Pow2Small;
    MulMono(k, low + 1, m);
    DivModUnique(a + low * k, k, low, a);
  }

  /** output(): insert code at bit off of buf. */
  method PutCode(buf: array<byte>, off: nat, nbits: nat, code: nat)
    requires 9 <= nbits <= 13 && code < Pow2(nbits)
    requires off + nbits <= 8 * buf.Length
    modifies buf
    ensures CodeAt(buf[..], off, nbits) == code
    ensures SameBelow(buf[..], old(buf[..]), off)
  {
    hide CodeAt, Pow2, Pow2Small, Low, Shr, Shl;
    var q, r := off / 8, off % 8;
    var bp, bits, c := q, nbits, code;
    var first := 8 - r;
    LowFits(c, first);
    SmallIsPow2(first);
    buf[bp] := Join(buf[bp], r, Low(c, first));
    bp := bp + 1;
    bits := bits - first;
    c := Shr(c, first);
    ghost var rest, c1 := bits, c;
    ShrFits(code, nbits, first);
    LowFits(c, 8);
    if bits >= 8 {
      buf[bp] := Low(c, 8);
      bp := bp + 1;
      c := Shr(c, 8);
      bits := bits - 8;
    }
    if bits != 0 {
      LowFits(c, 8);
      buf[bp] := Low(c, 8);
    }
    AlignedCode(buf[..], q + 1, rest, c1);
    SplitCode(buf[..], q, r, nbits, code);
  }

  /** The upper bits of a byte are all that is left of it. */
  lemma UpperBits(x: byte, r: nat)
    requires r < 8
    ensures Low(Shr(x, r), 8 - r) == Shr(x, r)
  {
  }

  /** getcode(): extract the code at bit off of buf. */
  method GetBits(buf: array<byte>, off: nat, nbits: nat) returns (code: nat)
    requires 9 <= nbits <= 13
    requires off + nbits <= 8 * buf.Length
    ensures code == CodeAt(buf[..], off, nbits)
  {
    hide CodeAt, Pow2, Pow2Small, Low, Shr, Shl;
    var q, r := off / 8, off % 8;
    var bp, bits := q, nbits;
    ghost var bs := buf[..];
    code := Shr(buf[bp], r);
    bp := bp + 1;
    bits := bits - (8 - r);
    var rOff := 8 - r;
    CodeInByte(bs, q, r, 8 - r);
    UpperBits(bs[q], r);
    CodeSplit(bs, off, 8 - r, bits);
    assert off + (8 - r) == 8 * (q + 1);
    if bits >= 8 {
      code := code + Shl(buf[bp], rOff);
      CodeInByte(bs, q + 1, 0, 8);
      NoShift(bs[q + 1]);
      UpperBits(bs[q + 1], 0);
      CodeSplit(bs, 8 * (q + 1), 8, bits - 8);
      ShlSum(buf[bp], CodeAt(bs, 8 * (q + 2), bits - 8), rOff);
      bp := bp + 1;
      rOff := rOff + 8;
      bits := bits - 8;
    }
    if bits != 0 {
      CodeInByte(bs, bp, 0, bits);
      NoShift(bs[bp]);
      code := code + Shl(Low(buf[bp], bits), rOff);
    } else {
      NoBits(bs, 8 * bp);
      NoShift(rOff);
    }
  }

  lemma NoBits(bs: seq<byte>, off: nat)
    requires off <= 8 * |bs|
    ensures CodeAt(bs, off, 0) == 0
  {
  }
}
