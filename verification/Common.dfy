/** Types shared by the models of the separate programs. */
module Common {

  type byte = x: int | 0 <= x < 256

  datatype Option<+T> = None | Some(value: T) {
    function GetOr(other: T): T {
      if Some? then value else other
    }
  }

  function Min(a: int, b: int): int {
    if a < b then a else b
  }

  function Pow2(n: nat): nat
  {
    if n == 0 then 1 else 2 * Pow2(n - 1)
  }

  lemma {:induction false} Pow2Add(a: nat, b: nat)
    ensures Pow2(a + b) == Pow2(a) * Pow2(b)
  {
    if a > 0 {
      Pow2Add(a - 1, b);
      assert Pow2(a) * Pow2(b) == 2 * Pow2(a - 1) * Pow2(b);
    }
  }

  lemma {:induction false} Pow2Positive(a: nat)
    ensures Pow2(a) >= 1
  {
    if a > 0 {
      Pow2Positive(a - 1);
    }
  }

  /** The powers of two the programs use. */
  lemma Pow2Table()
    ensures Pow2(0) == 1 && Pow2(1) == 2 && Pow2(2) == 4 && Pow2(3) == 8 && Pow2(4) == 16
    ensures Pow2(5) == 32 && Pow2(6) == 64 && Pow2(7) == 128 && Pow2(8) == 256
    ensures Pow2(9) == 512 && Pow2(10) == 1024 && Pow2(11) == 2048 && Pow2(12) == 4096 && Pow2(13) == 8192
  {
  }

  // ----- division -----

  lemma SmallMultiple(d: int, k: int)
    requires d > 0 && -d < d * k < d
    ensures k == 0
  {
  }

  /** Quotient and remainder are determined by x == d * q + r. */
  lemma DivModUnique(x: int, d: int, q: int, r: int)
    requires d > 0 && 0 <= r < d && x == d * q + r
    ensures x / d == q && x % d == r
  {
    var k := x / d - q;
    assert d * k == d * (x / d) - d * q;
    SmallMultiple(d, k);
  }

  // ----- 16-bit words -----

  const WORD16 := 0x1_0000
  const INT_MAX := 0x7FFF

  /** A number in an int of the programs, which has 16 bits: what does not fit comes round. */
  function Int16(x: int): (v: int)
    ensures -INT_MAX - 1 <= v <= INT_MAX
    ensures -INT_MAX - 1 <= x <= INT_MAX ==> v == x
  {
    (x + INT_MAX + 1) % WORD16 - INT_MAX - 1
  }

  /** Sums of such numbers come round as the sums of the numbers do. */
  lemma Int16Sum(a: int, b: int)
    ensures Int16(Int16(a) + b) == Int16(a + b) && Int16(Int16(a) + Int16(b)) == Int16(a + b)
  {
    Int16Near(a);
    Int16Near(b);
    Int16Round(a + b, (a - Int16(a)) / WORD16);
    Int16Round(a + b, (a - Int16(a)) / WORD16 + (b - Int16(b)) / WORD16);
  }

  lemma Int16Near(a: int)
    ensures Int16(a) == a - WORD16 * ((a - Int16(a)) / WORD16)
  {
  }

  lemma Int16Round(a: int, k: int)
    ensures Int16(a - WORD16 * k) == Int16(a)
  {
    var y := a + INT_MAX + 1;
    DivModUnique(y - WORD16 * k, WORD16, y / WORD16 - k, y % WORD16);
  }

  // ----- 32-bit words -----

  const WORD32 := 0x1_0000_0000

  /** The big-endian long at p. */
  function Long(b: seq<byte>, p: nat): (v: nat)
    requires p + 4 <= |b|
    ensures v < WORD32
  {
    var x0: nat, x1: nat, x2: nat, x3: nat := b[p], b[p + 1], b[p + 2], b[p + 3];
    0x1_0000 * (256 * x0 + x1) + (256 * x2 + x3)
  }

  function PackLong(v: nat): (b: seq<byte>)
    requires v < WORD32
    ensures |b| == 4 && Long(b, 0) == v
  {
    var hi, lo := v / 0x1_0000, v % 0x1_0000;
    [hi / 256, hi % 256, lo / 256, lo % 256]
  }

  // ----- small sets and blocks -----

  function Zeros(n: nat): (z: seq<byte>)
    ensures |z| == n && forall i :: 0 <= i < n ==> z[i] == 0
  {
    seq(n, _ => 0)
  }

  function Below(n: nat): (s: set<nat>)
    ensures |s| == n && forall i :: i in s <==> 0 <= i < n
  {
    if n == 0 then {} else Below(n - 1) + {n - 1}
  }

  lemma SubsetSize(a: set<nat>, b: set<nat>)
    requires a <= b
    ensures |a| <= |b|
  {
    assert b == a + (b - a);
  }
}
