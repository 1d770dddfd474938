/**
 The secondary probe of compress(1) steps through the whole hash table: the
 table size is prime and the step is smaller than it.
 */
module LzwProbe {
  import opened Common

  const HSIZE := 9001

  predicate NoDivisorUpTo(n: nat, k: nat) {
    if k < 2 then true else n % k != 0 && NoDivisorUpTo(n, k - 1)
  }

  lemma {:induction false} NoDivisorAt(n: nat, k: nat, d: nat)
    requires NoDivisorUpTo(n, k) && 2 <= d <= k
    ensures n % d != 0
  {
    if d < k {
      NoDivisorAt(n, k - 1, d);
    }
  }

  lemma SixMore(k: nat)
    requires k >= 1 && NoDivisorUpTo(HSIZE, k)
    requires HSIZE % (k + 1) != 0 && HSIZE % (k + 2) != 0 && HSIZE % (k + 3) != 0
    requires HSIZE % (k + 4) != 0 && HSIZE % (k + 5) != 0 && HSIZE % (k + 6) != 0
    ensures NoDivisorUpTo(HSIZE, k + 6)
  {
    assert NoDivisorUpTo(HSIZE, k + 1);
    assert NoDivisorUpTo(HSIZE, k + 2);
    assert NoDivisorUpTo(HSIZE, k + 3);
    assert NoDivisorUpTo(HSIZE, k + 4);
    assert NoDivisorUpTo(HSIZE, k + 5);
  }

  lemma NoSmallDivisor()
    ensures NoDivisorUpTo(HSIZE, 97)
  {
    assert NoDivisorUpTo(HSIZE, 1);
    hide NoDivisorUpTo;
    SixMore(1);
    SixMore(7);
    SixMore(13);
    SixMore(19);
    SixMore(25);
    SixMore(31);
    SixMore(37);
    SixMore(43);
    SixMore(49);
    SixMore(55);
    SixMore(61);
    SixMore(67);
    SixMore(73);
    SixMore(79);
    SixMore(85);
    SixMore(91);
  }

  /** 9001 is prime: it has no divisor up to 97, and 95 * 95 > 9001. */
  lemma SizeIsPrime(a: nat, b: nat)
    requires a * b == HSIZE
    ensures a == 1 || b == 1
  {
    hide NoDivisorUpTo;
    NoSmallDivisor();
    if a >= 95 && b >= 95 {
      Product(a, b);
      assert false;
    } else if 2 <= a <= 94 {
      NoDivisorAt(HSIZE, 97, a);
      DivModUnique(HSIZE, a, b, 0);
    } else if 2 <= b <= 94 {
      NoDivisorAt(HSIZE, 97, b);
      DivModUnique(HSIZE, b, a, 0);
    }
  }

  lemma Product(a: nat, b: nat)
    requires a >= 95 && b >= 95
    ensures a * b >= 95 * 95
  {
  }

  /** Euclid's algorithm: a common divisor g of a and b, as a sum of multiples of them. */
  lemma {:induction false} Bezout(a: nat, b: nat) returns (g: nat, x: int, y: int, u: nat, v: nat)
    requires a > 0
    ensures g > 0 && a * x + b * y == g && a == g * u && b == g * v
    decreases b
  {
    if b == 0 {
      g, x, y, u, v := a, 1, 0, 1, 0;
    } else {
      var q, r := a / b, a % b;
      var x1, y1, u1, v1;
      g, x1, y1, u1, v1 := Bezout(b, r);
      x, y := y1, x1 - q * y1;
      u, v := q * u1 + v1, u1;
      assert a == b * q + r;
      BezoutStep(a, b, q, r, g, x1, y1, u1, v1);
    }
  }

  lemma BezoutStep(a: nat, b: nat, q: nat, r: nat, g: nat, x: int, y: int, u: nat, v: nat)
    requires a == b * q + r && b * x + r * y == g && b == g * u && r == g * v
    ensures a * y + b * (x - q * y) == g
    ensures a == g * (q * u + v)
  {
    assert a * y == b * q * y + r * y;
    assert b * (x - q * y) == b * x - b * (q * y);
    assert g * (q * u + v) == q * (g * u) + g * v;
  }

  /** From any slot the probe reaches any other, whatever its step. */
  lemma ProbeReaches(start: nat, step: nat, slot: nat) returns (k: nat, z: int)
    requires start < HSIZE && slot < HSIZE && 1 <= step < HSIZE
    ensures k >= 1 && start - k * step == slot + HSIZE * z
  {
    var g, x, y, u, v := Bezout(step, HSIZE);
    SizeIsPrime(g, v);
    if v == 1 {
      assert step == HSIZE * u;
      StepTooLarge(step, u);
      assert false;
    }
    // step * x == 1 (mod HSIZE)
    var d := start - slot;
    k := d * x % HSIZE + HSIZE;
    var m := d * x / HSIZE - 1;
    assert k == d * x - HSIZE * m;
    z := d * y + m * step;
    Landing(d, step, x, y, k, m);
  }

  lemma StepTooLarge(step: nat, u: nat)
    requires 1 <= step < HSIZE
    ensures step != HSIZE * u
  {
  }

  lemma Landing(d: int, step: int, x: int, y: int, k: int, m: int)
    requires step * x + HSIZE * y == 1 && k == d * x - HSIZE * m
    ensures d - k * step == HSIZE * (d * y + m * step)
  {
    assert k * step == d * (step * x) - HSIZE * (m * step);
    assert d * (step * x) == d * (1 - HSIZE * y) == d - d * (HSIZE * y);
    assert d * (HSIZE * y) == HSIZE * (d * y);
  }

  /** Fewer entries than slots: some slot is free. */
  lemma FreeSlot(n: nat, filled: set<nat>) returns (slot: nat)
    requires |filled| < n
    ensures slot < n && slot !in filled
  {
    if Below(n) <= filled {
      SubsetSize(Below(n), filled);
      assert false;
    }
    slot :| slot in Below(n) && slot !in filled;
  }
}
