/** tools/mkfs.py: the mode of an inode and the number of a device, as a prototype writes them. */
module MkfsMode {
  import opened Common
  import opened MinixImage

  const I_SET_UID_BIT := 0x800
  const I_SET_GID_BIT := 0x400

  predicate Octal(c: char) {
    '0' <= c <= '7'
  }

  function Value(c: char): nat
    requires Octal(c)
  {
    (c - '0') as nat
  }

  /** int(s, 8) of octal digits, behind v; None: an exception. */
  function Int8(s: string, v: nat): Option<nat> {
    if s == [] then Some(v) else if Octal(s[0]) then Int8(s[1..], 8 * v + Value(s[0])) else None
  }

  function TypeBits(c: char): nat {
    match c
    case 'd' => I_DIRECTORY
    case 'b' => I_BLOCK_SPECIAL
    case 'c' => I_CHAR_SPECIAL
    case '-' => I_REGULAR
    case _ => 0
  }

  /** mode_con(); None: an error. */
  function ModeCon(p: string): Option<nat> {
    if |p| != 6 then None
    else
      match Int8(p[3..], 0)
      case None => None
      case Some(v) =>
        Some(v + TypeBits(p[0]) + (if p[1] == 'u' then I_SET_UID_BIT else 0)
            + (if p[2] == 'g' then I_SET_GID_BIT else 0))
  }

  /** A type, two flags and three octal digits. */
  predicate IsMode(p: string) {
    |p| == 6 && Octal(p[3]) && Octal(p[4]) && Octal(p[5])
  }

  /** The mode word has the three digits, the set-id bits and the type the characters say. */
  predicate Says(mode: nat, p: string)
    requires IsMode(p)
  {
    && mode % 8 == Value(p[5]) && mode / 8 % 8 == Value(p[4]) && mode / 64 % 8 == Value(p[3])
    && mode / 512 % 2 == 0 && (mode / 1024 % 2 == 1 <==> p[2] == 'g') && (mode / 2048 % 2 == 1 <==> p[1] == 'u')
    && mode / 4096 == (if p[0] == '-' then 8 else if p[0] == 'd' then 4 else if p[0] == 'b' then 6
                       else if p[0] == 'c' then 2 else 0)
  }

  lemma ModeConSays(p: string)
    ensures ModeCon(p).Some? <==> IsMode(p)
    ensures IsMode(p) ==> Says(ModeCon(p).value, p)
  {
    if |p| == 6 {
      Int8Three(p[3..]);
      assert p[3..][0] == p[3] && p[3..][1] == p[4] && p[3..][2] == p[5];
      if IsMode(p) {
        ModeBits(Value(p[3]), Value(p[4]), Value(p[5]), p[1] == 'u', p[2] == 'g', TypeBits(p[0]) / 4096);
      }
    }
  }

  lemma Int8Three(s: string)
    requires |s| == 3
    ensures Int8(s, 0) == if Octal(s[0]) && Octal(s[1]) && Octal(s[2])
                          then Some(64 * Value(s[0]) + 8 * Value(s[1]) + Value(s[2])) else None
  {
    hide Int8;
    Int8Step(s, 0);
    if Octal(s[0]) {
      var s1, v1 := s[1..], Value(s[0]);
      Int8Step(s1, v1);
      if Octal(s[1]) {
        var s2, v2 := s1[1..], 8 * v1 + Value(s[1]);
        Int8Step(s2, v2);
        if Octal(s[2]) {
          Int8Step(s2[1..], 8 * v2 + Value(s[2]));
        }
      }
    }
  }

  lemma Int8Step(s: string, v: nat)
    ensures Int8(s, v) == if s == [] then Some(v)
                          else if Octal(s[0]) then Int8(s[1..], 8 * v + Value(s[0])) else None
  {
  }

  lemma ModeBits(x: nat, y: nat, z: nat, u: bool, g: bool, t: nat)
    requires x < 8 && y < 8 && z < 8
    ensures var mode := 64 * x + 8 * y + z + 4096 * t + (if u then 2048 else 0) + (if g then 1024 else 0);
            && mode % 8 == z && mode / 8 % 8 == y && mode / 64 % 8 == x && mode / 512 % 2 == 0
            && (mode / 1024 % 2 == 1 <==> g) && (mode / 2048 % 2 == 1 <==> u) && mode / 4096 == t
  {
    var a := 2 * t + if u then 1 else 0;
    var b := 2 * a + if g then 1 else 0;
    var c := 2 * b;
    var d := 8 * c + x;
    var e := 8 * d + y;
    var mode := 8 * e + z;
    DivModUnique(mode, 8, e, z);
    Digit(mode, 8, 8, e, d, y);
    Digit(mode, 64, 8, d, c, x);
    Digit(mode, 512, 2, c, b, 0);
    Digit(mode, 1024, 2, b, a, if g then 1 else 0);
    Digit(mode, 2048, 2, a, t, if u then 1 else 0);
  }

  /** The next digit of a number. */
  lemma Digit(n: nat, p: nat, q: nat, rest: nat, high: nat, d: nat)
    requires p > 0 && q > 0 && n / p == rest && rest == q * high + d && d < q
    ensures n / p % q == d && n / (p * q) == high
  {
    DivModUnique(rest, q, high, d);
    var low := n % p;
    assert n == p * rest + low;
    MulNext(p, q, d);
    assert p * rest + low == p * (q * high) + (p * d + low);
    assert p * (q * high) == (p * q) * high;
    assert p * q > 0;
    DivModUnique(n, p * q, high, p * d + low);
  }

  lemma MulNext(p: nat, q: nat, d: nat)
    requires d < q
    ensures p * d + p <= p * q
  {
    assert p * (d + 1) == p * d + p;
  }

  // ----- devices -----

  /** x | y */
  function Or(x: nat, y: nat): nat
    decreases x + y
  {
    if x == 0 && y == 0 then 0 else 2 * Or(x / 2, y / 2) + if x % 2 == 1 || y % 2 == 1 then 1 else 0
  }

  /** The number of a device: (maj << 8) | minor */
  function DeviceNumber(major: nat, minor: nat): nat {
    Or(256 * major, minor)
  }

  lemma {:induction false} OrShifted(k: nat, x: nat, y: nat)
    requires y < Pow2(k)
    ensures Or(Pow2(k) * x, y) == Pow2(k) * x + y
    decreases k, x
  {
    if k == 0 {
      OrZero(x);
    } else if Pow2(k) * x != 0 || y != 0 {
      var p := Pow2(k - 1);
      HalfOf(p, x);
      OrShifted(k - 1, x, y / 2);
    }
  }

  lemma HalfOf(p: nat, x: nat)
    ensures 2 * p * x / 2 == p * x && 2 * p * x % 2 == 0
  {
    DivModUnique(2 * p * x, 2, p * x, 0);
  }

  lemma {:induction false} OrZero(x: nat)
    ensures Or(x, 0) == x
  {
    if x > 0 {
      OrZero(x / 2);
    }
  }

  /** Major and minor number can be told apart again if the minor one has eight bits. */
  lemma DeviceParts(major: nat, minor: nat)
    requires minor < 256
    ensures DeviceNumber(major, minor) / 256 == major && DeviceNumber(major, minor) % 256 == minor
  {
    Pow2Table();
    OrShifted(8, major, minor);
    DivModUnique(DeviceNumber(major, minor), 256, major, minor);
  }
}
