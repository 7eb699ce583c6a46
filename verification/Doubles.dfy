/** IEEE 754 double arithmetic, as far as the codecs of the example message library depend on it
  * (dse/network/examples/stub/stub.c): what survives in exact reals need not survive in doubles. */
module Doubles {
  import opened Arithmetic

  const LEAST := 0x10_0000_0000_0000

  /** The double m * 2^e; positive and normal, with 53 bits, where rounding yields it. The exponent is not bounded here. */
  datatype Double = Double(m: nat, e: int) {
    /** 2^e is Up / Down. */
    function Up(): (p: nat)
      ensures p >= 1
    {
      if e >= 0 then Pow2(e) else 1
    }

    function Down(): (p: nat)
      ensures p >= 1
    {
      if e >= 0 then 1 else Pow2(-e)
    }

    /** Conversion to an integer type. */
    function Truncated(): int {
      m * Up() / Down()
    }
  }

  /** m units are nearest to x, ties to even; below a power of two the doubles are twice as dense. */
  predicate Nearest(x: int, unit: nat, m: nat) {
    var error := x - m * unit;
    && LEAST <= m < 2 * LEAST
    && -(unit as int) <= 2 * error <= unit
    && (2 * error == unit || 2 * error == -(unit as int) ==> m % 2 == 0)
    && (m == LEAST ==> -(unit as int) <= 4 * error)
  }

  /** d is num / den, rounded (section 4.3.1 of IEEE 754, roundTiesToEven). */
  predicate RoundsTo(num: int, den: nat, d: Double) {
    Nearest(num * d.Down(), d.Up() * den, d.m)
  }

  // ---- Rounding has one result ----

  lemma Scaled(x: int, unit: nat, m: nat, k: nat)
    requires Nearest(x, unit, m) && k >= 1
    ensures Nearest(x * k, unit * k, m)
  {
    var error, u: int := x - m * unit, unit;
    ScaledError(x, unit, m, k);
    MulOrder(-u, 2 * error, k);
    MulOrder(2 * error, -u, k);
    MulOrder(2 * error, u, k);
    MulOrder(u, 2 * error, k);
    MulOrder(-u, 4 * error, k);
    Regroup(error, u, k);
  }

  lemma ScaledError(x: int, unit: nat, m: nat, k: nat)
    ensures x * k - m * (unit * k) == (x - m * unit) * k
  {
  }

  lemma Regroup(error: int, unit: int, k: int)
    ensures 2 * error * k == 2 * (error * k) && 4 * error * k == 4 * (error * k) && -unit * k == -(unit * k)
  {
  }

  lemma NotAbove(x: int, unit: nat, m: nat, n: nat)
    requires unit >= 1 && m < n && Nearest(x, unit, m)
    ensures !Nearest(x, unit, n)
  {
    assert (m + 1) * unit == m * unit + unit && (m + 2) * unit == m * unit + 2 * unit;
    if n > m + 1 {
      MulOrder(m + 2, n, unit);
    }
  }

  lemma SameUnit(x: int, unit: nat, m: nat, n: nat)
    requires unit >= 1 && Nearest(x, unit, m) && Nearest(x, unit, n)
    ensures m == n
  {
    if m < n {
      NotAbove(x, unit, m, n);
    } else if n < m {
      NotAbove(x, unit, n, m);
    }
  }

  /** No number is nearest in two binades. */
  lemma OtherUnit(x: int, unit: nat, m: nat, coarse: nat, n: nat)
    requires unit >= 1 && coarse >= 2 * unit && Nearest(x, unit, m)
    ensures !Nearest(x, coarse, n)
  {
    if Nearest(x, coarse, n) {
      MulOrder(m, 2 * LEAST - 1, unit);
      MulOrder(LEAST, n, coarse);
      if n > LEAST {
        MulOrder(LEAST + 1, n, coarse);
      }
      if m < 2 * LEAST - 1 {
        MulOrder(m, 2 * LEAST - 2, unit);
      }
    }
  }

  lemma Pow2Less(i: nat, j: nat)
    requires i < j
    ensures 2 * Pow2(i) <= Pow2(j)
  {
    if i < j - 1 {
      Pow2Less(i, j - 1);
    }
  }

  /** Different exponents make units that differ by a factor of two at least. */
  lemma Coarser(d: Double, e: Double)
    requires d.e < e.e
    ensures 2 * (d.Up() * e.Down()) <= e.Up() * d.Down()
  {
    if d.e >= 0 {
      Pow2Less(d.e, e.e);
    } else if e.e < 0 {
      Pow2Less(-e.e, -d.e);
    } else {
      assert Pow2(-d.e) == 2 * Pow2(-d.e - 1);
      MulOrder(1, Pow2(e.e), Pow2(-d.e));
    }
  }

  lemma Associate(a: int, b: int, c: int)
    ensures a * b * c == a * (b * c)
  {
  }

  lemma Exchange(a: int, b: int, c: int)
    ensures a * b * c == a * c * b
  {
  }

  /** The denominators of d and e made equal. */
  lemma Common(num: int, den: nat, d: Double, e: Double, x: int, unit: nat)
    requires RoundsTo(num, den, d)
    requires x == num * (d.Down() * e.Down()) && unit == d.Up() * e.Down() * den
    ensures Nearest(x, unit, d.m)
  {
    Scaled(num * d.Down(), d.Up() * den, d.m, e.Down());
    Associate(num, d.Down(), e.Down());
    Exchange(d.Up(), den, e.Down());
  }

  lemma TwoUnits(x: int, a: nat, b: nat, den: nat, m: nat, n: nat)
    requires a >= 1 && den >= 1 && 2 * a <= b && Nearest(x, a * den, m)
    ensures !Nearest(x, b * den, n)
  {
    MulOrder(1, a, den);
    MulOrder(2 * a, b, den);
    assert 2 * a * den == 2 * (a * den);
    OtherUnit(x, a * den, m, b * den, n);
  }

  lemma Product(a: nat, b: nat)
    requires a >= 1 && b >= 1
    ensures a * b >= 1 && a * b == b * a
  {
    MulOrder(1, a, b);
  }

  lemma OneBinade(num: int, den: nat, d: Double, e: Double)
    requires den >= 1 && d.e < e.e && RoundsTo(num, den, d)
    ensures !RoundsTo(num, den, e)
  {
    if RoundsTo(num, den, e) {
      var x, a, b := num * (d.Down() * e.Down()), d.Up() * e.Down(), e.Up() * d.Down();
      Product(d.Up(), e.Down());
      Product(d.Down(), e.Down());
      Common(num, den, d, e, x, a * den);
      Common(num, den, e, d, x, b * den);
      Coarser(d, e);
      TwoUnits(x, a, b, den, d.m, e.m);
    }
  }

  /** A fraction rounds to one double only. */
  lemma RoundedOnce(num: int, den: nat, d: Double, e: Double)
    requires den >= 1 && RoundsTo(num, den, d) && RoundsTo(num, den, e)
    ensures d == e
  {
    if d.e < e.e {
      OneBinade(num, den, d, e);
    } else if e.e < d.e {
      OneBinade(num, den, e, d);
    } else {
      MulOrder(1, d.Up(), den);
      SameUnit(num * d.Down(), d.Up() * den, d.m, e.m);
    }
  }

  lemma Pow2Values()
    ensures Pow2(45) == 0x2000_0000_0000 && Pow2(47) == 0x8000_0000_0000
    ensures Pow2(48) == 0x1_0000_0000_0000 && Pow2(49) == 0x2_0000_0000_0000
    ensures Pow2(50) == 0x4_0000_0000_0000 && Pow2(51) == 0x8_0000_0000_0000 && Pow2(52) == 0x10_0000_0000_0000
    ensures Pow2(53) == 0x20_0000_0000_0000 && Pow2(54) == 0x40_0000_0000_0000 && Pow2(55) == 0x80_0000_0000_0000
    ensures Pow2(56) == 0x100_0000_0000_0000 && Pow2(59) == 0x800_0000_0000_0000
  {
    assert Pow2(8) == 0x100;
    assert Pow2(16) == 0x1_0000;
    assert Pow2(24) == 0x100_0000;
    assert Pow2(32) == 0x1_0000_0000;
    assert Pow2(40) == 0x100_0000_0000;
    assert Pow2(45) == 0x2000_0000_0000;
  }

  /** The relative error of rounding is at most 2^-53. */
  lemma RelativeError(num: nat, den: nat, d: Double)
    requires den >= 1 && RoundsTo(num, den, d)
    ensures var x, y: int := num * d.Down(), d.m * (d.Up() * den);
      -y <= 2 * LEAST * (x - y) <= y
  {
    var unit := d.Up() * den;
    MulOrder(LEAST, d.m, unit);
  }

  // ---- radius: decoded by a multiplication with 0.1, encoded by a division ----

  function Tenth(): Double {
    Double(7205759403792794, -56)
  }

  lemma TenthRounded()
    ensures RoundsTo(1, 10, Tenth())
  {
    Pow2Values();
  }

  /** The radius n decodes to x, and encoding x computes the quotient q. */
  predicate Computes(n: nat, x: Double, q: Double) {
    && RoundsTo(n * Tenth().m, Tenth().Down(), x)
    && RoundsTo(x.m * x.Up() * Tenth().Down(), x.Down() * Tenth().m, q)
  }

  /** The same on the integers that an exponent of -i for x and of -j for q makes of it. */
  lemma Checked(n: nat, x: Double, xd: nat, q: Double, qd: nat)
    requires x.e < 0 && Pow2(-x.e) == xd && q.e < 0 && Pow2(-q.e) == qd
    requires Nearest(n * Tenth().m * xd, 0x100_0000_0000_0000, x.m)
    requires Nearest(x.m * 0x100_0000_0000_0000 * qd, xd * Tenth().m, q.m)
    ensures Computes(n, x, q) && q.Truncated() == q.m / qd
  {
    Pow2Values();
    assert x.Up() == 1 && x.Down() == xd && q.Up() == 1 && q.Down() == qd;
    assert Tenth().Down() == 0x100_0000_0000_0000;
    Units(x.m, xd, q.m);
  }

  lemma Units(a: nat, b: nat, c: nat)
    ensures a * 1 == a && 1 * b == b && c * 1 == c
  {
  }

  lemma Radii1(n: nat) returns (x: Double, q: Double)
    requires 1 <= n <= 5
    ensures Computes(n, x, q) && q.Truncated() == n
  {
    Pow2Values();
    if n == 1 {
      x, q := Double(7205759403792794, -56), Double(4503599627370496, -52);
      Checked(1, x, 0x100_0000_0000_0000, q, 0x10_0000_0000_0000);
    } else if n == 2 {
      x, q := Double(7205759403792794, -55), Double(4503599627370496, -51);
      Checked(2, x, 0x80_0000_0000_0000, q, 0x8_0000_0000_0000);
    } else if n == 3 {
      x, q := Double(5404319552844596, -54), Double(6755399441055745, -51);
      Checked(3, x, 0x40_0000_0000_0000, q, 0x8_0000_0000_0000);
    } else if n == 4 {
      x, q := Double(7205759403792794, -54), Double(4503599627370496, -50);
      Checked(4, x, 0x40_0000_0000_0000, q, 0x4_0000_0000_0000);
    } else {
      x, q := Double(4503599627370496, -53), Double(5629499534213120, -50);
      Checked(5, x, 0x20_0000_0000_0000, q, 0x4_0000_0000_0000);
    }
  }

  lemma Radii6(n: nat) returns (x: Double, q: Double)
    requires 6 <= n <= 10
    ensures Computes(n, x, q) && q.Truncated() == n
  {
    Pow2Values();
    if n == 6 {
      x, q := Double(5404319552844596, -53), Double(6755399441055745, -50);
      Checked(6, x, 0x20_0000_0000_0000, q, 0x4_0000_0000_0000);
    } else if n == 7 {
      x, q := Double(6305039478318695, -53), Double(7881299347898368, -50);
      Checked(7, x, 0x20_0000_0000_0000, q, 0x4_0000_0000_0000);
    } else if n == 8 {
      x, q := Double(7205759403792794, -53), Double(4503599627370496, -49);
      Checked(8, x, 0x20_0000_0000_0000, q, 0x2_0000_0000_0000);
    } else if n == 9 {
      x, q := Double(8106479329266893, -53), Double(5066549580791808, -49);
      Checked(9, x, 0x20_0000_0000_0000, q, 0x2_0000_0000_0000);
    } else {
      x, q := Double(4503599627370496, -52), Double(5629499534213120, -49);
      Checked(10, x, 0x10_0000_0000_0000, q, 0x2_0000_0000_0000);
    }
  }

  lemma Radii11(n: nat) returns (x: Double, q: Double)
    requires 11 <= n <= 15
    ensures Computes(n, x, q) && q.Truncated() == n
  {
    Pow2Values();
    if n == 11 {
      x, q := Double(4953959590107546, -52), Double(6192449487634432, -49);
      Checked(11, x, 0x10_0000_0000_0000, q, 0x2_0000_0000_0000);
    } else if n == 12 {
      x, q := Double(5404319552844596, -52), Double(6755399441055745, -49);
      Checked(12, x, 0x10_0000_0000_0000, q, 0x2_0000_0000_0000);
    } else if n == 13 {
      x, q := Double(5854679515581645, -52), Double(7318349394477056, -49);
      Checked(13, x, 0x10_0000_0000_0000, q, 0x2_0000_0000_0000);
    } else if n == 14 {
      x, q := Double(6305039478318695, -52), Double(7881299347898368, -49);
      Checked(14, x, 0x10_0000_0000_0000, q, 0x2_0000_0000_0000);
    } else {
      x, q := Double(6755399441055744, -52), Double(8444249301319680, -49);
      Checked(15, x, 0x10_0000_0000_0000, q, 0x2_0000_0000_0000);
    }
  }

  lemma Radii16(n: nat) returns (x: Double, q: Double)
    requires 16 <= n <= 20
    ensures Computes(n, x, q) && q.Truncated() == n
  {
    Pow2Values();
    if n == 16 {
      x, q := Double(7205759403792794, -52), Double(4503599627370496, -48);
      Checked(16, x, 0x10_0000_0000_0000, q, 0x1_0000_0000_0000);
    } else if n == 17 {
      x, q := Double(7656119366529844, -52), Double(4785074604081152, -48);
      Checked(17, x, 0x10_0000_0000_0000, q, 0x1_0000_0000_0000);
    } else if n == 18 {
      x, q := Double(8106479329266893, -52), Double(5066549580791808, -48);
      Checked(18, x, 0x10_0000_0000_0000, q, 0x1_0000_0000_0000);
    } else if n == 19 {
      x, q := Double(8556839292003943, -52), Double(5348024557502464, -48);
      Checked(19, x, 0x10_0000_0000_0000, q, 0x1_0000_0000_0000);
    } else {
      x, q := Double(4503599627370496, -51), Double(5629499534213120, -48);
      Checked(20, x, 0x8_0000_0000_0000, q, 0x1_0000_0000_0000);
    }
  }

  lemma Radii21(n: nat) returns (x: Double, q: Double)
    requires 21 <= n <= 25
    ensures Computes(n, x, q) && q.Truncated() == n
  {
    Pow2Values();
    if n == 21 {
      x, q := Double(4728779608739021, -51), Double(5910974510923776, -48);
      Checked(21, x, 0x8_0000_0000_0000, q, 0x1_0000_0000_0000);
    } else if n == 22 {
      x, q := Double(4953959590107546, -51), Double(6192449487634432, -48);
      Checked(22, x, 0x8_0000_0000_0000, q, 0x1_0000_0000_0000);
    } else if n == 23 {
      x, q := Double(5179139571476071, -51), Double(6473924464345088, -48);
      Checked(23, x, 0x8_0000_0000_0000, q, 0x1_0000_0000_0000);
    } else if n == 24 {
      x, q := Double(5404319552844596, -51), Double(6755399441055745, -48);
      Checked(24, x, 0x8_0000_0000_0000, q, 0x1_0000_0000_0000);
    } else {
      x, q := Double(5629499534213120, -51), Double(7036874417766400, -48);
      Checked(25, x, 0x8_0000_0000_0000, q, 0x1_0000_0000_0000);
    }
  }

  lemma Radii26(n: nat) returns (x: Double, q: Double)
    requires 26 <= n <= 30
    ensures Computes(n, x, q) && q.Truncated() == n
  {
    Pow2Values();
    if n == 26 {
      x, q := Double(5854679515581645, -51), Double(7318349394477056, -48);
      Checked(26, x, 0x8_0000_0000_0000, q, 0x1_0000_0000_0000);
    } else if n == 27 {
      x, q := Double(6079859496950170, -51), Double(7599824371187712, -48);
      Checked(27, x, 0x8_0000_0000_0000, q, 0x1_0000_0000_0000);
    } else if n == 28 {
      x, q := Double(6305039478318695, -51), Double(7881299347898368, -48);
      Checked(28, x, 0x8_0000_0000_0000, q, 0x1_0000_0000_0000);
    } else if n == 29 {
      x, q := Double(6530219459687220, -51), Double(8162774324609025, -48);
      Checked(29, x, 0x8_0000_0000_0000, q, 0x1_0000_0000_0000);
    } else {
      x, q := Double(6755399441055744, -51), Double(8444249301319680, -48);
      Checked(30, x, 0x8_0000_0000_0000, q, 0x1_0000_0000_0000);
    }
  }

  lemma Radii31(n: nat) returns (x: Double, q: Double)
    requires 31 <= n <= 35
    ensures Computes(n, x, q) && q.Truncated() == n
  {
    Pow2Values();
    if n == 31 {
      x, q := Double(6980579422424269, -51), Double(8725724278030336, -48);
      Checked(31, x, 0x8_0000_0000_0000, q, 0x1_0000_0000_0000);
    } else if n == 32 {
      x, q := Double(7205759403792794, -51), Double(4503599627370496, -47);
      Checked(32, x, 0x8_0000_0000_0000, q, 0x8000_0000_0000);
    } else if n == 33 {
      x, q := Double(7430939385161319, -51), Double(4644337115725824, -47);
      Checked(33, x, 0x8_0000_0000_0000, q, 0x8000_0000_0000);
    } else if n == 34 {
      x, q := Double(7656119366529844, -51), Double(4785074604081152, -47);
      Checked(34, x, 0x8_0000_0000_0000, q, 0x8000_0000_0000);
    } else {
      x, q := Double(7881299347898368, -51), Double(4925812092436480, -47);
      Checked(35, x, 0x8_0000_0000_0000, q, 0x8000_0000_0000);
    }
  }

  lemma Radii36(n: nat) returns (x: Double, q: Double)
    requires 36 <= n <= 40
    ensures Computes(n, x, q) && q.Truncated() == n
  {
    Pow2Values();
    if n == 36 {
      x, q := Double(8106479329266893, -51), Double(5066549580791808, -47);
      Checked(36, x, 0x8_0000_0000_0000, q, 0x8000_0000_0000);
    } else if n == 37 {
      x, q := Double(8331659310635418, -51), Double(5207287069147136, -47);
      Checked(37, x, 0x8_0000_0000_0000, q, 0x8000_0000_0000);
    } else if n == 38 {
      x, q := Double(8556839292003943, -51), Double(5348024557502464, -47);
      Checked(38, x, 0x8_0000_0000_0000, q, 0x8000_0000_0000);
    } else if n == 39 {
      x, q := Double(8782019273372468, -51), Double(5488762045857792, -47);
      Checked(39, x, 0x8_0000_0000_0000, q, 0x8000_0000_0000);
    } else {
      x, q := Double(4503599627370496, -50), Double(5629499534213120, -47);
      Checked(40, x, 0x4_0000_0000_0000, q, 0x8000_0000_0000);
    }
  }

  lemma Radii41(n: nat) returns (x: Double, q: Double)
    requires 41 <= n <= 45
    ensures Computes(n, x, q) && q.Truncated() == if n == 43 then 42 else n
  {
    Pow2Values();
    if n == 41 {
      x, q := Double(4616189618054759, -50), Double(5770237022568448, -47);
      Checked(41, x, 0x4_0000_0000_0000, q, 0x8000_0000_0000);
    } else if n == 42 {
      x, q := Double(4728779608739021, -50), Double(5910974510923776, -47);
      Checked(42, x, 0x4_0000_0000_0000, q, 0x8000_0000_0000);
    } else if n == 43 {
      x, q := Double(4841369599423283, -50), Double(6051711999279103, -47);
      Checked(43, x, 0x4_0000_0000_0000, q, 0x8000_0000_0000);
    } else if n == 44 {
      x, q := Double(4953959590107546, -50), Double(6192449487634432, -47);
      Checked(44, x, 0x4_0000_0000_0000, q, 0x8000_0000_0000);
    } else {
      x, q := Double(5066549580791808, -50), Double(6333186975989760, -47);
      Checked(45, x, 0x4_0000_0000_0000, q, 0x8000_0000_0000);
    }
  }

  lemma Radii46(n: nat) returns (x: Double, q: Double)
    requires 46 <= n <= 50
    ensures Computes(n, x, q) && q.Truncated() == n
  {
    Pow2Values();
    if n == 46 {
      x, q := Double(5179139571476071, -50), Double(6473924464345088, -47);
      Checked(46, x, 0x4_0000_0000_0000, q, 0x8000_0000_0000);
    } else if n == 47 {
      x, q := Double(5291729562160333, -50), Double(6614661952700416, -47);
      Checked(47, x, 0x4_0000_0000_0000, q, 0x8000_0000_0000);
    } else if n == 48 {
      x, q := Double(5404319552844596, -50), Double(6755399441055745, -47);
      Checked(48, x, 0x4_0000_0000_0000, q, 0x8000_0000_0000);
    } else if n == 49 {
      x, q := Double(5516909543528858, -50), Double(6896136929411072, -47);
      Checked(49, x, 0x4_0000_0000_0000, q, 0x8000_0000_0000);
    } else {
      x, q := Double(5629499534213120, -50), Double(7036874417766400, -47);
      Checked(50, x, 0x4_0000_0000_0000, q, 0x8000_0000_0000);
    }
  }

  lemma Radii(n: nat) returns (x: Double, q: Double)
    requires 1 <= n <= 50
    ensures Computes(n, x, q) && q.Truncated() == if n == 43 then 42 else n
  {
    if n <= 5 {
      x, q := Radii1(n);
    } else if n <= 10 {
      x, q := Radii6(n);
    } else if n <= 15 {
      x, q := Radii11(n);
    } else if n <= 20 {
      x, q := Radii16(n);
    } else if n <= 25 {
      x, q := Radii21(n);
    } else if n <= 30 {
      x, q := Radii26(n);
    } else if n <= 35 {
      x, q := Radii31(n);
    } else if n <= 40 {
      x, q := Radii36(n);
    } else if n <= 45 {
      x, q := Radii41(n);
    } else {
      x, q := Radii46(n);
    }
  }

  /** Whatever a machine computes by these rules for the radius n, it is n again, unless n is 43: then it is 42. */
  lemma RadiusComputed(n: nat, x: Double, q: Double)
    requires 1 <= n <= 50 && Computes(n, x, q)
    ensures q.Truncated() == if n == 43 then 42 else n
  {
    var x1, q1 := Radii(n);
    RoundedOnce(n * Tenth().m, Tenth().Down(), x, x1);
    RoundedOnce(x.m * x.Up() * Tenth().Down(), x.Down() * Tenth().m, q, q1);
  }

  // ---- temperature: 250 + 0.01 * n, encoded by a difference and a division ----

  function Hundredth(): Double {
    Double(5764607523034235, -59)
  }

  lemma HundredthRounded()
    ensures RoundsTo(1, 100, Hundredth())
  {
    Pow2Values();
  }

  /** Pattern 1 decodes to x; encoding x computes the difference d from 250 and then the quotient q. */
  predicate ComputesOne(x: Double, d: Double, q: Double) {
    && RoundsTo(Hundredth().m + 250 * Hundredth().Down(), Hundredth().Down(), x)
    && RoundsTo(x.m * x.Up() - 250 * x.Down(), x.Down(), d)
    && RoundsTo(d.m * d.Up() * Hundredth().Down(), d.Down() * Hundredth().m, q)
  }

  /** On the integers that a negative exponent makes of it. */
  lemma RoundsBy(num: int, den: nat, d: Double, down: nat)
    requires d.e < 0 && Pow2(-d.e) == down && Nearest(num * down, den, d.m)
    ensures RoundsTo(num, den, d)
  {
    assert d.Up() * den == den;
  }

  lemma OneComputed() returns (x: Double, d: Double, q: Double)
    ensures ComputesOne(x, d, q) && q.Truncated() == 0
  {
    Pow2Values();
    x, d, q := Double(8796444865928888, -45), Double(5764607523028992, -59), Double(9007199254732800, -53);
    assert Hundredth().Down() == 0x800_0000_0000_0000 && x.Up() == 1 && x.Down() == 0x2000_0000_0000;
    assert d.Up() == 1 && d.Down() == 0x800_0000_0000_0000 && q.Up() == 1 && q.Down() == 0x20_0000_0000_0000;
    RoundsBy(144120952683378906235, 0x800_0000_0000_0000, x, 0x2000_0000_0000);
    RoundsBy(351843720888, 0x2000_0000_0000, d, 0x800_0000_0000_0000);
    RoundsBy(3323069989459267367710481077764096, 3323069989462289751434807927111680, q, 0x20_0000_0000_0000);
  }

  /** Pattern 1 is lost, whatever machine computes by these rules: the quotient is less than 1. */
  lemma TemperatureOneLost(x: Double, d: Double, q: Double)
    requires ComputesOne(x, d, q)
    ensures q.Truncated() == 0
  {
    var x1, d1, q1 := OneComputed();
    RoundedOnce(Hundredth().m + 250 * Hundredth().Down(), Hundredth().Down(), x, x1);
    RoundedOnce(x.m * x.Up() - 250 * x.Down(), x.Down(), d, d1);
    HundredthPositive(d.Down());
    RoundedOnce(d.m * d.Up() * Hundredth().Down(), d.Down() * Hundredth().m, q, q1);
  }

  lemma HundredthPositive(k: nat)
    requires k >= 1
    ensures k * Hundredth().m >= 1
  {
  }

  // ---- uint64_t: decoded by a conversion ----

  /** n has at most 53 significant bits. */
  ghost predicate Short(n: nat) {
    exists a, k :: Shifted(n, a, k)
  }

  predicate Shifted(n: nat, a: nat, k: nat) {
    a < 2 * LEAST && n == a * Pow2(k)
  }

  /** d is n, without any error. */
  predicate Is(n: nat, d: Double) {
    n * d.Down() == d.m * d.Up()
  }

  lemma IsTruncated(n: nat, d: Double)
    requires Is(n, d)
    ensures d.Truncated() == n
  {
    ModOf(n, 0, d.Down());
  }

  lemma Halved(n: nat, d: Double, h: Double)
    requires Is(n, d) && h == Double(2 * d.m, d.e - 1)
    ensures Is(n, h)
  {
    if d.e >= 1 {
      assert d.Up() == 2 * h.Up();
    } else {
      assert h.Down() == 2 * d.Down();
      assert n * h.Down() == 2 * (n * d.Down());
    }
  }

  lemma {:induction false} Normalised(n: nat, d: Double) returns (r: Double)
    requires Is(n, d) && 1 <= d.m < 2 * LEAST
    ensures Is(n, r) && RoundsTo(n, 1, r)
    decreases 2 * LEAST - d.m
  {
    if d.m < LEAST {
      var h := Double(2 * d.m, d.e - 1);
      Halved(n, d, h);
      r := Normalised(n, h);
    } else {
      r := d;
    }
  }

  lemma ShortSurvives(n: nat, d: Double, a: nat, k: nat)
    requires n >= 1 && RoundsTo(n, 1, d) && Shifted(n, a, k)
    ensures d.Truncated() == n
  {
    var r := Normalised(n, Double(a, k));
    RoundedOnce(n, 1, d, r);
    IsTruncated(n, r);
  }

  /** Less than half a unit is none. */
  lemma NoError(n: nat, d: Double)
    requires RoundsTo(n, 1, d) && d.e < 0
    ensures d.m == n * d.Down() >= n
  {
    assert Nearest(n * d.Down(), 1, d.m);
    AtLeast(n, d.Down());
  }

  lemma AtLeast(n: nat, p: nat)
    requires p >= 1
    ensures n * p >= n
  {
  }

  lemma SurvivorShort(n: nat, d: Double)
    requires RoundsTo(n, 1, d) && d.Truncated() == n
    ensures Short(n)
  {
    if d.e >= 0 {
      assert Shifted(n, d.m, d.e);
    } else {
      NoError(n, d);
      assert Shifted(n, n, 0);
    }
  }

  /** A whole number survives conversion to a double and back if and only if it has at most 53 significant bits. */
  lemma WholeSurvivesIff(n: nat, d: Double)
    requires n >= 1 && RoundsTo(n, 1, d)
    ensures d.Truncated() == n <==> Short(n)
  {
    if d.Truncated() == n {
      SurvivorShort(n, d);
    } else if a, k :| Shifted(n, a, k) {
      ShortSurvives(n, d, a, k);
    }
  }

  /** 2^54 + 1 is lost: it decodes to 2^54. */
  lemma LargePatternLost(d: Double)
    requires RoundsTo(0x40_0000_0000_0001, 1, d)
    ensures d.Truncated() == 0x40_0000_0000_0000
  {
    assert Pow2(2) == 4;
    RoundedOnce(0x40_0000_0000_0001, 1, d, Double(LEAST, 2));
  }
}
