/**
 * Integer arithmetic behind the field operations: Euclid's gcd with Bezout
 * coefficients, the modular inverse that math/big's ModInverse computes, and
 * modular exponentiation. Dafny's `%` is Euclidean, as big.Int's Mod is, so
 * `n % p` is the representative in [0, p) also for negative `n`.
 */
module Arith {
  import opened Wrappers

  // ---------------------------------------------------------------------
  // Facts about % that the solver does not find on its own

  /** A positive multiple of m is at least m. */
  lemma MultipleAtLeast(d: int, m: int)
    requires d >= 1 && m > 0
    ensures d * m >= m
  {
    var e := d - 1;
    assert e * m >= 0;
    assert d * m == e * m + m;
  }

  /** The quotient and remainder put back together give the dividend. */
  lemma DivMod(a: int, m: int)
    requires m > 0
    ensures a == (a / m) * m + a % m
  {
  }

  /** Division with remainder has one answer. */
  lemma ModUnique(n: int, m: int, q: int, r: int)
    requires m > 0 && 0 <= r < m && n == q * m + r
    ensures n % m == r && n / m == q
  {
    var q', r' := n / m, n % m;
    assert n == q' * m + r';
    var d := q - q';
    assert d * m == q * m - q' * m;
    assert d * m == r' - r;
    if d >= 1 {
      MultipleAtLeast(d, m);
    } else if d <= -1 {
      MultipleAtLeast(-d, m);
    }
  }

  /** Adding a multiple of the modulus does not change the remainder. */
  lemma ModAddMultiple(c: int, k: int, m: int)
    requires m > 0
    ensures (c + k * m) % m == c % m
  {
    assert c == (c / m) * m + c % m;
    assert c + k * m == (c / m + k) * m + c % m;
    ModUnique(c + k * m, m, c / m + k, c % m);
  }

  /** The left factor of a product may be reduced first. */
  lemma ModMulLeft(u: int, v: int, m: int)
    requires m > 0
    ensures (u * v) % m == ((u % m) * v) % m
  {
    var q := u / m;
    assert u == q * m + u % m;
    assert u * v == (u % m) * v + (q * v) * m;
    ModAddMultiple((u % m) * v, q * v, m);
  }

  /** The right factor of a product may be reduced first. */
  lemma ModMulRight(u: int, v: int, m: int)
    requires m > 0
    ensures (u * v) % m == (u * (v % m)) % m
  {
    ModMulLeft(v, u, m);
    assert u * v == v * u;
    assert u * (v % m) == (v % m) * u;
  }

  /** The left summand may be reduced first. */
  lemma ModAddLeft(a: int, c: int, m: int)
    requires m > 0
    ensures ((a % m) + c) % m == (a + c) % m
  {
    DivMod(a, m);
    assert a + c == ((a % m) + c) + (a / m) * m;
    ModAddMultiple((a % m) + c, a / m, m);
  }

  /** Subtracting y undoes adding y, modulo m. */
  lemma SubUndoesAdd(x: int, y: int, m: int)
    requires m > 0 && 0 <= x < m
    ensures (((x + y) % m) - y) % m == x
  {
    ModAddLeft(x + y, -y, m);
    ModUnique(x, m, 0, x);
  }

  /** Adding y undoes subtracting y, modulo m. */
  lemma AddUndoesSub(x: int, y: int, m: int)
    requires m > 0 && 0 <= x < m
    ensures (((x - y) % m) + y) % m == x
  {
    ModAddLeft(x - y, y, m);
    ModUnique(x, m, 0, x);
  }

  // ---------------------------------------------------------------------
  // Greatest common divisor

  /** `d` divides `n`. */
  ghost predicate Divides(d: int, n: int) {
    exists k :: n == d * k
  }

  /** Euclid's algorithm. */
  function Gcd(a: nat, b: nat): nat
    decreases b
  {
    if b == 0 then a else Gcd(b, a % b)
  }

  /** Gcd(a, b) is a common divisor, and it is 0 only for Gcd(0, 0). */
  lemma {:induction false} GcdDivides(a: nat, b: nat)
    ensures Divides(Gcd(a, b), a) && Divides(Gcd(a, b), b)
    ensures Gcd(a, b) == 0 <==> a == 0 && b == 0
    decreases b
  {
    if b == 0 {
      assert a == a * 1 && 0 == a * 0;
    } else {
      var g := Gcd(b, a % b);
      GcdDivides(b, a % b);
      var k1 :| b == g * k1;
      var k2 :| a % b == g * k2;
      var q := a / b;
      DivMod(a, b);
      CommonFactor(g, k1, q, k2);
      assert a == g * (k1 * q + k2);
    }
  }

  /**
   * g * k1 * q + g * k2 has the factor g. Kept as a lemma so that this
   * nonlinear step is proved apart from the context of GcdDivides.
   */
  lemma CommonFactor(g: int, k1: int, q: int, k2: int)
    ensures (g * k1) * q + g * k2 == g * (k1 * q + k2)
  {
  }

  /** Bezout coefficients: the pair (s, t) with a * s + b * t == Gcd(a, b). */
  function {:induction false} Bezout(a: nat, b: nat): (r: (int, int))
    ensures a * r.0 + b * r.1 == Gcd(a, b)
    decreases b
  {
    if b == 0 then (1, 0)
    else
      var st := Bezout(b, a % b);
      BezoutStep(a, b, st.0, st.1, Gcd(a, b));
      (st.1, st.0 - (a / b) * st.1)
  }

  lemma BezoutStep(a: nat, b: nat, s: int, t: int, g: int)
    requires b > 0 && b * s + (a % b) * t == g
    ensures a * t + b * (s - (a / b) * t) == g
  {
    var q, r := a / b, a % b;
    assert a == b * q + r;
    assert a * t == b * (q * t) + r * t;
    assert b * (s - q * t) == b * s - b * (q * t);
  }

  // ---------------------------------------------------------------------
  // Modular inverse

  /** `y` is a multiplicative inverse of `x` modulo `n`. */
  ghost predicate IsInverse(x: int, y: int, n: nat)
    requires n > 0
  {
    0 <= y < n && (x * y) % n == 1 % n
  }

  /** A Bezout coefficient of x, reduced into [0, n), inverts x when Gcd(x, n) == 1. */
  lemma InverseFromBezout(x: int, s: int, t: int, n: nat)
    requires n > 0 && x * s + n * t == 1
    ensures IsInverse(x, s % n, n)
  {
    var q := s / n;
    assert s == q * n + s % n;
    assert x * (s % n) == 1 + (-t - x * q) * n;
    ModAddMultiple(1, -t - x * q, n);
  }

  /**
   * The inverse of g modulo n, as big.Int.ModInverse computes it: absent
   * exactly when g and n are not coprime.
   */
  function ModInverse(g: nat, n: nat): (r: Option<nat>)
    requires n > 0
    ensures r.Some? <==> Gcd(g, n) == 1
    ensures r.Some? ==> IsInverse(g, r.value, n)
  {
    if Gcd(g, n) != 1 then None
    else
      var st := Bezout(g, n);
      InverseFromBezout(g, st.0, st.1, n);
      Some(st.0 % n)
  }

  /** If g * d == 1 for a positive g, then g == 1. */
  lemma UnitDivisor(g: int, d: int)
    requires g > 0 && g * d == 1
    ensures g == 1
  {
    if d > 0 {
      MultipleAtLeast(d, g);
      assert d * g == g * d;
    }
  }

  /** A positive common divisor of x and n divides x * y - q * n; if that is 1, it is 1. */
  lemma UnitCommonDivisor(g: int, x: int, n: int, y: int, q: int)
    requires g > 0 && Divides(g, x) && Divides(g, n) && x * y == q * n + 1
    ensures g == 1
  {
    var kx :| x == g * kx;
    var kn :| n == g * kn;
    assert x * y == g * (kx * y);
    assert q * n == g * (kn * q);
    assert g * (kx * y - kn * q) == g * (kx * y) - g * (kn * q);
    UnitDivisor(g, kx * y - kn * q);
  }

  /** A common divisor of x and n other than 1 rules out an inverse of x. */
  lemma InvertibleIsCoprime(x: nat, y: int, n: nat)
    requires n > 0 && IsInverse(x, y, n)
    ensures Gcd(x, n) == 1
  {
    GcdDivides(x, n);
    if n == 1 {
      ModUnique(x, 1, x, 0);
      assert Gcd(x, n) == Gcd(1, 0);
    } else {
      var xy := x * y;
      ModUnique(1, n, 0, 1);
      assert xy % n == 1;
      DivMod(xy, n);
      var g := Gcd(x, n);
      assert g > 0;
      UnitCommonDivisor(g, x, n, y, xy / n);
    }
  }

  /** x has an inverse modulo n exactly when x and n are coprime. */
  lemma InvertibleIffCoprime(x: nat, n: nat)
    requires n > 0
    ensures (exists y :: IsInverse(x, y, n)) <==> Gcd(x, n) == 1
  {
    if Gcd(x, n) == 1 {
      var st := Bezout(x, n);
      InverseFromBezout(x, st.0, st.1, n);
    }
    if y :| IsInverse(x, y, n) {
      InvertibleIsCoprime(x, y, n);
    }
  }

  /** An inverse modulo n is unique within [0, n). */
  lemma InverseUnique(x: int, a: int, b: int, n: nat)
    requires n > 0 && IsInverse(x, a, n) && IsInverse(x, b, n)
    ensures a == b
  {
    if n > 1 {
      // a == a * (x * b) == (a * x) * b == b, all modulo n
      var xb, ax := x * b, a * x;
      assert ax == x * a;
      assert a * xb == ax * b;
      ProductWithUnit(a, xb, n);
      assert (a * xb) % n == a;
      ProductWithUnit(b, ax, n);
      assert ax * b == b * ax;
      assert (ax * b) % n == b;
    }
  }

  /** Multiplying by something congruent to 1 changes nothing modulo n. */
  lemma ProductWithUnit(a: int, u: int, n: nat)
    requires n > 1 && 0 <= a < n && u % n == 1
    ensures (a * u) % n == a
  {
    ModMulRight(a, u, n);
    assert a * (u % n) == a;
    ModUnique(a, n, 0, a);
  }

  /** Inverting twice gives back the original element. */
  lemma InverseInvolutive(x: nat, n: nat)
    requires n > 0 && x < n && Gcd(x, n) == 1
    ensures ModInverse(x, n).Some?
    ensures ModInverse(ModInverse(x, n).value, n) == Some(x)
  {
    var y := ModInverse(x, n).value;
    assert y * x == x * y;
    assert IsInverse(y, x, n);
    InvertibleIffCoprime(y, n);
    var z := ModInverse(y, n).value;
    InverseUnique(y, x, z, n);
  }

  /** Multiplying a quotient x * y' (y' the inverse of y) by y gives x back. */
  lemma DivisionRoundTrip(x: int, y: int, y': int, n: nat)
    requires n > 0 && 0 <= x < n && IsInverse(y, y', n)
    ensures (((x * y') % n) * y) % n == x
  {
    var xy' := x * y';
    var yy' := y * y';
    var lhs := ((xy' % n) * y) % n;
    ModMulLeft(xy', y, n);
    assert lhs == (xy' * y) % n;
    Associate(x, y', y);
    assert xy' * y == x * yy';
    if n > 1 {
      ModUnique(1, n, 0, 1);
      assert yy' % n == 1;
      ProductWithUnit(x, yy', n);
    } else {
      ModUnique(x * yy', 1, x * yy', 0);
    }
  }

  /** Regrouping a product of three factors, proved apart from DivisionRoundTrip's context. */
  lemma Associate(a: int, b: int, c: int)
    ensures (a * b) * c == a * (c * b)
  {
  }

  // ---------------------------------------------------------------------
  // Exponentiation

  /** b to the power e. */
  function Pow(b: int, e: nat): int
  {
    if e == 0 then 1 else b * Pow(b, e - 1)
  }

  lemma {:induction false} PowAdd(b: int, i: nat, j: nat)
    ensures Pow(b, i + j) == Pow(b, i) * Pow(b, j)
    decreases i
  {
    if i > 0 {
      PowAdd(b, i - 1, j);
      assert Pow(b, i + j) == b * Pow(b, i - 1 + j);
    }
  }

  /**
   * b to the power e modulo m, by repeated squaring; the exponent is used as
   * it is, with no reduction modulo m - 1.
   */
  function {:induction false} ModPow(b: nat, e: nat, m: nat): (r: nat)
    requires m > 0
    ensures r == Pow(b, e) % m
    decreases e
  {
    if e == 0 then 1 % m
    else
      var h := ModPow(b, e / 2, m);
      var sq := (h * h) % m;
      SquareStep(b, e / 2, m, h);
      if e % 2 == 0 then
        assert e == e / 2 + e / 2;
        sq
      else
        assert e == (e / 2 + e / 2) + 1;
        PowAdd(b, e / 2 + e / 2, 1);
        ModMulLeft(Pow(b, e / 2 + e / 2), b, m);
        (sq * b) % m
  }

  lemma SquareStep(b: int, k: nat, m: nat, h: int)
    requires m > 0 && h == Pow(b, k) % m
    ensures (h * h) % m == Pow(b, k + k) % m
  {
    PowAdd(b, k, k);
    ModMulLeft(Pow(b, k), Pow(b, k), m);
    ModMulRight(h, Pow(b, k), m);
  }
}
