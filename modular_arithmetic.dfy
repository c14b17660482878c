/**
 * The extended Euclidean modular inverse of test_nonce_reuse.py (`mod_inverse`),
 * with the congruence facts its correctness rests on.
 *
 * Python's `//` and `%` with a positive divisor agree with Dafny's Euclidean
 * `/` and `%`, so every positive-modulus operation of the source is written
 * with Dafny's operators directly.
 */
module ModularArithmetic {
  import opened Wrappers

  /** The error `mod_inverse` raises, carrying the gcd it found. */
  datatype InverseError = NoInverse(gcd: nat)

  // ---------------------------------------------------------------------
  // Division with remainder
  // ---------------------------------------------------------------------

  /** Quotient and remainder are determined by x == m * q + r with 0 <= r < m. */
  lemma ModUnique(x: int, m: int, q: int, r: int)
    requires m > 0 && 0 <= r < m && x == m * q + r
    ensures x / m == q && x % m == r
  {
    var q', r' := x / m, x % m;
    assert x == m * q' + r';
    if q' < q {
      MulAtLeast(m, q - q');
    } else if q < q' {
      MulAtLeast(m, q' - q);
    }
  }

  lemma MulAtLeast(m: int, c: int)
    requires m > 0 && c >= 1
    ensures m * c >= m
  {
    assert m * c == m + m * (c - 1);
  }

  /** Adding a multiple of m does not change the remainder. */
  lemma ModAddMultiple(a: int, k: int, m: int)
    requires m > 0
    ensures (a + m * k) % m == a % m
  {
    assert a + m * k == m * (a / m + k) + a % m;
    ModUnique(a + m * k, m, a / m + k, a % m);
  }

  /** Reducing a factor first does not change the remainder of a product. */
  lemma MulModLeft(x: int, u: int, m: int)
    requires m > 0
    ensures (x * u) % m == ((x % m) * u) % m
  {
    var q := x / m;
    assert x == m * q + x % m;
    assert x * u == (x % m) * u + m * (q * u);
    ModAddMultiple((x % m) * u, q * u, m);
  }

  lemma ModMod(x: int, m: int)
    requires m > 0
    ensures (x % m) % m == x % m
  {
    ModUnique(x % m, m, 0, x % m);
  }

  /** The remainder of a sum depends only on the remainders of its terms. */
  lemma ModSum(x: int, u: int, m: int)
    requires m > 0
    ensures (x + u) % m == (x % m + u % m) % m
  {
    var qx, qu := x / m, u / m;
    var rx, ru := x % m, u % m;
    assert x == m * qx + rx && u == m * qu + ru;
    Distrib(m, qx, qu);
    assert x + u == (rx + ru) + m * (qx + qu);
    ModAddMultiple(rx + ru, qx + qu, m);
  }

  lemma Distrib(m: int, a: int, b: int)
    ensures m * (a + b) == m * a + m * b
  {
  }

  /** Congruence is preserved by addition. */
  lemma CongAdd(x: int, y: int, u: int, v: int, m: int)
    requires m > 0 && x % m == y % m && u % m == v % m
    ensures (x + u) % m == (y + v) % m
  {
    ModSum(x, u, m);
    ModSum(y, v, m);
  }

  /** Congruence is preserved by subtraction. */
  lemma CongSub(x: int, y: int, u: int, v: int, m: int)
    requires m > 0 && x % m == y % m && u % m == v % m
    ensures (x - u) % m == (y - v) % m
  {
    CongMul(u, v, -1, -1, m);
    assert u * -1 == -u && v * -1 == -v;
    CongAdd(x, y, -u, -v, m);
  }

  /** Congruence is preserved by multiplication. */
  lemma CongMul(x: int, y: int, u: int, v: int, m: int)
    requires m > 0 && x % m == y % m && u % m == v % m
    ensures (x * u) % m == (y * v) % m
  {
    MulModLeft(x, u, m);
    MulModLeft(y, u, m);
    assert (x * u) % m == (y * u) % m;
    MulModLeft(u, y, m);
    MulModLeft(v, y, m);
    assert u * y == y * u && v * y == y * v;
  }

  lemma Assoc(a: int, b: int, c: int)
    ensures (a * b) * c == a * (b * c)
  {
  }

  /** b to the power e. */
  function Pow(b: nat, e: nat): (p: nat)
    ensures b > 0 ==> p > 0
  {
    if e == 0 then 1
    else
      var q := Pow(b, e - 1);
      assert b > 0 ==> b * q >= q by {
        if b > 0 && q > 0 {
          MulAtLeast(q, b);
          assert q * b == b * q;
        }
      }
      b * q
  }

  /** Multiplying powers of one base adds the exponents. */
  lemma {:induction false} PowAdd(b: nat, x: nat, y: nat)
    ensures Pow(b, x + y) == Pow(b, x) * Pow(b, y)
  {
    if x > 0 {
      var p, q := Pow(b, x - 1), Pow(b, y);
      PowAdd(b, x - 1, y);
      assert Pow(b, x + y) == b * (p * q);
      Assoc(b, p, q);
    }
  }

  // ---------------------------------------------------------------------
  // Greatest common divisor
  // ---------------------------------------------------------------------

  /** Euclid's gcd, the reference for the remainders `mod_inverse` computes. */
  function Gcd(a: nat, b: nat): (g: nat)
    ensures g == 0 <==> a == 0 && b == 0
    decreases b
  {
    if b == 0 then a else Gcd(b, a % b)
  }

  /** The gcd is positive and divides both arguments. */
  lemma {:induction false} GcdDivides(a: nat, b: nat)
    requires a > 0 || b > 0
    ensures Gcd(a, b) > 0 && a % Gcd(a, b) == 0 && b % Gcd(a, b) == 0
    decreases b
  {
    if b == 0 {
      ModUnique(a, a, 1, 0);
    } else {
      var g := Gcd(b, a % b);
      GcdDivides(b, a % b);
      assert a == b * (a / b) + a % b;
      CongMul(b, 0, a / b, a / b, g);
      CongAdd(b * (a / b), 0 * (a / b), a % b, 0, g);
    }
  }

  /** Every common divisor divides the gcd, so the gcd is the greatest one. */
  lemma {:induction false} GcdGreatest(a: nat, b: nat, c: int)
    requires c > 0 && a % c == 0 && b % c == 0
    ensures Gcd(a, b) % c == 0
    decreases b
  {
    if b != 0 {
      assert a == b * (a / b) + a % b;
      assert a % b == a - b * (a / b);
      CongSub(a, 0, b * (a / b), 0 * (a / b), c) by {
        CongMul(b, 0, a / b, a / b, c);
      }
      GcdGreatest(b, a % b, c);
    }
  }

  /** A divisor of a positive number is no larger than it. */
  lemma DivisorAtMost(x: int, g: int)
    requires x > 0 && g > 0 && x % g == 0
    ensures g <= x
  {
    assert x == g * (x / g);
    assert x / g >= 1;
    MulAtLeast(g, x / g);
  }

  /** The gcd of x and m is that of its residue and m. */
  lemma GcdResidue(x: nat, m: nat)
    requires m > 0
    ensures Gcd(x, m) == Gcd(x % m, m)
  {
    ModMod(x, m);
    assert Gcd(x % m, m) == Gcd(m, (x % m) % m);
  }

  // ---------------------------------------------------------------------
  // The modular inverse
  // ---------------------------------------------------------------------

  /**
   * The coefficient of the first argument that the extended Euclidean
   * algorithm of `mod_inverse` ends with, from the state (old_r, r, old_s, s).
   */
  function BezoutS(oldR: nat, r: nat, oldS: int, s: int): int
    decreases r
  {
    if r == 0 then oldS
    else BezoutS(r, oldR - (oldR / r) * r, s, oldS - (oldR / r) * s)
  }

  /**
   * While the loop keeps the Bezout equations old_s*a + old_t*m == old_r and
   * s*a + t*m == r, the final coefficient times a is the gcd modulo m.
   */
  lemma {:induction false} BezoutSound(a: int, m: int, oldR: nat, r: nat, oldS: int, s: int, oldT: int, t: int)
    requires m > 0
    requires oldS * a + oldT * m == oldR && s * a + t * m == r
    ensures (a * BezoutS(oldR, r, oldS, s)) % m == Gcd(oldR, r) % m
    decreases r
  {
    if r == 0 {
      assert oldR == a * oldS + m * oldT;
      ModAddMultiple(a * oldS, oldT, m);
    } else {
      var q := oldR / r;
      EuclidStep(a, m, oldR, r, oldS, s, oldT, t);
      BezoutSound(a, m, r, oldR - q * r, s, oldS - q * s, t, oldT - q * t);
    }
  }

  /** One iteration of the loop keeps the Bezout equations and the gcd. */
  lemma EuclidStep(a: int, m: int, oldR: nat, r: nat, oldS: int, s: int, oldT: int, t: int)
    requires r > 0
    requires oldS * a + oldT * m == oldR && s * a + t * m == r
    ensures oldR - (oldR / r) * r == oldR % r
    ensures (oldS - (oldR / r) * s) * a + (oldT - (oldR / r) * t) * m == oldR - (oldR / r) * r
  {
    var q := oldR / r;
    assert (oldS - q * s) * a + (oldT - q * t) * m == (oldS * a + oldT * m) - q * (s * a + t * m);
  }

  /** The value `mod_inverse` normalises a to: a itself unless a is negative. */
  function Normalised(a: int, m: int): (a0: nat)
    requires m > 0
    ensures a0 % m == a % m
  {
    if a < 0 then (ModMod(a, m); a % m) else a
  }

  /**
   * What `mod_inverse(a, m)` returns or raises: the inverse of a modulo m in
   * [0, m) when gcd(a mod m, m) is 1, and otherwise the error with that gcd.
   */
  function Inverse(a: int, m: int): (res: Result<nat, InverseError>)
    requires m > 0
    ensures res.Ok? ==> res.value < m && (a * res.value) % m == 1 % m
    ensures res.Err? <==> Gcd(a % m, m) != 1
    ensures res.Err? ==> res.error == NoInverse(Gcd(a % m, m))
  {
    var a0 := Normalised(a, m);
    GcdResidue(a0, m);
    if Gcd(a0, m) != 1 then Err(NoInverse(Gcd(a0, m)))
    else
      var x := BezoutS(a0, m, 1, 0);
      BezoutSound(a0, m, a0, m, 1, 0, 0, 1);
      MulModLeft(x, a0, m);
      MulModLeft(x % m, a0, m);
      MulModLeft(a0, x % m, m);
      MulModLeft(a, x % m, m);
      assert x * a0 == a0 * x && (x % m) * a0 == a0 * (x % m);
      Ok(x % m)
  }

  /**
   * `mod_inverse`: the extended Euclidean algorithm keeping the Bezout
   * coefficient pairs, raising when the final remainder is not 1.
   */
  method ModInverse(a: int, m: int) returns (res: Result<nat, InverseError>)
    requires m > 0
    ensures res == Inverse(a, m)
    ensures res.Ok? ==> res.value < m && (a * res.value) % m == 1 % m
    ensures res.Err? <==> Gcd(a % m, m) != 1
  {
    var a0 := a;
    if a < 0 {
      a0 := a % m;
    }
    var oldR, r := a0, m;
    var oldS, s := 1, 0;
    var oldT, t := 0, 1;
    while r != 0
      invariant 0 <= oldR && 0 <= r
      invariant oldS * a0 + oldT * m == oldR && s * a0 + t * m == r
      invariant Gcd(oldR, r) == Gcd(a0, m)
      invariant BezoutS(oldR, r, oldS, s) == BezoutS(a0, m, 1, 0)
      decreases r
    {
      var quotient := oldR / r;
      EuclidStep(a0, m, oldR, r, oldS, s, oldT, t);
      oldR, r := r, oldR - quotient * r;
      oldS, s := s, oldS - quotient * s;
      oldT, t := t, oldT - quotient * t;
    }
    if oldR != 1 {
      return Err(NoInverse(oldR));
    }
    return Ok(oldS % m);
  }

  /** Reducing modulo a multiple of g keeps the remainder modulo g. */
  lemma ModOfMultipleModulus(y: int, m: int, g: int)
    requires m > 0 && g > 0 && m % g == 0
    ensures (y % m) % g == y % g
  {
    assert y == m * (y / m) + y % m;
    CongMul(m, 0, y / m, y / m, g);
    CongAdd(m * (y / m), 0 * (y / m), y % m, y % m, g);
    ModMod(y % m, g);
  }

  /** When gcd(a mod m, m) is not 1, no x whatever is an inverse of a modulo m. */
  lemma NoInverseWhenNotCoprime(a: int, m: int, x: int)
    requires m > 0 && Gcd(a % m, m) != 1
    ensures (a * x) % m != 1 % m
  {
    var a0: nat := a % m;
    var g := Gcd(a0, m);
    GcdDivides(a0, m);
    if (a * x) % m == 1 % m {
      MulModLeft(a, x, m);
      ModOfMultipleModulus(a0 * x, m, g);
      ModOfMultipleModulus(1, m, g);
      CongMul(a0, 0, x, x, g);
      ModUnique(1, g, 0, 1);
      assert false;
    }
  }

  /** Exhibiting an inverse shows that the gcd is 1. */
  lemma CoprimeByWitness(a: int, m: int, x: int)
    requires m > 0 && (a * x) % m == 1 % m
    ensures Gcd(a % m, m) == 1
  {
    if Gcd(a % m, m) != 1 {
      NoInverseWhenNotCoprime(a, m, x);
    }
  }

  /** `mod_inverse` raises exactly when a has no inverse modulo m. */
  lemma InverseFailsIffNoneExists(a: int, m: int)
    requires m > 0
    ensures Inverse(a, m).Err? <==> forall x: int :: (a * x) % m != 1 % m
  {
    if Inverse(a, m).Err? {
      forall x: int ensures (a * x) % m != 1 % m {
        NoInverseWhenNotCoprime(a, m, x);
      }
    } else {
      var v: int := Inverse(a, m).value;
      assert (a * v) % m == 1 % m;
    }
  }

  /** An inverse in [0, m) is unique. */
  lemma InverseUnique(a: int, m: int, x: int, y: int)
    requires m > 0 && 0 <= x < m && 0 <= y < m
    requires (a * x) % m == 1 % m && (a * y) % m == 1 % m
    ensures x == y
  {
    CongMul(x, x, a * y, 1, m);
    CongMul(y, y, a * x, 1, m);
    SwapFactors(x, a, y);
    ModUnique(x, m, 0, x);
    ModUnique(y, m, 0, y);
  }

  lemma SwapFactors(x: int, a: int, y: int)
    ensures x * (a * y) == y * (a * x)
  {
  }

  /** The result for a is the result for a mod m (negative inputs are normalised first). */
  lemma InverseOfResidue(a: int, m: int)
    requires m > 0
    ensures Inverse(a, m) == Inverse(a % m, m)
  {
    ModMod(a, m);
    var r1, r2 := Inverse(a, m), Inverse(a % m, m);
    if r1.Ok? {
      MulModLeft(a, r1.value, m);
      MulModLeft(a, r2.value, m);
      InverseUnique(a, m, r1.value, r2.value);
    }
  }

  /** `mod_inverse(4, 8)` raises, reporting gcd 4. */
  lemma FourHasNoInverseModEight()
    ensures Inverse(4, 8) == Err(NoInverse(4))
  {
    assert Gcd(4, 8) == Gcd(8, 4) == Gcd(4, 0) == 4;
  }

  /** A prime has no divisors strictly between 1 and itself. */
  ghost predicate IsPrime(p: int)
  {
    p > 1 && forall d :: 1 < d < p ==> p % d != 0
  }

  /** Modulo a prime, every non-zero residue is invertible. */
  lemma PrimeResidueCoprime(x: int, p: int)
    requires IsPrime(p) && x % p != 0
    ensures Gcd(x % p, p) == 1
  {
    var x0: nat := x % p;
    GcdDivides(x0, p);
    var g := Gcd(x0, p);
    DivisorAtMost(x0, g);
    assert g < p;
  }
}
