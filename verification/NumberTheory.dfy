/** Integer facts the curve code leans on: congruences, primes, and the extended
    Euclid that stands behind big.Int.GCD. Dafny's % is Euclidean, as big.Int.Mod is. */
module NumberTheory {

  predicate Divides(d: int, n: int) {
    d != 0 && n % d == 0
  }

  ghost predicate IsPrime(n: int) {
    2 <= n && forall d :: 2 <= d < n ==> !Divides(d, n)
  }

  ghost predicate Coprime(a: int, b: int) {
    forall d :: 2 <= d ==> !Divides(d, a) || !Divides(d, b)
  }

  /** a is a multiple of p. */
  predicate Zero(a: int, p: int)
    requires p > 0
  {
    a % p == 0
  }

  /** Division with remainder has one answer. */
  lemma DivModUnique(a: int, p: int, q: int, r: int)
    requires 0 <= r < p && a == q * p + r
    ensures a % p == r && a / p == q
  {
    var d := q - a / p;
    assert p * d == a % p - r by {
      assert a == p * (a / p) + a % p;
      assert p * d == p * q - p * (a / p);
    }
    if d >= 1 {
      MulMonotone(p, 1, d);
    } else if d <= -1 {
      MulMonotone(p, d, -1);
    }
  }

  lemma MulMonotone(k: int, x: int, y: int)
    requires 0 <= k && x <= y
    ensures k * x <= k * y
  {}

  lemma ZeroMultiple(k: int, p: int)
    requires p > 0
    ensures Zero(k * p, p) && Zero(p * k, p)
  {
    DivModUnique(k * p, p, k, 0);
  }

  /** Integer combinations of multiples of p are multiples of p. */
  lemma ZeroCombine(u: int, a: int, v: int, b: int, p: int)
    requires p > 0 && Zero(a, p) && Zero(b, p)
    ensures Zero(u * a + v * b, p)
  {
    var i, j := a / p, b / p;
    assert a == p * i && b == p * j;
    assert u * a + v * b == p * (u * i + v * j) by {
      assert u * (p * i) == p * (u * i);
      assert v * (p * j) == p * (v * j);
    }
    ZeroMultiple(u * i + v * j, p);
  }

  lemma ZeroScale(u: int, a: int, p: int)
    requires p > 0 && Zero(a, p)
    ensures Zero(u * a, p)
  {
    ZeroCombine(u, a, 0, a, p);
  }

  lemma ZeroSum(a: int, b: int, p: int)
    requires p > 0 && Zero(a, p) && Zero(b, p)
    ensures Zero(a + b, p) && Zero(a - b, p)
  {
    ZeroCombine(1, a, 1, b, p);
    ZeroCombine(1, a, -1, b, p);
  }

  /** Equal residues, said as a difference. */
  lemma ModEqual(a: int, b: int, p: int)
    requires p > 0
    ensures a % p == b % p <==> Zero(a - b, p)
  {
    var k := a / p - b / p;
    assert a == p * (a / p) + a % p && b == p * (b / p) + b % p;
    assert a - b == p * k + (a % p - b % p) by {
      assert p * k == p * (a / p) - p * (b / p);
    }
    if a % p == b % p {
      ZeroMultiple(k, p);
    } else if Zero(a - b, p) {
      ZeroMultiple(k, p);
      ZeroSum(a - b, p * k, p);
      SmallZero(a % p - b % p, p);
    }
  }

  lemma SmallZero(d: int, p: int)
    requires p > 0 && Zero(d, p) && -p < d < p
    ensures d == 0
  {
    if d < 0 {
      DivModUnique(d, p, -1, d + p);
    } else {
      DivModUnique(d, p, 0, d);
    }
  }

  lemma ZeroCongruent(a: int, b: int, p: int)
    requires p > 0 && Zero(a - b, p)
    ensures Zero(a, p) <==> Zero(b, p)
  {
    ModEqual(a, b, p);
  }

  /** Taking the residue changes a number by a multiple of p. */
  lemma ZeroResidue(a: int, p: int)
    requires p > 0
    ensures Zero(a - a % p, p) && Zero(a % p - a, p)
  {
    ZeroMultiple(a / p, p);
    assert a - a % p == p * (a / p);
    ZeroScale(-1, a - a % p, p);
  }

  /** What big.Int.GCD returns: (g, x, y) with a*x + b*y == g dividing both. */
  function Egcd(a: nat, b: nat): (r: (nat, int, int))
    requires a > 0 || b > 0
    ensures a * r.1 + b * r.2 == r.0
    ensures 1 <= r.0 && a % r.0 == 0 && b % r.0 == 0
    decreases b
  {
    if b == 0 then
      DivModUnique(a, a, 1, 0);
      DivModUnique(0, a, 0, 0);
      (a, 1, 0)
    else
      var r := Egcd(b, a % b);
      EgcdStep(a, b, r.0, r.1, r.2);
      (r.0, r.2, r.1 - (a / b) * r.2)
  }

  lemma EgcdStep(a: nat, b: nat, g: nat, x: int, y: int)
    requires b > 0 && g > 0 && b * x + (a % b) * y == g
    requires b % g == 0 && (a % b) % g == 0
    ensures a * y + b * (x - (a / b) * y) == g
    ensures a % g == 0
  {
    var q := a / b;
    assert a == b * q + a % b;
    assert a * y + b * (x - q * y) == b * x + (a % b) * y by {
      assert a * y == (b * q) * y + (a % b) * y;
      assert b * (x - q * y) == b * x - b * (q * y);
      assert (b * q) * y == b * (q * y);
    }
    ZeroCombine(q, b, 1, a % b, g);
    assert q * b + 1 * (a % b) == a;
  }

  /** A prime divides a product only if it divides a factor. */
  lemma PrimeDividesProduct(a: int, b: int, p: int)
    requires IsPrime(p) && Zero(a * b, p)
    ensures Zero(a, p) || Zero(b, p)
  {
    if !Zero(a, p) {
      PrimeCoprime(a, p);
      CancelFactor(a, b, p);
    }
  }

  lemma PrimeCoprime(a: int, p: int)
    requires IsPrime(p) && !Zero(a, p)
    ensures Coprime(a, p)
  {
    forall d | 2 <= d
      ensures !Divides(d, a) || !Divides(d, p)
    {
      if d > p {
        DivModUnique(p, d, 0, p);
      }
    }
  }

  /** The cofactor Bezout gives is an inverse. */
  ghost function Inverse(a: int, p: int): (x: int)
    requires p > 0 && Coprime(a, p)
    ensures Zero(a * x - 1, p)
  {
    CoprimeBezout(a, p);
    Cofactor(a, p)
  }

  /** The x that big.Int.GCD(x, y, m, p) stores: the sign of m moves to the cofactor. */
  function Cofactor(m: int, p: int): int
    requires p > 0
  {
    if m < 0 then -Egcd(-m, p).1 else Egcd(m, p).1
  }

  lemma CoprimeBezout(m: int, p: int)
    requires p > 0 && Coprime(m, p)
    ensures Zero(m * Cofactor(m, p) - 1, p)
  {
    var a := if m < 0 then -m else m;
    var (g, x, y) := Egcd(a, p);
    if m < 0 {
      ZeroScale(-1, a, g);
    }
    assert Divides(g, m) && Divides(g, p);
    assert g == 1;
    assert a * x == 1 - p * y;
    assert m * Cofactor(m, p) == a * x;
    ZeroMultiple(-y, p);
    assert p * -y == -(p * y);
  }

  /** A multiple of p has cofactor 0, whatever its sign. */
  lemma MultipleCofactor(m: int, p: int)
    requires p > 0 && Zero(m, p)
    ensures Cofactor(m, p) == 0
  {
    var a := if m < 0 then -m else m;
    if m < 0 {
      ZeroScale(-1, m, p);
    }
    assert a % p == 0;
    assert Egcd(p, 0) == (p, 1, 0);
    assert Egcd(a, p).1 == Egcd(p, a % p).2;
  }

  /** A factor coprime to p can be cancelled. */
  lemma CancelFactor(d: int, a: int, p: int)
    requires p > 0 && Coprime(d, p) && Zero(d * a, p)
    ensures Zero(a, p)
  {
    var x := Inverse(d, p);
    ZeroScale(x, d * a, p);
    ZeroScale(a, d * x - 1, p);
    ZeroSum(x * (d * a), a * (d * x - 1), p);
    CancelIdentity(d, a, x);
  }

  lemma CancelIdentity(d: int, a: int, x: int)
    ensures x * (d * a) - a * (d * x - 1) == a
  {
    assert x * (d * a) == a * (d * x);
  }
}
