/** Modular division (curve/utils.go). */
module Division {
  import opened NumberTheory

  /** n/m modulo p: n times the cofactor of m, reduced. Like the source it returns a
      number even where no quotient exists. */
  function DivMod(n: int, m: int, p: int): int
    requires p > 0
  {
    n * Cofactor(m, p) % p
  }

  /** For a divisor coprime to p, of either sign, the result is the one quotient in [0, p). */
  lemma DivModQuotient(n: int, m: int, p: int)
    requires p > 0 && Coprime(m, p)
    ensures 0 <= DivMod(n, m, p) < p
    ensures Zero(m * DivMod(n, m, p) - n, p)
    ensures forall x :: 0 <= x < p && Zero(m * x - n, p) ==> x == DivMod(n, m, p)
  {
    QuotientSolves(n, m, p);
    forall x | 0 <= x < p && Zero(m * x - n, p)
      ensures x == DivMod(n, m, p)
    {
      QuotientUnique(n, m, p, x);
    }
  }

  lemma DivModRange(n: int, m: int, p: int)
    requires p > 0
    ensures 0 <= DivMod(n, m, p) < p
  {}

  lemma QuotientUnique(n: int, m: int, p: int, x: int)
    requires p > 0 && Coprime(m, p) && 0 <= x < p && Zero(m * x - n, p)
    ensures x == DivMod(n, m, p)
  {
    hide DivMod, Coprime;
    var r := DivMod(n, m, p);
    DivModRange(n, m, p);
    QuotientSolves(n, m, p);
    ZeroSum(m * x - n, m * r - n, p);
    assert m * x - m * r == m * (x - r);
    CancelFactor(m, x - r, p);
    SmallZero(x - r, p);
  }

  lemma QuotientSolves(n: int, m: int, p: int)
    requires p > 0 && Coprime(m, p)
    ensures Zero(m * DivMod(n, m, p) - n, p)
  {
    hide Cofactor, Coprime;
    var g := Cofactor(m, p);
    var r := n * g % p;
    CoprimeBezout(m, p);
    ZeroResidue(n * g, p);
    ZeroScale(m, r - n * g, p);
    ZeroScale(n, m * g - 1, p);
    ZeroSum(m * (r - n * g), n * (m * g - 1), p);
    assert m * (r - n * g) == m * r - n * (m * g);
    assert n * (m * g - 1) == n * (m * g) - n;
  }

  /** A divisor that is a multiple of p gives 0. */
  lemma DivModMultiple(n: int, m: int, p: int)
    requires p > 0 && Zero(m, p)
    ensures DivMod(n, m, p) == 0
  {
    MultipleCofactor(m, p);
    DivModUnique(0, p, 0, 0);
  }

  /** DivMod(1, m, p) is an inverse of m exactly when m and p share no factor. */
  lemma InverseIffCoprime(m: int, p: int)
    requires p > 0
    ensures Zero(m * DivMod(1, m, p) - 1, p) <==> Coprime(m, p)
  {
    if Coprime(m, p) {
      DivModQuotient(1, m, p);
    } else if Zero(m * DivMod(1, m, p) - 1, p) {
      var d :| 2 <= d && Divides(d, m) && Divides(d, p);
      var x := DivMod(1, m, p);
      var k := (m * x - 1) / p;
      assert m * x - 1 == p * k;
      ZeroCombine(x, m, -k, p, d);
      assert x * m + -k * p == 1;
      DivModUnique(1, d, 0, 1);
    }
  }

  /** For a prime modulus the result depends on n and m only through their residues. */
  lemma DivModCongruent(n: int, m: int, n': int, m': int, p: int)
    requires IsPrime(p) && Zero(n - n', p) && Zero(m - m', p)
    ensures DivMod(n, m, p) == DivMod(n', m', p)
  {
    assert p > 0;
    hide DivMod, IsPrime, Coprime, Zero;
    ZeroCongruent(m, m', p);
    if Zero(m, p) {
      DivModMultiple(n, m, p);
      DivModMultiple(n', m', p);
    } else {
      PrimeCoprime(m, p);
      PrimeCoprime(m', p);
      DivModRange(n, m, p);
      QuotientSolves(n, m, p);
      EquationCongruent(n, m, n', m', p, DivMod(n, m, p));
      QuotientUnique(n', m', p, DivMod(n, m, p));
    }
  }

  lemma EquationCongruent(n: int, m: int, n': int, m': int, p: int, r: int)
    requires p > 0 && Zero(n - n', p) && Zero(m - m', p) && Zero(m * r - n, p)
    ensures Zero(m' * r - n', p)
  {
    hide Zero;
    ZeroSum(m * r - n, n - n', p);
    ZeroScale(r, m - m', p);
    ZeroSum(m * r - n', r * (m - m'), p);
    assert r * (m - m') == m * r - m' * r;
    assert (m * r - n') - r * (m - m') == m' * r - n';
  }

  /** Inverting twice gives back every number in (0, p). */
  lemma InverseTwice(x: int, p: int)
    requires IsPrime(p) && 0 < x < p
    ensures 0 < DivMod(1, x, p) < p
    ensures DivMod(1, DivMod(1, x, p), p) == x
  {
    DivModUnique(x, p, 0, x);
    PrimeCoprime(x, p);
    DivModQuotient(1, x, p);
    var y := DivMod(1, x, p);
    if y == 0 {
      SmallZero(-1, p);
      assert false;
    }
    DivModUnique(y, p, 0, y);
    PrimeCoprime(y, p);
    DivModQuotient(1, y, p);
    assert y * x - 1 == x * y - 1;
  }
}
