/** Fermat's little theorem, and a number that is not a square modulo a prime. */
module Residues {
  import opened NumberTheory
  import opened Powers

  function Power(a: int, n: nat): int {
    if n == 0 then 1 else a * Power(a, n - 1)
  }

  /** The binomial coefficient, after Pascal. */
  function Choose(n: nat, k: nat): nat {
    if k == 0 then 1 else if n == 0 then 0 else Choose(n - 1, k - 1) + Choose(n - 1, k)
  }

  /** The first k terms of (1 + a)^n. */
  function Terms(n: nat, k: nat, a: int): int {
    if k == 0 then 0 else Terms(n, k - 1, a) + Choose(n, k - 1) * Power(a, k - 1)
  }

  lemma {:induction false} ChooseAbsorbs(n: nat, k: nat)
    requires n > 0 && k > 0
    ensures k * Choose(n, k) == n * Choose(n - 1, k - 1)
    decreases n
  {
    var c, d := Choose(n - 1, k - 1), Choose(n - 1, k);
    assert k * (c + d) == (k - 1) * c + c + k * d;
    if n > 1 {
      ChooseAbsorbs(n - 1, k);
      if k > 1 {
        ChooseAbsorbs(n - 1, k - 1);
        Regroup(n, c, Choose(n - 2, k - 2), Choose(n - 2, k - 1));
      }
    } else if k > 1 {
      ChooseBeyond(1, k);
      ChooseBeyond(0, k - 1);
    }
  }

  lemma Regroup(n: nat, c: nat, u: nat, v: nat)
    requires c == u + v
    ensures (n - 1) * u + c + (n - 1) * v == n * c
  {
    assert (n - 1) * u + (n - 1) * v == (n - 1) * c;
  }

  lemma {:induction false} ChooseBeyond(n: nat, k: nat)
    requires k > n
    ensures Choose(n, k) == 0
    decreases n
  {
    if n > 0 {
      ChooseBeyond(n - 1, k - 1);
      ChooseBeyond(n - 1, k);
    }
  }

  lemma {:induction false} ChooseAll(n: nat)
    ensures Choose(n, n) == 1
  {
    if n > 0 {
      ChooseAll(n - 1);
      ChooseBeyond(n - 1, n);
    }
  }

  /** (1 + a)^(n+1) is (1 + a)^n and a times it, term by term. */
  lemma {:induction false} TermsStep(n: nat, k: nat, a: int)
    ensures Terms(n + 1, k + 1, a) == Terms(n, k + 1, a) + a * Terms(n, k, a)
    decreases k
  {
    var c, d, w, t := if k > 0 then Choose(n, k - 1) else 0, Choose(n, k), Power(a, k), Terms(n, k, a);
    assert Terms(n + 1, k + 1, a) == Terms(n + 1, k, a) + Choose(n + 1, k) * w;
    assert Terms(n, k + 1, a) == t + d * w;
    if k > 0 {
      TermsStep(n, k - 1, a);
      var s, v := Terms(n, k - 1, a), Power(a, k - 1);
      TermAbove(a, c, d, v, w, s, t);
    }
  }

  lemma TermAbove(a: int, c: nat, d: nat, v: int, w: int, s: int, t: int)
    requires w == a * v && t == s + c * v
    ensures (c + d) * w + a * s == d * w + a * t
  {
    assert a * t == a * s + a * (c * v);
    assert (c + d) * w == c * w + d * w;
    assert a * (c * v) == c * (a * v);
  }

  lemma {:induction false} Binomial(n: nat, a: int)
    ensures Power(1 + a, n) == Terms(n, n + 1, a)
  {
    if n > 0 {
      Binomial(n - 1, a);
      TermsStep(n - 1, n, a);
      ChooseBeyond(n - 1, n);
      var t := Terms(n - 1, n, a);
      assert Terms(n - 1, n + 1, a) == t + 0 * Power(a, n);
      assert (1 + a) * t == t + a * t;
    }
  }

  lemma ChooseMultiple(p: nat, k: nat)
    requires IsPrime(p) && 0 < k < p
    ensures Zero(Choose(p, k), p)
  {
    ChooseAbsorbs(p, k);
    ZeroMultiple(Choose(p - 1, k - 1), p);
    PrimeDividesProduct(k, Choose(p, k), p);
    if Zero(k, p) {
      SmallZero(k, p);
    }
  }

  /** Modulo p all but the outer terms vanish. */
  lemma {:induction false} InnerTerms(p: nat, k: nat, a: int)
    requires IsPrime(p) && 0 < k <= p
    ensures Zero(Terms(p, k, a) - 1, p)
    decreases k
  {
    if k == 1 {
      assert Terms(p, 0, a) == 0 && Terms(p, 1, a) == 1;
      ZeroMultiple(0, p);
    } else {
      InnerTerms(p, k - 1, a);
      ChooseMultiple(p, k - 1);
      ZeroCombine(1, Terms(p, k - 1, a) - 1, Power(a, k - 1), Choose(p, k - 1), p);
      assert Power(a, k - 1) * Choose(p, k - 1) == Choose(p, k - 1) * Power(a, k - 1);
    }
  }

  lemma LastTerm(n: nat, a: int)
    ensures Terms(n, n + 1, a) == Terms(n, n, a) + Power(a, n)
  {
    ChooseAll(n);
  }

  /** Fermat's little theorem. */
  lemma {:induction false} Fermat(p: nat, a: nat)
    requires IsPrime(p)
    ensures Zero(Power(a, p) - a, p)
    decreases a
  {
    if a == 0 {
      assert Power(0, p) == 0 * Power(0, p - 1);
      ZeroMultiple(0, p);
    } else {
      Fermat(p, a - 1);
      Binomial(p, a - 1);
      InnerTerms(p, p, a - 1);
      LastTerm(p, a - 1);
      hide Power, Terms, Choose, IsPrime, Zero;
      var t, w := Terms(p, p, a - 1), Power(a - 1, p);
      ZeroSum(t - 1, w - (a - 1), p);
      assert Power(a, p) - a == (t - 1) + (w - (a - 1));
    }
  }

  lemma {:induction false} PowerCongruent(a: int, b: int, n: nat, p: nat)
    requires p > 0 && Zero(a - b, p)
    ensures Zero(Power(a, n) - Power(b, n), p)
  {
    if n == 0 {
      ZeroMultiple(0, p);
    } else {
      PowerCongruent(a, b, n - 1, p);
      var u, v := Power(a, n - 1), Power(b, n - 1);
      ZeroCombine(a, u - v, v, a - b, p);
      assert a * u - b * v == a * (u - v) + v * (a - b);
    }
  }

  lemma {:induction false} PowerOfCube(a: int, n: nat)
    ensures Power(a, 3 * n + 2) == Power(a * a * a, n) * (a * a)
  {
    if n == 0 {
      assert Power(a, 2) == a * Power(a, 1) == a * (a * Power(a, 0));
    } else {
      PowerOfCube(a, n - 1);
      var w := Power(a, 3 * (n - 1) + 2);
      assert Power(a, 3 * n + 2) == a * Power(a, 3 * n + 1) == a * (a * Power(a, 3 * n)) == a * (a * (a * w));
      var c, v, q := a * a * a, Power(a * a * a, n - 1), a * a;
      assert a * (a * (a * w)) == c * w;
      assert c * (v * q) == (c * v) * q;
    }
  }

  /** If v^3 = 8 and p = 3k + 2, then v = 2 or v = 0: there p-th powers determine cubes. */
  lemma CubeRootOfEight(p: nat, v: nat)
    requires IsPrime(p) && p % 3 == 2 && Zero(v * v * v - 8, p)
    ensures Zero(2 * (v * v) - 4 * v, p)
  {
    hide Power, IsPrime, Zero;
    var k := p / 3;
    Fermat(p, v);
    Fermat(p, 2);
    PowerOfCube(v, k);
    PowerOfCube(2, k);
    PowerCongruent(v * v * v, 8, k, p);
    FactorsAgree(p, Power(8, k), Power(v * v * v, k), v * v, v);
  }

  lemma FactorsAgree(p: nat, e: int, f: int, s: int, v: int)
    requires p > 0 && Zero(f - e, p) && Zero(f * s - v, p) && Zero(e * 4 - 2, p)
    ensures Zero(2 * s - 4 * v, p)
  {
    hide Zero;
    ZeroScale(s, f - e, p);
    ZeroSum(f * s - v, s * (f - e), p);
    assert (f * s - v) - s * (f - e) == s * e - v;
    ZeroCombine(4, s * e - v, -s, e * 4 - 2, p);
    assert 4 * (s * e - v) + -s * (e * 4 - 2) == 2 * s - 4 * v;
  }

  /** -3 is no square modulo a prime 3k + 2 beyond 2. */
  lemma MinusThree(p: nat, z: int)
    requires IsPrime(p) && p > 3 && p % 3 == 2
    ensures !Zero(z * z + 3, p)
  {
    if Zero(z * z + 3, p) {
      hide IsPrime, Zero;
      var v: nat := (z - 1) % p;
      ZeroResidue(z - 1, p);
      assert (v + 1) - z == v - (z - 1);
      SquareCongruent(v + 1, z, p);
      RootShifted(p, v);
    }
  }

  lemma RootShifted(p: nat, v: nat)
    requires IsPrime(p) && p > 3 && p % 3 == 2
    ensures !Zero((v + 1) * (v + 1) + 3, p)
  {
    hide IsPrime, Zero;
    if Zero((v + 1) * (v + 1) + 3, p) {
      ZeroScale(v - 2, (v + 1) * (v + 1) + 3, p);
      CubeIdentity(v);
      CubeRootOfEight(p, v);
      assert 2 * (v * v) - 4 * v == 2 * (v * (v - 2));
      PrimeDividesProduct(2, v * (v - 2), p);
      NotBoth(p, v);
    }
  }

  lemma SquareCongruent(y: int, z: int, p: nat)
    requires p > 0 && Zero(y - z, p) && Zero(z * z + 3, p)
    ensures Zero(y * y + 3, p)
  {
    ZeroScale(y + z, y - z, p);
    assert (y + z) * (y - z) == y * y - z * z;
    ZeroSum((y + z) * (y - z), z * z + 3, p);
  }

  lemma CubeIdentity(v: int)
    ensures (v - 2) * ((v + 1) * (v + 1) + 3) == v * v * v - 8
  {
    assert (v + 1) * (v + 1) + 3 == v * v + 2 * v + 4;
    assert (v - 2) * (v * v + 2 * v + 4) == v * (v * v) + v * (2 * v) + v * 4 - 2 * (v * v) - 4 * v - 8;
  }

  /** Neither 0 nor 2 comes from a root of -3. */
  lemma NotBoth(p: nat, v: nat)
    requires IsPrime(p) && p > 3 && p % 3 == 2 && Zero((v + 1) * (v + 1) + 3, p)
    ensures !Zero(2, p) && !Zero(v * (v - 2), p)
  {
    Small(p);
    if Zero(v * (v - 2), p) {
      PrimeDividesProduct(v, v - 2, p);
      var s := (v + 1) * (v + 1) + 3;
      if Zero(v, p) {
        ZeroScale(v + 2, v, p);
        assert s - (v + 2) * v == 4;
        ZeroSum(s, (v + 2) * v, p);
      } else {
        ZeroScale(v + 4, v - 2, p);
        assert s - (v + 4) * (v - 2) == 12;
        ZeroSum(s, (v + 4) * (v - 2), p);
      }
      assert false;
    }
  }

  /** A prime beyond 3 divides neither 2, nor 4, nor 12. */
  lemma Small(p: nat)
    requires IsPrime(p) && p > 3
    ensures !Zero(2, p) && !Zero(4, p) && !Zero(12, p)
  {
    if Zero(4, p) || Zero(12, p) || Zero(2, p) {
      if Zero(4, p) {
        PrimeDividesProduct(2, 2, p);
      } else if Zero(12, p) {
        PrimeDividesProduct(2, 6, p);
        if Zero(6, p) {
          PrimeDividesProduct(2, 3, p);
        }
      }
      if Zero(2, p) {
        SmallZero(2, p);
      } else {
        SmallZero(3, p);
      }
      assert false;
    }
  }

  /** Nor is a number that a square factor turns into -3. */
  lemma NotLikeMinusThree(p: nat, b: int, r: int, y: int)
    requires IsPrime(p) && p > 3 && p % 3 == 2 && Zero(b * (r * r) + 3, p)
    ensures !Zero(y * y - b, p)
  {
    hide IsPrime, Zero;
    if Zero(y * y - b, p) {
      ZeroCombine(r * r, y * y - b, 1, b * (r * r) + 3, p);
      assert r * r * (y * y - b) + 1 * (b * (r * r) + 3) == (r * y) * (r * y) + 3 by {
        assert r * r * (y * y - b) == r * r * (y * y) - r * r * b;
        assert (r * y) * (r * y) == r * r * (y * y);
      }
      MinusThree(p, r * y);
    }
  }
}
