/** Powers of two, as bit lengths and shifts use them. */
module Powers {

  function Pow2(n: nat): (r: nat)
    ensures r >= 1
  {
    if n == 0 then 1 else 2 * Pow2(n - 1)
  }

  lemma {:induction false} Pow2Sum(a: nat, b: nat)
    ensures Pow2(a + b) == Pow2(a) * Pow2(b)
  {
    if a > 0 {
      Pow2Sum(a - 1, b);
    }
  }

  lemma {:induction false} Pow2Monotone(a: nat, b: nat)
    requires a <= b
    ensures Pow2(a) <= Pow2(b)
  {
    if a < b {
      Pow2Monotone(a, b - 1);
    }
  }

  lemma Pow2Zero()
    ensures Pow2(0) == 1
  {}

  /** big.Int.Rsh of a non-negative number. */
  function Shr(v: nat, n: nat): nat {
    QuotientBounds(v, Pow2(n));
    v / Pow2(n)
  }

  lemma QuotientBounds(v: nat, w: nat)
    requires w >= 1
    ensures 0 <= v / w && w * (v / w) <= v < w * (v / w) + w
  {
    var q := v / w;
    assert v == w * q + v % w;
    if q <= -1 {
      NegativeProduct(w, q);
    }
  }

  lemma NegativeProduct(w: int, q: int)
    requires w >= 0 && q <= -1
    ensures w * q <= -w
  {}

  lemma Pow2Small()
    ensures Pow2(4) == 16 && Pow2(8) == 256 && Pow2(16) == 0x1_0000 && Pow2(32) == 0x1_0000_0000
  {
    Pow2Sum(8, 8);
    Pow2Sum(16, 16);
  }

  lemma Pow2Words()
    ensures Pow2(64) == 0x1_0000_0000_0000_0000
    ensures Pow2(128) == 0x1_0000_0000_0000_0000_0000_0000_0000_0000
  {
    hide Pow2;
    Pow2Small();
    Pow2Sum(32, 32);
    Pow2Sum(64, 64);
  }

  lemma Pow2Two48()
    ensures Pow2(248) == 452312848583266388373324160190187140051835877600158453279131187530910662656
  {
    hide Pow2;
    Pow2Small();
    Pow2Words();
    Pow2Sum(128, 64);
    Pow2Sum(192, 32);
    Pow2Sum(224, 16);
    Pow2Sum(240, 8);
  }

  /** The bound Max of the curve, and one bit more. */
  lemma Pow2Curve()
    ensures Pow2(251) == 3618502788666131106986593281521497120414687020801267626233049500247285301248
    ensures Pow2(252) == 7237005577332262213973186563042994240829374041602535252466099000494570602496
  {
    assert Pow2(3) == 8;
    Pow2Two48();
    hide Pow2;
    Pow2Small();
    Pow2Sum(248, 3);
    Pow2Sum(248, 4);
  }
}
