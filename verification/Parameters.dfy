/** The literal parameters of the STARK curve (curve/curve.go, init). Theorems are stated for any
    curve and get the parameters through the lemmas here, so that the solver never meets the
    cubes of the curve equation beside a literal of 252 bits. */
module Parameters {
  import opened Results
  import opened NumberTheory
  import opened Powers
  import opened Curve
  import opened ScalarMult
  import opened Ecdsa
  import opened Residues
  import P = Pedersen

  /** The curve as init leaves it, around a table of constant points. */
  function Stark(points: seq<(int, int)>): StarkCurve {
    StarkCurve(
      3618502788666131213697322783095070105623107215331596699973092056135872020481,
      3618502788666131213697322783095070105526743751716087489154079457884512865583,
      3141592653589793238462643383279502884197169399375105820974944592307816406665,
      2089986280348253421170679821480865132823066470938446095505822317253594081284,
      1713931329540660377023406109199410414810705867260802078187082345529207694986,
      874739451078007766457464989774322083649278607533249481151382481072868806602,
      152666792071518830868575557812948353041420400780739481342941381225525861407,
      2089986280348253421170679821480865132823066470938446095505822317253594081284,
      1904571459125470836673916673895659690812401348070794621786009710606664325495,
      3618502788666131106986593281521497120414687020801267626233049500247285301248,
      1, 252, points)
  }

  predicate IsStark(sc: StarkCurve) {
    sc == Stark(sc.ConstantPoints)
  }

  lemma GeneratorOnCurve(points: seq<(int, int)>)
    ensures Stark(points).OnCurve(Stark(points).Gen())
  {}

  lemma ShiftOnCurve(points: seq<(int, int)>)
    ensures Stark(points).OnCurve(Stark(points).Shift())
  {}

  /** The second shift point is the mirror image of the first, so it needs no check of its own. */
  lemma ShiftsOpposite(points: seq<(int, int)>)
    ensures Stark(points).MinusShift() == Stark(points).Neg(Stark(points).Shift())
  {
    hide StarkCurve.IsOnCurve;
  }

  /** Generator and both shift points satisfy the curve equation; the shift points are opposite. */
  lemma StarkPoints(points: seq<(int, int)>)
    ensures var sc := Stark(points);
            sc.OnCurve(sc.Gen()) && sc.OnCurve(sc.Shift()) && sc.OnCurve(sc.MinusShift())
            && sc.MinusShift() == sc.Neg(sc.Shift())
  {
    GeneratorOnCurve(points);
    ShiftOnCurve(points);
    ShiftsOpposite(points);
    hide Stark;
    NegOnCurve(Stark(points), Stark(points).Shift());
  }

  // ---------- no point has x = 0 ----------

  /** B * ROOT^2 = -3 modulo P. */
  const ROOT: int := 792267971990491058234511046150382076663040125459930456939604652266944859779

  lemma RootOfCurve(points: seq<(int, int)>)
    ensures var sc := Stark(points); Zero(sc.B * (ROOT * ROOT) + 3, sc.P) && sc.P % 3 == 2
  {}

  /** B is no square modulo P, so the curve has no point with x = 0. */
  lemma NoPointAtZero(sc: StarkCurve, y: int)
    requires IsStark(sc) && IsPrime(sc.P)
    ensures !sc.IsOnCurve(0, y)
  {
    RootOfCurve(sc.ConstantPoints);
    assert sc.P > 3;
    hide StarkCurve.IsOnCurve, Stark, IsStark, IsPrime, Zero, ROOT;
    OnCurveResidual(sc, 0, y);
    NotLikeMinusThree(sc.P, sc.B, ROOT, y);
  }

  /** For the literal parameters the whole hypothesis of the signature theorems comes down to
      four facts of mathematics: two primes, one group law, one order. */
  lemma StarkReady(sc: StarkCurve)
    requires IsStark(sc)
    ensures Ready(sc) <==> IsPrime(sc.P) && IsPrime(sc.N) && sc.Associative() && Times(sc, sc.N, sc.Gen()) == Infinity
  {
    hide StarkCurve.IsOnCurve, StarkCurve.Associative, IsPrime, Times, Pow2;
    StarkPoints(sc.ConstantPoints);
    Pow2Curve();
  }

  /** And that of the theorems on PedersenHash comes down to one prime and the loaded table. */
  lemma StarkHashReady(sc: StarkCurve)
    requires IsStark(sc)
    ensures P.HashReady(sc) <==> IsPrime(sc.P) && P.TableOnCurve(sc)
  {
    hide StarkCurve.IsOnCurve, IsPrime, P.TableOnCurve;
    StarkPoints(sc.ConstantPoints);
    if IsPrime(sc.P) {
      forall y
        ensures !sc.IsOnCurve(0, y)
      {
        NoPointAtZero(sc, y);
      }
    }
  }

  /** P is of the form 3k + 2, so on the STARK curve Add with equal x is always wrong. */
  lemma StarkModThree(sc: StarkCurve)
    requires IsStark(sc)
    ensures sc.P % 3 == 2 && sc.Max > 1 && (sc.Field() <==> IsPrime(sc.P))
  {
    hide StarkCurve.IsOnCurve, IsPrime;
    RootOfCurve(sc.ConstantPoints);
  }
}
