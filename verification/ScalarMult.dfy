/** The two scalar multiplications of curve/curve.go against k-fold addition. */
module ScalarMult {
  import opened Results
  import opened NumberTheory
  import opened Powers
  import opened Division
  import opened Curve
  import opened Residues

  /** k-fold addition. */
  function Times(sc: StarkCurve, k: nat, p: Point): Point {
    if k == 0 then Infinity else sc.Plus(Times(sc, k - 1, p), p)
  }

  ghost predicate Group(sc: StarkCurve) {
    sc.Field() && sc.Associative()
  }

  /** p is a finite point killed by the odd prime N, the order the curve's points have. */
  ghost predicate OrderN(sc: StarkCurve, p: Point) {
    p.Affine? && sc.OnCurve(p) && IsPrime(sc.N) && sc.N % 2 == 1 && Times(sc, sc.N, p) == Infinity
  }

  // ---------- laws of k-fold addition ----------

  lemma PlusInfinity(sc: StarkCurve, a: Point)
    ensures sc.Plus(a, Infinity) == a && sc.Plus(Infinity, a) == a
  {}

  lemma {:induction false} TimesClosed(sc: StarkCurve, k: nat, p: Point)
    requires sc.Field() && sc.OnCurve(p)
    ensures sc.OnCurve(Times(sc, k, p))
  {
    hide StarkCurve.Add, StarkCurve.Double, StarkCurve.Plus, StarkCurve.IsOnCurve, IsPrime;
    if k > 0 {
      TimesClosed(sc, k - 1, p);
      PlusClosed(sc, Times(sc, k - 1, p), p);
    }
  }

  lemma PlusAssociates(sc: StarkCurve, a: Point, b: Point, c: Point)
    requires Group(sc) && sc.OnCurve(a) && sc.OnCurve(b) && sc.OnCurve(c)
    ensures sc.Plus(sc.Plus(a, b), c) == sc.Plus(a, sc.Plus(b, c))
    ensures sc.OnCurve(sc.Plus(a, sc.Plus(b, c)))
  {
    hide StarkCurve.Plus, StarkCurve.IsOnCurve, IsPrime;
    assert sc.Associates(a, b, c);
    PlusClosed(sc, b, c);
    PlusClosed(sc, a, sc.Plus(b, c));
  }

  lemma {:induction false} TimesSum(sc: StarkCurve, a: nat, b: nat, p: Point)
    requires Group(sc) && sc.OnCurve(p)
    ensures Times(sc, a + b, p) == sc.Plus(Times(sc, a, p), Times(sc, b, p))
  {
    hide StarkCurve.Add, StarkCurve.Double, StarkCurve.Plus, StarkCurve.IsOnCurve, IsPrime;
    PlusInfinity(sc, Times(sc, a, p));
    if b == 0 {
    } else {
      TimesSum(sc, a, b - 1, p);
      TimesClosed(sc, a, p);
      TimesClosed(sc, b - 1, p);
      PlusAssociates(sc, Times(sc, a, p), Times(sc, b - 1, p), p);
      assert Times(sc, a + b, p) == sc.Plus(Times(sc, a + (b - 1), p), p);
    }
  }

  lemma {:induction false} TimesInfinity(sc: StarkCurve, k: nat)
    ensures Times(sc, k, Infinity) == Infinity
  {
    if k > 0 {
      TimesInfinity(sc, k - 1);
    }
  }

  lemma {:induction false} TimesProduct(sc: StarkCurve, a: nat, b: nat, p: Point)
    requires Group(sc) && sc.OnCurve(p)
    ensures Times(sc, a * b, p) == Times(sc, a, Times(sc, b, p))
  {
    hide StarkCurve.Add, StarkCurve.Double, StarkCurve.Plus, StarkCurve.IsOnCurve, IsPrime;
    if a == 0 {
    } else {
      TimesProduct(sc, a - 1, b, p);
      assert a * b == (a - 1) * b + b;
      TimesSum(sc, (a - 1) * b, b, p);
    }
  }

  /** Four terms may be regrouped in pairs. */
  lemma Exchange(sc: StarkCurve, a: Point, b: Point, c: Point, d: Point)
    requires Group(sc) && sc.OnCurve(a) && sc.OnCurve(b) && sc.OnCurve(c) && sc.OnCurve(d)
    ensures sc.Plus(sc.Plus(a, b), sc.Plus(c, d)) == sc.Plus(sc.Plus(a, c), sc.Plus(b, d))
  {
    hide StarkCurve.Add, StarkCurve.Double, StarkCurve.Plus, StarkCurve.IsOnCurve, IsPrime;
    PlusClosed(sc, c, d);
    PlusClosed(sc, b, d);
    PlusClosed(sc, b, c);
    PlusAssociates(sc, a, b, sc.Plus(c, d));
    PlusAssociates(sc, b, c, d);
    PlusCommutes(sc, b, c);
    PlusAssociates(sc, c, b, d);
    PlusAssociates(sc, a, c, sc.Plus(b, d));
  }

  lemma {:induction false} TimesDistributes(sc: StarkCurve, k: nat, p: Point, q: Point)
    requires Group(sc) && sc.OnCurve(p) && sc.OnCurve(q)
    ensures Times(sc, k, sc.Plus(p, q)) == sc.Plus(Times(sc, k, p), Times(sc, k, q))
  {
    hide StarkCurve.Add, StarkCurve.Double, StarkCurve.Plus, StarkCurve.IsOnCurve, IsPrime;
    PlusInfinity(sc, Infinity);
    if k > 0 {
      TimesDistributes(sc, k - 1, p, q);
      TimesClosed(sc, k - 1, p);
      TimesClosed(sc, k - 1, q);
      Exchange(sc, Times(sc, k - 1, p), Times(sc, k - 1, q), p, q);
    }
  }

  lemma TimesTwice(sc: StarkCurve, p: Point)
    ensures Times(sc, 1, p) == p && Times(sc, 2, p) == sc.Plus(p, p)
  {
    assert Times(sc, 1, p) == sc.Plus(Times(sc, 0, p), p);
  }

  /** Multiples of N add nothing. */
  lemma TimesModN(sc: StarkCurve, k: nat, p: Point)
    requires Group(sc) && OrderN(sc, p)
    ensures Times(sc, k, p) == Times(sc, k % sc.N, p)
  {
    hide IsPrime, StarkCurve.IsOnCurve, StarkCurve.Plus;
    var n: nat, r: nat := k / sc.N, k % sc.N;
    TimesMultiple(sc, sc.N, n, r, p);
  }

  lemma TimesMultiple(sc: StarkCurve, c: nat, n: nat, r: nat, p: Point)
    requires Group(sc) && sc.OnCurve(p) && Times(sc, c, p) == Infinity
    ensures Times(sc, n * c + r, p) == Times(sc, r, p)
  {
    hide IsPrime, StarkCurve.IsOnCurve, StarkCurve.Plus;
    TimesSum(sc, n * c, r, p);
    TimesProduct(sc, n, c, p);
    TimesInfinity(sc, n);
    PlusInfinity(sc, Times(sc, r, p));
  }

  /** No smaller positive multiple vanishes. */
  lemma OrderIsN(sc: StarkCurve, k: nat, p: Point)
    requires Group(sc) && OrderN(sc, p) && 0 < k < sc.N
    ensures Times(sc, k, p) != Infinity
  {
    hide StarkCurve.Plus, StarkCurve.IsOnCurve, DivMod;
    if Times(sc, k, p) == Infinity {
      InverseTwice(k, sc.N);
      DivModUnique(k, sc.N, 0, k);
      PrimeCoprime(k, sc.N);
      QuotientSolves(1, k, sc.N);
      var u := DivMod(1, k, sc.N);
      var one := u * k % sc.N;
      ModEqual(u * k, 1, sc.N);
      DivModUnique(1, sc.N, 0, 1);
      assert u * k - 1 == k * u - 1;
      TimesProduct(sc, u, k, p);
      TimesInfinity(sc, u);
      TimesModN(sc, u * k, p);
      TimesTwice(sc, p);
    }
  }

  /** A point of odd order has y nonzero, so its tangent is defined, and its double has the same order. */
  lemma DoubleOrderN(sc: StarkCurve, p: Point)
    requires Group(sc) && OrderN(sc, p)
    ensures !Zero(p.y, sc.P)
    ensures var r := sc.Double(p.x, p.y);
            sc.Plus(p, p) == Affine(r.0, r.1) && OrderN(sc, Affine(r.0, r.1))
  {
    hide StarkCurve.Add, StarkCurve.Double, StarkCurve.IsOnCurve, IsPrime;
    TimesTwice(sc, p);
    OrderIsN(sc, 2, p);
    SameX(sc, p, p);
    PlusClosed(sc, p, p);
    TimesProduct(sc, sc.N, 2, p);
    TimesProduct(sc, 2, sc.N, p);
    TimesInfinity(sc, 2);
  }

  /** Two finite points with different x meet Add's demand. */
  lemma AddIsPlus(sc: StarkCurve, p: Point, q: Point)
    requires p.Affine? && q.Affine? && sc.OnCurve(p) && sc.OnCurve(q) && p.x != q.x
    ensures var r := sc.Add(p.x, p.y, q.x, q.y); sc.Plus(p, q) == Affine(r.0, r.1)
    ensures !Zero(p.x - q.x, sc.P)
  {
    if Zero(p.x - q.x, sc.P) {
      SmallZero(p.x - q.x, sc.P);
    }
  }

  // ---------- EcMult ----------

  /** The recursive multiplication. It never ends for m = 0, and a negative m is read by its
      magnitude's bit length; callers must pass 0 < m. */
  function EcMult(sc: StarkCurve, m: int, x1: int, y1: int): (int, int)
    requires m > 0
    decreases m
  {
    if m == 1 then (x1, y1)
    else if m % 2 == 0 then
      var (c, d) := sc.Double(x1, y1);
      EcMult(sc, m / 2, c, d)
    else
      var (e, f) := EcMult(sc, m - 1, x1, y1);
      sc.Add(e, f, x1, y1)
  }

  /** Every slope the recursion computes is defined. */
  predicate EcMultDefined(sc: StarkCurve, m: int, x1: int, y1: int)
    requires m > 0
    decreases m
  {
    if m == 1 then true
    else if m % 2 == 0 then
      var (c, d) := sc.Double(x1, y1);
      !Zero(y1 * 2, sc.P) && EcMultDefined(sc, m / 2, c, d)
    else
      var (e, f) := EcMult(sc, m - 1, x1, y1);
      EcMultDefined(sc, m - 1, x1, y1) && !Zero(e - x1, sc.P)
  }

  /** EcMult is m-fold addition, and no step of it divides by zero. */
  lemma {:induction false} EcMultCorrect(sc: StarkCurve, m: int, p: Point)
    requires Group(sc) && OrderN(sc, p) && 0 < m < sc.N
    ensures EcMultDefined(sc, m, p.x, p.y)
    ensures var r := EcMult(sc, m, p.x, p.y); Times(sc, m, p) == Affine(r.0, r.1)
    decreases m
  {
    hide StarkCurve.Add, StarkCurve.Double, StarkCurve.Plus, StarkCurve.IsOnCurve, StarkCurve.Associative, IsPrime, Times;
    if m == 1 {
      TimesTwice(sc, p);
    } else if m % 2 == 0 {
      var (c, d) := sc.Double(p.x, p.y);
      DoubleOrderN(sc, p);
      DoubleCoprime(sc, p.y);
      EcMultCorrect(sc, m / 2, Affine(c, d));
      TimesTwice(sc, p);
      TimesProduct(sc, m / 2, 2, p);
    } else {
      EcMultCorrect(sc, m - 1, p);
      TimesClosed(sc, m - 1, p);
      PredecessorDiffers(sc, m, p);
      AddIsPlus(sc, Times(sc, m - 1, p), p);
      TimesStep(sc, m - 1, p);
    }
  }

  lemma TimesZero(sc: StarkCurve, p: Point)
    ensures Times(sc, 0, p) == Infinity
  {}

  lemma TimesStep(sc: StarkCurve, k: nat, p: Point)
    ensures Times(sc, k + 1, p) == sc.Plus(Times(sc, k, p), p)
  {}

  /** (m-1)p and p never share an x: that would make m*p or (m-2)*p vanish. */
  lemma PredecessorDiffers(sc: StarkCurve, m: int, p: Point)
    requires Group(sc) && OrderN(sc, p) && 3 <= m < sc.N
    requires Times(sc, m - 1, p).Affine?
    ensures Times(sc, m - 1, p).x != p.x
  {
    hide StarkCurve.Add, StarkCurve.Double, StarkCurve.IsOnCurve, IsPrime;
    var q := Times(sc, m - 1, p);
    TimesClosed(sc, m - 1, p);
    if q.x == p.x {
      SameX(sc, p, q);
      OrderIsN(sc, m, p);
      OrderIsN(sc, m - 2, p);
      PlusCommutes(sc, q, p);
      PlusInverse(sc, p);
      assert q == p;
      // then (m-2)p + p == p, so (m-2)p is the identity
      TimesClosed(sc, m - 2, p);
      var s := Times(sc, m - 2, p);
      assert sc.Plus(s, p) == p;
      CancelRight(sc, s, p);
    }
  }

  lemma CancelRight(sc: StarkCurve, s: Point, p: Point)
    requires Group(sc) && sc.OnCurve(s) && sc.OnCurve(p) && sc.Plus(s, p) == p
    ensures s == Infinity
  {
    NegOnCurve(sc, p);
    PlusInverse(sc, p);
    PlusAssociates(sc, s, p, sc.Neg(p));
    PlusInfinity(sc, s);
  }

  // ---------- MimicEcMultAir ----------

  function BitAt(m: int, i: nat): int { m / Pow2(i) % 2 }

  /** What `steps` rounds make of the remainder, the doubled point and the partial sum. */
  function AirLoop(sc: StarkCurve, steps: nat, m: int, x1: int, y1: int, psx: int, psy: int): (int, int, int) {
    if steps == 0 then (m, psx, psy)
    else
      var (sx, sy) := if m % 2 == 1 then sc.Add(psx, psy, x1, y1) else (psx, psy);
      var (dx, dy) := sc.Double(x1, y1);
      AirLoop(sc, steps - 1, m / 2, dx, dy, sx, sy)
  }

  /** m*(x1, y1) + (x2, y2) the AIR way. The source tests `psx == x1` on pointers: only the
      caller can make it true, by passing one *big.Int for x1 and x2 (`onePointer`), because
      both operands of later rounds are freshly allocated. */
  function AirMult(sc: StarkCurve, m: int, x1: int, y1: int, x2: int, y2: int, onePointer: bool): Result<(int, int)> {
    if m <= 0 || m >= sc.Max then Err("too many bits")
    else if onePointer then Err("xs are the same")
    else
      var (rest, sx, sy) := AirLoop(sc, 251, m, x1, y1, x2, y2);
      if rest != 0 then Err("m doesn't equal zero") else Ok((sx, sy))
  }

  method MimicEcMultAir(sc: StarkCurve, mout: int, x1: int, y1: int, x2: int, y2: int, onePointer: bool)
    returns (r: Result<(int, int)>)
    ensures r == AirMult(sc, mout, x1, y1, x2, y2, onePointer)
  {
    var m := mout;
    if m <= 0 || m >= sc.Max {
      return Err("too many bits");
    }
    var px, py := x1, y1;
    var psx, psy := x2, y2;
    var same := onePointer;
    for i := 0 to 251
      invariant same ==> i == 0 && onePointer
      invariant i == 0 ==> same == onePointer
      invariant i > 0 ==> !onePointer
      invariant AirLoop(sc, 251 - i, m, px, py, psx, psy) == AirLoop(sc, 251, mout, x1, y1, x2, y2)
    {
      if same {
        return Err("xs are the same");
      }
      if m % 2 == 1 {
        var s := sc.Add(psx, psy, px, py);
        psx, psy := s.0, s.1;
      }
      var d := sc.Double(px, py);
      px, py := d.0, d.1;
      same := false;
      m := m / 2;
    }
    if m != 0 {
      return Err("m doesn't equal zero");
    }
    return Ok((psx, psy));
  }

  /** No executed Add of the rounds meets equal x. */
  predicate AirDefined(sc: StarkCurve, steps: nat, m: int, x1: int, y1: int, psx: int, psy: int) {
    steps == 0 ||
    (var (sx, sy) := if m % 2 == 1 then sc.Add(psx, psy, x1, y1) else (psx, psy);
     var (dx, dy) := sc.Double(x1, y1);
     (m % 2 == 1 ==> !Zero(psx - x1, sc.P)) && AirDefined(sc, steps - 1, m / 2, dx, dy, sx, sy))
  }

  lemma SplitBits(m: int, s: nat)
    requires s > 0
    ensures m / Pow2(s) == m / 2 / Pow2(s - 1)
    ensures m % Pow2(s) == m % 2 + 2 * (m / 2 % Pow2(s - 1))
  {
    var w, h := Pow2(s - 1), m / 2;
    var q, r := h / w, h % w;
    assert h == w * q + r;
    assert m == 2 * h + m % 2;
    assert m == q * (2 * w) + (m % 2 + 2 * r) by {
      assert 2 * (w * q) == q * (2 * w);
    }
    DivModUnique(m, 2 * w, q, m % 2 + 2 * r);
  }

  /** One round in the group: a + b*p, then h times 2p, is a + (b + 2h)*p. */
  lemma RoundSum(sc: StarkCurve, a: Point, b: nat, h: nat, p: Point)
    requires Group(sc) && sc.OnCurve(a) && sc.OnCurve(p)
    ensures sc.Plus(sc.Plus(a, Times(sc, b, p)), Times(sc, h, sc.Plus(p, p)))
         == sc.Plus(a, Times(sc, b + 2 * h, p))
  {
    hide StarkCurve.Add, StarkCurve.Double, StarkCurve.Plus, StarkCurve.IsOnCurve, IsPrime;
    TimesTwice(sc, p);
    TimesProduct(sc, h, 2, p);
    assert h * 2 == 2 * h;
    TimesSum(sc, b, 2 * h, p);
    TimesClosed(sc, b, p);
    TimesClosed(sc, 2 * h, p);
    PlusAssociates(sc, a, Times(sc, b, p), Times(sc, 2 * h, p));
  }

  /** The loop leaves a + (m mod 2^steps)*p and m div 2^steps, wherever its Adds are defined. */
  lemma {:induction false} AirLoopCorrect(sc: StarkCurve, steps: nat, m: nat, p: Point, a: Point)
    requires Group(sc) && OrderN(sc, p) && a.Affine? && sc.OnCurve(a)
    requires AirDefined(sc, steps, m, p.x, p.y, a.x, a.y)
    ensures var r := AirLoop(sc, steps, m, p.x, p.y, a.x, a.y);
            r.0 == m / Pow2(steps)
            && sc.Plus(a, Times(sc, m % Pow2(steps), p)) == Affine(r.1, r.2)
    decreases steps
  {
    hide StarkCurve.Add, StarkCurve.Double, StarkCurve.Plus, StarkCurve.IsOnCurve, StarkCurve.Associative, IsPrime, Pow2, Times;
    if steps > 0 {
      var b := m % 2;
      var (sx, sy) := if b == 1 then sc.Add(a.x, a.y, p.x, p.y) else (a.x, a.y);
      var (dx, dy) := sc.Double(p.x, p.y);
      var a', p' := Affine(sx, sy), Affine(dx, dy);
      DoubleOrderN(sc, p);
      AirStep(sc, b, p, a);
      AirLoopCorrect(sc, steps - 1, m / 2, p', a');
      SplitBits(m, steps);
      RoundSum(sc, a, b, m / 2 % Pow2(steps - 1), p);
    } else {
      PlusInfinity(sc, a);
      TimesZero(sc, p);
      Pow2Zero();
    }
  }

  lemma AirStep(sc: StarkCurve, b: nat, p: Point, a: Point)
    requires Group(sc) && OrderN(sc, p) && a.Affine? && sc.OnCurve(a) && b < 2
    requires b == 1 ==> !Zero(a.x - p.x, sc.P)
    ensures var (sx, sy) := if b == 1 then sc.Add(a.x, a.y, p.x, p.y) else (a.x, a.y);
            sc.Plus(a, Times(sc, b, p)) == Affine(sx, sy) && sc.OnCurve(Affine(sx, sy))
  {
    TimesTwice(sc, p);
    if b == 1 {
      ZeroMultiple(0, sc.P);
      AddIsPlus(sc, a, p);
      PlusClosed(sc, a, p);
    }
  }

  /** MimicEcMultAir(m, p, q) is m*p + q for every 0 < m < 2^251 whose Adds are defined;
      in particular "m doesn't equal zero" is never reported. */
  lemma AirMultCorrect(sc: StarkCurve, m: int, p: Point, q: Point)
    requires Group(sc) && OrderN(sc, p) && q.Affine? && sc.OnCurve(q)
    requires 0 < m < sc.Max && sc.Max == Pow2(251)
    requires AirDefined(sc, 251, m, p.x, p.y, q.x, q.y)
    ensures var r := AirMult(sc, m, p.x, p.y, q.x, q.y, false);
            r.Ok? && sc.Plus(q, Times(sc, m, p)) == Affine(r.value.0, r.value.1)
  {
    AirLoopCorrect(sc, 251, m, p, q);
    DivModUnique(m, Pow2(251), 0, m);
  }

  // ---------- equal x ----------

  lemma {:induction false} AirIdle(sc: StarkCurve, steps: nat, x1: int, y1: int, psx: int, psy: int)
    ensures AirLoop(sc, steps, 0, x1, y1, psx, psy) == (0, psx, psy)
  {
    if steps > 0 {
      var (dx, dy) := sc.Double(x1, y1);
      AirIdle(sc, steps - 1, dx, dy, psx, psy);
    }
  }

  /** Add with equal x computes with the slope 0. */
  lemma AddAtEqualX(sc: StarkCurve, x: int, y: int, z: int)
    ensures sc.Add(x, y, x, z) == (-2 * x % sc.P, -y % sc.P)
  {
    hide DivMod;
    ZeroMultiple(0, sc.P);
    MultipleCofactor(x - x, sc.P);
    DivModMultiple(y - z, x - x, sc.P);
  }

  /** So where 1*P + P goes unnoticed it comes out as (-2x, -y), whatever the numbers. */
  lemma EqualXsResult(sc: StarkCurve, x: int, y: int)
    requires sc.Max > 1
    ensures AirMult(sc, 1, x, y, x, y, false) == Ok((-2 * x % sc.P, -y % sc.P))
  {
    hide StarkCurve.Double, StarkCurve.Add;
    AddAtEqualX(sc, x, y, y);
    var (dx, dy) := sc.Double(x, y);
    var (sx, sy) := sc.Add(x, y, x, y);
    AirIdle(sc, 250, dx, dy, sx, sy);
  }

  /** Over any field that is right exactly where the tangent is horizontal. */
  lemma EqualXsRightIff(sc: StarkCurve, p: Point)
    requires sc.Field() && sc.Max > 1 && p.Affine? && sc.OnCurve(p)
    ensures var r := AirMult(sc, 1, p.x, p.y, p.x, p.y, false);
            r.Ok? && (sc.Plus(p, p) == Affine(r.value.0, r.value.1)
                      <==> !Zero(p.y, sc.P) && Zero(3 * p.x * p.x + 1, sc.P))
  {
    hide *;
    EqualXsResult(sc, p.x, p.y);
    DoubledPoint(sc, p);
    if !Zero(p.y, sc.P) {
      TangentHorizontal(sc, p.x, p.y);
    }
  }

  /** 3*(3x^2 + 1) = (3x)^2 + 3, so modulo a prime 3k + 2 no tangent is horizontal. */
  lemma NoHorizontalTangent(p: pos, x: int)
    requires IsPrime(p) && p > 3 && p % 3 == 2
    ensures !Zero(3 * x * x + 1, p)
  {
    hide IsPrime, Zero;
    if Zero(3 * x * x + 1, p) {
      ZeroScale(3, 3 * x * x + 1, p);
      assert 3 * (3 * x * x + 1) == (3 * x) * (3 * x) + 3;
      MinusThree(p, 3 * x);
    }
  }

  /** Over such a field Add is the group operation exactly where the x differ: with equal x it
      is wrong for every pair of points, equal or opposite. */
  lemma AddRightIff(sc: StarkCurve, p: Point, q: Point)
    requires sc.Field() && sc.P % 3 == 2 && p.Affine? && q.Affine? && sc.OnCurve(p) && sc.OnCurve(q)
    ensures var r := sc.Add(p.x, p.y, q.x, q.y); sc.Plus(p, q) == Affine(r.0, r.1) <==> p.x != q.x
  {
    hide StarkCurve.Add, StarkCurve.Double, StarkCurve.IsOnCurve, IsPrime, Zero;
    if p.x == q.x {
      AddAtEqualX(sc, p.x, p.y, q.y);
      SameX(sc, p, q);
      if p == q {
        DoubledPoint(sc, p);
        NoHorizontalTangent(sc.P, p.x);
        if !Zero(p.y, sc.P) {
          TangentHorizontal(sc, p.x, p.y);
        }
      } else {
        PlusInverse(sc, p);
      }
    }
  }

  /** In particular 1*P + P is never twice P there. */
  lemma NeverDoubled(sc: StarkCurve, p: Point)
    requires sc.Field() && sc.P % 3 == 2 && sc.Max > 1 && p.Affine? && sc.OnCurve(p)
    ensures var r := AirMult(sc, 1, p.x, p.y, p.x, p.y, false);
            r.Ok? && sc.Plus(p, p) != Affine(r.value.0, r.value.1)
  {
    hide AirMult, StarkCurve.IsOnCurve, IsPrime, StarkCurve.Plus, StarkCurve.Add;
    AddRightIff(sc, p, p);
    AddAtEqualX(sc, p.x, p.y, p.y);
    EqualXsResult(sc, p.x, p.y);
  }

  lemma DoubledPoint(sc: StarkCurve, p: Point)
    requires sc.Field() && p.Affine? && sc.OnCurve(p)
    ensures sc.Plus(p, p) == if Zero(p.y, sc.P) then Infinity else var r := sc.Double(p.x, p.y); Affine(r.0, r.1)
  {
    hide StarkCurve.Double, StarkCurve.Add, StarkCurve.IsOnCurve, IsPrime;
    if Zero(p.y, sc.P) {
      ZeroSum(p.y, p.y, sc.P);
    } else {
      DoubleCoprime(sc, p.y);
      assert p.y * 2 == p.y + p.y;
    }
  }

  lemma TangentHorizontal(sc: StarkCurve, x: int, y: int)
    requires sc.Field() && !Zero(y, sc.P)
    ensures sc.Double(x, y) == (-2 * x % sc.P, -y % sc.P) <==> Zero(3 * x * x + 1, sc.P)
  {
    hide DivMod, IsPrime, Coprime;
    var n := 3 * x * x + 1;
    var m := DivMod(n, y * 2, sc.P);
    DoubleCoprime(sc, y);
    DivModRange(n, y * 2, sc.P);
    QuotientSolves(n, y * 2, sc.P);
    ModEqual(m * m - 2 * x, -2 * x, sc.P);
    if sc.Double(x, y) == (-2 * x % sc.P, -y % sc.P) {
      PrimeDividesProduct(m, m, sc.P);
      ZeroScale(y * 2, m, sc.P);
      ZeroSum(y * 2 * m, y * 2 * m - n, sc.P);
    } else if Zero(n, sc.P) {
      ZeroSum(y * 2 * m - n, n, sc.P);
      CancelFactor(y * 2, m, sc.P);
      SmallZero(m, sc.P);
    }
  }

  /** The clash of round i, as a statement about multiples of p. */
  predicate Clash(sc: StarkCurve, i: nat, m: nat, p: Point, a: Point) {
    BitAt(m, i) == 1 &&
    var s, d := sc.Plus(a, Times(sc, m % Pow2(i), p)), Times(sc, Pow2(i), p);
    s == d || s == sc.Neg(d)
  }

  /** The Adds are all defined exactly when no round with its bit set finds the partial sum
      a + (m mod 2^i)*p equal or opposite to 2^i*p. */
  lemma {:induction false} AirDefinedIff(sc: StarkCurve, steps: nat, m: nat, p: Point, a: Point)
    requires Group(sc) && OrderN(sc, p) && a.Affine? && sc.OnCurve(a)
    ensures AirDefined(sc, steps, m, p.x, p.y, a.x, a.y)
       <==> forall i: nat :: i < steps ==> !Clash(sc, i, m, p, a)
    decreases steps
  {
    hide StarkCurve.Add, StarkCurve.Double, StarkCurve.Plus, StarkCurve.IsOnCurve, IsPrime, Times, Clash;
    if steps > 0 {
      var b := m % 2;
      ClashFirst(sc, m, p, a);
      if b == 1 && Zero(a.x - p.x, sc.P) {
        assert Clash(sc, 0, m, p, a);
        assert !AirDefined(sc, steps, m, p.x, p.y, a.x, a.y);
      } else {
        var (sx, sy) := if b == 1 then sc.Add(a.x, a.y, p.x, p.y) else (a.x, a.y);
        var (dx, dy) := sc.Double(p.x, p.y);
        DoubleOrderN(sc, p);
        AirStep(sc, b, p, a);
        var p', a' := Affine(dx, dy), Affine(sx, sy);
        AirDefinedIff(sc, steps - 1, m / 2, p', a');
        assert p' == sc.Plus(p, p) && a' == sc.Plus(a, Times(sc, m % 2, p));
        ClashShift(sc, steps, m, p, a);
      }
    }
  }

  /** Past a clean round 0, the clashes are those of the remaining rounds. */
  lemma ClashShift(sc: StarkCurve, steps: nat, m: nat, p: Point, a: Point)
    requires Group(sc) && OrderN(sc, p) && a.Affine? && sc.OnCurve(a) && steps > 0
    requires !Clash(sc, 0, m, p, a)
    ensures (forall i: nat :: i < steps ==> !Clash(sc, i, m, p, a))
       <==> (forall i: nat :: i < steps - 1 ==>
               !Clash(sc, i, m / 2, sc.Plus(p, p), sc.Plus(a, Times(sc, m % 2, p))))
  {
    hide StarkCurve.Plus, StarkCurve.IsOnCurve, IsPrime, Times, Clash;
    forall i: nat | i < steps - 1
      ensures Clash(sc, i, m / 2, sc.Plus(p, p), sc.Plus(a, Times(sc, m % 2, p))) == Clash(sc, i + 1, m, p, a)
    {
      ClashNext(sc, i, m, p, a);
    }
    if j: nat :| j < steps && Clash(sc, j, m, p, a) {
      ClashNext(sc, j - 1, m, p, a);
    }
  }

  lemma ClashFirst(sc: StarkCurve, m: nat, p: Point, a: Point)
    requires Group(sc) && OrderN(sc, p) && a.Affine? && sc.OnCurve(a)
    ensures Clash(sc, 0, m, p, a) <==> m % 2 == 1 && Zero(a.x - p.x, sc.P)
  {
    Pow2Zero();
    TimesTwice(sc, p);
    PlusInfinity(sc, a);
    ZeroMultiple(0, sc.P);
    if Zero(a.x - p.x, sc.P) {
      SmallZero(a.x - p.x, sc.P);
      SameX(sc, p, a);
    }
  }

  lemma ClashNext(sc: StarkCurve, i: nat, m: nat, p: Point, a: Point)
    requires Group(sc) && OrderN(sc, p) && a.Affine? && sc.OnCurve(a)
    ensures Clash(sc, i, m / 2, sc.Plus(p, p), sc.Plus(a, Times(sc, m % 2, p))) == Clash(sc, i + 1, m, p, a)
  {
    hide StarkCurve.Add, StarkCurve.Double, StarkCurve.Plus, StarkCurve.IsOnCurve, IsPrime, Times;
    SplitBits(m, i + 1);
    RoundSum(sc, a, m % 2, m / 2 % Pow2(i), p);
    TimesTwice(sc, p);
    TimesProduct(sc, Pow2(i), 2, p);
    assert Pow2(i) * 2 == Pow2(i + 1);
  }

  // ---------- a clash at the top bit ----------

  /** Where no round before the top bit t of m clashes, the loop ends with its one remaining Add,
      of a + (m mod 2^t)*p and 2^t*p: the result is a + m*p exactly if these do not clash, and
      else the sum of round t, mirrored, with x times -2. */
  lemma {:induction false} AirTop(sc: StarkCurve, steps: nat, t: nat, m: nat, p: Point, a: Point)
    requires Group(sc) && OrderN(sc, p) && a.Affine? && sc.OnCurve(a) && sc.P % 3 == 2
    requires t < steps && Pow2(t) <= m < Pow2(t + 1)
    requires forall i: nat :: i < t ==> !Clash(sc, i, m, p, a)
    ensures var r := AirLoop(sc, steps, m, p.x, p.y, a.x, a.y);
            var s := sc.Plus(a, Times(sc, m % Pow2(t), p));
            r.0 == 0 && (sc.Plus(a, Times(sc, m, p)) == Affine(r.1, r.2) <==> !Clash(sc, t, m, p, a))
            && (Clash(sc, t, m, p, a) ==> s.Affine? && r.1 == -2 * s.x % sc.P && r.2 == -s.y % sc.P)
    decreases t
  {
    hide StarkCurve.Add, StarkCurve.Double, StarkCurve.Plus, StarkCurve.IsOnCurve, StarkCurve.Associative, IsPrime, Times, Clash, Pow2;
    if t == 0 {
      AirLast(sc, steps, m, p, a);
    } else {
      var b := m % 2;
      var (sx, sy) := if b == 1 then sc.Add(a.x, a.y, p.x, p.y) else (a.x, a.y);
      var (dx, dy) := sc.Double(p.x, p.y);
      var a', p' := Affine(sx, sy), Affine(dx, dy);
      ClashFirst(sc, m, p, a);
      DoubleOrderN(sc, p);
      AirStep(sc, b, p, a);
      HalfBounds(m, t);
      forall i: nat | i < t
        ensures Clash(sc, i, m / 2, p', a') == Clash(sc, i + 1, m, p, a)
      {
        ClashNext(sc, i, m, p, a);
      }
      AirTop(sc, steps - 1, t - 1, m / 2, p', a');
      SplitBits(m, t);
      RoundSum(sc, a, b, m / 2 % Pow2(t - 1), p);
      RoundSum(sc, a, b, m / 2, p);
    }
  }

  lemma HalfBounds(m: nat, t: nat)
    requires t > 0 && Pow2(t) <= m < Pow2(t + 1)
    ensures Pow2(t - 1) <= m / 2 < Pow2(t)
  {}

  lemma AirLast(sc: StarkCurve, steps: nat, m: nat, p: Point, a: Point)
    requires Group(sc) && OrderN(sc, p) && a.Affine? && sc.OnCurve(a) && sc.P % 3 == 2
    requires 0 < steps && Pow2(0) <= m < Pow2(1)
    ensures var r := AirLoop(sc, steps, m, p.x, p.y, a.x, a.y);
            var s := sc.Plus(a, Times(sc, m % Pow2(0), p));
            r.0 == 0 && (sc.Plus(a, Times(sc, m, p)) == Affine(r.1, r.2) <==> !Clash(sc, 0, m, p, a))
            && (Clash(sc, 0, m, p, a) ==> s.Affine? && r.1 == -2 * s.x % sc.P && r.2 == -s.y % sc.P)
  {
    assert m == 1 && m % Pow2(0) == 0;
    hide StarkCurve.Add, StarkCurve.Double, StarkCurve.Plus, StarkCurve.IsOnCurve, StarkCurve.Associative, IsPrime, Times, Clash, Pow2;
    var (sx, sy) := sc.Add(a.x, a.y, p.x, p.y);
    var (dx, dy) := sc.Double(p.x, p.y);
    AirIdle(sc, steps - 1, dx, dy, sx, sy);
    TimesTwice(sc, p);
    TimesZero(sc, p);
    PlusInfinity(sc, a);
    ClashFirst(sc, m, p, a);
    AddRightIff(sc, a, p);
    SameResidue(sc, a.x, p.x);
    if a.x == p.x {
      AddAtEqualX(sc, a.x, a.y, p.y);
    }
  }

  lemma SameResidue(sc: StarkCurve, x: int, z: int)
    requires 0 <= x < sc.P && 0 <= z < sc.P
    ensures Zero(x - z, sc.P) <==> x == z
  {
    ZeroMultiple(0, sc.P);
    if Zero(x - z, sc.P) {
      SmallZero(x - z, sc.P);
    }
  }

  /** MimicEcMultAir(m, p, q) for a first clash, if any, at the top bit of m: right exactly
      without it, for every m, p and q. After a clash at a lower bit further Adds follow on a
      number pair off the track; of that case only `AirMultCorrect` speaks. */
  lemma AirMultRightIff(sc: StarkCurve, t: nat, m: int, p: Point, q: Point)
    requires Group(sc) && OrderN(sc, p) && q.Affine? && sc.OnCurve(q) && sc.P % 3 == 2
    requires 0 < m < sc.Max && sc.Max == Pow2(251) && Pow2(t) <= m < Pow2(t + 1)
    requires forall i: nat :: i < t ==> !Clash(sc, i, m, p, q)
    ensures var r := AirMult(sc, m, p.x, p.y, q.x, q.y, false);
            r.Ok? && (sc.Plus(q, Times(sc, m, p)) == Affine(r.value.0, r.value.1) <==> !Clash(sc, t, m, p, q))
  {
    hide StarkCurve.Plus, StarkCurve.IsOnCurve, StarkCurve.Associative, IsPrime, Times, Clash, Pow2, AirLoop;
    if t >= 251 {
      Pow2Monotone(251, t);
    }
    AirTop(sc, 251, t, m, p, q);
  }
}
