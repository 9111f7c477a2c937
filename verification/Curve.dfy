/** Affine point arithmetic on the STARK curve (curve/curve.go), with the chord-tangent
    operation it computes as the reference. */
module Curve {
  import opened NumberTheory
  import opened Division

  type pos = x: int | x >= 1 witness 1

  datatype Point = Infinity | Affine(x: int, y: int)

  datatype StarkCurve = StarkCurve(
    P: pos, N: pos, B: int, Gx: int, Gy: int,
    EcGenX: int, EcGenY: int, MinusShiftPointX: int, MinusShiftPointY: int,
    Max: int, Alpha: int, BitSize: nat, ConstantPoints: seq<(int, int)>)
  {
    /** The chord through two points. Nothing is checked: with equal x the slope is garbage. */
    function Add(x1: int, y1: int, x2: int, y2: int): (int, int) {
      var m := DivMod(y1 - y2, x1 - x2, P);
      var x := (m * m - x1 - x2) % P;
      (x, (m * (x1 - x) - y1) % P)
    }

    /** The tangent at a point. */
    function Double(x1: int, y1: int): (int, int) {
      var m := DivMod(3 * x1 * x1 + Alpha, y1 * 2, P);
      var x := (m * m - 2 * x1) % P;
      (x, (m * (x1 - x) - y1) % P)
    }

    /** The membership test; the coefficient of x is fixed to 1 here. */
    predicate IsOnCurve(x: int, y: int) {
      y * y % P == (x * x * x % P + 1 * x + B) % P
    }

    function InvModCurveSize(x: int): int {
      DivMod(1, x, N)
    }

    /** How far (x, y) is from satisfying the curve equation. */
    function Residual(x: int, y: int): int {
      y * y - (x * x * x + x + B)
    }

    function Gen(): Point { Affine(EcGenX, EcGenY) }

    function Shift(): Point { Affine(Gx, Gy) }

    function MinusShift(): Point { Affine(MinusShiftPointX, MinusShiftPointY) }

    /** What the field must be for the formulas to mean anything. */
    ghost predicate Field() {
      IsPrime(P) && P > 3 && Alpha == 1
    }

    predicate Reduced(x: int, y: int) {
      0 <= x < P && 0 <= y < P
    }

    predicate OnCurve(p: Point) {
      p.Affine? ==> Reduced(p.x, p.y) && IsOnCurve(p.x, p.y)
    }

    function Neg(p: Point): Point {
      if p.Infinity? then p else Affine(p.x, -p.y % P)
    }

    /** The chord-tangent operation, total on the curve's points. */
    function Plus(p: Point, q: Point): Point {
      if p.Infinity? then q
      else if q.Infinity? then p
      else if p.x != q.x then
        var (x, y) := Add(p.x, p.y, q.x, q.y);
        Affine(x, y)
      else if (p.y + q.y) % P == 0 then Infinity
      else
        var (x, y) := Double(p.x, p.y);
        Affine(x, y)
    }

    predicate Associates(a: Point, b: Point, c: Point) {
      Plus(Plus(a, b), c) == Plus(a, Plus(b, c))
    }

    /** The one fact about elliptic curves that is taken as a hypothesis. */
    ghost predicate Associative() {
      forall a, b, c {:trigger Associates(a, b, c)} :: OnCurve(a) && OnCurve(b) && OnCurve(c) ==> Associates(a, b, c)
    }
  }

  // ---------- polynomial identities behind the formulas ----------

  lemma CubeOfSum(x: int, t: int)
    ensures (x + t) * (x + t) * (x + t) == x * x * x + 3 * x * x * t + 3 * x * (t * t) + t * (t * t)
  {}

  lemma SquareOfLine(m: int, t: int, y: int, q: int)
    requires m * m == q
    ensures (m * t + y) * (m * t + y) == q * (t * t) + 2 * m * t * y + y * y
  {
    assert (m * t) * (m * t) == (m * m) * (t * t);
  }

  /** The residual along the line of slope m through (x1, y1), t further on; c is how much
      m*m exceeds 3*x1 + t. */
  lemma LineResidual(sc: StarkCurve, x1: int, y1: int, m: int, t: int, c: int)
    requires m * m == 3 * x1 + t + c
    ensures sc.Residual(x1 + t, m * t + y1)
         == sc.Residual(x1, y1) + t * (m * (2 * y1) - (3 * x1 * x1 + 1)) + t * t * c
  {
    SquareOfLine(m, t, y1, 3 * x1 + t + c);
    CubeOfSum(x1, t);
  }

  lemma ResidualMirror(sc: StarkCurve, x: int, y: int)
    ensures sc.Residual(x, -y) == sc.Residual(x, y)
  {}

  /** Two points of the line leave the residual of the third. */
  lemma ThirdPoint(u: int, t: int, k: int, e1: int, e2: int, e3: int)
    requires e2 == e1 + u * k + u * u * t && e3 == e1 + t * k + t * t * u
    ensures u * e3 == t * e2 + (u - t) * e1
  {
    assert u * e3 == u * e1 + u * (t * k) + u * (t * t * u);
    assert t * e2 == t * e1 + t * (u * k) + t * (u * u * t);
  }

  // ---------- the curve equation modulo P ----------

  lemma OnCurveResidual(sc: StarkCurve, x: int, y: int)
    ensures sc.IsOnCurve(x, y) <==> Zero(sc.Residual(x, y), sc.P)
  {
    var c := x * x * x;
    var right := c % sc.P + 1 * x + sc.B;
    ModEqual(y * y, right, sc.P);
    ZeroResidue(c, sc.P);
    assert sc.Residual(x, y) == (y * y - right) + (c % sc.P - c);
    if sc.IsOnCurve(x, y) {
      ZeroSum(y * y - right, c % sc.P - c, sc.P);
    } else if Zero(sc.Residual(x, y), sc.P) {
      ZeroSum(sc.Residual(x, y), c % sc.P - c, sc.P);
    }
  }

  /** Membership depends on the residues of the coordinates only. */
  lemma ResidualCongruent(sc: StarkCurve, x: int, y: int, x': int, y': int)
    requires Zero(x - x', sc.P) && Zero(y - y', sc.P)
    ensures Zero(sc.Residual(x, y), sc.P) <==> Zero(sc.Residual(x', y'), sc.P)
  {
    var e, e' := sc.Residual(x, y), sc.Residual(x', y');
    ResidualDifference(sc, x, y, x', y');
    ZeroCombine(y + y', y - y', -(x * x + x * x' + x' * x' + 1), x - x', sc.P);
    ModEqual(e, e', sc.P);
  }

  lemma ResidualDifference(sc: StarkCurve, x: int, y: int, x': int, y': int)
    ensures sc.Residual(x, y) - sc.Residual(x', y')
         == (y + y') * (y - y') + -(x * x + x * x' + x' * x' + 1) * (x - x')
  {
    assert (y + y') * (y - y') == y * y - y' * y';
    assert (x * x + x * x' + x' * x' + 1) * (x - x') == x * x * x - x' * x' * x' + (x - x');
  }

  /** Both formulas end alike: reduce x3, then y3 from the reduced x3. */
  lemma ReducedOnCurve(sc: StarkCurve, m: int, x1: int, y1: int, x3: int)
    requires Zero(sc.Residual(x3, m * (x1 - x3) - y1), sc.P)
    ensures var x := x3 % sc.P; var y := (m * (x1 - x) - y1) % sc.P;
            sc.Reduced(x, y) && sc.IsOnCurve(x, y)
  {
    var x := x3 % sc.P;
    var w := m * (x1 - x) - y1;
    var y3 := m * (x1 - x3) - y1;
    ZeroResidue(x3, sc.P);
    ZeroResidue(w, sc.P);
    ZeroScale(m, x3 - x, sc.P);
    assert m * (x3 - x) == w - y3;
    ZeroSum(w % sc.P - w, w - y3, sc.P);
    ResidualCongruent(sc, x, w % sc.P, x3, y3);
    OnCurveResidual(sc, x, w % sc.P);
  }

  /** Closure of Add: distinct x give a reduced point of the curve. */
  lemma AddOnCurve(sc: StarkCurve, x1: int, y1: int, x2: int, y2: int)
    requires sc.Field() && sc.IsOnCurve(x1, y1) && sc.IsOnCurve(x2, y2) && !Zero(x1 - x2, sc.P)
    ensures var r := sc.Add(x1, y1, x2, y2); sc.Reduced(r.0, r.1) && sc.IsOnCurve(r.0, r.1)
  {
    var m := DivMod(y1 - y2, x1 - x2, sc.P);
    ChordOnCurve(sc, x1, y1, x2, y2, m);
    ReducedOnCurve(sc, m, x1, y1, m * m - x1 - x2);
  }

  lemma ChordOnCurve(sc: StarkCurve, x1: int, y1: int, x2: int, y2: int, m: int)
    requires sc.Field() && sc.IsOnCurve(x1, y1) && sc.IsOnCurve(x2, y2) && !Zero(x1 - x2, sc.P)
    requires m == DivMod(y1 - y2, x1 - x2, sc.P)
    ensures var x3 := m * m - x1 - x2; Zero(sc.Residual(x3, m * (x1 - x3) - y1), sc.P)
  {
    hide StarkCurve.IsOnCurve, StarkCurve.Residual, DivMod, Coprime, IsPrime;
    var p, u, x3 := sc.P, x2 - x1, m * m - x1 - x2;
    var t := x3 - x1;
    PrimeCoprime(x1 - x2, p);
    QuotientSolves(y1 - y2, x1 - x2, p);
    OnCurveResidual(sc, x1, y1);
    OnCurveResidual(sc, x2, y2);
    ZeroMultiple(0, p);
    ZeroScale(-1, (x1 - x2) * m - (y1 - y2), p);
    assert (m * u + y1) - y2 == -1 * ((x1 - x2) * m - (y1 - y2));
    ResidualCongruent(sc, x2, m * u + y1, x2, y2);
    LineResidual(sc, x1, y1, m, u, t);
    LineResidual(sc, x1, y1, m, t, u);
    var e1, e2, e3 := sc.Residual(x1, y1), sc.Residual(x2, m * u + y1), sc.Residual(x3, m * t + y1);
    ThirdPoint(u, t, m * (2 * y1) - (3 * x1 * x1 + 1), e1, e2, e3);
    ZeroCombine(t, e2, u - t, e1, p);
    ZeroScale(-1, u * e3, p);
    assert -1 * (u * e3) == (x1 - x2) * e3;
    CancelFactor(x1 - x2, e3, p);
    ResidualMirror(sc, x3, m * t + y1);
    assert m * (x1 - x3) - y1 == -(m * t + y1);
  }

  /** Closure of Double: y nonzero modulo P gives a reduced point of the curve. */
  lemma DoubleOnCurve(sc: StarkCurve, x1: int, y1: int)
    requires sc.Field() && sc.IsOnCurve(x1, y1) && !Zero(y1, sc.P)
    ensures var r := sc.Double(x1, y1); sc.Reduced(r.0, r.1) && sc.IsOnCurve(r.0, r.1)
  {
    var m := DivMod(3 * x1 * x1 + 1, y1 * 2, sc.P);
    TangentOnCurve(sc, x1, y1, m);
    ReducedOnCurve(sc, m, x1, y1, m * m - 2 * x1);
  }

  lemma TangentOnCurve(sc: StarkCurve, x1: int, y1: int, m: int)
    requires sc.Field() && sc.IsOnCurve(x1, y1) && !Zero(y1, sc.P)
    requires m == DivMod(3 * x1 * x1 + 1, y1 * 2, sc.P)
    ensures var x3 := m * m - 2 * x1; Zero(sc.Residual(x3, m * (x1 - x3) - y1), sc.P)
  {
    hide StarkCurve.IsOnCurve, StarkCurve.Residual, DivMod, Coprime, IsPrime;
    var n, t := 3 * x1 * x1 + 1, m * m - 3 * x1;
    DoubleCoprime(sc, y1);
    QuotientSolves(n, y1 * 2, sc.P);
    assert (y1 * 2) * m - n == m * (2 * y1) - n;
    LineResidual(sc, x1, y1, m, t, 0);
    OnCurveResidual(sc, x1, y1);
    ZeroCombine(1, sc.Residual(x1, y1), t, m * (2 * y1) - n, sc.P);
    ResidualMirror(sc, x1 + t, m * t + y1);
    assert m * (x1 - (x1 + t)) - y1 == -(m * t + y1);
  }

  /** The line of slope m through (x1, y1) meets the curve, with multiplicity, where
      X is x1, x2 or x3: its residual at X is -(X - x1)(X - x2)(X - x3). */
  predicate LineMeets(sc: StarkCurve, m: int, x1: int, y1: int, x2: int, x3: int, X: int) {
    Zero(sc.Residual(X, m * (X - x1) + y1) + (X - x1) * (X - x2) * (X - x3), sc.P)
  }

  /** Add is the chord construction: its slope joins the two points, the line meets the curve
      at x1, x2 and the result's x, and the result is the mirror image of the third point. */
  lemma AddIsChord(sc: StarkCurve, x1: int, y1: int, x2: int, y2: int, X: int)
    requires sc.Field() && sc.IsOnCurve(x1, y1) && sc.IsOnCurve(x2, y2) && !Zero(x1 - x2, sc.P)
    ensures var m := DivMod(y1 - y2, x1 - x2, sc.P);
            var (x3, y3) := sc.Add(x1, y1, x2, y2);
            Zero(m * (x1 - x2) - (y1 - y2), sc.P) && LineMeets(sc, m, x1, y1, x2, x3, X)
            && Zero((m * (x3 - x1) + y1) + y3, sc.P)
  {
    hide StarkCurve.IsOnCurve, StarkCurve.Residual, DivMod, Coprime, IsPrime;
    var p, m := sc.P, DivMod(y1 - y2, x1 - x2, sc.P);
    var u, w := x2 - x1, m * m - x1 - x2 - x1;
    var k := m * (2 * y1) - (3 * x1 * x1 + 1);
    PrimeCoprime(x1 - x2, p);
    QuotientSolves(y1 - y2, x1 - x2, p);
    assert (x1 - x2) * m == m * (x1 - x2);
    OnCurveResidual(sc, x1, y1);
    OnCurveResidual(sc, x2, y2);
    ZeroMultiple(0, p);
    ZeroScale(-1, (x1 - x2) * m - (y1 - y2), p);
    assert (m * u + y1) - y2 == -1 * ((x1 - x2) * m - (y1 - y2));
    ResidualCongruent(sc, x2, m * u + y1, x2, y2);
    LineResidual(sc, x1, y1, m, u, w);
    var e1, e2 := sc.Residual(x1, y1), sc.Residual(x2, m * u + y1);
    ZeroSum(e2, e1, p);
    ZeroScale(-1, e2 - e1, p);
    assert -1 * (e2 - e1) == (x1 - x2) * (k + u * w) by {
      assert u * (k + u * w) == u * k + u * u * w;
    }
    CancelFactor(x1 - x2, k + u * w, p);
    LineFactors(sc, x1, y1, m, u, w, X);
    FinishLine(sc, m, x1, y1, x2, x1 + w, X);
  }

  /** Double is the tangent construction, x1 counting twice. */
  lemma DoubleIsTangent(sc: StarkCurve, x1: int, y1: int, X: int)
    requires sc.Field() && sc.IsOnCurve(x1, y1) && !Zero(y1, sc.P)
    ensures var m := DivMod(3 * x1 * x1 + sc.Alpha, y1 * 2, sc.P);
            var (x3, y3) := sc.Double(x1, y1);
            Zero(m * (2 * y1) - (3 * x1 * x1 + 1), sc.P) && LineMeets(sc, m, x1, y1, x1, x3, X)
            && Zero((m * (x3 - x1) + y1) + y3, sc.P)
  {
    hide StarkCurve.IsOnCurve, StarkCurve.Residual, DivMod, Coprime, IsPrime;
    var n := 3 * x1 * x1 + 1;
    var m := DivMod(n, y1 * 2, sc.P);
    DoubleCoprime(sc, y1);
    QuotientSolves(n, y1 * 2, sc.P);
    assert (y1 * 2) * m - n == m * (2 * y1) - n;
    OnCurveResidual(sc, x1, y1);
    LineFactors(sc, x1, y1, m, 0, m * m - 3 * x1, X);
    assert m * m - 2 * x1 == x1 + (m * m - 3 * x1);
    FinishLine(sc, m, x1, y1, x1, x1 + (m * m - 3 * x1), X);
  }

  /** With K + u*w a multiple of P the residual along the line has its roots at 0, u and w. */
  lemma LineFactors(sc: StarkCurve, x1: int, y1: int, m: int, u: int, w: int, X: int)
    requires m * m == 3 * x1 + u + w && Zero(sc.Residual(x1, y1), sc.P)
    requires Zero(m * (2 * y1) - (3 * x1 * x1 + 1) + u * w, sc.P)
    ensures LineMeets(sc, m, x1, y1, x1 + u, x1 + w, X)
  {
    hide StarkCurve.Residual;
    var t, k := X - x1, m * (2 * y1) - (3 * x1 * x1 + 1);
    LineResidual(sc, x1, y1, m, t, u + w - t);
    Roots(t, u, w);
    ZeroCombine(1, sc.Residual(x1, y1), t, k + u * w, sc.P);
    assert t * (k + u * w) == t * k + t * (u * w);
  }

  lemma Roots(t: int, u: int, w: int)
    ensures t * t * (u + w - t) + t * (t - u) * (t - w) == t * (u * w)
  {}

  /** Reducing x3 and y3 changes neither the roots nor the mirror image modulo P. */
  lemma FinishLine(sc: StarkCurve, m: int, x1: int, y1: int, x2: int, x3: int, X: int)
    requires LineMeets(sc, m, x1, y1, x2, x3, X)
    ensures var x := x3 % sc.P; var y := (m * (x1 - x) - y1) % sc.P;
            LineMeets(sc, m, x1, y1, x2, x, X) && Zero((m * (x - x1) + y1) + y, sc.P)
  {
    hide StarkCurve.Residual;
    var x := x3 % sc.P;
    var v := m * (x1 - x) - y1;
    ZeroResidue(x3, sc.P);
    ZeroResidue(v, sc.P);
    assert (m * (x - x1) + y1) + v % sc.P == v % sc.P - v;
    var a, e := (X - x1) * (X - x2), sc.Residual(X, m * (X - x1) + y1);
    ZeroCombine(1, e + a * (X - x3), a, x3 - x, sc.P);
    assert a * (X - x) == a * (X - x3) + a * (x3 - x);
  }

  lemma DoubleCoprime(sc: StarkCurve, y: int)
    requires sc.Field() && !Zero(y, sc.P)
    ensures !Zero(y * 2, sc.P) && Coprime(y * 2, sc.P)
  {
    if Zero(y * 2, sc.P) {
      PrimeDividesProduct(y, 2, sc.P);
      SmallZero(2, sc.P);
    }
    PrimeCoprime(y * 2, sc.P);
  }

  // ---------- Add and Double see only residues ----------

  lemma FinishCongruent(sc: StarkCurve, m: int, x1: int, y1: int, s: int, x1': int, y1': int, s': int)
    requires Zero(x1 - x1', sc.P) && Zero(y1 - y1', sc.P) && Zero(s - s', sc.P)
    ensures (m * m - s) % sc.P == (m * m - s') % sc.P
    ensures var x := (m * m - s) % sc.P;
            (m * (x1 - x) - y1) % sc.P == (m * (x1' - x) - y1') % sc.P
  {
    ZeroScale(-1, s - s', sc.P);
    assert (m * m - s) - (m * m - s') == -1 * (s - s');
    ModEqual(m * m - s, m * m - s', sc.P);
    var x := (m * m - s) % sc.P;
    var a, b := m * (x1 - x) - y1, m * (x1' - x) - y1';
    ZeroCombine(m, x1 - x1', -1, y1 - y1', sc.P);
    assert a - b == m * (x1 - x1') + -1 * (y1 - y1') by {
      assert m * (x1 - x) - m * (x1' - x) == m * (x1 - x1');
    }
    ModEqual(a, b, sc.P);
  }

  lemma AddCongruent(sc: StarkCurve, x1: int, y1: int, x2: int, y2: int, x1': int, y1': int, x2': int, y2': int)
    requires IsPrime(sc.P)
    requires Zero(x1 - x1', sc.P) && Zero(y1 - y1', sc.P) && Zero(x2 - x2', sc.P) && Zero(y2 - y2', sc.P)
    ensures sc.Add(x1, y1, x2, y2) == sc.Add(x1', y1', x2', y2')
  {
    ZeroSum(x1 - x1', x2 - x2', sc.P);
    ZeroSum(y1 - y1', y2 - y2', sc.P);
    assert (x1 - x1') - (x2 - x2') == (x1 - x2) - (x1' - x2');
    assert (y1 - y1') - (y2 - y2') == (y1 - y2) - (y1' - y2');
    DivModCongruent(y1 - y2, x1 - x2, y1' - y2', x1' - x2', sc.P);
    assert (x1 + x2) - (x1' + x2') == (x1 - x1') + (x2 - x2');
    FinishCongruent(sc, DivMod(y1 - y2, x1 - x2, sc.P), x1, y1, x1 + x2, x1', y1', x1' + x2');
  }

  lemma DoubleCongruent(sc: StarkCurve, x: int, y: int, x': int, y': int)
    requires IsPrime(sc.P) && Zero(x - x', sc.P) && Zero(y - y', sc.P)
    ensures sc.Double(x, y) == sc.Double(x', y')
  {
    var n, n' := 3 * x * x + sc.Alpha, 3 * x' * x' + sc.Alpha;
    ZeroScale(3 * (x + x'), x - x', sc.P);
    assert 3 * (x + x') * (x - x') == n - n';
    ZeroScale(2, y - y', sc.P);
    assert 2 * (y - y') == y * 2 - y' * 2;
    DivModCongruent(n, y * 2, n', y' * 2, sc.P);
    ZeroScale(2, x - x', sc.P);
    assert 2 * (x - x') == 2 * x - 2 * x';
    FinishCongruent(sc, DivMod(n, y * 2, sc.P), x, y, 2 * x, x', y', 2 * x');
  }

  // ---------- the chord-tangent operation ----------

  /** Points with one x are equal or opposite. */
  lemma SameX(sc: StarkCurve, p: Point, q: Point)
    requires sc.Field() && sc.OnCurve(p) && sc.OnCurve(q)
    requires p.Affine? && q.Affine? && p.x == q.x
    ensures p == q || q == sc.Neg(p)
    ensures (p.y + q.y) % sc.P == 0 <==> q == sc.Neg(p)
    ensures (p.y + q.y) % sc.P != 0 ==> p == q && !Zero(p.y, sc.P)
  {
    OnCurveResidual(sc, p.x, p.y);
    OnCurveResidual(sc, q.x, q.y);
    ZeroSum(sc.Residual(p.x, p.y), sc.Residual(q.x, q.y), sc.P);
    SameXFactors(sc, p.x, p.y, q.y);
    NegUnique(sc, p.y, q.y);
    if p.y == q.y && Zero(p.y, sc.P) {
      ZeroSum(p.y, p.y, sc.P);
    }
  }

  lemma SameXFactors(sc: StarkCurve, x: int, y: int, z: int)
    requires sc.Field() && 0 <= y < sc.P && 0 <= z < sc.P
    requires Zero(sc.Residual(x, y) - sc.Residual(x, z), sc.P)
    ensures y == z || Zero(y + z, sc.P)
  {
    SquaresFactor(y, z);
    hide IsPrime;
    assert sc.Residual(x, y) - sc.Residual(x, z) == y * y - z * z;
    PrimeDividesProduct(y - z, y + z, sc.P);
    if Zero(y - z, sc.P) {
      SmallZero(y - z, sc.P);
    }
  }

  lemma SquaresFactor(y: int, z: int)
    ensures y * y - z * z == (y - z) * (y + z)
  {}

  lemma NegUnique(sc: StarkCurve, y: int, z: int)
    requires 0 <= z < sc.P
    ensures Zero(y + z, sc.P) <==> z == -y % sc.P
  {
    ModEqual(z, -y, sc.P);
    DivModUnique(z, sc.P, 0, z);
    assert z - -y == y + z;
  }

  lemma NegOnCurve(sc: StarkCurve, p: Point)
    requires sc.OnCurve(p)
    ensures sc.OnCurve(sc.Neg(p))
  {
    if p.Affine? {
      OnCurveResidual(sc, p.x, p.y);
      ResidualMirror(sc, p.x, p.y);
      ZeroResidue(-p.y, sc.P);
      ZeroMultiple(0, sc.P);
      ResidualCongruent(sc, p.x, -p.y % sc.P, p.x, -p.y);
      OnCurveResidual(sc, p.x, -p.y % sc.P);
    }
  }

  lemma PlusClosed(sc: StarkCurve, p: Point, q: Point)
    requires sc.Field() && sc.OnCurve(p) && sc.OnCurve(q)
    ensures sc.OnCurve(sc.Plus(p, q))
  {
    if p.Affine? && q.Affine? {
      if p.x != q.x {
        if Zero(p.x - q.x, sc.P) {
          SmallZero(p.x - q.x, sc.P);
        }
        AddOnCurve(sc, p.x, p.y, q.x, q.y);
      } else if (p.y + q.y) % sc.P != 0 {
        SameX(sc, p, q);
        DoubleOnCurve(sc, p.x, p.y);
      }
    }
  }

  lemma PlusCommutes(sc: StarkCurve, p: Point, q: Point)
    requires sc.Field() && sc.OnCurve(p) && sc.OnCurve(q)
    ensures sc.Plus(p, q) == sc.Plus(q, p)
  {
    if p.Affine? && q.Affine? {
      if p.x == q.x {
        SameX(sc, p, q);
        SameX(sc, q, p);
      } else {
        if Zero(p.x - q.x, sc.P) {
          SmallZero(p.x - q.x, sc.P);
        }
        AddCommutes(sc, p.x, p.y, q.x, q.y);
      }
    }
  }

  lemma AddCommutes(sc: StarkCurve, x1: int, y1: int, x2: int, y2: int)
    requires sc.Field() && !Zero(x1 - x2, sc.P)
    ensures sc.Add(x1, y1, x2, y2) == sc.Add(x2, y2, x1, y1)
  {
    var m := DivMod(y1 - y2, x1 - x2, sc.P);
    SlopeCommutes(sc.P, x1, y1, x2, y2);
    assert m * m - x1 - x2 == m * m - x2 - x1;
    var x := (m * m - x1 - x2) % sc.P;
    assert (m * (x1 - x) - y1) - (m * (x2 - x) - y2) == (x1 - x2) * m - (y1 - y2);
    ModEqual(m * (x1 - x) - y1, m * (x2 - x) - y2, sc.P);
  }

  lemma SlopeCommutes(p: pos, x1: int, y1: int, x2: int, y2: int)
    requires IsPrime(p) && !Zero(x1 - x2, p)
    ensures DivMod(y2 - y1, x2 - x1, p) == DivMod(y1 - y2, x1 - x2, p)
    ensures Zero((x1 - x2) * DivMod(y1 - y2, x1 - x2, p) - (y1 - y2), p)
  {
    hide DivMod, Coprime, IsPrime;
    var m := DivMod(y1 - y2, x1 - x2, p);
    var d := (x1 - x2) * m - (y1 - y2);
    DivModRange(y1 - y2, x1 - x2, p);
    PrimeCoprime(x1 - x2, p);
    QuotientSolves(y1 - y2, x1 - x2, p);
    if Zero(x2 - x1, p) {
      ZeroScale(-1, x2 - x1, p);
    }
    PrimeCoprime(x2 - x1, p);
    ZeroScale(-1, d, p);
    assert (x2 - x1) * m - (y2 - y1) == -d;
    QuotientUnique(y2 - y1, x2 - x1, p, m);
  }

  lemma PlusInverse(sc: StarkCurve, p: Point)
    requires sc.Field() && sc.OnCurve(p)
    ensures sc.Plus(p, sc.Neg(p)) == Infinity
    ensures forall q :: sc.OnCurve(q) && sc.Plus(p, q) == Infinity ==> q == sc.Neg(p)
  {
    if p.Affine? {
      NegUnique(sc, p.y, -p.y % sc.P);
      forall q | sc.OnCurve(q) && sc.Plus(p, q) == Infinity
        ensures q == sc.Neg(p)
      {
        NegUnique(sc, p.y, q.y);
      }
    }
  }
}
