/** Starkware's ECDSA (curve/curve.go): Sign, Verify, and how they meet. */
module Ecdsa {
  import opened Results
  import opened NumberTheory
  import opened Powers
  import opened Division
  import opened Curve
  import opened ScalarMult
  import opened Octets
  import opened Nonce

  // ---------- keys and signatures ----------

  function PrivateToPoint(sc: StarkCurve, privKey: int): Result<(int, int)> {
    if privKey <= 0 || privKey >= sc.N then Err("private key not in curve range")
    else Ok(EcMult(sc, privKey, sc.EcGenX, sc.EcGenY))
  }

  /** One round of Sign for the nonce k: the signature, unless a component is out of range. */
  function TrySign(sc: StarkCurve, msgHash: int, privKey: int, k: int): Option<(int, int)>
    requires k > 0
  {
    var r := EcMult(sc, k, sc.EcGenX, sc.EcGenY).0;
    if r <= 0 || r >= sc.Max then None
    else
      var agg := r * privKey + msgHash;
      if agg % sc.N == 0 then None
      else
        var w := DivMod(k, agg, sc.N);
        if w <= 0 || w >= sc.Max then None else Some((r, sc.InvModCurveSize(w)))
  }

  /** Attempts with seeds seed, seed+1, ...; the second component is the seed left behind. */
  function SignFrom(sc: StarkCurve, mac: Mac, msgHash: int, privKey: int, seed: int, tries: nat)
    : (Result<(int, int)>, int)
    requires msgHash > 0
    decreases tries
  {
    if tries == 0 then (Err("out of tries"), seed)
    else
      match Secret(sc, mac, msgHash, privKey, seed, tries)
      case None => (Err("out of tries"), seed)
      case Some(k) =>
        match TrySign(sc, msgHash, privKey, k)
        case Some(sig) => (Ok(sig), seed + 1)
        case None => SignFrom(sc, mac, msgHash, privKey, seed + 1, tries - 1)
  }

  /** Sign, with both rejection loops cut off after `tries` rounds. The source adds 1 to the
      seed in place, so a caller's seed argument ends as seedAfter. */
  method Sign(sc: StarkCurve, mac: Mac, msgHash: Option<int>, privKey: Option<int>, seed: seq<int>, tries: nat)
    returns (sig: Result<(int, int)>, seedAfter: int)
    requires Tags32(mac) && sc.BitSize == 252
    ensures var start := if |seed| == 1 then seed[0] else 0;
            (sig, seedAfter) ==
              if msgHash.None? then (Err("nil msgHash"), start)
              else if privKey.None? then (Err("nil privKey"), start)
              else if msgHash.value <= 0 || msgHash.value >= sc.Max then (Err("invalid bit length"), start)
              else SignFrom(sc, mac, msgHash.value, privKey.value, start, tries)
    ensures sig.Ok? ==> msgHash.Some? && privKey.Some?
    ensures sig.Ok? && Ready(sc) ==>
      var start := if |seed| == 1 then seed[0] else 0;
      Signed(sc, mac, msgHash.value, privKey.value, start, sig.value.0, sig.value.1, seedAfter)
  {
    hide StarkCurve.InvModCurveSize, EcMult, DivMod, Secret, Signed, Ready;
    seedAfter := if |seed| == 1 then seed[0] else 0;
    if msgHash.None? {
      return Err("nil msgHash"), seedAfter;
    }
    if privKey.None? {
      return Err("nil privKey"), seedAfter;
    }
    var msg, priv := msgHash.value, privKey.value;
    if msg <= 0 || msg >= sc.Max {
      return Err("invalid bit length"), seedAfter;
    }
    SignResult(sc, mac, msg, priv, seedAfter, tries);
    var left: nat := tries;
    ghost var start := seedAfter;
    while left > 0
      invariant left <= tries
      invariant SignFrom(sc, mac, msg, priv, seedAfter, left) == SignFrom(sc, mac, msg, priv, start, tries)
    {
      var k := GenerateSecret(sc, mac, msg, priv, seedAfter, left);
      if k.None? {
        return Err("out of tries"), seedAfter;
      }
      seedAfter := seedAfter + 1;
      left := left - 1;
      var r := EcMult(sc, k.value, sc.EcGenX, sc.EcGenY).0;
      if r <= 0 || r >= sc.Max {
        continue;
      }
      var agg := r * priv + msg;
      if agg % sc.N == 0 {
        continue;
      }
      var w := DivMod(k.value, agg, sc.N);
      if w <= 0 || w >= sc.Max {
        continue;
      }
      return Ok((r, sc.InvModCurveSize(w))), seedAfter;
    }
    return Err("out of tries"), seedAfter;
  }

  /** A signature does not depend on how long one is ready to search for it. */
  lemma {:induction false} SignStable(sc: StarkCurve, mac: Mac, msgHash: int, privKey: int, seed: int, tries: nat, more: nat)
    requires msgHash > 0 && tries <= more && SignFrom(sc, mac, msgHash, privKey, seed, tries).0.Ok?
    ensures SignFrom(sc, mac, msgHash, privKey, seed, more) == SignFrom(sc, mac, msgHash, privKey, seed, tries)
    decreases tries
  {
    hide TrySign, FirstCandidate, Preimage, Seeded;
    var (k, v) := Seeded(mac, Preimage(sc, msgHash, privKey, seed));
    CandidateStable(sc, mac, k, v, tries, more);
    var nonce := Secret(sc, mac, msgHash, privKey, seed, tries).value;
    if TrySign(sc, msgHash, privKey, nonce).None? {
      SignStable(sc, mac, msgHash, privKey, seed + 1, tries - 1, more - 1);
    }
  }

  // ---------- Verify ----------

  /** One pass of Verify for a public key: the x coordinate to compare with r. `pubIsGx` says
      that the caller passed the pointer sc.Gx itself as pubX. */
  function Pass(sc: StarkCurve, msgHash: int, r: int, w: int, pubX: int, pubY: int, pubIsGx: bool): Result<int> {
    match AirMult(sc, msgHash, sc.EcGenX, sc.EcGenY, sc.MinusShiftPointX, sc.MinusShiftPointY, false)
    case Err(e) => Err(e)
    case Ok(zG) =>
      match AirMult(sc, r, pubX, pubY, sc.Gx, sc.Gy, pubIsGx)
      case Err(e) => Err(e)
      case Ok(rQ) =>
        var (inX, inY) := sc.Add(zG.0, zG.1, rQ.0, rQ.1);
        match AirMult(sc, w, inX, inY, sc.Gx, sc.Gy, false)
        case Err(e) => Err(e)
        case Ok(wB) => Ok(sc.Add(wB.0, wB.1, sc.MinusShiftPointX, sc.MinusShiftPointY).0)
  }

  predicate InRange(sc: StarkCurve, msgHash: int, r: int, s: int, pubX: int, pubY: int) {
    var w := sc.InvModCurveSize(s);
    0 < s < sc.N && 0 < r < sc.Max && 0 < w < sc.Max && 0 < msgHash < sc.Max && sc.IsOnCurve(pubX, pubY)
  }

  predicate Verify(sc: StarkCurve, msgHash: int, r: int, s: int, pubX: int, pubY: int, pubIsGx: bool) {
    var w := sc.InvModCurveSize(s);
    if s <= 0 || s >= sc.N then false
    else if r <= 0 || r >= sc.Max then false
    else if w <= 0 || w >= sc.Max then false
    else if msgHash <= 0 || msgHash >= sc.Max then false
    else if !sc.IsOnCurve(pubX, pubY) then false
    else
      match Pass(sc, msgHash, r, w, pubX, pubY, pubIsGx)
      case Err(_) => false
      case Ok(outX) =>
        if r == outX then true
        else
          match Pass(sc, msgHash, r, w, pubX, -pubY, pubIsGx)
          case Err(_) => false
          case Ok(outX') => r == outX'
  }

  // ---------- the sign of y ----------

  /** A round trip through AirMult sees its first point modulo P only. */
  lemma AirMultCongruent(sc: StarkCurve, m: int, x: int, y: int, x': int, y': int, ax: int, ay: int, same: bool)
    requires IsPrime(sc.P) && Zero(x - x', sc.P) && Zero(y - y', sc.P)
    ensures AirMult(sc, m, x, y, ax, ay, same) == AirMult(sc, m, x', y', ax, ay, same)
  {
    ZeroMultiple(0, sc.P);
    AddCongruent(sc, ax, ay, x, y, ax, ay, x', y');
    DoubleCongruent(sc, x, y, x', y');
    hide StarkCurve.Add, StarkCurve.Double;
    assert AirLoop(sc, 251, m, x, y, ax, ay) == AirLoop(sc, 251, m, x', y', ax, ay);
  }

  lemma PassCongruent(sc: StarkCurve, msgHash: int, r: int, w: int, x: int, y: int, x': int, y': int, same: bool)
    requires IsPrime(sc.P) && Zero(x - x', sc.P) && Zero(y - y', sc.P)
    ensures Pass(sc, msgHash, r, w, x, y, same) == Pass(sc, msgHash, r, w, x', y', same)
  {
    AirMultCongruent(sc, r, x, y, x', y', sc.Gx, sc.Gy, same);
  }

  /** A pass fails for range reasons or for the shared pointer, never for the value of y. */
  lemma PassFails(sc: StarkCurve, msgHash: int, r: int, w: int, x: int, y: int, y': int, same: bool)
    requires sc.Max == Pow2(251)
    ensures Pass(sc, msgHash, r, w, x, y, same).Err? == Pass(sc, msgHash, r, w, x, y', same).Err?
  {
    hide StarkCurve.Add, StarkCurve.Double, AirLoop, AirMult;
    AirMultFails(sc, r, x, y, sc.Gx, sc.Gy, same);
    AirMultFails(sc, r, x, y', sc.Gx, sc.Gy, same);
    AirMultFails(sc, msgHash, sc.EcGenX, sc.EcGenY, sc.MinusShiftPointX, sc.MinusShiftPointY, false);
    forall px, py
      ensures AirMult(sc, w, px, py, sc.Gx, sc.Gy, false).Err? <==> !(0 < w < sc.Max)
    {
      AirMultFails(sc, w, px, py, sc.Gx, sc.Gy, false);
    }
  }

  lemma AirMultFails(sc: StarkCurve, m: int, x: int, y: int, ax: int, ay: int, same: bool)
    requires sc.Max == Pow2(251)
    ensures AirMult(sc, m, x, y, ax, ay, same).Err? <==> !(0 < m < sc.Max) || same
  {
    if 0 < m < sc.Max {
      AirRemainder(sc, 251, m, x, y, ax, ay);
    }
  }

  lemma {:induction false} AirRemainder(sc: StarkCurve, steps: nat, m: nat, x: int, y: int, ax: int, ay: int)
    requires m < Pow2(steps)
    ensures AirLoop(sc, steps, m, x, y, ax, ay).0 == 0
  {
    if steps > 0 {
      var (sx, sy) := if m % 2 == 1 then sc.Add(ax, ay, x, y) else (ax, ay);
      var (dx, dy) := sc.Double(x, y);
      AirRemainder(sc, steps - 1, m / 2, dx, dy, sx, sy);
    }
  }

  /** Which error MimicEcMultAir reports, and when. */
  lemma AirMultErrors(sc: StarkCurve, m: int, x: int, y: int, ax: int, ay: int, same: bool)
    requires sc.Max == Pow2(251)
    ensures var r := AirMult(sc, m, x, y, ax, ay, same);
            (r == Err("too many bits") <==> !(0 < m < sc.Max)) &&
            (r == Err("xs are the same") <==> 0 < m < sc.Max && same) &&
            (r.Ok? <==> 0 < m < sc.Max && !same)
  {
    hide AirLoop, Pow2;
    AirMultFails(sc, m, x, y, ax, ay, same);
  }

  /** A caller that passes the curve's own Gx as the key is always turned down. */
  lemma SharedPointerFails(sc: StarkCurve, msgHash: int, r: int, s: int, x: int, y: int)
    requires sc.Max == Pow2(251)
    ensures !Verify(sc, msgHash, r, s, x, y, true)
  {
    hide AirMult, StarkCurve.IsOnCurve, StarkCurve.InvModCurveSize, StarkCurve.Add, Pow2;
    AirMultErrors(sc, r, x, y, sc.Gx, sc.Gy, true);
  }

  /** Verify cannot tell a public key from its mirror image: every input, every y. */
  lemma VerifyMirror(sc: StarkCurve, msgHash: int, r: int, s: int, x: int, y: int, same: bool)
    requires IsPrime(sc.P) && sc.Max == Pow2(251)
    ensures Verify(sc, msgHash, r, s, x, y, same) == Verify(sc, msgHash, r, s, x, sc.P - y, same)
  {
    hide StarkCurve.Add, StarkCurve.Double, StarkCurve.IsOnCurve, StarkCurve.InvModCurveSize, IsPrime, Pass;
    var w := sc.InvModCurveSize(s);
    ZeroMultiple(1, sc.P);
    ZeroScale(-1, sc.P, sc.P);
    assert (sc.P - y) - -y == sc.P && -(sc.P - y) - y == 0 - sc.P;
    ZeroMultiple(0, sc.P);
    PassCongruent(sc, msgHash, r, w, x, sc.P - y, x, -y, same);
    PassCongruent(sc, msgHash, r, w, x, -(sc.P - y), x, y, same);
    PassFails(sc, msgHash, r, w, x, y, -y, same);
    MirrorOnCurve(sc, x, y);
  }

  lemma MirrorOnCurve(sc: StarkCurve, x: int, y: int)
    ensures sc.IsOnCurve(x, y) <==> sc.IsOnCurve(x, sc.P - y)
  {
    OnCurveResidual(sc, x, y);
    OnCurveResidual(sc, x, sc.P - y);
    ResidualMirror(sc, x, y);
    ZeroMultiple(1, sc.P);
    ZeroMultiple(0, sc.P);
    ResidualCongruent(sc, x, sc.P - y, x, -y);
  }

  // ---------- what a pass computes ----------

  /** The parameters as they must be: group law, base point of prime order N, a shift point
      and its negative. */
  ghost predicate Ready(sc: StarkCurve) {
    && Group(sc)
    && sc.Max == Pow2(251) && sc.Max < sc.N
    && OrderN(sc, sc.Gen())
    && sc.OnCurve(sc.Shift()) && sc.OnCurve(sc.MinusShift())
    && sc.MinusShift() == sc.Neg(sc.Shift())
  }

  /** No Add that the pass executes meets equal x. */
  predicate PassDefined(sc: StarkCurve, msgHash: int, r: int, w: int, pub: Point)
    requires pub.Affine?
  {
    && AirDefined(sc, 251, msgHash, sc.EcGenX, sc.EcGenY, sc.MinusShiftPointX, sc.MinusShiftPointY)
    && AirDefined(sc, 251, r, pub.x, pub.y, sc.Gx, sc.Gy)
    && var (_, zx, zy) := AirLoop(sc, 251, msgHash, sc.EcGenX, sc.EcGenY, sc.MinusShiftPointX, sc.MinusShiftPointY);
       var (_, qx, qy) := AirLoop(sc, 251, r, pub.x, pub.y, sc.Gx, sc.Gy);
       var (inX, inY) := sc.Add(zx, zy, qx, qy);
       var (_, bx, by') := AirLoop(sc, 251, w, inX, inY, sc.Gx, sc.Gy);
       !Zero(zx - qx, sc.P)
       && AirDefined(sc, 251, w, inX, inY, sc.Gx, sc.Gy)
       && !Zero(bx - sc.MinusShiftPointX, sc.P)
  }

  /** msgHash*G + r*Q, the sum ECDSA verification multiplies by w. */
  function Inner(sc: StarkCurve, msgHash: nat, r: nat, pub: Point): Point {
    sc.Plus(Times(sc, msgHash, sc.Gen()), Times(sc, r, pub))
  }

  /** The shift points cancel in zG + rQ, and the sum has order N. */
  lemma ShiftCancels(sc: StarkCurve, msgHash: nat, r: nat, pub: Point)
    requires Ready(sc) && OrderN(sc, pub)
    ensures sc.Plus(sc.Plus(sc.MinusShift(), Times(sc, msgHash, sc.Gen())), sc.Plus(sc.Shift(), Times(sc, r, pub)))
         == Inner(sc, msgHash, r, pub)
    ensures sc.OnCurve(Inner(sc, msgHash, r, pub))
    ensures Times(sc, sc.N, Inner(sc, msgHash, r, pub)) == Infinity
  {
    hide StarkCurve.IsOnCurve, IsPrime;
    var a, b := Times(sc, msgHash, sc.Gen()), Times(sc, r, pub);
    TimesClosed(sc, msgHash, sc.Gen());
    TimesClosed(sc, r, pub);
    PlusClosed(sc, a, b);
    Exchange(sc, sc.MinusShift(), a, sc.Shift(), b);
    PlusCommutes(sc, sc.MinusShift(), sc.Shift());
    PlusInverse(sc, sc.Shift());
    PlusInfinity(sc, sc.Plus(a, b));
    TimesDistributes(sc, sc.N, a, b);
    KilledMultiple(sc, msgHash, sc.Gen());
    KilledMultiple(sc, r, pub);
  }

  lemma KilledMultiple(sc: StarkCurve, k: nat, p: Point)
    requires Group(sc) && OrderN(sc, p)
    ensures Times(sc, sc.N, Times(sc, k, p)) == Infinity
  {
    TimesProduct(sc, sc.N, k, p);
    TimesProduct(sc, k, sc.N, p);
    TimesInfinity(sc, k);
    assert sc.N * k == k * sc.N;
  }

  lemma ShiftRemoved(sc: StarkCurve, q: Point)
    requires Ready(sc) && sc.OnCurve(q)
    ensures sc.Plus(sc.Plus(sc.Shift(), q), sc.MinusShift()) == q
  {
    PlusCommutes(sc, sc.Shift(), q);
    PlusInverse(sc, sc.Shift());
    PlusAssociates(sc, q, sc.Shift(), sc.MinusShift());
    PlusInfinity(sc, q);
  }

  /** The first Add of a pass gives the inner sum. */
  lemma InnerComputed(sc: StarkCurve, msgHash: int, r: int, pub: Point, z: (int, int, int), q: (int, int, int))
    requires Ready(sc) && OrderN(sc, pub) && 0 < msgHash < sc.Max && 0 < r < sc.Max
    requires AirDefined(sc, 251, msgHash, sc.EcGenX, sc.EcGenY, sc.MinusShiftPointX, sc.MinusShiftPointY)
    requires AirDefined(sc, 251, r, pub.x, pub.y, sc.Gx, sc.Gy)
    requires z == AirLoop(sc, 251, msgHash, sc.EcGenX, sc.EcGenY, sc.MinusShiftPointX, sc.MinusShiftPointY)
    requires q == AirLoop(sc, 251, r, pub.x, pub.y, sc.Gx, sc.Gy)
    requires !Zero(z.1 - q.1, sc.P)
    ensures z.0 == 0 && q.0 == 0
    ensures var (x, y) := sc.Add(z.1, z.2, q.1, q.2);
            Inner(sc, msgHash, r, pub) == Affine(x, y) && OrderN(sc, Affine(x, y))
  {
    hide StarkCurve.Add, StarkCurve.Double, StarkCurve.IsOnCurve, StarkCurve.Plus, AirLoop, AirDefined, IsPrime, Times;
    AirMultCorrect(sc, msgHash, sc.Gen(), sc.MinusShift());
    AirMultCorrect(sc, r, pub, sc.Shift());
    SumClosed(sc, sc.MinusShift(), msgHash, sc.Gen());
    SumClosed(sc, sc.Shift(), r, pub);
    AddDefined(sc, Affine(z.1, z.2), Affine(q.1, q.2));
    ShiftCancels(sc, msgHash, r, pub);
  }

  /** The last multiplication and Add give the multiple itself. */
  lemma OuterComputed(sc: StarkCurve, w: int, b: Point, o: (int, int, int))
    requires Ready(sc) && OrderN(sc, b) && 0 < w < sc.Max
    requires AirDefined(sc, 251, w, b.x, b.y, sc.Gx, sc.Gy)
    requires o == AirLoop(sc, 251, w, b.x, b.y, sc.Gx, sc.Gy)
    requires !Zero(o.1 - sc.MinusShiftPointX, sc.P)
    ensures o.0 == 0
    ensures var (x, y) := sc.Add(o.1, o.2, sc.MinusShiftPointX, sc.MinusShiftPointY); Times(sc, w, b) == Affine(x, y)
  {
    hide StarkCurve.Add, StarkCurve.Double, StarkCurve.IsOnCurve, StarkCurve.Plus, AirLoop, AirDefined, IsPrime, Times;
    AirMultCorrect(sc, w, b, sc.Shift());
    SumClosed(sc, sc.Shift(), w, b);
    AddDefined(sc, Affine(o.1, o.2), sc.MinusShift());
    TimesClosed(sc, w, b);
    ShiftRemoved(sc, Times(sc, w, b));
  }

  /** A pass without an equal-x Add yields the x coordinate of w*(msgHash*G + r*Q). */
  lemma PassCorrect(sc: StarkCurve, msgHash: int, r: int, w: int, pub: Point)
    requires Ready(sc) && OrderN(sc, pub)
    requires 0 < msgHash < sc.Max && 0 < r < sc.Max && 0 < w < sc.Max
    requires PassDefined(sc, msgHash, r, w, pub)
    ensures var t := Times(sc, w, Inner(sc, msgHash, r, pub));
            t.Affine? && Pass(sc, msgHash, r, w, pub.x, pub.y, false) == Ok(t.x)
  {
    hide StarkCurve.Add, StarkCurve.IsOnCurve, AirLoop, AirDefined, Times, Inner, IsPrime, Ready;
    var z := AirLoop(sc, 251, msgHash, sc.EcGenX, sc.EcGenY, sc.MinusShiftPointX, sc.MinusShiftPointY);
    var q := AirLoop(sc, 251, r, pub.x, pub.y, sc.Gx, sc.Gy);
    InnerComputed(sc, msgHash, r, pub, z, q);
    var b := Inner(sc, msgHash, r, pub);
    OuterComputed(sc, w, b, AirLoop(sc, 251, w, b.x, b.y, sc.Gx, sc.Gy));
  }

  lemma SumClosed(sc: StarkCurve, a: Point, k: nat, p: Point)
    requires sc.Field() && sc.OnCurve(a) && sc.OnCurve(p)
    ensures sc.OnCurve(sc.Plus(a, Times(sc, k, p)))
  {
    TimesClosed(sc, k, p);
    PlusClosed(sc, a, Times(sc, k, p));
  }

  lemma AddDefined(sc: StarkCurve, p: Point, q: Point)
    requires p.Affine? && q.Affine? && sc.OnCurve(p) && sc.OnCurve(q) && !Zero(p.x - q.x, sc.P)
    ensures var r := sc.Add(p.x, p.y, q.x, q.y); sc.Plus(p, q) == Affine(r.0, r.1)
  {
    ZeroMultiple(0, sc.P);
  }

  /** No round of m*p + a meets equal x. */
  predicate NoClash(sc: StarkCurve, m: nat, p: Point, a: Point) {
    forall i: nat :: i < 251 ==> !Clash(sc, i, m, p, a)
  }

  lemma XApart(sc: StarkCurve, p: Point, q: Point)
    requires sc.Field() && p.Affine? && q.Affine? && sc.OnCurve(p) && sc.OnCurve(q)
    ensures Zero(p.x - q.x, sc.P) <==> p == q || p == sc.Neg(q)
  {
    hide StarkCurve.IsOnCurve, IsPrime;
    ZeroMultiple(0, sc.P);
    if Zero(p.x - q.x, sc.P) {
      SmallZero(p.x - q.x, sc.P);
      SameX(sc, q, p);
    }
  }

  /** The partial sums of a pass: -Shift + msgHash*G, Shift + r*Q and Shift + w*(their sum). */
  function MessagePart(sc: StarkCurve, msgHash: nat): Point {
    sc.Plus(sc.MinusShift(), Times(sc, msgHash, sc.Gen()))
  }

  function KeyPart(sc: StarkCurve, r: nat, pub: Point): Point {
    sc.Plus(sc.Shift(), Times(sc, r, pub))
  }

  function OuterPart(sc: StarkCurve, msgHash: nat, r: nat, w: nat, pub: Point): Point {
    sc.Plus(sc.Shift(), Times(sc, w, Inner(sc, msgHash, r, pub)))
  }

  /** Which inputs a pass divides by zero on, in the group: a clash within one of the three
      multiplications, partial sums equal or opposite, or a last sum on a shift point. */
  lemma PassDefinedIff(sc: StarkCurve, msgHash: int, r: int, w: int, pub: Point)
    requires Ready(sc) && OrderN(sc, pub)
    requires 0 < msgHash < sc.Max && 0 < r < sc.Max && 0 < w < sc.Max
    ensures PassDefined(sc, msgHash, r, w, pub) <==>
      && NoClash(sc, msgHash, sc.Gen(), sc.MinusShift()) && NoClash(sc, r, pub, sc.Shift())
      && MessagePart(sc, msgHash) != KeyPart(sc, r, pub) && MessagePart(sc, msgHash) != sc.Neg(KeyPart(sc, r, pub))
      && NoClash(sc, w, Inner(sc, msgHash, r, pub), sc.Shift())
      && OuterPart(sc, msgHash, r, w, pub) != sc.Shift() && OuterPart(sc, msgHash, r, w, pub) != sc.MinusShift()
  {
    assert pub.Affine?;
    hide *;
    var z := AirLoop(sc, 251, msgHash, sc.EcGenX, sc.EcGenY, sc.MinusShiftPointX, sc.MinusShiftPointY);
    var q := AirLoop(sc, 251, r, pub.x, pub.y, sc.Gx, sc.Gy);
    var inner := sc.Add(z.1, z.2, q.1, q.2);
    var b := Affine(inner.0, inner.1);
    var o := AirLoop(sc, 251, w, b.x, b.y, sc.Gx, sc.Gy);
    PassStages(sc, msgHash, r, w, pub, z, q, inner, o);
    FirstStage(sc, msgHash, r, pub, z, q);
    if AirDefined(sc, 251, msgHash, sc.EcGenX, sc.EcGenY, sc.MinusShiftPointX, sc.MinusShiftPointY)
       && AirDefined(sc, 251, r, pub.x, pub.y, sc.Gx, sc.Gy) && !Zero(z.1 - q.1, sc.P) {
      InnerComputed(sc, msgHash, r, pub, z, q);
      LastStage(sc, msgHash, r, w, pub, b, o);
    }
  }

  lemma PassStages(
    sc: StarkCurve, msgHash: int, r: int, w: int, pub: Point,
    z: (int, int, int), q: (int, int, int), inner: (int, int), o: (int, int, int))
    requires pub.Affine? && inner == sc.Add(z.1, z.2, q.1, q.2)
    requires z == AirLoop(sc, 251, msgHash, sc.EcGenX, sc.EcGenY, sc.MinusShiftPointX, sc.MinusShiftPointY)
    requires q == AirLoop(sc, 251, r, pub.x, pub.y, sc.Gx, sc.Gy) && o == AirLoop(sc, 251, w, inner.0, inner.1, sc.Gx, sc.Gy)
    ensures PassDefined(sc, msgHash, r, w, pub) <==>
      && AirDefined(sc, 251, msgHash, sc.EcGenX, sc.EcGenY, sc.MinusShiftPointX, sc.MinusShiftPointY)
      && AirDefined(sc, 251, r, pub.x, pub.y, sc.Gx, sc.Gy)
      && !Zero(z.1 - q.1, sc.P)
      && AirDefined(sc, 251, w, inner.0, inner.1, sc.Gx, sc.Gy)
      && !Zero(o.1 - sc.MinusShiftPointX, sc.P)
  {
    hide AirLoop, AirDefined, StarkCurve.Add;
  }

  lemma FirstStage(sc: StarkCurve, msgHash: int, r: int, pub: Point, z: (int, int, int), q: (int, int, int))
    requires Ready(sc) && OrderN(sc, pub) && 0 < msgHash < sc.Max && 0 < r < sc.Max
    requires z == AirLoop(sc, 251, msgHash, sc.EcGenX, sc.EcGenY, sc.MinusShiftPointX, sc.MinusShiftPointY)
    requires q == AirLoop(sc, 251, r, pub.x, pub.y, sc.Gx, sc.Gy)
    ensures AirDefined(sc, 251, msgHash, sc.EcGenX, sc.EcGenY, sc.MinusShiftPointX, sc.MinusShiftPointY)
       <==> NoClash(sc, msgHash, sc.Gen(), sc.MinusShift())
    ensures AirDefined(sc, 251, r, pub.x, pub.y, sc.Gx, sc.Gy) <==> NoClash(sc, r, pub, sc.Shift())
    ensures NoClash(sc, msgHash, sc.Gen(), sc.MinusShift()) && NoClash(sc, r, pub, sc.Shift()) ==>
      (Zero(z.1 - q.1, sc.P) <==>
        MessagePart(sc, msgHash) == KeyPart(sc, r, pub) || MessagePart(sc, msgHash) == sc.Neg(KeyPart(sc, r, pub)))
  {
    hide StarkCurve.IsOnCurve, StarkCurve.Plus, StarkCurve.Associative, AirLoop, AirDefined, Times, IsPrime, Clash;
    AirDefinedIff(sc, 251, msgHash, sc.Gen(), sc.MinusShift());
    AirDefinedIff(sc, 251, r, pub, sc.Shift());
    if NoClash(sc, msgHash, sc.Gen(), sc.MinusShift()) && NoClash(sc, r, pub, sc.Shift()) {
      LoopPoint(sc, msgHash, sc.Gen(), sc.MinusShift(), z);
      LoopPoint(sc, r, pub, sc.Shift(), q);
      XApart(sc, Affine(z.1, z.2), Affine(q.1, q.2));
    }
  }

  lemma LastStage(sc: StarkCurve, msgHash: nat, r: nat, w: int, pub: Point, b: Point, o: (int, int, int))
    requires Ready(sc) && OrderN(sc, b) && b == Inner(sc, msgHash, r, pub) && 0 < w < sc.Max
    requires o == AirLoop(sc, 251, w, b.x, b.y, sc.Gx, sc.Gy)
    ensures AirDefined(sc, 251, w, b.x, b.y, sc.Gx, sc.Gy) <==> NoClash(sc, w, b, sc.Shift())
    ensures NoClash(sc, w, b, sc.Shift()) ==>
      (Zero(o.1 - sc.MinusShiftPointX, sc.P) <==>
        OuterPart(sc, msgHash, r, w, pub) == sc.Shift() || OuterPart(sc, msgHash, r, w, pub) == sc.MinusShift())
  {
    hide StarkCurve.IsOnCurve, StarkCurve.Plus, StarkCurve.Associative, AirLoop, AirDefined, Times, IsPrime, Clash, Inner;
    AirDefinedIff(sc, 251, w, b, sc.Shift());
    if NoClash(sc, w, b, sc.Shift()) {
      LoopPoint(sc, w, b, sc.Shift(), o);
      XApart(sc, Affine(o.1, o.2), sc.MinusShift());
      ShiftMirrored(sc);
    }
  }

  lemma ShiftMirrored(sc: StarkCurve)
    requires Ready(sc)
    ensures sc.Neg(sc.MinusShift()) == sc.Shift()
  {
    hide StarkCurve.IsOnCurve, StarkCurve.Associative, IsPrime, OrderN;
    NegUnique(sc, sc.MinusShift().y, sc.Shift().y);
    NegUnique(sc, sc.Shift().y, sc.MinusShift().y);
  }

  /** A loop whose Adds are defined ends in the point it stands for. */
  lemma LoopPoint(sc: StarkCurve, m: int, p: Point, a: Point, z: (int, int, int))
    requires Ready(sc) && OrderN(sc, p) && a.Affine? && sc.OnCurve(a) && 0 < m < sc.Max
    requires AirDefined(sc, 251, m, p.x, p.y, a.x, a.y) && z == AirLoop(sc, 251, m, p.x, p.y, a.x, a.y)
    ensures sc.Plus(a, Times(sc, m, p)) == Affine(z.1, z.2) && sc.OnCurve(Affine(z.1, z.2))
  {
    hide StarkCurve.Add, StarkCurve.IsOnCurve, StarkCurve.Plus, AirLoop, AirDefined, Times, IsPrime;
    AirMultCorrect(sc, m, p, a);
    SumClosed(sc, a, m, p);
  }

  lemma NegOrderN(sc: StarkCurve, p: Point)
    requires Group(sc) && OrderN(sc, p)
    ensures OrderN(sc, sc.Neg(p))
  {
    hide StarkCurve.IsOnCurve, IsPrime;
    NegOnCurve(sc, p);
    PlusInverse(sc, p);
    TimesDistributes(sc, sc.N, p, sc.Neg(p));
    TimesInfinity(sc, sc.N);
    PlusInfinity(sc, Times(sc, sc.N, sc.Neg(p)));
  }

  /** The public key, reduced, has order N, and no Add that Verify executes for it meets equal
      x: those of the first pass, and those of the second if the first does not find r. */
  ghost predicate RunDefined(sc: StarkCurve, msgHash: int, r: int, w: int, pub: Point) {
    OrderN(sc, pub) && PassDefined(sc, msgHash, r, w, pub) &&
    (Pass(sc, msgHash, r, w, pub.x, pub.y, false) != Ok(r) ==> PassDefined(sc, msgHash, r, w, sc.Neg(pub)))
  }

  /** Where Verify meets no equal-x Add it accepts exactly the ECDSA equation, up to the sign of
      the key. The coordinates of the key need not be reduced. */
  lemma VerifyIff(sc: StarkCurve, msgHash: int, r: int, s: int, x: int, y: int)
    requires Ready(sc)
    requires InRange(sc, msgHash, r, s, x, y) ==>
      RunDefined(sc, msgHash, r, sc.InvModCurveSize(s), Affine(x % sc.P, y % sc.P))
    ensures Verify(sc, msgHash, r, s, x, y, false) <==>
      InRange(sc, msgHash, r, s, x, y) &&
      var w, pub := sc.InvModCurveSize(s), Affine(x % sc.P, y % sc.P);
      var t, t' := Times(sc, w, Inner(sc, msgHash, r, pub)), Times(sc, w, Inner(sc, msgHash, r, sc.Neg(pub)));
      (t.Affine? && t.x == r) || (t'.Affine? && t'.x == r)
  {
    hide *;
    VerifyUnfolded(sc, msgHash, r, s, x, y);
    if InRange(sc, msgHash, r, s, x, y) {
      RunFinds(sc, msgHash, r, sc.InvModCurveSize(s), x, y);
    }
  }

  lemma VerifyUnfolded(sc: StarkCurve, msgHash: int, r: int, s: int, x: int, y: int)
    ensures Verify(sc, msgHash, r, s, x, y, false) <==>
      InRange(sc, msgHash, r, s, x, y) && Finds(sc, msgHash, r, sc.InvModCurveSize(s), x, y)
    ensures InRange(sc, msgHash, r, s, x, y) ==>
      0 < msgHash < sc.Max && 0 < r < sc.Max && 0 < sc.InvModCurveSize(s) < sc.Max
  {
    hide Pass, StarkCurve.InvModCurveSize, StarkCurve.IsOnCurve;
  }

  /** The two passes, the second only after a first that ended well but elsewhere. */
  predicate Finds(sc: StarkCurve, msgHash: int, r: int, w: int, x: int, y: int) {
    var first := Pass(sc, msgHash, r, w, x, y, false);
    first == Ok(r) || (first.Ok? && Pass(sc, msgHash, r, w, x, -y, false) == Ok(r))
  }

  lemma RunFinds(sc: StarkCurve, msgHash: int, r: int, w: int, x: int, y: int)
    requires Ready(sc) && 0 < msgHash < sc.Max && 0 < r < sc.Max && 0 < w < sc.Max
    requires RunDefined(sc, msgHash, r, w, Affine(x % sc.P, y % sc.P))
    ensures Finds(sc, msgHash, r, w, x, y) <==>
      var pub := Affine(x % sc.P, y % sc.P);
      var t, t' := Times(sc, w, Inner(sc, msgHash, r, pub)), Times(sc, w, Inner(sc, msgHash, r, sc.Neg(pub)));
      (t.Affine? && t.x == r) || (t'.Affine? && t'.x == r)
  {
    hide StarkCurve.IsOnCurve, PassDefined, Times, StarkCurve.Associative, Pass, IsPrime, Inner, OrderN;
    var pub := Affine(x % sc.P, y % sc.P);
    ZeroResidue(x, sc.P);
    ZeroResidue(y, sc.P);
    PassCongruent(sc, msgHash, r, w, x, y, pub.x, pub.y, false);
    PassCorrect(sc, msgHash, r, w, pub);
    if Pass(sc, msgHash, r, w, pub.x, pub.y, false) != Ok(r) {
      NegOrderN(sc, pub);
      PassCorrect(sc, msgHash, r, w, sc.Neg(pub));
      MirrorResidue(sc.P, y);
      PassCongruent(sc, msgHash, r, w, x, -y, pub.x, sc.Neg(pub).y, false);
    }
  }

  lemma MirrorResidue(p: pos, y: int)
    ensures Zero(-y - -(y % p) % p, p)
  {
    ZeroResidue(-(y % p), p);
    ZeroResidue(y, p);
    ZeroSum(-(y % p) - -(y % p) % p, y - y % p, p);
  }

  // ---------- Sign meets Verify ----------

  /** w*(msgHash + r*priv) = k modulo N, so the pass lands on k*G. */
  lemma SignatureEquation(sc: StarkCurve, msgHash: nat, privKey: nat, k: nat, r: nat, w: nat)
    requires Ready(sc) && IsPrime(sc.N) && 0 < k < sc.N
    requires (r * privKey + msgHash) % sc.N != 0 && w == DivMod(k, r * privKey + msgHash, sc.N)
    ensures Times(sc, w, Inner(sc, msgHash, r, Times(sc, privKey, sc.Gen()))) == Times(sc, k, sc.Gen())
  {
    hide StarkCurve.IsOnCurve, StarkCurve.Plus, IsPrime, DivMod, Times;
    var g, agg := sc.Gen(), r * privKey + msgHash;
    TimesProduct(sc, r, privKey, g);
    TimesSum(sc, msgHash, r * privKey, g);
    TimesProduct(sc, w, agg, g);
    QuotientResidue(k, agg, w, sc.N);
    TimesModN(sc, w * agg, g);
  }

  lemma QuotientResidue(k: nat, agg: nat, w: nat, n: pos)
    requires IsPrime(n) && k < n && agg % n != 0 && w == DivMod(k, agg, n)
    ensures (w * agg) % n == k
  {
    hide IsPrime, DivMod;
    PrimeCoprime(agg, n);
    QuotientSolves(k, agg, n);
    assert w * agg == agg * w;
    ModEqual(w * agg, k, n);
    DivModUnique(k, n, 0, k);
  }

  /** What TrySign returns passes Verify's range checks, and Verify's w is Sign's. */
  lemma SignatureInRange(sc: StarkCurve, msgHash: nat, privKey: nat, k: nat)
    requires Ready(sc) && 0 < k
    requires TrySign(sc, msgHash, privKey, k).Some?
    ensures var (r, s) := TrySign(sc, msgHash, privKey, k).value;
            0 < r < sc.Max && 0 < s < sc.N
            && sc.InvModCurveSize(s) == DivMod(k, r * privKey + msgHash, sc.N)
            && 0 < sc.InvModCurveSize(s) < sc.Max
  {
    hide IsPrime, EcMult, StarkCurve.Associative, StarkCurve.IsOnCurve, Times;
    var r := EcMult(sc, k, sc.EcGenX, sc.EcGenY).0;
    InverseTwice(DivMod(k, r * privKey + msgHash, sc.N), sc.N);
  }

  /** For a signature of Sign the opposite points cannot occur, as k*G is finite: verification
      divides by zero exactly on a clash within a multiplication, on equal partial sums, or
      where k*G is twice the negative shift point. */
  lemma SignedPassDefinedIff(sc: StarkCurve, msgHash: int, privKey: int, k: int, r: int, w: int, pub: Point)
    requires Ready(sc) && 0 < msgHash < sc.Max && 0 < privKey < sc.N && 0 < k < sc.N
    requires 0 < r < sc.Max && 0 < w < sc.Max
    requires (r * privKey + msgHash) % sc.N != 0 && w == DivMod(k, r * privKey + msgHash, sc.N)
    requires OrderN(sc, pub) && pub == Times(sc, privKey, sc.Gen())
    ensures PassDefined(sc, msgHash, r, w, pub) <==>
      && NoClash(sc, msgHash, sc.Gen(), sc.MinusShift()) && NoClash(sc, r, pub, sc.Shift())
      && MessagePart(sc, msgHash) != KeyPart(sc, r, pub)
      && NoClash(sc, w, Inner(sc, msgHash, r, pub), sc.Shift())
      && Times(sc, k, sc.Gen()) != sc.Plus(sc.MinusShift(), sc.MinusShift())
  {
    PrimeN(sc);
    hide *;
    var kG := Times(sc, k, sc.Gen());
    PassDefinedIff(sc, msgHash, r, w, pub);
    SignatureEquation(sc, msgHash, privKey, k, r, w);
    NonceFinite(sc, k);
    if MessagePart(sc, msgHash) == sc.Neg(KeyPart(sc, r, pub)) {
      OppositeParts(sc, msgHash, r, w, pub);
    }
    OuterSum(sc, msgHash, r, w, pub);
    LastSum(sc, kG);
  }

  lemma PrimeN(sc: StarkCurve)
    requires Ready(sc)
    ensures IsPrime(sc.N)
  {}

  lemma NonceFinite(sc: StarkCurve, k: int)
    requires Ready(sc) && 0 < k < sc.N
    ensures Times(sc, k, sc.Gen()) != Infinity && sc.OnCurve(Times(sc, k, sc.Gen()))
  {
    hide StarkCurve.IsOnCurve, StarkCurve.Plus, IsPrime, Times, StarkCurve.Associative;
    OrderIsN(sc, k, sc.Gen());
    TimesClosed(sc, k, sc.Gen());
  }

  /** Opposite partial sums have the sum Infinity, and so have its multiples. */
  lemma OppositeParts(sc: StarkCurve, msgHash: nat, r: nat, w: nat, pub: Point)
    requires Ready(sc) && OrderN(sc, pub) && MessagePart(sc, msgHash) == sc.Neg(KeyPart(sc, r, pub))
    ensures Times(sc, w, Inner(sc, msgHash, r, pub)) == Infinity
  {
    hide StarkCurve.IsOnCurve, StarkCurve.Plus, IsPrime, Times, StarkCurve.Associative;
    ShiftCancels(sc, msgHash, r, pub);
    SumClosed(sc, sc.Shift(), r, pub);
    var q := KeyPart(sc, r, pub);
    NegOnCurve(sc, q);
    PlusInverse(sc, q);
    PlusCommutes(sc, sc.Neg(q), q);
    TimesInfinity(sc, w);
  }

  lemma OuterSum(sc: StarkCurve, msgHash: nat, r: nat, w: nat, pub: Point)
    ensures OuterPart(sc, msgHash, r, w, pub) == sc.Plus(sc.Shift(), Times(sc, w, Inner(sc, msgHash, r, pub)))
  {}

  /** Shift + q is Shift only for the identity, and -Shift only for twice -Shift. */
  lemma LastSum(sc: StarkCurve, q: Point)
    requires Ready(sc) && sc.OnCurve(q) && q != Infinity
    ensures sc.Plus(sc.Shift(), q) != sc.Shift()
    ensures sc.Plus(sc.Shift(), q) == sc.MinusShift() <==> q == sc.Plus(sc.MinusShift(), sc.MinusShift())
  {
    hide StarkCurve.IsOnCurve, StarkCurve.Plus, IsPrime, StarkCurve.Associative;
    var s, m := sc.Shift(), sc.MinusShift();
    PlusCommutes(sc, s, q);
    if sc.Plus(s, q) == s {
      CancelRight(sc, q, s);
    }
    PlusInverse(sc, s);
    PlusCommutes(sc, s, m);
    PlusInfinity(sc, m);
    ShiftRemoved(sc, q);
    PlusAssociates(sc, s, m, m);
  }

  /** PrivateToPoint succeeds exactly on (0, N), and gives privKey times the generator. */
  lemma KeyIff(sc: StarkCurve, privKey: int)
    requires Ready(sc)
    ensures var key := PrivateToPoint(sc, privKey);
            match key
            case Err(_) => privKey <= 0 || privKey >= sc.N
            case Ok((x, y)) => 0 < privKey < sc.N && Times(sc, privKey, sc.Gen()) == Affine(x, y)
  {
    hide Ready, EcMult, Times, OrderN;
    if 0 < privKey < sc.N {
      KeyOnCurve(sc, privKey);
    }
  }

  lemma KeyOnCurve(sc: StarkCurve, privKey: int)
    requires Ready(sc) && 0 < privKey < sc.N
    ensures var key := PrivateToPoint(sc, privKey);
            key.Ok? && Times(sc, privKey, sc.Gen()) == Affine(key.value.0, key.value.1)
            && OrderN(sc, Affine(key.value.0, key.value.1))
  {
    EcMultCorrect(sc, privKey, sc.Gen());
    TimesClosed(sc, privKey, sc.Gen());
    KilledMultiple(sc, privKey, sc.Gen());
  }

  /** Every signature a round of Sign produces is accepted under the matching public key,
      unless Verify's own run divides by zero. */
  lemma TrySignVerifies(sc: StarkCurve, msgHash: int, privKey: int, k: int)
    requires Ready(sc) && 0 < msgHash < sc.Max && 0 < privKey < sc.N && 0 < k < sc.N
    requires TrySign(sc, msgHash, privKey, k).Some?
    requires var (r, s) := TrySign(sc, msgHash, privKey, k).value;
             var key := EcMult(sc, privKey, sc.EcGenX, sc.EcGenY);
             PassDefined(sc, msgHash, r, sc.InvModCurveSize(s), Affine(key.0, key.1))
    ensures var (r, s) := TrySign(sc, msgHash, privKey, k).value;
            var key := PrivateToPoint(sc, privKey);
            key.Ok? && Verify(sc, msgHash, r, s, key.value.0, key.value.1, false)
  {
    hide StarkCurve.Add, StarkCurve.Double, StarkCurve.IsOnCurve, StarkCurve.InvModCurveSize, EcMult, PassDefined, Pass, Ready, Verify, OrderN, DivMod;
    var (r, s) := TrySign(sc, msgHash, privKey, k).value;
    SignatureInRange(sc, msgHash, privKey, k);
    KeyOnCurve(sc, privKey);
    var key := PrivateToPoint(sc, privKey).value;
    var w := sc.InvModCurveSize(s);
    SignedPass(sc, msgHash, privKey, k, r, w);
    FirstPassAccepts(sc, msgHash, r, s, key.0, key.1);
  }

  lemma FirstPassAccepts(sc: StarkCurve, msgHash: int, r: int, s: int, x: int, y: int)
    requires InRange(sc, msgHash, r, s, x, y)
    requires Pass(sc, msgHash, r, sc.InvModCurveSize(s), x, y, false) == Ok(r)
    ensures Verify(sc, msgHash, r, s, x, y, false)
  {}

  lemma SignedPass(sc: StarkCurve, msgHash: int, privKey: int, k: int, r: int, w: int)
    requires Ready(sc) && 0 < msgHash < sc.Max && 0 < privKey < sc.N && 0 < k < sc.N
    requires 0 < r < sc.Max && 0 < w < sc.Max && r == EcMult(sc, k, sc.EcGenX, sc.EcGenY).0
    requires (r * privKey + msgHash) % sc.N != 0 && w == DivMod(k, r * privKey + msgHash, sc.N)
    requires var key := EcMult(sc, privKey, sc.EcGenX, sc.EcGenY);
             PassDefined(sc, msgHash, r, w, Affine(key.0, key.1))
    ensures var key := EcMult(sc, privKey, sc.EcGenX, sc.EcGenY);
            Pass(sc, msgHash, r, w, key.0, key.1, false) == Ok(r) && sc.IsOnCurve(key.0, key.1)
  {
    hide StarkCurve.Add, StarkCurve.Double, StarkCurve.IsOnCurve, StarkCurve.Plus, EcMult, PassDefined, Pass, Times, IsPrime, DivMod;
    var key := EcMult(sc, privKey, sc.EcGenX, sc.EcGenY);
    KeyOnCurve(sc, privKey);
    PassCorrect(sc, msgHash, r, w, Affine(key.0, key.1));
    SignatureEquation(sc, msgHash, privKey, k, r, w);
    EcMultCorrect(sc, k, sc.Gen());
  }

  /** Sign then Verify: for every message, key, seed and HMAC. */
  lemma {:induction false} SignVerifies(sc: StarkCurve, mac: Mac, msgHash: int, privKey: int, seed: int, tries: nat)
    requires Ready(sc) && 0 < msgHash < sc.Max && 0 < privKey < sc.N
    requires SignFrom(sc, mac, msgHash, privKey, seed, tries).0.Ok?
    requires var (r, s) := SignFrom(sc, mac, msgHash, privKey, seed, tries).0.value;
             var key := EcMult(sc, privKey, sc.EcGenX, sc.EcGenY);
             PassDefined(sc, msgHash, r, sc.InvModCurveSize(s), Affine(key.0, key.1))
    ensures var (r, s) := SignFrom(sc, mac, msgHash, privKey, seed, tries).0.value;
            var key := PrivateToPoint(sc, privKey);
            key.Ok? && Verify(sc, msgHash, r, s, key.value.0, key.value.1, false)
    decreases tries
  {
    hide StarkCurve.Add, EcMult, PassDefined, Verify, TrySign, Secret, PrivateToPoint, Ready;
    var k := Secret(sc, mac, msgHash, privKey, seed, tries).value;
    if TrySign(sc, msgHash, privKey, k).Some? {
      TrySignVerifies(sc, msgHash, privKey, k);
    } else {
      SignVerifies(sc, mac, msgHash, privKey, seed + 1, tries - 1);
    }
  }

  // ---------- what Sign returns, in the group ----------

  /** w is the quotient k/m modulo n. */
  predicate IsQuotient(k: int, m: int, n: pos, w: int) {
    0 <= w < n && Zero(m * w - k, n)
  }

  /** The nonce k makes the signature (r, s): r is the x coordinate of k*G, and s is the inverse
      of the quotient of k by r*privKey + msgHash. */
  ghost predicate Makes(sc: StarkCurve, msgHash: int, privKey: int, k: nat, r: int, s: int) {
    var p := Times(sc, k, sc.Gen());
    p.Affine? && r == p.x && 0 < r < sc.Max && !Zero(r * privKey + msgHash, sc.N)
    && Completes(sc, k, r * privKey + msgHash, s)
  }

  ghost predicate Completes(sc: StarkCurve, k: int, agg: int, s: int) {
    exists w :: IsQuotient(k, agg, sc.N, w) && 0 < w < sc.Max && IsQuotient(1, w, sc.N, s)
  }

  ghost predicate QuotientOutside(sc: StarkCurve, k: int, agg: int) {
    exists w :: IsQuotient(k, agg, sc.N, w) && !(0 < w < sc.Max)
  }

  /** The nonce k is rejected: r is out of range, r*privKey + msgHash vanishes, or the quotient
      is out of range. */
  ghost predicate Rejected(sc: StarkCurve, msgHash: int, privKey: int, k: nat) {
    var p := Times(sc, k, sc.Gen());
    p.Affine? &&
    (!(0 < p.x < sc.Max) || Zero(p.x * privKey + msgHash, sc.N) || QuotientOutside(sc, k, p.x * privKey + msgHash))
  }

  lemma QuotientIs(k: int, m: int, n: pos)
    requires IsPrime(n) && !Zero(m, n)
    ensures forall w :: IsQuotient(k, m, n, w) <==> w == DivMod(k, m, n)
  {
    hide DivMod, IsPrime, Coprime;
    PrimeCoprime(m, n);
    DivModRange(k, m, n);
    QuotientSolves(k, m, n);
    forall w | IsQuotient(k, m, n, w)
      ensures w == DivMod(k, m, n)
    {
      QuotientUnique(k, m, n, w);
    }
  }

  lemma NotZero(w: int, n: pos)
    requires 0 < w < n
    ensures !Zero(w, n)
  {
    if Zero(w, n) {
      SmallZero(w, n);
    }
  }

  /** TrySign decides between the two, for every nonce in (0, N). */
  lemma TrySignMeans(sc: StarkCurve, msgHash: int, privKey: int, k: int)
    requires Ready(sc) && 0 < k < sc.N
    ensures forall r, s :: TrySign(sc, msgHash, privKey, k) == Some((r, s)) <==> Makes(sc, msgHash, privKey, k, r, s)
    ensures TrySign(sc, msgHash, privKey, k) == None <==> Rejected(sc, msgHash, privKey, k)
  {
    PrimeN(sc);
    MaxBelowN(sc);
    hide *;
    EcMultCorrect(sc, k, sc.Gen());
    var r := EcMult(sc, k, sc.EcGenX, sc.EcGenY).0;
    var agg := r * privKey + msgHash;
    if !Zero(agg, sc.N) {
      Completion(sc, k, agg);
    }
    TrySignParts(sc, msgHash, privKey, k, r, agg);
  }

  lemma MaxBelowN(sc: StarkCurve)
    requires Ready(sc)
    ensures sc.Max < sc.N && OrderN(sc, sc.Gen()) && Group(sc) && sc.Gen() == Affine(sc.EcGenX, sc.EcGenY)
  {}

  lemma TrySignParts(sc: StarkCurve, msgHash: int, privKey: int, k: int, r: int, agg: int)
    requires k > 0 && agg == r * privKey + msgHash && r == EcMult(sc, k, sc.EcGenX, sc.EcGenY).0
    requires Times(sc, k, sc.Gen()).Affine? && Times(sc, k, sc.Gen()).x == r
    requires !Zero(agg, sc.N) ==>
      var w := DivMod(k, agg, sc.N);
      (forall s :: Completes(sc, k, agg, s) <==> 0 < w < sc.Max && s == sc.InvModCurveSize(w))
      && (QuotientOutside(sc, k, agg) <==> !(0 < w < sc.Max))
    ensures forall r, s :: TrySign(sc, msgHash, privKey, k) == Some((r, s)) <==> Makes(sc, msgHash, privKey, k, r, s)
    ensures TrySign(sc, msgHash, privKey, k) == None <==> Rejected(sc, msgHash, privKey, k)
  {
    hide EcMult, Times, DivMod, StarkCurve.InvModCurveSize, Completes, QuotientOutside;
  }

  lemma Completion(sc: StarkCurve, k: int, agg: int)
    requires IsPrime(sc.N) && sc.Max < sc.N && !Zero(agg, sc.N)
    ensures var w := DivMod(k, agg, sc.N);
            (forall s :: Completes(sc, k, agg, s) <==> 0 < w < sc.Max && s == sc.InvModCurveSize(w))
            && (QuotientOutside(sc, k, agg) <==> !(0 < w < sc.Max))
  {
    hide IsPrime, DivMod, IsQuotient;
    var w := DivMod(k, agg, sc.N);
    QuotientIs(k, agg, sc.N);
    assert IsQuotient(k, agg, sc.N, w);
    if 0 < w < sc.Max {
      NotZero(w, sc.N);
      QuotientIs(1, w, sc.N);
      assert IsQuotient(1, w, sc.N, sc.InvModCurveSize(w));
    }
  }

  /** The nonces of seed, seed + 1, ...: each that of its own HMAC data, all but the last
      rejected, the last making the signature. */
  ghost predicate SignRun(sc: StarkCurve, mac: Mac, msgHash: int, privKey: int, seed: int, ks: seq<nat>, r: int, s: int) {
    |ks| > 0
    && (forall i :: 0 <= i < |ks| ==> IsNonce(sc, mac, HmacData(msgHash, privKey, seed + i), ks[i]))
    && (forall i :: 0 <= i < |ks| - 1 ==> Rejected(sc, msgHash, privKey, ks[i]))
    && Makes(sc, msgHash, privKey, ks[|ks| - 1], r, s)
  }

  /** Such a run from `seed` on ends in (r, s) and leaves the seed `after`. */
  ghost predicate Signed(sc: StarkCurve, mac: Mac, msgHash: int, privKey: int, seed: int, r: int, s: int, after: int) {
    exists ks :: SignRun(sc, mac, msgHash, privKey, seed, ks, r, s) && after == seed + |ks|
  }

  ghost predicate IsNonce(sc: StarkCurve, mac: Mac, data: seq<byte>, k: int) {
    exists tries: nat :: NonceWithin(sc, mac, data, tries, k)
  }

  ghost predicate Signable(sc: StarkCurve, mac: Mac, msgHash: int) {
    Ready(sc) && Tags32(mac) && sc.BitSize == 252 && 0 < msgHash < sc.Max
  }

  lemma SecretIsNonce(sc: StarkCurve, mac: Mac, msgHash: int, privKey: int, seed: int, tries: nat, k: int)
    requires Signable(sc, mac, msgHash)
    ensures Secret(sc, mac, msgHash, privKey, seed, tries) == Some(k)
       <==> NonceWithin(sc, mac, HmacData(msgHash, privKey, seed), tries, k)
  {
    hide Secret, NonceWithin, NoneWithin, HmacData, IsPrime, StarkCurve.Associative, StarkCurve.IsOnCurve, Times, Pow2;
    SecretIsTranscript(sc, mac, msgHash, privKey, seed, tries);
  }

  /** One round of Sign. */
  lemma SignStep(sc: StarkCurve, mac: Mac, msgHash: int, privKey: int, seed: int, tries: nat)
    requires msgHash > 0 && tries > 0
    ensures var nonce := Secret(sc, mac, msgHash, privKey, seed, tries);
            SignFrom(sc, mac, msgHash, privKey, seed, tries)
            == if nonce.None? then (Err("out of tries"), seed)
               else
                 match TrySign(sc, msgHash, privKey, nonce.value)
                 case Some(sig) => (Ok(sig), seed + 1)
                 case None => SignFrom(sc, mac, msgHash, privKey, seed + 1, tries - 1)
  {
    hide Secret, TrySign;
  }

  /** A signature returned comes from such a run, and the seed left behind counts its rounds. */
  lemma {:induction false} SignatureRun(sc: StarkCurve, mac: Mac, msgHash: int, privKey: int, seed: int, tries: nat)
    returns (ks: seq<nat>)
    requires Signable(sc, mac, msgHash) && SignFrom(sc, mac, msgHash, privKey, seed, tries).0.Ok?
    ensures var ((r, s), after) := (SignFrom(sc, mac, msgHash, privKey, seed, tries).0.value, SignFrom(sc, mac, msgHash, privKey, seed, tries).1);
            after == seed + |ks| && SignRun(sc, mac, msgHash, privKey, seed, ks, r, s)
    decreases tries
  {
    hide SignFrom, Secret, TrySign, Makes, Rejected, NonceWithin, HmacData, Ready, SignRun;
    NoTries(sc, mac, msgHash, privKey, seed);
    SignStep(sc, mac, msgHash, privKey, seed, tries);
    var k: nat := Secret(sc, mac, msgHash, privKey, seed, tries).value;
    SecretIsNonce(sc, mac, msgHash, privKey, seed, tries, k);
    TrySignMeans(sc, msgHash, privKey, k);
    assert IsNonce(sc, mac, HmacData(msgHash, privKey, seed), k);
    var sig := SignFrom(sc, mac, msgHash, privKey, seed, tries).0.value;
    if TrySign(sc, msgHash, privKey, k).Some? {
      ks := [k];
      RunOne(sc, mac, msgHash, privKey, seed, k, sig.0, sig.1);
    } else {
      var rest := SignatureRun(sc, mac, msgHash, privKey, seed + 1, tries - 1);
      ks := [k] + rest;
      RunBefore(sc, mac, msgHash, privKey, seed, k, rest, sig.0, sig.1);
    }
  }

  lemma SignResult(sc: StarkCurve, mac: Mac, msgHash: int, privKey: int, seed: int, tries: nat)
    requires Tags32(mac) && sc.BitSize == 252 && 0 < msgHash < sc.Max
    ensures var (sig, after) := SignFrom(sc, mac, msgHash, privKey, seed, tries);
            sig.Ok? && Ready(sc) ==> Signed(sc, mac, msgHash, privKey, seed, sig.value.0, sig.value.1, after)
  {
    hide SignFrom, SignRun, Ready;
    if SignFrom(sc, mac, msgHash, privKey, seed, tries).0.Ok? && Ready(sc) {
      var ks := SignatureRun(sc, mac, msgHash, privKey, seed, tries);
    }
  }

  lemma RunOne(sc: StarkCurve, mac: Mac, msgHash: int, privKey: int, seed: int, k: nat, r: int, s: int)
    requires IsNonce(sc, mac, HmacData(msgHash, privKey, seed), k) && Makes(sc, msgHash, privKey, k, r, s)
    ensures SignRun(sc, mac, msgHash, privKey, seed, [k], r, s)
  {
    hide IsNonce, Rejected, Makes, HmacData;
    assert seed + 0 == seed;
  }

  lemma NoTries(sc: StarkCurve, mac: Mac, msgHash: int, privKey: int, seed: int)
    requires msgHash > 0
    ensures SignFrom(sc, mac, msgHash, privKey, seed, 0).0.Err?
  {}

  lemma RunBefore(sc: StarkCurve, mac: Mac, msgHash: int, privKey: int, seed: int, k: nat, ks: seq<nat>, r: int, s: int)
    requires IsNonce(sc, mac, HmacData(msgHash, privKey, seed), k) && Rejected(sc, msgHash, privKey, k)
    ensures SignRun(sc, mac, msgHash, privKey, seed + 1, ks, r, s) ==> SignRun(sc, mac, msgHash, privKey, seed, [k] + ks, r, s)
  {
    hide IsNonce, Rejected, Makes, HmacData;
    if SignRun(sc, mac, msgHash, privKey, seed + 1, ks, r, s) {
      var all := [k] + ks;
      forall i | 0 <= i < |all|
        ensures IsNonce(sc, mac, HmacData(msgHash, privKey, seed + i), all[i])
        ensures i < |all| - 1 ==> Rejected(sc, msgHash, privKey, all[i])
      {
        if i > 0 {
          assert all[i] == ks[i - 1] && seed + i == seed + 1 + (i - 1);
        }
      }
    }
  }

  /** And every such run is returned, once one is ready to search long enough. */
  lemma {:induction false} RunReturned(
    sc: StarkCurve, mac: Mac, msgHash: int, privKey: int, seed: int, ks: seq<nat>, r: int, s: int) returns (tries: nat)
    requires Signable(sc, mac, msgHash) && SignRun(sc, mac, msgHash, privKey, seed, ks, r, s)
    ensures SignFrom(sc, mac, msgHash, privKey, seed, tries) == (Ok((r, s)), seed + |ks|)
    decreases |ks|
  {
    hide SignFrom, Secret, TrySign, Makes, Rejected, NonceWithin, HmacData, Ready;
    var k := ks[0];
    assert IsNonce(sc, mac, HmacData(msgHash, privKey, seed + 0), k);
    var n: nat :| NonceWithin(sc, mac, HmacData(msgHash, privKey, seed), n, k);
    if |ks| == 1 {
      tries := n;
    } else {
      RunAfter(sc, mac, msgHash, privKey, seed, ks, r, s);
      var more := RunReturned(sc, mac, msgHash, privKey, seed + 1, ks[1..], r, s);
      tries := if n > more + 1 then n else more + 1;
      SignStable(sc, mac, msgHash, privKey, seed + 1, more, tries - 1);
    }
    SecretIsNonce(sc, mac, msgHash, privKey, seed, n, k);
    SecretStable(sc, mac, msgHash, privKey, seed, n, tries);
    TrySignMeans(sc, msgHash, privKey, k);
    SignStep(sc, mac, msgHash, privKey, seed, tries);
  }

  lemma RunAfter(sc: StarkCurve, mac: Mac, msgHash: int, privKey: int, seed: int, ks: seq<nat>, r: int, s: int)
    requires SignRun(sc, mac, msgHash, privKey, seed, ks, r, s) && |ks| > 1
    ensures SignRun(sc, mac, msgHash, privKey, seed + 1, ks[1..], r, s) && Rejected(sc, msgHash, privKey, ks[0])
  {
    hide IsNonce, Rejected, Makes, HmacData;
    forall i | 0 <= i < |ks| - 1
      ensures IsNonce(sc, mac, HmacData(msgHash, privKey, seed + 1 + i), ks[1..][i])
    {
      assert ks[1..][i] == ks[i + 1] && seed + 1 + i == seed + (i + 1);
    }
  }

  lemma SecretStable(sc: StarkCurve, mac: Mac, msgHash: int, privKey: int, seed: int, tries: nat, more: nat)
    requires msgHash >= 0 && tries <= more && Secret(sc, mac, msgHash, privKey, seed, tries).Some?
    ensures Secret(sc, mac, msgHash, privKey, seed, more) == Secret(sc, mac, msgHash, privKey, seed, tries)
    ensures tries > 0
  {
    hide Preimage, Seeded;
    var (k, v) := Seeded(mac, Preimage(sc, msgHash, privKey, seed));
    CandidateStable(sc, mac, k, v, tries, more);
  }

  /** Sign in full: with some patience it returns (r, s) and leaves the seed `after`, exactly
      where the nonces of the seeds from `seed` to after - 1, each the RFC 6979 nonce of key,
      message and seed, were rejected but for the last, which makes (r, s). */
  lemma SignIff(sc: StarkCurve, mac: Mac, msgHash: int, privKey: int, seed: int, r: int, s: int, after: int)
    requires Signable(sc, mac, msgHash)
    ensures (exists tries: nat :: SignFrom(sc, mac, msgHash, privKey, seed, tries) == (Ok((r, s)), after))
       <==> Signed(sc, mac, msgHash, privKey, seed, r, s, after)
  {
    hide SignFrom, SignRun, Ready;
    if tries: nat :| SignFrom(sc, mac, msgHash, privKey, seed, tries) == (Ok((r, s)), after) {
      var ks := SignatureRun(sc, mac, msgHash, privKey, seed, tries);
    }
    if ks :| SignRun(sc, mac, msgHash, privKey, seed, ks, r, s) && after == seed + |ks| {
      var tries := RunReturned(sc, mac, msgHash, privKey, seed, ks, r, s);
    }
  }
}
