/** The Pedersen hash of curve/curve.go and the list hashes built on it. */
module Pedersen {
  import opened Results
  import opened NumberTheory
  import opened Powers
  import opened Curve
  import opened ScalarMult

  // ---------- PedersenHash ----------

  /** 252 rounds per element, from table entry idx on: the remainder and the partial sum. */
  function Rounds(sc: StarkCurve, idx: nat, steps: nat, x: int, ptx: int, pty: int): Result<(int, int, int)>
    requires idx + steps <= |sc.ConstantPoints|
    decreases steps, x
  {
    if steps == 0 then Ok((x, ptx, pty))
    else
      var (xin, yin) := sc.ConstantPoints[idx];
      if xin == ptx then Err("constant point duplication")
      else
        var (sx, sy) := if x % 2 == 1 then sc.Add(ptx, pty, xin, yin) else (ptx, pty);
        Rounds(sc, idx + 1, steps - 1, x / 2, sx, sy)
  }

  /** The table has its two leading entries and 252 for each element. */
  predicate TableCovers(sc: StarkCurve, n: nat) {
    2 + 252 * n <= |sc.ConstantPoints|
  }

  /** Either no table was loaded, which is reported, or it is long enough for n elements. */
  predicate TableUsable(sc: StarkCurve, n: nat) {
    sc.ConstantPoints != [] ==> TableCovers(sc, n)
  }

  /** The elements from number i on. The range test rejects x >= P only: a negative x passes,
      and its bits are those of two's complement. */
  function Elements(sc: StarkCurve, i: nat, elems: seq<int>, ptx: int, pty: int): Result<(int, int)>
    requires i <= |elems| && TableCovers(sc, |elems|)
    decreases |elems| - i
  {
    if i == |elems| then Ok((ptx, pty))
    else if elems[i] >= 0 && elems[i] >= sc.P then Err("invalid x")
    else
      match Rounds(sc, 2 + 252 * i, 252, elems[i], ptx, pty)
      case Err(e) => Err(e)
      case Ok((_, sx, sy)) => Elements(sc, i + 1, elems, sx, sy)
  }

  function Pedersen(sc: StarkCurve, elems: seq<int>): Result<int>
    requires TableUsable(sc, |elems|)
  {
    if sc.ConstantPoints == [] then Err("must initiate precomputed constant points")
    else
      match Elements(sc, 0, elems, sc.Gx, sc.Gy)
      case Err(e) => Err(e)
      case Ok((x, _)) => Ok(x)
  }

  method PedersenHash(sc: StarkCurve, elems: seq<int>) returns (hash: Result<int>)
    requires TableUsable(sc, |elems|)
    ensures hash == Pedersen(sc, elems)
  {
    hide StarkCurve.Add;
    if |sc.ConstantPoints| == 0 {
      return Err("must initiate precomputed constant points");
    }
    var ptx, pty := sc.Gx, sc.Gy;
    for i := 0 to |elems|
      invariant Elements(sc, i, elems, ptx, pty) == Elements(sc, 0, elems, sc.Gx, sc.Gy)
    {
      var x := elems[i];
      if x >= 0 && x >= sc.P {
        return Err("invalid x");
      }
      ghost var all := Rounds(sc, 2 + 252 * i, 252, elems[i], ptx, pty);
      for j := 0 to 252
        invariant Rounds(sc, 2 + 252 * i + j, 252 - j, x, ptx, pty) == all
      {
        var idx := 2 + i * 252 + j;
        var (xin, yin) := sc.ConstantPoints[idx];
        if xin == ptx {
          return Err("constant point duplication");
        }
        if x % 2 == 1 {
          var s := sc.Add(ptx, pty, xin, yin);
          ptx, pty := s.0, s.1;
        }
        x := x / 2;
      }
    }
    return Ok(ptx);
  }

  // ---------- as a sum of points ----------

  function Entry(sc: StarkCurve, i: nat): Point
    requires i < |sc.ConstantPoints|
  {
    Affine(sc.ConstantPoints[i].0, sc.ConstantPoints[i].1)
  }

  ghost predicate TableOnCurve(sc: StarkCurve) {
    forall i :: 0 <= i < |sc.ConstantPoints| ==> sc.OnCurve(Entry(sc, i))
  }

  /** acc plus the table entries whose bit of x is set. */
  function BitSum(sc: StarkCurve, idx: nat, steps: nat, x: int, acc: Point): Point
    requires idx + steps <= |sc.ConstantPoints|
    decreases steps, x
  {
    if steps == 0 then acc
    else BitSum(sc, idx + 1, steps - 1, x / 2, if x % 2 == 1 then sc.Plus(acc, Entry(sc, idx)) else acc)
  }

  function ElementSum(sc: StarkCurve, i: nat, elems: seq<int>, acc: Point): Point
    requires i <= |elems| && TableCovers(sc, |elems|)
    decreases |elems| - i
  {
    if i == |elems| then acc
    else ElementSum(sc, i + 1, elems, BitSum(sc, 2 + 252 * i, 252, elems[i], acc))
  }

  /** The duplication test keeps every Add defined, so rounds that succeed are point sums. */
  lemma {:induction false} RoundsAreSum(sc: StarkCurve, idx: nat, steps: nat, x: int, p: Point)
    requires idx + steps <= |sc.ConstantPoints|
    requires sc.Field() && TableOnCurve(sc) && p.Affine? && sc.OnCurve(p)
    requires Rounds(sc, idx, steps, x, p.x, p.y).Ok?
    ensures var r := Rounds(sc, idx, steps, x, p.x, p.y).value;
            r.0 == x / Pow2(steps) && BitSum(sc, idx, steps, x, p) == Affine(r.1, r.2)
            && sc.OnCurve(Affine(r.1, r.2))
    decreases steps
  {
    hide StarkCurve.Add, StarkCurve.IsOnCurve, IsPrime, Pow2;
    if steps > 0 {
      var q := Entry(sc, idx);
      var s := if x % 2 == 1 then sc.Plus(p, q) else p;
      if x % 2 == 1 {
        AddIsPlus(sc, p, q);
        PlusClosed(sc, p, q);
      }
      RoundsAreSum(sc, idx + 1, steps - 1, x / 2, s);
      SplitBits(x, steps);
    } else {
      Pow2Zero();
    }
  }

  lemma {:induction false} ElementsAreSum(sc: StarkCurve, i: nat, elems: seq<int>, p: Point)
    requires i <= |elems| && TableCovers(sc, |elems|)
    requires sc.Field() && TableOnCurve(sc) && p.Affine? && sc.OnCurve(p)
    requires Elements(sc, i, elems, p.x, p.y).Ok?
    ensures var r := Elements(sc, i, elems, p.x, p.y).value;
            ElementSum(sc, i, elems, p) == Affine(r.0, r.1) && sc.OnCurve(Affine(r.0, r.1))
    decreases |elems| - i
  {
    hide Rounds, BitSum, StarkCurve.IsOnCurve, IsPrime;
    if i < |elems| {
      var r := Rounds(sc, 2 + 252 * i, 252, elems[i], p.x, p.y).value;
      RoundsAreSum(sc, 2 + 252 * i, 252, elems[i], p);
      ElementsAreSum(sc, i + 1, elems, Affine(r.1, r.2));
    }
  }

  /** PedersenHash, when it succeeds, is the x coordinate of the shift point plus the table
      entries the bits select. */
  lemma PedersenIsSum(sc: StarkCurve, elems: seq<int>)
    requires TableCovers(sc, |elems|) && sc.Field() && TableOnCurve(sc) && sc.OnCurve(sc.Shift())
    requires Pedersen(sc, elems).Ok?
    ensures var s := ElementSum(sc, 0, elems, sc.Shift());
            s.Affine? && Pedersen(sc, elems).value == s.x
  {
    ElementsAreSum(sc, 0, elems, sc.Shift());
  }

  /** No point of the curve has x = 0. */
  ghost predicate NoZeroX(sc: StarkCurve) {
    forall y :: !sc.IsOnCurve(0, y)
  }

  /** The shift and the loaded table lie on the curve. */
  ghost predicate TableReady(sc: StarkCurve) {
    sc.Field() && sc.OnCurve(sc.Shift()) && TableOnCurve(sc)
  }

  /** And the curve has no point at x = 0. */
  ghost predicate HashReady(sc: StarkCurve) {
    TableReady(sc) && NoZeroX(sc)
  }

  /** There PedersenHash never gives 0, the padding value of the Merkle tree: its results are x
      coordinates of points. */
  lemma HashNeverZero(sc: StarkCurve, elems: seq<int>)
    requires HashReady(sc) && TableUsable(sc, |elems|)
    ensures Pedersen(sc, elems) != Ok(0)
  {
    hide StarkCurve.IsOnCurve, IsPrime, Elements, ElementSum;
    if Pedersen(sc, elems) == Ok(0) {
      ElementsAreSum(sc, 0, elems, sc.Shift());
    }
  }

  // ---------- when there is a hash ----------

  /** s is a point, other than e and the point opposite to e: Add of the two is defined. */
  predicate Apart(sc: StarkCurve, s: Point, e: Point) {
    s.Affine? && s != e && s != sc.Neg(e)
  }

  lemma ApartIsX(sc: StarkCurve, s: Point, e: Point)
    requires sc.Field() && s.Affine? && e.Affine? && sc.OnCurve(s) && sc.OnCurve(e)
    ensures Apart(sc, s, e) <==> s.x != e.x
  {
    if s.x == e.x {
      SameX(sc, e, s);
    }
  }

  /** The sum of acc and what the first j bits select keeps apart from entry j. */
  predicate ApartAt(sc: StarkCurve, idx: nat, j: nat, x: int, acc: Point)
    requires idx + j < |sc.ConstantPoints|
  {
    Apart(sc, BitSum(sc, idx, j, x, acc), Entry(sc, idx + j))
  }

  predicate NoMeeting(sc: StarkCurve, idx: nat, steps: nat, x: int, acc: Point)
    requires idx + steps <= |sc.ConstantPoints|
  {
    forall j :: 0 <= j < steps ==> ApartAt(sc, idx, j, x, acc)
  }

  lemma NoMeetingStep(sc: StarkCurve, idx: nat, steps: nat, x: int, acc: Point)
    requires idx + steps <= |sc.ConstantPoints| && steps > 0
    ensures var next := if x % 2 == 1 then sc.Plus(acc, Entry(sc, idx)) else acc;
            NoMeeting(sc, idx, steps, x, acc)
            <==> Apart(sc, acc, Entry(sc, idx)) && NoMeeting(sc, idx + 1, steps - 1, x / 2, next)
  {
    hide StarkCurve.Plus, Apart;
    var q, half := idx + 1, x / 2;
    var next := if x % 2 == 1 then sc.Plus(acc, Entry(sc, idx)) else acc;
    assert ApartAt(sc, idx, 0, x, acc) == Apart(sc, acc, Entry(sc, idx));
    forall j | 0 <= j < steps - 1
      ensures ApartAt(sc, q, j, half, next) == ApartAt(sc, idx, j + 1, x, acc)
    {
    }
    if NoMeeting(sc, idx, steps, x, acc) {
      forall j | 0 <= j < steps - 1
        ensures ApartAt(sc, q, j, half, next)
      {
        assert ApartAt(sc, idx, j + 1, x, acc);
      }
    }
    if Apart(sc, acc, Entry(sc, idx)) && NoMeeting(sc, q, steps - 1, half, next) {
      forall j | 0 <= j < steps
        ensures ApartAt(sc, idx, j, x, acc)
      {
        if j > 0 {
          assert ApartAt(sc, q, j - 1, half, next);
        }
      }
    }
  }

  /** The rounds succeed exactly where that holds, and report the duplication everywhere else. */
  lemma {:induction false} RoundsOkIff(sc: StarkCurve, idx: nat, steps: nat, x: int, p: Point)
    requires idx + steps <= |sc.ConstantPoints|
    requires sc.Field() && TableOnCurve(sc) && p.Affine? && sc.OnCurve(p)
    ensures Rounds(sc, idx, steps, x, p.x, p.y).Ok? <==> NoMeeting(sc, idx, steps, x, p)
    ensures Rounds(sc, idx, steps, x, p.x, p.y).Ok? || Rounds(sc, idx, steps, x, p.x, p.y) == Err("constant point duplication")
    decreases steps
  {
    hide StarkCurve.Add, StarkCurve.Plus, StarkCurve.IsOnCurve, StarkCurve.Neg, IsPrime, Apart, BitSum;
    if steps > 0 {
      var q := Entry(sc, idx);
      ApartIsX(sc, p, q);
      NoMeetingStep(sc, idx, steps, x, p);
      hide NoMeeting;
      if p.x != q.x {
        var s := if x % 2 == 1 then sc.Plus(p, q) else p;
        if x % 2 == 1 {
          AddIsPlus(sc, p, q);
          PlusClosed(sc, p, q);
        }
        RoundsOkIff(sc, idx + 1, steps - 1, x / 2, s);
      }
    }
  }

  /** No round of element k meets its entry, or the point opposite to it, with the shift plus
      what the elements before k and the bits before that round select. */
  predicate Clear(sc: StarkCurve, elems: seq<int>, k: nat)
    requires k < |elems| && TableCovers(sc, |elems|)
  {
    NoMeeting(sc, 2 + 252 * k, 252, elems[k], ElementSum(sc, 0, elems[..k], sc.Shift()))
  }

  lemma {:induction false} ElementsPrefix(sc: StarkCurve, i: nat, elems: seq<int>, k: nat, ptx: int, pty: int)
    requires i <= k < |elems| && TableCovers(sc, |elems|)
    ensures Elements(sc, i, elems[..k + 1], ptx, pty)
         == match Elements(sc, i, elems[..k], ptx, pty)
            case Err(e) => Err(e)
            case Ok((x, y)) => Elements(sc, k, elems[..k + 1], x, y)
    decreases k - i
  {
    hide Rounds;
    if i < k {
      var r := Rounds(sc, 2 + 252 * i, 252, elems[i], ptx, pty);
      assert elems[..k][i] == elems[..k + 1][i] == elems[i];
      if elems[i] < sc.P && r.Ok? {
        ElementsPrefix(sc, i + 1, elems, k, r.value.1, r.value.2);
      }
    }
  }

  /** One element more. */
  lemma ElementStep(sc: StarkCurve, elems: seq<int>, k: nat)
    requires TableReady(sc) && TableCovers(sc, |elems|) && k < |elems|
    requires Pedersen(sc, elems[..k]).Ok?
    ensures elems[k] >= sc.P ==> Pedersen(sc, elems[..k + 1]) == Err("invalid x")
    ensures elems[k] < sc.P && Clear(sc, elems, k) ==> Pedersen(sc, elems[..k + 1]).Ok?
    ensures elems[k] < sc.P && !Clear(sc, elems, k) ==> Pedersen(sc, elems[..k + 1]) == Err("constant point duplication")
  {
    hide Rounds, BitSum, ElementSum, NoMeeting, StarkCurve.IsOnCurve, IsPrime, StarkCurve.Neg, StarkCurve.Plus, Apart;
    var front := elems[..k];
    ElementsPrefix(sc, 0, elems, k, sc.Gx, sc.Gy);
    ElementsAreSum(sc, 0, front, sc.Shift());
    var (x, y) := Elements(sc, 0, front, sc.Gx, sc.Gy).value;
    RoundsOkIff(sc, 2 + 252 * k, 252, elems[k], Affine(x, y));
    LastElement(sc, elems[..k + 1], k, x, y);
  }

  lemma LastElement(sc: StarkCurve, elems: seq<int>, k: nat, x: int, y: int)
    requires |elems| == k + 1 && TableCovers(sc, |elems|)
    ensures var r := Elements(sc, k, elems, x, y);
            if elems[k] >= 0 && elems[k] >= sc.P then r == Err("invalid x")
            else
              match Rounds(sc, 2 + 252 * k, 252, elems[k], x, y)
              case Err(e) => r == Err(e)
              case Ok((_, sx, sy)) => r == Ok((sx, sy))
  {
    hide Rounds;
  }

  /** An error of a prefix is that of the whole list. */
  lemma {:induction false} PrefixError(sc: StarkCurve, elems: seq<int>, k: nat)
    requires TableCovers(sc, |elems|) && k <= |elems| && Pedersen(sc, elems[..k]).Err?
    ensures Pedersen(sc, elems) == Pedersen(sc, elems[..k])
    decreases |elems| - k
  {
    hide Elements;
    if k == |elems| {
      assert elems[..k] == elems;
    } else {
      ElementsPrefix(sc, 0, elems, k, sc.Gx, sc.Gy);
      PrefixError(sc, elems, k + 1);
    }
  }

  /** What PedersenHash returns, in the group: a hash exactly where every element is below P and
      no round clashes, and else the error of the first element of which that fails. */
  lemma {:induction false} PedersenOkIff(sc: StarkCurve, elems: seq<int>)
    requires TableReady(sc) && TableCovers(sc, |elems|)
    ensures Pedersen(sc, elems).Ok? <==> forall k :: 0 <= k < |elems| ==> elems[k] < sc.P && Clear(sc, elems, k)
    ensures forall k :: 0 <= k < |elems| && Pedersen(sc, elems[..k]).Ok? ==>
              (elems[k] >= sc.P ==> Pedersen(sc, elems) == Err("invalid x")) &&
              (elems[k] < sc.P && !Clear(sc, elems, k) ==> Pedersen(sc, elems) == Err("constant point duplication"))
  {
    hide Pedersen, TableReady, Clear;
    forall k | 0 <= k < |elems| && Pedersen(sc, elems[..k]).Ok?
      ensures (elems[k] >= sc.P ==> Pedersen(sc, elems) == Err("invalid x")) &&
              (elems[k] < sc.P && !Clear(sc, elems, k) ==> Pedersen(sc, elems) == Err("constant point duplication"))
    {
      ElementStep(sc, elems, k);
      if elems[k] >= sc.P || !Clear(sc, elems, k) {
        PrefixError(sc, elems, k + 1);
      }
    }
    OkUpTo(sc, elems, |elems|);
    assert elems[..|elems|] == elems;
  }

  lemma {:induction false} OkUpTo(sc: StarkCurve, elems: seq<int>, n: nat)
    requires TableReady(sc) && TableCovers(sc, |elems|) && n <= |elems|
    ensures Pedersen(sc, elems[..n]).Ok? <==> forall k :: 0 <= k < n ==> elems[k] < sc.P && Clear(sc, elems, k)
    decreases n
  {
    hide Pedersen, TableReady, Clear;
    if n == 0 {
      NothingHashed(sc);
      assert elems[..0] == [];
    } else {
      OkUpTo(sc, elems, n - 1);
      if Pedersen(sc, elems[..n - 1]).Ok? {
        ElementStep(sc, elems, n - 1);
      } else {
        assert elems[..n][..n - 1] == elems[..n - 1];
        PrefixError(sc, elems[..n], n - 1);
      }
    }
  }

  lemma NothingHashed(sc: StarkCurve)
    requires TableCovers(sc, 0)
    ensures Pedersen(sc, []) == Ok(sc.Gx)
  {}

  /** Without a table, and only then, the hash asks for one. */
  lemma NoTableIff(sc: StarkCurve, elems: seq<int>)
    requires TableUsable(sc, |elems|)
    ensures Pedersen(sc, elems) == Err("must initiate precomputed constant points") <==> sc.ConstantPoints == []
  {
    if sc.ConstantPoints != [] {
      ElementsErrors(sc, 0, elems, sc.Gx, sc.Gy);
    }
  }

  lemma {:induction false} ElementsErrors(sc: StarkCurve, i: nat, elems: seq<int>, ptx: int, pty: int)
    requires i <= |elems| && TableCovers(sc, |elems|)
    ensures Elements(sc, i, elems, ptx, pty) != Err("must initiate precomputed constant points")
    decreases |elems| - i
  {
    hide Rounds;
    if i < |elems| {
      RoundsErrors(sc, 2 + 252 * i, 252, elems[i], ptx, pty);
      var r := Rounds(sc, 2 + 252 * i, 252, elems[i], ptx, pty);
      if r.Ok? {
        ElementsErrors(sc, i + 1, elems, r.value.1, r.value.2);
      }
    }
  }

  // ---------- as scalar multiples ----------

  /** Entries idx to idx + n - 1 double from one to the next. */
  ghost predicate Doubling(sc: StarkCurve, idx: nat, n: nat) {
    idx + n <= |sc.ConstantPoints| &&
    forall j :: idx < j < idx + n ==> Entry(sc, j) == sc.Plus(Entry(sc, j - 1), Entry(sc, j - 1))
  }

  /** Along such a window the bits of x weigh as in binary. */
  lemma {:induction false} WindowSum(sc: StarkCurve, idx: nat, n: nat, x: int, acc: Point)
    requires Group(sc) && TableOnCurve(sc) && sc.OnCurve(acc) && n > 0 && Doubling(sc, idx, n)
    ensures BitSum(sc, idx, n, x, acc) == sc.Plus(acc, Times(sc, x % Pow2(n), Entry(sc, idx)))
    decreases n
  {
    hide StarkCurve.Plus, StarkCurve.IsOnCurve, IsPrime, Times, Pow2, StarkCurve.Associative;
    var p, b := Entry(sc, idx), x % 2;
    var acc' := if b == 1 then sc.Plus(acc, p) else acc;
    TimesTwice(sc, p);
    TimesZero(sc, p);
    PlusInfinity(sc, acc);
    assert acc' == sc.Plus(acc, Times(sc, b, p));
    TimesClosed(sc, b, p);
    PlusClosed(sc, acc, Times(sc, b, p));
    SplitBits(x, n);
    if n == 1 {
      Pow2Zero();
      OneBit(sc, idx, x, acc);
    } else {
      WindowSum(sc, idx + 1, n - 1, x / 2, acc');
      assert Entry(sc, idx + 1) == sc.Plus(p, p);
      RoundSum(sc, acc, b, x / 2 % Pow2(n - 1), p);
    }
  }

  lemma OneBit(sc: StarkCurve, idx: nat, x: int, acc: Point)
    requires idx < |sc.ConstantPoints|
    ensures BitSum(sc, idx, 1, x, acc) == if x % 2 == 1 then sc.Plus(acc, Entry(sc, idx)) else acc
    ensures x / 2 % 1 == 0
  {}

  lemma {:induction false} BitSumSplit(sc: StarkCurve, idx: nat, n: nat, k: nat, x: int, acc: Point)
    requires idx + n + k <= |sc.ConstantPoints|
    ensures BitSum(sc, idx, n + k, x, acc) == BitSum(sc, idx + n, k, x / Pow2(n), BitSum(sc, idx, n, x, acc))
    decreases n
  {
    hide StarkCurve.Plus, Pow2;
    if n == 0 {
      Pow2Zero();
    } else {
      SplitBits(x, n);
      BitSumSplit(sc, idx + 1, n - 1, k, x / 2, if x % 2 == 1 then sc.Plus(acc, Entry(sc, idx)) else acc);
    }
  }

  /** The table's layout: for each element 248 doublings of one point and 4 of another. */
  ghost predicate TableDoubles(sc: StarkCurve, n: nat) {
    TableCovers(sc, n) &&
    forall i :: 0 <= i < n ==> Doubling(sc, 2 + 252 * i, 248) && Doubling(sc, 2 + 252 * i + 248, 4)
  }

  /** low 248 bits times the first point of element i's block, 4 high bits times the second. */
  function BlockSum(sc: StarkCurve, i: nat, x: int): Point
    requires TableCovers(sc, i + 1)
  {
    sc.Plus(Times(sc, x % Pow2(248), Entry(sc, 2 + 252 * i)),
            Times(sc, x / Pow2(248) % Pow2(4), Entry(sc, 2 + 252 * i + 248)))
  }

  lemma BlockCorrect(sc: StarkCurve, n: nat, i: nat, x: int, acc: Point)
    requires Group(sc) && TableOnCurve(sc) && sc.OnCurve(acc) && i < n && TableDoubles(sc, n)
    ensures BitSum(sc, 2 + 252 * i, 252, x, acc) == sc.Plus(acc, BlockSum(sc, i, x))
    ensures sc.OnCurve(sc.Plus(acc, BlockSum(sc, i, x)))
  {
    hide StarkCurve.Plus, StarkCurve.IsOnCurve, StarkCurve.Associative, BitSum, IsPrime, Times, Pow2, Doubling;
    var a, b := Entry(sc, 2 + 252 * i), Entry(sc, 2 + 252 * i + 248);
    var u, v := Times(sc, x % Pow2(248), a), Times(sc, x / Pow2(248) % Pow2(4), b);
    BitSumSplit(sc, 2 + 252 * i, 248, 4, x, acc);
    WindowSum(sc, 2 + 252 * i, 248, x, acc);
    TimesClosed(sc, x % Pow2(248), a);
    TimesClosed(sc, x / Pow2(248) % Pow2(4), b);
    PlusClosed(sc, acc, u);
    WindowSum(sc, 2 + 252 * i + 248, 4, x / Pow2(248), sc.Plus(acc, u));
    PlusAssociates(sc, acc, u, v);
  }

  /** Every bit of an element of the field is consumed; the high window holds its top 4 bits. */
  lemma BitsConsumed(x: int)
    ensures x / Pow2(252) == 0 <==> 0 <= x < Pow2(252)
    ensures 0 <= x < Pow2(252) ==> x / Pow2(248) % Pow2(4) == x / Pow2(248)
  {
    hide Pow2;
    Pow2Sum(248, 4);
    assert x == Pow2(252) * (x / Pow2(252)) + x % Pow2(252);
    if 0 <= x < Pow2(252) {
      DivModUnique(x, Pow2(252), 0, x);
      ShiftedBelow(x, Pow2(248), Pow2(4));
      DivModUnique(x / Pow2(248), Pow2(4), 0, x / Pow2(248));
    }
  }

  lemma ShiftedBelow(x: int, w: int, k: int)
    requires w >= 1 && 0 <= x < w * k
    ensures 0 <= x / w < k
  {
    QuotientBounds(x, w);
    if x / w >= k {
      MulMonotone(w, k, x / w);
    }
  }

  lemma TwoElements(sc: StarkCurve, a: int, b: int, acc: Point)
    requires TableCovers(sc, 2)
    ensures ElementSum(sc, 0, [a, b], acc) == BitSum(sc, 254, 252, b, BitSum(sc, 2, 252, a, acc))
  {
    hide BitSum;
    var s := BitSum(sc, 2, 252, a, acc);
    var t := BitSum(sc, 254, 252, b, s);
    assert ElementSum(sc, 2, [a, b], t) == t;
    assert ElementSum(sc, 1, [a, b], s) == t;
  }

  /** The published form of the hash: the x coordinate of
      shift + a_low*P1 + a_high*P2 + b_low*P3 + b_high*P4. */
  lemma PedersenOfPair(sc: StarkCurve, a: int, b: int)
    requires Group(sc) && TableOnCurve(sc) && TableDoubles(sc, 2) && sc.OnCurve(sc.Shift())
    requires Pedersen(sc, [a, b]).Ok?
    ensures var s := sc.Plus(sc.Plus(sc.Shift(), BlockSum(sc, 0, a)), BlockSum(sc, 1, b));
            s.Affine? && Pedersen(sc, [a, b]).value == s.x
  {
    hide StarkCurve.Plus, StarkCurve.IsOnCurve, BlockSum, BitSum, ElementSum, Pedersen, IsPrime;
    PedersenIsSum(sc, [a, b]);
    TwoElements(sc, a, b, sc.Shift());
    BlockCorrect(sc, 2, 0, a, sc.Shift());
    BlockCorrect(sc, 2, 1, b, sc.Plus(sc.Shift(), BlockSum(sc, 0, a)));
  }

  // ---------- the missing lower bound ----------

  /** 252 rounds see x modulo 2^252 only. */
  lemma {:induction false} RoundsModulo(sc: StarkCurve, idx: nat, steps: nat, x: int, x': int, ptx: int, pty: int)
    requires idx + steps <= |sc.ConstantPoints| && x % Pow2(steps) == x' % Pow2(steps)
    ensures var r, r' := Rounds(sc, idx, steps, x, ptx, pty), Rounds(sc, idx, steps, x', ptx, pty);
            r.Ok? == r'.Ok? && (r.Ok? ==> r.value.1 == r'.value.1 && r.value.2 == r'.value.2)
            && (r.Err? ==> r == r')
    decreases steps
  {
    if steps > 0 {
      SplitBits(x, steps);
      SplitBits(x', steps);
      var (xin, yin) := sc.ConstantPoints[idx];
      var (sx, sy) := if x % 2 == 1 then sc.Add(ptx, pty, xin, yin) else (ptx, pty);
      RoundsModulo(sc, idx + 1, steps - 1, x / 2, x' / 2, sx, sy);
    }
  }

  /** Lists whose elements pass the range test and agree, one by one, modulo 2^252. */
  predicate Twins(sc: StarkCurve, elems: seq<int>, others: seq<int>) {
    |elems| == |others| &&
    forall i :: 0 <= i < |elems| ==>
      elems[i] < sc.P && others[i] < sc.P && elems[i] % Pow2(252) == others[i] % Pow2(252)
  }

  lemma {:induction false} TwinElements(sc: StarkCurve, i: nat, elems: seq<int>, others: seq<int>, ptx: int, pty: int)
    requires i <= |elems| && TableCovers(sc, |elems|) && Twins(sc, elems, others)
    ensures Elements(sc, i, elems, ptx, pty) == Elements(sc, i, others, ptx, pty)
    decreases |elems| - i
  {
    hide Pow2, Rounds;
    if i < |elems| {
      RoundsModulo(sc, 2 + 252 * i, 252, elems[i], others[i], ptx, pty);
      match Rounds(sc, 2 + 252 * i, 252, elems[i], ptx, pty)
      case Err(_) =>
      case Ok((_, sx, sy)) => TwinElements(sc, i + 1, elems, others, sx, sy);
    }
  }

  /** The hash sees each element modulo 2^252 only, and the range test does not tell apart
      what is equal there: below P, congruent lists hash alike, errors included. */
  lemma TwinsHashAlike(sc: StarkCurve, elems: seq<int>, others: seq<int>)
    requires TableUsable(sc, |elems|) && Twins(sc, elems, others)
    ensures Pedersen(sc, elems) == Pedersen(sc, others)
  {
    hide Elements, Twins;
    if sc.ConstantPoints != [] {
      TwinElements(sc, 0, elems, others, sc.Gx, sc.Gy);
    }
  }

  /** Because negative elements are let through, a and a - 2^252 hash alike, as either element. */
  lemma NegativeTwin(sc: StarkCurve, a: int, b: int)
    requires TableUsable(sc, 2) && a < sc.P && b < sc.P
    ensures Pedersen(sc, [a, b]) == Pedersen(sc, [a - Pow2(252), b])
    ensures Pedersen(sc, [a, b]) == Pedersen(sc, [a, b - Pow2(252)])
  {
    hide Pow2, Pedersen;
    SameModulo(a);
    SameModulo(b);
    TwinsHashAlike(sc, [a, b], [a - Pow2(252), b]);
    TwinsHashAlike(sc, [a, b], [a, b - Pow2(252)]);
  }

  lemma SameModulo(a: int)
    ensures (a - Pow2(252)) % Pow2(252) == a % Pow2(252)
  {
    hide Pow2;
    ZeroMultiple(-1, Pow2(252));
    ModEqual(a - Pow2(252), a, Pow2(252));
  }

  /** The range error is reported exactly where some element is P or more and those before it
      hash without error. */
  lemma RangeErrorIff(sc: StarkCurve, elems: seq<int>)
    requires TableCovers(sc, |elems|)
    ensures Pedersen(sc, elems) == Err("invalid x")
       <==> exists k :: 0 <= k < |elems| && elems[k] >= sc.P && Pedersen(sc, elems[..k]).Ok?
  {
    hide Elements;
    ElementsRangeError(sc, 0, elems, sc.Gx, sc.Gy);
  }

  lemma {:induction false} ElementsRangeError(sc: StarkCurve, i: nat, elems: seq<int>, ptx: int, pty: int)
    requires i <= |elems| && TableCovers(sc, |elems|)
    ensures Elements(sc, i, elems, ptx, pty) == Err("invalid x")
       <==> exists k :: i <= k < |elems| && elems[k] >= sc.P && Elements(sc, i, elems[..k], ptx, pty).Ok?
    decreases |elems| - i
  {
    hide Rounds;
    if i < |elems| {
      if elems[i] >= sc.P {
        assert Elements(sc, i, elems[..i], ptx, pty).Ok?;
      } else {
        RoundsErrors(sc, 2 + 252 * i, 252, elems[i], ptx, pty);
        var first := Rounds(sc, 2 + 252 * i, 252, elems[i], ptx, pty);
        forall k | i < k < |elems|
          ensures Elements(sc, i, elems[..k], ptx, pty)
               == if first.Err? then Err(first.error) else Elements(sc, i + 1, elems[..k], first.value.1, first.value.2)
        {
          assert elems[..k][i] == elems[i];
        }
        if first.Ok? {
          ElementsRangeError(sc, i + 1, elems, first.value.1, first.value.2);
        }
      }
    }
  }

  /** So no element of P or more is ever hashed. */
  lemma {:induction false} HashedBelowP(sc: StarkCurve, i: nat, elems: seq<int>, ptx: int, pty: int, k: nat)
    requires i <= k < |elems| && TableCovers(sc, |elems|) && Elements(sc, i, elems, ptx, pty).Ok?
    ensures elems[k] < sc.P
    decreases |elems| - i
  {
    hide Rounds;
    if i < k {
      var first := Rounds(sc, 2 + 252 * i, 252, elems[i], ptx, pty).value;
      HashedBelowP(sc, i + 1, elems, first.1, first.2, k);
    }
  }

  lemma {:induction false} RoundsErrors(sc: StarkCurve, idx: nat, steps: nat, x: int, ptx: int, pty: int)
    requires idx + steps <= |sc.ConstantPoints|
    ensures Rounds(sc, idx, steps, x, ptx, pty).Ok? || Rounds(sc, idx, steps, x, ptx, pty) == Err("constant point duplication")
    decreases steps
  {
    if steps > 0 {
      var (xin, yin) := sc.ConstantPoints[idx];
      var (sx, sy) := if x % 2 == 1 then sc.Add(ptx, pty, xin, yin) else (ptx, pty);
      RoundsErrors(sc, idx + 1, steps - 1, x / 2, sx, sy);
    }
  }

  // ---------- hashes of lists ----------

  /** A hash of pairs folded over a list, from 0. */
  function Chain(f: (int, int) -> Result<int>, elems: seq<int>): Result<int> {
    if |elems| == 0 then Ok(0)
    else
      match Chain(f, elems[..|elems| - 1])
      case Err(e) => Err(e)
      case Ok(hash) => f(hash, elems[|elems| - 1])
  }

  /** PedersenHash on two elements. */
  function PairHash(sc: StarkCurve): (int, int) -> Result<int>
    requires TableUsable(sc, 2)
  {
    (x, y) => Pedersen(sc, [x, y])
  }

  /** hs are the running hashes: 0, then each the PedersenHash of the one before and the next
      element, in this order. */
  predicate Folds(sc: StarkCurve, elems: seq<int>, hs: seq<int>)
    requires TableUsable(sc, 2)
  {
    |hs| == |elems| + 1 && hs[0] == 0 &&
    forall i :: 0 <= i < |elems| ==> Pedersen(sc, [hs[i], elems[i]]) == Ok(hs[i + 1])
  }

  /** The last of the running hashes, or the error of the first pair that fails. */
  ghost predicate FoldResult(sc: StarkCurve, elems: seq<int>, r: Result<int>)
    requires TableUsable(sc, 2)
  {
    match r
    case Ok(h) => exists hs :: Folds(sc, elems, hs) && h == hs[|elems|]
    case Err(e) => exists n, hs :: 0 <= n < |elems| && Folds(sc, elems[..n], hs) && Pedersen(sc, [hs[n], elems[n]]) == Err(e)
  }

  lemma {:induction false} RunningHashes(sc: StarkCurve, elems: seq<int>) returns (hs: seq<int>)
    requires TableUsable(sc, 2) && Chain(PairHash(sc), elems).Ok?
    ensures Folds(sc, elems, hs) && hs[|elems|] == Chain(PairHash(sc), elems).value
    decreases |elems|
  {
    hide Pedersen;
    if |elems| == 0 {
      hs := [0];
    } else {
      var n := |elems| - 1;
      var front := RunningHashes(sc, elems[..n]);
      assert PairHash(sc)(front[n], elems[n]) == Pedersen(sc, [front[n], elems[n]]);
      hs := front + [Chain(PairHash(sc), elems).value];
      forall i | 0 <= i < |elems|
        ensures Pedersen(sc, [hs[i], elems[i]]) == Ok(hs[i + 1])
      {
        if i < n {
          assert hs[i] == front[i] && hs[i + 1] == front[i + 1] && elems[..n][i] == elems[i];
        }
      }
    }
  }

  lemma {:induction false} FoldsDetermine(sc: StarkCurve, elems: seq<int>, hs: seq<int>)
    requires TableUsable(sc, 2) && Folds(sc, elems, hs)
    ensures Chain(PairHash(sc), elems) == Ok(hs[|elems|])
    decreases |elems|
  {
    hide Pedersen;
    if |elems| > 0 {
      var n := |elems| - 1;
      FoldsDetermine(sc, elems[..n], hs[..n + 1]);
      assert PairHash(sc)(hs[n], elems[n]) == Pedersen(sc, [hs[n], elems[n]]);
    }
  }

  /** Where the chain fails there is a first pair that does. */
  lemma {:induction false} FirstFailure(sc: StarkCurve, elems: seq<int>)
    requires TableUsable(sc, 2) && Chain(PairHash(sc), elems).Err?
    ensures FoldResult(sc, elems, Chain(PairHash(sc), elems))
    decreases |elems|
  {
    hide Pedersen;
    var k := |elems| - 1;
    var front := elems[..k];
    if Chain(PairHash(sc), front).Ok? {
      var hs := RunningHashes(sc, front);
      assert PairHash(sc)(hs[k], elems[k]) == Pedersen(sc, [hs[k], elems[k]]);
    } else {
      FirstFailure(sc, front);
      var e := Chain(PairHash(sc), front).error;
      var n, hs :| 0 <= n < k && Folds(sc, front[..n], hs) && Pedersen(sc, [hs[n], front[n]]) == Err(e);
      assert front[..n] == elems[..n] && front[n] == elems[n];
    }
  }

  lemma ChainIsFold(sc: StarkCurve, elems: seq<int>)
    requires TableUsable(sc, 2)
    ensures FoldResult(sc, elems, Chain(PairHash(sc), elems))
  {
    hide Pedersen;
    if Chain(PairHash(sc), elems).Ok? {
      var hs := RunningHashes(sc, elems);
    } else {
      FirstFailure(sc, elems);
    }
  }

  /** A list has one such result, so it says what the hash is. */
  lemma FoldResultUnique(sc: StarkCurve, elems: seq<int>, r: Result<int>)
    requires TableUsable(sc, 2)
    ensures FoldResult(sc, elems, r) <==> r == Chain(PairHash(sc), elems)
  {
    hide Pedersen;
    ChainIsFold(sc, elems);
    if r.Ok? && FoldResult(sc, elems, r) {
      var hs :| Folds(sc, elems, hs) && r.value == hs[|elems|];
      FoldsDetermine(sc, elems, hs);
    } else if r.Err? && FoldResult(sc, elems, r) {
      var n, hs :| 0 <= n < |elems| && Folds(sc, elems[..n], hs) && Pedersen(sc, [hs[n], elems[n]]) == Err(r.error);
      FoldsDetermine(sc, elems[..n], hs);
      assert elems[..n + 1][..n] == elems[..n];
      assert PairHash(sc)(hs[n], elems[n]) == Pedersen(sc, [hs[n], elems[n]]);
      ChainFails(PairHash(sc), elems, n + 1);
    }
  }

  lemma PairHashIs(sc: StarkCurve, x: int, y: int)
    requires TableUsable(sc, 2)
    ensures PairHash(sc)(x, y) == Pedersen(sc, [x, y])
  {
    hide Pedersen;
  }

  method HashElements(sc: StarkCurve, elems: seq<int>) returns (hash: Result<int>)
    requires TableUsable(sc, 2)
    ensures hash == Chain(PairHash(sc), if |elems| == 0 then [0] else elems)
    ensures FoldResult(sc, if |elems| == 0 then [0] else elems, hash)
  {
    ChainIsFold(sc, if |elems| == 0 then [0] else elems);
    hide FoldResult, Folds, Pedersen, StarkCurve.Add, Elements;
    var es := elems;
    if |es| == 0 {
      es := es + [0];
    }
    assert es[..|es|] == es && es == if |elems| == 0 then [0] else elems;
    ghost var f := PairHash(sc);
    hide PairHash;
    var h := 0;
    for i := 0 to |es|
      invariant Chain(f, es[..i]) == Ok(h)
    {
      assert es[..i + 1][..i] == es[..i];
      var next := PedersenHash(sc, [h, es[i]]);
      PairHashIs(sc, h, es[i]);
      if next.Err? {
        ChainFails(f, es, i + 1);
        return next;
      }
      h := next.value;
    }
    return Ok(h);
  }

  lemma {:induction false} ChainFails(f: (int, int) -> Result<int>, elems: seq<int>, i: nat)
    requires i <= |elems| && Chain(f, elems[..i]).Err?
    ensures Chain(f, elems) == Chain(f, elems[..i])
    decreases |elems|
  {
    if i == |elems| {
      assert elems[..i] == elems;
    } else {
      var front := elems[..|elems| - 1];
      assert front[..i] == elems[..i];
      ChainFails(f, front, i);
    }
  }

  function ListHash(sc: StarkCurve, elems: seq<int>): Result<int>
    requires TableUsable(sc, 2)
  {
    Chain(PairHash(sc), elems + [|elems|])
  }

  method ComputeHashOnElements(sc: StarkCurve, elems: seq<int>) returns (hash: Result<int>)
    requires TableUsable(sc, 2)
    ensures hash == ListHash(sc, elems)
    ensures FoldResult(sc, elems + [|elems|], hash)
  {
    var es := elems + [|elems|];
    hash := HashElements(sc, es);
  }

  /** Step i of hashing a and step j of hashing b feed different pairs to f and get one hash. */
  predicate Collide(f: (int, int) -> Result<int>, a: seq<int>, i: nat, b: seq<int>, j: nat) {
    i < |a| && j < |b| && Chain(f, a[..i]).Ok? && Chain(f, b[..j]).Ok? &&
    var s, t := Chain(f, a[..i]).value, Chain(f, b[..j]).value;
    (s != t || a[i] != b[j]) && f(s, a[i]).Ok? && f(s, a[i]) == f(t, b[j])
  }

  lemma {:induction false} ChainCollision(f: (int, int) -> Result<int>, a: seq<int>, b: seq<int>)
    requires |a| == |b| && a != b && Chain(f, a).Ok? && Chain(f, a) == Chain(f, b)
    ensures exists i: nat :: Collide(f, a, i, b, i)
  {
    var n := |a| - 1;
    if a[n] == b[n] && Chain(f, a[..n]) == Chain(f, b[..n]) {
      assert a == a[..n] + [a[n]] && b == b[..n] + [b[n]];
      ChainCollision(f, a[..n], b[..n]);
      var i: nat :| Collide(f, a[..n], i, b[..n], i);
      assert a[..n][..i] == a[..i] && b[..n][..i] == b[..i];
      assert Collide(f, a, i, b, i);
    } else {
      assert Collide(f, a, n, b, n);
    }
  }

  // ---------- numbers of the field ----------

  predicate InField(sc: StarkCurve, elems: seq<int>) {
    forall i :: 0 <= i < |elems| ==> 0 <= elems[i] < sc.P
  }

  lemma {:induction false} RoundsRange(sc: StarkCurve, idx: nat, steps: nat, x: int, ptx: int, pty: int)
    requires idx + steps <= |sc.ConstantPoints| && 0 <= ptx < sc.P
    requires Rounds(sc, idx, steps, x, ptx, pty).Ok?
    ensures 0 <= Rounds(sc, idx, steps, x, ptx, pty).value.1 < sc.P
    decreases steps
  {
    if steps > 0 {
      var (xin, yin) := sc.ConstantPoints[idx];
      var (sx, sy) := if x % 2 == 1 then sc.Add(ptx, pty, xin, yin) else (ptx, pty);
      RoundsRange(sc, idx + 1, steps - 1, x / 2, sx, sy);
    }
  }

  lemma {:induction false} ElementsRange(sc: StarkCurve, i: nat, elems: seq<int>, ptx: int, pty: int)
    requires i <= |elems| && TableCovers(sc, |elems|) && 0 <= ptx < sc.P
    requires Elements(sc, i, elems, ptx, pty).Ok?
    ensures 0 <= Elements(sc, i, elems, ptx, pty).value.0 < sc.P
    decreases |elems| - i
  {
    hide Rounds;
    if i < |elems| {
      RoundsRange(sc, 2 + 252 * i, 252, elems[i], ptx, pty);
      var (_, sx, sy) := Rounds(sc, 2 + 252 * i, 252, elems[i], ptx, pty).value;
      ElementsRange(sc, i + 1, elems, sx, sy);
    }
  }

  /** Hashes are numbers of the field, whatever was hashed. */
  lemma PedersenRange(sc: StarkCurve, elems: seq<int>)
    requires TableUsable(sc, |elems|) && 0 <= sc.Gx < sc.P && Pedersen(sc, elems).Ok?
    ensures 0 <= Pedersen(sc, elems).value < sc.P
  {
    hide Elements;
    ElementsRange(sc, 0, elems, sc.Gx, sc.Gy);
  }

  lemma ChainRange(sc: StarkCurve, elems: seq<int>)
    requires TableUsable(sc, 2) && 0 <= sc.Gx < sc.P && Chain(PairHash(sc), elems).Ok?
    ensures 0 <= Chain(PairHash(sc), elems).value < sc.P
  {
    hide Pedersen;
    if |elems| > 0 {
      var n := |elems| - 1;
      var hash := Chain(PairHash(sc), elems[..n]).value;
      assert PairHash(sc)(hash, elems[n]) == Pedersen(sc, [hash, elems[n]]);
      PedersenRange(sc, [hash, elems[n]]);
    }
  }

  /** Step i of hashing a feeds two numbers of the field. */
  predicate FedInField(sc: StarkCurve, a: seq<int>, i: nat)
    requires TableUsable(sc, 2)
  {
    i < |a| && Chain(PairHash(sc), a[..i]).Ok? && InField(sc, [Chain(PairHash(sc), a[..i]).value, a[i]])
  }

  /** Two different pairs with one PedersenHash; for lists over the field they are pairs of
      field elements, so not the negative twins every pair has. */
  predicate Collision(sc: StarkCurve, a: seq<int>, i: nat, b: seq<int>, j: nat)
    requires TableUsable(sc, 2)
  {
    Collide(PairHash(sc), a, i, b, j) &&
    (InField(sc, a) && InField(sc, b) && 0 <= sc.Gx < sc.P ==> FedInField(sc, a, i) && FedInField(sc, b, j))
  }

  lemma CollideIsCollision(sc: StarkCurve, a: seq<int>, i: nat, b: seq<int>, j: nat)
    requires TableUsable(sc, 2) && Collide(PairHash(sc), a, i, b, j)
    ensures Collision(sc, a, i, b, j)
  {
    hide Chain, PairHash;
    if InField(sc, a) && InField(sc, b) && 0 <= sc.Gx < sc.P {
      ChainRange(sc, a[..i]);
      ChainRange(sc, b[..j]);
    }
  }

  /** Collision reduction: two different lists with one ComputeHashOnElements, of whatever
      lengths, contain two different pairs with one PedersenHash. */
  lemma ListCollision(sc: StarkCurve, a: seq<int>, b: seq<int>)
    requires TableUsable(sc, 2) && a != b
    requires ListHash(sc, a).Ok? && ListHash(sc, a) == ListHash(sc, b)
    ensures exists i: nat, j: nat :: Collision(sc, a + [|a|], i, b + [|b|], j)
  {
    hide Collision, Pedersen, Elements, Rounds;
    var f, a', b' := PairHash(sc), a + [|a|], b + [|b|];
    if |a| == |b| {
      assert a'[..|a|] == a && b'[..|b|] == b;
      ChainCollision(f, a', b');
      var i: nat :| Collide(f, a', i, b', i);
      CollideIsCollision(sc, a', i, b', i);
    } else {
      assert Collide(f, a', |a|, b', |b|);
      CollideIsCollision(sc, a', |a|, b', |b|);
    }
  }
}
