/** Forged Merkle pairs and colliding transactions, traced down to PedersenHash. */
module Reductions {
  import opened Results
  import opened Powers
  import opened Curve
  import P = Pedersen
  import M = Merkle
  import T = Transactions

  /** The hash of pairs that merkle.go takes from the curve: HashElements on two elements. */
  function CurvePair(sc: StarkCurve): M.PairHash
    requires P.TableUsable(sc, 2)
  {
    (x, y) => P.Chain(P.PairHash(sc), [x, y])
  }

  /** The pair as MerkleHash feeds it. */
  function Sorted(x: int, y: int): seq<int> {
    if x <= y then [x, y] else [y, x]
  }

  lemma MerkleIsChain(sc: StarkCurve, x: int, y: int)
    requires P.TableUsable(sc, 2)
    ensures M.MerkleHash(CurvePair(sc), x, y) == P.Chain(P.PairHash(sc), Sorted(x, y))
  {
    hide P.Chain, P.PairHash;
  }

  /** Hashing the pair (x, y) and hashing a node of the level with its sibling, each in
      ascending order, feed two different pairs with one PedersenHash to it, at one step. */
  ghost predicate CollidesWith(sc: StarkCurve, level: seq<int>, x: int, y: int)
    requires P.TableUsable(sc, 2)
  {
    exists k, i: nat :: 0 <= k < |level| && P.Collision(sc, Sorted(x, y), i, Sorted(level[k], M.Sibling(level, k)), i)
  }

  /** A forged pair of the Merkle tree is a preimage of 0, or it and a pair of the level collide. */
  lemma ForgedMeansCollision(sc: StarkCurve, level: seq<int>, x: int, y: int)
    requires P.TableUsable(sc, 2) && M.ForgedPair(CurvePair(sc), level, x, y)
    ensures M.MerkleHash(CurvePair(sc), x, y) == Ok(0) || CollidesWith(sc, level, x, y)
  {
    hide P.Chain, P.PairHash, P.Collide, P.Collision, M.MerkleHash, CurvePair;
    var f, h := P.PairHash(sc), CurvePair(sc);
    if M.MerkleHash(h, x, y) != Ok(0) {
      var k :| 0 <= k < |level| && M.MerkleHash(h, x, y) == M.MerkleHash(h, level[k], M.Sibling(level, k))
               && M.MerkleHash(h, x, y).Ok? && !M.SamePair(x, y, level[k], M.Sibling(level, k));
      var a, b := Sorted(x, y), Sorted(level[k], M.Sibling(level, k));
      assert a[0] != b[0] || a[1] != b[1];
      MerkleIsChain(sc, x, y);
      MerkleIsChain(sc, level[k], M.Sibling(level, k));
      P.ChainCollision(f, a, b);
      var i: nat :| P.Collide(f, a, i, b, i);
      P.CollideIsCollision(sc, a, i, b, i);
    }
  }

  /** On a curve without a point at x = 0 the padding has no preimage, so only the collision remains. */
  lemma NoZeroHash(sc: StarkCurve, x: int, y: int)
    requires P.HashReady(sc) && P.TableUsable(sc, 2)
    ensures M.MerkleHash(CurvePair(sc), x, y) != Ok(0)
  {
    hide P.Pedersen, P.HashReady;
    MerkleIsChain(sc, x, y);
    var a := Sorted(x, y);
    assert |a| == 2 && a[..1] == [a[0]] && a[1..] == [a[1]];
    var first := P.Chain(P.PairHash(sc), a[..1]);
    if first.Ok? {
      assert P.Chain(P.PairHash(sc), a) == P.Pedersen(sc, [first.value, a[1]]);
      P.HashNeverZero(sc, [first.value, a[1]]);
    }
  }

  /** At some entry of the path, with the hash reached there. */
  ghost predicate CollidesAlong(sc: StarkCurve, branches: seq<seq<int>>, leaf: int, path: seq<int>)
    requires P.TableUsable(sc, 2) && |path| <= |branches|
  {
    exists n :: 0 <= n < |path| && M.Running(CurvePair(sc), leaf, path, n).Ok?
                && CollidesWith(sc, branches[n], M.Running(CurvePair(sc), leaf, path, n).value, path[n])
  }

  /** Soundness of the Merkle check over PedersenHash: an accepted path with one entry a level
      starts at a leaf or at the padding 0, or at some entry the check fed PedersenHash one
      pair, and building that level another, with the same hash. */
  lemma PathSoundPedersen(sc: StarkCurve, leaves: seq<int>, leaf: int, path: seq<int>)
    requires P.HashReady(sc) && P.TableUsable(sc, 2)
    requires |leaves| >= 1 && M.Levels(CurvePair(sc), leaves).Ok?
    requires |path| == |M.Levels(CurvePair(sc), leaves).value.0|
    requires M.ProofMerklePath(CurvePair(sc), M.Levels(CurvePair(sc), leaves).value.1, leaf, path)
    ensures leaf in leaves || leaf == 0 || CollidesAlong(sc, M.Levels(CurvePair(sc), leaves).value.0, leaf, path)
  {
    hide CurvePair, P.HashReady, M.Levels, M.ProofMerklePath, M.Forged, M.ForgedPair, CollidesWith;
    var h := CurvePair(sc);
    var branches := M.Levels(h, leaves).value.0;
    M.PathSound(h, leaves, leaf, path);
    if leaf !in leaves && leaf != 0 {
      M.ForgedAt(h, branches, leaf, path);
      var n :| 0 <= n < |path| && M.Running(h, leaf, path, n).Ok?
        && M.ForgedPair(h, branches[n], M.Running(h, leaf, path, n).value, path[n]);
      var x := M.Running(h, leaf, path, n).value;
      ForgedMeansCollision(sc, branches[n], x, path[n]);
      NoZeroHash(sc, x, path[n]);
    }
  }

  // ---------- the same within the field ----------

  lemma PairInField(sc: StarkCurve, x: int, y: int)
    requires P.TableUsable(sc, 2) && 0 <= sc.Gx < sc.P && M.MerkleHash(CurvePair(sc), x, y).Ok?
    ensures 0 <= M.MerkleHash(CurvePair(sc), x, y).value < sc.P
  {
    hide P.Chain, P.PairHash, M.MerkleHash;
    MerkleIsChain(sc, x, y);
    P.ChainRange(sc, Sorted(x, y));
  }

  lemma {:induction false} RunningInField(sc: StarkCurve, leaf: int, path: seq<int>, n: nat)
    requires P.TableUsable(sc, 2) && 0 <= sc.Gx < sc.P && 0 <= leaf < sc.P
    requires n <= |path| && M.Running(CurvePair(sc), leaf, path, n).Ok?
    ensures 0 <= M.Running(CurvePair(sc), leaf, path, n).value < sc.P
    decreases n
  {
    hide CurvePair, M.MerkleHash;
    if n > 0 {
      var next := M.MerkleHash(CurvePair(sc), leaf, path[0]).value;
      PairInField(sc, leaf, path[0]);
      RunningInField(sc, next, path[1..], n - 1);
    }
  }

  lemma {:induction false} NodesInField(sc: StarkCurve, leaves: seq<int>, n: nat)
    requires P.TableUsable(sc, 2) && 0 <= sc.Gx < sc.P && P.InField(sc, leaves)
    requires |leaves| >= 1 && M.Levels(CurvePair(sc), leaves).Ok?
    requires n < |M.Levels(CurvePair(sc), leaves).value.0|
    ensures P.InField(sc, M.Levels(CurvePair(sc), leaves).value.0[n])
    decreases n
  {
    hide CurvePair, M.MerkleHash, M.NextLevel;
    var h := CurvePair(sc);
    if n > 0 {
      var parents := M.NextLevel(h, leaves).value;
      forall j | 0 <= j < |parents|
        ensures 0 <= parents[j] < sc.P
      {
        M.NextLevelAt(h, leaves, 2 * j);
        PairInField(sc, leaves[2 * j], M.Sibling(leaves, 2 * j));
      }
      NodesInField(sc, parents, n - 1);
    }
  }

  /** `CollidesWith`, with all four numbers fed to PedersenHash in the field. */
  ghost predicate CollidesInField(sc: StarkCurve, level: seq<int>, x: int, y: int)
    requires P.TableUsable(sc, 2)
  {
    exists k, i: nat :: 0 <= k < |level| &&
      var a, b := Sorted(x, y), Sorted(level[k], M.Sibling(level, k));
      P.Collide(P.PairHash(sc), a, i, b, i) && P.FedInField(sc, a, i) && P.FedInField(sc, b, i)
  }

  lemma FieldPairsCollide(sc: StarkCurve, level: seq<int>, x: int, y: int)
    requires P.TableUsable(sc, 2) && 0 <= sc.Gx < sc.P && P.InField(sc, level) && P.InField(sc, [x, y])
    requires CollidesWith(sc, level, x, y)
    ensures CollidesInField(sc, level, x, y)
  {
    hide P.Chain, P.PairHash, P.Collide, P.FedInField;
    var k, i: nat :| 0 <= k < |level| && P.Collision(sc, Sorted(x, y), i, Sorted(level[k], M.Sibling(level, k)), i);
    assert [x, y][0] == x && [x, y][1] == y;
  }

  ghost predicate CollidesAlongInField(sc: StarkCurve, branches: seq<seq<int>>, leaf: int, path: seq<int>)
    requires P.TableUsable(sc, 2) && |path| <= |branches|
  {
    exists n :: 0 <= n < |path| && M.Running(CurvePair(sc), leaf, path, n).Ok?
                && CollidesInField(sc, branches[n], M.Running(CurvePair(sc), leaf, path, n).value, path[n])
  }

  lemma AlongInField(sc: StarkCurve, leaves: seq<int>, leaf: int, path: seq<int>)
    requires P.TableUsable(sc, 2) && 0 <= sc.Gx < sc.P
    requires P.InField(sc, leaves) && 0 <= leaf < sc.P && P.InField(sc, path)
    requires |leaves| >= 1 && M.Levels(CurvePair(sc), leaves).Ok?
    requires |path| == |M.Levels(CurvePair(sc), leaves).value.0|
    requires CollidesAlong(sc, M.Levels(CurvePair(sc), leaves).value.0, leaf, path)
    ensures CollidesAlongInField(sc, M.Levels(CurvePair(sc), leaves).value.0, leaf, path)
  {
    hide CurvePair, M.Levels, M.Running, CollidesWith, CollidesInField;
    var h := CurvePair(sc);
    var branches := M.Levels(h, leaves).value.0;
    var n :| 0 <= n < |path| && M.Running(h, leaf, path, n).Ok?
      && CollidesWith(sc, branches[n], M.Running(h, leaf, path, n).value, path[n]);
    NodesInField(sc, leaves, n);
    RunningInField(sc, leaf, path, n);
    FieldPairsCollide(sc, branches[n], M.Running(h, leaf, path, n).value, path[n]);
  }

  /** Soundness for field elements, which is what a caller can check: where leaves, leaf and
      path are numbers in [0, P), so are the four numbers of the collision. */
  lemma PathSoundInField(sc: StarkCurve, leaves: seq<int>, leaf: int, path: seq<int>)
    requires P.HashReady(sc) && P.TableUsable(sc, 2)
    requires P.InField(sc, leaves) && 0 <= leaf < sc.P && P.InField(sc, path)
    requires |leaves| >= 1 && M.Levels(CurvePair(sc), leaves).Ok?
    requires |path| == |M.Levels(CurvePair(sc), leaves).value.0|
    requires M.ProofMerklePath(CurvePair(sc), M.Levels(CurvePair(sc), leaves).value.1, leaf, path)
    ensures leaf in leaves || leaf == 0
         || CollidesAlongInField(sc, M.Levels(CurvePair(sc), leaves).value.0, leaf, path)
  {
    hide *;
    PathSoundPedersen(sc, leaves, leaf, path);
    ShiftInField(sc);
    if leaf !in leaves && leaf != 0 {
      AlongInField(sc, leaves, leaf, path);
    }
  }

  lemma ShiftInField(sc: StarkCurve)
    requires P.HashReady(sc)
    ensures 0 <= sc.Gx < sc.P
  {}

  // ---------- and beyond it ----------

  /** The smaller number of a pair has a negative twin that hashes, with the same partner, alike. */
  lemma TwinOfPair(sc: StarkCurve, x: int, y: int)
    requires P.TableUsable(sc, 2) && x <= y && 0 <= x < sc.P
    ensures M.MerkleHash(CurvePair(sc), x - Pow2(252), y) == M.MerkleHash(CurvePair(sc), x, y)
  {
    hide Pow2, P.Pedersen, P.Chain, P.PairHash;
    var f := P.PairHash(sc);
    var x' := x - Pow2(252);
    P.NegativeTwin(sc, 0, x);
    P.PairHashIs(sc, 0, x);
    P.PairHashIs(sc, 0, x');
    ChainOfTwo(f, x, y);
    ChainOfTwo(f, x', y);
  }

  lemma ChainOfTwo(f: (int, int) -> Result<int>, x: int, y: int)
    ensures P.Chain(f, [x, y])
         == match f(0, x)
            case Err(e) => Err(e)
            case Ok(hash) => f(hash, y)
  {
    assert [x][..0] == [] && [x, y][..1] == [x];
    assert P.Chain(f, [x]) == f(0, x);
  }

  /** Outside the field the check is not sound, for any tree with more than one leaf: the
      smaller of the first two leaves, less 2^252, is accepted with a path of full length,
      though it is negative and no leaf is. */
  lemma NegativeLeafAccepted(sc: StarkCurve, leaves: seq<int>)
    requires P.TableUsable(sc, 2) && sc.P <= Pow2(252) && P.InField(sc, leaves)
    requires |leaves| >= 2 && M.Levels(CurvePair(sc), leaves).Ok?
    ensures var (branches, root) := M.Levels(CurvePair(sc), leaves).value;
            var least := if leaves[0] <= leaves[1] then leaves[0] else leaves[1];
            var path := M.PaddedPath(CurvePair(sc), branches, least);
            |path| == |branches| && M.ProofMerklePath(CurvePair(sc), root, least - Pow2(252), path)
            && least - Pow2(252) < 0 && least - Pow2(252) !in leaves
  {
    hide CurvePair, Pow2, M.NextLevel, M.MerkleHash;
    var h := CurvePair(sc);
    var (branches, root) := M.Levels(h, leaves).value;
    var least := if leaves[0] <= leaves[1] then leaves[0] else leaves[1];
    assert least in leaves && branches[0] == leaves;
    M.LevelCount(h, leaves);
    M.PaddedPathAccepted(h, leaves, least);
    var index := M.FirstIndex(leaves, least);
    assert index == if leaves[0] <= leaves[1] then 0 else 1;
    M.NextLevelAt(h, leaves, index);
    var path := M.PaddedPath(h, branches, least);
    assert path[0] == M.Sibling(leaves, index);
    TwinOfPair(sc, least, path[0]);
  }

  /** The environment hashes lists as ComputeHashOnElementsFelt does on this curve. */
  ghost predicate HashesOn(env: T.Env, sc: StarkCurve)
    requires P.TableUsable(sc, 2)
  {
    forall l: seq<T.felt> ::
      if P.ListHash(sc, l).Ok? then env.pedersen(l).Ok? && env.pedersen(l).value == P.ListHash(sc, l).value
      else env.pedersen(l).Err?
  }

  /** Two accepted V0 to V2 transactions with one hash agree on every hashed field, or
      computing their hashes feeds two different pairs with one PedersenHash to it. */
  lemma SameHashSameFields(env: T.Env, sc: StarkCurve, a: T.Txn, chain: T.felt, b: T.Txn)
    requires P.TableUsable(sc, 2) && HashesOn(env, sc)
    requires !T.UsesPoseidon(a) && !T.UsesPoseidon(b)
    requires T.TransactionHash(env, a).Ok? && T.TransactionHash(env, a) == T.TransactionHash(T.On(env, chain), b)
    ensures T.SameTxn(env, a, chain, b) ||
      exists n: nat, i: nat, j: nat ::
        n < |T.Lists(env, a)| && n < |T.Lists(T.On(env, chain), b)| &&
        var u, v := T.Lists(env, a)[n], T.Lists(T.On(env, chain), b)[n];
        P.Collision(sc, u + [|u|], i, v + [|v|], j)
  {
    hide T.Lists, T.TransactionHash, T.SameTxn, T.Collision, HashesOn, P.Collision;
    T.PedersenInjective(env, a, chain, b);
    if !T.SameTxn(env, a, chain, b) {
      var n: nat := if T.Collision(env, a, chain, b, 0) then 0 else 1;
      CollisionTraced(env, sc, a, chain, b, n);
    }
  }

  lemma CollisionTraced(env: T.Env, sc: StarkCurve, a: T.Txn, chain: T.felt, b: T.Txn, n: nat)
    requires P.TableUsable(sc, 2) && HashesOn(env, sc) && !T.UsesPoseidon(a) && !T.UsesPoseidon(b)
    requires T.TransactionHash(env, a).Ok? && T.TransactionHash(T.On(env, chain), b).Ok? && T.Collision(env, a, chain, b, n)
    ensures exists i: nat, j: nat ::
        n < |T.Lists(env, a)| && n < |T.Lists(T.On(env, chain), b)| &&
        var u, v := T.Lists(env, a)[n], T.Lists(T.On(env, chain), b)[n];
        P.Collision(sc, u + [|u|], i, v + [|v|], j)
  {
    hide P.ListHash, P.Collision, P.PairHash, T.Lists, T.TransactionHash;
    var u, v := T.Lists(env, a)[n], T.Lists(T.On(env, chain), b)[n];
    PedersenOk(env, a, n);
    P.ListCollision(sc, u, v);
    var i: nat, j: nat :| P.Collision(sc, u + [|u|], i, v + [|v|], j);
  }

  /** Every list hashed on the way to an accepted hash was hashed without error. */
  lemma PedersenOk(env: T.Env, tx: T.Txn, n: nat)
    requires !T.UsesPoseidon(tx) && T.TransactionHash(env, tx).Ok? && n < |T.Lists(env, tx)|
    ensures env.pedersen(T.Lists(env, tx)[n]).Ok?
  {
    T.AcceptedFields(env, tx);
    T.HashOfFirst(env, T.AsCommon(tx));
  }
}
