/** The fixed-size Merkle tree (merkle/merkle.go), for any hash of pairs. */
module Merkle {
  import opened Results
  import opened Powers

  /** HashElements on two elements: a number or an error. */
  type PairHash = (int, int) -> Result<int>

  /** What a proof request ends in. Panic is Go's index-out-of-range panic. */
  datatype ProofResult = Path(path: seq<int>) | Failed(error: string) | Panic

  /** The hash of an unordered pair. */
  function MerkleHash(h: PairHash, x: int, y: int): Result<int> {
    if x <= y then h(x, y) else h(y, x)
  }

  // ---------- the tree as a function of its leaves ----------

  /** The sibling of node i: its neighbour, or 0 past the end of an odd level. */
  function Sibling(level: seq<int>, i: nat): int
    requires i < |level|
  {
    if i % 2 == 1 then level[i - 1]
    else if i + 1 < |level| then level[i + 1]
    else 0
  }

  /** Parents of the nodes, two at a time, the odd one out with 0. */
  function NextLevel(h: PairHash, level: seq<int>): (r: Result<seq<int>>)
    ensures r.Ok? ==> |r.value| == (|level| + 1) / 2
    decreases |level|
  {
    if |level| == 0 then Ok([])
    else
      match MerkleHash(h, level[0], Sibling(level, 0))
      case Err(e) => Err(e)
      case Ok(hash) =>
        Prepend([hash], NextLevel(h, if |level| == 1 then [] else level[2..]))
  }

  /** The branches that build appends, and the root it returns. A tree without leaves has no
      build: the source recurses on the empty level for ever. */
  function Levels(h: PairHash, leaves: seq<int>): Result<(seq<seq<int>>, int)>
    requires |leaves| >= 1
    decreases |leaves|
  {
    if |leaves| == 1 then Ok(([], leaves[0]))
    else
      match NextLevel(h, leaves)
      case Err(e) => Err(e)
      case Ok(parents) =>
        match Levels(h, parents)
        case Err(e) => Err(e)
        case Ok((above, root)) => Ok(([leaves] + above, root))
  }

  /** The empty level is its own successor, so it never shrinks to a root. */
  lemma NoLeavesNoRoot(h: PairHash)
    ensures NextLevel(h, []) == Ok([])
  {}

  // ---------- proofs and their check ----------

  /** Where a value first occurs, or -1. */
  function FirstIndex(branch: seq<int>, v: int): (k: int)
    ensures -1 <= k < |branch|
    ensures k >= 0 ==> branch[k] == v && forall j :: 0 <= j < k ==> branch[j] != v
    ensures k == -1 ==> v !in branch
  {
    if |branch| == 0 then -1
    else if branch[0] == v then 0
    else
      var k := FirstIndex(branch[1..], v);
      assert branch == [branch[0]] + branch[1..];
      if k == -1 then -1 else k + 1
  }

  /** The proof walk as coded: an even index always reads its right neighbour. */
  function ProofFrom(h: PairHash, branches: seq<seq<int>>, leaf: int, hashPath: seq<int>): ProofResult {
    if |branches| == 0 then Path(hashPath)
    else
      var index := FirstIndex(branches[0], leaf);
      if index == -1 then Failed("key not found in branch")
      else if index % 2 == 0 && index + 1 == |branches[0]| then Panic
      else
        var next := Sibling(branches[0], index);
        match MerkleHash(h, leaf, next)
        case Err(e) => Failed("nextproof error")
        case Ok(newLeaf) => ProofFrom(h, branches[1..], newLeaf, hashPath + [next])
  }

  predicate ProofMerklePath(h: PairHash, root: int, leaf: int, path: seq<int>)
    decreases |path|
  {
    if |path| == 0 then root == leaf
    else
      match MerkleHash(h, leaf, path[0])
      case Err(_) => false
      case Ok(next) => ProofMerklePath(h, root, next, path[1..])
  }

  /** The walk meets a level whose unpaired last node is the first to hold the running hash. */
  predicate HitsTail(h: PairHash, branches: seq<seq<int>>, leaf: int) {
    |branches| > 0 &&
    var index := FirstIndex(branches[0], leaf);
    index >= 0 &&
    ((index % 2 == 0 && index + 1 == |branches[0]|) ||
     (match MerkleHash(h, leaf, Sibling(branches[0], index))
      case Err(_) => false
      case Ok(next) => HitsTail(h, branches[1..], next)))
  }

  /** The path a walk that pairs the tail with 0, as build does, would collect. */
  function PaddedPath(h: PairHash, branches: seq<seq<int>>, leaf: int): seq<int> {
    if |branches| == 0 then []
    else
      var index := FirstIndex(branches[0], leaf);
      if index == -1 then []
      else
        var next := Sibling(branches[0], index);
        match MerkleHash(h, leaf, next)
        case Err(_) => []
        case Ok(newLeaf) => [next] + PaddedPath(h, branches[1..], newLeaf)
  }

  // ---------- the class ----------

  class FixedSizeMerkleTree {
    var Leaves: seq<int>
    var Branches: seq<seq<int>>
    var Root: int

    constructor Empty(leaves: seq<int>)
      ensures Leaves == leaves && Branches == []
    {
      Leaves := leaves;
      Branches := [];
      Root := 0;
    }

    /** NewFixedSizeMerkleTree: the tree, or nil and the error of the first failing hash. */
    static method New(h: PairHash, leaves: seq<int>) returns (mt: FixedSizeMerkleTree?, err: Option<string>)
      requires |leaves| >= 1
      ensures mt == null <==> Levels(h, leaves).Err?
      ensures mt == null ==> err == Some(Levels(h, leaves).error)
      ensures mt != null ==> fresh(mt) && err == None && mt.Leaves == leaves
      ensures mt != null ==> Levels(h, leaves) == Ok((mt.Branches, mt.Root))
    {
      mt := new FixedSizeMerkleTree.Empty(leaves);
      var root := mt.Build(h, leaves);
      if root.Err? {
        return null, Some(root.error);
      }
      mt.Root := root.value;
      assert forall above: seq<seq<int>> :: [] + above == above;
      err := None;
    }

    /** build: appends one branch a level and returns the root. */
    method Build(h: PairHash, leaves: seq<int>) returns (root: Result<int>)
      requires |leaves| >= 1
      modifies this`Branches
      ensures match Levels(h, leaves)
              case Err(e) => root == Err(e) && old(Branches) <= Branches
              case Ok((above, r)) => root == Ok(r) && Branches == old(Branches) + above
      decreases |leaves|
    {
      LevelsOf(h, leaves, old(Branches));
      if |leaves| == 1 {
        return Ok(leaves[0]);
      }
      Branches := Branches + [leaves];
      var newLeaves := HashPairs(h, leaves);
      if newLeaves.Err? {
        return Err(newLeaves.error);
      }
      root := Build(h, newLeaves.value);
    }

    /** The loop of build: the hashes of the leaves taken two at a time. */
    static method HashPairs(h: PairHash, leaves: seq<int>) returns (r: Result<seq<int>>)
      ensures r == NextLevel(h, leaves)
    {
      var newLeaves: seq<int> := [];
      var i := 0;
      hide NextLevel, MerkleHash;
      PrependNone(NextLevel(h, leaves));
      assert leaves[0..] == leaves;
      while i < |leaves|
        invariant 0 <= i <= |leaves| && (i % 2 == 0 || i == |leaves|)
        invariant NextLevel(h, leaves) == Prepend(newLeaves, NextLevel(h, leaves[i..]))
      {
        NextLevelFrom(h, leaves, i);
        if i + 1 == |leaves| {
          var hash := MerkleHash(h, leaves[i], 0);
          if hash.Err? {
            return Err(hash.error);
          }
          PrependOne(newLeaves, hash.value, NextLevel(h, []));
          newLeaves := newLeaves + [hash.value];
          i := i + 1;
          assert leaves[i..] == [];
          break;
        }
        var hash := MerkleHash(h, leaves[i], leaves[i + 1]);
        if hash.Err? {
          return Err(hash.error);
        }
        PrependOne(newLeaves, hash.value, NextLevel(h, leaves[i + 2..]));
        newLeaves := newLeaves + [hash.value];
        i := i + 2;
      }
      assert leaves[i..] == [];
      NoLeavesNoRoot(h);
      assert newLeaves + [] == newLeaves;
      return Ok(newLeaves);
    }

    method Proof(h: PairHash, leaf: int) returns (r: ProofResult)
      ensures r == ProofFrom(h, Branches, leaf, [])
    {
      r := RecursiveProof(h, leaf, 0, []);
    }

    method RecursiveProof(h: PairHash, leaf: int, branchIndex: nat, hashPath: seq<int>) returns (r: ProofResult)
      requires branchIndex <= |Branches|
      ensures r == ProofFrom(h, Branches[branchIndex..], leaf, hashPath)
      decreases |Branches| - branchIndex
    {
      if branchIndex >= |Branches| {
        return Path(hashPath);
      }
      var branch := Branches[branchIndex];
      var index := -1;
      var k := 0;
      while k < |branch| && index == -1
        invariant 0 <= k <= |branch|
        invariant index == -1 ==> forall j :: 0 <= j < k ==> branch[j] != leaf
        invariant index != -1 ==> index == FirstIndex(branch, leaf)
        decreases |branch| - k, index == -1
      {
        if branch[k] == leaf {
          index := k;
        } else {
          k := k + 1;
        }
      }
      assert index == FirstIndex(branch, leaf);
      if index == -1 {
        return Failed("key not found in branch");
      }
      var nextProof := 0;
      if index % 2 == 0 && index < |branch| {
        if index + 1 == |branch| {
          return Panic;
        }
        nextProof := branch[index + 1];
      }
      if index % 2 != 0 {
        nextProof := branch[index - 1];
      }
      var newLeaf := MerkleHash(h, leaf, nextProof);
      if newLeaf.Err? {
        return Failed("nextproof error");
      }
      assert Branches[branchIndex..][1..] == Branches[branchIndex + 1..];
      r := RecursiveProof(h, newLeaf.value, branchIndex + 1, hashPath + [nextProof]);
    }
  }

  function Prepend(s: seq<int>, r: Result<seq<int>>): Result<seq<int>> {
    match r
    case Err(e) => Err(e)
    case Ok(t) => Ok(s + t)
  }

  lemma PrependNone(r: Result<seq<int>>)
    ensures Prepend([], r) == r
  {
    if r.Ok? {
      assert [] + r.value == r.value;
    }
  }

  /** The branches of a tree, appended to those before it. */
  lemma LevelsOf(h: PairHash, leaves: seq<int>, before: seq<seq<int>>)
    requires |leaves| >= 1
    ensures |leaves| == 1 ==> Levels(h, leaves) == Ok(([], leaves[0])) && before + [] == before
    ensures |leaves| > 1 && NextLevel(h, leaves).Err? ==> Levels(h, leaves) == Err(NextLevel(h, leaves).error)
    ensures |leaves| > 1 && NextLevel(h, leaves).Ok? ==>
      match Levels(h, NextLevel(h, leaves).value)
      case Err(e) => Levels(h, leaves) == Err(e)
      case Ok((above, root)) =>
        Levels(h, leaves) == Ok(([leaves] + above, root))
        && before + ([leaves] + above) == (before + [leaves]) + above
  {}

  /** One round of build's loop. */
  lemma NextLevelFrom(h: PairHash, level: seq<int>, i: nat)
    requires i < |level|
    ensures NextLevel(h, level[i..])
         == match MerkleHash(h, level[i], if i + 1 < |level| then level[i + 1] else 0)
            case Err(e) => Err(e)
            case Ok(hash) => Prepend([hash], NextLevel(h, if i + 1 < |level| then level[i + 2..] else []))
  {
    if i + 1 < |level| {
      assert level[i..][2..] == level[i + 2..];
    }
  }

  lemma PrependOne(s: seq<int>, x: int, r: Result<seq<int>>)
    ensures Prepend(s, Prepend([x], r)) == Prepend(s + [x], r)
  {
    if r.Ok? {
      assert s + ([x] + r.value) == (s + [x]) + r.value;
    }
  }

  // ---------- shape ----------

  /** The least d with n <= 2^d. */
  function CeilLog2(n: nat): (d: nat)
    requires n >= 1
    decreases n
  {
    if n == 1 then 0 else 1 + CeilLog2((n + 1) / 2)
  }

  lemma {:induction false} CeilLog2Least(n: nat)
    requires n >= 1
    ensures n <= Pow2(CeilLog2(n))
    ensures forall d: nat :: n <= Pow2(d) ==> CeilLog2(n) <= d
    decreases n
  {
    if n > 1 {
      CeilLog2Least((n + 1) / 2);
      forall d: nat | n <= Pow2(d)
        ensures CeilLog2(n) <= d
      {
        assert d > 0;
        assert (n + 1) / 2 <= Pow2(d - 1);
      }
    }
  }

  /** The tree over n leaves has as many levels below the root as log2 n rounded up. */
  lemma {:induction false} LevelCount(h: PairHash, leaves: seq<int>)
    requires |leaves| >= 1 && Levels(h, leaves).Ok?
    ensures |Levels(h, leaves).value.0| == CeilLog2(|leaves|)
    decreases |leaves|
  {
    if |leaves| > 1 {
      LevelCount(h, NextLevel(h, leaves).value);
    }
  }

  /** Node j of the next level is the hash of nodes 2j and its sibling. */
  lemma {:induction false} NextLevelAt(h: PairHash, level: seq<int>, i: nat)
    requires i < |level| && NextLevel(h, level).Ok?
    ensures MerkleHash(h, level[i], Sibling(level, i)) == Ok(NextLevel(h, level).value[i / 2])
    decreases |level|
  {
    if i >= 2 {
      NextLevelAt(h, level[2..], i - 2);
      assert Sibling(level, i) == Sibling(level[2..], i - 2);
    }
  }

  /** z is the hash of x and y, the smaller first. */
  predicate IsHashOf(h: PairHash, x: int, y: int, z: int) {
    h(if x < y then x else y, if x < y then y else x) == Ok(z)
  }

  /** Each two neighbours of the level, the last one of an odd level and 0, have their hash in
      the next one, at half their index. */
  predicate IsLevelAbove(h: PairHash, level: seq<int>, parents: seq<int>) {
    |parents| == (|level| + 1) / 2 && forall j :: 0 <= j < |parents| ==> IsParent(h, level, parents, j)
  }

  predicate IsParent(h: PairHash, level: seq<int>, parents: seq<int>, j: nat)
    requires j < |parents| == (|level| + 1) / 2
  {
    IsHashOf(h, level[2 * j], if 2 * j + 1 < |level| then level[2 * j + 1] else 0, parents[j])
  }

  /** The levels of a tree from the leaves to the root, which stands alone on top. */
  function LevelOf(branches: seq<seq<int>>, root: int, k: nat): seq<int> {
    if k < |branches| then branches[k] else [root]
  }

  predicate LevelFits(h: PairHash, branches: seq<seq<int>>, root: int, k: nat)
    requires k < |branches|
  {
    |branches[k]| >= 2 && IsLevelAbove(h, branches[k], LevelOf(branches, root, k + 1))
  }

  predicate IsTree(h: PairHash, leaves: seq<int>, branches: seq<seq<int>>, root: int) {
    LevelOf(branches, root, 0) == leaves && forall k :: 0 <= k < |branches| ==> LevelFits(h, branches, root, k)
  }

  /** What is left of a level without its first pair. */
  function AfterPair(level: seq<int>): seq<int> {
    if |level| <= 1 then [] else level[2..]
  }

  lemma ParentShift(h: PairHash, level: seq<int>, parents: seq<int>, j: nat)
    requires j + 1 < |parents| == (|level| + 1) / 2
    ensures IsParent(h, AfterPair(level), parents[1..], j) == IsParent(h, level, parents, j + 1)
  {
    hide IsHashOf;
  }

  lemma LevelAboveStep(h: PairHash, level: seq<int>, parents: seq<int>)
    requires |parents| == (|level| + 1) / 2 > 0
    ensures IsLevelAbove(h, level, parents)
       <==> IsParent(h, level, parents, 0) && IsLevelAbove(h, AfterPair(level), parents[1..])
  {
    hide IsParent;
    var rest, above := AfterPair(level), parents[1..];
    forall j | 0 <= j < |above|
      ensures IsParent(h, rest, above, j) == IsParent(h, level, parents, j + 1)
    {
      ParentShift(h, level, parents, j);
    }
    if IsLevelAbove(h, level, parents) {
      forall j | 0 <= j < |above|
        ensures IsParent(h, rest, above, j)
      {
        assert IsParent(h, level, parents, j + 1);
      }
    }
    if IsParent(h, level, parents, 0) && IsLevelAbove(h, rest, above) {
      forall j | 0 <= j < |parents|
        ensures IsParent(h, level, parents, j)
      {
        if j > 0 {
          assert IsParent(h, rest, above, j - 1);
        }
      }
    }
  }

  lemma NextLevelStep(h: PairHash, level: seq<int>, parents: seq<int>)
    requires |parents| == (|level| + 1) / 2 > 0
    ensures NextLevel(h, level) == Ok(parents)
       <==> IsParent(h, level, parents, 0) && NextLevel(h, AfterPair(level)) == Ok(parents[1..])
  {
    assert parents == [parents[0]] + parents[1..];
    var r := NextLevel(h, AfterPair(level));
    if r.Ok? {
      assert ([parents[0]] + r.value)[1..] == r.value;
    }
  }

  lemma {:induction false} NextLevelIff(h: PairHash, level: seq<int>, parents: seq<int>)
    ensures NextLevel(h, level) == Ok(parents) <==> IsLevelAbove(h, level, parents)
    decreases |level|
  {
    if |level| > 0 && |parents| == (|level| + 1) / 2 {
      LevelAboveStep(h, level, parents);
      NextLevelStep(h, level, parents);
      NextLevelIff(h, AfterPair(level), parents[1..]);
      hide NextLevel, IsLevelAbove;
    }
  }

  /** What build makes, said without build: these branches and this root, or an error. */
  lemma {:induction false} TreeIff(h: PairHash, leaves: seq<int>, branches: seq<seq<int>>, root: int)
    requires |leaves| >= 1
    ensures Levels(h, leaves) == Ok((branches, root)) <==> IsTree(h, leaves, branches, root)
    decreases |leaves|
  {
    hide NextLevel, IsLevelAbove;
    if |branches| == 0 {
      TopIff(h, leaves, branches, root);
    } else if |leaves| == 1 {
      TreeBelow(h, leaves, branches, root);
    } else {
      var next, above := LevelOf(branches, root, 1), branches[1..];
      NextLevelIff(h, leaves, next);
      TreeBelow(h, leaves, branches, root);
      LevelShift(h, branches, root, 0);
      if |next| >= 1 && NextLevel(h, leaves) == Ok(next) {
        TreeIff(h, next, above, root);
        LevelsOver(h, leaves, branches, root);
      }
      if Levels(h, leaves) == Ok((branches, root)) {
        var parents := NextLevel(h, leaves).value;
        TreeIff(h, parents, above, root);
        assert LevelOf(above, root, 0) == parents;
      }
    }
  }

  lemma TopIff(h: PairHash, leaves: seq<int>, branches: seq<seq<int>>, root: int)
    requires |leaves| >= 1 && |branches| == 0
    ensures Levels(h, leaves) == Ok((branches, root)) <==> IsTree(h, leaves, branches, root)
  {
    hide NextLevel, IsLevelAbove;
  }

  lemma LevelsOver(h: PairHash, leaves: seq<int>, branches: seq<seq<int>>, root: int)
    requires |leaves| > 1 && |branches| > 0 && NextLevel(h, leaves).Ok?
    ensures Levels(h, leaves) == Ok((branches, root))
       <==> branches[0] == leaves && Levels(h, NextLevel(h, leaves).value) == Ok((branches[1..], root))
  {
    hide NextLevel;
    assert branches == [branches[0]] + branches[1..];
    if Levels(h, NextLevel(h, leaves).value).Ok? {
      var above := Levels(h, NextLevel(h, leaves).value).value.0;
      assert ([leaves] + above)[0] == leaves && ([leaves] + above)[1..] == above;
    }
  }

  lemma TreeBelow(h: PairHash, leaves: seq<int>, branches: seq<seq<int>>, root: int)
    requires |branches| > 0
    ensures IsTree(h, leaves, branches, root)
       <==> branches[0] == leaves && |leaves| >= 2 && IsLevelAbove(h, leaves, LevelOf(branches, root, 1))
            && IsTree(h, LevelOf(branches, root, 1), branches[1..], root)
  {
    hide IsLevelAbove, IsTree;
    if branches[0] == leaves && |leaves| >= 2 && IsLevelAbove(h, leaves, LevelOf(branches, root, 1))
       && IsTree(h, LevelOf(branches, root, 1), branches[1..], root) {
      TreeFrom(h, leaves, branches, root);
    }
    if IsTree(h, leaves, branches, root) {
      TreeWithin(h, leaves, branches, root);
    }
  }

  lemma LevelShift(h: PairHash, branches: seq<seq<int>>, root: int, k: nat)
    requires |branches| > 0
    ensures LevelOf(branches[1..], root, k) == LevelOf(branches, root, k + 1)
    ensures k + 1 < |branches| ==> LevelFits(h, branches[1..], root, k) == LevelFits(h, branches, root, k + 1)
  {
    hide IsLevelAbove;
  }

  lemma TreeFrom(h: PairHash, leaves: seq<int>, branches: seq<seq<int>>, root: int)
    requires |branches| > 0 && branches[0] == leaves && |leaves| >= 2
    requires IsLevelAbove(h, leaves, LevelOf(branches, root, 1))
    requires IsTree(h, LevelOf(branches, root, 1), branches[1..], root)
    ensures IsTree(h, leaves, branches, root)
  {
    hide IsLevelAbove;
    assert LevelFits(h, branches, root, 0);
    hide LevelFits;
    var above := branches[1..];
    forall k | 0 < k < |branches|
      ensures LevelFits(h, branches, root, k)
    {
      LevelShift(h, branches, root, k - 1);
      assert LevelFits(h, above, root, k - 1);
    }
  }

  lemma TreeWithin(h: PairHash, leaves: seq<int>, branches: seq<seq<int>>, root: int)
    requires |branches| > 0 && IsTree(h, leaves, branches, root)
    ensures branches[0] == leaves && |leaves| >= 2 && IsLevelAbove(h, leaves, LevelOf(branches, root, 1))
    ensures IsTree(h, LevelOf(branches, root, 1), branches[1..], root)
  {
    hide IsLevelAbove;
    assert LevelFits(h, branches, root, 0);
    hide LevelFits;
    var above := branches[1..];
    LevelShift(h, branches, root, 0);
    forall k | 0 <= k < |above|
      ensures LevelFits(h, above, root, k)
    {
      LevelShift(h, branches, root, k);
      assert LevelFits(h, branches, root, k + 1);
    }
  }

  /** A level fails with the error of its first pair that does. */
  lemma {:induction false} NextLevelFails(h: PairHash, level: seq<int>, i: nat)
    requires i < |level| && i % 2 == 0 && MerkleHash(h, level[i], Sibling(level, i)).Err?
    requires forall j :: 0 <= j < i ==> MerkleHash(h, level[j], Sibling(level, j)).Ok?
    ensures NextLevel(h, level) == Err(MerkleHash(h, level[i], Sibling(level, i)).error)
    decreases |level|
  {
    hide MerkleHash;
    if i > 0 {
      var rest := level[2..];
      forall j | 0 <= j < |rest|
        ensures rest[j] == level[j + 2] && Sibling(rest, j) == Sibling(level, j + 2)
      {
      }
      NextLevelFails(h, rest, i - 2);
    }
  }

  // ---------- completeness ----------

  /** For every leaf of every tree, repeated leaves and odd levels included: the padded path
      has one entry a level and the check accepts it. */
  lemma {:induction false} PaddedPathAccepted(h: PairHash, leaves: seq<int>, leaf: int)
    requires |leaves| >= 1 && Levels(h, leaves).Ok? && leaf in leaves
    ensures var (branches, root) := Levels(h, leaves).value;
            var path := PaddedPath(h, branches, leaf);
            |path| == CeilLog2(|leaves|) && ProofMerklePath(h, root, leaf, path)
    decreases |leaves|
  {
    if |leaves| > 1 {
      var parents := NextLevel(h, leaves).value;
      var (branches, root) := Levels(h, leaves).value;
      assert branches[0] == leaves && branches[1..] == Levels(h, parents).value.0;
      var index := FirstIndex(leaves, leaf);
      NextLevelAt(h, leaves, index);
      var next := parents[index / 2];
      PaddedPathAccepted(h, parents, next);
      var path := PaddedPath(h, branches, leaf);
      assert path == [Sibling(leaves, index)] + PaddedPath(h, branches[1..], next);
      assert path[1..] == PaddedPath(h, branches[1..], next);
    }
  }

  /** The coded walk never fails on a leaf: it panics exactly where it reaches an unpaired
      tail, and otherwise returns the padded path. */
  lemma {:induction false} ProofOfLeaf(h: PairHash, leaves: seq<int>, leaf: int, hashPath: seq<int>)
    requires |leaves| >= 1 && Levels(h, leaves).Ok? && leaf in leaves
    ensures var branches := Levels(h, leaves).value.0;
            ProofFrom(h, branches, leaf, hashPath)
            == if HitsTail(h, branches, leaf) then Panic else Path(hashPath + PaddedPath(h, branches, leaf))
    decreases |leaves|
  {
    var (branches, root) := Levels(h, leaves).value;
    if |leaves| == 1 {
      assert hashPath + [] == hashPath;
    } else {
      var parents := NextLevel(h, leaves).value;
      assert branches[0] == leaves && branches[1..] == Levels(h, parents).value.0;
      var index := FirstIndex(leaves, leaf);
      NextLevelAt(h, leaves, index);
      var next := parents[index / 2];
      var s := Sibling(leaves, index);
      ProofOfLeaf(h, parents, next, hashPath + [s]);
      assert (hashPath + [s]) + PaddedPath(h, branches[1..], next)
          == hashPath + ([s] + PaddedPath(h, branches[1..], next));
    }
  }

  /** Completeness of the code: Proof of a leaf panics or yields one entry a level that
      ProofMerklePath accepts. */
  lemma ProofComplete(h: PairHash, leaves: seq<int>, leaf: int)
    requires |leaves| >= 1 && Levels(h, leaves).Ok? && leaf in leaves
    ensures var (branches, root) := Levels(h, leaves).value;
            var r := ProofFrom(h, branches, leaf, []);
            (r.Panic? <==> HitsTail(h, branches, leaf)) &&
            (!HitsTail(h, branches, leaf) ==>
              r.Path? && |r.path| == CeilLog2(|leaves|) && ProofMerklePath(h, root, leaf, r.path))
  {
    ProofOfLeaf(h, leaves, leaf, []);
    PaddedPathAccepted(h, leaves, leaf);
    var path := PaddedPath(h, Levels(h, leaves).value.0, leaf);
    assert [] + path == path;
  }

  /** A value that is no leaf has no proof; the tree of one leaf has no level to look it up in,
      so there everything gets the empty path. */
  lemma NoLeafNoProof(h: PairHash, leaves: seq<int>, leaf: int)
    requires |leaves| >= 1 && Levels(h, leaves).Ok? && leaf !in leaves
    ensures ProofFrom(h, Levels(h, leaves).value.0, leaf, [])
         == if |leaves| == 1 then Path([]) else Failed("key not found in branch")
  {
    if |leaves| > 1 {
      assert Levels(h, leaves).value.0[0] == leaves;
    }
  }

  predicate IsPow2(n: nat) { n >= 1 && n == Pow2(CeilLog2(n)) }

  /** A power of two of leaves has no odd level, so no proof panics. */
  lemma {:induction false} PowerOfTwoNeverPanics(h: PairHash, leaves: seq<int>, leaf: int)
    requires |leaves| >= 1 && Levels(h, leaves).Ok? && IsPow2(|leaves|)
    ensures !HitsTail(h, Levels(h, leaves).value.0, leaf)
    decreases |leaves|
  {
    if |leaves| > 1 {
      var parents := NextLevel(h, leaves).value;
      var branches := Levels(h, leaves).value.0;
      assert branches[0] == leaves && branches[1..] == Levels(h, parents).value.0;
      assert |leaves| == 2 * Pow2(CeilLog2((|leaves| + 1) / 2));
      var index := FirstIndex(leaves, leaf);
      if index >= 0 {
        match MerkleHash(h, leaf, Sibling(leaves, index))
        case Err(_) =>
        case Ok(next) => PowerOfTwoNeverPanics(h, parents, next);
      }
    }
  }

  predicate Distinct(level: seq<int>) {
    forall i, j :: 0 <= i < j < |level| ==> level[i] != level[j]
  }

  predicate NoRepeats(branches: seq<seq<int>>) {
    forall k :: 0 <= k < |branches| ==> Distinct(branches[k])
  }

  lemma OneIsPow2()
    ensures IsPow2(1)
  {
    Pow2Zero();
  }

  lemma PowerOfTwoHalf(n: nat)
    requires n >= 2 && n % 2 == 0
    ensures IsPow2(n) <==> IsPow2(n / 2)
  {}

  lemma NoRepeatsAbove(branches: seq<seq<int>>)
    requires |branches| > 0 && NoRepeats(branches)
    ensures NoRepeats(branches[1..])
  {}

  lemma LastIsFirst(level: seq<int>)
    requires |level| >= 1 && Distinct(level)
    ensures FirstIndex(level, level[|level| - 1]) == |level| - 1
  {
    assert level[|level| - 1] in level;
  }

  /** Any other number of leaves panics on its last leaf, unless values repeat in a level. */
  lemma {:induction false} LastLeafPanics(h: PairHash, leaves: seq<int>)
    requires |leaves| >= 1 && Levels(h, leaves).Ok? && !IsPow2(|leaves|)
    requires NoRepeats(Levels(h, leaves).value.0)
    ensures HitsTail(h, Levels(h, leaves).value.0, leaves[|leaves| - 1])
    decreases |leaves|
  {
    hide Pow2, NextLevel, CeilLog2;
    var branches := Levels(h, leaves).value.0;
    var last := |leaves| - 1;
    var leaf := leaves[last];
    OneIsPow2();
    if |leaves| > 1 {
      var parents := NextLevel(h, leaves).value;
      var above := Levels(h, parents).value.0;
      assert branches[0] == leaves && branches[1..] == above;
      LastIsFirst(branches[0]);
      if last % 2 == 1 {
        NextLevelAt(h, leaves, last);
        assert |parents| - 1 == last / 2;
        PowerOfTwoHalf(|leaves|);
        NoRepeatsAbove(branches);
        LastLeafPanics(h, parents);
      }
    }
  }

  /** Where no level repeats a value, Proof serves every leaf exactly when their number is a
      power of two. */
  lemma EveryDifferentLeafProvable(h: PairHash, leaves: seq<int>)
    requires |leaves| >= 1 && Levels(h, leaves).Ok? && NoRepeats(Levels(h, leaves).value.0)
    ensures (forall leaf :: leaf in leaves ==> ProofFrom(h, Levels(h, leaves).value.0, leaf, []).Path?)
       <==> IsPow2(|leaves|)
  {
    var branches := Levels(h, leaves).value.0;
    forall leaf | leaf in leaves
      ensures ProofFrom(h, branches, leaf, []).Path? <==> !HitsTail(h, branches, leaf)
    {
      ProofOfLeaf(h, leaves, leaf, []);
    }
    if IsPow2(|leaves|) {
      forall leaf | leaf in leaves
        ensures !HitsTail(h, branches, leaf)
      {
        PowerOfTwoNeverPanics(h, leaves, leaf);
      }
    } else {
      LastLeafPanics(h, leaves);
    }
  }

  /** Going up from node i of n, some level with more than one node ends, unpaired, in the node
      reached. */
  predicate TailAt(i: nat, n: nat) {
    n > 1 && ((i % 2 == 0 && i + 1 == n) || TailAt(i / 2, (n + 1) / 2))
  }

  lemma {:induction false} TailAbove(i: nat, j: nat, n: nat)
    requires i <= j < n && TailAt(i, n)
    ensures TailAt(j, n)
    decreases n
  {
    if !(j % 2 == 0 && j + 1 == n) {
      TailAbove(i / 2, j / 2, (n + 1) / 2);
    }
  }

  /** The walk panics only where the index of the leaf says so. Where no level repeats a value
      the index says so exactly; a repeat can only move the walk to the left, off the tail. */
  lemma {:induction false} TailReached(h: PairHash, leaves: seq<int>, i: nat)
    requires |leaves| >= 1 && Levels(h, leaves).Ok? && i < |leaves|
    ensures var branches := Levels(h, leaves).value.0;
            (HitsTail(h, branches, leaves[i]) ==> TailAt(i, |leaves|)) &&
            (NoRepeats(branches) && TailAt(i, |leaves|) ==> HitsTail(h, branches, leaves[i]))
    decreases |leaves|
  {
    hide NextLevel, Sibling;
    if |leaves| > 1 {
      var parents := NextLevel(h, leaves).value;
      var branches := Levels(h, leaves).value.0;
      assert branches[0] == leaves && branches[1..] == Levels(h, parents).value.0;
      var j := FirstIndex(leaves, leaves[i]);
      assert leaves[i] in leaves;
      assert j <= i;
      NextLevelAt(h, leaves, j);
      TailReached(h, parents, j / 2);
      if TailAt(j, |leaves|) {
        TailAbove(j, i, |leaves|);
      }
      if NoRepeats(branches) {
        assert Distinct(branches[0]);
        NoRepeatsAbove(branches);
      }
    }
  }

  /** Two pairs of one level hash alike without being the same pair. */
  predicate PairsCollide(h: PairHash, level: seq<int>) {
    exists i, j :: 0 <= i < j < |level| &&
      MerkleHash(h, level[i], Sibling(level, i)) == MerkleHash(h, level[j], Sibling(level, j)) &&
      !SamePair(level[i], Sibling(level, i), level[j], Sibling(level, j))
  }

  lemma ParentsDistinct(h: PairHash, level: seq<int>)
    requires NextLevel(h, level).Ok? && Distinct(level)
    ensures Distinct(NextLevel(h, level).value) || PairsCollide(h, level)
  {
    hide NextLevel, MerkleHash;
    var parents := NextLevel(h, level).value;
    if i, j :| 0 <= i < j < |parents| && parents[i] == parents[j] {
      NextLevelAt(h, level, 2 * i);
      NextLevelAt(h, level, 2 * j);
      assert !SamePair(level[2 * i], Sibling(level, 2 * i), level[2 * j], Sibling(level, 2 * j));
    }
  }

  /** Different leaves give a tree without repeats, or a level of it holds a collision. */
  lemma {:induction false} RepeatMeansCollision(h: PairHash, leaves: seq<int>)
    requires |leaves| >= 1 && Levels(h, leaves).Ok? && Distinct(leaves)
    ensures var branches := Levels(h, leaves).value.0;
            NoRepeats(branches) || SomeCollision(h, branches)
    decreases |leaves|
  {
    hide NextLevel, PairsCollide, Distinct;
    if |leaves| > 1 {
      var parents := NextLevel(h, leaves).value;
      var branches := Levels(h, leaves).value.0;
      var above := Levels(h, parents).value.0;
      assert branches[0] == leaves && branches[1..] == above;
      ParentsDistinct(h, leaves);
      if PairsCollide(h, leaves) {
        assert PairsCollide(h, branches[0]);
      } else {
        RepeatMeansCollision(h, parents);
        if k :| 0 <= k < |above| && PairsCollide(h, above[k]) {
          assert PairsCollide(h, branches[k + 1]);
        }
      }
    }
  }

  /** The first occurrence of a node leads to the first occurrence of its parent. */
  lemma FirstParent(h: PairHash, level: seq<int>, v: int)
    requires NextLevel(h, level).Ok? && v in level
    ensures var parents, i := NextLevel(h, level).value, FirstIndex(level, v);
            FirstIndex(parents, parents[i / 2]) == i / 2 || PairsCollide(h, level)
  {
    hide NextLevel, MerkleHash, Sibling, PairsCollide, SamePair;
    var parents, i := NextLevel(h, level).value, FirstIndex(level, v);
    assert parents[i / 2] in parents;
    var j := FirstIndex(parents, parents[i / 2]);
    if j < i / 2 {
      NextLevelAt(h, level, i);
      NextLevelAt(h, level, 2 * j);
      EarlierPair(level, v, 2 * j);
      CollideAt(h, level, 2 * j, i);
    }
  }

  /** A pair of nodes before the first occurrence of v does not hold v. */
  lemma EarlierPair(level: seq<int>, v: int, e: nat)
    requires v in level && e % 2 == 0 && e + 2 <= FirstIndex(level, v)
    ensures !SamePair(level[e], Sibling(level, e), v, Sibling(level, FirstIndex(level, v)))
  {
    assert level[e] != v && level[e + 1] != v;
  }

  lemma CollideAt(h: PairHash, level: seq<int>, i: nat, j: nat)
    requires i < j < |level|
    requires MerkleHash(h, level[i], Sibling(level, i)) == MerkleHash(h, level[j], Sibling(level, j))
    requires !SamePair(level[i], Sibling(level, i), level[j], Sibling(level, j))
    ensures PairsCollide(h, level)
  {
    hide MerkleHash, Sibling, SamePair;
  }

  predicate SomeCollision(h: PairHash, branches: seq<seq<int>>) {
    exists k :: 0 <= k < |branches| && PairsCollide(h, branches[k])
  }

  /** The index of a leaf's first occurrence decides whether the walk meets an unpaired tail. */
  lemma {:induction false} FirstIndexDecides(h: PairHash, leaves: seq<int>, leaf: int)
    requires |leaves| >= 1 && Levels(h, leaves).Ok? && leaf in leaves
    ensures var branches := Levels(h, leaves).value.0;
            (HitsTail(h, branches, leaf) <==> TailAt(FirstIndex(leaves, leaf), |leaves|)) || SomeCollision(h, branches)
    decreases |leaves|
  {
    hide NextLevel, MerkleHash, PairsCollide, Sibling;
    if |leaves| > 1 {
      var parents := NextLevel(h, leaves).value;
      var branches := Levels(h, leaves).value.0;
      var above := Levels(h, parents).value.0;
      assert branches[0] == leaves && branches[1..] == above;
      var i := FirstIndex(leaves, leaf);
      NextLevelAt(h, leaves, i);
      FirstParent(h, leaves, leaf);
      FirstIndexDecides(h, parents, parents[i / 2]);
      if k :| 0 <= k < |above| && PairsCollide(h, above[k]) {
        assert PairsCollide(h, branches[k + 1]);
      }
    }
  }

  /** Which leaves have no proof is decided by the index of their first occurrence and the
      number of leaves, in every tree, repeats included, in which no two pairs of a level
      collide. A collision can only spare a leaf the panic. */
  lemma LeafProvableIff(h: PairHash, leaves: seq<int>, leaf: int)
    requires |leaves| >= 1 && Levels(h, leaves).Ok? && leaf in leaves
    ensures var branches := Levels(h, leaves).value.0;
            var r := ProofFrom(h, branches, leaf, []);
            (r.Path? || r.Panic?) &&
            (r.Panic? ==> TailAt(FirstIndex(leaves, leaf), |leaves|)) &&
            ((r.Panic? <==> TailAt(FirstIndex(leaves, leaf), |leaves|)) || SomeCollision(h, branches))
  {
    hide TailAt, HitsTail, Levels, SomeCollision;
    ProofOfLeaf(h, leaves, leaf, []);
    TailReached(h, leaves, FirstIndex(leaves, leaf));
    FirstIndexDecides(h, leaves, leaf);
  }

  /** Among different leaves a leaf's index is that of its first occurrence. */
  lemma DifferentLeafProvableIff(h: PairHash, leaves: seq<int>, i: nat)
    requires |leaves| >= 1 && Levels(h, leaves).Ok? && Distinct(leaves) && i < |leaves|
    ensures var branches := Levels(h, leaves).value.0;
            (ProofFrom(h, branches, leaves[i], []).Panic? <==> TailAt(i, |leaves|)) || SomeCollision(h, branches)
  {
    hide TailAt, ProofFrom, Levels, SomeCollision;
    assert leaves[i] in leaves;
    LeafProvableIff(h, leaves, leaves[i]);
  }

  /** The last index at which a value occurs for the first time. */
  function LastNew(leaves: seq<int>): (i: nat)
    requires |leaves| >= 1
    ensures i < |leaves|
  {
    var n := |leaves| - 1;
    if leaves[n] in leaves[..n] then LastNew(leaves[..n]) else n
  }

  /** An index is that of a first occurrence if the value is not in front of it. */
  lemma FirstOccurrence(leaves: seq<int>, i: nat)
    requires i < |leaves| && leaves[i] !in leaves[..i]
    ensures FirstIndex(leaves, leaves[i]) == i
  {
    assert leaves[i] in leaves;
    forall j | 0 <= j < i
      ensures leaves[j] != leaves[i]
    {
      assert leaves[..i][j] == leaves[j];
    }
  }

  /** The value at i is not in front of it. */
  predicate IsNew(leaves: seq<int>, i: nat)
    requires i < |leaves|
  {
    leaves[i] !in leaves[..i]
  }

  lemma NewInPrefix(leaves: seq<int>, n: nat, i: nat)
    requires i < n <= |leaves|
    ensures IsNew(leaves[..n], i) == IsNew(leaves, i)
  {
    assert leaves[..n][..i] == leaves[..i];
  }

  lemma {:induction false} LastNewIsNew(leaves: seq<int>)
    requires |leaves| >= 1
    ensures IsNew(leaves, LastNew(leaves))
    ensures forall i :: LastNew(leaves) < i < |leaves| ==> !IsNew(leaves, i)
    decreases |leaves|
  {
    var n := |leaves| - 1;
    var front := leaves[..n];
    assert IsNew(leaves, n) == (leaves[n] !in front);
    if leaves[n] in front {
      LastNewIsNew(front);
      hide IsNew;
      NewInPrefix(leaves, n, LastNew(front));
      forall i | LastNew(front) < i < n
        ensures !IsNew(leaves, i)
      {
        NewInPrefix(leaves, n, i);
      }
    }
  }

  lemma LastNewIsLast(leaves: seq<int>)
    requires |leaves| >= 1
    ensures FirstIndex(leaves, leaves[LastNew(leaves)]) == LastNew(leaves)
    ensures forall leaf :: leaf in leaves ==> FirstIndex(leaves, leaf) <= LastNew(leaves)
  {
    hide LastNew;
    LastNewIsNew(leaves);
    FirstOccurrence(leaves, LastNew(leaves));
    forall leaf | leaf in leaves
      ensures FirstIndex(leaves, leaf) <= LastNew(leaves)
    {
      assert IsNew(leaves, FirstIndex(leaves, leaf));
    }
  }

  /** Every leaf, repeated or not, has a proof exactly when the last value to appear for the
      first time does so clear of the tail. */
  lemma EveryLeafProvable(h: PairHash, leaves: seq<int>)
    requires |leaves| >= 1 && Levels(h, leaves).Ok?
    ensures var branches := Levels(h, leaves).value.0;
            ((forall leaf :: leaf in leaves ==> ProofFrom(h, branches, leaf, []).Path?)
              <==> !TailAt(LastNew(leaves), |leaves|)) || SomeCollision(h, branches)
  {
    hide ProofFrom, Levels, SomeCollision, TailAt;
    var branches := Levels(h, leaves).value.0;
    LastNewIsLast(leaves);
    var last := leaves[LastNew(leaves)];
    assert last in leaves;
    LeafProvableIff(h, leaves, last);
    forall leaf | leaf in leaves && !TailAt(LastNew(leaves), |leaves|)
      ensures ProofFrom(h, branches, leaf, []).Path?
    {
      LeafProvableIff(h, leaves, leaf);
      if TailAt(FirstIndex(leaves, leaf), |leaves|) {
        TailAbove(FirstIndex(leaves, leaf), LastNew(leaves), |leaves|);
      }
    }
  }

  /** The shortest case: with three different leaves the third has no proof. */
  lemma ThirdOfThreePanics(h: PairHash)
    requires Levels(h, [1, 2, 3]).Ok?
    ensures ProofFrom(h, Levels(h, [1, 2, 3]).value.0, 3, []) == Panic
  {
    var leaves := [1, 2, 3];
    assert Levels(h, leaves).value.0[0] == leaves;
    assert FirstIndex(leaves, 3) == 2;
  }

  // ---------- soundness ----------

  predicate SamePair(x: int, y: int, x': int, y': int) {
    (x == x' && y == y') || (x == y' && y == x')
  }

  /** The pair (x, y) hashes to the padding 0, or to a node of the tree built from another pair. */
  predicate ForgedPair(h: PairHash, level: seq<int>, x: int, y: int) {
    MerkleHash(h, x, y) == Ok(0) ||
    exists i :: 0 <= i < |level| && MerkleHash(h, x, y) == MerkleHash(h, level[i], Sibling(level, i))
                && MerkleHash(h, x, y).Ok? && !SamePair(x, y, level[i], Sibling(level, i))
  }

  /** Some pair hashed while checking the path is forged against its level of the tree. */
  predicate Forged(h: PairHash, branches: seq<seq<int>>, leaf: int, path: seq<int>) {
    |branches| > 0 && |path| > 0 &&
    (ForgedPair(h, branches[0], leaf, path[0]) ||
     match MerkleHash(h, leaf, path[0])
     case Err(_) => false
     case Ok(next) => Forged(h, branches[1..], next, path[1..]))
  }

  /** hs are the hashes on the way up: the leaf, then each the hash of the one before and the
      next entry of the path. */
  predicate Climbs(h: PairHash, leaf: int, path: seq<int>, hs: seq<int>) {
    |hs| == |path| + 1 && hs[0] == leaf &&
    forall i :: 0 <= i < |path| ==> IsHashOf(h, hs[i], path[i], hs[i + 1])
  }

  /** What the check accepts, said without the check: the way up exists and ends in the root. */
  lemma {:induction false} ProofMerklePathIff(h: PairHash, root: int, leaf: int, path: seq<int>)
    ensures ProofMerklePath(h, root, leaf, path) <==> exists hs :: Climbs(h, leaf, path, hs) && hs[|path|] == root
    decreases |path|
  {
    if |path| == 0 {
      assert Climbs(h, leaf, path, [leaf]);
    } else {
      var first := MerkleHash(h, leaf, path[0]);
      if first.Ok? {
        ProofMerklePathIff(h, root, first.value, path[1..]);
        forall hs
          ensures Climbs(h, first.value, path[1..], hs) ==> Climbs(h, leaf, path, [leaf] + hs)
        {
          ClimbBefore(h, leaf, path, first.value, hs);
        }
        forall hs | |hs| > 0
          ensures Climbs(h, leaf, path, hs) ==> Climbs(h, first.value, path[1..], hs[1..])
        {
          ClimbAfter(h, leaf, path, hs);
        }
        hide Climbs, MerkleHash;
        if hs :| Climbs(h, first.value, path[1..], hs) && hs[|path| - 1] == root {
          assert ([leaf] + hs)[|path|] == root;
        }
        if hs :| Climbs(h, leaf, path, hs) && hs[|path|] == root {
          assert hs[1..][|path| - 1] == root;
        }
      } else {
        forall hs
          ensures !Climbs(h, leaf, path, hs)
        {
          assert Climbs(h, leaf, path, hs) ==> IsHashOf(h, hs[0], path[0], hs[1]);
        }
      }
    }
  }

  lemma ClimbBefore(h: PairHash, leaf: int, path: seq<int>, next: int, hs: seq<int>)
    requires |path| > 0 && MerkleHash(h, leaf, path[0]) == Ok(next)
    ensures Climbs(h, next, path[1..], hs) ==> Climbs(h, leaf, path, [leaf] + hs)
  {
    if Climbs(h, next, path[1..], hs) {
      var all := [leaf] + hs;
      forall i | 0 <= i < |path|
        ensures IsHashOf(h, all[i], path[i], all[i + 1])
      {
        if i > 0 {
          assert IsHashOf(h, hs[i - 1], path[1..][i - 1], hs[i]);
        }
      }
    }
  }

  lemma ClimbAfter(h: PairHash, leaf: int, path: seq<int>, hs: seq<int>)
    requires |path| > 0 && |hs| > 0 && MerkleHash(h, leaf, path[0]).Ok?
    ensures Climbs(h, leaf, path, hs) ==> Climbs(h, MerkleHash(h, leaf, path[0]).value, path[1..], hs[1..])
  {
    if Climbs(h, leaf, path, hs) {
      assert IsHashOf(h, hs[0], path[0], hs[1]);
      forall i | 0 <= i < |path| - 1
        ensures IsHashOf(h, hs[1..][i], path[1..][i], hs[1..][i + 1])
      {
        assert IsHashOf(h, hs[i + 1], path[i + 1], hs[i + 1 + 1]);
      }
    }
  }

  /** Soundness as a reduction: an accepted path with one entry a level starts at a leaf or at
      the padding 0, or else the check itself hashed a forged pair. */
  lemma {:induction false} PathSound(h: PairHash, leaves: seq<int>, leaf: int, path: seq<int>)
    requires |leaves| >= 1 && Levels(h, leaves).Ok?
    requires |path| == |Levels(h, leaves).value.0|
    requires ProofMerklePath(h, Levels(h, leaves).value.1, leaf, path)
    ensures leaf in leaves || leaf == 0 || Forged(h, Levels(h, leaves).value.0, leaf, path)
    decreases |leaves|
  {
    hide NextLevel, MerkleHash, ForgedPair;
    if |leaves| > 1 {
      var parents := NextLevel(h, leaves).value;
      var branches := Levels(h, leaves).value.0;
      assert branches[0] == leaves && branches[1..] == Levels(h, parents).value.0;
      var next := MerkleHash(h, leaf, path[0]).value;
      PathSound(h, parents, next, path[1..]);
      if next in parents || next == 0 {
        GenuineOrForged(h, leaves, leaf, path[0]);
      }
    }
  }

  /** A pair that hashes to a parent, or to 0, is forged or starts at one of the nodes or at 0. */
  lemma GenuineOrForged(h: PairHash, level: seq<int>, x: int, y: int)
    requires NextLevel(h, level).Ok? && MerkleHash(h, x, y).Ok?
    requires MerkleHash(h, x, y).value in NextLevel(h, level).value || MerkleHash(h, x, y).value == 0
    ensures x in level || x == 0 || ForgedPair(h, level, x, y)
  {
    hide NextLevel, MerkleHash;
    var parents, next := NextLevel(h, level).value, MerkleHash(h, x, y).value;
    if j :| 0 <= j < |parents| && parents[j] == next {
      NextLevelAt(h, level, 2 * j);
      assert SamePair(x, y, level[2 * j], Sibling(level, 2 * j)) || ForgedPair(h, level, x, y);
    }
  }

  /** On the numbers D, which hold the padding 0 and every hash of their pairs, no hash is 0 and
      different pairs have different hashes. */
  ghost predicate IdealOn(h: PairHash, D: iset<int>) {
    0 in D &&
    (forall x, y :: x in D && y in D && MerkleHash(h, x, y).Ok? ==>
      MerkleHash(h, x, y).value in D && MerkleHash(h, x, y).value != 0) &&
    (forall x, y, x', y' :: x in D && y in D && x' in D && y' in D ==>
      (MerkleHash(h, x, y).Ok? && MerkleHash(h, x, y) == MerkleHash(h, x', y') ==> SamePair(x, y, x', y')))
  }

  ghost predicate AllIn(s: seq<int>, D: iset<int>) {
    forall i :: 0 <= i < |s| ==> s[i] in D
  }

  /** Soundness for an ideal hash, over the numbers it is ideal on. */
  lemma PathSoundIdeal(h: PairHash, D: iset<int>, leaves: seq<int>, leaf: int, path: seq<int>)
    requires |leaves| >= 1 && Levels(h, leaves).Ok?
    requires |path| == |Levels(h, leaves).value.0|
    requires ProofMerklePath(h, Levels(h, leaves).value.1, leaf, path)
    requires IdealOn(h, D) && AllIn(leaves, D) && leaf in D && AllIn(path, D)
    ensures leaf in leaves || leaf == 0
  {
    PathSound(h, leaves, leaf, path);
    NothingForged(h, D, leaves, leaf, path);
  }

  lemma ParentsIn(h: PairHash, D: iset<int>, level: seq<int>)
    requires IdealOn(h, D) && AllIn(level, D) && NextLevel(h, level).Ok?
    ensures AllIn(NextLevel(h, level).value, D)
  {
    hide NextLevel;
    var parents := NextLevel(h, level).value;
    forall j | 0 <= j < |parents|
      ensures parents[j] in D
    {
      NextLevelAt(h, level, 2 * j);
    }
  }

  lemma PairGenuine(h: PairHash, D: iset<int>, level: seq<int>, x: int, y: int)
    requires IdealOn(h, D) && AllIn(level, D) && x in D && y in D
    ensures !ForgedPair(h, level, x, y)
    ensures MerkleHash(h, x, y).Ok? ==> MerkleHash(h, x, y).value in D
  {
    hide MerkleHash;
  }

  lemma {:induction false} NothingForged(h: PairHash, D: iset<int>, leaves: seq<int>, leaf: int, path: seq<int>)
    requires |leaves| >= 1 && Levels(h, leaves).Ok?
    requires IdealOn(h, D) && AllIn(leaves, D) && leaf in D && AllIn(path, D)
    ensures !Forged(h, Levels(h, leaves).value.0, leaf, path)
    decreases |leaves|
  {
    hide NextLevel, IdealOn, ForgedPair, MerkleHash;
    if |leaves| > 1 && |path| > 0 {
      var parents := NextLevel(h, leaves).value;
      var branches := Levels(h, leaves).value.0;
      assert branches[0] == leaves && branches[1..] == Levels(h, parents).value.0;
      ParentsIn(h, D, leaves);
      PairGenuine(h, D, leaves, leaf, path[0]);
      if MerkleHash(h, leaf, path[0]).Ok? {
        NothingForged(h, D, parents, MerkleHash(h, leaf, path[0]).value, path[1..]);
      }
    }
  }

  predicate Natural(x: int) { x >= 0 }

  /** A pairing of the natural numbers that is never 0. */
  function Spread(x: int, y: int): Result<int> {
    Ok((x + y) * (x + y) + x + 1)
  }

  /** Such hashes exist, total ones on the natural numbers. On a finite D a total hash cannot be
      one, as it has fewer values than pairs; there `PathSound` is the statement. */
  lemma IdealHashExists()
    ensures IdealOn(Spread, iset x | Natural(x))
  {
    forall x, y | Natural(x) && Natural(y)
      ensures MerkleHash(Spread, x, y).value > 0
    {
      SpreadPositive(if x <= y then x else y, if x <= y then y else x);
    }
    forall x, y, x', y' | Natural(x) && Natural(y) && Natural(x') && Natural(y')
                          && MerkleHash(Spread, x, y) == MerkleHash(Spread, x', y')
      ensures SamePair(x, y, x', y')
    {
      SquaresApart(x + y, if x <= y then x else y, x' + y', if x' <= y' then x' else y');
    }
    hide Spread;
  }

  lemma SpreadPositive(x: nat, y: nat)
    ensures Spread(x, y).value > 0
  {}

  lemma SquaresApart(s: int, a: int, t: int, b: int)
    requires 0 <= a <= s && 0 <= b <= t && s * s + a == t * t + b
    ensures s == t && a == b
  {
    if s < t {
      SquareGap(s, t);
    } else if t < s {
      SquareGap(t, s);
    }
  }

  lemma {:induction false} SquareGap(s: nat, t: nat)
    requires s < t
    ensures t * t > s * s + s
    decreases t
  {
    var u := t - 1;
    assert t * t == u * u + 2 * u + 1;
    if s < u {
      SquareGap(s, u);
    }
  }

  /** The hash after n entries of the path. */
  function Running(h: PairHash, leaf: int, path: seq<int>, n: nat): Result<int>
    requires n <= |path|
    decreases n
  {
    if n == 0 then Ok(leaf)
    else
      match MerkleHash(h, leaf, path[0])
      case Err(e) => Err(e)
      case Ok(next) => Running(h, next, path[1..], n - 1)
  }

  /** Which entry of the path the forged pair is hashed at. */
  lemma {:induction false} ForgedAt(h: PairHash, branches: seq<seq<int>>, leaf: int, path: seq<int>)
    requires |path| <= |branches| && Forged(h, branches, leaf, path)
    ensures exists n :: 0 <= n < |path| && Running(h, leaf, path, n).Ok?
              && ForgedPair(h, branches[n], Running(h, leaf, path, n).value, path[n])
  {
    hide ForgedPair;
    if ForgedPair(h, branches[0], leaf, path[0]) {
      assert Running(h, leaf, path, 0) == Ok(leaf);
    } else {
      var next := MerkleHash(h, leaf, path[0]).value;
      ForgedAt(h, branches[1..], next, path[1..]);
      var n :| 0 <= n < |path| - 1 && Running(h, next, path[1..], n).Ok?
        && ForgedPair(h, branches[1..][n], Running(h, next, path[1..], n).value, path[1..][n]);
      assert Running(h, leaf, path, n + 1) == Running(h, next, path[1..], n);
      assert branches[1..][n] == branches[n + 1] && path[1..][n] == path[n + 1];
    }
  }

  /** The check does not bound the path's length: a parent is accepted with the shorter path. */
  lemma ParentAccepted(h: PairHash, leaves: seq<int>, node: int)
    requires |leaves| >= 2 && Levels(h, leaves).Ok? && node in NextLevel(h, leaves).value
    ensures var (branches, root) := Levels(h, leaves).value;
            var path := PaddedPath(h, branches[1..], node);
            |path| == CeilLog2(|leaves|) - 1 && ProofMerklePath(h, root, node, path)
  {
    PaddedPathAccepted(h, NextLevel(h, leaves).value, node);
    var branches := Levels(h, leaves).value.0;
    assert branches[1..] == Levels(h, NextLevel(h, leaves).value).value.0;
  }
}
