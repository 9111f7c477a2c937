/** Transaction hashes (account/account.go, hash/hash.go, rpc/types_transaction.go): what is
    hashed, and that it determines the transaction. */
module Transactions {
  import opened Results
  import opened NumberTheory
  import opened Powers
  import opened Octets
  import opened Hex

  const FIELD_PRIME: int := 3618502788666131213697322783095070105623107215331596699973092056135872020481

  type felt = x: int | 0 <= x < 3618502788666131213697322783095070105623107215331596699973092056135872020481

  /** felt.SetBytes: big-endian, reduced. */
  function SetBytes(s: seq<byte>): felt {
    Value(s) % FIELD_PRIME
  }

  /** The ASCII bytes of a name. */
  function Ascii(s: string): seq<byte> {
    seq(|s|, i requires 0 <= i < |s| => (s[i] as int) % 256)
  }

  const PREFIX_TRANSACTION: felt := SetBytes(Ascii("invoke"))
  const PREFIX_DECLARE: felt := SetBytes(Ascii("declare"))
  const PREFIX_DEPLOY_ACCOUNT: felt := SetBytes(Ascii("deploy_account"))

  /** Library code and the account's chain: felt.SetString, Poseidon, the Pedersen list hash. */
  datatype Env = Env(
    parseFelt: string -> Option<felt>,
    poseidon: seq<felt> -> felt,
    pedersen: seq<felt> -> Result<felt>,
    chainId: felt)

  /** The same library on another chain. */
  function On(env: Env, chain: felt): Env {
    env.(chainId := chain)
  }

  // ---------- resource bounds, tip, data availability ----------

  datatype ResourceBounds = ResourceBounds(maxAmount: string, maxPricePerUnit: string)
  datatype Bounds = Bounds(l1Gas: ResourceBounds, l2Gas: ResourceBounds)

  const NO_BOUNDS := Bounds(ResourceBounds("", ""), ResourceBounds("", ""))

  /** ResourceBounds.Bytes: a zero byte, the resource name, the amount in 8 bytes, and the low
      16 bytes of the price. */
  function BoundsBytes(env: Env, rb: ResourceBounds, resource: string): Result<seq<byte>> {
    match ToUint64(rb.maxAmount)
    case None => Err("failed to parse hex string")
    case Some(amount) =>
      match env.parseFelt(rb.maxPricePerUnit)
      case None => Err("felt")
      case Some(price) =>
        Int2OctetsValue(price, 32);
        Ok([0] + Ascii(resource) + Int2Octets(amount, 8) + Int2Octets(price, 32)[16..])
  }

  function TipAndResources(env: Env, tip: nat, bounds: Bounds): Result<seq<felt>>
    requires tip < 0x1_0000_0000_0000_0000
  {
    match BoundsBytes(env, bounds.l1Gas, "L1_GAS")
    case Err(e) => Err(e)
    case Ok(l1) =>
      match BoundsBytes(env, bounds.l2Gas, "L2_GAS")
      case Err(e) => Err(e)
      case Ok(l2) => Ok([tip as felt, SetBytes(l1), SetBytes(l2)])
  }

  function ModeBit(mode: string): Option<nat> {
    if mode == "L1" then Some(0) else if mode == "L2" then Some(1) else None
  }

  function DataAvailabilityMode(feeMode: string, nonceMode: string): (r: Option<nat>)
    ensures r.Some? ==> r.value <= 0x1_0000_0001
  {
    match (ModeBit(feeMode), ModeBit(nonceMode))
    case (Some(fee), Some(nonce)) => Some(fee + nonce * 0x1_0000_0000)
    case _ => None
  }

  // ---------- transactions ----------

  /** The fields every V3 transaction carries. */
  datatype V3 = V3(
    version: string, nonce: Option<felt>, resourceBounds: Bounds, tip: string,
    payMasterData: Option<seq<felt>>, nonceDataMode: string, feeMode: string)

  /** One request for a hash; a deployment comes with the address it was precomputed for.
      Pointers and slices the source tests for nil are optional here. */
  datatype Txn =
    | InvokeV0(maxFee: Option<felt>, version: string, contractAddress: felt, entryPointSelector: Option<felt>, calldata: seq<felt>)
    | InvokeV1(maxFee: Option<felt>, version: string, nonce: Option<felt>, senderAddress: Option<felt>, calldata: seq<felt>)
    | InvokeV3(v3: V3, senderAddress: Option<felt>, calldata: seq<felt>, accountDeploymentData: Option<seq<felt>>)
    | DeclareV0
    | DeclareV1(senderAddress: Option<felt>, maxFee: Option<felt>, version: string, nonce: Option<felt>, classHash: Option<felt>)
    | DeclareV2(senderAddress: Option<felt>, compiledClassHash: Option<felt>, maxFee: Option<felt>, version: string,
                nonce: Option<felt>, classHash: Option<felt>)
    | DeclareV3(v3: V3, senderAddress: Option<felt>, compiledClassHash: Option<felt>, classHash: Option<felt>,
                accountDeploymentData: Option<seq<felt>>)
    | DeployV1(address: felt, fee: felt, version: string, txNonce: felt, class_: felt, salt: felt, constructorCalldata: seq<felt>)
    | DeployV3(v3: V3, address: felt, class_: felt, salt: felt, constructorCalldata: seq<felt>)

  const NOT_ALL_SET := "not all neccessary parameters have been set"

  /** The hash of a V0 to V2 transaction: Pedersen over seven fields and the additional data. */
  function CalculateTransactionHashCommon(
    env: Env, prefix: felt, version: felt, contractAddress: felt, selector: felt, calldataHash: felt,
    maxFee: felt, additionalData: seq<felt>): Result<felt>
  {
    env.pedersen(CommonList(env, prefix, version, contractAddress, selector, calldataHash, maxFee, additionalData))
  }

  function CommonList(
    env: Env, prefix: felt, version: felt, contractAddress: felt, selector: felt, calldataHash: felt,
    maxFee: felt, additionalData: seq<felt>): seq<felt>
  {
    [prefix, version, contractAddress, selector, calldataHash, maxFee, env.chainId] + additionalData
  }

  /** Two calls hash one list exactly when all their arguments and the chain are the same; the
      additional data need no length of their own, as they come last. */
  lemma CommonListInjective(
    env: Env, p: felt, v: felt, a: felt, s: felt, c: felt, m: felt, more: seq<felt>,
    chain: felt, p': felt, v': felt, a': felt, s': felt, c': felt, m': felt, more': seq<felt>)
    ensures CommonList(env, p, v, a, s, c, m, more) == CommonList(On(env, chain), p', v', a', s', c', m', more')
       <==> (p, v, a, s, c, m, env.chainId, more) == (p', v', a', s', c', m', chain, more')
  {
    var l, l' := CommonList(env, p, v, a, s, c, m, more), CommonList(On(env, chain), p', v', a', s', c', m', more');
    assert l[7..] == more && l'[7..] == more';
    assert l[0] == p && l[1] == v && l[2] == a && l[3] == s && l[4] == c && l[5] == m && l[6] == env.chainId;
  }

  /** What a checked Pedersen transaction hands to the hash. */
  datatype Common = Common(
    prefix: felt, version: string, address: felt, selector: felt, inner: seq<felt>, maxFee: felt, more: seq<felt>)

  function HashCommon(env: Env, c: Common): Result<felt> {
    match env.pedersen(c.inner)
    case Err(e) => Err(e)
    case Ok(innerHash) =>
      match env.parseFelt(c.version)
      case None => Err("felt")
      case Some(v) =>
        CalculateTransactionHashCommon(env, c.prefix, v, c.address, c.selector, innerHash, c.maxFee, c.more)
  }

  /** What a checked V3 transaction hands to the hash: the fields after the shared ones are
      single felts or, first to last, Poseidon hashes of the inner lists. */
  datatype Full = Full(prefix: felt, v3: V3, sender: felt, tail: seq<felt>)

  function HashV3(env: Env, f: Full): Result<felt>
    requires f.v3.nonce.Some? && f.v3.payMasterData.Some?
  {
    match env.parseFelt(f.v3.version)
    case None => Err("felt")
    case Some(v) =>
      match DataAvailabilityMode(f.v3.feeMode, f.v3.nonceDataMode)
      case None => Err("unknown DAMode")
      case Some(da) =>
        match ToUint64(f.v3.tip)
        case None => Err("failed to parse hex string")
        case Some(tip) =>
          match TipAndResources(env, tip, f.v3.resourceBounds)
          case Err(e) => Err(e)
          case Ok(resources) => Ok(env.poseidon(Outer(env, f, v, resources, da)))
  }

  function Outer(env: Env, f: Full, version: felt, resources: seq<felt>, da: nat): seq<felt>
    requires f.v3.nonce.Some? && f.v3.payMasterData.Some? && da <= 0x1_0000_0001
  {
    [f.prefix, version, f.sender, env.poseidon(resources), env.poseidon(f.v3.payMasterData.value), env.chainId,
     f.v3.nonce.value, da as felt] + f.tail
  }

  function TransactionHashInvoke(env: Env, tx: Txn): Result<felt>
    requires tx.InvokeV0? || tx.InvokeV1? || tx.InvokeV3?
  {
    match tx
    case InvokeV0(maxFee, version, contractAddress, selector, calldata) =>
      if version == "" || |calldata| == 0 || maxFee == None || selector == None then Err(NOT_ALL_SET)
      else HashCommon(env, AsCommon(tx))
    case InvokeV1(maxFee, version, nonce, sender, calldata) =>
      if version == "" || |calldata| == 0 || nonce == None || maxFee == None || sender == None then Err(NOT_ALL_SET)
      else HashCommon(env, AsCommon(tx))
    case InvokeV3(v3, sender, calldata, deployment) =>
      if v3.version == "" || v3.resourceBounds == NO_BOUNDS || |calldata| == 0 || v3.nonce == None || sender == None
         || v3.payMasterData == None || deployment == None then Err(NOT_ALL_SET)
      else HashV3(env, AsFull(env, tx))
  }

  function TransactionHashDeclare(env: Env, tx: Txn): Result<felt>
    requires tx.DeclareV0? || tx.DeclareV1? || tx.DeclareV2? || tx.DeclareV3?
  {
    match tx
    case DeclareV0 => Err("unsupported transction version")
    case DeclareV1(sender, maxFee, version, nonce, classHash) =>
      if sender == None || version == "" || classHash == None || maxFee == None || nonce == None then Err(NOT_ALL_SET)
      else HashCommon(env, AsCommon(tx))
    case DeclareV2(sender, compiled, maxFee, version, nonce, classHash) =>
      if compiled == None || sender == None || version == "" || classHash == None || maxFee == None || nonce == None
      then Err(NOT_ALL_SET)
      else HashCommon(env, AsCommon(tx))
    case DeclareV3(v3, sender, compiled, classHash, deployment) =>
      if v3.version == "" || v3.resourceBounds == NO_BOUNDS || v3.nonce == None || sender == None
         || v3.payMasterData == None || deployment == None || classHash == None || compiled == None
      then Err(NOT_ALL_SET)
      else HashV3(env, AsFull(env, tx))
  }

  function TransactionHashDeployAccount(env: Env, tx: Txn): Result<felt>
    requires tx.DeployV1? || tx.DeployV3?
  {
    match tx
    case DeployV1(_, _, _, _, _, _, _) => HashCommon(env, AsCommon(tx))
    case DeployV3(v3, address, class_, salt, constructorCalldata) =>
      if v3.version == "" || v3.resourceBounds == NO_BOUNDS || v3.nonce == None || v3.payMasterData == None
      then Err(NOT_ALL_SET)
      else HashV3(env, AsFull(env, tx))
  }

  predicate UsesPoseidon(tx: Txn) { tx.InvokeV3? || tx.DeclareV3? || tx.DeployV3? }

  /** The pointers that the hash of this kind dereferences are set. */
  predicate FieldsSet(tx: Txn) {
    match tx
    case InvokeV0(maxFee, _, _, selector, _) => maxFee.Some? && selector.Some?
    case InvokeV1(maxFee, _, nonce, sender, _) => maxFee.Some? && nonce.Some? && sender.Some?
    case InvokeV3(v3, sender, _, deployment) =>
      v3.nonce.Some? && v3.payMasterData.Some? && sender.Some? && deployment.Some?
    case DeclareV0 => false
    case DeclareV1(sender, maxFee, _, nonce, classHash) => sender.Some? && maxFee.Some? && nonce.Some? && classHash.Some?
    case DeclareV2(sender, compiled, maxFee, _, nonce, classHash) =>
      sender.Some? && compiled.Some? && maxFee.Some? && nonce.Some? && classHash.Some?
    case DeclareV3(v3, sender, compiled, classHash, deployment) =>
      v3.nonce.Some? && v3.payMasterData.Some? && sender.Some? && compiled.Some? && classHash.Some? && deployment.Some?
    case DeployV1(_, _, _, _, _, _, _) => true
    case DeployV3(v3, _, _, _, _) => v3.nonce.Some? && v3.payMasterData.Some?
  }

  function AsCommon(tx: Txn): Common
    requires FieldsSet(tx) && !UsesPoseidon(tx)
  {
    match tx
    case InvokeV0(maxFee, version, contractAddress, selector, calldata) =>
      Common(PREFIX_TRANSACTION, version, contractAddress, selector.value, calldata, maxFee.value, [])
    case InvokeV1(maxFee, version, nonce, sender, calldata) =>
      Common(PREFIX_TRANSACTION, version, sender.value, 0, calldata, maxFee.value, [nonce.value])
    case DeclareV1(sender, maxFee, version, nonce, classHash) =>
      Common(PREFIX_DECLARE, version, sender.value, 0, [classHash.value], maxFee.value, [nonce.value])
    case DeclareV2(sender, compiled, maxFee, version, nonce, classHash) =>
      Common(PREFIX_DECLARE, version, sender.value, 0, [classHash.value], maxFee.value, [nonce.value, compiled.value])
    case DeployV1(address, fee, version, nonce, class_, salt, constructorCalldata) =>
      Common(PREFIX_DEPLOY_ACCOUNT, version, address, 0, [class_, salt] + constructorCalldata, fee, [nonce])
  }

  function AsFull(env: Env, tx: Txn): (f: Full)
    requires FieldsSet(tx) && UsesPoseidon(tx)
    ensures f.v3 == tx.v3
  {
    match tx
    case InvokeV3(v3, sender, calldata, deployment) =>
      Full(PREFIX_TRANSACTION, v3, sender.value, [env.poseidon(deployment.value), env.poseidon(calldata)])
    case DeclareV3(v3, sender, compiled, classHash, deployment) =>
      Full(PREFIX_DECLARE, v3, sender.value, [env.poseidon(deployment.value), classHash.value, compiled.value])
    case DeployV3(v3, address, class_, salt, constructorCalldata) =>
      Full(PREFIX_DEPLOY_ACCOUNT, v3, address, [env.poseidon(constructorCalldata), class_, salt])
  }

  /** The lists a V3 transaction hashes into its tail. */
  function InnerLists(tx: Txn): seq<seq<felt>>
    requires FieldsSet(tx) && UsesPoseidon(tx)
  {
    match tx
    case InvokeV3(_, _, calldata, deployment) => [deployment.value, calldata]
    case DeclareV3(_, _, _, _, deployment) => [deployment.value]
    case DeployV3(_, _, _, _, constructorCalldata) => [constructorCalldata]
  }

  function TransactionHash(env: Env, tx: Txn): Result<felt> {
    if tx.InvokeV0? || tx.InvokeV1? || tx.InvokeV3? then TransactionHashInvoke(env, tx)
    else if tx.DeployV1? || tx.DeployV3? then TransactionHashDeployAccount(env, tx)
    else TransactionHashDeclare(env, tx)
  }

  // ---------- the packed resource bounds ----------

  /** A byte string that starts with a nonzero byte and is shorter than a felt keeps its value
      and shows its length. */
  lemma ShortName(s: seq<byte>)
    requires 1 <= |s| <= 31 && s[0] != 0
    ensures Pow2(8 * (|s| - 1)) <= SetBytes(s) < Pow2(8 * |s|)
  {
    hide Value, Pow2;
    ValueBound(s);
    FirstByte(s);
    Pow2Monotone(8 * |s|, 248);
    Pow2Two48();
    DivModUnique(Value(s), FIELD_PRIME, 0, Value(s));
  }

  /** The three prefixes are different felts. */
  lemma PrefixesDiffer()
    ensures PREFIX_TRANSACTION < PREFIX_DECLARE < PREFIX_DEPLOY_ACCOUNT
  {
    hide Value, Pow2;
    ShortName(Ascii("invoke"));
    ShortName(Ascii("declare"));
    ShortName(Ascii("deploy_account"));
    Pow2Monotone(56, 104);
  }

  /** The packed bounds are 31 bytes, so below the field prime: SetBytes does not reduce them. */
  lemma BoundsFit(env: Env, rb: ResourceBounds, resource: string)
    requires |resource| == 6 && BoundsBytes(env, rb, resource).Ok?
    ensures |BoundsBytes(env, rb, resource).value| == 31
    ensures SetBytes(BoundsBytes(env, rb, resource).value) == Value(BoundsBytes(env, rb, resource).value)
  {
    hide Value, Int2Octets, Pow2;
    var b := BoundsBytes(env, rb, resource).value;
    Int2OctetsValue(ToUint64(rb.maxAmount).value, 8);
    Int2OctetsValue(env.parseFelt(rb.maxPricePerUnit).value, 32);
    ValueBound(b);
    Pow2Two48();
    DivModUnique(Value(b), FIELD_PRIME, 0, Value(b));
  }

  /** Amounts agree, and prices agree modulo 2^128. */
  ghost predicate SameBounds(env: Env, a: ResourceBounds, b: ResourceBounds) {
    SameNumber(a.maxAmount, b.maxAmount) &&
    match (env.parseFelt(a.maxPricePerUnit), env.parseFelt(b.maxPricePerUnit))
    case (Some(p), Some(q)) => p % 0x1_0000_0000_0000_0000_0000_0000_0000_0000 == q % 0x1_0000_0000_0000_0000_0000_0000_0000_0000
    case _ => false
  }

  lemma PriceTail(p: nat)
    ensures |Int2Octets(p, 32)| == 32
    ensures Value(Int2Octets(p, 32)[16..]) == p % Pow2(256) % Pow2(128)
  {
    hide Value, Int2Octets, Pow2;
    var s := Int2Octets(p, 32);
    Int2OctetsValue(p, 32);
    assert s == s[..16] + s[16..];
    ValueConcat(s[..16], s[16..]);
    ValueBound(s[16..]);
    DivModUnique(Value(s), Pow2(128), Value(s[..16]), Value(s[16..]));
  }

  /** One packed number, one pair of bounds. */
  lemma BoundsDetermined(env: Env, a: ResourceBounds, b: ResourceBounds, resource: string)
    requires |resource| == 6 && BoundsBytes(env, a, resource).Ok? && BoundsBytes(env, b, resource).Ok?
    requires SetBytes(BoundsBytes(env, a, resource).value) == SetBytes(BoundsBytes(env, b, resource).value)
    ensures SameBounds(env, a, b)
  {
    hide Value, Int2Octets, Pow2;
    BoundsFit(env, a, resource);
    BoundsFit(env, b, resource);
    var s, t := BoundsBytes(env, a, resource).value, BoundsBytes(env, b, resource).value;
    ValueInjective(s, t);
    AmountPart(env, a, resource);
    AmountPart(env, b, resource);
    SameNumberIff(a.maxAmount, b.maxAmount);
  }

  lemma AmountPart(env: Env, a: ResourceBounds, resource: string)
    requires |resource| == 6 && BoundsBytes(env, a, resource).Ok?
    ensures var s := BoundsBytes(env, a, resource).value;
            |s| == 31 && ToUint64(a.maxAmount) == Some(Value(s[7..15])) &&
            env.parseFelt(a.maxPricePerUnit).Some? &&
            env.parseFelt(a.maxPricePerUnit).value % 0x1_0000_0000_0000_0000_0000_0000_0000_0000 == Value(s[15..])
  {
    hide Value, Int2Octets, Pow2;
    var s := BoundsBytes(env, a, resource).value;
    var amount, price := ToUint64(a.maxAmount).value, env.parseFelt(a.maxPricePerUnit).value;
    BoundsFit(env, a, resource);
    Int2OctetsValue(amount, 8);
    PriceTail(price);
    assert s[7..15] == Int2Octets(amount, 8);
    assert s[15..] == Int2Octets(price, 32)[16..];
    Pow2Words();
    Pow2Curve();
    Pow2Monotone(252, 256);
    DivModUnique(amount, Pow2(64), 0, amount);
    DivModUnique(price, Pow2(256), 0, price);
  }

  lemma ModesDetermined(f: string, n: string, f': string, n': string)
    requires DataAvailabilityMode(f, n).Some? && DataAvailabilityMode(f, n) == DataAvailabilityMode(f', n')
    ensures f == f' && n == n'
  {}

  // ---------- injectivity ----------

  /** The fields of two V3 parts agree as numbers. */
  ghost predicate SameV3(env: Env, a: V3, b: V3) {
    a.nonce == b.nonce
    && SameNumber(a.tip, b.tip) && a.payMasterData == b.payMasterData
    && a.nonceDataMode == b.nonceDataMode && a.feeMode == b.feeMode
    && SameBounds(env, a.resourceBounds.l1Gas, b.resourceBounds.l1Gas)
    && SameBounds(env, a.resourceBounds.l2Gas, b.resourceBounds.l2Gas)
  }

  const BLANK := V3("", None, NO_BOUNDS, "", None, "", "")

  /** A transaction without the fields that are compared as numbers. */
  function Rest(tx: Txn): Txn {
    match tx
    case InvokeV0(maxFee, _, a, s, c) => InvokeV0(maxFee, "", a, s, c)
    case InvokeV1(maxFee, _, n, s, c) => InvokeV1(maxFee, "", n, s, c)
    case InvokeV3(_, s, c, d) => InvokeV3(BLANK, s, c, d)
    case DeclareV0 => DeclareV0
    case DeclareV1(s, maxFee, _, n, c) => DeclareV1(s, maxFee, "", n, c)
    case DeclareV2(s, k, maxFee, _, n, c) => DeclareV2(s, k, maxFee, "", n, c)
    case DeclareV3(_, s, k, c, d) => DeclareV3(BLANK, s, k, c, d)
    case DeployV1(a, f, _, n, c, s, d) => DeployV1(a, f, "", n, c, s, d)
    case DeployV3(_, a, c, s, d) => DeployV3(BLANK, a, c, s, d)
  }

  function Version(tx: Txn): string {
    match tx
    case InvokeV0(_, v, _, _, _) => v
    case InvokeV1(_, v, _, _, _) => v
    case DeclareV0 => ""
    case DeclareV1(_, _, v, _, _) => v
    case DeclareV2(_, _, _, v, _, _) => v
    case DeployV1(_, _, v, _, _, _, _) => v
    case InvokeV3(v3, _, _, _) => v3.version
    case DeclareV3(v3, _, _, _, _) => v3.version
    case DeployV3(v3, _, _, _, _) => v3.version
  }

  /** Same chain, same kind, and every hashed field agrees as a number. */
  ghost predicate SameTxn(env: Env, a: Txn, chain: felt, b: Txn) {
    env.chainId == chain && Rest(a) == Rest(b) && env.parseFelt(Version(a)) == env.parseFelt(Version(b))
    && (UsesPoseidon(a) ==> SameV3(env, a.v3, b.v3))
  }

  lemma AcceptedFields(env: Env, tx: Txn)
    requires TransactionHash(env, tx).Ok?
    ensures FieldsSet(tx)
    ensures !UsesPoseidon(tx) ==> TransactionHash(env, tx) == HashCommon(env, AsCommon(tx))
    ensures UsesPoseidon(tx) ==> TransactionHash(env, tx) == HashV3(env, AsFull(env, tx))
  {}

  function CommonLists(env: Env, c: Common): seq<seq<felt>>
    requires HashCommon(env, c).Ok?
  {
    [[c.prefix, env.parseFelt(c.version).value, c.address, c.selector, env.pedersen(c.inner).value, c.maxFee, env.chainId]
     + c.more, c.inner]
  }

  function V3Lists(env: Env, f: Full): seq<seq<felt>>
    requires f.v3.nonce.Some? && f.v3.payMasterData.Some? && HashV3(env, f).Ok?
  {
    var resources := TipAndResources(env, ToUint64(f.v3.tip).value, f.v3.resourceBounds).value;
    [Outer(env, f, env.parseFelt(f.v3.version).value, resources, DataAvailabilityMode(f.v3.feeMode, f.v3.nonceDataMode).value),
     resources, f.v3.payMasterData.value]
  }

  /** The lists hashed on the way to a transaction hash, the outermost first. */
  function Lists(env: Env, tx: Txn): seq<seq<felt>>
    requires TransactionHash(env, tx).Ok?
  {
    AcceptedFields(env, tx);
    if UsesPoseidon(tx) then V3Lists(env, AsFull(env, tx)) + InnerLists(tx) else CommonLists(env, AsCommon(tx))
  }

  /** The i-th lists hashed for a on this chain and for b on the other differ but have one hash. */
  predicate Collision(env: Env, a: Txn, chain: felt, b: Txn, i: nat)
    requires TransactionHash(env, a).Ok? && TransactionHash(On(env, chain), b).Ok?
  {
    var u, v := Lists(env, a), Lists(On(env, chain), b);
    i < |u| && i < |v| && u[i] != v[i] &&
    if UsesPoseidon(a) then env.poseidon(u[i]) == env.poseidon(v[i]) else env.pedersen(u[i]) == env.pedersen(v[i])
  }

  /** Equal outer lists of Pedersen transactions have equal fields, up to the inner hash. */
  lemma CommonFields(env: Env, c: Common, chain: felt, d: Common)
    requires HashCommon(env, c).Ok? && HashCommon(On(env, chain), d).Ok?
    requires CommonLists(env, c)[0] == CommonLists(On(env, chain), d)[0]
    ensures env.chainId == chain
    ensures env.parseFelt(c.version) == env.parseFelt(d.version)
    ensures env.pedersen(c.inner) == env.pedersen(d.inner)
    ensures c.(version := d.version, inner := d.inner) == d
  {
    var u, v := CommonLists(env, c)[0], CommonLists(On(env, chain), d)[0];
    assert u[7..] == c.more && v[7..] == d.more;
    assert u[0] == c.prefix && u[1] == env.parseFelt(c.version).value && u[2] == c.address && u[3] == c.selector
        && u[4] == env.pedersen(c.inner).value && u[5] == c.maxFee && u[6] == env.chainId && v[6] == chain;
  }

  /** Prefix and number of additional fields tell the Pedersen kinds apart. */
  lemma CommonKinds(a: Txn, b: Txn)
    requires FieldsSet(a) && FieldsSet(b) && !UsesPoseidon(a) && !UsesPoseidon(b)
    requires var c, d := AsCommon(a), AsCommon(b); c.(version := d.version) == d
    ensures Rest(a) == Rest(b)
  {
    PrefixesDiffer();
    if a.DeployV1? && b.DeployV1? {
      var c, d := AsCommon(a), AsCommon(b);
      assert c.inner[0] == a.class_ && c.inner[1] == a.salt && c.inner[2..] == a.constructorCalldata;
      assert d.inner[0] == b.class_ && d.inner[1] == b.salt && d.inner[2..] == b.constructorCalldata;
    }
  }

  /** Two accepted V0 to V2 transactions with one hash agree on everything hashed, or their
      computations contain two different lists with one Pedersen hash. */
  lemma PedersenInjective(env: Env, a: Txn, chain: felt, b: Txn)
    requires !UsesPoseidon(a) && !UsesPoseidon(b)
    requires TransactionHash(env, a).Ok? && TransactionHash(env, a) == TransactionHash(On(env, chain), b)
    ensures SameTxn(env, a, chain, b) || Collision(env, a, chain, b, 0) || Collision(env, a, chain, b, 1)
  {
    AcceptedFields(env, a);
    AcceptedFields(On(env, chain), b);
    var c, d := AsCommon(a), AsCommon(b);
    hide HashCommon, TransactionHash, PREFIX_TRANSACTION, PREFIX_DECLARE, PREFIX_DEPLOY_ACCOUNT;
    HashOfFirst(env, c);
    HashOfFirst(On(env, chain), d);
    if CommonLists(env, c)[0] == CommonLists(On(env, chain), d)[0] {
      CommonFields(env, c, chain, d);
      if c.inner == d.inner {
        CommonKinds(a, b);
      }
    }
  }

  lemma HashOfFirst(env: Env, c: Common)
    requires HashCommon(env, c).Ok?
    ensures HashCommon(env, c) == env.pedersen(CommonLists(env, c)[0])
    ensures CommonLists(env, c)[1] == c.inner && |CommonLists(env, c)| == 2
  {}

  /** Only the outer list sees the chain. */
  lemma ChainUnused(env: Env, chain: felt, tx: Txn)
    requires FieldsSet(tx) && UsesPoseidon(tx)
    ensures On(env, chain).poseidon == env.poseidon && AsFull(On(env, chain), tx) == AsFull(env, tx)
  {}

  /** The chain does not enter the packed bounds. */
  lemma SameBytes(env: Env, chain: felt, rb: ResourceBounds, resource: string)
    ensures BoundsBytes(On(env, chain), rb, resource) == BoundsBytes(env, rb, resource)
  {}

  /** Equal outer and resource lists of V3 transactions have equal shared fields and tails. */
  lemma V3Fields(env: Env, f: Full, chain: felt, g: Full)
    requires f.v3.nonce.Some? && f.v3.payMasterData.Some? && HashV3(env, f).Ok?
    requires g.v3.nonce.Some? && g.v3.payMasterData.Some? && HashV3(On(env, chain), g).Ok?
    requires V3Lists(env, f)[0] == V3Lists(On(env, chain), g)[0]
    ensures env.chainId == chain
    ensures f.prefix == g.prefix && f.sender == g.sender && f.tail == g.tail
    ensures env.parseFelt(f.v3.version) == env.parseFelt(g.v3.version)
    ensures f.v3.nonce == g.v3.nonce && f.v3.feeMode == g.v3.feeMode && f.v3.nonceDataMode == g.v3.nonceDataMode
    ensures env.poseidon(V3Lists(env, f)[1]) == env.poseidon(V3Lists(On(env, chain), g)[1])
    ensures env.poseidon(f.v3.payMasterData.value) == env.poseidon(g.v3.payMasterData.value)
    ensures V3Lists(env, f)[1] == V3Lists(On(env, chain), g)[1] ==>
      SameNumber(f.v3.tip, g.v3.tip)
      && SameBounds(env, f.v3.resourceBounds.l1Gas, g.v3.resourceBounds.l1Gas)
      && SameBounds(env, f.v3.resourceBounds.l2Gas, g.v3.resourceBounds.l2Gas)
  {
    hide ToUint64, DataAvailabilityMode, BoundsBytes, SameBounds, SetBytes, SameNumber;
    var u, v := V3Lists(env, f)[0], V3Lists(On(env, chain), g)[0];
    var r, t := V3Lists(env, f)[1], V3Lists(On(env, chain), g)[1];
    assert u[5] == env.chainId && v[5] == chain;
    assert u[8..] == f.tail && v[8..] == g.tail;
    assert u[0] == f.prefix && u[1] == env.parseFelt(f.v3.version).value && u[2] == f.sender
        && u[3] == env.poseidon(r) && u[4] == env.poseidon(f.v3.payMasterData.value) && u[6] == f.v3.nonce.value
        && u[7] == DataAvailabilityMode(f.v3.feeMode, f.v3.nonceDataMode).value;
    assert v[3] == env.poseidon(t) && v[7] == DataAvailabilityMode(g.v3.feeMode, g.v3.nonceDataMode).value;
    ModesDetermined(f.v3.feeMode, f.v3.nonceDataMode, g.v3.feeMode, g.v3.nonceDataMode);
    if r == t {
      SameBytes(env, chain, g.v3.resourceBounds.l1Gas, "L1_GAS");
      SameBytes(env, chain, g.v3.resourceBounds.l2Gas, "L2_GAS");
      assert r[0] == t[0] && r[1] == t[1] && r[2] == t[2];
      SameNumberIff(f.v3.tip, g.v3.tip);
      BoundsDetermined(env, f.v3.resourceBounds.l1Gas, g.v3.resourceBounds.l1Gas, "L1_GAS");
      BoundsDetermined(env, f.v3.resourceBounds.l2Gas, g.v3.resourceBounds.l2Gas, "L2_GAS");
    }
  }

  /** Prefix and tail tell the V3 kinds apart, and the tail carries the hashes of the inner lists. */
  lemma V3Kinds(env: Env, a: Txn, b: Txn)
    requires FieldsSet(a) && FieldsSet(b) && UsesPoseidon(a) && UsesPoseidon(b)
    requires var f, g := AsFull(env, a), AsFull(env, b); f.prefix == g.prefix && f.sender == g.sender && f.tail == g.tail
    ensures |InnerLists(a)| == |InnerLists(b)|
    ensures forall i :: 0 <= i < |InnerLists(a)| ==> env.poseidon(InnerLists(a)[i]) == env.poseidon(InnerLists(b)[i])
    ensures InnerLists(a) == InnerLists(b) ==> Rest(a) == Rest(b)
  {
    PrefixesDiffer();
    hide PREFIX_TRANSACTION, PREFIX_DECLARE, PREFIX_DEPLOY_ACCOUNT;
    var f, g := AsFull(env, a), AsFull(env, b);
    assert forall i :: 0 <= i < |f.tail| ==> f.tail[i] == g.tail[i];
    assert InnerLists(a)[0] == InnerLists(b)[0] || InnerLists(a) != InnerLists(b);
    if a.InvokeV3? && b.InvokeV3? {
      assert f.tail[1] == env.poseidon(a.calldata) && g.tail[1] == env.poseidon(b.calldata);
      assert InnerLists(a)[1] == a.calldata && InnerLists(b)[1] == b.calldata;
    }
  }

  lemma CollisionAt(env: Env, a: Txn, chain: felt, b: Txn, i: nat)
    requires UsesPoseidon(a) && UsesPoseidon(b) && TransactionHash(env, a).Ok? && TransactionHash(On(env, chain), b).Ok?
    requires i < |Lists(env, a)| && i < |Lists(On(env, chain), b)| && Lists(env, a)[i] != Lists(On(env, chain), b)[i]
    requires env.poseidon(Lists(env, a)[i]) == env.poseidon(Lists(On(env, chain), b)[i])
    ensures exists i: nat :: Collision(env, a, chain, b, i)
  {
    assert Collision(env, a, chain, b, i);
  }

  /** The same for V3 transactions and Poseidon, with the price modulo 2^128. */
  lemma PoseidonInjective(env: Env, a: Txn, chain: felt, b: Txn)
    requires UsesPoseidon(a) && UsesPoseidon(b)
    requires TransactionHash(env, a).Ok? && TransactionHash(env, a) == TransactionHash(On(env, chain), b)
    ensures SameTxn(env, a, chain, b) || exists i: nat :: Collision(env, a, chain, b, i)
  {
    hide *;
    FullLists(env, a);
    FullLists(On(env, chain), b);
    ChainUnused(env, chain, b);
    var f, g := AsFull(env, a), AsFull(On(env, chain), b);
    var p, q, s, t := V3Lists(env, f), V3Lists(On(env, chain), g), InnerLists(a), InnerLists(b);
    if p[0] != q[0] {
      CollisionAt(env, a, chain, b, 0);
    } else {
      V3Fields(env, f, chain, g);
      V3Kinds(env, a, b);
      if p[1] != q[1] {
        CollisionAt(env, a, chain, b, 1);
      } else if p[2] != q[2] {
        CollisionAt(env, a, chain, b, 2);
      } else if i :| 0 <= i < |s| && s[i] != t[i] {
        CollisionAt(env, a, chain, b, 3 + i);
      } else {
        assert s == t;
        AgreeingParts(env, a, chain, b);
      }
    }
  }

  lemma AgreeingParts(env: Env, a: Txn, chain: felt, b: Txn)
    requires env.chainId == chain
    requires UsesPoseidon(a) && UsesPoseidon(b) && FieldsSet(a) && FieldsSet(b) && Rest(a) == Rest(b)
    requires env.parseFelt(a.v3.version) == env.parseFelt(b.v3.version)
    requires a.v3.nonce == b.v3.nonce && a.v3.feeMode == b.v3.feeMode && a.v3.nonceDataMode == b.v3.nonceDataMode
    requires a.v3.payMasterData.value == b.v3.payMasterData.value && SameNumber(a.v3.tip, b.v3.tip)
    requires SameBounds(env, a.v3.resourceBounds.l1Gas, b.v3.resourceBounds.l1Gas)
    requires SameBounds(env, a.v3.resourceBounds.l2Gas, b.v3.resourceBounds.l2Gas)
    ensures SameTxn(env, a, chain, b)
  {
    hide SameBounds, SameNumber;
  }

  lemma FullLists(env: Env, tx: Txn)
    requires UsesPoseidon(tx) && TransactionHash(env, tx).Ok?
    ensures FieldsSet(tx) && tx.v3.nonce.Some? && tx.v3.payMasterData.Some? && HashV3(env, AsFull(env, tx)).Ok?
    ensures var p := V3Lists(env, AsFull(env, tx));
            Lists(env, tx) == p + InnerLists(tx) && |p| == 3
            && TransactionHash(env, tx) == Ok(env.poseidon(p[0])) && p[2] == tx.v3.payMasterData.value
  {
    AcceptedFields(env, tx);
    hide TransactionHash, ToUint64, DataAvailabilityMode, TipAndResources;
  }

  // ---------- the other direction ----------

  lemma SameBoundsSameBytes(env: Env, a: ResourceBounds, b: ResourceBounds, resource: string)
    requires |resource| == 6 && BoundsBytes(env, a, resource).Ok? && BoundsBytes(env, b, resource).Ok?
    requires SameBounds(env, a, b)
    ensures BoundsBytes(env, a, resource) == BoundsBytes(env, b, resource)
  {
    var s, t := BoundsBytes(env, a, resource).value, BoundsBytes(env, b, resource).value;
    AmountPart(env, a, resource);
    AmountPart(env, b, resource);
    SameNumberIff(a.maxAmount, b.maxAmount);
    assert s[..7] == [0] + Ascii(resource) && t[..7] == [0] + Ascii(resource);
    ValueInjective(s[7..15], t[7..15]);
    ValueInjective(s[15..], t[15..]);
    assert s == s[..7] + s[7..15] + s[15..] && t == t[..7] + t[7..15] + t[15..];
  }

  lemma SameResources(env: Env, tip: nat, a: Bounds, b: Bounds)
    requires tip < 0x1_0000_0000_0000_0000
    requires TipAndResources(env, tip, a).Ok? && TipAndResources(env, tip, b).Ok?
    requires SameBounds(env, a.l1Gas, b.l1Gas) && SameBounds(env, a.l2Gas, b.l2Gas)
    ensures TipAndResources(env, tip, a) == TipAndResources(env, tip, b)
  {
    hide BoundsBytes, SameBounds, SetBytes;
    SameBoundsSameBytes(env, a.l1Gas, b.l1Gas, "L1_GAS");
    SameBoundsSameBytes(env, a.l2Gas, b.l2Gas, "L2_GAS");
  }

  /** Nothing else is hashed: accepted transactions that agree on these fields have one hash,
      so the signature, the type label and the spelling of the numbers do not enter it. */
  lemma SameFieldsSameHash(env: Env, a: Txn, chain: felt, b: Txn)
    requires TransactionHash(env, a).Ok? && TransactionHash(On(env, chain), b).Ok? && SameTxn(env, a, chain, b)
    ensures TransactionHash(env, a) == TransactionHash(On(env, chain), b)
  {
    assert On(env, chain) == env;
    AcceptedFields(env, a);
    AcceptedFields(env, b);
    if UsesPoseidon(a) {
      SameTail(env, a, b);
      SameV3Hash(env, AsFull(env, a), AsFull(env, b));
    } else {
      SameCommon(a, b);
    }
  }

  lemma SameTail(env: Env, a: Txn, b: Txn)
    requires UsesPoseidon(a) && FieldsSet(a) && FieldsSet(b) && Rest(a) == Rest(b)
    ensures UsesPoseidon(b) && AsFull(env, a).(v3 := b.v3) == AsFull(env, b)
  {}

  lemma SameCommon(a: Txn, b: Txn)
    requires !UsesPoseidon(a) && FieldsSet(a) && FieldsSet(b) && Rest(a) == Rest(b)
    ensures !UsesPoseidon(b) && AsCommon(a).(version := Version(b)) == AsCommon(b) && AsCommon(a).version == Version(a)
  {}

  lemma SameV3Hash(env: Env, f: Full, g: Full)
    requires f.v3.nonce.Some? && f.v3.payMasterData.Some? && HashV3(env, f).Ok?
    requires g.v3.nonce.Some? && g.v3.payMasterData.Some? && HashV3(env, g).Ok?
    requires f.(v3 := g.v3) == g && SameV3(env, f.v3, g.v3) && env.parseFelt(f.v3.version) == env.parseFelt(g.v3.version)
    ensures HashV3(env, f) == HashV3(env, g)
  {
    hide ToUint64, TipAndResources, SameBounds, DataAvailabilityMode, SameNumber;
    SameNumberIff(f.v3.tip, g.v3.tip);
    SameResources(env, ToUint64(f.v3.tip).value, f.v3.resourceBounds, g.v3.resourceBounds);
  }

  // ---------- the layouts, written out ----------

  /** h of a Pedersen list that was hashed without error. */
  function Ped(env: Env, l: seq<felt>): felt {
    match env.pedersen(l)
    case Ok(h) => h
    case Err(_) => 0
  }

  function Num(env: Env, s: string): felt {
    match env.parseFelt(s)
    case Some(v) => v
    case None => 0
  }

  const INVOKE: felt := 0x696e766f6b65
  const DECLARE: felt := 0x6465636c617265
  const DEPLOY_ACCOUNT: felt := 0x6465706c6f795f6163636f756e74

  /** The ASCII codes of "L1_GAS" and "L2_GAS". */
  const L1_GAS: nat := 0x4c315f474153
  const L2_GAS: nat := 0x4c325f474153

  function Number(u: string): nat {
    match ToUint64(u)
    case Some(n) => n
    case None => 0
  }

  /** The resource name above the 64-bit amount above the low 128 bits of the price. */
  function Packed(env: Env, rb: ResourceBounds, name: nat): felt
    requires name < 0x1_0000_0000_0000
  {
    var price: nat := Num(env, rb.maxPricePerUnit) % 0x1_0000_0000_0000_0000_0000_0000_0000_0000;
    PackedBelow(name, Number(rb.maxAmount), price);
    name * 0x1_0000_0000_0000_0000_0000_0000_0000_0000_0000_0000_0000_0000
    + Number(rb.maxAmount) * 0x1_0000_0000_0000_0000_0000_0000_0000_0000 + price
  }

  lemma PackedBelow(name: nat, amount: nat, price: nat)
    requires name < 0x1_0000_0000_0000 && amount < 0x1_0000_0000_0000_0000
    requires price < 0x1_0000_0000_0000_0000_0000_0000_0000_0000
    ensures name * 0x1_0000_0000_0000_0000_0000_0000_0000_0000_0000_0000_0000_0000
          + amount * 0x1_0000_0000_0000_0000_0000_0000_0000_0000 + price < FIELD_PRIME
  {}

  /** The eight fields in front of the kind's own tail. */
  function V3Head(env: Env, prefix: felt, v3: V3, sender: felt): seq<felt>
    requires v3.nonce.Some? && v3.payMasterData.Some?
  {
    var fee: nat := if v3.feeMode == "L1" then 0 else 1;
    var nonce: nat := if v3.nonceDataMode == "L1" then 0 else 1;
    [prefix, Num(env, v3.version), sender,
     env.poseidon([Number(v3.tip) as felt, Packed(env, v3.resourceBounds.l1Gas, L1_GAS), Packed(env, v3.resourceBounds.l2Gas, L2_GAS)]),
     env.poseidon(v3.payMasterData.value), env.chainId, v3.nonce.value, (fee + 0x1_0000_0000 * nonce) as felt]
  }

  /** The list hashed for each kind. */
  function Layout(env: Env, tx: Txn): seq<felt>
    requires FieldsSet(tx)
  {
    match tx
    case InvokeV0(fee, v, a, sel, data) => [INVOKE, Num(env, v), a, sel.value, Ped(env, data), fee.value, env.chainId]
    case InvokeV1(fee, v, n, a, data) => [INVOKE, Num(env, v), a.value, 0, Ped(env, data), fee.value, env.chainId, n.value]
    case DeclareV1(a, fee, v, n, c) =>
      [DECLARE, Num(env, v), a.value, 0, Ped(env, [c.value]), fee.value, env.chainId, n.value]
    case DeclareV2(a, k, fee, v, n, c) =>
      [DECLARE, Num(env, v), a.value, 0, Ped(env, [c.value]), fee.value, env.chainId, n.value, k.value]
    case DeployV1(a, fee, v, n, c, salt, data) =>
      [DEPLOY_ACCOUNT, Num(env, v), a, 0, Ped(env, [c, salt] + data), fee, env.chainId, n]
    case InvokeV3(v3, a, data, dep) => V3Head(env, INVOKE, v3, a.value) + [env.poseidon(dep.value), env.poseidon(data)]
    case DeclareV3(v3, a, k, c, dep) => V3Head(env, DECLARE, v3, a.value) + [env.poseidon(dep.value), c.value, k.value]
    case DeployV3(v3, a, c, salt, data) => V3Head(env, DEPLOY_ACCOUNT, v3, a) + [env.poseidon(data), c, salt]
  }

  /** Every accepted hash is that of the list written out for its kind. */
  lemma HashedLayout(env: Env, tx: Txn)
    requires TransactionHash(env, tx).Ok?
    ensures FieldsSet(tx)
    ensures TransactionHash(env, tx) == if UsesPoseidon(tx) then Ok(env.poseidon(Layout(env, tx))) else env.pedersen(Layout(env, tx))
  {
    AcceptedFields(env, tx);
    LayoutIs(env, tx);
    if UsesPoseidon(tx) {
      V3Layout(env, AsFull(env, tx));
    } else {
      CommonLayout(env, AsCommon(tx));
    }
    hide PREFIX_TRANSACTION, PREFIX_DECLARE, PREFIX_DEPLOY_ACCOUNT, HashCommon, HashV3, Ped, Num, V3Head, Layout, TransactionHash;
  }

  /** The layout in the fields as the code gathers them. */
  lemma LayoutIs(env: Env, tx: Txn)
    requires FieldsSet(tx)
    ensures !UsesPoseidon(tx) ==>
      var c := AsCommon(tx);
      Layout(env, tx) == [c.prefix, Num(env, c.version), c.address, c.selector, Ped(env, c.inner), c.maxFee, env.chainId] + c.more
    ensures UsesPoseidon(tx) ==>
      var f := AsFull(env, tx);
      f.v3.nonce.Some? && f.v3.payMasterData.Some? && Layout(env, tx) == V3Head(env, f.prefix, f.v3, f.sender) + f.tail
  {
    PrefixNumbers();
    hide PREFIX_TRANSACTION, PREFIX_DECLARE, PREFIX_DEPLOY_ACCOUNT, INVOKE, DECLARE, DEPLOY_ACCOUNT, Ped, Num, V3Head;
  }

  /** The prefixes as numbers: the ASCII codes of their names. */
  lemma PrefixNumbers()
    ensures PREFIX_TRANSACTION == INVOKE && PREFIX_DECLARE == DECLARE && PREFIX_DEPLOY_ACCOUNT == DEPLOY_ACCOUNT
  {
    hide Value, Pow2;
    InvokeValue();
    DeclareValue();
    DeployValue();
    DivModUnique(INVOKE, FIELD_PRIME, 0, INVOKE);
    DivModUnique(DECLARE, FIELD_PRIME, 0, DECLARE);
    DivModUnique(DEPLOY_ACCOUNT, FIELD_PRIME, 0, DEPLOY_ACCOUNT);
  }

  lemma InvokeValue()
    ensures Value(Ascii("invoke")) == INVOKE
  {
    hide Value;
    assert Ascii("invoke") == [0x69, 0x6e, 0x76, 0x6f, 0x6b, 0x65];
    ValueSix(0x69, 0x6e, 0x76, 0x6f, 0x6b, 0x65);
  }

  lemma DeclareValue()
    ensures Value(Ascii("declare")) == DECLARE
  {
    hide Value;
    assert Ascii("declare") == [0x64, 0x65, 0x63, 0x6c, 0x61, 0x72] + [0x65];
    ValueSix(0x64, 0x65, 0x63, 0x6c, 0x61, 0x72);
    ValueSnoc([0x64, 0x65, 0x63, 0x6c, 0x61, 0x72], 0x65);
  }

  lemma DeployValue()
    ensures Value(Ascii("deploy_account")) == DEPLOY_ACCOUNT
  {
    hide Value, Pow2;
    var front, middle: seq<byte>, last: seq<byte> :=
      [0x64, 0x65, 0x70, 0x6c, 0x6f, 0x79], [0x5f, 0x61, 0x63, 0x63, 0x6f, 0x75], [0x6e, 0x74];
    assert Ascii("deploy_account") == ((front + middle) + [0x6e]) + [0x74];
    ValueSix(0x64, 0x65, 0x70, 0x6c, 0x6f, 0x79);
    ValueSix(0x5f, 0x61, 0x63, 0x63, 0x6f, 0x75);
    ValueConcat(front, middle);
    Pow2Bytes();
    ValueSnoc(front + middle, 0x6e);
    ValueSnoc((front + middle) + [0x6e], 0x74);
  }

  /** The powers of two that byte positions stand for. */
  lemma Pow2Bytes()
    ensures Pow2(48) == 0x1_0000_0000_0000
    ensures Pow2(64) == 0x1_0000_0000_0000_0000
    ensures Pow2(128) == 0x1_0000_0000_0000_0000_0000_0000_0000_0000
  {
    hide Pow2;
    Pow2Small();
    Pow2Words();
    Pow2Sum(32, 16);
  }

  lemma GasNames()
    ensures Value(Ascii("L1_GAS")) == L1_GAS && Value(Ascii("L2_GAS")) == L2_GAS
  {
    hide Value;
    assert Ascii("L1_GAS") == [0x4c, 0x31, 0x5f, 0x47, 0x41, 0x53];
    assert Ascii("L2_GAS") == [0x4c, 0x32, 0x5f, 0x47, 0x41, 0x53];
    ValueSix(0x4c, 0x31, 0x5f, 0x47, 0x41, 0x53);
    ValueSix(0x4c, 0x32, 0x5f, 0x47, 0x41, 0x53);
  }

  /** The 31 packed bytes as one number. */
  lemma PackedValue(env: Env, rb: ResourceBounds, resource: string, name: nat)
    requires |resource| == 6 && Value(Ascii(resource)) == name < 0x1_0000_0000_0000 && BoundsBytes(env, rb, resource).Ok?
    ensures SetBytes(BoundsBytes(env, rb, resource).value) == Packed(env, rb, name)
  {
    hide Value, Pow2, Int2Octets, FIELD_PRIME;
    var s := BoundsBytes(env, rb, resource).value;
    BoundsFit(env, rb, resource);
    AmountPart(env, rb, resource);
    var head := [0] + Ascii(resource);
    assert s == (head + s[7..15]) + s[15..];
    ValueConcat(head + s[7..15], s[15..]);
    ValueConcat(head, s[7..15]);
    ValueConcat([0], Ascii(resource));
    ValueSnoc([], 0);
    assert [] + [0] == [0 as byte] && Value([]) == 0 by { EmptyIsZero(); }
    Pow2Bytes();
  }

  lemma EmptyIsZero()
    ensures Value([]) == 0
  {}

  lemma CommonLayout(env: Env, c: Common)
    requires HashCommon(env, c).Ok?
    ensures HashCommon(env, c) == env.pedersen(
      [c.prefix, Num(env, c.version), c.address, c.selector, Ped(env, c.inner), c.maxFee, env.chainId] + c.more)
  {}

  lemma V3Layout(env: Env, f: Full)
    requires f.v3.nonce.Some? && f.v3.payMasterData.Some? && HashV3(env, f).Ok?
    ensures HashV3(env, f) == Ok(env.poseidon(V3Head(env, f.prefix, f.v3, f.sender) + f.tail))
  {
    hide BoundsBytes, SetBytes, ToUint64, Packed;
    GasNames();
    PackedValue(env, f.v3.resourceBounds.l1Gas, "L1_GAS", L1_GAS);
    PackedValue(env, f.v3.resourceBounds.l2Gas, "L2_GAS", L2_GAS);
  }

  // ---------- which transactions are accepted ----------

  /** u writes a number below 2^64. */
  ghost predicate WritesUint64(u: string) {
    SameNumber(u, u)
  }

  /** What every V3 transaction must bring. */
  ghost predicate V3Complete(env: Env, v3: V3) {
    v3.version != "" && env.parseFelt(v3.version).Some? && v3.nonce.Some? && v3.payMasterData.Some?
    && v3.feeMode in {"L1", "L2"} && v3.nonceDataMode in {"L1", "L2"} && WritesUint64(v3.tip)
    && v3.resourceBounds != NO_BOUNDS
    && BoundsComplete(env, v3.resourceBounds.l1Gas) && BoundsComplete(env, v3.resourceBounds.l2Gas)
  }

  ghost predicate BoundsComplete(env: Env, rb: ResourceBounds) {
    WritesUint64(rb.maxAmount) && env.parseFelt(rb.maxPricePerUnit).Some?
  }

  /** And what each kind must bring besides; that the Pedersen hashes exist is asked last. */
  ghost predicate Complete(env: Env, tx: Txn) {
    match tx
    case InvokeV0(fee, v, _, sel, data) => v != "" && data != [] && fee.Some? && sel.Some?
    case InvokeV1(fee, v, n, a, data) => v != "" && data != [] && fee.Some? && n.Some? && a.Some?
    case InvokeV3(v3, a, data, dep) => data != [] && a.Some? && dep.Some? && V3Complete(env, v3)
    case DeclareV0 => false
    case DeclareV1(a, fee, v, n, c) => v != "" && a.Some? && fee.Some? && n.Some? && c.Some?
    case DeclareV2(a, k, fee, v, n, c) => v != "" && a.Some? && k.Some? && fee.Some? && n.Some? && c.Some?
    case DeclareV3(v3, a, k, c, dep) => a.Some? && k.Some? && c.Some? && dep.Some? && V3Complete(env, v3)
    case DeployV1(_, _, v, _, _, _, _) => true
    case DeployV3(v3, _, _, _, _) => V3Complete(env, v3)
  }

  /** The list whose Pedersen hash stands in the layout. */
  function InnerList(tx: Txn): seq<felt>
    requires FieldsSet(tx) && !UsesPoseidon(tx)
  {
    match tx
    case InvokeV0(_, _, _, _, data) => data
    case InvokeV1(_, _, _, _, data) => data
    case DeclareV1(_, _, _, _, c) => [c.value]
    case DeclareV2(_, _, _, _, _, c) => [c.value]
    case DeployV1(_, _, _, _, c, salt, data) => [c, salt] + data
  }

  /** For the Pedersen kinds the version parses and both lists have hashes. */
  predicate ListsHashed(env: Env, tx: Txn)
    requires FieldsSet(tx) && !UsesPoseidon(tx)
  {
    env.parseFelt(Version(tx)).Some? && env.pedersen(InnerList(tx)).Ok? && env.pedersen(Layout(env, tx)).Ok?
  }

  /** Exactly the complete transactions whose lists have hashes are accepted. */
  lemma AcceptedIff(env: Env, tx: Txn)
    ensures Complete(env, tx) ==> FieldsSet(tx)
    ensures TransactionHash(env, tx).Ok? <==> Complete(env, tx) && (UsesPoseidon(tx) || ListsHashed(env, tx))
  {
    if UsesPoseidon(tx) {
      V3AcceptedIff(env, tx);
    } else {
      CommonAcceptedIff(env, tx);
    }
    hide TransactionHash, ListsHashed, V3Complete;
  }

  lemma CommonAcceptedIff(env: Env, tx: Txn)
    requires !UsesPoseidon(tx)
    ensures TransactionHash(env, tx).Ok? <==> Complete(env, tx) && FieldsSet(tx) && ListsHashed(env, tx)
  {
    if Complete(env, tx) {
      LayoutIs(env, tx);
      CommonHashed(env, AsCommon(tx));
    }
    hide HashCommon, Layout;
  }

  lemma CommonHashed(env: Env, c: Common)
    ensures HashCommon(env, c).Ok? <==>
      env.parseFelt(c.version).Some? && env.pedersen(c.inner).Ok? &&
      env.pedersen([c.prefix, Num(env, c.version), c.address, c.selector, Ped(env, c.inner), c.maxFee, env.chainId] + c.more).Ok?
  {}

  lemma V3AcceptedIff(env: Env, tx: Txn)
    requires UsesPoseidon(tx)
    ensures TransactionHash(env, tx).Ok? <==> Complete(env, tx)
  {
    if FieldsSet(tx) && tx.v3.version != "" && tx.v3.resourceBounds != NO_BOUNDS {
      V3Hashed(env, AsFull(env, tx));
    }
    VersionAndBounds(env, tx.v3);
    hide HashV3, V3Complete;
  }

  lemma VersionAndBounds(env: Env, v3: V3)
    ensures V3Complete(env, v3) ==>
      v3.version != "" && v3.resourceBounds != NO_BOUNDS && v3.nonce.Some? && v3.payMasterData.Some?
  {}

  lemma V3Hashed(env: Env, f: Full)
    requires f.v3.nonce.Some? && f.v3.payMasterData.Some? && f.v3.version != "" && f.v3.resourceBounds != NO_BOUNDS
    ensures HashV3(env, f).Ok? <==> V3Complete(env, f.v3)
  {
    hide ToUint64, SetBytes, Int2Octets, SameNumber;
    SameNumberIff(f.v3.tip, f.v3.tip);
    SameNumberIff(f.v3.resourceBounds.l1Gas.maxAmount, f.v3.resourceBounds.l1Gas.maxAmount);
    SameNumberIff(f.v3.resourceBounds.l2Gas.maxAmount, f.v3.resourceBounds.l2Gas.maxAmount);
  }
}
