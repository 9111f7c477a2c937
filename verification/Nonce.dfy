/** The deterministic nonce of curve/curve.go, after section 3.2 of RFC 6979, over an
    uninterpreted HMAC. */
module Nonce {
  import opened Results
  import opened NumberTheory
  import opened Powers
  import opened Octets
  import opened Curve

  /** HMAC-SHA256 as a function of key and message. */
  type Mac = (seq<byte>, seq<byte>) -> seq<byte>

  /** SHA-256 tags are 32 bytes long. */
  ghost predicate Tags32(mac: Mac) {
    forall k, m :: |mac(k, m)| == 32
  }

  function Rolen(sc: StarkCurve): nat { (sc.BitSize + 7) / 8 }

  /** The message as GenerateSecret scales it before bits2octets. */
  function Scaled(msgHash: nat): nat {
    if BitLen(msgHash) % 8 <= 4 && BitLen(msgHash) >= 248 then msgHash * 16 else msgHash
  }

  /** The data fed to the HMAC: key octets, message octets, seed bytes. */
  function Preimage(sc: StarkCurve, msgHash: nat, privKey: int, seed: int): seq<byte> {
    Int2Octets(privKey, Rolen(sc)) + Bits2Octets(Scaled(msgHash), sc.N, sc.BitSize, Rolen(sc))
    + (if seed > 0 then Bytes(seed) else [])
  }

  /** Steps b to g: the state before the first candidate. */
  function Seeded(mac: Mac, data: seq<byte>): (seq<byte>, seq<byte>) {
    var v0 := seq(32, _ => 1 as byte);
    var k1 := mac(Zeros(32), v0 + [0] + data);
    var v1 := mac(k1, v0);
    var k2 := mac(k1, v1 + [1] + data);
    (k2, mac(k2, v1))
  }

  /** The first candidate in (0, N) among the next `tries`. */
  function FirstCandidate(sc: StarkCurve, mac: Mac, k: seq<byte>, v: seq<byte>, tries: nat): (r: Option<int>)
    ensures r.Some? ==> 0 < r.value < sc.N
    decreases tries
  {
    if tries == 0 then None
    else
      var t := mac(k, v);
      var secret := Bits2Int(Value(t), sc.BitSize);
      if 0 < secret < sc.N then Some(secret)
      else
        var k' := mac(k, t + [0]);
        FirstCandidate(sc, mac, k', mac(k', t), tries - 1)
  }

  function Secret(sc: StarkCurve, mac: Mac, msgHash: nat, privKey: int, seed: int, tries: nat): (r: Option<int>)
    ensures r.Some? ==> 0 < r.value < sc.N
  {
    var (k, v) := Seeded(mac, Preimage(sc, msgHash, privKey, seed));
    FirstCandidate(sc, mac, k, v, tries)
  }

  /** GenerateSecret with its rejection loop cut off after `tries` candidates. */
  method GenerateSecret(sc: StarkCurve, mac: Mac, msgHash: nat, privKey: int, seed: int, tries: nat)
    returns (r: Option<int>)
    requires Tags32(mac) && sc.BitSize == 252
    ensures r == Secret(sc, mac, msgHash, privKey, seed, tries)
    ensures sc.N > Pow2(251) && 0 < msgHash < Pow2(251) ==>
      NonceResult(sc, mac, HmacData(msgHash, privKey, seed), tries, r)
  {
    SecretResult(sc, mac, msgHash, privKey, seed, tries);
    hide NonceResult, HmacData, Pow2, BitLen, Int2Octets, Bits2Octets, Bits2Int, Value, Bytes, FirstCandidate;
    var rolen := Rolen(sc);
    var msg := msgHash;
    if BitLen(msg) % 8 <= 4 && BitLen(msg) >= 248 {
      msg := msg * 16;
    }
    var data := Int2Octets(privKey, rolen) + Bits2Octets(msg, sc.N, sc.BitSize, rolen);
    if seed > 0 {
      data := data + Bytes(seed);
    }
    assert data == Preimage(sc, msgHash, privKey, seed);
    hide Preimage, Rolen, Scaled;
    var v: seq<byte> := seq(32, _ => 1 as byte);
    var k: seq<byte> := Zeros(32);
    k := mac(k, v + [0] + data);
    v := mac(k, v);
    k := mac(k, v + [1] + data);
    v := mac(k, v);
    assert (k, v) == Seeded(mac, data);
    hide Seeded;
    r := Search(sc, mac, k, v, tries);
  }

  /** The rejection loop over the candidates. */
  method Search(sc: StarkCurve, mac: Mac, k0: seq<byte>, v0: seq<byte>, tries: nat) returns (r: Option<int>)
    requires Tags32(mac) && sc.BitSize == 252
    ensures r == FirstCandidate(sc, mac, k0, v0, tries)
  {
    hide FirstCandidate, Bits2Int, Value;
    var k, v := k0, v0;
    var left := tries;
    while left > 0
      invariant FirstCandidate(sc, mac, k, v, left) == FirstCandidate(sc, mac, k0, v0, tries)
    {
      var t: seq<byte> := [];
      ghost var before := v;
      while |t| < Rolen(sc)
        invariant if t == [] then v == before else t == v == mac(k, before)
        decreases Rolen(sc) - |t|
      {
        v := mac(k, v);
        t := t + v;
      }
      SearchOne(sc, mac, k, before, left);
      var secret := Bits2Int(Value(t), sc.BitSize);
      if 0 < secret < sc.N {
        return Some(secret);
      }
      k := mac(k, v + [0]);
      v := mac(k, v);
      left := left - 1;
    }
    SearchNone(sc, mac, k, v);
    return None;
  }

  lemma SearchNone(sc: StarkCurve, mac: Mac, k: seq<byte>, v: seq<byte>)
    ensures FirstCandidate(sc, mac, k, v, 0) == None
  {}

  lemma SearchOne(sc: StarkCurve, mac: Mac, k: seq<byte>, v: seq<byte>, tries: nat)
    requires tries > 0
    ensures var t := mac(k, v);
            var secret, k' := Bits2Int(Value(t), sc.BitSize), mac(k, t + [0]);
            FirstCandidate(sc, mac, k, v, tries)
            == if 0 < secret < sc.N then Some(secret) else FirstCandidate(sc, mac, k', mac(k', t), tries - 1)
  {
    hide Value, Bits2Int;
  }

  lemma SecretResult(sc: StarkCurve, mac: Mac, msgHash: nat, privKey: int, seed: int, tries: nat)
    requires Tags32(mac) && sc.BitSize == 252
    ensures sc.N > Pow2(251) && 0 < msgHash < Pow2(251) ==>
      NonceResult(sc, mac, HmacData(msgHash, privKey, seed), tries, Secret(sc, mac, msgHash, privKey, seed, tries))
  {
    hide NonceResult, HmacData, Secret, Pow2;
    if sc.N > Pow2(251) && 0 < msgHash < Pow2(251) {
      SecretIsTranscript(sc, mac, msgHash, privKey, seed, tries);
    }
  }

  /** A longer search never changes an answer already found. */
  lemma {:induction false} CandidateStable(sc: StarkCurve, mac: Mac, k: seq<byte>, v: seq<byte>, tries: nat, more: nat)
    requires tries <= more && FirstCandidate(sc, mac, k, v, tries).Some?
    ensures FirstCandidate(sc, mac, k, v, more) == FirstCandidate(sc, mac, k, v, tries)
    decreases tries
  {
    var t := mac(k, v);
    var secret := Bits2Int(Value(t), sc.BitSize);
    if !(0 < secret < sc.N) {
      var k' := mac(k, t + [0]);
      CandidateStable(sc, mac, k', mac(k', t), tries - 1, more - 1);
    }
  }

  /** Scaling by 16 and the shift of bits2int cancel on the whole message range. */
  lemma ScalingCancels(msgHash: nat)
    requires 0 < msgHash < Pow2(251)
    ensures Bits2Int(Scaled(msgHash), 252) == msgHash
  {
    hide Pow2, Bytes, BitLen, Shr;
    BitLenBounds(msgHash);
    var n := BitLen(msgHash);
    if n > 251 {
      Pow2Monotone(251, n - 1);
    }
    if n >= 248 {
      assert n % 8 <= 4;
      Pow2Monotone(247, n - 1);
      LongMessage(msgHash);
    } else {
      Pow2Monotone(n, 248);
      BytesLength(msgHash, 31);
    }
  }

  lemma LongMessage(msgHash: nat)
    requires Pow2(247) <= msgHash < Pow2(251)
    ensures Bits2Int(msgHash * 16, 252) == msgHash
  {
    hide Pow2, Bytes;
    Pow2Small();
    Pow2Sum(4, 247);
    Pow2Sum(4, 251);
    Pow2Monotone(248, 251);
    Pow2Monotone(255, 256);
    BytesLength(msgHash * 16, 32);
    BytesLength(msgHash * 16, 31);
    DivModUnique(msgHash * 16, 16, msgHash, 0);
  }

  /** For every message in (0, 2^251) the HMAC data is the key in 32 bytes, the message in
      32 bytes, and the seed. */
  lemma PreimageShape(sc: StarkCurve, msgHash: nat, privKey: int, seed: int)
    requires sc.BitSize == 252 && sc.N > Pow2(251) && 0 < msgHash < Pow2(251)
    ensures Preimage(sc, msgHash, privKey, seed)
         == Int2Octets(privKey, 32) + Int2Octets(msgHash, 32) + (if seed > 0 then Bytes(seed) else [])
    ensures |Int2Octets(privKey, 32)| == |Int2Octets(msgHash, 32)| == 32
    ensures Value(Int2Octets(msgHash, 32)) == msgHash
  {
    hide Pow2, Bytes, Int2Octets, Bits2Int, Scaled;
    ScalingCancels(msgHash);
    Int2OctetsValue(privKey, 32);
    Int2OctetsValue(msgHash, 32);
    Pow2Monotone(251, 256);
    DivModUnique(msgHash, Pow2(256), 0, msgHash);
  }

  // ---------- the transcript of section 3.2 of RFC 6979 ----------

  /** What is fed to the HMAC, written out: key, message, positive seed. */
  function HmacData(msgHash: int, privKey: int, seed: int): seq<byte> {
    Int2Octets(privKey, 32) + Int2Octets(msgHash, 32) + (if seed > 0 then Bytes(seed) else [])
  }

  /** Steps b to g: two rounds over the data, with the separators 0 and 1. */
  ghost predicate Start(mac: Mac, data: seq<byte>, k: seq<byte>, v: seq<byte>) {
    var v0: seq<byte>, k0: seq<byte> := seq(32, _ => 1), seq(32, _ => 0);
    var k1 := mac(k0, v0 + [0] + data);
    var v1 := mac(k1, v0);
    k == mac(k1, v1 + [1] + data) && v == mac(k, v1)
  }

  /** Step h: T[i] is the i-th tag, K[i] and V[i] the state it is computed from. */
  ghost predicate Steps(mac: Mac, K: seq<seq<byte>>, V: seq<seq<byte>>, T: seq<seq<byte>>) {
    |K| == |V| == |T| &&
    (forall i :: 0 <= i < |T| ==> T[i] == mac(K[i], V[i])) &&
    (forall i :: 0 < i < |T| ==> K[i] == mac(K[i - 1], T[i - 1] + [0]) && V[i] == mac(K[i], T[i - 1]))
  }

  ghost predicate Transcript(mac: Mac, data: seq<byte>, K: seq<seq<byte>>, V: seq<seq<byte>>, T: seq<seq<byte>>) {
    Steps(mac, K, V, T) && (|T| > 0 ==> Start(mac, data, K[0], V[0]))
  }

  /** The number of a 32-byte tag: four bits are cut off, unless the first byte is zero. */
  function Candidate(t: seq<byte>): nat {
    if Value(t) >= Pow2(248) then Value(t) / 16 else Value(t)
  }

  predicate InOrder(sc: StarkCurve, t: seq<byte>) { 0 < Candidate(t) < sc.N }

  /** The last tag gives x, the first in (0, N). */
  ghost predicate EndsIn(sc: StarkCurve, T: seq<seq<byte>>, x: int) {
    |T| > 0 && InOrder(sc, T[|T| - 1]) && x == Candidate(T[|T| - 1])
    && forall i :: 0 <= i < |T| - 1 ==> !InOrder(sc, T[i])
  }

  /** x is the nonce of the data, found among the first `tries` candidates. */
  ghost predicate NonceWithin(sc: StarkCurve, mac: Mac, data: seq<byte>, tries: nat, x: int) {
    exists K, V, T :: Transcript(mac, data, K, V, T) && |T| <= tries && EndsIn(sc, T, x)
  }

  /** None of the first `tries` candidates is in (0, N). */
  ghost predicate NoneWithin(sc: StarkCurve, mac: Mac, data: seq<byte>, tries: nat) {
    exists K, V, T :: Transcript(mac, data, K, V, T) && |T| == tries
                      && forall i :: 0 <= i < tries ==> !InOrder(sc, T[i])
  }

  ghost predicate NonceResult(sc: StarkCurve, mac: Mac, data: seq<byte>, tries: nat, r: Option<int>) {
    match r
    case Some(x) => NonceWithin(sc, mac, data, tries, x)
    case None => NoneWithin(sc, mac, data, tries)
  }

  lemma CandidateIs(t: seq<byte>)
    requires |t| == 32
    ensures Bits2Int(Value(t), 252) == Candidate(t)
  {
    hide Value, Bytes, Pow2;
    ValueBound(t);
    BytesLength(Value(t), 32);
    BytesLength(Value(t), 31);
    assert Pow2(4) == 16 by { Pow2Small(); }
  }

  /** The search, run, leaves a transcript. */
  lemma {:induction false} SearchSteps(sc: StarkCurve, mac: Mac, k: seq<byte>, v: seq<byte>, tries: nat)
    returns (K: seq<seq<byte>>, V: seq<seq<byte>>, T: seq<seq<byte>>)
    requires Tags32(mac) && sc.BitSize == 252
    ensures |K| == |V| == |T| <= tries && Steps(mac, K, V, T) && (|T| > 0 ==> K[0] == k && V[0] == v)
    ensures match FirstCandidate(sc, mac, k, v, tries)
            case Some(x) => EndsIn(sc, T, x)
            case None => |T| == tries && forall i :: 0 <= i < tries ==> !InOrder(sc, T[i])
    decreases tries
  {
    hide *;
    SearchDone(sc, mac, k, v);
    if tries == 0 {
      K, V, T := [], [], [];
    } else {
      var t := mac(k, v);
      FirstCandidateStep(sc, mac, k, v, tries);
      if InOrder(sc, t) {
        K, V, T := [k], [v], [t];
      } else {
        var k' := mac(k, t + [0]);
        var v' := mac(k', t);
        var K', V', T' := SearchSteps(sc, mac, k', v', tries - 1);
        K, V, T := [k] + K', [v] + V', [t] + T';
        StepsBefore(mac, k, v, K', V', T');
        EndsBefore(sc, t, T');
      }
    }
  }

  lemma SearchDone(sc: StarkCurve, mac: Mac, k: seq<byte>, v: seq<byte>)
    ensures FirstCandidate(sc, mac, k, v, 0) == None && Steps(mac, [], [], [])
    ensures var t := mac(k, v); Steps(mac, [k], [v], [t]) && (InOrder(sc, t) ==> EndsIn(sc, [t], Candidate(t)))
  {}

  lemma StepsBefore(mac: Mac, k: seq<byte>, v: seq<byte>, K: seq<seq<byte>>, V: seq<seq<byte>>, T: seq<seq<byte>>)
    requires Steps(mac, K, V, T)
    requires |K| == |V| == |T|
    requires |T| > 0 ==> K[0] == mac(k, mac(k, v) + [0]) && V[0] == mac(mac(k, mac(k, v) + [0]), mac(k, v))
    ensures Steps(mac, [k] + K, [v] + V, [mac(k, v)] + T)
  {
    var K', V', T' := [k] + K, [v] + V, [mac(k, v)] + T;
    forall i | 0 < i < |T'|
      ensures K'[i] == mac(K'[i - 1], T'[i - 1] + [0]) && V'[i] == mac(K'[i], T'[i - 1])
    {
      assert K'[i] == K[i - 1] && V'[i] == V[i - 1];
      if i > 1 {
        assert K'[i - 1] == K[i - 2] && T'[i - 1] == T[i - 2];
      }
    }
  }

  lemma EndsBefore(sc: StarkCurve, t: seq<byte>, T: seq<seq<byte>>)
    requires !InOrder(sc, t)
    ensures forall x :: EndsIn(sc, [t] + T, x) <==> EndsIn(sc, T, x)
    ensures (forall i :: 0 <= i < |T| ==> !InOrder(sc, T[i])) ==> forall i :: 0 <= i < |T| + 1 ==> !InOrder(sc, ([t] + T)[i])
  {
    hide InOrder, Candidate;
    var T' := [t] + T;
    assert forall i :: 0 <= i < |T| ==> T'[i + 1] == T[i];
  }

  /** And a transcript tells what the search finds. */
  lemma {:induction false} StepsSearch(
    sc: StarkCurve, mac: Mac, K: seq<seq<byte>>, V: seq<seq<byte>>, T: seq<seq<byte>>, k: seq<byte>, v: seq<byte>, tries: nat)
    requires Tags32(mac) && sc.BitSize == 252 && |K| == |V| == |T| <= tries && Steps(mac, K, V, T)
    requires |T| > 0 ==> K[0] == k && V[0] == v
    ensures forall x :: EndsIn(sc, T, x) ==> FirstCandidate(sc, mac, k, v, tries) == Some(x)
    ensures |T| == tries && (forall i :: 0 <= i < tries ==> !InOrder(sc, T[i])) ==> FirstCandidate(sc, mac, k, v, tries) == None
    decreases |T|
  {
    hide Value, Bits2Int, Candidate, InOrder, Steps, FirstCandidate, EndsIn;
    NothingEnds(sc);
    SearchDone(sc, mac, k, v);
    if |T| > 0 {
      FirstCandidateStep(sc, mac, k, v, tries);
      var T' := T[1..];
      assert T == [T[0]] + T';
      StepsAfter(mac, K, V, T);
      if InOrder(sc, T[0]) {
        EndsAtOnce(sc, T);
      } else {
        EndsBefore(sc, T[0], T');
        StepsSearch(sc, mac, K[1..], V[1..], T', mac(k, T[0] + [0]), mac(mac(k, T[0] + [0]), T[0]), tries - 1);
      }
    }
  }

  lemma NothingEnds(sc: StarkCurve)
    ensures forall x :: !EndsIn(sc, [], x)
  {}

  lemma EndsAtOnce(sc: StarkCurve, T: seq<seq<byte>>)
    requires |T| > 0 && InOrder(sc, T[0])
    ensures forall x :: EndsIn(sc, T, x) ==> x == Candidate(T[0])
  {
    hide InOrder, Candidate;
  }

  lemma StepsAfter(mac: Mac, K: seq<seq<byte>>, V: seq<seq<byte>>, T: seq<seq<byte>>)
    requires |K| == |V| == |T| > 0 && Steps(mac, K, V, T)
    ensures Steps(mac, K[1..], V[1..], T[1..]) && T[0] == mac(K[0], V[0])
    ensures |T| > 1 ==> K[1] == mac(K[0], T[0] + [0]) && V[1] == mac(K[1], T[0])
  {}

  /** One candidate of the search. */
  lemma FirstCandidateStep(sc: StarkCurve, mac: Mac, k: seq<byte>, v: seq<byte>, tries: nat)
    requires Tags32(mac) && sc.BitSize == 252 && tries > 0
    ensures var t := mac(k, v);
            FirstCandidate(sc, mac, k, v, tries)
            == if InOrder(sc, t) then Some(Candidate(t))
               else FirstCandidate(sc, mac, mac(k, t + [0]), mac(mac(k, t + [0]), t), tries - 1)
  {
    hide Value, Bits2Int, Candidate;
    CandidateIs(mac(k, v));
  }

  /** GenerateSecret is section 3.2 of RFC 6979 over the written-out data, candidate by
      candidate, apart from how a tag with a leading zero byte is cut. */
  lemma SecretIsTranscript(sc: StarkCurve, mac: Mac, msgHash: nat, privKey: int, seed: int, tries: nat)
    requires Tags32(mac) && sc.BitSize == 252 && sc.N > Pow2(251) && 0 < msgHash < Pow2(251)
    ensures var data, found := HmacData(msgHash, privKey, seed), Secret(sc, mac, msgHash, privKey, seed, tries);
            NonceResult(sc, mac, data, tries, found)
            && (forall x :: NonceWithin(sc, mac, data, tries, x) ==> found == Some(x))
            && (NoneWithin(sc, mac, data, tries) ==> found == None)
  {
    hide Value, Bits2Int, Candidate, Int2Octets, Bytes, Pow2, Preimage, InOrder;
    PreimageShape(sc, msgHash, privKey, seed);
    var data := HmacData(msgHash, privKey, seed);
    var (k, v) := Seeded(mac, data);
    StartIs(mac, data);
    hide FirstCandidate;
    var K, V, T := SearchSteps(sc, mac, k, v, tries);
    assert Transcript(mac, data, K, V, T);
    forall K, V, T | Transcript(mac, data, K, V, T) && |T| <= tries
      ensures forall x :: EndsIn(sc, T, x) ==> FirstCandidate(sc, mac, k, v, tries) == Some(x)
      ensures |T| == tries && (forall i :: 0 <= i < tries ==> !InOrder(sc, T[i])) ==> FirstCandidate(sc, mac, k, v, tries) == None
    {
      StepsSearch(sc, mac, K, V, T, k, v, tries);
    }
  }

  lemma StartIs(mac: Mac, data: seq<byte>)
    ensures forall k, v :: Start(mac, data, k, v) <==> (k, v) == Seeded(mac, data)
  {
    assert Zeros(32) == seq(32, _ => 0);
  }

  /** The HMAC data tells apart every two messages, keys (modulo 2^256) and positive seeds,
      so each retry of Sign from a non-negative seed feeds a new string. Seeds below 1 are
      all read as absent. */
  lemma PreimageInjective(sc: StarkCurve, m: nat, p: int, s: int, m': nat, p': int, s': int)
    requires sc.BitSize == 252 && sc.N > Pow2(251)
    requires 0 < m < Pow2(251) && 0 < m' < Pow2(251)
    ensures Preimage(sc, m, p, s) == Preimage(sc, m', p', s')
       <==> m == m' && Abs(p) % Pow2(256) == Abs(p') % Pow2(256) && (s == s' || (s <= 0 && s' <= 0))
  {
    hide Pow2, Int2Octets, Preimage;
    PreimageShape(sc, m, p, s);
    PreimageShape(sc, m', p', s');
    Int2OctetsValue(p, 32);
    Int2OctetsValue(p', 32);
    var d, d' := Preimage(sc, m, p, s), Preimage(sc, m', p', s');
    var t, t' := if s > 0 then Bytes(s) else [], if s' > 0 then Bytes(s') else [];
    assert d[..32] == Int2Octets(p, 32) && d'[..32] == Int2Octets(p', 32);
    assert d[32..64] == Int2Octets(m, 32) && d'[32..64] == Int2Octets(m', 32);
    assert d[64..] == t && d'[64..] == t';
    if Abs(p) % Pow2(256) == Abs(p') % Pow2(256) {
      ValueInjective(Int2Octets(p, 32), Int2Octets(p', 32));
    }
    if s > 0 {
      BytesValue(s);
    }
    if s' > 0 {
      BytesValue(s');
    }
  }
}
