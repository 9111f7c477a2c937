# starknet.go: curve, Merkle tree and hash encodings

A Dafny model of the parts of starknet.go whose results are signed or hashed, and proofs of
what they compute. Big integers are unbounded in the source and here, so nothing wraps except
where the source reduces or cuts.

| file | models |
|---|---|
| `NumberTheory.dfy`, `Powers.dfy`, `Octets.dfy` | congruences, extended Euclid, powers of two, byte strings |
| `Residues.dfy` | Fermat's little theorem, and -3 as a non-square modulo a prime 3k + 2 |
| `Division.dfy`, `Curve.dfy` | `DivMod`, affine `Add`, `Double`, `IsOnCurve`, and the chord-tangent operation as reference |
| `ScalarMult.dfy` | `EcMult`, `MimicEcMultAir` against k-fold addition |
| `Nonce.dfy`, `Ecdsa.dfy`, `Parameters.dfy` | `GenerateSecret`, `Sign`, `Verify`, the literal curve parameters |
| `Pedersen.dfy` | `PedersenHash`, `HashElements`, `ComputeHashOnElements` |
| `Merkle.dfy` | the fixed-size Merkle tree, its proofs and their check |
| `Hex.dfy`, `Transactions.dfy`, `Calldata.dfy`, `Selectors.dfy` | hexadecimal amounts, transaction hashes, multicall encodings, selectors |
| `TypedData.dfy` | `EncodeType` |
| `Reductions.dfy` | the Merkle check and the transaction hashes over `PedersenHash` itself |

## Hypotheses

The theorems about points take as hypotheses, in `Group`, `OrderN`, `Ready` and `HashReady`: P and N are
prime, the chord-tangent operation is associative, and N times the base point (and the public
key) vanishes. Closure, commutativity, the identity and inverses of the operation are proved,
and so are all facts about the literal parameters: that the generator and both shift points
are on the curve, that the shift points are opposite, that no point of the curve has x = 0, and
the ranges of Max and N. Results about `PedersenHash` as a sum also take as a hypothesis that
the constant points lie on the curve.

Keccak, SHA-256/HMAC and Poseidon are function parameters; nothing is assumed of them except
that an HMAC-SHA256 tag has 32 bytes. Statements about hashes are reductions: they end in
"or these two different inputs, taken from these two computations, have one hash".

## Where the code and its stated intent differ

The model follows the code.

- `curve/curve.go:301` compares two `*big.Int` pointers. It reports "xs are the same" only if
  the caller passes one pointer for x1 and x2; equal values go unnoticed and `Add` then uses a
  meaningless slope. The parameter `onePointer` stands for the caller's aliasing. `AirMultCorrect`
  holds where no executed `Add` meets equal x, and `AirDefinedIff` says which multiples must differ for that.
  On the STARK curve `Add` with equal x is wrong for every two points (`AddRightIff`, `StarkModThree`), so a clash at
  the top bit of the scalar always spoils the result (`AirMultRightIff`); after an earlier clash further
  Adds follow, and only `AirMultCorrect`'s direction is known. `PassDefinedIff` says for which inputs `Verify` meets equal x.
- `curve/curve.go:593` rejects x >= P only. A negative element passes and is read in two's
  complement, so a and a - 2^252 hash alike (`NegativeTwin`, `TwinsHashAlike`, `RangeErrorIff`).
- `merkle/merkle.go:149-158` inherits this: over any two or more leaves, the smaller of the first two
  less 2^252 is accepted with a path of full length (`NegativeLeafAccepted`). For leaves, leaf and
  path in [0, P) the check is sound up to a collision of field elements (`PathSoundInField`).
- `curve/utils.go:94` counts the bytes of the number, not of the octet string. `Bits2IntVersusRfc`
  gives the exact strings on which this is bits2int of section 2.3.2 of RFC 6979; one leading zero byte breaks it.
- `merkle/merkle.go:122` reads `branch[index+1]` for every even index. At the unpaired last node
  of an odd level it panics, although line 121 and `build` pair that node with 0. `LeafProvableIff`
  reads off the index of a leaf's first occurrence and the number of leaves whether that happens, in
  every tree whose pairs do not collide; by `EveryDifferentLeafProvable` different leaves all have a
  proof only if their number is a power of two. `PaddedPathAccepted` shows that the accepted path always exists.
- `merkle/merkle.go:62-84` recurses for ever on no leaves (`NoLeavesNoRoot`), so a leaf is required.
- `typed/typed.go:241` ranges over a map, so the encoding is one fixed string only if at most
  one type is referenced (`DeterministicIff`).

## Model

| member | source | states |
|---|---|---|
| Division.DivModQuotient | curve/utils.go:18-27 | for a divisor of either sign coprime to p, the result is the unique quotient in [0, p) |
| Division.InverseIffCoprime | curve/utils.go:18-27 | DivMod(1, m, p) is an inverse of m if and only if m and p are coprime |
| Division.DivModMultiple | curve/utils.go:18-27 | where p divides m the code returns 0 instead of failing |
| Division.DivModCongruent | curve/utils.go:18-27 | modulo a prime, congruent arguments give one result, also where no quotient exists |
| Division.InverseTwice | curve/curve.go:252-254 | inverting twice is the identity on (0, N), and inverses stay in (0, N) |
| Curve.OnCurveResidual | curve/curve.go:224-243 | IsOnCurve tests y^2 = x^3 + x + B modulo P |
| Curve.AddOnCurve | curve/curve.go:136-154 | distinct x: the sum of two curve points is a reduced curve point |
| Curve.DoubleOnCurve | curve/curve.go:169-189 | y nonzero: the double of a curve point is a reduced curve point |
| Curve.AddCongruent | curve/curve.go:136-154 | Add depends on the residues of its coordinates only, even where its slope is undefined |
| Curve.DoubleCongruent | curve/curve.go:169-189 | Double depends on the residues of its coordinates only |
| Curve.AddIsChord | curve/curve.go:136-154 | Add mirrors the third of the three points, counted with multiplicity, in which the line through both points meets the curve |
| Curve.DoubleIsTangent | curve/curve.go:169-189 | Double does the same for the tangent |
| Curve.PlusClosed | curve/curve.go:136-189 | the chord-tangent operation built from Add and Double stays on the curve |
| Curve.PlusCommutes | curve/curve.go:136-189 | and commutes |
| Curve.PlusInverse | curve/curve.go:136-189 | and the mirrored point is the one inverse |
| ScalarMult.EcMultCorrect | curve/curve.go:325-366 | for 0 < m < N the recursion computes m*P, and every slope on the way is defined |
| ScalarMult.OrderIsN | curve/curve.go:317 | a point killed by the prime N is killed by no smaller positive multiple |
| ScalarMult.MimicEcMultAir | curve/curve.go:292-314 | the 251-round loop computes AirMult, errors included |
| Ecdsa.AirMultErrors | curve/curve.go:292-314 | which error is reported for which inputs; in range, only one pointer for both x fails |
| ScalarMult.AirLoopCorrect | curve/curve.go:300-309 | after i rounds: Q + (m mod 2^i)*P, with remainder m div 2^i, where the Adds are defined |
| ScalarMult.AirMultCorrect | curve/curve.go:292-314 | m*P + Q for every 0 < m < 2^251; the exit "m doesn't equal zero" is unreachable |
| ScalarMult.AirDefinedIff | curve/curve.go:300-306 | the Adds are defined if and only if no round with its bit set finds Q + (m mod 2^i)*P equal or opposite to 2^i*P |
| ScalarMult.AddRightIff | curve/curve.go:136-154 | modulo a prime 3k + 2 Add of two curve points is their sum if and only if the x differ, opposite points included |
| ScalarMult.AirMultRightIff | curve/curve.go:292-314 | for every m, P and Q without a clash below the top bit of m, the result is m*P + Q if and only if the top bit does not clash either |
| ScalarMult.AirTop | curve/curve.go:300-309 | and with such a clash it is the partial sum mirrored, its x times -2 |
| ScalarMult.EqualXsResult | curve/curve.go:298-306 | for m = 1 and equal points the equality goes unnoticed and the result is (-2x, -y) |
| ScalarMult.EqualXsRightIff | curve/curve.go:298-306 | over any field that is the double if and only if y is nonzero and 3x^2 + 1 vanishes modulo P |
| Parameters.StarkModThree | curve/curve.go:113-125 | the literal P is of the form 3k + 2, so `AddRightIff`, `NeverDoubled` and `AirMultRightIff` apply to the STARK curve |
| ScalarMult.NeverDoubled | curve/curve.go:298-306 | modulo a prime 3k + 2, 1*P + P is never twice P |
| Nonce.GenerateSecret | curve/curve.go:650-693 | returns the nonce of the transcript over key, message and seed, or none if all candidates lie outside (0, N) |
| Nonce.SecretIsTranscript | curve/curve.go:650-693 | x is returned if and only if explicit sequences of HMAC states and tags, started and continued as section 3.2 of RFC 6979 says, first reach (0, N) at x within the candidates allowed |
| Nonce.CandidateIs | curve/utils.go:93-100 | a 32-byte tag gives its value, cut by four bits unless its first byte is zero |
| Nonce.CandidateStable | curve/curve.go:677-692 | the nonce found does not depend on how long one is ready to search |
| Nonce.ScalingCancels | curve/curve.go:655-659 | the times-16 scaling cancels the shift of bits2int on (0, 2^251) |
| Nonce.PreimageShape | curve/curve.go:655-663 | the HMAC data is key(32) ++ message(32) ++ seed |
| Nonce.PreimageInjective | curve/curve.go:655-663 | the data is equal if and only if message, key modulo 2^256 and positive seed are |
| Octets.Int2OctetsValue | curve/utils.go:40-58 | exactly rolen bytes, of value v modulo 256^rolen |
| Octets.Bits2OctetsReduces | curve/utils.go:75-82 | exactly rolen bytes, of value bits2int(in) mod q: one subtraction suffices |
| Octets.Bits2IntBound | curve/utils.go:93-100 | the result has at most qlen bits |
| Octets.Bits2IntVersusRfc | curve/utils.go:93-100 | agrees with RFC 6979 exactly when no shift is needed, the first byte is nonzero, or all are zero |
| Ecdsa.Sign | curve/curve.go:454-499 | nil and out-of-range inputs fail; a signature returned is that of a run over the nonces of the seeds from the caller's on, and the caller's seed is left incremented by its length |
| Ecdsa.SignIff | curve/curve.go:466-499 | (r, s) is returned, with enough patience, if and only if each seed in turn gives the RFC 6979 nonce of key, message and seed, all but the last rejected, and the last makes (r, s) |
| Ecdsa.TrySignMeans | curve/curve.go:474-497 | a nonce makes (r, s), r the x coordinate of k*G and s the inverse of k/(r*priv + msgHash), or is rejected for r, the sum or the quotient |
| Ecdsa.SignStable | curve/curve.go:466-499 | a signature found does not depend on how long one is ready to search |
| Ecdsa.SignatureInRange | curve/curve.go:476-497 | what Sign returns passes Verify's range checks and Verify's w is Sign's |
| Ecdsa.SignatureEquation | curve/curve.go:482-496 | w*(msgHash*G + r*Q) = k*G |
| Ecdsa.PassCorrect | curve/curve.go:398-413 | one pass of Verify yields the x coordinate of w*(msgHash*G + r*Q): the shift points cancel |
| Ecdsa.PassDefinedIff | curve/curve.go:398-439 | a pass meets equal x if and only if a multiplication clashes, its two sums are equal or opposite, or the last sum is a shift point |
| Ecdsa.SignedPassDefinedIff | curve/curve.go:398-439 | for a signature of Sign the opposite sums cannot occur, and the last clash is k*G being twice the negative shift point |
| Ecdsa.VerifyIff | curve/curve.go:379-440 | Verify accepts if and only if the ranges hold and that equation holds for Q or -Q, where no Add it executes meets equal x; the key may be unreduced |
| Ecdsa.SignVerifies | curve/curve.go:379-499 | every signature Sign returns is accepted under the point of PrivateToPoint, where Verify's first pass meets no equal-x Add |
| Ecdsa.KeyIff | curve/curve.go:735-741 | a key gives a point if and only if it lies in (0, N), and then privKey*G |
| Ecdsa.KeyOnCurve | curve/curve.go:735-741 | every key in (0, N) gives the point privKey*G, of order N |
| Ecdsa.VerifyMirror | curve/curve.go:394-439 | Verify answers alike for (x, y) and (x, P - y), for all inputs |
| Ecdsa.SharedPointerFails | curve/curve.go:398-413 | a key passed as the curve's own Gx is always turned down |
| Parameters.StarkPoints | curve/curve.go:113-121 | generator and shift points are on the curve, and the shift points are opposite |
| Parameters.NoPointAtZero | curve/curve.go:113-115 | no point of the curve has x = 0, as B is no square modulo P |
| Pedersen.HashNeverZero | curve/curve.go:583-612 | on a curve without a point at x = 0 PedersenHash never gives 0, whatever it hashes |
| Parameters.StarkReady | curve/curve.go:112-124 | the literal parameters meet the hypotheses, given two primes, associativity and the order of the generator |
| Parameters.StarkHashReady | curve/curve.go:112-124 | the literal parameters meet the hypotheses on PedersenHash, given that P is prime and the table lies on the curve |
| Pedersen.PedersenHash | curve/curve.go:583-612 | the two loops compute Pedersen, errors included, within the table |
| Pedersen.PedersenOkIff | curve/curve.go:588-608 | a hash is returned if and only if every element is below P and no round's sum, in the group, is its table entry or the opposite point; else the error is that of the first element where this fails |
| Pedersen.NoTableIff | curve/curve.go:584-586 | the missing table is reported exactly without one |
| Pedersen.PedersenIsSum | curve/curve.go:588-611 | a successful hash is the x coordinate of shift plus the table entries selected by the bits |
| Pedersen.PedersenOfPair | curve/curve.go:588-611 | for a table of doublings it is shift + a_low*P1 + a_high*P2 + b_low*P3 + b_high*P4 |
| Pedersen.BitsConsumed | curve/curve.go:597-608 | 252 rounds consume all bits exactly of the numbers in [0, 2^252) |
| Pedersen.RangeErrorIff | curve/curve.go:591-595 | the range error is reported if and only if some element is P or more and those before it hash without error; negatives pass |
| Pedersen.HashedBelowP | curve/curve.go:591-595 | a list with an element of P or more is never hashed |
| Pedersen.TwinsHashAlike | curve/curve.go:593-607 | lists of numbers below P that agree modulo 2^252, element by element, hash alike, errors included |
| Pedersen.NegativeTwin | curve/curve.go:593-607 | so a and a - 2^252 hash alike as either element, because negative elements are not rejected |
| Pedersen.HashElements | curve/curve.go:531-544 | the last of running hashes that start at 0, each the PedersenHash of the one before and the next element; [0] for the empty list; the first error otherwise |
| Pedersen.FoldResultUnique | curve/curve.go:531-544 | those running hashes determine the result |
| Pedersen.ComputeHashOnElements | curve/curve.go:558-561 | the same with the length appended |
| Pedersen.ChainRange | curve/curve.go:531-544 | every hash is a number of the field, whatever was hashed |
| Pedersen.ListCollision | curve/curve.go:531-561 | two different lists with one hash, of whatever lengths, contain two different pairs with one PedersenHash; over the field they are pairs of field elements |
| Merkle.FixedSizeMerkleTree.New | merkle/merkle.go:27-38 | the tree's branches and root, or nil and the first hash error |
| Merkle.FixedSizeMerkleTree.Build | merkle/merkle.go:62-84 | appends one branch per level and returns the root |
| Merkle.FixedSizeMerkleTree.HashPairs | merkle/merkle.go:68-82 | the loop over the leaves, two at a time |
| Merkle.TreeIff | merkle/merkle.go:62-84 | build gives these branches and this root if and only if they start with the leaves, each two neighbours, or the odd one and 0, have their hash, smaller number first, at half their index above, and the root stands alone |
| Merkle.NextLevelFails | merkle/merkle.go:68-82 | a level fails with the error of its first failing pair |
| Merkle.FixedSizeMerkleTree.Proof | merkle/merkle.go:93-95 | the proof walk from the leaves |
| Merkle.FixedSizeMerkleTree.RecursiveProof | merkle/merkle.go:106-134 | the walk from one level up, by first equal value, panic included |
| Merkle.NextLevelAt | merkle/merkle.go:68-82 | each parent is the hash of a node and its sibling, 0 standing in for a missing one |
| Merkle.LevelCount | merkle/merkle.go:62-84 | n leaves give log2 n levels below the root, rounded up |
| Merkle.CeilLog2Least | merkle/merkle.go:62-84 | that number is the least d with n <= 2^d |
| Merkle.PaddedPathAccepted | merkle/merkle.go:106-158 | for every leaf of every tree the path padded with 0 has one entry a level and is accepted |
| Merkle.ProofComplete | merkle/merkle.go:93-158 | Proof of a leaf never fails: it panics, on a walk that meets an unpaired tail, or gives an accepted path of that length |
| Merkle.NoLeafNoProof | merkle/merkle.go:107-119 | a value that is no leaf is not found, except that a tree of one leaf gives everything the empty path |
| Merkle.LeafProvableIff | merkle/merkle.go:106-134 | for every leaf, repeats included: Proof panics if and only if a level ends, unpaired, above the index of its first occurrence, or two pairs of a level collide |
| Merkle.DifferentLeafProvableIff | merkle/merkle.go:106-134 | among different leaves the index of the leaf decides |
| Merkle.TailReached | merkle/merkle.go:106-134 | the panic needs such a tail in every tree, repeats or not, and without repeats the tail is enough |
| Merkle.RepeatMeansCollision | merkle/merkle.go:62-84 | different leaves give levels without repeats, or two pairs of a level collide |
| Merkle.EveryLeafProvable | merkle/merkle.go:106-134 | every leaf, repeats included, has a proof if and only if the last value to appear for the first time does so clear of the tail, or two pairs of a level collide |
| Merkle.EveryDifferentLeafProvable | merkle/merkle.go:106-134 | without repeats, every leaf has a proof if and only if their number is a power of two |
| Merkle.LastLeafPanics | merkle/merkle.go:121-124 | any other number of unrepeated leaves panics on its last one |
| Merkle.PowerOfTwoNeverPanics | merkle/merkle.go:121-124 | a power of two of leaves never panics, repeats or not |
| Merkle.ThirdOfThreePanics | merkle/merkle.go:121-124 | the third of three leaves panics |
| Merkle.ProofMerklePathIff | merkle/merkle.go:149-158 | a path is accepted if and only if hashes exist from the leaf to the root, each of the one before and the next entry, smaller number first |
| Merkle.PathSound | merkle/merkle.go:149-158 | an accepted path of full length starts at a leaf or at 0, or the check hashed a forged pair |
| Merkle.PathSoundIdeal | merkle/merkle.go:149-158 | with leaves, leaf and path from a set of numbers on which the pair hash is injective up to swapping and never 0, it starts at a leaf or at 0 |
| Merkle.ParentAccepted | merkle/merkle.go:149-158 | the length matters: a parent node is accepted with a path one shorter |
| Hex.ToUint64Iff | rpc/types_contract.go:22-30 | n is read if and only if it is below 2^64 and the text is n in hexadecimal, in either case, with or without one 0x and leading zeros |
| Hex.ToUint64Fails | rpc/types_contract.go:22-30 | reading fails exactly on no digits, a character that is no digit, and 2^64 or more |
| Transactions.BoundsFit | rpc/types_transaction.go:183-202 | the packed bounds are 31 bytes and below the field prime |
| Transactions.PackedValue | rpc/types_transaction.go:183-202 | the packed number is name*2^192 + amount*2^128 + price modulo 2^128 |
| Transactions.BoundsDetermined | rpc/types_transaction.go:183-202 | the packed number determines the amount, and the price modulo 2^128 |
| Transactions.ModesDetermined | account/account.go:363-374 | fee + nonce*2^32 determines both modes |
| Transactions.PrefixesDiffer | account/account.go:23-27 | the three prefixes are different felts |
| Transactions.PrefixNumbers | account/account.go:23-27 | the prefixes are the ASCII codes of invoke, declare and deploy_account |
| Transactions.PedersenInjective | account/account.go:176-443 | two V0 to V2 transactions accepted on whatever chains with one hash have one chain id and one kind and agree on every hashed field, or two lists hashed for them collide |
| Transactions.PoseidonInjective | account/account.go:204-481 | the same for V3 and Poseidon, the price modulo 2^128 |
| Transactions.SameFieldsSameHash | account/account.go:176-484 | conversely, accepted transactions that agree on the chain and those fields have one hash |
| Transactions.CommonListInjective | hash/hash.go:43-64 | two calls hash one list if and only if all seven arguments and the chain agree |
| Transactions.AcceptedIff | account/account.go:176-484 | for each kind, which fields must be set and parse, and which lists must have a hash, for a transaction to be hashed |
| Transactions.HashedLayout | account/account.go:176-484 | every accepted hash is that of the list written out for its kind, prefixes, packed bounds and modes as numbers |
| Selectors.MaskBits | utils/keccak.go:183-198 | the masked bytes denote the value modulo 2^mask |
| Selectors.GetSelector | utils/keccak.go:120-140 | both selector functions give the low 250 bits of the digest |
| Calldata.FmtCallDataCairo0 | account/account.go:908-930 | the loop writes count, headers with running offsets, total, bodies |
| Calldata.FmtCallDataCairo2 | account/account.go:939-955 | the loop writes count and length-prefixed calls |
| Calldata.FmtCalldata | account/account.go:889-898 | versions 0 and 2 only |
| Calldata.OffsetsSum | account/account.go:914-926 | each offset is the sum of the earlier lengths |
| Calldata.Cairo0RoundTrip | account/account.go:908-930 | decoding by offsets and lengths gives back the calls |
| Calldata.Cairo2RoundTrip | account/account.go:939-955 | a payload decodes to a list of calls if and only if it is that list's encoding |
| TypedData.EncodeType | typed/typed.go:216-252 | the buffer ends as the type's text and those of the referenced types in map order; unknown types fail |
| TypedData.KnownIff | typed/typed.go:217-237 | a type can be encoded if and only if it and every type its fields name, felt excepted, are defined |
| TypedData.FeltsOnly | typed/typed.go:217-252 | a type with felt fields only is encoded as its own text |
| TypedData.EncodingReadsBack | typed/typed.go:216-252 | for delimiter-free names and any map order, reading the text gives the type, its fields, and exactly the referenced types with theirs |
| TypedData.EncodingInjective | typed/typed.go:216-252 | encodings are equal if and only if types, fields, references and their order are |
| TypedData.DeterministicIff | typed/typed.go:241-250 | the encoding is independent of Go's map order if and only if at most one type is referenced |
| Reductions.ForgedMeansCollision | merkle/merkle.go:48-53 | a forged Merkle pair hashes to 0, or hashing it and hashing a pair of that level feed two different pairs with one hash to PedersenHash |
| Reductions.PathSoundPedersen | merkle/merkle.go:149-158 | over PedersenHash on such a curve, as the STARK curve is, an accepted path of full length starts at a leaf or at 0, or such a collision occurs at one of its entries; no preimage of 0 exists |
| Reductions.PathSoundInField | merkle/merkle.go:149-158 | for leaves, leaf and path in [0, P) all four numbers of that collision lie in [0, P) |
| Reductions.NegativeLeafAccepted | merkle/merkle.go:149-158 | outside the field the check is unsound for every tree of more than one leaf |
| Reductions.SameHashSameFields | hash/hash.go:18-26 | V0 to V2 transactions with one hash that differ in a hashed field or the chain contain a collision of PedersenHash |

## Left out

- Primality of P and N, associativity of the group law and the order of the generator: mathematical hypotheses of the theorems.
- The 506 constant points: their values are not part of this model; `PedersenOfPair` takes their doubling layout as a hypothesis.
- Sign: the source's rejection loop is unbounded; here it stops after `tries` rounds, so termination of the source is not claimed.
- GenerateSecret: the same bound on candidates. Full conformance to RFC 6979 is not claimed, see `Bits2IntVersusRfc`.
- Verify: `pubIsGx` stands for the caller passing the pointer sc.Gx as pubX; no other aliasing can reach the pointer test.
- DivMod: big.Int.GCD is replaced by a recursive extended Euclid. It agrees with Go wherever a quotient exists and for divisor 0; for a nonzero multiple of the modulus the cofactor 0 is that of Euclid's algorithm, which Go does not document.
- EcMult: m = 0 recurses for ever in the source, and a negative m ends when the bit length of its magnitude reaches 1, with another multiple (m = -3 gives 5P); only m > 0 is modelled.
- HashElements: Go's `append` may write into spare capacity of the caller's slice; lists are values here.
- ComputeHashOnElements: the source always uses the package's global curve; here the curve is the argument.
- Merkle.FixedSizeMerkleTree.Build: on a hash error the source drops the tree; which branches were appended by then is only bounded.
- Transactions: pointers the source does not test for nil are plain felts; a nil there crashes. felt.SetString belongs to another library and is a parameter.
- Transactions: the Sign*Transaction methods, which store a signature after hashing, and PrecomputeAccountAddress.
- TypedData: message hashing and NewTypedData; `strToFelt` writes through a shared zero, which is not modelled.
- Hashes of contract classes (hash/hash.go:79-145), ComputeFact and SplitFactStr: they would only add easy members.
- GetYCoordinate (a modular square root), random keys, key stores, providers and JSON.
