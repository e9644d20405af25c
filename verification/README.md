# Luffa Fabric: a verified model

This project models the parts of Luffa Fabric whose behaviour is decided by its own code and
proves what they promise:

- the hand-written secp256k1 arithmetic of the wallet module (`ModArith`, `Euclid`, `Primes`,
  `SquareRoots`, `CurveAlgebra`, `Curve`, `Scalars`), ECDSA public-key recovery together with the
  signer it must undo (`Recovery`, `WalletSignature`, after sections 2.2.1, 4.1.3 and 4.1.6 of
  SEC 1 version 2; `RecoveryExact` says what they return in every case), and the base-58 decoder
  (`Base58`, `Bytes`);
- the Merkle ledger (`Merkle`), canonical JSON and the leaf hashes that rest on it
  (`CanonicalJson`, `LeafHash`);
- the points ledger (`Ledger`, `Settlement`), policy evaluation and budgets (`Json`, `Permission`),
  and the invoke pipeline with direct transfers across all their tables (`Pipeline`, `PipelineSafety`,
  `PipelineStatus`, `PipelineLimits`, `PipelineWitnesses`, `Lael`);
- the wallet-binding nonce protocol (`WalletBinding`);
- the VARR trusted runtime: its checkers against declarative predicates, the orchestrator, the
  receipt log and the feedback signals (`Text`, `MemoryStore`, `VarrPolicy`, `VarrChecks`,
  `VarrRuntime`, `VarrOutcome`, `VarrFeedback`);
- reputation as an exponential moving average (`Reputation`).

Loops and methods that update state are Dafny methods and classes, proved against specification
functions; whole-run properties are lemmas about those functions. What such a function means is stated
again without it, on the fields of records and the coordinates of points: the group law (`PlusIsSum`), the
statuses of both runtimes (`StatusIff`, `RunStatusIff`), what is recovered and accepted (`RecoverIff`,
`AcceptsIff`, `VerifyIff`) and what a leaf hash binds (`LeafHashBinds`). A JavaScript throw is the
`Threw` case of `Outcome`; a failed primary key throws and leaves what was written before it.
`dafny verify dfyconfig.toml` checks everything.

What comes from outside is a parameter: SHA-256 and Keccak (any function, for the Merkle tree any
function to 64-character strings), JSON text (any two functions under which the two payloads that are
stored survive), key comparison (any total preorder), fresh ids, the clock, the wallets' own signature
checks, chain and runtime adapters, handlers and capability tokens.

Named hypotheses of the curve results, never proved here: `IsPrime` of the two moduli,
`Scalars.Associative` (point addition associates), `Scalars.HasOrder` of the generator, and for
`RecoveredKeyVerifies`, `RecoverIff` and `AcceptsIff` alone `WalletSignature.NoCofactor`. The other side
conditions (`Recovery.PlainParams`) are proved of the secp256k1 constants. That no wallet signature is
accepted twice (`SignatureOnce`) asks that the check passes a signature for one message at most;
`ServiceCheckOneMessage` says when the service's own check does.

Where the code does less than one might expect, the model follows the code:

- the check that N*R is infinity never fires, because the scalar is reduced modulo N first
  (`OrderCheckNeverFires`);
- recovery never checks that its square root is one. `PickedOrdinateIffAbscissa` says when it is;
  the abscissa N + 1, below P, belongs to no point of the real curve (`CurveMisses` with
  `NoPointAtNPlusOne`), and `RecoversOffTheCurve` shows that recovery returns a key for it, for every hash
  that is not 0 modulo N;
- a hash that is 0 modulo N is signed but never recovered (`ZeroHashIsSigned`);
- a base-58 string of n ones decodes to n+1 zero bytes (`DecodedShape`);
- Merkle roots bind neither the number of leaves nor the depth: an odd list shares its root with the list
  that has its last leaf twice (`OddTailUnbound`), and a list with the level above it. `RootsAgreeIff` says
  exactly which lists share a root;
- a Merkle proof's index and number of siblings are compared with nothing, so an inner node verifies like
  a leaf (`EveryNodeVerifies`); `ProofNamesNode` says what a verifying proof does show;
- sorting keys with a comparison that ties different keys, as locale collation can, makes the result
  depend on the order they came in; `SortFormIffNoTies` says exactly for which values;
- a caller who reuses an execution id gets a throw after the settlement was made. `TakenIdPays` reaches
  such a call, and `ThrowsAfterSettlingIff` says exactly when it happens;
- a SUCCESS execution that names a settlement need not have been paid by it: `UnpaidSuccess` is such a run,
  and `PaidIffNew` says exactly when it was;
- a permission budget need not be the amount paid. `BudgetIsAmountIff` says when it is,
  `BudgetMissesAmount` is a run that pays five times the cap, and `SettledCap` bounds what is paid when
  every call is charged at least that;
- the signature check asks for no low s (`HighSignatureAccepted`);
- a wallet signature may be the development signature, a hash without a key (`DevSignatureVerifies`).

Amounts, budgets and scores are `real`; every public method is one atomic step; the order among
rows with equal timestamps is the order of insertion.

## Model

| member | source | states |
|---|---|---|
| `ModArith.ModIsResidue` | src/wallet/index.ts:583-586 | `mod` gives the residue in [0, modulo) for dividends of either sign, although BigInt `%` truncates toward zero |
| `Euclid.GcdIsGreatest` | src/wallet/index.ts:538-563 | the gcd kept by the division loop divides both operands and is divided by every common divisor |
| `Euclid.DivisionKeeps` | src/wallet/index.ts:546-557 | one division keeps the loop invariant: same gcd, Bezout combinations, alternating and never shrinking coefficients with b*abs(u) + a*abs(x) = modulo, and a halved product of remainders |
| `Euclid.InvertMod` | src/wallet/index.ts:538-563 | `invertMod` throws exactly when value and modulo share a factor, else returns the inverse in [0, modulo); its coefficient stays within the modulus and it divides at most 2*log2(modulo) + 1 times |
| `Euclid.InverseIffCoprime` | src/wallet/index.ts:559-562 | an inverse exists exactly for values coprime to the modulus |
| `Primes.NonzeroInvertible` | src/wallet/index.ts:559-562 | below a prime modulus no non-zero residue makes `invertMod` throw |
| `Primes.SquareStep` | src/wallet/index.ts:569-575 | one square-and-multiply step keeps result * value^power congruent to base^exponent |
| `Primes.PowMod` | src/wallet/index.ts:565-577 | `powMod` is base^exponent reduced by the modulus, and 1 for exponents that are not positive |
| `Primes.Fermat` | src/wallet/index.ts:466 | a^(p-1) is 1 modulo a prime p not dividing a; the square-root exponent (P+1)/4 rests on it |
| `SquareRoots.CandidateIsRootIffSquare` | src/wallet/index.ts:465-466 | for p = 3 mod 4, alpha^((p+1)/4) is a root of alpha exactly when alpha has a root |
| `SquareRoots.OppositeOfSquareIsNoSquare` | src/wallet/index.ts:465-466 | modulo a prime that is 3 mod 4 a non-zero number and its opposite do not both have a root |
| `SquareRoots.ParityPicksRoot` | src/wallet/index.ts:467 | choosing beta or p - beta by a parity bit yields the root of that parity |
| `CurveAlgebra.ChordIdentity` | src/wallet/index.ts:502-504 | the x the chord formula computes is the third crossing of the chord with the curve |
| `CurveAlgebra.TangentIdentity` | src/wallet/index.ts:512-514 | the x the tangent formula computes is the second crossing of the tangent with the curve |
| `Curve.AddCloses` | src/wallet/index.ts:492-516 | on curve points addition never throws, stays on the curve or gives infinity, and doubles only two equal points of non-zero ordinate |
| `Curve.PlusCommutes` | src/wallet/index.ts:492-506 | point addition commutes |
| `Curve.DoubleIsSelfAddition` | src/wallet/index.ts:508-516 | `pointDouble` is addition of a point to itself, also for ordinate 0 |
| `Curve.NegateCancels` | src/wallet/index.ts:518-520 | `pointNegate` stays on the curve, is an involution, and a point plus its negation is infinity |
| `Curve.OppositeIsUnique` | src/wallet/index.ts:492-520 | the only curve point that adds with a to infinity is its negation |
| `Curve.PlusIsSum` | src/wallet/index.ts:492-516 | the sum of two curve points is exactly the point whose opposite lies on the chord through them, or on the tangent when they are equal, with the three abscissas adding up to the squared slope: stated as congruences on coordinates, without slopes, inverses or associativity |
| `Curve.PointDouble` | src/wallet/index.ts:508-516 | `pointDouble` on any coordinates is its specification, throws included; on the curve the result is the tangent law of `PlusIsSum` |
| `Curve.PointAdd` | src/wallet/index.ts:492-506 | `pointAdd` on any coordinates is its specification, throws included; on the curve the result is the group law of `PlusIsSum` |
| `Scalars.TimesTimes` | src/wallet/index.ts:522-536 | (j*k)-fold sums are j-fold sums of k-fold sums, given associativity |
| `Scalars.LadderIsTimes` | src/wallet/index.ts:527-535 | from any loop state on the curve double-and-add returns result + n * addend |
| `Scalars.MultiplyIsTimes` | src/wallet/index.ts:522-536 | for every integer scalar `pointMultiply` is the (scalar mod N)-fold sum of the point |
| `Scalars.PointMultiply` | src/wallet/index.ts:522-536 | the loop is its specification; its history goes from state to state by one round of the loop, and for a curve point stays on the curve |
| `Scalars.TimesVanishes` | src/wallet/index.ts:522-524 | the multiples of a point of prime order n that are infinity are exactly the multiples of n |
| `Scalars.TimesNegate` | src/wallet/index.ts:482 | the negation of kG is (n-k)G |
| `Recovery.Recover` | src/wallet/index.ts:455-484 | `recoverSecp256k1PublicKey` is its specification, early returns and throws included |
| `Recovery.OrderCheckNeverFires` | src/wallet/index.ts:470-472 | the check that N*R is infinity can never reject: the scalar is reduced modulo N first |
| `Recovery.PickedOrdinateIffAbscissa` | src/wallet/index.ts:465-468 | the chosen y is a square root of x^3+7 exactly when x is the abscissa of some curve point; nothing checks it |
| `Recovery.PickOrdinateFindsPoint` | src/wallet/index.ts:465-468 | from the abscissa and parity of a curve point of non-zero ordinate, exactly its ordinate |
| `Recovery.TryNonce` | tests/helpers/evm.ts:31-57 | one attempt of the signer, skips and throws included |
| `Recovery.Sign` | tests/helpers/evm.ts:24-61 | the signer returns the first of 32 successive nonces that is not skipped |
| `Recovery.SignerSigns` | tests/helpers/evm.ts:30-61 | every returned signature was made with some nonce k: r from kG, s*k = z + r*d, then the low-s rule |
| `Recovery.RebuildsPoint` | src/wallet/index.ts:461-468 | r and the recovery bits give back kG, or its negation when s was flipped |
| `Recovery.RecoverUndoesSigning` | src/wallet/index.ts:455-484 | recovery of a signature made with secret d returns exactly dG, or undefined when the hash is 0 modulo N |
| `Recovery.SignThenRecover` | tests/helpers/evm.ts:24-61 | sign then recover gives the signer's key exactly when the hash is not 0 modulo N, for every secret and starting nonce |
| `Recovery.AttemptSignsIff` | tests/helpers/evm.ts:31-57 | a nonce is used exactly when it, the abscissa of its point and z + r*d are not 0 modulo N |
| `Recovery.ZeroHashIsSigned` | src/wallet/index.ts:474-480 | a hash that is 0 modulo N is signed like any other, and recovery from that signature is undefined |
| `RecoveryExact.SignTakesFirst` | tests/helpers/evm.ts:28-58 | the signer signs with the first of its successive nonces that is usable, whatever their number |
| `RecoveryExact.SignThrowsIff` | tests/helpers/evm.ts:28-60 | the signer throws exactly when none of its nonces is usable |
| `RecoveryExact.RecoverIff` | src/wallet/index.ts:455-484 | for the abscissa and parity of a curve point R: recovery throws exactly for r = 0 modulo N, is undefined exactly when s*R or e*G is infinity or they are equal, and otherwise returns the one point Q with r*Q + e*G = s*R |
| `WalletSignature.ConstantsAreSound` | src/wallet/index.ts:439-444 | the secp256k1 constants satisfy every side condition that is not a named hypothesis, and G is on the curve |
| `WalletSignature.RecoveredKeyVerifies` | src/wallet/index.ts:455-484 | any key recovery returns for a curve abscissa satisfies r*Q + e*G = s*R |
| `WalletSignature.CurveMisses` | src/wallet/index.ts:439-444 | for the constants of the code, N + 1 is below P and -((N+1)^3 + 7) is a square modulo P that is not 0 |
| `WalletSignature.NoPointAtNPlusOne` | src/wallet/index.ts:461-468 | so no curve point has the abscissa N + 1, which r = 1 with recovery bits 2 or 3 claims |
| `WalletSignature.RecoversOffTheCurve` | src/wallet/index.ts:461-484 | for r = s = 1, recovery bits 2 or 3 and every hash not 0 modulo N, recovery returns a key although no curve point has the claimed abscissa |
| `WalletSignature.VerifyNative` | src/wallet/index.ts:313-341 | the 65-byte check on bytes: ranges, optional offset 27, recovery, address comparison; throws count as false |
| `RecoveryExact.AcceptsIff` | src/wallet/index.ts:313-341 | the byte check accepts exactly when r, s and the hash are not 0 modulo N and some key with a matching address verifies the signature, with the recovery bits written with or without the offset of 27 |
| `RecoveryExact.RefusedForms` | src/wallet/index.ts:315-329 | any other length or last byte is refused |
| `WalletSignature.OffsetIsOptional` | src/wallet/index.ts:323-329 | for any 64 bytes the plain and the offset last byte are accepted alike |
| `WalletSignature.OwnSignatureAccepted` | src/wallet/index.ts:313-341 | an emitted signature is accepted exactly for the address of its own key, and never when the hash is 0 modulo N; s is low |
| `WalletSignature.FlippedRecovers` | src/wallet/index.ts:455-484 | for the abscissa of a point of order N, N - s with the parity bit flipped recovers what s recovers, on every hash |
| `WalletSignature.HighSignatureAccepted` | src/wallet/index.ts:313-341 | the check asks for no low s: the high form of an emitted signature is accepted for the same addresses |
| `Bytes.BytesRoundTrip` | src/wallet/index.ts:588-595 | reading the fixed-length big-endian bytes of a number gives the number |
| `Base58.AlphabetIs` | src/wallet/index.ts:387 | the alphabet lists in ascending order exactly the digits and letters other than 0, I, O and l |
| `Base58.MultiplyIn` | src/wallet/index.ts:397-406 | one character multiplies the bytes by 58 and adds its digit; the carry into and after every byte is at most 57 |
| `Base58.DecodeBase58` | src/wallet/index.ts:389-417 | throws exactly on characters outside the alphabet, else returns the specified bytes |
| `Base58.DecodedValue` | src/wallet/index.ts:389-417 | the decoded bytes, read big-endian, are the number the string denotes in base 58 |
| `Base58.DecodedShape` | src/wallet/index.ts:409-416 | as many zero bytes as leading ones followed by a minimal encoding; n ones alone give n+1 zero bytes |
| `Base58.DecodeIsInjective` | src/wallet/index.ts:389-417 | different alphabet strings decode to different bytes |
| `Merkle.HashLevel` | src/execution/merkle.ts:68-76 | one round pairs the nodes, the odd tail with itself, and throws exactly on an empty node |
| `Merkle.BuildLevels` | src/execution/merkle.ts:63-82 | throws exactly when a list of two or more leaves has an empty one, else returns all levels |
| `Merkle.BuildRoot` | src/execution/merkle.ts:4-10 | the root, with the hash of the empty string for the empty ledger |
| `Merkle.LevelSize` | src/execution/merkle.ts:63-82 | level k of n leaves has ceil(n/2^k) nodes |
| `Merkle.Depth` | src/execution/merkle.ts:63-82 | the number of levels above the leaves is ceil(log2 n) |
| `Merkle.BuildProof` | src/execution/merkle.ts:12-48 | throws for an unknown execution or a malformed tree, else proves its first leaf against the root |
| `Merkle.CollectSiblings` | src/execution/merkle.ts:25-39 | the sibling loop collects the siblings of the path, never meeting an empty one |
| `Merkle.VerifyProof` | src/execution/merkle.ts:50-61 | the check climbs the siblings and compares with the root |
| `Merkle.HonestProofVerifies` | src/execution/merkle.ts:12-61 | every built proof verifies, has ceil(log2 n) siblings, and its directions are the binary digits of the index |
| `Merkle.ClimbIsSound` | src/execution/merkle.ts:50-61 | a proof that verifies with the directions of index i and a 64-character leaf carries leaf i and the honest siblings, or two strings it and the tree hashed collide |
| `Merkle.ProofNamesNode` | src/execution/merkle.ts:50-61 | whatever index, directions and number of siblings a proof claims, if it verifies with a 64-character start, then what it reaches after the siblings beyond the depth of the tree is a node of the level the others name, or there is a collision |
| `Merkle.EveryNodeVerifies` | src/execution/merkle.ts:50-61 | every node of every level has a proof that verifies, under any index |
| `Merkle.RootBinds` | src/execution/merkle.ts:63-86 | equally long lists of hashes with one root are equal, or two strings hashed while building them collide |
| `Merkle.RootsAgreeIff` | src/execution/merkle.ts:63-86 | exactly which lists of hashes share a root, of equal length and depth or not: those that complete to one full tree, unless hashed strings collide |
| `Merkle.CompletedInjective` | src/execution/merkle.ts:69-71 | for equal lengths, completing to one full tree is being equal |
| `Merkle.DirectionsNameIndex` | src/execution/merkle.ts:27-28 | directions determine the index |
| `Merkle.OddTailUnbound` | src/execution/merkle.ts:69-71 | an odd list and the list with its last leaf repeated have the same root, so binding needs equal lengths |
| `Merkle.UnhashedLeafUnbound` | src/execution/merkle.ts:54-58 | a leaf that is not 64 characters long can be cut elsewhere, so soundness needs the leaf length |
| `Settlement.SettlementService.CreateAccount` | src/settlement/index.ts:72-89 | opens a missing account at zero and leaves an existing one alone |
| `Settlement.SettlementService.CreditAccount` | src/settlement/index.ts:91-106 | credits exactly when the asset is points, the amount positive and the account not frozen; otherwise nothing changes |
| `Settlement.SettlementService.TransferBody` | src/settlement/index.ts:165-203 | the transaction closure moves the points and inserts the record, or throws for the first failing check |
| `Settlement.SettlementService.TransferLuffaPoints` | src/settlement/index.ts:153-229 | all or nothing over the transaction, one record per settlement id |
| `Settlement.SettlementService.Settle` | src/settlement/index.ts:116-122 | dispatches by rail, returns the stored record of a known id, and keeps the books sound |
| `Ledger.TransferKeepsSound` | src/settlement/index.ts:153-229 | a transfer keeps balances equal to credits plus completed receipts minus payments, non-negative, zero outside points, and the supply equal to the credits |
| `Ledger.ReachableIsSound` | src/settlement/index.ts:72-229 | every reachable ledger balances, account by account and in total |
| `Ledger.TransferAllOrNothing` | src/settlement/index.ts:164-229 | a transfer completes exactly when the payer exists, nobody is frozen and the balance suffices, and then moves the amount and nothing else; otherwise the accounts are exactly as before and the record names the first failing check |
| `Ledger.ChainSettlement` | src/settlement/index.ts:231-328 | on a chain rail one record of the instruction is added and no account changes; its status and transaction are the adapter's, or ROLLED_BACK without an answer |
| `Ledger.CreditIff` | src/settlement/index.ts:91-106 | a credit changes the books exactly for a positive amount of points to an account that is not frozen, and adds it to that balance alone |
| `Ledger.SettleOnce` | src/settlement/index.ts:156-161 | once an id is settled, any later call with it returns the first record and changes nothing, whatever happened between |
| `Permission.ActivePoliciesSorted` | src/permission/index.ts:215-227 | the query returns each active policy of the owner once, highest priority first, and those of one priority in creation order |
| `Permission.ActiveIff` | src/permission/index.ts:215-227 | it returns exactly the active policies of the owner |
| `Permission.AllowedIff` | src/permission/index.ts:76-199 | ALLOW exactly when no policy denies, and under the first permitting one budget, total, asset, chain and risk keep every limit and nothing asks for confirmation; REQUIRES_CONFIRMATION exactly when only a confirmation is missing |
| `Permission.BlamedPolicy` | src/permission/index.ts:76-120 | the stored policy id is that of the first denying policy, else of the first permitting one, and missing exactly when there is neither |
| `Permission.MatchesIff` | src/permission/index.ts:397-407 | a pattern matches itself, and with a final star every action that goes on from what is before the star |
| `Permission.HasASayIff` | src/permission/index.ts:76-98 | a policy permits or denies exactly when the context has every constrained key with the very scalar asked for and one of its patterns spells the action |
| `Permission.BudgetIsFirst` | src/permission/index.ts:315-332 | the budget is the first number of the five places it may stand in, or 0 |
| `Permission.EvaluationCharges` | src/permission/index.ts:71-199 | the stored decision is of the agent and action asked for and charges its budget to that agent exactly when it allows |
| `Permission.HighRiskNeverAllowed` | src/permission/index.ts:184-198 | payments and rewards are never simply allowed |
| `Permission.RiskyAgentNeverAllowed` | src/permission/index.ts:377-395 | agents of high or critical risk are never simply allowed, unless the request states its own risk score |
| `Permission.DenyOnlyPolicyNeverAllows` | src/permission/index.ts:76-98 | adding a policy that allows nothing, at any priority, never turns a refusal into ALLOW |
| `Permission.TotalBudgetCap` | src/permission/index.ts:124-137 | over all runs an agent's allowed budgets stay within the cap of its owner's policies, negative requests included |
| `Permission.PermissionService.EvaluatePermission` | src/permission/index.ts:71-199 | the cascade writes exactly one audit row, the one the evaluation predicates give |
| `Permission.PermissionService.CheckLimits` | src/permission/index.ts:111-182 | the five limits of the matched policy |
| `Permission.PermissionService.AddPolicy` | src/permission/index.ts:29-69 | a policy is added unless its id is taken |
| `Permission.PermissionService.RecordDenial` | src/permission/index.ts:201-213 | a refusal decided elsewhere is stored as DENY |
| `Pipeline.BuildInstruction` | src/core/index.ts:352-409 | a settlement asks for the positive amount of its source to a named payee, paid by the owner by default, under the call's execution id and the given record id, in the asset and on the rail named there, by default points on the points rail |
| `Pipeline.InstructionIff` | src/core/index.ts:352-409 | a request asks for a settlement exactly with a settlement object or a payment or reward action, a positive amount and somebody to pay; payer and payee are those it names, a value that is no string rendered, else owner and target |
| `Pipeline.AssetNamed` | src/core/index.ts:468-479 | an asset is read exactly from its own name |
| `Pipeline.RailNamed` | src/core/index.ts:481-492 | a rail is read exactly from its own name |
| `Pipeline.DefaultRailFits` | src/core/index.ts:494-508 | without a named rail, points stay on the ledger, the chain family follows the asset and the chain type, and native transfers are those of SOL and, off Solana, ETH |
| `PipelineSafety.ScopedKeyInjective` | src/execution/index.ts:377-379 | agent ids without a colon make scoped keys unambiguous |
| `PipelineSafety.NoColonIff` | src/execution/index.ts:377-379 | exactly the agent ids without a colon share no scoped key with a shorter agent id; the runs below ask it of all agents |
| `PipelineSafety.InvokeIsSafe` | src/core/index.ts:129-280 | one call with fresh ids stores one execution; accounts change only on SUCCESS; a settlement needs a stored ALLOW for that agent and action and is named by the execution; a denied call touches no book; payments and rewards are denied |
| `PipelineSafety.ReplayChangesNothing` | src/core/index.ts:131-137 | replaying a key returns the stored execution and leaves every table as it is |
| `PipelineSafety.InvokeReturnsIffFresh` | src/core/index.ts:139-140 | a call that is no replay returns exactly when its execution id is not taken |
| `PipelineStatus.StatusIff` | src/core/index.ts:129-280 | for every fresh call, from its inputs and the record got back: exactly when it ends in DENIED, FAILED and SUCCESS, which settlement and decision the execution names, and which audit rows are written |
| `PipelineStatus.NeedsStoredDecision` | src/execution/index.ts:94-147 | executing and recording a denial both throw and write nothing unless the decision is stored for that agent and action with that very outcome; executing also unless it is ALLOW |
| `PipelineSafety.ReachableIsConsistent` | src/core/index.ts:104-280 | in every reachable state, retries and direct transfers included, the settlements that invoke inserted, executions, audits and keys fit together as stated for one call, and the books balance |
| `PipelineSafety.OneKeyPerExecution` | src/execution/index.ts:271-298 | in every reachable state each stored execution is replayed by one key of its agent and by no other |
| `PipelineSafety.InvokeOnce` | src/core/index.ts:131-137 | after a call has returned, the same agent and key always give its execution and change no table, whatever happened between |
| `PipelineSafety.PipelineBudgetCap` | src/permission/index.ts:124-137 | the budget cap over runs of the whole pipeline, direct transfers included |
| `PipelineSafety.TransferKeeps` | src/core/index.ts:107-119 | a direct transfer, under whatever execution id, keeps the tables consistent and stored rows as they are |
| `PipelineLimits.BooksChangeIff` | src/core/index.ts:139-249 | a call that is no replay changes the books exactly when every guard before the settlement passes and its record id is new |
| `PipelineLimits.ThrowsAfterSettlingIff` | src/core/index.ts:139-280 | a call throws and still changes the books exactly when its execution id is taken and it settles; it leaves no execution and no key |
| `PipelineWitnesses.TakenIdPays` | src/core/index.ts:139-280 | a run and then a call with a taken execution id that takes one point from the owner and throws; the state before it is consistent |
| `PipelineLimits.PaidIffNew` | src/core/index.ts:238-249 | an execution that names a settlement was paid by it exactly when no record had that id before the call; otherwise the books stay and the status is that of the earlier record |
| `PipelineWitnesses.UnpaidSuccess` | src/core/index.ts:238-249 | a run whose last call ends in SUCCESS, names the completed payment of another execution and leaves the books unchanged |
| `PipelineLimits.PaidOnce` | src/core/index.ts:238-249 | in every reachable state an execution was paid by at most one settlement |
| `PipelineLimits.TransferUnderId` | src/core/index.ts:107-119 | a direct transfer is stored under the id it names, else under the one derived from its key, else under a new one, and touches no other table |
| `PipelineLimits.TransferOnce` | src/core/index.ts:107-119 | a direct transfer repeated with its key and execution id, whatever happened between, returns the first record and changes nothing |
| `PipelineLimits.BudgetIsAmountIff` | src/permission/index.ts:315-332 | the budget charged for a settling call is the amount paid exactly when the call states no other budget or that very one |
| `PipelineWitnesses.BudgetMissesAmount` | src/permission/index.ts:315-332 | a run in which an owner capped at 1 point pays 5, because the call states a budget of 0 |
| `PipelineLimits.SettledCap` | src/permission/index.ts:124-137 | over all runs, if every call of an agent is charged at least what it pays, all that the pipeline settles for the agent stays within the cap of its owner's policies |
| `Lael.LAEL.InvokeAgent` | src/core/index.ts:129-280 | the step-by-step invoke refines its specification, whose outcomes `StatusIff` characterises, and keeps consistent tables consistent |
| `Lael.LAEL.TransferSettlement` | src/core/index.ts:107-119 | the direct transfer refines its specification and keeps consistent tables consistent |
| `Lael.LAEL.RunAction` | src/execution/index.ts:94-127 | execute runs the handler, settles, and records SUCCESS or FAILED; `StatusIff` says when which |
| `Lael.LAEL.Deny` | src/execution/index.ts:135-149 | a denial is recorded only against a stored decision for that agent and action |
| `Lael.LAEL.RecordExecution` | src/execution/index.ts:198-237 | the execution and its key are inserted, each refused when its primary key is taken |
| `WalletBinding.ConnectKeeps` | src/wallet/index.ts:34-93 | connect keeps one row per chain and address and voids the previous nonce |
| `WalletBinding.VerifyKeeps` | src/wallet/index.ts:95-155 | verify marks a row only for a timely, well signed, unused nonce |
| `WalletBinding.ConnectIff` | src/wallet/index.ts:34-93 | connect succeeds exactly for a complete request whose address no other owner holds and whose id is free; it then stores one unverified row with the drawn nonce and the expiry now + time to live |
| `WalletBinding.VerifyIff` | src/wallet/index.ts:95-155 | verify succeeds exactly when a complete request answers an unverified, unexpired row of its key and nonce with a signature that passes for its message; that row alone changes, and the binding then counts as verified |
| `WalletBinding.NormalizeDecides` | src/wallet/index.ts:363-365 | EVM addresses are one exactly when they differ in letter case alone, others exactly when they are equal |
| `WalletBinding.MessageTellsNonce` | src/wallet/index.ts:251-264 | for one owner, chain and address, messages are equal only for equal nonces |
| `WalletBinding.MessageInjective` | src/wallet/index.ts:251-264 | for owners and addresses without line breaks, messages are equal exactly when owner, chain, normalized address and nonce are |
| `WalletBinding.VerifiedMeansSigned` | src/wallet/index.ts:178-191 | in every reachable state one row exists per chain and address, and a verified one had its current nonce accepted, before expiry, on a signature that passes the check |
| `WalletBinding.VerifiedByWalletOrDevSignature` | src/wallet/index.ts:266-286 | with the check of the service, that signature passes the wallet's own check or is the unkeyed development signature |
| `WalletBinding.OneOwner` | src/wallet/index.ts:36-40 | in every reachable state two owners never both hold one verified address, in any letter case on an EVM chain |
| `WalletBinding.NeverAcceptedTwice` | src/wallet/index.ts:113-118 | an accepted nonce is never accepted again, whatever happens between |
| `WalletBinding.SignatureOnce` | src/wallet/index.ts:113-155 | over every run, under a check that passes a signature for one message at most, no signature is accepted twice |
| `WalletBinding.OldSignatureRefused` | src/wallet/index.ts:113-155 | a signature accepted before is refused in every later state, also with the new nonce after a reconnect |
| `WalletBinding.ServiceCheckOneMessage` | src/wallet/index.ts:266-286 | the service's own check is such a check when the digest has no collisions and the wallets' checks are such and pass no development signature |
| `WalletBinding.ReconnectClears` | src/wallet/index.ts:54-67 | connecting again clears verification |
| `WalletBinding.ConnectThenVerify` | src/wallet/index.ts:95-155 | what connect hands out can be verified exactly within its time to live and with a good signature over its message |
| `WalletBinding.DevSignatureVerifies` | src/wallet/index.ts:266-279 | when the wallet's own check passes nothing, exactly the development signature verifies what connect handed out, within its time to live |
| `WalletBinding.WalletService.ConnectWallet` | src/wallet/index.ts:34-93 | connect refines its specification, error by error, and keeps the invariant |
| `WalletBinding.WalletService.VerifyWallet` | src/wallet/index.ts:95-155 | verify refines its specification, error by error, and keeps the invariant |
| `Text.NextIdInjective` | varr-mvp1/packages/core/src/runtime/receipt.generator.ts:68-70 | zero-padded decimal ids of one prefix never collide |
| `Text.NextIdShape` | varr-mvp1/packages/core/src/runtime/receipt.generator.ts:68-70 | the id is the prefix, an underscore and at least three digits that denote the number, without needless zeros |
| `MemoryStore.MemoryRepository.Create` | varr-mvp1/packages/core/src/storage/memory.repository.ts:34-41 | create appends, or throws exactly when the id is taken |
| `MemoryStore.MemoryRepository.Replace` | varr-mvp1/packages/core/src/storage/memory.repository.ts:52-58 | replace changes the one record with the id, or throws when there is none |
| `VarrPolicy.NamespaceReads` | varr-mvp1/packages/core/src/runtime/context.boundary.checker.ts:73-83 | both spellings of a community resource give its namespace, whatever path follows |
| `VarrPolicy.NamespaceOnly` | varr-mvp1/packages/core/src/runtime/context.boundary.checker.ts:73-83 | every other resource gives no namespace |
| `VarrPolicy.MaxRisk` | varr-mvp1/packages/core/src/security/risk.levels.ts:16-18 | the highest level of the list, or low |
| `VarrPolicy.LevelIgnoresCase` | varr-mvp1/packages/core/src/runtime/risk.classifier.ts:36-53 | letter case never changes the risk level of an action |
| `VarrChecks.Classify` | varr-mvp1/packages/core/src/runtime/risk.classifier.ts:14-33 | the overall level is the highest over all actions; all decisions allow exactly when no action is high or critical |
| `VarrChecks.CheckBoundary` | varr-mvp1/packages/core/src/runtime/context.boundary.checker.ts:18-70 | ok exactly when every context exists, admits the agent and shares one namespace no step leaves |
| `VarrChecks.CheckCapabilities` | varr-mvp1/packages/core/src/runtime/capability.checker.ts:18-57 | ok exactly when every action is covered by an active grant; it reports exactly the grants relied upon |
| `VarrChecks.ApprovalGate` | varr-mvp1/packages/core/src/runtime/approval.gate.ts:9-21 | pending exactly for high risk or when a matched grant wants approval for some action |
| `VarrRuntime.RuntimeOrchestrator.Finish` | varr-mvp1/packages/core/src/runtime/receipt.generator.ts:31-61 | the receipt of the next number is appended, without its hashes and timestamps; its id is never taken |
| `VarrRuntime.RuntimeOrchestrator.Run` | varr-mvp1/packages/core/src/runtime/runtime.orchestrator.ts:54-132 | the status is the one the declarative predicates give; one receipt is appended, none altered; the adapter is called once or not at all; the decisions on the receipt fit the status, and of a call let through its capability ids are those of the grants relied on |
| `VarrRuntime.GateAgrees` | varr-mvp1/packages/core/src/runtime/runtime.orchestrator.ts:105-110 | the gate on the matched grants decides exactly the approval predicate |
| `VarrRuntime.SuccessIffAuthorized` | varr-mvp1/packages/core/src/runtime/runtime.orchestrator.ts:54-132 | success exactly when the call is authorized, the adapter registered and not throwing |
| `VarrOutcome.DeniedWithoutGrantIff` | varr-mvp1/packages/core/src/runtime/capability.checker.ts:18-57 | an admitted call without critical actions and with contexts in bounds is denied exactly when some action has no stored grant that is the agent's, active, not expired, for the action and for every resource of its steps; the adapter is then not called |
| `VarrOutcome.RunStatusIff` | varr-mvp1/packages/core/src/runtime/runtime.orchestrator.ts:54-132 | exactly when a run is rejected, denied, left for approval, failed or successful, on the stored workflows, agents, contexts and grants themselves |
| `VarrRuntime.ReceiptIdsUnique` | varr-mvp1/packages/core/src/runtime/receipt.generator.ts:32-36 | two receipts never share an id |
| `VarrRuntime.Revoke` | varr-mvp1/packages/core/src/storage/memory.repository.ts:76-106 | revoking throws for an unknown grant; otherwise the one grant is marked and no subject ever has an active grant with this id |
| `VarrFeedback.FeedbackProcessor.Submit` | varr-mvp1/packages/core/src/runtime/feedback.processor.ts:23-33 | unknown receipts are refused, used ids throw, and otherwise one feedback and the one signal answering it, with the context's namespace, are stored |
| `VarrFeedback.FeedbackProcessor.Emit` | varr-mvp1/packages/core/src/runtime/learning.signal.emitter.ts:16-35 | the signal of the next number, with the agent and workflow of the receipt and the namespace of its first context |
| `VarrFeedback.SignalNamespace` | varr-mvp1/packages/core/src/runtime/learning.signal.emitter.ts:16-28 | a signal carries the namespace of the context its receipt names first, or unknown when that is not stored |
| `VarrFeedback.SignalsAreDistinct` | varr-mvp1/packages/core/src/runtime/learning.signal.emitter.ts:16-35 | signals and feedback are in bijection |
| `VarrFeedback.EvidenceOverRuns` | varr-mvp1/packages/core/src/runtime/feedback.processor.ts:23-33 | over every run that interleaves intents and feedback: receipts are numbered without collisions, and the i-th signal answers the i-th feedback field by field, on a stored receipt with its agent, workflow, level and outcome |
| `VarrFeedback.RunIsStep` | varr-mvp1/packages/core/src/runtime/receipt.generator.ts:31-61 | what an orchestrator run does to the log is one step of such a run |
| `VarrFeedback.FeedbackProcessor.RunsKeepValid` | varr-mvp1/packages/core/src/runtime/receipt.generator.ts:31-61 | a run of the orchestrator on the shared receipts keeps the feedback processor valid |
| `CanonicalJson.SortKeepsMeaning` | src/utils.ts:37-50 | recursive key sorting preserves the value |
| `CanonicalJson.SortDecidesMeaning` | src/utils.ts:37-50 | for a value without tied keys, another sorts to the same value exactly when they are equal up to key order at every depth |
| `CanonicalJson.SortFormIffNoTies` | src/utils.ts:42-47 | under any comparison the sorted form depends on the meaning alone exactly when no object at any depth has two different keys that tie |
| `CanonicalJson.SortIdempotent` | src/utils.ts:37-50 | sorting twice is sorting once, under any total preorder of keys |
| `CanonicalJson.LexIsTotalOrder` | varr-mvp1/packages/core/src/schemas/index.ts:145-153 | the default sort order, by UTF-16 code units, is a total order |
| `CanonicalJson.StableStringifyDecides` | varr-mvp1/packages/core/src/schemas/index.ts:141-153 | the runtime's sorted form decides equality up to key order of all values |
| `LeafHash.LeafHashSurvivesStorage` | src/execution/index.ts:381-439 | a record whose two sorted payloads survive storage as text, written, given feedback and Merkle fields, and read back is the record with sorted payloads and has the leaf hash stored at write time |
| `LeafHash.LatestUpdateShows` | src/execution/index.ts:410-439 | a record read back has the latest Merkle position and the latest feedback, if that survives as text |
| `LeafHash.LeafHashBinds` | src/execution/index.ts:381-408 | under any key comparison two records with one leaf hash agree on every field but feedback and Merkle position, the payloads up to key order, or their texts collide, or their sorted leaves have one text |
| `LeafHash.AgreeingLeavesMatch` | src/execution/index.ts:381-408 | conversely, without tied keys, records that agree so have one leaf hash |
| `Reputation.FoldClosedForm` | src/learning/index.ts:125-132 | after k feedbacks the score is 0.9^k * 0.5 plus the sum of 0.1 * 0.9^(k-i) * s_i |
| `Reputation.DistanceShrinks` | src/learning/index.ts:127 | k feedbacks of one score s shrink the distance to s by exactly 0.9^k |
| `Reputation.ReputationIs` | src/learning/index.ts:111-155 | in every settled table an agent's score is 0.9^k * 0.5 plus the weighted sum of its k feedback scores, and lies in [0, 1] |
| `Reputation.LearningService.UpdateReputation` | src/learning/index.ts:111-155 | every pending record of the agent is folded in once and marked |
| `Reputation.LearningService.SubmitFeedback` | src/learning/index.ts:50-109 | throws for an unknown execution; otherwise the new record is applied to its agent and copied onto its row, no record is applied twice, other agents keep their score, and the score stays in [0, 1] |

## Left out

- Primality of the secp256k1 moduli, associativity of point addition and the order of G: hypotheses, as named above.
- SignThenRecover: is about signatures that were returned; that one of 32 nonces works is not claimed, since it depends on the hash.
- OwnSignatureAccepted: works on bytes; the hexadecimal text around them and the padding of addresses are not modelled.
- VerifyNative: takes the 65 bytes rather than their hexadecimal text, and the address comparison as a parameter.
- Replace: keeps the id of the record; a capability patch that changes the id, which the source would store under the old one, is not modelled.
- RecoveredKeyVerifies: needs a curve point with the claimed abscissa, because the code does not look for one.
- SignatureOnce: that the check passes a signature for one message at most, and that drawn nonces have no line break, are hypotheses.
- LeafHashSurvivesStorage: JavaScript's reordering of integer-like keys is not modelled.
- RootsAgreeIff: is about lists of 64-character hashes, as the ledger stores them; `UnhashedLeafUnbound` shows why.
- JSON numbers: that the stored payloads survive as text is a hypothesis about those two values, because a `real` need not.
- Interleaving of calls that await, SQL text, and SQLite's own failures.
- StatusIff: asks that a call draws new decision ids, as the runs do; the primary key of the audit table is not modelled.
- Row ids drawn for accounts, which no property mentions; creation timestamps and version columns.
- Chain selection, adapter lookup and token-address checks of chain rails: one outcome, the adapter's answer or a failure.
- Capability tokens, wallet lookups of chain rails and action handlers enter a call as whether they pass; agents are given already resolved.
- ASCII only in lower-casing; grant expiry as a number, an unreadable date counting as past.
- Finish: context and output hashes and timestamps of receipts are left out.
- Summaries that only repeat a reason, and validation of VARR intents, feedback and resources.
- Validators, secret-material patterns, HTTP routes, MCP server, CLI, SDK and user interfaces: field-by-field checks and plumbing.
- Base64 and hexadecimal forms of Ed25519 keys, and Ed25519 itself.
