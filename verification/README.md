# Human ID protocol: a model with proofs

This project models the parts of the repository where a mistake costs money or identity, and proves what they keep.

- **Payments** (`PaymentsModel`, `PaymentsExact`, `PaymentsSafety`, `PaymentsHistory`, `PaymentsBatch`,
  `HumanIDPaymentsContract`). The contract takes signed
  payments one by one or in batches and refunds each at most once. Sending ether runs the recipient's code in the middle of
  the call, so a transaction is a finite tree of calls: the recipient may call back into any function, code of other
  contracts may run in between, ether may be forced in, and any frame may revert and restore the state it was entered with.
  Theorems are about every state on the way, reverted ones included. The contract is a class; each method is proved equal
  to one step of the model, loops and undoing included.
- **Hub and HubBatch** (`HubModel`, `HubExact`, `HubSafety`, `HubHistory`, `HubContract`, `HubBatchModel`,
  `HubBatchContract`). Identity tokens guarded
  by nullifiers, and the two batch drivers. Minting runs the receiver's code in the middle of the call, so here too an
  operation is a finite tree and the theorems are about every state on the way.
- **The Stellar contract and its relation to Hub** (`StellarModel`, `StellarExact`, `StellarSafety`, `StellarHistory`,
  `StellarContract`, `Simulation`).
- **The circuits** (`PrimeField`, `Circomlib`, `MerkleProofModel`, `MerkleTree`, `ExpiryCheck`). A circuit is a predicate on
  assignments over a prime field; statements are about every satisfying assignment and about when there is one.
- **The Groth16 verifiers** (`Groth16`, `Groth16Proofs`). Points are pairs of words; a curve says which words are points and
  of which exponent, and the precompiles of EIP-196 and EIP-197 add, scale and pair exponents modulo the group order.
- **The witness code** (`Limbs`, `Bytes`, `WitnessFile`, `InputModel`, `InputLoader`, `Montgomery`). Big-number limbs, the
  two writers of one file format, the input-assignment state machine, and arithmetic on Montgomery form.

For each of the three contracts there are four kinds of statement: `...Exact` says, in a caller's terms and with the constants
as numbers, when each operation goes through, what it leaves and how it fails; `...Safety` says what every point of every run
keeps; `...History` traces everything stored or paid back to a call that was entitled to it; and the class does in place what
the functions say.

Parameters of the model, left arbitrary: signature recovery, keccak256 identifiers, the Poseidon hash, the pairing-friendly
curve, modular inversion, block times, and the code and answers of everyone the contracts pay or send a token to.

Results that say something different from what one may expect:

- The refund window is ten minutes (contracts/HumanIDPayments.sol:212); the comment above it speaks of a year. The code is
  followed.
- `LessThan(3)` lets the residues p-3, p-2 and p-1 through, and the selector then puts out 0. The Merkle circuit agrees with
  the ZoKrates loop exactly on indices 0..4 (`LoopIsCircuitInRange`); with one of the others at the bottom, any tree proves
  the leaf 0 (`WrappedIndexProvesZero`).
- The two Groth16 shapes do not accept exactly the same proofs. `negate` reduces Y modulo the field prime, so each shape
  repairs an unreduced Y in the point it negates and no other. `ShapesAgreeExactly` says when they agree,
  `ShapesPartOnSmallCurve` writes out one input where they differ.
- For four-limb fields the two witness files are equal exactly while the data section is shorter than 2^32 bytes
  (`FourLimbWritersAgreeExactly`); for other sizes a few longer lengths happen to agree again (`LongWritersAgreeExactly`).
- Stellar and Hub answer every query alike at every time but zero; at time zero Hub returns an empty token where there is
  none. `StellarRunsOnHub` states this as an equivalence.
- The hash-map lookup of the C++ calculator reads past the end of the map exactly when a name hashes to the last slot and is
  not stored there (`FindExactly`); the model ends the program at that point.

`dafny verify dfyconfig.toml` checks everything.

## Model

| member | source | states |
|---|---|---|
| PaymentsSafety.EveryPointIsSafe | contracts/HumanIDPayments.sol:104-324 | At every point of every run from deployment, nested calls and frames that revert included: balance + refunds + withdrawals = payments + deposits + forced ether; the refunds issued for a commitment are exactly one, in full, to the recorded sender, if its flag is set, and none if not. |
| PaymentsSafety.NoRefundInsideARefund | contracts/HumanIDPayments.sol:199-225 | While a payee's code runs after a refund, whatever it does, the payment stays marked, and any nested refund or forced refund of it reverts. |
| PaymentsSafety.RecordedPaymentsLast | contracts/HumanIDPayments.sol:158-194 | A recorded payment is present at every later point and never changes, except that its flag goes from false to true. |
| PaymentsSafety.ProcessAllSafe | contracts/HumanIDPayments.sol:158-194 | Storing items adds exactly their amounts to what was paid, leaves older payments and all refunds alone. |
| PaymentsSafety.RefundSafe | contracts/HumanIDPayments.sol:218-221 | Marking before sending keeps the books and the at-most-once rule at the moment control is handed over. |
| PaymentsSafety.EnterSafe | contracts/HumanIDPayments.sol:104-324 | Every entry point keeps the invariant and undoes nothing recorded. |
| PaymentsSafety.ExecSafe | contracts/HumanIDPayments.sol:205-313 | A whole call tree keeps the invariant at its end and at every state inside it. |
| PaymentsHistory.EverythingIsEntitled | contracts/HumanIDPayments.sol:104-324 | At every point of every run, nested calls and reverted frames included: every recorded payment was paid for by its sender with the signature of the oracle of that moment; every refund was signed by the oracle of its moment at most 600 seconds before, or forced by an administrator of its moment; every withdrawal was an administrator's; the oracle is the first one or was named by an administrator. |
| PaymentsHistory.EnterExplained | contracts/HumanIDPayments.sol:104-324 | Each call that goes through adds only payments, transfers and oracles it was entitled to. |
| PaymentsExact.PayExactly | contracts/HumanIDPayments.sol:104-194 | pay goes through exactly for a positive amount, a commitment nothing is stored under, a timestamp at most 31536000 seconds old and not in the future, and the oracle's signature over amount, commitment, service, chain and timestamp; and exactly what it then stores. |
| PaymentsExact.PayErrors | contracts/HumanIDPayments.sol:166-181 | Otherwise, the error of the first check that fails. |
| PaymentsExact.BatchItemsExactly | contracts/HumanIDPayments.sol:121-194 | batchPay goes through exactly for equally long nonempty arrays, amounts summing to the value below 2^256, every item acceptable as read off the arrays, and no commitment twice; each record is read off the arrays, and nothing else changes. |
| PaymentsExact.BatchErrors | contracts/HumanIDPayments.sol:128-142 | The error of the first check before the items that fails. |
| PaymentsExact.RefundExactly | contracts/HumanIDPayments.sol:205-225 | refund sends exactly without ether, for a stored payment not refunded that the balance covers, within 600 seconds of a timestamp not in the future that the oracle signed with commitment and chain; and the state in which the payer's code runs. |
| PaymentsExact.RefundErrors | contracts/HumanIDPayments.sol:205-221 | Otherwise, the error of the first check that fails. |
| PaymentsExact.ForceRefundExactly | contracts/HumanIDPayments.sol:267-278 | forceRefund sends exactly for administrators, under the same conditions but for signature and time. |
| PaymentsExact.ForceRefundErrors | contracts/HumanIDPayments.sol:267-275 | Otherwise, the error of the first check that fails. |
| PaymentsExact.WithdrawalsExactly | contracts/HumanIDPayments.sol:284-313 | When each of the three withdrawals sends, how much, and to whom. |
| PaymentsExact.WithdrawalErrors | contracts/HumanIDPayments.sol:284-313 | Otherwise, the error of the first check that fails. |
| PaymentsExact.DepositsExactly | contracts/HumanIDPayments.sol:238-248 | What deposit and receive do with the ether sent. |
| PaymentsExact.SetOracleExactly | contracts/HumanIDPayments.sol:319-324 | The oracle changes exactly when an administrator names a nonzero one; which error otherwise. |
| PaymentsExact.OnlyFourTakeEther | contracts/HumanIDPayments.sol:104-324 | Every other entry point reverts when ether is sent with it. |
| PaymentsExact.FailuresLeaveNoTrace | contracts/HumanIDPayments.sol:205-313 | A call that reverts, or whose recipient refuses, and a frame that reverts, leave the state as it was; a call that pays leaves what the recipient's code leaves. |
| PaymentsExact.NothingGoesUnvisited | contracts/HumanIDPayments.sol:205-313 | The points the theorems speak of include the hand-over, every point inside the recipient's code, and the end. |
| PaymentsExact.NothingGoesUnvisitedInRuns | contracts/HumanIDPayments.sol:104-324 | And so do the points of a whole run: before, inside and after every transaction. |
| PaymentsBatch.ProcessAllExactly | contracts/HumanIDPayments.sol:145-194 | Items are stored exactly when each is acceptable on its own and the commitments are pairwise distinct; the result has one record for each item and the old payments. |
| PaymentsBatch.BatchPayExactly | contracts/HumanIDPayments.sol:121-148 | batchPay succeeds exactly for a nonempty batch of equal lengths, amounts that sum to the ether sent without overflow, and acceptable items with fresh, distinct commitments; otherwise nothing changes. |
| PaymentsBatch.BatchPayIsPayInOrder | contracts/HumanIDPayments.sol:104-148 | Past its own checks, batchPay has the outcome of calling pay on the items one after another: same error, or same state. |
| PaymentsBatch.OneByOneIsARun | contracts/HumanIDPayments.sol:104-111 | Those pays are ordinary calls of the contract. |
| PaymentsBatch.BatchOrderIsImmaterial | contracts/HumanIDPayments.sol:121-148 | Permuting the items jointly changes neither success, overflow check included, nor the final state. |
| HumanIDPaymentsContract.HumanIDPayments.Deploy | contracts/HumanIDPayments.sol:90-95 | Deployment fails exactly for the zero oracle and otherwise starts within the invariant. |
| HumanIDPaymentsContract.HumanIDPayments.ProcessPayment | contracts/HumanIDPayments.sol:158-194 | One item: stored exactly with a positive amount, a free commitment and the oracle's fresh signature, as the one new record; otherwise the error of the first failing check and no change. |
| HumanIDPaymentsContract.HumanIDPayments.Pay | contracts/HumanIDPayments.sol:104-111 | Goes through exactly under those conditions for the ether sent; reverts without trace. |
| HumanIDPaymentsContract.HumanIDPayments.BatchPay | contracts/HumanIDPayments.sol:121-148 | The two loops, with the overflow panic and the rollback of a half-processed batch: goes through exactly for a batch acceptable as read off the arrays. |
| HumanIDPaymentsContract.HumanIDPayments.SendEther | contracts/HumanIDPayments.sol:220-221 | A low-level call: fails without trace if the balance is short or the recipient reverts, otherwise leaves what the recipient's code leaves. |
| HumanIDPaymentsContract.HumanIDPayments.Refund | contracts/HumanIDPayments.sol:205-225 | Goes through exactly with the oracle's signature of at most 600 seconds ago and a recipient that accepts; the flag is set before control is handed over, and all is undone if the transfer fails. |
| HumanIDPaymentsContract.HumanIDPayments.ForceRefund | contracts/HumanIDPayments.sol:267-278 | The same for an administrator, without signature or time limit. |
| HumanIDPaymentsContract.HumanIDPayments.Withdraw | contracts/HumanIDPayments.sol:284-289 | Pays out to the calling administrator, or the error of the first failing check. |
| HumanIDPaymentsContract.HumanIDPayments.WithdrawTo | contracts/HumanIDPayments.sol:296-302 | Pays out to a named recipient, zero excluded. |
| HumanIDPaymentsContract.HumanIDPayments.WithdrawAll | contracts/HumanIDPayments.sol:307-313 | Pays out the whole balance, refused when there is none. |
| HumanIDPaymentsContract.HumanIDPayments.Deposit | contracts/HumanIDPayments.sol:238-241 | Adds the ether sent, refused when there is none. |
| HumanIDPaymentsContract.HumanIDPayments.Receive | contracts/HumanIDPayments.sol:246-248 | Adds the ether sent, whatever the amount. |
| HumanIDPaymentsContract.HumanIDPayments.SetOracleAddress | contracts/HumanIDPayments.sol:319-324 | Replaces the oracle, zero excluded, administrators only. |
| HumanIDPaymentsContract.HumanIDPayments.Perform | contracts/HumanIDPayments.sol:104-324 | The object carries out any call tree exactly as the model says. |
| HumanIDPaymentsContract.HumanIDPayments.Live | contracts/HumanIDPayments.sol:104-324 | Any sequence of transactions on the object keeps the invariant and forgets nothing. |
| HubSafety.UsedExactlyOnce | contracts/Hub.sol:87-90 | At every point of every run, inside receivers' callbacks too, a nonzero nullifier is marked used exactly when one and only one mint so far consumed it. |
| HubSafety.NoSecondUseInsideAMint | contracts/Hub.sol:87-102 | While a receiver's code runs during its mint, whatever it does, the mint is recorded and any nested mint with the same nonzero nullifier reverts. |
| HubSafety.ReadingByNullifierAgrees | contracts/Hub.sol:92-127 | After a mint, at every point of every later run and at every time, reading by its nullifier equals reading by its receiver and circuit, and the nullifier's identifier never changes. |
| HubSafety.TokensAreForGood | contracts/Hub.sol:44-46 | At every point, nested ones included, token ids ever minted are exactly 1..counter and balances sum to the counter; owners never change afterwards. |
| HubSafety.FeesAccountedFor | contracts/Hub.sol:137-144 | At every point, ether held + collected = sum of custom fees over successful mints (+ forced ether). |
| HubSafety.ZeroNullifierIsUnguarded | contracts/Hub.sol:87-97 | Nullifier zero is outside the guard: the same mint goes through again, and the entry of nullifier zero is the latest identifier. |
| HubSafety.MintSpendsNullifier | contracts/Hub.sol:87-97 | The state in which the receiver's code starts keeps the one-mint-per-nullifier rule. |
| HubSafety.MintCountsToken | contracts/Hub.sol:99-102 | A mint adds the next id, and one to the receiver's balance and so to the sum of balances. |
| HubSafety.ApplyKeepsInvariant | contracts/Hub.sol:61-144 | Every operation, a mint with any tree of calls inside it included, keeps the invariant at its end and at every state inside it, and undoes no mint, owner or spent nullifier. |
| HubHistory.EveryTokenWasSigned | contracts/Hub.sol:61-131 | At every point of every run, receivers' callbacks included: every mint was signed, for exactly its arguments, by the verifier of its moment with its fee paid; every token not revoked carries the expiry and public values of such a mint to its receiver and circuit; every revoked one was revoked by the owner of that moment. |
| HubHistory.WhatIsReadWasSigned | contracts/Hub.sol:108-120 | Whatever a reader finds after time zero was signed for that owner and circuit. |
| HubExact.SetSBTExactly | contracts/Hub.sol:61-104 | A mint goes through exactly with value equal to the fee, the verifier's signature over all arguments and the chain id, a nullifier zero or unused, nonzero low 160 bits, and a receiver that accepts; and the state it hands to the receiver, field by field. |
| HubExact.SetSBTFailures | contracts/Hub.sol:61-144 | Otherwise, the failure of the first check that fails, in its own words. |
| HubExact.RevokeExactly | contracts/Hub.sol:129-131 | Only the owner revokes, and exactly the token of that pair, stored or not. |
| HubExact.OwnerOperationsExactly | contracts/Hub.sol:133-139 | When the verifier, the owner and the fees change hands, and what else changes: nothing. |
| HubExact.OthersExactly | contracts/Hub.sol:44-46 | Token transfers always revert. |
| HubExact.ReadingExactly | contracts/Hub.sol:108-127 | Which token a reader gets by (owner, circuit) and by nullifier, and which of the two errors otherwise. |
| HubExact.NothingGoesUnvisited | contracts/Hub.sol:99-103 | The points the theorems speak of include every point inside receivers' code and frames. |
| HubContract.Hub.SetSBT | contracts/Hub.sol:61-104 | Goes through exactly with the fee, the verifier's signature, a fresh nullifier, a nonzero receiver and its acceptance; the receiver's code runs in the middle, a failed mint is undone, and the invariant is kept. |
| HubContract.Hub.RecordAndMint | contracts/Hub.sol:92-102 | What is stored and minted before the receiver's code runs, what that leaves, and the receiver's answer. |
| HubContract.Hub.GetSBT | contracts/Hub.sol:108-120 | Reads the token of (owner, circuit), or says which of the two checks fails first: expired or missing, then revoked. |
| HubContract.Hub.GetSBTByNullifier | contracts/Hub.sol:108-127 | Reads the token filed under the nullifier's identifier, with the same two failures. |
| HubContract.Hub.RevokeSBT | contracts/Hub.sol:129-131 | Owner only; afterwards the token cannot be read at any time. |
| HubContract.Hub.ChangeVerifier | contracts/Hub.sol:133-135 | Owner only; replaces the verifier and nothing else. |
| HubContract.Hub.CollectFees | contracts/Hub.sol:137-139 | Owner only; moves all ether out, conserving held + collected. |
| HubContract.Hub.PerformAll | contracts/Hub.sol:61-144 | The object carries out any sequence of operations, receivers' code and frames that revert included, exactly as the model says, and keeps the invariant. |
| HubBatchModel.StrictIffTolerantSucceedsThroughout | contracts/HubBatch.sol:46-129 | The strict form succeeds exactly when the tolerant form reports success for every item, with the same final state. |
| HubBatchModel.TolerantIsStrictOnSuccesses | contracts/HubBatch.sol:66-94 | The tolerant form ends where the strict form ends on just the items reported successful, in order: failed items leave no trace. |
| HubBatchModel.TolerantIsARun | contracts/HubBatch.sol:66-94 | A tolerant batch is an ordinary run of Hub, so Hub's theorems cover it, at the points inside it too. |
| HubBatchModel.BatchesKeepInvariant | contracts/HubBatch.sol:46-129 | Both batch forms keep Hub's invariant and undo nothing recorded. |
| HubBatchModel.TolerantItem | contracts/HubBatch.sol:66-94 | Each item is a call of setSBT without ether in the state the items before it left, and its result says how the call came out: success, reason, panic code or raw data. |
| HubBatchModel.Arguments.Attempts | contracts/HubBatch.sol:68-76 | The i-th call takes each of its seven arguments from the array of that name. |
| HubBatchModel.Arguments.Refusal | contracts/HubBatch.sol:55-62 | Batches are refused exactly above a hundred items or when the arrays differ in length, and with which words. |
| HubBatchContract.HubBatch.SetSBTBatch | contracts/HubBatch.sol:46-94 | The loop with its catch clauses gives the tolerant results and state of the calls read off the arrays; refused batches change nothing. |
| HubBatchContract.HubBatch.SetSBTBatchStrict | contracts/HubBatch.sol:100-129 | The loop is all or nothing, over the calls read off the arrays; refused batches change nothing. |
| StellarSafety.ReachableIndex | contracts/stellar/human-id/contracts/sbt/src/lib.rs:98-153 | Every reachable state is indexed both ways: a token's id is its key, its nullifier maps back to it, every nullifier maps to a stored token, and there are as many nullifiers as successful mints. |
| StellarSafety.NullifiersAreForGood | contracts/stellar/human-id/contracts/sbt/src/lib.rs:98-224 | No nullifier is ever dropped or made to point elsewhere. |
| StellarSafety.RevokeOnlyMarks | contracts/stellar/human-id/contracts/sbt/src/lib.rs:203-219 | Though it writes the nullifier entry again, a revocation changes one token's flag and nothing else. |
| StellarSafety.InvokeKeepsIndex | contracts/stellar/human-id/contracts/sbt/src/lib.rs:98-224 | Every invocation keeps the two-way index. |
| StellarSafety.TtlExactly | contracts/stellar/human-id/contracts/sbt/src/lib.rs:48-58 | The lifetime calculation succeeds exactly for 1 to 248551 whole days; then threshold + one day = bump, and the bump covers the expiry to within a day. |
| StellarSafety.MintIsReadableUntilExpiry | contracts/stellar/human-id/contracts/sbt/src/lib.rs:21-37 | After a successful mint the token can be read, both ways, at exactly the times up to its expiry, through any run in which no mint and no revocation under its id succeeds; failed attempts do not matter. |
| StellarSafety.RevocationHides | contracts/stellar/human-id/contracts/sbt/src/lib.rs:192-224 | A revocation that succeeds happens at least a day before expiry and hides the token, both ways and at all times, through any run in which no mint under its id succeeds. |
| StellarHistory.EverythingWasAuthorised | contracts/stellar/human-id/contracts/sbt/src/lib.rs:98-224 | After every run: every stored token was minted, exactly as it stands, in a call the administrator of its moment authorised; every revoked one was revoked in such a call; the administrator is the first or was named by one, both authorising it. |
| StellarExact.MintExactly | contracts/stellar/human-id/contracts/sbt/src/lib.rs:98-153 | mint_sbt succeeds exactly for the stored administrator who authorised it, an unused nullifier and an expiry 1 to 248551 whole days ahead; what it stores, field by field; and how it fails otherwise. |
| StellarExact.RevokeExactly | contracts/stellar/human-id/contracts/sbt/src/lib.rs:192-224 | revoke_sbt succeeds exactly for the stored administrator who authorised it and a stored token, not revoked, whose expiry is as far ahead; what it changes; and how it fails otherwise. |
| StellarExact.SetAdminExactly | contracts/stellar/human-id/contracts/sbt/src/lib.rs:157-184 | set_admin succeeds exactly when the stored administrator and the new one both authorise it; what it changes; and how it fails otherwise. |
| StellarExact.ReadingExactly | contracts/stellar/human-id/contracts/sbt/src/lib.rs:21-37 | What a reader gets by (recipient, circuit) and by nullifier: not found, revoked, expired, in that order, or the token. |
| StellarExact.FailuresLeaveNoTrace | contracts/stellar/human-id/contracts/sbt/src/lib.rs:98-224 | An invocation that does not succeed leaves nothing behind. |
| StellarContract.SBTContract.MintSbt | contracts/stellar/human-id/contracts/sbt/src/lib.rs:98-153 | Succeeds exactly for an authorised administrator, an unused nullifier and an expiry far enough ahead; the writes are undone when the lifetime calculation fails, and the index is kept. |
| StellarContract.SBTContract.RevokeSbt | contracts/stellar/human-id/contracts/sbt/src/lib.rs:192-224 | Succeeds exactly for an authorised administrator and a live token that expires far enough ahead, with the same undo. |
| StellarContract.SBTContract.SetAdmin | contracts/stellar/human-id/contracts/sbt/src/lib.rs:157-184 | Succeeds exactly when both administrators authorise it, and then replaces the one by the other. |
| StellarContract.SBTContract.Live | contracts/stellar/human-id/contracts/sbt/src/lib.rs:98-224 | Any sequence of invocations on the object keeps the two-way index and drops no token or nullifier. |
| StellarContract.SBTContract.RequireAdmin | contracts/stellar/human-id/contracts/sbt/src/lib.rs:107-113 | Passes exactly when the claimed administrator is the stored one and authorised the call; otherwise says which check fails. |
| StellarContract.SBTContract.FindByNullifier | contracts/stellar/human-id/contracts/sbt/src/lib.rs:83-90 | Reading through the nullifier entry, with the errors of either lookup. |
| Simulation.StepSimulated | contracts/stellar/human-id/contracts/sbt/src/lib.rs:98-224 | Every successful invocation has a Hub operation that succeeds and keeps the two states related. |
| Simulation.RelatedAnswerAlike | contracts/Hub.sol:108-127 | Related states answer both queries alike, exactly when the time is positive or the token or nullifier exists. |
| Simulation.StellarRunsOnHub | contracts/stellar/human-id/contracts/sbt/src/lib.rs:21-224 | Every run of the Stellar contract replays on Hub step for step, given an honest owner and verifier, receivers that accept, fee 0 and hashes that do not collide on the (recipient, circuit) pairs of the invocations that succeed; both then return the same readable token by (recipient, circuit) and by nullifier exactly at times t > 0 or for what is stored. |
| Simulation.BoundedHashesCanBeHonest | contracts/Hub.sol:48-50 | Those assumptions can be met by hashes into 256 bits. |
| Circomlib.Num2BitsExactly | zk/circuits/circom/V3.circom:82-83 | The decomposition is satisfiable exactly for residues that fit. |
| Circomlib.LessThanExactly | zk/circuits/circom/V3.circom:84-87 | Forcing the comparator's output to 1 is satisfiable exactly when the shifted difference, as a residue, lies below 2^n. |
| ExpiryCheck.ExpiryWithinAYear | zk/circuits/circom/V3.circom:79-87 | For every prime above 2^26 the constraints are satisfiable exactly when (expiry - iat) mod p is in 0..31536000. |
| MerkleProofModel.TotalIsSum | zk/circuits/circom/merkleproof.circom:17-29 | Any satisfying assignment puts out the sum of the inputs. |
| MerkleProofModel.IndexPassesExactly | zk/circuits/circom/merkleproof.circom:41-45 | The index check is satisfiable exactly for 0..4, p-3, p-2 and p-1. |
| MerkleProofModel.SelectorForces | zk/circuits/circom/merkleproof.circom:36-63 | Any satisfying assignment puts out the chosen entry, or 0 for an index that wraps. |
| MerkleProofModel.SelectorSatisfiable | zk/circuits/circom/merkleproof.circom:36-63 | And for every index that passes there is one. |
| MerkleProofModel.CircuitIsClimb | zk/circuits/circom/merkleproof.circom:65-106 | The constraint system is satisfiable exactly when climbing the path by hand reaches the root. |
| MerkleProofModel.QuinaryMerkleProof | zk/circuits/ZoKrates/quinaryMerkleProof.zok:12-23 | The loop accepts exactly when all indices are below five and climbing reaches the root. |
| MerkleProofModel.LoopIsCircuitInRange | zk/circuits/ZoKrates/quinaryMerkleProof.zok:12-23 | The loop accepts exactly what the circuit accepts with indices in 0..4. |
| MerkleProofModel.WrappedIndexPicksZero | zk/circuits/circom/merkleproof.circom:32-45 | With a wrapped index any node proves the leaf 0, whatever it holds: the circuit needs its callers to keep indices in range. |
| MerkleTree.ProofIsOfThatLeaf | zk/circuits/circom/merkleproof.circom:65-106 | Against the root of any complete quinary tree of any depth, a satisfied circuit with indices in 0..4 proves the tree's leaf at position sum of index_i * 5^i by the tree's own nodes, or one of its nodes collides with the tree's node in that place. |
| MerkleTree.EveryLeafHasAProof | zk/circuits/circom/merkleproof.circom:65-106 | Every leaf, with its own path, satisfies the circuit. |
| MerkleTree.WrappedIndexProvesZero | zk/circuits/circom/merkleproof.circom:32-106 | Against any complete tree of any depth, with a wrapped index at the bottom the tree's own nodes prove the leaf 0. |
| Groth16.Pairing | zk/verifier-contracts/antiSybil.verifier.sol:75-98 | The loop fills the whole buffer, six words per pair in the shape's order, and asks the precompile about exactly that. |
| Groth16.LinearCombination | zk/verifier-contracts/antiSybil.verifier.sol:177-183 | The accumulation loop with its range check, as a recursive combination. |
| Groth16.VerifyZoKrates | zk/verifier-contracts/antiSybil.verifier.sol:173-190 | The method gives the verdict the theorems are about. |
| Groth16.VerifySnarkjs | utils/packages/zk-escrow/zk/daEncrypt.verifier.sol:250-268 | The same for the other shape. |
| Groth16Proofs.NegateNegatesCanonical | zk/verifier-contracts/antiSybil.verifier.sol:32-38 | The negation is a point exactly when the operand with Y reduced is one, and then has the opposite exponent, for all words. |
| Groth16Proofs.WholeCombination | zk/verifier-contracts/antiSybil.verifier.sol:177-183 | The loop yields gamma_abc[0] + sum of input_i * gamma_abc[i+1], and fails exactly when some input is not below the scalar field. |
| Groth16Proofs.SameBuffer | utils/packages/zk-escrow/zk/daEncrypt.verifier.sol:93-117 | The two word orders of G2 points flatten to the same EIP-197 buffer. |
| Groth16Proofs.BufferExactly | zk/verifier-contracts/antiSybil.verifier.sol:81-89 | The six words of each pair in the buffer, in each library's order. |
| Groth16Proofs.ZoKratesVerdictExactly | zk/verifier-contracts/antiSybil.verifier.sol:173-190 | verify reverts exactly on the wrong number of inputs, an input not below the scalar field, or a proof that is not made of points (C's Y reduced); it returns 1 exactly when none of this holds and the equation fails. |
| Groth16Proofs.SnarkjsVerdictExactly | utils/packages/zk-escrow/zk/daEncrypt.verifier.sol:250-268 | The same for the other shape, with A's Y reduced. |
| Groth16Proofs.ZoKratesAcceptsExactly | zk/verifier-contracts/antiSybil.verifier.sol:173-190 | verify returns 0 exactly when all inputs are in the field and the Groth16 equation holds, with C's Y reduced. |
| Groth16Proofs.SnarkjsAcceptsExactly | utils/packages/zk-escrow/zk/daEncrypt.verifier.sol:250-268 | verify returns 0 exactly when all inputs are in the field and the Groth16 equation holds, with A's Y reduced. |
| Groth16Proofs.CanonicalProofsAreTheEquation | zk/verifier-contracts/antiSybil.verifier.sol:173-190 | On coordinates below the field prime both verdicts are the equation itself, so the shapes agree. |
| Groth16Proofs.ShapesAgreeExactly | utils/packages/zk-escrow/zk/daEncrypt.verifier.sol:250-268 | The shapes agree on a proof exactly when A and C are alike in having Y below the prime, or the reduced proof fails the equation. |
| Groth16Proofs.ShapesPartOnUnreducedA | utils/packages/zk-escrow/zk/daEncrypt.verifier.sol:50-56 | Adding the field prime to A's Y leaves the snarkjs verdict alone and undoes the ZoKrates one. |
| Groth16Proofs.ShapesPartOnSmallCurve | utils/packages/zk-escrow/zk/daEncrypt.verifier.sol:50-56 | One written-out key and proof on which the verdicts differ; it also shows the assumptions on a curve can be met. |
| Limbs.ToArray32 | zk/circuits/circom/subOrderCheck_js/witness_calculator.js:277-292 | The loops give the limbs of the number, padded in front. |
| Limbs.FromArray32 | zk/circuits/circom/subOrderCheck_js/witness_calculator.js:294-301 | The loop gives the limbs' value. |
| Limbs.Normalize | zk/circuits/circom/subOrderCheck_js/witness_calculator.js:319-323 | The remainder in 0..prime-1, for negative numbers too, from a division that truncates. |
| Limbs.NumberRoundTrip | zk/circuits/circom/subOrderCheck_js/witness_calculator.js:277-301 | From any number to limbs of any size and back. |
| Limbs.LimbRoundTrip | zk/circuits/circom/subOrderCheck_js/witness_calculator.js:277-301 | From any array of 32-bit limbs to its number and back, leading zeros included. |
| Limbs.LimbAt | zk/circuits/circom/subOrderCheck_js/witness_calculator.js:277-292 | The limb at each place is the base-2^32 digit of the number, most significant first. |
| Limbs.FirstLimbWeighsMost | zk/circuits/circom/subOrderCheck_js/witness_calculator.js:294-301 | The value of a limb array gives its first limb the greatest weight. |
| Limbs.WriteShared | zk/circuits/circom/subOrderCheck_js/witness_calculator.js:151-154 | Word j of the shared memory is digit j of n modulo the prime, least significant first. |
| Limbs.WriteThenRead | zk/circuits/circom/subOrderCheck_js/witness_calculator.js:151-184 | A reversed write followed by a reversed read gives n modulo the prime for every integer n. |
| Bytes.SlicesOfShort | zk/circuits/circom/subOrderCheck_js/witness_calculator.js:231-234 | Below 2^32 the two slices of the hexadecimal digits are the two little-endian words of the number. |
| Bytes.SlicesOfLong | zk/circuits/circom/subOrderCheck_js/witness_calculator.js:257-260 | From 2^32 up to 2^64 the slices cut the hexadecimal digits after the eighth, not before the last eight. |
| WitnessFile.CalculateWtnsBin | zk/circuits/circom/subOrderCheck_js/witness_calculator.js:208-272 | The shared buffer is filled exactly, and holds the format's bytes, for data sections whose length JavaScript numbers hold exactly. |
| WitnessFile.SetHeader | zk/circuits/circom/subOrderCheck_js/witness_calculator.js:214-262 | The words before the data, each in its place. |
| WitnessFile.WriteBinWitness | zk/circuits/circom/daEncrypt_cpp/main.cpp:202-248 | The sequential writes put out the format's bytes, for fewer than 2^31 elements. |
| WitnessFile.WordsAreBytes | zk/circuits/circom/subOrderCheck_js/witness_calculator.js:244-246 | An element as 32-bit words on a little-endian host is its bytes. |
| WitnessFile.LongWordsAreBytes | zk/circuits/circom/daEncrypt_cpp/main.cpp:242-247 | An element as 64-bit words is the same bytes. |
| WitnessFile.FrontOfFile | zk/circuits/circom/daEncrypt_cpp/main.cpp:207-224 | The bytes before the prime, by offset: magic, version 2, two sections, section 1, its length, the element size; and the length of the whole file. |
| WitnessFile.BackOfFile | zk/circuits/circom/daEncrypt_cpp/main.cpp:226-238 | The bytes from the prime on, by offset: the prime, the count, section 2, its length, the data. |
| WitnessFile.CppFileLengths | zk/circuits/circom/daEncrypt_cpp/main.cpp:221-238 | The two length fields are the lengths of what follows them. |
| WitnessFile.ElementInFile | zk/circuits/circom/daEncrypt_cpp/main.cpp:240-246 | Every element stands in its place after the header and the elements before it. |
| WitnessFile.BytesStandFor | zk/circuits/circom/daEncrypt_cpp/main.cpp:245 | The bytes of a field element stand for it, least significant first. |
| WitnessFile.WritersAgree | zk/circuits/circom/daEncrypt_cpp/main.cpp:202-248 | For every field size, prime and witness whose data section is under 2^32 bytes the two writers emit the same file, byte for byte. |
| WitnessFile.LongWritersAgreeExactly | zk/circuits/circom/subOrderCheck_js/witness_calculator.js:257-260 | For every field size and longer data sections the files are equal exactly when the length, cut after its first eight hexadecimal digits or before its last eight, gives the same two parts. |
| WitnessFile.FourLimbWritersAgreeExactly | zk/circuits/circom/subOrderCheck_js/witness_calculator.js:208-272 | For four-limb fields that bound is exact. |
| WitnessFile.ThreeLimbWritersMeetAgain | zk/circuits/circom/subOrderCheck_js/witness_calculator.js:257-260 | Such a length does occur with three limbs: 0x888888888 bytes. |
| InputModel.FindExactly | zk/circuits/circom/daEncrypt_cpp/calcwit.cpp:50-68 | When a lookup leaves the map, when it finds the name, and in which slot. |
| InputModel.SizedExactly | zk/circuits/circom/daEncrypt_cpp/main.cpp:178-188 | An item is the right size exactly when its name is found and it has neither fewer nor more numbers than its entry has room for. |
| InputModel.LoadingExactly | zk/circuits/circom/daEncrypt_cpp/calcwit.cpp:70-96 | A sequence of calls goes through exactly when it hits existing inputs, none twice; then the counter is the number of unset flags, the flags and values are those of the calls, other signals are untouched, and the circuit has run exactly once if the last call set the last input, seeing all values, and not otherwise. |
| InputModel.NamesOnceLoad | zk/circuits/circom/daEncrypt_cpp/main.cpp:173-199 | On a map whose entries do not overlap, input naming entries once each with the right number of values always loads, and the circuit runs, once, exactly when the values are as many as the main inputs. |
| InputModel.RunSeesEveryInput | zk/circuits/circom/daEncrypt_cpp/calcwit.cpp:70-96 | When the circuit runs it runs once, and every main input holds the value some call gave it. |
| InputLoader.CalcWit.constructor | zk/circuits/circom/daEncrypt_cpp/calcwit.cpp:26-44 | All flags down, the counter at the number of inputs, signal 0 set to one. |
| InputLoader.CalcWit.GetInputSignalHashPosition | zk/circuits/circom/daEncrypt_cpp/calcwit.cpp:50-68 | The probing loop is the lookup the theorems are about. |
| InputLoader.CalcWit.SetInputSignal | zk/circuits/circom/daEncrypt_cpp/calcwit.cpp:76-96 | The method is the step of the model, on the arrays. |
| InputLoader.CalcWit.LoadJson | zk/circuits/circom/daEncrypt_cpp/main.cpp:163-200 | Loading goes through exactly when every item has the right number of values and the calls go through, and leaves what the calls leave; an empty input runs the circuit only if there is nothing to set. |
| Montgomery.MMulMultiplies | zk/circuits/circom/daEncrypt_cpp/fr.cpp:235-275 | Multiplying stored forms gives the stored form of the product. |
| Montgomery.AllBits | zk/circuits/circom/daEncrypt_cpp/fr.cpp:255-256 | The bits the loop looks at are those of the little-endian scalar. |
| Montgomery.StartBitReads | zk/circuits/circom/daEncrypt_cpp/fr.cpp:260 | Where the signed 32-bit counter starts for a scalar of any size, and so how many bytes are looked at. |
| Montgomery.Exp | zk/circuits/circom/daEncrypt_cpp/fr.cpp:256-275 | The stored form of the power by the scalar, for scalars of up to 2^28 bytes; all zeros give one; the result may overwrite the base. For longer scalars, exactly the bytes the wrapped signed counter still reaches. |
| Montgomery.CubeRestores | zk/circuits/circom/daEncrypt_cpp/fr.cpp:245 | Multiplying by R cubed brings the inverse of a stored form back into stored form. |
| Montgomery.Inv | zk/circuits/circom/daEncrypt_cpp/fr.cpp:235-247 | The stored form of the inverse, for nonzero elements. |
| Montgomery.Div | zk/circuits/circom/daEncrypt_cpp/fr.cpp:249-253 | The stored form of the quotient, for nonzero divisors; the objects may coincide. |

## Left out

- HubBatchModel.TolerantIsStrictOnSuccesses: each item comes with what its receiver does; the strict run is compared with the same receivers' behaviour, so receivers that act on the gas left or on the batch they are in are not covered.
- HubContract.Hub.CollectFees: the owner accepts or refuses the fees; `transfer` leaves its code too little gas to call back.
- HumanIDPaymentsContract.HumanIDPayments.Live: a change of roles is one step to an arbitrary set of administrators; which role may grant which is OpenZeppelin's code and is not part of this model.
- Events, gas, token URI and Base64 text, and the getters that only return a field.
- Keccak, ECDSA recovery, Poseidon, EdDSA and curve arithmetic: their code is not in the repository; they are parameters.
- circomlib's source is not part of this model; `Num2Bits`, `LessThan`, `IsZero` and `IsEqual` are written down as their standard constraints. The same goes for `fr.asm`: `Fr_rawMMul` is x*y/R modulo q.
- ExpiryCheck.ExpiryWithinAYear: the other constraints of V3 (hashing, signature, address derivation) are gadgets of unseen libraries.
- Groth16.VerifyZoKrates: the constants of the verification key are a parameter; so are those of its many generated siblings. A precompile that runs out of gas is not modelled.
- Soroban archival and the host's caps on lifetimes: `StellarSafety.TtlExactly` is about the numbers handed to the host.
- Simulation.StellarRunsOnHub: only successful invocations are replayed, with receivers that accept without calling back, and Hub's operations with a fee or a zero receiver have no Stellar counterpart.
- InputLoader.CalcWit.LoadJson: items come as hashed names with their numbers; JSON parsing, number formats, nested arrays and the FNV hash are not modelled.
- InputLoader.CalcWit.TryRunCircuit: a run records what the circuit sees; what the generated code writes into other signals is not modelled, nor are its threads.
- `generate_position_array`, `flatArray`, and the JavaScript calculator's calls into its WebAssembly module, whose code is not part of this model.
- WitnessFile.WritersAgree: both writers get the same witness as numbers; the little-endian host and 32-bit counts are assumed.
- WitnessFile.WriteBinWitness: from 2^31 elements on the signed loop counter of the source overflows, and nothing is stated.
- WitnessFile.CalculateWtnsBin: data sections of 2^53 bytes and more, whose length JavaScript numbers do not hold exactly, are not modelled.
- HubBatch's events, and the ABI limits on array sizes.
- The Sui, Aztec, Verax, EAS and sandbox contracts, deployment scripts, TypeScript clients, deprecated circuits, and the remaining circuits (ElGamal, Pedersen, `subOrderCheck`, `twistedIsomorphism`).
