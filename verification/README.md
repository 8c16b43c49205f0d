# A verified model of the Scroll EVM

scroll-revm adapts revm to the Scroll rollup: it charges a rollup (L1 data) fee on top of gas, treats L1
messages and system transactions specially, overrides some opcodes, and layers precompile tables by fork.
This project models that logic in Dafny and proves what it guarantees.

| file | models | in the form of |
|---|---|---|
| `Primitives.dfy`, `Bits.dfy`, `Wrappers.dfy` | machine words, saturating arithmetic, floor division, big-endian integers | functions and lemmas |
| `Spec.dfy` | `src/spec.rs`: the fork order | a datatype |
| `L1Block.dfy` | `src/l1block.rs`: oracle fetch, the four fee formulas, the cap, every panic | functions |
| `RollupFee.dfy`, `FeeLaws.dfy` | what that fee means, over the rationals, and the laws it obeys | lemmas |
| `State.dfy`, `Gas.dfy`, `Lifecycle.dfy` | accounts, database and journal, the gas record, each phase of a transaction | specification functions |
| `Handler.dfy` | `src/handler.rs`, `src/exec.rs`: the phases as mutations of `ScrollEvm` and `FrameResult` | classes and methods, proved against `Lifecycle` and `Gas` |
| `Ledger.dfy` | balances, nonces and supply over transactions and runs of them | lemmas |
| `Outcome.dfy` | one transaction from end to end: why it is rejected, or its gas and every account and slot it leaves | lemmas |
| `Interpreter.dfy` | `src/instructions.rs`: BLOCKHASH, MCOPY, CLZ | a class, proved against functions |
| `History.dfy`, `MemoryLaws.dfy` | the history ring buffer against the chain; MCOPY as memmove; memory gas over runs | lemmas |
| `Modexp.dfy` | `src/precompile/modexp.rs`: header parsing, limits, prices | functions and lemmas |
| `Precompiles.dfy` | `src/precompile/mod.rs`: layered tables, `set_spec` | functions and a class |

## What is assumed about revm

The crate calls into revm, whose code is not part of this model. The following is taken from revm's
behaviour and from the Specification sections of the EIPs named.

- The gas record: `spent = limit - remaining`, `used = spent - refunded`; `new_spent`, `erase_cost`,
  `record_refund`, `set_spent` as in `Gas`. The final refund adds the EIP-7702 refund and is capped at a fifth
  of the gas spent (EIP-3529), reading the counter `as u64`.
- The calldata floor (EIP-7623): using less than the floor means spending the floor with no refund.
- revm's deduction: the sender's nonce and code (a Boolean of the state, `senderValid`), the worst case
  `gas_limit * gas_price` in 128 bits plus the value against the balance, then the gas limit at the effective
  price, then the nonce of a call.
- Reimbursement: `effective_price * (remaining + refunded)`, saturating in 128 bits. Crediting saturates in 256 bits.
- Validation before any state is touched: environment checks (a Boolean), intrinsic gas and floor at most the gas limit.
- Execution, together with the EIP-7702 authorization list, is an arbitrary function of the EVM's view returning
  journal writes, a result, gas left and two refunds. Runs assume it creates and destroys no balance.
- On an error the journal is put back to where the transaction found it. A panic unwinds past that.
- Memory gas, the order of MCOPY's halts, and `run_inner` with its prices (EIP-198, EIP-2565, EIP-7823, EIP-7883).
- Storage never written reads zero. The history contract stores the parent's hash on entry to every block from its
  activation block on (EIP-2935).

The total supply is assumed to fit 256 bits where a lemma says so (`Supply() <= U256_MAX`).

## What turned out to need a condition

- An L1 message pays nothing up front but is reimbursed at its effective price. With a non-zero price that mints
  `price * remaining`: `Ledger.PricedL1MessageMints` is a message that mints 1000. Before the call, a message is
  certain to conserve the supply exactly if its effective price is zero, or its gas limit is its intrinsic gas, or
  no account has room for another wei (`Ledger.L1MessageNeutralIff`); `Ledger.L1MessageSettled` gives the amount in
  every case. Runs require L1 messages at gas price zero, as one test sends them (`src/tests/l1_message.rs:166`).
- The pre-Curie byte fold is a 64-bit sum. An optimised build wraps, first at 2^60 non-zero bytes. Over encodings of
  every length the documented formula is charged (`RollupFee.ChargesAsDocumentedIff`), and the fee is monotone in its
  calldata (`FeeLaws.MonotoneInCalldataIff`), exactly where the base fee or the scalar is zero or the overhead alone
  reaches the cap. Where the count fits 64 bits both always hold.
- In Feynman, compressing better never costs more, over all encodings, exactly if the threshold is at most one, or the
  penalty factor at least one, or bytes are free, or the penalised fee of one byte is capped
  (`FeeLaws.CompressionRewardedIff`); `FeeLaws.ZeroFactorPunishesCompression` is an oracle where it does.
- Galileo's MODEXP accepts what Bernoulli's accepts only if the gas limit covers its higher price
  (`Modexp.GalileoExtendsBernoulli`, `Modexp.SameLimitCanFail`).
- BLOCKHASH cuts its operand to 64 bits for the slot index, so all larger operands read one slot.
  `History.SaturatedRequestReadsNeighbour` is a request that gets another block's hash. In block n every operand is
  answered right, in every chain, exactly if n is at most 2^64 or nothing has been recorded yet
  (`History.BlockHashExactIff`); request by request `History.RequestExactIff` says when.
- MCOPY's memory gas saturates in 64 bits and is the unbounded formula exactly below 2^32 words (`MemoryLaws.RunGasExactIff`).
- A rejected transaction leaves the journal as it found it, unless its fee inputs violate an assert: that panic unwinds
  past the gas charge already made (`Outcome.PanicLeavesGasCharged`). `Outcome.RejectionReason` gives the inputs.
- The field comment at `src/l1block.rs:77` names the blob scalar for `calldata_gas`; the code at
  `src/l1block.rs:108` multiplies the commit scalar, and so does the model.

## Model

| member | source | states |
|---|---|---|
| Spec.EnabledFromActivationOn | src/spec.rs:7-35 | a fork is enabled in exactly itself and the forks activated after it; the laws below name the forks instead |
| RollupFee.FeeIsIdealFloorCapped | src/l1block.rs:87-328 | for every oracle state, fetch fork, fee fork and acceptable transaction, the fee is the rational formula documented for that fork by name, over the oracle slots by number and the counted bytes, floored once and capped at 2^64 - 1: saturation and intermediate divisions never show; unless a pre-Curie count wraps, the counted bytes are the bytes |
| RollupFee.ChargesAsDocumentedIff | src/l1block.rs:142-164 | for which oracles the documented formula is charged on encodings of every length: exactly from Curie on, or where calldata is free or the overhead alone reaches the cap |
| RollupFee.WrapUndercharges | src/l1block.rs:144-146 | elsewhere an encoding whose count wraps to nothing pays as little as an empty one, and less than documented |
| RollupFee.ShanghaiFee | src/l1block.rs:158-164 | pre-Curie, on encodings of every length: saturated products divided by the precision and capped equal the exact quotient capped, of the byte count modulo 2^64 |
| RollupFee.CurieFee | src/l1block.rs:166-171 | Curie to Euclid: calldata plus blob component, likewise exact up to the cap |
| RollupFee.FeynmanFee | src/l1block.rs:173-249 | Feynman: size, fee per byte and penalty, likewise exact up to the cap |
| RollupFee.GalileoFee | src/l1block.rs:251-303 | Galileo: the two-term formula equals one exact quotient up to the cap |
| RollupFee.GalileoSaturation | src/l1block.rs:295-302 | a saturated penalty product, divided by any factor, still ends at the cap because the compressed size is below 2^64 |
| RollupFee.GalileoSingleFloor | src/l1block.rs:284-302 | the inner division by the penalty factor and the outer one by the precision are a single floor |
| RollupFee.FeynmanSingleFloor | src/l1block.rs:244-248 | the two divisions by 10^9 are one division by 10^18 |
| RollupFee.IdealFeeIsQuotient | src/l1block.rs:257-263 | the rational formulas of all forks are integer quotients with the stated denominators |
| RollupFee.FoldCountsBytes | src/l1block.rs:144-146 | the 64-bit fold is 4 per zero byte and 16 per other byte modulo 2^64, from any accumulator |
| RollupFee.DataGasFoldExact | src/l1block.rs:142-148 | the fold is exact exactly when the count fits 64 bits, in particular below 2^60 bytes |
| RollupFee.DataGasFoldConcat | src/l1block.rs:140-146 | the fold of a concatenation is the sum of the folds modulo 2^64 |
| RollupFee.DataGasFoldPermutation | src/l1block.rs:144-146 | the fold does not depend on byte order, wrap-around included |
| L1Block.PanicsExactlyOnBadInputs | src/l1block.rs:207-228 | the computation panics exactly when the transaction's own ratio or size is missing or violates its fork's assert, and with which of these; no missing oracle field is reachable |
| L1Block.FetchForkIrrelevant | src/l1block.rs:87-138 | info fetched under a later fork gives the same fee, panics included, as info fetched under the fee's fork |
| L1Block.EarlierFetchMissesFields | src/l1block.rs:96-127 | info fetched under an earlier fork fails exactly across the Curie or Feynman boundary |
| FeeLaws.FeeMonotone | src/l1block.rs:142-328 | in every fork and on encodings of every length the fee is monotone in each price, scalar and charged quantity the fork uses (pre-Curie: the 64-bit fold); Galileo falls with the penalty factor; Feynman falls with the ratio if the penalty factor is at least 10^9 |
| FeeLaws.MonotoneInCalldataIff | src/l1block.rs:142-164 | for which oracles the pre-Curie fee is monotone in its calldata over encodings of every length |
| FeeLaws.CompressionRewardedIff | src/l1block.rs:238-248 | for which oracles a better Feynman ratio never costs more on any encoding: exactly where the threshold is at most 10^9, the factor at least 10^9, bytes are free, or the penalised fee of one byte is capped |
| FeeLaws.ZeroFactorPunishesCompression | src/l1block.rs:238-242 | a given oracle and encoding for which the ratio 10^9 is free and the ratio 2 * 10^9 costs 10^9 |
| FeeLaws.SplittingNeverCostsMore | src/l1block.rs:290-302 | two Galileo transactions together cost no more than one of the combined compressed size, through both floors and the cap |
| FeeLaws.QuotedGalileoFees | src/l1block.rs:336-355 | the charged fee is the quoted one at all five sizes |
| FeeLaws.FlatOracleFees | src/tests/fees.rs:17-51 | four bytes at the oracle of the tests cost 1012 in Shanghai and Bernoulli, 40000 in Curie, Darwin and Euclid |
| FeeLaws.PenalisedFeynmanFee | src/tests/fees.rs:103-138 | a hundred bytes short of the threshold cost 6000, and 3000 at it |
| GasAccounting.GasPartition | src/handler.rs:179-231 | remaining, used and refunded gas add up to the limit for any frame result and counters; used gas is the burned gas less the capped refund, or the floor if larger |
| GasAccounting.L1MessageGas | src/handler.rs:190-228 | an L1 message uses exactly what it burned: no refund of either kind, no floor |
| Handler.LastFrameResult | src/handler.rs:179-202 | rewrites the frame's gas in place as the settlement function of the old record |
| Handler.Refund | src/handler.rs:219-231 | adds and caps the refund in place, not for L1 messages |
| Handler.Eip7623CheckGasFloor | src/handler.rs:205-216 | applies the calldata floor in place, not for L1 messages |
| Handler.ValidateAgainstStateAndDeductCaller | src/handler.rs:77-176 | leaves exactly the specified journal and error, on every path, partial deductions included |
| Handler.PreExecution | src/handler.rs:62-74 | takes the oracle snapshot from the committed database for paying transactions only, then deducts |
| Handler.RewardBeneficiary | src/handler.rs:233-280 | credits the beneficiary the gas fee and the rollup fee recomputed from the snapshot; nothing for L1 messages |
| Handler.Run | src/handler.rs:62-281 | all phases in order; the final state and receipt are the specified ones, with the journal restored on errors |
| Handler.ScrollEvm.TransactOne | src/exec.rs:61-65 | one transaction; it conserves the supply and a rejected one leaves the journal as it was |
| Handler.ScrollEvm.Finalize | src/exec.rs:67-69 | hands out the journal and empties it |
| Handler.ScrollEvm.Commit | src/exec.rs:88-90 | writes handed-out changes to the database |
| Ledger.PreExecutionExact | src/handler.rs:96-123 | an accepted transaction's caller has paid exactly `gas_limit * price + l1_cost`, without saturation; no other balance moved |
| Ledger.PreExecutionAcceptedIff | src/handler.rs:89-123 | exactly when a paying or system transaction passes pre-execution |
| Ledger.RollupFeeOutcome | src/handler.rs:99-122 | exactly when the rollup fee stops a transaction already charged for gas, and that a shortfall reports the fee and the balance left |
| Ledger.RewardIsFeePaid | src/handler.rs:246-276 | the reward never saturates and is used gas at the effective price plus the deducted rollup fee |
| Ledger.ChargeEqualsReward | src/handler.rs:98-122 | the rollup fee deducted before execution is the one credited after it, whatever the journal then holds, oracle slots included |
| Ledger.FeeOwedIsIdeal | src/handler.rs:107-112 | the fee owed is the documented formula of the counted bytes over the committed oracle slots, floored and capped; unless a pre-Curie count wraps, the counted bytes are the bytes |
| Ledger.JournalDoesNotMoveFee | src/handler.rs:64-68 | under any other journal over the same database, a transaction accepted under both is deducted the same amount and earns the same reward for the same gas |
| Ledger.CommitMovesFee | src/handler.rs:64-68 | after finalize and commit a transaction is deducted the fee of the oracle slots that were in view |
| Ledger.StaleSnapshotIrrelevant | src/handler.rs:63-68 | no outcome depends on the snapshot an earlier transaction left behind |
| Ledger.SettledExact | src/handler.rs:178-280 | the effect of an included paying or system transaction on every balance and on the supply |
| Ledger.L1MessagePreExecution | src/handler.rs:125-174 | an L1 message moves no balance before execution, its sender is no contract when EIP-3607 is on, its call nonce rises by one below saturation |
| Ledger.L1MessageAcceptedIff | src/handler.rs:125-174 | exactly when an L1 message passes pre-execution: by code, and before Euclid by funds |
| Ledger.L1MessageSettled | src/handler.rs:190-244 | the whole effect of an L1 message at any price: used gas, no reward, and the amount minted by reimbursement |
| Ledger.L1MessageNeutralIff | src/handler.rs:190-244 | before the call: every admissible execution of an L1 message conserves the supply exactly if the effective price is zero, or the gas limit is the intrinsic gas, or every account already holds 2^256 - 1 |
| Ledger.IdleL1MessageMints | src/handler.rs:190-244 | against an execution that does nothing, an L1 message mints its price times all gas beyond the intrinsic part |
| Ledger.PricedL1MessageMints | src/handler.rs:190-244 | a given message at price 1 takes an empty chain from supply 0 to 1000 |
| Ledger.TransactionLedger | src/handler.rs:62-281 | one transaction of any kind, accepted or rejected: supply unchanged, every balance moved by execution, fee paid and fee earned only |
| Ledger.RunConservesSupply | src/exec.rs:61-90 | over any run of transactions and commits the supply is unchanged |
| Ledger.RunLedger | src/exec.rs:61-90 | over any run every balance is the initial one plus what execution moved, less fees paid, plus fees earned, caller and beneficiary coinciding or not |
| Ledger.CommitKeepsView | src/exec.rs:67-90 | finalize and commit leave what the EVM sees unchanged, with an empty journal |
| Outcome.OutcomeExact | src/handler.rs:62-281 | every transaction is included or rejected with one error, both read off the state before it; a rejection that is no panic leaves database and journal as they were |
| Outcome.ChargedExact | src/handler.rs:77-176 | the whole state an accepted transaction of any kind executes from: the caller charged, its call nonce up by one, its code kept, the oracle read for paying transactions only |
| Outcome.PanicLeavesGasCharged | src/handler.rs:89-112 | a panic on bad fee inputs unwinds past the gas charge and the new nonce, and past nothing else |
| Outcome.IncludedGas | src/handler.rs:179-231 | the receipt of an included paying or system transaction: what its execution burned less at most a fifth refunded, or the calldata floor if that is more |
| Outcome.RewardMovesBalance | src/handler.rs:275-277 | rewarding moves one balance and no nonce, code or slot |
| Outcome.IncludedNonceAndCode | src/handler.rs:178-280 | after an included transaction of any kind every nonce and code is the one execution left |
| Outcome.IncludedSlot | src/handler.rs:178-280 | and every slot is the one execution wrote, or else the one there before |
| Outcome.IncludedBalance | src/handler.rs:178-280 | and, paying or system, every balance is what execution left, plus the price of the unused gas at the caller, plus the price of the used gas and the rollup fee at the beneficiary |
| Outcome.PriceExact | src/handler.rs:248 | types 0 and 1 pay the stated price, later ones at most base fee plus tip; 128-bit saturation of that sum never shows |
| Outcome.ViewReads | src/handler.rs:113 | reads find the journal, then the database, then an empty account or zero |
| Interpreter.Interpreter.Blockhash | src/instructions.rs:99-147 | replaces the operand by the specified hash or halts |
| Interpreter.Interpreter.Mcopy | src/instructions.rs:214-238 | pops three operands, charges, grows memory and copies in place, or halts, as specified on every path |
| Interpreter.Interpreter.Clz | src/instructions.rs:253-265 | replaces the operand by its leading zero count from Galileo on, halts before |
| Interpreter.LeadingZerosLocateTopBit | src/instructions.rs:263-264 | the count locates the highest set bit and is 256 only for zero |
| Interpreter.ClzExact | src/instructions.rs:253-265 | from Galileo on the top operand gives way to the position of its highest set bit and nothing else changes; before, NotActivated |
| History.RequestExactIff | src/instructions.rs:105-146 | for which requests BLOCKHASH is, in every chain of n blocks, the lookup in the unbounded history (true hashes of the last 256 recorded blocks, zero for all others): all 64-bit ones and all outside the window, and beyond that only the block owning the one slot then read, or where neither was recorded |
| History.RingHoldsWindow | src/instructions.rs:135-144 | each of the last 8191 blocks still owns its ring slot: its hash, or zero if it was never recorded |
| History.BlockHashExactIff | src/instructions.rs:105-146 | for which block numbers that holds of every operand: exactly up to 2^64, or before activation |
| History.SaturatedRequestReadsNeighbour | src/instructions.rs:136-144 | in block 2^64 + 1 the request for block 2^64 is answered with the hash of block 2^64 - 1 |
| History.PreimageInjective | src/instructions.rs:273-278 | distinct chain ids or block numbers hash distinct strings |
| History.PreFeynmanHashesDistinct | src/instructions.rs:113-124 | before Feynman, under a collision-free hash, in-window requests get equal answers exactly for equal chain ids and block numbers, both cut to 64 bits |
| History.PreimageBytes | src/instructions.rs:273-276 | the hashed string, byte by byte: chain id, then block number, most significant byte first |
| History.BlockHashReplacesTop | src/instructions.rs:99-147 | on every stack, host and fork: only the top operand is read and only it is replaced, by what in which case, or which halt |
| History.BlockHashOpcodeExact | src/instructions.rs:99-147 | against a chain the top operand gives way to the recorded hash of its block |
| MemoryLaws.McopyIsMemmove | src/instructions.rs:222-237 | a completed MCOPY is memmove on zero-extended memory, overlapping or not; every other byte stays and memory never shrinks |
| MemoryLaws.McopyHaltsCleanly | src/instructions.rs:217-235 | any halt leaves memory unchanged and takes all three operands or none; a zero length never halts on its offsets |
| MemoryLaws.McopyCompletesIff | src/instructions.rs:217-235 | exactly when an MCOPY completes: fork, operands, size and gas |
| MemoryLaws.McopyStatusExact | src/instructions.rs:214-235 | which halt comes first, and otherwise that it completes |
| MemoryLaws.McopyGas | src/instructions.rs:225-235 | a completed MCOPY costs its copied words plus the growth of the memory cost |
| MemoryLaws.ExpansionTelescopes | src/instructions.rs:225-237 | over any completed run the gas is the copy costs plus the memory cost of the peak less that of the start |
| MemoryLaws.RunCompletesIff | src/instructions.rs:217-237 | before the run: it completes exactly if MCOPY exists, every copy fits memory, and the gas covers the copy costs plus the growth to the peak |
| MemoryLaws.RunGasExactIff | src/instructions.rs:225-237 | that total is the unbounded-integer formula exactly if the peak is below 2^32 words or nothing grew; less than 2^55 gas cannot reach that size |
| MemoryLaws.RunGasOrderFree | src/instructions.rs:225-237 | if one order of the copies completes, every order does, with the same gas left and the same memory size |
| MemoryLaws.FirstByteCostsNine | src/instructions.rs:359 | the one-byte copy on fresh memory costs nine gas, and how it fails with less |
| Modexp.BernoulliExact | src/precompile/modexp.rs:33-51 | on inputs of every length: which limit error comes first, and otherwise the EIP-2565 price and the EIP-198 answer |
| Modexp.RunInnerExact | src/precompile/modexp.rs:49-50 | slicing and padding the input reads the same integers as the endless zero-extended input |
| Modexp.GalileoExact | src/precompile/modexp.rs:22 | on inputs of every length: which error comes first, and otherwise the EIP-7883 price and the EIP-198 answer |
| Modexp.AnswerIsLossless | src/precompile/modexp.rs:49-50 | the bytes answered are exactly as long as the modulus and encode the whole power |
| Modexp.AnswersReducedPower | src/precompile/modexp.rs:49-50 | in both forks the answer, as an integer, is base to the exponent reduced by the modulus, zero for a zero modulus |
| Modexp.KnownPowers | src/precompile/modexp.rs:60-180 | 3^5 mod 7, 2^3 mod 5 and 5^0 mod 13 as the tests expect them, in both forks, for 200 and 500 gas |
| Modexp.PricesExact | src/precompile/modexp.rs:22-50 | both prices in closed form over words of the longer operand and binary digits of the exponent's head |
| Modexp.BernoulliGasRange | src/precompile/modexp.rs:33-51 | the 32-byte limits keep Bernoulli's price in [200, 1360], and Galileo's for the same call between that and 4080 |
| Modexp.GalileoExtendsBernoulli | src/precompile/modexp.rs:90-105 | whatever Bernoulli accepts, Galileo answers identically at no lower a price, exactly when the limit covers it |
| Modexp.SameLimitCanFail | src/precompile/modexp.rs:22 | a concrete input and limit that Bernoulli accepts and Galileo does not |
| Precompiles.TablesGrowAlongForks | src/precompile/mod.rs:55-113 | addresses are only added; an address changes between two forks exactly if one of its own forks lies between |
| Precompiles.ClosedForm | src/precompile/mod.rs:28-113 | what every address runs in every fork, by number and by name |
| Precompiles.ProviderDeterminedBySpec | src/precompile/mod.rs:28-37 | after any sequence of spec changes the provider is a fresh one for the last spec |
| Precompiles.ScrollPrecompileProvider.SetSpec | src/precompile/mod.rs:122-128 | true exactly when the spec changed; a provider in step with its spec becomes a fresh one |

## Left out

- The EVM interpreter, signature checks, access lists and the EIP-7702 authorization list live in revm; execution is a parameter.
- Database errors: reads always succeed, except that BLOCKHASH may find the history contract unloadable.
- revm's optional switches (disabled balance check, memory limit) and blob transactions, since every Scroll fork maps to Shanghai.
- `run_system_call` (`src/system_call.rs`), which skips validation, deduction and reward altogether.
- BASEFEE, TLOAD, TSTORE, DIFFICULTY and SELFDESTRUCT: one fork test and a host call each. Static opcode gas is charged by revm's loop.
- Hash functions, curve and signature precompiles: foreign code; Keccak is an arbitrary function. `bn254.rs`, `hash.rs` and `blake2.rs` appear only as table entries.
- Account warming (`load_accounts`) and touch marks: they move no balance, nonce or storage value.
- `set_block` (`src/exec.rs:57-59`): one assignment; runs take each transaction's block as a parameter.
- Spec names, the builder, inspectors and type plumbing: finite tables and delegation.
- An integer overflow in the byte fold panics in an unoptimised build; the model wraps, as an optimised build does.
- Handler.PreExecution: account loading and the EIP-7702 list are part of the execution parameter, and database errors do not occur.
- Interpreter.Interpreter.Mcopy: one frame's memory, not the buffer revm shares between frames; a vector past `isize::MAX` bytes is a halt of its own, standing for the allocation panic.
