/** One transaction from end to end: its error or its gas, and every account and slot it leaves. */
module Outcome {
  import opened Wrappers
  import opened Primitives
  import opened Spec
  import opened L1Block
  import opened State
  import opened GasAccounting
  import opened Lifecycle
  import opened Ledger

  // ----- which transactions are rejected, and why

  /** Funds for `gas_limit * gas_price + value`, the product in 128 bits and the sum in 256. */
  function FundsError(tx: Tx, balance: u256): Option<Error> {
    var worst := Product(tx.gasLimit, tx.gasPrice) + tx.value;
    if Product(tx.gasLimit, tx.gasPrice) >= 0x1_0000_0000_0000_0000_0000_0000_0000_0000 || worst > U256_MAX then
      Some(OverflowPaymentInTransaction)
    else if worst > balance then Some(LackOfFundForMaxFee(worst, balance))
    else None
  }

  function RollupFeeError(st: EvmState, ctx: Context, tx: Tx, balance: u256): Option<Error> {
    if tx.caller == 0xffff_ffff_ffff_ffff_ffff_ffff_ffff_ffff_ffff_fffe then None
    else if tx.rlpBytes.None? then Some(MissingRlpBytes)
    else if !FeeInputsOk(ctx.cfg.spec, tx.FeeInputs()) then Some(Panicked(BadInput(ctx.cfg.spec, tx.FeeInputs())))
    else if RollupFeeOwed(st.db, ctx, tx) > balance then Some(LackOfFundForMaxFee(RollupFeeOwed(st.db, ctx, tx), balance))
    else None
  }

  /** Why a transaction is rejected, read off the state before it; None if it is included. */
  function RejectionReason(st: EvmState, ctx: Context, tx: Tx, revm: Revm): Option<Error> {
    var balance := st.Balance(tx.caller);
    if !revm.envValid then Some(InvalidEnv)
    else if revm.initialGas > tx.gasLimit then Some(CallGasCostMoreThanGasLimit)
    else if revm.floorGas > tx.gasLimit then Some(GasFloorMoreThanGasLimit)
    else if tx.txType == 0x7E then
      if ctx.cfg.spec.BeforeEuclid() && FundsError(tx, balance).Some? then FundsError(tx, balance)
      else if !ctx.cfg.eip3607Disabled && st.Account(tx.caller).code == Contract then Some(RejectCallerWithCode)
      else None
    else if !revm.senderValid(st.View()) then Some(InvalidSender)
    else if FundsError(tx, balance).Some? then FundsError(tx, balance)
    else
      RollupFeeError(st, ctx, tx, SaturatingSub(balance, GasCharge(ctx, tx)))
  }

  lemma MainnetError(st: EvmState, ctx: Context, tx: Tx, revm: Revm)
    ensures MainnetDeducted(st, ctx, tx, revm).error
         == if !revm.senderValid(st.View()) then Some(InvalidSender) else FundsError(tx, st.Balance(tx.caller))
  {
  }

  lemma RollupFeeErrorExact(st: EvmState, charged: EvmState, ctx: Context, tx: Tx)
    requires !tx.IsL1Msg() && charged.db == st.db
    requires tx.PaysRollupFee() ==> charged.chain == TryFetch(st.db.storage, ctx.cfg.spec)
    ensures RollupFeeError(st, ctx, tx, charged.Balance(tx.caller))
         == if tx.IsSystemTx() then None else RollupFeeDeducted(charged, ctx, tx).error
  {
    if tx.PaysRollupFee() {
      RollupFeeOutcome(charged, ctx, tx);
    }
  }

  lemma PreExecutionErrorExact(st: EvmState, ctx: Context, tx: Tx, revm: Revm)
    requires Validated(tx, revm).None?
    ensures PreExecuted(st, ctx, tx, revm).error == RejectionReason(st, ctx, tx, revm)
  {
    if !tx.IsL1Msg() {
      var snapshot := if tx.PaysRollupFee() then st.(chain := TryFetch(st.db.storage, ctx.cfg.spec)) else st;
      PreExecutionSplits(st, snapshot, ctx, tx, revm);
      MainnetError(snapshot, ctx, tx, revm);
      var gas := MainnetDeducted(snapshot, ctx, tx, revm);
      if gas.error.None? {
        MainnetDeductedExact(snapshot, ctx, tx, revm);
        assert gas.state.Balance(tx.caller) == SaturatingSub(st.Balance(tx.caller), GasCharge(ctx, tx));
        RollupFeeErrorExact(st, gas.state, ctx, tx);
      }
    }
  }

  /** Past pre-execution nothing fails: the reward reads the snapshot the deduction already priced. */
  lemma RewardCannotFail(st: EvmState, mid: EvmState, ctx: Context, tx: Tx, revm: Revm, gas: Gas)
    requires PreExecuted(st, ctx, tx, revm).error.None? && gas.Valid()
    requires mid.chain == PreExecuted(st, ctx, tx, revm).state.chain
    ensures Rewarded(mid, ctx, tx, gas).error.None?
  {
    if !tx.IsL1Msg() {
      PreExecutionExact(st, ctx, tx, revm);
    }
  }

  lemma PreExecutionKeepsDatabase(st: EvmState, ctx: Context, tx: Tx, revm: Revm)
    ensures PreExecuted(st, ctx, tx, revm).state.db == st.db
  {
  }

  /**
   * Every transaction is included or rejected with one error, both read off the state before it. One that
   * is rejected leaves database and journal as they were, unless it was a panic, which restores nothing.
   */
  lemma OutcomeExact(st: EvmState, ctx: Context, tx: Tx, revm: Revm)
    requires ExecutesOk(tx, revm)
    ensures var step := Transacted(st, ctx, tx, revm);
            match RejectionReason(st, ctx, tx, revm)
            case None => step.receipt.Included?
            case Some(error) =>
              && step.receipt == Rejected(error) && step.state.db == st.db
              && if error.Panicked? then step.state == PreExecuted(st, ctx, tx, revm).state
                 else step.state.journal == st.journal
  {
    if Validated(tx, revm).None? {
      PreExecutionErrorExact(st, ctx, tx, revm);
      var pre := PreExecuted(st, ctx, tx, revm);
      if pre.error.None? {
        var gas := FinalGas(revm.execute(pre.state.View()), tx, revm);
        RewardCannotFail(st, Executed(pre.state, revm).Credit(tx.caller, Reimbursement(ctx, tx, gas)), ctx, tx, revm, gas);
      } else {
        PreExecutionKeepsDatabase(st, ctx, tx, revm);
      }
    }
  }

  // ----- the gas of an included transaction

  function BurnedBy(e: Execution, tx: Tx): nat
    requires e.remaining <= tx.gasLimit
  {
    if e.result.Halt? then tx.gasLimit else tx.gasLimit - e.remaining
  }

  /** A fifth of the burned gas at most; a reverted frame's own counter is lost, a negative claim reads as unsigned. */
  function RefundTo(e: Execution, tx: Tx): nat
    requires e.remaining <= tx.gasLimit
  {
    var claim := (e.eip7702Refund + if e.result.Ok? then e.refunded else 0) % 0x1_0000_0000_0000_0000;
    Min(claim, BurnedBy(e, tx) / 5)
  }

  /** The record an ordinary transaction ends with: burned gas and the capped refund, or the calldata floor if that is more. */
  function SettledRecord(e: Execution, tx: Tx, floorGas: u64): Gas
    requires e.remaining <= tx.gasLimit && floorGas <= tx.gasLimit
  {
    var burned, refund := BurnedBy(e, tx), RefundTo(e, tx);
    if burned - refund < floorGas then Gas(tx.gasLimit, tx.gasLimit - floorGas, 0)
    else Gas(tx.gasLimit, tx.gasLimit - burned, refund)
  }

  lemma SettledRecordUses(e: Execution, tx: Tx, floorGas: u64)
    requires e.remaining <= tx.gasLimit && floorGas <= tx.gasLimit
    ensures var gas := SettledRecord(e, tx, floorGas);
            gas.Valid() && gas.Used() == Max(floorGas, BurnedBy(e, tx) - RefundTo(e, tx))
  {
  }

  lemma FlooredRecord(gasLimit: u64, burned: u64, refund: u64, floorGas: u64)
    requires floorGas <= gasLimit && burned <= gasLimit && refund <= burned / 5
    ensures AfterFloor(Gas(gasLimit, gasLimit - burned, refund), false, floorGas)
         == if burned - refund < floorGas then Gas(gasLimit, gasLimit - floorGas, 0) else Gas(gasLimit, gasLimit - burned, refund)
  {
  }

  lemma SameBurnAndRefund(e: Execution, tx: Tx, revm: Revm)
    requires ExecutionOk(e, tx, revm)
    ensures Burned(FrameGas(e, tx, revm), e.result, tx.gasLimit) == BurnedBy(e, tx)
    ensures Min(RefundClaim(FrameGas(e, tx, revm), e.result, e.eip7702Refund), BurnedBy(e, tx) / 5) == RefundTo(e, tx)
  {
  }

  lemma FinalGasExact(e: Execution, tx: Tx, revm: Revm)
    requires !tx.IsL1Msg() && ExecutionOk(e, tx, revm) && revm.floorGas <= tx.gasLimit
    ensures FinalGas(e, tx, revm) == SettledRecord(e, tx, revm.floorGas)
  {
    SameBurnAndRefund(e, tx, revm);
    RefundedExact(FrameGas(e, tx, revm), e.result, tx.gasLimit, e.eip7702Refund);
    FlooredRecord(tx.gasLimit, BurnedBy(e, tx), RefundTo(e, tx), revm.floorGas);
  }

  // ----- what settlement leaves alone

  /** Only balances differ, and only accounts in `written` are new to the journal. */
  ghost predicate OnlyBalancesMove(before: EvmState, after: EvmState, written: set<Address>) {
    && after.db == before.db && after.chain == before.chain
    && after.journal.storage == before.journal.storage
    && after.journal.accounts.Keys == before.journal.accounts.Keys + written
    && forall x :: after.Account(x).nonce == before.Account(x).nonce && after.Account(x).code == before.Account(x).code
  }

  lemma CreditMovesBalance(st: EvmState, a: Address, amount: u256)
    ensures OnlyBalancesMove(st, st.Credit(a, amount), {a})
  {
    ViewAfterSet(st, a, st.Account(a).(balance := SaturatingAdd(st.Balance(a), amount)));
  }

  /** Rewarding moves one balance and no nonce, code or slot. */
  lemma RewardMovesBalance(st: EvmState, ctx: Context, tx: Tx, gas: Gas)
    requires gas.Valid() && Rewarded(st, ctx, tx, gas).error.None?
    ensures OnlyBalancesMove(st, Rewarded(st, ctx, tx, gas).state, if tx.IsL1Msg() then {} else {ctx.block.beneficiary})
  {
    if !tx.IsL1Msg() {
      CreditMovesBalance(st, ctx.block.beneficiary, Reward(st, ctx, tx, gas).value);
    }
  }

  /** So settling a transaction of either kind moves the balances of caller and beneficiary alone. */
  lemma SettlementMovesBalances(st: EvmState, ctx: Context, tx: Tx, revm: Revm)
    requires ExecutesOk(tx, revm) && Transacted(st, ctx, tx, revm).receipt.Included?
    ensures OnlyBalancesMove(Executed(PreExecuted(st, ctx, tx, revm).state, revm), Transacted(st, ctx, tx, revm).state,
                             if tx.IsL1Msg() then {tx.caller} else {tx.caller, ctx.block.beneficiary})
  {
    var pre := PreExecuted(st, ctx, tx, revm).state;
    var gas := FinalGas(revm.execute(pre.View()), tx, revm);
    var back := Reimbursement(ctx, tx, gas);
    CreditMovesBalance(Executed(pre, revm), tx.caller, back);
    RewardMovesBalance(Executed(pre, revm).Credit(tx.caller, back), ctx, tx, gas);
  }

  // ----- every account and slot

  function PaidUpFront(st: EvmState, ctx: Context, tx: Tx): nat {
    if tx.txType == 0x7E then 0 else GasCharge(ctx, tx) + RollupFeeOwed(st.db, ctx, tx)
  }

  /** The caller once charged: only its balance and, for a call, its nonce change. */
  function ChargedAccount(st: EvmState, ctx: Context, tx: Tx): Account
    requires PaidUpFront(st, ctx, tx) <= st.Balance(tx.caller)
  {
    var account := st.Account(tx.caller);
    Account(account.balance - PaidUpFront(st, ctx, tx),
            if tx.isCall then Min(account.nonce + 1, U64_MAX) else account.nonce,
            account.code)
  }

  /** The state execution starts from: the caller charged, and for paying transactions the oracle read. */
  function Charged(st: EvmState, ctx: Context, tx: Tx): EvmState
    requires PaidUpFront(st, ctx, tx) <= st.Balance(tx.caller)
  {
    var pays := tx.txType != 0x7E && tx.caller != 0xffff_ffff_ffff_ffff_ffff_ffff_ffff_ffff_ffff_fffe;
    EvmState(st.db,
             World(st.journal.accounts[tx.caller := ChargedAccount(st, ctx, tx)], st.journal.storage),
             if pays then TryFetch(st.db.storage, ctx.cfg.spec) else st.chain)
  }

  function GasPaidAccount(account: Account, ctx: Context, tx: Tx): Account
    requires GasCharge(ctx, tx) <= account.balance
  {
    account.(balance := account.balance - GasCharge(ctx, tx), nonce := NonceAfter(account, tx))
  }

  lemma MainnetDeductedState(st: EvmState, ctx: Context, tx: Tx, revm: Revm)
    requires MainnetDeducted(st, ctx, tx, revm).error.None?
    ensures GasCharge(ctx, tx) <= st.Balance(tx.caller)
    ensures MainnetDeducted(st, ctx, tx, revm).state
         == st.SetAccount(tx.caller, GasPaidAccount(st.Account(tx.caller), ctx, tx))
  {
    ProductMonotone(tx.gasLimit, tx.EffectiveGasPrice(ctx.block.basefee), tx.gasLimit, tx.gasPrice);
  }

  lemma SetAccountTwice(st: EvmState, a: Address, first: Account, second: Account)
    ensures st.SetAccount(a, first).SetAccount(a, second) == st.SetAccount(a, second)
    ensures st.SetAccount(a, first).Account(a) == first
  {
    assert st.journal.accounts[a := first][a := second] == st.journal.accounts[a := second];
  }

  lemma RollupFeeDeductedState(st: EvmState, ctx: Context, tx: Tx)
    requires tx.PaysRollupFee() && RollupFeeDeducted(st, ctx, tx).error.None?
    requires st.chain == TryFetch(st.db.storage, ctx.cfg.spec)
    ensures RollupFeeOwed(st.db, ctx, tx) <= st.Balance(tx.caller)
    ensures RollupFeeDeducted(st, ctx, tx).state == st.SetAccount(tx.caller, st.Account(tx.caller).(
              balance := st.Balance(tx.caller) - RollupFeeOwed(st.db, ctx, tx)))
  {
    RollupFeeOutcome(st, ctx, tx);
  }

  lemma SecondDeduction(st: EvmState, ctx: Context, tx: Tx, gasPaid: Account)
    requires tx.PaysRollupFee() && st.chain == TryFetch(st.db.storage, ctx.cfg.spec)
    requires RollupFeeDeducted(st.SetAccount(tx.caller, gasPaid), ctx, tx).error.None?
    ensures RollupFeeOwed(st.db, ctx, tx) <= gasPaid.balance
    ensures RollupFeeDeducted(st.SetAccount(tx.caller, gasPaid), ctx, tx).state
         == st.SetAccount(tx.caller, gasPaid.(balance := gasPaid.balance - RollupFeeOwed(st.db, ctx, tx)))
  {
    SetAccountTwice(st, tx.caller, gasPaid, gasPaid);
    RollupFeeDeductedState(st.SetAccount(tx.caller, gasPaid), ctx, tx);
    SetAccountTwice(st, tx.caller, gasPaid, gasPaid.(balance := gasPaid.balance - RollupFeeOwed(st.db, ctx, tx)));
  }

  lemma GasThenFee(st: EvmState, ctx: Context, tx: Tx)
    requires tx.PaysRollupFee() && GasCharge(ctx, tx) <= st.Balance(tx.caller)
    requires RollupFeeOwed(st.db, ctx, tx) <= GasPaidAccount(st.Account(tx.caller), ctx, tx).balance
    ensures PaidUpFront(st, ctx, tx) <= st.Balance(tx.caller)
    ensures var gasPaid := GasPaidAccount(st.Account(tx.caller), ctx, tx);
            gasPaid.(balance := gasPaid.balance - RollupFeeOwed(st.db, ctx, tx)) == ChargedAccount(st, ctx, tx)
  {
  }

  lemma TwoDeductions(st: EvmState, ctx: Context, tx: Tx, revm: Revm)
    requires tx.PaysRollupFee() && st.chain == TryFetch(st.db.storage, ctx.cfg.spec)
    requires MainnetDeducted(st, ctx, tx, revm).error.None?
    requires RollupFeeDeducted(MainnetDeducted(st, ctx, tx, revm).state, ctx, tx).error.None?
    ensures PaidUpFront(st, ctx, tx) <= st.Balance(tx.caller)
    ensures RollupFeeDeducted(MainnetDeducted(st, ctx, tx, revm).state, ctx, tx).state
         == st.SetAccount(tx.caller, ChargedAccount(st, ctx, tx))
  {
    MainnetDeductedState(st, ctx, tx, revm);
    SecondDeduction(st, ctx, tx, GasPaidAccount(st.Account(tx.caller), ctx, tx));
    GasThenFee(st, ctx, tx);
  }

  lemma ChargedIsWrite(st: EvmState, snapshot: EvmState, ctx: Context, tx: Tx)
    requires tx.PaysRollupFee() && snapshot == st.(chain := TryFetch(st.db.storage, ctx.cfg.spec))
    requires PaidUpFront(snapshot, ctx, tx) <= snapshot.Balance(tx.caller)
    ensures PaidUpFront(st, ctx, tx) <= st.Balance(tx.caller)
    ensures Charged(st, ctx, tx) == snapshot.SetAccount(tx.caller, ChargedAccount(snapshot, ctx, tx))
  {
    assert snapshot.Account(tx.caller) == st.Account(tx.caller);
  }

  lemma PayingChargedExact(st: EvmState, ctx: Context, tx: Tx, revm: Revm)
    requires tx.PaysRollupFee() && PreExecuted(st, ctx, tx, revm).error.None?
    ensures PaidUpFront(st, ctx, tx) <= st.Balance(tx.caller)
    ensures PreExecuted(st, ctx, tx, revm).state == Charged(st, ctx, tx)
  {
    var snapshot := st.(chain := TryFetch(st.db.storage, ctx.cfg.spec));
    PreExecutionSplits(st, snapshot, ctx, tx, revm);
    TwoDeductions(snapshot, ctx, tx, revm);
    ChargedIsWrite(st, snapshot, ctx, tx);
  }

  lemma SystemChargedExact(st: EvmState, ctx: Context, tx: Tx, revm: Revm)
    requires !tx.IsL1Msg() && tx.IsSystemTx() && PreExecuted(st, ctx, tx, revm).error.None?
    ensures PaidUpFront(st, ctx, tx) <= st.Balance(tx.caller)
    ensures PreExecuted(st, ctx, tx, revm).state == Charged(st, ctx, tx)
  {
    PreExecutionSplits(st, st, ctx, tx, revm);
    MainnetDeductedState(st, ctx, tx, revm);
  }

  /** Everything an accepted transaction of any kind has changed before it executes. */
  lemma ChargedExact(st: EvmState, ctx: Context, tx: Tx, revm: Revm)
    requires PreExecuted(st, ctx, tx, revm).error.None?
    ensures PaidUpFront(st, ctx, tx) <= st.Balance(tx.caller)
    ensures PreExecuted(st, ctx, tx, revm).state == Charged(st, ctx, tx)
  {
    if tx.PaysRollupFee() {
      PayingChargedExact(st, ctx, tx, revm);
    } else if tx.IsSystemTx() && !tx.IsL1Msg() {
      SystemChargedExact(st, ctx, tx, revm);
    }
  }

  /** A panic strikes after the gas charge and unwinds past it: gas and nonce are gone, the rollup fee is not. */
  lemma PanicLeavesGasCharged(st: EvmState, ctx: Context, tx: Tx, revm: Revm)
    requires ExecutesOk(tx, revm) && RejectionReason(st, ctx, tx, revm).Some?
    requires RejectionReason(st, ctx, tx, revm).value.Panicked?
    ensures GasCharge(ctx, tx) <= st.Balance(tx.caller)
    ensures var account, after := st.Account(tx.caller), Transacted(st, ctx, tx, revm).state;
            && after.db == st.db && after.journal.storage == st.journal.storage
            && after.journal.accounts == st.journal.accounts[tx.caller :=
                 Account(account.balance - GasCharge(ctx, tx),
                         if tx.isCall then Min(account.nonce + 1, U64_MAX) else account.nonce,
                         account.code)]
  {
    OutcomeExact(st, ctx, tx, revm);
    PreExecutionErrorExact(st, ctx, tx, revm);
    var snapshot := st.(chain := TryFetch(st.db.storage, ctx.cfg.spec));
    PreExecutionSplits(st, snapshot, ctx, tx, revm);
    MainnetError(snapshot, ctx, tx, revm);
    MainnetDeductedState(snapshot, ctx, tx, revm);
    assert snapshot.Account(tx.caller) == st.Account(tx.caller);
  }

  // ----- the state an included transaction leaves

  /** What the view is after execution alone. */
  function ExecutedWorld(st: EvmState, ctx: Context, tx: Tx, revm: Revm): World
    requires PaidUpFront(st, ctx, tx) <= st.Balance(tx.caller)
  {
    var start := Charged(st, ctx, tx).View();
    Overlay(start, revm.execute(start).writes)
  }

  lemma ExecutedWorldExact(st: EvmState, ctx: Context, tx: Tx, revm: Revm)
    requires PreExecuted(st, ctx, tx, revm).error.None?
    ensures PaidUpFront(st, ctx, tx) <= st.Balance(tx.caller)
    ensures Executed(PreExecuted(st, ctx, tx, revm).state, revm).View() == ExecutedWorld(st, ctx, tx, revm)
  {
    ChargedExact(st, ctx, tx, revm);
    ExecutedView(Charged(st, ctx, tx), revm);
  }

  lemma IncludedPasses(st: EvmState, ctx: Context, tx: Tx, revm: Revm)
    requires ExecutesOk(tx, revm) && RejectionReason(st, ctx, tx, revm).None?
    ensures Validated(tx, revm).None? && PreExecuted(st, ctx, tx, revm).error.None?
    ensures Transacted(st, ctx, tx, revm).receipt.Included?
  {
    OutcomeExact(st, ctx, tx, revm);
  }

  /** Settlement changes no nonce and no code, of caller, beneficiary or anyone: they are what execution left. */
  lemma IncludedNonceAndCode(st: EvmState, ctx: Context, tx: Tx, revm: Revm, x: Address)
    requires ExecutesOk(tx, revm) && RejectionReason(st, ctx, tx, revm).None?
    ensures PaidUpFront(st, ctx, tx) <= st.Balance(tx.caller)
    ensures var after, executed := Transacted(st, ctx, tx, revm).state.Account(x), AccountAt(ExecutedWorld(st, ctx, tx, revm).accounts, x);
            after.nonce == executed.nonce && after.code == executed.code
  {
    IncludedPasses(st, ctx, tx, revm);
    ExecutedWorldExact(st, ctx, tx, revm);
    SettlementMovesBalances(st, ctx, tx, revm);
  }

  lemma IncludedStorage(st: EvmState, ctx: Context, tx: Tx, revm: Revm)
    requires ExecutesOk(tx, revm) && RejectionReason(st, ctx, tx, revm).None?
    ensures PaidUpFront(st, ctx, tx) <= st.Balance(tx.caller)
    ensures var after := Transacted(st, ctx, tx, revm).state;
            && after.db == st.db && after.chain == Charged(st, ctx, tx).chain
            && after.journal.storage == st.journal.storage + revm.execute(Charged(st, ctx, tx).View()).writes.storage
  {
    IncludedPasses(st, ctx, tx, revm);
    ChargedExact(st, ctx, tx, revm);
    SettlementMovesBalances(st, ctx, tx, revm);
  }

  lemma StorageOverlaid(base: Storage, journal: Storage, writes: Storage, a: Address, slot: u256)
    ensures StorageAt(base + (journal + writes), a, slot)
         == if (a, slot) in writes then writes[(a, slot)] else StorageAt(base + journal, a, slot)
  {
  }

  /** And every slot is the one execution wrote, or else the one there before. */
  lemma IncludedSlot(st: EvmState, ctx: Context, tx: Tx, revm: Revm, a: Address, slot: u256)
    requires ExecutesOk(tx, revm) && RejectionReason(st, ctx, tx, revm).None?
    ensures PaidUpFront(st, ctx, tx) <= st.Balance(tx.caller)
    ensures var written := revm.execute(Charged(st, ctx, tx).View()).writes.storage;
            StorageAt(Transacted(st, ctx, tx, revm).state.View().storage, a, slot)
            == if (a, slot) in written then written[(a, slot)] else StorageAt(st.View().storage, a, slot)
  {
    IncludedStorage(st, ctx, tx, revm);
    StorageOverlaid(st.db.storage, st.journal.storage, revm.execute(Charged(st, ctx, tx).View()).writes.storage, a, slot);
  }

  /** The gas charge less the price of the gas used is the price of the rest. */
  lemma UnusedGasReturned(price: nat, limit: nat, used: nat)
    requires used <= limit
    ensures Product(limit, price) - Product(price, used) == Product(price, limit - used)
  {
    MulDistributes(used, limit - used, price);
  }

  lemma ReimbursementExact(ctx: Context, tx: Tx, gas: Gas)
    requires SettlesLimit(gas, tx) && GasCharge(ctx, tx) <= U128_MAX
    ensures Reimbursement(ctx, tx, gas) == Product(tx.EffectiveGasPrice(ctx.block.basefee), tx.gasLimit - gas.Used())
  {
    ChargeSplits(ctx, tx, gas);
    UnusedGasReturned(tx.EffectiveGasPrice(ctx.block.basefee), tx.gasLimit, gas.Used());
  }

  /** What settlement credits: the price of the unused gas to the caller, price of the used and rollup fee to the beneficiary. */
  function Credits(st: EvmState, ctx: Context, tx: Tx, used: u64, x: Address): nat
    requires used <= tx.gasLimit
  {
    var price := tx.EffectiveGasPrice(ctx.block.basefee);
    (if x == tx.caller then Product(price, tx.gasLimit - used) else 0)
    + (if x == ctx.block.beneficiary then Product(price, used) + RollupFeeOwed(st.db, ctx, tx) else 0)
  }

  lemma CreditsExact(st: EvmState, ctx: Context, tx: Tx, gas: Gas, x: Address)
    requires !tx.IsL1Msg() && SettlesLimit(gas, tx) && GasCharge(ctx, tx) <= U128_MAX
    ensures Credits(st, ctx, tx, gas.Used(), x)
         == (if x == tx.caller then Reimbursement(ctx, tx, gas) else 0)
            + (if x == ctx.block.beneficiary then FeePaid(st, ctx, tx, gas) else 0)
  {
    ReimbursementExact(ctx, tx, gas);
  }

  lemma CreditedBalance(st: EvmState, ctx: Context, tx: Tx, revm: Revm, x: Address) returns (gas: Gas)
    requires Admissible(ctx, tx, revm) && st.Supply() <= U256_MAX
    requires !tx.IsL1Msg() && RejectionReason(st, ctx, tx, revm).None?
    ensures Validated(tx, revm).None? && PreExecuted(st, ctx, tx, revm).error.None?
    ensures SettlesLimit(gas, tx) && GasCharge(ctx, tx) <= U128_MAX
    ensures Transacted(st, ctx, tx, revm).receipt == Included(gas)
    ensures Transacted(st, ctx, tx, revm).state.Balance(x) == Executed(PreExecuted(st, ctx, tx, revm).state, revm).Balance(x)
              + (if x == tx.caller then Reimbursement(ctx, tx, gas) else 0)
              + (if x == ctx.block.beneficiary then FeePaid(st, ctx, tx, gas) else 0)
  {
    IncludedPasses(st, ctx, tx, revm);
    PreExecutionExact(st, ctx, tx, revm);
    var pre := PreExecuted(st, ctx, tx, revm).state;
    gas := FinalGas(revm.execute(pre.View()), tx, revm);
    ExecutedView(pre, revm);
    CreditsSettle(st, Executed(pre, revm), ctx, tx, gas);
  }

  lemma CreditsAdded(st: EvmState, ctx: Context, tx: Tx, revm: Revm, x: Address)
    requires Admissible(ctx, tx, revm) && st.Supply() <= U256_MAX
    requires !tx.IsL1Msg() && RejectionReason(st, ctx, tx, revm).None?
    ensures Validated(tx, revm).None? && PreExecuted(st, ctx, tx, revm).error.None?
    ensures Transacted(st, ctx, tx, revm).receipt.Included? && SettlesLimit(Transacted(st, ctx, tx, revm).receipt.gas, tx)
    ensures Transacted(st, ctx, tx, revm).state.Balance(x) == Executed(PreExecuted(st, ctx, tx, revm).state, revm).Balance(x)
              + Credits(st, ctx, tx, Transacted(st, ctx, tx, revm).receipt.gas.Used(), x)
  {
    var gas := CreditedBalance(st, ctx, tx, revm, x);
    CreditsExact(st, ctx, tx, gas, x);
  }

  /** Every balance is what execution left plus those credits. */
  lemma IncludedBalance(st: EvmState, ctx: Context, tx: Tx, revm: Revm, x: Address)
    requires Admissible(ctx, tx, revm) && st.Supply() <= U256_MAX
    requires !tx.IsL1Msg() && RejectionReason(st, ctx, tx, revm).None?
    ensures PaidUpFront(st, ctx, tx) <= st.Balance(tx.caller)
    ensures var step := Transacted(st, ctx, tx, revm);
            && step.receipt.Included? && step.receipt.gas.Valid() && step.receipt.gas.Used() <= tx.gasLimit
            && step.state.Balance(x)
            == BalanceOf(ExecutedWorld(st, ctx, tx, revm).accounts, x) + Credits(st, ctx, tx, step.receipt.gas.Used(), x)
  {
    CreditsAdded(st, ctx, tx, revm, x);
    ExecutedWorldExact(st, ctx, tx, revm);
  }

  /** And its receipt: what the execution burned from that charged state, less the refund, or the floor. */
  lemma IncludedGas(st: EvmState, ctx: Context, tx: Tx, revm: Revm)
    requires ExecutesOk(tx, revm) && !tx.IsL1Msg() && RejectionReason(st, ctx, tx, revm).None?
    ensures PaidUpFront(st, ctx, tx) <= st.Balance(tx.caller)
    ensures var e, receipt := revm.execute(Charged(st, ctx, tx).View()), Transacted(st, ctx, tx, revm).receipt;
            && receipt == Included(SettledRecord(e, tx, revm.floorGas))
            && receipt.gas.Valid() && receipt.gas.Used() == Max(revm.floorGas, BurnedBy(e, tx) - RefundTo(e, tx))
  {
    IncludedPasses(st, ctx, tx, revm);
    ChargedExact(st, ctx, tx, revm);
    FinalGasExact(revm.execute(Charged(st, ctx, tx).View()), tx, revm);
    SettledRecordUses(revm.execute(Charged(st, ctx, tx).View()), tx, revm.floorGas);
  }

  // ----- prices and reads

  /** Legacy and access-list transactions pay their price, later ones no more than base fee and tip; the sum never saturates visibly. */
  lemma PriceExact(tx: Tx, basefee: u64)
    ensures tx.EffectiveGasPrice(basefee) ==
            if tx.txType > 1 && tx.maxPriorityFee.Some? then Min(tx.gasPrice, basefee + tx.maxPriorityFee.value) else tx.gasPrice
  {
  }

  /** The view reads the journal first, then the database, and what neither holds is empty or zero. */
  lemma ViewReads(st: EvmState, a: Address, slot: u256)
    ensures st.Account(a) ==
            if a in st.journal.accounts then st.journal.accounts[a]
            else if a in st.db.accounts then st.db.accounts[a]
            else Account(0, 0, NoCode)
    ensures StorageAt(st.View().storage, a, slot) ==
            if (a, slot) in st.journal.storage then st.journal.storage[(a, slot)]
            else if (a, slot) in st.db.storage then st.db.storage[(a, slot)]
            else 0
  {
  }
}
