/** What transactions, and whole runs of them, do to balances, nonces and the supply. */
module Ledger {
  import opened Wrappers
  import opened Primitives
  import opened Spec
  import opened L1Block
  import opened RollupFee
  import opened State
  import opened GasAccounting
  import opened Lifecycle

  // ----- single writes

  lemma ViewAfterSet(st: EvmState, a: Address, account: Account)
    ensures var after := st.SetAccount(a, account);
            && after.View() == World(st.View().accounts[a := account], st.View().storage)
            && after.Supply() == st.Supply() - st.Balance(a) + account.balance
            && forall x :: after.Account(x) == if x == a then account else st.Account(x)
  {
    assert st.db.accounts + st.journal.accounts[a := account] == st.View().accounts[a := account];
    SupplyUpdate(st.View().accounts, a, account);
  }

  /** Crediting within the supply bound never saturates. */
  lemma CreditExact(st: EvmState, a: Address, amount: u256)
    requires st.Supply() + amount <= U256_MAX
    ensures var after := st.Credit(a, amount);
            && after.Supply() == st.Supply() + amount
            && forall x :: after.Balance(x) == st.Balance(x) + if x == a then amount else 0
  {
    BalanceWithinSupply(st.View().accounts, a);
    ViewAfterSet(st, a, st.Account(a).(balance := SaturatingAdd(st.Balance(a), amount)));
  }

  // ----- pre-execution

  function GasCharge(ctx: Context, tx: Tx): nat {
    Product(tx.gasLimit, tx.EffectiveGasPrice(ctx.block.basefee))
  }

  /** The rollup fee owed under the committed oracle slots. */
  function RollupFeeOwed(db: World, ctx: Context, tx: Tx): u64 {
    if !tx.PaysRollupFee() then 0 else
    match RollupCost(TryFetch(db.storage, ctx.cfg.spec), ctx, tx)
    case Failure(_) => 0
    case Success(cost) => cost
  }

  function NonceAfter(account: Account, tx: Tx): u64 {
    if tx.isCall then BumpNonce(account.nonce) else account.nonce
  }

  lemma MainnetDeductedExact(st: EvmState, ctx: Context, tx: Tx, revm: Revm)
    requires MainnetDeducted(st, ctx, tx, revm).error.None?
    ensures var after := MainnetDeducted(st, ctx, tx, revm).state;
            && tx.gasLimit * tx.gasPrice <= U128_MAX && GasCharge(ctx, tx) <= U128_MAX
            && after.Supply() == st.Supply() - GasCharge(ctx, tx)
            && after.db == st.db && after.chain == st.chain && after.View().storage == st.View().storage
            && after.Account(tx.caller).nonce == NonceAfter(st.Account(tx.caller), tx)
            && forall x :: after.Balance(x) == st.Balance(x) - if x == tx.caller then GasCharge(ctx, tx) else 0
  {
    ProductMonotone(tx.gasLimit, tx.EffectiveGasPrice(ctx.block.basefee), tx.gasLimit, tx.gasPrice);
    ViewAfterSet(st, tx.caller, MainnetDeducted(st, ctx, tx, revm).state.journal.accounts[tx.caller]);
  }

  lemma RollupFeeDeductedExact(st: EvmState, ctx: Context, tx: Tx)
    requires RollupFeeDeducted(st, ctx, tx).error.None?
    ensures RollupCost(st.chain, ctx, tx).Success?
    ensures var after, cost := RollupFeeDeducted(st, ctx, tx).state, RollupCost(st.chain, ctx, tx).value;
            && after.Supply() == st.Supply() - cost
            && after.db == st.db && after.chain == st.chain && after.View().storage == st.View().storage
            && after.Account(tx.caller).nonce == st.Account(tx.caller).nonce
            && forall x :: after.Balance(x) == st.Balance(x) - if x == tx.caller then cost else 0
  {
    ViewAfterSet(st, tx.caller, RollupFeeDeducted(st, ctx, tx).state.journal.accounts[tx.caller]);
  }

  /**
   * A transaction accepted past deduction has paid exactly `gas_limit * price + l1_cost`, with no
   * saturation anywhere: the caller could afford it, and nobody else's balance moved.
   */
  lemma PreExecutionExact(st: EvmState, ctx: Context, tx: Tx, revm: Revm)
    requires !tx.IsL1Msg() && PreExecuted(st, ctx, tx, revm).error.None?
    ensures tx.PaysRollupFee() ==> RollupCost(TryFetch(st.db.storage, ctx.cfg.spec), ctx, tx) == Success(RollupFeeOwed(st.db, ctx, tx))
    ensures var after, paid := PreExecuted(st, ctx, tx, revm).state, GasCharge(ctx, tx) + RollupFeeOwed(st.db, ctx, tx);
            && tx.gasLimit * tx.gasPrice <= U128_MAX && GasCharge(ctx, tx) <= U128_MAX
            && paid <= st.Balance(tx.caller)
            && after.Supply() == st.Supply() - paid
            && after.db == st.db && after.View().storage == st.View().storage
            && after.Account(tx.caller).nonce == NonceAfter(st.Account(tx.caller), tx)
            && (forall x :: after.Balance(x) == st.Balance(x) - if x == tx.caller then paid else 0)
            && (tx.PaysRollupFee() ==> after.chain == TryFetch(st.db.storage, ctx.cfg.spec))
  {
    var snapshot := if tx.PaysRollupFee() then st.(chain := TryFetch(st.db.storage, ctx.cfg.spec)) else st;
    assert snapshot.View() == st.View();
    MainnetDeductedExact(snapshot, ctx, tx, revm);
    var charged := MainnetDeducted(snapshot, ctx, tx, revm).state;
    if tx.PaysRollupFee() {
      RollupFeeDeductedExact(charged, ctx, tx);
    }
    var after := PreExecuted(st, ctx, tx, revm).state;
    assert after.Balance(tx.caller) >= 0;
  }

  lemma MainnetAcceptedIff(st: EvmState, ctx: Context, tx: Tx, revm: Revm)
    ensures MainnetDeducted(st, ctx, tx, revm).error.None?
       <==> && revm.senderValid(st.View())
            && tx.gasLimit * tx.gasPrice <= U128_MAX
            && tx.gasLimit * tx.gasPrice + tx.value <= st.Balance(tx.caller)
  {
  }

  /** Whether and why the rollup fee stops a transaction whose gas was already charged. */
  lemma RollupFeeOutcome(st: EvmState, ctx: Context, tx: Tx)
    requires tx.PaysRollupFee() && st.chain == TryFetch(st.db.storage, ctx.cfg.spec)
    ensures var owed := RollupFeeOwed(st.db, ctx, tx);
            RollupFeeDeducted(st, ctx, tx).error ==
            if tx.rlpBytes.None? then Some(MissingRlpBytes)
            else if !FeeInputsOk(ctx.cfg.spec, tx.FeeInputs()) then Some(Panicked(BadInput(ctx.cfg.spec, tx.FeeInputs())))
            else if owed > st.Balance(tx.caller) then Some(LackOfFundForMaxFee(owed, st.Balance(tx.caller)))
            else None
  {
    if tx.rlpBytes.Some? {
      PanicsExactlyOnBadInputs(st.db.storage, ctx.cfg.spec, ctx.cfg.spec, tx.FeeInputs());
    }
  }

  /** Pre-execution of a paying or system transaction is the two deductions in order, from the fresh snapshot. */
  lemma PreExecutionSplits(st: EvmState, snapshot: EvmState, ctx: Context, tx: Tx, revm: Revm)
    requires !tx.IsL1Msg()
    requires snapshot == if tx.PaysRollupFee() then st.(chain := TryFetch(st.db.storage, ctx.cfg.spec)) else st
    ensures snapshot.View() == st.View()
    ensures var gas := MainnetDeducted(snapshot, ctx, tx, revm);
            PreExecuted(st, ctx, tx, revm) ==
            if gas.error.Some? || tx.IsSystemTx() then gas else RollupFeeDeducted(gas.state, ctx, tx)
  {
  }

  /**
   * Exactly when a paying or system transaction passes pre-execution: revm accepts its sender, the worst
   * case including the value is covered before any deduction, and the rollup fee is covered after the gas
   * charge. The two together do not cover the value; a transfer can still fail in its first frame.
   */
  lemma PreExecutionAcceptedIff(st: EvmState, ctx: Context, tx: Tx, revm: Revm)
    requires !tx.IsL1Msg()
    ensures PreExecuted(st, ctx, tx, revm).error.None?
       <==> && revm.senderValid(st.View())
            && tx.gasLimit * tx.gasPrice <= U128_MAX
            && tx.gasLimit * tx.gasPrice + tx.value <= st.Balance(tx.caller)
            && (tx.PaysRollupFee() ==>
                  && tx.rlpBytes.Some? && FeeInputsOk(ctx.cfg.spec, tx.FeeInputs())
                  && RollupFeeOwed(st.db, ctx, tx) <= st.Balance(tx.caller) - GasCharge(ctx, tx))
  {
    var snapshot := if tx.PaysRollupFee() then st.(chain := TryFetch(st.db.storage, ctx.cfg.spec)) else st;
    PreExecutionSplits(st, snapshot, ctx, tx, revm);
    MainnetAcceptedIff(snapshot, ctx, tx, revm);
    if MainnetDeducted(snapshot, ctx, tx, revm).error.None? {
      MainnetDeductedExact(snapshot, ctx, tx, revm);
      if tx.PaysRollupFee() {
        RollupFeeOutcome(MainnetDeducted(snapshot, ctx, tx, revm).state, ctx, tx);
      }
    }
  }

  // ----- execution and settlement

  /** Execution moves value between accounts but neither creates nor destroys it. */
  ghost predicate Conserves(revm: Revm) {
    forall w :: TotalSupply(Overlay(w, revm.execute(w).writes).accounts) == TotalSupply(w.accounts)
  }

  lemma ExecutedView(st: EvmState, revm: Revm)
    ensures Executed(st, revm).View() == Overlay(st.View(), revm.execute(st.View()).writes)
  {
    var w := revm.execute(st.View()).writes;
    assert st.db.accounts + (st.journal.accounts + w.accounts) == st.db.accounts + st.journal.accounts + w.accounts;
    assert st.db.storage + (st.journal.storage + w.storage) == st.db.storage + st.journal.storage + w.storage;
  }

  /** By how much execution itself changed a balance. */
  function ExecutionDelta(st: EvmState, ctx: Context, tx: Tx, revm: Revm, x: Address): int {
    var pre := PreExecuted(st, ctx, tx, revm).state;
    Executed(pre, revm).Balance(x) - pre.Balance(x)
  }

  /** What an included transaction pays its beneficiary: used gas at the effective price plus the rollup fee. */
  function FeePaid(st: EvmState, ctx: Context, tx: Tx, gas: Gas): nat
    requires gas.Valid()
  {
    if tx.IsL1Msg() then 0
    else Product(tx.EffectiveGasPrice(ctx.block.basefee), gas.Used()) + RollupFeeOwed(st.db, ctx, tx)
  }

  /** Used gas and returned gas together cost what was charged up front. */
  lemma ChargeSplits(ctx: Context, tx: Tx, gas: Gas)
    requires gas.Valid() && gas.refunded >= 0 && gas.remaining + gas.Used() + gas.refunded == tx.gasLimit
    requires GasCharge(ctx, tx) <= U128_MAX
    ensures Product(tx.EffectiveGasPrice(ctx.block.basefee), gas.Used()) + Reimbursement(ctx, tx, gas) == GasCharge(ctx, tx)
  {
    var price := tx.EffectiveGasPrice(ctx.block.basefee);
    var back := gas.remaining + gas.refunded;
    MulDistributes(gas.Used(), back, price);
    ProductMonotone(back, price, tx.gasLimit, price);
  }

  /** No arithmetic in the reward saturates, and its rollup part is what was deducted before execution. */
  lemma RewardIsFeePaid(st: EvmState, mid: EvmState, ctx: Context, tx: Tx, gas: Gas)
    requires !tx.IsL1Msg() && gas.Valid() && gas.refunded >= 0
    requires gas.remaining + gas.Used() + gas.refunded == tx.gasLimit
    requires GasCharge(ctx, tx) <= U128_MAX
    requires tx.PaysRollupFee() ==>
               && mid.chain == TryFetch(st.db.storage, ctx.cfg.spec)
               && RollupCost(mid.chain, ctx, tx) == Success(RollupFeeOwed(st.db, ctx, tx))
    ensures Reward(mid, ctx, tx, gas) == Success(FeePaid(st, ctx, tx, gas))
  {
    ChargeSplits(ctx, tx, gas);
  }

  /** The inputs of a paying transaction satisfy the asserts of its fork, so no panic is reachable. */
  predicate FeeInputsAccepted(ctx: Context, tx: Tx) {
    tx.PaysRollupFee() && tx.rlpBytes.Some? ==> FeeInputsOk(ctx.cfg.spec, tx.FeeInputs())
  }

  ghost predicate Admissible(ctx: Context, tx: Tx, revm: Revm) {
    && ExecutesOk(tx, revm)
    && Conserves(revm)
    && FeeInputsAccepted(ctx, tx)
  }

  lemma NeverPanics(st: EvmState, ctx: Context, tx: Tx)
    requires FeeInputsAccepted(ctx, tx) && tx.PaysRollupFee()
    ensures var cost := RollupCost(TryFetch(st.db.storage, ctx.cfg.spec), ctx, tx);
            cost.Failure? ==> cost.error == MissingRlpBytes
  {
    if tx.rlpBytes.Some? {
      PanicsExactlyOnBadInputs(st.db.storage, ctx.cfg.spec, ctx.cfg.spec, tx.FeeInputs());
    }
  }

  lemma RejectedKeepsView(st: EvmState, ctx: Context, tx: Tx, revm: Revm)
    requires Admissible(ctx, tx, revm) && Transacted(st, ctx, tx, revm).receipt.Rejected?
    requires PreExecuted(st, ctx, tx, revm).error.Some? || Validated(tx, revm).Some?
    ensures var step := Transacted(st, ctx, tx, revm);
            && !step.receipt.error.Panicked?
            && step.state.db == st.db && step.state.journal == st.journal
  {
    if tx.PaysRollupFee() {
      NeverPanics(st, ctx, tx);
    }
  }

  /** Reimbursement and reward together put the gas charge and the rollup fee back into circulation. */
  lemma CreditsSettle(st: EvmState, mid: EvmState, ctx: Context, tx: Tx, gas: Gas)
    requires !tx.IsL1Msg() && gas.Valid() && gas.refunded >= 0
    requires gas.remaining + gas.Used() + gas.refunded == tx.gasLimit
    requires GasCharge(ctx, tx) <= U128_MAX
    requires mid.Supply() + GasCharge(ctx, tx) + RollupFeeOwed(st.db, ctx, tx) <= U256_MAX
    requires tx.PaysRollupFee() ==>
               && mid.chain == TryFetch(st.db.storage, ctx.cfg.spec)
               && RollupCost(mid.chain, ctx, tx) == Success(RollupFeeOwed(st.db, ctx, tx))
    ensures var back, fee := Reimbursement(ctx, tx, gas), FeePaid(st, ctx, tx, gas);
            var after := Rewarded(mid.Credit(tx.caller, back), ctx, tx, gas);
            && after.error.None? && after.state.db == mid.db
            && back + fee == GasCharge(ctx, tx) + RollupFeeOwed(st.db, ctx, tx)
            && after.state.Supply() == mid.Supply() + back + fee
            && forall x :: after.state.Balance(x) == mid.Balance(x)
                 + (if x == tx.caller then back else 0) + (if x == ctx.block.beneficiary then fee else 0)
  {
    var back, fee := Reimbursement(ctx, tx, gas), FeePaid(st, ctx, tx, gas);
    ChargeSplits(ctx, tx, gas);
    CreditExact(mid, tx.caller, back);
    var reimbursed := mid.Credit(tx.caller, back);
    RewardIsFeePaid(st, reimbursed, ctx, tx, gas);
    CreditExact(reimbursed, ctx.block.beneficiary, fee);
  }

  /** The whole effect of an included paying or system transaction on every balance and on the supply. */
  lemma SettledExact(st: EvmState, ctx: Context, tx: Tx, revm: Revm)
    requires Admissible(ctx, tx, revm) && st.Supply() <= U256_MAX && !tx.IsL1Msg()
    requires Validated(tx, revm).None? && PreExecuted(st, ctx, tx, revm).error.None?
    ensures var step := Transacted(st, ctx, tx, revm);
            && step.receipt.Included? && step.receipt.gas.Valid()
            && step.state.db == st.db
            && step.state.Supply() == st.Supply()
            && var fee := FeePaid(st, ctx, tx, step.receipt.gas);
               forall x :: step.state.Balance(x) == st.Balance(x) + ExecutionDelta(st, ctx, tx, revm, x)
                 - (if x == tx.caller then fee else 0) + (if x == ctx.block.beneficiary then fee else 0)
  {
    PreExecutionExact(st, ctx, tx, revm);
    var pre := PreExecuted(st, ctx, tx, revm).state;
    var gas := FinalGas(revm.execute(pre.View()), tx, revm);
    ExecutedView(pre, revm);
    CreditsSettle(st, Executed(pre, revm), ctx, tx, gas);
  }

  // ----- L1 messages

  /** Up to execution an L1 message moves no balance: it is checked for code and its call nonce rises by one. */
  lemma L1MessagePreExecution(st: EvmState, ctx: Context, tx: Tx, revm: Revm)
    requires tx.IsL1Msg() && PreExecuted(st, ctx, tx, revm).error.None?
    ensures var after := PreExecuted(st, ctx, tx, revm).state;
            && after.Supply() == st.Supply()
            && after.db == st.db && after.chain == st.chain && after.View().storage == st.View().storage
            && (forall x :: after.Balance(x) == st.Balance(x) && after.Account(x).code == st.Account(x).code)
            && (forall x :: x != tx.caller ==> after.Account(x) == st.Account(x))
            && (!ctx.cfg.eip3607Disabled ==> st.Account(tx.caller).code != Contract)
            && (tx.isCall && st.Account(tx.caller).nonce < U64_MAX ==>
                  after.Account(tx.caller).nonce == st.Account(tx.caller).nonce + 1)
            && (!tx.isCall ==> after.Account(tx.caller).nonce == st.Account(tx.caller).nonce)
  {
    var account := st.Account(tx.caller);
    ViewAfterSet(st, tx.caller, account.(nonce := NonceAfter(account, tx)));
  }

  /** The sender is no contract and, before Euclid, could afford the worst case. */
  predicate L1SenderAccepted(st: EvmState, ctx: Context, tx: Tx) {
    && (ctx.cfg.eip3607Disabled || st.Account(tx.caller).code != Contract)
    && (!ctx.cfg.spec.BeforeEuclid()
        || (tx.gasLimit * tx.gasPrice <= U128_MAX && tx.gasLimit * tx.gasPrice + tx.value <= st.Balance(tx.caller)))
  }

  /** Exactly when an L1 message passes pre-execution; from Euclid on lack of funds never rejects it. */
  lemma L1MessageAcceptedIff(st: EvmState, ctx: Context, tx: Tx, revm: Revm)
    requires tx.IsL1Msg()
    ensures PreExecuted(st, ctx, tx, revm).error.None? <==> L1SenderAccepted(st, ctx, tx)
  {
  }

  /**
   * The caller of an L1 message paid nothing up front, yet unspent gas is paid back to it at the effective
   * price. That amount is minted; this is what is credited, saturating in the caller's balance.
   */
  function Minted(st: EvmState, ctx: Context, tx: Tx, revm: Revm, gas: Gas): nat
    requires gas.remaining + AsU64(gas.refunded) <= U64_MAX
  {
    var before := Executed(PreExecuted(st, ctx, tx, revm).state, revm).Balance(tx.caller);
    Min(Reimbursement(ctx, tx, gas), U256_MAX - before)
  }

  /** The gas an L1 message ends with: what its execution left of the limit, and no refund. */
  lemma L1MessageFinalGas(e: Execution, tx: Tx, revm: Revm)
    requires tx.IsL1Msg() && ExecutionOk(e, tx, revm) && revm.floorGas <= tx.gasLimit
    ensures FinalGas(e, tx, revm) == Gas(tx.gasLimit, tx.gasLimit - Burned(FrameGas(e, tx, revm), e.result, tx.gasLimit), 0)
  {
    L1MessageGas(FrameGas(e, tx, revm), e.result, tx.gasLimit, e.eip7702Refund, revm.floorGas);
  }

  /** Any credit, saturating or not. */
  lemma CreditSaturating(st: EvmState, a: Address, amount: u256)
    ensures var after, added := st.Credit(a, amount), Min(amount, U256_MAX - st.Balance(a));
            && after.db == st.db && after.Supply() == st.Supply() + added
            && forall x :: after.Balance(x) == st.Balance(x) + if x == a then added else 0
  {
    ViewAfterSet(st, a, st.Account(a).(balance := SaturatingAdd(st.Balance(a), amount)));
  }

  lemma L1MessageMovesNothing(st: EvmState, ctx: Context, tx: Tx, revm: Revm)
    requires tx.IsL1Msg() && PreExecuted(st, ctx, tx, revm).error.None?
    ensures var pre := PreExecuted(st, ctx, tx, revm).state;
            && pre.Supply() == st.Supply() && pre.db == st.db
            && forall x :: pre.Balance(x) == st.Balance(x)
  {
    L1MessagePreExecution(st, ctx, tx, revm);
  }

  /** An L1 message past pre-execution runs, is reimbursed, and is included. */
  lemma L1MessageIncluded(st: EvmState, ctx: Context, tx: Tx, revm: Revm)
    requires ExecutesOk(tx, revm) && tx.IsL1Msg()
    requires Validated(tx, revm).None? && PreExecuted(st, ctx, tx, revm).error.None?
    ensures var pre := PreExecuted(st, ctx, tx, revm).state;
            var gas := FinalGas(revm.execute(pre.View()), tx, revm);
            Transacted(st, ctx, tx, revm)
            == Step(Executed(pre, revm).Credit(tx.caller, Reimbursement(ctx, tx, gas)), Included(gas))
  {
  }

  /** The whole effect of an included L1 message, whatever its price and whatever execution reported. */
  lemma L1MessageSettled(st: EvmState, ctx: Context, tx: Tx, revm: Revm)
    requires Admissible(ctx, tx, revm) && tx.IsL1Msg()
    requires Validated(tx, revm).None? && PreExecuted(st, ctx, tx, revm).error.None?
    ensures var step, pre := Transacted(st, ctx, tx, revm), PreExecuted(st, ctx, tx, revm).state;
            var e := revm.execute(pre.View());
            && step.receipt == Included(Gas(tx.gasLimit, tx.gasLimit - Burned(FrameGas(e, tx, revm), e.result, tx.gasLimit), 0))
            && step.receipt.gas.Used() == tx.gasLimit - step.receipt.gas.remaining
            && step.state.db == st.db
            && var minted := Minted(st, ctx, tx, revm, step.receipt.gas);
               && step.state.Supply() == st.Supply() + minted
               && forall x :: step.state.Balance(x) == st.Balance(x) + ExecutionDelta(st, ctx, tx, revm, x)
                    + if x == tx.caller then minted else 0
  {
    var pre := PreExecuted(st, ctx, tx, revm).state;
    var e := revm.execute(pre.View());
    L1MessageMovesNothing(st, ctx, tx, revm);
    L1MessageIncluded(st, ctx, tx, revm);
    L1MessageFinalGas(e, tx, revm);
    ExecutedView(pre, revm);
    CreditSaturating(Executed(pre, revm), tx.caller, Reimbursement(ctx, tx, FinalGas(e, tx, revm)));
  }

  lemma L1MessageSupply(st: EvmState, ctx: Context, tx: Tx, revm: Revm)
    requires Admissible(ctx, tx, revm) && tx.IsL1Msg()
    requires Validated(tx, revm).None? && PreExecuted(st, ctx, tx, revm).error.None?
    ensures var gas := FinalGas(revm.execute(PreExecuted(st, ctx, tx, revm).state.View()), tx, revm);
            && gas.refunded == 0
            && Transacted(st, ctx, tx, revm).state.Supply() == st.Supply() + Minted(st, ctx, tx, revm, gas)
  {
    L1MessageSettled(st, ctx, tx, revm);
    L1MessageIncluded(st, ctx, tx, revm);
  }

  lemma ReimbursementZeroIff(ctx: Context, tx: Tx, gas: Gas)
    requires gas.refunded == 0
    ensures Reimbursement(ctx, tx, gas) == 0 <==> tx.EffectiveGasPrice(ctx.block.basefee) == 0 || gas.remaining == 0
  {
    var price := tx.EffectiveGasPrice(ctx.block.basefee);
    if price != 0 && gas.remaining != 0 {
      ProductMonotone(1, 1, price, gas.remaining);
    }
  }

  /** An L1 message that revm admits and whose sender is accepted: it reaches execution. */
  predicate L1MessageReaches(st: EvmState, ctx: Context, tx: Tx, initialGas: u64, floorGas: u64) {
    tx.IsL1Msg() && initialGas <= tx.gasLimit && floorGas <= tx.gasLimit && L1SenderAccepted(st, ctx, tx)
  }

  /** The executions the message may meet: any that revm admits, with the given intrinsic gas and floor. */
  ghost predicate MayMeet(ctx: Context, tx: Tx, initialGas: u64, floorGas: u64, revm: Revm) {
    revm.envValid && revm.initialGas == initialGas && revm.floorGas == floorGas && Admissible(ctx, tx, revm)
  }

  /** An execution that makes the given writes and returns all its gas. */
  function Returning(tx: Tx, initialGas: u64, floorGas: u64, writes: World -> World): Revm
    requires initialGas <= tx.gasLimit
  {
    Revm(true, (_: World) => true, initialGas, floorGas,
         (w: World) => Execution(writes(w), Ok, tx.gasLimit - initialGas, 0, 0))
  }

  ghost predicate WritesConserve(writes: World -> World) {
    forall w: World :: TotalSupply(Overlay(w, writes(w)).accounts) == TotalSupply(w.accounts)
  }

  lemma ReturningAdmissible(ctx: Context, tx: Tx, initialGas: u64, floorGas: u64, writes: World -> World)
    requires tx.IsL1Msg() && initialGas <= tx.gasLimit && WritesConserve(writes)
    ensures MayMeet(ctx, tx, initialGas, floorGas, Returning(tx, initialGas, floorGas, writes))
  {
  }

  lemma ReturningGas(tx: Tx, initialGas: u64, floorGas: u64, writes: World -> World)
    requires tx.IsL1Msg() && initialGas <= tx.gasLimit && floorGas <= tx.gasLimit
    ensures var revm := Returning(tx, initialGas, floorGas, writes);
            forall w :: FinalGas(revm.execute(w), tx, revm) == Gas(tx.gasLimit, tx.gasLimit - initialGas, 0)
  {
  }

  /** The state an L1 message executes on; it does not depend on the execution. */
  function BeforeExecution(st: EvmState, ctx: Context, tx: Tx): EvmState {
    L1MessageChecked(st, ctx, tx).state
  }

  lemma ReachesExecution(st: EvmState, ctx: Context, tx: Tx, revm: Revm)
    requires L1MessageReaches(st, ctx, tx, revm.initialGas, revm.floorGas)
    ensures PreExecuted(st, ctx, tx, revm) == Checked(BeforeExecution(st, ctx, tx), None)
    ensures BeforeExecution(st, ctx, tx).Supply() == st.Supply()
    ensures forall x :: BalanceOf(BeforeExecution(st, ctx, tx).View().accounts, x) == st.Balance(x)
  {
    L1MessageAcceptedIff(st, ctx, tx, revm);
    L1MessageMovesNothing(st, ctx, tx, revm);
    forall x
      ensures BalanceOf(BeforeExecution(st, ctx, tx).View().accounts, x) == st.Balance(x)
    {
      assert BeforeExecution(st, ctx, tx).Balance(x) == st.Balance(x);
    }
  }

  /** The execution leaves that much gas, and that balance to the caller. */
  ghost predicate Leaves(st: EvmState, ctx: Context, tx: Tx, revm: Revm, left: u64, kept: u256) {
    var pre := BeforeExecution(st, ctx, tx);
    && ExecutionOk(revm.execute(pre.View()), tx, revm) && revm.floorGas <= tx.gasLimit && left <= tx.gasLimit
    && FinalGas(revm.execute(pre.View()), tx, revm) == Gas(tx.gasLimit, left, 0)
    && Executed(pre, revm).Balance(tx.caller) == kept
  }

  lemma ReturningLeaves(st: EvmState, ctx: Context, tx: Tx, initialGas: u64, floorGas: u64, writes: World -> World)
    requires L1MessageReaches(st, ctx, tx, initialGas, floorGas)
    requires ExecutesOk(tx, Returning(tx, initialGas, floorGas, writes))
    ensures var w := BeforeExecution(st, ctx, tx).View();
            Leaves(st, ctx, tx, Returning(tx, initialGas, floorGas, writes), tx.gasLimit - initialGas,
                   BalanceOf(Overlay(w, writes(w)).accounts, tx.caller))
  {
    ExecutedView(BeforeExecution(st, ctx, tx), Returning(tx, initialGas, floorGas, writes));
    ReturningGas(tx, initialGas, floorGas, writes);
  }

  lemma UnrefundedReimbursement(ctx: Context, tx: Tx, gas: Gas)
    requires gas.refunded == 0
    ensures Reimbursement(ctx, tx, gas) == Min(Product(tx.EffectiveGasPrice(ctx.block.basefee), gas.remaining), U128_MAX)
  {
  }

  /** What an L1 message mints, given what its execution leaves: the price of the gas, as far as there is room. */
  function Mint(ctx: Context, tx: Tx, left: u64, kept: u256): nat {
    Min(Min(Product(tx.EffectiveGasPrice(ctx.block.basefee), left), U128_MAX), U256_MAX - kept)
  }

  lemma LeavesMints(st: EvmState, ctx: Context, tx: Tx, revm: Revm, left: u64, kept: u256)
    requires L1MessageReaches(st, ctx, tx, revm.initialGas, revm.floorGas)
    requires revm.envValid && Admissible(ctx, tx, revm) && Leaves(st, ctx, tx, revm, left, kept)
    ensures Transacted(st, ctx, tx, revm).state.Supply() == st.Supply() + Mint(ctx, tx, left, kept)
  {
    ReachesExecution(st, ctx, tx, revm);
    L1MessageSupply(st, ctx, tx, revm);
    UnrefundedReimbursement(ctx, tx, Gas(tx.gasLimit, left, 0));
  }

  /** Some admissible execution makes the given writes and returns all gas beyond the intrinsic part. */
  lemma ReturningExecution(st: EvmState, ctx: Context, tx: Tx, initialGas: u64, floorGas: u64, writes: World -> World)
    returns (revm: Revm)
    requires L1MessageReaches(st, ctx, tx, initialGas, floorGas) && WritesConserve(writes)
    ensures MayMeet(ctx, tx, initialGas, floorGas, revm)
    ensures var w := BeforeExecution(st, ctx, tx).View();
            Leaves(st, ctx, tx, revm, tx.gasLimit - initialGas, BalanceOf(Overlay(w, writes(w)).accounts, tx.caller))
  {
    revm := Returning(tx, initialGas, floorGas, writes);
    ReturningAdmissible(ctx, tx, initialGas, floorGas, writes);
    ReturningLeaves(st, ctx, tx, initialGas, floorGas, writes);
  }

  /** An execution that does nothing. */
  function Idle(tx: Tx, initialGas: u64, floorGas: u64): Revm
    requires initialGas <= tx.gasLimit
  {
    Returning(tx, initialGas, floorGas, NoWrites())
  }

  function NoWrites(): World -> World {
    (_: World) => EMPTY_WORLD
  }

  lemma NoWritesConserve()
    ensures WritesConserve(NoWrites())
    ensures forall w: World :: Overlay(w, NoWrites()(w)).accounts == w.accounts
  {
    forall w: World
      ensures Overlay(w, NoWrites()(w)).accounts == w.accounts
    {
    }
  }

  lemma IdleAdmissible(ctx: Context, tx: Tx, initialGas: u64, floorGas: u64)
    requires tx.IsL1Msg() && initialGas <= tx.gasLimit
    ensures MayMeet(ctx, tx, initialGas, floorGas, Idle(tx, initialGas, floorGas))
  {
    NoWritesConserve();
    ReturningAdmissible(ctx, tx, initialGas, floorGas, NoWrites());
  }

  lemma IdleLeaves(st: EvmState, ctx: Context, tx: Tx, initialGas: u64, floorGas: u64)
    requires L1MessageReaches(st, ctx, tx, initialGas, floorGas)
    ensures Leaves(st, ctx, tx, Idle(tx, initialGas, floorGas), tx.gasLimit - initialGas, st.Balance(tx.caller))
  {
    IdleAdmissible(ctx, tx, initialGas, floorGas);
    NoWritesConserve();
    ReachesExecution(st, ctx, tx, Idle(tx, initialGas, floorGas));
    ReturningLeaves(st, ctx, tx, initialGas, floorGas, NoWrites());
  }

  /** Against an idle execution the mint is the price of all gas beyond the intrinsic part. */
  lemma IdleL1MessageMints(st: EvmState, ctx: Context, tx: Tx, initialGas: u64, floorGas: u64)
    requires L1MessageReaches(st, ctx, tx, initialGas, floorGas)
    ensures ExecutesOk(tx, Idle(tx, initialGas, floorGas))
    ensures Transacted(st, ctx, tx, Idle(tx, initialGas, floorGas)).state.Supply()
         == st.Supply() + Mint(ctx, tx, tx.gasLimit - initialGas, st.Balance(tx.caller))
  {
    IdleAdmissible(ctx, tx, initialGas, floorGas);
    IdleLeaves(st, ctx, tx, initialGas, floorGas);
    LeavesMints(st, ctx, tx, Idle(tx, initialGas, floorGas), tx.gasLimit - initialGas, st.Balance(tx.caller));
  }

  /** Moves one wei where it can be moved. */
  function PassOne(from: Address, to: Address): World -> World {
    (w: World) =>
      var payer, payee := AccountAt(w.accounts, from), AccountAt(w.accounts, to);
      if from == to || payer.balance == 0 || payee.balance == U256_MAX then EMPTY_WORLD
      else World(map[from := payer.(balance := payer.balance - 1)][to := payee.(balance := payee.balance + 1)], map[])
  }

  /** Two writes that offset each other keep the total. */
  lemma PassedOnKeepsTotal(accounts: Accounts, from: Address, less: Account, to: Address, more: Account)
    requires from != to && less.balance + more.balance == BalanceOf(accounts, from) + BalanceOf(accounts, to)
    ensures TotalSupply(accounts + map[from := less][to := more]) == TotalSupply(accounts)
  {
    SupplyUpdate(accounts, from, less);
    SupplyUpdate(accounts[from := less], to, more);
    assert accounts + map[from := less][to := more] == accounts[from := less][to := more];
  }

  lemma PassOneKeepsTotal(w: World, from: Address, to: Address)
    ensures TotalSupply(Overlay(w, PassOne(from, to)(w)).accounts) == TotalSupply(w.accounts)
  {
    var payer, payee := AccountAt(w.accounts, from), AccountAt(w.accounts, to);
    if from == to || payer.balance == 0 || payee.balance == U256_MAX {
      assert w.accounts + map[] == w.accounts;
    } else {
      PassedOnKeepsTotal(w.accounts, from, payer.(balance := payer.balance - 1), to, payee.(balance := payee.balance + 1));
    }
  }

  lemma PassOneConserves(from: Address, to: Address)
    ensures WritesConserve(PassOne(from, to))
  {
    forall w: World
      ensures TotalSupply(Overlay(w, PassOne(from, to)(w)).accounts) == TotalSupply(w.accounts)
    {
      PassOneKeepsTotal(w, from, to);
    }
  }

  lemma PassOneMakesRoom(w: World, from: Address, to: Address)
    requires BalanceOf(w.accounts, from) == U256_MAX && BalanceOf(w.accounts, to) < U256_MAX
    ensures BalanceOf(Overlay(w, PassOne(from, to)(w)).accounts, from) == U256_MAX - 1
  {
  }

  /** If anyone has room, some writes leave the caller with room: none, or passing a wei on. */
  lemma RoomMade(w: World, caller: Address, other: Address) returns (writes: World -> World, kept: u256)
    requires HasRoom(w.accounts, other)
    ensures WritesConserve(writes) && kept < U256_MAX
    ensures kept == BalanceOf(Overlay(w, writes(w)).accounts, caller)
  {
    if HasRoom(w.accounts, caller) {
      NoWritesConserve();
      writes, kept := NoWrites(), BalanceOf(w.accounts, caller);
    } else {
      PassOneConserves(caller, other);
      PassOneMakesRoom(w, caller, other);
      writes, kept := PassOne(caller, other), U256_MAX - 1;
    }
  }

  /** Gas left at a price, and room for it, are something minted. */
  lemma LeavesMintsSome(st: EvmState, ctx: Context, tx: Tx, revm: Revm, left: u64, kept: u256)
    requires L1MessageReaches(st, ctx, tx, revm.initialGas, revm.floorGas)
    requires revm.envValid && Admissible(ctx, tx, revm) && Leaves(st, ctx, tx, revm, left, kept)
    requires tx.EffectiveGasPrice(ctx.block.basefee) != 0 && 0 < left && kept < U256_MAX
    ensures Transacted(st, ctx, tx, revm).state.Supply() > st.Supply()
  {
    LeavesMints(st, ctx, tx, revm, left, kept);
    ProductMonotone(1, 1, tx.EffectiveGasPrice(ctx.block.basefee), left);
  }

  lemma RoomStays(st: EvmState, ctx: Context, tx: Tx, initialGas: u64, floorGas: u64, a: Address)
    requires L1MessageReaches(st, ctx, tx, initialGas, floorGas) && st.Balance(a) < U256_MAX
    ensures HasRoom(BeforeExecution(st, ctx, tx).View().accounts, a)
  {
    ReachesExecution(st, ctx, tx, Idle(tx, initialGas, floorGas));
  }

  /** While any account has room, some execution of a priced message mints. */
  lemma PricedL1MessageNotNeutral(st: EvmState, ctx: Context, tx: Tx, initialGas: u64, floorGas: u64, other: Address)
    returns (revm: Revm)
    requires L1MessageReaches(st, ctx, tx, initialGas, floorGas) && initialGas < tx.gasLimit
    requires tx.EffectiveGasPrice(ctx.block.basefee) != 0 && st.Balance(other) < U256_MAX
    ensures MayMeet(ctx, tx, initialGas, floorGas, revm)
    ensures Transacted(st, ctx, tx, revm).state.Supply() > st.Supply()
  {
    RoomStays(st, ctx, tx, initialGas, floorGas, other);
    var writes, kept := RoomMade(BeforeExecution(st, ctx, tx).View(), tx.caller, other);
    revm := ReturningExecution(st, ctx, tx, initialGas, floorGas, writes);
    LeavesMintsSome(st, ctx, tx, revm, tx.gasLimit - initialGas, kept);
  }

  lemma AdmittedL1MessageNeutral(st: EvmState, ctx: Context, tx: Tx, revm: Revm)
    requires L1MessageReaches(st, ctx, tx, revm.initialGas, revm.floorGas)
    requires revm.envValid && Admissible(ctx, tx, revm)
    requires tx.EffectiveGasPrice(ctx.block.basefee) == 0 || tx.gasLimit == revm.initialGas
    ensures Transacted(st, ctx, tx, revm).state.Supply() == st.Supply()
  {
    ReachesExecution(st, ctx, tx, revm);
    L1MessageSupply(st, ctx, tx, revm);
    ReimbursementZeroIff(ctx, tx, FinalGas(revm.execute(PreExecuted(st, ctx, tx, revm).state.View()), tx, revm));
  }

  /** Where every account were full, execution would leave them full and nothing could be minted. */
  lemma FullWorldNeutral(st: EvmState, ctx: Context, tx: Tx, revm: Revm)
    requires L1MessageReaches(st, ctx, tx, revm.initialGas, revm.floorGas)
    requires revm.envValid && Admissible(ctx, tx, revm)
    requires forall x :: st.Balance(x) == U256_MAX
    ensures Transacted(st, ctx, tx, revm).state.Supply() == st.Supply()
  {
    ReachesExecution(st, ctx, tx, revm);
    L1MessageSupply(st, ctx, tx, revm);
    var pre := BeforeExecution(st, ctx, tx);
    ExecutedView(pre, revm);
    FullStaysFull(pre.View().accounts, Executed(pre, revm).View().accounts, tx.caller);
  }

  /**
   * So, before the call, an L1 message is certain to conserve the supply exactly when its effective
   * price is zero or its gas limit leaves nothing beyond the intrinsic gas, or no account at all has
   * room for another wei.
   */
  lemma L1MessageNeutralIff(st: EvmState, ctx: Context, tx: Tx, initialGas: u64, floorGas: u64)
    requires L1MessageReaches(st, ctx, tx, initialGas, floorGas)
    ensures (forall revm | MayMeet(ctx, tx, initialGas, floorGas, revm) ::
               Transacted(st, ctx, tx, revm).state.Supply() == st.Supply())
       <==> || tx.EffectiveGasPrice(ctx.block.basefee) == 0 || tx.gasLimit == initialGas
            || forall x :: st.Balance(x) == U256_MAX
  {
    if tx.EffectiveGasPrice(ctx.block.basefee) == 0 || tx.gasLimit == initialGas {
      forall revm | MayMeet(ctx, tx, initialGas, floorGas, revm)
        ensures Transacted(st, ctx, tx, revm).state.Supply() == st.Supply()
      {
        AdmittedL1MessageNeutral(st, ctx, tx, revm);
      }
    } else if other :| st.Balance(other) < U256_MAX {
      var revm := PricedL1MessageNotNeutral(st, ctx, tx, initialGas, floorGas, other);
    } else {
      forall revm | MayMeet(ctx, tx, initialGas, floorGas, revm)
        ensures Transacted(st, ctx, tx, revm).state.Supply() == st.Supply()
      {
        FullWorldNeutral(st, ctx, tx, revm);
      }
    }
  }

  /** A message of 22000 gas at price 1 with 21000 intrinsic gas. */
  const PRICED_L1_MESSAGE := Tx(L1_MESSAGE_TYPE, 0xdead, true, 22_000, 1, None, 0, None, None, None)

  /** On an empty chain under Galileo, it mints 1000 when its execution does nothing. */
  lemma PricedL1MessageMints(basefee: u64, beneficiary: Address)
    ensures var ctx := Context(Cfg(GALILEO, false), Block(basefee, beneficiary));
            var st, revm := EvmState(EMPTY_WORLD, EMPTY_WORLD, DEFAULT_L1_BLOCK_INFO), Idle(PRICED_L1_MESSAGE, 21_000, 0);
            && MayMeet(ctx, PRICED_L1_MESSAGE, 21_000, 0, revm)
            && st.Supply() == 0 && Transacted(st, ctx, PRICED_L1_MESSAGE, revm).state.Supply() == 1000
  {
    var ctx := Context(Cfg(GALILEO, false), Block(basefee, beneficiary));
    var st := EvmState(EMPTY_WORLD, EMPTY_WORLD, DEFAULT_L1_BLOCK_INFO);
    assert st.View().accounts == map[];
    IdleAdmissible(ctx, PRICED_L1_MESSAGE, 21_000, 0);
    IdleL1MessageMints(st, ctx, PRICED_L1_MESSAGE, 21_000, 0);
  }

  // ----- one transaction of any kind

  /** L1 messages come with a zero gas price. */
  predicate ZeroPricedIfL1(tx: Tx) {
    tx.IsL1Msg() ==> tx.gasPrice == 0
  }

  /** A balance after one transaction, from the balance before: execution, fee paid, fee earned. */
  ghost function ExpectedBalance(st: EvmState, ctx: Context, tx: Tx, revm: Revm, x: Address): int
    requires ExecutesOk(tx, revm)
  {
    st.Balance(x) + Moved(st, ctx, tx, revm, x) - Paid(st, ctx, tx, revm, x) + Earned(st, ctx, tx, revm, x)
  }

  ghost function Moved(st: EvmState, ctx: Context, tx: Tx, revm: Revm, x: Address): int
    requires ExecutesOk(tx, revm)
  {
    if Transacted(st, ctx, tx, revm).receipt.Included? then ExecutionDelta(st, ctx, tx, revm, x) else 0
  }

  ghost function Fee(st: EvmState, ctx: Context, tx: Tx, revm: Revm): nat
    requires ExecutesOk(tx, revm)
  {
    match Transacted(st, ctx, tx, revm).receipt
    case Rejected(_) => 0
    case Included(gas) => if gas.Valid() then FeePaid(st, ctx, tx, gas) else 0
  }

  ghost function Paid(st: EvmState, ctx: Context, tx: Tx, revm: Revm, x: Address): nat
    requires ExecutesOk(tx, revm)
  {
    if x == tx.caller then Fee(st, ctx, tx, revm) else 0
  }

  ghost function Earned(st: EvmState, ctx: Context, tx: Tx, revm: Revm, x: Address): nat
    requires ExecutesOk(tx, revm)
  {
    if x == ctx.block.beneficiary then Fee(st, ctx, tx, revm) else 0
  }

  lemma TransactionLedger(st: EvmState, ctx: Context, tx: Tx, revm: Revm)
    requires Admissible(ctx, tx, revm) && ZeroPricedIfL1(tx) && st.Supply() <= U256_MAX
    ensures var step := Transacted(st, ctx, tx, revm);
            && step.state.Supply() == st.Supply()
            && step.state.db == st.db
            && (step.receipt.Rejected? ==> step.state.journal == st.journal)
            && forall x :: step.state.Balance(x) == ExpectedBalance(st, ctx, tx, revm, x)
  {
    if Validated(tx, revm).Some? || PreExecuted(st, ctx, tx, revm).error.Some? {
      var step := Transacted(st, ctx, tx, revm);
      assert step.receipt.Rejected?;
      RejectedKeepsView(st, ctx, tx, revm);
      assert step.state.View() == st.View();
    } else if tx.IsL1Msg() {
      L1MessageSettled(st, ctx, tx, revm);
      ReimbursementZeroIff(ctx, tx, Transacted(st, ctx, tx, revm).receipt.gas);
    } else {
      SettledExact(st, ctx, tx, revm);
    }
  }

  // ----- whole runs

  /** `transact_one` under some block and configuration, or `finalize` followed by `commit`. */
  datatype Action = Transact(ctx: Context, tx: Tx, revm: Revm) | FinalizeAndCommit

  ghost predicate ActionOk(action: Action) {
    action.Transact? ==> Admissible(action.ctx, action.tx, action.revm) && ZeroPricedIfL1(action.tx)
  }

  ghost predicate ActionsOk(actions: seq<Action>) {
    forall i :: 0 <= i < |actions| ==> ActionOk(actions[i])
  }

  ghost function Applied(st: EvmState, action: Action): EvmState
    requires ActionOk(action)
  {
    match action
    case Transact(ctx, tx, revm) => Transacted(st, ctx, tx, revm).state
    case FinalizeAndCommit =>
      var (emptied, changes) := Finalized(st);
      Committed(emptied, changes)
  }

  /** The state after the first actions of a run, all of them in order. */
  ghost function Run(st: EvmState, actions: seq<Action>): EvmState
    requires ActionsOk(actions)
  {
    if actions == [] then st
    else Applied(Run(st, actions[..|actions| - 1]), actions[|actions| - 1])
  }

  /** Everything execution moved into, minus out of, an account over a run. */
  ghost function TotalMoved(st: EvmState, actions: seq<Action>, x: Address): int
    requires ActionsOk(actions)
  {
    if actions == [] then 0 else
    var earlier, last := actions[..|actions| - 1], actions[|actions| - 1];
    TotalMoved(st, earlier, x) +
    match last
    case Transact(ctx, tx, revm) => Moved(Run(st, earlier), ctx, tx, revm, x)
    case FinalizeAndCommit => 0
  }

  /** All fees an account paid as a caller over a run. */
  ghost function TotalPaid(st: EvmState, actions: seq<Action>, x: Address): nat
    requires ActionsOk(actions)
  {
    if actions == [] then 0 else
    var earlier, last := actions[..|actions| - 1], actions[|actions| - 1];
    TotalPaid(st, earlier, x) +
    match last
    case Transact(ctx, tx, revm) => Paid(Run(st, earlier), ctx, tx, revm, x)
    case FinalizeAndCommit => 0
  }

  /** All fees an account received as a beneficiary over a run. */
  ghost function TotalEarned(st: EvmState, actions: seq<Action>, x: Address): nat
    requires ActionsOk(actions)
  {
    if actions == [] then 0 else
    var earlier, last := actions[..|actions| - 1], actions[|actions| - 1];
    TotalEarned(st, earlier, x) +
    match last
    case Transact(ctx, tx, revm) => Earned(Run(st, earlier), ctx, tx, revm, x)
    case FinalizeAndCommit => 0
  }

  /** Committing a finalized journal changes nothing the EVM sees. */
  lemma CommitKeepsView(st: EvmState)
    ensures var after := Applied(st, FinalizeAndCommit);
            after.View() == st.View() == after.db && after.journal == EMPTY_WORLD
  {
    var after := Applied(st, FinalizeAndCommit);
    assert after.View().accounts == st.View().accounts;
    assert after.View().storage == st.View().storage;
  }

  /** Over any run the supply is unchanged. */
  lemma {:induction false} RunConservesSupply(st: EvmState, actions: seq<Action>)
    requires ActionsOk(actions) && st.Supply() <= U256_MAX
    ensures Run(st, actions).Supply() == st.Supply()
  {
    if actions != [] {
      var earlier, last := actions[..|actions| - 1], actions[|actions| - 1];
      RunConservesSupply(st, earlier);
      var mid := Run(st, earlier);
      assert ActionOk(last);
      match last {
        case Transact(ctx, tx, revm) => TransactionLedger(mid, ctx, tx, revm);
        case FinalizeAndCommit => CommitKeepsView(mid);
      }
    }
  }

  /**
   * Over any run, of accepted and rejected transactions of every kind with commits in between, every
   * balance is the initial one, plus what execution moved, less the fees paid, plus the fees earned.
   * Callers who are also the beneficiary are no exception.
   */
  lemma {:induction false} RunLedger(st: EvmState, actions: seq<Action>, x: Address)
    requires ActionsOk(actions) && st.Supply() <= U256_MAX
    ensures Run(st, actions).Balance(x)
         == st.Balance(x) + TotalMoved(st, actions, x) - TotalPaid(st, actions, x) + TotalEarned(st, actions, x)
  {
    if actions != [] {
      var earlier, last := actions[..|actions| - 1], actions[|actions| - 1];
      RunLedger(st, earlier, x);
      RunConservesSupply(st, earlier);
      var mid := Run(st, earlier);
      assert ActionOk(last);
      match last {
        case Transact(ctx, tx, revm) =>
          TransactionLedger(mid, ctx, tx, revm);
          assert Applied(mid, last).Balance(x) == ExpectedBalance(mid, ctx, tx, revm, x);
        case FinalizeAndCommit =>
          CommitKeepsView(mid);
      }
    }
  }

  // ----- the snapshot

  /** What pre-execution takes from the caller of a transaction it accepts. */
  function Deducted(st: EvmState, ctx: Context, tx: Tx, revm: Revm): int {
    st.Balance(tx.caller) - PreExecuted(st, ctx, tx, revm).state.Balance(tx.caller)
  }

  lemma DeductedExact(st: EvmState, ctx: Context, tx: Tx, revm: Revm)
    requires !tx.IsL1Msg() && PreExecuted(st, ctx, tx, revm).error.None?
    ensures Deducted(st, ctx, tx, revm) == GasCharge(ctx, tx) + RollupFeeOwed(st.db, ctx, tx)
    ensures GasCharge(ctx, tx) <= U128_MAX
    ensures tx.PaysRollupFee() ==>
              && PreExecuted(st, ctx, tx, revm).state.chain == TryFetch(st.db.storage, ctx.cfg.spec)
              && RollupCost(TryFetch(st.db.storage, ctx.cfg.spec), ctx, tx) == Success(RollupFeeOwed(st.db, ctx, tx))
  {
    PreExecutionExact(st, ctx, tx, revm);
  }

  /** A final gas record that accounts for the whole limit. */
  predicate SettlesLimit(gas: Gas, tx: Tx) {
    gas.Valid() && gas.refunded >= 0 && gas.remaining + gas.Used() + gas.refunded == tx.gasLimit
  }

  /**
   * The rollup fee deducted before execution is the one credited after it, whatever journal execution
   * and reimbursement leave behind, rewritten oracle slots included: both read the snapshot of the
   * committed slots taken at the start.
   */
  lemma ChargeEqualsReward(st: EvmState, ctx: Context, tx: Tx, revm: Revm, journal: World, gas: Gas)
    requires tx.PaysRollupFee() && PreExecuted(st, ctx, tx, revm).error.None? && SettlesLimit(gas, tx)
    ensures var l1Cost := Deducted(st, ctx, tx, revm) - GasCharge(ctx, tx);
            && 0 <= l1Cost <= U64_MAX
            && Reward(PreExecuted(st, ctx, tx, revm).state.(journal := journal), ctx, tx, gas)
            == Success(Product(tx.EffectiveGasPrice(ctx.block.basefee), gas.Used()) + l1Cost)
  {
    DeductedExact(st, ctx, tx, revm);
    RewardIsFeePaid(st, PreExecuted(st, ctx, tx, revm).state.(journal := journal), ctx, tx, gas);
  }

  /** And that fee is the documented formula of the counted bytes over the committed slots, floored once and capped. */
  lemma FeeOwedIsIdeal(db: World, ctx: Context, tx: Tx)
    requires tx.PaysRollupFee() && tx.rlpBytes.Some? && FeeInputsOk(ctx.cfg.spec, tx.FeeInputs())
    ensures RollupFeeOwed(db, ctx, tx)
         == Min(ChargedIdeal(ReadOracle(db.storage), ctx.cfg.spec, tx.FeeInputs()).Floor, U64_MAX)
    ensures CountsWithoutWrap(ctx.cfg.spec, tx.FeeInputs()) ==>
              RollupFeeOwed(db, ctx, tx) == Min(IdealFee(ReadOracle(db.storage), ctx.cfg.spec, tx.FeeInputs()).Floor, U64_MAX)
  {
    FeeIsIdealFloorCapped(db.storage, ctx.cfg.spec, ctx.cfg.spec, tx.FeeInputs());
  }

  lemma StalePreExecution(st: EvmState, stale: L1BlockInfo, ctx: Context, tx: Tx, revm: Revm)
    ensures var pre, other := PreExecuted(st, ctx, tx, revm), PreExecuted(st.(chain := stale), ctx, tx, revm);
            if tx.PaysRollupFee() then other == pre
            else other.error == pre.error && other.state == pre.state.(chain := stale)
  {
    assert st.(chain := stale).View() == st.View();
  }

  /** After pre-execution only paying transactions read the snapshot. */
  lemma StaleReward(st: EvmState, stale: L1BlockInfo, ctx: Context, tx: Tx, gas: Gas)
    requires !tx.PaysRollupFee() && gas.Valid()
    ensures var after, other := Rewarded(st, ctx, tx, gas), Rewarded(st.(chain := stale), ctx, tx, gas);
            other.error == after.error && other.state == after.state.(chain := stale)
  {
  }

  /** A transaction's outcome never depends on the snapshot an earlier transaction left behind. */
  lemma StaleSnapshotIrrelevant(st: EvmState, stale: L1BlockInfo, ctx: Context, tx: Tx, revm: Revm)
    requires ExecutesOk(tx, revm)
    ensures var step, other := Transacted(st, ctx, tx, revm), Transacted(st.(chain := stale), ctx, tx, revm);
            && other.receipt == step.receipt
            && other.state == step.state.(chain := other.state.chain)
            && (tx.PaysRollupFee() && Validated(tx, revm).None? ==> other.state == step.state)
  {
    StalePreExecution(st, stale, ctx, tx, revm);
    var pre := PreExecuted(st, ctx, tx, revm);
    if Validated(tx, revm).None? && pre.error.None? && !tx.PaysRollupFee() {
      var e := revm.execute(pre.state.View());
      assert PreExecuted(st.(chain := stale), ctx, tx, revm).state.View() == pre.state.View();
      var gas := FinalGas(e, tx, revm);
      StaleReward(Executed(pre.state, revm).Credit(tx.caller, Reimbursement(ctx, tx, gas)), stale, ctx, tx, gas);
    }
  }

  lemma PaidAndRewarded(st: EvmState, ctx: Context, tx: Tx, revm: Revm, gas: Gas)
    requires !tx.IsL1Msg() && PreExecuted(st, ctx, tx, revm).error.None? && SettlesLimit(gas, tx)
    ensures Deducted(st, ctx, tx, revm) == GasCharge(ctx, tx) + RollupFeeOwed(st.db, ctx, tx)
    ensures Reward(PreExecuted(st, ctx, tx, revm).state, ctx, tx, gas) == Success(FeePaid(st, ctx, tx, gas))
  {
    DeductedExact(st, ctx, tx, revm);
    RewardIsFeePaid(st, PreExecuted(st, ctx, tx, revm).state, ctx, tx, gas);
  }

  /**
   * Uncommitted writes never move the fee: with any other journal over the same database, oracle slots
   * rewritten or not, a transaction accepted under both is deducted the same amount and earns the
   * beneficiary the same reward for the same gas.
   */
  lemma JournalDoesNotMoveFee(st: EvmState, journal: World, ctx: Context, tx: Tx, revm: Revm, gas: Gas)
    requires !tx.IsL1Msg() && SettlesLimit(gas, tx)
    requires PreExecuted(st, ctx, tx, revm).error.None?
    requires PreExecuted(st.(journal := journal), ctx, tx, revm).error.None?
    ensures Deducted(st.(journal := journal), ctx, tx, revm) == Deducted(st, ctx, tx, revm)
    ensures Reward(PreExecuted(st.(journal := journal), ctx, tx, revm).state, ctx, tx, gas)
         == Reward(PreExecuted(st, ctx, tx, revm).state, ctx, tx, gas)
  {
    PaidAndRewarded(st, ctx, tx, revm, gas);
    PaidAndRewarded(st.(journal := journal), ctx, tx, revm, gas);
  }

  /** Once finalized and committed they do: the next transaction is deducted the fee of the slots then in view. */
  lemma CommitMovesFee(st: EvmState, ctx: Context, tx: Tx, revm: Revm)
    requires !tx.IsL1Msg() && PreExecuted(Applied(st, FinalizeAndCommit), ctx, tx, revm).error.None?
    ensures Deducted(Applied(st, FinalizeAndCommit), ctx, tx, revm)
         == GasCharge(ctx, tx) + RollupFeeOwed(st.View(), ctx, tx)
  {
    CommitKeepsView(st);
    PreExecutionExact(Applied(st, FinalizeAndCommit), ctx, tx, revm);
  }
}
