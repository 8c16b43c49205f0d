/**
 * The Scroll transaction lifecycle as functions on the EVM's abstract state. `Handler` implements
 * these phases by mutation; `Ledger` proves what whole runs of them keep.
 */
module Lifecycle {
  import opened Wrappers
  import opened Primitives
  import opened Spec
  import opened L1Block
  import opened State
  import opened GasAccounting

  const L1_MESSAGE_TYPE: byte := 0x7E
  const SYSTEM_ADDRESS: Address := 0xffff_ffff_ffff_ffff_ffff_ffff_ffff_ffff_ffff_fffe

  datatype Cfg = Cfg(spec: ScrollSpecId, eip3607Disabled: bool)

  datatype Block = Block(basefee: u64, beneficiary: Address)

  datatype Tx = Tx(
    txType: byte,
    caller: Address,
    isCall: bool,
    gasLimit: u64,
    gasPrice: u128,
    maxPriorityFee: Option<u128>,
    value: u256,
    rlpBytes: Option<Bytes>,
    compressionRatio: Option<u256>,
    compressedSize: Option<u64>)
  {
    predicate IsL1Msg() {
      txType == L1_MESSAGE_TYPE
    }

    predicate IsSystemTx() {
      caller == SYSTEM_ADDRESS
    }

    /** Transactions that pay the rollup fee. */
    predicate PaysRollupFee() {
      !IsL1Msg() && !IsSystemTx()
    }

    function FeeInputs(): FeeInputs
      requires rlpBytes.Some?
    {
      L1Block.FeeInputs(rlpBytes.value, compressionRatio, compressedSize)
    }

    function EffectiveGasPrice(basefee: u64): (price: u128)
      ensures price <= gasPrice
    {
      if txType == 0 || txType == 1 || maxPriorityFee.None? then gasPrice
      else Min(gasPrice, Min(basefee + maxPriorityFee.value, U128_MAX))
    }

    /** `gas_limit * gas_price` in 128 bits plus the value in 256 bits; None where either overflows. */
    function MaxBalanceSpending(): (r: Option<u256>) {
      if gasLimit * gasPrice > U128_MAX || Product(gasLimit, gasPrice) + value > U256_MAX then None
      else Some(Product(gasLimit, gasPrice) + value)
    }
  }

  /** What executing the transaction body did: journal writes, outcome, gas left and refund counters. */
  datatype Execution = Execution(writes: World, result: InstructionResult, remaining: u64, refunded: i64, eip7702Refund: i64)

  /** Everything decided inside revm: its own validation, the intrinsic gas, and the execution itself. */
  datatype Revm = Revm(envValid: bool, senderValid: World -> bool, initialGas: u64, floorGas: u64, execute: World -> Execution)

  datatype Error =
    | InvalidEnv
    | CallGasCostMoreThanGasLimit
    | GasFloorMoreThanGasLimit
    | InvalidSender
    | OverflowPaymentInTransaction
    | LackOfFundForMaxFee(fee: u256, balance: u256)
    | RejectCallerWithCode
    | MissingRlpBytes
    | Panicked(panic: Panic)

  datatype Context = Context(cfg: Cfg, block: Block)

  /** The committed database, the journal of uncommitted writes over it, and the oracle snapshot. */
  datatype EvmState = EvmState(db: World, journal: World, chain: L1BlockInfo) {

    /** What the EVM sees. Only `L1BlockInfo::try_fetch` looks past it, at the committed database. */
    function View(): World {
      Overlay(db, journal)
    }

    function Account(a: Address): Account {
      AccountAt(View().accounts, a)
    }

    function Balance(a: Address): u256 {
      Account(a).balance
    }

    function SetAccount(a: Address, account: Account): EvmState {
      this.(journal := journal.(accounts := journal.accounts[a := account]))
    }

    /** `balance_incr`, saturating. */
    function Credit(a: Address, amount: u256): EvmState {
      SetAccount(a, Account(a).(balance := SaturatingAdd(Balance(a), amount)))
    }

    ghost function Supply(): nat {
      TotalSupply(View().accounts)
    }
  }

  /** A state reached together with the error, if any, that stopped the phase there. */
  datatype Checked = Checked(state: EvmState, error: Option<Error>)

  function BumpNonce(nonce: u64): u64 {
    if nonce < U64_MAX then nonce + 1 else U64_MAX
  }

  /** revm's own deduction: check the worst-case spending, charge the gas limit at the effective price, bump the nonce. */
  function MainnetDeducted(st: EvmState, ctx: Context, tx: Tx, revm: Revm): Checked {
    var account := st.Account(tx.caller);
    if !revm.senderValid(st.View()) then Checked(st, Some(InvalidSender)) else
    match tx.MaxBalanceSpending()
    case None => Checked(st, Some(OverflowPaymentInTransaction))
    case Some(max) =>
      if max > account.balance then Checked(st, Some(LackOfFundForMaxFee(max, account.balance))) else
      ProductMonotone(tx.gasLimit, tx.EffectiveGasPrice(ctx.block.basefee), tx.gasLimit, tx.gasPrice);
      var charge := Product(tx.gasLimit, tx.EffectiveGasPrice(ctx.block.basefee));
      var nonce := if tx.isCall then BumpNonce(account.nonce) else account.nonce;
      Checked(st.SetAccount(tx.caller, account.(balance := SaturatingSub(account.balance, charge), nonce := nonce)), None)
  }

  /** The rollup fee of a paying transaction under the current snapshot. */
  function RollupCost(chain: L1BlockInfo, ctx: Context, tx: Tx): Result<u64, Error> {
    if tx.rlpBytes.None? then Failure(MissingRlpBytes) else
    match CalculateTxL1Cost(chain, ctx.cfg.spec, tx.FeeInputs())
    case Failure(panic) => Failure(Panicked(panic))
    case Success(cost) => Success(cost)
  }

  function RollupFeeDeducted(st: EvmState, ctx: Context, tx: Tx): Checked {
    match RollupCost(st.chain, ctx, tx)
    case Failure(e) => Checked(st, Some(e))
    case Success(cost) =>
      var account := st.Account(tx.caller);
      if cost > account.balance then Checked(st, Some(LackOfFundForMaxFee(cost, account.balance)))
      else Checked(st.SetAccount(tx.caller, account.(balance := SaturatingSub(account.balance, cost))), None)
  }

  function L1MessageChecked(st: EvmState, ctx: Context, tx: Tx): Checked {
    var account := st.Account(tx.caller);
    var spending := tx.MaxBalanceSpending();
    if !ctx.cfg.spec.IsEnabledIn(EUCLID) && spending.None? then
      Checked(st, Some(OverflowPaymentInTransaction))
    else if !ctx.cfg.spec.IsEnabledIn(EUCLID) && spending.value > account.balance then
      Checked(st, Some(LackOfFundForMaxFee(spending.value, account.balance)))
    else if !ctx.cfg.eip3607Disabled && account.code == Contract then
      Checked(st, Some(RejectCallerWithCode))
    else
      var nonce := if tx.isCall then BumpNonce(account.nonce) else account.nonce;
      Checked(st.SetAccount(tx.caller, account.(nonce := nonce)), None)
  }

  function CallerDeducted(st: EvmState, ctx: Context, tx: Tx, revm: Revm): Checked {
    if tx.IsL1Msg() then L1MessageChecked(st, ctx, tx) else
    var gas := MainnetDeducted(st, ctx, tx, revm);
    if gas.error.Some? || tx.IsSystemTx() then gas
    else RollupFeeDeducted(gas.state, ctx, tx)
  }

  function PreExecuted(st: EvmState, ctx: Context, tx: Tx, revm: Revm): Checked {
    var snapshot := if tx.PaysRollupFee() then st.(chain := TryFetch(st.db.storage, ctx.cfg.spec)) else st;
    CallerDeducted(snapshot, ctx, tx, revm)
  }

  /** revm's checks before any state is touched. */
  function Validated(tx: Tx, revm: Revm): Option<Error> {
    if !revm.envValid then Some(InvalidEnv)
    else if revm.initialGas > tx.gasLimit then Some(CallGasCostMoreThanGasLimit)
    else if revm.floorGas > tx.gasLimit then Some(GasFloorMoreThanGasLimit)
    else None
  }

  function Executed(st: EvmState, revm: Revm): EvmState {
    st.(journal := Overlay(st.journal, revm.execute(st.View()).writes))
  }

  /** revm pays back unspent and refunded gas, multiplying in 128 saturating bits. */
  function Reimbursement(ctx: Context, tx: Tx, gas: Gas): u128
    requires gas.remaining + AsU64(gas.refunded) <= U64_MAX
  {
    ProductNonNegative(tx.EffectiveGasPrice(ctx.block.basefee), gas.remaining + AsU64(gas.refunded));
    Min(tx.EffectiveGasPrice(ctx.block.basefee) * (gas.remaining + AsU64(gas.refunded)), U128_MAX)
  }

  /** What the beneficiary is paid; None where nothing is paid out at all. */
  function Reward(st: EvmState, ctx: Context, tx: Tx, gas: Gas): Result<u256, Error>
    requires gas.Valid()
  {
    var l1Cost :- if tx.IsSystemTx() then Success(0) else RollupCost(st.chain, ctx, tx);
    Success(SaturatingAdd(SaturatingMul(tx.EffectiveGasPrice(ctx.block.basefee), gas.Used()), l1Cost))
  }

  function Rewarded(st: EvmState, ctx: Context, tx: Tx, gas: Gas): Checked
    requires gas.Valid()
  {
    if tx.IsL1Msg() then Checked(st, None) else
    match Reward(st, ctx, tx, gas)
    case Failure(e) => Checked(st, Some(e))
    case Success(reward) => Checked(st.Credit(ctx.block.beneficiary, reward), None)
  }

  datatype Receipt = Included(gas: Gas) | Rejected(error: Error)

  datatype Step = Step(state: EvmState, receipt: Receipt)

  /** revm's promise about one execution: gas within the frame's allowance, refunds within their counter. */
  predicate ExecutionOk(e: Execution, tx: Tx, revm: Revm) {
    && e.remaining + revm.initialGas <= tx.gasLimit
    && I64_MIN <= e.refunded + e.eip7702Refund <= I64_MAX
  }

  ghost predicate ExecutesOk(tx: Tx, revm: Revm) {
    revm.initialGas <= tx.gasLimit ==> forall w :: ExecutionOk(revm.execute(w), tx, revm)
  }

  function FrameGas(e: Execution, tx: Tx, revm: Revm): Gas
    requires ExecutionOk(e, tx, revm)
  {
    Gas(tx.gasLimit - revm.initialGas, e.remaining, e.refunded)
  }

  function FinalGas(e: Execution, tx: Tx, revm: Revm): (gas: Gas)
    requires ExecutionOk(e, tx, revm) && revm.floorGas <= tx.gasLimit
    ensures gas.Valid() && gas.limit == tx.gasLimit
    ensures gas.refunded >= 0 && gas.remaining + gas.Used() + gas.refunded == tx.gasLimit
  {
    GasPartition(FrameGas(e, tx, revm), e.result, tx.gasLimit, e.eip7702Refund, revm.floorGas);
    L1MessageGas(FrameGas(e, tx, revm), e.result, tx.gasLimit, e.eip7702Refund, revm.floorGas);
    SettledGas(FrameGas(e, tx, revm), e.result, tx.gasLimit, tx.IsL1Msg(), e.eip7702Refund, revm.floorGas)
  }

  /** On an error the journal goes back to where the transaction found it; a panic unwinds past that. */
  function Discarded(before: EvmState, after: Checked): Step
    requires after.error.Some?
  {
    if after.error.value.Panicked? then Step(after.state, Rejected(after.error.value))
    else Step(after.state.(journal := before.journal), Rejected(after.error.value))
  }

  ghost function Transacted(st: EvmState, ctx: Context, tx: Tx, revm: Revm): Step
    requires ExecutesOk(tx, revm)
  {
    var invalid := Validated(tx, revm);
    if invalid.Some? then Step(st, Rejected(invalid.value)) else
    var pre := PreExecuted(st, ctx, tx, revm);
    if pre.error.Some? then Discarded(st, pre) else
    var gas := FinalGas(revm.execute(pre.state.View()), tx, revm);
    var reimbursed := Executed(pre.state, revm).Credit(tx.caller, Reimbursement(ctx, tx, gas));
    var rewarded := Rewarded(reimbursed, ctx, tx, gas);
    if rewarded.error.Some? then Discarded(st, rewarded)
    else Step(rewarded.state, Included(gas))
  }

  /** `finalize`: hand the journal out and start a fresh one. */
  function Finalized(st: EvmState): (EvmState, World) {
    (st.(journal := EMPTY_WORLD), st.journal)
  }

  /** `commit`: write a finalized journal to the database. */
  function Committed(st: EvmState, changes: World): EvmState {
    st.(db := Overlay(st.db, changes))
  }
}
