/** The handler and the EVM it drives, as the mutations the source performs, phase by phase. */
module Handler {
  import opened Wrappers
  import opened Primitives
  import opened Spec
  import opened L1Block
  import opened State
  import opened GasAccounting
  import opened Lifecycle
  import Ledger

  /** The outcome of the first frame; its gas record is rewritten in place by the settlement phases. */
  class FrameResult {
    const result: InstructionResult
    var gas: Gas

    constructor (result: InstructionResult, gas: Gas)
      ensures this.result == result && this.gas == gas
    {
      this.result := result;
      this.gas := gas;
    }
  }

  class ScrollEvm {
    var db: World
    var journal: World
    var chain: L1BlockInfo
    var cfg: Cfg
    var block: Block
    var tx: Tx

    constructor (db: World, cfg: Cfg, block: Block, tx: Tx)
      ensures State() == EvmState(db, EMPTY_WORLD, DEFAULT_L1_BLOCK_INFO)
      ensures this.cfg == cfg && this.block == block && this.tx == tx
    {
      this.db, this.journal, this.chain := db, EMPTY_WORLD, DEFAULT_L1_BLOCK_INFO;
      this.cfg, this.block, this.tx := cfg, block, tx;
    }

    function State(): EvmState
      reads this
    {
      EvmState(db, journal, chain)
    }

    function Context(): Context
      reads this
    {
      Lifecycle.Context(cfg, block)
    }

    // ----- the journal

    method LoadAccount(a: Address) returns (account: Account)
      ensures account == State().Account(a)
    {
      if a in journal.accounts {
        account := journal.accounts[a];
      } else if a in db.accounts {
        account := db.accounts[a];
      } else {
        account := EMPTY_ACCOUNT;
      }
    }

    method StoreAccount(a: Address, account: Account)
      modifies `journal
      ensures State() == old(State()).SetAccount(a, account)
    {
      journal := journal.(accounts := journal.accounts[a := account]);
    }

    method BalanceIncr(a: Address, amount: u256)
      modifies `journal
      ensures State() == old(State()).Credit(a, amount)
    {
      var account := LoadAccount(a);
      StoreAccount(a, account.(balance := SaturatingAdd(account.balance, amount)));
    }

    // ----- execution API

    /**
     * Run one transaction, leaving its writes in the journal. With an execution that moves value without
     * creating any, the supply is what it was, and a rejected transaction leaves no trace.
     */
    method TransactOne(tx: Tx, revm: Revm) returns (receipt: Receipt)
      requires ExecutesOk(tx, revm)
      modifies `tx, `journal, `chain
      ensures this.tx == tx
      ensures Step(State(), receipt) == Transacted(old(State()), Context(), tx, revm)
      ensures Ledger.Admissible(Context(), tx, revm) && Ledger.ZeroPricedIfL1(tx) && old(State().Supply()) <= U256_MAX ==>
                && State().Supply() == old(State().Supply())
                && (receipt.Rejected? ==> journal == old(journal))
    {
      this.tx := tx;
      receipt := Run(this, revm);
      if Ledger.Admissible(Context(), tx, revm) && Ledger.ZeroPricedIfL1(tx) && old(State().Supply()) <= U256_MAX {
        Ledger.TransactionLedger(old(State()), Context(), tx, revm);
      }
    }

    method Finalize() returns (changes: World)
      modifies `journal
      ensures (State(), changes) == Finalized(old(State()))
      ensures changes == old(journal) && journal.accounts == map[] && journal.storage == map[]
    {
      changes := journal;
      journal := EMPTY_WORLD;
    }

    method Commit(changes: World)
      modifies `db
      ensures State() == Committed(old(State()), changes)
      ensures db.accounts == old(db.accounts) + changes.accounts && db.storage == old(db.storage) + changes.storage
    {
      db := Overlay(db, changes);
    }
  }

  /** revm's deduction for ordinary and system transactions. */
  method MainnetValidateAndDeduct(evm: ScrollEvm, revm: Revm) returns (error: Option<Error>)
    modifies evm`journal
    ensures Checked(evm.State(), error) == MainnetDeducted(old(evm.State()), evm.Context(), evm.tx, revm)
  {
    if !revm.senderValid(evm.State().View()) {
      return Some(InvalidSender);
    }
    var account := evm.LoadAccount(evm.tx.caller);
    var spending := evm.tx.MaxBalanceSpending();
    if spending.None? {
      return Some(OverflowPaymentInTransaction);
    }
    if spending.value > account.balance {
      return Some(LackOfFundForMaxFee(spending.value, account.balance));
    }
    var price := evm.tx.EffectiveGasPrice(evm.block.basefee);
    ProductMonotone(evm.tx.gasLimit, price, evm.tx.gasLimit, evm.tx.gasPrice);
    account := account.(balance := SaturatingSub(account.balance, Product(evm.tx.gasLimit, price)));
    if evm.tx.isCall {
      account := account.(nonce := BumpNonce(account.nonce));
    }
    evm.StoreAccount(evm.tx.caller, account);
    error := None;
  }

  method ValidateAgainstStateAndDeductCaller(evm: ScrollEvm, revm: Revm) returns (error: Option<Error>)
    modifies evm`journal
    ensures Checked(evm.State(), error) == CallerDeducted(old(evm.State()), evm.Context(), evm.tx, revm)
  {
    var caller, isL1Msg, isSystemTx := evm.tx.caller, evm.tx.IsL1Msg(), evm.tx.IsSystemTx();
    if !isL1Msg {
      error := MainnetValidateAndDeduct(evm, revm);
      if error.Some? {
        return;
      }
    }
    if !isL1Msg && !isSystemTx {
      if evm.tx.rlpBytes.None? {
        return Some(MissingRlpBytes);
      }
      var cost := CalculateTxL1Cost(evm.chain, evm.cfg.spec, evm.tx.FeeInputs());
      if cost.Failure? {
        return Some(Panicked(cost.error));
      }
      var account := evm.LoadAccount(caller);
      if cost.value > account.balance {
        return Some(LackOfFundForMaxFee(cost.value, account.balance));
      }
      evm.StoreAccount(caller, account.(balance := SaturatingSub(account.balance, cost.value)));
    }
    if isL1Msg {
      var account := evm.LoadAccount(caller);
      var skipBalanceCheck := evm.tx.IsL1Msg() && evm.cfg.spec.IsEnabledIn(EUCLID);
      if !skipBalanceCheck {
        var spending := evm.tx.MaxBalanceSpending();
        if spending.None? {
          return Some(OverflowPaymentInTransaction);
        }
        if spending.value > account.balance {
          return Some(LackOfFundForMaxFee(spending.value, account.balance));
        }
      }
      if !evm.cfg.eip3607Disabled {
        if account.code != NoCode && account.code != Delegation {
          return Some(RejectCallerWithCode);
        }
      }
      if evm.tx.isCall {
        account := account.(nonce := BumpNonce(account.nonce));
      }
      evm.StoreAccount(caller, account);
    }
    error := None;
  }

  method PreExecution(evm: ScrollEvm, revm: Revm) returns (error: Option<Error>)
    modifies evm`journal, evm`chain
    ensures Checked(evm.State(), error) == PreExecuted(old(evm.State()), evm.Context(), evm.tx, revm)
  {
    if !evm.tx.IsL1Msg() && !evm.tx.IsSystemTx() {
      evm.chain := TryFetch(evm.db.storage, evm.cfg.spec);
    }
    error := ValidateAgainstStateAndDeductCaller(evm, revm);
  }

  method LastFrameResult(evm: ScrollEvm, frame: FrameResult)
    modifies frame`gas
    ensures frame.gas == AfterLastFrame(old(frame.gas), frame.result, evm.tx.gasLimit, evm.tx.IsL1Msg())
  {
    var remaining, refunded := frame.gas.remaining, frame.gas.refunded;
    frame.gas := Gas.NewSpent(evm.tx.gasLimit);
    if frame.result.IsOkOrRevert() {
      frame.gas := frame.gas.EraseCost(remaining);
    }
    if !evm.tx.IsL1Msg() && frame.result.Ok? {
      frame.gas := frame.gas.RecordRefund(refunded);
    }
  }

  method Refund(evm: ScrollEvm, frame: FrameResult, eip7702Refund: i64)
    requires frame.gas.Valid() && I64_MIN <= frame.gas.refunded + eip7702Refund <= I64_MAX
    modifies frame`gas
    ensures frame.gas == AfterRefund(old(frame.gas), evm.tx.IsL1Msg(), eip7702Refund)
  {
    if evm.tx.IsL1Msg() {
      return;
    }
    frame.gas := frame.gas.RecordRefund(eip7702Refund);
    frame.gas := frame.gas.SetFinalRefund();
  }

  method Eip7623CheckGasFloor(evm: ScrollEvm, frame: FrameResult, floorGas: u64)
    requires frame.gas.Valid()
    modifies frame`gas
    ensures frame.gas == AfterFloor(old(frame.gas), evm.tx.IsL1Msg(), floorGas)
  {
    if evm.tx.IsL1Msg() {
      return;
    }
    if frame.gas.Used() < floorGas {
      frame.gas := frame.gas.SetSpent(floorGas);
      frame.gas := frame.gas.(refunded := 0);
    }
  }

  /** revm's reimbursement, which the Scroll handler does not override. */
  method ReimburseCaller(evm: ScrollEvm, frame: FrameResult)
    requires frame.gas.remaining + AsU64(frame.gas.refunded) <= U64_MAX
    modifies evm`journal
    ensures evm.State() == old(evm.State()).Credit(evm.tx.caller, Reimbursement(evm.Context(), evm.tx, frame.gas))
  {
    evm.BalanceIncr(evm.tx.caller, Reimbursement(evm.Context(), evm.tx, frame.gas));
  }

  method RewardBeneficiary(evm: ScrollEvm, frame: FrameResult) returns (error: Option<Error>)
    requires frame.gas.Valid()
    modifies evm`journal
    ensures Checked(evm.State(), error) == Rewarded(old(evm.State()), evm.Context(), evm.tx, frame.gas)
  {
    if evm.tx.IsL1Msg() {
      return None;
    }
    var effectiveGasPrice := evm.tx.EffectiveGasPrice(evm.block.basefee);
    var l1Cost: u256 := 0;
    if !evm.tx.IsSystemTx() {
      if evm.tx.rlpBytes.None? {
        return Some(MissingRlpBytes);
      }
      var cost := CalculateTxL1Cost(evm.chain, evm.cfg.spec, evm.tx.FeeInputs());
      if cost.Failure? {
        return Some(Panicked(cost.error));
      }
      l1Cost := cost.value;
    }
    var reward := SaturatingAdd(SaturatingMul(effectiveGasPrice, frame.gas.Used()), l1Cost);
    evm.BalanceIncr(evm.block.beneficiary, reward);
    error := None;
  }

  /** All phases in order; on an error the journal is put back, on a panic nothing is. */
  method Run(evm: ScrollEvm, revm: Revm) returns (receipt: Receipt)
    requires ExecutesOk(evm.tx, revm)
    modifies evm`journal, evm`chain
    ensures Step(evm.State(), receipt) == Transacted(old(evm.State()), evm.Context(), evm.tx, revm)
  {
    var checkpoint := evm.journal;
    var error := Validated(evm.tx, revm);
    if error.Some? {
      return Rejected(error.value);
    }
    error := PreExecution(evm, revm);
    if error.Some? {
      if !error.value.Panicked? {
        evm.journal := checkpoint;
      }
      return Rejected(error.value);
    }
    var execution := revm.execute(evm.State().View());
    evm.journal := Overlay(evm.journal, execution.writes);
    var frame := new FrameResult(execution.result, FrameGas(execution, evm.tx, revm));
    LastFrameResult(evm, frame);
    Refund(evm, frame, execution.eip7702Refund);
    Eip7623CheckGasFloor(evm, frame, revm.floorGas);
    assert frame.gas == FinalGas(execution, evm.tx, revm);
    ReimburseCaller(evm, frame);
    error := RewardBeneficiary(evm, frame);
    if error.Some? {
      if !error.value.Panicked? {
        evm.journal := checkpoint;
      }
      return Rejected(error.value);
    }
    receipt := Included(frame.gas);
  }
}
