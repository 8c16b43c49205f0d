/** The frame's gas record and what each settlement phase does to it. */
module GasAccounting {
  import opened Primitives

  datatype InstructionResult = Ok | Revert | Halt {
    predicate IsOkOrRevert() {
      Ok? || Revert?
    }
  }

  /** Rust's `as u64` on a signed 64-bit value. */
  function AsU64(x: i64): u64 {
    if x < 0 then x + U64_MAX + 1 else x
  }

  /** revm's gas record. */
  datatype Gas = Gas(limit: u64, remaining: u64, refunded: i64) {

    predicate Valid() {
      remaining <= limit
    }

    function Spent(): u64
      requires Valid()
    {
      limit - remaining
    }

    function Used(): u64
      requires Valid()
    {
      if AsU64(refunded) <= Spent() then Spent() - AsU64(refunded) else 0
    }

    static function NewSpent(limit: u64): Gas {
      Gas(limit, 0, 0)
    }

    function EraseCost(returned: u64): Gas
      requires remaining + returned <= U64_MAX
    {
      this.(remaining := remaining + returned)
    }

    function RecordRefund(refund: i64): Gas
      requires I64_MIN <= refunded + refund <= I64_MAX
    {
      this.(refunded := refunded + refund)
    }

    /** EIP-3529: at most a fifth of the gas spent is refunded. */
    function SetFinalRefund(): Gas
      requires Valid()
    {
      this.(refunded := Min(AsU64(refunded), Spent() / 5))
    }

    function SetSpent(spent: u64): Gas {
      this.(remaining := if spent <= limit then limit - spent else 0)
    }
  }

  /** `last_frame_result`: rebuild the record for the whole transaction; L1 messages earn no refund. */
  function AfterLastFrame(frame: Gas, result: InstructionResult, gasLimit: u64, isL1Msg: bool): Gas {
    var spent := Gas.NewSpent(gasLimit);
    var returned := if result.IsOkOrRevert() then spent.EraseCost(frame.remaining) else spent;
    if !isL1Msg && result.Ok? then returned.RecordRefund(frame.refunded) else returned
  }

  /** `refund`: add the EIP-7702 refund, then cap; skipped for L1 messages. */
  function AfterRefund(gas: Gas, isL1Msg: bool, eip7702Refund: i64): Gas
    requires gas.Valid()
    requires I64_MIN <= gas.refunded + eip7702Refund <= I64_MAX
  {
    if isL1Msg then gas else gas.RecordRefund(eip7702Refund).SetFinalRefund()
  }

  /** `eip7623_check_gas_floor`: charge at least the calldata floor; skipped for L1 messages. */
  function AfterFloor(gas: Gas, isL1Msg: bool, floorGas: u64): Gas
    requires gas.Valid()
  {
    if isL1Msg || gas.Used() >= floorGas then gas else gas.SetSpent(floorGas).(refunded := 0)
  }

  /** A finished frame's gas within the transaction's limit, with refunds that fit the counter. */
  predicate FrameOk(frame: Gas, gasLimit: u64, eip7702Refund: i64) {
    && frame.remaining <= gasLimit
    && I64_MIN <= eip7702Refund + frame.refunded <= I64_MAX
  }

  function SettledGas(frame: Gas, result: InstructionResult, gasLimit: u64, isL1Msg: bool, eip7702Refund: i64, floorGas: u64): Gas
    requires FrameOk(frame, gasLimit, eip7702Refund)
  {
    AfterFloor(AfterRefund(AfterLastFrame(frame, result, gasLimit, isL1Msg), isL1Msg, eip7702Refund), isL1Msg, floorGas)
  }

  // ----- what the phases add up to

  /** Gas the execution burned: all of the limit unless the frame returned or reverted. */
  function Burned(frame: Gas, result: InstructionResult, gasLimit: u64): u64
    requires frame.remaining <= gasLimit
  {
    if result.IsOkOrRevert() then gasLimit - frame.remaining else gasLimit
  }

  /** The refund an ordinary transaction is entitled to before the cap; a negative one is read as unsigned. */
  function RefundClaim(frame: Gas, result: InstructionResult, eip7702Refund: i64): u64
    requires I64_MIN <= eip7702Refund + frame.refunded <= I64_MAX
  {
    (eip7702Refund + (if result.Ok? then frame.refunded else 0)) % 0x1_0000_0000_0000_0000
  }

  lemma RefundedExact(frame: Gas, result: InstructionResult, gasLimit: u64, eip7702Refund: i64)
    requires FrameOk(frame, gasLimit, eip7702Refund)
    ensures var burned := Burned(frame, result, gasLimit);
            AfterRefund(AfterLastFrame(frame, result, gasLimit, false), false, eip7702Refund) ==
            Gas(gasLimit, gasLimit - burned, Min(RefundClaim(frame, result, eip7702Refund), burned / 5))
  {
  }

  /**
   * Every unit of the limit is used, returned or refunded, for any frame result and any refund counters;
   * the used gas is the burned gas less the capped refund, or the floor if that is larger.
   */
  lemma GasPartition(frame: Gas, result: InstructionResult, gasLimit: u64, eip7702Refund: i64, floorGas: u64)
    requires FrameOk(frame, gasLimit, eip7702Refund) && floorGas <= gasLimit
    ensures var g := SettledGas(frame, result, gasLimit, false, eip7702Refund, floorGas);
            var burned := Burned(frame, result, gasLimit);
            && g.Valid() && g.limit == gasLimit && 0 <= g.refunded
            && g.remaining + g.Used() + g.refunded == gasLimit
            && g.Used() == Max(floorGas, burned - Min(RefundClaim(frame, result, eip7702Refund), burned / 5))
            && (g.refunded <= g.Spent() / 5 || (g.Spent() == floorGas && g.refunded == 0))
  {
    RefundedExact(frame, result, gasLimit, eip7702Refund);
  }

  /** An L1 message is charged what it burned: no refund of either kind, no floor. */
  lemma L1MessageGas(frame: Gas, result: InstructionResult, gasLimit: u64, eip7702Refund: i64, floorGas: u64)
    requires FrameOk(frame, gasLimit, eip7702Refund)
    ensures var g := SettledGas(frame, result, gasLimit, true, eip7702Refund, floorGas);
            g == Gas(gasLimit, gasLimit - Burned(frame, result, gasLimit), 0)
            && g.Used() == Burned(frame, result, gasLimit)
  {
  }
}
