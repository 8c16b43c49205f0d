/** The rollup fee: oracle slots, the four fork formulas in 256-bit saturating arithmetic, and the cap. */
module L1Block {
  import opened Wrappers
  import opened Primitives
  import opened Spec

  const ZERO_BYTE_COST: u64 := 4
  const NON_ZERO_BYTE_COST: u64 := 16
  const TX_L1_COMMIT_EXTRA_COST: u256 := 64
  const TX_L1_FEE_PRECISION: u256 := 1_000_000_000
  const L1_GAS_PRICE_ORACLE_ADDRESS: Address := 0x5300000000000000000000000000000000000002
  const L1_BASE_FEE_SLOT: u256 := 1
  const L1_OVERHEAD_SLOT: u256 := 2
  const L1_SCALAR_SLOT: u256 := 3
  const L1_BLOB_BASE_FEE_SLOT: u256 := 5
  const L1_COMMIT_SCALAR_SLOT: u256 := 6
  const L1_BLOB_SCALAR_SLOT: u256 := 7
  const PENALTY_THRESHOLD_SLOT: u256 := 9
  const PENALTY_FACTOR_SLOT: u256 := 10

  /** Contract storage by account and slot; a slot never written reads zero. */
  type Storage = map<(Address, u256), u256>

  function StorageAt(storage: Storage, address: Address, slot: u256): u256 {
    if (address, slot) in storage then storage[(address, slot)] else 0
  }

  function OracleSlot(storage: Storage, slot: u256): u256 {
    StorageAt(storage, L1_GAS_PRICE_ORACLE_ADDRESS, slot)
  }

  datatype L1BlockInfo = L1BlockInfo(
    l1BaseFee: u256,
    l1FeeOverhead: u256,
    l1BaseFeeScalar: u256,
    l1BlobBaseFee: Option<u256>,
    l1CommitScalar: Option<u256>,
    l1BlobScalar: Option<u256>,
    calldataGas: Option<u256>,
    penaltyThreshold: Option<u256>,
    penaltyFactor: Option<u256>)

  const DEFAULT_L1_BLOCK_INFO := L1BlockInfo(0, 0, 0, None, None, None, None, None, None)

  /** The ways the fee computation can panic. */
  datatype Panic =
    | MissingField
    | MissingCompressionRatio
    | CompressionRatioBelowOne
    | MissingCompressedSize
    | CompressedSizeAboveSize

  /** What a transaction is charged for: its encoding and, in later forks, how well it compresses. */
  datatype FeeInputs = FeeInputs(rlp: Bytes, compressionRatio: Option<u256>, compressedSize: Option<u64>)

  function TryFetch(storage: Storage, spec: ScrollSpecId): L1BlockInfo {
    var base := DEFAULT_L1_BLOCK_INFO.(
                l1BaseFee := OracleSlot(storage, L1_BASE_FEE_SLOT),
                l1FeeOverhead := OracleSlot(storage, L1_OVERHEAD_SLOT),
                l1BaseFeeScalar := OracleSlot(storage, L1_SCALAR_SLOT));
    if !spec.IsEnabledIn(CURIE) then base else
    var commitScalar := OracleSlot(storage, L1_COMMIT_SCALAR_SLOT);
    var curie := base.(
                 l1BlobBaseFee := Some(OracleSlot(storage, L1_BLOB_BASE_FEE_SLOT)),
                 l1CommitScalar := Some(commitScalar),
                 l1BlobScalar := Some(OracleSlot(storage, L1_BLOB_SCALAR_SLOT)),
                 calldataGas := Some(SaturatingMul(commitScalar, base.l1BaseFee)));
    if !spec.IsEnabledIn(FEYNMAN) then curie else
    curie.(
    penaltyThreshold := Some(OracleSlot(storage, PENALTY_THRESHOLD_SLOT)),
    penaltyFactor := Some(OracleSlot(storage, PENALTY_FACTOR_SLOT)))
  }

  function Expect(field: Option<u256>): Result<u256, Panic> {
    match field
    case Some(v) => Success(v)
    case None => Failure(MissingField)
  }

  function ByteCost(b: byte): u64 {
    if b == 0 then ZERO_BYTE_COST else NON_ZERO_BYTE_COST
  }

  /** The 64-bit left fold over the calldata, wrapping as an optimised build does. */
  function DataGasFold(acc: u64, input: seq<byte>): u64
    decreases |input|
  {
    if input == [] then acc
    else DataGasFold((acc + ByteCost(input[0])) % (U64_MAX + 1), input[1..])
  }

  function DataGas(info: L1BlockInfo, input: Bytes, spec: ScrollSpecId): Result<u256, Panic> {
    if !spec.IsEnabledIn(CURIE) then
      Success(SaturatingAdd(SaturatingAdd(DataGasFold(0, input), info.l1FeeOverhead), TX_L1_COMMIT_EXTRA_COST))
    else
      var blobBaseFee :- Expect(info.l1BlobBaseFee);
      var blobScalar :- Expect(info.l1BlobScalar);
      Success(SaturatingMul(SaturatingMul(|input|, blobBaseFee), blobScalar))
  }

  function CalculateTxL1CostShanghai(info: L1BlockInfo, input: Bytes, spec: ScrollSpecId): Result<u256, Panic> {
    var txL1Gas :- DataGas(info, input, spec);
    Success(SaturatingMul(SaturatingMul(txL1Gas, info.l1BaseFee), info.l1BaseFeeScalar) / TX_L1_FEE_PRECISION)
  }

  function CalculateTxL1CostCurie(info: L1BlockInfo, input: Bytes, spec: ScrollSpecId): Result<u256, Panic> {
    var blobGas :- DataGas(info, input, spec);
    var calldataGas :- Expect(info.calldataGas);
    Success(SaturatingAdd(calldataGas, blobGas) / TX_L1_FEE_PRECISION)
  }

  function CalculateTxL1CostFeynman(info: L1BlockInfo, input: Bytes, compressionRatio: u256): Result<u256, Panic> {
    if compressionRatio < TX_L1_FEE_PRECISION then Failure(CompressionRatioBelowOne) else
    var execScalar :- Expect(info.l1CommitScalar);
    var compressedBlobScalar :- Expect(info.l1BlobScalar);
    var blobBaseFee :- Expect(info.l1BlobBaseFee);
    var penaltyThreshold :- Expect(info.penaltyThreshold);
    var penaltyFactor :- Expect(info.penaltyFactor);
    var componentExec := SaturatingMul(execScalar, info.l1BaseFee);
    var componentBlob := SaturatingMul(compressedBlobScalar, blobBaseFee);
    var feePerByte := SaturatingAdd(componentExec, componentBlob);
    var penalty := if compressionRatio >= penaltyThreshold then TX_L1_FEE_PRECISION else penaltyFactor;
    Success(SaturatingMul(SaturatingMul(|input|, feePerByte), penalty) / TX_L1_FEE_PRECISION / TX_L1_FEE_PRECISION)
  }

  /** Base term plus penalty term, scaled down. */
  function GalileoTerms(feePerByte: u256, compressedSize: u64, penaltyFactor: u256): u256
    requires 1 <= penaltyFactor
  {
    var baseTerm := SaturatingMul(feePerByte, compressedSize);
    DivBounds(SaturatingMul(baseTerm, compressedSize), penaltyFactor);
    var penaltyTerm := SaturatingMul(baseTerm, compressedSize) / penaltyFactor;
    SaturatingAdd(baseTerm, penaltyTerm) / TX_L1_FEE_PRECISION
  }

  function CalculateTxL1CostGalileo(info: L1BlockInfo, txSize: u64, compressedSize: u64): Result<u256, Panic> {
    if compressedSize > txSize then Failure(CompressedSizeAboveSize) else
    var execScalar :- Expect(info.l1CommitScalar);
    var blobScalar :- Expect(info.l1BlobScalar);
    var blobBaseFee :- Expect(info.l1BlobBaseFee);
    var factor :- Expect(info.penaltyFactor);
    var penaltyFactor := if factor == 0 then 1 else factor;
    var componentExec := SaturatingMul(execScalar, info.l1BaseFee);
    var componentBlob := SaturatingMul(blobScalar, blobBaseFee);
    var feePerByte := SaturatingAdd(componentExec, componentBlob);
    Success(GalileoTerms(feePerByte, compressedSize, penaltyFactor))
  }

  function CalculateTxL1Cost(info: L1BlockInfo, spec: ScrollSpecId, tx: FeeInputs): Result<u64, Panic> {
    var l1Cost :-
      if !spec.IsEnabledIn(CURIE) then
        CalculateTxL1CostShanghai(info, tx.rlp, spec)
      else if !spec.IsEnabledIn(FEYNMAN) then
        CalculateTxL1CostCurie(info, tx.rlp, spec)
      else if !spec.IsEnabledIn(GALILEO) then
        match tx.compressionRatio {
          case None => Failure(MissingCompressionRatio)
          case Some(ratio) => CalculateTxL1CostFeynman(info, tx.rlp, ratio)
        }
      else
        match tx.compressedSize {
          case None => Failure(MissingCompressedSize)
          case Some(size) => CalculateTxL1CostGalileo(info, |tx.rlp|, size)
        };
    Success(Min(l1Cost, U64_MAX))
  }

  // ----- when the computation is defined

  /** The caller's obligations, fork by fork: what the asserts and unwraps on the transaction demand. */
  predicate FeeInputsOk(spec: ScrollSpecId, tx: FeeInputs) {
    && (spec == FEYNMAN ==> tx.compressionRatio.Some? && tx.compressionRatio.value >= TX_L1_FEE_PRECISION)
    && (spec == GALILEO ==> tx.compressedSize.Some? && tx.compressedSize.value <= |tx.rlp|)
  }

  /** What is wrong with inputs that violate their fork's obligation. */
  function BadInput(spec: ScrollSpecId, tx: FeeInputs): Panic {
    if spec == FEYNMAN then
      if tx.compressionRatio.None? then MissingCompressionRatio else CompressionRatioBelowOne
    else
      if tx.compressedSize.None? then MissingCompressedSize else CompressedSizeAboveSize
  }

  /** Only the transaction's own inputs can panic, each in its own way; a missing oracle field is never reached. */
  lemma PanicsExactlyOnBadInputs(storage: Storage, fetched: ScrollSpecId, spec: ScrollSpecId, tx: FeeInputs)
    requires fetched.IsEnabledIn(spec)
    ensures CalculateTxL1Cost(TryFetch(storage, fetched), spec, tx).Success? <==> FeeInputsOk(spec, tx)
    ensures !FeeInputsOk(spec, tx) ==> CalculateTxL1Cost(TryFetch(storage, fetched), spec, tx) == Failure(BadInput(spec, tx))
  {
  }

  /** Computing for a fork never depends on which later fork the oracle was fetched under. */
  lemma FetchForkIrrelevant(storage: Storage, fetched: ScrollSpecId, spec: ScrollSpecId, tx: FeeInputs)
    requires fetched.IsEnabledIn(spec)
    ensures CalculateTxL1Cost(TryFetch(storage, fetched), spec, tx)
         == CalculateTxL1Cost(TryFetch(storage, spec), spec, tx)
  {
  }

  /** A fetch under an earlier fork is too poor exactly when it crosses the Curie or the Feynman boundary. */
  lemma EarlierFetchMissesFields(storage: Storage, fetched: ScrollSpecId, spec: ScrollSpecId, tx: FeeInputs)
    requires FeeInputsOk(spec, tx)
    ensures CalculateTxL1Cost(TryFetch(storage, fetched), spec, tx) == Failure(MissingField)
       <==> || (spec.IsEnabledIn(CURIE) && !fetched.IsEnabledIn(CURIE))
            || (spec.IsEnabledIn(FEYNMAN) && !fetched.IsEnabledIn(FEYNMAN))
  {
  }
}
