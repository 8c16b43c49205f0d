/**
 * What the rollup fee means. The documented formulas are written over the rationals, without
 * saturation or intermediate rounding; the 256-bit computation is their floor, capped at 2^64 - 1.
 */
module RollupFee {
  import opened Wrappers
  import opened Primitives
  import opened Spec
  import opened L1Block

  // ----- calldata gas

  /** 4 gas per zero byte, 16 per other byte, counted without overflow and without regard to order. */
  function CalldataGas(input: seq<byte>): nat {
    16 * |input| - 12 * multiset(input)[0]
  }

  lemma ReduceEarly(x: nat, y: nat)
    ensures (x % (U64_MAX + 1) + y) % (U64_MAX + 1) == (x + y) % (U64_MAX + 1)
  {
    var m := U64_MAX + 1;
    var r := (x % m + y) % m;
    var q := x / m + (x % m + y) / m;
    assert x + y == q * m + r;
    DivIs(x + y, m, q);
  }

  lemma {:induction false} FoldCountsBytes(acc: u64, input: seq<byte>)
    ensures DataGasFold(acc, input) == (acc + CalldataGas(input)) % (U64_MAX + 1)
    decreases |input|
  {
    if input != [] {
      var next := (acc + ByteCost(input[0])) % (U64_MAX + 1);
      assert input == [input[0]] + input[1..];
      FoldCountsBytes(next, input[1..]);
      CalldataGasConcat([input[0]], input[1..]);
      assert CalldataGas([input[0]]) == ByteCost(input[0]);
      ReduceEarly(acc + ByteCost(input[0]), CalldataGas(input[1..]));
    }
  }

  lemma ModIdentityIff(x: nat)
    ensures x % (U64_MAX + 1) == x <==> x <= U64_MAX
  {
  }

  /** The 64-bit fold is the exact count exactly when the count fits, which every input below 2^60 bytes does. */
  lemma DataGasFoldExact(input: seq<byte>)
    ensures DataGasFold(0, input) == CalldataGas(input) <==> CalldataGas(input) <= U64_MAX
    ensures |input| < 0x1000_0000_0000_0000 ==> DataGasFold(0, input) == CalldataGas(input)
  {
    FoldCountsBytes(0, input);
    ModIdentityIff(CalldataGas(input));
  }

  lemma CalldataGasConcat(a: seq<byte>, b: seq<byte>)
    ensures CalldataGas(a + b) == CalldataGas(a) + CalldataGas(b)
  {
    assert multiset(a + b) == multiset(a) + multiset(b);
  }

  /** The fold of two parts is the sum of their folds, wrapped once more. */
  lemma DataGasFoldConcat(a: seq<byte>, b: seq<byte>)
    ensures DataGasFold(0, a + b) == (DataGasFold(0, a) + DataGasFold(0, b)) % (U64_MAX + 1)
  {
    FoldCountsBytes(0, a);
    FoldCountsBytes(0, b);
    FoldCountsBytes(0, a + b);
    CalldataGasConcat(a, b);
    ReduceEarly(CalldataGas(a), CalldataGas(b) % (U64_MAX + 1));
    ReduceEarly(CalldataGas(b), CalldataGas(a));
  }

  /** Order independence of the fold itself, wrap-around included. */
  lemma DataGasFoldPermutation(a: seq<byte>, b: seq<byte>)
    requires multiset(a) == multiset(b)
    ensures DataGasFold(0, a) == DataGasFold(0, b)
  {
    assert |a| == |multiset(a)| == |b|;
    FoldCountsBytes(0, a);
    FoldCountsBytes(0, b);
  }

  // ----- the documented formulas

  datatype Oracle = Oracle(
    baseFee: u256,
    overhead: u256,
    scalar: u256,
    blobBaseFee: u256,
    commitScalar: u256,
    blobScalar: u256,
    penaltyThreshold: u256,
    penaltyFactor: u256)

  /** The gas price oracle's slots. */
  function ReadOracle(storage: Storage): Oracle {
    var slot := (n: u256) => StorageAt(storage, 0x5300000000000000000000000000000000000002, n);
    Oracle(baseFee := slot(1), overhead := slot(2), scalar := slot(3),
           blobBaseFee := slot(5), commitScalar := slot(6), blobScalar := slot(7),
           penaltyThreshold := slot(9), penaltyFactor := slot(10))
  }

  const PRECISION: real := 1_000_000_000.0

  /** A zero penalty factor counts as one. */
  function Sanitized(factor: u256): (p: u256)
    ensures 1 <= p
  {
    Max(factor, 1)
  }

  /** The scaled compression penalty: none at or above the threshold. */
  function Penalty(o: Oracle, ratio: u256): u256 {
    if ratio >= o.penaltyThreshold then TX_L1_FEE_PRECISION else o.penaltyFactor
  }

  /** Calldata gas, overhead and commit cost at the base fee, scaled. */
  function IdealShanghai(gas: nat, baseFee: nat, scalar: nat): real {
    gas as real * baseFee as real * scalar as real / PRECISION
  }

  /** The commit component plus a blob component proportional to the size. */
  function IdealCurie(commitScalar: nat, baseFee: nat, blobScalar: nat, size: nat, blobBaseFee: nat): real {
    (commitScalar as real * baseFee as real + blobScalar as real * size as real * blobBaseFee as real) / PRECISION
  }

  /** The size times the scaled fee per byte times the scaled penalty. */
  function IdealFeynman(size: nat, perByte: nat, penalty: nat): real {
    size as real * (perByte as real / PRECISION) * (penalty as real / PRECISION)
  }

  /** `fee_per_byte * compressed_size * (1 + compressed_size / penalty_factor)`, scaled. */
  function IdealGalileo(perByte: nat, size: nat, p: nat): real
    requires 1 <= p
  {
    perByte as real * size as real * (1.0 + size as real / p as real) / PRECISION
  }

  /** The exec and blob components of a byte. */
  function FeePerByte(o: Oracle): nat {
    Product(o.commitScalar, o.baseFee) + Product(o.blobScalar, o.blobBaseFee)
  }

  function IdealFee(o: Oracle, spec: ScrollSpecId, tx: FeeInputs): real
    requires FeeInputsOk(spec, tx)
  {
    match spec
    case SHANGHAI | BERNOULLI =>
      IdealShanghai(CalldataGas(tx.rlp) + o.overhead + 64, o.baseFee, o.scalar)
    case CURIE | DARWIN | EUCLID =>
      IdealCurie(o.commitScalar, o.baseFee, o.blobScalar, |tx.rlp|, o.blobBaseFee)
    case FEYNMAN =>
      IdealFeynman(|tx.rlp|, FeePerByte(o), Penalty(o, tx.compressionRatio.value))
    case GALILEO =>
      IdealGalileo(FeePerByte(o), tx.compressedSize.value, Sanitized(o.penaltyFactor))
  }

  // ----- the same formulas as one integer quotient

  function FeeNumerator(o: Oracle, spec: ScrollSpecId, tx: FeeInputs): nat
    requires FeeInputsOk(spec, tx)
  {
    if spec.BeforeCurie() then
      Product(Product(CalldataGas(tx.rlp) + o.overhead + 64, o.baseFee), o.scalar)
    else if spec.BeforeFeynman() then
      Product(o.commitScalar, o.baseFee) + Product(Product(|tx.rlp|, o.blobBaseFee), o.blobScalar)
    else if spec == FEYNMAN then
      Product(Product(|tx.rlp|, FeePerByte(o)), Penalty(o, tx.compressionRatio.value))
    else
      var size := tx.compressedSize.value;
      Product(Product(FeePerByte(o), size), Sanitized(o.penaltyFactor) + size)
  }

  function FeeDenominator(o: Oracle, spec: ScrollSpecId): (d: nat)
    ensures 0 < d
  {
    if spec.BeforeFeynman() then 1_000_000_000
    else if spec == FEYNMAN then 1_000_000_000_000_000_000
    else 1_000_000_000 * Sanitized(o.penaltyFactor)
  }

  function WholeFee(o: Oracle, spec: ScrollSpecId, tx: FeeInputs): (fee: nat)
    requires FeeInputsOk(spec, tx)
  {
    DivBounds(FeeNumerator(o, spec, tx), FeeDenominator(o, spec));
    FeeNumerator(o, spec, tx) / FeeDenominator(o, spec)
  }

  lemma GalileoQuotient(perByte: nat, size: nat, p: int)
    requires 1 <= p
    ensures IdealGalileo(perByte, size, p)
         == Product(Product(perByte, size), p + size) as real / (1_000_000_000 * p) as real
  {
    var base, c, q := Product(perByte, size) as real, size as real, p as real;
    assert base == perByte as real * size as real;
    assert Product(Product(perByte, size), p + size) as real == base * (q + c);
    assert (1.0 + c / q) * q == q + c;
    var lhs := base * (1.0 + c / q) / PRECISION;
    assert lhs * PRECISION == base * (1.0 + c / q);
    assert lhs * (PRECISION * q) == base * (1.0 + c / q) * q == base * (q + c);
    assert (1_000_000_000 * p) as real == PRECISION * q;
    assert lhs == base * (q + c) / (PRECISION * q);
  }

  lemma CastProduct(x: nat, y: nat)
    ensures Product(x, y) as real == x as real * y as real
  {
  }

  lemma ShanghaiQuotient(gas: nat, baseFee: nat, scalar: nat)
    ensures IdealShanghai(gas, baseFee, scalar)
         == Product(Product(gas, baseFee), scalar) as real / PRECISION
  {
    CastProduct(gas, baseFee);
    CastProduct(Product(gas, baseFee), scalar);
  }

  lemma CurieQuotient(commitScalar: nat, baseFee: nat, blobScalar: nat, size: nat, blobBaseFee: nat)
    ensures IdealCurie(commitScalar, baseFee, blobScalar, size, blobBaseFee)
         == (Product(commitScalar, baseFee) + Product(Product(size, blobBaseFee), blobScalar)) as real / PRECISION
  {
    CastProduct(commitScalar, baseFee);
    CastProduct(size, blobBaseFee);
    CastProduct(Product(size, blobBaseFee), blobScalar);
    var x, y, z := size as real, blobBaseFee as real, blobScalar as real;
    assert z * x * y == x * y * z;
  }

  lemma FeynmanQuotient(size: nat, perByte: nat, penalty: nat)
    ensures IdealFeynman(size, perByte, penalty)
         == Product(Product(size, perByte), penalty) as real / 1_000_000_000_000_000_000.0
  {
    CastProduct(size, perByte);
    CastProduct(Product(size, perByte), penalty);
    var x, u, v := size as real, perByte as real / PRECISION, penalty as real / PRECISION;
    assert x * (u * PRECISION) == x * u * PRECISION;
    assert (x * u * PRECISION) * (v * PRECISION) == x * u * v * 1_000_000_000_000_000_000.0;
  }

  lemma ShanghaiIsQuotient(o: Oracle, spec: ScrollSpecId, tx: FeeInputs)
    requires FeeInputsOk(spec, tx) && spec.BeforeCurie()
    ensures IdealFee(o, spec, tx) == FeeNumerator(o, spec, tx) as real / FeeDenominator(o, spec) as real
  {
    ShanghaiQuotient(CalldataGas(tx.rlp) + o.overhead + 64, o.baseFee, o.scalar);
  }

  lemma CurieIsQuotient(o: Oracle, spec: ScrollSpecId, tx: FeeInputs)
    requires FeeInputsOk(spec, tx) && !spec.BeforeCurie() && spec.BeforeFeynman()
    ensures IdealFee(o, spec, tx) == FeeNumerator(o, spec, tx) as real / FeeDenominator(o, spec) as real
  {
    CurieQuotient(o.commitScalar, o.baseFee, o.blobScalar, |tx.rlp|, o.blobBaseFee);
  }

  lemma FeynmanIsQuotient(o: Oracle, spec: ScrollSpecId, tx: FeeInputs)
    requires FeeInputsOk(spec, tx) && spec == FEYNMAN
    ensures IdealFee(o, spec, tx) == FeeNumerator(o, spec, tx) as real / FeeDenominator(o, spec) as real
  {
    FeynmanQuotient(|tx.rlp|, FeePerByte(o), Penalty(o, tx.compressionRatio.value));
  }

  lemma GalileoIsQuotient(o: Oracle, spec: ScrollSpecId, tx: FeeInputs)
    requires FeeInputsOk(spec, tx) && spec == GALILEO
    ensures IdealFee(o, spec, tx) == FeeNumerator(o, spec, tx) as real / FeeDenominator(o, spec) as real
  {
    GalileoQuotient(FeePerByte(o), tx.compressedSize.value, Sanitized(o.penaltyFactor));
  }

  /** The rational formula is the integer quotient. */
  lemma IdealFeeIsQuotient(o: Oracle, spec: ScrollSpecId, tx: FeeInputs)
    requires FeeInputsOk(spec, tx)
    ensures IdealFee(o, spec, tx) == FeeNumerator(o, spec, tx) as real / FeeDenominator(o, spec) as real
  {
    if spec.BeforeCurie() {
      ShanghaiIsQuotient(o, spec, tx);
    } else if spec.BeforeFeynman() {
      CurieIsQuotient(o, spec, tx);
    } else if spec == FEYNMAN {
      FeynmanIsQuotient(o, spec, tx);
    } else {
      GalileoIsQuotient(o, spec, tx);
    }
  }

  /** So the floor of the rational formula is one integer division. */
  lemma FloorOfIdealFee(o: Oracle, spec: ScrollSpecId, tx: FeeInputs)
    requires FeeInputsOk(spec, tx)
    ensures IdealFee(o, spec, tx).Floor == WholeFee(o, spec, tx)
  {
    IdealFeeIsQuotient(o, spec, tx);
    FloorOfQuotient(FeeNumerator(o, spec, tx), FeeDenominator(o, spec));
  }

  // ----- saturation and split divisions are invisible

  /** Any divisor up to 10^18 leaves a saturated dividend above the cap. */
  lemma CapAbsorbsSaturation(x: nat, d: int)
    requires 0 < d <= 1_000_000_000_000_000_000
    ensures Min(Clamp(x) / d, U64_MAX) == Min(x / d, U64_MAX)
  {
    if x > U256_MAX {
      DivAtLeast(U256_MAX, d, U64_MAX);
      DivMonotone(U256_MAX, x, d);
    }
  }

  /** Galileo's inner division by the penalty factor and outer division by the precision are one floor. */
  lemma GalileoSingleFloor(base: nat, size: nat, p: int)
    requires 1 <= p
    ensures Product(base, p + size) / (1_000_000_000 * p) == (base + Product(base, size) / p) / 1_000_000_000
  {
    DivAddMultiple(base, Product(base, size), p);
    assert Product(base, p + size) == base * p + Product(base, size) by {
      assert base * (p + size) == base * p + base * size;
    }
    DivDiv(Product(base, p + size), p, 1_000_000_000);
  }

  /** Feynman's two divisions by the precision are one division by its square. */
  lemma FeynmanSingleFloor(x: nat)
    ensures x / TX_L1_FEE_PRECISION / TX_L1_FEE_PRECISION == x / 1_000_000_000_000_000_000
  {
    DivDiv(x, TX_L1_FEE_PRECISION, TX_L1_FEE_PRECISION);
  }

  /**
   * A penalty product that saturates comes from a base of at least 2^192, because a compressed size is
   * below 2^64. So however large the factor that then divides it away, the base alone reaches the cap.
   */
  lemma GalileoSaturation(base: nat, size: u64, p: int)
    requires 1 <= p
    ensures 0 <= SaturatingMul(Clamp(base), size) / p <= U256_MAX
    ensures Min(SaturatingAdd(Clamp(base), SaturatingMul(Clamp(base), size) / p) / 1_000_000_000, U64_MAX)
         == Min((base + Product(base, size) / p) / 1_000_000_000, U64_MAX)
  {
    ClampMul(base, size);
    var machine := SaturatingMul(Clamp(base), size) / p;
    DivBounds(SaturatingMul(Clamp(base), size), p);
    DivBounds(Product(base, size), p);
    var exact := Product(base, size) / p;
    if Product(base, size) <= U256_MAX {
      if size != 0 {
        ProductMonotone(base, 1, base, size);
      }
      assert machine == exact;
      if base <= U256_MAX {
        CapAbsorbsSaturation(base + exact, 1_000_000_000);
      } else {
        assert size == 0;
        LargeBaseReachesCap(base, 0, 0);
      }
    } else {
      if base < 0x1_0000_0000_0000_0000_0000_0000_0000_0000_0000_0000_0000_0000 {
        ProductMonotone(base, size, 0xffff_ffff_ffff_ffff_ffff_ffff_ffff_ffff_ffff_ffff_ffff_ffff, U64_MAX);
        assert false;
      }
      LargeBaseReachesCap(base, machine, exact);
    }
  }

  lemma LargeBaseReachesCap(base: nat, machine: u256, exact: nat)
    requires base >= 0x1_0000_0000_0000_0000_0000_0000_0000_0000_0000_0000_0000_0000
    ensures Min(SaturatingAdd(Clamp(base), machine) / 1_000_000_000, U64_MAX)
         == Min((base + exact) / 1_000_000_000, U64_MAX) == U64_MAX
  {
    DivAtLeast(SaturatingAdd(Clamp(base), machine), 1_000_000_000, U64_MAX);
    DivAtLeast(base + exact, 1_000_000_000, U64_MAX);
  }

  // ----- main theorem

  /** Where the pre-Curie byte fold does not wrap. Every encoding below 2^60 bytes qualifies. */
  predicate CountsWithoutWrap(spec: ScrollSpecId, tx: FeeInputs) {
    !spec.BeforeCurie() || CalldataGas(tx.rlp) <= U64_MAX
  }

  /** The pre-Curie fee for a given count of calldata gas. */
  function CountedFee(o: Oracle, count: nat): (fee: nat) {
    DivBounds(Product(Product(count + o.overhead + 64, o.baseFee), o.scalar), TX_L1_FEE_PRECISION);
    Min(Product(Product(count + o.overhead + 64, o.baseFee), o.scalar) / TX_L1_FEE_PRECISION, U64_MAX)
  }

  /** Before Curie, for every encoding whatever its length: the exact fee of the count modulo 2^64. */
  lemma ShanghaiFee(storage: Storage, spec: ScrollSpecId, tx: FeeInputs)
    requires spec.BeforeCurie()
    ensures CalculateTxL1Cost(TryFetch(storage, spec), spec, tx)
         == Success(CountedFee(ReadOracle(storage), CalldataGas(tx.rlp) % (U64_MAX + 1)))
  {
    var o := ReadOracle(storage);
    var count := CalldataGas(tx.rlp) % (U64_MAX + 1);
    FoldCountsBytes(0, tx.rlp);
    ClampAdd(count, o.overhead);
    ClampAdd(count + o.overhead, 64);
    var gas := count + o.overhead + 64;
    ClampMul(gas, o.baseFee);
    ClampMul(Product(gas, o.baseFee), o.scalar);
    CapAbsorbsSaturation(Product(Product(gas, o.baseFee), o.scalar), TX_L1_FEE_PRECISION);
  }

  lemma CurieFee(storage: Storage, spec: ScrollSpecId, tx: FeeInputs)
    requires !spec.BeforeCurie() && spec.BeforeFeynman()
    ensures CalculateTxL1Cost(TryFetch(storage, spec), spec, tx)
         == Success(Min(WholeFee(ReadOracle(storage), spec, tx), U64_MAX))
  {
    var o := ReadOracle(storage);
    ClampMul(o.commitScalar, o.baseFee);
    ClampMul(|tx.rlp|, o.blobBaseFee);
    ClampMul(Product(|tx.rlp|, o.blobBaseFee), o.blobScalar);
    ClampAdd(Product(o.commitScalar, o.baseFee), Product(Product(|tx.rlp|, o.blobBaseFee), o.blobScalar));
    CapAbsorbsSaturation(FeeNumerator(o, spec, tx), TX_L1_FEE_PRECISION);
  }

  function MachineFeePerByte(o: Oracle): u256 {
    SaturatingAdd(SaturatingMul(o.commitScalar, o.baseFee), SaturatingMul(o.blobScalar, o.blobBaseFee))
  }

  /** The machine's fee per byte is the exact one, clamped. */
  lemma ClampFeePerByte(o: Oracle)
    ensures MachineFeePerByte(o) == Clamp(FeePerByte(o))
  {
    ClampMul(o.commitScalar, o.baseFee);
    ClampMul(o.blobScalar, o.blobBaseFee);
    ClampAdd(Product(o.commitScalar, o.baseFee), Product(o.blobScalar, o.blobBaseFee));
  }

  lemma FeynmanFee(storage: Storage, tx: FeeInputs)
    requires FeeInputsOk(FEYNMAN, tx)
    ensures CalculateTxL1Cost(TryFetch(storage, FEYNMAN), FEYNMAN, tx)
         == Success(Min(WholeFee(ReadOracle(storage), FEYNMAN, tx), U64_MAX))
  {
    var o := ReadOracle(storage);
    ClampFeePerByte(o);
    ClampMul(|tx.rlp|, FeePerByte(o));
    ClampMul(Product(|tx.rlp|, FeePerByte(o)), Penalty(o, tx.compressionRatio.value));
    var numerator := FeeNumerator(o, FEYNMAN, tx);
    FeynmanSingleFloor(Clamp(numerator));
    CapAbsorbsSaturation(numerator, 1_000_000_000_000_000_000);
  }

  /** The two saturating terms, from a clamped fee per byte, against the single exact quotient. */
  lemma GalileoTermsExact(perByte: nat, size: u64, p: u256)
    requires 1 <= p
    ensures Min(GalileoTerms(Clamp(perByte), size, p), U64_MAX)
         == Min(Product(Product(perByte, size), p + size) / (1_000_000_000 * p), U64_MAX)
  {
    ClampMul(perByte, size);
    var base := Product(perByte, size);
    GalileoSaturation(base, size, p);
    GalileoSingleFloor(base, size, p);
  }

  lemma GalileoReadsTerms(storage: Storage, tx: FeeInputs, perByte: u256, p: u256)
    requires FeeInputsOk(GALILEO, tx)
    requires perByte == MachineFeePerByte(ReadOracle(storage)) && p == Sanitized(ReadOracle(storage).penaltyFactor)
    ensures CalculateTxL1Cost(TryFetch(storage, GALILEO), GALILEO, tx)
         == Success(Min(GalileoTerms(perByte, tx.compressedSize.value, p), U64_MAX))
  {
    assert p == if ReadOracle(storage).penaltyFactor == 0 then 1 else ReadOracle(storage).penaltyFactor;
  }

  lemma GalileoFeeOf(storage: Storage, tx: FeeInputs, perByte: nat, size: u64, p: u256)
    requires FeeInputsOk(GALILEO, tx) && size == tx.compressedSize.value && 1 <= p == Sanitized(ReadOracle(storage).penaltyFactor)
    requires MachineFeePerByte(ReadOracle(storage)) == Clamp(perByte)
    ensures CalculateTxL1Cost(TryFetch(storage, GALILEO), GALILEO, tx)
         == Success(Min(Product(Product(perByte, size), p + size) / (1_000_000_000 * p), U64_MAX))
  {
    GalileoReadsTerms(storage, tx, Clamp(perByte), p);
    GalileoTermsExact(perByte, size, p);
  }

  lemma GalileoFee(storage: Storage, tx: FeeInputs)
    requires FeeInputsOk(GALILEO, tx)
    ensures CalculateTxL1Cost(TryFetch(storage, GALILEO), GALILEO, tx)
         == Success(Min(WholeFee(ReadOracle(storage), GALILEO, tx), U64_MAX))
  {
    var o := ReadOracle(storage);
    ClampFeePerByte(o);
    GalileoFeeOf(storage, tx, FeePerByte(o), tx.compressedSize.value, Sanitized(o.penaltyFactor));
  }

  /** In each fork from Curie on, up to the cap, the fee is the exact quotient. */
  lemma FeeIsQuotientCapped(storage: Storage, spec: ScrollSpecId, tx: FeeInputs)
    requires FeeInputsOk(spec, tx) && !spec.BeforeCurie()
    ensures CalculateTxL1Cost(TryFetch(storage, spec), spec, tx)
         == Success(Min(WholeFee(ReadOracle(storage), spec, tx), U64_MAX))
  {
    if spec.BeforeFeynman() {
      CurieFee(storage, spec, tx);
    } else if spec == FEYNMAN {
      FeynmanFee(storage, tx);
    } else {
      GalileoFee(storage, tx);
    }
  }

  /** The documented fee of the bytes as the fork counts them: before Curie modulo 2^64, later by their number. */
  function ChargedIdeal(o: Oracle, spec: ScrollSpecId, tx: FeeInputs): real
    requires FeeInputsOk(spec, tx)
  {
    if spec.BeforeCurie() then
      IdealShanghai(CalldataGas(tx.rlp) % (U64_MAX + 1) + o.overhead + 64, o.baseFee, o.scalar)
    else
      IdealFee(o, spec, tx)
  }

  lemma CountedFeeIsIdeal(o: Oracle, count: nat)
    ensures CountedFee(o, count) == Min(IdealShanghai(count + o.overhead + 64, o.baseFee, o.scalar).Floor, U64_MAX)
  {
    ShanghaiQuotient(count + o.overhead + 64, o.baseFee, o.scalar);
    FloorOfQuotient(Product(Product(count + o.overhead + 64, o.baseFee), o.scalar), TX_L1_FEE_PRECISION);
  }

  /**
   * For every oracle state, fork and acceptable transaction the fee is the ideal one, floored once and
   * capped: on the counted bytes always, so on the bytes themselves unless a pre-Curie count wraps.
   */
  lemma FeeIsIdealFloorCapped(storage: Storage, fetched: ScrollSpecId, spec: ScrollSpecId, tx: FeeInputs)
    requires fetched.IsEnabledIn(spec) && FeeInputsOk(spec, tx)
    ensures CalculateTxL1Cost(TryFetch(storage, fetched), spec, tx)
         == Success(Min(ChargedIdeal(ReadOracle(storage), spec, tx).Floor, U64_MAX))
    ensures CountsWithoutWrap(spec, tx) ==>
              ChargedIdeal(ReadOracle(storage), spec, tx) == IdealFee(ReadOracle(storage), spec, tx)
  {
    FetchForkIrrelevant(storage, fetched, spec, tx);
    ModIdentityIff(CalldataGas(tx.rlp));
    if spec.BeforeCurie() {
      ShanghaiFee(storage, spec, tx);
      CountedFeeIsIdeal(ReadOracle(storage), CalldataGas(tx.rlp) % (U64_MAX + 1));
    } else {
      FeeIsQuotientCapped(storage, spec, tx);
      FloorOfIdealFee(ReadOracle(storage), spec, tx);
    }
  }

  // ----- the wrapping count

  function NonZeroBytes(size: nat): (rlp: Bytes)
    requires size <= ISIZE_MAX
    ensures |rlp| == size && CalldataGas(rlp) == 16 * size
  {
    var ones := seq<byte>(size, _ => 1);
    assert 0 !in ones;
    assert 0 !in multiset(ones);
    ones
  }

  /** 2^60 non-zero bytes: the shortest encoding whose count wraps, here to nothing. */
  function WrappingEncoding(): (rlp: Bytes)
    ensures CalldataGas(rlp) == U64_MAX + 1
  {
    NonZeroBytes(0x1000_0000_0000_0000)
  }

  lemma CountedFeeMonotone(a: Oracle, b: Oracle, x: nat, y: nat)
    requires x <= y && a.overhead <= b.overhead && a.baseFee <= b.baseFee && a.scalar <= b.scalar
    ensures CountedFee(a, x) <= CountedFee(b, y)
  {
    ProductsMonotone(x + a.overhead + 64, a.baseFee, a.scalar, y + b.overhead + 64, b.baseFee, b.scalar);
    DivMonotone(Product(Product(x + a.overhead + 64, a.baseFee), a.scalar),
                Product(Product(y + b.overhead + 64, b.baseFee), b.scalar), TX_L1_FEE_PRECISION);
  }

  lemma CountedFeeFree(o: Oracle, count: nat)
    requires o.baseFee == 0 || o.scalar == 0
    ensures CountedFee(o, count) == 0
  {
  }

  lemma CountedFeeCappedIff(o: Oracle)
    ensures CountedFee(o, 0) == U64_MAX
       <==> Product(Product(o.overhead + 64, o.baseFee), o.scalar) >= U64_MAX * TX_L1_FEE_PRECISION
  {
    var x := Product(Product(o.overhead + 64, o.baseFee), o.scalar);
    DivBounds(x, TX_L1_FEE_PRECISION);
  }

  /** 10^9 more gas at any non-zero price raises an uncapped fee. */
  lemma CountedFeeRises(o: Oracle, count: nat)
    requires o.baseFee != 0 && o.scalar != 0 && CountedFee(o, 0) < U64_MAX && count >= TX_L1_FEE_PRECISION
    ensures CountedFee(o, 0) < CountedFee(o, count)
  {
    var price := Product(o.baseFee, o.scalar);
    ProductMonotone(1, 1, o.baseFee, o.scalar);
    var low, high := o.overhead + 64, count + o.overhead + 64;
    MulAssociative(low, o.baseFee, o.scalar);
    MulAssociative(high, o.baseFee, o.scalar);
    MulDistributes(count, low, price);
    var x, y := Product(Product(low, o.baseFee), o.scalar), Product(Product(high, o.baseFee), o.scalar);
    ProductMonotone(count, 1, count, price);
    assert y >= x + count;
    DivMonotone(x + TX_L1_FEE_PRECISION, y, TX_L1_FEE_PRECISION);
    DivAddMultiple(1, x, TX_L1_FEE_PRECISION);
  }

  ghost predicate ChargesAsDocumented(storage: Storage, spec: ScrollSpecId) {
    forall tx: FeeInputs | FeeInputsOk(spec, tx) ::
      CalculateTxL1Cost(TryFetch(storage, spec), spec, tx)
      == Success(Min(IdealFee(ReadOracle(storage), spec, tx).Floor, U64_MAX))
  }

  lemma DocumentedPreCurie(storage: Storage, spec: ScrollSpecId, tx: FeeInputs)
    requires spec.BeforeCurie()
    ensures Min(IdealFee(ReadOracle(storage), spec, tx).Floor, U64_MAX)
         == CountedFee(ReadOracle(storage), CalldataGas(tx.rlp))
  {
    CountedFeeIsIdeal(ReadOracle(storage), CalldataGas(tx.rlp));
  }

  /** Where a pre-Curie count cannot matter: calldata is free, or the overhead alone already reaches the cap. */
  predicate CountNeverMatters(o: Oracle) {
    || o.baseFee == 0
    || o.scalar == 0
    || Product(Product(o.overhead + 64, o.baseFee), o.scalar) >= U64_MAX * TX_L1_FEE_PRECISION
  }

  /**
   * The documented formula is charged on every acceptable transaction, however long, exactly from Curie
   * on or where the count cannot matter.
   */
  lemma ChargesAsDocumentedIff(storage: Storage, spec: ScrollSpecId)
    ensures ChargesAsDocumented(storage, spec) <==> !spec.BeforeCurie() || CountNeverMatters(ReadOracle(storage))
  {
    if !spec.BeforeCurie() || CountNeverMatters(ReadOracle(storage)) {
      forall tx: FeeInputs | FeeInputsOk(spec, tx)
        ensures CalculateTxL1Cost(TryFetch(storage, spec), spec, tx)
             == Success(Min(IdealFee(ReadOracle(storage), spec, tx).Floor, U64_MAX))
      {
        if !spec.BeforeCurie() {
          FeeIsIdealFloorCapped(storage, spec, spec, tx);
        } else {
          CountIrrelevant(storage, spec, tx);
        }
      }
    } else {
      var tx := FeeInputs(WrappingEncoding(), None, None);
      WrapUndercharges(storage, spec, tx);
      assert FeeInputsOk(spec, tx);
    }
  }

  lemma CountIrrelevant(storage: Storage, spec: ScrollSpecId, tx: FeeInputs)
    requires spec.BeforeCurie() && CountNeverMatters(ReadOracle(storage))
    ensures CalculateTxL1Cost(TryFetch(storage, spec), spec, tx)
         == Success(Min(IdealFee(ReadOracle(storage), spec, tx).Floor, U64_MAX))
  {
    var o := ReadOracle(storage);
    var exact := CalldataGas(tx.rlp);
    ShanghaiFee(storage, spec, tx);
    DocumentedPreCurie(storage, spec, tx);
    SameFeeForAnyCount(o, exact);
    SameFeeForAnyCount(o, exact % (U64_MAX + 1));
  }

  lemma SameFeeForAnyCount(o: Oracle, count: nat)
    requires CountNeverMatters(o)
    ensures CountedFee(o, count) == CountedFee(o, 0)
  {
    if o.baseFee == 0 || o.scalar == 0 {
      CountedFeeFree(o, count);
      CountedFeeFree(o, 0);
    } else {
      CountedFeeCappedIff(o);
      CountedFeeMonotone(o, o, 0, count);
    }
  }

  /** Elsewhere an encoding whose count wraps to nothing pays less than documented: as much as an empty one. */
  lemma WrapUndercharges(storage: Storage, spec: ScrollSpecId, tx: FeeInputs)
    requires spec.BeforeCurie() && CalldataGas(tx.rlp) == U64_MAX + 1
    requires !CountNeverMatters(ReadOracle(storage))
    ensures CalculateTxL1Cost(TryFetch(storage, spec), spec, tx) == Success(CountedFee(ReadOracle(storage), 0))
    ensures CountedFee(ReadOracle(storage), 0) < Min(IdealFee(ReadOracle(storage), spec, tx).Floor, U64_MAX)
  {
    ShanghaiFee(storage, spec, tx);
    DocumentedPreCurie(storage, spec, tx);
    CountedFeeCappedIff(ReadOracle(storage));
    CountedFeeRises(ReadOracle(storage), U64_MAX + 1);
  }
}
