/** Laws of the charged fee a user or operator relies on: monotonicity and the price of splitting. */
module FeeLaws {
  import opened Wrappers
  import opened Primitives
  import opened Spec
  import opened L1Block
  import opened RollupFee

  function Fee(storage: Storage, spec: ScrollSpecId, tx: FeeInputs): u64
    requires FeeInputsOk(spec, tx)
  {
    PanicsExactlyOnBadInputs(storage, spec, spec, tx);
    CalculateTxL1Cost(TryFetch(storage, spec), spec, tx).value
  }

  lemma FeeIsWhole(storage: Storage, spec: ScrollSpecId, tx: FeeInputs)
    requires FeeInputsOk(spec, tx) && !spec.BeforeCurie()
    ensures Fee(storage, spec, tx) == Min(WholeFee(ReadOracle(storage), spec, tx), U64_MAX)
  {
    FeeIsQuotientCapped(storage, spec, tx);
  }

  // ----- monotonicity

  /** The slots a fork's formula reads are no larger in `a` than in `b`; Galileo's factor divides, so it is reversed. */
  predicate OracleNoDearer(a: Oracle, b: Oracle, spec: ScrollSpecId) {
    && a.baseFee <= b.baseFee
    && (spec.BeforeCurie() ==> a.overhead <= b.overhead && a.scalar <= b.scalar)
    && (!spec.BeforeCurie() ==>
          && a.blobBaseFee <= b.blobBaseFee
          && a.commitScalar <= b.commitScalar
          && a.blobScalar <= b.blobScalar)
    && (spec == FEYNMAN ==>
          && a.penaltyFactor <= b.penaltyFactor
          && (a.penaltyThreshold == b.penaltyThreshold || (PenaltyRaisesFee(b) && a.penaltyThreshold <= b.penaltyThreshold)))
    && (spec == GALILEO ==> b.penaltyFactor <= a.penaltyFactor)
  }

  /** A Feynman penalty factor of at least one (scaled): badly compressing transactions pay no less. */
  predicate PenaltyRaisesFee(o: Oracle) {
    TX_L1_FEE_PRECISION <= o.penaltyFactor
  }

  /** What the fork charges for is no more in `s` than in `t`. */
  predicate ChargedNoMore(s: FeeInputs, t: FeeInputs, o: Oracle, spec: ScrollSpecId)
    requires FeeInputsOk(spec, s) && FeeInputsOk(spec, t)
  {
    if spec.BeforeCurie() then DataGasFold(0, s.rlp) <= DataGasFold(0, t.rlp)
    else if spec.BeforeFeynman() then |s.rlp| <= |t.rlp|
    else if spec == FEYNMAN then
      && |s.rlp| <= |t.rlp|
      && (s.compressionRatio == t.compressionRatio
          || (PenaltyRaisesFee(o) && t.compressionRatio.value <= s.compressionRatio.value))
    else s.compressedSize.value <= t.compressedSize.value
  }

  lemma FeePerByteMonotone(a: Oracle, b: Oracle)
    requires a.baseFee <= b.baseFee && a.blobBaseFee <= b.blobBaseFee
    requires a.commitScalar <= b.commitScalar && a.blobScalar <= b.blobScalar
    ensures FeePerByte(a) <= FeePerByte(b)
  {
    ProductMonotone(a.commitScalar, a.baseFee, b.commitScalar, b.baseFee);
    ProductMonotone(a.blobScalar, a.blobBaseFee, b.blobScalar, b.blobBaseFee);
  }

  /** The Galileo fee before capping, in its two-stage form. */
  function GalileoAmount(perByte: nat, size: nat, p: nat): (r: nat)
    requires 1 <= p
  {
    var base := Product(perByte, size);
    DivBounds(Product(base, size), p);
    base + Product(base, size) / p
  }

  lemma GalileoWholeFee(o: Oracle, tx: FeeInputs)
    requires FeeInputsOk(GALILEO, tx)
    ensures WholeFee(o, GALILEO, tx)
         == GalileoAmount(FeePerByte(o), tx.compressedSize.value, Sanitized(o.penaltyFactor)) / 1_000_000_000
  {
    GalileoSingleFloor(Product(FeePerByte(o), tx.compressedSize.value), tx.compressedSize.value, Sanitized(o.penaltyFactor));
  }

  lemma GalileoAmountMonotone(f: nat, size: nat, p: nat, f': nat, size': nat, p': nat)
    requires f <= f' && size <= size' && 1 <= p' <= p
    ensures GalileoAmount(f, size, p) <= GalileoAmount(f', size', p')
  {
    ProductMonotone(f, size, f', size');
    var base, base' := Product(f, size), Product(f', size');
    ProductMonotone(base, size, base', size');
    DivMonotone(Product(base, size), Product(base', size'), p);
    DivAntitone(Product(base', size'), p', p);
  }

  lemma WholeFeeMonotone(a: Oracle, b: Oracle, spec: ScrollSpecId, s: FeeInputs, t: FeeInputs)
    requires FeeInputsOk(spec, s) && FeeInputsOk(spec, t)
    requires !spec.BeforeCurie() && OracleNoDearer(a, b, spec) && ChargedNoMore(s, t, b, spec)
    ensures WholeFee(a, spec, s) <= WholeFee(b, spec, t)
  {
    if spec == GALILEO {
      FeePerByteMonotone(a, b);
      GalileoWholeFee(a, s);
      GalileoWholeFee(b, t);
      var f, size, p := FeePerByte(a), s.compressedSize.value, Sanitized(a.penaltyFactor);
      var f', size', p' := FeePerByte(b), t.compressedSize.value, Sanitized(b.penaltyFactor);
      GalileoAmountMonotone(f, size, p, f', size', p');
      DivMonotone(GalileoAmount(f, size, p), GalileoAmount(f', size', p'), 1_000_000_000);
    } else {
      if spec == FEYNMAN {
        FeePerByteMonotone(a, b);
        ProductsMonotone(|s.rlp|, FeePerByte(a), Penalty(a, s.compressionRatio.value),
                         |t.rlp|, FeePerByte(b), Penalty(b, t.compressionRatio.value));
      } else {
        ProductMonotone(a.commitScalar, a.baseFee, b.commitScalar, b.baseFee);
        ProductsMonotone(|s.rlp|, a.blobBaseFee, a.blobScalar, |t.rlp|, b.blobBaseFee, b.blobScalar);
      }
      DivMonotone(FeeNumerator(a, spec, s), FeeNumerator(b, spec, t), FeeDenominator(a, spec));
    }
  }

  lemma ShanghaiFeeOfFold(storage: Storage, spec: ScrollSpecId, tx: FeeInputs)
    requires spec.BeforeCurie()
    ensures Fee(storage, spec, tx) == CountedFee(ReadOracle(storage), DataGasFold(0, tx.rlp))
  {
    ShanghaiFee(storage, spec, tx);
    FoldCountsBytes(0, tx.rlp);
  }

  /** In every fork, on every encoding, the capped fee is monotone in every price, scalar and charged quantity at once. */
  lemma FeeMonotone(a: Storage, b: Storage, spec: ScrollSpecId, s: FeeInputs, t: FeeInputs)
    requires FeeInputsOk(spec, s) && FeeInputsOk(spec, t)
    requires OracleNoDearer(ReadOracle(a), ReadOracle(b), spec)
    requires ChargedNoMore(s, t, ReadOracle(b), spec)
    ensures Fee(a, spec, s) <= Fee(b, spec, t)
  {
    if spec.BeforeCurie() {
      ShanghaiFeeOfFold(a, spec, s);
      ShanghaiFeeOfFold(b, spec, t);
      CountedFeeMonotone(ReadOracle(a), ReadOracle(b), DataGasFold(0, s.rlp), DataGasFold(0, t.rlp));
    } else {
      FeeIsWhole(a, spec, s);
      FeeIsWhole(b, spec, t);
      WholeFeeMonotone(ReadOracle(a), ReadOracle(b), spec, s, t);
    }
  }

  /** More calldata gas never costs less, over encodings of every length. */
  ghost predicate MonotoneInCalldata(storage: Storage, spec: ScrollSpecId) {
    forall s: FeeInputs, t: FeeInputs |
      FeeInputsOk(spec, s) && FeeInputsOk(spec, t) && CalldataGas(s.rlp) <= CalldataGas(t.rlp) ::
      Fee(storage, spec, s) <= Fee(storage, spec, t)
  }

  /** A count one byte short of wrapping is dearer than the one that wraps. */
  lemma WrapBreaksMonotonicity(storage: Storage, spec: ScrollSpecId, s: FeeInputs, t: FeeInputs)
    requires spec.BeforeCurie() && !CountNeverMatters(ReadOracle(storage))
    requires CalldataGas(s.rlp) == U64_MAX - 15 && CalldataGas(t.rlp) == U64_MAX + 1
    ensures Fee(storage, spec, t) < Fee(storage, spec, s)
  {
    ShanghaiFee(storage, spec, s);
    ShanghaiFee(storage, spec, t);
    CountedFeeCappedIff(ReadOracle(storage));
    CountedFeeRises(ReadOracle(storage), U64_MAX - 15);
  }

  lemma MonotoneWhereCountNeverMatters(storage: Storage, spec: ScrollSpecId, s: FeeInputs, t: FeeInputs)
    requires spec.BeforeCurie() && CountNeverMatters(ReadOracle(storage))
    requires CalldataGas(s.rlp) <= CalldataGas(t.rlp)
    ensures Fee(storage, spec, s) <= Fee(storage, spec, t)
  {
    var o := ReadOracle(storage);
    CountedFeeCappedIff(o);
    CountIrrelevant(storage, spec, s);
    CountIrrelevant(storage, spec, t);
    DocumentedPreCurie(storage, spec, s);
    DocumentedPreCurie(storage, spec, t);
    CountedFeeMonotone(o, o, CalldataGas(s.rlp), CalldataGas(t.rlp));
  }

  /** So before Curie, lengths unbounded, the fee is monotone in its calldata exactly where the count cannot matter. */
  lemma MonotoneInCalldataIff(storage: Storage, spec: ScrollSpecId)
    requires spec.BeforeCurie()
    ensures MonotoneInCalldata(storage, spec) <==> CountNeverMatters(ReadOracle(storage))
  {
    if CountNeverMatters(ReadOracle(storage)) {
      forall s: FeeInputs, t: FeeInputs | CalldataGas(s.rlp) <= CalldataGas(t.rlp)
        ensures Fee(storage, spec, s) <= Fee(storage, spec, t)
      {
        MonotoneWhereCountNeverMatters(storage, spec, s, t);
      }
    } else {
      var s := FeeInputs(NonZeroBytes(0x0fff_ffff_ffff_ffff), None, None);
      var t := FeeInputs(WrappingEncoding(), None, None);
      WrapBreaksMonotonicity(storage, spec, s, t);
    }
  }

  // ----- compression ratio under an arbitrary Feynman penalty factor

  function WithRatio(rlp: Bytes, ratio: u256): FeeInputs {
    FeeInputs(rlp, Some(ratio), None)
  }

  /** The capped Feynman fee of an encoding of `size` bytes under a penalty. */
  function PenalisedFee(o: Oracle, size: nat, penalty: u256): (fee: nat) {
    DivBounds(Product(Product(size, FeePerByte(o)), penalty), 1_000_000_000_000_000_000);
    Min(Product(Product(size, FeePerByte(o)), penalty) / 1_000_000_000_000_000_000, U64_MAX)
  }

  lemma FeynmanFeeIsPenalised(storage: Storage, rlp: Bytes, ratio: u256)
    requires TX_L1_FEE_PRECISION <= ratio
    ensures Fee(storage, FEYNMAN, WithRatio(rlp, ratio))
         == PenalisedFee(ReadOracle(storage), |rlp|, Penalty(ReadOracle(storage), ratio))
  {
    FeeIsWhole(storage, FEYNMAN, WithRatio(rlp, ratio));
  }

  ghost predicate BetterCompressionNeverDearer(storage: Storage, rlp: Bytes) {
    forall r: u256, q: u256 | TX_L1_FEE_PRECISION <= r <= q ::
      Fee(storage, FEYNMAN, WithRatio(rlp, q)) <= Fee(storage, FEYNMAN, WithRatio(rlp, r))
  }

  /** A ratio selects one of two penalties, so one comparison decides an encoding. */
  lemma TwoPenaltiesDecide(storage: Storage, rlp: Bytes)
    ensures BetterCompressionNeverDearer(storage, rlp)
       <==> var o := ReadOracle(storage);
            || o.penaltyThreshold <= TX_L1_FEE_PRECISION
            || PenalisedFee(o, |rlp|, TX_L1_FEE_PRECISION) <= PenalisedFee(o, |rlp|, o.penaltyFactor)
  {
    var o := ReadOracle(storage);
    forall r: u256 | TX_L1_FEE_PRECISION <= r
      ensures Fee(storage, FEYNMAN, WithRatio(rlp, r)) == PenalisedFee(o, |rlp|, Penalty(o, r))
    {
      FeynmanFeeIsPenalised(storage, rlp, r);
    }
    if o.penaltyThreshold > TX_L1_FEE_PRECISION {
      var worst: u256, best: u256 := TX_L1_FEE_PRECISION, o.penaltyThreshold;
      assert Penalty(o, worst) == o.penaltyFactor && Penalty(o, best) == TX_L1_FEE_PRECISION;
      assert Fee(storage, FEYNMAN, WithRatio(rlp, best)) == PenalisedFee(o, |rlp|, TX_L1_FEE_PRECISION);
      assert Fee(storage, FEYNMAN, WithRatio(rlp, worst)) == PenalisedFee(o, |rlp|, o.penaltyFactor);
    }
  }

  /** The penalised fee is no lower whatever the size: a factor of one or more, free bytes, or a capped first byte. */
  predicate PenaltyNeverDiscounts(o: Oracle) {
    || PenaltyRaisesFee(o)
    || FeePerByte(o) == 0
    || Product(FeePerByte(o), o.penaltyFactor) >= U64_MAX * 1_000_000_000_000_000_000
  }

  lemma NoDiscount(o: Oracle, size: nat)
    requires PenaltyNeverDiscounts(o)
    ensures PenalisedFee(o, size, TX_L1_FEE_PRECISION) <= PenalisedFee(o, size, o.penaltyFactor)
  {
    var d := 1_000_000_000_000_000_000;
    var x := Product(size, FeePerByte(o));
    if PenaltyRaisesFee(o) {
      ProductMonotone(x, TX_L1_FEE_PRECISION, x, o.penaltyFactor);
      DivMonotone(Product(x, TX_L1_FEE_PRECISION), Product(x, o.penaltyFactor), d);
    } else if size == 0 || FeePerByte(o) == 0 {
      assert x == 0;
    } else {
      ProductMonotone(1, FeePerByte(o), size, FeePerByte(o));
      ProductMonotone(FeePerByte(o), o.penaltyFactor, x, o.penaltyFactor);
      DivAtLeast(Product(x, o.penaltyFactor), d, U64_MAX);
    }
  }

  /** From a plain fee of 10^9 on, a factor below one lowers the floored fee by at least one. */
  lemma DiscountShows(x: nat, factor: nat)
    requires x >= 1_000_000_000_000_000_000 && factor < TX_L1_FEE_PRECISION
    ensures 0 <= Product(x, factor) / 1_000_000_000_000_000_000
              < Product(x, TX_L1_FEE_PRECISION) / 1_000_000_000_000_000_000
  {
    var d := 1_000_000_000_000_000_000;
    var q := Product(x, factor) / d;
    DivBounds(Product(x, factor), d);
    ProductMonotone(x, factor, x, TX_L1_FEE_PRECISION - 1);
    assert (q + 1) * d <= Product(x, TX_L1_FEE_PRECISION);
    DivAtLeast(Product(x, TX_L1_FEE_PRECISION), d, q + 1);
  }

  /** The smallest size whose plain fee reaches 10^9. */
  function RevealingSize(perByte: nat): (size: nat)
    requires 1 <= perByte
    ensures 1 <= size <= 1_000_000_000_000_000_000
    ensures 1_000_000_000_000_000_000 <= Product(size, perByte)
    ensures perByte < 1_000_000_000_000_000_000 ==> Product(size, perByte) < 2_000_000_000_000_000_000
    ensures perByte >= 1_000_000_000_000_000_000 ==> size == 1
  {
    var d := 1_000_000_000_000_000_000;
    if perByte >= d then 1 else
    DivBounds(d - 1, perByte);
    MulDistributes((d - 1) / perByte, 1, perByte);
    (d - 1) / perByte + 1
  }

  /** Otherwise the discount shows at that size, still below the cap. */
  lemma DiscountAt(o: Oracle)
    requires !PenaltyNeverDiscounts(o)
    ensures var size := RevealingSize(FeePerByte(o));
            PenalisedFee(o, size, o.penaltyFactor) < PenalisedFee(o, size, TX_L1_FEE_PRECISION)
  {
    var d := 1_000_000_000_000_000_000;
    var size := RevealingSize(FeePerByte(o));
    var x := Product(size, FeePerByte(o));
    DiscountShows(x, o.penaltyFactor);
    if FeePerByte(o) >= d {
      assert x == FeePerByte(o);
    } else {
      ProductMonotone(x, o.penaltyFactor, 2_000_000_000_000_000_000, TX_L1_FEE_PRECISION);
    }
    DivBounds(Product(x, o.penaltyFactor), d);
    CancelLess(Product(x, o.penaltyFactor) / d, U64_MAX, d);
  }

  /**
   * For every encoding at once, compressing better never costs more exactly when no acceptable ratio is
   * penalised, or the penalty factor is at least one (scaled), or bytes are free, or the penalised fee of
   * one byte is already capped: four readings of the oracle.
   */
  lemma CompressionRewardedIff(storage: Storage)
    ensures (forall rlp: Bytes :: BetterCompressionNeverDearer(storage, rlp))
       <==> var o := ReadOracle(storage);
            || o.penaltyThreshold <= TX_L1_FEE_PRECISION
            || TX_L1_FEE_PRECISION <= o.penaltyFactor
            || FeePerByte(o) == 0
            || Product(FeePerByte(o), o.penaltyFactor) >= U64_MAX * 1_000_000_000_000_000_000
  {
    var o := ReadOracle(storage);
    if o.penaltyThreshold <= TX_L1_FEE_PRECISION || PenaltyNeverDiscounts(o) {
      forall rlp: Bytes
        ensures BetterCompressionNeverDearer(storage, rlp)
      {
        TwoPenaltiesDecide(storage, rlp);
        if PenaltyNeverDiscounts(o) {
          NoDiscount(o, |rlp|);
        }
      }
    } else {
      DiscountAt(o);
      var rlp := NonZeroBytes(RevealingSize(FeePerByte(o)));
      TwoPenaltiesDecide(storage, rlp);
      assert !BetterCompressionNeverDearer(storage, rlp);
    }
  }

  /** An oracle with a threshold of two and a penalty factor of zero. */
  const ZERO_FACTOR_ORACLE: Storage :=
    map[(L1_GAS_PRICE_ORACLE_ADDRESS, L1_BASE_FEE_SLOT) := 1_000_000_000,
        (L1_GAS_PRICE_ORACLE_ADDRESS, L1_COMMIT_SCALAR_SLOT) := 1_000_000_000,
        (L1_GAS_PRICE_ORACLE_ADDRESS, PENALTY_THRESHOLD_SLOT) := 2_000_000_000]

  /** Under it one byte that does not compress is free, and one that halves costs 10^9. */
  lemma ZeroFactorPunishesCompression()
    ensures Fee(ZERO_FACTOR_ORACLE, FEYNMAN, WithRatio([1], 1_000_000_000)) == 0
    ensures Fee(ZERO_FACTOR_ORACLE, FEYNMAN, WithRatio([1], 2_000_000_000)) == 1_000_000_000
    ensures !BetterCompressionNeverDearer(ZERO_FACTOR_ORACLE, [1])
  {
    var o := ReadOracle(ZERO_FACTOR_ORACLE);
    assert FeePerByte(o) == 1_000_000_000_000_000_000;
    FeynmanFeeIsPenalised(ZERO_FACTOR_ORACLE, [1], 1_000_000_000);
    FeynmanFeeIsPenalised(ZERO_FACTOR_ORACLE, [1], 2_000_000_000);
  }

  // ----- splitting

  lemma GalileoAmountSuperadditive(f: nat, a: nat, b: nat, p: nat)
    requires 1 <= p
    ensures GalileoAmount(f, a, p) + GalileoAmount(f, b, p) <= GalileoAmount(f, a + b, p)
  {
    var x, y, z := Product(f, a), Product(f, b), Product(f, a + b);
    assert z == x + y by { assert f * (a + b) == f * a + f * b; }
    assert Product(z, a + b) >= Product(x, a) + Product(y, b) by {
      ProductNonNegative(x, b);
      ProductNonNegative(y, a);
      assert (x + y) * (a + b) == x * a + x * b + y * a + y * b;
    }
    DivSuperadditive(Product(x, a), Product(y, b), p);
    DivMonotone(Product(x, a) + Product(y, b), Product(z, a + b), p);
  }

  lemma RoundedSuperadditive(f: nat, a: nat, b: nat, p: nat)
    requires 1 <= p
    ensures GalileoAmount(f, a, p) / 1_000_000_000 + GalileoAmount(f, b, p) / 1_000_000_000
         <= GalileoAmount(f, a + b, p) / 1_000_000_000
  {
    GalileoAmountSuperadditive(f, a, b, p);
    DivSuperadditive(GalileoAmount(f, a, p), GalileoAmount(f, b, p), 1_000_000_000);
    DivMonotone(GalileoAmount(f, a, p) + GalileoAmount(f, b, p), GalileoAmount(f, a + b, p), 1_000_000_000);
  }

  /** The fee before the cap as a function of the compressed size alone. */
  function UncappedBySize(storage: Storage, size: nat): (fee: nat) {
    var o := ReadOracle(storage);
    DivBounds(GalileoAmount(FeePerByte(o), size, Sanitized(o.penaltyFactor)), 1_000_000_000);
    GalileoAmount(FeePerByte(o), size, Sanitized(o.penaltyFactor)) / 1_000_000_000
  }

  lemma FeeBySize(storage: Storage, tx: FeeInputs)
    requires FeeInputsOk(GALILEO, tx)
    ensures Fee(storage, GALILEO, tx) == Min(UncappedBySize(storage, tx.compressedSize.value), U64_MAX)
  {
    FeeIsWhole(storage, GALILEO, tx);
    GalileoWholeFee(ReadOracle(storage), tx);
  }

  lemma UncappedSuperadditive(storage: Storage, a: nat, b: nat)
    ensures UncappedBySize(storage, a) + UncappedBySize(storage, b) <= UncappedBySize(storage, a + b)
  {
    var o := ReadOracle(storage);
    RoundedSuperadditive(FeePerByte(o), a, b, Sanitized(o.penaltyFactor));
  }

  /** A fee known by its amount before the cap. */
  ghost predicate FeeBeforeCap(storage: Storage, tx: FeeInputs, amount: nat) {
    FeeInputsOk(GALILEO, tx) && Fee(storage, GALILEO, tx) == Min(amount, U64_MAX)
  }

  lemma FeesSuperadditive(storage: Storage, s: FeeInputs, t: FeeInputs, whole: FeeInputs, x: nat, y: nat, z: nat)
    requires FeeBeforeCap(storage, s, x) && FeeBeforeCap(storage, t, y) && FeeBeforeCap(storage, whole, z)
    requires x + y <= z
    ensures Min(Fee(storage, GALILEO, s) + Fee(storage, GALILEO, t), U64_MAX) <= Fee(storage, GALILEO, whole)
  {
  }

  /** For one oracle, the amount before the cap is a superadditive function of the compressed size. */
  lemma AmountsBySize(storage: Storage) returns (amount: nat -> nat)
    ensures forall tx: FeeInputs | FeeInputsOk(GALILEO, tx) :: FeeBeforeCap(storage, tx, amount(tx.compressedSize.value))
    ensures forall a: nat, b: nat :: amount(a) + amount(b) <= amount(a + b)
  {
    amount := size => UncappedBySize(storage, size);
    forall tx: FeeInputs | FeeInputsOk(GALILEO, tx)
      ensures FeeBeforeCap(storage, tx, amount(tx.compressedSize.value))
    {
      FeeBySize(storage, tx);
    }
    forall a: nat, b: nat
      ensures amount(a) + amount(b) <= amount(a + b)
    {
      UncappedSuperadditive(storage, a, b);
    }
  }

  /** Posting compressed data in two Galileo transactions never costs more than in one, through both floors and the cap. */
  lemma SplittingNeverCostsMore(storage: Storage, s: FeeInputs, t: FeeInputs, whole: FeeInputs)
    requires FeeInputsOk(GALILEO, s) && FeeInputsOk(GALILEO, t) && FeeInputsOk(GALILEO, whole)
    requires whole.compressedSize.value == s.compressedSize.value + t.compressedSize.value
    ensures Min(Fee(storage, GALILEO, s) + Fee(storage, GALILEO, t), U64_MAX) <= Fee(storage, GALILEO, whole)
  {
    var amount := AmountsBySize(storage);
    var a, b := s.compressedSize.value, t.compressedSize.value;
    FeesSuperadditive(storage, s, t, whole, amount(a), amount(b), amount(a + b));
  }

  /** The price before the cap for 1 gwei base fees and a penalty factor of 10000. */
  function QuotedPrice(size: nat): nat {
    GalileoAmount(3_414_079_041_000_000_000, size, 10_000) / 1_000_000_000
  }

  lemma QuotedPrices()
    ensures QuotedPrice(50) == 171557471810
    ensures QuotedPrice(100) == 344821983141
    ensures QuotedPrice(1024) == 3854009072433
    ensures QuotedPrice(10240) == 70759382824796
    ensures QuotedPrice(1048576) == 378961881717079120
  {
  }

  /** The fees quoted for 1 gwei base fees and a penalty factor of 10000, from 50 bytes to a mebibyte. */
  lemma QuotedGalileoFees(storage: Storage, tx: FeeInputs)
    requires var o := ReadOracle(storage);
             && o.baseFee == 1_000_000_000 && o.blobBaseFee == 1_000_000_000
             && o.commitScalar == 2394981796 && o.blobScalar == 1019097245
             && o.penaltyFactor == 10_000
    requires FeeInputsOk(GALILEO, tx)
    ensures var fee, size := Fee(storage, GALILEO, tx), tx.compressedSize.value;
            && (size == 50 ==> fee == 171557471810)
            && (size == 100 ==> fee == 344821983141)
            && (size == 1024 ==> fee == 3854009072433)
            && (size == 10240 ==> fee == 70759382824796)
            && (size == 1048576 ==> fee == 378961881717079120)
  {
    var size := tx.compressedSize.value;
    assert FeePerByte(ReadOracle(storage)) == 3_414_079_041_000_000_000;
    FeeBySize(storage, tx);
    assert UncappedBySize(storage, size) == QuotedPrice(size);
    QuotedPrices();
  }

  // ----- fees under given oracles

  /** Slots 0 to 6 at 10000 and a blob scalar of one. */
  const FLAT_ORACLE: Storage :=
    map[(L1_GAS_PRICE_ORACLE_ADDRESS, 0) := 10_000, (L1_GAS_PRICE_ORACLE_ADDRESS, 1) := 10_000,
        (L1_GAS_PRICE_ORACLE_ADDRESS, 2) := 10_000, (L1_GAS_PRICE_ORACLE_ADDRESS, 3) := 10_000,
        (L1_GAS_PRICE_ORACLE_ADDRESS, 4) := 10_000, (L1_GAS_PRICE_ORACLE_ADDRESS, 5) := 10_000,
        (L1_GAS_PRICE_ORACLE_ADDRESS, 6) := 10_000, (L1_GAS_PRICE_ORACLE_ADDRESS, 7) := 1_000_000_000]

  /** Base fees of 1 gwei, scalars of 10 and 20, a threshold of six and a penalty factor of two. */
  const PENALISING_ORACLE: Storage :=
    map[(L1_GAS_PRICE_ORACLE_ADDRESS, 1) := 1_000_000_000, (L1_GAS_PRICE_ORACLE_ADDRESS, 5) := 1_000_000_000,
        (L1_GAS_PRICE_ORACLE_ADDRESS, 6) := 10, (L1_GAS_PRICE_ORACLE_ADDRESS, 7) := 20,
        (L1_GAS_PRICE_ORACLE_ADDRESS, 9) := 6_000_000_000, (L1_GAS_PRICE_ORACLE_ADDRESS, 10) := 2_000_000_000]

  lemma FourBytesCost64(rlp: Bytes)
    requires rlp == [1, 1, 1, 1]
    ensures DataGasFold(0, rlp) == 64
  {
    assert multiset(rlp)[0] == 0;
    FoldCountsBytes(0, rlp);
  }

  /** The fees of four bytes at the flat oracle, in every fork whose fee they determine. */
  lemma FlatOracleFees(spec: ScrollSpecId, tx: FeeInputs)
    requires tx.rlp == [1, 1, 1, 1] && spec.BeforeFeynman()
    ensures spec == SHANGHAI || spec == BERNOULLI ==> Fee(FLAT_ORACLE, spec, tx) == 1012
    ensures spec == CURIE || spec == DARWIN || spec == EUCLID ==> Fee(FLAT_ORACLE, spec, tx) == 40_000
  {
    if spec.BeforeCurie() {
      ShanghaiFeeOfFold(FLAT_ORACLE, spec, tx);
      FourBytesCost64(tx.rlp);
    } else {
      FeeIsWhole(FLAT_ORACLE, spec, tx);
    }
  }

  lemma PenalisingOracleReads()
    ensures var o := ReadOracle(PENALISING_ORACLE);
            && FeePerByte(o) == 30_000_000_000
            && Penalty(o, 5_000_000_000) == 2_000_000_000 && Penalty(o, 6_000_000_000) == 1_000_000_000
  {
  }

  lemma PenalisedHundredBytes(o: Oracle)
    requires FeePerByte(o) == 30_000_000_000
    ensures PenalisedFee(o, 100, 2_000_000_000) == 6000 && PenalisedFee(o, 100, 1_000_000_000) == 3000
  {
  }

  /** A hundred bytes compressing by five, short of the threshold of six, pay 6000: twice the plain fee. */
  lemma PenalisedFeynmanFee(rlp: Bytes, ratio: u256)
    requires |rlp| == 100
    ensures ratio == 5_000_000_000 ==> Fee(PENALISING_ORACLE, FEYNMAN, WithRatio(rlp, ratio)) == 6000
    ensures ratio == 6_000_000_000 ==> Fee(PENALISING_ORACLE, FEYNMAN, WithRatio(rlp, ratio)) == 3000
  {
    PenalisingOracleReads();
    PenalisedHundredBytes(ReadOracle(PENALISING_ORACLE));
    if ratio >= TX_L1_FEE_PRECISION {
      FeynmanFeeIsPenalised(PENALISING_ORACLE, rlp, ratio);
    }
  }
}
