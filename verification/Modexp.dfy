/** The MODEXP precompile: Bernoulli's 32-byte limits and their replacement in Galileo. */
module Modexp {
  import opened Wrappers
  import opened Primitives
  import opened Bits

  const BERNOULLI_LEN_LIMIT: nat := 32
  const EIP_7823_LEN_LIMIT: nat := 1024
  const HEADER_LENGTH: nat := 96

  datatype PrecompileError =
    | OutOfGas
    | BernoulliBaseOverflow
    | BernoulliExpOverflow
    | BernoulliModOverflow
    | ModexpBaseOverflow
    | ModexpModOverflow
    | ModexpEip7823LimitSize

  datatype Output = Output(gasUsed: nat, bytes: seq<byte>)

  /** Pricing rules: EIP-2565 (Berlin) and EIP-7883 (Osaka), Specification sections. */
  datatype GasRule = Berlin | Osaka

  // ----- the shared implementation

  /** `width` bytes from `offset`, zero-padded on the right; an offset past the end reads all zeros. */
  function RightPadWithOffset(input: seq<byte>, offset: nat, width: nat): (s: seq<byte>)
    ensures |s| == width
  {
    var data := if offset <= |input| then input[offset..] else [];
    if width <= |data| then data[..width] else data + seq(width - |data|, _ => 0)
  }

  /** Zero-padded on the left to `width` bytes. */
  function LeftPad(s: seq<byte>, width: nat): seq<byte> {
    if |s| >= width then s else seq(width - |s|, _ => 0) + s
  }

  function HeaderWord(input: seq<byte>, offset: nat): nat {
    FromBigEndian(RightPadWithOffset(input, offset, 32))
  }

  function Words(len: nat): nat {
    (len + 7) / 8
  }

  function MultiplicationComplexity(rule: GasRule, len: nat): nat {
    match rule
    case Berlin => Product(Words(len), Words(len))
    case Osaka => if len <= 32 then 16 else 2 * Product(Words(len), Words(len))
  }

  function IterationCount(rule: GasRule, expLen: nat, expHigh: nat): nat {
    var multiplier := if rule.Berlin? then 8 else 16;
    var count :=
      if expLen <= 32 && expHigh == 0 then 0
      else if expLen <= 32 then BitLength(expHigh) - 1
      else multiplier * (expLen - 32) + Max(1, BitLength(expHigh)) - 1;
    Max(count, 1)
  }

  function MinGas(rule: GasRule): nat {
    if rule.Berlin? then 200 else 500
  }

  function GasCalc(rule: GasRule, baseLen: nat, expLen: nat, modLen: nat, expHigh: nat): nat {
    var cost := Product(MultiplicationComplexity(rule, Max(baseLen, modLen)), IterationCount(rule, expLen, expHigh));
    Max(MinGas(rule), if rule.Berlin? then cost / 3 else cost)
  }

  /** Zero when the modulus is zero. */
  function ModPow(base: nat, exponent: nat, modulus: nat): nat {
    if modulus == 0 then 0 else Pow(base, exponent) % modulus
  }

  /** The most significant 32 bytes of the exponent, or all of a shorter one. */
  function ExponentHead(body: seq<byte>, baseLen: nat, expLen: nat): nat {
    FromBigEndian(LeftPad(RightPadWithOffset(body, baseLen, 32)[..Min(expLen, 32)], 32))
  }

  predicate HeaderWithin(input: seq<byte>, limit: nat) {
    HeaderWord(input, 0) <= limit && HeaderWord(input, 32) <= limit && HeaderWord(input, 64) <= limit
  }

  /** Split the padded body into its three operands and compute. */
  function Computed(body: seq<byte>, baseLen: nat, expLen: nat, modLen: nat): seq<byte> {
    var padded := RightPadWithOffset(body, 0, baseLen + expLen + modLen);
    var base, rest := padded[..baseLen], padded[baseLen..];
    var exponent, modulus := rest[..expLen], rest[expLen..];
    ToBigEndian(ModPow(FromBigEndian(base), FromBigEndian(exponent), FromBigEndian(modulus)), modLen)
  }

  /** Price the call, then compute it. */
  function RunBody(body: seq<byte>, gasLimit: u64, rule: GasRule, baseLen: nat, expLen: nat, modLen: nat)
    : Result<Output, PrecompileError>
  {
    var gasCost := GasCalc(rule, baseLen, expLen, modLen, ExponentHead(body, baseLen, expLen));
    if gasCost > gasLimit then Failure(OutOfGas)
    else if baseLen == 0 && modLen == 0 then Success(Output(gasCost, []))
    else Success(Output(gasCost, Computed(body, baseLen, expLen, modLen)))
  }

  /** The input after its header; nothing if it ends within. */
  function Body(input: seq<byte>): seq<byte> {
    if HEADER_LENGTH <= |input| then input[HEADER_LENGTH..] else []
  }

  /** revm's `run_inner`, reached with lengths already limited by one rule or the other. */
  function RunInner(input: seq<byte>, gasLimit: u64, minGas: nat, rule: GasRule, osaka: bool): Result<Output, PrecompileError>
    requires osaka || HeaderWithin(input, BERNOULLI_LEN_LIMIT)
  {
    if minGas > gasLimit then Failure(OutOfGas) else
    var baseLen, expWord, modLen := HeaderWord(input, 0), HeaderWord(input, 32), HeaderWord(input, 64);
    if baseLen > U64_MAX then Failure(ModexpBaseOverflow)
    else if modLen > U64_MAX then Failure(ModexpModOverflow)
    else
      var expLen := Min(expWord, U64_MAX);
      if osaka && (baseLen > EIP_7823_LEN_LIMIT || modLen > EIP_7823_LEN_LIMIT || expLen > EIP_7823_LEN_LIMIT) then
        Failure(ModexpEip7823LimitSize)
      else RunBody(Body(input), gasLimit, rule, baseLen, expLen, modLen)
  }

  function BernoulliRun(input: seq<byte>, gasLimit: u64): Result<Output, PrecompileError> {
    var baseLen, expLen, modLen := HeaderWord(input, 0), HeaderWord(input, 32), HeaderWord(input, 64);
    if baseLen > BERNOULLI_LEN_LIMIT then Failure(BernoulliBaseOverflow)
    else if expLen > BERNOULLI_LEN_LIMIT then Failure(BernoulliExpOverflow)
    else if modLen > BERNOULLI_LEN_LIMIT then Failure(BernoulliModOverflow)
    else RunInner(input, gasLimit, 200, Berlin, false)
  }

  function OsakaRun(input: seq<byte>, gasLimit: u64): Result<Output, PrecompileError> {
    RunInner(input, gasLimit, 500, Osaka, true)
  }

  // ----- the specification, over an endless zero-extended input

  function InputByte(input: seq<byte>, i: nat): byte {
    if i < |input| then input[i] else 0
  }

  function InputSlice(input: seq<byte>, from: nat, width: nat): (s: seq<byte>)
    ensures |s| == width
    ensures forall i :: 0 <= i < width ==> s[i] == InputByte(input, from + i)
  {
    if width == 0 then [] else InputSlice(input, from, width - 1) + [InputByte(input, from + width - 1)]
  }

  /** The integer written in `width` bytes from `from`. */
  function InputInteger(input: seq<byte>, from: nat, width: nat): nat {
    FromBigEndian(InputSlice(input, from, width))
  }

  /** The three lengths, then base, exponent and modulus back to back (EIP-198, Specification). */
  datatype Call = Call(baseLen: nat, expLen: nat, modLen: nat, base: nat, exponent: nat, modulus: nat, exponentHead: nat)

  function CallOf(input: seq<byte>, baseLen: nat, expLen: nat, modLen: nat): Call {
    Call(baseLen, expLen, modLen,
         InputInteger(input, HEADER_LENGTH, baseLen),
         InputInteger(input, HEADER_LENGTH + baseLen, expLen),
         InputInteger(input, HEADER_LENGTH + baseLen + expLen, modLen),
         InputInteger(input, HEADER_LENGTH + baseLen, Min(expLen, 32)))
  }

  function Parsed(input: seq<byte>): Call {
    CallOf(input, InputInteger(input, 0, 32), InputInteger(input, 32, 32), InputInteger(input, 64, 32))
  }

  function Answer(call: Call): seq<byte> {
    ToBigEndian(ModPow(call.base, call.exponent, call.modulus), call.modLen)
  }

  function Gas(rule: GasRule, call: Call): nat {
    GasCalc(rule, call.baseLen, call.expLen, call.modLen, call.exponentHead)
  }

  predicate LengthsWithin(call: Call, limit: nat) {
    call.baseLen <= limit && call.expLen <= limit && call.modLen <= limit
  }

  // ----- parsing

  lemma RightPadReads(input: seq<byte>, offset: nat, width: nat)
    ensures RightPadWithOffset(input, offset, width) == InputSlice(input, offset, width)
  {
    var padded := RightPadWithOffset(input, offset, width);
    forall i | 0 <= i < width
      ensures padded[i] == InputByte(input, offset + i)
    {
    }
  }

  lemma BodyReads(input: seq<byte>, i: nat)
    ensures InputByte(Body(input), i) == InputByte(input, HEADER_LENGTH + i)
  {
  }

  /** A slice of the padded body is the corresponding slice of the endless input. */
  lemma BodySlice(input: seq<byte>, total: nat, from: nat, width: nat)
    requires from + width <= total
    ensures RightPadWithOffset(Body(input), 0, total)[from..from + width] == InputSlice(input, HEADER_LENGTH + from, width)
  {
    RightPadReads(Body(input), 0, total);
    var slice := RightPadWithOffset(Body(input), 0, total)[from..from + width];
    forall i | 0 <= i < width
      ensures slice[i] == InputByte(input, HEADER_LENGTH + from + i)
    {
      BodyReads(input, from + i);
    }
  }

  lemma HeadSlice(input: seq<byte>, baseLen: nat, width: nat)
    requires width <= 32
    ensures RightPadWithOffset(Body(input), baseLen, 32)[..width] == InputSlice(input, HEADER_LENGTH + baseLen, width)
  {
    RightPadReads(Body(input), baseLen, 32);
    var head := RightPadWithOffset(Body(input), baseLen, 32)[..width];
    forall i | 0 <= i < width
      ensures head[i] == InputByte(input, HEADER_LENGTH + baseLen + i)
    {
      BodyReads(input, baseLen + i);
    }
  }

  lemma HeadReads(input: seq<byte>, baseLen: nat, expLen: nat)
    ensures ExponentHead(Body(input), baseLen, expLen) == InputInteger(input, HEADER_LENGTH + baseLen, Min(expLen, 32))
  {
    var width := Min(expLen, 32);
    HeadSlice(input, baseLen, width);
    if width < 32 {
      LeadingZeros(seq(32 - width, _ => 0), InputSlice(input, HEADER_LENGTH + baseLen, width));
    }
  }

  lemma HeaderReads(input: seq<byte>)
    ensures HeaderWord(input, 0) == Parsed(input).baseLen
    ensures HeaderWord(input, 32) == Parsed(input).expLen
    ensures HeaderWord(input, 64) == Parsed(input).modLen
  {
    RightPadReads(input, 0, 32);
    RightPadReads(input, 32, 32);
    RightPadReads(input, 64, 32);
  }

  lemma SplitSlices(padded: seq<byte>, b: nat, e: nat, m: nat)
    requires |padded| == b + e + m
    ensures padded[..b] == padded[0..0 + b]
    ensures padded[b..][..e] == padded[b..b + e]
    ensures padded[b..][e..] == padded[b + e..b + e + m]
  {
  }

  lemma OperandsRead(input: seq<byte>, b: nat, e: nat, m: nat)
    ensures var padded := RightPadWithOffset(Body(input), 0, b + e + m);
            && padded[..b] == InputSlice(input, HEADER_LENGTH, b)
            && padded[b..][..e] == InputSlice(input, HEADER_LENGTH + b, e)
            && padded[b..][e..] == InputSlice(input, HEADER_LENGTH + b + e, m)
  {
    BodySlice(input, b + e + m, 0, b);
    BodySlice(input, b + e + m, b, e);
    BodySlice(input, b + e + m, b + e, m);
    SplitSlices(RightPadWithOffset(Body(input), 0, b + e + m), b, e, m);
  }

  lemma ComputedIsAnswer(input: seq<byte>, b: nat, e: nat, m: nat)
    ensures Computed(Body(input), b, e, m)
         == ToBigEndian(ModPow(InputInteger(input, HEADER_LENGTH, b),
                               InputInteger(input, HEADER_LENGTH + b, e),
                               InputInteger(input, HEADER_LENGTH + b + e, m)), m)
  {
    OperandsRead(input, b, e, m);
  }

  lemma RunBodyExact(input: seq<byte>, gasLimit: u64, rule: GasRule, b: nat, e: nat, m: nat)
    ensures var call := CallOf(input, b, e, m);
            RunBody(Body(input), gasLimit, rule, b, e, m) ==
            if Gas(rule, call) <= gasLimit then Success(Output(Gas(rule, call), Answer(call))) else Failure(OutOfGas)
  {
    HeadReads(input, b, e);
    ComputedIsAnswer(input, b, e, m);
  }

  lemma RunInnerDispatches(input: seq<byte>, gasLimit: u64, rule: GasRule, osaka: bool, b: nat, e: nat, m: nat)
    requires HeaderWord(input, 0) == b && HeaderWord(input, 32) == e && HeaderWord(input, 64) == m
    requires Max(b, Max(e, m)) <= if osaka then EIP_7823_LEN_LIMIT else BERNOULLI_LEN_LIMIT
    requires MinGas(rule) <= gasLimit
    ensures RunInner(input, gasLimit, MinGas(rule), rule, osaka) == RunBody(Body(input), gasLimit, rule, b, e, m)
  {
  }

  /** With lengths in range, the implementation parses, prices and computes what the specification says. */
  lemma RunInnerExact(input: seq<byte>, gasLimit: u64, rule: GasRule, osaka: bool, call: Call)
    requires call == Parsed(input)
    requires LengthsWithin(call, if osaka then EIP_7823_LEN_LIMIT else BERNOULLI_LEN_LIMIT)
    ensures osaka || HeaderWithin(input, BERNOULLI_LEN_LIMIT)
    ensures RunInner(input, gasLimit, MinGas(rule), rule, osaka)
         == if Gas(rule, call) <= gasLimit then Success(Output(Gas(rule, call), Answer(call))) else Failure(OutOfGas)
  {
    HeaderReads(input);
    if MinGas(rule) <= gasLimit {
      RunInnerDispatches(input, gasLimit, rule, osaka, call.baseLen, call.expLen, call.modLen);
      RunBodyExact(input, gasLimit, rule, call.baseLen, call.expLen, call.modLen);
    }
  }

  // ----- what each fork accepts

  /** Bernoulli on every input of every length: which error comes first, and otherwise gas and answer. */
  lemma BernoulliExact(input: seq<byte>, gasLimit: u64)
    ensures var call := Parsed(input);
            BernoulliRun(input, gasLimit) ==
            if call.baseLen > 32 then Failure(BernoulliBaseOverflow)
            else if call.expLen > 32 then Failure(BernoulliExpOverflow)
            else if call.modLen > 32 then Failure(BernoulliModOverflow)
            else if Gas(Berlin, call) <= gasLimit then Success(Output(Gas(Berlin, call), Answer(call)))
            else Failure(OutOfGas)
  {
    HeaderReads(input);
    if LengthsWithin(Parsed(input), 32) {
      RunInnerExact(input, gasLimit, Berlin, false, Parsed(input));
    }
  }

  /** Galileo on every input of every length: which error comes first, and otherwise gas and answer. */
  lemma GalileoExact(input: seq<byte>, gasLimit: u64)
    ensures var call := Parsed(input);
            OsakaRun(input, gasLimit) ==
            if gasLimit < 500 then Failure(OutOfGas)
            else if call.baseLen > U64_MAX then Failure(ModexpBaseOverflow)
            else if call.modLen > U64_MAX then Failure(ModexpModOverflow)
            else if !LengthsWithin(call, 1024) then Failure(ModexpEip7823LimitSize)
            else if Gas(Osaka, call) > gasLimit then Failure(OutOfGas)
            else Success(Output(Gas(Osaka, call), Answer(call)))
  {
    HeaderReads(input);
    if LengthsWithin(Parsed(input), EIP_7823_LEN_LIMIT) {
      RunInnerExact(input, gasLimit, Osaka, true, Parsed(input));
    }
  }

  lemma ModPowFits(base: nat, exponent: nat, modulus: nat, width: nat)
    requires modulus < Pow(256, width)
    ensures ModPow(base, exponent, modulus) < Pow(256, width)
  {
  }

  /** The answer's bytes are the whole result: it always fits the modulus's length. */
  lemma AnswerIsLossless(input: seq<byte>, call: Call)
    requires call == Parsed(input)
    ensures |Answer(call)| == call.modLen
    ensures FromBigEndian(Answer(call)) == ModPow(call.base, call.exponent, call.modulus)
  {
    FromBigEndianBound(InputSlice(input, HEADER_LENGTH + call.baseLen + call.expLen, call.modLen));
    ModPowFits(call.base, call.exponent, call.modulus, call.modLen);
    BigEndianRoundTrip(ModPow(call.base, call.exponent, call.modulus), call.modLen);
  }

  /** `r` is the power reduced by the modulus; a zero modulus reduces everything to zero. */
  ghost predicate IsPowerReduced(call: Call, r: nat) {
    if call.modulus == 0 then r == 0
    else r < call.modulus && exists q: nat :: Pow(call.base, call.exponent) == Product(q, call.modulus) + r
  }

  lemma ModPowReduces(call: Call)
    ensures IsPowerReduced(call, ModPow(call.base, call.exponent, call.modulus))
  {
    if call.modulus != 0 {
      var power := Pow(call.base, call.exponent);
      DivBounds(power, call.modulus);
      assert power == Product(power / call.modulus, call.modulus) + power % call.modulus;
    }
  }

  /** What either fork answers, as an integer, is the base to the exponent reduced by the modulus. */
  lemma AnswersReducedPower(input: seq<byte>, gasLimit: u64, output: Output)
    requires BernoulliRun(input, gasLimit) == Success(output) || OsakaRun(input, gasLimit) == Success(output)
    ensures |output.bytes| == Parsed(input).modLen && IsPowerReduced(Parsed(input), FromBigEndian(output.bytes))
  {
    BernoulliExact(input, gasLimit);
    GalileoExact(input, gasLimit);
    AnswerIsLossless(input, Parsed(input));
    ModPowReduces(Parsed(input));
  }

  // ----- one-byte operands

  /** A call with operands of one byte each. */
  function ShortInput(base: byte, exponent: byte, modulus: byte): seq<byte> {
    var one := seq(31, _ => 0) + [1];
    one + one + one + [base, exponent, modulus]
  }

  lemma SliceWithin(input: seq<byte>, from: nat, width: nat)
    requires from + width <= |input|
    ensures InputSlice(input, from, width) == input[from..from + width]
  {
  }

  lemma WordOne(input: seq<byte>, from: nat, zeros: seq<byte>)
    requires forall i :: 0 <= i < |zeros| ==> zeros[i] == 0
    requires from + |zeros| + 1 <= |input| && input[from..from + |zeros| + 1] == zeros + [1]
    ensures InputInteger(input, from, |zeros| + 1) == 1
  {
    SliceWithin(input, from, |zeros| + 1);
    LeadingZeros(zeros, [1]);
    OneDigit([1]);
  }

  lemma OneDigit(s: seq<byte>)
    requires |s| == 1
    ensures FromBigEndian(s) == s[0]
  {
    assert s[..|s| - 1] == [];
  }

  lemma OneByte(input: seq<byte>, from: nat)
    requires from < |input|
    ensures InputInteger(input, from, 1) == input[from]
  {
    SliceWithin(input, from, 1);
    OneDigit(input[from..from + 1]);
  }

  lemma ShortInputParsed(base: byte, exponent: byte, modulus: byte)
    ensures Parsed(ShortInput(base, exponent, modulus)) == Call(1, 1, 1, base, exponent, modulus, exponent)
  {
    var input, zeros := ShortInput(base, exponent, modulus), seq(31, _ => 0);
    WordOne(input, 0, zeros);
    WordOne(input, 32, zeros);
    WordOne(input, 64, zeros);
    OneByte(input, 96);
    OneByte(input, 97);
    OneByte(input, 98);
  }

  lemma ShortCallPriced(call: Call, digits: nat)
    requires call.baseLen == call.expLen == call.modLen == 1 && Digits(digits, call.exponentHead) && digits <= 8
    ensures Gas(Berlin, call) == 200 && Gas(Osaka, call) == 500
  {
    PricesExact(call, 1, digits);
  }

  lemma ByteDigits(x: byte, width: nat) returns (digits: nat)
    requires width == 8
    ensures Digits(digits, x) && digits <= width
  {
    digits := BitLength(x);
    BitLengthBounds(x);
    assert Pow(2, 8) == 256;
    BitLengthAtMost(x, width);
  }

  lemma ShortAnswer(call: Call, answer: byte)
    requires call.modLen == 1 && answer == ModPow(call.base, call.exponent, call.modulus)
    ensures Answer(call) == [answer]
  {
    assert ToBigEndian(answer, 1) == [answer];
  }

  /** Both forks answer one-byte operands with one byte, for 200 and 500 gas. */
  lemma ShortInputAnswered(base: byte, exponent: byte, modulus: byte, answer: byte, gasLimit: u64)
    requires answer == (if modulus == 0 then 0 else Pow(base, exponent) % modulus) && 500 <= gasLimit
    ensures BernoulliRun(ShortInput(base, exponent, modulus), gasLimit) == Success(Output(200, [answer]))
    ensures OsakaRun(ShortInput(base, exponent, modulus), gasLimit) == Success(Output(500, [answer]))
  {
    var input := ShortInput(base, exponent, modulus);
    ShortInputParsed(base, exponent, modulus);
    var digits := ByteDigits(exponent, 8);
    ShortCallPriced(Parsed(input), digits);
    ShortAnswer(Parsed(input), answer);
    BernoulliExact(input, gasLimit);
    GalileoExact(input, gasLimit);
  }

  lemma SmallPowers()
    ensures Pow(3, 5) == 243 && Pow(2, 3) == 8 && Pow(5, 0) == 1
  {
  }

  /** 3^5 mod 7 is 5, 2^3 mod 5 is 3 and 5^0 mod 13 is 1, in both forks. */
  lemma KnownPowers(base: byte, exponent: byte, modulus: byte, answer: byte, gasLimit: u64)
    requires (base, exponent, modulus, answer) in {(3, 5, 7, 5), (2, 3, 5, 3), (5, 0, 13, 1)} && 500 <= gasLimit
    ensures BernoulliRun(ShortInput(base, exponent, modulus), gasLimit) == Success(Output(200, [answer]))
    ensures OsakaRun(ShortInput(base, exponent, modulus), gasLimit) == Success(Output(500, [answer]))
  {
    SmallPowers();
    ShortInputAnswered(base, exponent, modulus, answer, gasLimit);
  }

  // ----- gas

  /** A byte adds at most eight bits. */
  lemma {:induction false} BytesBitLength(s: seq<byte>)
    ensures BitLength(FromBigEndian(s)) <= 8 * |s|
  {
    if s != [] {
      BytesBitLength(s[..|s| - 1]);
      EightMoreBits(FromBigEndian(s));
      assert FromBigEndian(s) / 256 == FromBigEndian(s[..|s| - 1]);
    }
  }

  lemma EightMoreBits(x: nat)
    ensures BitLength(x) <= 8 + BitLength(x / 256)
  {
    FourMoreBits(x);
    FourMoreBits(x / 16);
    assert x / 16 / 16 == x / 256;
  }

  lemma FourMoreBits(x: nat)
    ensures BitLength(x) <= 4 + BitLength(x / 16)
  {
    assert x / 2 / 2 / 2 / 2 == x / 16;
    assert BitLength(x) <= 1 + BitLength(x / 2);
    assert BitLength(x / 2) <= 1 + BitLength(x / 2 / 2);
    assert BitLength(x / 2 / 2) <= 1 + BitLength(x / 2 / 2 / 2);
    assert BitLength(x / 2 / 2 / 2) <= 1 + BitLength(x / 2 / 2 / 2 / 2);
  }

  /** The eight-byte words that just hold `len` bytes. */
  predicate JustHolds(words: nat, len: nat) {
    8 * words - 8 < len <= 8 * words
  }

  /** The binary digits of `x`. */
  predicate Digits(bits: nat, x: nat) {
    x < Pow(2, bits) && (0 < bits ==> Pow(2, bits - 1) <= x)
  }

  lemma DigitsAreBitLength(bits: nat, x: nat)
    requires Digits(bits, x)
    ensures BitLength(x) == bits
  {
    BitLengthAtMost(x, bits);
    BitLengthBounds(x);
    if BitLength(x) < bits {
      PowTwoMonotone(BitLength(x), bits - 1);
    }
  }

  lemma {:induction false} PowTwoMonotone(e: nat, f: nat)
    requires e <= f
    ensures Pow(2, e) <= Pow(2, f)
  {
    if e < f {
      PowTwoMonotone(e, f - 1);
    }
  }

  lemma WordsJustHold(words: nat, len: nat)
    requires JustHolds(words, len)
    ensures Words(len) == words
  {
  }

  /**
   * The prices of EIP-2565 and EIP-7883 (Specification sections): words squared times rounds, a third of it
   * for at least 200 gas; from Galileo on twice that, or 16 a round up to 32 bytes, for at least 500.
   */
  lemma PricesExact(call: Call, words: nat, bits: nat)
    requires JustHolds(words, Max(call.baseLen, call.modLen)) && Digits(bits, call.exponentHead)
    ensures var rounds := if call.expLen <= 32 then Max(1, bits - 1) else Max(1, 8 * (call.expLen - 32) + Max(1, bits) - 1);
            Gas(Berlin, call) == Max(200, Product(Product(words, words), rounds) / 3)
    ensures var rounds := if call.expLen <= 32 then Max(1, bits - 1) else Max(1, 16 * (call.expLen - 32) + Max(1, bits) - 1);
            var perRound := if call.baseLen <= 32 && call.modLen <= 32 then 16 else 2 * Product(words, words);
            Gas(Osaka, call) == Max(500, Product(perRound, rounds))
  {
    DigitsAreBitLength(bits, call.exponentHead);
    WordsJustHold(words, Max(call.baseLen, call.modLen));
  }

  /** For short operands both rules count the same rounds; Galileo prices a round at least three times as high. */
  lemma ShortPrices(b: nat, e: nat, m: nat, head: nat)
    requires b <= 32 && e <= 32 && m <= 32 && BitLength(head) <= 256
    ensures var rounds := Max(1, BitLength(head) - 1);
            && GasCalc(Osaka, b, e, m, head) == Max(500, 16 * rounds) <= 4080
            && 200 <= GasCalc(Berlin, b, e, m, head) <= Max(200, 16 * rounds / 3) <= 1360
  {
    var rounds := Max(1, BitLength(head) - 1);
    assert IterationCount(Berlin, e, head) == rounds == IterationCount(Osaka, e, head);
    var words := Words(Max(b, m));
    ProductMonotone(words, words, 4, 4);
    ProductMonotone(Product(words, words), rounds, 16, rounds);
    DivMonotone(Product(Product(words, words), rounds), 16 * rounds, 3);
  }

  lemma HeadBits(input: seq<byte>, b: nat, e: nat, m: nat)
    ensures BitLength(CallOf(input, b, e, m).exponentHead) <= 256
  {
    BytesBitLength(InputSlice(input, HEADER_LENGTH + b, Min(e, 32)));
  }

  lemma ShortCallPrices(call: Call)
    requires LengthsWithin(call, 32) && BitLength(call.exponentHead) <= 256
    ensures 200 <= Gas(Berlin, call) <= 1360
    ensures Gas(Berlin, call) <= Gas(Osaka, call) <= 4080
  {
    ShortPrices(call.baseLen, call.expLen, call.modLen, call.exponentHead);
  }

  /** The 32-byte limits keep every Bernoulli price between 200 and 1360, and the Galileo price of the same call at most 4080. */
  lemma BernoulliGasRange(input: seq<byte>, call: Call)
    requires call == Parsed(input) && LengthsWithin(call, 32)
    ensures 200 <= Gas(Berlin, call) <= 1360
    ensures Gas(Berlin, call) <= Gas(Osaka, call) <= 4080
  {
    HeadBits(input, call.baseLen, call.expLen, call.modLen);
    ShortCallPrices(call);
  }

  /**
   * Whatever Bernoulli accepts, Galileo answers with the same bytes at a price at least as high, once
   * the limit covers that price, for which 4080 gas always suffices; below it, it is out of gas.
   */
  lemma GalileoExtendsBernoulli(input: seq<byte>, bernoulliLimit: u64, galileoLimit: u64)
    requires BernoulliRun(input, bernoulliLimit).Success?
    ensures var earlier, price := BernoulliRun(input, bernoulliLimit).value, Gas(Osaka, Parsed(input));
            && 200 <= earlier.gasUsed <= 1360 && earlier.gasUsed <= price <= 4080
            && OsakaRun(input, galileoLimit)
            == if price <= galileoLimit then Success(Output(price, earlier.bytes)) else Failure(OutOfGas)
  {
    BernoulliExact(input, bernoulliLimit);
    BernoulliGasRange(input, Parsed(input));
    RunInnerExact(input, galileoLimit, Osaka, true, Parsed(input));
  }

  lemma ZeroLengthCall(call: Call)
    requires call.baseLen == call.expLen == call.modLen == call.exponentHead == 0
    ensures Gas(Berlin, call) == 200 && Gas(Osaka, call) == 500 && Answer(call) == []
  {
  }

  /** Under one gas limit the extension is not unconditional: the empty input costs 200, then 500. */
  lemma SameLimitCanFail(input: seq<byte>)
    requires input == []
    ensures BernoulliRun(input, 200) == Success(Output(200, []))
    ensures OsakaRun(input, 200) == Failure(OutOfGas)
  {
    BernoulliExact(input, 200);
    EmptyReadsZero(0, 32);
    EmptyReadsZero(32, 32);
    EmptyReadsZero(64, 32);
    EmptyReadsZero(HEADER_LENGTH, 0);
    RunInnerExact(input, 200, Osaka, true, Parsed(input));
    ZeroLengthCall(Parsed(input));
  }

  lemma {:induction false} EmptyReadsZero(from: nat, width: nat)
    ensures InputInteger([], from, width) == 0
  {
    LeadingZeros(InputSlice([], from, width), []);
    assert InputSlice([], from, width) + [] == InputSlice([], from, width);
  }
}
