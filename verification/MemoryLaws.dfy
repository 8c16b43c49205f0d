/** MCOPY against EIP-5656 (Specification), and what runs of it cost. */
module MemoryLaws {
  import opened Primitives
  import opened Spec
  import opened Interpreter

  /** Memory as the EVM defines it: unbounded and zero beyond what was ever touched. */
  function ByteAt(memory: seq<byte>, i: nat): byte {
    if i < |memory| then memory[i] else 0
  }

  lemma ResizedReadsSame(m: Machine, offset: u64, len: u64)
    requires m.Valid()
    ensures |m.memory| <= |Resized(m, offset, len).memory|
    ensures forall i: nat :: ByteAt(Resized(m, offset, len).memory, i) == ByteAt(m.memory, i)
  {
  }

  /** The operands of an MCOPY, from the top of the stack down. */
  datatype Copy = Copy(dst: u256, src: u256, len: u256)

  function Operands(stack: seq<u256>): Copy
    requires |stack| >= 3
  {
    Copy(stack[|stack| - 1], stack[|stack| - 2], stack[|stack| - 3])
  }

  lemma CopyWithinReads(memory: seq<byte>, dst: nat, src: nat, len: nat, i: nat)
    requires dst + len <= |memory| && src + len <= |memory|
    ensures |CopyWithin(memory, dst, src, len)| == |memory|
    ensures ByteAt(CopyWithin(memory, dst, src, len), i)
         == if dst <= i < dst + len then memory[src + (i - dst)] else ByteAt(memory, i)
  {
  }

  /** `after` is `before` with the source bytes, as they were, at the destination. */
  ghost predicate IsMemmove(before: seq<byte>, after: seq<byte>, c: Copy) {
    && |before| <= |after|
    && forall i: nat :: ByteAt(after, i)
         == if c.dst <= i < c.dst + c.len then ByteAt(before, c.src + (i - c.dst)) else ByteAt(before, i)
  }

  /** Copying within grown memory that reads as before is a memmove of what was there before. */
  lemma CopiedIsMemmove(before: seq<byte>, grown: seq<byte>, dst: u64, src: u64, len: u64)
    requires |before| <= |grown| && dst + len <= |grown| && src + len <= |grown|
    requires forall i: nat :: ByteAt(grown, i) == ByteAt(before, i)
    ensures IsMemmove(before, CopyWithin(grown, dst, src, len), Copy(dst, src, len))
  {
    var after := CopyWithin(grown, dst, src, len);
    forall i: nat
      ensures ByteAt(after, i) == if dst <= i < dst + len then ByteAt(before, src + (i - dst)) else ByteAt(before, i)
    {
      CopyWithinReads(grown, dst, src, len, i);
      if dst <= i < dst + len {
        assert ByteAt(grown, src + (i - dst)) == ByteAt(before, src + (i - dst));
      }
    }
  }

  /** The machine once operands are popped and the copy itself is paid for. */
  function Charged(m: Machine): Machine
    requires |m.stack| >= 3 && Operands(m.stack).len <= U64_MAX && CopyCost(Operands(m.stack).len) <= m.remaining
  {
    m.(stack := m.stack[..|m.stack| - 3], remaining := m.remaining - CopyCost(Operands(m.stack).len))
  }

  /** The operands an MCOPY can afford to read: enough of them, a length of 64 bits, and gas for the copy. */
  predicate CopyPayable(m: Machine, spec: ScrollSpecId) {
    && !spec.BeforeCurie() && |m.stack| >= 3
    && Operands(m.stack).len <= U64_MAX && CopyCost(Operands(m.stack).len) <= m.remaining
  }

  lemma McopyPays(m: Machine, spec: ScrollSpecId)
    requires m.Valid() && m.status == Running
    ensures if CopyPayable(m, spec) then
              var c := Operands(m.stack);
              AfterMcopy(m, spec) == AfterCopyPaid(Charged(m), c.dst, c.src, c.len)
            else AfterMcopy(m, spec).status != Running
  {
  }

  lemma MovedValid(m: Machine, dst: u64, src: u64, len: u64)
    requires m.Valid() && m.status == Running && Moved(m, dst, src, len).status == Running
    ensures var after := Moved(m, dst, src, len);
            after.Valid() && after.stack == m.stack && |m.memory| <= |after.memory|
  {
    ResizedHolds(m, Max(dst, src), len);
    ResizedReadsSame(m, Max(dst, src), len);
  }

  lemma MovedIsMemmove(m: Machine, dst: u64, src: u64, len: u64)
    requires m.Valid() && m.status == Running && Moved(m, dst, src, len).status == Running
    ensures IsMemmove(m.memory, Moved(m, dst, src, len).memory, Copy(dst, src, len))
  {
    ResizedHolds(m, Max(dst, src), len);
    ResizedReadsSame(m, Max(dst, src), len);
    CopiedIsMemmove(m.memory, Resized(m, Max(dst, src), len).memory, dst, src, len);
  }

  /**
   * A completed MCOPY moves the old source bytes to the destination of an unbounded zero-extended
   * memory, ranges overlapping or not, and touches nothing else; memory never shrinks.
   */
  lemma McopyIsMemmove(m: Machine, spec: ScrollSpecId)
    requires m.Valid() && m.status == Running && AfterMcopy(m, spec).status == Running
    ensures var after, c := AfterMcopy(m, spec), Operands(m.stack);
            && after.Valid() && after.stack == m.stack[..|m.stack| - 3]
            && IsMemmove(m.memory, after.memory, c)
  {
    McopyPays(m, spec);
    var c := Operands(m.stack);
    if c.len != 0 {
      MovedValid(Charged(m), c.dst, c.src, c.len);
      MovedIsMemmove(Charged(m), c.dst, c.src, c.len);
    }
  }

  /** Any halt leaves every memory byte as it was and takes all three operands or none; a zero length never halts on its offsets. */
  lemma McopyHaltsCleanly(m: Machine, spec: ScrollSpecId)
    requires m.Valid() && m.status == Running
    ensures AfterMcopy(m, spec).status != Running ==> AfterMcopy(m, spec).memory == m.memory
    ensures AfterMcopy(m, spec).stack
         == if spec.BeforeCurie() || |m.stack| < 3 then m.stack else m.stack[..|m.stack| - 3]
    ensures |m.stack| >= 3 && Operands(m.stack).len == 0 && !spec.BeforeCurie() ==>
              AfterMcopy(m, spec).status == (if m.remaining >= 3 then Running else OutOfGas)
  {
  }

  // ----- gas

  /** Words needed to hold both ranges of a copy; an empty copy needs none. */
  function WordsFor(c: Copy): nat {
    if c.len == 0 then 0 else (Max(c.dst, c.src) + c.len + 31) / 32
  }

  function WordsAfter(words: nat, c: Copy): nat {
    Max(words, WordsFor(c))
  }

  /** Memory gas over unbounded integers: 3 per word plus the square over 512. */
  function ExactMemoryGas(words: nat): nat {
    3 * words + Product(words, words) / 512
  }

  /** The saturating memory gas is exact exactly below 2^32 words, far past any block's gas. */
  lemma MemoryGasExactIff(words: u64)
    ensures MemoryGas(words) == ExactMemoryGas(words) <==> words < 0x1_0000_0000
    ensures MemoryGas(words) <= ExactMemoryGas(words)
  {
    if words < 0x1_0000_0000 {
      ProductMonotone(words, words, 0xffff_ffff, 0xffff_ffff);
    } else {
      ProductMonotone(0x1_0000_0000, 0x1_0000_0000, words, words);
      DivMonotone(U64_MAX + 1, Product(words, words), 512);
    }
  }

  /** From there on only the linear part still grows. */
  lemma QuadraticPartSaturates(words: u64)
    requires 0x1_0000_0000 <= words && 32 * words <= ISIZE_MAX
    ensures MemoryGas(words) == 3 * words + U64_MAX / 512
  {
    ProductMonotone(0x1_0000_0000, 0x1_0000_0000, words, words);
  }

  lemma SquareRises(words: nat, more: nat)
    requires 256 <= words < more
    ensures Product(words, words) / 512 < Product(more, more) / 512
  {
    ProductMonotone(words + 1, words + 1, more, more);
    assert (words + 1) * (words + 1) == words * words + 2 * words + 1;
    DivMonotone(512 + Product(words, words), Product(more, more), 512);
    DivAddMultiple(1, Product(words, words), 512);
  }

  /** Growth costs what it does over unbounded integers exactly if it ends below 2^32 words, or there is none. */
  lemma GrowthExactIff(words: u64, peak: u64)
    requires words <= peak && 32 * peak <= ISIZE_MAX
    ensures MemoryGas(peak) - MemoryGas(words) == ExactMemoryGas(peak) - ExactMemoryGas(words)
       <==> peak < 0x1_0000_0000 || peak == words
  {
    MemoryGasExactIff(words);
    MemoryGasExactIff(peak);
    if 0x1_0000_0000 <= words < peak {
      QuadraticPartSaturates(words);
      QuadraticPartSaturates(peak);
      SquareRises(words, peak);
    }
  }

  /** Longer memories cost at least 2^55 gas, so a smaller gas limit never reaches them. */
  lemma HugeMemoryUnaffordable(words: u64)
    requires words >= 0x1_0000_0000
    ensures MemoryGas(words) >= 0x80_0000_0000_0000
  {
    ProductMonotone(0x1_0000_0000, 0x1_0000_0000, words, words);
    DivMonotone(U64_MAX, SaturatingMul64(words, words), 512);
  }

  /** The gas and size of a completed MCOPY: copied words plus the growth of the memory cost. */
  lemma McopyGas(m: Machine, spec: ScrollSpecId)
    requires m.Valid() && m.status == Running && AfterMcopy(m, spec).status == Running
    ensures var after, c := AfterMcopy(m, spec), Operands(m.stack);
            && after.words == WordsAfter(m.words, c)
            && m.remaining - after.remaining == CopyCost(c.len) + (MemoryGas(after.words) - MemoryGas(m.words))
  {
    var c := Operands(m.stack);
    if c.len != 0 {
      NumWordsCovers(SaturatingAdd64(Max(c.dst, c.src), c.len));
    }
  }

  /** Gas for growing memory to what a copy needs. */
  function GrowthCost(words: u64, c: Copy): nat
    requires WordsFor(c) <= U64_MAX
  {
    MemoryGasMonotone(words, WordsAfter(words, c));
    MemoryGas(WordsAfter(words, c)) - MemoryGas(words)
  }

  lemma MovedCompletesIff(m: Machine, dst: u64, src: u64, len: u64)
    requires m.Valid() && m.status == Running && 0 < len
    ensures Moved(m, dst, src, len).status == Running
       <==> 32 * WordsFor(Copy(dst, src, len)) <= ISIZE_MAX && GrowthCost(m.words, Copy(dst, src, len)) <= m.remaining
  {
    NumWordsCovers(SaturatingAdd64(Max(dst, src), len));
    var needed := NumWords(SaturatingAdd64(Max(dst, src), len));
    if 32 * WordsFor(Copy(dst, src, len)) <= ISIZE_MAX {
      assert needed == WordsFor(Copy(dst, src, len));
    }
  }

  lemma PaidCopyCompletesIff(m: Machine, c: Copy)
    requires m.Valid() && m.status == Running && c.len <= U64_MAX
    ensures AfterCopyPaid(m, c.dst, c.src, c.len).status == Running
       <==> 32 * WordsFor(c) <= ISIZE_MAX && GrowthCost(m.words, c) <= m.remaining
  {
    if c.len != 0 && c.dst <= U64_MAX && c.src <= U64_MAX {
      MovedCompletesIff(m, c.dst, c.src, c.len);
    }
  }

  /** Exactly when an MCOPY completes. */
  lemma McopyCompletesIff(m: Machine, spec: ScrollSpecId)
    requires m.Valid() && m.status == Running
    ensures AfterMcopy(m, spec).status == Running
       <==> && !spec.BeforeCurie() && |m.stack| >= 3
            && var c := Operands(m.stack);
               && 32 * WordsFor(c) <= ISIZE_MAX
               && c.len <= U64_MAX && CopyCost(c.len) + GrowthCost(m.words, c) <= m.remaining
  {
    McopyPays(m, spec);
    if CopyPayable(m, spec) {
      PaidCopyCompletesIff(Charged(m), Operands(m.stack));
    }
  }

  /** How a non-empty copy within 64-bit offsets ends, once the copy itself is paid for. */
  lemma MovedStatus(m: Machine, dst: u64, src: u64, len: u64, words: u64)
    requires m.Valid() && m.status == Running && 0 < len
    requires words == Max(m.words, Min(WordsFor(Copy(dst, src, len)), U64_MAX / 32))
    ensures MemoryGas(m.words) <= MemoryGas(words)
    ensures Moved(m, dst, src, len).status ==
            if MemoryGas(words) - MemoryGas(m.words) > m.remaining then MemoryOOG
            else if 32 * WordsFor(Copy(dst, src, len)) > ISIZE_MAX then CapacityOverflow
            else Running
  {
    MemoryGasMonotone(m.words, words);
    assert NumWords(SaturatingAdd64(Max(dst, src), len)) == Min(WordsFor(Copy(dst, src, len)), U64_MAX / 32);
  }

  /** How an MCOPY ends: which halt comes first, and otherwise that it completes. */
  lemma McopyStatusExact(m: Machine, spec: ScrollSpecId)
    requires m.Valid() && m.status == Running
    ensures AfterMcopy(m, spec).status ==
            if spec == SHANGHAI || spec == BERNOULLI then NotActivated
            else if |m.stack| < 3 then StackUnderflow
            else
              var c := Operands(m.stack);
              var copyCost := 3 + 3 * (Min(c.len + 31, U64_MAX) / 32);
              var words := Max(m.words, Min(WordsFor(c), U64_MAX / 32));
              if c.len > U64_MAX then InvalidOperandOOG
              else if copyCost > m.remaining then OutOfGas
              else if c.len == 0 then Running
              else if c.dst > U64_MAX || c.src > U64_MAX then InvalidOperandOOG
              else if MemoryGas(words) - MemoryGas(m.words) > m.remaining - copyCost then MemoryOOG
              else if 32 * WordsFor(c) > 0x7fff_ffff_ffff_ffff then CapacityOverflow
              else Running
  {
    if CopyPayable(m, spec) {
      McopyPays(m, spec);
      var c := Operands(m.stack);
      if c.len != 0 && c.dst <= U64_MAX && c.src <= U64_MAX {
        MovedStatus(Charged(m), c.dst, c.src, c.len, Max(m.words, Min(WordsFor(c), U64_MAX / 32)));
      }
    }
  }

  /** One MCOPY with its operands pushed first. */
  function Stepped(m: Machine, spec: ScrollSpecId, c: Copy): Machine
    requires m.Valid() && m.status == Running
  {
    AfterMcopy(m.(stack := m.stack + [c.len, c.src, c.dst]), spec)
  }

  lemma SteppedValid(m: Machine, spec: ScrollSpecId, c: Copy)
    requires m.Valid() && m.status == Running && Stepped(m, spec, c).status == Running
    ensures Stepped(m, spec, c).Valid() && Stepped(m, spec, c).stack == m.stack
  {
    var pushed := m.(stack := m.stack + [c.len, c.src, c.dst]);
    McopyIsMemmove(pushed, spec);
    assert pushed.stack[..|pushed.stack| - 3] == m.stack;
  }

  /** A run of copies, stopping where one halts. */
  function CopyRun(m: Machine, spec: ScrollSpecId, copies: seq<Copy>): Machine
    requires m.Valid()
    decreases |copies|
  {
    if m.status != Running || copies == [] then m else
    var next := Stepped(m, spec, copies[0]);
    if next.status != Running then next else
    SteppedValid(m, spec, copies[0]);
    CopyRun(next, spec, copies[1..])
  }

  function PeakWords(words: nat, copies: seq<Copy>): nat
    decreases |copies|
  {
    if copies == [] then words else PeakWords(WordsAfter(words, copies[0]), copies[1..])
  }

  lemma {:induction false} PeakNoLess(words: nat, copies: seq<Copy>)
    ensures words <= PeakWords(words, copies)
    decreases |copies|
  {
    if copies != [] {
      PeakNoLess(WordsAfter(words, copies[0]), copies[1..]);
    }
  }

  function CopyCosts(copies: seq<Copy>): nat
    decreases |copies|
  {
    if copies == [] then 0 else 3 + 3 * ((copies[0].len + 31) / 32) + CopyCosts(copies[1..])
  }

  lemma CopyCostExact(m: Machine, spec: ScrollSpecId)
    requires m.Valid() && m.status == Running && AfterMcopy(m, spec).status == Running
    ensures var len := Operands(m.stack).len;
            len <= U64_MAX && CopyCost(len) == 3 + 3 * ((len + 31) / 32)
  {
    var c := Operands(m.stack);
    if c.len != 0 {
      NumWordsCovers(SaturatingAdd64(Max(c.dst, c.src), c.len));
    }
  }

  /** What one completed copy of a run does to size and gas. */
  lemma SteppedGas(m: Machine, spec: ScrollSpecId, c: Copy)
    requires m.Valid() && m.status == Running && Stepped(m, spec, c).status == Running
    ensures var next := Stepped(m, spec, c);
            && next.Valid() && next.words == WordsAfter(m.words, c)
            && m.remaining - next.remaining == 3 + 3 * ((c.len + 31) / 32) + (next.expansionCost - m.expansionCost)
  {
    var pushed := m.(stack := m.stack + [c.len, c.src, c.dst]);
    assert Operands(pushed.stack) == c;
    McopyGas(pushed, spec);
    CopyCostExact(pushed, spec);
    SteppedValid(m, spec, c);
  }

  lemma CopyRunSteps(m: Machine, spec: ScrollSpecId, copies: seq<Copy>)
    requires m.Valid() && m.status == Running && copies != [] && CopyRun(m, spec, copies).status == Running
    ensures var next := Stepped(m, spec, copies[0]);
            next.status == Running && next.Valid() && CopyRun(m, spec, copies) == CopyRun(next, spec, copies[1..])
  {
    if Stepped(m, spec, copies[0]).status == Running {
      SteppedValid(m, spec, copies[0]);
    }
  }

  /** Along a run the gas spent on growth is the change of the recorded expansion cost. */
  lemma {:induction false} RunGasRecorded(m: Machine, spec: ScrollSpecId, copies: seq<Copy>)
    requires m.Valid() && m.status == Running && CopyRun(m, spec, copies).status == Running
    ensures var after := CopyRun(m, spec, copies);
            && after.Valid() && after.words == PeakWords(m.words, copies)
            && m.remaining - after.remaining == CopyCosts(copies) + (after.expansionCost - m.expansionCost)
    decreases |copies|
  {
    if copies != [] {
      CopyRunSteps(m, spec, copies);
      SteppedGas(m, spec, copies[0]);
      RunGasRecorded(Stepped(m, spec, copies[0]), spec, copies[1..]);
    }
  }

  /**
   * Over any completed run the expansion gas telescopes: the total depends only on the first and the
   * peak memory size and on the copied lengths, never on the order of the copies.
   */
  lemma ExpansionTelescopes(m: Machine, spec: ScrollSpecId, copies: seq<Copy>)
    requires m.Valid() && m.status == Running && CopyRun(m, spec, copies).status == Running
    ensures var after := CopyRun(m, spec, copies);
            && after.Valid() && after.words == PeakWords(m.words, copies)
            && m.remaining - after.remaining
            == CopyCosts(copies) + (MemoryGas(PeakWords(m.words, copies)) - MemoryGas(m.words))
  {
    RunGasRecorded(m, spec, copies);
  }

  /**
   * That gas is the yellow-paper formula over unbounded integers exactly if the peak is below 2^32 words or
   * nothing grew. Less than 2^55 gas, paid and left together, cannot reach that size.
   */
  lemma RunGasExactIff(m: Machine, spec: ScrollSpecId, copies: seq<Copy>)
    requires m.Valid() && m.status == Running && CopyRun(m, spec, copies).status == Running
    ensures var peak := PeakWords(m.words, copies);
            m.remaining - CopyRun(m, spec, copies).remaining
            == CopyCosts(copies) + ExactMemoryGas(peak) - ExactMemoryGas(m.words)
            <==> peak < 0x1_0000_0000 || peak == m.words
    ensures MemoryGas(m.words) + m.remaining < 0x80_0000_0000_0000 ==> PeakWords(m.words, copies) < 0x1_0000_0000
  {
    ExpansionTelescopes(m, spec, copies);
    var peak := PeakWords(m.words, copies);
    PeakNoLess(m.words, copies);
    GrowthExactIff(m.words, peak);
    if peak >= 0x1_0000_0000 {
      HugeMemoryUnaffordable(peak);
    }
  }

  // ----- completion

  /** A copy that some machine could complete: a 64-bit length, and ranges within what memory can hold. */
  predicate CopyFits(c: Copy) {
    c.len <= U64_MAX && 32 * WordsFor(c) <= ISIZE_MAX
  }

  predicate CopiesFit(copies: seq<Copy>) {
    forall c | c in copies :: CopyFits(c)
  }

  lemma {:induction false} PeakFits(words: nat, copies: seq<Copy>)
    requires 32 * words <= ISIZE_MAX && CopiesFit(copies)
    ensures 32 * PeakWords(words, copies) <= ISIZE_MAX
    decreases |copies|
  {
    if copies != [] {
      assert CopyFits(copies[0]);
      PeakFits(WordsAfter(words, copies[0]), copies[1..]);
    }
  }

  /** What a run costs from a given memory size, if it completes. */
  function RunCost(words: u64, copies: seq<Copy>): (cost: nat)
    requires 32 * words <= ISIZE_MAX && CopiesFit(copies)
  {
    PeakFits(words, copies);
    PeakNoLess(words, copies);
    MemoryGasMonotone(words, PeakWords(words, copies));
    CopyCosts(copies) + (MemoryGas(PeakWords(words, copies)) - MemoryGas(words))
  }

  /** The first copy's own cost and the cost of the rest from where it leaves memory. */
  lemma RunCostSteps(words: u64, copies: seq<Copy>)
    requires 32 * words <= ISIZE_MAX && CopiesFit(copies) && copies != []
    ensures var c := copies[0];
            && 32 * WordsAfter(words, c) <= ISIZE_MAX && CopiesFit(copies[1..])
            && RunCost(words, copies) == CopyCost(c.len) + GrowthCost(words, c) + RunCost(WordsAfter(words, c), copies[1..])
  {
    var c := copies[0];
    assert CopyFits(c);
    CopyCostOf(c);
  }

  /** Lengths whose ranges fit memory do not saturate in their cost. */
  lemma CopyCostOf(c: Copy)
    requires CopyFits(c)
    ensures CopyCost(c.len) == 3 + 3 * ((c.len + 31) / 32)
  {
  }

  lemma SteppedCompletesIff(m: Machine, spec: ScrollSpecId, c: Copy)
    requires m.Valid() && m.status == Running
    ensures Stepped(m, spec, c).status == Running
       <==> !spec.BeforeCurie() && CopyFits(c) && CopyCost(c.len) + GrowthCost(m.words, c) <= m.remaining
  {
    var pushed := m.(stack := m.stack + [c.len, c.src, c.dst]);
    assert Operands(pushed.stack) == c;
    McopyCompletesIff(pushed, spec);
  }

  lemma SteppedCost(m: Machine, spec: ScrollSpecId, c: Copy)
    requires m.Valid() && m.status == Running && Stepped(m, spec, c).status == Running && CopyFits(c)
    ensures var next := Stepped(m, spec, c);
            && next.Valid() && next.words == WordsAfter(m.words, c)
            && m.remaining - next.remaining == CopyCost(c.len) + GrowthCost(m.words, c)
  {
    SteppedGas(m, spec, c);
    CopyCostOf(c);
  }

  /** Before the run: it completes exactly when MCOPY exists, every copy fits memory, and the gas covers its cost. */
  lemma {:induction false} RunCompletesIff(m: Machine, spec: ScrollSpecId, copies: seq<Copy>)
    requires m.Valid() && m.status == Running
    ensures CopyRun(m, spec, copies).status == Running
       <==> copies == [] || (!spec.BeforeCurie() && CopiesFit(copies) && RunCost(m.words, copies) <= m.remaining)
    decreases |copies|
  {
    if copies != [] {
      var c, rest := copies[0], copies[1..];
      SteppedCompletesIff(m, spec, c);
      assert copies == [c] + rest;
      assert CopiesFit(copies) <==> CopyFits(c) && CopiesFit(rest);
      if CopiesFit(copies) {
        RunCostSteps(m.words, copies);
      }
      if Stepped(m, spec, c).status == Running {
        SteppedCost(m, spec, c);
        RunCompletesIff(Stepped(m, spec, c), spec, rest);
      }
    }
  }

  // ----- order

  lemma {:induction false} PullForward(words: nat, a: seq<Copy>, c: Copy, b: seq<Copy>)
    ensures CopyCosts(a + [c] + b) == CopyCosts([c] + (a + b))
    ensures PeakWords(words, a + [c] + b) == PeakWords(words, [c] + (a + b))
    decreases |a|
  {
    if a == [] {
      assert a + [c] + b == [c] + (a + b);
    } else {
      assert (a + [c] + b)[1..] == a[1..] + [c] + b;
      assert ([c] + (a + b))[1..] == a + b;
      assert (a + b)[1..] == a[1..] + b;
      assert ([c] + (a[1..] + b))[1..] == a[1..] + b;
      PullForward(WordsAfter(words, a[0]), a[1..], c, b);
    }
  }

  /** The head of one ordering stands somewhere in any other, and the rests agree. */
  lemma FindHead(s: seq<Copy>, t: seq<Copy>) returns (a: seq<Copy>, b: seq<Copy>)
    requires s != [] && multiset(s) == multiset(t)
    ensures t == a + [s[0]] + b && multiset(s[1..]) == multiset(a + b)
  {
    assert s[0] in multiset(t);
    var k :| 0 <= k < |t| && t[k] == s[0];
    a, b := t[..k], t[k + 1..];
    assert t == a + [s[0]] + b;
    assert multiset(t) == multiset(a) + multiset([s[0]]) + multiset(b);
    assert s == [s[0]] + s[1..];
    assert multiset(s) == multiset([s[0]]) + multiset(s[1..]);
    assert multiset(a + b) == multiset(a) + multiset(b);
    assert multiset(s[1..]) == multiset(s) - multiset([s[0]]);
  }

  lemma {:induction false} OrderIrrelevant(words: nat, s: seq<Copy>, t: seq<Copy>)
    requires multiset(s) == multiset(t)
    ensures CopyCosts(s) == CopyCosts(t) && PeakWords(words, s) == PeakWords(words, t)
    decreases |s|
  {
    if s == [] {
      assert |multiset(t)| == 0;
    } else {
      var a, b := FindHead(s, t);
      assert ([s[0]] + (a + b))[1..] == a + b;
      OrderIrrelevant(WordsAfter(words, s[0]), s[1..], a + b);
      PullForward(words, a, s[0], b);
    }
  }

  lemma SameCostInAnyOrder(words: u64, s: seq<Copy>, t: seq<Copy>)
    requires 32 * words <= ISIZE_MAX && multiset(s) == multiset(t) && CopiesFit(s)
    ensures CopiesFit(t) && RunCost(words, s) == RunCost(words, t)
  {
    forall c | c in t
      ensures CopyFits(c)
    {
      assert c in multiset(t);
    }
    OrderIrrelevant(words, s, t);
  }

  /** If one order of the copies completes then every order does, with the same gas left and the same memory size. */
  lemma RunGasOrderFree(m: Machine, spec: ScrollSpecId, s: seq<Copy>, t: seq<Copy>)
    requires m.Valid() && m.status == Running && multiset(s) == multiset(t)
    requires CopyRun(m, spec, s).status == Running
    ensures CopyRun(m, spec, t).status == Running
    ensures CopyRun(m, spec, s).remaining == CopyRun(m, spec, t).remaining
    ensures |CopyRun(m, spec, s).memory| == |CopyRun(m, spec, t).memory|
  {
    RunCompletesIff(m, spec, s);
    if s == [] {
      assert |multiset(t)| == 0;
    } else {
      SameCostInAnyOrder(m.words, s, t);
    }
    RunCompletesIff(m, spec, t);
    ExpansionTelescopes(m, spec, s);
    ExpansionTelescopes(m, spec, t);
    OrderIrrelevant(m.words, s, t);
  }

  lemma FirstByteNeeds()
    ensures CopyCost(1) == 6 && NumWords(1) == 1 && MemoryGas(0) == 0 && MemoryGas(1) == 3
  {
  }

  /** The one-byte copy on fresh memory costs nine gas: six for the copy, three for the first word. */
  lemma FirstByteCostsNine(gas: u64, spec: ScrollSpecId)
    requires !spec.BeforeCurie()
    ensures var m := Machine([1, 0, 0], [], gas, 0, 0, Running);
            if gas >= 9 then AfterMcopy(m, spec).status == Running && AfterMcopy(m, spec).remaining == gas - 9
            else AfterMcopy(m, spec).status == (if gas < 6 then OutOfGas else MemoryOOG)
  {
    FirstByteNeeds();
    if gas >= 6 {
      FirstWord(Machine([], [], gas - 6, 0, 0, Running));
    }
  }

  /** Moving one byte on fresh memory takes one word, if it can be paid for. */
  lemma FirstWord(m: Machine)
    requires m.Valid() && m.status == Running && m.words == 0
    ensures if m.remaining >= 3 then Moved(m, 0, 0, 1).status == Running && Moved(m, 0, 0, 1).remaining == m.remaining - 3
            else Moved(m, 0, 0, 1).status == MemoryOOG
  {
    FirstByteNeeds();
  }
}
