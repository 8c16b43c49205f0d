/** The stateful opcodes Scroll overrides: BLOCKHASH, MCOPY and CLZ. */
module Interpreter {
  import opened Wrappers
  import opened Primitives
  import opened Spec
  import opened Bits

  const BLOCK_HASH_HISTORY: u64 := 256
  const HISTORY_SERVE_WINDOW: u64 := 8191

  datatype Status =
    | Running
    | StackUnderflow
    | NotActivated
    | InvalidOperandOOG
    | OutOfGas
    | MemoryOOG
    | FatalExternalError
    /** Growing a vector past `isize::MAX` bytes panics. */
    | CapacityOverflow

  /** The interpreter's state: the stack with its top last, one frame's memory, and the memory gas already paid. */
  datatype Machine = Machine(
    stack: seq<u256>,
    memory: seq<byte>,
    remaining: u64,
    words: u64,
    expansionCost: u64,
    status: Status)
  {
    predicate Valid() {
      && |memory| == 32 * words <= ISIZE_MAX
      && expansionCost == MemoryGas(words)
    }

    function Halt(status: Status): Machine {
      this.(status := status)
    }
  }

  function AsU64Saturated(x: u256): u64 {
    Min(x, U64_MAX)
  }

  // ----- BLOCKHASH

  /** What the opcode asks its host; `history` is the storage of the EIP-2935 history contract. */
  datatype Host = Host(
    spec: ScrollSpecId,
    blockNumber: u256,
    chainId: u256,
    keccak256: seq<byte> -> u256,
    historyAccountLoads: bool,
    historySlotLoads: bool,
    history: map<u256, u256>)

  function HistorySlot(history: map<u256, u256>, slot: u256): u256 {
    if slot in history then history[slot] else 0
  }

  function BlockHashPreimage(chainId: u64, number: u64): seq<byte> {
    ToBigEndian(chainId, 8) + ToBigEndian(number, 8)
  }

  function ComputeBlockHash(host: Host, chainId: u64, number: u64): u256 {
    host.keccak256(BlockHashPreimage(chainId, number))
  }

  function RingIndex(requested: u256): u64 {
    AsU64Saturated(requested) % HISTORY_SERVE_WINDOW
  }

  function BlockHash(host: Host, requested: u256): Result<u256, Status> {
    if host.blockNumber < requested then Success(0) else
    var diff := AsU64Saturated(host.blockNumber - requested);
    if diff == 0 || diff > BLOCK_HASH_HISTORY then Success(0)
    else if !host.spec.IsEnabledIn(FEYNMAN) then
      Success(ComputeBlockHash(host, AsU64Saturated(host.chainId), AsU64Saturated(requested)))
    else if !host.historyAccountLoads || !host.historySlotLoads then Failure(FatalExternalError)
    else Success(HistorySlot(host.history, RingIndex(requested)))
  }

  function AfterBlockHash(m: Machine, host: Host): Machine {
    if m.stack == [] then m.Halt(StackUnderflow) else
    match BlockHash(host, m.stack[|m.stack| - 1])
    case Failure(status) => m.Halt(status)
    case Success(hash) => m.(stack := m.stack[|m.stack| - 1 := hash])
  }

  // ----- MCOPY

  function SaturatingAdd64(x: nat, y: nat): u64 {
    Min(x + y, U64_MAX)
  }

  function SaturatingMul64(x: nat, y: nat): u64 {
    Min(Product(x, y), U64_MAX)
  }

  function NumWords(len: u64): u64 {
    SaturatingAdd64(len, 31) / 32
  }

  /** Linear plus quadratic memory gas, in saturating 64-bit arithmetic. */
  function MemoryGas(words: u64): u64 {
    SaturatingAdd64(SaturatingMul64(3, words), SaturatingMul64(words, words) / 512)
  }

  /** Three gas plus three for every word copied; never overflows 64 bits. */
  function CopyCost(len: u64): u64 {
    3 + 3 * NumWords(len)
  }

  lemma MemoryGasMonotone(a: u64, b: u64)
    requires a <= b
    ensures MemoryGas(a) <= MemoryGas(b)
  {
    ProductMonotone(a, a, b, b);
    DivMonotone(SaturatingMul64(a, a), SaturatingMul64(b, b), 512);
  }

  /** Grow memory to hold `offset + len` bytes, paying for the new words first. */
  function Resized(m: Machine, offset: u64, len: u64): Machine
    requires m.expansionCost <= MemoryGas(m.words)
  {
    var words := NumWords(SaturatingAdd64(offset, len));
    if words <= m.words then m else
    MemoryGasMonotone(m.words, words);
    var cost := MemoryGas(words) - m.expansionCost;
    var recorded := m.(words := words, expansionCost := MemoryGas(words));
    if cost > m.remaining then recorded.Halt(MemoryOOG)
    else if 32 * words > ISIZE_MAX then recorded.(remaining := m.remaining - cost).Halt(CapacityOverflow)
    else
      recorded.(remaining := m.remaining - cost,
                memory := m.memory + seq(Max(32 * words - |m.memory|, 0), _ => 0))
  }

  /** `copy_within`: the source range is read as it was, however the ranges overlap. */
  function CopyWithin(memory: seq<byte>, dst: nat, src: nat, len: nat): seq<byte>
    requires dst + len <= |memory| && src + len <= |memory|
  {
    memory[..dst] + memory[src..src + len] + memory[dst + len..]
  }

  lemma NumWordsCovers(len: u64)
    ensures len < U64_MAX - 31 ==> len <= 32 * NumWords(len) < len + 32
    ensures len >= U64_MAX - 31 ==> 32 * NumWords(len) > ISIZE_MAX
  {
  }

  lemma ResizedHolds(m: Machine, offset: u64, len: u64)
    requires m.Valid() && Resized(m, offset, len).status == Running == m.status
    ensures Resized(m, offset, len).Valid()
    ensures offset + len <= |Resized(m, offset, len).memory|
  {
    NumWordsCovers(SaturatingAdd64(offset, len));
  }

  /** Grow to hold both ranges, then copy in place. */
  function Moved(m: Machine, dst: u64, src: u64, len: u64): Machine
    requires m.Valid() && m.status == Running
  {
    var resized := Resized(m, Max(dst, src), len);
    if resized.status != Running then resized else
    ResizedHolds(m, Max(dst, src), len);
    resized.(memory := CopyWithin(resized.memory, dst, src, len))
  }

  /** An MCOPY from where its operands are popped and the copy itself is paid for. */
  function AfterCopyPaid(m: Machine, dst: u256, src: u256, len: u64): Machine
    requires m.Valid() && m.status == Running
  {
    if len == 0 then m
    else if dst > U64_MAX || src > U64_MAX then m.Halt(InvalidOperandOOG)
    else Moved(m, dst, src, len)
  }

  function AfterMcopy(m: Machine, spec: ScrollSpecId): Machine
    requires m.Valid() && m.status == Running
  {
    if !spec.IsEnabledIn(CURIE) then m.Halt(NotActivated) else
    var n := |m.stack|;
    if n < 3 then m.Halt(StackUnderflow) else
    var dst, src, len := m.stack[n - 1], m.stack[n - 2], m.stack[n - 3];
    var popped := m.(stack := m.stack[..n - 3]);
    if len > U64_MAX then popped.Halt(InvalidOperandOOG)
    else if CopyCost(len) > m.remaining then popped.Halt(OutOfGas)
    else AfterCopyPaid(popped.(remaining := m.remaining - CopyCost(len)), dst, src, len)
  }

  // ----- CLZ

  function CountLeadingZeros(x: u256): (r: int)
    ensures 0 <= r <= 256
  {
    U256BitLength(x);
    256 - BitLength(x)
  }

  /** `r` is where the highest set bit stands, from the top: EIP-7939's definition, zero included. */
  predicate LeadingZeros(x: u256, r: int) {
    && 0 <= r <= 256
    && x < Pow(2, 256 - r)
    && (r < 256 ==> Pow(2, 255 - r) <= x)
    && (r == 256 <==> x == 0)
  }

  lemma LeadingZerosLocateTopBit(x: u256)
    ensures LeadingZeros(x, CountLeadingZeros(x))
  {
    BitLengthBounds(x);
  }

  function AfterClz(m: Machine, spec: ScrollSpecId): Machine {
    if !spec.IsEnabledIn(GALILEO) then m.Halt(NotActivated)
    else if m.stack == [] then m.Halt(StackUnderflow)
    else m.(stack := m.stack[|m.stack| - 1 := CountLeadingZeros(m.stack[|m.stack| - 1])])
  }

  /** From Galileo on CLZ replaces the top operand by its leading zeros and nothing else; before, it halts. */
  lemma ClzExact(m: Machine, spec: ScrollSpecId)
    ensures var after, k := AfterClz(m, spec), |m.stack| - 1;
            if spec != GALILEO then after == m.(status := NotActivated)
            else if m.stack == [] then after == m.(status := StackUnderflow)
            else
              && |after.stack| == k + 1 && LeadingZeros(m.stack[k], after.stack[k])
              && after == m.(stack := m.stack[..k] + [after.stack[k]])
  {
    if spec == GALILEO && m.stack != [] {
      var k := |m.stack| - 1;
      LeadingZerosLocateTopBit(m.stack[k]);
      assert m.stack[k := CountLeadingZeros(m.stack[k])] == m.stack[..k] + [CountLeadingZeros(m.stack[k])];
    }
  }

  // ----- the opcodes as the interpreter runs them

  class Interpreter {
    var stack: seq<u256>
    var memory: seq<byte>
    var remaining: u64
    var words: u64
    var expansionCost: u64
    var status: Status

    constructor (gasLimit: u64)
      ensures State() == Machine([], [], gasLimit, 0, 0, Running) && State().Valid()
    {
      stack, memory, remaining, words, expansionCost, status := [], [], gasLimit, 0, 0, Running;
    }

    function State(): Machine
      reads this
    {
      Machine(stack, memory, remaining, words, expansionCost, status)
    }

    method Blockhash(host: Host)
      modifies `stack, `status
      ensures State() == AfterBlockHash(old(State()), host)
    {
      var n := |stack|;
      if n < 1 {
        status := StackUnderflow;
        return;
      }
      var requested := stack[n - 1];
      if host.blockNumber < requested {
        stack := stack[n - 1 := 0];
        return;
      }
      var diff := AsU64Saturated(host.blockNumber - requested);
      if diff == 0 || diff > BLOCK_HASH_HISTORY {
        stack := stack[n - 1 := 0];
      } else if !host.spec.IsEnabledIn(FEYNMAN) {
        stack := stack[n - 1 := ComputeBlockHash(host, AsU64Saturated(host.chainId), AsU64Saturated(requested))];
      } else {
        if !host.historyAccountLoads {
          status := FatalExternalError;
          return;
        }
        var index := AsU64Saturated(requested) % HISTORY_SERVE_WINDOW;
        if !host.historySlotLoads {
          status := FatalExternalError;
          return;
        }
        stack := stack[n - 1 := HistorySlot(host.history, index)];
      }
    }

    /** `resize_memory!`: false when the interpreter halted instead. */
    method ResizeMemory(offset: u64, len: u64) returns (ok: bool)
      requires State().Valid() && status == Running
      modifies `memory, `remaining, `words, `expansionCost, `status
      ensures State() == Resized(old(State()), offset, len) && ok == (status == Running)
    {
      var needed := NumWords(SaturatingAdd64(offset, len));
      if needed <= words {
        return true;
      }
      MemoryGasMonotone(words, needed);
      var cost := MemoryGas(needed) - expansionCost;
      words, expansionCost := needed, MemoryGas(needed);
      if cost > remaining {
        status := MemoryOOG;
        return false;
      }
      remaining := remaining - cost;
      if 32 * needed > ISIZE_MAX {
        status := CapacityOverflow;
        return false;
      }
      memory := memory + seq(32 * needed - |memory|, _ => 0);
      ok := true;
    }

    method ResizeAndCopy(dst: u64, src: u64, len: u64)
      requires State().Valid() && status == Running
      modifies `memory, `remaining, `words, `expansionCost, `status
      ensures State() == Moved(old(State()), dst, src, len)
    {
      var ok := ResizeMemory(Max(dst, src), len);
      if ok {
        ResizedHolds(old(State()), Max(dst, src), len);
        memory := CopyWithin(memory, dst, src, len);
      }
    }

    method Mcopy(spec: ScrollSpecId)
      requires State().Valid() && status == Running
      modifies this
      ensures State() == AfterMcopy(old(State()), spec)
    {
      if !spec.IsEnabledIn(CURIE) {
        status := NotActivated;
        return;
      }
      var n := |stack|;
      if n < 3 {
        status := StackUnderflow;
        return;
      }
      var dst, src, len := stack[n - 1], stack[n - 2], stack[n - 3];
      stack := stack[..n - 3];
      if len > U64_MAX {
        status := InvalidOperandOOG;
        return;
      }
      if CopyCost(len) > remaining {
        status := OutOfGas;
        return;
      }
      remaining := remaining - CopyCost(len);
      if len == 0 {
        return;
      }
      if dst > U64_MAX {
        status := InvalidOperandOOG;
        return;
      }
      if src > U64_MAX {
        status := InvalidOperandOOG;
        return;
      }
      ResizeAndCopy(dst, src, len);
    }

    method Clz(spec: ScrollSpecId)
      modifies `stack, `status
      ensures State() == AfterClz(old(State()), spec)
    {
      if !spec.IsEnabledIn(GALILEO) {
        status := NotActivated;
        return;
      }
      var n := |stack|;
      if n < 1 {
        status := StackUnderflow;
        return;
      }
      stack := stack[n - 1 := CountLeadingZeros(stack[n - 1])];
    }
  }
}
