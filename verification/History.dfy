/** The history contract's ring buffer against the unbounded chain it summarises (EIP-2935, Specification). */
module History {
  import opened Wrappers
  import opened Primitives
  import opened Spec
  import opened Bits
  import opened Interpreter

  /** A chain during its current block: the hashes of all earlier blocks, and the history contract's storage. */
  datatype Chain = Chain(hashes: seq<u256>, ring: map<u256, u256>)

  const GENESIS := Chain([], map[])

  /** Seal the current block with hash `h`; from the activation block on, the next block records it on entry. */
  function Sealed(c: Chain, activation: nat, h: u256): Chain {
    var hashes := c.hashes + [h];
    var ring := if |hashes| >= activation then c.ring[(|hashes| - 1) % 8191 := h] else c.ring;
    Chain(hashes, ring)
  }

  /** The chain after sealing blocks with the given hashes; every reachable chain is one of these. */
  function Grown(activation: nat, hashes: seq<u256>): (c: Chain)
    ensures c.hashes == hashes
  {
    if hashes == [] then GENESIS
    else Sealed(Grown(activation, hashes[..|hashes| - 1]), activation, hashes[|hashes| - 1])
  }

  lemma {:induction false} NothingRecordedBeforeActivation(activation: nat, hashes: seq<u256>)
    requires |hashes| < activation
    ensures Grown(activation, hashes).ring == map[]
  {
    if hashes != [] {
      NothingRecordedBeforeActivation(activation, hashes[..|hashes| - 1]);
    }
  }

  lemma DistinctSlots(k: nat, n: nat)
    requires k < n < k + HISTORY_SERVE_WINDOW
    ensures k % HISTORY_SERVE_WINDOW != n % HISTORY_SERVE_WINDOW
  {
  }

  /** Each of the last 8191 blocks still owns its slot: its hash if it was recorded, and zero otherwise. */
  lemma {:induction false} RingHoldsWindow(activation: nat, hashes: seq<u256>, k: nat)
    requires k < |hashes| <= k + HISTORY_SERVE_WINDOW
    ensures HistorySlot(Grown(activation, hashes).ring, k % HISTORY_SERVE_WINDOW)
         == if k + 1 >= activation then hashes[k] else 0
  {
    var n := |hashes|;
    var earlier := hashes[..n - 1];
    if k == n - 1 {
      if n < activation {
        NothingRecordedBeforeActivation(activation, hashes);
      }
    } else {
      RingHoldsWindow(activation, earlier, k);
      DistinctSlots(k, n - 1);
    }
  }

  /** The unbounded map BLOCKHASH stands for: recorded hashes of the 256 blocks before the current one. */
  function Lookup(activation: nat, hashes: seq<u256>, requested: nat): u256 {
    if requested < |hashes| <= requested + 256 && requested + 1 >= activation
    then hashes[requested] else 0
  }

  lemma BlockHashReadsSlot(host: Host, requested: u256)
    requires !host.spec.BeforeFeynman() && host.historyAccountLoads && host.historySlotLoads
    ensures BlockHash(host, requested)
         == Success(if requested < host.blockNumber <= requested + BLOCK_HASH_HISTORY
                    then HistorySlot(host.history, Min(requested, U64_MAX) % HISTORY_SERVE_WINDOW) else 0)
  {
  }

  /** A host under Feynman or later, in the block after a chain with the given hashes. */
  ghost predicate ServesChain(host: Host, activation: nat, hashes: seq<u256>) {
    && host.blockNumber == |hashes|
    && host.history == Grown(activation, hashes).ring
    && !host.spec.BeforeFeynman() && host.historyAccountLoads && host.historySlotLoads
  }

  /** The last block before `n` that shares a slot with block 2^64 - 1. */
  function SlotOwner(n: nat): (owner: nat)
    requires n > U64_MAX
    ensures U64_MAX <= owner < n <= owner + HISTORY_SERVE_WINDOW
    ensures owner % HISTORY_SERVE_WINDOW == U64_MAX % HISTORY_SERVE_WINDOW
  {
    n - 1 - (n - 1 - U64_MAX) % HISTORY_SERVE_WINDOW
  }

  /**
   * Where the slot read in block `n` holds what the requested block recorded: the request fits 64 bits or
   * is outside the window, or its block owns the slot, or neither it nor the owner was ever recorded.
   */
  predicate ReadsOwnBlock(activation: nat, n: nat, requested: nat) {
    || requested <= U64_MAX
    || n <= requested || requested + BLOCK_HASH_HISTORY < n
    || requested == SlotOwner(n)
    || (requested + 1 < activation && SlotOwner(n) + 1 < activation)
  }

  /** In every reachable chain such a request is answered with the unbounded lookup. */
  lemma BlockHashRefinesHistory(activation: nat, hashes: seq<u256>, host: Host, requested: u256)
    requires ServesChain(host, activation, hashes) && ReadsOwnBlock(activation, |hashes|, requested)
    ensures BlockHash(host, requested) == Success(Lookup(activation, hashes, requested))
  {
    BlockHashReadsSlot(host, requested);
    if requested < |hashes| <= requested + BLOCK_HASH_HISTORY {
      RingHoldsWindow(activation, hashes, if requested <= U64_MAX then requested else SlotOwner(|hashes|));
    }
  }

  // ----- exactly when

  /** In block `n` a request is answered with the unbounded lookup, whatever the chain. */
  ghost predicate AnswersRequest(activation: nat, n: nat, requested: u256) {
    forall hashes: seq<u256>, host: Host | |hashes| == n && ServesChain(host, activation, hashes) ::
      BlockHash(host, requested) == Success(Lookup(activation, hashes, requested))
  }

  /** `n` blocks, block `k` alone with hash 1. */
  function Marked(n: nat, k: nat): seq<u256> {
    seq(n, i => if i == k then 1 else 2)
  }

  function HostOf(activation: nat, hashes: seq<u256>): (host: Host)
    requires |hashes| <= U256_MAX
    ensures ServesChain(host, activation, hashes)
  {
    Host(FEYNMAN, |hashes|, 0, (_: seq<byte>) => 0, true, true, Grown(activation, hashes).ring)
  }

  /** Elsewhere the answer is the hash of the slot's owner, or zero, and not that of the requested block. */
  lemma RequestMisread(activation: nat, n: nat, requested: u256)
    requires n <= U256_MAX && !ReadsOwnBlock(activation, n, requested)
    ensures var hashes := Marked(n, requested);
            BlockHash(HostOf(activation, hashes), requested) != Success(Lookup(activation, hashes, requested))
  {
    var hashes := Marked(n, requested);
    BlockHashReadsSlot(HostOf(activation, hashes), requested);
    RingHoldsWindow(activation, hashes, SlotOwner(n));
  }

  /** Exactly when a request is answered right in every chain of `n` blocks. */
  lemma RequestExactIff(activation: nat, n: nat, requested: u256)
    requires n <= U256_MAX
    ensures AnswersRequest(activation, n, requested) <==> ReadsOwnBlock(activation, n, requested)
  {
    if ReadsOwnBlock(activation, n, requested) {
      forall hashes: seq<u256>, host: Host | |hashes| == n && ServesChain(host, activation, hashes)
        ensures BlockHash(host, requested) == Success(Lookup(activation, hashes, requested))
      {
        BlockHashRefinesHistory(activation, hashes, host, requested);
      }
    } else {
      RequestMisread(activation, n, requested);
      var hashes := Marked(n, requested);
      var host := HostOf(activation, hashes);
    }
  }

  /** From block 2^64 + 1 on, one of the last two blocks does not own the slot, so its request is misread. */
  lemma LastTwoBlocksMisread(activation: nat, n: nat)
    requires U64_MAX + 1 < n <= U256_MAX && activation <= n
    ensures !AnswersRequest(activation, n, n - 1) || !AnswersRequest(activation, n, n - 2)
  {
    RequestExactIff(activation, n, n - 1);
    RequestExactIff(activation, n, n - 2);
  }

  /**
   * So BLOCKHASH is the unbounded lookup on every operand exactly up to block 2^64, or while nothing has
   * been recorded.
   */
  lemma BlockHashExactIff(activation: nat, n: nat)
    requires n <= U256_MAX
    ensures (forall requested: u256 :: AnswersRequest(activation, n, requested)) <==> n <= U64_MAX + 1 || n < activation
  {
    if n <= U64_MAX + 1 || n < activation {
      forall requested: u256
        ensures AnswersRequest(activation, n, requested)
      {
        RequestExactIff(activation, n, requested);
      }
    } else {
      LastTwoBlocksMisread(activation, n);
    }
  }

  /** Before Feynman the same window is served from the hash of chain id and number, both cut to 64 bits. */
  lemma BlockHashBeforeFeynman(host: Host, requested: u256)
    requires host.spec.BeforeFeynman()
    ensures BlockHash(host, requested)
         == Success(if requested < host.blockNumber <= requested + BLOCK_HASH_HISTORY
                    then host.keccak256(BlockHashPreimage(Min(host.chainId, U64_MAX), Min(requested, U64_MAX))) else 0)
  {
  }

  lemma PowEight()
    ensures Pow(256, 8) == U64_MAX + 1
  {
  }

  /** Distinct chains or distinct blocks hash distinct 16-byte strings. */
  lemma PreimageInjective(chainId: u64, number: u64, chainId': u64, number': u64)
    requires BlockHashPreimage(chainId, number) == BlockHashPreimage(chainId', number')
    ensures chainId == chainId' && number == number'
  {
    PowEight();
    BigEndianRoundTrip(chainId, 8);
    BigEndianRoundTrip(chainId', 8);
    BigEndianRoundTrip(number, 8);
    BigEndianRoundTrip(number', 8);
    assert BlockHashPreimage(chainId, number)[..8] == ToBigEndian(chainId, 8);
    assert BlockHashPreimage(chainId, number)[8..] == ToBigEndian(number, 8);
    assert BlockHashPreimage(chainId', number')[..8] == ToBigEndian(chainId', 8);
    assert BlockHashPreimage(chainId', number')[8..] == ToBigEndian(number', 8);
  }

  /** The string hashed is eight bytes of chain id and eight of block number, each most significant byte first. */
  lemma PreimageBytes(chainId: u64, number: u64, i: nat)
    requires i < 8
    ensures |BlockHashPreimage(chainId, number)| == 16 && 0 < Pow(256, 7 - i)
    ensures BlockHashPreimage(chainId, number)[i] == chainId / Pow(256, 7 - i) % 256
    ensures BlockHashPreimage(chainId, number)[8 + i] == number / Pow(256, 7 - i) % 256
  {
    BigEndianDigits(chainId, 8, i);
    BigEndianDigits(number, 8, i);
  }

  /**
   * So before Feynman, under a hash without collisions, requests in the window get equal answers exactly
   * for equal chain ids and block numbers, both cut to 64 bits.
   */
  lemma PreFeynmanHashesDistinct(a: Host, b: Host, requested: u256, requested': u256)
    requires a.spec.BeforeFeynman() && b.spec.BeforeFeynman() && a.keccak256 == b.keccak256
    requires requested < a.blockNumber <= requested + BLOCK_HASH_HISTORY
    requires requested' < b.blockNumber <= requested' + BLOCK_HASH_HISTORY
    requires forall x: seq<byte>, y: seq<byte> :: |x| == |y| == 16 && a.keccak256(x) == a.keccak256(y) ==> x == y
    ensures BlockHash(a, requested) == BlockHash(b, requested')
       <==> && Min(a.chainId, U64_MAX) == Min(b.chainId, U64_MAX)
            && Min(requested, U64_MAX) == Min(requested', U64_MAX)
  {
    BlockHashBeforeFeynman(a, requested);
    BlockHashBeforeFeynman(b, requested');
    if BlockHash(a, requested) == BlockHash(b, requested') {
      PreimageInjective(Min(a.chainId, U64_MAX), Min(requested, U64_MAX), Min(b.chainId, U64_MAX), Min(requested', U64_MAX));
    }
  }

  /** In block 2^64 + 1 a request for block 2^64 is answered with the hash of the block before it. */
  lemma SaturatedRequestReadsNeighbour(activation: nat, hashes: seq<u256>, host: Host)
    requires |hashes| == U64_MAX + 2 && activation <= U64_MAX && ServesChain(host, activation, hashes)
    ensures BlockHash(host, U64_MAX + 1) == Success(hashes[U64_MAX])
    ensures Lookup(activation, hashes, U64_MAX + 1) == hashes[U64_MAX + 1]
  {
    BlockHashReadsSlot(host, U64_MAX + 1);
    RingHoldsWindow(activation, hashes, U64_MAX);
  }

  // ----- the opcode

  /** BLOCKHASH on any stack: only the top operand is read, and only it is replaced. */
  lemma BlockHashReplacesTop(m: Machine, host: Host)
    ensures m.stack == [] ==> AfterBlockHash(m, host) == m.(status := StackUnderflow)
    ensures m.stack != [] ==>
              var k := |m.stack| - 1;
              var requested := m.stack[k];
              AfterBlockHash(m, host) ==
              if !(requested < host.blockNumber <= requested + 256) then m.(stack := m.stack[..k] + [0])
              else if host.spec.BeforeFeynman() then
                m.(stack := m.stack[..k] + [host.keccak256(BlockHashPreimage(Min(host.chainId, U64_MAX), Min(requested, U64_MAX)))])
              else if !host.historyAccountLoads || !host.historySlotLoads then m.(status := FatalExternalError)
              else m.(stack := m.stack[..k] + [HistorySlot(host.history, Min(requested, U64_MAX) % 8191)])
  {
    if m.stack != [] {
      var k := |m.stack| - 1;
      assert forall v: u256 :: m.stack[k := v] == m.stack[..k] + [v];
    }
  }

  /** Against a chain, the operand on top gives way to the recorded hash of its block, and nothing else changes. */
  lemma BlockHashOpcodeExact(m: Machine, activation: nat, hashes: seq<u256>, host: Host)
    requires m.stack != [] && ServesChain(host, activation, hashes)
    requires ReadsOwnBlock(activation, |hashes|, m.stack[|m.stack| - 1])
    ensures var k := |m.stack| - 1;
            AfterBlockHash(m, host) == m.(stack := m.stack[..k] + [Lookup(activation, hashes, m.stack[k])])
  {
    var k := |m.stack| - 1;
    BlockHashRefinesHistory(activation, hashes, host, m.stack[k]);
    assert m.stack[k := Lookup(activation, hashes, m.stack[k])] == m.stack[..k] + [Lookup(activation, hashes, m.stack[k])];
  }
}
