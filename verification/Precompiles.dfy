/** Layered precompile tables and the provider that switches between them. */
module Precompiles {
  import opened Wrappers
  import opened Primitives
  import opened Spec

  /** Which implementation an address runs. */
  datatype Implementation =
    | EcRecover
    | NotImplemented
    | Sha256
    | Identity
    | ModexpBernoulli
    | ModexpGalileo
    | Bn254Add
    | Bn254Mul
    | Bn254PairBernoulli
    | Bn254PairFeynman
    | P256Verify
    | P256VerifyOsaka

  type Table = map<Address, Implementation>

  const ECRECOVER: Address := 1
  const SHA256: Address := 2
  const RIPEMD160: Address := 3
  const IDENTITY: Address := 4
  const MODEXP: Address := 5
  const BN254_ADD: Address := 6
  const BN254_MUL: Address := 7
  const BN254_PAIR: Address := 8
  const BLAKE2F: Address := 9
  /** RIP-7212. */
  const P256VERIFY: Address := 0x100

  function PreBernoulli(): Table {
    map[ECRECOVER := EcRecover, SHA256 := NotImplemented, RIPEMD160 := NotImplemented, IDENTITY := Identity,
        MODEXP := ModexpBernoulli, BN254_ADD := Bn254Add, BN254_MUL := Bn254Mul, BN254_PAIR := Bn254PairBernoulli,
        BLAKE2F := NotImplemented]
  }

  function Bernoulli(): Table {
    PreBernoulli() + map[SHA256 := Sha256]
  }

  function Euclid(): Table {
    Bernoulli() + map[P256VERIFY := P256Verify]
  }

  function Feynman(): Table {
    Euclid() + map[BN254_PAIR := Bn254PairFeynman]
  }

  function Galileo(): Table {
    Feynman() + map[MODEXP := ModexpGalileo, P256VERIFY := P256VerifyOsaka]
  }

  function TableFor(spec: ScrollSpecId): Table {
    match spec
    case SHANGHAI => PreBernoulli()
    case BERNOULLI => Bernoulli()
    case CURIE => Bernoulli()
    case DARWIN => Bernoulli()
    case EUCLID => Euclid()
    case FEYNMAN => Feynman()
    case GALILEO => Galileo()
  }

  /** `fork` is activated after `from` and by `to`. */
  predicate Crosses(from: ScrollSpecId, to: ScrollSpecId, fork: ScrollSpecId) {
    !from.IsEnabledIn(fork) && to.IsEnabledIn(fork)
  }

  /** What an address runs; an address without a precompile runs none. */
  function ImplementationAt(spec: ScrollSpecId, a: Address): Option<Implementation> {
    if a in TableFor(spec) then Some(TableFor(spec)[a]) else None
  }

  /**
   * Along the fork order addresses are only added. SHA-256 changes at Bernoulli, P256VERIFY at Euclid and
   * Galileo, the pairing at Feynman and MODEXP at Galileo; every other address keeps what it ran, and
   * between two forks an address changes exactly if one of its own forks lies in between.
   */
  lemma TablesGrowAlongForks(from: ScrollSpecId, to: ScrollSpecId, a: Address)
    requires to.IsEnabledIn(from)
    ensures a in TableFor(from) ==> a in TableFor(to)
    ensures ImplementationAt(from, a) != ImplementationAt(to, a)
       <==> || (a == SHA256 && Crosses(from, to, BERNOULLI))
            || (a == P256VERIFY && (Crosses(from, to, EUCLID) || Crosses(from, to, GALILEO)))
            || (a == BN254_PAIR && Crosses(from, to, FEYNMAN))
            || (a == MODEXP && Crosses(from, to, GALILEO))
  {
    ClosedForm(from, a);
    ClosedForm(to, a);
  }

  /** Each address on its own, fork by fork. */
  lemma ClosedForm(spec: ScrollSpecId, a: Address)
    ensures ImplementationAt(spec, a) ==
            match a {
              case 1 => Some(EcRecover)
              case 2 => Some(if spec == SHANGHAI then NotImplemented else Sha256)
              case 3 => Some(NotImplemented)
              case 4 => Some(Identity)
              case 5 => Some(if spec == GALILEO then ModexpGalileo else ModexpBernoulli)
              case 6 => Some(Bn254Add)
              case 7 => Some(Bn254Mul)
              case 8 => Some(if spec.BeforeFeynman() then Bn254PairBernoulli else Bn254PairFeynman)
              case 9 => Some(NotImplemented)
              case 256 =>
                if spec.BeforeEuclid() then None
                else if spec == GALILEO then Some(P256VerifyOsaka) else Some(P256Verify)
              case _ => None
            }
  {
  }

  // ----- the provider

  datatype Provider = Provider(precompiles: Table, spec: ScrollSpecId)

  function NewWithSpec(spec: ScrollSpecId): Provider {
    Provider(TableFor(spec), spec)
  }

  class ScrollPrecompileProvider {
    var precompiles: Table
    var spec: ScrollSpecId

    ghost predicate Valid()
      reads this
    {
      State() == NewWithSpec(spec)
    }

    function State(): Provider
      reads this
    {
      Provider(precompiles, spec)
    }

    constructor (spec: ScrollSpecId)
      ensures Valid() && this.spec == spec
    {
      this.precompiles, this.spec := TableFor(spec), spec;
    }

    /** True exactly when the spec changed; a provider in step with its spec ends up a fresh one for the new spec. */
    method SetSpec(spec: ScrollSpecId) returns (changed: bool)
      modifies this
      ensures State() == AfterSetSpec(old(State()), spec)
      ensures changed <==> old(this.spec) != spec
      ensures old(Valid()) ==> Valid() && State() == NewWithSpec(spec)
    {
      if spec == this.spec {
        return false;
      }
      this.precompiles, this.spec := TableFor(spec), spec;
      changed := true;
    }
  }

  /** One `set_spec`, as the provider performs it: an equal spec is left alone, whatever the table holds. */
  function AfterSetSpec(p: Provider, spec: ScrollSpecId): Provider {
    if spec == p.spec then p else NewWithSpec(spec)
  }

  function AfterSetSpecs(p: Provider, specs: seq<ScrollSpecId>): Provider {
    if specs == [] then p else AfterSetSpec(AfterSetSpecs(p, specs[..|specs| - 1]), specs[|specs| - 1])
  }

  /** After any sequence of calls the provider is a fresh one built for the last spec. */
  lemma {:induction false} ProviderDeterminedBySpec(first: ScrollSpecId, specs: seq<ScrollSpecId>)
    ensures AfterSetSpecs(NewWithSpec(first), specs)
         == NewWithSpec(if specs == [] then first else specs[|specs| - 1])
  {
    if specs != [] {
      ProviderDeterminedBySpec(first, specs[..|specs| - 1]);
    }
  }
}
