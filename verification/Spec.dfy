/** The Scroll hard forks, in activation order. */
module Spec {

  datatype ScrollSpecId = SHANGHAI | BERNOULLI | CURIE | DARWIN | EUCLID | FEYNMAN | GALILEO {

    function Discriminant(): int {
      match this
      case SHANGHAI => 1
      case BERNOULLI => 2
      case CURIE => 3
      case DARWIN => 4
      case EUCLID => 5
      case FEYNMAN => 6
      case GALILEO => 7
    }

    predicate IsEnabledIn(other: ScrollSpecId) {
      Discriminant() >= other.Discriminant()
    }

    // The forks by name, for stating what each of them does.

    predicate BeforeCurie() {
      SHANGHAI? || BERNOULLI?
    }

    predicate BeforeEuclid() {
      BeforeCurie() || CURIE? || DARWIN?
    }

    predicate BeforeFeynman() {
      BeforeEuclid() || EUCLID?
    }
  }

  /** The order in which the forks were activated. */
  const ACTIVATION_ORDER: seq<ScrollSpecId> := [SHANGHAI, BERNOULLI, CURIE, DARWIN, EUCLID, FEYNMAN, GALILEO]

  /** A fork is enabled in exactly itself and the forks activated after it, and every fork is in the order. */
  lemma EnabledFromActivationOn(i: nat, j: nat, spec: ScrollSpecId)
    requires i < |ACTIVATION_ORDER| && j < |ACTIVATION_ORDER|
    ensures ACTIVATION_ORDER[i].IsEnabledIn(ACTIVATION_ORDER[j]) <==> j <= i
    ensures spec in ACTIVATION_ORDER
  {
    assert spec == ACTIVATION_ORDER[spec.Discriminant() - 1];
  }
}
