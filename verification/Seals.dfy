/** A way to carry a predicate around without opening it. */
module Seals {
  /**
   * Always true, and the only trigger of the quantifiers it stands in. A predicate written as
   *   forall x {:trigger Look(x)} :: Look(x) && x == state ==> Inside(x)
   * says Inside(state), but the verifier looks inside only where Look(state) is mentioned, that is, in the lemma that
   * opens the predicate. Callers that carry it from state to state never see what is in it.
   */
  ghost predicate Look<T>(x: T) { true }
}
