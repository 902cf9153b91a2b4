/** A quantified invariant can be kept folded by stating it as
    `forall n: nat :: Unfold(n) ==> P`; writing `assert Unfold(0);` opens it. Expand does the same
    for invariants that mention folded ones. */
module Folding {
  predicate Unfold(n: nat) {
    true
  }

  predicate Expand(n: nat) {
    true
  }
}
