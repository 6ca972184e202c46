/**
 Facts behind a bolt, `forall k {:trigger Key(k)} :: Bolt(k) ==> fact`: they say just what the fact
 says, but are only looked into where a key is shown, `assert Key(0)`. Proofs that carry such a fact
 along are not burdened with its details.
 */
module Bolts {
  predicate Key(k: int) { true }

  predicate Bolt(k: int) { true }
}
