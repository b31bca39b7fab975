/** SHA-256 on text, taken to be collision free. */
module Hashing {
  type Hash = string -> string

  ghost predicate Injective(sha: Hash) {
    forall a, b :: sha(a) == sha(b) ==> a == b
  }
}
