/** Optional values (Go's nil pointers and comma-ok lookups), and the one
    fact about sequence concatenation the proofs call for by name. */
module Wrappers {

  datatype Option<+T> = None | Some(value: T)

  lemma {:induction false} ConcatAssoc<T>(a: seq<T>, b: seq<T>, c: seq<T>)
    ensures (a + b) + c == a + (b + c)
  {
  }
}
