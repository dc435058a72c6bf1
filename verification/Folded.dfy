/** A guard for loop invariants that are costly to look into. A predicate whose body stands under
    `forall x {:trigger Open(x, key)} :: Open(x, key) ==> ...` is carried along by a loop as it is; the
    lemmas about its start, step and end look inside by asserting `Open(0, key)`. */
module Folded {

  ghost predicate Open(x: int, key: int) {
    true
  }
}
