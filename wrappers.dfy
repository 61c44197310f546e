/** Building blocks shared by the modules: the Option type and sequence associativity. */
module Wrappers {

  /** The Option type used wherever the source returns null, -1 or "not found". */
  datatype Option<+T> = None | Some(value: T)

  /** Concatenation regroups freely; stated as a lemma to spare the solver the search. */
  lemma ConcatAssoc<T>(x: seq<T>, y: seq<T>, z: seq<T>)
    ensures x + (y + z) == (x + y) + z
  {
  }
}
