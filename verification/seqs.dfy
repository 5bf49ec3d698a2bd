/**
 * Facts about sequences shared by the string-processing modules.
 */
module Seqs {

  /** Concatenation regroups. */
  lemma SeqAssoc<T>(x: seq<T>, y: seq<T>, z: seq<T>)
    ensures x + (y + z) == (x + y) + z
  {
  }
}
