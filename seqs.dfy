/** Facts about sequences that the loops over titles and links use at each step. */
module Seqs {

  /** Taking all elements gives the sequence back. */
  lemma TakeAll<T>(s: seq<T>)
    ensures s[..|s|] == s
  {
  }

  /** Taking one more element appends that element. */
  lemma TakeOneMore<T>(s: seq<T>, i: nat)
    requires i < |s|
    ensures s[..i + 1] == s[..i] + [s[i]]
  {
  }

  /** Indexing a sequence with one element in front of `rest`. */
  lemma ConsIndex<T>(x: T, rest: seq<T>, i: nat)
    requires i <= |rest|
    ensures ([x] + rest)[i] == if i == 0 then x else rest[i - 1]
  {
  }
}
