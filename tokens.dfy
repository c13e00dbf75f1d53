/** The reserved vocabulary entries of the `Tokens` class. */
module Tokens {
  const Padding: string := ""
  const Unknown: string := "[UNK]"
  const Classification: string := "[CLS]"
  const Separation: string := "[SEP]"
  const Mask: string := "[MASK]"

  /** The continuation marker that joins a fragment to the word before it. */
  const Continuation: string := "##"

  /** The classification and separation markers are different entries. */
  lemma MarkersDistinct()
    ensures Classification != Separation
  {
    assert Classification[1] != Separation[1];
  }
}
