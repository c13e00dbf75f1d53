/** Worked decompositions with a small vocabulary. */
module Scenarios {
  import opened Text
  import opened Results
  import opened Tokens
  import opened WordPiece

  /** The vocabulary `[UNK] [CLS] [SEP] the ##ing run` as `TokenizerBase` indexes it. */
  const Dict: map<string, int> :=
    map["[UNK]" := 0, "[CLS]" := 1, "[SEP]" := 2, "the" := 3, "##ing" := 4, "run" := 5]

  /** "running": "run" is the longest known prefix; what remains is "##ning", which has no known
      prefix, since "##ing" does not occur at its front; so the word ends with the unknown marker. */
  lemma RunningEndsUnknown()
    ensures Subwords(Dict, "running") == Ok([Piece("run", 5), Piece("[UNK]", 0)])
  {
    var w, rest := "running", "##ning";
    assert Continuation !in Dict && w !in Dict;
    RunningPrefix();
    RunningRewrite();
    RunningRemainder();
    assert Unknown in Dict && Dict[Unknown] == 0;
    assert [Piece("run", 5)] + [Piece(Unknown, 0)] == [Piece("run", 5), Piece("[UNK]", 0)];
    assert AppendUnknown(Dict, [Piece("run", 5)]) == Ok([Piece("run", 5), Piece("[UNK]", 0)]);
    assert Decompose(Dict, w, rest, [Piece("run", 5)]) == Ok([Piece("run", 5), Piece("[UNK]", 0)]);
    assert Dict["run"] == 5 && [] + [Piece("run", 5)] == [Piece("run", 5)];
    assert Decompose(Dict, w, w, []) == Decompose(Dict, w, rest, [Piece("run", 5)]);
  }

  lemma RunningPrefix()
    ensures LongestPrefix(Dict, "running", 7) == Some("run")
  {
    var w := "running";
    assert w[..3] == "run" && w[..4] == "runn" && w[..5] == "runni" && w[..6] == "runnin";
  }

  lemma RunningRewrite()
    ensures Replace("running", "run", Continuation) == "##ning"
  {
    var w := "running";
    assert w[..3] == "run" && w[3..] == "ning";
    assert Replace("ning", "run", Continuation) == "ning" by {
      assert "ning"[..3] != "run" && "ning"[1..] == "ing" && "ing"[..3] != "run";
      assert Replace("ing", "run", Continuation) == "ing" && Replace("ng", "run", Continuation) == "ng";
    }
  }

  lemma RunningRemainder()
    ensures LongestPrefix(Dict, "##ning", 6) == None
  {
    var rest := "##ning";
    assert rest[..2] == "##" && rest[..3] == "##n" && rest[..4] == "##ni" && rest[..5] == "##nin";
  }

  const Echo: map<string, int> := map["[UNK]" := 0, "ha" := 1, "##ha" := 2]

  /** "haha": the known prefix "ha" is replaced at BOTH of its occurrences, leaving "####", which
      has no known prefix; so the fragment "##ha" is never used and the word ends with the unknown
      marker. */
  lemma RepeatedPrefixEndsUnknown()
    ensures Subwords(Echo, "haha") == Ok([Piece("ha", 1), Piece("[UNK]", 0)])
  {
    var w := "haha";
    assert Continuation !in Echo && w !in Echo;
    assert w[..2] == "ha" && w[..3] == "hah" && w[..4] == w;
    assert LongestPrefix(Echo, w, 4) == Some("ha");
    var rest := "####";
    assert Replace(w, "ha", Continuation) == rest by {
      assert w[2..] == "ha" && "ha"[2..] == [];
      assert Replace("ha", "ha", Continuation) == Continuation + Replace([], "ha", Continuation);
    }
    assert rest[..2] == "##" && rest[..3] == "###" && rest[..4] == rest && rest !in Echo;
    assert LongestPrefix(Echo, rest, 4) == None;
    assert Unknown in Echo && Echo[Unknown] == 0;
    assert [Piece("ha", 1)] + [Piece(Unknown, 0)] == [Piece("ha", 1), Piece("[UNK]", 0)];
    assert Decompose(Echo, w, rest, [Piece("ha", 1)]) == Ok([Piece("ha", 1), Piece("[UNK]", 0)]);
    assert Echo["ha"] == 1 && [] + [Piece("ha", 1)] == [Piece("ha", 1)];
    assert Decompose(Echo, w, w, []) == Decompose(Echo, w, rest, [Piece("ha", 1)]);
  }

  /** A vocabulary that holds "##" itself, which `Decompose` does not admit. */
  const Marked: map<string, int> := map["[UNK]" := 0, "ab" := 1, "##c" := 2, "##" := 3]

  /** "abc" still ends with "##" in the vocabulary: "ab" is its longest known prefix, the
      remainder "##c" is its own longest known prefix, and rewriting it leaves "##", which is too
      short for another step. */
  lemma MarkedEntryEnds()
    ensures LongestPrefix(Marked, "abc", 3) == Some("ab")
    ensures Replace("abc", "ab", Continuation) == "##c"
    ensures LongestPrefix(Marked, "##c", 3) == Some("##c")
    ensures Replace("##c", "##c", Continuation) == Continuation
  {
    var w := "abc";
    assert w[..2] == "ab" && w[..3] == w && w !in Marked;
    assert w[2..] == "c" && Replace("c", "ab", Continuation) == "c";
    var rest := "##c";
    assert rest[..3] == rest && rest[3..] == [];
  }

  /** "##x" stalls with "##" in the vocabulary: its longest known prefix is "##", and the rewrite
      gives the same remainder back. */
  lemma MarkedEntryStalls()
    ensures LongestPrefix(Marked, "##x", 3) == Some(Continuation)
    ensures Replace("##x", Continuation, Continuation) == "##x"
  {
    var w := "##x";
    assert w[..3] == w && w !in Marked && w[..2] == Continuation;
    RewriteStuck(Marked, w);
  }
}
