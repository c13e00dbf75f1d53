/** `TokenizeSubwords`: greedy longest-prefix decomposition of one word into vocabulary entries. */
module WordPiece {
  import opened Text
  import opened Results
  import opened Tokens

  /** A vocabulary entry with its id, as `TokenizeSubwords` yields it. */
  datatype Piece = Piece(token: string, vocabularyIndex: int)

  /** The inner loop of `TokenizeSubwords`: the longest prefix of `s` of length between 2 and `len`
      that is a vocabulary entry. */
  function LongestPrefix(dict: map<string, int>, s: string, len: nat): (r: Option<string>)
    requires len <= |s|
    ensures r.Some? ==> 2 <= |r.value| <= len && r.value == s[..|r.value|] && r.value in dict
    ensures r.Some? ==> forall l :: |r.value| < l <= len ==> s[..l] !in dict
    ensures r.None? ==> forall l :: 2 <= l <= len ==> s[..l] !in dict
    decreases len
  {
    if len < 2 then None
    else if s[..len] in dict then Some(s[..len])
    else LongestPrefix(dict, s, len - 1)
  }

  /** Appends the unknown marker; the dictionary indexer throws when the vocabulary lacks it. */
  function AppendUnknown(dict: map<string, int>, acc: seq<Piece>): (r: Result<seq<Piece>>)
    ensures r.Ok? <==> Unknown in dict
    ensures r.Ok? ==> r.value == acc + [Piece(Unknown, dict[Unknown])]
    ensures r.Err? ==> r.error == KeyNotFound(Unknown)
  {
    if Unknown in dict then Ok(acc + [Piece(Unknown, dict[Unknown])]) else Err(KeyNotFound(Unknown))
  }

  /** The outer loop of `TokenizeSubwords` from the state (`remaining`, `acc`). While more than two
      characters remain, the longest vocabulary prefix is emitted and EVERY occurrence of it in the
      remainder is replaced by "##"; with no such prefix the unknown marker ends the word. A remainder
      of at most two characters is dropped; a non-blank word that produced nothing gets the unknown
      marker. Without "##" in the vocabulary each step lowers the weight of the remainder. */
  function Decompose(dict: map<string, int>, word: string, remaining: string, acc: seq<Piece>)
    : (r: Result<seq<Piece>>)
    requires Continuation !in dict
    ensures r.Ok? ==> acc <= r.value
    ensures r.Err? ==> Unknown !in dict && r.error == KeyNotFound(Unknown)
    decreases Weight(remaining)
  {
    if |remaining| <= 2 then
      if !IsNullOrWhiteSpace(word) && acc == [] then AppendUnknown(dict, acc) else Ok(acc)
    else
      match LongestPrefix(dict, remaining, |remaining|)
      case None => AppendUnknown(dict, acc)
      case Some(prefix) =>
        WeightAboveMarker(prefix);
        ReplaceWeight(remaining, prefix, Continuation);
        Decompose(dict, word, Replace(remaining, prefix, Continuation), acc + [Piece(prefix, dict[prefix])])
  }

  /** With "##" in the vocabulary, a remainder of more than two characters whose longest known
      prefix is "##" itself is rewritten to itself, so the outer loop repeats that step forever. */
  lemma RewriteStuck(dict: map<string, int>, remaining: string)
    requires |remaining| > 2 && LongestPrefix(dict, remaining, |remaining|) == Some(Continuation)
    ensures Continuation in dict && StartsWith(remaining, Continuation)
    ensures Replace(remaining, Continuation, Continuation) == remaining
  {
    ReplaceSelf(remaining, Continuation);
  }

  /** Whatever the vocabulary, a longest known prefix other than "##" lowers the weight of the
      remainder: the loop only stalls in the case of `RewriteStuck`. */
  lemma RewriteProgress(dict: map<string, int>, remaining: string, prefix: string)
    requires |remaining| > 2 && LongestPrefix(dict, remaining, |remaining|) == Some(prefix)
    requires prefix != Continuation
    ensures Weight(Replace(remaining, prefix, Continuation)) < Weight(remaining)
  {
    WeightAboveMarker(prefix);
    ReplaceWeight(remaining, prefix, Continuation);
  }

  /** `TokenizeSubwords`: an exact vocabulary hit is returned whole, anything else is decomposed. */
  function Subwords(dict: map<string, int>, word: string): (r: Result<seq<Piece>>)
    requires Continuation !in dict
    ensures word in dict ==> r == Ok([Piece(word, dict[word])])
    ensures word !in dict && |word| <= 2 ==>
      r == if IsNullOrWhiteSpace(word) then Ok([]) else AppendUnknown(dict, [])
    ensures r.Err? ==> Unknown !in dict && r.error == KeyNotFound(Unknown)
  {
    if word in dict then Ok([Piece(word, dict[word])]) else Decompose(dict, word, word, [])
  }

  /** Every piece is a vocabulary entry carrying its own id. */
  ghost predicate Known(dict: map<string, int>, ps: seq<Piece>) {
    forall k :: 0 <= k < |ps| ==> ps[k].token in dict && ps[k].vocabularyIndex == dict[ps[k].token]
  }

  /** The shape of a decomposition of `word`: known entries; the first piece, unless it is the
      unknown marker, is a prefix of the word; every later piece other than the unknown marker is a
      continuation fragment; and, unless the word itself starts with "[UNK]", the unknown marker is
      at most the last piece. */
  ghost predicate WellFormed(dict: map<string, int>, word: string, ps: seq<Piece>) {
    Known(dict, ps)
    && (|ps| > 0 && ps[0].token != Unknown ==> StartsWith(word, ps[0].token))
    && (forall k :: 1 <= k < |ps| && ps[k].token != Unknown ==> StartsWith(ps[k].token, Continuation))
    && (!StartsWith(word, Unknown) ==> forall k :: 0 <= k < |ps| - 1 ==> ps[k].token != Unknown)
  }

  lemma {:induction false} DecomposeWellFormed(dict: map<string, int>, word: string, remaining: string, acc: seq<Piece>)
    requires Continuation !in dict
    requires WellFormed(dict, word, acc)
    requires !StartsWith(word, Unknown) ==> forall k :: 0 <= k < |acc| ==> acc[k].token != Unknown
    requires acc == [] ==> remaining == word
    requires acc != [] ==> StartsWith(remaining, Continuation)
    ensures Decompose(dict, word, remaining, acc).Ok? ==>
      var ps := Decompose(dict, word, remaining, acc).value;
      WellFormed(dict, word, ps) && |acc| <= |ps| && (!IsNullOrWhiteSpace(word) ==> ps != [])
    decreases Weight(remaining)
  {
    if |remaining| <= 2 {
    } else {
      match LongestPrefix(dict, remaining, |remaining|)
      case None =>
      case Some(prefix) =>
        WeightAboveMarker(prefix);
        ReplaceWeight(remaining, prefix, Continuation);
        ReplaceStartsWith(remaining, prefix, Continuation);
        var next := acc + [Piece(prefix, dict[prefix])];
        if acc == [] {
          assert StartsWith(word, prefix);
          assert !StartsWith(word, Unknown) ==> prefix != Unknown;
        } else {
          assert prefix[..2] == remaining[..2] == Continuation;
          assert prefix[0] == '#';
          assert StartsWith(prefix, Continuation);
          assert prefix != Unknown;
        }
        DecomposeWellFormed(dict, word, Replace(remaining, prefix, Continuation), next);
    }
  }

  /** The shape of `TokenizeSubwords`' output; a non-blank word always yields at least one piece. */
  lemma SubwordsWellFormed(dict: map<string, int>, word: string)
    requires Continuation !in dict
    ensures Subwords(dict, word).Ok? ==>
      WellFormed(dict, word, Subwords(dict, word).value)
      && (!IsNullOrWhiteSpace(word) ==> Subwords(dict, word).value != [])
  {
    if word !in dict {
      DecomposeWellFormed(dict, word, word, []);
    }
  }

  /** No piece other than the unknown marker contains a '['. */
  ghost predicate Bracketless(ps: seq<Piece>) {
    forall k :: 0 <= k < |ps| ==> ps[k].token == Unknown || '[' !in ps[k].token
  }

  lemma {:induction false} DecomposeBracketless(dict: map<string, int>, word: string, remaining: string, acc: seq<Piece>)
    requires Continuation !in dict
    requires '[' !in word && '[' !in remaining && Bracketless(acc)
    ensures Decompose(dict, word, remaining, acc).Ok? ==> Bracketless(Decompose(dict, word, remaining, acc).value)
    decreases Weight(remaining)
  {
    if |remaining| > 2 {
      match LongestPrefix(dict, remaining, |remaining|)
      case None =>
      case Some(prefix) =>
        WeightAboveMarker(prefix);
        ReplaceWeight(remaining, prefix, Continuation);
        assert '[' !in prefix by {
          assert forall c :: c in prefix ==> c in remaining;
        }
        DecomposeBracketless(dict, word, Replace(remaining, prefix, Continuation), acc + [Piece(prefix, dict[prefix])]);
    }
  }

  /** A word without '[' decomposes into pieces without '[', apart from the unknown marker: it never
      yields "[CLS]" or "[SEP]". */
  lemma SubwordsBracketless(dict: map<string, int>, word: string)
    requires Continuation !in dict
    requires '[' !in word
    ensures Subwords(dict, word).Ok? ==> Bracketless(Subwords(dict, word).value)
  {
    if word !in dict {
      DecomposeBracketless(dict, word, word, []);
    }
  }
}
