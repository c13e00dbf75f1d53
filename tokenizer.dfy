/** `TokenizerBase`: the vocabulary loaded once, and the operations that read it. */
module NerTokenizer {
  import opened Text
  import opened Results
  import opened Tokens
  import opened Vocabulary
  import opened WordPiece
  import opened Tokenization
  import opened Encoding
  import opened Untokenization

  /** The chunking loop of `Encode`: consecutive slices of `BlockSize` tokens, the last one
      shorter. */
  method CutBlocks(tokens: seq<Token>) returns (tokensList: seq<seq<Token>>)
    ensures tokensList == Blocks(tokens)
  {
    tokensList := [];
    var i := 0;
    while i < |tokens|
      invariant 0 <= i
      invariant i <= |tokens| ==> tokensList + Blocks(tokens[i..]) == Blocks(tokens)
      invariant i > |tokens| ==> tokensList == Blocks(tokens)
      decreases |tokens| - i
    {
      BlocksFrom(tokens, i);
      tokensList := tokensList + [tokens[i..Min(i + BlockSize, |tokens|)]];
      i := i + BlockSize;
    }
    if i <= |tokens| {
      assert tokens[i..] == [];
    }
  }

  /** The padding loop of `Encode`: `sequenceLength - |block|` zeros per block, failing as
      `Enumerable.Repeat` does as soon as one block is longer than `sequenceLength`. */
  method PaddingOfBlocks(tokensList: seq<seq<Token>>, sequenceLength: int) returns (r: Result<seq<seq<int>>>)
    ensures r.Ok? <==> forall m :: 0 <= m < |tokensList| ==> |tokensList[m]| <= sequenceLength
    ensures r.Err? ==> r.error == ArgumentOutOfRange
    ensures r.Ok? ==> |r.value| == |tokensList|
    ensures r.Ok? ==> forall m :: 0 <= m < |tokensList| ==>
      r.value[m] == seq(sequenceLength - |tokensList[m]|, _ => 0)
  {
    var paddingList: seq<seq<int>> := [];
    for k := 0 to |tokensList|
      invariant |paddingList| == k
      invariant forall m :: 0 <= m < k ==>
        |tokensList[m]| <= sequenceLength && paddingList[m] == seq(sequenceLength - |tokensList[m]|, _ => 0)
    {
      var count := sequenceLength - |tokensList[k]|;
      if count < 0 {
        return Err(ArgumentOutOfRange);
      }
      paddingList := paddingList + [seq(count, _ => 0)];
    }
    return Ok(paddingList);
  }

  /** The output loop of `Encode`: each block's ids, segment ids and ones, each followed by the
      block's padding, zipped into one window. */
  method ZipBlocks(tokensList: seq<seq<Token>>, paddingList: seq<seq<int>>, sequenceLength: int) returns (output: seq<seq<Entry>>)
    requires |paddingList| == |tokensList|
    requires forall m :: 0 <= m < |tokensList| ==>
      |tokensList[m]| <= sequenceLength && paddingList[m] == seq(sequenceLength - |tokensList[m]|, _ => 0)
    ensures output == EncodeBlocks(tokensList, sequenceLength)
  {
    output := [];
    for k := 0 to |tokensList|
      invariant |output| == k
      invariant forall m :: 0 <= m < k ==> |output[m]| == sequenceLength
      invariant forall m, j :: 0 <= m < k && 0 <= j < sequenceLength ==>
        output[m][j] == if j < |tokensList[m]| then RealEntry(tokensList[m][j]) else PaddingEntry
    {
      var block := tokensList[k];
      var padding := paddingList[k];
      var tokenIndexes := seq(|block|, j requires 0 <= j < |block| => block[j].vocabularyIndex) + padding;
      var segmentIndexes := seq(|block|, j requires 0 <= j < |block| => block[j].segmentIndex) + padding;
      var inputMask := seq(|block|, _ => 1) + padding;
      var window := seq(|tokenIndexes|, j requires 0 <= j < |tokenIndexes| =>
        Entry(tokenIndexes[j], segmentIndexes[j], inputMask[j]));
      output := output + [window];
    }
    EncodeBlocksUnique(tokensList, sequenceLength, output);
  }

  /** `List.Reverse` on the caller's list. */
  method ReverseInPlace(a: array<string>)
    modifies a
    ensures a[..] == Reverse(old(a[..]))
  {
    var lo, hi := 0, a.Length - 1;
    while lo < hi
      invariant 0 <= lo <= a.Length && hi == a.Length - 1 - lo
      invariant forall i :: 0 <= i < lo || hi < i < a.Length ==> a[i] == old(a[a.Length - 1 - i])
      invariant forall i :: lo <= i <= hi ==> a[i] == old(a[i])
    {
      a[lo], a[hi] := a[hi], a[lo];
      lo, hi := lo + 1, hi - 1;
    }
  }

  class TokenizerBase {
    /** The vocabulary entries in file order: position is id. */
    const vocabulary: seq<string>
    /** Entry to id; for a duplicated entry, its last position. */
    const vocabularyDict: map<string, int>

    /** The constructor, given the lines of the vocabulary file. */
    constructor (lines: seq<string>)
      ensures vocabulary == ReadVocabulary(lines)
      ensures vocabularyDict == IndexMap(vocabulary)
      ensures forall w :: w in vocabularyDict <==> w in vocabulary
      ensures forall w :: w in vocabularyDict ==>
        0 <= vocabularyDict[w] < |vocabulary| && vocabulary[vocabularyDict[w]] == w
        && forall j :: vocabularyDict[w] < j < |vocabulary| ==> vocabulary[j] != w
    {
      var v := ReadVocabulary(lines);
      var d: map<string, int> := map[];
      for i := 0 to |v|
        invariant d == IndexMap(v[..i])
      {
        assert v[..i + 1][..i] == v[..i];
        d := d[v[i] := i];
      }
      assert v[..|v|] == v;
      IndexMapLastPosition(v);
      vocabulary := v;
      vocabularyDict := d;
    }

    /** `TokenizeSubwords`, with its nested loops. */
    method TokenizeSubwords(word: string) returns (r: Result<seq<Piece>>)
      requires Continuation !in vocabularyDict
      ensures r == Subwords(vocabularyDict, word)
      ensures r.Ok? ==> WellFormed(vocabularyDict, word, r.value)
      ensures r.Ok? && !IsNullOrWhiteSpace(word) ==> r.value != []
      ensures r.Err? ==> Unknown !in vocabularyDict && r.error == KeyNotFound(Unknown)
    {
      var dict := vocabularyDict;
      SubwordsWellFormed(dict, word);
      if word in dict {
        return Ok([Piece(word, dict[word])]);
      }
      var tokens: seq<Piece> := [];
      var remaining := word;
      while remaining != "" && |remaining| > 2
        invariant Decompose(dict, word, remaining, tokens) == Subwords(dict, word)
        decreases Weight(remaining)
      {
        var prefix: Option<string> := None;
        var subwordLength := |remaining|;
        while subwordLength >= 2
          invariant 1 <= subwordLength <= |remaining|
          invariant LongestPrefix(dict, remaining, |remaining|) == LongestPrefix(dict, remaining, subwordLength)
          decreases subwordLength
        {
          var subword := remaining[..subwordLength];
          if subword !in dict {
            subwordLength := subwordLength - 1;
            continue;
          }
          prefix := Some(subword);
          break;
        }
        assert prefix == LongestPrefix(dict, remaining, |remaining|);
        if prefix == None {
          if Unknown !in dict {
            return Err(KeyNotFound(Unknown));
          }
          tokens := tokens + [Piece(Unknown, dict[Unknown])];
          return Ok(tokens);
        }
        WeightAboveMarker(prefix.value);
        ReplaceWeight(remaining, prefix.value, Continuation);
        remaining := Replace(remaining, prefix.value, Continuation);
        tokens := tokens + [Piece(prefix.value, dict[prefix.value])];
      }
      if !IsNullOrWhiteSpace(word) && |tokens| == 0 {
        if Unknown !in dict {
          return Err(KeyNotFound(Unknown));
        }
        tokens := tokens + [Piece(Unknown, dict[Unknown])];
      }
      return Ok(tokens);
    }

    /** `SegmentIndex`: a running count of the separators seen, recorded before it is bumped. */
    method SegmentIndex(tokens: seq<Piece>) returns (segmentIndexes: seq<int>)
      ensures |segmentIndexes| == |tokens|
      ensures forall k :: 0 <= k < |tokens| ==> segmentIndexes[k] == Count(PieceTexts(tokens)[..k], Separation)
      ensures segmentIndexes == SegmentIdsFrom(tokens, 0)
    {
      var segmentIndex := 0;
      segmentIndexes := [];
      for i := 0 to |tokens|
        invariant |segmentIndexes| == i
        invariant segmentIndex == Count(PieceTexts(tokens)[..i], Separation)
        invariant forall k :: 0 <= k < i ==> segmentIndexes[k] == Count(PieceTexts(tokens)[..k], Separation)
      {
        CountSnoc(PieceTexts(tokens), i, Separation);
        segmentIndexes := segmentIndexes + [segmentIndex];
        if tokens[i].token == Separation {
          segmentIndex := segmentIndex + 1;
        }
      }
      forall k | 0 <= k < |tokens| ensures segmentIndexes[k] == SegmentIdsFrom(tokens, 0)[k] {
        SegmentIdsCount(tokens, k);
      }
    }

    /** `Encode`: tokenize, cut into blocks of 512, pad each block to `sequenceLength`, and zip ids,
        segments and attention. */
    method Encode(sequenceLength: int, texts: seq<string>) returns (r: Result<seq<seq<Entry>>>)
      requires Continuation !in vocabularyDict
      ensures r == Encoding.Encode(vocabularyDict, sequenceLength, texts)
    {
      var tokens :- Tokenize(vocabularyDict, texts);
      var tokensList := CutBlocks(tokens);
      var paddingList :- PaddingOfBlocks(tokensList, sequenceLength);
      var output := ZipBlocks(tokensList, paddingList, sequenceLength);
      WindowsOfBlocks(tokens, sequenceLength);
      r := Ok(output);
    }

    /** `Untokenize`: reverses the caller's list in place, walks it gluing fragments onto the word
        in front of them, and returns the words back in reading order. */
    method Untokenize(tokens: array<string>) returns (untokens: seq<string>)
      modifies tokens
      ensures tokens[..] == Reverse(old(tokens[..]))
      ensures untokens == WholeWords(old(tokens[..]))
    {
      ghost var ts := tokens[..];
      var currentToken := "";
      untokens := [];
      ReverseInPlace(tokens);
      var n := tokens.Length;
      for j := 0 to n
        invariant tokens[..] == Reverse(ts)
        invariant currentToken == JoinedRun(ts[n - j..])
        invariant untokens == Reverse(WholeWords(ts[n - j..]))
      {
        var token := tokens[j];
        assert token == ts[n - j - 1];
        UntokenizeStep(ts, n - j);
        assert ts[n - (j + 1)..] == ts[n - j - 1..];
        if StartsWith(token, Continuation) {
          currentToken := Replace(token, Continuation, "") + currentToken;
        } else {
          currentToken := token + currentToken;
          untokens := untokens + [currentToken];
          currentToken := "";
        }
      }
      assert ts[n - n..] == ts;
      untokens := Reverse(untokens);
      assert untokens == WholeWords(ts);
    }
  }
}
