/** `Tokenize` and `SegmentIndex`: the token stream of a list of texts, with running segment ids. */
module Tokenization {
  import opened Text
  import opened Results
  import opened Tokens
  import opened WordPiece
  import opened PreTokenizer

  /** A token as `Tokenize` returns it: the entry, its id and its segment. */
  datatype Token = Token(token: string, vocabularyIndex: int, segmentIndex: int)

  function PieceTexts(ps: seq<Piece>): seq<string> {
    seq(|ps|, k requires 0 <= k < |ps| => ps[k].token)
  }

  function TokenTexts(ts: seq<Token>): seq<string> {
    seq(|ts|, k requires 0 <= k < |ts| => ts[k].token)
  }

  /** The words of the texts, each text's words followed by one separator. */
  function TextWords(texts: seq<string>): seq<string> {
    if texts == [] then [] else TokenizeSentence(texts[0]) + [Separation] + TextWords(texts[1..])
  }

  /** The words `Tokenize` hands to `TokenizeSubwords`: one classification marker, then the texts. */
  function Words(texts: seq<string>): seq<string> {
    [Classification] + TextWords(texts)
  }

  /** The `SelectMany` of `TokenizeSubwords` over a word list. */
  function SelectSubwords(dict: map<string, int>, words: seq<string>): (r: Result<seq<Piece>>)
    requires Continuation !in dict
    ensures r.Err? ==> Unknown !in dict && r.error == KeyNotFound(Unknown)
  {
    if words == [] then Ok([])
    else
      var head :- Subwords(dict, words[0]);
      var tail :- SelectSubwords(dict, words[1..]);
      Ok(head + tail)
  }

  /** The loop of `SegmentIndex` from the counter value `segment`: each token gets the current
      counter, which is incremented AFTER a separator. */
  function SegmentIdsFrom(ps: seq<Piece>, segment: int): (ids: seq<int>)
    ensures |ids| == |ps|
  {
    if ps == [] then []
    else [segment] + SegmentIdsFrom(ps[1..], if ps[0].token == Separation then segment + 1 else segment)
  }

  /** `Tokenize`: decomposes every word and zips the pieces with their segment ids. */
  function Tokenize(dict: map<string, int>, texts: seq<string>): (r: Result<seq<Token>>)
    requires Continuation !in dict
    ensures r.Err? ==> Unknown !in dict && r.error == KeyNotFound(Unknown)
    ensures r.Ok? ==> |r.value| > 0
  {
    var ps :- SelectSubwords(dict, Words(texts));
    var ids := SegmentIdsFrom(ps, 0);
    Ok(seq(|ps|, k requires 0 <= k < |ps| => Token(ps[k].token, ps[k].vocabularyIndex, ids[k])))
  }

  // ---------------------------------------------------------------------------------------------
  // Segment ids

  lemma {:induction false} SegmentIdsFromCount(ps: seq<Piece>, segment: int, k: nat)
    requires k < |ps|
    ensures SegmentIdsFrom(ps, segment)[k] == segment + Count(PieceTexts(ps)[..k], Separation)
  {
    if k > 0 {
      var next := if ps[0].token == Separation then segment + 1 else segment;
      SegmentIdsFromCount(ps[1..], next, k - 1);
      assert PieceTexts(ps)[..k][0] == ps[0].token;
      assert PieceTexts(ps)[..k][1..] == PieceTexts(ps[1..])[..k - 1];
    }
  }

  /** The segment id at position `k` is the number of separators strictly before `k`. */
  lemma SegmentIdsCount(ps: seq<Piece>, k: nat)
    requires k < |ps|
    ensures SegmentIdsFrom(ps, 0)[k] == Count(PieceTexts(ps)[..k], Separation)
  {
    SegmentIdsFromCount(ps, 0, k);
  }

  lemma {:induction false} SegmentIdsStep(ps: seq<Piece>, segment: int, k: nat)
    requires k + 1 < |ps|
    ensures SegmentIdsFrom(ps, segment)[k + 1] ==
      SegmentIdsFrom(ps, segment)[k] + if ps[k].token == Separation then 1 else 0
  {
    var next := if ps[0].token == Separation then segment + 1 else segment;
    var tail := SegmentIdsFrom(ps[1..], next);
    assert SegmentIdsFrom(ps, segment) == [segment] + tail;
    if k == 0 {
      assert tail[0] == next;
    } else {
      SegmentIdsStep(ps[1..], next, k - 1);
      assert ps[1..][k - 1] == ps[k];
    }
  }

  /** Segment ids start at 0, and rise by one exactly after each separator and never otherwise: a
      separator still carries the segment it closes. */
  lemma SegmentIdsSteps(ps: seq<Piece>)
    ensures |ps| > 0 ==> SegmentIdsFrom(ps, 0)[0] == 0
    ensures forall k :: 0 <= k < |ps| - 1 ==>
      SegmentIdsFrom(ps, 0)[k + 1] == SegmentIdsFrom(ps, 0)[k] + if ps[k].token == Separation then 1 else 0
  {
    forall k | 0 <= k < |ps| - 1
      ensures SegmentIdsFrom(ps, 0)[k + 1] == SegmentIdsFrom(ps, 0)[k] + if ps[k].token == Separation then 1 else 0
    {
      SegmentIdsStep(ps, 0, k);
    }
    if |ps| > 0 { SegmentIdsCount(ps, 0); }
  }

  // ---------------------------------------------------------------------------------------------
  // SelectMany

  lemma {:induction false} SelectSubwordsAppend(dict: map<string, int>, a: seq<string>, b: seq<string>)
    requires Continuation !in dict
    ensures SelectSubwords(dict, a + b) ==
      (var x :- SelectSubwords(dict, a); var y :- SelectSubwords(dict, b); Ok(x + y))
  {
    if a == [] {
      assert a + b == b;
      match SelectSubwords(dict, b)
      case Err(_) =>
      case Ok(y) => assert [] + y == y;
    } else {
      assert (a + b)[0] == a[0] && (a + b)[1..] == a[1..] + b;
      SelectSubwordsAppend(dict, a[1..], b);
      match Subwords(dict, a[0])
      case Err(_) =>
      case Ok(h) =>
        match SelectSubwords(dict, a[1..])
        case Err(_) =>
        case Ok(t) =>
          match SelectSubwords(dict, b)
          case Err(_) =>
          case Ok(y) => ConcatAssoc(h, t, y);
    }
  }

  lemma {:induction false} SelectSubwordsKnown(dict: map<string, int>, words: seq<string>)
    requires Continuation !in dict
    ensures SelectSubwords(dict, words).Ok? ==> Known(dict, SelectSubwords(dict, words).value)
  {
    if words != [] {
      SubwordsWellFormed(dict, words[0]);
      SelectSubwordsKnown(dict, words[1..]);
    }
  }

  lemma {:induction false} SelectSubwordsBracketless(dict: map<string, int>, words: seq<string>)
    requires Continuation !in dict
    requires forall w :: w in words ==> '[' !in w
    ensures SelectSubwords(dict, words).Ok? ==> Bracketless(SelectSubwords(dict, words).value)
  {
    if words != [] {
      SubwordsBracketless(dict, words[0]);
      SelectSubwordsBracketless(dict, words[1..]);
    }
  }

  lemma SelectSubwordsSingle(dict: map<string, int>, word: string)
    requires Continuation !in dict
    ensures SelectSubwords(dict, [word]) == Subwords(dict, word)
  {
    assert [word][0] == word && [word][1..] == [];
    match Subwords(dict, word)
    case Err(_) =>
    case Ok(h) => assert h + [] == h;
  }

  /** A text's subwords are followed by its separator, then by the tokens of the texts after it. */
  lemma TextWordsSubwords(dict: map<string, int>, text: string, rest: seq<string>)
    requires Continuation !in dict && Separation in dict
    ensures SelectSubwords(dict, TextWords([text] + rest)) ==
      (var a :- SelectSubwords(dict, TokenizeSentence(text));
       var b :- SelectSubwords(dict, TextWords(rest));
       Ok(a + [Piece(Separation, dict[Separation])] + b))
  {
    var texts := [text] + rest;
    assert texts[0] == text && texts[1..] == rest;
    SelectSubwordsAppend(dict, TokenizeSentence(text) + [Separation], TextWords(rest));
    SelectSubwordsAppend(dict, TokenizeSentence(text), [Separation]);
    SelectSubwordsSingle(dict, Separation);
  }

  lemma JoinMarkers(a: seq<Piece>, sep: Piece, b: seq<Piece>)
    requires Bracketless(a) && sep.token == Separation && Classification !in PieceTexts(b)
    ensures Count(PieceTexts(a + [sep] + b), Separation) == Count(PieceTexts(b), Separation) + 1
    ensures Classification !in PieceTexts(a + [sep] + b)
    ensures (a + [sep] + b)[|a + [sep] + b| - 1].token == Separation || (b != [] && (a + [sep] + b)[|a + [sep] + b| - 1] == b[|b| - 1])
  {
    var ps := a + [sep] + b;
    assert '[' in Separation && '[' in Classification;
    assert Separation !in PieceTexts(a) && Classification !in PieceTexts(a);
    CountZero(PieceTexts(a), Separation);
    assert PieceTexts(ps) == PieceTexts(a) + [Separation] + PieceTexts(b);
    CountAppend(PieceTexts(a) + [Separation], PieceTexts(b), Separation);
    CountAppend(PieceTexts(a), [Separation], Separation);
    assert Count([Separation], Separation) == 1 + Count([Separation][1..], Separation);
  }

  /** The words of a text contain no '['. */
  lemma SentenceBracketless(text: string)
    ensures forall w :: w in TokenizeSentence(text) ==> '[' !in w
  {
    assert '[' in Delimiters;
  }

  /** The pieces of the texts hold exactly one separator per text, the last piece is a separator,
      and no classification marker occurs among them. */
  lemma {:induction false} TextWordsMarkers(dict: map<string, int>, texts: seq<string>)
    requires Continuation !in dict && Separation in dict
    ensures SelectSubwords(dict, TextWords(texts)).Ok? ==>
      var ps := SelectSubwords(dict, TextWords(texts)).value;
      Count(PieceTexts(ps), Separation) == |texts|
      && Classification !in PieceTexts(ps)
      && (|texts| > 0 ==> |ps| > 0 && ps[|ps| - 1].token == Separation)
  {
    if texts != [] {
      var text, rest := texts[0], texts[1..];
      assert texts == [text] + rest;
      TextWordsSubwords(dict, text, rest);
      TextWordsMarkers(dict, rest);
      var words := TokenizeSentence(text);
      SentenceBracketless(text);
      SelectSubwordsBracketless(dict, words);
      if SelectSubwords(dict, words).Ok? && SelectSubwords(dict, TextWords(rest)).Ok? {
        var a := SelectSubwords(dict, words).value;
        var b := SelectSubwords(dict, TextWords(rest)).value;
        JoinMarkers(a, Piece(Separation, dict[Separation]), b);
      }
    }
  }

  // ---------------------------------------------------------------------------------------------
  // Properties of Tokenize

  /** Every token is a vocabulary entry with its own id, and carries as segment the number of
      separators before it. */
  lemma TokenizeIdsAndSegments(dict: map<string, int>, texts: seq<string>)
    requires Continuation !in dict
    ensures Tokenize(dict, texts).Ok? ==>
      var ts := Tokenize(dict, texts).value;
      (forall k :: 0 <= k < |ts| ==> ts[k].token in dict && ts[k].vocabularyIndex == dict[ts[k].token])
      && (forall k :: 0 <= k < |ts| ==> ts[k].segmentIndex == Count(TokenTexts(ts)[..k], Separation))
  {
    SelectSubwordsKnown(dict, Words(texts));
    match SelectSubwords(dict, Words(texts))
    case Err(_) =>
    case Ok(ps) =>
      var ts := Tokenize(dict, texts).value;
      assert TokenTexts(ts) == PieceTexts(ps);
      forall k | 0 <= k < |ts| ensures ts[k].segmentIndex == Count(TokenTexts(ts)[..k], Separation) {
        SegmentIdsCount(ps, k);
      }
  }

  /** Segment ids start at 0 and rise by one exactly after each separator. */
  lemma TokenizeSegmentSteps(dict: map<string, int>, texts: seq<string>)
    requires Continuation !in dict
    ensures Tokenize(dict, texts).Ok? ==>
      var ts := Tokenize(dict, texts).value;
      (|ts| > 0 ==> ts[0].segmentIndex == 0)
      && forall k :: 0 <= k < |ts| - 1 ==>
           ts[k + 1].segmentIndex == ts[k].segmentIndex + if ts[k].token == Separation then 1 else 0
  {
    match SelectSubwords(dict, Words(texts))
    case Err(_) =>
    case Ok(ps) => SegmentIdsSteps(ps);
  }

  /** `Tokenize` keeps the pieces of `SelectSubwords`, in order. */
  lemma TokenizePieces(dict: map<string, int>, texts: seq<string>)
    requires Continuation !in dict
    ensures Tokenize(dict, texts).Ok? <==> SelectSubwords(dict, Words(texts)).Ok?
    ensures Tokenize(dict, texts).Ok? ==>
      TokenTexts(Tokenize(dict, texts).value) == PieceTexts(SelectSubwords(dict, Words(texts)).value)
  {
  }

  /** With the classification marker in the vocabulary, the stream's texts are that marker
      followed by the pieces of the texts. */
  lemma TokenizeTexts(dict: map<string, int>, texts: seq<string>)
    requires Continuation !in dict && Classification in dict
    ensures Tokenize(dict, texts).Ok? <==> SelectSubwords(dict, TextWords(texts)).Ok?
    ensures Tokenize(dict, texts).Ok? ==>
      TokenTexts(Tokenize(dict, texts).value) ==
        [Classification] + PieceTexts(SelectSubwords(dict, TextWords(texts)).value)
  {
    TokenizePieces(dict, texts);
    SelectSubwordsAppend(dict, [Classification], TextWords(texts));
    SelectSubwordsSingle(dict, Classification);
    var head := Piece(Classification, dict[Classification]);
    assert Subwords(dict, Classification) == Ok([head]);
    if SelectSubwords(dict, TextWords(texts)).Ok? {
      var rest := SelectSubwords(dict, TextWords(texts)).value;
      assert SelectSubwords(dict, Words(texts)) == Ok([head] + rest);
      assert PieceTexts([head] + rest) == [Classification] + PieceTexts(rest);
    }
  }

  /** With the markers in the vocabulary, the stream opens with the one and only classification
      marker, holds one separator per text, and ends with a separator when there is a text. */
  lemma TokenizeMarkers(dict: map<string, int>, texts: seq<string>)
    requires Continuation !in dict && Classification in dict && Separation in dict
    ensures Tokenize(dict, texts).Ok? ==>
      var ts := Tokenize(dict, texts).value;
      |ts| > 0 && ts[0].token == Classification
      && (forall k :: 0 < k < |ts| ==> ts[k].token != Classification)
      && Count(TokenTexts(ts), Separation) == |texts|
      && (|texts| > 0 ==> ts[|ts| - 1].token == Separation)
  {
    TokenizeTexts(dict, texts);
    TextWordsMarkers(dict, texts);
    if Tokenize(dict, texts).Ok? {
      var ts := Tokenize(dict, texts).value;
      var ys := TokenTexts(ts);
      StreamMarkers(PieceTexts(SelectSubwords(dict, TextWords(texts)).value), ys, |texts|);
      assert forall k :: 0 <= k < |ts| ==> ts[k].token == ys[k];
    }
  }

  /** A stream of texts opened by one classification marker. */
  lemma StreamMarkers(xs: seq<string>, ys: seq<string>, n: nat)
    requires ys == [Classification] + xs
    requires Classification !in xs && Count(xs, Separation) == n
    requires n > 0 ==> |xs| > 0 && xs[|xs| - 1] == Separation
    ensures |ys| > 0 && ys[0] == Classification
    ensures forall k :: 0 < k < |ys| ==> ys[k] != Classification
    ensures Count(ys, Separation) == n
    ensures n > 0 ==> ys[|ys| - 1] == Separation
  {
    forall k | 0 < k < |ys| ensures ys[k] != Classification {
      assert ys[k] == xs[k - 1] && xs[k - 1] in xs;
    }
    if n > 0 {
      assert ys[|ys| - 1] == xs[|xs| - 1];
    }
    CountAfterMarker(xs);
  }

  lemma CountAfterMarker(xs: seq<string>)
    ensures Count([Classification] + xs, Separation) == Count(xs, Separation)
  {
    MarkersDistinct();
    var ys := [Classification] + xs;
    assert ys[0] == Classification && ys[1..] == xs;
  }
}
