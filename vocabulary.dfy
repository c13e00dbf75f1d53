/** The vocabulary: the entries of the vocabulary file in file order, and the index from entry to id. */
module Vocabulary {
  import opened Text
  import opened Results

  /** The filter of `VocabularyReader.ReadFile`, over the lines the reader produced: blank and
      whitespace-only lines are skipped, every other line is kept verbatim, untrimmed, in order. */
  function ReadVocabulary(lines: seq<string>): (v: seq<string>)
    ensures forall w :: w in v <==> w in lines && !IsNullOrWhiteSpace(w)
    ensures |v| <= |lines|
  {
    if lines == [] then []
    else (if IsNullOrWhiteSpace(lines[0]) then [] else [lines[0]]) + ReadVocabulary(lines[1..])
  }

  /** Reading is line by line: the entries of two consecutive parts of the file are those of the
      first part followed by those of the second. */
  lemma {:induction false} ReadVocabularyAppend(a: seq<string>, b: seq<string>)
    ensures ReadVocabulary(a + b) == ReadVocabulary(a) + ReadVocabulary(b)
  {
    if a == [] {
      assert a + b == b;
    } else {
      assert (a + b)[0] == a[0] && (a + b)[1..] == a[1..] + b;
      ReadVocabularyAppend(a[1..], b);
    }
  }

  /** The dictionary the constructor of `TokenizerBase` builds: entry `i` is stored under its string,
      in increasing `i`, so a later duplicate overwrites an earlier one. */
  function IndexMap(v: seq<string>): (m: map<string, int>)
    ensures forall w :: w in m <==> w in v
    ensures forall w :: w in m ==> 0 <= m[w] < |v| && v[m[w]] == w
  {
    if v == [] then map[]
    else
      assert v == v[..|v| - 1] + [v[|v| - 1]];
      IndexMap(v[..|v| - 1])[v[|v| - 1] := |v| - 1]
  }

  /** The keys are exactly the entries, and each key maps to the LAST position holding it. */
  lemma {:induction false} IndexMapLastPosition(v: seq<string>)
    ensures forall w :: w in IndexMap(v) <==> w in v
    ensures forall w :: w in IndexMap(v) ==>
      0 <= IndexMap(v)[w] < |v| && v[IndexMap(v)[w]] == w
      && forall j :: IndexMap(v)[w] < j < |v| ==> v[j] != w
  {
    if v != [] {
      var u := v[..|v| - 1];
      IndexMapLastPosition(u);
      assert v == u + [v[|v| - 1]];
      forall w | w in v ensures w in IndexMap(v) {
        if w != v[|v| - 1] {
          var i :| 0 <= i < |v| && v[i] == w;
          assert u[i] == w;
        }
      }
    }
  }

  /** `IdToToken`: the entry at position `id`; the list indexer throws outside the bounds. */
  function IdToToken(v: seq<string>, id: int): (r: Result<string>)
    ensures r.Ok? <==> 0 <= id < |v|
    ensures r.Ok? ==> r.value in v
    ensures r.Err? ==> r.error == ArgumentOutOfRange
  {
    if 0 <= id < |v| then Ok(v[id]) else Err(ArgumentOutOfRange)
  }

  /** Looking a string up in the dictionary and the id back up in the list returns the string. */
  lemma IdToTokenOfIndex(v: seq<string>, w: string)
    requires w in v
    ensures w in IndexMap(v) && IdToToken(v, IndexMap(v)[w]) == Ok(w)
  {
    IndexMapLastPosition(v);
  }

  /** An id the dictionary gives for `w` is never smaller than any other position of `w`. */
  lemma IndexMapIsLargest(v: seq<string>, i: int)
    requires 0 <= i < |v|
    ensures v[i] in IndexMap(v) && i <= IndexMap(v)[v[i]]
  {
    IndexMapLastPosition(v);
  }
}
