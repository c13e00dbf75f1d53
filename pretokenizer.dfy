/** `TokenizeSentence` and `StringExtension.SplitAndKeep`: from raw text to word-level pieces. */
module PreTokenizer {
  import opened Text

  /** The separator array passed to `String.Split`, in its order. */
  const Separators: seq<string> := [" ", "   ", "\r\n"]

  /** The delimiter characters passed to `SplitAndKeep` (the apostrophe is listed twice). */
  const Delimiters: seq<char> :=
    ['.', ',', ';', ':', '\\', '/', '?', '!', '#', '$', '%', '(', ')', '=', '+', '-', '*', '"', '\'',
     '\U{2013}', '_', '`', '<', '>', '&', '^', '@', '{', '}', '[', ']', '|', '~', '\'']

  // ---------------------------------------------------------------------------------------------
  // String.Split(string[], StringSplitOptions.None)

  /** The length of the separator that `String.Split` recognises at the start of `s`: the first
      non-empty element of `seps`, in array order, that `s` starts with; 0 when there is none. */
  function MatchSeparator(s: string, seps: seq<string>): (n: nat)
    ensures n <= |s|
    ensures n > 0 ==> s[..n] in seps
    ensures n > 0 ==> exists k :: 0 <= k < |seps| && seps[k] == s[..n] && FirstMatch(s, seps, k)
    ensures n == 0 ==> forall k :: 0 <= k < |seps| && seps[k] != "" ==> !StartsWith(s, seps[k])
  {
    if seps == [] then 0
    else if seps[0] != "" && StartsWith(s, seps[0]) then
      assert FirstMatch(s, seps, 0);
      |seps[0]|
    else
      var n := MatchSeparator(s, seps[1..]);
      assert n > 0 ==> exists k :: 0 <= k < |seps| && seps[k] == s[..n] && FirstMatch(s, seps, k) by {
        if n > 0 {
          var k :| 0 <= k < |seps[1..]| && seps[1..][k] == s[..n] && FirstMatch(s, seps[1..], k);
          assert FirstMatch(s, seps, k + 1);
        }
      }
      n
  }

  /** No non-empty separator before position `k` of `seps` is a prefix of `s`. */
  predicate FirstMatch(s: string, seps: seq<string>, k: nat)
    requires k <= |seps|
  {
    forall j :: 0 <= j < k ==> seps[j] == "" || !StartsWith(s, seps[j])
  }

  /** Whatever follows, `" "` is tried before `"   "`, so the three-space separator never
      applies: the text is cut at every single space and at every CR LF pair. */
  lemma MatchSentenceSeparator(s: string)
    ensures MatchSeparator(s, Separators) ==
      if StartsWith(s, " ") then 1 else if StartsWith(s, "\r\n") then 2 else 0
  {
    var tail := ["   ", "\r\n"];
    assert Separators == [" "] + tail && Separators[1..] == tail;
    assert tail[1..] == ["\r\n"] && ["\r\n"][1..] == [];
    if !StartsWith(s, " ") {
      assert MatchSeparator(s, Separators) == MatchSeparator(s, tail);
      assert MatchSeparator(s, tail) == MatchSeparator(s, ["\r\n"]);
    }
  }

  /** Splitting with the piece collected so far in `cur`; empty pieces are kept. */
  function SplitFrom(s: string, seps: seq<string>, cur: string): (pieces: seq<string>)
    ensures pieces != []
    decreases |s|
  {
    if s == [] then [cur]
    else
      var n := MatchSeparator(s, seps);
      if n > 0 then [cur] + SplitFrom(s[n..], seps, "")
      else SplitFrom(s[1..], seps, cur + [s[0]])
  }

  /** `String.Split` with `StringSplitOptions.None`: never empty, since the empty text gives one
      empty piece. */
  function Split(s: string, seps: seq<string>): (pieces: seq<string>)
    ensures pieces != []
    ensures s == [] ==> pieces == [""]
  {
    SplitFrom(s, seps, "")
  }

  /** `s` with every separator occurrence that `Split` recognises removed. */
  function DropSeparators(s: string): string
    decreases |s|
  {
    if s == [] then []
    else if s[0] == ' ' then DropSeparators(s[1..])
    else if StartsWith(s, "\r\n") then DropSeparators(s[2..])
    else [s[0]] + DropSeparators(s[1..])
  }

  lemma {:induction false} SplitFromSpaceless(s: string, cur: string)
    requires ' ' !in cur
    ensures forall p :: p in SplitFrom(s, Separators, cur) ==> ' ' !in p
    decreases |s|
  {
    if s != [] {
      MatchSentenceSeparator(s);
      var n := MatchSeparator(s, Separators);
      if n > 0 {
        SplitFromSpaceless(s[n..], "");
      } else {
        SplitFromSpaceless(s[1..], cur + [s[0]]);
      }
    }
  }

  lemma {:induction false} SplitFromFlatten(s: string, cur: string)
    ensures Flatten(SplitFrom(s, Separators, cur)) == cur + DropSeparators(s)
    decreases |s|
  {
    if s == [] {
      assert Flatten([cur]) == cur + Flatten([cur][1..]);
    } else {
      MatchSentenceSeparator(s);
      var n := MatchSeparator(s, Separators);
      if n > 0 {
        SplitFromFlatten(s[n..], "");
        SplitFromFlattenAtSeparator(s, cur);
      } else {
        SplitFromFlatten(s[1..], cur + [s[0]]);
        SplitFromFlattenAtChar(s, cur);
      }
    }
  }

  lemma SplitFromFlattenAtSeparator(s: string, cur: string)
    requires MatchSeparator(s, Separators) > 0
    requires var n := MatchSeparator(s, Separators);
      Flatten(SplitFrom(s[n..], Separators, "")) == DropSeparators(s[n..])
    ensures Flatten(SplitFrom(s, Separators, cur)) == cur + DropSeparators(s)
  {
    MatchSentenceSeparator(s);
    var n := MatchSeparator(s, Separators);
    var rest := SplitFrom(s[n..], Separators, "");
    assert SplitFrom(s, Separators, cur) == [cur] + rest;
    assert DropSeparators(s) == DropSeparators(s[n..]) by {
      if n == 1 { assert s[0] == ' '; } else { assert s[0] != ' ' && StartsWith(s, "\r\n"); }
    }
    assert ([cur] + rest)[0] == cur && ([cur] + rest)[1..] == rest;
  }

  lemma SplitFromFlattenAtChar(s: string, cur: string)
    requires s != [] && MatchSeparator(s, Separators) == 0
    requires Flatten(SplitFrom(s[1..], Separators, cur + [s[0]])) == cur + [s[0]] + DropSeparators(s[1..])
    ensures Flatten(SplitFrom(s, Separators, cur)) == cur + DropSeparators(s)
  {
    MatchSentenceSeparator(s);
    var c, r := s[0], DropSeparators(s[1..]);
    assert SplitFrom(s, Separators, cur) == SplitFrom(s[1..], Separators, cur + [c]);
    assert DropSeparators(s) == [c] + r by {
      assert c != ' ' && !StartsWith(s, "\r\n");
    }
    ConcatAssoc(cur, [c], r);
  }

  /** The pieces of a sentence contain no space, and together they are the text without its
      separators. */
  lemma SplitSentence(s: string)
    ensures forall p :: p in Split(s, Separators) ==> ' ' !in p
    ensures Flatten(Split(s, Separators)) == DropSeparators(s)
  {
    SplitFromSpaceless(s, "");
    SplitFromFlatten(s, "");
  }

  /** A text in which `Split` finds nothing to cut at: no space and no CR LF pair. */
  predicate SeparatorFree(s: string) {
    ' ' !in s && forall i :: 0 <= i < |s| - 1 ==> !(s[i] == '\r' && s[i + 1] == '\n')
  }

  /** A separator in front of any text is recognised in full. */
  lemma MatchAtSeparator(sep: string, b: string)
    requires sep == " " || sep == "\r\n"
    ensures MatchSeparator(sep + b, Separators) == |sep|
  {
    MatchSentenceSeparator(sep + b);
    assert (sep + b)[..|sep|] == sep;
    if sep == "\r\n" {
      assert (sep + b)[0] == '\r';
    }
  }

  /** Appending a separator and more text does not change what is recognised at the start of a
      non-empty text. */
  lemma MatchBeforeSeparator(a: string, sep: string, b: string)
    requires a != [] && (sep == " " || sep == "\r\n")
    ensures MatchSeparator(a + sep + b, Separators) == MatchSeparator(a, Separators)
  {
    var s := a + sep + b;
    MatchSentenceSeparator(s);
    MatchSentenceSeparator(a);
    assert s[0] == a[0];
    if |a| >= 2 {
      assert s[..2] == a[..2];
    } else {
      assert s[1] == sep[0];
    }
  }

  lemma {:induction false} SplitFromAtSeparator(a: string, sep: string, b: string, cur: string)
    requires sep == " " || sep == "\r\n"
    ensures SplitFrom(a + sep + b, Separators, cur) == SplitFrom(a, Separators, cur) + Split(b, Separators)
    decreases |a|
  {
    if a == [] {
      SplitFromSeparatorFirst(sep, b, cur);
    } else {
      var n := MatchSeparator(a, Separators);
      if n > 0 {
        SplitFromAtSeparator(a[n..], sep, b, "");
        SplitFromAtSeparatorCut(a, sep, b, cur);
      } else {
        SplitFromAtSeparator(a[1..], sep, b, cur + [a[0]]);
        SplitFromAtSeparatorChar(a, sep, b, cur);
      }
    }
  }

  lemma SplitFromSeparatorFirst(sep: string, b: string, cur: string)
    requires sep == " " || sep == "\r\n"
    ensures SplitFrom([] + sep + b, Separators, cur) == SplitFrom([], Separators, cur) + Split(b, Separators)
  {
    var s := [] + sep + b;
    assert s == sep + b;
    MatchAtSeparator(sep, b);
    assert s[|sep|..] == b;
  }

  lemma SplitFromAtSeparatorCut(a: string, sep: string, b: string, cur: string)
    requires a != [] && (sep == " " || sep == "\r\n") && MatchSeparator(a, Separators) > 0
    requires var n := MatchSeparator(a, Separators);
      SplitFrom(a[n..] + sep + b, Separators, "") == SplitFrom(a[n..], Separators, "") + Split(b, Separators)
    ensures SplitFrom(a + sep + b, Separators, cur) == SplitFrom(a, Separators, cur) + Split(b, Separators)
  {
    var s := a + sep + b;
    MatchBeforeSeparator(a, sep, b);
    var n := MatchSeparator(a, Separators);
    SplitFromCut(s, cur);
    SplitFromCut(a, cur);
    ConcatAssoc(a, sep, b);
    DropConcat(a, sep + b, n);
    ConcatAssoc(a[n..], sep, b);
    ConcatAssoc([cur], SplitFrom(a[n..], Separators, ""), Split(b, Separators));
  }

  lemma SplitFromAtSeparatorChar(a: string, sep: string, b: string, cur: string)
    requires a != [] && (sep == " " || sep == "\r\n") && MatchSeparator(a, Separators) == 0
    requires SplitFrom(a[1..] + sep + b, Separators, cur + [a[0]])
      == SplitFrom(a[1..], Separators, cur + [a[0]]) + Split(b, Separators)
    ensures SplitFrom(a + sep + b, Separators, cur) == SplitFrom(a, Separators, cur) + Split(b, Separators)
  {
    var s := a + sep + b;
    MatchBeforeSeparator(a, sep, b);
    SplitFromChar(s, cur);
    SplitFromChar(a, cur);
    ConcatAssoc(a, sep, b);
    DropConcat(a, sep + b, 1);
    ConcatAssoc(a[1..], sep, b);
    assert s[0] == a[0];
  }

  /** One step of `SplitFrom` at a recognised separator. */
  lemma SplitFromCut(s: string, cur: string)
    requires MatchSeparator(s, Separators) > 0
    ensures SplitFrom(s, Separators, cur) == [cur] + SplitFrom(s[MatchSeparator(s, Separators)..], Separators, "")
  {
  }

  /** One step of `SplitFrom` at an ordinary character. */
  lemma SplitFromChar(s: string, cur: string)
    requires s != [] && MatchSeparator(s, Separators) == 0
    ensures SplitFrom(s, Separators, cur) == SplitFrom(s[1..], Separators, cur + [s[0]])
  {
  }

  /** `Split` cuts at every single space and every CR LF pair: the pieces of `a + sep + b` are the
      pieces of `a` followed by those of `b`. */
  lemma SplitAtSeparator(a: string, sep: string, b: string)
    requires sep == " " || sep == "\r\n"
    ensures Split(a + sep + b, Separators) == Split(a, Separators) + Split(b, Separators)
  {
    SplitFromAtSeparator(a, sep, b, "");
  }

  lemma {:induction false} SplitFromSeparatorFree(s: string, cur: string)
    requires SeparatorFree(s)
    ensures SplitFrom(s, Separators, cur) == [cur + s]
    decreases |s|
  {
    if s == [] {
      assert cur + s == cur;
    } else {
      MatchSentenceSeparator(s);
      assert s[0] != ' ';
      if |s| >= 2 { assert !(s[0] == '\r' && s[1] == '\n'); }
      assert SeparatorFree(s[1..]) by {
        forall i | 0 <= i < |s[1..]| - 1 ensures !(s[1..][i] == '\r' && s[1..][i + 1] == '\n') {
          assert s[1..][i] == s[i + 1] && s[1..][i + 1] == s[i + 2];
        }
        assert forall c :: c in s[1..] ==> c in s;
      }
      SplitFromSeparatorFree(s[1..], cur + [s[0]]);
      assert s == [s[0]] + s[1..];
      ConcatAssoc(cur, [s[0]], s[1..]);
    }
  }

  /** A text with nothing to cut at comes out of `Split` as one piece, itself. */
  lemma SplitOfSeparatorFree(s: string)
    requires SeparatorFree(s)
    ensures Split(s, Separators) == [s]
  {
    SplitFromSeparatorFree(s, "");
    assert "" + s == s;
  }

  // ---------------------------------------------------------------------------------------------
  // SplitAndKeep

  /** `String.IndexOfAny(delimiters, start)`: the first position at or after `start` holding one of
      the delimiters, or -1. */
  function IndexOfAny(s: string, delimiters: seq<char>, start: nat): (r: int)
    requires start <= |s|
    ensures r == -1 || start <= r < |s|
    ensures r == -1 ==> forall i :: start <= i < |s| ==> s[i] !in delimiters
    ensures r != -1 ==> s[r] in delimiters && forall i :: start <= i < r ==> s[i] !in delimiters
    decreases |s| - start
  {
    if start == |s| then -1
    else if s[start] in delimiters then start
    else IndexOfAny(s, delimiters, start + 1)
  }

  /** A finished piece, unless it is empty. */
  function Close(cur: string): seq<string> {
    if cur == [] then [] else [cur]
  }

  /** The maximal runs of non-delimiter characters, read one character at a time with the run
      collected so far in `cur`. */
  function RunsFrom(s: string, delimiters: seq<char>, cur: string): seq<string>
    decreases |s|
  {
    if s == [] then Close(cur)
    else if s[0] in delimiters then Close(cur) + RunsFrom(s[1..], delimiters, [])
    else RunsFrom(s[1..], delimiters, cur + [s[0]])
  }

  function Runs(s: string, delimiters: seq<char>): seq<string> {
    RunsFrom(s, delimiters, [])
  }

  /** `s` with every delimiter character deleted. */
  function RemoveDelimiters(s: string, delimiters: seq<char>): string {
    if s == [] then []
    else (if s[0] in delimiters then [] else [s[0]]) + RemoveDelimiters(s[1..], delimiters)
  }

  lemma {:induction false} RemoveDelimitersAppend(a: string, b: string, delimiters: seq<char>)
    ensures RemoveDelimiters(a + b, delimiters) == RemoveDelimiters(a, delimiters) + RemoveDelimiters(b, delimiters)
  {
    if a == [] {
      assert a + b == b;
    } else {
      assert (a + b)[0] == a[0] && (a + b)[1..] == a[1..] + b;
      RemoveDelimitersAppend(a[1..], b, delimiters);
    }
  }

  lemma {:induction false} RunsFromDelimiterFree(s: string, delimiters: seq<char>, cur: string)
    requires forall i :: 0 <= i < |s| ==> s[i] !in delimiters
    ensures RunsFrom(s, delimiters, cur) == Close(cur + s)
    decreases |s|
  {
    if s == [] {
      assert cur + s == cur;
    } else {
      RunsFromDelimiterFree(s[1..], delimiters, cur + [s[0]]);
      assert cur + [s[0]] + s[1..] == cur + s;
    }
  }

  lemma {:induction false} RunsFromAtDelimiter(a: string, d: char, b: string, delimiters: seq<char>, cur: string)
    requires d in delimiters
    ensures RunsFrom(a + [d] + b, delimiters, cur) == RunsFrom(a, delimiters, cur) + Runs(b, delimiters)
    decreases |a|
  {
    var s := a + [d] + b;
    if a == [] {
      assert s == [d] + b && s[1..] == b;
    } else {
      assert s[0] == a[0] && s[1..] == a[1..] + [d] + b;
      if a[0] in delimiters {
        RunsFromAtDelimiter(a[1..], d, b, delimiters, []);
      } else {
        RunsFromAtDelimiter(a[1..], d, b, delimiters, cur + [a[0]]);
      }
    }
  }

  /** Cutting the input at a delimiter cuts the output there: the runs of `a + [d] + b` are the runs
      of `a` followed by the runs of `b`. */
  lemma RunsAtDelimiter(a: string, d: char, b: string, delimiters: seq<char>)
    requires d in delimiters
    ensures Runs(a + [d] + b, delimiters) == Runs(a, delimiters) + Runs(b, delimiters)
  {
    RunsFromAtDelimiter(a, d, b, delimiters, []);
  }

  /** A delimiter-free string is one run, or none when it is empty. */
  lemma RunsOfDelimiterFree(s: string, delimiters: seq<char>)
    requires forall i :: 0 <= i < |s| ==> s[i] !in delimiters
    ensures Runs(s, delimiters) == if s == [] then [] else [s]
  {
    RunsFromDelimiterFree(s, delimiters, []);
    assert [] + s == s;
  }

  lemma {:induction false} RunsFromClean(s: string, delimiters: seq<char>, cur: string)
    requires forall c :: c in cur ==> c !in delimiters
    ensures forall p :: p in RunsFrom(s, delimiters, cur) ==> p != [] && forall c :: c in p ==> c !in delimiters
    decreases |s|
  {
    if s == [] {
    } else if s[0] in delimiters {
      RunsFromClean(s[1..], delimiters, []);
      assert RunsFrom(s, delimiters, cur) == Close(cur) + RunsFrom(s[1..], delimiters, []);
    } else {
      RunsFromClean(s[1..], delimiters, cur + [s[0]]);
    }
  }

  lemma {:induction false} RunsFromFlatten(s: string, delimiters: seq<char>, cur: string)
    ensures Flatten(RunsFrom(s, delimiters, cur)) == cur + RemoveDelimiters(s, delimiters)
    decreases |s|
  {
    if s == [] {
      FlattenClose(cur);
    } else if s[0] in delimiters {
      RunsFromFlatten(s[1..], delimiters, []);
      RunsFromFlattenAtDelimiter(s, delimiters, cur);
    } else {
      RunsFromFlatten(s[1..], delimiters, cur + [s[0]]);
      RunsFromFlattenAtChar(s, delimiters, cur);
    }
  }

  lemma FlattenClose(cur: string)
    ensures Flatten(Close(cur)) == cur
  {
    if cur != [] {
      assert Flatten([cur]) == cur + Flatten([cur][1..]);
    }
  }

  lemma RunsFromFlattenAtDelimiter(s: string, delimiters: seq<char>, cur: string)
    requires s != [] && s[0] in delimiters
    requires Flatten(RunsFrom(s[1..], delimiters, [])) == RemoveDelimiters(s[1..], delimiters)
    ensures Flatten(RunsFrom(s, delimiters, cur)) == cur + RemoveDelimiters(s, delimiters)
  {
    FlattenClose(cur);
    FlattenAppend(Close(cur), RunsFrom(s[1..], delimiters, []));
    assert RemoveDelimiters(s, delimiters) == RemoveDelimiters(s[1..], delimiters);
  }

  lemma RunsFromFlattenAtChar(s: string, delimiters: seq<char>, cur: string)
    requires s != [] && s[0] !in delimiters
    requires Flatten(RunsFrom(s[1..], delimiters, cur + [s[0]])) == cur + [s[0]] + RemoveDelimiters(s[1..], delimiters)
    ensures Flatten(RunsFrom(s, delimiters, cur)) == cur + RemoveDelimiters(s, delimiters)
  {
    var c, r := s[0], RemoveDelimiters(s[1..], delimiters);
    var longer := cur + [c];
    assert RunsFrom(s, delimiters, cur) == RunsFrom(s[1..], delimiters, longer);
    assert RemoveDelimiters(s, delimiters) == [c] + r;
    ConcatAssoc(cur, [c], r);
  }

  /** Every run is non-empty and delimiter-free, and the runs together are the input with its
      delimiters deleted. */
  lemma RunsPieces(s: string, delimiters: seq<char>)
    ensures forall p :: p in Runs(s, delimiters) ==> p != [] && forall c :: c in p ==> c !in delimiters
    ensures Flatten(Runs(s, delimiters)) == RemoveDelimiters(s, delimiters)
  {
    RunsFromClean(s, delimiters, []);
    RunsFromFlatten(s, delimiters, []);
  }

  /** `SplitAndKeep`: scans for the next delimiter from `start`, yields the non-empty text before it
      and skips the delimiter itself (the line that would yield it is commented out), then yields the
      non-empty rest. */
  method SplitAndKeep(inputString: string, delimiters: seq<char>) returns (pieces: seq<string>)
    ensures pieces == Runs(inputString, delimiters)
    ensures forall p :: p in pieces ==> p != [] && forall c :: c in p ==> c !in delimiters
  {
    pieces := [];
    var start := 0;
    var index := IndexOfAny(inputString, delimiters, start);
    while index != -1
      invariant 0 <= start <= |inputString|
      invariant index == IndexOfAny(inputString, delimiters, start)
      invariant Runs(inputString, delimiters) == pieces + Runs(inputString[start..], delimiters)
      decreases |inputString| - start
    {
      ghost var before := inputString[start..index];
      assert inputString[start..] == before + [inputString[index]] + inputString[index + 1..];
      RunsAtDelimiter(before, inputString[index], inputString[index + 1..], delimiters);
      RunsOfDelimiterFree(before, delimiters);
      if index - start > 0 {
        pieces := pieces + [inputString[start..index]];
      }
      start := index + 1;
      index := IndexOfAny(inputString, delimiters, start);
    }
    RunsOfDelimiterFree(inputString[start..], delimiters);
    if start < |inputString| {
      pieces := pieces + [inputString[start..]];
    }
    RunsPieces(inputString, delimiters);
  }

  // ---------------------------------------------------------------------------------------------
  // TokenizeSentence

  /** The `SelectMany` of `SplitAndKeep` over the pieces of `String.Split`. */
  function SelectRuns(pieces: seq<string>): (words: seq<string>)
    ensures forall w :: w in words ==> w != [] && forall c :: c in w ==> c !in Delimiters
    ensures (forall p :: p in pieces ==> ' ' !in p) ==> forall w :: w in words ==> ' ' !in w
  {
    if pieces == [] then []
    else
      RunsPieces(pieces[0], Delimiters);
      RunsChars(pieces[0], Delimiters);
      Runs(pieces[0], Delimiters) + SelectRuns(pieces[1..])
  }

  lemma {:induction false} RunsFromChars(s: string, delimiters: seq<char>, cur: string)
    ensures forall p :: p in RunsFrom(s, delimiters, cur) ==> forall c :: c in p ==> c in cur || c in s
    decreases |s|
  {
    if s != [] {
      if s[0] in delimiters {
        RunsFromChars(s[1..], delimiters, []);
      } else {
        RunsFromChars(s[1..], delimiters, cur + [s[0]]);
      }
      assert forall c :: c in s[1..] ==> c in s;
    }
  }

  /** Runs are made of characters of their input only. */
  lemma RunsChars(s: string, delimiters: seq<char>)
    ensures forall p :: p in Runs(s, delimiters) ==> forall c :: c in p ==> c in s
  {
    RunsFromChars(s, delimiters, []);
  }

  /** `TokenizeSentence`: the words of one text. */
  function TokenizeSentence(text: string): (words: seq<string>)
    ensures forall w :: w in words ==> w != [] && ' ' !in w && forall c :: c in w ==> c !in Delimiters
  {
    SplitSentence(text);
    SelectRuns(Split(text, Separators))
  }

  lemma {:induction false} SelectRunsAppend(a: seq<string>, b: seq<string>)
    ensures SelectRuns(a + b) == SelectRuns(a) + SelectRuns(b)
  {
    if a == [] {
      assert a + b == b;
    } else {
      assert (a + b)[0] == a[0] && (a + b)[1..] == a[1..] + b;
      SelectRunsAppend(a[1..], b);
      ConcatAssoc(Runs(a[0], Delimiters), SelectRuns(a[1..]), SelectRuns(b));
    }
  }

  /** The words of a text break at every space and CR LF pair: the words of `a + sep + b` are the
      words of `a` followed by those of `b`. */
  lemma TokenizeSentenceAtSeparator(a: string, sep: string, b: string)
    requires sep == " " || sep == "\r\n"
    ensures TokenizeSentence(a + sep + b) == TokenizeSentence(a) + TokenizeSentence(b)
  {
    SplitAtSeparator(a, sep, b);
    SelectRunsAppend(Split(a, Separators), Split(b, Separators));
  }

  /** Between separators the words are exactly the runs of `SplitAndKeep`. */
  lemma TokenizeSentenceOfSeparatorFree(s: string)
    requires SeparatorFree(s)
    ensures TokenizeSentence(s) == Runs(s, Delimiters)
  {
    SplitOfSeparatorFree(s);
    assert [s][0] == s && [s][1..] == [];
    assert SelectRuns([s]) == Runs(s, Delimiters) + SelectRuns([]);
  }

  lemma {:induction false} SelectRunsText(pieces: seq<string>)
    ensures Flatten(SelectRuns(pieces)) == RemoveDelimiters(Flatten(pieces), Delimiters)
  {
    if pieces != [] {
      SelectRunsText(pieces[1..]);
      RunsPieces(pieces[0], Delimiters);
      FlattenAppend(Runs(pieces[0], Delimiters), SelectRuns(pieces[1..]));
      RemoveDelimitersAppend(pieces[0], Flatten(pieces[1..]), Delimiters);
    }
  }

  /** The words of a text, joined, are the text without separators and without punctuation: the
      punctuation is dropped, not kept as pieces of its own. */
  lemma TokenizeSentenceText(text: string)
    ensures Flatten(TokenizeSentence(text)) == RemoveDelimiters(DropSeparators(text), Delimiters)
  {
    SplitSentence(text);
    SelectRunsText(Split(text, Separators));
  }
}
