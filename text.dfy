/** The .NET string primitives the tokenizer relies on, with ordinal comparison; strings are
    sequences of Unicode characters, not of UTF-16 code units. */
module Text {

  /** `Char.IsWhiteSpace`: the Unicode space, line and paragraph separators, U+0009..U+000D and U+0085. */
  predicate IsWhiteSpace(c: char) {
    ('\t' <= c <= '\r') || c == ' ' || c == '\U{85}' || c == '\U{A0}' || c == '\U{1680}'
    || ('\U{2000}' <= c <= '\U{200A}') || c == '\U{2028}' || c == '\U{2029}'
    || c == '\U{202F}' || c == '\U{205F}' || c == '\U{3000}'
  }

  /** `String.IsNullOrWhiteSpace` (a string is never null here): empty, or whitespace only. */
  predicate IsNullOrWhiteSpace(s: string) {
    forall i :: 0 <= i < |s| ==> IsWhiteSpace(s[i])
  }

  predicate StartsWith(s: string, prefix: string) {
    |prefix| <= |s| && s[..|prefix|] == prefix
  }

  /** `String.Replace(oldValue, newValue)`: every non-overlapping occurrence of `p`, scanned left to
      right, becomes `r`. */
  function Replace(s: string, p: string, r: string): (t: string)
    requires p != ""
    ensures forall c :: c in t ==> c in s || c in r
    decreases |s|
  {
    if |s| < |p| then s
    else if s[..|p|] == p then
      assert forall c :: c in s[|p|..] ==> c in s;
      r + Replace(s[|p|..], p, r)
    else
      assert forall c :: c in s[1..] ==> c in s;
      [s[0]] + Replace(s[1..], p, r)
  }

  /** The number of occurrences of `x` in `s`. */
  function Count<T(==)>(s: seq<T>, x: T): nat {
    if s == [] then 0 else (if s[0] == x then 1 else 0) + Count(s[1..], x)
  }

  lemma {:induction false} CountAppend<T>(a: seq<T>, b: seq<T>, x: T)
    ensures Count(a + b, x) == Count(a, x) + Count(b, x)
  {
    if a != [] {
      assert (a + b)[0] == a[0] && (a + b)[1..] == a[1..] + b;
      CountAppend(a[1..], b, x);
    } else {
      assert a + b == b;
    }
  }

  lemma {:induction false} CountZero<T>(s: seq<T>, x: T)
    ensures Count(s, x) == 0 <==> x !in s
  {
    if s != [] {
      assert s == [s[0]] + s[1..];
      CountZero(s[1..], x);
    }
  }

  lemma CountSnoc<T>(s: seq<T>, i: nat, x: T)
    requires i < |s|
    ensures Count(s[..i + 1], x) == Count(s[..i], x) + if s[i] == x then 1 else 0
  {
    assert s[..i + 1] == s[..i] + [s[i]];
    CountAppend(s[..i], [s[i]], x);
    assert Count([s[i]], x) == (if s[i] == x then 1 else 0) + Count([s[i]][1..], x);
  }

  /** A measure for the subword loop: one unit per '#', two per other character. Replacing a prefix
      that is not "##" by "##" makes it smaller. */
  function Weight(s: string): nat {
    if s == [] then 0 else (if s[0] == '#' then 1 else 2) + Weight(s[1..])
  }

  lemma {:induction false} WeightAppend(a: string, b: string)
    ensures Weight(a + b) == Weight(a) + Weight(b)
  {
    if a != [] {
      assert (a + b)[0] == a[0] && (a + b)[1..] == a[1..] + b;
      WeightAppend(a[1..], b);
    } else {
      assert a + b == b;
    }
  }

  lemma {:induction false} WeightAtLeastLength(s: string)
    ensures Weight(s) >= |s|
  {
    if s != [] { WeightAtLeastLength(s[1..]); }
  }

  /** Any string of at least two characters other than "##" outweighs "##". */
  lemma WeightAboveMarker(p: string)
    requires |p| >= 2 && p != "##"
    ensures Weight(p) > Weight("##")
  {
    assert Weight("##") == 2 by { assert "##"[1..] == "#"; assert "#"[1..] == ""; }
    WeightAtLeastLength(p[1..]);
    if |p| == 2 {
      WeightAtLeastLength(p[2..]);
      assert p[1..][1..] == p[2..];
      assert p[0] != '#' || p[1] != '#';
    }
  }

  /** Replacing by something lighter never adds weight, and strictly removes weight when `s` starts
      with the pattern. */
  lemma {:induction false} ReplaceWeight(s: string, p: string, r: string)
    requires p != "" && Weight(r) < Weight(p)
    ensures Weight(Replace(s, p, r)) <= Weight(s)
    ensures StartsWith(s, p) ==> Weight(Replace(s, p, r)) < Weight(s)
    decreases |s|
  {
    if |s| < |p| {
    } else if s[..|p|] == p {
      ReplaceWeight(s[|p|..], p, r);
      WeightAppend(r, Replace(s[|p|..], p, r));
      assert s == p + s[|p|..];
      WeightAppend(p, s[|p|..]);
    } else {
      ReplaceWeight(s[1..], p, r);
      WeightAppend([s[0]], Replace(s[1..], p, r));
      assert s == [s[0]] + s[1..];
      WeightAppend([s[0]], s[1..]);
    }
  }

  /** `p` occurs in `s` at position `i`. */
  predicate OccursAt(s: string, p: string, i: nat) {
    i + |p| <= |s| && s[i..i + |p|] == p
  }

  /** A text in which the pattern does not occur is left unchanged. */
  lemma {:induction false} ReplaceAbsent(s: string, p: string, r: string)
    requires p != ""
    requires forall i: nat :: !OccursAt(s, p, i)
    ensures Replace(s, p, r) == s
    decreases |s|
  {
    if |s| >= |p| {
      assert !OccursAt(s, p, 0);
      assert s[..|p|] == s[0..|p|];
      forall i: nat ensures !OccursAt(s[1..], p, i) {
        if i + |p| <= |s[1..]| {
          assert s[1..][i..i + |p|] == s[i + 1..i + 1 + |p|];
          assert !OccursAt(s, p, i + 1);
        }
      }
      ReplaceAbsent(s[1..], p, r);
      assert s == [s[0]] + s[1..];
    }
  }

  /** One step of the scan at a position where the pattern does not occur. */
  lemma ReplaceSkip(s: string, p: string, r: string)
    requires p != "" && s != [] && !OccursAt(s, p, 0)
    ensures Replace(s, p, r) == [s[0]] + Replace(s[1..], p, r)
  {
    if |s| >= |p| {
      assert s[..|p|] == s[0..|p|];
    }
  }

  /** One step of the scan at a position where the pattern occurs. */
  lemma ReplaceHit(s: string, p: string, r: string)
    requires p != "" && OccursAt(s, p, 0)
    ensures Replace(s, p, r) == r + Replace(s[|p|..], p, r)
  {
    assert s[..|p|] == s[0..|p|];
  }

  /** Scanning left to right, the first occurrence of the pattern is replaced and the scan goes on
      after it; with `ReplaceAbsent` this determines `Replace` without unfolding it. */
  lemma {:induction false} ReplaceAtFirst(s: string, p: string, r: string, i: nat)
    requires p != "" && OccursAt(s, p, i)
    requires forall j: nat :: j < i ==> !OccursAt(s, p, j)
    ensures Replace(s, p, r) == s[..i] + r + Replace(s[i + |p|..], p, r)
    decreases i
  {
    if i == 0 {
      ReplaceHit(s, p, r);
      assert s[..0] == [];
    } else {
      var t := s[1..];
      assert OccursAt(t, p, i - 1) by { assert t[i - 1..i - 1 + |p|] == s[i..i + |p|]; }
      forall j: nat | j < i - 1 ensures !OccursAt(t, p, j) {
        assert t[j..j + |p|] == s[j + 1..j + 1 + |p|];
        assert !OccursAt(s, p, j + 1);
      }
      ReplaceAtFirst(t, p, r, i - 1);
      ReplaceSkip(s, p, r);
      var rest := Replace(s[i + |p|..], p, r);
      assert t[i - 1 + |p|..] == s[i + |p|..];
      assert s[..i] == [s[0]] + t[..i - 1];
      ConcatAssoc([s[0]], t[..i - 1], r);
      ConcatAssoc([s[0]], t[..i - 1] + r, rest);
    }
  }

  /** Replacing a pattern by itself changes nothing. */
  lemma {:induction false} ReplaceSelf(s: string, p: string)
    requires p != ""
    ensures Replace(s, p, p) == s
    decreases |s|
  {
    if |s| >= |p| {
      if s[..|p|] == p {
        ReplaceSelf(s[|p|..], p);
        assert s == p + s[|p|..];
      } else {
        ReplaceSelf(s[1..], p);
        assert s == [s[0]] + s[1..];
      }
    }
  }

  lemma ReplaceStartsWith(s: string, p: string, r: string)
    requires p != "" && StartsWith(s, p)
    ensures StartsWith(Replace(s, p, r), r)
  {
    assert Replace(s, p, r) == r + Replace(s[|p|..], p, r);
  }

  /** The concatenation of a sequence of sequences, in order. */
  function Flatten<T>(ss: seq<seq<T>>): seq<T> {
    if ss == [] then [] else ss[0] + Flatten(ss[1..])
  }

  lemma ConcatAssoc<T>(a: seq<T>, b: seq<T>, c: seq<T>)
    ensures a + b + c == a + (b + c)
  {
  }

  lemma DropConcat<T>(a: seq<T>, c: seq<T>, n: nat)
    requires n <= |a|
    ensures (a + c)[n..] == a[n..] + c
  {
  }

  lemma {:induction false} FlattenAppend<T>(a: seq<seq<T>>, b: seq<seq<T>>)
    ensures Flatten(a + b) == Flatten(a) + Flatten(b)
  {
    if a == [] {
      assert a + b == b;
    } else {
      assert (a + b)[0] == a[0] && (a + b)[1..] == a[1..] + b;
      FlattenAppend(a[1..], b);
    }
  }

  /** `List.Reverse`. */
  function Reverse<T>(s: seq<T>): (r: seq<T>)
    ensures |r| == |s|
  {
    seq(|s|, i requires 0 <= i < |s| => s[|s| - 1 - i])
  }
}
