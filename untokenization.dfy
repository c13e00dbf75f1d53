/** `Untokenize`: continuation fragments glued back onto the word they continue. */
module Untokenization {
  import opened Text
  import opened Tokens

  predicate IsContinuation(t: string) {
    StartsWith(t, Continuation)
  }

  /** A fragment with every "##" removed: `token.Replace("##", "")`. */
  function Stripped(t: string): string {
    Replace(t, Continuation, "")
  }

  /** The number of continuation fragments at the front of `ts`. */
  function RunLength(ts: seq<string>): (n: nat)
    ensures n <= |ts|
    ensures forall i :: 0 <= i < n ==> IsContinuation(ts[i])
    ensures n < |ts| ==> !IsContinuation(ts[n])
  {
    if ts == [] || !IsContinuation(ts[0]) then 0 else 1 + RunLength(ts[1..])
  }

  /** The continuation fragments at the front of `ts`, stripped and joined. */
  function JoinedRun(ts: seq<string>): string {
    if ts == [] || !IsContinuation(ts[0]) then "" else Stripped(ts[0]) + JoinedRun(ts[1..])
  }

  /** The words, in reading order: one per plain token, that token followed by the stripped
      fragments right after it; fragments before the first plain token belong to no word. */
  function WholeWords(ts: seq<string>): seq<string>
    decreases |ts|
  {
    if ts == [] then []
    else if IsContinuation(ts[0]) then WholeWords(ts[1..])
    else [ts[0] + JoinedRun(ts[1..])] + WholeWords(ts[1 + RunLength(ts[1..])..])
  }

  /** The plain (non-continuation) tokens, in order. */
  function PlainTokens(ts: seq<string>): seq<string> {
    if ts == [] then [] else (if IsContinuation(ts[0]) then [] else [ts[0]]) + PlainTokens(ts[1..])
  }

  /** The surface text: every token, fragments stripped, joined. */
  function Surface(ts: seq<string>): string {
    if ts == [] then "" else (if IsContinuation(ts[0]) then Stripped(ts[0]) else ts[0]) + Surface(ts[1..])
  }

  lemma {:induction false} PlainTokensOfRun(ts: seq<string>)
    ensures PlainTokens(ts) == PlainTokens(ts[RunLength(ts)..])
    ensures Surface(ts) == JoinedRun(ts) + Surface(ts[RunLength(ts)..])
  {
    if ts != [] && IsContinuation(ts[0]) {
      PlainTokensOfRun(ts[1..]);
      assert ts[1..][RunLength(ts[1..])..] == ts[RunLength(ts)..];
    }
  }

  /** Fragments in front of everything are dropped. */
  lemma {:induction false} WholeWordsAfterRun(ts: seq<string>)
    ensures WholeWords(ts) == WholeWords(ts[RunLength(ts)..])
  {
    if ts != [] && IsContinuation(ts[0]) {
      WholeWordsAfterRun(ts[1..]);
      assert ts[1..][RunLength(ts[1..])..] == ts[RunLength(ts)..];
    }
  }

  /** One word per plain token: word `i` starts with the `i`-th plain token. */
  lemma {:induction false} WholeWordsOfPlainTokens(ts: seq<string>)
    ensures |WholeWords(ts)| == |PlainTokens(ts)|
    ensures forall i :: 0 <= i < |WholeWords(ts)| ==> StartsWith(WholeWords(ts)[i], PlainTokens(ts)[i])
    decreases |ts|
  {
    if ts == [] {
    } else if IsContinuation(ts[0]) {
      WholeWordsOfPlainTokens(ts[1..]);
    } else {
      var rest := ts[1..];
      var after := rest[RunLength(rest)..];
      WholeWordsOfPlainTokens(after);
      PlainTokensOfRun(rest);
      WholeWordsAtPlain(ts);
      WholeWordsAfterRun(rest);
      assert PlainTokens(ts) == [ts[0]] + PlainTokens(rest);
      var w := ts[0] + JoinedRun(rest);
      assert w[..|ts[0]|] == ts[0];
      PrefixesCons(w, ts[0], WholeWords(after), PlainTokens(after));
    }
  }

  lemma PrefixesCons(w: string, p: string, ws: seq<string>, ps: seq<string>)
    requires StartsWith(w, p) && |ws| == |ps|
    requires forall i :: 0 <= i < |ws| ==> StartsWith(ws[i], ps[i])
    ensures |[w] + ws| == |[p] + ps|
    ensures forall i :: 0 <= i < |[w] + ws| ==> StartsWith(([w] + ws)[i], ([p] + ps)[i])
  {
  }

  /** Nothing is lost between the first plain token and the end: when `ts` does not start with a
      fragment, the words joined are the surface text. */
  lemma {:induction false} WholeWordsSurface(ts: seq<string>)
    requires ts == [] || !IsContinuation(ts[0])
    ensures Flatten(WholeWords(ts)) == Surface(ts)
    decreases |ts|
  {
    if ts != [] {
      var rest := ts[1..];
      var after := rest[RunLength(rest)..];
      var w := ts[0] + JoinedRun(rest);
      AfterRunIsPlain(rest);
      WholeWordsSurface(after);
      WholeWordsCons(ts);
      SurfaceCons(ts);
      FlattenCons(w, WholeWords(after));
    }
  }

  /** What follows the fragments at the front is empty or starts with a plain token. */
  lemma AfterRunIsPlain(ts: seq<string>)
    ensures var after := ts[RunLength(ts)..]; after == [] || !IsContinuation(after[0])
  {
    var n := RunLength(ts);
    if n < |ts| {
      assert ts[n..][0] == ts[n];
    }
  }

  /** A plain token and the fragments after it make the first word. */
  lemma WholeWordsCons(ts: seq<string>)
    requires ts != [] && !IsContinuation(ts[0])
    ensures WholeWords(ts) == [ts[0] + JoinedRun(ts[1..])] + WholeWords(ts[1..][RunLength(ts[1..])..])
  {
    WholeWordsAtPlain(ts);
    WholeWordsAfterRun(ts[1..]);
  }

  lemma SurfaceCons(ts: seq<string>)
    requires ts != [] && !IsContinuation(ts[0])
    ensures Surface(ts) == (ts[0] + JoinedRun(ts[1..])) + Surface(ts[1..][RunLength(ts[1..])..])
  {
    var rest := ts[1..];
    var jr, sa := JoinedRun(rest), Surface(rest[RunLength(rest)..]);
    SurfaceOfPlain(ts);
    PlainTokensOfRun(rest);
    ConcatAssoc(ts[0], jr, sa);
  }

  lemma SurfaceOfPlain(ts: seq<string>)
    requires ts != [] && !IsContinuation(ts[0])
    ensures Surface(ts) == ts[0] + Surface(ts[1..])
  {
  }

  lemma FlattenCons(w: string, ws: seq<string>)
    ensures Flatten([w] + ws) == w + Flatten(ws)
  {
    assert ([w] + ws)[0] == w && ([w] + ws)[1..] == ws;
  }

  lemma ReverseCons(w: string, ws: seq<string>)
    ensures Reverse([w] + ws) == Reverse(ws) + [w]
  {
  }

  lemma WholeWordsAtPlain(u: seq<string>)
    requires u != [] && !IsContinuation(u[0])
    ensures WholeWords(u) == [u[0] + JoinedRun(u[1..])] + WholeWords(u[1..])
  {
    WholeWordsAfterRun(u[1..]);
    assert u[1..][RunLength(u[1..])..] == u[1 + RunLength(u[1..])..];
  }

  /** One step of `Untokenize`'s walk over the reversed list: the walk has seen `ts[k..]`, holds the
      stripped fragments in front of it and the words it completed, last word first. */
  lemma UntokenizeStep(ts: seq<string>, k: nat)
    requires 0 < k <= |ts|
    ensures IsContinuation(ts[k - 1]) ==>
      JoinedRun(ts[k - 1..]) == Stripped(ts[k - 1]) + JoinedRun(ts[k..])
      && WholeWords(ts[k - 1..]) == WholeWords(ts[k..])
    ensures !IsContinuation(ts[k - 1]) ==>
      JoinedRun(ts[k - 1..]) == ""
      && Reverse(WholeWords(ts[k - 1..])) == Reverse(WholeWords(ts[k..])) + [ts[k - 1] + JoinedRun(ts[k..])]
  {
    var u := ts[k - 1..];
    assert u[0] == ts[k - 1] && u[1..] == ts[k..];
    if !IsContinuation(u[0]) {
      WholeWordsAtPlain(u);
      ReverseCons(u[0] + JoinedRun(u[1..]), WholeWords(u[1..]));
    }
  }
}
