/** `Encode`: the token stream cut into blocks of 512 and padded to fixed-length windows. */
module Encoding {
  import opened Text
  import opened Results
  import opened Tokenization

  /** One position of a window, the named tuple `Encode` returns. */
  datatype Entry = Entry(inputIds: int, tokenTypeIds: int, attentionMask: int)

  /** The block size of the chunking loop; it does not depend on the requested sequence length. */
  const BlockSize: nat := 512

  const PaddingEntry: Entry := Entry(0, 0, 0)

  /** The chunks `tokens.Skip(i).Take(512)` for `i` = 0, 512, 1024, ... */
  function Blocks(ts: seq<Token>): (bs: seq<seq<Token>>)
    ensures forall k :: 0 <= k < |bs| ==> 0 < |bs[k]| <= BlockSize
    decreases |ts|
  {
    if ts == [] then []
    else if |ts| <= BlockSize then [ts]
    else [ts[..BlockSize]] + Blocks(ts[BlockSize..])
  }

  /** A real token: its vocabulary id, its segment id and attention 1. */
  function RealEntry(t: Token): Entry {
    Entry(t.vocabularyIndex, t.segmentIndex, 1)
  }

  function RealEntries(ts: seq<Token>): seq<Entry> {
    seq(|ts|, i requires 0 <= i < |ts| => RealEntry(ts[i]))
  }

  /** One window: the block's entries, right-padded with zero triples up to `sequenceLength`. */
  function EncodeBlock(block: seq<Token>, sequenceLength: int): seq<Entry>
    requires |block| <= sequenceLength
  {
    RealEntries(block) + seq(sequenceLength - |block|, _ => PaddingEntry)
  }

  /** The window of each block, in block order. */
  function EncodeBlocks(bs: seq<seq<Token>>, sequenceLength: int): (ws: seq<seq<Entry>>)
    requires forall k :: 0 <= k < |bs| ==> |bs[k]| <= sequenceLength
    ensures |ws| == |bs| && forall k :: 0 <= k < |bs| ==> ws[k] == EncodeBlock(bs[k], sequenceLength)
  {
    if bs == [] then [] else [EncodeBlock(bs[0], sequenceLength)] + EncodeBlocks(bs[1..], sequenceLength)
  }

  /** The windows of a token stream; `Enumerable.Repeat` throws when a block is longer than the
      requested length. */
  function Windows(ts: seq<Token>, sequenceLength: int): (r: Result<seq<seq<Entry>>>)
    ensures sequenceLength >= BlockSize ==> r.Ok?
    ensures r.Err? ==> r.error == ArgumentOutOfRange
    ensures r.Ok? ==> |r.value| == |Blocks(ts)|
  {
    var bs := Blocks(ts);
    if exists k :: 0 <= k < |bs| && sequenceLength < |bs[k]| then Err(ArgumentOutOfRange)
    else Ok(EncodeBlocks(bs, sequenceLength))
  }

  /** `Encode`: tokenize, then cut into windows. */
  function Encode(dict: map<string, int>, sequenceLength: int, texts: seq<string>): (r: Result<seq<seq<Entry>>>)
    requires Tokens.Continuation !in dict
    ensures Tokens.Unknown in dict && sequenceLength >= BlockSize ==> r.Ok?
    ensures r.Err? ==> r.error == ArgumentOutOfRange || (Tokens.Unknown !in dict && r.error == KeyNotFound(Tokens.Unknown))
  {
    var ts :- Tokenize(dict, texts);
    Windows(ts, sequenceLength)
  }

  /** The entries that have attention, in order. */
  function Attended(w: seq<Entry>): seq<Entry> {
    if w == [] then [] else (if w[0].attentionMask == 1 then [w[0]] else []) + Attended(w[1..])
  }

  /** The attended entries of every window, joined in window order. */
  function AttendedAll(ws: seq<seq<Entry>>): seq<Entry> {
    if ws == [] then [] else Attended(ws[0]) + AttendedAll(ws[1..])
  }

  // ---------------------------------------------------------------------------------------------
  // Blocks

  function Min(a: int, b: int): int { if a <= b then a else b }

  lemma {:induction false} BlocksCount(ts: seq<Token>)
    ensures |Blocks(ts)| == (|ts| + BlockSize - 1) / BlockSize
    decreases |ts|
  {
    if |ts| > BlockSize {
      BlocksCount(ts[BlockSize..]);
    }
  }

  lemma {:induction false} BlocksAt(ts: seq<Token>, k: nat)
    requires k < |Blocks(ts)|
    ensures BlockSize * k < |ts| && Blocks(ts)[k] == ts[BlockSize * k .. Min(BlockSize * k + BlockSize, |ts|)]
    decreases |ts|
  {
    if k > 0 {
      var rest := ts[BlockSize..];
      assert Blocks(ts) == [ts[..BlockSize]] + Blocks(rest);
      assert Blocks(ts)[k] == Blocks(rest)[k - 1];
      BlocksAt(rest, k - 1);
      var lo := BlockSize * (k - 1);
      assert BlockSize * k == BlockSize + lo;
      var hi := Min(lo + BlockSize, |rest|);
      assert BlockSize + hi == Min(BlockSize + lo + BlockSize, |ts|);
      assert rest[lo .. hi] == ts[BlockSize + lo .. BlockSize + hi];
    }
  }

  lemma {:induction false} BlocksFlatten(ts: seq<Token>)
    ensures Flatten(Blocks(ts)) == ts
    decreases |ts|
  {
    if ts == [] {
    } else if |ts| <= BlockSize {
      assert Flatten([ts]) == ts + Flatten([ts][1..]);
    } else {
      var rest := ts[BlockSize..];
      BlocksFlatten(rest);
      assert Blocks(ts) == [ts[..BlockSize]] + Blocks(rest);
      assert ts == ts[..BlockSize] + rest;
    }
  }

  /** There are ceil(n / 512) blocks, block `k` is tokens 512k up to 512k + 512 (or the end), and the
      blocks together are the stream. */
  lemma BlocksShape(ts: seq<Token>)
    ensures |Blocks(ts)| == (|ts| + BlockSize - 1) / BlockSize
    ensures forall k :: 0 <= k < |Blocks(ts)| ==>
      BlockSize * k < |ts| && Blocks(ts)[k] == ts[BlockSize * k .. Min(BlockSize * k + BlockSize, |ts|)]
    ensures Flatten(Blocks(ts)) == ts
  {
    BlocksCount(ts);
    BlocksFlatten(ts);
    forall k | 0 <= k < |Blocks(ts)|
      ensures BlockSize * k < |ts| && Blocks(ts)[k] == ts[BlockSize * k .. Min(BlockSize * k + BlockSize, |ts|)]
    {
      BlocksAt(ts, k);
    }
  }

  // ---------------------------------------------------------------------------------------------
  // Windows

  /** `Encode` fails exactly when the stream is not empty and its first (and longest) block does not
      fit the requested length. */
  lemma WindowsFails(ts: seq<Token>, sequenceLength: int)
    ensures Windows(ts, sequenceLength).Err? <==> |ts| > 0 && sequenceLength < Min(|ts|, BlockSize)
    ensures Windows(ts, sequenceLength).Err? ==> Windows(ts, sequenceLength).error == ArgumentOutOfRange
  {
    BlocksShape(ts);
    var bs := Blocks(ts);
    if |ts| > 0 {
      assert |bs| > 0 && bs[0] == ts[..Min(BlockSize, |ts|)];
    }
  }

  /** There are ceil(n / 512) windows of exactly `sequenceLength` entries; entry `j` of window `k` is
      token 512k + j while that lies within the block, and a zero triple after it. */
  lemma WindowsShape(ts: seq<Token>, sequenceLength: int)
    ensures Windows(ts, sequenceLength).Ok? ==>
      var ws := Windows(ts, sequenceLength).value;
      |ws| == (|ts| + BlockSize - 1) / BlockSize
      && (forall k :: 0 <= k < |ws| ==> |ws[k]| == sequenceLength)
      && (forall k, j :: 0 <= k < |ws| && 0 <= j < sequenceLength ==>
            ws[k][j] == if j < BlockSize && BlockSize * k + j < |ts| then RealEntry(ts[BlockSize * k + j])
                        else PaddingEntry)
  {
    if Windows(ts, sequenceLength).Ok? {
      var bs := Blocks(ts);
      var ws := Windows(ts, sequenceLength).value;
      BlocksCount(ts);
      assert ws == EncodeBlocks(bs, sequenceLength);
      forall k, j | 0 <= k < |ws| && 0 <= j < sequenceLength
        ensures ws[k][j] == if j < BlockSize && BlockSize * k + j < |ts| then RealEntry(ts[BlockSize * k + j])
                            else PaddingEntry
      {
        BlocksAt(ts, k);
        var b := bs[k];
        assert ws[k] == RealEntries(b) + seq(sequenceLength - |b|, _ => PaddingEntry);
        assert |b| == Min(BlockSize * k + BlockSize, |ts|) - BlockSize * k;
        if j < |b| {
          assert ws[k][j] == RealEntries(b)[j] == RealEntry(b[j]);
          assert b[j] == ts[BlockSize * k + j];
        }
      }
    }
  }

  /** Attention is 1 exactly at the real tokens, 0 at the padding. */
  lemma WindowsMask(ts: seq<Token>, sequenceLength: int)
    ensures Windows(ts, sequenceLength).Ok? ==>
      var ws := Windows(ts, sequenceLength).value;
      forall k, j :: 0 <= k < |ws| && 0 <= j < |ws[k]| ==>
        (ws[k][j].attentionMask == 1 <==> j < BlockSize && BlockSize * k + j < |ts|)
        && (ws[k][j].attentionMask != 1 ==> ws[k][j] == PaddingEntry)
  {
    WindowsShape(ts, sequenceLength);
  }

  lemma {:induction false} AttendedAppend(a: seq<Entry>, b: seq<Entry>)
    ensures Attended(a + b) == Attended(a) + Attended(b)
  {
    if a == [] {
      assert a + b == b;
    } else {
      var h := if a[0].attentionMask == 1 then [a[0]] else [];
      var x, y := Attended(a[1..]), Attended(b);
      assert (a + b)[0] == a[0] && (a + b)[1..] == a[1..] + b;
      assert Attended(a + b) == h + Attended(a[1..] + b);
      AttendedAppend(a[1..], b);
      ConcatAssoc(h, x, y);
    }
  }

  lemma {:induction false} AttendedReal(ts: seq<Token>)
    ensures Attended(RealEntries(ts)) == RealEntries(ts)
  {
    if ts != [] {
      AttendedReal(ts[1..]);
      assert RealEntries(ts)[1..] == RealEntries(ts[1..]);
    }
  }

  lemma {:induction false} AttendedPadding(n: nat)
    ensures Attended(seq(n, _ => PaddingEntry)) == []
  {
    if n > 0 {
      AttendedPadding(n - 1);
      assert seq(n, _ => PaddingEntry)[1..] == seq(n - 1, _ => PaddingEntry);
    }
  }

  lemma AttendedBlock(block: seq<Token>, sequenceLength: int)
    requires |block| <= sequenceLength
    ensures Attended(EncodeBlock(block, sequenceLength)) == RealEntries(block)
  {
    AttendedAppend(RealEntries(block), seq(sequenceLength - |block|, _ => PaddingEntry));
    AttendedReal(block);
    AttendedPadding(sequenceLength - |block|);
  }

  lemma {:induction false} AttendedBlocks(bs: seq<seq<Token>>, sequenceLength: int)
    requires forall k :: 0 <= k < |bs| ==> |bs[k]| <= sequenceLength
    ensures AttendedAll(EncodeBlocks(bs, sequenceLength)) == RealEntries(Flatten(bs))
  {
    if bs != [] {
      AttendedBlocks(bs[1..], sequenceLength);
      AttendedBlock(bs[0], sequenceLength);
      assert RealEntries(bs[0] + Flatten(bs[1..])) == RealEntries(bs[0]) + RealEntries(Flatten(bs[1..]));
    }
  }

  /** The attended entries of the windows, joined in window order, are the token stream itself. */
  lemma WindowsRoundTrip(ts: seq<Token>, sequenceLength: int)
    ensures Windows(ts, sequenceLength).Ok? ==> AttendedAll(Windows(ts, sequenceLength).value) == RealEntries(ts)
  {
    if Windows(ts, sequenceLength).Ok? {
      AttendedBlocks(Blocks(ts), sequenceLength);
      BlocksShape(ts);
    }
  }

  // ---------------------------------------------------------------------------------------------
  // Steps of the imperative encoder

  /** One round of the chunking loop at offset `i`. */
  lemma BlocksFrom(ts: seq<Token>, i: nat)
    requires i < |ts|
    ensures i + BlockSize <= |ts| ==>
      Blocks(ts[i..]) == [ts[i..Min(i + BlockSize, |ts|)]] + Blocks(ts[i + BlockSize..])
    ensures i + BlockSize > |ts| ==> Blocks(ts[i..]) == [ts[i..Min(i + BlockSize, |ts|)]]
  {
    if i + BlockSize < |ts| {
      assert ts[i..][..BlockSize] == ts[i..i + BlockSize];
      assert ts[i..][BlockSize..] == ts[i + BlockSize..];
    } else {
      assert ts[i..Min(i + BlockSize, |ts|)] == ts[i..];
      assert Blocks(ts[i..]) == [ts[i..]];
      if i + BlockSize == |ts| {
        assert ts[i + BlockSize..] == [];
        assert [ts[i..]] + Blocks([]) == [ts[i..]];
      }
    }
  }

  /** The windows are determined entry by entry. */
  lemma EncodeBlocksUnique(bs: seq<seq<Token>>, sequenceLength: int, ws: seq<seq<Entry>>)
    requires forall k :: 0 <= k < |bs| ==> |bs[k]| <= sequenceLength
    requires |ws| == |bs|
    requires forall k :: 0 <= k < |bs| ==> |ws[k]| == sequenceLength
    requires forall k, j :: 0 <= k < |bs| && 0 <= j < sequenceLength ==>
      ws[k][j] == if j < |bs[k]| then RealEntry(bs[k][j]) else PaddingEntry
    ensures ws == EncodeBlocks(bs, sequenceLength)
  {
    forall k | 0 <= k < |bs| ensures ws[k] == EncodeBlock(bs[k], sequenceLength) {
      var e := EncodeBlock(bs[k], sequenceLength);
      assert |e| == sequenceLength;
      forall j | 0 <= j < sequenceLength ensures ws[k][j] == e[j] {
      }
    }
  }

  /** `Windows` reads off the blocks: an error once one block does not fit, else their windows. */
  lemma WindowsOfBlocks(ts: seq<Token>, sequenceLength: int)
    ensures (forall k :: 0 <= k < |Blocks(ts)| ==> |Blocks(ts)[k]| <= sequenceLength) ==>
      Windows(ts, sequenceLength) == Ok(EncodeBlocks(Blocks(ts), sequenceLength))
    ensures forall k :: 0 <= k < |Blocks(ts)| && sequenceLength < |Blocks(ts)[k]| ==>
      Windows(ts, sequenceLength) == Err(ArgumentOutOfRange)
  {
  }
}
