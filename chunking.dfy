/** `ContentModerator._split_text`: long text is cut into contiguous 600-character slices. */
module Chunking {
  import opened Seqs

  /** The slice length used by `_split_text` and the single-call threshold of `check_text`. */
  const ChunkSize: nat := 600

  function Min(a: int, b: int): (r: int) { if a <= b then a else b }

  /** The chunks of `s`: `s[0:600]`, `s[600:1200]`, ..., the last one possibly shorter. */
  function Chunks(s: string): (r: seq<string>)
    decreases |s|
  {
    if s == [] then []
    else if |s| <= ChunkSize then [s]
    else [s[..ChunkSize]] + Chunks(s[ChunkSize..])
  }

  /** The `k`-th chunk is Python's slice `s[600*k : 600*k + 600]`, clamped to the end of `s`. */
  lemma {:induction false} ChunkAt(s: string, k: nat)
    requires k < |Chunks(s)|
    ensures ChunkSize * k < |s|
    ensures Chunks(s)[k] == s[ChunkSize * k .. Min(ChunkSize * k + ChunkSize, |s|)]
    decreases |s|
  {
    if |s| > ChunkSize && k > 0 {
      ChunkAt(s[ChunkSize..], k - 1);
      assert ChunkSize * k == ChunkSize + ChunkSize * (k - 1);
    }
  }

  /** There are ceil(|s| / 600) chunks; none is empty, none is longer than 600, all but the last are exactly 600. */
  lemma {:induction false} ChunkSizes(s: string)
    ensures |Chunks(s)| == (|s| + ChunkSize - 1) / ChunkSize
    ensures forall k :: 0 <= k < |Chunks(s)| ==> 1 <= |Chunks(s)[k]| <= ChunkSize
    ensures forall k :: 0 <= k < |Chunks(s)| - 1 ==> |Chunks(s)[k]| == ChunkSize
    decreases |s|
  {
    if |s| > ChunkSize {
      ChunkSizes(s[ChunkSize..]);
    }
  }

  /** Concatenating the chunks gives back the text. */
  lemma {:induction false} ChunksConcat(s: string)
    ensures Concat(Chunks(s)) == s
    decreases |s|
  {
    if |s| > ChunkSize {
      ChunksConcat(s[ChunkSize..]);
      assert s[..ChunkSize] + s[ChunkSize..] == s;
    } else if s != [] {
      assert Chunks(s)[1..] == [];
    }
  }

  /**
   * `_split_text` (generate.py:127-134): empty text has no chunks; otherwise the
   * loop over `range(0, len(content), 600)` appends `content[i : i + 600]`.
   */
  method SplitText(content: string) returns (chunks: seq<string>)
    ensures chunks == Chunks(content)
  {
    if content == [] {
      return [];
    }
    chunks := [];
    var i := 0;
    while i < |content|
      invariant 0 <= i
      invariant chunks + Chunks(content[Min(i, |content|)..]) == Chunks(content)
      decreases |content| - i
    {
      var rest := content[i..];
      var next := Min(i + ChunkSize, |content|);
      var piece := content[i..next];
      if |rest| > ChunkSize {
        assert rest[..ChunkSize] == piece;
        assert rest[ChunkSize..] == content[next..];
      } else {
        assert piece == rest;
        assert content[next..] == [];
        assert Chunks(rest) == [piece] + Chunks(content[next..]);
      }
      assert chunks + Chunks(rest) == Chunks(content);
      chunks := chunks + [piece];
      i := i + ChunkSize;
    }
  }
}
