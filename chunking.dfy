/**
 The page chunker of the ingestion code: from offset 0, take
 `text[start:start + chunk_size]`, move `start` to `end - overlap`, and
 repeat while `start < len(text)`.
 */
module Chunking {

  function Min(a: int, b: int): int {
    if a < b then a else b
  }

  /** The distance `start` moves per iteration: `end - overlap - start`. */
  function Step(chunkSize: nat, overlap: nat): (s: nat)
    requires overlap < chunkSize
    ensures 0 < s <= chunkSize
  {
    chunkSize - overlap
  }

  /** Python's `text[start:start + chunk_size]` for `start <= len(text)`:
      the end is clamped to the length of the text. */
  function ChunkFrom(text: string, chunkSize: nat, start: nat): string
    requires start <= |text|
  {
    text[start..Min(start + chunkSize, |text|)]
  }

  /** The chunks the loop emits once `start` has reached `start`, in order. */
  function ChunksFrom(text: string, chunkSize: nat, overlap: nat, start: nat): seq<string>
    requires overlap < chunkSize
    decreases |text| - start
  {
    if start >= |text| then []
    else [ChunkFrom(text, chunkSize, start)] + ChunksFrom(text, chunkSize, overlap, start + chunkSize - overlap)
  }

  /** Every chunk of a page, in the order the loop emits them. */
  function Chunks(text: string, chunkSize: nat, overlap: nat): seq<string>
    requires overlap < chunkSize
  {
    ChunksFrom(text, chunkSize, overlap, 0)
  }

  /** `ceil(L / (chunk_size - overlap))`. */
  function ChunkCount(length: nat, chunkSize: nat, overlap: nat): nat
    requires overlap < chunkSize
  {
    (length + Step(chunkSize, overlap) - 1) / Step(chunkSize, overlap)
  }

  lemma MulSucc(k: nat, s: nat)
    ensures (k + 1) * s == k * s + s
  {
  }

  lemma {:induction false} MulMonotone(a: nat, b: nat, s: nat)
    requires a <= b
    ensures a * s <= b * s
    decreases b - a
  {
    if a < b {
      MulMonotone(a, b - 1, s);
      MulSucc(b - 1, s);
    }
  }

  lemma DivUnique(a: int, s: nat, q: nat, r: int)
    requires s > 0 && 0 <= r < s && a == q * s + r
    ensures a / s == q
  {
    var q', r' := a / s, a % s;
    assert a == q' * s + r';
    assert q' >= 0;
    if q' > q {
      MulMonotone(q + 1, q', s);
    } else if q' < q {
      MulMonotone(q' + 1, q, s);
    }
  }

  /** How many chunks the loop still emits from `start`: the least `n` with
      `start + n * step >= L`. */
  lemma {:induction false} ChunksFromLength(text: string, chunkSize: nat, overlap: nat, start: nat)
    requires overlap < chunkSize
    ensures var n, s := |ChunksFrom(text, chunkSize, overlap, start)|, Step(chunkSize, overlap);
            if start >= |text| then n == 0
            else n >= 1 && start + (n - 1) * s < |text| <= start + n * s
    decreases |text| - start
  {
    var s := Step(chunkSize, overlap);
    if start < |text| {
      var next := start + s;
      ChunksFromLength(text, chunkSize, overlap, next);
      var m := |ChunksFrom(text, chunkSize, overlap, next)|;
      MulSucc(m, s);
      if m > 0 {
        MulSucc(m - 1, s);
      }
    }
  }

  /** The count of a non-empty page is the ceiling of its length over the step. */
  lemma ChunkCountIsCeiling(length: nat, chunkSize: nat, overlap: nat, n: nat)
    requires overlap < chunkSize
    requires n >= 1 && (n - 1) * Step(chunkSize, overlap) < length <= n * Step(chunkSize, overlap)
    ensures ChunkCount(length, chunkSize, overlap) == n
  {
    var s := Step(chunkSize, overlap);
    MulSucc(n - 1, s);
    DivUnique(length + s - 1, s, n, length + s - 1 - n * s);
  }

  /** The k-th chunk emitted from `start` begins `k` steps later. */
  lemma {:induction false} ChunksFromAt(text: string, chunkSize: nat, overlap: nat, start: nat, k: nat)
    requires overlap < chunkSize
    requires k < |ChunksFrom(text, chunkSize, overlap, start)|
    ensures start + k * Step(chunkSize, overlap) < |text|
    ensures ChunksFrom(text, chunkSize, overlap, start)[k] ==
            ChunkFrom(text, chunkSize, start + k * Step(chunkSize, overlap))
    decreases k
  {
    var s := Step(chunkSize, overlap);
    if k > 0 {
      ChunksFromAt(text, chunkSize, overlap, start + s, k - 1);
      MulSucc(k - 1, s);
    }
  }

  /** Chunk `k` of a page, cut at `pos`, which is `k` steps in. */
  lemma ChunkAt(text: string, chunkSize: nat, overlap: nat, k: nat, pos: nat)
    requires overlap < chunkSize
    requires k < |Chunks(text, chunkSize, overlap)| && pos == k * Step(chunkSize, overlap)
    ensures pos < |text| && Chunks(text, chunkSize, overlap)[k] == ChunkFrom(text, chunkSize, pos)
  {
    ChunksFromAt(text, chunkSize, overlap, 0, k);
  }

  /** A page of `L` characters yields `ceil(L / (chunk_size - overlap))` chunks. */
  lemma ChunksCount(text: string, chunkSize: nat, overlap: nat)
    requires overlap < chunkSize
    ensures |Chunks(text, chunkSize, overlap)| == ChunkCount(|text|, chunkSize, overlap)
  {
    ChunksFromLength(text, chunkSize, overlap, 0);
    if |text| > 0 {
      ChunkCountIsCeiling(|text|, chunkSize, overlap, |Chunks(text, chunkSize, overlap)|);
    }
  }

  /** The k-th chunk is `text[k*step .. min(k*step + chunk_size, L)]`. */
  lemma ChunksClosedForm(text: string, chunkSize: nat, overlap: nat, k: nat)
    requires overlap < chunkSize
    ensures k < |Chunks(text, chunkSize, overlap)| ==>
              k * Step(chunkSize, overlap) < |text| &&
              Chunks(text, chunkSize, overlap)[k] ==
              text[k * Step(chunkSize, overlap)..Min(k * Step(chunkSize, overlap) + chunkSize, |text|)]
  {
    if k < |Chunks(text, chunkSize, overlap)| {
      ChunksFromAt(text, chunkSize, overlap, 0, k);
    }
  }

  /** Every chunk is non-empty and at most `chunk_size` characters long. */
  lemma ChunkLength(text: string, chunkSize: nat, overlap: nat, k: nat)
    requires overlap < chunkSize
    requires k < |Chunks(text, chunkSize, overlap)|
    ensures 0 < |Chunks(text, chunkSize, overlap)[k]| <= chunkSize
  {
    ChunksFromAt(text, chunkSize, overlap, 0, k);
  }

  /** No gaps: character `i` of the page lies in chunk `i / step`. */
  lemma ChunksCover(text: string, chunkSize: nat, overlap: nat, i: nat)
    requires overlap < chunkSize
    requires i < |text|
    ensures var s, k := Step(chunkSize, overlap), i / Step(chunkSize, overlap);
            k < |Chunks(text, chunkSize, overlap)| &&
            k * s <= i < k * s + |Chunks(text, chunkSize, overlap)[k]| &&
            Chunks(text, chunkSize, overlap)[k][i - k * s] == text[i]
  {
    var s, k := Step(chunkSize, overlap), i / Step(chunkSize, overlap);
    assert k * s <= i < k * s + s by {
      assert i == k * s + i % s;
    }
    ChunksFromLength(text, chunkSize, overlap, 0);
    var n := |Chunks(text, chunkSize, overlap)|;
    if k >= n {
      MulMonotone(n, k, s);
      assert false;
    }
    ChunksFromAt(text, chunkSize, overlap, 0, k);
  }

  /** Two chunks cut one step apart: the first, past one step, is a prefix of the second. */
  lemma ChunkFromOverlap(text: string, chunkSize: nat, overlap: nat, a: nat, b: nat)
    requires overlap < chunkSize && b == a + Step(chunkSize, overlap) && b < |text|
    ensures var x, y, s := ChunkFrom(text, chunkSize, a), ChunkFrom(text, chunkSize, b), Step(chunkSize, overlap);
            s <= |x| && x[s..] <= y && (|x| == chunkSize ==> |x[s..]| == overlap)
  {
    var s := Step(chunkSize, overlap);
    var mid, hi := Min(a + chunkSize, |text|), Min(b + chunkSize, |text|);
    assert ChunkFrom(text, chunkSize, a)[s..] == text[b..mid];
    assert text[b..hi][..mid - b] == text[b..mid];
  }

  /** Consecutive chunks overlap: what chunk k holds past one step is where
      chunk k+1 begins, and when chunk k is full that is its last `overlap` characters. */
  lemma ChunksOverlap(text: string, chunkSize: nat, overlap: nat, k: nat)
    requires overlap < chunkSize
    requires k + 1 < |Chunks(text, chunkSize, overlap)|
    ensures var cs, s := Chunks(text, chunkSize, overlap), Step(chunkSize, overlap);
            s <= |cs[k]| && cs[k][s..] <= cs[k + 1] &&
            (|cs[k]| == chunkSize ==> |cs[k][s..]| == overlap)
  {
    var s := Step(chunkSize, overlap);
    var a := k * s;
    MulSucc(k, s);
    ChunkAt(text, chunkSize, overlap, k, a);
    ChunkAt(text, chunkSize, overlap, k + 1, a + s);
    ChunkFromOverlap(text, chunkSize, overlap, a, a + s);
  }

  /** A 15-character page with chunk size 10 and overlap 3 yields three chunks,
      not two: the starts are 0, 7 and 14, and the last chunk is `"o"`. */
  lemma FifteenCharacterPage()
    ensures Chunks("abcdefghijklmno", 10, 3) == ["abcdefghij", "hijklmno", "o"]
  {
    var t := "abcdefghijklmno";
    assert |t| == 15;
    assert ChunksFrom(t, 10, 3, 21) == [];
    assert t[14..15] == "o";
    assert t[7..15] == "hijklmno";
    assert t[0..10] == "abcdefghij";
    assert ChunksFrom(t, 10, 3, 14) == ["o"];
    assert ChunksFrom(t, 10, 3, 7) == ["hijklmno", "o"];
  }

  /** A chunk that runs to the end of the text, cut one step after another:
      it is the earlier one's tail exactly when it is no longer than the overlap. */
  lemma ChunkFromInsidePrevious(text: string, chunkSize: nat, overlap: nat, a: nat, b: nat)
    requires overlap < chunkSize && b == a + Step(chunkSize, overlap) && b < |text| <= b + Step(chunkSize, overlap)
    ensures var x, y, s := ChunkFrom(text, chunkSize, a), ChunkFrom(text, chunkSize, b), Step(chunkSize, overlap);
            s <= |x| && (y == x[s..] <==> |y| <= overlap)
  {
    var s := Step(chunkSize, overlap);
    var mid := Min(a + chunkSize, |text|);
    assert ChunkFrom(text, chunkSize, b) == text[b..];
    assert ChunkFrom(text, chunkSize, a)[s..] == text[b..mid];
  }

  /** The last chunk can lie wholly inside the one before it: this happens
      exactly when it is no longer than the overlap. */
  lemma TrailingChunkInsidePrevious(text: string, chunkSize: nat, overlap: nat)
    requires overlap < chunkSize
    requires |Chunks(text, chunkSize, overlap)| >= 2
    ensures var cs, s := Chunks(text, chunkSize, overlap), Step(chunkSize, overlap);
            var n := |cs|;
            s <= |cs[n - 2]| && (cs[n - 1] == cs[n - 2][s..] <==> |cs[n - 1]| <= overlap)
  {
    var s, n := Step(chunkSize, overlap), |Chunks(text, chunkSize, overlap)|;
    var a := (n - 2) * s;
    MulSucc(n - 2, s);
    MulSucc(n - 1, s);
    ChunksFromLength(text, chunkSize, overlap, 0);
    ChunkAt(text, chunkSize, overlap, n - 2, a);
    ChunkAt(text, chunkSize, overlap, n - 1, a + s);
    ChunkFromInsidePrevious(text, chunkSize, overlap, a, a + s);
  }

  /** `start` after `n` iterations of the loop, for any overlap. */
  function StartAfter(n: nat, chunkSize: nat, overlap: nat): int {
    if n == 0 then 0 else StartAfter(n - 1, chunkSize, overlap) + chunkSize - overlap
  }

  /** Nothing checks `overlap < chunk_size`: when it fails, `start` never moves
      forward, so on a non-empty page the loop condition holds forever. */
  lemma {:induction false} LoopDivergesWithoutProgress(n: nat, chunkSize: nat, overlap: nat)
    requires chunkSize <= overlap
    ensures StartAfter(n, chunkSize, overlap) <= 0
  {
    if n > 0 {
      LoopDivergesWithoutProgress(n - 1, chunkSize, overlap);
    }
  }
}
