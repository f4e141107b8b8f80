/** Character-window chunking with overlap: `chunk_text` in app/files/file_parser.py and its
    identical copy in app/files/file_pre_processing.py. */
module Chunking {
  import opened Text

  function Min(a: int, b: int): int { if a <= b then a else b }

  /** `text[start:min(start + size, len(text))]`, the window that starts at `start`. */
  function Window(text: string, size: int, start: nat): (w: string)
    requires size > 0 && start < |text|
    ensures 0 < |w| <= size && |w| == Min(size, |text| - start)
  {
    text[start..Min(start + size, |text|)]
  }

  /** The start of window `k`: `k` steps of `step` from 0. */
  function Offset(k: nat, step: int): int {
    if k == 0 then 0 else Offset(k - 1, step) + step
  }

  lemma {:induction false} OffsetIsProduct(k: nat, step: int)
    ensures Offset(k, step) == k * step
  {
    if k > 0 {
      OffsetIsProduct(k - 1, step);
      assert (k - 1) * step + step == k * step;
    }
  }

  /** The loop from a given `start`: take the window, stop if it reaches the end of the text,
      otherwise move `step` further on. */
  function WindowsFrom(text: string, size: int, step: int, start: nat): seq<string>
    requires size > 0 && step > 0
    decreases |text| - start
  {
    if start >= |text| then []
    else if start + size >= |text| then [Window(text, size, start)]
    else [Window(text, size, start)] + WindowsFrom(text, size, step, start + step)
  }

  /** What the loop produces, stated without the loop: window `k` starts at `k * step`, every
      window but the last stops short of the end, and the last one either reaches the end or
      is followed by a start beyond it. */
  predicate IsChunking(text: string, size: int, step: int, r: seq<string>)
    requires size > 0 && step > 0
  {
    && (r == [] <==> text == [])
    && (forall k :: 0 <= k < |r| ==> 0 <= Offset(k, step) < |text| && r[k] == Window(text, size, Offset(k, step)))
    && (forall k :: 0 <= k < |r| - 1 ==> Offset(k, step) + size < |text|)
    && (r != [] ==> Offset(|r| - 1, step) + size >= |text| || Offset(|r|, step) >= |text|)
  }

  /** `chunk_text(text, chunk_size, overlap)`. The loop ends only when the start advances,
      so `chunk_size - overlap` must be positive. */
  function ChunkText(text: string, size: int, overlap: int): (r: seq<string>)
    requires size > 0 && size > overlap
    ensures IsChunking(text, size, size - overlap, r)
  {
    var step := size - overlap;
    var r := WindowsFrom(text, size, step, 0);
    forall k | 0 <= k < |r|
      ensures 0 <= Offset(k, step) < |text| && r[k] == Window(text, size, Offset(k, step))
      ensures k < |r| - 1 ==> Offset(k, step) + size < |text|
    {
      WindowsFromAt(text, size, step, 0, k);
    }
    WindowsFromLast(text, size, step, 0);
    r
  }

  /** Window `k` of the loop from `start` is the one at `start + Offset(k)`, and it stops short
      of the end unless it is the last. */
  lemma {:induction false} WindowsFromAt(text: string, size: int, step: int, start: nat, k: nat)
    requires size > 0 && step > 0
    requires k < |WindowsFrom(text, size, step, start)|
    ensures var r := WindowsFrom(text, size, step, start);
      && 0 <= start + Offset(k, step) < |text|
      && r[k] == Window(text, size, start + Offset(k, step))
      && (k < |r| - 1 ==> start + Offset(k, step) + size < |text|)
    decreases k
  {
    var r := WindowsFrom(text, size, step, start);
    if k > 0 {
      var rest := WindowsFrom(text, size, step, start + step);
      assert r == [Window(text, size, start)] + rest;
      WindowsFromAt(text, size, step, start + step, k - 1);
      assert r[k] == rest[k - 1];
    }
  }

  /** The loop from `start` is empty exactly when `start` is past the end, and its last window
      either reaches the end or is followed by a start past it. */
  lemma {:induction false} WindowsFromLast(text: string, size: int, step: int, start: nat)
    requires size > 0 && step > 0
    ensures var r := WindowsFrom(text, size, step, start);
      && (r == [] <==> start >= |text|)
      && (r != [] ==> start + Offset(|r| - 1, step) + size >= |text| || start + Offset(|r|, step) >= |text|)
    decreases |text| - start
  {
    if start < |text| && start + size < |text| {
      var rest := WindowsFrom(text, size, step, start + step);
      WindowsFromLast(text, size, step, start + step);
      assert WindowsFrom(text, size, step, start) == [Window(text, size, start)] + rest;
      if rest != [] {
        assert Offset(|rest|, step) + step == Offset(|rest| + 1, step);
      }
    }
  }

  /** The `while` loop of `chunk_text`, with its `break`. */
  method ChunkTextLoop(text: string, size: int, overlap: int) returns (chunks: seq<string>)
    requires size > 0 && size > overlap
    ensures chunks == ChunkText(text, size, overlap)
  {
    if text == [] {
      return [];
    }
    var step := size - overlap;
    chunks := [];
    var start: nat := 0;
    while start < |text|
      invariant chunks + WindowsFrom(text, size, step, start) == WindowsFrom(text, size, step, 0)
      decreases |text| - start
    {
      var end := Min(start + size, |text|);
      var chunk := text[start..end];
      chunks := chunks + [chunk];
      if end == |text| {
        break;
      }
      start := start + step;
    }
  }

  // ---------------------------------------------------------------- properties of the windows

  /** Every chunk is a slice of the text, so it keeps any character class of the text. */
  lemma ChunkChars(text: string, size: int, overlap: int, ok: char -> bool)
    requires size > 0 && size > overlap
    requires AllChars(text, ok)
    ensures var r := ChunkText(text, size, overlap);
      forall k :: 0 <= k < |r| ==> AllChars(r[k], ok)
  {
    var r := ChunkText(text, size, overlap);
    forall k | 0 <= k < |r|
      ensures AllChars(r[k], ok)
    {
      var start := Offset(k, size - overlap);
      SliceChars(text, start, Min(start + size, |text|), ok);
    }
  }

  /** Text no longer than a window is one chunk, the text itself. */
  lemma SingleChunk(text: string, size: int, overlap: int)
    requires size > 0 && size > overlap
    requires 0 < |text| <= size
    ensures ChunkText(text, size, overlap) == [text]
  {
    assert text[0..|text|] == text;
  }

  /** With a non-negative overlap the last chunk ends exactly at the end of the text. */
  lemma LastChunkReachesEnd(text: string, size: int, overlap: int)
    requires size > 0 && size > overlap >= 0
    requires text != []
    ensures var r := ChunkText(text, size, overlap); var last := |r| - 1;
      Offset(last, size - overlap) + |r[last]| == |text|
  {
    LastReachesEnd(text, size, size - overlap, ChunkText(text, size, overlap));
  }

  lemma LastReachesEnd(text: string, size: int, step: int, r: seq<string>)
    requires 0 < step <= size && IsChunking(text, size, step, r) && text != []
    ensures Offset(|r| - 1, step) + |r[|r| - 1]| == |text|
  {
    assert Offset(|r|, step) == Offset(|r| - 1, step) + step;
  }

  /** Every character of the text lies in a chunk when the overlap is not negative: index `i`
      is in chunk `i / step`, or in the last chunk when there are fewer. */
  lemma Coverage(text: string, size: int, overlap: int, i: nat)
    requires size > 0 && size > overlap >= 0
    requires i < |text|
    ensures var r := ChunkText(text, size, overlap); var step := size - overlap;
      var k := Min(i / step, |r| - 1);
      0 <= k < |r| && Offset(k, step) <= i < Offset(k, step) + |r[k]|
  {
    CoverageOf(text, size, size - overlap, ChunkText(text, size, overlap), i);
  }

  lemma CoverageOf(text: string, size: int, step: int, r: seq<string>, i: nat)
    requires 0 < step <= size && IsChunking(text, size, step, r) && i < |text|
    ensures var k := Min(i / step, |r| - 1);
      0 <= k < |r| && Offset(k, step) <= i < Offset(k, step) + |r[k]|
  {
    var last := |r| - 1;
    var k := i / step;
    var j := Min(k, last);
    assert Offset(j, step) <= i by {
      DivBounds(i, step);
      if k > last {
        OffsetMono(last, k, step);
      }
    }
    assert i < Offset(j, step) + |r[j]| by {
      DivBounds(i, step);
      if k >= last {
        LastReachesEnd(text, size, step, r);
      } else {
        assert |r[k]| == size;
      }
    }
  }

  /** The window around `i`: it starts at `Offset(i / step)`, at most `step` before `i`. */
  lemma DivBounds(i: nat, step: int)
    requires step > 0
    ensures Offset(i / step, step) <= i < Offset(i / step, step) + step
  {
    OffsetIsProduct(i / step, step);
  }

  lemma {:induction false} OffsetMono(a: nat, b: nat, step: int)
    requires a < b && step > 0
    ensures Offset(a, step) + step <= Offset(b, step)
    decreases b
  {
    if a + 1 < b {
      OffsetMono(a, b - 1, step);
    }
  }

  /** Adjacent chunks share `overlap` characters: the tail of chunk `k` is the head of chunk
      `k + 1`. */
  lemma AdjacentOverlap(text: string, size: int, overlap: int, k: nat)
    requires size > 0 && size > overlap >= 0
    requires k + 1 < |ChunkText(text, size, overlap)|
    ensures var r := ChunkText(text, size, overlap);
      |r[k]| == size && |r[k + 1]| >= overlap && r[k][size - overlap..] == r[k + 1][..overlap]
  {
    var r := ChunkText(text, size, overlap);
    var step := size - overlap;
    var s := Offset(k, step);
    assert Offset(k + 1, step) == s + step;
    assert s + size < |text|;
    assert r[k] == text[s..s + size];
    assert r[k + 1] == text[s + step..Min(s + step + size, |text|)];
    assert r[k][step..] == text[s + step..s + size];
    assert r[k + 1][..overlap] == text[s + step..s + size];
  }

  /** With `size = 200` and `overlap = 50`, 1000 characters give more than one chunk and the
      last 50 characters of the first are the first 50 of the second. */
  lemma ThousandCharacters(text: string)
    requires |text| == 1000
    ensures var r := ChunkText(text, 200, 50);
      |r| > 1 && forall k :: 0 <= k < |r| ==> |r[k]| > 0
    ensures var r := ChunkText(text, 200, 50); r[0][150..] == r[1][..50]
  {
    var r := ChunkText(text, 200, 50);
    assert Offset(1, 150) == 150;
    AdjacentOverlap(text, 200, 50, 0);
  }
}
