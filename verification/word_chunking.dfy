/** The backend's indexing pre-processing (chatbot_backend/app/file/file_pre_processing.py):
    noise removal, word windows with overlap, and the 150/30 pipeline. The Unicode `\w` class
    is a parameter. */
module WordChunking {
  import opened Text
  import opened Chunking

  /** `\w` of a `str` regex: Unicode letters, digits and the underscore. */
  type WordClass = char -> bool

  /** The punctuation `[.,!?;:\-()]` the noise filter keeps. */
  predicate IsKeptPunct(c: char) {
    c == '.' || c == ',' || c == '!' || c == '?' || c == ';' || c == ':' || c == '-' || c == '(' || c == ')'
  }

  /** A character `re.sub(r'[^\w\s.,!?;:\-()]', '', s)` keeps. */
  predicate IsKept(c: char, isWord: WordClass) {
    isWord(c) || IsSpace(c) || IsKeptPunct(c)
  }

  /** Whitespace, if any, is a plain space. */
  predicate PlainSpace(c: char) { !IsSpace(c) || c == ' ' }

  /** `re.sub(r'[^\w\s.,!?;:\-()]', '', s)`: the kept characters, in order. */
  function DropNoise(s: string, isWord: WordClass): (r: string)
    ensures |r| <= |s|
    ensures forall i :: 0 <= i < |r| ==> IsKept(r[i], isWord)
  {
    if s == [] then []
    else
      var rest := DropNoise(s[1..], isWord);
      if IsKept(s[0], isWord) then
        assert forall i :: 1 <= i < |[s[0]] + rest| ==> ([s[0]] + rest)[i] == rest[i - 1];
        [s[0]] + rest
      else rest
  }

  /** Dropping characters keeps any class the text already had. */
  lemma {:induction false} DropNoiseChars(s: string, isWord: WordClass, ok: char -> bool)
    requires AllChars(s, ok)
    ensures AllChars(DropNoise(s, isWord), ok)
    decreases |s|
  {
    if s != [] {
      SliceChars(s, 1, |s|, ok);
      DropNoiseChars(s[1..], isWord, ok);
      if IsKept(s[0], isWord) {
        AppendChars([s[0]], DropNoise(s[1..], isWord), ok);
      }
    }
  }

  /** Dropping noise and dropping whitespace commute. */
  lemma {:induction false} NonSpaceDropNoise(s: string, isWord: WordClass)
    ensures NonSpace(DropNoise(s, isWord)) == DropNoise(NonSpace(s), isWord)
    decreases |s|
  {
    if s != [] {
      var c, t := s[0], s[1..];
      NonSpaceDropNoise(t, isWord);
      var dt := DropNoise(t, isWord);
      if IsSpace(c) {
        assert DropNoise(s, isWord) == [c] + dt;
        assert ([c] + dt)[1..] == dt;
        assert NonSpace(s) == NonSpace(t);
      } else {
        var nt := NonSpace(t);
        assert NonSpace(s) == [c] + nt;
        assert ([c] + nt)[0] == c && ([c] + nt)[1..] == nt;
        if IsKept(c, isWord) {
          assert DropNoise(s, isWord) == [c] + dt;
          assert ([c] + dt)[1..] == dt;
        }
      }
    }
  }

  /** Deletion distributes over concatenation. */
  lemma {:induction false} DropNoiseAppend(a: string, b: string, isWord: WordClass)
    ensures DropNoise(a + b, isWord) == DropNoise(a, isWord) + DropNoise(b, isWord)
    decreases |a|
  {
    if a == [] {
      assert a + b == b;
    } else {
      var ab := a + b;
      assert ab[0] == a[0] && ab[1..] == a[1..] + b;
      DropNoiseAppend(a[1..], b, isWord);
    }
  }

  /** Each word with its noise characters deleted; a word made only of noise becomes empty. */
  function DropEach(words: seq<string>, isWord: WordClass): (r: seq<string>)
    ensures |r| == |words| && forall k :: 0 <= k < |words| ==> r[k] == DropNoise(words[k], isWord)
  {
    seq(|words|, k requires 0 <= k < |words| => DropNoise(words[k], isWord))
  }

  /** Deleting noise from single-space-joined words deletes it word by word and keeps the spaces. */
  lemma {:induction false} DropNoiseJoin(words: seq<string>, isWord: WordClass)
    ensures DropNoise(Join(words, " "), isWord) == Join(DropEach(words, isWord), " ")
    decreases |words|
  {
    if |words| > 1 {
      var rest := Join(words[1..], " ");
      DropNoiseJoin(words[1..], isWord);
      assert Join(words, " ") == (words[0] + " ") + rest;
      DropNoiseAppend(words[0] + " ", rest, isWord);
      DropNoiseAppend(words[0], " ", isWord);
      assert DropNoise(" ", isWord) == " " by { assert " "[1..] == []; }
      var d := DropEach(words, isWord);
      assert d[1..] == DropEach(words[1..], isWord);
    }
  }

  /** Deleting noise from words leaves text without whitespace. */
  lemma DropEachNoSpace(words: seq<string>, isWord: WordClass)
    requires forall k :: 0 <= k < |words| ==> IsWord(words[k])
    ensures forall k :: 0 <= k < |words| ==> AllChars(DropEach(words, isWord)[k], NotSpace)
  {
    forall k | 0 <= k < |words|
      ensures AllChars(DropEach(words, isWord)[k], NotSpace)
    {
      assert AllChars(words[k], NotSpace);
      DropNoiseChars(words[k], isWord, NotSpace);
    }
  }

  /** `clean_text`: whitespace runs become one space and the ends are stripped, and only then
      are the noise characters deleted, so a deleted character between two spaces leaves a
      double space behind. The result is each word with its noise deleted, joined by single
      spaces, and its words are those of these that are not empty. */
  function CleanNoise(text: string, isWord: WordClass): (r: string)
    ensures text == [] ==> r == []
    ensures forall i :: 0 <= i < |r| ==> IsKept(r[i], isWord)
    ensures AllChars(r, PlainSpace)
    ensures NonSpace(r) == DropNoise(NonSpace(text), isWord)
    ensures r == Join(DropEach(SplitWs(text), isWord), " ")
    ensures SplitWs(r) == NonEmptyOf(DropEach(SplitWs(text), isWord))
  {
    if text == [] then
      assert SplitWs(text) == [];
      []
    else
      var squeezed := Squeeze(text);
      assert AllChars(squeezed, PlainSpace);
      DropNoiseChars(squeezed, isWord, PlainSpace);
      NonSpaceDropNoise(squeezed, isWord);
      CleanNoiseWords(text, isWord);
      DropNoise(squeezed, isWord)
  }

  lemma CleanNoiseWords(text: string, isWord: WordClass)
    ensures var r := DropNoise(Squeeze(text), isWord);
      && r == Join(DropEach(SplitWs(text), isWord), " ")
      && SplitWs(r) == NonEmptyOf(DropEach(SplitWs(text), isWord))
  {
    var words := SplitWs(text);
    SqueezeIsJoin(text);
    DropNoiseJoin(words, isWord);
    DropEachNoSpace(words, isWord);
    SplitJoinParts(DropEach(words, isWord));
  }

  /** The deletion after squeezing: `"a @ b"` becomes `"a  b"`, with two spaces. */
  lemma DeletionLeavesDoubleSpace(isWord: WordClass)
    requires isWord('a') && isWord('b') && !isWord('@')
    ensures CleanNoise("a @ b", isWord) == "a  b"
  {
    var s := "a @ b";
    assert SingleSpaced(s) by {
      assert !IsSpace(s[0]) && !IsSpace(s[2]) && !IsSpace(s[4]);
    }
    SqueezeSingleSpaced(s);
    DropNoiseExample(isWord);
  }

  lemma DropNoiseExample(isWord: WordClass)
    requires isWord('a') && isWord('b') && !isWord('@')
    ensures DropNoise("a @ b", isWord) == "a  b"
  {
    assert "b"[1..] == [];
    assert DropNoise("b", isWord) == "b";
    assert " b"[1..] == "b";
    assert DropNoise(" b", isWord) == " b";
    assert "@ b"[1..] == " b";
    assert DropNoise("@ b", isWord) == " b";
    assert " @ b"[1..] == "@ b";
    assert DropNoise(" @ b", isWord) == "  b";
    assert "a @ b"[1..] == " @ b";
  }

  // ---------------------------------------------------------------- chunk_text_by_words

  /** The word windows from `start`: `words[start:start + size]` joined by spaces, every
      `step` words, until the start passes the end. */
  function WordWindowsFrom(words: seq<string>, size: int, step: int, start: nat): seq<string>
    requires size > 0 && step > 0
    decreases |words| - start
  {
    if start >= |words| then []
    else [WordWindow(words, size, start)] + WordWindowsFrom(words, size, step, start + step)
  }

  /** `" ".join(words[start:start + size])`. */
  function WordWindow(words: seq<string>, size: int, start: nat): string
    requires size > 0 && start < |words|
  {
    Join(words[start..Min(start + size, |words|)], " ")
  }

  /** A window splits back into its (at most `size`) words. */
  lemma WordWindowSplits(words: seq<string>, size: int, start: nat)
    requires size > 0 && start < |words| && forall k :: 0 <= k < |words| ==> IsWord(words[k])
    ensures var e := Min(start + size, |words|);
      SplitWs(WordWindow(words, size, start)) == words[start..e] && e - start <= size
  {
    JoinSplitSlice(words, start, Min(start + size, |words|));
  }

  /** Number of windows: one per start below the number of words, `ceil(n / step)`. */
  lemma {:induction false} WordWindowsCount(words: seq<string>, size: int, step: int, start: nat)
    requires size > 0 && step > 0
    ensures |WordWindowsFrom(words, size, step, start)|
         == if start >= |words| then 0 else (|words| - start + step - 1) / step
    decreases |words| - start
  {
    if start < |words| {
      WordWindowsCount(words, size, step, start + step);
      var x := |words| - start;
      if start + step >= |words| {
        DivOne(x + step - 1, step);
      } else {
        DivShift(x - 1, step);
      }
    }
  }

  lemma DivOne(a: int, step: int)
    requires step > 0 && step <= a < step + step
    ensures a / step == 1
  {
    DivUnique(a, step, 1, a - step);
  }

  lemma DivShift(a: int, step: int)
    requires step > 0 && a >= 0
    ensures (a + step) / step == a / step + 1
  {
    var q := a / step;
    var r := a % step;
    assert a + step == (q + 1) * step + r;
    DivUnique(a + step, step, q + 1, r);
  }

  /** The quotient is the unique `q` with `x = q * step + r` and `0 <= r < step`. */
  lemma DivUnique(x: int, step: int, q: int, r: int)
    requires step > 0 && 0 <= r < step && x == q * step + r
    ensures x / step == q
  {
    var q' := x / step;
    var r' := x % step;
    assert x == q' * step + r';
    if q' > q {
      assert q' * step >= (q + 1) * step by { MulLe(q + 1, q', step); }
      assert false;
    } else if q' < q {
      assert q * step >= (q' + 1) * step by { MulLe(q' + 1, q, step); }
      assert false;
    }
  }

  lemma MulLe(a: int, b: int, step: int)
    requires a <= b && step > 0
    ensures a * step <= b * step
  {
  }

  /** Window `k` from `start` is the one at `start + Offset(k)`. */
  lemma {:induction false} WordWindowsAt(words: seq<string>, size: int, step: int, start: nat, k: nat)
    requires size > 0 && step > 0
    requires k < |WordWindowsFrom(words, size, step, start)|
    ensures var s := start + Offset(k, step);
      0 <= s < |words| && WordWindowsFrom(words, size, step, start)[k] == WordWindow(words, size, s)
    decreases k
  {
    if k > 0 {
      WordWindowsAt(words, size, step, start + step, k - 1);
      var rest := WordWindowsFrom(words, size, step, start + step);
      assert WordWindowsFrom(words, size, step, start)[k] == rest[k - 1];
    }
  }

  /** `chunk` is window `k`: the (at most `size`) words from `Offset(k)` joined by single
      spaces, and it splits back into those words. */
  predicate IsWordWindow(words: seq<string>, size: int, step: int, k: nat, chunk: string)
    requires size > 0 && step > 0
  {
    var s := Offset(k, step);
    && 0 <= s < |words|
    && chunk == Join(words[s..Min(s + size, |words|)], " ")
    && SplitWs(chunk) == words[s..Min(s + size, |words|)] && |SplitWs(chunk)| <= size
  }

  /** `chunk_text_by_words(text, chunk_size, overlap)`: windows of `chunk_size` words that
      start `chunk_size - overlap` words apart. The early `return []` for empty text is what
      the loop gives anyway, as empty text has no words. There is no early stop, so the count is
      `ceil(n / (chunk_size - overlap))` and a trailing window may lie inside the one before. */
  function ChunkByWords(text: string, size: int, overlap: int): (r: seq<string>)
    requires size > 0 && size > overlap
    ensures |r| == CeilDiv(|SplitWs(text)|, size - overlap)
    ensures forall k :: 0 <= k < |r| ==> IsWordWindow(SplitWs(text), size, size - overlap, k, r[k])
  {
    var words := SplitWs(text);
    var step := size - overlap;
    var r := WordWindowsFrom(words, size, step, 0);
    WordWindowsTotal(words, size, step);
    forall k | 0 <= k < |r|
      ensures IsWordWindow(words, size, step, k, r[k])
    {
      WordChunkAt(words, size, step, k);
    }
    r
  }

  /** `ceil(n / step)`. */
  function CeilDiv(n: nat, step: int): int
    requires step > 0
  {
    (n + step - 1) / step
  }

  /** The number of windows of `n` words is `ceil(n / step)`. */
  lemma WordWindowsTotal(words: seq<string>, size: int, step: int)
    requires size > 0 && step > 0
    ensures |WordWindowsFrom(words, size, step, 0)| == CeilDiv(|words|, step)
  {
    WordWindowsCount(words, size, step, 0);
    if words == [] {
      DivUnique(step - 1, step, 0, step - 1);
    }
  }

  /** Window `k` splits back into the `size` words (or fewer, at the end) from `Offset(k)`. */
  lemma WordChunkAt(words: seq<string>, size: int, step: int, k: nat)
    requires size > 0 && step > 0 && forall i :: 0 <= i < |words| ==> IsWord(words[i])
    requires k < |WordWindowsFrom(words, size, step, 0)|
    ensures IsWordWindow(words, size, step, k, WordWindowsFrom(words, size, step, 0)[k])
  {
    WordWindowsAt(words, size, step, 0, k);
    WindowAtOffset(words, size, step, k, WordWindowsFrom(words, size, step, 0)[k]);
  }

  /** The window that starts at `Offset(k)` is window `k`. */
  lemma WindowAtOffset(words: seq<string>, size: int, step: int, k: nat, chunk: string)
    requires size > 0 && step > 0 && forall i :: 0 <= i < |words| ==> IsWord(words[i])
    requires 0 <= Offset(k, step) < |words| && chunk == WordWindow(words, size, Offset(k, step))
    ensures IsWordWindow(words, size, step, k, chunk)
  {
    var s := Offset(k, step);
    var e := Min(s + size, |words|);
    WordWindowSplits(words, size, s);
    assert chunk == Join(words[s..e], " ");
    assert SplitWs(chunk) == words[s..e] && |words[s..e]| <= size;
  }

  /** Splitting a joined slice of words gives the slice back. */
  lemma JoinSplitSlice(words: seq<string>, i: nat, j: nat)
    requires i <= j <= |words| && forall k :: 0 <= k < |words| ==> IsWord(words[k])
    ensures SplitWs(Join(words[i..j], " ")) == words[i..j]
  {
    assert forall k :: 0 <= k < j - i ==> words[i..j][k] == words[i + k];
    SplitJoin(words[i..j]);
  }

  /** The `while` loop of `chunk_text_by_words`. */
  method ChunkByWordsLoop(text: string, size: int, overlap: int) returns (chunks: seq<string>)
    requires size > 0 && size > overlap
    ensures chunks == ChunkByWords(text, size, overlap)
  {
    if text == [] {
      return [];
    }
    var words := SplitWs(text);
    var step := size - overlap;
    chunks := [];
    var start: nat := 0;
    while start < |words|
      invariant chunks + WordWindowsFrom(words, size, step, start) == WordWindowsFrom(words, size, step, 0)
      decreases |words| - start
    {
      var end := Min(start + size, |words|);
      var chunk := Join(words[start..end], " ");
      NextWordWindow(chunks, chunk, words, size, step, start);
      chunks := chunks + [chunk];
      start := start + step;
    }
    assert chunks + [] == chunks;
  }

  /** One turn of the loop moves one window from the pending part to the output. */
  lemma NextWordWindow(chunks: seq<string>, chunk: string, words: seq<string>, size: int, step: int, start: nat)
    requires size > 0 && step > 0 && start < |words|
    requires chunk == Join(words[start..Min(start + size, |words|)], " ")
    ensures chunks + WordWindowsFrom(words, size, step, start)
         == (chunks + [chunk]) + WordWindowsFrom(words, size, step, start + step)
  {
    var rest := WordWindowsFrom(words, size, step, start + step);
    assert WordWindowsFrom(words, size, step, start) == [chunk] + rest;
    assert chunks + ([chunk] + rest) == (chunks + [chunk]) + rest;
  }

  /** Whitespace-only text has no words and so no windows. */
  lemma BlankTextHasNoChunks(text: string, size: int, overlap: int)
    requires size > 0 && size > overlap
    requires forall i :: 0 <= i < |text| ==> IsSpace(text[i])
    ensures ChunkByWords(text, size, overlap) == []
  {
    assert LStrip(text) == [];
  }

  /** Five words in windows of four that start two apart give three windows, the last of which
      repeats the end of the second. */
  lemma TrailingWindowInsidePrevious(words: seq<string>)
    requires |words| == 5 && forall k :: 0 <= k < 5 ==> IsWord(words[k])
    ensures var r := ChunkByWords(Join(words, " "), 4, 2);
      |r| == 3 && SplitWs(r[1]) == words[2..5] && SplitWs(r[2]) == words[4..5]
  {
    SplitJoin(words);
    var r := ChunkByWords(Join(words, " "), 4, 2);
    assert Offset(1, 2) == 2 && Offset(2, 2) == 4;
  }

  // ---------------------------------------------------------------- preprocess_text

  /** `preprocess_text`: noise removal, then windows of 150 words every 120 words. Window `k`
      holds the cleaned words from `120 * k` on, at most 150 of them. */
  function Preprocess(text: string, isWord: WordClass): (r: seq<string>)
    ensures var words := SplitWs(CleanNoise(text, isWord));
      && |r| == (|words| + 119) / 120
      && (forall k :: 0 <= k < |r| ==> IsWordWindow(words, 150, 120, k, r[k]))
      && forall k :: 0 <= k < |r| ==> |SplitWs(r[k])| <= 150
    ensures text == [] ==> r == []
  {
    var cleaned := CleanNoise(text, isWord);
    var r := ChunkByWords(cleaned, 150, 30);
    PreprocessWindows(SplitWs(cleaned), r);
    r
  }

  /** The 150/30 windows of the cleaned words, restated for the pipeline. */
  lemma PreprocessWindows(words: seq<string>, r: seq<string>)
    requires |r| == CeilDiv(|words|, 120)
    requires forall k :: 0 <= k < |r| ==> IsWordWindow(words, 150, 120, k, r[k])
    ensures && |r| == (|words| + 119) / 120
            && (forall k :: 0 <= k < |r| ==> IsWordWindow(words, 150, 120, k, r[k]))
            && forall k :: 0 <= k < |r| ==> |SplitWs(r[k])| <= 150
  {
  }
}
