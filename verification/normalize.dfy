/** Text normalisation before indexing (app/files/file_pre_processing.py): `normalize_text`
    after transliteration, stop-word removal (`clean_text`) and the `preprocess_text` pipeline.
    `unidecode` and the NLTK English stop-word list are parameters. */
module Normalize {
  import opened Text
  import Chunking

  /** `unidecode`, whose output is ASCII. */
  type Transliterate = string -> string

  /** The characters `[a-z0-9]` that the punctuation filter keeps besides whitespace. */
  predicate IsAlnumLower(c: char) { 'a' <= c <= 'z' || '0' <= c <= '9' }

  /** A character of normalised text. */
  predicate IsNormalChar(c: char) { IsAlnumLower(c) || c == ' ' }

  /** `re.sub(r"[^a-z0-9\s]", " ", s)`: every other character becomes a space. */
  function BlankOthers(s: string): (r: string)
    ensures |r| == |s|
    ensures forall i :: 0 <= i < |s| ==> r[i] == if IsAlnumLower(s[i]) || IsSpace(s[i]) then s[i] else ' '
  {
    seq(|s|, i requires 0 <= i < |s| => if IsAlnumLower(s[i]) || IsSpace(s[i]) then s[i] else ' ')
  }

  /** The letters and digits of `s` that the filter keeps, in order. */
  function AlnumOf(s: string): (r: string)
    ensures AllChars(r, IsAlnumLower)
    ensures |r| <= |s|
  {
    if s == [] then []
    else
      var rest := AlnumOf(s[1..]);
      if IsAlnumLower(s[0]) then
        AppendChars([s[0]], rest, IsAlnumLower);
        [s[0]] + rest
      else rest
  }

  /** What survives the filter, apart from whitespace, is exactly the letters and digits. */
  lemma {:induction false} NonSpaceOfBlankOthers(s: string)
    ensures NonSpace(BlankOthers(s)) == AlnumOf(s)
    decreases |s|
  {
    if s != [] {
      NonSpaceOfBlankOthers(s[1..]);
      assert BlankOthers(s)[1..] == BlankOthers(s[1..]);
    }
  }

  /** The characters that are not whitespace, all of which `ok` accepts, are all accepted. */
  lemma {:induction false} NonSpaceCharsOk(s: string, ok: char -> bool)
    requires AllChars(NonSpace(s), ok)
    ensures forall i :: 0 <= i < |s| && !IsSpace(s[i]) ==> ok(s[i])
    decreases |s|
  {
    if s != [] {
      var head := if IsSpace(s[0]) then [] else [s[0]];
      assert NonSpace(s) == head + NonSpace(s[1..]);
      SliceChars(NonSpace(s), |head|, |NonSpace(s)|, ok);
      assert NonSpace(s)[|head|..] == NonSpace(s[1..]);
      NonSpaceCharsOk(s[1..], ok);
      if !IsSpace(s[0]) {
        assert NonSpace(s)[0] == s[0];
      }
      assert forall i :: 1 <= i < |s| ==> s[i] == s[1..][i - 1];
    }
  }

  /** `normalize_text` from the transliteration on: lower-case, every character other than
      `[a-z0-9]` and whitespace blanked, whitespace runs collapsed, ends stripped. The
      `encode("utf-8", errors="ignore")` round trip is the identity on Unicode scalar values. */
  function NormalizeText(text: string, translit: Transliterate): (r: string)
    ensures text == [] ==> r == []
    ensures SingleSpaced(r)
    ensures AllChars(r, IsNormalChar)
    ensures text != [] ==> NonSpace(r) == AlnumOf(AsciiLower(translit(text)))
    ensures text != [] ==> r == Join(SplitWs(BlankOthers(AsciiLower(translit(text)))), " ")
  {
    if text == [] then []
    else
      var lowered := AsciiLower(translit(text));
      var blanked := BlankOthers(lowered);
      var r := Squeeze(blanked);
      NonSpaceOfBlankOthers(lowered);
      NonSpaceCharsOk(r, IsAlnumLower);
      SqueezeIsJoin(blanked);
      r
  }

  /** Punctuation between words separates them rather than vanishing: `"a.b"` becomes
      `"a b"`, not `"ab"`. */
  lemma PunctuationSeparatesWords(a: string, b: string, translit: Transliterate)
    requires a != [] && b != [] && AllChars(a, IsAlnumLower) && AllChars(b, IsAlnumLower)
    requires translit(a + "." + b) == a + "." + b
    ensures NormalizeText(a + "." + b, translit) == a + " " + b
  {
    var s := a + "." + b;
    var spaced := a + " " + b;
    assert AsciiLower(s) == s by { DottedChars(a, b, s); }
    assert BlankOthers(s) == spaced by { DottedChars(a, b, s); }
    assert IsWord(a) && IsWord(b);
    SplitWsWordFirst(a, b);
    SplitWsWord(b);
    assert Join([a, b], " ") == spaced;
  }

  /** The characters of `a.b` for alphanumeric words: letters and digits, then the dot. */
  lemma DottedChars(a: string, b: string, s: string)
    requires AllChars(a, IsAlnumLower) && AllChars(b, IsAlnumLower) && s == a + "." + b
    ensures AsciiLower(s) == s
    ensures BlankOthers(s) == a + " " + b
  {
    assert forall i :: 0 <= i < |s| ==> (i < |a| ==> s[i] == a[i]) && (i == |a| ==> s[i] == '.')
                                        && (i > |a| ==> s[i] == b[i - |a| - 1]);
    assert forall i :: 0 <= i < |s| ==> IsAlnumLower(s[i]) || s[i] == '.';
  }

  // ---------------------------------------------------------------- clean_text

  /** The words that are not stop words, in their original order. */
  function Keep(words: seq<string>, stop: set<string>): (r: seq<string>)
    ensures |r| <= |words|
    ensures forall w :: w in r <==> w in words && w !in stop
  {
    if words == [] then []
    else
      var rest := Keep(words[1..], stop);
      assert forall w :: w in words <==> w == words[0] || w in words[1..];
      if words[0] in stop then rest else [words[0]] + rest
  }

  /** Stop-word removal distributes over concatenation: the kept words stay in order. */
  lemma {:induction false} KeepAppend(a: seq<string>, b: seq<string>, stop: set<string>)
    ensures Keep(a + b, stop) == Keep(a, stop) + Keep(b, stop)
    decreases |a|
  {
    if a == [] {
      assert a + b == b;
    } else {
      var ab := a + b;
      assert ab[0] == a[0] && ab[1..] == a[1..] + b;
      KeepAppend(a[1..], b, stop);
    }
  }

  /** One word is kept exactly when it is not a stop word. */
  lemma KeepSingle(w: string, stop: set<string>)
    ensures Keep([w], stop) == if w in stop then [] else [w]
  {
    assert [w][1..] == [];
  }

  /** Keeping twice is keeping once. */
  lemma {:induction false} KeepIdempotent(words: seq<string>, stop: set<string>)
    ensures Keep(Keep(words, stop), stop) == Keep(words, stop)
    decreases |words|
  {
    if words != [] {
      KeepIdempotent(words[1..], stop);
      if words[0] !in stop {
        var k := Keep(words, stop);
        assert k[1..] == Keep(words[1..], stop);
      }
    }
  }

  /** `clean_text`: split on whitespace, drop stop words, join with single spaces. The
      `language` argument is never read, so it is not a parameter here. */
  function CleanText(text: string, stop: set<string>): (r: string)
    ensures SplitWs(r) == Keep(SplitWs(text), stop)
    ensures SingleSpaced(r)
    ensures forall w :: w in SplitWs(r) ==> w !in stop
  {
    var kept := Keep(SplitWs(text), stop);
    assert forall k :: 0 <= k < |kept| ==> kept[k] in SplitWs(text);
    SplitJoin(kept);
    JoinIsSingleSpaced(kept);
    Join(kept, " ")
  }

  /** Cleaning cleaned text changes nothing. */
  lemma CleanTextIdempotent(text: string, stop: set<string>)
    ensures CleanText(CleanText(text, stop), stop) == CleanText(text, stop)
  {
    KeepIdempotent(SplitWs(text), stop);
  }

  /** Cleaning keeps a character class that contains the space. */
  lemma CleanTextChars(text: string, stop: set<string>, ok: char -> bool)
    requires AllChars(text, ok) && ok(' ')
    ensures AllChars(CleanText(text, stop), ok)
  {
    var words := SplitWs(text);
    var kept := Keep(words, stop);
    SplitWsChars(text, ok);
    forall k | 0 <= k < |kept|
      ensures AllChars(kept[k], ok)
    {
      assert kept[k] in kept;
      var j :| 0 <= j < |words| && words[j] == kept[k];
    }
    JoinChars(kept, " ", ok);
  }

  // ---------------------------------------------------------------- preprocess_text

  /** `preprocess_text`: normalise, drop stop words, cut into overlapping character windows. */
  function Preprocess(text: string, size: int, overlap: int, translit: Transliterate, stop: set<string>)
    : (r: seq<string>)
    requires size > 0 && size > overlap
    ensures var cleaned := CleanText(NormalizeText(text, translit), stop);
      Chunking.IsChunking(cleaned, size, size - overlap, r)
    ensures forall k :: 0 <= k < |r| ==> 0 < |r[k]| <= size && AllChars(r[k], IsNormalChar)
    ensures text == [] ==> r == []
  {
    var normal := NormalizeText(text, translit);
    var cleaned := CleanText(normal, stop);
    CleanTextChars(normal, stop, IsNormalChar);
    Chunking.ChunkChars(cleaned, size, overlap, IsNormalChar);
    Chunking.ChunkText(cleaned, size, overlap)
  }
}
