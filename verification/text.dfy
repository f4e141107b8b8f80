/** Python string primitives the system relies on: whitespace classes, `strip`, `split`,
    `split(sep)`, `join`, `in` for substrings, decimal rendering and `padStart`.
    Characters are Unicode scalar values, so Python's `len` and slicing on `str` are Dafny's on `string`. */
module Text {
  import opened Wrappers

  /** Python's `str.isspace()`, which is also what the `\s` class of a `str` regex matches. */
  predicate IsSpace(c: char) {
    var n := c as int;
    n == 32 || 9 <= n <= 13 || 28 <= n <= 31 || n == 0x85 || n == 0xA0 || n == 0x1680
    || 0x2000 <= n <= 0x200A || n == 0x2028 || n == 0x2029 || n == 0x202F || n == 0x205F
    || n == 0x3000
  }

  predicate IsAsciiLetter(c: char) { 'a' <= c <= 'z' || 'A' <= c <= 'Z' }

  predicate IsDigit(c: char) { '0' <= c <= '9' }

  predicate AllDigits(s: string) { forall i :: 0 <= i < |s| ==> IsDigit(s[i]) }

  predicate StartsWith(s: string, prefix: string) {
    |prefix| <= |s| && s[..|prefix|] == prefix
  }

  predicate EndsWith(s: string, suffix: string) {
    |suffix| <= |s| && s[|s| - |suffix|..] == suffix
  }

  /** A word in the sense of `str.split()`: non-empty and free of whitespace. */
  predicate IsWord(w: string) {
    |w| > 0 && forall i :: 0 <= i < |w| ==> !IsSpace(w[i])
  }

  /** The non-whitespace characters of `s`, in order. */
  function NonSpace(s: string): string {
    if s == [] then [] else (if IsSpace(s[0]) then [] else [s[0]]) + NonSpace(s[1..])
  }

  // ---------------------------------------------------------------- strip

  /** `str.lstrip()`. */
  function LStrip(s: string): (r: string)
    ensures |r| <= |s| && r == s[|s| - |r|..]
    ensures forall i :: 0 <= i < |s| - |r| ==> IsSpace(s[i])
    ensures r == [] || !IsSpace(r[0])
    ensures NonSpace(r) == NonSpace(s)
    decreases |s|
  {
    if |s| > 0 && IsSpace(s[0]) then
      var r := LStrip(s[1..]);
      assert NonSpace(s) == NonSpace(s[1..]);
      r
    else s
  }

  /** `str.rstrip()`. */
  function RStrip(s: string): (r: string)
    ensures |r| <= |s| && r == s[..|r|]
    ensures forall i :: |r| <= i < |s| ==> IsSpace(s[i])
    ensures r == [] || !IsSpace(r[|r| - 1])
  {
    if |s| > 0 && IsSpace(s[|s| - 1]) then RStrip(s[..|s| - 1]) else s
  }

  /** Index at which `str.strip()` starts its slice. */
  function StripStart(s: string): (k: nat)
    ensures k <= |s|
  {
    |s| - |LStrip(s)|
  }

  /** `str.strip()`. */
  function Strip(s: string): (r: string)
    ensures r == [] || (!IsSpace(r[0]) && !IsSpace(r[|r| - 1]))
    ensures StripStart(s) + |r| <= |s| && r == s[StripStart(s)..StripStart(s) + |r|]
    ensures NonSpace(r) == NonSpace(s)
  {
    var l := LStrip(s);
    var r := RStrip(l);
    NonSpaceOfRStrip(l);
    r
  }

  /** Stripping text that is empty or begins and ends with non-whitespace changes nothing. */
  lemma StripTrimmed(s: string)
    requires s == [] || (!IsSpace(s[0]) && !IsSpace(s[|s| - 1]))
    ensures Strip(s) == s
  {
  }

  /** `RStrip` only looks at the tail: text ending in non-whitespace shields its prefix. */
  lemma {:induction false} RStripAppend(a: string, b: string)
    requires a == [] || !IsSpace(a[|a| - 1])
    ensures RStrip(a + b) == a + RStrip(b)
    decreases |b|
  {
    if b == [] {
      assert a + b == a;
    } else if IsSpace(b[|b| - 1]) {
      assert (a + b)[..|a + b| - 1] == a + b[..|b| - 1];
      RStripAppend(a, b[..|b| - 1]);
    } else {
    }
  }

  // ---------------------------------------------------------------- whitespace runs

  /** `re.sub(r"\s+", " ", s)`: every maximal run of whitespace becomes one space. */
  function CollapseWs(s: string): (r: string)
    ensures r == [] <==> s == []
    ensures r != [] ==> (IsSpace(r[0]) <==> IsSpace(s[0]))
    ensures SpacedOnce(r)
    ensures NonSpace(r) == NonSpace(s)
    decreases |s|
  {
    if s == [] then []
    else if IsSpace(s[0]) then
      var rest := CollapseWs(LStrip(s));
      assert NonSpace([' '] + rest) == NonSpace(rest) by {
        assert ([' '] + rest)[1..] == rest;
      }
      [' '] + rest
    else
      var rest := CollapseWs(s[1..]);
      assert NonSpace([s[0]] + rest) == [s[0]] + NonSpace(rest) by {
        assert ([s[0]] + rest)[1..] == rest;
      }
      [s[0]] + rest
  }

  /** Every whitespace character is a plain space and no two are adjacent. */
  predicate SpacedOnce(s: string) {
    && (forall i :: 0 <= i < |s| && IsSpace(s[i]) ==> s[i] == ' ')
    && (forall i :: 0 <= i < |s| - 1 && IsSpace(s[i]) ==> !IsSpace(s[i + 1]))
  }

  /** `SpacedOnce` text with no leading or trailing whitespace: the shape of
      `re.sub(r"\s+", " ", s).strip()`. */
  predicate SingleSpaced(s: string) {
    SpacedOnce(s) && (s == [] || (!IsSpace(s[0]) && !IsSpace(s[|s| - 1])))
  }

  /** `re.sub(r"\s+", " ", s).strip()`. */
  function Squeeze(s: string): (r: string)
    ensures SingleSpaced(r)
    ensures NonSpace(r) == NonSpace(s)
  {
    var c := CollapseWs(s);
    var r := Strip(c);
    SliceKeepsSpacing(c, StripStart(c), |r|);
    r
  }

  /** Collapsing already collapsed text changes nothing. */
  lemma {:induction false} CollapseWsSpacedOnce(s: string)
    requires SpacedOnce(s)
    ensures CollapseWs(s) == s
    decreases |s|
  {
    if s != [] {
      var t := s[1..];
      assert SpacedOnce(t) by {
        SliceKeepsSpacing(s, 1, |s| - 1);
        assert s[1..|s|] == t;
      }
      CollapseWsSpacedOnce(t);
      if IsSpace(s[0]) {
        assert LStrip(s) == t by {
          assert t == [] || !IsSpace(t[0]);
        }
        CollapseCons(s, ' ', t);
      } else {
        CollapseCons(s, s[0], t);
      }
    }
  }

  lemma CollapseCons(s: string, c: char, t: string)
    requires s != [] && t == s[1..] && c == s[0]
    ensures s == [c] + t
  {
  }

  /** Squeezing is idempotent: single-spaced text is left as it is. */
  lemma SqueezeSingleSpaced(s: string)
    requires SingleSpaced(s)
    ensures Squeeze(s) == s
  {
    CollapseWsSpacedOnce(s);
    StripTrimmed(s);
  }

  /** A slice of collapsed text is still collapsed. */
  lemma SliceKeepsSpacing(c: string, k: nat, n: nat)
    requires k + n <= |c|
    requires SpacedOnce(c)
    ensures SpacedOnce(c[k..k + n])
  {
    var r := c[k..k + n];
    forall i | 0 <= i < n - 1 && IsSpace(r[i])
      ensures !IsSpace(r[i + 1])
    {
      assert r[i] == c[k + i] && r[i + 1] == c[k + i + 1];
    }
    forall i | 0 <= i < n && IsSpace(r[i])
      ensures r[i] == ' '
    {
      assert r[i] == c[k + i];
    }
  }

  lemma {:induction false} NonSpaceAppend(a: string, b: string)
    ensures NonSpace(a + b) == NonSpace(a) + NonSpace(b)
    decreases |a|
  {
    if a == [] {
      assert a + b == b;
    } else {
      assert (a + b)[1..] == a[1..] + b;
      NonSpaceAppend(a[1..], b);
    }
  }

  lemma NonSpaceOfRStrip(s: string)
    ensures NonSpace(RStrip(s)) == NonSpace(s)
  {
    var r := RStrip(s);
    assert s == r + s[|r|..];
    NonSpaceAppend(r, s[|r|..]);
    AllSpaceHasNoNonSpace(s[|r|..]);
  }

  lemma {:induction false} AllSpaceHasNoNonSpace(s: string)
    requires forall i :: 0 <= i < |s| ==> IsSpace(s[i])
    ensures NonSpace(s) == []
    decreases |s|
  {
    if s != [] {
      AllSpaceHasNoNonSpace(s[1..]);
    }
  }

  // ---------------------------------------------------------------- str.split() and join

  /** Number of leading non-whitespace characters. */
  function WordLen(s: string): (n: nat)
    ensures n <= |s|
    ensures forall i :: 0 <= i < n ==> !IsSpace(s[i])
    ensures n < |s| ==> IsSpace(s[n])
  {
    if s == [] || IsSpace(s[0]) then 0 else 1 + WordLen(s[1..])
  }

  /** `str.split()` with no argument: the maximal whitespace-free runs, in order. */
  function SplitWs(s: string): (r: seq<string>)
    ensures forall i :: 0 <= i < |r| ==> IsWord(r[i])
    decreases |s|
  {
    var t := LStrip(s);
    if t == [] then []
    else
      FirstWord(t);
      var n := WordLen(t);
      var rest := SplitWs(t[n..]);
      ConsWords(t[..n], rest);
      [t[..n]] + rest
  }

  /** A text that starts with a non-space character starts with a word. */
  lemma FirstWord(t: string)
    requires t != [] && !IsSpace(t[0])
    ensures 0 < WordLen(t) && IsWord(t[..WordLen(t)])
  {
  }

  lemma ConsWords(w: string, rest: seq<string>)
    requires IsWord(w) && forall i :: 0 <= i < |rest| ==> IsWord(rest[i])
    ensures forall i :: 0 <= i < |rest| + 1 ==> IsWord(([w] + rest)[i])
  {
  }

  /** `sep.join(parts)`. */
  function Join(parts: seq<string>, sep: string): string {
    if |parts| == 0 then ""
    else if |parts| == 1 then parts[0]
    else parts[0] + sep + Join(parts[1..], sep)
  }

  /** `"".join(parts)`. */
  function Concat(parts: seq<string>): string {
    if parts == [] then "" else parts[0] + Concat(parts[1..])
  }

  lemma {:induction false} WordLenOfWord(w: string, rest: string)
    requires IsWord(w)
    requires rest == [] || IsSpace(rest[0])
    ensures WordLen(w + rest) == |w|
    decreases |w|
  {
    assert (w + rest)[0] == w[0];
    assert (w + rest)[1..] == w[1..] + rest;
    if |w| == 1 {
      assert w[1..] + rest == rest;
    } else {
      WordLenOfWord(w[1..], rest);
    }
  }

  /** A word followed by a space splits off as the first word. */
  lemma SplitWsWordFirst(w: string, rest: string)
    requires IsWord(w)
    ensures SplitWs(w + " " + rest) == [w] + SplitWs(rest)
  {
    var s := w + " " + rest;
    assert s == w + (" " + rest);
    WordLenOfWord(w, " " + rest);
    assert LStrip(s) == s;
    assert s[..|w|] == w;
    assert s[|w|..] == " " + rest;
    SplitWsLeadingSpace(rest);
  }

  /** A lone word splits to itself. */
  lemma SplitWsWord(w: string)
    requires IsWord(w)
    ensures SplitWs(w) == [w]
  {
    WordLenOfWord(w, []);
    assert w + [] == w;
    assert w[|w|..] == [];
  }

  /** Splitting single-space-joined words gives the words back. */
  lemma {:induction false} SplitJoin(words: seq<string>)
    requires forall i :: 0 <= i < |words| ==> IsWord(words[i])
    ensures SplitWs(Join(words, " ")) == words
    decreases |words|
  {
    if |words| == 1 {
      SplitWsWord(words[0]);
    } else if |words| > 1 {
      var rest := Join(words[1..], " ");
      SplitJoin(words[1..]);
      SplitJoinStep(words, Join(words, " "), rest);
    }
  }

  lemma SplitJoinStep(words: seq<string>, s: string, rest: string)
    requires |words| > 1 && IsWord(words[0])
    requires s == words[0] + " " + rest && SplitWs(rest) == words[1..]
    ensures SplitWs(s) == words
  {
    SplitWsWordFirst(words[0], rest);
    assert [words[0]] + words[1..] == words;
  }

  lemma SplitWsLeadingSpace(s: string)
    ensures SplitWs(" " + s) == SplitWs(s)
  {
    assert (" " + s)[1..] == s;
    assert LStrip(" " + s) == LStrip(s);
  }

  /** Joining words with single spaces gives single-spaced text. */
  lemma {:induction false} JoinIsSingleSpaced(words: seq<string>)
    requires forall i :: 0 <= i < |words| ==> IsWord(words[i])
    ensures SingleSpaced(Join(words, " "))
    decreases |words|
  {
    if |words| > 1 {
      JoinIsSingleSpaced(words[1..]);
      var rest := Join(words[1..], " ");
      assert rest != [] && !IsSpace(rest[0]) by { assert IsWord(words[1]); JoinNonEmpty(words[1..]); }
      SpacedPair(words[0], rest);
    }
  }

  /** A word, a space and single-spaced text that starts with a word are single-spaced. */
  lemma SpacedPair(w: string, rest: string)
    requires IsWord(w) && SingleSpaced(rest) && rest != [] && !IsSpace(rest[0])
    ensures SingleSpaced(w + " " + rest)
  {
    var s := w + " " + rest;
    assert forall i :: 0 <= i < |w| ==> s[i] == w[i];
    assert s[|w|] == ' ';
    assert forall i :: 0 <= i < |rest| ==> s[|w| + 1 + i] == rest[i];
  }

  lemma {:induction false} JoinNonEmpty(words: seq<string>)
    requires |words| > 0 && forall i :: 0 <= i < |words| ==> IsWord(words[i])
    ensures |Join(words, " ")| >= |words[0]| > 0
    ensures Join(words, " ")[..|words[0]|] == words[0]
    decreases |words|
  {
  }

  // ---------------------------------------------------------------- split() after squeezing

  /** `str.split()` one character at a time: whitespace in front changes nothing, and a
      non-whitespace character either is a word of its own or starts the first word. */
  lemma SplitWsCons(c: char, s: string)
    ensures IsSpace(c) ==> SplitWs([c] + s) == SplitWs(s)
    ensures !IsSpace(c) && (s == [] || IsSpace(s[0])) ==> SplitWs([c] + s) == [[c]] + SplitWs(s)
    ensures !IsSpace(c) && s != [] && !IsSpace(s[0]) ==>
              SplitWs(s) != [] && SplitWs([c] + s) == [[c] + SplitWs(s)[0]] + SplitWs(s)[1..]
  {
    var t := [c] + s;
    assert t[0] == c && t[1..] == s;
    if IsSpace(c) {
      assert LStrip(t) == LStrip(s);
    } else if s == [] || IsSpace(s[0]) {
      assert LStrip(t) == t;
      assert WordLen(t) == 1;
      assert t[..1] == [c];
    } else {
      assert LStrip(t) == t && LStrip(s) == s;
      var n := WordLen(s);
      assert WordLen(t) == n + 1;
      assert t[..n + 1] == [c] + s[..n];
      assert t[n + 1..] == s[n..];
    }
  }

  /** Leading whitespace does not change the words. */
  lemma SplitWsLStrip(s: string)
    ensures SplitWs(LStrip(s)) == SplitWs(s)
  {
    var t := LStrip(s);
    assert LStrip(t) == t;
  }

  /** A trailing whitespace character does not change the words. */
  lemma {:induction false} SplitWsSnocSpace(a: string, c: char)
    requires IsSpace(c)
    ensures SplitWs(a + [c]) == SplitWs(a)
    decreases |a|
  {
    if a == [] {
      assert a + [c] == [c] + [];
      SplitWsCons(c, []);
    } else {
      var x, rest := a[0], a[1..];
      assert a == [x] + rest;
      assert a + [c] == [x] + (rest + [c]);
      SplitWsSnocSpace(rest, c);
      SplitWsCons(x, rest);
      SplitWsCons(x, rest + [c]);
      if rest == [] {
        assert rest + [c] == [c] + [];
        SplitWsCons(c, []);
      } else {
        assert (rest + [c])[0] == rest[0];
      }
    }
  }

  /** Trailing whitespace does not change the words. */
  lemma {:induction false} SplitWsRStrip(s: string)
    ensures SplitWs(RStrip(s)) == SplitWs(s)
    decreases |s|
  {
    if |s| > 0 && IsSpace(s[|s| - 1]) {
      var init := s[..|s| - 1];
      assert s == init + [s[|s| - 1]];
      SplitWsSnocSpace(init, s[|s| - 1]);
      SplitWsRStrip(init);
    }
  }

  /** Collapsing whitespace runs does not change the words. */
  lemma {:induction false} SplitWsCollapse(s: string)
    ensures SplitWs(CollapseWs(s)) == SplitWs(s)
    decreases |s|
  {
    if s != [] {
      if IsSpace(s[0]) {
        var t := LStrip(s);
        assert CollapseWs(s) == [' '] + CollapseWs(t);
        SplitWsCons(' ', CollapseWs(t));
        SplitWsCollapse(t);
        SplitWsLStrip(s);
      } else {
        var t := s[1..];
        assert s == [s[0]] + t;
        assert CollapseWs(s) == [s[0]] + CollapseWs(t);
        SplitWsCollapse(t);
        SplitWsCons(s[0], t);
        SplitWsCons(s[0], CollapseWs(t));
      }
    }
  }

  /** Single-spaced text is its words joined by single spaces. */
  lemma {:induction false} SingleSpacedIsJoin(x: string)
    requires SingleSpaced(x)
    ensures x == Join(SplitWs(x), " ")
    decreases |x|
  {
    if x != [] {
      assert LStrip(x) == x;
      var n := WordLen(x);
      if n == |x| {
        assert x[n..] == [] && x[..n] == x;
        assert SplitWs(x) == [x[..n]] + SplitWs(x[n..]);
      } else {
        var rest := x[n + 1..];
        SingleSpacedStep(x, n, rest);
        SplitWsAfterWord(x, n, rest);
        SingleSpacedIsJoin(rest);
        JoinStep(x[..n], SplitWs(rest), rest, x);
      }
    }
  }

  /** Past a whitespace character of single-spaced text come one space and single-spaced text. */
  lemma SingleSpacedStep(x: string, n: nat, rest: string)
    requires SingleSpaced(x) && n < |x| && IsSpace(x[n]) && rest == x[n + 1..]
    ensures x == x[..n] + " " + rest && x[n..] == " " + rest
    ensures SingleSpaced(rest) && rest != [] && !IsSpace(rest[0])
  {
    SpaceAfterWord(x, n);
    Around(x, n, ' ', rest);
    SingleSpacedSuffix(x, n + 1);
  }

  /** The first word of single-spaced text that does not reach its end is followed by one
      plain space and then by non-whitespace. */
  lemma SpaceAfterWord(x: string, n: nat)
    requires SingleSpaced(x) && n < |x| && IsSpace(x[n])
    ensures x[n] == ' ' && n + 1 < |x| && !IsSpace(x[n + 1])
  {
  }

  /** A suffix of single-spaced text that starts with non-whitespace is single-spaced. */
  lemma SingleSpacedSuffix(x: string, k: nat)
    requires SingleSpaced(x) && k < |x| && !IsSpace(x[k])
    ensures SingleSpaced(x[k..]) && x[k..] != [] && !IsSpace(x[k..][0])
  {
    SliceKeepsSpacing(x, k, |x| - k);
    assert x[k..k + (|x| - k)] == x[k..];
    assert x[k..][|x| - k - 1] == x[|x| - 1];
  }

  /** Text is what comes before index `n`, the character at `n` and what comes after. */
  lemma Around(x: string, n: nat, c: char, rest: string)
    requires n < |x| && x[n] == c && rest == x[n + 1..]
    ensures x == x[..n] + [c] + rest && x[n..] == [c] + rest
  {
  }

  lemma SplitWsAfterWord(x: string, n: nat, rest: string)
    requires x != [] && !IsSpace(x[0]) && n == WordLen(x) && n < |x| && x[n..] == " " + rest
    ensures SplitWs(x) == [x[..n]] + SplitWs(rest)
  {
    assert LStrip(x) == x;
    assert SplitWs(x) == [x[..n]] + SplitWs(x[n..]);
    SplitWsLeadingSpace(rest);
  }

  /** Putting a word in front of joined words that are not none. */
  lemma JoinStep(w: string, tail: seq<string>, rest: string, x: string)
    requires rest != [] && !IsSpace(rest[0]) && rest == Join(tail, " ") && x == w + " " + rest
    ensures x == Join([w] + tail, " ")
  {
    assert tail != [];
    assert ([w] + tail)[1..] == tail;
  }

  /** `re.sub(r"\s+", " ", s).strip()` is `" ".join(s.split())`: the same words, single spaces. */
  lemma SqueezeIsJoin(s: string)
    ensures SplitWs(Squeeze(s)) == SplitWs(s)
    ensures Squeeze(s) == Join(SplitWs(s), " ")
  {
    var c := CollapseWs(s);
    var l := LStrip(c);
    assert Squeeze(s) == RStrip(l);
    SplitWsRStrip(l);
    SplitWsLStrip(c);
    SplitWsCollapse(s);
    SingleSpacedIsJoin(Squeeze(s));
  }

  /** The parts that are not empty, in order. */
  function NonEmptyOf(parts: seq<string>): (r: seq<string>)
    ensures |r| <= |parts|
    ensures forall w :: w in r <==> w in parts && w != []
  {
    if parts == [] then []
    else
      var rest := NonEmptyOf(parts[1..]);
      assert forall w :: w in parts <==> w == parts[0] || w in parts[1..];
      if parts[0] == [] then rest else [parts[0]] + rest
  }

  /** A string without whitespace. */
  predicate NotSpace(c: char) { !IsSpace(c) }

  /** Joining whitespace-free parts with single spaces and splitting again gives the parts that
      are not empty: an empty part only leaves an extra space behind. */
  lemma {:induction false} SplitJoinParts(parts: seq<string>)
    requires forall k :: 0 <= k < |parts| ==> AllChars(parts[k], NotSpace)
    ensures SplitWs(Join(parts, " ")) == NonEmptyOf(parts)
    decreases |parts|
  {
    if |parts| == 1 {
      var p := parts[0];
      assert Join(parts, " ") == p;
      assert NonEmptyOf(parts) == NonEmptyOf([p]);
      SplitPart(p);
    } else if |parts| > 1 {
      var p, tail := parts[0], parts[1..];
      assert forall k :: 0 <= k < |tail| ==> tail[k] == parts[k + 1];
      SplitJoinParts(tail);
      assert AllChars(p, NotSpace);
      SplitJoinPartsStep(p, tail, Join(tail, " "));
      assert parts == [p] + tail;
    }
  }

  /** One whitespace-free part splits into itself, or into nothing when it is empty. */
  lemma SplitPart(p: string)
    requires AllChars(p, NotSpace)
    ensures SplitWs(p) == NonEmptyOf([p])
  {
    assert [p][1..] == [];
    if p != [] {
      SplitWsWord(p);
    }
  }

  lemma SplitJoinPartsStep(p: string, tail: seq<string>, rest: string)
    requires AllChars(p, NotSpace) && |tail| > 0 && rest == Join(tail, " ")
    requires SplitWs(rest) == NonEmptyOf(tail)
    ensures SplitWs(Join([p] + tail, " ")) == NonEmptyOf([p] + tail)
  {
    var parts := [p] + tail;
    assert parts[0] == p && parts[1..] == tail;
    assert Join(parts, " ") == p + " " + rest;
    if p == [] {
      assert p + " " + rest == " " + rest;
      SplitWsLeadingSpace(rest);
    } else {
      SplitWsWordFirst(p, rest);
    }
  }

  // ---------------------------------------------------------------- character classes

  /** Every character of `s` satisfies `ok`. */
  predicate AllChars(s: string, ok: char -> bool) {
    forall i :: 0 <= i < |s| ==> ok(s[i])
  }

  /** The words of `s` are made of characters of `s`. */
  lemma {:induction false} SplitWsChars(s: string, ok: char -> bool)
    requires AllChars(s, ok)
    ensures forall k :: 0 <= k < |SplitWs(s)| ==> AllChars(SplitWs(s)[k], ok)
    decreases |s|
  {
    var t := LStrip(s);
    if t != [] {
      var n := WordLen(t);
      SliceChars(s, |s| - |t|, |s|, ok);
      SliceChars(t, 0, n, ok);
      SliceChars(t, n, |t|, ok);
      SplitWsChars(t[n..], ok);
      ConsChars(t[..n], SplitWs(t[n..]), ok);
    }
  }

  lemma SliceChars(s: string, i: nat, j: nat, ok: char -> bool)
    requires i <= j <= |s| && AllChars(s, ok)
    ensures AllChars(s[i..j], ok)
  {
    assert forall k :: 0 <= k < j - i ==> s[i..j][k] == s[i + k];
  }

  lemma ConsChars(head: string, tail: seq<string>, ok: char -> bool)
    requires AllChars(head, ok) && forall k :: 0 <= k < |tail| ==> AllChars(tail[k], ok)
    ensures forall k :: 0 <= k < |[head] + tail| ==> AllChars(([head] + tail)[k], ok)
  {
    assert forall k :: 1 <= k < |[head] + tail| ==> ([head] + tail)[k] == tail[k - 1];
  }

  /** Joining keeps a character class that the parts and the separator share. */
  lemma {:induction false} JoinChars(parts: seq<string>, sep: string, ok: char -> bool)
    requires AllChars(sep, ok) && forall k :: 0 <= k < |parts| ==> AllChars(parts[k], ok)
    ensures AllChars(Join(parts, sep), ok)
    decreases |parts|
  {
    if |parts| > 1 {
      JoinChars(parts[1..], sep, ok);
      AppendChars(parts[0], sep, ok);
      AppendChars(parts[0] + sep, Join(parts[1..], sep), ok);
    }
  }

  lemma AppendChars(a: string, b: string, ok: char -> bool)
    requires AllChars(a, ok) && AllChars(b, ok)
    ensures AllChars(a + b, ok)
  {
    assert forall i :: |a| <= i < |a + b| ==> (a + b)[i] == b[i - |a|];
  }

  /** Collapsing whitespace only brings in plain spaces. */
  lemma {:induction false} CollapseWsChars(s: string, ok: char -> bool)
    requires AllChars(s, ok) && ok(' ')
    ensures AllChars(CollapseWs(s), ok)
    decreases |s|
  {
    if s != [] {
      if IsSpace(s[0]) {
        var t := LStrip(s);
        SliceChars(s, |s| - |t|, |s|, ok);
        CollapseWsChars(t, ok);
        AppendChars([' '], CollapseWs(t), ok);
      } else {
        SliceChars(s, 1, |s|, ok);
        CollapseWsChars(s[1..], ok);
        AppendChars([s[0]], CollapseWs(s[1..]), ok);
      }
    }
  }

  /** `re.sub(r"\s+", " ", s).strip()` only brings in plain spaces. */
  lemma SqueezeChars(s: string, ok: char -> bool)
    requires AllChars(s, ok) && ok(' ')
    ensures AllChars(Squeeze(s), ok)
  {
    var c := CollapseWs(s);
    CollapseWsChars(s, ok);
    var k := StripStart(c);
    var r := Strip(c);
    SliceChars(c, k, k + |r|, ok);
  }

  // ---------------------------------------------------------------- substrings and str.split(sep)

  /** `sep` occurs in `s` starting at index `i`. */
  predicate OccursAt(s: string, sep: string, i: int) {
    0 <= i && i + |sep| <= |s| && s[i..i + |sep|] == sep
  }

  lemma OccursShift(s: string, sep: string)
    requires |s| > 0
    ensures forall j :: 1 <= j ==> (OccursAt(s, sep, j) <==> OccursAt(s[1..], sep, j - 1))
  {
    forall j | 1 <= j
      ensures OccursAt(s, sep, j) <==> OccursAt(s[1..], sep, j - 1)
    {
      if j + |sep| <= |s| {
        assert s[1..][j - 1..j - 1 + |sep|] == s[j..j + |sep|];
      }
    }
  }

  /** `s.find(sep)` as an option: the first index at which `sep` occurs. */
  function IndexOf(s: string, sep: string): (r: Option<nat>)
    ensures r.Some? ==> OccursAt(s, sep, r.value)
    ensures r.Some? ==> forall j :: 0 <= j < r.value ==> !OccursAt(s, sep, j)
    ensures r.None? ==> forall j :: !OccursAt(s, sep, j)
    decreases |s|
  {
    if |s| < |sep| then None
    else if s[..|sep|] == sep then Some(0)
    else
      var r := IndexOf(s[1..], sep);
      OccursShift(s, sep);
      match r
      case None => None
      case Some(k) => Some(k + 1)
  }

  /** The first occurrence is the one `IndexOf` finds. */
  lemma IndexOfFirst(s: string, sep: string, i: nat)
    requires OccursAt(s, sep, i) && forall j :: 0 <= j < i ==> !OccursAt(s, sep, j)
    ensures IndexOf(s, sep) == Some(i)
  {
    var r := IndexOf(s, sep);
    assert r.Some?;
  }

  /** Python's `sep in s`. */
  predicate Contains(s: string, sep: string) {
    IndexOf(s, sep).Some?
  }

  lemma ContainsIff(s: string, sep: string)
    ensures Contains(s, sep) <==> exists j :: OccursAt(s, sep, j)
  {
  }

  /** `s.split(sep)` for a non-empty separator: the pieces between successive occurrences. */
  function SplitOn(s: string, sep: string): (r: seq<string>)
    requires |sep| > 0
    ensures |r| >= 1
    ensures Contains(s, sep) ==> |r| >= 2
    decreases |s|
  {
    match IndexOf(s, sep)
    case None => [s]
    case Some(i) => [s[..i]] + SplitOn(s[i + |sep|..], sep)
  }

  /** The first two pieces of `s.split(sep)`, through positions: the text before the first
      occurrence, then the first piece of what follows it. */
  lemma SplitOnPieces(s: string, sep: string, i: nat)
    requires |sep| > 0
    requires OccursAt(s, sep, i) && forall j :: 0 <= j < i ==> !OccursAt(s, sep, j)
    ensures SplitOn(s, sep)[0] == s[..i]
    ensures SplitOn(s, sep)[1] == SplitOn(s[i + |sep|..], sep)[0]
  {
    IndexOfFirst(s, sep, i);
  }

  /** The first piece of `s.split(sep)` runs up to the first occurrence, or is all of `s`. */
  lemma SplitOnHead(s: string, sep: string, j: nat)
    requires |sep| > 0 && j <= |s|
    requires j == |s| || OccursAt(s, sep, j)
    requires forall k :: 0 <= k < j ==> !OccursAt(s, sep, k)
    ensures SplitOn(s, sep)[0] == s[..j]
  {
    if j < |s| {
      IndexOfFirst(s, sep, j);
    } else {
      var r := IndexOf(s, sep);
      assert r.None?;
      assert s[..j] == s;
    }
  }

  /** Splitting on one character that does not occur gives the whole string back. */
  lemma SplitOnAbsent(a: string, c: char)
    requires c !in a
    ensures SplitOn(a, [c]) == [a]
  {
    forall j | 0 <= j < |a|
      ensures !OccursAt(a, [c], j)
    {
      assert a[j..j + 1] == [a[j]];
    }
    assert IndexOf(a, [c]).None?;
  }

  /** Splitting `a c b` on the character `c`, absent from `a`, gives `a` and then the pieces of `b`. */
  lemma SplitOnCons(a: string, c: char, b: string)
    requires c !in a
    ensures SplitOn(a + [c] + b, [c]) == [a] + SplitOn(b, [c])
  {
    var s := a + [c] + b;
    assert s[|a|..|a| + 1] == [c];
    forall j | 0 <= j < |a|
      ensures !OccursAt(s, [c], j)
    {
      assert s[j..j + 1] == [a[j]];
    }
    IndexOfFirst(s, [c], |a|);
    assert s[..|a|] == a;
    assert s[|a| + 1..] == b;
  }

  // ---------------------------------------------------------------- numbers

  function DigitChar(d: nat): (c: char)
    requires d < 10
    ensures IsDigit(c)
  {
    "0123456789"[d]
  }

  function DigitValue(c: char): (d: nat)
    requires IsDigit(c)
    ensures d < 10 && DigitChar(d) == c
  {
    (c as int - '0' as int) as nat
  }

  /** Decimal rendering of a natural number (`str(n)`, `n.toString()`). */
  function NatToString(n: nat): (r: string)
    ensures |r| >= 1 && AllDigits(r)
    ensures |r| > 1 ==> r[0] != '0'
  {
    if n < 10 then [DigitChar(n)] else NatToString(n / 10) + [DigitChar(n % 10)]
  }

  /** Decimal parsing of a digit string (`int(s)` on digits; leading zeros allowed). */
  function ParseNat(s: string): nat
    requires AllDigits(s)
  {
    if s == [] then 0 else ParseNat(s[..|s| - 1]) * 10 + DigitValue(s[|s| - 1])
  }

  /** Parsing undoes rendering. */
  lemma {:induction false} ParseNatToString(n: nat)
    ensures ParseNat(NatToString(n)) == n
  {
    if n >= 10 {
      var p := NatToString(n / 10);
      var d := DigitChar(n % 10);
      var s := p + [d];
      assert s[..|s| - 1] == p && s[|s| - 1] == d;
      ParseNatToString(n / 10);
      DigitRoundTrip(n % 10);
      assert ParseNat(s) == ParseNat(p) * 10 + DigitValue(d);
    } else {
      DigitRoundTrip(n);
    }
  }

  lemma DigitRoundTrip(d: nat)
    requires d < 10
    ensures DigitValue(DigitChar(d)) == d
  {
  }

  /** Rendering is injective, because parsing undoes it. */
  lemma NatToStringInjective(a: nat, b: nat)
    requires NatToString(a) == NatToString(b)
    ensures a == b
  {
    ParseNatToString(a);
    ParseNatToString(b);
  }

  /** `str(i)` for a Python `int`. */
  function IntToString(i: int): string {
    if i < 0 then "-" + NatToString(-i) else NatToString(i)
  }

  /** `s.padStart(width, pad)`: left-pads with `pad` up to `width` characters, never truncates. */
  function PadStart(s: string, width: nat, pad: char): (r: string)
    ensures |r| == if |s| >= width then |s| else width
    ensures EndsWith(r, s)
    ensures forall i :: 0 <= i < |r| - |s| ==> r[i] == pad
  {
    if |s| >= width then s else seq(width - |s|, _ => pad) + s
  }

  /** Leading zeros do not change a parsed number. */
  lemma {:induction false} ParseNatLeadingZeros(z: nat, s: string)
    requires AllDigits(s)
    ensures AllDigits(seq(z, _ => '0') + s)
    ensures ParseNat(seq(z, _ => '0') + s) == ParseNat(s)
    decreases |s|
  {
    var t := seq(z, _ => '0') + s;
    if s == [] {
      assert t == seq(z, _ => '0');
      ZerosParseToZero(z);
    } else {
      assert t[..|t| - 1] == seq(z, _ => '0') + s[..|s| - 1];
      ParseNatLeadingZeros(z, s[..|s| - 1]);
    }
  }

  lemma {:induction false} ZerosParseToZero(z: nat)
    ensures AllDigits(seq(z, _ => '0'))
    ensures ParseNat(seq(z, _ => '0')) == 0
  {
    if z > 0 {
      assert seq(z, _ => '0')[..z - 1] == seq(z - 1, _ => '0');
      ZerosParseToZero(z - 1);
    }
  }

  // ---------------------------------------------------------------- case mapping

  /** `str.lower()` on ASCII letters; every other character is left as it is. */
  function AsciiLower(s: string): (r: string)
    ensures |r| == |s|
    ensures forall i :: 0 <= i < |s| ==> r[i] == (if 'A' <= s[i] <= 'Z' then (s[i] as int + 32) as char else s[i])
  {
    seq(|s|, i requires 0 <= i < |s| => if 'A' <= s[i] <= 'Z' then (s[i] as int + 32) as char else s[i])
  }
}
