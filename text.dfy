/**
 * The string operations of Python and C# that the three tools rely on, written
 * out over `seq<char>`: whitespace stripping, prefix tests, character and
 * substring search, splitting on a separator and Python's slicing rules.
 */
module Text {

  /**
   * The ASCII code points Python's `str.isspace` accepts, which `str.strip()`
   * removes: tab, line feed, vertical tab, form feed, carriage return, the four
   * information separators and space.
   */
  predicate IsWhitespace(c: char) {
    ('\U{0009}' <= c <= '\U{000D}') || ('\U{001C}' <= c <= ' ')
  }

  predicate StartsWith(s: string, prefix: string) {
    |prefix| <= |s| && s[..|prefix|] == prefix
  }

  predicate EndsWith(s: string, suffix: string) {
    |suffix| <= |s| && s[|s| - |suffix|..] == suffix
  }

  // ---------------------------------------------------------------------------
  // Stripping (Python's str.strip())

  /** The first position at or after `k` that does not hold whitespace, or `|s|`. */
  function SkipWhitespace(s: string, k: nat): (r: nat)
    requires k <= |s|
    ensures k <= r <= |s|
    decreases |s| - k
  {
    if k == |s| || !IsWhitespace(s[k]) then k else SkipWhitespace(s, k + 1)
  }

  /** Everything `SkipWhitespace` skips is whitespace, and it stops at a non-whitespace character or the end. */
  lemma {:induction false} SkipWhitespaceMeans(s: string, k: nat)
    requires k <= |s|
    ensures var r := SkipWhitespace(s, k);
            (forall i :: k <= i < r ==> IsWhitespace(s[i])) && (r < |s| ==> !IsWhitespace(s[r]))
    decreases |s| - k
  {
    if k < |s| && IsWhitespace(s[k]) {
      SkipWhitespaceMeans(s, k + 1);
    }
  }

  /** The position just after the last non-whitespace character before `k`, or 0. */
  function TrimEnd(s: string, k: nat): (r: nat)
    requires k <= |s|
    ensures r <= k
  {
    if k == 0 || !IsWhitespace(s[k - 1]) then k else TrimEnd(s, k - 1)
  }

  /** Everything `TrimEnd` drops is whitespace, and what it keeps ends in a non-whitespace character. */
  lemma {:induction false} TrimEndMeans(s: string, k: nat)
    requires k <= |s|
    ensures var r := TrimEnd(s, k);
            (forall i :: r <= i < k ==> IsWhitespace(s[i])) && (r > 0 ==> !IsWhitespace(s[r - 1]))
  {
    if k > 0 && IsWhitespace(s[k - 1]) {
      TrimEndMeans(s, k - 1);
    }
  }

  /** The number of leading whitespace characters `Strip` removes. */
  function StripStart(s: string): (k: nat)
    ensures k <= |s|
  {
    SkipWhitespace(s, 0)
  }

  /**
   * Python's `s.strip()`: the slice of `s` left after dropping whitespace at both
   * ends; what was dropped is whitespace and the result neither begins nor ends
   * with whitespace.
   */
  function Strip(s: string): string
  {
    var start, end := StripStart(s), TrimEnd(s, |s|);
    if start < end then s[start..end] else []
  }

  /**
   * What `Strip` keeps is a slice of `s`, what it drops is whitespace, and the
   * result neither begins nor ends with whitespace.
   */
  lemma StripMeans(s: string)
    ensures var r := Strip(s);
            StripStart(s) + |r| <= |s| && r == s[StripStart(s)..StripStart(s) + |r|]
            && (forall i :: 0 <= i < StripStart(s) ==> IsWhitespace(s[i]))
            && (forall i :: StripStart(s) + |r| <= i < |s| ==> IsWhitespace(s[i]))
            && (r == [] || (!IsWhitespace(r[0]) && !IsWhitespace(r[|r| - 1])))
  {
    SkipWhitespaceMeans(s, 0);
    TrimEndMeans(s, |s|);
  }

  /** A character that is not whitespace survives stripping wherever it stood. */
  lemma StripKeeps(s: string, c: char)
    requires !IsWhitespace(c)
    ensures c in Strip(s) <==> c in s
  {
    StripMeans(s);
    var k, r := StripStart(s), Strip(s);
    if c in s {
      var i :| 0 <= i < |s| && s[i] == c;
      assert k <= i < k + |r|;
      assert r[i - k] == c;
    }
  }

  /** Stripping is idempotent. */
  lemma StripIdempotent(s: string)
    ensures Strip(Strip(s)) == Strip(s)
  {
    StripMeans(s);
    StripOfStripped(Strip(s));
  }

  /** A string with no whitespace at either end is its own strip. */
  lemma StripOfStripped(s: string)
    requires s == [] || (!IsWhitespace(s[0]) && !IsWhitespace(s[|s| - 1]))
    ensures Strip(s) == s
  {
    if s != [] {
      assert StripStart(s) == 0;
      assert TrimEnd(s, |s|) == |s|;
      assert s[0..|s|] == s;
    }
  }

  // ---------------------------------------------------------------------------
  // Searching

  /** C#/Python `IndexOf`/`find` for one character: the first position, or -1. */
  function IndexOf(s: string, c: char): (r: int)
    ensures -1 <= r < |s|
    ensures r == -1 ==> forall j :: 0 <= j < |s| ==> s[j] != c
    ensures r >= 0 ==> s[r] == c && forall j :: 0 <= j < r ==> s[j] != c
  {
    IndexFrom(s, c, 0)
  }

  /** The first position at or after `from` holding `c`, or -1. */
  function IndexFrom(s: string, c: char, from: nat): (r: int)
    requires from <= |s|
    ensures r == -1 || from <= r < |s|
    ensures r == -1 ==> forall j :: from <= j < |s| ==> s[j] != c
    ensures r >= 0 ==> s[r] == c && forall j :: from <= j < r ==> s[j] != c
    decreases |s| - from
  {
    if from == |s| then -1
    else if s[from] == c then from
    else IndexFrom(s, c, from + 1)
  }

  /** C# `LastIndexOf` for one character: the last position, or -1. */
  function LastIndexOf(s: string, c: char): (r: int)
    ensures -1 <= r < |s|
    ensures r == -1 ==> forall j :: 0 <= j < |s| ==> s[j] != c
    ensures r >= 0 ==> s[r] == c && forall j :: r < j < |s| ==> s[j] != c
  {
    if |s| == 0 then -1
    else if s[|s| - 1] == c then |s| - 1
    else LastIndexOf(s[..|s| - 1], c)
  }

  /** `IndexOf` finds a character exactly when the string holds it. */
  lemma IndexOfFinds(s: string, c: char)
    ensures IndexOf(s, c) >= 0 <==> c in s
  {
  }

  /** `sub` stands in `s` at position `i`. */
  predicate OccursAt(s: string, sub: string, i: nat) {
    i + |sub| <= |s| && s[i..i + |sub|] == sub
  }

  /** The first position at or after `from` where `sub` stands in `s`, or -1. */
  function FindFrom(s: string, sub: string, from: nat): (r: int)
    requires from <= |s|
    ensures r == -1 || (from <= r <= |s| && OccursAt(s, sub, r))
    ensures r == -1 ==> forall j :: from <= j <= |s| ==> !OccursAt(s, sub, j)
    ensures r >= 0 ==> forall j :: from <= j < r ==> !OccursAt(s, sub, j)
    decreases |s| - from
  {
    if OccursAt(s, sub, from) then from
    else if from == |s| then -1
    else FindFrom(s, sub, from + 1)
  }

  /** Python's `s.find(sub)`: the first position of `sub` in `s`, or -1. */
  function Find(s: string, sub: string): (r: int)
    ensures r == -1 || (0 <= r <= |s| && OccursAt(s, sub, r))
    ensures r == -1 <==> forall j :: 0 <= j <= |s| ==> !OccursAt(s, sub, j)
    ensures r >= 0 ==> forall j :: 0 <= j < r ==> !OccursAt(s, sub, j)
  {
    FindFrom(s, sub, 0)
  }

  /** Python's `sub in s`: `sub` stands in `s` somewhere. */
  predicate Contains(s: string, sub: string) {
    exists j :: 0 <= j <= |s| && OccursAt(s, sub, j)
  }

  /** `sub in s` holds exactly when `s.find(sub)` succeeds. */
  lemma ContainsFind(s: string, sub: string)
    ensures Contains(s, sub) <==> Find(s, sub) >= 0
  {
    if Find(s, sub) >= 0 {
      assert OccursAt(s, sub, Find(s, sub));
    }
  }

  /** Every string contains itself. */
  lemma ContainsSelf(s: string)
    ensures Contains(s, s)
  {
    assert OccursAt(s, s, 0);
  }

  /** A string cannot contain a marker that has a character the string lacks. */
  lemma NotContainsByChar(s: string, sub: string, c: char)
    requires c in sub && c !in s
    ensures !Contains(s, sub)
  {
    forall j | 0 <= j <= |s|
      ensures !OccursAt(s, sub, j)
    {
      if j + |sub| <= |s| {
        assert forall x :: x in s[j..j + |sub|] ==> x in s;
      }
    }
  }

  // ---------------------------------------------------------------------------
  // Splitting on one separator (C# `Split(',')`, Python `split('=')`)

  /**
   * The pieces between the occurrences of `sep`, empty pieces kept; there is
   * always at least one piece.
   */
  function Split(s: string, sep: char): (r: seq<string>)
    ensures |r| >= 1
  {
    SplitFrom(s, sep, 0)
  }

  /** The pieces of `s[from..]`, found without re-slicing `s`. */
  function SplitFrom(s: string, sep: char, from: nat): (r: seq<string>)
    requires from <= |s|
    ensures |r| >= 1
    decreases |s| - from
  {
    var i := IndexFrom(s, sep, from);
    if i < 0 then [s[from..]] else [s[from..i]] + SplitFrom(s, sep, i + 1)
  }

  /** No piece holds the separator. */
  lemma SplitPieces(s: string, sep: char)
    ensures forall i :: 0 <= i < |Split(s, sep)| ==> sep !in Split(s, sep)[i]
  {
    SplitFromPieces(s, sep, 0);
  }

  lemma {:induction false} SplitFromPieces(s: string, sep: char, from: nat)
    requires from <= |s|
    ensures forall k :: 0 <= k < |SplitFrom(s, sep, from)| ==> sep !in SplitFrom(s, sep, from)[k]
    decreases |s| - from
  {
    var i := IndexFrom(s, sep, from);
    var parts := SplitFrom(s, sep, from);
    if i < 0 {
      assert parts == [s[from..]];
      assert forall j :: 0 <= j < |s| - from ==> s[from..][j] == s[from + j];
    } else {
      var tail := SplitFrom(s, sep, i + 1);
      SplitFromPieces(s, sep, i + 1);
      assert parts == [s[from..i]] + tail;
      assert forall j :: 0 <= j < i - from ==> s[from..i][j] == s[from + j];
      forall k | 0 < k < |parts| ensures sep !in parts[k] {
        assert parts[k] == tail[k - 1];
      }
    }
  }

  /** The pieces joined back together with the separator between them. */
  function Join(parts: seq<string>, sep: char): string
    decreases |parts|
  {
    if |parts| <= 1 then (if parts == [] then [] else parts[0])
    else parts[0] + [sep] + Join(parts[1..], sep)
  }

  /** Joining the pieces of `s[from..]` gives `s[from..]` back. */
  lemma {:induction false} JoinSplitFrom(s: string, sep: char, from: nat)
    requires from <= |s|
    ensures Join(SplitFrom(s, sep, from), sep) == s[from..]
    decreases |s| - from
  {
    var i := IndexFrom(s, sep, from);
    if i < 0 {
      assert SplitFrom(s, sep, from) == [s[from..]];
    } else {
      var head, tail := s[from..i], SplitFrom(s, sep, i + 1);
      assert SplitFrom(s, sep, from) == [head] + tail;
      JoinSplitFrom(s, sep, i + 1);
      JoinCons(head, tail, sep);
      SliceAround(s, from, i);
      assert s[i] == sep;
    }
  }

  /** Joining a first piece in front of more pieces puts the separator between them. */
  lemma JoinCons(head: string, tail: seq<string>, sep: char)
    requires tail != []
    ensures Join([head] + tail, sep) == head + [sep] + Join(tail, sep)
  {
    assert ([head] + tail)[1..] == tail;
  }

  /** Cutting `s[from..]` around position `i`. */
  lemma SliceAround(s: string, from: nat, i: nat)
    requires from <= i < |s|
    ensures s[from..] == s[from..i] + [s[i]] + s[i + 1..]
  {
    assert s[from..] == s[from..i] + s[i..];
    assert s[i..] == [s[i]] + s[i + 1..];
  }

  /** Splitting loses nothing: joining the pieces with the separator gives the string back. */
  lemma JoinSplit(s: string, sep: char)
    ensures Join(Split(s, sep), sep) == s
  {
    JoinSplitFrom(s, sep, 0);
    assert s[0..] == s;
  }

  /** The first piece is the text before the first separator (all of `s` without one). */
  lemma SplitFirst(s: string, sep: char)
    ensures IndexOf(s, sep) < 0 ==> Split(s, sep) == [s]
    ensures IndexOf(s, sep) >= 0 ==> Split(s, sep)[0] == s[..IndexOf(s, sep)] && |Split(s, sep)| >= 2
  {
    assert s[0..] == s;
  }

  /** The second piece is the text between the first and the next separator (or the end). */
  lemma SplitSecond(s: string, sep: char)
    requires IndexOf(s, sep) >= 0
    ensures var i := IndexOf(s, sep);
            var j := IndexFrom(s, sep, i + 1);
            Split(s, sep)[1] == if j >= 0 then s[i + 1..j] else s[i + 1..]
  {
    var i := IndexOf(s, sep);
    var tail := SplitFrom(s, sep, i + 1);
    assert Split(s, sep) == [s[0..i]] + tail;
    assert Split(s, sep)[1] == tail[0];
  }

  /**
   * The last piece is the text after the last separator: when `s[k..]` holds
   * no separator and `k` is the start or just after a separator, the last
   * piece is `s[k..]`.
   */
  lemma {:induction false} SplitFromLast(s: string, sep: char, from: nat, k: nat)
    requires from <= k <= |s|
    requires forall j :: k <= j < |s| ==> s[j] != sep
    requires k == from || s[k - 1] == sep
    ensures var parts := SplitFrom(s, sep, from);
            parts[|parts| - 1] == s[k..]
    decreases |s| - from
  {
    var i := IndexFrom(s, sep, from);
    if i >= 0 {
      SplitFromLast(s, sep, i + 1, k);
    }
  }

  /** The last piece of `dir + [sep] + base` is `base` when `base` has no separator. */
  lemma SplitLastOf(dir: string, sep: char, base: string)
    requires sep !in base
    ensures var parts := Split(dir + [sep] + base, sep);
            parts[|parts| - 1] == base
  {
    var s := dir + [sep] + base;
    var k := |dir| + 1;
    assert s[k..] == base;
    assert forall j :: k <= j < |s| ==> s[j] == base[j - k];
    SplitFromLast(s, sep, 0, k);
  }

  // ---------------------------------------------------------------------------
  // Python slicing

  /** Python's `s[k:]`, where a negative `k` counts from the end and both clamp. */
  function PySliceFrom(s: string, k: int): (r: string)
    ensures k >= 0 ==> r == s[(if k <= |s| then k else |s|)..]
    ensures k < 0 ==> r == s[(if |s| + k >= 0 then |s| + k else 0)..]
  {
    if k >= 0 then (if k <= |s| then s[k..] else [])
    else if |s| + k >= 0 then s[|s| + k..] else s
  }

  /** Python's `s[:-n]` for `n > 0`: `s` without its last `n` characters, empty if shorter. */
  function PyDropLast(s: string, n: nat): string
    requires n > 0
  {
    if |s| >= n then s[..|s| - n] else []
  }

  // ---------------------------------------------------------------------------
  // Whitespace-separated words (Python's `s.split()` with no argument)

  /** The first position at or after `k` that holds whitespace, or `|s|`. */
  function WordEnd(s: string, k: nat): (r: nat)
    requires k <= |s|
    ensures k <= r <= |s|
    ensures k < |s| && !IsWhitespace(s[k]) ==> k < r
    decreases |s| - k
  {
    if k == |s| || IsWhitespace(s[k]) then k else WordEnd(s, k + 1)
  }

  /** What `WordEnd` passes over holds no whitespace, and it stops at whitespace or the end. */
  lemma {:induction false} WordEndMeans(s: string, k: nat)
    requires k <= |s|
    ensures var r := WordEnd(s, k);
            (forall i :: k <= i < r ==> !IsWhitespace(s[i])) && (r < |s| ==> IsWhitespace(s[r]))
    decreases |s| - k
  {
    if k < |s| && !IsWhitespace(s[k]) {
      WordEndMeans(s, k + 1);
    }
  }

  /** A run `[k, e)` without whitespace, followed by whitespace or the end, ends at `e`. */
  lemma {:induction false} WordEndAt(s: string, k: nat, e: nat)
    requires k <= e <= |s|
    requires forall i :: k <= i < e ==> !IsWhitespace(s[i])
    requires e == |s| || IsWhitespace(s[e])
    ensures WordEnd(s, k) == e
    decreases e - k
  {
    if k < e {
      WordEndAt(s, k + 1, e);
    }
  }

  /** A non-empty run of non-whitespace characters. */
  predicate IsWord(w: string) {
    w != [] && forall j :: 0 <= j < |w| ==> !IsWhitespace(w[j])
  }

  /** The words of `s[k..]`: skip whitespace, take the run up to the next whitespace, repeat. */
  function WordsFrom(s: string, k: nat): seq<string>
    requires k <= |s|
    decreases |s| - k
  {
    SkipWhitespaceMeans(s, k);
    var start := SkipWhitespace(s, k);
    if start == |s| then []
    else
      var end := WordEnd(s, start);
      [s[start..end]] + WordsFrom(s, end)
  }

  /** Python's `s.split()`: the maximal runs of non-whitespace characters, in order. */
  function Words(s: string): seq<string> {
    WordsFrom(s, 0)
  }

  /** Every piece `Words` returns is a word. */
  lemma {:induction false} WordsFromAreWords(s: string, k: nat)
    requires k <= |s|
    ensures forall j :: 0 <= j < |WordsFrom(s, k)| ==> IsWord(WordsFrom(s, k)[j])
    decreases |s| - k
  {
    var words := WordsFrom(s, k);
    var start := SkipWhitespace(s, k);
    if start < |s| {
      SkipWhitespaceMeans(s, k);
      var end := WordEnd(s, start);
      WordEndMeans(s, start);
      WordsFromAreWords(s, end);
      var tail := WordsFrom(s, end);
      assert words == [s[start..end]] + tail;
      assert IsWord(s[start..end]) by {
        assert forall i :: 0 <= i < end - start ==> s[start..end][i] == s[start + i];
      }
      forall j | 0 < j < |words| ensures IsWord(words[j]) {
        assert words[j] == tail[j - 1];
      }
    }
  }

  /** A word starting at `k` and ending at `e` (the end, or whitespace) comes first in `WordsFrom(s, k)`. */
  lemma WordsFromWord(s: string, k: nat, e: nat)
    requires k < e <= |s|
    requires forall i :: k <= i < e ==> !IsWhitespace(s[i])
    requires e == |s| || IsWhitespace(s[e])
    ensures WordsFrom(s, k) == [s[k..e]] + WordsFrom(s, e)
  {
    assert SkipWhitespace(s, k) == k;
    WordEndAt(s, k, e);
  }

  /** Skipping whitespace in `p + s` past `p` is skipping it in `s`, shifted by `|p|`. */
  lemma {:induction false} SkipWhitespaceAfter(p: string, s: string, k: nat)
    requires k <= |s|
    ensures SkipWhitespace(p + s, |p| + k) == |p| + SkipWhitespace(s, k)
    decreases |s| - k
  {
    if k < |s| {
      assert (p + s)[|p| + k] == s[k];
      if IsWhitespace(s[k]) {
        SkipWhitespaceAfter(p, s, k + 1);
      }
    }
  }

  /** Finding the end of a word in `p + s` past `p` is finding it in `s`, shifted by `|p|`. */
  lemma {:induction false} WordEndAfter(p: string, s: string, k: nat)
    requires k <= |s|
    ensures WordEnd(p + s, |p| + k) == |p| + WordEnd(s, k)
    decreases |s| - k
  {
    if k < |s| {
      assert (p + s)[|p| + k] == s[k];
      if !IsWhitespace(s[k]) {
        WordEndAfter(p, s, k + 1);
      }
    }
  }

  /** The words of `p + s` after `p` are the words of `s`. */
  lemma {:induction false} WordsFromAfter(p: string, s: string, k: nat)
    requires k <= |s|
    ensures WordsFrom(p + s, |p| + k) == WordsFrom(s, k)
    decreases |s| - k
  {
    var t := p + s;
    var start := SkipWhitespace(s, k);
    SkipWhitespaceAfter(p, s, k);
    if start < |s| {
      var end := WordEnd(s, start);
      WordEndAfter(p, s, start);
      WordsFromAfter(p, s, end);
      SliceAfter(p, s, start, end);
      WordsFromStep(t, |p| + k, |p| + start, |p| + end);
      WordsFromStep(s, k, start, end);
    } else {
      WordsFromNone(t, |p| + k);
      WordsFromNone(s, k);
    }
  }

  /** One step of `WordsFrom` when a word is left. */
  lemma WordsFromStep(s: string, k: nat, start: nat, end: nat)
    requires k <= |s|
    requires start == SkipWhitespace(s, k) < |s|
    requires end == WordEnd(s, start)
    ensures WordsFrom(s, k) == [s[start..end]] + WordsFrom(s, end)
  {
  }

  /** No words are left once only whitespace remains. */
  lemma WordsFromNone(s: string, k: nat)
    requires k <= |s|
    requires SkipWhitespace(s, k) == |s|
    ensures WordsFrom(s, k) == []
  {
  }

  /** A slice of `p + s` past `p` is the slice of `s`, shifted by `|p|`. */
  lemma SliceAfter(p: string, s: string, i: nat, j: nat)
    requires i <= j <= |s|
    ensures (p + s)[|p| + i..|p| + j] == s[i..j]
  {
    assert forall n :: 0 <= n < j - i ==> (p + s)[|p| + i..|p| + j][n] == s[i..j][n];
  }

  /** A word followed by nothing or by whitespace is the first of the words. */
  lemma WordsCons(w: string, rest: string)
    requires IsWord(w)
    requires rest == [] || IsWhitespace(rest[0])
    ensures Words(w + rest) == [w] + Words(rest)
  {
    var s := w + rest;
    assert forall i :: 0 <= i < |w| ==> s[i] == w[i];
    assert |w| == |s| || s[|w|] == rest[0];
    WordsFromWord(s, 0, |w|);
    assert s[..|w|] == w;
    WordsFromAfter(w, rest, 0);
  }

  /** Leading whitespace does not change the words. */
  lemma WordsAfterWhitespace(c: char, s: string)
    requires IsWhitespace(c)
    ensures Words([c] + s) == Words(s)
  {
    assert ([c] + s)[0] == c;
    assert SkipWhitespace([c] + s, 0) == SkipWhitespace([c] + s, 1);
    WordsFromAfter([c], s, 0);
  }

  /** In `a + " " + b + rest`, with `rest` empty or starting with whitespace, `b` is the second word. */
  lemma SecondWord(a: string, b: string, rest: string)
    requires IsWord(a) && IsWord(b)
    requires rest == [] || IsWhitespace(rest[0])
    ensures var words := Words(a + (" " + (b + rest)));
            |words| >= 2 && words[1] == b
  {
    var after := " " + (b + rest);
    assert after[0] == ' ';
    WordsCons(a, after);
    WordsAfterWhitespace(' ', b + rest);
    WordsCons(b, rest);
  }
}
