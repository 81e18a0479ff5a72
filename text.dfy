/**
 * The span and string operations the colour converter relies on: trimming,
 * searching, ASCII lower-casing, splitting an argument list into tokens and
 * ordinal replacement. Strings are sequences of `char`, each a Unicode scalar value.
 */
module Text {

  /** char.IsWhiteSpace: the C0 controls TAB..CR, SPACE, NEL, NO-BREAK SPACE and the Unicode separators. */
  predicate IsWhiteSpace(c: char) {
    ('\t' <= c <= '\r') || c == ' ' || c == '\U{85}' || c == '\U{A0}' || c == '\U{1680}'
    || ('\U{2000}' <= c <= '\U{200A}') || c == '\U{2028}' || c == '\U{2029}'
    || c == '\U{202F}' || c == '\U{205F}' || c == '\U{3000}'
  }

  /** Removes leading white space: what remains is a suffix of `s`, every removed character is white space. */
  function TrimStart(s: string): (r: string)
    ensures |r| <= |s| && r == s[|s| - |r|..]
    ensures forall i :: 0 <= i < |s| - |r| ==> IsWhiteSpace(s[i])
    ensures r != [] ==> !IsWhiteSpace(r[0])
  {
    if |s| > 0 && IsWhiteSpace(s[0]) then TrimStart(s[1..]) else s
  }

  /** Removes trailing white space: what remains is a prefix of `s`, every removed character is white space. */
  function TrimEnd(s: string): (r: string)
    ensures |r| <= |s| && r == s[..|r|]
    ensures forall i :: |r| <= i < |s| ==> IsWhiteSpace(s[i])
    ensures r != [] ==> !IsWhiteSpace(r[|r| - 1])
  {
    if |s| > 0 && IsWhiteSpace(s[|s| - 1]) then TrimEnd(s[..|s| - 1]) else s
  }

  /** ReadOnlySpan<char>.Trim(): a slice of `s` with white space neither at its start nor at its end. */
  function Trim(s: string): (r: string)
    ensures r != [] ==> !IsWhiteSpace(r[0]) && !IsWhiteSpace(r[|r| - 1])
    ensures |r| <= |s|
  {
    TrimEnd(TrimStart(s))
  }

  /** `r` is the slice s[i..j] and everything of `s` outside it is white space. */
  predicate SliceBetweenWhiteSpace(s: string, r: string, i: int, j: int) {
    && 0 <= i <= j <= |s| && r == s[i..j]
    && (forall k :: 0 <= k < i ==> IsWhiteSpace(s[k]))
    && (forall k :: j <= k < |s| ==> IsWhiteSpace(s[k]))
  }

  /** Trim cuts white space, and only white space, from the two ends: the result is the slice between the cuts. */
  lemma TrimIsSlice(s: string)
    ensures exists i, j :: SliceBetweenWhiteSpace(s, Trim(s), i, j)
  {
    var t := TrimStart(s);
    var r := TrimEnd(t);
    var i := |s| - |t|;
    var j := i + |r|;
    assert SliceBetweenWhiteSpace(s, Trim(s), i, j) by {
      assert r == s[i..j];
      assert forall k :: j <= k < |s| ==> s[k] == t[k - i] && IsWhiteSpace(s[k]);
    }
  }

  /** A string that neither starts nor ends with white space is its own trimmed form. */
  lemma TrimKeeps(s: string)
    requires s != [] ==> !IsWhiteSpace(s[0]) && !IsWhiteSpace(s[|s| - 1])
    ensures Trim(s) == s
  {
  }

  /** Trimming twice trims nothing more. */
  lemma TrimIdempotent(s: string)
    ensures Trim(Trim(s)) == Trim(s)
  {
    TrimKeeps(Trim(s));
  }

  /** span.IndexOf(c): the first position of `c`, or -1 when `c` does not occur. */
  function IndexOf(s: string, c: char): (r: int)
    ensures -1 <= r < |s|
    ensures r >= 0 ==> s[r] == c && c !in s[..r]
    ensures r < 0 ==> c !in s
  {
    if |s| == 0 then -1
    else if s[0] == c then 0
    else
      var k := IndexOf(s[1..], c);
      assert s[1..] == s[..1][1..] + s[1..];
      if k < 0 then -1 else (assert s[..k + 1] == [s[0]] + s[1..][..k]; k + 1)
  }

  /** `pat` occurs in `s` starting at position `k`. */
  predicate OccursAt(s: string, pat: string, k: int) {
    0 <= k && k + |pat| <= |s| && s[k..k + |pat|] == pat
  }

  /** span.IndexOf(value), ordinal: the first position where `pat` occurs, or -1. */
  function IndexOfSeq(s: string, pat: string): (r: int)
    ensures -1 <= r && r + |pat| <= |s| + (if r < 0 then 1 + |pat| else 0)
    ensures r >= 0 ==> OccursAt(s, pat, r)
    ensures r >= 0 ==> forall k :: 0 <= k < r ==> !OccursAt(s, pat, k)
    ensures r < 0 ==> forall k :: !OccursAt(s, pat, k)
    decreases |s|
  {
    if |s| < |pat| then -1
    else if s[..|pat|] == pat then 0
    else
      var k := IndexOfSeq(s[1..], pat);
      OccursShift(s, pat);
      if k < 0 then -1 else k + 1
  }

  /** An occurrence in `s` past its first character is an occurrence in `s[1..]`, one place earlier. */
  lemma OccursShift(s: string, pat: string)
    requires s != []
    ensures forall k :: 1 <= k ==> (OccursAt(s, pat, k) <==> OccursAt(s[1..], pat, k - 1))
  {
    forall k | 1 <= k
      ensures OccursAt(s, pat, k) <==> OccursAt(s[1..], pat, k - 1)
    {
      if k + |pat| <= |s| {
        assert s[k..k + |pat|] == s[1..][k - 1..k - 1 + |pat|];
      }
    }
  }

  /** Two texts in which a pattern occurs at the same positions have the same first occurrence. */
  lemma IndexOfSeqSameOccurrences(a: string, b: string, pat: string)
    requires forall k :: OccursAt(a, pat, k) <==> OccursAt(b, pat, k)
    ensures IndexOfSeq(a, pat) == IndexOfSeq(b, pat)
  {
    var ra, rb := IndexOfSeq(a, pat), IndexOfSeq(b, pat);
    if ra >= 0 {
      assert OccursAt(b, pat, ra);
    }
    if rb >= 0 {
      assert OccursAt(a, pat, rb);
    }
  }

  /** The span comparison `span.IndexOf(pat) == 0` is the ordinal prefix test. */
  lemma IndexOfSeqZero(s: string, pat: string)
    ensures IndexOfSeq(s, pat) == 0 <==> (|pat| <= |s| && s[..|pat|] == pat)
  {
    assert OccursAt(s, pat, 0) <==> (|pat| <= |s| && s[..|pat|] == pat);
  }

  /** A text whose first character differs from the pattern's does not start with the pattern. */
  lemma NotPrefixByFirstChar(s: string, pat: string)
    requires pat != [] && s != [] && s[0] != pat[0]
    ensures IndexOfSeq(s, pat) != 0
  {
    IndexOfSeqZero(s, pat);
  }

  /** TrimEnd(c): removes every trailing occurrence of `c`. */
  function TrimEndChar(s: string, c: char): (r: string)
    ensures |r| <= |s| && r == s[..|r|]
    ensures forall i :: |r| <= i < |s| ==> s[i] == c
    ensures r != [] ==> r[|r| - 1] != c
  {
    if |s| > 0 && s[|s| - 1] == c then TrimEndChar(s[..|s| - 1], c) else s
  }

  /** Trailing copies of `c` added to a text are all removed again. */
  lemma {:induction false} TrimEndCharOfPadding(s: string, n: nat)
    ensures TrimEndChar(s + seq(n, _ => '\0'), '\0') == TrimEndChar(s, '\0')
  {
    var t := s + seq(n, _ => '\0');
    if n == 0 {
      assert t == s;
    } else {
      assert t[|t| - 1] == '\0';
      assert t[..|t| - 1] == s + seq(n - 1, _ => '\0');
      TrimEndCharOfPadding(s, n - 1);
    }
  }

  /** The test a converter token must pass to be read as a percentage: its first '%' is its last character. */
  predicate IsPercentage(token: string) {
    IndexOf(token, '%') == |token| - 1
  }

  /** A non-empty percentage token has exactly one '%', at its end, and TrimEnd('%') removes just that one. */
  lemma PercentageShape(token: string)
    requires token != []
    ensures IsPercentage(token) <==> token[|token| - 1] == '%' && '%' !in token[..|token| - 1]
    ensures IsPercentage(token) ==> TrimEndChar(token, '%') == token[..|token| - 1]
  {
  }

  /** The ASCII lower-case of one character; every other character is kept. */
  function LowerChar(c: char): (r: char)
    ensures 'A' <= c <= 'Z' ==> 'a' <= r <= 'z' && r as int - c as int == 32
    ensures !('A' <= c <= 'Z') ==> r == c
  {
    if 'A' <= c <= 'Z' then (c as int + 32) as char else c
  }

  /** ASCII-only lower-casing of a whole string, position by position. */
  function AsciiLower(s: string): (r: string)
    ensures |r| == |s|
    ensures forall i :: 0 <= i < |s| ==> r[i] == LowerChar(s[i])
  {
    seq(|s|, i requires 0 <= i < |s| => LowerChar(s[i]))
  }

  /** No character of the string is an upper-case ASCII letter. */
  predicate NoAsciiUpper(s: string) {
    forall i :: 0 <= i < |s| ==> !('A' <= s[i] <= 'Z')
  }

  /** ASCII lower-casing leaves no upper-case ASCII letter and changes nothing else. */
  lemma AsciiLowerMeaning(s: string)
    ensures NoAsciiUpper(AsciiLower(s))
    ensures forall i :: 0 <= i < |s| && !('A' <= s[i] <= 'Z') ==> AsciiLower(s)[i] == s[i]
    ensures NoAsciiUpper(s) ==> AsciiLower(s) == s
  {
  }

  /** Lower-casing twice is lower-casing once. */
  lemma AsciiLowerIdempotent(s: string)
    ensures AsciiLower(AsciiLower(s)) == AsciiLower(s)
  {
    AsciiLowerMeaning(AsciiLower(s));
  }

  /** The argument separators ',' and ' ' of the functional notations. */
  predicate IsSeparator(c: char) {
    c == ',' || c == ' '
  }

  /** A token: a non-empty run of characters that are not separators. */
  predicate IsWord(t: string) {
    t != [] && forall i :: 0 <= i < |t| ==> !IsSeparator(t[i])
  }

  /** The length of the run of non-separators at the start of `s`. */
  function RunLength(s: string): (n: nat)
    ensures n <= |s|
    ensures forall i :: 0 <= i < n ==> !IsSeparator(s[i])
    ensures n < |s| ==> IsSeparator(s[n])
  {
    if s == [] || IsSeparator(s[0]) then 0 else 1 + RunLength(s[1..])
  }

  /** The split of an argument list on ',' and ' ' with empty entries dropped, in order. */
  function Tokens(s: string): (r: seq<string>)
    ensures forall i :: 0 <= i < |r| ==> IsWord(r[i])
    decreases |s|
  {
    if s == [] then []
    else if IsSeparator(s[0]) then Tokens(s[1..])
    else
      var n := RunLength(s);
      [s[..n]] + Tokens(s[n..])
  }

  /** A word, having no separator in it, is one token. */
  lemma TokensOfWord(w: string)
    requires IsWord(w)
    ensures Tokens(w) == [w]
  {
    var n := RunLength(w);
    assert n == |w|;
    assert !IsSeparator(w[0]);
    assert w[..n] == w && w[n..] == [];
    assert Tokens(w[n..]) == [];
  }

  /** A separator splits: the tokens of the text around it are those of the part before, then those of the part after. */
  lemma {:induction false} TokensSplitAtSeparator(a: string, c: char, b: string)
    requires IsSeparator(c)
    ensures Tokens(a + [c] + b) == Tokens(a) + Tokens(b)
    decreases |a|
  {
    var s := a + [c] + b;
    if a == [] {
      assert s[1..] == b;
    } else if IsSeparator(a[0]) {
      assert s[1..] == a[1..] + [c] + b;
      TokensSplitAtSeparator(a[1..], c, b);
    } else {
      var m := RunLength(a);
      var n := RunLength(s);
      assert forall i :: 0 <= i < |a| ==> s[i] == a[i];
      assert s[|a|] == c;
      assert n == m;
      assert s[..n] == a[..m];
      assert s[n..] == a[m..] + [c] + b;
      TokensSplitAtSeparator(a[m..], c, b);
    }
  }

  /** The characters of `s` that are not separators, in order. */
  function WithoutSeparators(s: string): string {
    if s == [] then [] else (if IsSeparator(s[0]) then [] else [s[0]]) + WithoutSeparators(s[1..])
  }

  /** All strings of a sequence, joined. */
  function Concat(ts: seq<string>): string {
    if ts == [] then [] else ts[0] + Concat(ts[1..])
  }

  lemma {:induction false} WithoutSeparatorsAppend(a: string, b: string)
    ensures WithoutSeparators(a + b) == WithoutSeparators(a) + WithoutSeparators(b)
  {
    if a == [] {
      assert a + b == b;
    } else {
      assert (a + b)[1..] == a[1..] + b;
      WithoutSeparatorsAppend(a[1..], b);
    }
  }

  lemma {:induction false} WithoutSeparatorsOfWord(t: string)
    requires forall i :: 0 <= i < |t| ==> !IsSeparator(t[i])
    ensures WithoutSeparators(t) == t
  {
    if t != [] {
      WithoutSeparatorsOfWord(t[1..]);
    }
  }

  /** Splitting loses nothing but separators: the tokens, joined, are the input with its separators removed. */
  lemma {:induction false} TokensCover(s: string)
    ensures Concat(Tokens(s)) == WithoutSeparators(s)
    decreases |s|
  {
    if s == [] {
    } else if IsSeparator(s[0]) {
      TokensCover(s[1..]);
    } else {
      var n := RunLength(s);
      TokensCover(s[n..]);
      assert s == s[..n] + s[n..];
      WithoutSeparatorsAppend(s[..n], s[n..]);
      WithoutSeparatorsOfWord(s[..n]);
      assert ([s[..n]] + Tokens(s[n..]))[1..] == Tokens(s[n..]);
    }
  }

  /** string.Replace(oldValue, newValue), ordinal: every non-overlapping occurrence, left to right. */
  function Replace(s: string, pat: string, rep: string): (r: string)
    requires pat != []
    ensures |pat| == |rep| ==> |r| == |s|
    decreases |s|
  {
    if |s| < |pat| then s
    else if s[..|pat|] == pat then rep + Replace(s[|pat|..], pat, rep)
    else [s[0]] + Replace(s[1..], pat, rep)
  }

  /** Replacing a pattern that does not occur changes nothing. */
  lemma {:induction false} ReplaceAbsent(s: string, pat: string, rep: string)
    requires pat != []
    requires forall k :: !OccursAt(s, pat, k)
    ensures Replace(s, pat, rep) == s
    decreases |s|
  {
    if |s| >= |pat| {
      assert !OccursAt(s, pat, 0);
      OccursShift(s, pat);
      forall k ensures !OccursAt(s[1..], pat, k) {
        assert !OccursAt(s, pat, k + 1);
      }
      ReplaceAbsent(s[1..], pat, rep);
    }
  }

  /** An occurrence in `s[n..]` is an occurrence in `s`, `n` places later. */
  lemma OccursAfterDrop(s: string, pat: string, n: nat, k: nat)
    requires n <= |s|
    ensures OccursAt(s[n..], pat, k) <==> OccursAt(s, pat, k + n)
  {
    if k + n + |pat| <= |s| {
      assert s[n..][k..k + |pat|] == s[k + n..k + n + |pat|];
    }
  }

  /** No proper suffix of `pat` is also a prefix of it, so two occurrences never overlap. */
  predicate Unbordered(pat: string) {
    forall d :: 0 < d < |pat| ==> pat[d..] != pat[..|pat| - d]
  }

  /** Two overlapping occurrences make the overlap both a suffix and a prefix of the pattern. */
  lemma OverlapIsBorder(s: string, pat: string, j: int, k: int)
    requires OccursAt(s, pat, j) && OccursAt(s, pat, k) && j < k < j + |pat|
    ensures pat[k - j..] == pat[..|pat| - (k - j)]
  {
    assert s[j..j + |pat|][k - j..] == s[k..j + |pat|];
    assert s[k..k + |pat|][..|pat| - (k - j)] == s[k..j + |pat|];
  }

  /** Occurrences of an unbordered pattern are at least its length apart. */
  lemma UnborderedOccurrencesApart(s: string, pat: string, j: int, k: int)
    requires Unbordered(pat) && OccursAt(s, pat, j) && OccursAt(s, pat, k) && j < k
    ensures j + |pat| <= k
  {
    if k < j + |pat| {
      OverlapIsBorder(s, pat, j, k);
    }
  }

  /** No occurrence of `pat` in `s` covers position `i`. */
  predicate Uncovered(s: string, pat: string, i: int) {
    forall k :: OccursAt(s, pat, k) ==> !(k <= i < k + |pat|)
  }

  /** A character no occurrence of the pattern covers is kept by a same-length replacement. */
  lemma {:induction false} ReplaceKeepsUncovered(s: string, pat: string, rep: string, i: int)
    requires pat != [] && |pat| == |rep| && 0 <= i < |s| && Uncovered(s, pat, i)
    ensures Replace(s, pat, rep)[i] == s[i]
    decreases |s|
  {
    if |s| < |pat| {
    } else if s[..|pat|] == pat {
      assert OccursAt(s, pat, 0);
      var t := s[|pat|..];
      forall k | OccursAt(t, pat, k)
        ensures !(k <= i - |pat| < k + |pat|)
      {
        OccursAfterDrop(s, pat, |pat|, k);
      }
      ReplaceKeepsUncovered(t, pat, rep, i - |pat|);
      assert Replace(s, pat, rep) == rep + Replace(t, pat, rep);
    } else if i > 0 {
      var t := s[1..];
      forall k | OccursAt(t, pat, k)
        ensures !(k <= i - 1 < k + |pat|)
      {
        OccursAfterDrop(s, pat, 1, k);
      }
      ReplaceKeepsUncovered(t, pat, rep, i - 1);
      assert Replace(s, pat, rep) == [s[0]] + Replace(t, pat, rep);
    }
  }

  /** Dropping `n` characters moves a stretch free of occurrences `n` places earlier. */
  lemma NoOccurrenceAfterDrop(s: string, pat: string, n: nat, k: int)
    requires n <= |s|
    requires forall j :: k - |pat| < j < k ==> !OccursAt(s, pat, j)
    ensures forall j :: k - n - |pat| < j < k - n ==> !OccursAt(s[n..], pat, j)
  {
    forall j | k - n - |pat| < j < k - n
      ensures !OccursAt(s[n..], pat, j)
    {
      if 0 <= j {
        OccursAfterDrop(s, pat, n, j);
      }
    }
  }

  /** An occurrence that no earlier occurrence overlaps is replaced. */
  lemma {:induction false} ReplaceAtOccurrence(s: string, pat: string, rep: string, k: int)
    requires pat != [] && |pat| == |rep| && OccursAt(s, pat, k)
    requires forall j :: k - |pat| < j < k ==> !OccursAt(s, pat, j)
    ensures Replace(s, pat, rep)[k..k + |pat|] == rep
    decreases |s|
  {
    var hit := s[..|pat|] == pat;
    var n := if hit then |pat| else 1;
    var t := s[n..];
    var r := Replace(t, pat, rep);
    var head := if hit then rep else [s[0]];
    assert Replace(s, pat, rep) == head + r;
    if hit && k == 0 {
      assert (rep + r)[..|pat|] == rep;
    } else {
      assert hit ==> OccursAt(s, pat, 0);
      assert n <= k;
      NoOccurrenceAfterDrop(s, pat, n, k);
      OccursAfterDrop(s, pat, n, k - n);
      ReplaceAtOccurrence(t, pat, rep, k - n);
      assert (head + r)[k..k + |pat|] == r[k - n..k - n + |pat|];
    }
  }

  /**
   * What a same-length replacement of an unbordered pattern does: every occurrence
   * becomes the replacement and every character outside the occurrences is kept.
   */
  lemma ReplaceMeaning(s: string, pat: string, rep: string)
    requires pat != [] && |pat| == |rep| && Unbordered(pat)
    ensures |Replace(s, pat, rep)| == |s|
    ensures forall k :: OccursAt(s, pat, k) ==> Replace(s, pat, rep)[k..k + |pat|] == rep
    ensures forall i :: 0 <= i < |s| && Uncovered(s, pat, i) ==> Replace(s, pat, rep)[i] == s[i]
  {
    forall k | OccursAt(s, pat, k)
      ensures Replace(s, pat, rep)[k..k + |pat|] == rep
    {
      forall j | k - |pat| < j < k
        ensures !OccursAt(s, pat, j)
      {
        if OccursAt(s, pat, j) {
          UnborderedOccurrencesApart(s, pat, j, k);
        }
      }
      ReplaceAtOccurrence(s, pat, rep, k);
    }
    forall i | 0 <= i < |s| && Uncovered(s, pat, i)
      ensures Replace(s, pat, rep)[i] == s[i]
    {
      ReplaceKeepsUncovered(s, pat, rep, i);
    }
  }

  /** When pattern and replacement share their first character, replacing keeps the first character. */
  lemma ReplaceKeepsHead(s: string, pat: string, rep: string)
    requires pat != [] && rep != [] && pat[0] == rep[0]
    ensures var r := Replace(s, pat, rep); (r != []) == (s != []) && (s != [] ==> r[0] == s[0])
  {
  }
}
