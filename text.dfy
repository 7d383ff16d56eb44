/** Character classes, searching and length measures shared by the scanners.
    Strings are sequences of Unicode scalar values; the JavaScript string
    length the header cap is measured in counts UTF-16 code units, which
    `Units` models. */
module Text {

  datatype Option<T> = None | Some(value: T)

  /** JavaScript's `\s`: the WhiteSpace and LineTerminator code points. */
  predicate IsSpace(c: char)
  {
    || c == '\t' || c == '\n' || c == '\U{000B}' || c == '\U{000C}' || c == '\r'
    || c == ' ' || c == '\U{00A0}' || c == '\U{1680}'
    || ('\U{2000}' <= c <= '\U{200A}')
    || c == '\U{2028}' || c == '\U{2029}' || c == '\U{202F}' || c == '\U{205F}'
    || c == '\U{3000}' || c == '\U{FEFF}'
  }

  /** A character of `\w` (no Unicode flag): the ones `\b` looks at. */
  predicate IsWordChar(c: char)
  {
    ('a' <= c <= 'z') || ('A' <= c <= 'Z') || ('0' <= c <= '9') || c == '_'
  }

  /** Case folding of a regular expression with the `i` flag and without
      the `u` flag, restricted to what the patterns here need: only the
      ASCII letters fold onto the ASCII letters of the attribute names. */
  function Lower(c: char): (r: char)
    ensures ('A' <= c <= 'Z') ==> r as int == c as int + 32
    ensures !('A' <= c <= 'Z') ==> r == c
  {
    if 'A' <= c <= 'Z' then (c as int + 32) as char else c
  }

  /** `s` holds `word` at position `p`, compared case-insensitively
      (`word` itself is written in lower case). */
  predicate MatchesAt(s: string, p: nat, word: string)
  {
    p + |word| <= |s| && forall k :: 0 <= k < |word| ==> Lower(s[p + k]) == word[k]
  }

  lemma MatchesAtFirst(s: string, p: nat, word: string)
    requires MatchesAt(s, p, word) && word != []
    ensures Lower(s[p]) == word[0]
  {
    assert Lower(s[p + 0]) == word[0];
  }

  /** A match of `word` is a match of its first `n` letters followed by a
      match of the rest. */
  lemma MatchesAtSplit(s: string, p: nat, word: string, n: nat)
    requires MatchesAt(s, p, word) && n <= |word|
    ensures MatchesAt(s, p, word[..n]) && MatchesAt(s, p + n, word[n..])
  {
  }

  /** A lower-case word matches where it is written. */
  lemma MatchesAfter(pre: string, word: string)
    requires forall k :: 0 <= k < |word| ==> !('A' <= word[k] <= 'Z')
    ensures MatchesAt(pre + word, |pre|, word)
  {
    var s := pre + word;
    forall k | 0 <= k < |word|
      ensures Lower(s[|pre| + k]) == word[k]
    {
      assert s[|pre| + k] == word[k];
    }
  }

  /** A word does not match where its first letter does not. */
  lemma FirstMismatch(s: string, p: nat, word: string)
    requires word != [] && (p >= |s| || Lower(s[p]) != word[0])
    ensures !MatchesAt(s, p, word)
  {
    if MatchesAt(s, p, word) {
      MatchesAtFirst(s, p, word);
    }
  }

  /** The position of the first `c` at or after `from`, or `|s|` when there
      is none. */
  function IndexOf(s: string, c: char, from: nat): (r: nat)
    requires from <= |s|
    ensures from <= r <= |s|
    ensures r < |s| ==> s[r] == c
    ensures forall k :: from <= k < r ==> s[k] != c
    decreases |s| - from
  {
    if from == |s| then |s|
    else if s[from] == c then from
    else IndexOf(s, c, from + 1)
  }

  /** `IndexOf` finds the first occurrence. */
  lemma {:induction false} IndexOfFirst(s: string, c: char, from: nat, k: nat)
    requires from <= k < |s| && s[k] == c
    requires forall j :: from <= j < k ==> s[j] != c
    ensures IndexOf(s, c, from) == k
    decreases k - from
  {
    if from < k {
      IndexOfFirst(s, c, from + 1, k);
    }
  }

  /** Length of `s` in UTF-16 code units: a code point outside the Basic
      Multilingual Plane is a surrogate pair. */
  function Units(s: string): nat
  {
    if s == [] then 0
    else (if s[0] as int >= 0x10000 then 2 else 1) + Units(s[1..])
  }

  lemma {:induction false} UnitsAppend(a: string, b: string)
    ensures Units(a + b) == Units(a) + Units(b)
  {
    if a == [] {
      assert a + b == b;
    } else {
      assert (a + b)[1..] == a[1..] + b;
      UnitsAppend(a[1..], b);
    }
  }

  lemma {:induction false} UnitsAtLeastLength(s: string)
    ensures Units(s) >= |s|
    ensures s != [] ==> Units(s) > 0
  {
    if s != [] {
      UnitsAtLeastLength(s[1..]);
    }
  }

  /** A string of Basic Multilingual Plane characters only, such as any
      ASCII text, is as long in code units as in characters. */
  lemma {:induction false} UnitsOfBmp(s: string)
    requires forall k :: 0 <= k < |s| ==> (s[k] as int) < 0x10000
    ensures Units(s) == |s|
  {
    if s != [] {
      assert forall k :: 0 <= k < |s[1..]| ==> s[1..][k] == s[k + 1];
      UnitsOfBmp(s[1..]);
    }
  }
}
