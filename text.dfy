/** The handful of Python string operations the analytics relies on:
    `str.lower`, `str.replace`, the substring test `needle in hay` and the
    ordering `sorted` uses on string keys. */
module Text {

  /** `str.lower` on one character, for the ASCII letters. */
  function LowerChar(c: char): char
  {
    if 'A' <= c <= 'Z' then (c as int + 32) as char else c
  }

  /** `str.lower`, character by character. */
  function Lower(s: string): (r: string)
    ensures |r| == |s|
    ensures forall i :: 0 <= i < |s| ==> r[i] == LowerChar(s[i])
  {
    if s == [] then [] else [LowerChar(s[0])] + Lower(s[1..])
  }

  predicate StartsWith(s: string, prefix: string)
  {
    |prefix| <= |s| && s[..|prefix|] == prefix
  }

  /** Python's `needle in hay` for strings. */
  predicate Contains(hay: string, needle: string)
    decreases |hay|
  {
    StartsWith(hay, needle) || (hay != [] && Contains(hay[1..], needle))
  }

  /** The needle occurs in the hay starting at position `i`. */
  predicate OccursAt(hay: string, needle: string, i: int)
  {
    0 <= i <= |hay| - |needle| && hay[i..i + |needle|] == needle
  }

  /** `Contains` holds exactly when the needle occurs at some position. */
  lemma {:induction false} ContainsIff(hay: string, needle: string)
    ensures Contains(hay, needle) <==> exists i :: OccursAt(hay, needle, i)
    decreases |hay|
  {
    if Contains(hay, needle) {
      var i := ContainsAt(hay, needle);
    }
    if exists i :: OccursAt(hay, needle, i) {
      var i :| OccursAt(hay, needle, i);
      OccursAtContains(hay, needle, i);
    }
  }

  /** Where `Contains` finds the needle. */
  lemma {:induction false} ContainsAt(hay: string, needle: string) returns (i: int)
    requires Contains(hay, needle)
    ensures OccursAt(hay, needle, i)
    decreases |hay|
  {
    if StartsWith(hay, needle) {
      i := 0;
    } else {
      var j := ContainsAt(hay[1..], needle);
      assert hay[j + 1..j + 1 + |needle|] == hay[1..][j..j + |needle|];
      i := j + 1;
    }
  }

  /** An occurrence at any position is found by `Contains`. */
  lemma {:induction false} OccursAtContains(hay: string, needle: string, i: int)
    requires OccursAt(hay, needle, i)
    ensures Contains(hay, needle)
    decreases i
  {
    if i == 0 {
      assert hay[..|needle|] == hay[i..i + |needle|];
    } else {
      assert hay[1..][i - 1..i - 1 + |needle|] == hay[i..i + |needle|];
      OccursAtContains(hay[1..], needle, i - 1);
    }
  }

  lemma {:induction false} ContainsLength(hay: string, needle: string)
    requires Contains(hay, needle)
    ensures |needle| <= |hay|
    decreases |hay|
  {
    if !StartsWith(hay, needle) {
      ContainsLength(hay[1..], needle);
    }
  }

  /** A string that contains the needle contains its first character. */
  lemma ContainsFirst(hay: string, needle: string)
    ensures needle != [] && Contains(hay, needle) ==> needle[0] in hay
  {
    ContainsIff(hay, needle);
    if needle != [] && Contains(hay, needle) {
      var i :| OccursAt(hay, needle, i);
      assert hay[i] == hay[i..i + |needle|][0];
    }
  }

  /** Python's `s.replace(pattern, replacement)`: every non-overlapping
      occurrence, scanning from the left, is replaced. */
  function ReplaceAll(s: string, pattern: string, replacement: string): string
    requires pattern != []
    decreases |s|
  {
    if |s| < |pattern| then s
    else if StartsWith(s, pattern) then replacement + ReplaceAll(s[|pattern|..], pattern, replacement)
    else [s[0]] + ReplaceAll(s[1..], pattern, replacement)
  }

  /** Where `s` does not start with the pattern, the replacement keeps its
      first character and carries on with the rest. */
  lemma ReplaceAllHead(s: string, pattern: string, replacement: string)
    requires pattern != []
    requires s != [] && !StartsWith(s, pattern)
    ensures ReplaceAll(s, pattern, replacement) == [s[0]] + ReplaceAll(s[1..], pattern, replacement)
  {
    if |s| < |pattern| {
      assert s == [s[0]] + s[1..];
    }
  }

  /** A string without the pattern comes back unchanged. */
  lemma {:induction false} ReplaceAllWithoutPattern(s: string, pattern: string, replacement: string)
    requires pattern != []
    requires !Contains(s, pattern)
    ensures ReplaceAll(s, pattern, replacement) == s
    decreases |s|
  {
    if |s| >= |pattern| {
      ReplaceAllWithoutPattern(s[1..], pattern, replacement);
      assert s == [s[0]] + s[1..];
    }
  }

  /** When the replacement itself begins with the pattern, the pattern
      survives the replacement: `replace('med', 'medium')` never removes
      the last "med" of a string. */
  lemma {:induction false} ReplaceAllKeepsPattern(s: string, pattern: string, replacement: string)
    requires pattern != []
    requires StartsWith(replacement, pattern)
    requires Contains(s, pattern)
    ensures Contains(ReplaceAll(s, pattern, replacement), pattern)
    decreases |s|
  {
    var r := ReplaceAll(s, pattern, replacement);
    if StartsWith(s, pattern) {
      assert r[..|pattern|] == replacement[..|pattern|];
    } else {
      ReplaceAllKeepsPattern(s[1..], pattern, replacement);
      ContainsLength(s, pattern);
      assert r == [s[0]] + ReplaceAll(s[1..], pattern, replacement);
      assert r[1..] == ReplaceAll(s[1..], pattern, replacement);
    }
  }

  /** Python's ordering of strings: lexicographic by code point, a proper
      prefix first. */
  predicate LexLe(a: string, b: string)
    decreases |a|
  {
    a == [] || (b != [] && (a[0] < b[0] || (a[0] == b[0] && LexLe(a[1..], b[1..]))))
  }

  lemma {:induction false} LexLeTotal(a: string, b: string)
    ensures LexLe(a, b) || LexLe(b, a)
    decreases |a|
  {
    if a != [] && b != [] && a[0] == b[0] {
      LexLeTotal(a[1..], b[1..]);
    }
  }

  lemma {:induction false} LexLeTransitive(a: string, b: string, c: string)
    requires LexLe(a, b) && LexLe(b, c)
    ensures LexLe(a, c)
    decreases |a|
  {
    if a != [] && b != [] && c != [] && a[0] == b[0] == c[0] {
      LexLeTransitive(a[1..], b[1..], c[1..]);
    }
  }
}
