/** The two JavaScript string operations the matcher and the highlighter rely on:
    `String.prototype.indexOf` (first occurrence, -1 when absent) and
    `String.prototype.substring` (arguments clamped to the string, swapped when
    out of order). Strings are `seq<char>`. A `char` is a Unicode scalar value,
    so indices count characters where JavaScript counts UTF-16 code units; the
    two agree for text inside the Basic Multilingual Plane. */
module JsString {

  /** `word` occurs in `text` starting at index `i`. */
  predicate OccursAt(text: string, word: string, i: int) {
    0 <= i && i + |word| <= |text| && text[i..i + |word|] == word
  }

  /** `word` is a (possibly empty) substring of `text`. */
  predicate Contains(text: string, word: string) {
    exists i :: 0 <= i <= |text| && OccursAt(text, word, i)
  }

  /** The search loop behind `text.indexOf(word)`: tries each index from
      `from` upward. Only `indexOf` without a start position is modelled, so
      this is not `indexOf(word, from)`, which for instance gives |text| for
      the empty word when `from` is past the end. */
  function IndexOfFrom(text: string, word: string, from: nat): (r: int)
    decreases |text| + 1 - from
    ensures r == -1 || (from <= r && r + |word| <= |text|)
  {
    if from + |word| > |text| then -1
    else if text[from..from + |word|] == word then from
    else IndexOfFrom(text, word, from + 1)
  }

  /** `text.indexOf(word)`: the lowest index where `word` occurs, or -1 (see
      IndexOfFirst). */
  function IndexOf(text: string, word: string): (r: int)
    ensures r == -1 || (0 <= r && r + |word| <= |text|)
  {
    IndexOfFrom(text, word, 0)
  }

  /** The search from `from` finds the first occurrence at or after `from`. */
  lemma {:induction false} IndexOfFromFirst(text: string, word: string, from: nat)
    decreases |text| + 1 - from
    ensures var r := IndexOfFrom(text, word, from);
      (r == -1 ==> forall j :: from <= j ==> !OccursAt(text, word, j)) &&
      (r != -1 ==> OccursAt(text, word, r) && forall j :: from <= j < r ==> !OccursAt(text, word, j))
  {
    if from + |word| <= |text| && text[from..from + |word|] != word {
      IndexOfFromFirst(text, word, from + 1);
    }
  }

  /** `indexOf` is -1 exactly when `word` does not occur; otherwise it is the
      lowest index where `word` occurs. */
  lemma IndexOfFirst(text: string, word: string)
    ensures IndexOf(text, word) == -1 <==> !Contains(text, word)
    ensures IndexOf(text, word) != -1 ==> OccursAt(text, word, IndexOf(text, word))
    ensures forall j :: 0 <= j < IndexOf(text, word) ==> !OccursAt(text, word, j)
  {
    IndexOfFromFirst(text, word, 0);
  }

  /** `x` forced into the range [0, n]. */
  function Clamp(x: int, n: nat): (r: nat)
    ensures r <= n
    ensures 0 <= x <= n ==> r == x
    ensures x < 0 ==> r == 0
    ensures x > n ==> r == n
  {
    if x < 0 then 0 else if x > n then n else x
  }

  /** `text.substring(a, b)`: both bounds are clamped to [0, |text|] and, when
      the first ends up greater than the second, the two are swapped. */
  function Substring(text: string, a: int, b: int): (r: string)
    ensures 0 <= a <= b <= |text| ==> r == text[a..b]
    ensures 0 <= b <= a <= |text| ==> r == text[b..a]
    ensures |r| <= |text|
  {
    var x, y := Clamp(a, |text|), Clamp(b, |text|);
    if x <= y then text[x..y] else text[y..x]
  }

  /** `text.substring(a)`: from `a` (clamped) to the end. */
  function SubstringFrom(text: string, a: int): (r: string)
    ensures 0 <= a <= |text| ==> r == text[a..]
    ensures a < 0 ==> r == text
    ensures a >= |text| ==> r == []
  {
    Substring(text, a, |text|)
  }
}
