/** Character-level text operations the dashboard relies on: the
    case-insensitive substring search behind `Series.str.contains(pattern,
    case=False)` and the code-point order Python uses to compare `str` values. */
module Text {

  /** Folds a character the way a case-insensitive Python regular expression
      compares it with a lower-case ASCII letter: ASCII capitals become their
      lower-case letter, and so do the four non-ASCII letters `re.IGNORECASE`
      equates with ASCII letters (dotted capital I, dotless small i, long s,
      Kelvin sign). Any other character is left as it is. */
  function Fold(c: char): (f: char)
  {
    if 'A' <= c <= 'Z' then (c as int + 32) as char
    else if c == '\U{0130}' || c == '\U{0131}' then 'i'
    else if c == '\U{017F}' then 's'
    else if c == '\U{212A}' then 'k'
    else c
  }

  /** `pat` occurs in `text` starting at offset `i`, character by folded character. */
  ghost predicate OccursAt(text: string, pat: string, i: int)
  {
    0 <= i && i + |pat| <= |text| &&
    forall k :: 0 <= k < |pat| ==> Fold(text[i + k]) == pat[k]
  }

  /** `text` begins with `pat`, ignoring case. */
  function StartsWithFolded(text: string, pat: string): (b: bool)
    ensures b <==> OccursAt(text, pat, 0)
  {
    if |pat| == 0 then true
    else if |text| == 0 then false
    else
      Fold(text[0]) == pat[0] && StartsWithFolded(text[1..], pat[1..])
  }

  /** Occurrences in `text[1..]` are the occurrences in `text` past offset 0. */
  lemma ShiftOccurrences(text: string, pat: string)
    requires |text| > 0
    ensures (exists j :: OccursAt(text[1..], pat, j)) <==> (exists i :: 1 <= i && OccursAt(text, pat, i))
  {
    if j :| OccursAt(text[1..], pat, j) {
      assert OccursAt(text, pat, j + 1);
    }
    if i :| 1 <= i && OccursAt(text, pat, i) {
      assert OccursAt(text[1..], pat, i - 1);
    }
  }

  /** Case-insensitive substring search: `re.search(pat, text, re.IGNORECASE)`
      for a pattern made of lower-case ASCII letters. */
  function ContainsFolded(text: string, pat: string): (b: bool)
    ensures b <==> exists i :: OccursAt(text, pat, i)
    decreases |text|
  {
    if |pat| > |text| then false
    else if StartsWithFolded(text, pat) then true
    else
      ShiftOccurrences(text, pat);
      assert |text| > 0;
      ContainsFolded(text[1..], pat)
  }

  /** Python's `<=` on `str`: lexicographic by code point, a proper prefix first. */
  predicate LessEq(a: string, b: string)
  {
    |a| == 0 || (|b| > 0 && (a[0] < b[0] || (a[0] == b[0] && LessEq(a[1..], b[1..]))))
  }

  lemma {:induction false} LessEqReflexive(a: string)
    ensures LessEq(a, a)
  {
    if |a| > 0 {
      LessEqReflexive(a[1..]);
    }
  }

  lemma {:induction false} LessEqTransitive(a: string, b: string, c: string)
    requires LessEq(a, b) && LessEq(b, c)
    ensures LessEq(a, c)
  {
    if |a| > 0 && a[0] == b[0] && b[0] == c[0] {
      LessEqTransitive(a[1..], b[1..], c[1..]);
    }
  }

  lemma {:induction false} LessEqTotal(a: string, b: string)
    ensures LessEq(a, b) || LessEq(b, a)
  {
    if |a| > 0 && |b| > 0 && a[0] == b[0] {
      LessEqTotal(a[1..], b[1..]);
    }
  }

  lemma {:induction false} LessEqAntisymmetric(a: string, b: string)
    requires LessEq(a, b) && LessEq(b, a)
    ensures a == b
  {
    if |a| > 0 {
      LessEqAntisymmetric(a[1..], b[1..]);
      assert a == [a[0]] + a[1..] && b == [b[0]] + b[1..];
    }
  }
}
