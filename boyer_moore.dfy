/** Boyer–Moore search with the bad-character rule only (`boyer_moore`). */
module BoyerMoore {
  import opened Occurrence

  /** `i` is the last index at which `c` occurs in `p`. */
  ghost predicate IsLastIndex(p: string, c: char, i: int) {
    0 <= i < |p| && p[i] == c && forall k :: i < k < |p| ==> p[k] != c
  }

  /** The bad-character table `{pattern[i]: i for i in range(m)}`. Entries are
      inserted in index order, so a later index overwrites an earlier one and
      every character of `p` ends up mapped to its last index. */
  function BadCharTable(p: string): (table: map<char, int>)
    ensures forall c :: c in table <==> c in p
    ensures forall c :: c in table ==> IsLastIndex(p, c, table[c])
    decreases |p|
  {
    if p == [] then map[]
    else
      var init := p[..|p| - 1];
      assert p == init + [p[|p| - 1]];
      BadCharTable(init)[p[|p| - 1] := |p| - 1]
  }

  /** The bad-character shift never passes an occurrence: at alignment `s` the
      pattern mismatches at index `j` against a text character that does not
      occur in the pattern after index `last`, so no alignment in
      `[s, s + max(1, j - last))` matches. */
  lemma SkipIsSafe(text: string, pattern: string, s: int, j: int, last: int, shift: int)
    requires 0 <= s && 0 <= j < |pattern| && s + |pattern| <= |text|
    requires pattern[j] != text[s + j]
    requires -1 <= last && forall k :: last < k < |pattern| ==> pattern[k] != text[s + j]
    requires shift == if j - last > 1 then j - last else 1
    ensures forall s' :: s <= s' < s + shift ==> !OccursAt(text, pattern, s')
  {
    forall s' | s <= s' < s + shift
      ensures !OccursAt(text, pattern, s')
    {
      if s' + |pattern| <= |text| {
        var k := j - (s' - s);
        assert text[s'..s' + |pattern|][k] != pattern[k];
      }
    }
  }

  /** Compares right to left at each alignment `s`; on a mismatch against text
      character `c` at pattern index `j`, shifts by `max(1, j - last(c))`, where
      `last(c)` is -1 for a character absent from the pattern. */
  method Search(text: string, pattern: string) returns (found: bool)
    ensures found <==> Occurs(text, pattern)
  {
    var m, n := |pattern|, |text|;
    var badChar := BadCharTable(pattern);
    var s := 0;
    while s <= n - m
      invariant 0 <= s
      invariant forall s' :: 0 <= s' < s ==> !OccursAt(text, pattern, s')
      decreases n - m - s
    {
      var j := m - 1;
      while j >= 0 && pattern[j] == text[s + j]
        invariant -1 <= j < m
        invariant forall k :: j < k < m ==> pattern[k] == text[s + k]
      {
        j := j - 1;
      }
      if j < 0 {
        assert text[s..s + m] == pattern;
        assert OccursAt(text, pattern, s);
        return true;
      }
      var c := text[s + j];
      var last := if c in badChar then badChar[c] else -1;
      var shift := if j - last > 1 then j - last else 1;
      SkipIsSafe(text, pattern, s, j, last, shift);
      s := s + shift;
    }
    return false;
  }
}
