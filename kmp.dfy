/** Knuth–Morris–Pratt search as `kmp_search` writes it, quirk included: when
    the fallback of either loop reaches length 0, the outer index advances
    without the current character being compared against `pattern[0]`. */
module KnuthMorrisPratt {
  import opened Occurrence

  /** `b` is the length of a border of `p[..n]`: a prefix of `p[..n]` that is
      also a suffix of it. */
  ghost predicate IsBorder(p: string, n: int, b: int) {
    0 <= b <= n <= |p| && p[..b] == p[n - b..n]
  }

  /** Every entry falls back to a strictly shorter prefix: `0 <= lps[k] <= k`.
      This is all that the two loops need in order to terminate. */
  predicate ShortFallbacks(lps: seq<int>) {
    forall k :: 0 <= k < |lps| ==> 0 <= lps[k] <= k
  }

  /** Entry `lps[k]` is the length of a border of `p[..k + 1]`. */
  ghost predicate BorderEntry(p: string, lps: seq<int>, k: int)
    requires 0 <= k < |lps|
  {
    IsBorder(p, k + 1, lps[k])
  }

  /** Every entry is the length of a proper border of its prefix: `lps[k]`
      is at most `k`, so `lps[0] == 0`. */
  ghost predicate BorderTable(p: string, lps: seq<int>) {
    |lps| == |p| && ShortFallbacks(lps) &&
    forall k :: 0 <= k < |p| ==> BorderEntry(p, lps, k)
  }

  /** A partial match that ends at `e` carries over to each of its borders. */
  lemma MatchOfBorder(p: string, t: string, l: int, e: int, b: int)
    requires 0 <= l <= |p| && l <= e <= |t|
    requires p[..l] == t[e - l..e]
    requires IsBorder(p, l, b)
    ensures p[..b] == t[e - b..e]
  {
    calc {
      p[..b];
      p[l - b..l];
      t[e - l..e][l - b..];
      t[e - b..e];
    }
  }

  /** A partial match ending just before `e` grows by one character when the
      next characters agree. */
  lemma ExtendMatch(p: string, t: string, l: int, e: int)
    requires 0 <= l < |p| && l <= e < |t|
    requires p[..l] == t[e - l..e]
    requires p[l] == t[e]
    ensures p[..l + 1] == t[e - l..e + 1]
  {
    assert p[..l + 1] == p[..l] + [p[l]];
    assert t[e - l..e + 1] == t[e - l..e] + [t[e]];
  }

  /** `[0] * n`. */
  function Zeros(n: nat): (z: seq<int>)
    ensures |z| == n && forall k :: 0 <= k < n ==> z[k] == 0
  {
    seq(n, _ => 0)
  }

  /** The empty border makes the all-zero table a border table. */
  lemma ZerosBorderTable(p: string)
    ensures BorderTable(p, Zeros(|p|))
  {
    var z := Zeros(|p|);
    forall k | 0 <= k < |p|
      ensures BorderEntry(p, z, k)
    {
    }
  }

  /** Writing a proper border length into entry `i` keeps a border table. */
  lemma SetBorderEntry(p: string, lps: seq<int>, i: int, v: int)
    requires BorderTable(p, lps)
    requires 0 <= i < |p| && v <= i && IsBorder(p, i + 1, v)
    ensures BorderTable(p, lps[i := v])
  {
    var lps' := lps[i := v];
    forall k | 0 <= k < |p|
      ensures BorderEntry(p, lps', k)
    {
      if k != i {
        assert BorderEntry(p, lps, k);
      }
    }
  }

  /** The loop of `lps_array` run to completion from the state (`lps`,
      `length`, `i`). Entries it writes stay short fallbacks. */
  function LpsFrom(p: string, lps: seq<int>, length: int, i: int): (r: seq<int>)
    requires |lps| == |p| && ShortFallbacks(lps)
    requires 1 <= i <= |p| && 0 <= length < i
    ensures |r| == |p| && ShortFallbacks(r)
    decreases |p| - i, length
  {
    if i == |p| then lps
    else if p[i] == p[length] then
      LpsFrom(p, lps[i := length + 1], length + 1, i + 1)
    else
      var length' := if length != 0 then lps[length - 1] else 0;
      if length' == 0 then LpsFrom(p, lps[i := 0], 0, i + 1)
      else LpsFrom(p, lps, length', i)
  }

  /** While `p[..length]` is a border of `p[..i]`, every entry the loop of
      `lps_array` writes is a proper border length. */
  lemma {:induction false} LpsFromBorders(p: string, lps: seq<int>, length: int, i: int)
    requires BorderTable(p, lps)
    requires 1 <= i <= |p| && 0 <= length < i
    requires p[..length] == p[i - length..i]
    ensures BorderTable(p, LpsFrom(p, lps, length, i))
    decreases |p| - i, length
  {
    if i == |p| {
    } else if p[i] == p[length] {
      ExtendMatch(p, p, length, i);
      SetBorderEntry(p, lps, i, length + 1);
      LpsFromBorders(p, lps[i := length + 1], length + 1, i + 1);
    } else {
      var length' := if length != 0 then lps[length - 1] else 0;
      if length' == 0 {
        SetBorderEntry(p, lps, i, 0);
        LpsFromBorders(p, lps[i := 0], 0, i + 1);
      } else {
        assert BorderEntry(p, lps, length - 1);
        MatchOfBorder(p, p, length, i, length');
        LpsFromBorders(p, lps, length', i);
      }
    }
  }

  /** The table `lps_array(p)` returns: a table of proper borders. */
  function Lps(p: string): (r: seq<int>)
    ensures BorderTable(p, r)
  {
    if |p| == 0 then []
    else
      ZerosBorderTable(p);
      LpsFromBorders(p, Zeros(|p|), 0, 1);
      LpsFrom(p, Zeros(|p|), 0, 1)
  }

  /** `lps_array`: fills a list of zeros in place. */
  method LpsArray(p: string) returns (lps: seq<int>)
    ensures lps == Lps(p)
    ensures BorderTable(p, lps)
  {
    var a := new int[|p|](_ => 0);
    var length, i := 0, 1;
    assert a[..] == Zeros(|p|);
    while i < |p|
      invariant 1 <= i && 0 <= length < i
      invariant |p| > 0 ==> i <= |p|
      invariant a.Length == |p| && ShortFallbacks(a[..])
      invariant |p| > 0 ==> LpsFrom(p, a[..], length, i) == Lps(p)
      decreases |p| - i, length
    {
      ghost var lps0 := a[..];
      if p[i] == p[length] {
        length := length + 1;
        a[i] := length;
        assert a[..] == lps0[i := length];
        i := i + 1;
      } else {
        length := if length != 0 then a[length - 1] else 0;
        if length == 0 {
          a[i] := 0;
          assert a[..] == lps0[i := 0];
          i := i + 1;
        }
      }
    }
    lps := a[..];
  }

  /** The scan loop of `kmp_search` run to completion from the state (`i`, `j`). */
  function KmpFrom(text: string, pattern: string, lps: seq<int>, i: int, j: int): bool
    requires |lps| == |pattern| && ShortFallbacks(lps)
    requires 0 <= j < |pattern| && 0 <= i <= |text|
    decreases |text| - i, j
  {
    if i == |text| then false
    else
      var matched := text[i] == pattern[j];
      var i1 := if matched then i + 1 else i;
      var j1 := if matched then j + 1 else j;
      if j1 == |pattern| then true
      else if i1 < |text| && text[i1] != pattern[j1] then
        var j2 := if j1 != 0 then lps[j1 - 1] else 0;
        KmpFrom(text, pattern, lps, if j2 == 0 then i1 + 1 else i1, j2)
      else
        KmpFrom(text, pattern, lps, i1, j1)
  }

  /** Soundness of the scan: as long as `pattern[..j]` matches the text just
      before index `i`, the scan reports an occurrence only if there is one. */
  lemma {:induction false} KmpFromSound(text: string, pattern: string, lps: seq<int>, i: int, j: int)
    requires BorderTable(pattern, lps)
    requires 0 <= j < |pattern| && j <= i <= |text|
    requires pattern[..j] == text[i - j..i]
    requires KmpFrom(text, pattern, lps, i, j)
    ensures Occurs(text, pattern)
    decreases |text| - i, j
  {
    var matched := text[i] == pattern[j];
    var i1 := if matched then i + 1 else i;
    var j1 := if matched then j + 1 else j;
    if matched {
      ExtendMatch(pattern, text, j, i);
    }
    if j1 == |pattern| {
      assert OccursAt(text, pattern, i1 - j1);
    } else if i1 < |text| && text[i1] != pattern[j1] {
      var j2 := if j1 != 0 then lps[j1 - 1] else 0;
      if j1 != 0 {
        assert BorderEntry(pattern, lps, j1 - 1);
      }
      MatchOfBorder(pattern, text, j1, i1, j2);
      KmpFromSound(text, pattern, lps, if j2 == 0 then i1 + 1 else i1, j2);
    } else {
      KmpFromSound(text, pattern, lps, i1, j1);
    }
  }

  /** The result of `kmp_search(text, pattern)`: never a false positive. */
  function Kmp(text: string, pattern: string): (found: bool)
    requires |pattern| >= 1
    ensures found ==> Occurs(text, pattern)
  {
    var lps := Lps(pattern);
    if KmpFrom(text, pattern, lps, 0, 0) then
      KmpFromSound(text, pattern, lps, 0, 0);
      true
    else false
  }

  /** `kmp_search`: `i` walks the text, `j` the pattern. */
  method Search(text: string, pattern: string) returns (found: bool)
    requires |pattern| >= 1
    ensures found == Kmp(text, pattern)
    ensures found ==> Occurs(text, pattern)
  {
    var lps := LpsArray(pattern);
    var i, j := 0, 0;
    while i < |text|
      invariant 0 <= j < |pattern| && 0 <= i <= |text|
      invariant KmpFrom(text, pattern, lps, i, j) == Kmp(text, pattern)
      decreases |text| - i, j
    {
      if text[i] == pattern[j] {
        i, j := i + 1, j + 1;
      }
      if j == |pattern| {
        return true;
      } else if i < |text| && text[i] != pattern[j] {
        j := if j != 0 then lps[j - 1] else 0;
        if j == 0 {
          i := i + 1;
        }
      }
    }
    return false;
  }

  /** The table entries are borders but not always the longest ones: for
      "abaa" the last entry is 0 although "a" is a proper border of "abaa". */
  lemma LpsNotLongest()
    ensures Lps("abaa") == [0, 0, 1, 0]
    ensures IsBorder("abaa", 4, 1)
  {
  }

  /** The scan is not complete: "ab" occurs in "aab" at offset 1, yet after
      matching "a" and mismatching at text index 1 the scan falls back to
      `j == 0` and moves past index 1 without comparing it again. */
  lemma KmpIncomplete()
    ensures OccursAt("aab", "ab", 1)
    ensures !Kmp("aab", "ab")
  {
  }

  /** A pattern at the very start of the text is always found: no mismatch
      happens before it is consumed. */
  lemma {:induction false} KmpFindsPrefix(text: string, pattern: string)
    requires |pattern| >= 1
    requires OccursAt(text, pattern, 0)
    ensures Kmp(text, pattern)
  {
    KmpFromPrefix(text, pattern, Lps(pattern), 0);
  }

  /** From any point inside a prefix occurrence the scan keeps matching to its end. */
  lemma {:induction false} KmpFromPrefix(text: string, pattern: string, lps: seq<int>, j: int)
    requires |lps| == |pattern| && ShortFallbacks(lps)
    requires 0 <= j < |pattern| && OccursAt(text, pattern, 0)
    ensures KmpFrom(text, pattern, lps, j, j)
    decreases |pattern| - j
  {
    assert text[j] == text[..|pattern|][j];
    if j + 1 < |pattern| {
      assert text[j + 1] == text[..|pattern|][j + 1];
      KmpFromPrefix(text, pattern, lps, j + 1);
    }
  }

  /** A worked example: "abcaby" is found in "abxabcabcaby" (where it sits at offset 6). */
  lemma KmpScenarioFound()
    ensures Kmp("abxabcabcaby", "abcaby")
  {
    assert Lps("abcaby") == [0, 0, 0, 1, 2, 0];
    assert KmpFrom("abxabcabcaby", "abcaby", [0, 0, 0, 1, 2, 0], 11, 5);
    assert KmpFrom("abxabcabcaby", "abcaby", [0, 0, 0, 1, 2, 0], 8, 2);
    assert KmpFrom("abxabcabcaby", "abcaby", [0, 0, 0, 1, 2, 0], 5, 2);
    assert KmpFrom("abxabcabcaby", "abcaby", [0, 0, 0, 1, 2, 0], 1, 1);
    assert KmpFrom("abxabcabcaby", "abcaby", [0, 0, 0, 1, 2, 0], 0, 0);
  }

  /** The textbook example: "ABABCABAB" is found in "ABABDABACDABABCABAB" (at offset 10). */
  lemma KmpScenarioTextbook()
    ensures Kmp("ABABDABACDABABCABAB", "ABABCABAB")
  {
    assert Lps("ABABCABAB") == [0, 0, 1, 2, 0, 1, 2, 3, 4];
    assert KmpFrom("ABABDABACDABABCABAB", "ABABCABAB", [0, 0, 1, 2, 0, 1, 2, 3, 4], 18, 8);
    assert KmpFrom("ABABDABACDABABCABAB", "ABABCABAB", [0, 0, 1, 2, 0, 1, 2, 3, 4], 15, 5);
    assert KmpFrom("ABABDABACDABABCABAB", "ABABCABAB", [0, 0, 1, 2, 0, 1, 2, 3, 4], 12, 2);
    assert KmpFrom("ABABDABACDABABCABAB", "ABABCABAB", [0, 0, 1, 2, 0, 1, 2, 3, 4], 9, 0);
    assert KmpFrom("ABABDABACDABABCABAB", "ABABCABAB", [0, 0, 1, 2, 0, 1, 2, 3, 4], 6, 1);
    assert KmpFrom("ABABDABACDABABCABAB", "ABABCABAB", [0, 0, 1, 2, 0, 1, 2, 3, 4], 3, 3);
    assert KmpFrom("ABABDABACDABABCABAB", "ABABCABAB", [0, 0, 1, 2, 0, 1, 2, 3, 4], 0, 0);
  }

  /** A text of six "a"s does not contain "aaab". */
  lemma KmpScenarioAbsent()
    ensures !Kmp("aaaaaa", "aaab")
  {
    assert Lps("aaab") == [0, 1, 2, 0];
    assert !KmpFrom("aaaaaa", "aaab", [0, 1, 2, 0], 6, 3);
    assert !KmpFrom("aaaaaa", "aaab", [0, 1, 2, 0], 3, 2);
    assert !KmpFrom("aaaaaa", "aaab", [0, 1, 2, 0], 0, 0);
  }
}
