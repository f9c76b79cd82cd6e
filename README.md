# Exact substring search: Boyer–Moore, Knuth–Morris–Pratt, Rabin–Karp

This project models the three substring-search functions of `Task3.py` in Dafny
and proves what each of them answers. Each function takes a `text` and a
`pattern` and returns whether the pattern occurs in the text. Python strings
are `string` (`seq<char>`), and `ord(c)` is the code point `c as nat`.

- `occurrence.dfy`, module `Occurrence`: the question itself.
  `OccursAt(text, pattern, s)` holds when `text[s..s + |pattern|] == pattern`.
  `Occurs(text, pattern)` holds when some offset `0 <= s <= |text| - |pattern|` qualifies.
- `boyer_moore.dfy`, module `BoyerMoore`: `boyer_moore`, with the bad-character rule only.
  The table is a function of the pattern. The search is a method whose two
  loops carry their invariants. Its result is proved to be exactly `Occurs`,
  for every input including the empty pattern.
- `kmp.dfy`, module `KnuthMorrisPratt`: `kmp_search` and its inner `lps_array`, as written.
  - Both loops advance their outer index when the fallback reaches length 0.
    They do so without comparing the current character against `pattern[0]` again.
  - As a result, the table holds borders that are not always the longest ones.
  - The scan is sound but not complete: `kmp_search("aab", "ab")` is false.
  - The model reproduces this behaviour, not the textbook algorithm.
  - `LpsFrom` and `KmpFrom` run each loop to completion from a given state.
    The methods `LpsArray` and `Search` are proved equal to them.
    The border, soundness and counterexample lemmas are about these functions.
- `rabin_karp.dfy`, module `RabinKarp`: `rabin_karp`, a Horner hash in base 256 modulo 101.
  - `Hash` is the hash the first loop accumulates.
  - `HashIsResidue` proves that it equals the exact base-256 value modulo 101.
  - `RollHash` proves that the update at line 70 turns the hash of one window
    into the hash of the next window.
  - The search method is proved to return exactly `Occurs`, for every input.

Dafny's `%` is Euclidean. For the positive modulus 101 it agrees with Python's `%`.
So the `t < 0` correction at `Task3.py:71-72` can never fire. The model keeps it,
and it verifies as harmless.

A textbook description of KMP promises that the prefix function holds the
*longest* proper borders and that all three matchers agree on every input.
The code does neither, and the model follows the code:
`KnuthMorrisPratt.LpsNotLongest` and `KnuthMorrisPratt.KmpIncomplete` exhibit
the difference on concrete inputs.

## Model

| member | source | states |
|---|---|---|
| `BoyerMoore.BadCharTable` | Task3.py:5 | the table has exactly the characters of the pattern as keys; each maps to the last index at which it occurs (later comprehension entries overwrite earlier ones) |
| `BoyerMoore.SkipIsSafe` | Task3.py:12-14 | after a mismatch at pattern index `j` against text character `c`, no alignment in `[s, s + max(1, j - last(c)))` is an occurrence, because `c` does not occur in the pattern after `last(c)` (`-1` when absent) |
| `BoyerMoore.Search` | Task3.py:3-15 | returns true exactly when the pattern occurs in the text; false when `m > n`, true for an empty pattern; every `text[s + j]` is in range and every shift is at least 1, so the loop ends |
| `KnuthMorrisPratt.LpsFrom` | Task3.py:23-33 | run from any state, the table loop keeps every entry within `0 <= lps[k] <= k` |
| `KnuthMorrisPratt.LpsFromBorders` | Task3.py:23-33 | while `p[..length] == p[i - length..i]` holds, every entry the loop writes is the length of a proper border of `p[..k + 1]` |
| `KnuthMorrisPratt.Lps` | Task3.py:19-33 | the table `lps_array` returns has one entry per pattern character, `lps[0] == 0`, and each `lps[k]` is a proper border length of `p[..k + 1]` |
| `KnuthMorrisPratt.LpsArray` | Task3.py:19-33 | the in-place loop over the zero-filled list returns the table `Lps(p)`, a table of proper borders |
| `KnuthMorrisPratt.LpsNotLongest` | Task3.py:28-32 | `lps_array("abaa") == [0, 0, 1, 0]` although `"a"` is a proper border of `"abaa"`: the entries are not always the longest borders |
| `KnuthMorrisPratt.KmpFromSound` | Task3.py:38-48 | while `pattern[..j] == text[i - j..i]`, the scan reports true only if the pattern occurs in the text |
| `KnuthMorrisPratt.Kmp` | Task3.py:35-48 | the result of `kmp_search` is never a false positive |
| `KnuthMorrisPratt.Search` | Task3.py:35-48 | the scan loop returns the result `Kmp(text, pattern)`, and true only when the pattern occurs |
| `KnuthMorrisPratt.KmpIncomplete` | Task3.py:44-47 | `"ab"` occurs in `"aab"` at offset 1, yet `kmp_search("aab", "ab")` is false |
| `KnuthMorrisPratt.KmpFromPrefix` | Task3.py:38-43 | inside an occurrence at offset 0 the scan matches character after character until the pattern is consumed |
| `KnuthMorrisPratt.KmpFindsPrefix` | Task3.py:35-43 | an occurrence at offset 0 is always found |
| `KnuthMorrisPratt.KmpScenarioFound` | Task3.py:35-48 | `kmp_search("abxabcabcaby", "abcaby")` is true |
| `KnuthMorrisPratt.KmpScenarioTextbook` | Task3.py:35-48 | `kmp_search("ABABDABACDABABCABAB", "ABABCABAB")` is true |
| `KnuthMorrisPratt.KmpScenarioAbsent` | Task3.py:35-48 | `kmp_search("aaaaaa", "aaab")` is false |
| `RabinKarp.Hash` | Task3.py:62-64 | the Horner hash of a string in base 256 modulo 101 lies in `[0, 101)` |
| `RabinKarp.HashIsResidue` | Task3.py:62-64 | reducing modulo 101 after each Horner step gives the exact base-256 value reduced once |
| `RabinKarp.ValueDropFirst` | Task3.py:59 | the first character of a window weighs `256^(m - 1)`, the factor `h` stands for |
| `RabinKarp.RollHash` | Task3.py:59-72 | with `h == pow(256, m - 1) % 101`, the update at line 70 maps the hash of `text[i..i + m]` to the hash of `text[i + 1..i + 1 + m]` |
| `RabinKarp.Search` | Task3.py:51-74 | returns true exactly when the pattern occurs in the text; false when `m > n`; at every window `t` is the hash of that window, in `[0, 101)` |
| `RabinKarp.CollisionRejected` | Task3.py:67 | `"ab"` and `"ju"` have the same hash 84, yet `"ab"` does not occur in `"ju"`: equal hashes alone never give true |

## Left out

- `measure`, `run_tests` and `main` (`Task3.py:77-116`) are left out. They only time calls with `timeit`, print to the console and read `article1.txt` and `article2.txt`.
- KnuthMorrisPratt.Search: requires a non-empty pattern. With an empty pattern and a non-empty text, the source raises `IndexError` at `pattern[0]` (`Task3.py:39`). With both empty it returns false. Neither case is modelled.
- RabinKarp.Search: for an empty pattern the source computes `h` as the float `pow(256, -1) % 101`. The model uses 0 instead. The first window already returns true, before `h` is read.
- The locals `d = 256` and `q = 101` are the module constants `Base` and `Modulus`.
- Python integers and Dafny integers are both unbounded, so `pow(d, m - 1)` is the exact power `Pow(Base, m - 1)`.
- `ord` is the code point of a Dafny `char`. A Dafny `char` cannot hold a lone surrogate, which a Python `str` can.
- `lps_array` builds its list in place. The model fills an array in place and returns its contents as a sequence.
- The three matchers do not agree on every input (`KnuthMorrisPratt.KmpIncomplete`), so no agreement lemma is stated. A corrected, complete KMP is not part of this model.
- The benchmark harness calls the matchers in sequence. No concurrency is modelled.
