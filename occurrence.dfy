/** The question every matcher answers: does a pattern occur in a text? */
module Occurrence {

  /** `pattern` sits in `text` starting at offset `s`. */
  predicate OccursAt(text: string, pattern: string, s: int) {
    0 <= s && s + |pattern| <= |text| && text[s..s + |pattern|] == pattern
  }

  /** `pattern` occurs somewhere in `text`, at an offset `0 <= s <= |text| - |pattern|`. */
  ghost predicate Occurs(text: string, pattern: string) {
    exists s :: OccursAt(text, pattern, s)
  }
}
