/** Character classes and sequence facts shared by the template and formatting modules. */
module Text {

  /** `\d`: an ASCII decimal digit (no `u` flag, so no other script's digits). */
  predicate IsDigit(c: char) {
    '0' <= c <= '9'
  }

  /**
   * Regrouping a concatenation. Stated once and called where a proof would
   * otherwise make the solver compare long concatenations element by element.
   */
  lemma ConcatAssoc(a: string, b: string, c: string)
    ensures a + (b + c) == (a + b) + c
  {
  }
}
