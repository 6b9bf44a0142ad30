/** Strings as the catalogue compares them: Java's `isEmpty`, `toLowerCase`
    and the containment that a `LIKE '%x%'` pattern tests. */
module Text {

  /** `String.isEmpty`: only the zero-length string is empty, so a string of
      blanks counts as a value that was given. */
  predicate IsEmpty(s: string) {
    |s| == 0
  }

  /** `Character.toLowerCase` restricted to the ASCII letters. */
  function LowerChar(c: char): char {
    if 'A' <= c <= 'Z' then (c as int + 32) as char else c
  }

  /** `String.toLowerCase`, letter by letter. */
  function Lower(s: string): string {
    seq(|s|, i requires 0 <= i < |s| => LowerChar(s[i]))
  }

  /** `sub` occurs in `s` starting at offset `i`. */
  predicate OccursAt(s: string, sub: string, i: int) {
    0 <= i && i + |sub| <= |s| && s[i..i + |sub|] == sub
  }

  /** `s LIKE '%' + sub + '%'`, with `sub` read literally. */
  predicate Contains(s: string, sub: string) {
    exists i :: 0 <= i <= |s| - |sub| && OccursAt(s, sub, i)
  }

  /** Every string contains itself, so an exact value always matches a
      containment filter built from it. */
  lemma ContainsItself(s: string)
    ensures Contains(s, s)
  {
    assert OccursAt(s, s, 0);
  }

  /** Lower-casing twice is lower-casing once. */
  lemma {:induction false} LowerIdempotent(s: string)
    ensures Lower(Lower(s)) == Lower(s)
  {
    forall i | 0 <= i < |s|
      ensures Lower(Lower(s))[i] == Lower(s)[i]
    {
      var c := s[i];
      assert Lower(s)[i] == LowerChar(c);
    }
  }
}
