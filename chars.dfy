/** Character-level building blocks shared by the lexical validators:
    `Iterator::all` over the characters of a string, and regular-expression
    character classes written as lists of inclusive ranges. */
module Chars {

  /** `s.chars().all(p)`: walks the string from the front and stops at the
      first character that fails `p`. */
  predicate All(s: string, p: char -> bool)
  {
    if s == [] then true else p(s[0]) && All(s[1..], p)
  }

  /** `All` holds exactly when every position satisfies `p`. */
  lemma {:induction false} AllAt(s: string, p: char -> bool)
    ensures All(s, p) <==> forall i :: 0 <= i < |s| ==> p(s[i])
  {
    if s != [] {
      AllAt(s[1..], p);
      assert forall i :: 1 <= i < |s| ==> s[1..][i - 1] == s[i];
    }
  }

  /** A character class of a regular expression, `[A-Za-z0-9_]` say, as the
      list of its inclusive ranges. */
  datatype CharRange = CharRange(lo: char, hi: char)

  type CharClass = seq<CharRange>

  predicate InClass(c: char, cls: CharClass)
  {
    exists k :: 0 <= k < |cls| && cls[k].lo <= c <= cls[k].hi
  }

  /** `[A-Z_]` */
  const UpperOrUnderscore: CharClass := [CharRange('A', 'Z'), CharRange('_', '_')]

  /** `[A-Za-z0-9_]` */
  const Word: CharClass :=
    [CharRange('A', 'Z'), CharRange('a', 'z'), CharRange('0', '9'), CharRange('_', '_')]
}
