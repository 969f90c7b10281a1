/** Case-insensitive string comparison, as Java's String.equalsIgnoreCase
    behaves on ASCII text: two strings match when they have the same length
    and agree character by character once upper-case letters are folded to
    lower case. */
module CaseFold {

  /** The two characters are the same, or the same ASCII letter in upper
      and lower case. */
  predicate SameLetter(c: char, d: char)
  {
    c == d ||
    ('A' <= c <= 'Z' && d as int == c as int + 32) ||
    ('A' <= d <= 'Z' && c as int == d as int + 32)
  }

  /** The ASCII lower-case form of a character: never an upper-case letter,
      and the same letter as the character. */
  function Lower(c: char): (r: char)
    ensures !('A' <= r <= 'Z')
    ensures SameLetter(c, r)
  {
    if 'A' <= c <= 'Z' then (c as int + 32) as char else c
  }

  /** Two characters fold to the same one exactly when they are the same
      letter, whatever its case. */
  lemma LowerMatchesSameLetter(c: char, d: char)
    ensures Lower(c) == Lower(d) <==> SameLetter(c, d)
  {
  }

  predicate EqualsIgnoreCase(a: string, b: string)
  {
    |a| == |b| && forall i :: 0 <= i < |a| ==> Lower(a[i]) == Lower(b[i])
  }

  /** Two strings match ignoring case exactly when they have the same length
      and hold the same letter, whatever its case, at every position. */
  lemma EqualsIgnoreCaseByLetters(a: string, b: string)
    ensures EqualsIgnoreCase(a, b) <==> |a| == |b| && forall i :: 0 <= i < |a| ==> SameLetter(a[i], b[i])
  {
  }

  /** Matching ignoring case is an equivalence relation: a name matches
      itself, and matching is symmetric and transitive. */
  lemma EqualsIgnoreCaseIsEquivalence(a: string, b: string, c: string)
    ensures EqualsIgnoreCase(a, a)
    ensures EqualsIgnoreCase(a, b) ==> EqualsIgnoreCase(b, a)
    ensures EqualsIgnoreCase(a, b) && EqualsIgnoreCase(b, c) ==> EqualsIgnoreCase(a, c)
  {
  }
}
