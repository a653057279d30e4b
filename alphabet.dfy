/** The complexity classes and the ordered character sets they select. */
module Alphabet {

  /** The three password complexity classes a run can be configured with. */
  datatype Complexity = Numbers | Letters | Alphanum

  /** The decimal digits, in ascending order. */
  const Digits: string := "0123456789"

  /** The lowercase ASCII letters, in ascending order. */
  const Lowercase: string := "abcdefghijklmnopqrstuvwxyz"

  /** No character occurs twice in `s`. */
  predicate Distinct(s: string) {
    forall i, j :: 0 <= i < j < |s| ==> s[i] != s[j]
  }

  /** `c` is a 7-bit ASCII character. */
  predicate IsAscii(c: char) {
    c as int < 128
  }

  /** Every character of `s` is 7-bit ASCII. */
  predicate AllAscii(s: string) {
    forall i :: 0 <= i < |s| ==> IsAscii(s[i])
  }

  /** `s` is the run of |s| consecutive code points starting at `first`. */
  predicate Consecutive(s: string, first: char) {
    forall i :: 0 <= i < |s| ==> s[i] as int == first as int + i
  }

  lemma DigitsAndLetters()
    ensures |Digits| == 10 && Consecutive(Digits, '0')
    ensures |Lowercase| == 26 && Consecutive(Lowercase, 'a')
  {
  }

  /** The characters allowed in candidates of the given complexity, in enumeration order. */
  function PasswordCharacters(complexity: Complexity): (chars: string)
    ensures complexity == Numbers ==> chars == Digits && |chars| == 10
    ensures complexity == Letters ==> chars == Lowercase && |chars| == 26
    ensures complexity == Alphanum ==> chars == Lowercase + Digits && |chars| == 36
    ensures Distinct(chars) && AllAscii(chars)
  {
    DigitsAndLetters();
    match complexity
    case Numbers => Digits
    case Letters => Lowercase
    case Alphanum => Lowercase + Digits
  }
}
