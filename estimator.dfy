/** The size of the search space the engine would have to cover. */
module Estimator {
  import opened Alphabet
  import opened Candidates

  /** The number of candidates of lengths 1..maxChars over `n` characters. */
  function SearchSpace(n: nat, maxChars: int): nat
  {
    if maxChars < 1 then 0 else SearchSpace(n, maxChars - 1) + Pow(n, maxChars)
  }

  /** Accumulates the number of candidates, length by length, for the given complexity. */
  method Combinations(complexity: Complexity, maxChars: int) returns (combinations: nat)
    ensures combinations == SearchSpace(|PasswordCharacters(complexity)|, maxChars)
    ensures maxChars < 1 ==> combinations == 0
  {
    var passwordCharacters := |PasswordCharacters(complexity)|;
    combinations := 0;
    var length := 1;
    while length <= maxChars
      invariant 1 <= length <= (if maxChars >= 1 then maxChars else 0) + 1
      invariant combinations == SearchSpace(passwordCharacters, length - 1)
    {
      combinations := combinations + Pow(passwordCharacters, length);
      length := length + 1;
    }
  }

  /** Closed form of the geometric sum: (n - 1) * (n + n^2 + ... + n^m) == n^(m+1) - n. */
  lemma {:induction false} SearchSpaceClosedForm(n: nat, maxChars: nat)
    ensures (n - 1) * SearchSpace(n, maxChars) == Pow(n, maxChars + 1) - n
  {
    if maxChars > 0 {
      SearchSpaceClosedForm(n, maxChars - 1);
      GeometricStep(n, SearchSpace(n, maxChars - 1), Pow(n, maxChars));
    }
  }

  lemma GeometricStep(n: int, s: int, p: int)
    requires (n - 1) * s == p - n
    ensures (n - 1) * (s + p) == p * n - n
  {
    assert (n - 1) * (s + p) == (n - 1) * s + (n - 1) * p;
    assert (n - 1) * p == p * n - p;
  }

  /** The counts printed for some configurations: (10, 1), (10, 2), (26, 3) and (36, 4). */
  lemma SearchSpaceExamples()
    ensures SearchSpace(|PasswordCharacters(Numbers)|, 1) == 10
    ensures SearchSpace(|PasswordCharacters(Numbers)|, 2) == 110
    ensures SearchSpace(|PasswordCharacters(Letters)|, 3) == 18278
    ensures SearchSpace(|PasswordCharacters(Alphanum)|, 4) == 1727604
  {
    assert Pow(26, 3) == 17576;
    assert Pow(36, 4) == 1679616;
  }
}
