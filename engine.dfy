/**
 * The brute-force engine: it tries lengths 1..maxChars in ascending order and,
 * within a length, the candidates in enumeration order, and stops at the first
 * one whose digest equals the target.
 */
module Engine {
  import opened Alphabet
  import opened Encoder
  import opened Candidates

  datatype Option<T> = None | Some(value: T)

  class BruteForce {
    const goalEncoded: Digest
    const maxChars: int
    const characters: string
    /** The hash the encoder applies (MD5 in the program). */
    const md5: Hash

    /** The alphabet fixed at construction can be enumerated unambiguously. */
    predicate Valid() {
      |characters| > 0 && Distinct(characters) && AllAscii(characters)
    }

    constructor (encodedPass: Digest, maxChars: int, complexity: Complexity, md5: Hash)
      ensures goalEncoded == encodedPass && this.maxChars == maxChars && this.md5 == md5
      ensures characters == PasswordCharacters(complexity)
      ensures Valid()
    {
      goalEncoded := encodedPass;
      this.maxChars := maxChars;
      characters := PasswordCharacters(complexity);
      this.md5 := md5;
    }

    /** Candidate number `i` of length `len` encodes to the target. */
    predicate Hit(len: nat, i: nat)
      requires Valid()
    {
      Encode(md5, Candidate(characters, len, i)) == goalEncoded
    }

    /** No candidate enumerated before position `i` of length `len` encodes to the target. */
    ghost predicate NoHitBefore(len: nat, i: nat)
      requires Valid()
    {
      (forall l, k :: 1 <= l < len && 0 <= k < Pow(|characters|, l) ==> !Hit(l, k)) &&
      (forall k :: 0 <= k < i ==> !Hit(len, k))
    }

    /** Candidate number `i` of length `len` is the first hit of the whole search. */
    ghost predicate FirstHit(len: nat, i: nat)
      requires Valid()
    {
      1 <= len <= maxChars && i < Pow(|characters|, len) && Hit(len, i) && NoHitBefore(len, i)
    }

    /** Some string over the alphabet with a length in 1..maxChars encodes to the target. */
    ghost predicate Crackable()
      requires Valid()
    {
      exists c :: OverAlphabet(characters, c) && 1 <= |c| <= maxChars && Encode(md5, c) == goalEncoded
    }

    /** What a call of Guess promises of its result. */
    ghost predicate IsGuessResult(r: Option<string>)
      requires Valid()
    {
      (r.None? <==> !Crackable()) &&
      (r.Some? ==> exists len: nat, i: nat :: FirstHit(len, i) && r.value == Candidate(characters, len, i))
    }

    /** Searches the candidates of one length, in enumeration order, for the first one that encodes to the target. */
    method GuessForLength(length: nat) returns (r: Option<string>, ghost index: nat)
      requires Valid()
      ensures r.None? <==> forall k :: 0 <= k < Pow(|characters|, length) ==> !Hit(length, k)
      ensures r.Some? ==> (index < Pow(|characters|, length) &&
        r.value == Candidate(characters, length, index) && Hit(length, index) &&
        forall k :: 0 <= k < index ==> !Hit(length, k))
    {
      var total := Pow(|characters|, length);
      var i := 0;
      while i < total
        invariant 0 <= i <= total
        invariant forall k :: 0 <= k < i ==> !Hit(length, k)
      {
        var guess := Candidate(characters, length, i);
        if Encode(md5, guess) == goalEncoded {
          assert Hit(length, i);
          return Some(guess), i;
        }
        i := i + 1;
      }
      return None, 0;
    }

    /** Tries lengths 1..maxChars in ascending order and returns the first candidate that encodes to the target. */
    method Guess() returns (r: Option<string>)
      requires Valid()
      ensures IsGuessResult(r)
    {
      var length := 1;
      while length <= maxChars
        invariant 1 <= length && (maxChars >= 1 ==> length <= maxChars + 1)
        invariant forall l, k :: 1 <= l < length && 0 <= k < Pow(|characters|, l) ==> !Hit(l, k)
      {
        var g, i := GuessForLength(length);
        if g.Some? {
          FirstHitIsGuessResult(length, i);
          return g;
        }
        NoHitUpTo(length);
        length := length + 1;
      }
      NotCrackableWithoutHit(length);
      return None;
    }

    /** A length without hits extends the range of lengths already searched without a hit. */
    lemma NoHitUpTo(length: nat)
      requires Valid()
      requires forall l, k :: 1 <= l < length && 0 <= k < Pow(|characters|, l) ==> !Hit(l, k)
      requires forall k :: 0 <= k < Pow(|characters|, length) ==> !Hit(length, k)
      ensures forall l, k :: 1 <= l < length + 1 && 0 <= k < Pow(|characters|, l) ==> !Hit(l, k)
    {
    }

    /** The first hit in enumeration order is what Guess returns. */
    lemma FirstHitIsGuessResult(len: nat, i: nat)
      requires Valid() && FirstHit(len, i)
      ensures IsGuessResult(Some(Candidate(characters, len, i)))
    {
      var c := Candidate(characters, len, i);
      assert OverAlphabet(characters, c) && 1 <= |c| <= maxChars && Encode(md5, c) == goalEncoded;
    }

    /** When every candidate of every length below `bound` misses, no string of those lengths hits. */
    lemma NotCrackableWithoutHit(bound: int)
      requires Valid() && maxChars < bound
      requires forall l, k :: 1 <= l < bound && 0 <= k < Pow(|characters|, l) ==> !Hit(l, k)
      ensures !Crackable() && IsGuessResult(None)
    {
      forall c | OverAlphabet(characters, c) && 1 <= |c| <= maxChars
        ensures Encode(md5, c) != goalEncoded
      {
        RankBound(characters, c);
        CandidateOfRank(characters, c);
        assert !Hit(|c|, Rank(characters, c));
      }
    }

    /** Guess is deterministic: its promise pins the result down completely. */
    lemma GuessResultUnique(r1: Option<string>, r2: Option<string>)
      requires Valid() && IsGuessResult(r1) && IsGuessResult(r2)
      ensures r1 == r2
    {
      if r1.Some? {
        var l1: nat, i1: nat :| FirstHit(l1, i1) && r1.value == Candidate(characters, l1, i1);
        var l2: nat, i2: nat :| FirstHit(l2, i2) && r2.value == Candidate(characters, l2, i2);
        FirstHitUnique(l1, i1, l2, i2);
      }
    }

    /** There is only one first hit: two positions that are each hit first are the same position. */
    lemma FirstHitUnique(l1: nat, i1: nat, l2: nat, i2: nat)
      requires Valid() && FirstHit(l1, i1) && FirstHit(l2, i2)
      ensures l1 == l2 && i1 == i2
    {
      assert l1 <= l2 && l2 <= l1;
      assert i1 <= i2 && i2 <= i1;
    }

    /**
     * Round trip: for the digest of any string the search covers, Guess finds
     * a string with that digest, and it is that very string unless an earlier
     * candidate has the same digest.
     */
    lemma RoundTrip(c: string, r: Option<string>)
      requires Valid() && OverAlphabet(characters, c) && 1 <= |c| <= maxChars
      requires goalEncoded == Encode(md5, c) && IsGuessResult(r)
      ensures r.Some? && Encode(md5, r.value) == Encode(md5, c)
      ensures OverAlphabet(characters, r.value) && |r.value| <= maxChars
      ensures NoHitBefore(|c|, Rank(characters, c)) ==> r.value == c
    {
      assert Crackable();
      assert Encode(md5, r.value) == goalEncoded && OverAlphabet(characters, r.value) && |r.value| <= maxChars by {
        var l: nat, i: nat :| FirstHit(l, i) && r.value == Candidate(characters, l, i);
      }
      var p := Rank(characters, c);
      if NoHitBefore(|c|, p) {
        RankBound(characters, c);
        CandidateOfRank(characters, c);
        FirstHitIsGuessResult(|c|, p);
        GuessResultUnique(r, Some(c));
      }
    }

    /**
     * With a hash that has no collisions among inputs of at most maxChars bytes,
     * Guess on the digest of a covered string returns exactly that string.
     */
    lemma RoundTripCollisionFree(c: string, r: Option<string>)
      requires Valid() && OverAlphabet(characters, c) && 1 <= |c| <= maxChars
      requires CollisionFreeUpTo(md5, maxChars as nat)
      requires goalEncoded == Encode(md5, c) && IsGuessResult(r)
      ensures r == Some(c)
    {
      RoundTrip(c, r);
      CandidatesAreAscii(characters, c);
      CandidatesAreAscii(characters, r.value);
      EncodeInjectiveOnAscii(md5, maxChars as nat, r.value, c);
    }
  }

  /** Strings over an ASCII alphabet are ASCII, so the encoder's filter leaves them unchanged. */
  lemma CandidatesAreAscii(alpha: string, c: string)
    requires AllAscii(alpha) && OverAlphabet(alpha, c)
    ensures AllAscii(c) && AsciiFilter(c) == c
  {
    forall k | 0 <= k < |c|
      ensures IsAscii(c[k])
    {
      var j :| 0 <= j < |alpha| && alpha[j] == c[k];
    }
    AsciiFilterKeepsAscii(c);
  }

  /**
   * Digits, target the digest of "42", at most 2 characters: the search
   * recovers "42" under a hash without collisions on inputs of up to 2 bytes.
   */
  method GuessFortyTwo(md5: Hash) returns (r: Option<string>)
    requires CollisionFreeUpTo(md5, 2)
    ensures r == Some("42")
  {
    var engine := new BruteForce(Encode(md5, "42"), 2, Numbers, md5);
    r := engine.Guess();
    assert OverAlphabet(engine.characters, "42");
    engine.RoundTripCollisionFree("42", r);
  }

  /**
   * Digits, target the digest of "abc", at most 2 characters: the search fails
   * under a hash without collisions on inputs of up to 3 bytes.
   */
  method GuessOutOfReach(md5: Hash) returns (r: Option<string>)
    requires CollisionFreeUpTo(md5, 3)
    ensures r == None
  {
    var engine := new BruteForce(Encode(md5, "abc"), 2, Numbers, md5);
    r := engine.Guess();
    forall c | OverAlphabet(engine.characters, c) && 1 <= |c| <= 2
      ensures Encode(md5, c) != Encode(md5, "abc")
    {
      CandidatesAreAscii(engine.characters, c);
      if Encode(md5, c) == Encode(md5, "abc") {
        EncodeInjectiveOnAscii(md5, 3, c, "abc");
      }
    }
  }
}
