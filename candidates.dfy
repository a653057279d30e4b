/**
 * The candidates of one length, as the product of the alphabet with itself
 * enumerates them: candidate number i of length L spells the L base-n digits
 * of i, most significant first, each digit picking a character of the
 * alphabet. Position 0 is therefore the leftmost and varies slowest.
 */
module Candidates {
  import opened Alphabet

  function Pow(n: nat, k: nat): (p: nat)
    ensures n > 0 ==> p > 0
  {
    if k == 0 then 1 else Pow(n, k - 1) * n
  }

  /** Every character of `c` belongs to `alpha`. */
  predicate OverAlphabet(alpha: string, c: string) {
    forall k :: 0 <= k < |c| ==> c[k] in alpha
  }

  /** Candidate number `i` among those of length `len`. */
  function Candidate(alpha: string, len: nat, i: nat): (c: string)
    requires |alpha| > 0
    ensures |c| == len && OverAlphabet(alpha, c)
  {
    if len == 0 then []
    else Candidate(alpha, len - 1, i / |alpha|) + [alpha[i % |alpha|]]
  }

  /** The position of `ch` in `alpha` (its first one). */
  function IndexOf(alpha: string, ch: char): (k: nat)
    requires ch in alpha
    ensures k < |alpha| && alpha[k] == ch
    ensures forall j :: 0 <= j < k ==> alpha[j] != ch
  {
    if alpha[0] == ch then 0 else 1 + IndexOf(alpha[1..], ch)
  }

  /** The position of `c` in the enumeration of its length: its digits read in base |alpha|. */
  function Rank(alpha: string, c: string): nat
    requires OverAlphabet(alpha, c)
  {
    if c == [] then 0
    else Rank(alpha, c[..|c| - 1]) * |alpha| + IndexOf(alpha, c[|c| - 1])
  }

  /** `a` comes before `b` in lexicographic order by alphabet position. */
  ghost predicate LexBefore(alpha: string, a: string, b: string)
    requires OverAlphabet(alpha, a) && OverAlphabet(alpha, b)
  {
    exists k :: 0 <= k < |a| && k < |b| && a[..k] == b[..k] && IndexOf(alpha, a[k]) < IndexOf(alpha, b[k])
  }

  /** Multiplying by a natural number preserves `<=`. */
  lemma MulMonotone(a: int, b: int, n: nat)
    ensures a <= b ==> a * n <= b * n
  {
    if a <= b {
      assert b * n - a * n == (b - a) * n;
    }
  }

  /** Euclidean division is determined by quotient and remainder. */
  lemma DivModUnique(x: int, n: nat, q: int, r: int)
    requires n > 0 && x == q * n + r && 0 <= r < n
    ensures x / n == q && x % n == r
  {
    var q', r' := x / n, x % n;
    assert x == q' * n + r';
    assert (q - q') * n == r' - r;
    MulMonotone(1, q - q', n);
    MulMonotone(q - q', -1, n);
  }

  lemma DivBound(i: nat, n: nat, p: nat)
    requires n > 0 && i < p * n
    ensures i / n < p
  {
    assert i == (i / n) * n + i % n;
    MulMonotone(p, i / n, n);
  }

  lemma MulBound(r: nat, d: nat, p: nat, n: nat)
    requires r < p && d < n
    ensures r * n + d < p * n
  {
    MulMonotone(r + 1, p, n);
    assert (r + 1) * n == r * n + n;
  }

  lemma DivModSplit(i: nat, n: nat)
    requires n > 0
    ensures i == (i / n) * n + i % n && i % n < n
  {
  }

  /** In an alphabet without repeats, the position of its k-th character is k. */
  lemma IndexOfDistinct(alpha: string, k: nat)
    requires Distinct(alpha) && k < |alpha|
    ensures IndexOf(alpha, alpha[k]) == k
  {
  }

  /** Comparing two base-n numbers by their last digit and the rest. */
  lemma MulOrder(ra: nat, da: nat, rb: nat, db: nat, n: nat)
    requires da < n && db < n && ra * n + da < rb * n + db
    ensures ra <= rb && (ra == rb ==> da < db)
  {
    MulMonotone(rb + 1, ra, n);
    assert (rb + 1) * n == rb * n + n;
  }

  /** Each string over the alphabet has a position among the Pow(|alpha|, |c|) candidates of its length. */
  lemma {:induction false} RankBound(alpha: string, c: string)
    requires |alpha| > 0 && OverAlphabet(alpha, c)
    ensures Rank(alpha, c) < Pow(|alpha|, |c|)
  {
    if c != [] {
      var p := c[..|c| - 1];
      RankBound(alpha, p);
      MulBound(Rank(alpha, p), IndexOf(alpha, c[|c| - 1]), Pow(|alpha|, |p|), |alpha|);
    }
  }

  /** Every string over the alphabet is enumerated: at its rank. */
  lemma {:induction false} CandidateOfRank(alpha: string, c: string)
    requires |alpha| > 0 && OverAlphabet(alpha, c)
    ensures Candidate(alpha, |c|, Rank(alpha, c)) == c
  {
    if c != [] {
      var n, p := |alpha|, c[..|c| - 1];
      var d := IndexOf(alpha, c[|c| - 1]);
      CandidateOfRank(alpha, p);
      DivModUnique(Rank(alpha, c), n, Rank(alpha, p), d);
      assert c == p + [c[|c| - 1]];
    }
  }

  /** With distinct characters, the rank of candidate number i is i: no two positions give the same string. */
  lemma {:induction false} RankOfCandidate(alpha: string, len: nat, i: nat)
    requires |alpha| > 0 && Distinct(alpha) && i < Pow(|alpha|, len)
    ensures Rank(alpha, Candidate(alpha, len, i)) == i
  {
    if len > 0 {
      var n := |alpha|;
      var q, d := i / n, i % n;
      var c := Candidate(alpha, len, i);
      DivBound(i, n, Pow(n, len - 1));
      DivModSplit(i, n);
      RankOfCandidate(alpha, len - 1, q);
      assert c[..len - 1] == Candidate(alpha, len - 1, q);
      IndexOfDistinct(alpha, d);
      assert Rank(alpha, c) == q * n + d;
    }
  }

  /** Distinct positions of one length give distinct candidates. */
  lemma CandidateInjective(alpha: string, len: nat, i: nat, j: nat)
    requires |alpha| > 0 && Distinct(alpha)
    requires i < Pow(|alpha|, len) && j < Pow(|alpha|, len)
    requires Candidate(alpha, len, i) == Candidate(alpha, len, j)
    ensures i == j
  {
    RankOfCandidate(alpha, len, i);
    RankOfCandidate(alpha, len, j);
  }

  /** A non-empty string is its front followed by its last character. */
  lemma SplitLast(s: string)
    requires |s| > 0
    ensures s == s[..|s| - 1] + [s[|s| - 1]]
  {
  }

  /**
   * Strings that extend two strings of equal length by one character each are
   * ordered when the prefixes are, or when the prefixes agree and the last
   * characters are ordered.
   */
  lemma LexBeforeOfExtension(alpha: string, a: string, b: string, pa: string, pb: string, x: char, y: char)
    requires OverAlphabet(alpha, pa) && OverAlphabet(alpha, pb) && x in alpha && y in alpha
    requires a == pa + [x] && b == pb + [y] && |pa| == |pb|
    requires LexBefore(alpha, pa, pb) || (pa == pb && IndexOf(alpha, x) < IndexOf(alpha, y))
    ensures OverAlphabet(alpha, a) && OverAlphabet(alpha, b)
    ensures LexBefore(alpha, a, b)
  {
    if LexBefore(alpha, pa, pb) {
      var k :| 0 <= k < |pa| && k < |pb| && pa[..k] == pb[..k] && IndexOf(alpha, pa[k]) < IndexOf(alpha, pb[k]);
      assert a[..k] == pa[..k] && b[..k] == pb[..k];
      assert a[k] == pa[k] && b[k] == pb[k];
    } else {
      var k := |pa|;
      assert a[..k] == pa == b[..k];
      assert a[k] == x && b[k] == y;
    }
  }

  /** Of two strings of equal length over the alphabet, the one of smaller rank is lexicographically first. */
  lemma {:induction false} RankOrder(alpha: string, a: string, b: string)
    requires |alpha| > 0 && OverAlphabet(alpha, a) && OverAlphabet(alpha, b)
    requires |a| == |b| && Rank(alpha, a) < Rank(alpha, b)
    ensures LexBefore(alpha, a, b)
  {
    var n := |a| - 1;
    var pa, pb, x, y := a[..n], b[..n], a[n], b[n];
    var ra, rb := Rank(alpha, pa), Rank(alpha, pb);
    assert ra <= rb && (ra == rb ==> IndexOf(alpha, x) < IndexOf(alpha, y)) by {
      MulOrder(ra, IndexOf(alpha, x), rb, IndexOf(alpha, y), |alpha|);
    }
    assert LexBefore(alpha, pa, pb) || (pa == pb && IndexOf(alpha, x) < IndexOf(alpha, y)) by {
      if ra < rb {
        RankOrder(alpha, pa, pb);
      } else {
        CandidateOfRank(alpha, pa);
        CandidateOfRank(alpha, pb);
      }
    }
    SplitLast(a);
    SplitLast(b);
    LexBeforeOfExtension(alpha, a, b, pa, pb, x, y);
  }

  /** Enumeration order is lexicographic by alphabet position, leftmost position slowest. */
  lemma CandidateOrder(alpha: string, len: nat, i: nat, j: nat)
    requires |alpha| > 0 && Distinct(alpha)
    requires i < j < Pow(|alpha|, len)
    ensures LexBefore(alpha, Candidate(alpha, len, i), Candidate(alpha, len, j))
  {
    RankOfCandidate(alpha, len, i);
    RankOfCandidate(alpha, len, j);
    RankOrder(alpha, Candidate(alpha, len, i), Candidate(alpha, len, j));
  }
}
