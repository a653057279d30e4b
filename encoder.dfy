/**
 * Turning a password into its digest: the text is reduced to ASCII bytes,
 * dropping every character outside ASCII, and the bytes are hashed with MD5.
 * MD5 itself is a parameter of the model (`Hash`), not something it computes.
 */
module Encoder {
  import opened Alphabet

  newtype byte = b: int | 0 <= b < 256

  /** A rendered digest (for MD5, 32 lowercase hexadecimal characters). */
  type Digest = string

  /** A hash function from bytes to its rendered digest. */
  type Hash = seq<byte> -> Digest

  /** The bytes of `s` under the ASCII codec with errors ignored. */
  function AsciiBytes(s: string): (bytes: seq<byte>)
    ensures |bytes| <= |s|
    ensures AllAscii(s) ==> |bytes| == |s| && forall i :: 0 <= i < |s| ==> bytes[i] as int == s[i] as int
  {
    if s == [] then []
    else (if IsAscii(s[0]) then [s[0] as int as byte] else []) + AsciiBytes(s[1..])
  }

  /** The characters of `s` that survive the ASCII codec, in their order. */
  function AsciiFilter(s: string): (kept: string)
    ensures AllAscii(kept) && |kept| <= |s|
  {
    if s == [] then []
    else (if IsAscii(s[0]) then [s[0]] else []) + AsciiFilter(s[1..])
  }

  /** The kept characters are exactly the ASCII characters of the input. */
  lemma {:induction false} AsciiFilterMembers(s: string)
    ensures forall c :: c in AsciiFilter(s) <==> c in s && IsAscii(c)
  {
    if s != [] {
      AsciiFilterMembers(s[1..]);
      assert s == [s[0]] + s[1..];
    }
  }

  /** The digest of a password as the program computes it: only its ASCII characters, in order, are hashed. */
  function Encode(md5: Hash, raw: string): (digest: Digest)
    ensures digest == md5(AsciiBytes(AsciiFilter(raw)))
  {
    AsciiBytesOfFilter(raw);
    md5(AsciiBytes(raw))
  }

  /** The filter works character by character: it keeps an ASCII character and drops any other. */
  lemma AsciiFilterSingle(c: char)
    ensures AsciiFilter([c]) == if IsAscii(c) then [c] else []
  {
    assert [c][1..] == [];
  }

  /** Filtering a concatenation filters each part and keeps them in order. */
  lemma {:induction false} AsciiFilterAppend(s: string, t: string)
    ensures AsciiFilter(s + t) == AsciiFilter(s) + AsciiFilter(t)
  {
    if s != [] {
      AsciiFilterAppend(s[1..], t);
      assert (s + t)[1..] == s[1..] + t;
    } else {
      assert s + t == t;
    }
  }

  /** The byte conversion, too, converts a concatenation part by part. */
  lemma {:induction false} AsciiBytesAppend(s: string, t: string)
    ensures AsciiBytes(s + t) == AsciiBytes(s) + AsciiBytes(t)
  {
    if s != [] {
      AsciiBytesAppend(s[1..], t);
      assert (s + t)[1..] == s[1..] + t;
    } else {
      assert s + t == t;
    }
  }

  /** `md5` gives different digests to different byte sequences of at most `bound` bytes. */
  ghost predicate CollisionFreeUpTo(md5: Hash, bound: nat) {
    forall x, y :: |x| <= bound && |y| <= bound && md5(x) == md5(y) ==> x == y
  }

  /** Filtering first does not change the bytes that are hashed. */
  lemma {:induction false} AsciiBytesOfFilter(s: string)
    ensures AsciiBytes(AsciiFilter(s)) == AsciiBytes(s)
  {
    if s != [] {
      AsciiBytesOfFilter(s[1..]);
      var head := if IsAscii(s[0]) then [s[0]] else [];
      assert AsciiFilter(s) == head + AsciiFilter(s[1..]);
      if IsAscii(s[0]) {
        assert (head + AsciiFilter(s[1..]))[1..] == AsciiFilter(s[1..]);
      } else {
        assert head + AsciiFilter(s[1..]) == AsciiFilter(s[1..]);
      }
    }
  }

  /** Non-ASCII characters are invisible to the encoding. */
  lemma EncodeIgnoresNonAscii(md5: Hash, s: string)
    ensures Encode(md5, s) == Encode(md5, AsciiFilter(s))
  {
    AsciiBytesOfFilter(s);
  }

  /** An ASCII-only string passes the filter unchanged. */
  lemma {:induction false} AsciiFilterKeepsAscii(s: string)
    requires AllAscii(s)
    ensures AsciiFilter(s) == s
  {
    if s != [] {
      AsciiFilterKeepsAscii(s[1..]);
    }
  }

  /** On ASCII-only strings the byte conversion loses nothing. */
  lemma AsciiBytesInjective(s: string, t: string)
    requires AllAscii(s) && AllAscii(t)
    requires AsciiBytes(s) == AsciiBytes(t)
    ensures s == t
  {
    assert |s| == |t|;
    forall i | 0 <= i < |s|
      ensures s[i] == t[i]
    {
      assert AsciiBytes(s)[i] == AsciiBytes(t)[i];
    }
  }

  /** With a hash collision-free on short inputs, distinct short ASCII passwords have distinct digests. */
  lemma EncodeInjectiveOnAscii(md5: Hash, bound: nat, s: string, t: string)
    requires CollisionFreeUpTo(md5, bound) && |s| <= bound && |t| <= bound
    requires AllAscii(s) && AllAscii(t)
    requires Encode(md5, s) == Encode(md5, t)
    ensures s == t
  {
    AsciiBytesInjective(s, t);
  }
}
