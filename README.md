# Password brute-force demonstration, modelled in Dafny

The program shows how weak short passwords are. It takes the MD5 digest of an
unknown password and tries every candidate over a small alphabet, shortest
first, until one candidate's digest matches. It also estimates how many
candidates there are and how long the search could take.

The model covers the five pieces of logic in `password.py`:

- **Alphabet** (`alphabet.dfy`): the `Complexity` classes and the ordered
  character lists they select. Digits are `0`-`9` and letters are `a`-`z`.
  Letters-and-numbers is the letters followed by the digits.
- **Encoder** (`encoder.dfy`): the ASCII codec with errors ignored, which
  drops every character outside ASCII, followed by a hash. The hash is a
  parameter `md5: seq<byte> -> Digest`, so the model never computes MD5.
- **Candidates** (`candidates.dfy`): the strings `itertools.product(characters,
  repeat=length)` yields, indexed by position. Candidate number `i` of length
  `L` spells the `L` base-`n` digits of `i`, most significant first. `Rank` is
  its inverse.
- **Engine** (`engine.dfy`): class `BruteForce`. Its fields are fixed by the
  constructor and never change, so they are `const`. `GuessForLength` and
  `Guess` are loops with early return, proved against the first-match and
  exhaustion properties.
- **Estimator** (`estimator.dfy`): the `combinations` loop of `estimate`.
- **Duration** (`duration.dfy`): `_format_guess_time`, over a whole number of
  seconds.

Python's `//` and `%` agree with Dafny's Euclidean `/` and `%` on the
non-negative values used here.

Two behaviours of the code that a reader might not expect, both modelled as
the code has them:

- The letters-and-numbers alphabet is not in ascending character order. The
  letters come before the digits, as the code builds it.
- `estimate` does not reject a maximum length below 1. It sums an empty range
  and reports 0 candidates (`Estimator.Combinations`), just as `guess` treats
  such a length as an empty search.

## Model

| member | source | states |
|---|---|---|
| `Alphabet.PasswordCharacters` | password.py:126-132 | numbers, letters and letters-and-numbers give exactly the 10 digits, the 26 lowercase letters, and the letters followed by the digits (36); no character repeats and all are ASCII |
| `Alphabet.DigitsAndLetters` | password.py:128-132 | the digit list is the 10 consecutive characters from `0`; the letter list is the 26 consecutive characters from `a` |
| `Encoder.AsciiBytes` | password.py:122 | the ASCII codec with `ignore` never lengthens the text; on an ASCII-only string it yields one byte per character, equal to its code |
| `Encoder.AsciiFilter` | password.py:122 | the kept text is ASCII-only and no longer than the input |
| `Encoder.AsciiFilterMembers` | password.py:122 | the kept characters are exactly the ASCII characters of the input |
| `Encoder.AsciiFilterSingle` | password.py:122 | a single character is kept when it is ASCII and dropped otherwise |
| `Encoder.AsciiFilterAppend` | password.py:122 | filtering a concatenation gives the filtered parts, in order; with `AsciiFilterSingle` this fixes the filter on every input |
| `Encoder.AsciiBytesAppend` | password.py:122 | the ASCII codec converts a concatenation part by part, in order |
| `Encoder.AsciiBytesOfFilter` | password.py:122 | dropping the non-ASCII characters first does not change the bytes the codec produces |
| `Encoder.Encode` | password.py:121-123 | the digest is the hash of the bytes of the ASCII characters of the password, in order |
| `Encoder.EncodeIgnoresNonAscii` | password.py:121-123 | the digest of a string equals the digest of its ASCII-filtered form |
| `Encoder.AsciiFilterKeepsAscii` | password.py:122 | an ASCII-only string passes the filter unchanged |
| `Encoder.AsciiBytesInjective` | password.py:122 | two ASCII-only strings with the same bytes are equal |
| `Encoder.EncodeInjectiveOnAscii` | password.py:121-123 | with a hash free of collisions on inputs up to some length, two ASCII-only strings within that length with the same digest are equal |
| `Candidates.Candidate` | password.py:58-64 | candidate `i` of length `L` has length `L` and only alphabet characters |
| `Candidates.RankBound` | password.py:58-64 | every string over the alphabet has a position below `n^L` among the candidates of its length |
| `Candidates.CandidateOfRank` | password.py:60-61 | every string over the alphabet is enumerated, at its rank |
| `Candidates.RankOfCandidate` | password.py:60-61 | with distinct characters, the rank of candidate `i` is `i` |
| `Candidates.CandidateInjective` | password.py:60-61 | the `n^L` positions of one length give `n^L` different candidates |
| `Candidates.RankOrder` | password.py:60 | of two equal-length strings, the one with the smaller rank is lexicographically first by alphabet position |
| `Candidates.CandidateOrder` | password.py:60 | candidates come in lexicographic order by alphabet position, leftmost position varying slowest |
| `Engine.BruteForce.constructor` | password.py:27-30 | stores the target digest, the maximum length and the complexity's alphabet; the alphabet is non-empty, repeat-free and ASCII |
| `Engine.BruteForce.GuessForLength` | password.py:48-56 | returns the candidate at some position of the given length whose digest is the target, no earlier candidate of that length matching; returns `None` exactly when no candidate of that length matches |
| `Engine.BruteForce.Guess` | password.py:32-46 | tries lengths 1..max in ascending order; `None` exactly when no string over the alphabet of length 1..max has the target digest (so at once when max < 1); otherwise the first matching candidate in enumeration order |
| `Engine.BruteForce.FirstHitIsGuessResult` | password.py:37-43 | the first hit in enumeration order satisfies everything `Guess` promises |
| `Engine.BruteForce.NotCrackableWithoutHit` | password.py:35-46 | when every enumerated candidate of lengths 1..max misses, no string over the alphabet of those lengths has the target digest, and `None` is the right answer |
| `Engine.BruteForce.GuessResultUnique` | password.py:32-56 | the search is deterministic: two results that meet `Guess`'s promise are equal |
| `Engine.BruteForce.FirstHitUnique` | password.py:35-54 | there is one first hit: two (length, position) pairs that each match with no earlier match are the same pair |
| `Engine.BruteForce.RoundTrip` | password.py:51-54 | for the digest of a covered string `c`, the search finds a string with `c`'s digest; it is `c` itself when no earlier candidate has that digest |
| `Engine.BruteForce.RoundTripCollisionFree` | password.py:51-54 | with a hash free of collisions on inputs of at most max bytes, searching for the digest of a covered string `c` returns exactly `c` |
| `Engine.CandidatesAreAscii` | password.py:122 | every string over an ASCII alphabet is ASCII and unchanged by the encoder's filter |
| `Engine.GuessFortyTwo` | password.py:73-80 | digits, maximum length 2, target the digest of "42": the search returns "42" (hash without collisions on inputs up to 2 bytes) |
| `Engine.GuessOutOfReach` | password.py:73-80 | digits, maximum length 2, target the digest of "abc": the search returns `None` (hash without collisions on inputs up to 3 bytes) |
| `Estimator.Combinations` | password.py:88-93 | the accumulated count is the sum of `n^len` for `len` in 1..max; 0 when max < 1 |
| `Estimator.SearchSpaceClosedForm` | password.py:90-93 | `(n - 1) * combinations == n^(max+1) - n`, the geometric-series closed form |
| `Estimator.SearchSpaceExamples` | password.py:88-93 | (digits, 1) gives 10, (digits, 2) gives 110, (letters, 3) gives 18278, (letters-and-numbers, 4) gives 1727604 |
| `Duration.TimeParts` | password.py:104-110 | five buckets, most significant first; days < 365, hours < 24, minutes < 60, seconds < 60; years*31536000 + days*86400 + hours*3600 + minutes*60 + seconds == t |
| `Duration.BucketsZeroIffZero` | password.py:104-110 | every bucket is zero exactly when t == 0 |
| `Duration.NonZero` | password.py:112-116 | a bucket is kept exactly when its number is non-zero; nothing is added |
| `Duration.NonZeroInUnitOrder` | password.py:112-116 | the kept buckets stay in order: years, days, hours, minutes, seconds |
| `Duration.FormatPart` | password.py:113 | a bucket is rendered as decimal digits that read back as its number, with no leading zero when the number is positive, then one space and the unit name; it holds no comma |
| `Duration.JoinParts` | password.py:112-116 | the joined text is empty exactly when there are no buckets; otherwise it starts with a digit and holds one comma per pair of neighbouring buckets |
| `Duration.SplitJoinParts` | password.py:112-116 | splitting the joined text at ", " gives back the formatted buckets, one field each, in their order |
| `Duration.FormatGuessTime` | password.py:103-118 | the text is "< 1 second" exactly when every bucket is zero, that is, exactly when t == 0; otherwise it is the join of the non-zero buckets, starts with a digit and has one comma fewer than there are non-zero buckets |
| `Duration.FormatGuessTimeFields` | password.py:103-118 | for t > 0, splitting the text at ", " gives one "<number> <unit>" field per non-zero bucket, exactly those buckets, years first and seconds last |
| `Duration.NatToString` | password.py:113 | a bucket's number is printed as a non-empty string of decimal digits with no leading zero |
| `Duration.ParseNatToString` | password.py:113 | reading the printed digits back gives the number |

## Left out

- The MD5 digest (RFC 1321) and its rendering as 32 lowercase hexadecimal characters are not computed. The hash is a parameter of the encoder and of `BruteForce`, so every property holds for any hash function.
- The float division `combinations / performance` and its `{:.0f}` rendering are left out. `FormatGuessTime` takes a whole number of seconds, so a fractional part below one second is not represented.
- `estimate` as a whole is not modelled: its division by `performance` is floating point, and the rest prints. Only its integer count is modelled (`Estimator.Combinations`).
- The `tqdm` progress bar and `guesses.close()` only report progress.
- The `print` and `input` calls in `guess`, `encode`, `estimate` and `BruteForce.guess` are console I/O. The top-level `encode` wrapper is only a prompt and a print around `_encode`.
- Argument parsing, `_print_help`, `_init_parser`, `Complexity.choices` and the enum's string values are command-line plumbing. `Complexity` is a closed datatype, so `_password_characters`'s implicit `None` for an unknown value cannot arise.
- The generator's laziness: candidates are computed by position (`Candidates.Candidate`), not produced by a lazy iterator. The loop in `GuessForLength` runs over positions below `n^L`, the number of tuples the product yields.
- Engine.GuessFortyTwo: assumes the hash has no collisions among inputs of up to 2 bytes. Whether MD5 has such collisions is not proved here. Where a collision exists, the result is only a string with the same digest (`Engine.BruteForce.RoundTrip`).
- Engine.GuessOutOfReach: assumes the hash has no collisions among inputs of up to 3 bytes, for the same reason.
- Engine.BruteForce.RoundTripCollisionFree: assumes the hash has no collisions among inputs of at most `maxChars` bytes. For long inputs no 128-bit hash can meet this, and then only `Engine.BruteForce.RoundTrip` applies.
