/**
 * Rendering an estimated duration, taken here in whole seconds, as the
 * non-zero counts of 365-day years, days, hours, minutes and seconds.
 */
module Duration {

  datatype Unit = Years | Days | Hours | Minutes | Seconds

  function UnitName(u: Unit): (name: string)
    ensures ',' !in name
  {
    match u
    case Years => "years"
    case Days => "days"
    case Hours => "hours"
    case Minutes => "minutes"
    case Seconds => "seconds"
  }

  /** The position of a unit in the output, most significant first. */
  function Significance(u: Unit): nat {
    match u
    case Years => 0
    case Days => 1
    case Hours => 2
    case Minutes => 3
    case Seconds => 4
  }

  datatype TimePart = TimePart(number: nat, unit: Unit)

  const SecondsPerMinute := 60
  const SecondsPerHour := 60 * 60
  const SecondsPerDay := 24 * 60 * 60
  const SecondsPerYear := 365 * 24 * 60 * 60

  /** The five buckets of `t` seconds, most significant first: each below its wrap-around, and together exactly `t`. */
  function TimeParts(t: nat): (parts: seq<TimePart>)
    ensures |parts| == 5 && InUnitOrder(parts)
    ensures parts[1].number < 365 && parts[2].number < 24 && parts[3].number < 60 && parts[4].number < 60
    ensures parts[0].number * 31536000 + parts[1].number * 86400 + parts[2].number * 3600 +
      parts[3].number * 60 + parts[4].number == t
  {
    var m, h, d := t / 60, t / 3600, t / 86400;
    assert t == m * 60 + t % 60;
    assert h == m / 60 && m == h * 60 + m % 60;
    assert d == h / 24 && h == d * 24 + h % 24;
    assert t / 31536000 == d / 365 && d == (d / 365) * 365 + d % 365;
    [ TimePart(t / SecondsPerYear, Years),
      TimePart(t / SecondsPerDay % 365, Days),
      TimePart(t / SecondsPerHour % 24, Hours),
      TimePart(t / SecondsPerMinute % 60, Minutes),
      TimePart(t / 1 % 60, Seconds) ]
  }

  /** The units of `parts` appear in strictly decreasing significance. */
  predicate InUnitOrder(parts: seq<TimePart>) {
    forall i, j :: 0 <= i < j < |parts| ==> Significance(parts[i].unit) < Significance(parts[j].unit)
  }

  /** The parts with a non-zero number, in their order: exactly those are kept. */
  function NonZero(parts: seq<TimePart>): (kept: seq<TimePart>)
    ensures |kept| <= |parts|
    ensures forall p :: p in kept <==> p in parts && p.number > 0
  {
    if parts == [] then []
    else
      assert parts == [parts[0]] + parts[1..];
      (if parts[0].number > 0 then [parts[0]] else []) + NonZero(parts[1..])
  }

  /** Every character of `s` is a decimal digit. */
  predicate IsDecimal(s: string) {
    forall i :: 0 <= i < |s| ==> '0' <= s[i] <= '9'
  }

  /** The decimal digits of `n`, without leading zeros. */
  function NatToString(n: nat): (s: string)
    ensures |s| > 0 && IsDecimal(s) && ',' !in s
    ensures n > 0 ==> s[0] != '0'
  {
    var digit := ['0' + (n % 10) as char];
    if n < 10 then digit else NatToString(n / 10) + digit
  }

  /** The number a string of decimal digits denotes. */
  function ParseNat(s: string): nat
    requires IsDecimal(s)
  {
    if s == [] then 0 else ParseNat(s[..|s| - 1]) * 10 + (s[|s| - 1] - '0') as nat
  }

  /** Where the number, the space and the unit name sit in a formatted bucket. */
  lemma FormattedPieces(digits: string, name: string)
    ensures var s := digits + " " + name;
      |s| - |name| - 1 == |digits| && s[..|digits|] == digits && s[|digits|] == ' ' && s[|digits| + 1..] == name
  {
    var s := digits + " " + name;
    assert s[..|digits|] == digits;
    assert s[|digits| + 1..] == name;
  }

  /** One bucket as "<number> <unit>": decimal digits that read back as the number, a space, the unit name. */
  function FormatPart(p: TimePart): (s: string)
    ensures var k := |s| - |UnitName(p.unit)| - 1;
      0 < k && s[k] == ' ' && s[k + 1..] == UnitName(p.unit) &&
      IsDecimal(s[..k]) && ParseNat(s[..k]) == p.number
    ensures p.number > 0 ==> s[0] != '0'
    ensures ',' !in s
  {
    var digits, name := NatToString(p.number), UnitName(p.unit);
    ParseNatToString(p.number);
    FormattedPieces(digits, name);
    assert (digits + " " + name)[0] == digits[0];
    digits + " " + name
  }

  /**
   * The formatted parts, separated by ", ": empty exactly when there are no
   * parts, otherwise starting with a digit, with one comma between each two
   * neighbouring parts and none elsewhere.
   */
  function JoinParts(parts: seq<TimePart>): (s: string)
    ensures s == "" <==> parts == []
    ensures parts != [] ==> '0' <= s[0] <= '9'
    ensures parts != [] ==> multiset(s)[','] == |parts| - 1
  {
    if parts == [] then ""
    else if |parts| == 1 then FormatPart(parts[0])
    else
      var first, rest := FormatPart(parts[0]), JoinParts(parts[1..]);
      assert multiset(first + ", " + rest) == multiset(first) + multiset(", ") + multiset(rest);
      first + ", " + rest
  }

  const Fallback := "< 1 second"

  /**
   * The human-readable estimate: the fallback exactly when the duration is
   * zero, which is exactly when every bucket is zero; otherwise the non-zero
   * buckets, separated by commas, starting with a digit.
   */
  function FormatGuessTime(t: nat): (text: string)
    ensures text == Fallback <==> t == 0
    ensures text == Fallback <==> forall p :: p in TimeParts(t) ==> p.number == 0
    ensures |text| > 0
    ensures t > 0 ==> '0' <= text[0] <= '9' && multiset(text)[','] + 1 == |NonZero(TimeParts(t))|
    ensures t > 0 ==> text == JoinParts(NonZero(TimeParts(t)))
  {
    var kept := NonZero(TimeParts(t));
    var formatted := JoinParts(kept);
    assert Fallback[0] == '<';
    BucketsZeroIffZero(t);
    assert kept != [] ==> kept[0] in TimeParts(t);
    if formatted == "" then Fallback else formatted
  }

  /** Every bucket is zero exactly when the duration is. */
  lemma BucketsZeroIffZero(t: nat)
    ensures (forall p :: p in TimeParts(t) ==> p.number == 0) <==> t == 0
  {
    var parts := TimeParts(t);
    if t > 0 {
      var k :| 0 <= k < 5 && parts[k].number > 0;
    }
  }

  /** A part of lower significance than every part of an ordered sequence can lead it. */
  lemma ConsInUnitOrder(p: TimePart, rest: seq<TimePart>)
    requires InUnitOrder(rest)
    requires forall q :: q in rest ==> Significance(p.unit) < Significance(q.unit)
    ensures InUnitOrder([p] + rest)
  {
    var r := [p] + rest;
    forall i, j | 0 <= i < j < |r|
      ensures Significance(r[i].unit) < Significance(r[j].unit)
    {
      assert r[j] == rest[j - 1];
      if i > 0 {
        assert r[i] == rest[i - 1];
      }
    }
  }

  /** The kept parts stay in unit order. */
  lemma {:induction false} NonZeroInUnitOrder(parts: seq<TimePart>)
    requires InUnitOrder(parts)
    ensures InUnitOrder(NonZero(parts))
  {
    if parts != [] {
      var tail := parts[1..];
      var rest := NonZero(tail);
      assert InUnitOrder(tail);
      NonZeroInUnitOrder(tail);
      if parts[0].number > 0 {
        assert NonZero(parts) == [parts[0]] + rest;
        forall q | q in rest
          ensures Significance(parts[0].unit) < Significance(q.unit)
        {
          var k :| 0 <= k < |tail| && tail[k] == q;
          assert parts[k + 1] == q;
        }
        ConsInUnitOrder(parts[0], rest);
      } else {
        assert NonZero(parts) == rest;
      }
    }
  }

  /** The pieces of `s` between the occurrences of ", ", read left to right, as Python's `str.split(", ")`. */
  function SplitFields(s: string): (fields: seq<string>)
    ensures |fields| > 0
  {
    if |s| < 2 then [s]
    else if s[..2] == ", " then [""] + SplitFields(s[2..])
    else
      var rest := SplitFields(s[1..]);
      [[s[0]] + rest[0]] + rest[1..]
  }

  /** A text without a comma is a single field. */
  lemma {:induction false} SplitWithoutComma(f: string)
    requires ',' !in f
    ensures SplitFields(f) == [f]
  {
    if |f| >= 2 {
      assert f[0] != ',';
      SplitWithoutComma(f[1..]);
      assert [f[0]] + f[1..] == f;
    }
  }

  /** A comma-free text before the first ", " is the first field. */
  lemma {:induction false} SplitAfterField(f: string, r: string)
    requires ',' !in f
    ensures SplitFields(f + ", " + r) == [f] + SplitFields(r)
  {
    var s := f + ", " + r;
    if f == [] {
      assert s == ", " + r && s[..2] == ", " && s[2..] == r;
    } else {
      var tail := f[1..];
      assert ',' !in tail by {
        forall k | 0 <= k < |tail| ensures tail[k] != ',' {
          assert tail[k] == f[k + 1];
        }
      }
      assert |s| >= 2 && s[0] == f[0] && s[0] != ',';
      assert s[1..] == tail + ", " + r;
      SplitAfterField(tail, r);
      assert [f[0]] + tail == f;
    }
  }

  /** Splitting the joined text at ", " gives back each formatted part, in order. */
  lemma {:induction false} SplitJoinParts(parts: seq<TimePart>)
    requires parts != []
    ensures var fields := SplitFields(JoinParts(parts));
      |fields| == |parts| && forall i :: 0 <= i < |parts| ==> fields[i] == FormatPart(parts[i])
  {
    if |parts| == 1 {
      SplitWithoutComma(FormatPart(parts[0]));
    } else {
      var first, rest := FormatPart(parts[0]), parts[1..];
      var tailFields := SplitFields(JoinParts(rest));
      SplitJoinParts(rest);
      assert SplitFields(JoinParts(parts)) == [first] + tailFields by {
        assert JoinParts(parts) == first + ", " + JoinParts(rest);
        SplitAfterField(first, JoinParts(rest));
      }
      FieldsCons(parts, FormatPart, first, tailFields);
    }
  }

  /** Prepending the image of the first item to the images of the others gives the images of all items. */
  lemma FieldsCons<T>(items: seq<T>, f: T -> string, first: string, tailFields: seq<string>)
    requires |items| > 1 && first == f(items[0]) && |tailFields| == |items| - 1
    requires forall i :: 0 <= i < |tailFields| ==> tailFields[i] == f(items[1..][i])
    ensures var fields := [first] + tailFields;
      |fields| == |items| && forall i :: 0 <= i < |items| ==> fields[i] == f(items[i])
  {
    forall i | 0 < i < |items|
      ensures ([first] + tailFields)[i] == f(items[i])
    {
      assert items[1..][i - 1] == items[i];
    }
  }

  /**
   * A non-zero duration is rendered as the fields "<number> <unit>" of exactly
   * its non-zero buckets, most significant first, separated by ", ".
   */
  lemma FormatGuessTimeFields(t: nat)
    requires t > 0
    ensures var kept, fields := NonZero(TimeParts(t)), SplitFields(FormatGuessTime(t));
      (forall p :: p in kept <==> p in TimeParts(t) && p.number > 0) && InUnitOrder(kept) &&
      |fields| == |kept| && forall i :: 0 <= i < |kept| ==> fields[i] == FormatPart(kept[i])
  {
    var kept := NonZero(TimeParts(t));
    NonZeroInUnitOrder(TimeParts(t));
    BucketsZeroIffZero(t);
    assert kept != [];
    SplitJoinParts(kept);
  }

  /** Decimal rendering round-trips. */
  lemma {:induction false} ParseNatToString(n: nat)
    ensures ParseNat(NatToString(n)) == n
  {
    if n >= 10 {
      ParseNatToString(n / 10);
      var s := NatToString(n);
      assert s[..|s| - 1] == NatToString(n / 10);
    }
  }
}
