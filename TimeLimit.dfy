/**
 * The time-limit argument of the ant-colony command line (`parseTimeLimit` in
 * ad-5 Main.java): a number followed by one of the units ms, s, m or h,
 * converted to milliseconds in Java `int` arithmetic.
 */
module TimeLimit {
  import opened Wrappers
  import JavaInt

  predicate IsDigit(c: char) { '0' <= c <= '9' }

  predicate AllDigits(s: string) { forall i :: 0 <= i < |s| ==> IsDigit(s[i]) }

  /** `String.endsWith`. */
  predicate EndsWith(s: string, suffix: string) {
    |suffix| <= |s| && s[|s| - |suffix|..] == suffix
  }

  /** `s.endsWith(suffix)` holds exactly when `s` is some string followed by `suffix`. */
  lemma EndsWithIff(s: string, suffix: string)
    ensures EndsWith(s, suffix) <==> exists p :: p + suffix == s
  {
    forall p | p + suffix == s
      ensures EndsWith(s, suffix)
    {
      assert s[|p|..] == suffix;
    }
    if EndsWith(s, suffix) {
      assert s[..|s| - |suffix|] + suffix == s;
    }
  }

  /** `s` with every occurrence of the character `c` dropped and the other characters kept in order. */
  function Without(s: string, c: char): string {
    if s == [] then [] else (if s[0] == c then [] else [s[0]]) + Without(s[1..], c)
  }

  /**
   * `s.replace(target, "")`: every non-overlapping occurrence of `target`, scanned
   * left to right, is deleted; for a one-letter unit that is every occurrence of the letter.
   */
  function RemoveAll(s: string, target: string): (r: string)
    requires target != []
    ensures |r| <= |s|
    ensures |target| == 1 ==> r == Without(s, target[0])
    decreases |s|
  {
    if |s| < |target| then s
    else if s[..|target|] == target then
      assert s[..|target|][0] == s[0];
      RemoveAll(s[|target|..], target)
    else
      assert |target| == 1 ==> s[..|target|] == [s[0]];
      [s[0]] + RemoveAll(s[1..], target)
  }

  /** 10 to the power `n`. */
  function Pow10(n: nat): nat {
    if n == 0 then 1 else 10 * Pow10(n - 1)
  }

  /** The value of a string of decimal digits, most significant first: below 10 to the number of digits. */
  function DigitsValue(s: string): (v: nat)
    requires AllDigits(s)
    ensures v < Pow10(|s|)
  {
    if s == [] then 0 else DigitsValue(s[..|s| - 1]) * 10 + (s[|s| - 1] - '0') as int
  }

  /** What `Integer.parseInt` accepts: an optional sign followed by at least one decimal digit. */
  predicate IsNumeral(s: string) {
    (s != [] && AllDigits(s)) || (|s| >= 2 && (s[0] == '+' || s[0] == '-') && AllDigits(s[1..]))
  }

  /** The value of a numeral, negated after a minus sign. */
  function NumeralValue(s: string): int
    requires IsNumeral(s)
  {
    if s[0] == '-' then -(DigitsValue(s[1..]) as int)
    else if s[0] == '+' then DigitsValue(s[1..])
    else DigitsValue(s)
  }

  /**
   * `Integer.parseInt(s)`: a numeral whose value fits in an `int` gives that value;
   * anything else raises NumberFormatException.
   */
  function ParseInt(s: string): (r: Result<int>)
    ensures r.Ok? <==> IsNumeral(s) && JavaInt.IsInt32(NumeralValue(s))
    ensures r.Ok? ==> r.value == NumeralValue(s)
    ensures r.Err? ==> r.error == NumberFormat
  {
    var negative := |s| > 0 && s[0] == '-';
    var digits := if |s| > 0 && (s[0] == '-' || s[0] == '+') then s[1..] else s;
    if digits == [] || !AllDigits(digits) then
      assert !IsNumeral(s) by {
        if s != [] && AllDigits(s) { assert IsDigit(s[0]); }
      }
      Err(NumberFormat)
    else
      var magnitude: int := DigitsValue(digits);
      var v := if negative then -magnitude else magnitude;
      assert IsNumeral(s) && NumeralValue(s) == v by {
        if s[0] == '-' || s[0] == '+' { assert !IsDigit(s[0]); }
      }
      if JavaInt.IsInt32(v) then Ok(v) else Err(NumberFormat)
  }

  const MILLIS_PER_SECOND: int := 1000
  const SECONDS_PER_MINUTE: int := 60
  const MINUTES_PER_HOUR: int := 60

  /**
   * The unit of a time limit, tried in the order of `parseTimeLimit`: ms, s, m, h.
   * "ms" wins over "s", and there is no unit exactly when the last letter is none of s, m, h.
   */
  function UnitOf(s: string): (u: Option<string>)
    ensures u.Some? ==> u.value in {"ms", "s", "m", "h"} && EndsWith(s, u.value)
    ensures EndsWith(s, "ms") ==> u == Some("ms")
    ensures EndsWith(s, "s") && !EndsWith(s, "ms") ==> u == Some("s")
    ensures EndsWith(s, "m") ==> u == Some("m")
    ensures EndsWith(s, "h") ==> u == Some("h")
    ensures u.None? <==> !(EndsWith(s, "s") || EndsWith(s, "m") || EndsWith(s, "h"))
  {
    if EndsWith(s, "ms") then
      EndsWithLast(s, "ms");
      Some("ms")
    else if EndsWith(s, "s") then
      EndsWithLast(s, "s");
      Some("s")
    else if EndsWith(s, "m") then
      EndsWithLast(s, "m");
      Some("m")
    else if EndsWith(s, "h") then
      EndsWithLast(s, "h");
      Some("h")
    else None
  }

  /** A string that ends with a suffix ends with the suffix's last letter. */
  lemma EndsWithLast(s: string, suffix: string)
    requires suffix != [] && EndsWith(s, suffix)
    ensures s[|s| - 1] == suffix[|suffix| - 1]
    ensures forall c :: EndsWith(s, [c]) <==> c == suffix[|suffix| - 1]
  {
    assert s[|s| - 1] == s[|s| - |suffix|..][|suffix| - 1];
    forall c
      ensures EndsWith(s, [c]) <==> c == suffix[|suffix| - 1]
    {
      assert EndsWith(s, [c]) <==> s[|s| - 1..] == [c];
    }
  }

  /**
   * A number of `unit`s in milliseconds, multiplied out left to right in Java `int`s;
   * that is the full product wrapped once.
   */
  function InMillis(x: int, unit: string): (r: int)
    ensures unit == "ms" ==> r == x
    ensures unit == "s" ==> r == JavaInt.Wrap(x * 1000)
    ensures unit == "m" ==> r == JavaInt.Wrap(x * 60000)
    ensures unit != "ms" && unit != "s" && unit != "m" ==> r == JavaInt.Wrap(x * 3600000)
  {
    if unit == "ms" then x
    else if unit == "s" then JavaInt.Mul(x, MILLIS_PER_SECOND)
    else if unit == "m" then
      MulAssoc(x, 1000, 60);
      JavaInt.Mul(JavaInt.Mul(x, MILLIS_PER_SECOND), SECONDS_PER_MINUTE)
    else
      MulAssoc(x, 1000, 60);
      MulAssoc(x, 60000, 60);
      JavaInt.Mul(JavaInt.Mul(JavaInt.Mul(x, MILLIS_PER_SECOND), SECONDS_PER_MINUTE), MINUTES_PER_HOUR)
  }

  /**
   * `parseTimeLimit`: accepted exactly when a unit ends the string and what is left once
   * every occurrence of the unit is deleted is a numeral in `int` range; the result is
   * that number in milliseconds. Every failure surfaces as IllegalArgumentException.
   */
  function ParseTimeLimit(s: string): (r: Result<int>)
    ensures r.Ok? <==> UnitOf(s).Some? && IsNumeral(RemoveAll(s, UnitOf(s).value)) &&
                       JavaInt.IsInt32(NumeralValue(RemoveAll(s, UnitOf(s).value)))
    ensures r.Ok? ==> r.value == InMillis(NumeralValue(RemoveAll(s, UnitOf(s).value)), UnitOf(s).value)
    ensures r.Ok? ==> JavaInt.IsInt32(r.value)
    ensures r.Err? ==> r.error == IllegalArgument
  {
    var unit := UnitOf(s);
    if unit.None? then Err(IllegalArgument)
    else
      var n := ParseInt(RemoveAll(s, unit.value));
      if n.Err? then Err(IllegalArgument) else Ok(InMillis(n.value, unit.value))
  }

  // ---------------------------------------------------------------------------
  // The round trip with Java's decimal rendering.

  lemma {:induction false} DigitsRoundTrip(n: nat)
    ensures DigitsValue(JavaInt.Digits(n)) == n
  {
    if n >= 10 {
      var s := JavaInt.Digits(n);
      assert s[..|s| - 1] == JavaInt.Digits(n / 10);
      DigitsRoundTrip(n / 10);
    }
  }

  /** Integer.parseInt(Integer.toString(n)) == n for every `int` n. */
  lemma ParseIntDecimal(n: int)
    requires JavaInt.IsInt32(n)
    ensures ParseInt(JavaInt.ToString(n)) == Ok(n)
  {
    if n < 0 {
      NegativeNumeral(n);
    } else {
      NaturalNumeral(n);
    }
  }

  /** A natural number renders as its digits, a numeral of that value. */
  lemma NaturalNumeral(n: nat)
    ensures IsNumeral(JavaInt.ToString(n)) && NumeralValue(JavaInt.ToString(n)) == n
  {
    var d := JavaInt.Digits(n);
    assert AllDigits(d) && IsDigit(d[0]);
    DigitsRoundTrip(n);
  }

  /** A negative number renders as a minus sign and the digits of its magnitude. */
  lemma NegativeNumeral(n: int)
    requires n < 0
    ensures IsNumeral(JavaInt.ToString(n)) && NumeralValue(JavaInt.ToString(n)) == n
  {
    var d := JavaInt.Digits(-n);
    var s := JavaInt.ToString(n);
    assert s == "-" + d && s[0] == '-' && s[1..] == d;
    assert AllDigits(d);
    DigitsRoundTrip(-n);
  }

  /** A unit at the very end is deleted too when it comes after text that does not contain it. */
  lemma {:induction false} RemoveAllSuffix(s: string, target: string)
    requires target != []
    requires forall i :: 0 <= i < |s| ==> s[i] != target[0]
    ensures RemoveAll(s + target, target) == s
    decreases |s|
  {
    if s == [] {
      assert (s + target)[..|target|] == target;
      assert (s + target)[|target|..] == [];
    } else {
      assert (s + target)[..|target|][0] == s[0];
      assert (s + target)[1..] == s[1..] + target;
      RemoveAllSuffix(s[1..], target);
    }
  }

  /** Java's wrapped products compose: (x*a wrapped)*b wrapped equals x*(a*b) wrapped. */
  lemma MulAssoc(x: int, a: int, b: int)
    ensures JavaInt.Mul(JavaInt.Mul(x, a), b) == JavaInt.Wrap(x * (a * b))
  {
    var p := JavaInt.Wrap(x * a);
    var k := (p - x * a) / JavaInt.TWO_32;
    assert p == x * a + k * JavaInt.TWO_32;
    assert p * b == x * (a * b) + (k * b) * JavaInt.TWO_32;
    WrapShift(x * (a * b), k * b);
  }

  lemma WrapShift(y: int, k: int)
    ensures JavaInt.Wrap(y + k * JavaInt.TWO_32) == JavaInt.Wrap(y)
  {
    assert (y + k * JavaInt.TWO_32) % JavaInt.TWO_32 == y % JavaInt.TWO_32;
  }

  // ---------------------------------------------------------------------------
  // What parseTimeLimit promises.

  /** A rendered `int` followed by the unit it was recognised by parses back to that `int` in that unit. */
  lemma UnitRoundTrip(n: int, unit: string)
    requires JavaInt.IsInt32(n) && (unit == "ms" || unit == "s" || unit == "m" || unit == "h")
    requires UnitOf(JavaInt.ToString(n) + unit) == Some(unit)
    ensures ParseTimeLimit(JavaInt.ToString(n) + unit) == Ok(InMillis(n, unit))
  {
    var d := JavaInt.ToString(n);
    assert unit[0] == 'm' || unit[0] == 's' || unit[0] == 'h';
    assert forall i :: 0 <= i < |d| ==> d[i] != unit[0];
    RemoveAllSuffix(d, unit);
    ParseIntDecimal(n);
    assert ParseInt(RemoveAll(d + unit, unit)) == Ok(n);
  }

  /** Rendered `int`s end in a digit. */
  lemma EndsInDigit(n: int)
    ensures |JavaInt.ToString(n)| > 0 && IsDigit(JavaInt.ToString(n)[|JavaInt.ToString(n)| - 1])
  {
    var d := JavaInt.Digits(if n < 0 then -n else n);
    assert JavaInt.ToString(n)[|JavaInt.ToString(n)| - 1] == d[|d| - 1];
  }

  /** An integer followed by "ms" is taken as milliseconds, unchanged. */
  lemma MillisecondsRoundTrip(n: int)
    requires JavaInt.IsInt32(n)
    ensures ParseTimeLimit(JavaInt.ToString(n) + "ms") == Ok(n)
  {
    var s := JavaInt.ToString(n) + "ms";
    assert s[|s| - 2..] == "ms";
    UnitRoundTrip(n, "ms");
  }

  /** An integer followed by "s" is multiplied by 1000, with 32-bit wrap-around. */
  lemma SecondsRoundTrip(n: int)
    requires JavaInt.IsInt32(n)
    ensures ParseTimeLimit(JavaInt.ToString(n) + "s") == Ok(JavaInt.Wrap(n * 1000))
  {
    var d := JavaInt.ToString(n);
    var s := d + "s";
    EndsInDigit(n);
    assert s[|s| - 2..][0] == d[|d| - 1];
    assert s[|s| - 1..] == "s";
    assert UnitOf(s) == Some("s");
    UnitRoundTrip(n, "s");
  }

  /** An integer followed by "m" is multiplied by 60000, with 32-bit wrap-around. */
  lemma MinutesRoundTrip(n: int)
    requires JavaInt.IsInt32(n)
    ensures ParseTimeLimit(JavaInt.ToString(n) + "m") == Ok(JavaInt.Wrap(n * 60000))
  {
    var s := JavaInt.ToString(n) + "m";
    assert s[|s| - 1..] == "m";
    UnitRoundTrip(n, "m");
  }

  /** An integer followed by "h" is multiplied by 3600000, with 32-bit wrap-around. */
  lemma HoursRoundTrip(n: int)
    requires JavaInt.IsInt32(n)
    ensures ParseTimeLimit(JavaInt.ToString(n) + "h") == Ok(JavaInt.Wrap(n * 3600000))
  {
    var s := JavaInt.ToString(n) + "h";
    assert s[|s| - 1..] == "h";
    UnitRoundTrip(n, "h");
  }

  /**
   * The multiplication wraps: for every n from 2147484 to 4294967, "<n>s" gives
   * n·1000 − 2^32, a negative number (3000000s gives −1294967296).
   */
  lemma SecondsOverflowWraps(n: int)
    requires 2147484 <= n <= 4294967
    ensures ParseTimeLimit(JavaInt.ToString(n) + "s") == Ok(n * 1000 - JavaInt.TWO_32)
    ensures n * 1000 - JavaInt.TWO_32 < 0
  {
    SecondsWrapHigh(n);
    SecondsRoundTrip(n);
  }

  /** Between 2^31 and 2^32 milliseconds the 32-bit value is 2^32 less, a negative number. */
  lemma SecondsWrapHigh(n: int)
    requires 2147484 <= n <= 4294967
    ensures JavaInt.Wrap(n * 1000) == n * 1000 - JavaInt.TWO_32 < 0
  {
    var k := n * 1000;
    assert JavaInt.MAX_INT < k < JavaInt.TWO_32;
    assert k % JavaInt.TWO_32 == k;
  }

  /** A string accepted by parseTimeLimit ends in one of the four units; every other ending is refused. */
  lemma AcceptedEndsInUnit(s: string)
    ensures ParseTimeLimit(s).Ok? ==> |s| >= 1 && s[|s| - 1] in {'s', 'm', 'h'}
  {
    if ParseTimeLimit(s).Ok? {
      var u := UnitOf(s).value;
      EndsWithLast(s, u);
    }
  }

  // ---------------------------------------------------------------------------
  // Numerals that are not the decimal rendering of an int.

  /** A leading zero does not change the value of a digit string. */
  lemma {:induction false} LeadingZeroValue(d: string)
    requires AllDigits(d)
    ensures AllDigits("0" + d) && DigitsValue("0" + d) == DigitsValue(d)
    decreases |d|
  {
    var z := "0" + d;
    if d != [] {
      assert z[..|z| - 1] == "0" + d[..|d| - 1];
      LeadingZeroValue(d[..|d| - 1]);
    } else {
      assert z[..|z| - 1] == [];
    }
  }

  /** `parseInt` ignores leading zeros and a plus sign: "007" parses as 7 and "+5" as 5. */
  lemma ZerosAndPlusIgnored(d: string)
    requires d != [] && AllDigits(d)
    ensures ParseInt("0" + d) == ParseInt(d)
    ensures ParseInt("+" + d) == ParseInt(d)
  {
    LeadingZeroValue(d);
    assert ("0" + d)[0] == '0' && ("+" + d)[0] == '+' && ("+" + d)[1..] == d;
  }

  /** Out-of-range digits are refused even though they form a numeral. */
  lemma OutOfRangeRefused(d: string)
    requires d != [] && AllDigits(d) && DigitsValue(d) > JavaInt.MAX_INT
    ensures ParseInt(d) == Err(NumberFormat)
    ensures ParseTimeLimit(d + "ms") == Err(IllegalArgument)
  {
    var s := d + "ms";
    assert s[|s| - 2..] == "ms";
    assert forall i :: 0 <= i < |d| ==> d[i] != 'm';
    RemoveAllSuffix(d, "ms");
  }

  /** A unit with a remainder that is not a numeral is refused. */
  lemma NotNumeralRefused(s: string, u: string)
    requires UnitOf(s) == Some(u) && !IsNumeral(RemoveAll(s, u))
    ensures ParseTimeLimit(s) == Err(IllegalArgument)
  {
  }

  /**
   * Every occurrence of a one-letter unit is deleted, not only the last one: with digits
   * `x` and `y`, "<x>s<y>s" means the same as "<x><y>s" ("1s2s" gives 12000, as "12s" does).
   */
  lemma InnerUnitsDeleted(x: string, y: string, c: char)
    requires AllDigits(x) && AllDigits(y) && (c == 's' || c == 'm' || c == 'h')
    ensures ParseTimeLimit(x + [c] + y + [c]) == ParseTimeLimit(x + y + [c])
  {
    var a, b := x + [c] + y + [c], x + y + [c];
    SameUnit(a, b, x, y, c);
    UnitsFiltered(x, y, c);
    SameRest(a, b, [c]);
  }

  /** Two strings with the same unit and the same remainder parse alike. */
  lemma SameRest(a: string, b: string, u: string)
    requires UnitOf(a) == UnitOf(b) == Some(u) && RemoveAll(a, u) == RemoveAll(b, u)
    ensures ParseTimeLimit(a) == ParseTimeLimit(b)
  {
  }

  /** Deleting the unit letter from either string leaves the digits of `x` and `y`. */
  lemma UnitsFiltered(x: string, y: string, c: char)
    requires AllDigits(x) && AllDigits(y) && !IsDigit(c)
    ensures Without(x + [c] + y + [c], c) == x + y
    ensures Without(x + y + [c], c) == x + y
  {
    Regroup(x, [c], y, [c]);
    WithoutDigitsPrefix(x, [c] + (y + [c]), c);
    WithoutHead(c, y + [c]);
    WithoutDigitsPrefix(y, [c], c);
    WithoutHead(c, []);
    assert x + y + [c] == x + (y + [c]);
    WithoutDigitsPrefix(x, y + [c], c);
  }

  lemma Regroup(a: string, b: string, c: string, d: string)
    ensures a + b + c + d == a + (b + (c + d))
  {
  }

  /** A filter of a non-digit letter keeps a leading digit string. */
  lemma {:induction false} WithoutDigitsPrefix(x: string, rest: string, c: char)
    requires AllDigits(x) && !IsDigit(c)
    ensures Without(x + rest, c) == x + Without(rest, c)
    decreases |x|
  {
    if x != [] {
      assert IsDigit(x[0]);
      assert (x + rest)[0] == x[0] && (x + rest)[1..] == x[1..] + rest;
      WithoutDigitsPrefix(x[1..], rest, c);
      assert [x[0]] + (x[1..] + Without(rest, c)) == x + Without(rest, c);
    } else {
      assert x + rest == rest;
    }
  }

  /** The filtered letter at the front is dropped. */
  lemma WithoutHead(c: char, rest: string)
    ensures Without([c] + rest, c) == Without(rest, c)
  {
    assert ([c] + rest)[1..] == rest;
  }

  /** Both strings of InnerUnitsDeleted are read with the same unit. */
  lemma SameUnit(a: string, b: string, x: string, y: string, c: char)
    requires AllDigits(x) && AllDigits(y) && (c == 's' || c == 'm' || c == 'h')
    requires a == x + [c] + y + [c] && b == x + y + [c]
    ensures UnitOf(a) == UnitOf(b) == Some([c])
  {
    assert a[|a| - 1..] == [c] && b[|b| - 1..] == [c];
    assert a[|a| - 2] == if y == [] then c else y[|y| - 1];
    assert |b| >= 2 ==> b[|b| - 2] == if y == [] then x[|x| - 1] else y[|y| - 1];
    if c == 's' {
      NotAfterM(a);
      NotAfterM(b);
    }
  }

  /** A string whose next-to-last letter is not 'm' does not end with "ms". */
  lemma NotAfterM(s: string)
    requires |s| >= 2 ==> s[|s| - 2] != 'm'
    ensures !EndsWith(s, "ms")
  {
  }

  /**
   * Deleting "ms" deletes every occurrence, whatever surrounds it: the text on either side
   * of one "ms" is scanned as if it stood alone, since no match can start one letter
   * before it ('m' is not 's') and the match itself consumes both letters.
   */
  lemma {:induction false} MillisSplit(x: string, y: string)
    ensures RemoveAll(x + "ms" + y, "ms") == RemoveAll(x, "ms") + RemoveAll(y, "ms")
    decreases |x|
  {
    var s := x + "ms" + y;
    if |x| == 0 {
      assert s[..2] == "ms" && s[2..] == y;
    } else if |x| == 1 {
      assert s[..2] == [x[0], 'm'] != "ms";
      assert s[1..] == "ms" + y && s[1..][..2] == "ms" && s[1..][2..] == y;
    } else if x[..2] == "ms" {
      assert s[..2] == "ms" && s[2..] == x[2..] + "ms" + y;
      MillisSplit(x[2..], y);
    } else {
      assert s[..2] == x[..2] && s[1..] == x[1..] + "ms" + y;
      MillisSplit(x[1..], y);
      assert [s[0]] + RemoveAll(x[1..], "ms") == RemoveAll(x, "ms");
    }
  }

  /** A digit string holds no "ms" and is kept whole. */
  lemma {:induction false} MillisDigitsKept(d: string)
    requires AllDigits(d)
    ensures RemoveAll(d, "ms") == d
    decreases |d|
  {
    if |d| >= 2 {
      assert IsDigit(d[0]) && d[..2] != "ms";
      MillisDigitsKept(d[1..]);
      assert [d[0]] + d[1..] == d;
    }
  }

  /**
   * The "ms" counterpart of InnerUnitsDeleted: with digits `x` and `y`, "<x>ms<y>ms"
   * means the same as "<x><y>ms" ("1ms2ms" gives 12, as "12ms" does).
   */
  lemma InnerMillisDeleted(x: string, y: string)
    requires AllDigits(x) && AllDigits(y)
    ensures ParseTimeLimit(x + "ms" + y + "ms") == ParseTimeLimit(x + y + "ms")
  {
    var a, b := x + "ms" + y + "ms", x + y + "ms";
    MillisUnit(a);
    MillisUnit(b);
    MillisRemainders(x, y);
    SameRest(a, b, "ms");
  }

  /** A string ending in "ms" is read in milliseconds. */
  lemma MillisUnit(s: string)
    requires |s| >= 2 && s[|s| - 2..] == "ms"
    ensures UnitOf(s) == Some("ms")
  {
  }

  /** Deleting "ms" from either string of InnerMillisDeleted leaves the digits of `x` and `y`. */
  lemma MillisRemainders(x: string, y: string)
    requires AllDigits(x) && AllDigits(y)
    ensures RemoveAll(x + "ms" + y + "ms", "ms") == x + y
    ensures RemoveAll(x + y + "ms", "ms") == x + y
  {
    assert x + "ms" + y + "ms" == x + "ms" + (y + "ms" + []);
    MillisSplit(x, y + "ms" + []);
    MillisSplit(y, []);
    assert x + y + "ms" == (x + y) + "ms" + [];
    MillisSplit(x + y, []);
    MillisDigitsKept(x);
    MillisDigitsKept(y);
    assert AllDigits(x + y) by {
      forall i | 0 <= i < |x + y| ensures IsDigit((x + y)[i]) {
        if i >= |x| { assert (x + y)[i] == y[i - |x|]; }
      }
    }
    MillisDigitsKept(x + y);
    assert RemoveAll([], "ms") == [];
  }

  /** A unit with no number before it is refused: "ms", "s", "m" and "h" alone do not parse. */
  lemma BareUnitRefused(u: string)
    requires u == "ms" || u == "s" || u == "m" || u == "h"
    ensures ParseTimeLimit(u) == Err(IllegalArgument)
  {
    BareUnitRead(u);
    BareUnitEmptied(u);
    assert !IsNumeral([]);
  }

  /** A unit alone is read as itself. */
  lemma BareUnitRead(u: string)
    requires u == "ms" || u == "s" || u == "m" || u == "h"
    ensures UnitOf(u) == Some(u)
  {
    assert EndsWith(u, u) by { assert [] + u == u; }
    if u == "s" || u == "m" || u == "h" { EndsWithLast(u, u); }
  }

  /** Deleting a unit from itself leaves nothing. */
  lemma BareUnitEmptied(u: string)
    requires u != []
    ensures RemoveAll(u, u) == []
  {
    assert u[..|u|] == u && u[|u|..] == [];
  }

  /**
   * A letter of another unit left inside the number makes it unparsable: "1m2s" is
   * refused. (With no digit between the two letters the string ends in "ms" and is a
   * number of milliseconds.)
   */
  lemma MixedUnitsRefused(x: string, y: string)
    requires AllDigits(x) && AllDigits(y) && y != []
    ensures ParseTimeLimit(x + "m" + y + "s") == Err(IllegalArgument)
  {
    var s := x + "m" + y + "s";
    assert s[|s| - 1..] == "s";
    assert s[|s| - 2] == y[|y| - 1];
    NotAfterM(s);
    assert UnitOf(s) == Some("s");
    MixedFiltered(x, y);
    MNotNumeral(x, y);
  }

  /** Deleting the letter s from "<x>m<y>s" leaves "<x>m<y>". */
  lemma MixedFiltered(x: string, y: string)
    requires AllDigits(x) && AllDigits(y)
    ensures Without(x + "m" + y + "s", 's') == x + "m" + y
  {
    Regroup(x, "m", y, "s");
    WithoutDigitsPrefix(x, "m" + (y + "s"), 's');
    assert ("m" + (y + "s"))[0] == 'm' && ("m" + (y + "s"))[1..] == y + "s";
    WithoutDigitsPrefix(y, "s", 's');
    WithoutHead('s', []);
    assert x + ("m" + (y + [])) == x + "m" + y;
  }

  /** A letter m between two digit strings is no numeral. */
  lemma MNotNumeral(x: string, y: string)
    requires AllDigits(x)
    ensures !IsNumeral(x + "m" + y)
  {
    var r := x + "m" + y;
    assert r[|x|] == 'm' && !IsDigit(r[|x|]);
    assert r[0] != '+' && r[0] != '-' by { if x != [] { assert r[0] == x[0]; } }
    assert !AllDigits(r);
  }
}
