/** The decimal readers `asn_strtoumax_lim` and `asn_strtoimax_lim`. */
module Decimal {
  import opened Words
  import opened Wrappers

  /** The results of the readers; `Undefined` stands for a signed overflow. */
  datatype Code = Ok | ErrorRange | ErrorInval | ExpectMore | ExtraData | Undefined

  /** The result code, the new end position, and the value if one is stored. */
  datatype Reading = Reading(code: Code, end: nat, value: Option<int>)

  const UINT64_MAX: nat := 0xffff_ffff_ffff_ffff

  predicate IsDigit(c: char) {
    '0' <= c <= '9'
  }

  function Digit(c: char): (d: nat)
    requires IsDigit(c)
    ensures d <= 9
  {
    c as int - '0' as int
  }

  // ----- specification over unbounded integers

  /** Reads digits from `i` on top of `acc`: stops before the first digit that takes the
      value beyond `max`, before the first other character, or at the end. */
  function Scan(s: string, i: nat, end: nat, acc: nat, max: nat): Reading
    requires i <= end <= |s|
    decreases end - i
  {
    if i == end then Reading(Ok, end, Some(acc))
    else if !IsDigit(s[i]) then Reading(ExtraData, i, Some(acc))
    else if acc * 10 + Digit(s[i]) > max then Reading(ErrorRange, i, None)
    else Scan(s, i + 1, end, acc * 10 + Digit(s[i]), max)
  }

  ghost predicate Digits(s: string, i: nat, j: nat) {
    i <= j <= |s| && forall k :: i <= k < j ==> IsDigit(s[k])
  }

  /** The number the digits from `i` up to `j` denote. */
  function DecimalValue(s: string, i: nat, j: nat): nat
    requires Digits(s, i, j)
    decreases j
  {
    if i == j then 0 else DecimalValue(s, i, j - 1) * 10 + Digit(s[j - 1])
  }

  /** The end of the run of digits from `i`. */
  function RunEnd(s: string, i: nat, end: nat): (e: nat)
    requires i <= end <= |s|
    ensures e <= end && Digits(s, i, e)
    ensures e < end ==> !IsDigit(s[e])
    decreases end - i
  {
    if i == end || !IsDigit(s[i]) then i else RunEnd(s, i + 1, end)
  }

  function ReadUnsigned(s: string, str: nat, end: nat): Reading
    requires end <= |s|
  {
    if str >= end || s[str] == '-' then Reading(ErrorInval, end, None)
    else
      var at := if s[str] == '+' then str + 1 else str;
      if at >= end then Reading(ExpectMore, at, None)
      else Scan(s, at, end, 0, UINT64_MAX)
  }

  function Negated(r: Reading): Reading {
    match r.value
    case None => r
    case Some(v) => Reading(r.code, r.end, Some(-v))
  }

  /** Values from -2^63 to -2^63 + 8, reached by the step that turns the sign around. */
  predicate NearMinimum(v: nat) {
    INT64_MAX - 7 <= v <= INT64_MAX + 1
  }

  /** Reading a negative number: `acc` is the magnitude so far.  Once the last digit allowed
      has been read the code holds a negative value with a positive sign, and another digit
      overflows. */
  function ScanNegative(s: string, i: nat, end: nat, acc: nat): Reading
    requires i <= end <= |s|
    decreases end - i
  {
    if i == end then Reading(Ok, end, Some(-(acc as int)))
    else if !IsDigit(s[i]) then Reading(ExtraData, i, Some(-(acc as int)))
    else if NearMinimum(acc) then Reading(Undefined, i, None)
    else if acc * 10 + Digit(s[i]) > INT64_MAX + 1 then Reading(ErrorRange, i, None)
    else ScanNegative(s, i + 1, end, acc * 10 + Digit(s[i]))
  }

  function ReadSigned(s: string, str: nat, end: nat): Reading
    requires end <= |s|
  {
    if str >= end then Reading(ErrorInval, end, None)
    else
      var at := if s[str] == '+' || s[str] == '-' then str + 1 else str;
      if at >= end then Reading(ExpectMore, at, None)
      else if s[str] == '-' then ScanNegative(s, at, end, 0)
      else Scan(s, at, end, 0, INT64_MAX)
  }

  // ----- the code

  method Strtoumax(s: string, start: nat, end: nat) returns (r: Reading)
    requires end <= |s|
    ensures r == ReadUnsigned(s, start, end)
  {
    var upperBoundary: nat := UINT64_MAX / 10;
    var lastDigitMax: nat := UINT64_MAX % 10;
    var str := start;
    if str >= end {
      return Reading(ErrorInval, end, None);
    }
    if s[str] == '-' {
      return Reading(ErrorInval, end, None);
    }
    if s[str] == '+' {
      str := str + 1;
      if str >= end {
        return Reading(ExpectMore, str, None);
      }
    }
    var value: u64 := 0;
    ghost var at := str;
    while str < end
      invariant at <= str <= end
      invariant Scan(s, at, end, 0, UINT64_MAX) == Scan(s, str, end, value, UINT64_MAX)
    {
      if !IsDigit(s[str]) {
        return Reading(ExtraData, str, Some(value));
      }
      var d := Digit(s[str]);
      if value < upperBoundary {
        value := (value as nat * 10 + d) % TWO_64;
      } else if value == upperBoundary {
        if d <= lastDigitMax {
          value := (value as nat * 10 + d) % TWO_64;
        } else {
          return Reading(ErrorRange, str, None);
        }
      } else {
        return Reading(ErrorRange, str, None);
      }
      str := str + 1;
    }
    r := Reading(Ok, str, Some(value));
  }

  method Strtoimax(s: string, start: nat, end: nat) returns (r: Reading)
    requires end <= |s|
    ensures r == ReadSigned(s, start, end)
  {
    var lastDigitMax: nat := INT64_MAX % 10;
    var sign := 1;
    var str := start;
    if str >= end {
      return Reading(ErrorInval, end, None);
    }
    if s[str] == '-' {
      lastDigitMax := lastDigitMax + 1;
      sign := -1;
    }
    if s[str] == '-' || s[str] == '+' {
      str := str + 1;
      if str >= end {
        return Reading(ExpectMore, str, None);
      }
    }
    r := ReadDigits(s, str, end, sign, lastDigitMax);
  }

  /** The loop over the digits. */
  method ReadDigits(s: string, start: nat, end: nat, initialSign: int, lastDigitMax: nat) returns (r: Reading)
    requires start <= end <= |s|
    requires (initialSign == 1 && lastDigitMax == 7) || (initialSign == -1 && lastDigitMax == 8)
    ensures r == if initialSign == -1 then ScanNegative(s, start, end, 0) else Scan(s, start, end, 0, INT64_MAX)
  {
    var upperBoundary: nat := INT64_MAX / 10;
    var str, sign := start, initialSign;
    ghost var negative := sign == -1;
    ghost var magnitude: nat := 0;
    var value := 0;
    while str < end
      invariant start <= str <= end && FitsI64(value) && FitsI64(sign * value)
      invariant sign * value == if negative then -(magnitude as int) else magnitude
      invariant sign == 1 || (sign == -1 && negative)
      invariant value >= 0 || sign == 1
      invariant negative && sign == 1 ==> NearMinimum(magnitude)
      invariant negative && sign == -1 ==> !NearMinimum(magnitude)
      invariant if negative then ScanNegative(s, start, end, 0) == ScanNegative(s, str, end, magnitude)
                else Scan(s, start, end, 0, INT64_MAX) == Scan(s, str, end, magnitude, INT64_MAX)
    {
      if !IsDigit(s[str]) {
        return Reading(ExtraData, str, Some(sign * value));
      }
      var d := Digit(s[str]);
      if value < upperBoundary {
        if !FitsI64(value * 10 + d) {
          return Reading(Undefined, str, None);
        }
        value := value * 10 + d;
      } else if value == upperBoundary {
        if d <= lastDigitMax {
          if sign > 0 {
            value := value * 10 + d;
          } else {
            sign := 1;
            value := -value * 10 - d;
          }
        } else {
          return Reading(ErrorRange, str, None);
        }
      } else {
        return Reading(ErrorRange, str, None);
      }
      magnitude := magnitude * 10 + d;
      str := str + 1;
    }
    r := Reading(Ok, str, Some(sign * value));
  }

  // ----- the readings are exact

  lemma {:induction false} ValueGrows(s: string, at: nat, i: nat, j: nat)
    requires Digits(s, at, j) && at <= i <= j
    ensures DecimalValue(s, at, i) <= DecimalValue(s, at, j)
    decreases j
  {
    if i < j {
      ValueGrows(s, at, i, j - 1);
    }
  }

  /** A scan reports a range error exactly when the whole run of digits exceeds the maximum,
      then at the first digit that does so; otherwise it returns the value of the run and
      the position after it. */
  lemma {:induction false} ScanIsExact(s: string, at: nat, i: nat, end: nat, max: nat)
    requires Digits(s, at, i) && i <= end <= |s| && DecimalValue(s, at, i) <= max
    ensures var e := RunEnd(s, i, end);
      && Digits(s, at, e) && i <= e
      && var r := Scan(s, i, end, DecimalValue(s, at, i), max);
      && (r.code == ErrorRange <==> DecimalValue(s, at, e) > max)
      && (r.code != ErrorRange ==>
            r == Reading(if e == end then Ok else ExtraData, e, Some(DecimalValue(s, at, e))))
      && (r.code == ErrorRange ==>
            at <= r.end < e && DecimalValue(s, at, r.end) <= max < DecimalValue(s, at, r.end + 1))
    decreases end - i
  {
    if i < end && IsDigit(s[i]) {
      var e := RunEnd(s, i, end);
      assert DecimalValue(s, at, i + 1) == DecimalValue(s, at, i) * 10 + Digit(s[i]);
      RunGrows(s, i, end);
      if DecimalValue(s, at, i + 1) > max {
        ValueGrows(s, at, i + 1, e);
      } else {
        ScanIsExact(s, at, i + 1, end, max);
      }
    }
  }

  lemma RunGrows(s: string, i: nat, end: nat)
    requires i < end <= |s| && IsDigit(s[i])
    ensures RunEnd(s, i, end) == RunEnd(s, i + 1, end) >= i + 1
  {}

  /** A proper prefix of the digits from `at` to `e`, of at least `i - at` digits, is within
      8 of 2^63. */
  ghost predicate ContinuesMinimum(s: string, at: nat, i: nat, e: nat)
    requires Digits(s, at, e)
  {
    exists k :: at <= k && i <= k < e && NearMinimum(DecimalValue(s, at, k))
  }

  /** Reading a negative number overflows exactly when another digit follows a prefix that
      is already -2^63 to -2^63 + 8; in all other cases it is as exact as a scan. */
  lemma {:induction false} NegativeIsExact(s: string, at: nat, i: nat, end: nat)
    requires Digits(s, at, i) && i <= end <= |s| && DecimalValue(s, at, i) <= INT64_MAX + 1
    ensures var e := RunEnd(s, i, end);
      && Digits(s, at, e)
      && var r := ScanNegative(s, i, end, DecimalValue(s, at, i));
      && (r.code == Undefined <==> ContinuesMinimum(s, at, i, e))
      && (r.code != Undefined ==> r == Negated(Scan(s, i, end, DecimalValue(s, at, i), INT64_MAX + 1)))
    decreases end - i
  {
    if i < end && IsDigit(s[i]) {
      var e := RunEnd(s, i, end);
      var v := DecimalValue(s, at, i);
      assert DecimalValue(s, at, i + 1) == v * 10 + Digit(s[i]);
      RunGrows(s, i, end);
      if NearMinimum(v) {
        assert at <= i && i <= i < e;
      } else if v * 10 + Digit(s[i]) > INT64_MAX + 1 {
        forall k | at <= k && i <= k < e
          ensures !NearMinimum(DecimalValue(s, at, k))
        {
          if k > i {
            ValueGrows(s, at, i + 1, k);
          }
        }
      } else {
        NegativeIsExact(s, at, i + 1, end);
      }
    }
  }

  lemma {:induction false} ScanBound(s: string, i: nat, end: nat, acc: nat, max: nat)
    requires i <= end <= |s| && acc <= max
    ensures var v := Scan(s, i, end, acc, max).value; v.Some? ==> 0 <= v.value <= max
    decreases end - i
  {
    if i < end && IsDigit(s[i]) && acc * 10 + Digit(s[i]) <= max {
      ScanBound(s, i + 1, end, acc * 10 + Digit(s[i]), max);
    }
  }

  lemma {:induction false} ScanNegativeBound(s: string, i: nat, end: nat, acc: nat)
    requires i <= end <= |s| && acc <= INT64_MAX + 1
    ensures var v := ScanNegative(s, i, end, acc).value; v.Some? ==> -(INT64_MAX as int) - 1 <= v.value <= 0
    decreases end - i
  {
    if i < end && IsDigit(s[i]) && !NearMinimum(acc) && acc * 10 + Digit(s[i]) <= INT64_MAX + 1 {
      ScanNegativeBound(s, i + 1, end, acc * 10 + Digit(s[i]));
    }
  }

  lemma {:induction false} OkScanHasValue(s: string, i: nat, end: nat, acc: nat, max: nat)
    requires i <= end <= |s|
    ensures Scan(s, i, end, acc, max).code == Ok ==> Scan(s, i, end, acc, max).value.Some?
    ensures ScanNegative(s, i, end, acc).code == Ok ==> ScanNegative(s, i, end, acc).value.Some?
    decreases end - i
  {
    if i < end && IsDigit(s[i]) {
      OkScanHasValue(s, i + 1, end, acc * 10 + Digit(s[i]), max);
    }
  }

  lemma OkHasValue(s: string, str: nat, end: nat)
    requires end <= |s|
    ensures ReadSigned(s, str, end).code == Ok ==> ReadSigned(s, str, end).value.Some?
  {
    if str < end {
      var at := if s[str] == '+' || s[str] == '-' then str + 1 else str;
      if at < end {
        OkScanHasValue(s, at, end, 0, INT64_MAX);
      }
    }
  }

  /** Whatever is read fits 64 bits. */
  lemma ReadingFits(s: string, str: nat, end: nat)
    requires end <= |s|
    ensures var v := ReadSigned(s, str, end).value; v.Some? ==> FitsI64(v.value)
  {
    if str < end {
      var at := if s[str] == '+' || s[str] == '-' then str + 1 else str;
      if at < end {
        ScanBound(s, at, end, 0, INT64_MAX);
        ScanNegativeBound(s, at, end, 0);
      }
    }
  }

  /** `asn_strtoumax_lim` on a run of digits to the end, after an optional plus sign. */
  lemma UnsignedIsExact(s: string, at: nat, end: nat)
    requires Digits(s, at, end) && at < end
    ensures var v := DecimalValue(s, at, end);
      && var r := ReadUnsigned(s, at, end);
      && (r.code == ErrorRange <==> v > UINT64_MAX)
      && (v <= UINT64_MAX ==> r == Reading(Ok, end, Some(v)))
      && (at > 0 && s[at - 1] == '+' ==> ReadUnsigned(s, at - 1, end) == r)
  {
    RunIsWhole(s, at, end);
    ScanIsExact(s, at, at, end, UINT64_MAX);
  }

  lemma {:induction false} RunIsWhole(s: string, i: nat, end: nat)
    requires Digits(s, i, end)
    ensures RunEnd(s, i, end) == end
    decreases end - i
  {
    if i < end {
      RunIsWhole(s, i + 1, end);
    }
  }

  /** `asn_strtoimax_lim` on a run of digits to the end: exact without a minus sign; with one,
      exact unless the run continues a prefix next to the minimum. */
  lemma SignedIsExact(s: string, at: nat, end: nat)
    requires Digits(s, at, end) && at < end
    ensures var v := DecimalValue(s, at, end);
      && (ReadSigned(s, at, end).code == ErrorRange <==> v > INT64_MAX)
      && (v <= INT64_MAX ==> ReadSigned(s, at, end) == Reading(Ok, end, Some(v)))
      && (at > 0 && s[at - 1] == '+' ==> ReadSigned(s, at - 1, end) == ReadSigned(s, at, end))
      && (at > 0 && s[at - 1] == '-' ==>
            var r := ReadSigned(s, at - 1, end);
            && (r.code == Undefined <==> ContinuesMinimum(s, at, at, end))
            && (r.code != Undefined ==> (r.code == ErrorRange <==> v > INT64_MAX + 1))
            && (r.code != Undefined && v <= INT64_MAX + 1 ==> r == Reading(Ok, end, Some(-(v as int)))))
  {
    RunIsWhole(s, at, end);
    ScanIsExact(s, at, at, end, INT64_MAX);
    ScanIsExact(s, at, at, end, INT64_MAX + 1);
    NegativeIsExact(s, at, at, end);
  }

  function Pow10(n: nat): (p: nat)
    ensures p >= 1
  {
    if n == 0 then 1 else 10 * Pow10(n - 1)
  }

  lemma {:induction false} ValueBelow(s: string, i: nat, j: nat)
    requires Digits(s, i, j)
    ensures DecimalValue(s, i, j) < Pow10(j - i)
    decreases j
  {
    if i < j {
      ValueBelow(s, i, j - 1);
    }
  }

  lemma {:induction false} Pow10Monotone(m: nat, n: nat)
    requires m <= n
    ensures Pow10(m) <= Pow10(n)
  {
    if m < n {
      Pow10Monotone(m, n - 1);
    }
  }

  /** In particular a negative number of at most 19 digits is always read exactly. */
  lemma NineteenDigitsAreSafe(s: string, at: nat, end: nat)
    requires Digits(s, at, end) && end - at <= 19
    ensures !ContinuesMinimum(s, at, at, end)
  {
    forall k | at <= k < end
      ensures !NearMinimum(DecimalValue(s, at, k))
    {
      ValueBelow(s, at, k);
      Pow10Monotone(k - at, 18);
      assert Pow10(6) == 1_000_000;
      assert Pow10(12) == 1_000_000_000_000;
      assert Pow10(18) == 1_000_000_000_000_000_000;
    }
  }

  // ----- decimal text

  function DigitChar(d: nat): (c: char)
    requires d < 10
    ensures IsDigit(c) && Digit(c) == d
  {
    ('0' as int + d) as char
  }

  function NaturalText(n: nat): (t: string)
    ensures t != []
    decreases n
  {
    if n < 10 then [DigitChar(n)] else NaturalText(n / 10) + [DigitChar(n % 10)]
  }

  lemma {:induction false} NaturalTextValue(n: nat)
    ensures var t := NaturalText(n);
      && Digits(t, 0, |t|)
      && DecimalValue(t, 0, |t|) == n
      && DecimalValue(t, 0, |t| - 1) == n / 10
    decreases n
  {
    var t := NaturalText(n);
    if n < 10 {
      assert DecimalValue(t, 0, 0) == 0;
    } else {
      var u := NaturalText(n / 10);
      NaturalTextValue(n / 10);
      SameDigits(u, t, 0, |u|, 0);
    }
  }

  /** A decimal value depends on the digits only, wherever they stand. */
  lemma {:induction false} SameDigits(u: string, t: string, i: nat, j: nat, o: nat)
    requires Digits(u, i, j) && j + o <= |t|
    requires forall k :: i <= k < j ==> t[k + o] == u[k]
    ensures Digits(t, i + o, j + o)
    ensures DecimalValue(t, i + o, j + o) == DecimalValue(u, i, j)
    decreases j
  {
    assert forall k :: i + o <= k < j + o ==> t[k] == u[k - o];
    if i < j {
      SameDigits(u, t, i, j - 1, o);
    }
  }

  lemma TextAfterMinus(n: nat)
    ensures var t := "-" + NaturalText(n);
      && Digits(t, 1, |t|)
      && DecimalValue(t, 1, |t|) == n && DecimalValue(t, 1, |t| - 1) == n / 10
  {
    var u := NaturalText(n);
    NaturalTextValue(n);
    SameDigits(u, "-" + u, 0, |u|, 1);
    SameDigits(u, "-" + u, 0, |u| - 1, 1);
  }

  /** The text of -n overflows for every n of -2^63 to -2^63 + 8 and one more digit. */
  lemma OneDigitMoreOverflows(n: nat)
    requires NearMinimum(n / 10)
    ensures ReadSigned("-" + NaturalText(n), 0, |NaturalText(n)| + 1).code == Undefined
  {
    hide NaturalText;
    var t := "-" + NaturalText(n);
    TextAfterMinus(n);
    assert ContinuesMinimum(t, 1, 1, |t|);
    SignedIsExact(t, 1, |t|);
  }

  /** So does "-92233720368547758080". */
  lemma TwentyDigitsMayOverflow()
    ensures NearMinimum(92233720368547758080 / 10)
    ensures ReadSigned("-" + NaturalText(92233720368547758080), 0, |NaturalText(92233720368547758080)| + 1).code
         == Undefined
  {
    hide NaturalText;
    OneDigitMoreOverflows(92233720368547758080);
  }

  // ----- texts that are not a number

  /** No text, a minus sign where there is no sign, and a sign alone. */
  lemma NoDigits(s: string, at: nat, end: nat)
    requires end <= |s|
    ensures at >= end ==> ReadSigned(s, at, end).code == ReadUnsigned(s, at, end).code == ErrorInval
    ensures at < end && s[at] == '-' ==> ReadUnsigned(s, at, end) == Reading(ErrorInval, end, None)
    ensures at + 1 == end && (s[at] == '-' || s[at] == '+') ==> ReadSigned(s, at, end) == Reading(ExpectMore, end, None)
    ensures at + 1 == end && s[at] == '+' ==> ReadUnsigned(s, at, end) == Reading(ExpectMore, end, None)
  {}

  /** Digits, if any, up to another character: the number so far, and where it ends. */
  lemma StopsAtOther(s: string, at: nat, e: nat, end: nat)
    requires Digits(s, at, e) && e < end <= |s| && !('0' <= s[e] <= '9')
    requires at == e ==> s[e] != '+' && s[e] != '-'
    ensures var v := DecimalValue(s, at, e);
      var r, q := ReadUnsigned(s, at, end), ReadSigned(s, at, end);
      && (if v <= UINT64_MAX then r == Reading(ExtraData, e, Some(v)) else r.code == ErrorRange)
      && (if v <= INT64_MAX then q == Reading(ExtraData, e, Some(v)) else q.code == ErrorRange)
  {
    hide DecimalValue;
    RunStops(s, at, e, end);
    NoValueYet(s, at);
    ScanIsExact(s, at, at, end, UINT64_MAX);
    ScanIsExact(s, at, at, end, INT64_MAX);
  }

  lemma NoValueYet(s: string, at: nat)
    requires at <= |s|
    ensures Digits(s, at, at) && DecimalValue(s, at, at) == 0
  {}

  lemma {:induction false} RunStops(s: string, i: nat, e: nat, end: nat)
    requires Digits(s, i, e) && e < end <= |s| && !IsDigit(s[e])
    ensures RunEnd(s, i, end) == e
    decreases e - i
  {
    if i < e {
      RunStops(s, i + 1, e, end);
    }
  }
}
