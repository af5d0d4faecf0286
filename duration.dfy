/**
 * The `duration` cast of `Field`: an ISO 8601 duration (`PnYnMnDTnHnMnS`,
 * optionally negative, optionally with fractional seconds) read with a
 * Foundation `Scanner` into a `DateComponents`.
 */
module Durations {
  import opened Wrappers
  import opened Strings
  import opened Scanning
  import opened Integers

  /** Foundation's `DateComponents`, restricted to the components the cast sets; nil is unset. */
  datatype DateComponents = DateComponents(
    year: Option<Int64>, month: Option<Int64>, day: Option<Int64>,
    hour: Option<Int64>, minute: Option<Int64>, second: Option<Int64>,
    nanosecond: Option<Int64>)

  // ---------------------------------------------------------------------------
  // The nanosecond arithmetic

  const NanosPerSecond: nat := 1_000_000_000

  function Pow10(k: nat): (r: nat)
    ensures r >= 1
  {
    if k == 0 then 1 else 10 * Pow10(k - 1)
  }

  function Abs(n: int): nat { if n < 0 then -n else n }

  /** Swift's `/` on `Int`: the quotient truncated toward zero. */
  function TruncDiv(a: int, b: nat): (q: int)
    requires b > 0
    ensures Abs(q) == Abs(a) / b
    ensures (q < 0 ==> a < 0) && (q > 0 ==> a > 0)
  {
    if a >= 0 then a / b else -((-a) / b)
  }

  /** How many decimal digits `n` has; zero has none. */
  function NumDigits(n: nat): (k: nat)
    ensures n < Pow10(k)
    ensures k > 0 ==> Pow10(k - 1) <= n
    ensures k == 0 <==> n == 0
  {
    if n == 0 then 0 else 1 + NumDigits(n / 10)
  }

  /**
   * The loop of lines 607-612: count how often the value can be divided by ten
   * (truncating) before it reaches zero.
   */
  method DigitCount(decimals: Int64) returns (length: nat)
    ensures length == NumDigits(Abs(decimals))
  {
    var reduced: int := decimals;
    length := 0;
    while reduced != 0
      invariant length + NumDigits(Abs(reduced)) == NumDigits(Abs(decimals))
      decreases Abs(reduced)
    {
      length := length + 1;
      reduced := TruncDiv(reduced, 10);
    }
  }

  /** `decimals * 10^(9 - length)`, with the fractional part of a negative power truncated toward zero. */
  function Scale(decimals: int, length: nat): int
  {
    if length <= 9 then decimals * Pow10(9 - length) else TruncDiv(decimals, Pow10(length - 9))
  }

  /**
   * Line 613: the nanoseconds of the digits read after the `.`, scaled by the
   * number of digits of their VALUE (so leading zeros of the fraction are lost).
   */
  function Nanoseconds(decimals: Int64): (ns: Int64)
    ensures Abs(ns) < NanosPerSecond
    ensures (ns < 0 <==> decimals < 0) && (ns == 0 <==> decimals == 0)
  {
    var length := NumDigits(Abs(decimals));
    ScaleBound(decimals, length);
    Scale(decimals, length)
  }

  lemma {:induction false} ScaleBound(decimals: int, length: nat)
    requires length == NumDigits(Abs(decimals))
    ensures Abs(Scale(decimals, length)) < NanosPerSecond
    ensures var ns := Scale(decimals, length); (ns < 0 <==> decimals < 0) && (ns == 0 <==> decimals == 0)
  {
    if length <= 9 {
      ScaleUp(decimals, length);
    } else {
      ScaleDown(decimals, length);
    }
  }

  /** Nine digits or fewer: multiplied up to nine places, still below a second. */
  lemma {:induction false} ScaleUp(decimals: int, length: nat)
    requires length == NumDigits(Abs(decimals)) && length <= 9
    ensures Abs(decimals * Pow10(9 - length)) < NanosPerSecond
    ensures var ns := decimals * Pow10(9 - length); (ns < 0 <==> decimals < 0) && (ns == 0 <==> decimals == 0)
  {
    assert Pow10(9) == NanosPerSecond;
    var q := Pow10(9 - length);
    Pow10Add(length, 9 - length);
    MulStrict(Abs(decimals), Pow10(length), q);
    MulSign(decimals, q);
  }

  /** More than nine digits: divided down to nine, a positive value stays positive. */
  lemma {:induction false} ScaleDown(decimals: int, length: nat)
    requires length == NumDigits(Abs(decimals)) && length > 9
    ensures Abs(TruncDiv(decimals, Pow10(length - 9))) < NanosPerSecond
    ensures var ns := TruncDiv(decimals, Pow10(length - 9)); (ns < 0 <==> decimals < 0) && (ns == 0 <==> decimals == 0)
  {
    assert Pow10(9) == NanosPerSecond;
    var m := Abs(decimals);
    var q := Pow10(length - 9);
    Pow10Add(length - 9, 9);
    DivBelow(m, q, Pow10(9));
    Pow10Add(length - 9, 8);
    Pow10Monotone(length - 9, length - 1);
    MulMonotone(q, Pow10(8), Pow10(length - 1));
    DivAbove(m, q, Pow10(8));
  }

  lemma {:induction false} MulSign(a: int, q: nat)
    requires q > 0
    ensures Abs(a * q) == Abs(a) * q
    ensures (a * q < 0 <==> a < 0) && (a * q == 0 <==> a == 0)
  {
    if a < 0 {
      assert a * q == -((-a) * q);
    }
  }

  lemma {:induction false} MulMonotone(q: nat, a: nat, b: nat)
    requires a <= b
    ensures q * a <= q * b
  {
  }

  lemma {:induction false} Pow10Add(a: nat, b: nat)
    ensures Pow10(a + b) == Pow10(a) * Pow10(b)
    decreases a
  {
    if a > 0 {
      Pow10Add(a - 1, b);
    }
  }

  /** The digit count is the k with 10^(k-1) <= n < 10^k. */
  lemma {:induction false} NumDigitsIs(n: nat, k: nat)
    requires k > 0 && Pow10(k - 1) <= n < Pow10(k)
    ensures NumDigits(n) == k
  {
    var j := NumDigits(n);
    if j < k {
      Pow10Monotone(j, k - 1);
    } else if j > k {
      Pow10Monotone(k, j - 1);
    }
  }

  lemma {:induction false} Pow10Monotone(a: nat, b: nat)
    requires a <= b
    ensures Pow10(a) <= Pow10(b)
    decreases b
  {
    if a < b {
      Pow10Monotone(a, b - 1);
    }
  }

  lemma {:induction false} MulStrict(m: nat, p: nat, q: nat)
    requires m < p && q > 0
    ensures m * q < p * q
  {
  }

  lemma {:induction false} DivBelow(m: nat, d: nat, p: nat)
    requires d > 0 && m < d * p
    ensures m / d < p
  {
  }

  lemma {:induction false} DivAbove(m: nat, d: nat, p: nat)
    requires d > 0 && d * p <= m
    ensures p <= m / d
  {
    var q, r := m / d, m % d;
    assert m == d * q + r && r < d;
    if q < p {
      MulMonotone(d, q + 1, p);
      assert false;
    }
  }

  /** The nanoseconds of a negated fraction are the negated nanoseconds. */
  lemma {:induction false} NanosecondsOdd(d: Int64)
    requires d > MinInt
    ensures Nanoseconds(-d) == -Nanoseconds(d)
  {
    var length := NumDigits(Abs(d));
    assert NumDigits(Abs(-d)) == length;
    if length <= 9 {
      assert (-d) * Pow10(9 - length) == -(d * Pow10(9 - length));
    }
  }

  // ---------------------------------------------------------------------------
  // The designator scan

  /** Where a run of the designator `c` starting at `i` ends (`i` itself when there is none). */
  function After(s: string, i: nat, c: char): (j: nat)
    requires i <= |s|
    ensures i <= j <= |s|
  {
    Run(s, i, In(Just(c)))
  }

  /** What one designator step leaves: the component it set (nil if none), whether it was seen, the next number. */
  datatype Step = Step(component: Option<Int64>, seen: bool, pending: Scanned)

  /**
   * The step repeated for `Y`, `M`, `H` and `M` (lines 569-573, 575-579,
   * 591-595, 597-601): when the designator follows, the pending number becomes
   * its component and the digits after the designator become the pending number.
   */
  function Designator(s: string, pending: Scanned, c: char, isNegative: bool): (r: Step)
    requires pending.next <= |s|
    ensures pending.next <= r.pending.next <= |s|
    ensures r.seen <==> pending.next < |s| && s[pending.next] == c
    ensures r.seen ==> r.component == pending.value
    ensures !r.seen ==> r == Step(None, false, pending)
  {
    var at := After(s, pending.next, c);
    if at > pending.next then Step(pending.value, true, Digits(s, at, isNegative))
    else Step(None, false, pending)
  }

  /** Lines 560-584: the date designators after `P`, and where their scan stops. */
  datatype DatePart = DatePart(year: Option<Int64>, month: Option<Int64>, day: Option<Int64>, hasDate: bool, next: nat)

  function DateFields(s: string, i: nat, isNegative: bool): (r: DatePart)
    requires i <= |s|
    ensures i <= r.next <= |s|
  {
    var y := Designator(s, Digits(s, i, isNegative), 'Y', isNegative);
    var m := Designator(s, y.pending, 'M', isNegative);
    var atD := After(s, m.pending.next, 'D');
    var hasD := atD > m.pending.next;
    DatePart(y.component, m.component, if hasD then m.pending.value else None,
             y.seen || m.seen || hasD, atD)
  }

  /** Lines 603-614: an optional `.` that must be followed by digits, read as nanoseconds. */
  datatype FractionPart = FractionPart(nanosecond: Option<Int64>, next: nat)

  function FractionFields(s: string, i: nat, isNegative: bool): (r: Result<FractionPart>)
    requires i <= |s|
    ensures r.Ok? ==> i <= r.value.next <= |s|
    ensures r.Fail? <==> After(s, i, '.') > i && Digits(s, After(s, i, '.'), isNegative).value.None?
    ensures r.Fail? ==> r.error == BadCast
    ensures r.Ok? ==> (r.value.nanosecond.Some? <==> i < |s| && s[i] == '.')
    ensures r.Ok? && r.value.nanosecond.Some? ==>
              r.value.nanosecond == Some(Nanoseconds(Digits(s, After(s, i, '.'), isNegative).value.value))
  {
    var atDot := After(s, i, '.');
    if atDot == i then Ok(FractionPart(None, i))
    else
      var decimals := Digits(s, atDot, isNegative);
      if decimals.value.None? then Fail(BadCast)
      else Ok(FractionPart(Some(Nanoseconds(decimals.value.value)), decimals.next))
  }

  /** Lines 603-619: the fraction, then `S`, which takes the pending number as the seconds. */
  datatype SecondsPart = SecondsPart(second: Option<Int64>, nanosecond: Option<Int64>, seen: bool)

  function SecondsFields(s: string, pending: Scanned, isNegative: bool): (r: Result<SecondsPart>)
    requires pending.next <= |s|
    ensures r.Fail? <==> FractionFields(s, pending.next, isNegative).Fail?
    ensures r.Fail? ==> r.error == BadCast
    ensures r.Ok? ==> r.value.nanosecond == FractionFields(s, pending.next, isNegative).value.nanosecond
    ensures r.Ok? && r.value.second.Some? ==> r.value.seen && r.value.second == pending.value
  {
    match FractionFields(s, pending.next, isNegative)
    case Fail(e) => Fail(e)
    case Ok(fraction) =>
      var atS := After(s, fraction.next, 'S');
      Ok(SecondsPart(if atS > fraction.next then pending.value else None, fraction.nanosecond, atS > fraction.next))
  }

  /** Lines 586-619: the time designator, the time designators, the fraction and the seconds. */
  datatype TimePart = TimePart(
    hasDesignator: bool, hour: Option<Int64>, minute: Option<Int64>,
    second: Option<Int64>, nanosecond: Option<Int64>, hasTime: bool)

  function TimeFields(s: string, i: nat, isNegative: bool): (r: Result<TimePart>)
    requires i <= |s|
    ensures r.Fail? ==> r.error == BadCast
    ensures r.Ok? ==> (r.value.hasDesignator <==> i < |s| && s[i] == 'T')
    ensures r.Ok? && (r.value.hour.Some? || r.value.minute.Some? || r.value.second.Some?) ==> r.value.hasTime
  {
    var atT := After(s, i, 'T');
    var h := Designator(s, Digits(s, atT, isNegative), 'H', isNegative);
    var m := Designator(s, h.pending, 'M', isNegative);
    match SecondsFields(s, m.pending, isNegative)
    case Fail(e) => Fail(e)
    case Ok(sec) =>
      Ok(TimePart(atT > i, h.component, m.component, sec.second, sec.nanosecond, h.seen || m.seen || sec.seen))
  }

  /** Lines 621-629: the time designator must match the presence of a time component, and something must be set. */
  function Assemble(date: DatePart, time: TimePart): (r: Result<DateComponents>)
    ensures r.Ok? <==> time.hasDesignator == time.hasTime && (date.hasDate || time.hasTime)
    ensures r.Fail? ==> r.error == BadCast
    ensures r.Ok? ==> r.value == DateComponents(date.year, date.month, date.day,
                                                time.hour, time.minute, time.second, time.nanosecond)
  {
    if time.hasDesignator != time.hasTime then Fail(BadCast)
    else if !date.hasDate && !time.hasTime then Fail(BadCast)
    else Ok(DateComponents(date.year, date.month, date.day,
                           time.hour, time.minute, time.second, time.nanosecond))
  }

  /** The sign and `P` prefix (lines 552-565): where the `P` run ends, and whether a `-` preceded it. */
  datatype Prefix = Prefix(isNegative: bool, start: nat, afterP: nat)

  function DurationPrefix(s: string): (r: Prefix)
    ensures r.start <= r.afterP <= |s|
  {
    var afterNoise := Run(s, 0, NotIn(UppercaseOrMinus));
    var afterSign := After(s, afterNoise, '-');
    Prefix(afterSign > afterNoise, afterSign, After(s, afterSign, 'P'))
  }

  /** The outcome once the date and time parts are read: a time failure, or the assembled components. */
  function Completed(date: DatePart, time: Result<TimePart>): Result<DateComponents>
  {
    if time.Fail? then Fail(time.error) else Assemble(date, time.value)
  }

  /** Lines 560-629: the date part from `i`, the time part where it stops, assembled. */
  function Body(s: string, i: nat, isNegative: bool): (r: Result<DateComponents>)
    requires i <= |s|
    ensures r.Fail? ==> r.error == BadCast
    ensures r.Ok? ==> var date := DateFields(s, i, isNegative);
                      r.value.year == date.year && r.value.month == date.month && r.value.day == date.day
  {
    var date := DateFields(s, i, isNegative);
    Completed(date, TimeFields(s, date.next, isNegative))
  }

  /**
   * `durationCast`: skip to the first capital letter or `-`, note a run of `-`
   * as the sign, demand a run of `P`, then read the date and time parts; the
   * time designator `T` must be present exactly when some time component is,
   * and at least one component must be. Trailing text is not looked at.
   */
  function Duration(s: string): (r: Result<DateComponents>)
    ensures r.Fail? ==> r.error == BadCast
    ensures r.Ok? ==> 'P' in s
  {
    var prefix := DurationPrefix(s);
    if prefix.afterP == prefix.start then Fail(BadCast)
    else Body(s, prefix.afterP, prefix.isNegative)
  }

  /** `durationCast` over a Foundation scanner, proved to compute `Duration`. */
  method DurationCast(text: string) returns (r: Result<DateComponents>)
    ensures r == Duration(text)
  {
    var scanner := new Scanner(text);
    var _ := scanner.ScanUpToCharacters(UppercaseOrMinus);
    var isNegative := scanner.ScanCharacters(Just('-'));
    var hasP := scanner.ScanCharacters(Just('P'));
    if !hasP {
      return Fail(BadCast);
    }
    var date := ScanDate(scanner, isNegative);
    var time := ScanTime(scanner, isNegative);
    if time.Fail? {
      return Fail(time.error);
    }
    if time.value.hasDesignator != time.value.hasTime {
      return Fail(BadCast);
    }
    if !date.hasDate && !time.value.hasTime {
      return Fail(BadCast);
    }
    return Ok(DateComponents(date.year, date.month, date.day,
                             time.value.hour, time.value.minute, time.value.second, time.value.nanosecond));
  }

  /** One designator step on the scanner, proved to compute `Designator`. */
  method ScanDesignator(scanner: Scanner, value: Option<Int64>, c: char, isNegative: bool)
    returns (component: Option<Int64>, seen: bool, next: Option<Int64>)
    requires scanner.Valid()
    modifies scanner
    ensures scanner.Valid()
    ensures Step(component, seen, Scanned(next, scanner.location))
         == Designator(scanner.text, Scanned(value, old(scanner.location)), c, isNegative)
  {
    component, next := None, value;
    seen := scanner.ScanCharacters(Just(c));
    if seen {
      component := value;
      next := ScanDigits(scanner, isNegative);
    }
  }

  /** Lines 560-584 on the scanner, proved to compute `DateFields`. */
  method ScanDate(scanner: Scanner, isNegative: bool) returns (date: DatePart)
    requires scanner.Valid()
    modifies scanner
    ensures scanner.Valid()
    ensures date == DateFields(scanner.text, old(scanner.location), isNegative)
    ensures scanner.location == date.next
  {
    var value := ScanDigits(scanner, isNegative);
    var year, hasYear, month, hasMonth;
    year, hasYear, value := ScanDesignator(scanner, value, 'Y', isNegative);
    month, hasMonth, value := ScanDesignator(scanner, value, 'M', isNegative);
    var day := None;
    var hasDay := scanner.ScanCharacters(Just('D'));
    if hasDay {
      day := value;
    }
    date := DatePart(year, month, day, hasYear || hasMonth || hasDay, scanner.location);
  }

  /** Lines 586-619 on the scanner, proved to compute `TimeFields`. */
  method ScanTime(scanner: Scanner, isNegative: bool) returns (time: Result<TimePart>)
    requires scanner.Valid()
    modifies scanner
    ensures time == TimeFields(scanner.text, old(scanner.location), isNegative)
  {
    var hasTimeDesignator := scanner.ScanCharacters(Just('T'));
    var value := ScanDigits(scanner, isNegative);
    var hour, hasHour, minute, hasMinute;
    hour, hasHour, value := ScanDesignator(scanner, value, 'H', isNegative);
    minute, hasMinute, value := ScanDesignator(scanner, value, 'M', isNegative);
    var seconds := ScanSeconds(scanner, value, isNegative);
    if seconds.Fail? {
      return Fail(seconds.error);
    }
    var sec := seconds.value;
    time := Ok(TimePart(hasTimeDesignator, hour, minute, sec.second, sec.nanosecond,
                        hasHour || hasMinute || sec.seen));
  }

  /** Lines 603-619 on the scanner, proved to compute `SecondsFields`. */
  method ScanSeconds(scanner: Scanner, value: Option<Int64>, isNegative: bool) returns (r: Result<SecondsPart>)
    requires scanner.Valid()
    modifies scanner
    ensures r == SecondsFields(scanner.text, Scanned(value, old(scanner.location)), isNegative)
  {
    var fraction := ScanFraction(scanner, isNegative);
    if fraction.Fail? {
      return Fail(fraction.error);
    }
    var second := None;
    var hasSecond := scanner.ScanCharacters(Just('S'));
    if hasSecond {
      second := value;
    }
    r := Ok(SecondsPart(second, fraction.value.nanosecond, hasSecond));
  }

  /** Lines 603-614 on the scanner, proved to compute `FractionFields`. */
  method ScanFraction(scanner: Scanner, isNegative: bool) returns (r: Result<FractionPart>)
    requires scanner.Valid()
    modifies scanner
    ensures scanner.Valid()
    ensures r == FractionFields(scanner.text, old(scanner.location), isNegative)
    ensures r.Ok? ==> scanner.location == r.value.next
  {
    var nanosecond := None;
    var hasFraction := scanner.ScanCharacters(Just('.'));
    if hasFraction {
      var decimals := ScanDigits(scanner, isNegative);
      if decimals.None? {
        return Fail(BadCast);
      }
      var length := DigitCount(decimals.value);
      ScaleBound(decimals.value, length);
      nanosecond := Some(Scale(decimals.value, length));
    }
    r := Ok(FractionPart(nanosecond, scanner.location));
  }

  // ---------------------------------------------------------------------------
  // A leading `-` negates every component
  //
  // The sign flag reaches every digit scan; reading the same text with it set
  // only negates the numbers read.

  /**
   * The negation of a number read without a sign. Such a number is never
   * negative, so its negation fits; a negative one is left as it is.
   */
  function Negate(o: Option<Int64>): (r: Option<Int64>)
    ensures r.None? <==> o.None?
    ensures o.Some? && o.value >= 0 ==> r.value as int == -(o.value as int)
  {
    if o.Some? && o.value >= 0 then Some(-o.value) else o
  }

  function NegateScan(a: Scanned): Scanned
  {
    Scanned(Negate(a.value), a.next)
  }

  function NegateStep(st: Step): Step
  {
    Step(Negate(st.component), st.seen, NegateScan(st.pending))
  }

  function NegateDate(d: DatePart): DatePart
  {
    d.(year := Negate(d.year), month := Negate(d.month), day := Negate(d.day))
  }

  function NegateFraction(r: Result<FractionPart>): Result<FractionPart>
  {
    if r.Fail? then r else Ok(r.value.(nanosecond := Negate(r.value.nanosecond)))
  }

  function NegateSeconds(r: Result<SecondsPart>): Result<SecondsPart>
  {
    if r.Fail? then r else Ok(r.value.(second := Negate(r.value.second), nanosecond := Negate(r.value.nanosecond)))
  }

  function NegateTime(r: Result<TimePart>): Result<TimePart>
  {
    if r.Fail? then r
    else Ok(r.value.(hour := Negate(r.value.hour), minute := Negate(r.value.minute),
                     second := Negate(r.value.second), nanosecond := Negate(r.value.nanosecond)))
  }

  /** Every component of a successful read negated; a failure stays the same failure. */
  function Negated(r: Result<DateComponents>): Result<DateComponents>
  {
    if r.Fail? then r
    else
      var c := r.value;
      Ok(DateComponents(Negate(c.year), Negate(c.month), Negate(c.day),
                        Negate(c.hour), Negate(c.minute), Negate(c.second), Negate(c.nanosecond)))
  }

  /**
   * Every digit run of `t` fits in an `Int`: a digit scan anywhere either reads
   * nothing or yields a number. (A run denoting 2^63 reads as `Int.min` after a
   * `-` but as nothing without one, so the sign lemmas need this.)
   */
  predicate DigitRunsFit(t: string)
  {
    forall i | 0 <= i <= |t| :: DigitRunFits(t, i)
  }

  /** The digit scan at `i` reads nothing or yields a number. */
  predicate DigitRunFits(t: string, i: nat)
    requires i <= |t|
  {
    Digits(t, i, false).next == i || Digits(t, i, false).value.Some?
  }

  // The sign flag, on one and the same text

  lemma {:induction false} DigitsSign(s: string, i: nat)
    requires i <= |s| && DigitRunFits(s, i)
    ensures Digits(s, i, true) == NegateScan(Digits(s, i, false))
  {
  }

  lemma {:induction false} DesignatorSign(s: string, b: Scanned, d: char)
    requires b.next <= |s| && DigitRunsFit(s)
    ensures Designator(s, NegateScan(b), d, true) == NegateStep(Designator(s, b, d, false))
  {
    var at := After(s, b.next, d);
    if at > b.next {
      DigitsSign(s, at);
    }
  }

  lemma {:induction false} DateSign(s: string, i: nat)
    requires i <= |s| && DigitRunsFit(s)
    ensures DateFields(s, i, true) == NegateDate(DateFields(s, i, false))
  {
    DigitsSign(s, i);
    var yb := Designator(s, Digits(s, i, false), 'Y', false);
    DesignatorSign(s, Digits(s, i, false), 'Y');
    DesignatorSign(s, yb.pending, 'M');
  }

  lemma {:induction false} FractionSign(s: string, i: nat)
    requires i <= |s| && DigitRunsFit(s)
    ensures FractionFields(s, i, true) == NegateFraction(FractionFields(s, i, false))
  {
    var atDot := After(s, i, '.');
    DigitsSign(s, atDot);
    var fb := Digits(s, atDot, false);
    if fb.value.Some? {
      NanosecondsOdd(fb.value.value);
    }
  }

  lemma {:induction false} SecondsSign(s: string, b: Scanned)
    requires b.next <= |s| && DigitRunsFit(s)
    ensures SecondsFields(s, NegateScan(b), true) == NegateSeconds(SecondsFields(s, b, false))
  {
    FractionSign(s, b.next);
  }

  lemma {:induction false} TimeSign(s: string, i: nat)
    requires i <= |s| && DigitRunsFit(s)
    ensures TimeFields(s, i, true) == NegateTime(TimeFields(s, i, false))
  {
    var atT := After(s, i, 'T');
    DigitsSign(s, atT);
    var hb := Designator(s, Digits(s, atT, false), 'H', false);
    DesignatorSign(s, Digits(s, atT, false), 'H');
    var mb := Designator(s, hb.pending, 'M', false);
    DesignatorSign(s, hb.pending, 'M');
    SecondsSign(s, mb.pending);
  }

  // The whole duration

  /** Assembling negated parts gives the negated components, or the same failure. */
  lemma {:induction false} AssembleSign(date: DatePart, time: Result<TimePart>)
    ensures Completed(NegateDate(date), NegateTime(time)) == Negated(Completed(date, time))
  {
  }

  /** The date and time parts read with the sign flag set are those read without it, negated. */
  lemma {:induction false} BodySign(s: string, i: nat)
    requires i <= |s| && DigitRunsFit(s)
    ensures Body(s, i, true) == Negated(Body(s, i, false))
  {
    var date := DateFields(s, i, false);
    DateSign(s, i);
    TimeSign(s, date.next);
    AssembleSign(date, TimeFields(s, date.next, false));
  }

  /**
   * A `-` before the `P` negates every component that the designators after
   * it read, and changes nothing else: with or without the sign the text is
   * accepted or rejected alike.
   */
  lemma {:induction false} DurationSigned(s: string)
    requires DigitRunsFit(s)
    ensures var prefix := DurationPrefix(s);
            prefix.afterP > prefix.start ==>
              Duration(s) == if prefix.isNegative then Negated(Body(s, prefix.afterP, false))
                             else Body(s, prefix.afterP, false)
  {
    var prefix := DurationPrefix(s);
    if prefix.afterP > prefix.start && prefix.isNegative {
      BodySign(s, prefix.afterP);
    }
  }

  // ---------------------------------------------------------------------------
  // Trailing text
  //
  // The scan stops after the last designator it finds and never looks at what
  // follows: text appended after a scan that stopped inside the string changes
  // nothing, and after a final `S` only another `S` would.

  lemma {:induction false} DesignatorExtend(s: string, t: string, pending: Scanned, c: char, isNegative: bool)
    requires pending.next <= |s| && Designator(s, pending, c, isNegative).pending.next < |s|
    ensures Designator(s + t, pending, c, isNegative) == Designator(s, pending, c, isNegative)
  {
    var at := After(s, pending.next, c);
    RunExtend(s, t, pending.next, In(Just(c)));
    if at > pending.next {
      DigitsExtend(s, t, at, isNegative);
    }
  }

  lemma {:induction false} DateExtend(s: string, t: string, i: nat, isNegative: bool)
    requires i <= |s| && DateFields(s, i, isNegative).next < |s|
    ensures DateFields(s + t, i, isNegative) == DateFields(s, i, isNegative)
  {
    var d := Digits(s, i, isNegative);
    var y := Designator(s, d, 'Y', isNegative);
    var m := Designator(s, y.pending, 'M', isNegative);
    DigitsExtend(s, t, i, isNegative);
    DesignatorExtend(s, t, d, 'Y', isNegative);
    DesignatorExtend(s, t, y.pending, 'M', isNegative);
    RunExtend(s, t, m.pending.next, In(Just('D')));
  }

  lemma {:induction false} FractionExtend(s: string, t: string, i: nat, isNegative: bool)
    requires i <= |s|
    requires FractionFields(s, i, isNegative).Ok? && FractionFields(s, i, isNegative).value.next < |s|
    ensures FractionFields(s + t, i, isNegative) == FractionFields(s, i, isNegative)
  {
    var atDot := After(s, i, '.');
    RunExtend(s, t, i, In(Just('.')));
    if atDot > i {
      DigitsExtend(s, t, atDot, isNegative);
    }
  }

  lemma {:induction false} SecondsExtend(s: string, t: string, pending: Scanned, isNegative: bool)
    requires pending.next <= |s|
    requires SecondsFields(s, pending, isNegative).Ok? && SecondsFields(s, pending, isNegative).value.seen
    requires |t| == 0 || t[0] != 'S'
    ensures SecondsFields(s + t, pending, isNegative) == SecondsFields(s, pending, isNegative)
    ensures pending.next < |s|
  {
    var fraction := FractionFields(s, pending.next, isNegative).value;
    FractionExtend(s, t, pending.next, isNegative);
    RunExtend(s, t, fraction.next, In(Just('S')));
  }

  lemma {:induction false} TimeExtend(s: string, t: string, i: nat, isNegative: bool)
    requires i <= |s|
    requires TimeFields(s, i, isNegative).Ok? && TimeFields(s, i, isNegative).value.second.Some?
    requires |t| == 0 || t[0] != 'S'
    ensures TimeFields(s + t, i, isNegative) == TimeFields(s, i, isNegative)
    ensures i < |s|
  {
    var atT := After(s, i, 'T');
    var d := Digits(s, atT, isNegative);
    var h := Designator(s, d, 'H', isNegative);
    var m := Designator(s, h.pending, 'M', isNegative);
    SecondsExtend(s, t, m.pending, isNegative);
    DesignatorExtend(s, t, h.pending, 'M', isNegative);
    DesignatorExtend(s, t, d, 'H', isNegative);
    DigitsExtend(s, t, atT, isNegative);
    RunExtend(s, t, i, In(Just('T')));
  }

  lemma {:induction false} BodyExtend(s: string, t: string, i: nat, isNegative: bool)
    requires i <= |s|
    requires Body(s, i, isNegative).Ok? && Body(s, i, isNegative).value.second.Some?
    requires |t| == 0 || t[0] != 'S'
    ensures Body(s + t, i, isNegative) == Body(s, i, isNegative)
    ensures i < |s|
  {
    var date := DateFields(s, i, isNegative);
    TimeExtend(s, t, date.next, isNegative);
    DateExtend(s, t, i, isNegative);
  }

  /**
   * Once a duration has read its seconds, whatever follows is ignored,
   * unless it begins with one more `S`.
   */
  lemma {:induction false} DurationExtend(s: string, t: string)
    requires Duration(s).Ok? && Duration(s).value.second.Some?
    requires |t| == 0 || t[0] != 'S'
    ensures Duration(s + t) == Duration(s)
  {
    var prefix := DurationPrefix(s);
    var afterNoise := Run(s, 0, NotIn(UppercaseOrMinus));
    BodyExtend(s, t, prefix.afterP, prefix.isNegative);
    RunExtend(s, t, 0, NotIn(UppercaseOrMinus));
    RunExtend(s, t, afterNoise, In(Just('-')));
    RunExtend(s, t, prefix.start, In(Just('P')));
    assert DurationPrefix(s + t) == prefix;
  }
}
