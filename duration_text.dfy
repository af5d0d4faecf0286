/**
 * The designator text the duration cast is meant to read, `[-]PnYnMnDTnHnMn[.f]S`
 * with any designator left out, and the theorem that the cast reads back
 * exactly the numbers written into it.
 */
module DurationTexts {
  import opened Wrappers
  import opened Strings
  import opened Scanning
  import opened Integers
  import opened Durations

  /** The numeral written before each designator (nil: designator absent) and the digits after a `.`. */
  datatype Designators = Designators(
    year: Option<string>, month: Option<string>, day: Option<string>,
    hour: Option<string>, minute: Option<string>, second: Option<string>,
    fraction: string)

  /** One or more digits (leading zeros allowed) whose value is an `Int`. */
  predicate Numeral(w: string) { |w| > 0 && AllDigits(w) && DecimalValue(w) <= MaxInt }

  predicate FitsInt(o: Option<string>) { o.Some? ==> Numeral(o.value) }

  predicate HasTime(d: Designators) { d.hour.Some? || d.minute.Some? || d.second.Some? }

  predicate HasDate(d: Designators) { d.year.Some? || d.month.Some? || d.day.Some? }

  /**
   * What the cast is meant to accept: some designator present, every number an
   * `Int`, and a fraction only before `S`, made of digits whose value is an `Int`.
   */
  predicate WellFormed(d: Designators)
  {
    (HasDate(d) || HasTime(d))
    && FitsInt(d.year) && FitsInt(d.month) && FitsInt(d.day)
    && FitsInt(d.hour) && FitsInt(d.minute) && FitsInt(d.second)
    && (d.fraction != [] ==> d.second.Some? && Numeral(d.fraction))
  }

  /** The numeral followed by the designator `c`, or nothing. */
  function Field(o: Option<string>, c: char): string
  {
    if o.None? then [] else o.value + [c]
  }

  function DateText(d: Designators): string
  {
    Field(d.year, 'Y') + Field(d.month, 'M') + Field(d.day, 'D')
  }

  function SecondsText(d: Designators): string
  {
    if d.second.None? then []
    else d.second.value + (if d.fraction == [] then [] else "." + d.fraction) + "S"
  }

  function TimeText(d: Designators): string
  {
    if !HasTime(d) then [] else "T" + Field(d.hour, 'H') + Field(d.minute, 'M') + SecondsText(d)
  }

  /** An optional `-`, then `P`, then the designators. */
  function Frame(negative: bool, body: string): string
  {
    (if negative then "-" else []) + "P" + body
  }

  /** The duration text: an optional `-`, then `P`, the date designators, and `T` with the time designators. */
  function Render(d: Designators, negative: bool): string
  {
    Frame(negative, DateText(d) + TimeText(d))
  }

  /** A written numeral as the cast reads it: negated after a `-`. */
  function Read(o: Option<string>, negative: bool): Option<Int64>
    requires FitsInt(o)
  {
    if o.None? then None else Signed(negative, DecimalValue(o.value))
  }

  function FractionRead(d: Designators, negative: bool): Option<Int64>
  {
    if d.fraction == [] || !AllDigits(d.fraction) then None
    else
      var f := Signed(negative, DecimalValue(d.fraction));
      if f.None? then None else Some(Nanoseconds(f.value))
  }

  /** The components the cast is meant to produce from `Render(d, negative)`. */
  function Expected(d: Designators, negative: bool): DateComponents
    requires WellFormed(d)
  {
    DateComponents(Read(d.year, negative), Read(d.month, negative), Read(d.day, negative),
                   Read(d.hour, negative), Read(d.minute, negative), Read(d.second, negative),
                   FractionRead(d, negative))
  }


  // ---------------------------------------------------------------------------
  // Reading the pieces of a rendered text

  lemma {:induction false} Assoc(a: string, b: string, c: string)
    ensures a + b + c == a + (b + c)
  {
  }

  /** The first character after the leading digits of `w`, if any. */
  function Lead(w: string): Option<char>
  {
    var k := Run(w, 0, In(DecimalDigits));
    if k == |w| then None else Some(w[k])
  }

  lemma {:induction false} LeadFirst(w: string, c: char)
    requires |w| > 0 && w[0] == c && !IsDigit(c)
    ensures Lead(w) == Some(c)
  {
    RunIs(w, 0, In(DecimalDigits), 0);
  }

  /** What follows the numeral of a designator field is its designator. */
  lemma {:induction false} LeadField(o: Option<string>, c: char, rest: string)
    requires FitsInt(o) && !IsDigit(c)
    ensures Lead(Field(o, c) + rest) == if o.Some? then Some(c) else Lead(rest)
  {
    if o.Some? {
      var w := Field(o, c) + rest;
      ReadsFrom(w, 0);
      assert w[0..] == w;
      Assoc(o.value, [c], rest);
      DigitsRead(w, 0, o.value, [c] + rest, false);
    } else {
      assert Field(o, c) + rest == rest;
    }
  }

  /** The seconds text leads with `S` or `.` after its digits, and nothing when absent. */
  lemma {:induction false} LeadSeconds(d: Designators)
    requires FitsInt(d.second)
    ensures Lead(SecondsText(d)) == if d.second.None? then None else if d.fraction == [] then Some('S') else Some('.')
  {
    if d.second.Some? {
      var w := SecondsText(d);
      var dot := if d.fraction == [] then [] else "." + d.fraction;
      ReadsFrom(w, 0);
      assert w[0..] == w;
      Assoc(d.second.value, dot, "S");
      DigitsRead(w, 0, d.second.value, dot + "S", false);
    }
  }

  // ---------------------------------------------------------------------------
  // The designator steps over a rendered text

  /** A single designator `c` at `j`, not followed by another: its run ends right after it. */
  lemma {:induction false} DesignatorAt(s: string, j: nat, c: char, rest: string)
    requires Reads(s, j, [c] + rest)
    requires !IsDigit(c) && Lead(rest) != Some(c)
    ensures Reads(s, j + 1, rest) && j < |s| && After(s, j, c) == j + 1
  {
    ReadsSplit(s, j, [c], rest);
    assert s[j + 0] == c;
    if |rest| > 0 && rest[0] == c {
      LeadFirst(rest, c);
    }
    RunIs(s, j, In(Just(c)), j + 1);
  }

  /** A designator step that sees its designator takes the pending number and reads the next one. */
  lemma {:induction false} DesignatorSeen(s: string, pending: Scanned, c: char, negative: bool)
    requires pending.next < |s| && After(s, pending.next, c) == pending.next + 1
    ensures Designator(s, pending, c, negative) == Step(pending.value, true, Digits(s, pending.next + 1, negative))
  {
  }

  /** A designator step where neither a number nor the designator is written changes nothing. */
  lemma {:induction false} DesignatorAbsent(s: string, i: nat, c: char, rest: string, negative: bool)
    requires Reads(s, i, rest)
    requires !IsDigit(c) && Lead(rest) != Some(c)
    ensures Designator(s, Digits(s, i, negative), c, negative) == Step(None, false, Digits(s, i, negative))
  {
    RunReads(s, i, rest, In(DecimalDigits));
    ReadsChars(s, i, rest);
    var k := Run(s, i, In(DecimalDigits));
    if k < |s| {
      assert s[i + (k - i)] == rest[k - i];
    }
    RunIs(s, k, In(Just(c)), k);
  }

  /** One designator step over `Field(o, c)`: it takes the written number, and the next number is read after it. */
  lemma {:induction false} DesignatorRenders(s: string, i: nat, o: Option<string>, c: char, rest: string, next: nat, negative: bool)
    requires FitsInt(o) && Reads(s, i, Field(o, c) + rest)
    requires !IsDigit(c) && Lead(rest) != Some(c)
    requires next == i + |Field(o, c)|
    ensures Reads(s, next, rest)
    ensures Designator(s, Digits(s, i, negative), c, negative) == Step(Read(o, negative), o.Some?, Digits(s, next, negative))
  {
    if o.Some? {
      Assoc(o.value, [c], rest);
      DigitsRead(s, i, o.value, [c] + rest, negative);
      DesignatorAt(s, i + |o.value|, c, rest);
      DesignatorSeen(s, Digits(s, i, negative), c, negative);
    } else {
      assert Field(o, c) + rest == rest;
      DesignatorAbsent(s, i, c, rest, negative);
    }
  }

  // ---------------------------------------------------------------------------
  // The date part

  /** The `D` step over a written day: it takes the pending number and stops after the `D`. */
  lemma {:induction false} DayPresent(s: string, i: nat, w: string, rest: string, negative: bool)
    requires Numeral(w) && Reads(s, i, w + ("D" + rest))
    requires Lead(rest) != Some('D')
    ensures i + |w| < |s|
    ensures var p := Digits(s, i, negative);
            p == Scanned(Signed(negative, DecimalValue(w)), i + |w|) && After(s, p.next, 'D') == i + |w| + 1
  {
    DigitsRead(s, i, w, "D" + rest, negative);
    DesignatorAt(s, i + |w|, 'D', rest);
  }

  /** The `D` step with no day written, before the time text: nothing is read. */
  lemma {:induction false} DayAbsent(s: string, i: nat, rest: string, negative: bool)
    requires Reads(s, i, rest)
    requires |rest| == 0 || rest[0] == 'T'
    ensures i <= |s|
    ensures var p := Digits(s, i, negative); p.next == i && After(s, i, 'D') == i
  {
    ReadsLength(s, i, rest);
    if |rest| > 0 {
      ReadsSplit(s, i, [rest[0]], rest[1..]);
      assert [rest[0]] + rest[1..] == rest;
      assert s[i + 0] == 'T';
    }
    RunIs(s, i, In(DecimalDigits), i);
    RunIs(s, i, In(Just('D')), i);
  }

  /** The `D` step over `Field(o, 'D')` followed by the time text. */
  lemma {:induction false} DayRenders(s: string, i: nat, o: Option<string>, rest: string, next: nat, negative: bool)
    requires FitsInt(o) && Reads(s, i, Field(o, 'D') + rest)
    requires |rest| == 0 || rest[0] == 'T'
    requires next == i + |Field(o, 'D')|
    ensures next <= |s|
    ensures var p := Digits(s, i, negative); var at := After(s, p.next, 'D');
            at == next && (at > p.next <==> o.Some?) && (at > p.next ==> p.value == Read(o, negative))
  {
    if o.Some? {
      if |rest| > 0 {
        LeadFirst(rest, 'T');
      }
      Assoc(o.value, "D", rest);
      DayPresent(s, i, o.value, rest, negative);
    } else {
      assert Field(o, 'D') + rest == rest;
      DayAbsent(s, i, rest, negative);
    }
  }

  /** The date text regrouped from the right, and what follows each of its designators. */
  lemma {:induction false} DateLeads(d: Designators, tail: string)
    requires WellFormed(d)
    requires tail == [] || tail[0] == 'T'
    ensures var fy, fm, fd := Field(d.year, 'Y'), Field(d.month, 'M'), Field(d.day, 'D');
            DateText(d) + tail == fy + (fm + (fd + tail))
            && Lead(fm + (fd + tail)) != Some('Y') && Lead(fd + tail) != Some('M')
            && Lead(DateText(d) + tail) != Some('P')
  {
    var fy, fm, fd := Field(d.year, 'Y'), Field(d.month, 'M'), Field(d.day, 'D');
    if tail != [] {
      LeadFirst(tail, 'T');
    }
    LeadField(d.day, 'D', tail);
    LeadField(d.month, 'M', fd + tail);
    LeadField(d.year, 'Y', fm + (fd + tail));
    Assoc(fy + fm, fd, tail);
    Assoc(fy, fm, fd + tail);
  }

  /** The three designator steps over a rendered date text. */
  lemma {:induction false} DateSteps(s: string, i: nat, d: Designators, tail: string, negative: bool) returns (i1: nat, i2: nat, next: nat)
    requires WellFormed(d)
    requires Reads(s, i, DateText(d) + tail)
    requires tail == [] || tail[0] == 'T'
    ensures i <= i1 <= i2 <= next <= |s| && next == i + |DateText(d)|
    ensures Designator(s, Digits(s, i, negative), 'Y', negative)
         == Step(Read(d.year, negative), d.year.Some?, Digits(s, i1, negative))
    ensures Designator(s, Digits(s, i1, negative), 'M', negative)
         == Step(Read(d.month, negative), d.month.Some?, Digits(s, i2, negative))
    ensures var p := Digits(s, i2, negative); var at := After(s, p.next, 'D');
            at == next && (at > p.next <==> d.day.Some?) && (at > p.next ==> p.value == Read(d.day, negative))
  {
    var fy, fm, fd := Field(d.year, 'Y'), Field(d.month, 'M'), Field(d.day, 'D');
    DateLeads(d, tail);
    i1 := i + |fy|;
    DesignatorRenders(s, i, d.year, 'Y', fm + (fd + tail), i1, negative);
    i2 := i1 + |fm|;
    DesignatorRenders(s, i1, d.month, 'M', fd + tail, i2, negative);
    next := i2 + |fd|;
    DayRenders(s, i2, d.day, tail, next, negative);
  }

  /** `DateFields` from the outcome of its three steps. */
  lemma {:induction false} DateFromSteps(s: string, i: nat, i1: nat, i2: nat, year: Option<Int64>, hasYear: bool,
                      month: Option<Int64>, hasMonth: bool, day: Option<Int64>, hasDay: bool, next: nat, negative: bool)
    requires i <= i1 <= i2 <= |s|
    requires Designator(s, Digits(s, i, negative), 'Y', negative) == Step(year, hasYear, Digits(s, i1, negative))
    requires Designator(s, Digits(s, i1, negative), 'M', negative) == Step(month, hasMonth, Digits(s, i2, negative))
    requires var p := Digits(s, i2, negative); var at := After(s, p.next, 'D');
             at == next && (at > p.next <==> hasDay) && (at > p.next ==> p.value == day)
    requires !hasDay ==> day.None?
    ensures DateFields(s, i, negative) == DatePart(year, month, day, hasYear || hasMonth || hasDay, next)
  {
  }

  /** The date designators of a rendered text are read back, and the scan stops right after them. */
  lemma {:induction false} DateRenders(s: string, i: nat, d: Designators, tail: string, negative: bool)
    requires WellFormed(d)
    requires Reads(s, i, DateText(d) + tail)
    requires tail == [] || tail[0] == 'T'
    ensures var date := DateFields(s, i, negative);
            Reads(s, date.next, tail)
            && date == DatePart(Read(d.year, negative), Read(d.month, negative), Read(d.day, negative), HasDate(d), date.next)
  {
    var i1, i2, next := DateSteps(s, i, d, tail, negative);
    ReadsSplit(s, i, DateText(d), tail);
    DateFromSteps(s, i, i1, i2, Read(d.year, negative), d.year.Some?, Read(d.month, negative), d.month.Some?,
                  Read(d.day, negative), d.day.Some?, next, negative);
  }

  // ---------------------------------------------------------------------------
  // The time part

  lemma {:induction false} ReadsLast(s: string, j: nat, c: char)
    requires Reads(s, j, [c])
    ensures j + 1 == |s| && s[j] == c
  {
    ReadsChars(s, j, [c]);
    assert s[j + 0] == c;
  }

  lemma {:induction false} SecondsAbsent(s: string, i: nat, negative: bool)
    requires i == |s|
    ensures SecondsFields(s, Digits(s, i, negative), negative) == Ok(SecondsPart(None, None, false))
  {
    RunIs(s, i, In(DecimalDigits), i);
    RunIs(s, i, In(Just('.')), i);
    RunIs(s, i, In(Just('S')), i);
  }

  lemma {:induction false} SecondsWhole(s: string, i: nat, w: string, negative: bool)
    requires Reads(s, i, w + "S")
    requires |w| > 0 && AllDigits(w)
    ensures SecondsFields(s, Digits(s, i, negative), negative)
         == Ok(SecondsPart(Signed(negative, DecimalValue(w)), None, true))
  {
    DigitsRead(s, i, w, "S", negative);
    var j := i + |w|;
    ReadsLast(s, j, 'S');
    RunIs(s, j, In(Just('.')), j);
    RunIs(s, j, In(Just('S')), j + 1);
  }

  /** The reads over digits, `.`, fraction digits and `S`. */
  lemma {:induction false} FractionSteps(s: string, i: nat, w: string, f: string, negative: bool) returns (j: nat, k: nat)
    requires Reads(s, i, w + ("." + f + "S"))
    requires |w| > 0 && AllDigits(w) && |f| > 0 && AllDigits(f)
    ensures i <= j < k < |s|
    ensures Digits(s, i, negative) == Scanned(Signed(negative, DecimalValue(w)), j)
    ensures After(s, j, '.') == j + 1
    ensures Digits(s, j + 1, negative) == Scanned(Signed(negative, DecimalValue(f)), k)
    ensures After(s, k, 'S') == k + 1
  {
    DigitsRead(s, i, w, "." + f + "S", negative);
    j := i + |w|;
    Assoc(".", f, "S");
    ReadsSplit(s, j, ".", f + "S");
    ReadsChars(s, j + 1, f + "S");
    assert s[j + 0] == '.' && s[j + 1 + 0] == f[0];
    RunIs(s, j, In(Just('.')), j + 1);
    DigitsRead(s, j + 1, f, "S", negative);
    k := j + 1 + |f|;
    ReadsLast(s, k, 'S');
    RunIs(s, k, In(Just('S')), k + 1);
  }

  /** `SecondsFields` from the outcome of its reads when a fraction is present. */
  lemma {:induction false} SecondsFromSteps(s: string, i: nat, j: nat, k: nat, second: Option<Int64>, decimals: Int64, negative: bool)
    requires i <= j < k < |s|
    requires Digits(s, i, negative) == Scanned(second, j)
    requires After(s, j, '.') == j + 1
    requires Digits(s, j + 1, negative) == Scanned(Some(decimals), k)
    requires After(s, k, 'S') == k + 1
    ensures SecondsFields(s, Digits(s, i, negative), negative) == Ok(SecondsPart(second, Some(Nanoseconds(decimals)), true))
  {
  }

  lemma {:induction false} SecondsFraction(s: string, i: nat, w: string, f: string, negative: bool)
    requires Reads(s, i, w + ("." + f + "S"))
    requires |w| > 0 && AllDigits(w) && Numeral(f)
    ensures Signed(negative, DecimalValue(f)).Some?
    ensures SecondsFields(s, Digits(s, i, negative), negative)
         == Ok(SecondsPart(Signed(negative, DecimalValue(w)), Some(Nanoseconds(Signed(negative, DecimalValue(f)).value)), true))
  {
    var j, k := FractionSteps(s, i, w, f, negative);
    SecondsFromSteps(s, i, j, k, Signed(negative, DecimalValue(w)), Signed(negative, DecimalValue(f)).value, negative);
  }

  /** The seconds of a rendered text, with their fraction, are read back. */
  lemma {:induction false} SecondsRenders(s: string, i: nat, d: Designators, negative: bool)
    requires WellFormed(d)
    requires Reads(s, i, SecondsText(d))
    ensures SecondsFields(s, Digits(s, i, negative), negative)
         == Ok(SecondsPart(Read(d.second, negative), FractionRead(d, negative), d.second.Some?))
  {
    if d.second.None? {
      SecondsAbsent(s, i, negative);
    } else if d.fraction == [] {
      assert SecondsText(d) == d.second.value + "S";
      SecondsWhole(s, i, d.second.value, negative);
    } else {
      Assoc(d.second.value, "." + d.fraction, "S");
      SecondsFraction(s, i, d.second.value, d.fraction, negative);
    }
  }

  /** The time text regrouped from the right, and what follows each of its designators. */
  lemma {:induction false} TimeLeads(d: Designators)
    requires WellFormed(d) && HasTime(d)
    ensures var fh, fm, sec := Field(d.hour, 'H'), Field(d.minute, 'M'), SecondsText(d);
            TimeText(d) == "T" + (fh + (fm + sec))
            && Lead(fh + (fm + sec)) != Some('T') && Lead(fm + sec) != Some('H') && Lead(sec) != Some('M')
  {
    var fh, fm, sec := Field(d.hour, 'H'), Field(d.minute, 'M'), SecondsText(d);
    LeadSeconds(d);
    LeadField(d.minute, 'M', sec);
    LeadField(d.hour, 'H', fm + sec);
    Assoc("T" + fh, fm, sec);
    Assoc("T", fh, fm + sec);
  }

  /** The reads over a rendered time text. */
  lemma {:induction false} TimeSteps(s: string, i: nat, d: Designators, negative: bool) returns (i2: nat, i3: nat)
    requires WellFormed(d) && HasTime(d)
    requires Reads(s, i, TimeText(d))
    ensures i < i2 <= i3 <= |s|
    ensures After(s, i, 'T') == i + 1
    ensures Designator(s, Digits(s, i + 1, negative), 'H', negative)
         == Step(Read(d.hour, negative), d.hour.Some?, Digits(s, i2, negative))
    ensures Designator(s, Digits(s, i2, negative), 'M', negative)
         == Step(Read(d.minute, negative), d.minute.Some?, Digits(s, i3, negative))
    ensures SecondsFields(s, Digits(s, i3, negative), negative)
         == Ok(SecondsPart(Read(d.second, negative), FractionRead(d, negative), d.second.Some?))
  {
    var fh, fm, sec := Field(d.hour, 'H'), Field(d.minute, 'M'), SecondsText(d);
    TimeLeads(d);
    DesignatorAt(s, i, 'T', fh + (fm + sec));
    i2 := i + 1 + |fh|;
    DesignatorRenders(s, i + 1, d.hour, 'H', fm + sec, i2, negative);
    i3 := i2 + |fm|;
    DesignatorRenders(s, i2, d.minute, 'M', sec, i3, negative);
    SecondsRenders(s, i3, d, negative);
    ReadsLength(s, i3, sec);
  }

  /** `TimeFields` from the outcome of its steps. */
  lemma {:induction false} TimeFromSteps(s: string, i: nat, at: nat, i2: nat, i3: nat, hour: Option<Int64>, hasHour: bool,
                      minute: Option<Int64>, hasMinute: bool, seconds: SecondsPart, negative: bool)
    requires i <= at <= i2 <= i3 <= |s|
    requires After(s, i, 'T') == at
    requires Designator(s, Digits(s, at, negative), 'H', negative) == Step(hour, hasHour, Digits(s, i2, negative))
    requires Designator(s, Digits(s, i2, negative), 'M', negative) == Step(minute, hasMinute, Digits(s, i3, negative))
    requires SecondsFields(s, Digits(s, i3, negative), negative) == Ok(seconds)
    ensures TimeFields(s, i, negative)
         == Ok(TimePart(at > i, hour, minute, seconds.second, seconds.nanosecond, hasHour || hasMinute || seconds.seen))
  {
  }

  lemma {:induction false} TimeAbsent(s: string, i: nat, negative: bool)
    requires i == |s|
    ensures TimeFields(s, i, negative) == Ok(TimePart(false, None, None, None, None, false))
  {
    RunIs(s, i, In(Just('T')), i);
    RunIs(s, i, In(DecimalDigits), i);
    RunIs(s, i, In(Just('H')), i);
    RunIs(s, i, In(Just('M')), i);
    SecondsAbsent(s, i, negative);
  }

  /** A rendered time text with some time designator is read back. */
  lemma {:induction false} TimePresent(s: string, i: nat, d: Designators, negative: bool)
    requires WellFormed(d) && HasTime(d)
    requires Reads(s, i, TimeText(d))
    ensures TimeFields(s, i, negative)
         == Ok(TimePart(true, Read(d.hour, negative), Read(d.minute, negative), Read(d.second, negative),
                        FractionRead(d, negative), true))
  {
    var i2, i3 := TimeSteps(s, i, d, negative);
    assert Designator(s, Digits(s, i + 1, negative), 'H', negative)
        == Step(Read(d.hour, negative), d.hour.Some?, Digits(s, i2, negative));
    TimeFromSteps(s, i, i + 1, i2, i3, Read(d.hour, negative), d.hour.Some?, Read(d.minute, negative), d.minute.Some?,
                  SecondsPart(Read(d.second, negative), FractionRead(d, negative), d.second.Some?), negative);
  }

  /** The time designator and the time designators of a rendered text are read back. */
  lemma {:induction false} TimeRenders(s: string, i: nat, d: Designators, negative: bool)
    requires WellFormed(d)
    requires Reads(s, i, TimeText(d))
    ensures TimeFields(s, i, negative)
         == Ok(TimePart(HasTime(d), Read(d.hour, negative), Read(d.minute, negative), Read(d.second, negative),
                        FractionRead(d, negative), HasTime(d)))
  {
    if HasTime(d) {
      TimePresent(s, i, d, negative);
    } else {
      TimeAbsent(s, i, negative);
    }
  }

  // ---------------------------------------------------------------------------
  // The whole text

  lemma {:induction false} FrameReads(negative: bool, body: string)
    ensures var s, start := Frame(negative, body), if negative then 1 else 0;
            start < |s| && s[start] == 'P' && (negative ==> s[0] == '-') && Reads(s, start + 1, body)
  {
    var s := Frame(negative, body);
    var sign: string := if negative then "-" else [];
    ReadsFrom(s, 0);
    assert s[0..] == s;
    Assoc(sign, "P", body);
    ReadsSplit(s, 0, sign, "P" + body);
    ReadsSplit(s, |sign|, "P", body);
    assert s[|sign| + 0] == 'P';
    if negative {
      assert s[0 + 0] == '-';
    }
  }

  /** The prefix scan of a framed text: the sign is seen, and exactly one `P`. */
  lemma {:induction false} PrefixRenders(negative: bool, body: string)
    requires Lead(body) != Some('P')
    ensures var start := if negative then 1 else 0;
            DurationPrefix(Frame(negative, body)) == Prefix(negative, start, start + 1)
  {
    var s := Frame(negative, body);
    var start := if negative then 1 else 0;
    FrameReads(negative, body);
    RunIs(s, 0, NotIn(UppercaseOrMinus), 0);
    if negative {
      RunIs(s, 0, In(Just('-')), 1);
    } else {
      RunIs(s, 0, In(Just('-')), 0);
    }
    if |body| > 0 && body[0] == 'P' {
      LeadFirst(body, 'P');
    }
    RunIs(s, start, In(Just('P')), start + 1);
  }

  /** `Body` from the date and time parts. */
  lemma {:induction false} BodyFromParts(s: string, i: nat, negative: bool, date: DatePart, time: TimePart)
    requires i <= |s|
    requires DateFields(s, i, negative) == date
    requires TimeFields(s, date.next, negative) == Ok(time)
    ensures Body(s, i, negative) == Assemble(date, time)
  {
  }

  /** `Duration` from the prefix, date and time parts. */
  lemma {:induction false} DurationFromParts(s: string, negative: bool, start: nat, date: DatePart, time: TimePart)
    requires start < |s|
    requires DurationPrefix(s) == Prefix(negative, start, start + 1)
    requires DateFields(s, start + 1, negative) == date
    requires TimeFields(s, date.next, negative) == Ok(time)
    ensures Duration(s) == Assemble(date, time)
  {
    BodyFromParts(s, start + 1, negative, date, time);
  }

  /**
   * Round trip: the cast reads every well-formed designator text back into the
   * numbers written in it, each negated when the text starts with `-`, and the
   * fraction into its nanoseconds.
   */
  lemma {:induction false} DurationReadsRender(d: Designators, negative: bool)
    requires WellFormed(d)
    ensures Duration(Render(d, negative)) == Ok(Expected(d, negative))
  {
    var body := DateText(d) + TimeText(d);
    var s := Frame(negative, body);
    var start := if negative then 1 else 0;
    FrameReads(negative, body);
    DateLeads(d, TimeText(d));
    PrefixRenders(negative, body);
    DateRenders(s, start + 1, d, TimeText(d), negative);
    var date := DateFields(s, start + 1, negative);
    TimeRenders(s, date.next, d, negative);
    var time := TimePart(HasTime(d), Read(d.hour, negative), Read(d.minute, negative),
                         Read(d.second, negative), FractionRead(d, negative), HasTime(d));
    DurationFromParts(s, negative, start, date, time);
  }

  /**
   * Text after a rendered duration that has seconds is ignored, unless it
   * starts with another `S`: `PT5Sabc` reads as `PT5S`.
   */
  lemma {:induction false} DurationTrailing(d: Designators, negative: bool, t: string)
    requires WellFormed(d) && d.second.Some?
    requires |t| == 0 || t[0] != 'S'
    ensures Duration(Render(d, negative) + t) == Ok(Expected(d, negative))
  {
    DurationReadsRender(d, negative);
    DurationExtend(Render(d, negative), t);
  }

  /** A written numeral read after a `-` is the negation of the same numeral read without one. */
  lemma {:induction false} ReadSign(o: Option<string>)
    requires FitsInt(o)
    ensures Read(o, true) == Negate(Read(o, false))
  {
  }

  /** The same for the fraction, through the nanosecond scaling. */
  lemma {:induction false} FractionReadSign(d: Designators)
    requires WellFormed(d)
    ensures FractionRead(d, true) == Negate(FractionRead(d, false))
  {
    if d.fraction != [] {
      NanosecondsOdd(DecimalValue(d.fraction));
    }
  }

  /**
   * A text with a `-` is the same text without one, `-` in front, and the
   * components meant for it are those meant without one, negated: with
   * `DurationReadsRender`, `-` + t casts to the components of t, each negated.
   */
  lemma {:induction false} ExpectedSigned(d: Designators)
    requires WellFormed(d)
    ensures Render(d, true) == "-" + Render(d, false)
    ensures Ok(Expected(d, true)) == Negated(Ok(Expected(d, false)))
  {
    var body := DateText(d) + TimeText(d);
    assert Frame(true, body) == "-" + ([] + "P" + body);
    ReadSign(d.year);
    ReadSign(d.month);
    ReadSign(d.day);
    ReadSign(d.hour);
    ReadSign(d.minute);
    ReadSign(d.second);
    FractionReadSign(d);
  }

  // ---------------------------------------------------------------------------
  // Worked texts

  /** Every designator set to 1, and 125 thousandths of a second, as the cast's tests write it. */
  function EveryDesignator(): Designators
  {
    var one := Some("1");
    Designators(one, one, one, one, one, one, "125")
  }

  lemma {:induction false} EveryDesignatorText()
    ensures Render(EveryDesignator(), false) == "P1Y1M1DT1H1M1.125S"
    ensures Render(EveryDesignator(), true) == "-P1Y1M1DT1H1M1.125S"
  {
  }

  /** What the cast is meant to read from it: every component 1, 125000000 nanoseconds; negated after a `-`. */
  lemma {:induction false} EveryDesignatorExpected(negative: bool)
    ensures WellFormed(EveryDesignator())
    ensures var v: Int64 := if negative then -1 else 1;
            var ns: Int64 := if negative then -125000000 else 125000000;
            Expected(EveryDesignator(), negative) == DateComponents(Some(v), Some(v), Some(v), Some(v), Some(v), Some(v), Some(ns))
  {
    var d := EveryDesignator();
    assert AllDigits("1") && DecimalValue("1") == 1;
    assert AllDigits("125") && DecimalValue("125") == 125;
    assert d.fraction == "125";
    NanosecondExamples();
    if negative {
      NanosecondsOdd(125);
      assert FractionRead(d, true) == Some(-125000000);
    } else {
      assert FractionRead(d, false) == Some(125000000);
    }
  }

  /** "P1Y1M1DT1H1M1.125S" sets every component to 1 and the nanoseconds to 125000000; after a `-`, their negations. */
  lemma {:induction false} EveryDesignatorRead(negative: bool)
    ensures var v: Int64 := if negative then -1 else 1;
            var ns: Int64 := if negative then -125000000 else 125000000;
            Duration(Render(EveryDesignator(), negative))
            == Ok(DateComponents(Some(v), Some(v), Some(v), Some(v), Some(v), Some(v), Some(ns)))
  {
    EveryDesignatorExpected(negative);
    DurationReadsRender(EveryDesignator(), negative);
  }

  /** Nanoseconds scale the value by its own digit count: 125 is 0.125 s, 5 is 0.5 s. */
  lemma {:induction false} NanosecondExamples()
    ensures Nanoseconds(125) == 125000000
    ensures Nanoseconds(5) == 500000000
  {
    assert NumDigits(125) == 3;
    assert NumDigits(5) == 1;
  }

  /** Past nine digits the nanoseconds are truncated: 1234567891 is 0.123456789 s. */
  lemma {:induction false} NanosecondsTruncate()
    ensures Nanoseconds(1234567891) == 123456789
  {
    assert NumDigits(1234567891) == 10;
  }

  /** The long fraction of the source's tests: `.123456789987654321` keeps its first nine digits. */
  lemma {:induction false} NanosecondsLongFraction()
    ensures Nanoseconds(123456789987654321) == 123456789
  {
    var n := 123456789987654321;
    Pow10Add(9, 8);
    Pow10Add(9, 9);
    assert Pow10(9) == 1000000000 && Pow10(8) == 100000000;
    NumDigitsIs(n, 18);
    assert Scale(n, 18) == TruncDiv(n, Pow10(9));
  }

  /** A leading zero does not change the value of a run of digits. */
  lemma {:induction false} LeadingZero(f: string)
    requires AllDigits(f)
    ensures AllDigits("0" + f) && DecimalValue("0" + f) == DecimalValue(f)
    decreases |f|
  {
    var z := "0" + f;
    assert AllDigits(z) by {
      forall k | 0 <= k < |z| ensures IsDigit(z[k]) {
        if k > 0 {
          assert z[k] == f[k - 1];
        }
      }
    }
    if |f| > 0 {
      LeadingZero(f[..|f| - 1]);
      assert z[..|z| - 1] == "0" + f[..|f| - 1];
    }
  }

  /**
   * The fraction loses its leading zeros: "PT1.05S" reads exactly as
   * "PT1.5S" (half a second), and so does every text with a zero put in
   * front of its fraction.
   */
  lemma {:induction false} FractionLeadingZeros(d: Designators, negative: bool)
    requires WellFormed(d) && d.fraction != []
    ensures WellFormed(d.(fraction := "0" + d.fraction))
    ensures Duration(Render(d.(fraction := "0" + d.fraction), negative)) == Duration(Render(d, negative))
  {
    var z := d.(fraction := "0" + d.fraction);
    LeadingZero(d.fraction);
    DurationReadsRender(z, negative);
    DurationReadsRender(d, negative);
  }

  /** A text with no `P` at all, the empty text included, is rejected. */
  lemma {:induction false} RejectNoP(s: string)
    requires forall k :: 0 <= k < |s| ==> s[k] != 'P'
    ensures Duration(s).Fail?
  {
    var prefix := DurationPrefix(s);
    RunIs(s, prefix.start, In(Just('P')), prefix.start);
  }

  /** A sign after the `P` ("P-1Y1M1DT1H1M1S" and the like) leaves every designator unread: rejected. */
  lemma {:induction false} RejectSignAfterP(t: string)
    ensures Duration("P-" + t).Fail?
  {
    var s := "P-" + t;
    RunIs(s, 0, NotIn(UppercaseOrMinus), 0);
    RunIs(s, 0, In(Just('-')), 0);
    RunIs(s, 0, In(Just('P')), 1);
  }

  /** A `T` that ends the text opens a time part with nothing in it. */
  lemma {:induction false} TimeAtEnd(s: string, i: nat, negative: bool)
    requires i + 1 == |s| && s[i] == 'T'
    ensures TimeFields(s, i, negative) == Ok(TimePart(true, None, None, None, None, false))
  {
    RunIs(s, i, In(Just('T')), |s|);
  }

  /** A date followed by a `T` with no time designator ("P1Y1M1DT" and the like) is rejected. */
  lemma {:induction false} RejectEmptyTime(d: Designators, negative: bool)
    requires WellFormed(d) && !HasTime(d)
    ensures Duration(Render(d, negative) + "T").Fail?
  {
    var body := DateText(d) + "T";
    var s := Frame(negative, body);
    assert Render(d, negative) + "T" == s;
    var start := if negative then 1 else 0;
    FrameReads(negative, body);
    DateLeads(d, "T");
    PrefixRenders(negative, body);
    DateRenders(s, start + 1, d, "T", negative);
    var date := DateFields(s, start + 1, negative);
    assert date.next + 1 == |s| && s[date.next] == 'T';
    TimeAtEnd(s, date.next, negative);
    var time := TimePart(true, None, None, None, None, false);
    DurationFromParts(s, negative, start, date, time);
  }

  /** "P" alone names no designator: rejected. */
  lemma {:induction false} RejectBareP()
    ensures Duration("P").Fail?
  {
  }

  /**
   * A designator with no number before it still counts as a date: a lone `Y`
   * sets no component but marks the date part present.
   */
  lemma {:induction false} LoneYear(s: string, i: nat, negative: bool)
    requires i < |s| && s[i] == 'Y'
    requires i + 1 == |s| || (!IsDigit(s[i + 1]) && s[i + 1] !in "YMD")
    ensures DateFields(s, i, negative) == DatePart(None, None, None, true, i + 1)
  {
    RunIs(s, i, In(DecimalDigits), i);
    RunIs(s, i, In(Just('Y')), i + 1);
    RunIs(s, i + 1, In(DecimalDigits), i + 1);
    RunIs(s, i + 1, In(Just('M')), i + 1);
    RunIs(s, i + 1, In(Just('D')), i + 1);
  }

  /** So "PY" is accepted, with every component unset. */
  lemma {:induction false} AcceptBareYear()
    ensures Duration("PY") == Ok(DateComponents(None, None, None, None, None, None, None))
  {
    var s := "PY";
    RunIs(s, 0, NotIn(UppercaseOrMinus), 0);
    RunIs(s, 0, In(Just('-')), 0);
    RunIs(s, 0, In(Just('P')), 1);
    assert DurationPrefix(s) == Prefix(false, 0, 1);
    LoneYear(s, 1, false);
    TimeAbsent(s, 2, false);
  }

  /** A `.` (or a run of them) followed by no digit is rejected. */
  lemma {:induction false} DotWithoutDigits(s: string, i: nat, negative: bool)
    requires i < |s| && s[i] == '.'
    requires i + 1 == |s| || (!IsDigit(s[i + 1]) && s[i + 1] != '.')
    ensures FractionFields(s, i, negative) == Fail(BadCast)
  {
    RunIs(s, i, In(Just('.')), i + 1);
    RunIs(s, i + 1, In(DecimalDigits), i + 1);
  }

  /** So "PT1.S", a fraction with no digits, is rejected. */
  lemma {:induction false} RejectEmptyFraction()
    ensures Duration("PT1.S").Fail?
  {
    var s := "PT1.S";
    RunIs(s, 0, NotIn(UppercaseOrMinus), 0);
    RunIs(s, 0, In(Just('-')), 0);
    RunIs(s, 0, In(Just('P')), 1);
    assert DurationPrefix(s) == Prefix(false, 0, 1);
    RunIs(s, 1, In(DecimalDigits), 1);
    RunIs(s, 1, In(Just('Y')), 1);
    RunIs(s, 1, In(Just('M')), 1);
    RunIs(s, 1, In(Just('D')), 1);
    assert DateFields(s, 1, false).next == 1;
    EmptyFractionTime(s);
  }

  /** The time part of "PT1.S" fails at its fraction. */
  lemma {:induction false} EmptyFractionTime(s: string)
    requires s == "PT1.S"
    ensures TimeFields(s, 1, false).Fail?
  {
    RunIs(s, 1, In(Just('T')), 2);
    RunIs(s, 2, In(DecimalDigits), 3);
    RunIs(s, 3, In(Just('H')), 3);
    RunIs(s, 3, In(Just('M')), 3);
    DotWithoutDigits(s, 3, false);
  }
}
