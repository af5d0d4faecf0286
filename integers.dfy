/**
 * Integer scanning in `Field`: the `digits(using:_:)` helper shared by the
 * integer and duration casts, and the "non-bare" integer scanner.
 */
module Integers {
  import opened Wrappers
  import opened Strings
  import opened Scanning

  /** What a scanning step yields: an optional number and where the scanner stopped. */
  datatype Scanned = Scanned(value: Option<Int64>, next: nat)

  /** The number the digits of `s` from `i` up to `j` denote, read left to right. */
  function RunValue(s: string, i: nat, j: nat): nat
    requires i <= j <= |s|
    requires forall k :: i <= k < j ==> IsDigit(s[k])
    decreases j - i
  {
    if j == i then 0 else 10 * RunValue(s, i, j - 1) + DigitValue(s[j - 1])
  }

  /** `RunValue` is the decimal value of the slice it reads. */
  lemma {:induction false} RunValueDenotes(s: string, i: nat, j: nat)
    requires i <= j <= |s|
    requires forall k :: i <= k < j ==> IsDigit(s[k])
    ensures AllDigits(s[i..j]) && RunValue(s, i, j) == DecimalValue(s[i..j])
    decreases j - i
  {
    if j > i {
      RunValueDenotes(s, i, j - 1);
      assert s[i..j][..j - 1 - i] == s[i..j - 1];
    }
  }

  /** The value of a digit run depends only on the digits it reads. */
  lemma {:induction false} RunValueExtend(s: string, t: string, i: nat, j: nat)
    requires i <= j <= |s|
    requires forall k :: i <= k < j ==> IsDigit(s[k])
    ensures forall k :: i <= k < j ==> IsDigit((s + t)[k])
    ensures RunValue(s + t, i, j) == RunValue(s, i, j)
    decreases j - i
  {
    forall k | i <= k < j ensures (s + t)[k] == s[k] {
    }
    if j > i {
      RunValueExtend(s, t, i, j - 1);
      assert (s + t)[j - 1] == s[j - 1];
    }
  }

  /**
   * What `digits(using:_:)` reads at `i`: nil for an empty digit run (the
   * scanner stays put); otherwise the value of the maximal digit run, negated
   * when a minus sign was seen, or nil when that does not fit in an `Int`.
   */
  function Digits(s: string, i: nat, isNegative: bool): (r: Scanned)
    requires i <= |s|
    ensures r.next == Run(s, i, In(DecimalDigits))
    ensures r.value.Some? ==> r.next > i
  {
    var j := Run(s, i, In(DecimalDigits));
    RunMembers(s, i, In(DecimalDigits));
    if j == i then Scanned(None, i) else Scanned(Signed(isNegative, RunValue(s, i, j)), j)
  }

  /** Digits that stop inside the string read the same with text appended. */
  lemma {:induction false} DigitsExtend(s: string, t: string, i: nat, isNegative: bool)
    requires i <= |s| && Digits(s, i, isNegative).next < |s|
    ensures Digits(s + t, i, isNegative) == Digits(s, i, isNegative)
  {
    var j := Run(s, i, In(DecimalDigits));
    RunExtend(s, t, i, In(DecimalDigits));
    RunMembers(s, i, In(DecimalDigits));
    RunValueExtend(s, t, i, j);
  }

  /**
   * `digits(using:_:)` on a scanner, as written: `Int("-" + run)` when
   * negative, falling back to `Int(run)`; proved to agree with `Digits`.
   */
  method ScanDigits(scanner: Scanner, isNegative: bool) returns (value: Option<Int64>)
    requires scanner.Valid()
    modifies scanner
    ensures scanner.Valid()
    ensures Digits(scanner.text, old(scanner.location), isNegative) == Scanned(value, scanner.location)
  {
    var start := scanner.location;
    var found := scanner.ScanCharacters(DecimalDigits);
    if !found {
      return None;
    }
    var run := scanner.text[start..scanner.location];
    RunMembers(scanner.text, start, In(DecimalDigits));
    RunValueDenotes(scanner.text, start, scanner.location);
    ParseDigits(run);
    var negative := ParseInt("-" + run);
    if isNegative && negative.Some? {
      return negative;
    }
    value := ParseInt(run);
  }

  /**
   * `integerCast` with `bareNumber == false`: skip up to the first digit or
   * `-`, consume a run of `-`, then read the digit run that follows,
   * negated if any `-` was consumed.
   */
  function NonBareInteger(s: string): (r: Result<Int64>)
    ensures r.Fail? ==> r.error == BadCast
    ensures r.Ok? ==> exists k :: 0 <= k < |s| && IsDigit(s[k])
    ensures r.Ok? && r.value < 0 ==> exists k :: 0 <= k < |s| && s[k] == '-'
  {
    var afterNoise := Run(s, 0, NotIn(DigitsOrMinus));
    var afterSign := Run(s, afterNoise, In(Just('-')));
    var d := Digits(s, afterSign, afterSign > afterNoise);
    if d.value.Some? then Ok(d.value.value) else Fail(BadCast)
  }

  /** The Foundation-scanner form of the non-bare integer cast, proved to agree with `NonBareInteger`. */
  method NonBareIntegerCast(value: string) returns (r: Result<Int64>)
    ensures r == NonBareInteger(value)
  {
    var scanner := new Scanner(value);
    var _ := scanner.ScanUpToCharacters(DigitsOrMinus);
    var isNegative := scanner.ScanCharacters(Just('-'));
    var integer := ScanDigits(scanner, isNegative);
    if integer.Some? {
      return Ok(integer.value);
    }
    return Fail(BadCast);
  }

  predicate NoDigitOrMinus(s: string) { forall k :: 0 <= k < |s| ==> !IsDigit(s[k]) && s[k] != '-' }

  predicate AllMinus(s: string) { forall k :: 0 <= k < |s| ==> s[k] == '-' }

  /** How far the two leading scans of the non-bare scanner reach on noise + dashes + tail. */
  lemma {:induction false} NonBarePrefix(noise: string, dashes: string, tail: string)
    requires NoDigitOrMinus(noise) && AllMinus(dashes)
    requires |dashes| > 0 || (|tail| > 0 && IsDigit(tail[0]))
    requires |tail| == 0 || tail[0] != '-'
    ensures var s := noise + dashes + tail;
            Run(s, 0, NotIn(DigitsOrMinus)) == |noise|
            && Run(s, |noise|, In(Just('-'))) == |noise| + |dashes|
  {
    var s := noise + dashes + tail;
    var cls := NotIn(DigitsOrMinus);
    forall k | 0 <= k < |noise| ensures cls.Has(s[k]) {
      assert s[k] == noise[k];
    }
    if |noise| < |s| {
      var c := s[|noise|];
      assert c == '-' || IsDigit(c) by {
        if |dashes| > 0 {
          assert c == dashes[0];
        } else {
          assert c == tail[0];
        }
      }
      assert !cls.Has(c);
    }
    RunIs(s, 0, cls, |noise|);
    forall k | |noise| <= k < |noise| + |dashes| ensures In(Just('-')).Has(s[k]) {
      assert s[k] == dashes[k - |noise|];
    }
    if |tail| > 0 {
      assert s[|noise| + |dashes|] == tail[0];
    }
    RunIs(s, |noise|, In(Just('-')), |noise| + |dashes|);
  }

  /**
   * On noise + dashes + digits + rest (rest not starting with a digit), the
   * non-bare cast reads exactly the first digit run, negated when there was at
   * least one dash, and fails when that value does not fit in an `Int`; later
   * digit runs are ignored.
   */
  lemma {:induction false} NonBareReadsFirstRun(noise: string, dashes: string, run: string, rest: string)
    requires NoDigitOrMinus(noise) && AllMinus(dashes)
    requires |run| > 0 && AllDigits(run)
    requires |rest| == 0 || !IsDigit(rest[0])
    ensures var v: int := if |dashes| > 0 then -(DecimalValue(run) as int) else DecimalValue(run);
            NonBareInteger(noise + dashes + run + rest) == if InInt64(v) then Ok(v) else Fail(BadCast)
  {
    var signed := NonBareSigned(noise, dashes, run, rest);
    var v: int := if |dashes| > 0 then -(DecimalValue(run) as int) else DecimalValue(run);
    assert signed == if InInt64(v) then Some(v) else None;
  }

  /** The non-bare cast of noise + dashes + run + rest is the signed value of `run`. */
  lemma {:induction false} NonBareSigned(noise: string, dashes: string, run: string, rest: string) returns (signed: Option<Int64>)
    requires NoDigitOrMinus(noise) && AllMinus(dashes)
    requires |run| > 0 && AllDigits(run)
    requires |rest| == 0 || !IsDigit(rest[0])
    ensures signed == Signed(|dashes| > 0, DecimalValue(run))
    ensures NonBareInteger(noise + dashes + run + rest) == if signed.Some? then Ok(signed.value) else Fail(BadCast)
  {
    var s := noise + dashes + run + rest;
    var p := |noise| + |dashes|;
    assert s == noise + dashes + (run + rest);
    NonBareAfterPrefix(noise, dashes, run + rest);
    ReadsFrom(s, p);
    assert s[p..] == run + rest;
    DigitsRead(s, p, run, rest, |dashes| > 0);
    signed := Signed(|dashes| > 0, DecimalValue(run));
  }

  /** On noise + dashes + tail (tail starting with a digit), the non-bare cast is a digit read right after the dashes. */
  lemma {:induction false} NonBareAfterPrefix(noise: string, dashes: string, tail: string)
    requires NoDigitOrMinus(noise) && AllMinus(dashes)
    requires |tail| > 0 && IsDigit(tail[0])
    ensures var s, p := noise + dashes + tail, |noise| + |dashes|;
            var d := Digits(s, p, |dashes| > 0);
            NonBareInteger(s) == if d.value.Some? then Ok(d.value.value) else Fail(BadCast)
  {
    NonBarePrefix(noise, dashes, tail);
  }

  /** A digit run followed by a non-digit is exactly what `Digits` reads, and the text after it is left. */
  lemma {:induction false} DigitsRead(s: string, p: nat, run: string, rest: string, isNegative: bool)
    requires Reads(s, p, run + rest)
    requires |run| > 0 && AllDigits(run)
    requires |rest| == 0 || !IsDigit(rest[0])
    ensures Reads(s, p + |run|, rest)
    ensures Digits(s, p, isNegative) == Scanned(Signed(isNegative, DecimalValue(run)), p + |run|)
  {
    ReadsSplit(s, p, run, rest);
    forall k | p <= k < p + |run| ensures In(DecimalDigits).Has(s[k]) {
      assert s[p + (k - p)] == run[k - p];
    }
    RunIs(s, p, In(DecimalDigits), p + |run|);
    RunValueDenotes(s, p, p + |run|);
    assert s[p..p + |run|] == run;
  }

  /** With no digit right after the dashes, the non-bare cast fails. */
  lemma {:induction false} NonBareNeedsDigits(noise: string, dashes: string, rest: string)
    requires NoDigitOrMinus(noise) && AllMinus(dashes) && |dashes| > 0
    requires |rest| == 0 || (!IsDigit(rest[0]) && rest[0] != '-')
    ensures NonBareInteger(noise + dashes + rest) == Fail(BadCast)
  {
    var s := noise + dashes + rest;
    NonBarePrefix(noise, dashes, rest);
    var p := |noise| + |dashes|;
    if |rest| > 0 {
      assert s[p] == rest[0];
    }
    RunIs(s, p, In(DecimalDigits), p);
  }

  /** Text with no digit at all never casts as a non-bare integer. */
  lemma {:induction false} NonBareWithoutDigitsFails(s: string)
    requires forall k :: 0 <= k < |s| ==> !IsDigit(s[k])
    ensures NonBareInteger(s).Fail?
  {
    var afterNoise := Run(s, 0, NotIn(DigitsOrMinus));
    var afterSign := Run(s, afterNoise, In(Just('-')));
    RunIs(s, afterSign, In(DecimalDigits), afterSign);
  }

  /** `String(n)` casts back to `n` under the non-bare scanner too, for every `Int`. */
  lemma {:induction false} NonBareReadsDecimalText(n: Int64)
    ensures NonBareInteger(DecimalText(n)) == Ok(n)
  {
    var magnitude: nat := if n < 0 then -(n as int) else n;
    var digits := NatText(magnitude);
    NatTextDenotes(magnitude);
    var dashes := if n < 0 then "-" else [];
    assert DecimalText(n) == [] + dashes + digits + [];
    NonBareReadsFirstRun([], dashes, digits, []);
  }

  /** The test vector "asd10asd88": only the first digit run counts. */
  lemma {:induction false} NonBareExample()
    ensures NonBareInteger("asd10asd88") == Ok(10)
  {
    assert DecimalValue("10") == 10;
    assert "asd" + [] + "10" + "asd88" == "asd10asd88";
    NonBareReadsFirstRun("asd", [], "10", "asd88");
  }
}
