/**
 * Foundation's `Scanner` as the casting engine uses it: a cursor over a string
 * with `charactersToBeSkipped = nil`, advanced by `scanUpToCharacters(from:)`
 * and `scanCharacters(from:)`.
 */
module Scanning {
  import opened Strings

  /** The `CharacterSet`s the scanners use. */
  datatype CharSet =
    | DecimalDigits     // CharacterSet.decimalDigits (ASCII digits here)
    | Just(c: char)     // CharacterSet(charactersIn: "<c>")
    | DigitsOrMinus     // decimalDigits after insert("-")
    | UppercaseOrMinus  // CharacterSet.uppercaseLetters (ASCII capitals here) after insert("-")
  {
    predicate Has(ch: char)
    {
      match this
      case DecimalDigits => IsDigit(ch)
      case Just(c) => ch == c
      case DigitsOrMinus => IsDigit(ch) || ch == '-'
      case UppercaseOrMinus => ('A' <= ch <= 'Z') || ch == '-'
    }
  }

  /** The characters a scan consumes: members of a set, or (scanning up to it) non-members. */
  datatype CharClass = In(chars: CharSet) | NotIn(chars: CharSet)
  {
    predicate Has(ch: char)
    {
      match this
      case In(chars) => chars.Has(ch)
      case NotIn(chars) => !chars.Has(ch)
    }
  }

  /**
   * Where a maximal run of characters of `cls` starting at `i` ends: every
   * character in between belongs to the class, the one at the end does not.
   */
  function Run(s: string, i: nat, cls: CharClass): (j: nat)
    requires i <= |s|
    ensures i <= j <= |s|
    ensures j == |s| || !cls.Has(s[j])
    decreases |s| - i
  {
    if i < |s| && cls.Has(s[i]) then Run(s, i + 1, cls) else i
  }

  /** Every character a run passes over belongs to its class. */
  lemma {:induction false} RunMembers(s: string, i: nat, cls: CharClass)
    requires i <= |s|
    ensures forall k :: i <= k < Run(s, i, cls) ==> cls.Has(s[k])
    decreases |s| - i
  {
    if i < |s| && cls.Has(s[i]) {
      RunMembers(s, i + 1, cls);
    }
  }

  /** A run is determined by its two defining properties. */
  lemma {:induction false} RunIs(s: string, i: nat, cls: CharClass, j: nat)
    requires i <= j <= |s|
    requires forall k :: i <= k < j ==> cls.Has(s[k])
    requires j == |s| || !cls.Has(s[j])
    ensures Run(s, i, cls) == j
    decreases j - i
  {
    if i < j {
      RunIs(s, i + 1, cls, j);
    }
  }

  /**
   * Appending text changes a run only by letting it go on: not when it
   * stopped inside the string, and not when the appended text does not begin
   * with a member of the class.
   */
  lemma {:induction false} RunExtend(s: string, t: string, i: nat, cls: CharClass)
    requires i <= |s|
    requires Run(s, i, cls) < |s| || |t| == 0 || !cls.Has(t[0])
    ensures Run(s + t, i, cls) == Run(s, i, cls)
  {
    var j := Run(s, i, cls);
    RunMembers(s, i, cls);
    forall k | i <= k < j ensures cls.Has((s + t)[k]) {
      assert (s + t)[k] == s[k];
    }
    if j < |s| {
      assert (s + t)[j] == s[j];
    } else if |t| > 0 {
      assert (s + t)[j] == t[0];
    }
    RunIs(s + t, i, cls, j);
  }

  /** From position `i` on, `s` reads `w` (that is, `s[i..] == w`), one character at a time. */
  predicate Reads(s: string, i: nat, w: string)
    decreases |w|
  {
    if |w| == 0 then i == |s| else i < |s| && s[i] == w[0] && Reads(s, i + 1, w[1..])
  }

  lemma {:induction false} ReadsFrom(s: string, i: nat)
    requires i <= |s|
    ensures Reads(s, i, s[i..])
    decreases |s| - i
  {
    if i < |s| {
      ReadsFrom(s, i + 1);
      assert s[i..][1..] == s[i + 1..];
    }
  }

  /** A text that reads `w` from `i` on ends right after it. */
  lemma {:induction false} ReadsLength(s: string, i: nat, w: string)
    requires Reads(s, i, w)
    ensures i + |w| == |s|
    decreases |w|
  {
    if |w| > 0 {
      ReadsLength(s, i + 1, w[1..]);
    }
  }

  lemma {:induction false} ReadsChars(s: string, i: nat, w: string)
    requires Reads(s, i, w)
    ensures i + |w| == |s| && forall k :: 0 <= k < |w| ==> s[i + k] == w[k]
    decreases |w|
  {
    if |w| > 0 {
      ReadsChars(s, i + 1, w[1..]);
      forall k | 1 <= k < |w| ensures s[i + k] == w[k] {
        assert s[i + 1 + (k - 1)] == w[1..][k - 1];
      }
    }
  }

  lemma {:induction false} CharsReads(s: string, i: nat, w: string)
    requires i + |w| == |s| && forall k :: 0 <= k < |w| ==> s[i + k] == w[k]
    ensures Reads(s, i, w)
    decreases |w|
  {
    if |w| > 0 {
      assert s[i + 0] == w[0];
      forall k | 0 <= k < |w| - 1 ensures s[i + 1 + k] == w[1..][k] {
        assert s[i + (k + 1)] == w[k + 1];
      }
      CharsReads(s, i + 1, w[1..]);
    }
  }

  /** Reading `a + b` is reading `a`, then `b` right after it. */
  lemma {:induction false} ReadsSplit(s: string, i: nat, a: string, b: string)
    requires Reads(s, i, a + b)
    ensures Reads(s, i + |a|, b)
    ensures forall k :: 0 <= k < |a| ==> s[i + k] == a[k]
  {
    ReadsChars(s, i, a + b);
    forall k | 0 <= k < |a| ensures s[i + k] == a[k] {
      assert (a + b)[k] == a[k];
    }
    forall k | 0 <= k < |b| ensures s[i + |a| + k] == b[k] {
      assert (a + b)[|a| + k] == b[k];
    }
    CharsReads(s, i + |a|, b);
  }

  /** A run only looks at the text it reads. */
  lemma {:induction false} RunReads(s: string, i: nat, w: string, cls: CharClass)
    requires Reads(s, i, w)
    ensures Run(s, i, cls) == i + Run(w, 0, cls)
  {
    ReadsChars(s, i, w);
    var j := Run(w, 0, cls);
    RunMembers(w, 0, cls);
    forall k | i <= k < i + j ensures cls.Has(s[k]) {
      assert s[i + (k - i)] == w[k - i];
    }
    if j < |w| {
      assert s[i + j] == w[j];
    }
    RunIs(s, i, cls, i + j);
  }

  class Scanner {
    const text: string
    var location: nat

    ghost predicate Valid()
      reads this
    {
      location <= |text|
    }

    /** `Scanner(string:)` with `charactersToBeSkipped = nil`. */
    constructor (text: string)
      ensures this.text == text && location == 0 && Valid()
    {
      this.text := text;
      location := 0;
    }

    /** `scanCharacters(from:into:)`: consumes a maximal run of `cls`; true if it was not empty. */
    method ScanCharacters(chars: CharSet) returns (found: bool)
      requires Valid()
      modifies this
      ensures Valid()
      ensures location == Run(text, old(location), In(chars))
      ensures found == (location > old(location))
    {
      found := Scan(In(chars));
    }

    /** `scanUpToCharacters(from:into:)`: consumes everything before the first member of `chars`. */
    method ScanUpToCharacters(chars: CharSet) returns (found: bool)
      requires Valid()
      modifies this
      ensures Valid()
      ensures location == Run(text, old(location), NotIn(chars))
      ensures found == (location > old(location))
    {
      found := Scan(NotIn(chars));
    }

    /** The loop both scans share: advance while the next character is in `cls`. */
    method Scan(cls: CharClass) returns (found: bool)
      requires Valid()
      modifies this
      ensures Valid()
      ensures location == Run(text, old(location), cls)
      ensures found == (location > old(location))
    {
      var i := location;
      while i < |text| && cls.Has(text[i])
        invariant location <= i <= |text|
        invariant Run(text, i, cls) == Run(text, location, cls)
        decreases |text| - i
      {
        i := i + 1;
      }
      found := i > location;
      location := i;
    }
  }
}
