/**
 * The pieces of the Swift standard library and Foundation that the casting
 * engine leans on for text: 64-bit `Int`, `Int(String)`, `String(Int)`,
 * `lowercased()`, `split(separator:)` and `trimmingCharacters(in: .whitespaces)`.
 */
module Strings {
  import opened Wrappers

  // ---------------------------------------------------------------------------
  // 64-bit signed integers (`Int` on a 64-bit Apple platform)

  const MinInt: int := -0x8000_0000_0000_0000
  const MaxInt: int := 0x7FFF_FFFF_FFFF_FFFF

  predicate InInt64(n: int) { MinInt <= n <= MaxInt }

  type Int64 = n: int | MinInt <= n <= MaxInt

  // ---------------------------------------------------------------------------
  // Decimal digits

  predicate IsDigit(c: char) { '0' <= c <= '9' }

  function DigitValue(c: char): (d: nat)
    requires IsDigit(c)
    ensures d < 10
  {
    c as int - '0' as int
  }

  function DigitChar(d: nat): (c: char)
    requires d < 10
    ensures IsDigit(c) && DigitValue(c) == d
  {
    ('0' as int + d) as char
  }

  predicate AllDigits(s: string) { forall i :: 0 <= i < |s| ==> IsDigit(s[i]) }

  /** The number a run of decimal digits denotes (leading zeros allowed). */
  function DecimalValue(s: string): (n: nat)
    requires AllDigits(s)
    decreases |s|
  {
    if |s| == 0 then 0 else 10 * DecimalValue(s[..|s| - 1]) + DigitValue(s[|s| - 1])
  }

  /** Canonical decimal digits of a natural number, most significant first. */
  function NatText(n: nat): (s: string)
    decreases n
  {
    if n < 10 then [DigitChar(n)] else NatText(n / 10) + [DigitChar(n % 10)]
  }

  lemma {:induction false} NatTextDenotes(n: nat)
    ensures |NatText(n)| > 0 && AllDigits(NatText(n))
    ensures DecimalValue(NatText(n)) == n
    decreases n
  {
    if n >= 10 {
      NatTextDenotes(n / 10);
      var s := NatText(n);
      assert s[..|s| - 1] == NatText(n / 10);
    }
  }

  /** `String(n)` for an `Int`: a minus sign for negatives, then the digits. */
  function DecimalText(n: int): (s: string)
    ensures |s| > 0 && (s[0] == '-' <==> n < 0)
    ensures AllDigits(if n < 0 then s[1..] else s)
  {
    NatTextDenotes(if n < 0 then -n else n);
    if n < 0 then "-" + NatText(-n) else NatText(n)
  }

  /** A digit run of magnitude `m` read as an `Int`, negated when a minus sign was seen. */
  function Signed(isNegative: bool, m: nat): (r: Option<Int64>)
    ensures r.Some? ==> r.value == (if isNegative then -(m as int) else m)
    ensures r.None? <==> (if isNegative then m > -MinInt else m > MaxInt)
  {
    if isNegative then (if m <= -MinInt then Some(-(m as int)) else None)
    else (if m <= MaxInt then Some(m) else None)
  }

  /**
   * `Int(s)` (Swift's `FixedWidthInteger.init?(_:)` in radix 10): an optional
   * `+` or `-`, then one or more ASCII digits, and the value must fit in 64
   * bits; anything else, the empty string included, gives nil.
   */
  function ParseInt(s: string): (r: Option<Int64>)
    ensures r.Some? ==> |s| > 0 && AllDigits(s[1..]) && (IsDigit(s[0]) || s[0] == '-' || s[0] == '+')
    ensures r.Some? && r.value < 0 ==> s[0] == '-'
    ensures r.Some? && !IsDigit(s[0]) ==> |s| > 1
  {
    if |s| == 0 then None
    else if s[0] == '-' || s[0] == '+' then ParseMagnitude(s[1..], s[0] == '-')
    else ParseMagnitude(s, false)
  }

  /** The unsigned part of `Int(s)`: at least one digit, nothing else, and the signed value fits. */
  function ParseMagnitude(body: string, isNegative: bool): Option<Int64>
  {
    if |body| == 0 || !AllDigits(body) then None else Signed(isNegative, DecimalValue(body))
  }

  /** A run of digits parses as its value exactly when that value fits, with or without a minus sign. */
  lemma {:induction false} ParseDigits(run: string)
    requires |run| > 0 && AllDigits(run)
    ensures ParseInt(run) == Signed(false, DecimalValue(run))
    ensures ParseInt("-" + run) == Signed(true, DecimalValue(run))
  {
    assert IsDigit(run[0]);
    assert ("-" + run)[1..] == run;
  }

  /**
   * `Int(String(n)) == n` for every `Int`, and the decimal text of any integer
   * outside the 64-bit range is rejected (overflow in either direction).
   */
  lemma {:induction false} ParseDecimalText(n: int)
    ensures ParseInt(DecimalText(n)) == if InInt64(n) then Some(n) else None
  {
    if n < 0 {
      NatTextDenotes(-n);
      ParseDigits(NatText(-n));
    } else {
      NatTextDenotes(n);
      ParseDigits(NatText(n));
    }
  }

  // ---------------------------------------------------------------------------
  // Case folding (`lowercased()`), restricted to ASCII letters

  function LowerChar(c: char): (l: char)
    ensures !('A' <= l <= 'Z')
    ensures !('A' <= c <= 'Z') ==> l == c
  {
    if 'A' <= c <= 'Z' then (c as int - 'A' as int + 'a' as int) as char else c
  }

  function Lowercased(s: string): (r: string)
    ensures |r| == |s|
    ensures forall i :: 0 <= i < |s| ==> r[i] == LowerChar(s[i])
  {
    seq(|s|, i requires 0 <= i < |s| => LowerChar(s[i]))
  }

  /** Lowercasing twice is lowercasing once. */
  lemma {:induction false} LowercasedIdempotent(s: string)
    ensures Lowercased(Lowercased(s)) == Lowercased(s)
  {
  }

  // ---------------------------------------------------------------------------
  // `trimmingCharacters(in: .whitespaces)`

  /** `CharacterSet.whitespaces`: horizontal tab and the Unicode space separators (Zs). */
  predicate IsWhitespace(c: char)
  {
    c == '\t' || c == ' ' || c == '\U{00A0}' || c == '\U{1680}'
    || ('\U{2000}' <= c <= '\U{200A}') || c == '\U{202F}' || c == '\U{205F}' || c == '\U{3000}'
  }

  /** Drops the leading whitespace: the result is the rest of the text from the first other character. */
  function TrimStart(s: string): (r: string)
    ensures |r| <= |s|
    ensures forall k :: 0 <= k < |r| ==> r[k] == s[|s| - |r| + k]
    ensures forall k :: 0 <= k < |s| - |r| ==> IsWhitespace(s[k])
    ensures |r| > 0 ==> !IsWhitespace(r[0])
    decreases |s|
  {
    if |s| > 0 && IsWhitespace(s[0]) then TrimStart(s[1..]) else s
  }

  /** Drops the trailing whitespace: the result is the text up to the last other character. */
  function TrimEnd(s: string): (r: string)
    ensures |r| <= |s|
    ensures forall k :: 0 <= k < |r| ==> r[k] == s[k]
    ensures forall k :: |r| <= k < |s| ==> IsWhitespace(s[k])
    ensures |r| > 0 ==> !IsWhitespace(r[|r| - 1])
    decreases |s|
  {
    if |s| > 0 && IsWhitespace(s[|s| - 1]) then TrimEnd(s[..|s| - 1]) else s
  }

  /** Removes whitespace from both ends. */
  function Trim(s: string): (r: string)
    ensures |r| > 0 ==> !IsWhitespace(r[0]) && !IsWhitespace(r[|r| - 1])
  {
    TrimEnd(TrimStart(s))
  }

  /**
   * What `Trim` removes is whitespace only: the result is the text from `a`
   * on, where everything before `a` and after the result is whitespace.
   */
  lemma {:induction false} TrimRemovesOnlyWhitespace(s: string)
    ensures var a, r := |s| - |TrimStart(s)|, Trim(s);
            a + |r| <= |s|
            && (forall k :: 0 <= k < |r| ==> r[k] == s[a + k])
            && (forall k :: 0 <= k < a ==> IsWhitespace(s[k]))
            && (forall k :: a + |r| <= k < |s| ==> IsWhitespace(s[k]))
  {
    var t := TrimStart(s);
    var a := |s| - |t|;
    forall k | a + |Trim(s)| <= k < |s| ensures IsWhitespace(s[k]) {
      assert s[k] == t[k - a];
    }
  }

  // ---------------------------------------------------------------------------
  // `split(separator:)` with its defaults: empty pieces are omitted

  /** The text with every occurrence of `sep` removed. */
  function Without(s: string, sep: char): (r: string)
    ensures sep !in r
    decreases |s|
  {
    if |s| == 0 then [] else (if s[0] == sep then [] else [s[0]]) + Without(s[1..], sep)
  }

  function Concat(pieces: seq<string>): string
    decreases |pieces|
  {
    if |pieces| == 0 then [] else pieces[0] + Concat(pieces[1..])
  }

  /** Length of the longest prefix of `s` free of `sep`. */
  function PieceLength(s: string, sep: char): (k: nat)
    ensures k <= |s| && sep !in s[..k]
    ensures k < |s| ==> s[k] == sep
    decreases |s|
  {
    if |s| == 0 || s[0] == sep then 0
    else
      var k := 1 + PieceLength(s[1..], sep);
      assert s[..k] == [s[0]] + s[1..][..k - 1];
      k
  }

  lemma {:induction false} WithoutFree(s: string, sep: char)
    requires sep !in s
    ensures Without(s, sep) == s
    decreases |s|
  {
    if |s| > 0 {
      WithoutFree(s[1..], sep);
    }
  }

  lemma {:induction false} WithoutAppend(a: string, b: string, sep: char)
    ensures Without(a + b, sep) == Without(a, sep) + Without(b, sep)
    decreases |a|
  {
    if |a| > 0 {
      assert (a + b)[1..] == a[1..] + b;
      WithoutAppend(a[1..], b, sep);
    } else {
      assert a + b == b;
    }
  }

  /**
   * The pieces of `s` between separators, in order; no piece is empty, no
   * piece holds the separator, and together they hold every other character.
   */
  function Split(s: string, sep: char): (pieces: seq<string>)
    ensures forall p :: p in pieces ==> |p| > 0 && sep !in p
    ensures Concat(pieces) == Without(s, sep)
    decreases |s|
  {
    if |s| == 0 then []
    else if s[0] == sep then
      assert Without(s, sep) == Without(s[1..], sep);
      Split(s[1..], sep)
    else
      var k := PieceLength(s, sep);
      var rest := Split(s[k..], sep);
      assert s == s[..k] + s[k..];
      WithoutAppend(s[..k], s[k..], sep);
      WithoutFree(s[..k], sep);
      [s[..k]] + rest
  }

  /** `PieceLength` is the only position before which no separator occurs and at which one does, or the end. */
  lemma {:induction false} PieceLengthIs(s: string, sep: char, k: nat)
    requires k <= |s| && sep !in s[..k]
    requires k < |s| ==> s[k] == sep
    ensures PieceLength(s, sep) == k
  {
  }

  /** A non-empty text free of the separator is one piece. */
  lemma {:induction false} SplitPiece(w: string, sep: char)
    requires |w| > 0 && sep !in w
    ensures Split(w, sep) == [w]
  {
    assert w[..|w|] == w;
    PieceLengthIs(w, sep, |w|);
    assert w[|w|..] == [];
  }

  /** A separator cuts the text in two: the pieces of what precedes it, then those of what follows. */
  lemma {:induction false} SplitAt(a: string, b: string, sep: char)
    ensures Split(a + [sep] + b, sep) == Split(a, sep) + Split(b, sep)
    decreases |a|
  {
    var s := a + [sep] + b;
    if |a| == 0 {
      assert s[0] == sep && s[1..] == b;
    } else if a[0] == sep {
      assert s[1..] == a[1..] + [sep] + b;
      SplitAt(a[1..], b, sep);
    } else {
      var k := PieceLength(a, sep);
      assert a[..k] == s[..k];
      if k < |a| {
        PieceLengthIs(s, sep, k);
        assert s[k..] == a[k..] + [sep] + b;
        SplitAt(a[k..], b, sep);
      } else {
        PieceLengthIs(s, sep, k);
        assert s[k..] == [sep] + b && s[k..][1..] == b;
        assert a[k..] == [];
      }
    }
  }

  /** Two non-empty separator-free texts joined by the separator split back into exactly those two. */
  lemma {:induction false} SplitTwo(a: string, b: string, sep: char)
    requires |a| > 0 && sep !in a && |b| > 0 && sep !in b
    ensures Split(a + [sep] + b, sep) == [a, b]
  {
    SplitAt(a, b, sep);
    SplitPiece(a, sep);
    SplitPiece(b, sep);
  }
}
