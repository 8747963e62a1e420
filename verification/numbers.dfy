/**
 Fixed-width integers and `int.Parse` with `NumberStyles.Integer`. The code
 passes no format provider, so the current culture applies; the model
 assumes one whose sign and digit symbols are the invariant culture's:
 optional white space (U+0009..U+000D, U+0020), an optional
 `+`/`-`, one or more ASCII digits, optional white space, then only trailing
 NUL characters, which .NET's number parser ignores. A value outside the
 32-bit range is an `OverflowException`; both failures are `None` here.
 */
module Numbers {
  import opened Wrappers

  type int32 = x: int | -0x8000_0000 <= x < 0x8000_0000
  type uint32 = x: int | 0 <= x < 0x1_0000_0000

  predicate IsDigit(c: char) {
    '0' <= c <= '9'
  }

  /** The white space `NumberStyles.AllowLeadingWhite`/`AllowTrailingWhite` admit. */
  predicate IsParseWhite(c: char) {
    c == ' ' || ('\t' <= c <= '\r')
  }

  function DigitValue(c: char): nat
    requires IsDigit(c)
  {
    c as int - '0' as int
  }

  function DigitChar(d: nat): (c: char)
    requires d < 10
    ensures IsDigit(c) && DigitValue(c) == d
  {
    (d + '0' as int) as char
  }

  /** The value of a run of decimal digits. */
  function DigitsValue(ds: string): nat
    requires forall i :: 0 <= i < |ds| ==> IsDigit(ds[i])
  {
    if |ds| == 0 then 0
    else DigitsValue(ds[..|ds| - 1]) * 10 + DigitValue(ds[|ds| - 1])
  }

  /** Decimal digits of `v` without leading zeros. */
  function Digits(v: nat): (s: string)
    ensures |s| > 0
    ensures forall i :: 0 <= i < |s| ==> IsDigit(s[i])
  {
    if v < 10 then [DigitChar(v)] else Digits(v / 10) + [DigitChar(v % 10)]
  }

  /** `Int32.ToString()`, assuming the current culture writes the sign as
      the invariant culture does. */
  function Int32ToString(n: int32): string {
    if n < 0 then "-" + Digits(-(n as int)) else Digits(n)
  }

  function SkipParseWhite(s: string, from: nat): (k: nat)
    requires from <= |s|
    ensures from <= k <= |s|
    ensures k < |s| ==> !IsParseWhite(s[k])
    decreases |s| - from
  {
    if from == |s| || !IsParseWhite(s[from]) then from else SkipParseWhite(s, from + 1)
  }

  function DigitRun(s: string, from: nat): (k: nat)
    requires from <= |s|
    ensures from <= k <= |s|
    ensures forall i :: from <= i < k ==> IsDigit(s[i])
    ensures k < |s| ==> !IsDigit(s[k])
    decreases |s| - from
  {
    if from == |s| || !IsDigit(s[from]) then from else DigitRun(s, from + 1)
  }

  predicate AllNul(s: string) {
    forall i :: 0 <= i < |s| ==> s[i] == '\0'
  }

  /** `int.Parse(s)`; `None` is a `FormatException` or an `OverflowException`. */
  function ParseInt32(s: string): Option<int32> {
    var a := SkipParseWhite(s, 0);
    if a < |s| && s[a] == '-' then ParseMagnitude(s, a + 1, true)
    else if a < |s| && s[a] == '+' then ParseMagnitude(s, a + 1, false)
    else ParseMagnitude(s, a, false)
  }

  /** The digits from `b` on, then optional white space and NULs only. */
  function ParseMagnitude(s: string, b: nat, negative: bool): Option<int32>
    requires b <= |s|
  {
    var c := DigitRun(s, b);
    if c == b then None
    else
      var d := SkipParseWhite(s, c);
      if !AllNul(s[d..]) then None
      else
        var ds := s[b..c];
        assert forall i :: 0 <= i < |ds| ==> ds[i] == s[b + i];
        Signed(DigitsValue(ds), negative)
  }

  /** The signed value when it fits in 32 bits. */
  function Signed(v: nat, negative: bool): (r: Option<int32>)
    ensures r.Some? <==> (if negative then v <= 0x8000_0000 else v < 0x8000_0000)
    ensures r.Some? ==> r.value == (if negative then -(v as int) else v as int)
  {
    var n: int := if negative then -(v as int) else v;
    if -0x8000_0000 <= n < 0x8000_0000 then Some(n) else None
  }

  /** A run of digits to the end of the text is its value. */
  lemma MagnitudeOfDigits(s: string, b: nat, negative: bool)
    requires b < |s|
    requires forall i :: b <= i < |s| ==> IsDigit(s[i])
    ensures ParseMagnitude(s, b, negative) == Signed(DigitsValue(s[b..]), negative)
  {
    DigitRunAll(s, b);
    assert SkipParseWhite(s, |s|) == |s|;
    assert AllNul(s[|s|..]);
    assert s[b..|s|] == s[b..];
  }

  lemma {:induction false} DigitsValueOfDigits(v: nat)
    ensures DigitsValue(Digits(v)) == v
  {
    if v >= 10 {
      var s := Digits(v);
      assert s[..|s| - 1] == Digits(v / 10);
      DigitsValueOfDigits(v / 10);
    }
  }

  /** Every 32-bit integer printed in decimal parses back to itself. */
  lemma ParseInt32RoundTrip(n: int32)
    ensures ParseInt32(Int32ToString(n)) == Some(n)
  {
    if n < 0 {
      ParseNegative(-(n as int));
    } else {
      ParseNonNegative(n);
    }
  }

  lemma ParseNonNegative(v: nat)
    requires v < 0x8000_0000
    ensures ParseInt32(Digits(v)) == Some(v)
  {
    var s := Digits(v);
    assert IsDigit(s[0]);
    assert SkipParseWhite(s, 0) == 0;
    assert ParseInt32(s) == ParseMagnitude(s, 0, false);
    MagnitudeOfDigits(s, 0, false);
    assert s[0..] == s;
    DigitsValueOfDigits(v);
  }

  lemma ParseNegative(v: nat)
    requires 0 < v <= 0x8000_0000
    ensures ParseInt32("-" + Digits(v)) == Some(-(v as int))
  {
    var ds := Digits(v);
    var s := "-" + ds;
    assert SkipParseWhite(s, 0) == 0;
    assert ParseInt32(s) == ParseMagnitude(s, 1, true);
    forall i | 1 <= i < |s| ensures IsDigit(s[i]) { assert s[i] == ds[i - 1]; }
    MagnitudeOfDigits(s, 1, true);
    assert s[1..] == ds;
    DigitsValueOfDigits(v);
  }

  lemma {:induction false} DigitRunAll(s: string, from: nat)
    requires from <= |s|
    requires forall i :: from <= i < |s| ==> IsDigit(s[i])
    ensures DigitRun(s, from) == |s|
    decreases |s| - from
  {
    if from < |s| {
      DigitRunAll(s, from + 1);
    }
  }

  /** Text without a single decimal digit never parses. */
  lemma ParseInt32Rejects(s: string)
    requires forall i :: 0 <= i < |s| ==> !IsDigit(s[i])
    ensures ParseInt32(s) == None
  {
  }
}
