/**
 * Decimal rendering of unsigned integers as Rust's `{}` and `{:010}` format
 * specifiers produce it (no sign, no leading zeros unless padded), with
 * its inverse.
 */
module Decimal {

  predicate IsDigit(c: char) {
    '0' <= c <= '9'
  }

  predicate AllDigits(s: string) {
    forall i :: 0 <= i < |s| ==> IsDigit(s[i])
  }

  function DigitChar(d: nat): (c: char)
    requires d < 10
    ensures IsDigit(c) && c as int - '0' as int == d
  {
    ('0' as int + d) as char
  }

  /** `format!("{}", n)`. */
  function Digits(n: nat): (s: string)
    ensures |s| >= 1 && AllDigits(s)
    decreases n
  {
    if n < 10 then [DigitChar(n)] else Digits(n / 10) + [DigitChar(n % 10)]
  }

  /** The number a string of decimal digits denotes, leading zeros allowed. */
  function Value(s: string): nat
    requires AllDigits(s)
  {
    if s == [] then 0 else Value(s[..|s| - 1]) * 10 + (s[|s| - 1] as int - '0' as int)
  }

  lemma {:induction false} ValueOfDigits(n: nat)
    ensures Value(Digits(n)) == n
    decreases n
  {
    if n >= 10 {
      var s := Digits(n);
      assert s[..|s| - 1] == Digits(n / 10);
      ValueOfDigits(n / 10);
    }
  }

  /** Distinct numbers print differently. */
  lemma DigitsInjective(m: nat, n: nat)
    ensures Digits(m) == Digits(n) <==> m == n
  {
    if Digits(m) == Digits(n) {
      ValueOfDigits(m);
      ValueOfDigits(n);
    }
  }

  function ZeroChars(k: nat): (s: string)
    ensures |s| == k && forall i :: 0 <= i < k ==> s[i] == '0'
  {
    seq(k, _ => '0')
  }

  /** Zero-padding to a minimum width, as `{:0w}` does: it never truncates. */
  function Pad0(s: string, width: nat): (r: string)
    ensures |r| == if |s| >= width then |s| else width
    ensures r[|r| - |s|..] == s
    ensures forall i :: 0 <= i < |r| - |s| ==> r[i] == '0'
  {
    if |s| >= width then s else ZeroChars(width - |s|) + s
  }

  lemma {:induction false} ValueOfLeadingZeros(k: nat, s: string)
    requires AllDigits(s)
    ensures AllDigits(ZeroChars(k) + s) && Value(ZeroChars(k) + s) == Value(s)
    decreases |s|
  {
    var z := ZeroChars(k) + s;
    if s == [] {
      assert z == ZeroChars(k);
      ValueOfZeros(k);
    } else {
      assert z[..|z| - 1] == ZeroChars(k) + s[..|s| - 1];
      ValueOfLeadingZeros(k, s[..|s| - 1]);
    }
  }

  lemma {:induction false} ValueOfZeros(k: nat)
    ensures Value(ZeroChars(k)) == 0
  {
    if k > 0 {
      assert ZeroChars(k)[..k - 1] == ZeroChars(k - 1);
      ValueOfZeros(k - 1);
    }
  }

  /** A zero-padded field still denotes the number, whatever its width. */
  lemma PaddedValue(n: nat, width: nat)
    ensures AllDigits(Pad0(Digits(n), width)) && Value(Pad0(Digits(n), width)) == n
  {
    var s := Digits(n);
    ValueOfDigits(n);
    if |s| < width {
      ValueOfLeadingZeros(width - |s|, s);
    }
  }
}
