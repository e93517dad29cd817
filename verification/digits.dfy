/** Fixed-width decimal digit strings: the building block of the Exif
    `yyyy:MM:dd HH:mm:ss` layout that is parsed and of the `yyyyMMdd`
    layout that is produced. */
module Digits {

  predicate IsDigit(c: char) {
    '0' <= c <= '9'
  }

  predicate AllDigits(s: string) {
    forall i :: 0 <= i < |s| ==> IsDigit(s[i])
  }

  function Pow10(w: nat): (r: nat)
    ensures r >= 1
  {
    if w == 0 then 1 else 10 * Pow10(w - 1)
  }

  function DigitChar(d: nat): (c: char)
    requires d < 10
    ensures IsDigit(c)
  {
    ('0' as int + d) as char
  }

  function DigitValue(c: char): (d: nat)
    requires IsDigit(c)
    ensures d < 10
  {
    (c as int - '0' as int)
  }

  /** The decimal value of a digit string, most significant digit first. */
  function ToNat(s: string): nat
    requires AllDigits(s)
  {
    if s == [] then 0 else ToNat(s[..|s| - 1]) * 10 + DigitValue(s[|s| - 1])
  }

  /** `n` written with exactly `w` digits, zero-padded on the left and
      keeping only the `w` least significant digits. */
  function Pad(n: nat, w: nat): (s: string)
    ensures |s| == w
    ensures AllDigits(s)
  {
    if w == 0 then [] else Pad(n / 10, w - 1) + [DigitChar(n % 10)]
  }

  /** Reading back a padded number gives the number, as long as it fits. */
  lemma {:induction false} ToNatPad(n: nat, w: nat)
    requires n < Pow10(w)
    ensures ToNat(Pad(n, w)) == n
  {
    if w > 0 {
      var s := Pad(n, w);
      assert s[..|s| - 1] == Pad(n / 10, w - 1);
      ToNatPad(n / 10, w - 1);
    }
  }

  /** Padding the value of a digit string to its own width gives the string back. */
  lemma {:induction false} PadToNat(s: string)
    requires AllDigits(s)
    ensures Pad(ToNat(s), |s|) == s
  {
    if s != [] {
      var p := s[..|s| - 1];
      var d := DigitValue(s[|s| - 1]);
      PadToNat(p);
      assert (ToNat(p) * 10 + d) / 10 == ToNat(p);
      assert (ToNat(p) * 10 + d) % 10 == d;
      assert s == p + [s[|s| - 1]];
    }
  }

  /** Two equal-width paddings of numbers that fit are equal only for equal numbers. */
  lemma PadInjective(m: nat, n: nat, w: nat)
    requires m < Pow10(w) && n < Pow10(w)
    requires Pad(m, w) == Pad(n, w)
    ensures m == n
  {
    ToNatPad(m, w);
    ToNatPad(n, w);
  }
}
