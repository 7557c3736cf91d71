/** PHP strings are byte strings. This module fixes the byte type, the ASCII
    literals the codec uses, and decimal rendering and parsing of indices. */
module ByteStrings {

  newtype byte = x: int | 0 <= x < 256

  type Bytes = seq<byte>

  /** The bytes of an ASCII literal. */
  function Ascii(s: string): (r: Bytes)
    requires forall i | 0 <= i < |s| :: s[i] as int < 128
    ensures |r| == |s|
    ensures forall i | 0 <= i < |s| :: r[i] as int == s[i] as int
    ensures forall i | 0 <= i < |r| :: r[i] < 128
  {
    seq(|s|, i requires 0 <= i < |s| => s[i] as int as byte)
  }

  predicate IsDigit(b: byte) {
    48 <= b <= 57
  }

  predicate AllDigits(s: Bytes) {
    forall i | 0 <= i < |s| :: IsDigit(s[i])
  }

  /** Decimal digits with no leading zero, or the single digit `0`: the form PHP
      gives an integer when it is cast to a string. */
  predicate CanonicalDigits(s: Bytes) {
    |s| > 0 && AllDigits(s) && (s[0] == 48 ==> |s| == 1)
  }

  /** The value of a run of decimal digits. */
  function DigitsValue(s: Bytes): nat
    requires AllDigits(s)
  {
    if |s| == 0 then 0 else DigitsValue(s[..|s| - 1]) * 10 + (s[|s| - 1] as int - 48)
  }

  /** `(string)$n` for a natural number `$n`. */
  function Decimal(n: nat): (r: Bytes)
    ensures CanonicalDigits(r)
  {
    if n < 10 then [(48 + n) as byte]
    else
      var d := ((48 + n % 10) as byte);
      assert IsDigit(d);
      Decimal(n / 10) + [d]
  }

  /** Rendering then reading back a natural number gives it back. */
  lemma {:induction false} DecimalValue(n: nat)
    ensures DigitsValue(Decimal(n)) == n
  {
    if n >= 10 {
      var s := Decimal(n);
      assert s[..|s| - 1] == Decimal(n / 10);
      DecimalValue(n / 10);
    }
  }

  /** Every canonical digit string is the rendering of its own value, so
      `Decimal` and `DigitsValue` are inverse bijections on canonical strings. */
  lemma {:induction false} CanonicalIsDecimal(s: Bytes)
    requires CanonicalDigits(s)
    ensures Decimal(DigitsValue(s)) == s
  {
    if |s| > 1 {
      var p := s[..|s| - 1];
      assert CanonicalDigits(p);
      CanonicalIsDecimal(p);
      PositiveLeadingDigit(p);
      assert DigitsValue(s) >= 10;
      assert DigitsValue(s) / 10 == DigitsValue(p);
      assert s == p + [s[|s| - 1]];
    }
  }

  lemma {:induction false} PositiveLeadingDigit(s: Bytes)
    requires CanonicalDigits(s) && s[0] != 48
    ensures DigitsValue(s) >= 1
  {
    if |s| > 1 {
      var p := s[..|s| - 1];
      assert p[0] == s[0];
      PositiveLeadingDigit(p);
    }
  }
}
