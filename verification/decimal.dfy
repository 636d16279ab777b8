/** Decimal text of integers as `strconv.FormatInt(n, 10)` and `strconv.Itoa`
    produce it, the reading back of such text, and zero padding. */
module Decimal {

  predicate IsDigit(c: char)
  {
    '0' <= c <= '9'
  }

  predicate AllDigits(s: string)
  {
    forall i :: 0 <= i < |s| ==> IsDigit(s[i])
  }

  function DigitChar(d: nat): (c: char)
    requires d < 10
    ensures IsDigit(c)
  {
    (48 + d) as char
  }

  function DigitValue(c: char): (d: nat)
    requires IsDigit(c)
    ensures d < 10 && DigitChar(d) == c
  {
    (c as int) - 48
  }

  function Pow10(k: nat): (p: nat)
    ensures p >= 1
  {
    if k == 0 then 1 else 10 * Pow10(k - 1)
  }

  lemma {:induction false} Pow10Increasing(i: nat, j: nat)
    requires i < j
    ensures Pow10(i) < Pow10(j)
    decreases j
  {
    if i < j - 1 {
      Pow10Increasing(i, j - 1);
    }
  }

  /** Text with no superfluous leading zero, as the formatter produces. */
  predicate Canonical(s: string)
  {
    1 <= |s| && AllDigits(s) && (s[0] == '0' ==> |s| == 1)
  }

  /** Base-10 text of a non-negative number: most significant digit first,
      no sign, no leading zeros. */
  function FormatNat(n: nat): (s: string)
    ensures Canonical(s)
    ensures s[0] == '0' <==> n == 0
    decreases n
  {
    if n < 10 then [DigitChar(n)] else FormatNat(n / 10) + [DigitChar(n % 10)]
  }

  /** `strconv.FormatInt(n, 10)`: a leading '-' for a negative number. */
  function FormatInt(n: int): string
  {
    if n < 0 then "-" + FormatNat(-n) else FormatNat(n)
  }

  /** The number a run of digits denotes (leading zeros allowed). */
  function ParseNat(s: string): nat
    requires AllDigits(s)
    decreases |s|
  {
    if |s| == 0 then 0 else 10 * ParseNat(s[..|s| - 1]) + DigitValue(s[|s| - 1])
  }

  /** Reading back what the formatter wrote gives the number. */
  lemma {:induction false} ParseFormat(n: nat)
    ensures ParseNat(FormatNat(n)) == n
    decreases n
  {
    if n >= 10 {
      var s := FormatNat(n);
      assert s[..|s| - 1] == FormatNat(n / 10);
      ParseFormat(n / 10);
    }
  }

  lemma {:induction false} ParseBelow(s: string)
    requires AllDigits(s)
    ensures ParseNat(s) < Pow10(|s|)
    decreases |s|
  {
    if |s| > 0 {
      ParseBelow(s[..|s| - 1]);
    }
  }

  lemma {:induction false} ParseAbove(s: string)
    requires 1 <= |s| && AllDigits(s) && s[0] != '0'
    ensures Pow10(|s| - 1) <= ParseNat(s)
    decreases |s|
  {
    if |s| > 1 {
      var init := s[..|s| - 1];
      assert init[0] == s[0];
      ParseAbove(init);
    }
  }

  /** Formatting what was read from canonical text gives the text back, so
      formatting and reading are inverse on canonical text. */
  lemma {:induction false} FormatParse(s: string)
    requires Canonical(s)
    ensures FormatNat(ParseNat(s)) == s
    decreases |s|
  {
    if |s| > 1 {
      var init := s[..|s| - 1];
      assert init[0] == s[0];
      ParseAbove(init);
      FormatParse(init);
      var n := ParseNat(s);
      assert n / 10 == ParseNat(init) && n % 10 == DigitValue(s[|s| - 1]);
      assert s == init + [s[|s| - 1]];
    }
  }

  /** The length of the formatted number is its digit count: `n` lies
      between consecutive powers of ten. */
  lemma DigitCount(n: nat)
    ensures n < Pow10(|FormatNat(n)|)
    ensures n >= 1 ==> Pow10(|FormatNat(n)| - 1) <= n
  {
    ParseFormat(n);
    ParseBelow(FormatNat(n));
    if n >= 1 {
      ParseAbove(FormatNat(n));
    }
  }

  /** Pow10 is monotone. */
  lemma Pow10Monotone(i: nat, j: nat)
    requires i <= j
    ensures Pow10(i) <= Pow10(j)
  {
    if i < j {
      Pow10Increasing(i, j);
    }
  }

  /** Adding two to a count lengthens its text by at most one digit, and by
      exactly one when the sum reaches the next power of ten. */
  lemma FormatPlusTwoLength(c: nat)
    ensures |FormatNat(c + 2)| == |FormatNat(c)| || |FormatNat(c + 2)| == |FormatNat(c)| + 1
    ensures |FormatNat(c + 2)| == |FormatNat(c)| + 1 <==> c + 2 >= Pow10(|FormatNat(c)|)
  {
    var a, b := |FormatNat(c)|, |FormatNat(c + 2)|;
    DigitCount(c);
    DigitCount(c + 2);
    if b < a {
      Pow10Monotone(b, a - 1);
    }
    if b > a + 1 {
      Pow10Monotone(a + 1, b - 1);
    }
    if c + 2 >= Pow10(a) && b <= a {
      Pow10Monotone(b, a);
    }
    if c + 2 < Pow10(a) && b > a {
      Pow10Monotone(a, b - 1);
    }
  }

  predicate AllZeros(z: string)
  {
    forall i :: 0 <= i < |z| ==> z[i] == '0'
  }

  /** `n` copies of `pad`; nothing when `n` is not positive. */
  function Repeat(pad: string, n: int): string
    decreases n
  {
    if n <= 0 then [] else pad + Repeat(pad, n - 1)
  }

  /** `leftPad(s, pad, n)`: `n` copies of `pad` in front of `s`. */
  function LeftPad(s: string, pad: string, n: int): string
  {
    Repeat(pad, n) + s
  }

  lemma {:induction false} RepeatZero(n: int)
    ensures AllZeros(Repeat("0", n))
    ensures |Repeat("0", n)| == if n <= 0 then 0 else n
    decreases n
  {
    if n > 0 {
      RepeatZero(n - 1);
    }
  }

  lemma {:induction false} ParseZeros(z: string)
    requires AllZeros(z)
    ensures AllDigits(z) && ParseNat(z) == 0
    decreases |z|
  {
    if |z| > 0 {
      ParseZeros(z[..|z| - 1]);
    }
  }

  /** Leading zeros do not change the number read. */
  lemma {:induction false} ParseLeadingZeros(z: string, s: string)
    requires AllZeros(z) && AllDigits(s)
    ensures AllDigits(z + s) && ParseNat(z + s) == ParseNat(s)
    decreases |s|
  {
    ParseZeros(z);
    if |s| == 0 {
      assert z + s == z;
    } else {
      var t := z + s;
      assert t[..|t| - 1] == z + s[..|s| - 1];
      assert t[|t| - 1] == s[|s| - 1];
      ParseLeadingZeros(z, s[..|s| - 1]);
      assert AllDigits(t);
      assert ParseNat(t) == 10 * ParseNat(t[..|t| - 1]) + DigitValue(t[|t| - 1]);
    }
  }

  /** The ten-digit offset field the xref writer builds. */
  function OffsetField(offset: int): string
  {
    var digits := FormatInt(offset);
    LeftPad(digits, "0", 10 - |digits|)
  }

  /** An offset below 10^10 fills exactly ten digits and reads back as itself. */
  lemma OffsetFieldRoundTrip(offset: int)
    requires 0 <= offset < Pow10(10)
    ensures |OffsetField(offset)| == 10
    ensures AllDigits(OffsetField(offset)) && ParseNat(OffsetField(offset)) == offset
  {
    var digits := FormatNat(offset);
    DigitCount(offset);
    if |digits| > 10 {
      Pow10Increasing(10, |digits| - 1);
    }
    assert |digits| <= 10;
    var zeros := Repeat("0", 10 - |digits|);
    RepeatZero(10 - |digits|);
    assert OffsetField(offset) == zeros + digits;
    ParseFormat(offset);
    ParseLeadingZeros(zeros, digits);
  }

  /** An offset of 10^10 or more does not fit: the field is wider than ten. */
  lemma OffsetFieldOverflow(offset: int)
    requires offset >= Pow10(10)
    ensures |OffsetField(offset)| > 10
  {
    var digits := FormatNat(offset);
    DigitCount(offset);
    if |digits| < 10 {
      Pow10Increasing(|digits|, 10);
    }
    assert |digits| > 10;
    assert OffsetField(offset) == Repeat("0", 10 - |digits|) + digits;
    assert Repeat("0", 10 - |digits|) == [];
  }
}
