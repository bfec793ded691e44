/**
 * The names `get_variables` gives to passive scalar fields: `s` followed by
 * the field's 1-based index written in decimal, zero-padded to at least two
 * digits, as Python's `"s{:02d}".format(i)` writes it.
 */
module ScalarNames {

  predicate IsDigit(c: char) {
    '0' <= c <= '9'
  }

  predicate AllDigits(s: string) {
    forall k :: 0 <= k < |s| ==> IsDigit(s[k])
  }

  function DigitChar(d: nat): (c: char)
    requires d < 10
    ensures IsDigit(c)
  {
    (('0' as int) + d) as char
  }

  function DigitValue(c: char): (d: nat)
    requires IsDigit(c)
    ensures d < 10
  {
    (c as int) - ('0' as int)
  }

  /**
   * `n` in decimal without leading zeros: one digit below 10, at most two
   * below 100, and never a leading `0` once there are several digits.
   */
  function Decimal(n: nat): (s: string)
    ensures AllDigits(s) && |s| >= 1
    ensures n < 10 <==> |s| == 1
    ensures n < 100 <==> |s| <= 2
    ensures |s| > 1 ==> s[0] != '0'
  {
    if n < 10 then [DigitChar(n)]
    else Decimal(n / 10) + [DigitChar(n % 10)]
  }

  /** The number a string of decimal digits denotes. */
  function ParseDecimal(s: string): nat
    requires AllDigits(s)
  {
    if |s| == 0 then 0
    else ParseDecimal(s[..|s| - 1]) * 10 + DigitValue(s[|s| - 1])
  }

  /** Reading back what `Decimal` wrote gives the number again. */
  lemma {:induction false} ParseDecimalOfDecimal(n: nat)
    ensures ParseDecimal(Decimal(n)) == n
  {
    var s := Decimal(n);
    if n >= 10 {
      ParseDecimalOfDecimal(n / 10);
      assert s[..|s| - 1] == Decimal(n / 10);
      assert DigitValue(s[|s| - 1]) == n % 10;
    } else {
      assert s[..0] == [];
    }
  }

  /** A leading zero does not change the number a digit string denotes. */
  lemma {:induction false} ParseDecimalLeadingZero(s: string)
    requires AllDigits(s)
    ensures ParseDecimal("0" + s) == ParseDecimal(s)
    decreases |s|
  {
    var t := "0" + s;
    if |s| == 0 {
      assert t[..0] == [];
    } else {
      assert t[..|t| - 1] == "0" + s[..|s| - 1];
      ParseDecimalLeadingZero(s[..|s| - 1]);
    }
  }

  /** `"{:02d}".format(n)`: the decimal digits of `n`, padded with `0` to at least two. */
  function ZeroPad2(n: nat): (s: string)
    ensures AllDigits(s)
    ensures n < 100 <==> |s| == 2
    ensures |s| > 2 ==> s[0] != '0'
  {
    if n < 10 then "0" + Decimal(n) else Decimal(n)
  }

  /** Padding loses nothing: the digits still denote `n`. */
  lemma ParseZeroPad2(n: nat)
    ensures ParseDecimal(ZeroPad2(n)) == n
  {
    ParseDecimalOfDecimal(n);
    if n < 10 {
      ParseDecimalLeadingZero(Decimal(n));
    }
  }

  /** The variable name of the scalar field with 1-based index `n`. */
  function ScalarName(n: nat): string {
    "s" + ZeroPad2(n)
  }

  /** A scalar name is `s` and then at least two digits that denote its index. */
  lemma ScalarNameShape(n: nat)
    ensures |ScalarName(n)| >= 3 && ScalarName(n)[0] == 's'
    ensures AllDigits(ScalarName(n)[1..])
    ensures ParseDecimal(ScalarName(n)[1..]) == n
  {
    assert ScalarName(n)[1..] == ZeroPad2(n);
    ParseZeroPad2(n);
  }

  /** Different scalar fields get different names. */
  lemma ScalarNameInjective(a: nat, b: nat)
    requires ScalarName(a) == ScalarName(b)
    ensures a == b
  {
    ScalarNameShape(a);
    ScalarNameShape(b);
  }

  /** The names of the first fields, as the format string writes them. */
  lemma ScalarNameExamples()
    ensures ScalarName(1) == "s01" && ScalarName(9) == "s09"
    ensures ScalarName(10) == "s10" && ScalarName(100) == "s100"
  {
    assert Decimal(10) == Decimal(1) + [DigitChar(0)];
    assert Decimal(100) == Decimal(10) + [DigitChar(0)];
  }
}
