/**
 * Decimal text of natural numbers: the digits JavaScript writes when it
 * interpolates an integer into a template string, and the value `parseInt`
 * reads back from a run of decimal digits.
 */
module Decimal {

  predicate IsDigit(c: char) {
    '0' <= c <= '9'
  }

  predicate AllDigits(s: string) {
    forall i :: 0 <= i < |s| ==> IsDigit(s[i])
  }

  function Pow10(k: nat): (p: nat)
    ensures p >= 1
  {
    if k == 0 then 1 else 10 * Pow10(k - 1)
  }

  function DigitChar(v: nat): (c: char)
    requires v < 10
    ensures IsDigit(c)
  {
    (('0' as int) + v) as char
  }

  function DigitValue(c: char): (v: nat)
    requires IsDigit(c)
    ensures v < 10 && DigitChar(v) == c
  {
    (c as int) - ('0' as int)
  }

  /** The shortest decimal numeral of `n`: no sign, no leading zero. */
  function Digits(n: nat): (s: string)
    ensures |s| >= 1 && AllDigits(s)
    ensures s[0] == '0' <==> n == 0
    decreases n
  {
    if n < 10 then [DigitChar(n)] else Digits(n / 10) + [DigitChar(n % 10)]
  }

  /** The value of a run of decimal digits, as `parseInt(s, 10)` reads it. */
  function ParseDecimal(s: string): (n: nat)
    requires AllDigits(s)
    ensures n < Pow10(|s|)
    decreases |s|
  {
    if s == [] then 0 else 10 * ParseDecimal(s[..|s| - 1]) + DigitValue(s[|s| - 1])
  }

  /** Reading back the numeral of `n` gives `n`. */
  lemma {:induction false} ParseDigits(n: nat)
    ensures ParseDecimal(Digits(n)) == n
    decreases n
  {
    if n >= 10 {
      var s := Digits(n);
      assert s[..|s| - 1] == Digits(n / 10);
      ParseDigits(n / 10);
    }
  }

  /** A digit string with no leading zero is its own value's numeral. */
  lemma {:induction false} DigitsOfParse(s: string)
    requires AllDigits(s) && |s| >= 1 && s[0] != '0'
    ensures Digits(ParseDecimal(s)) == s
    decreases |s|
  {
    if |s| >= 2 {
      var init := s[..|s| - 1];
      ParseAtLeast(init);
      DigitsOfParse(init);
      assert s == init + [s[|s| - 1]];
    }
  }

  /** A digit string with no leading zero is worth at least 10^(|s|-1). */
  lemma {:induction false} ParseAtLeast(s: string)
    requires AllDigits(s) && |s| >= 1 && s[0] != '0'
    ensures ParseDecimal(s) >= Pow10(|s| - 1)
    decreases |s|
  {
    if |s| >= 2 {
      ParseAtLeast(s[..|s| - 1]);
    }
  }

  lemma {:induction false} Pow10Monotone(j: nat, k: nat)
    requires j <= k
    ensures Pow10(j) <= Pow10(k)
    decreases k
  {
    if j < k {
      Pow10Monotone(j, k - 1);
    }
  }

  /** The numeral of `n` has exactly four digits iff 1000 <= n <= 9999. */
  lemma FourDigits(n: nat)
    ensures |Digits(n)| == 4 <==> 1000 <= n <= 9999
  {
    var s := Digits(n);
    ParseDigits(n);
    if n != 0 {
      ParseAtLeast(s);
    }
    if |s| >= 5 {
      Pow10Monotone(4, |s| - 1);
    } else if |s| <= 3 {
      Pow10Monotone(|s|, 3);
    }
  }

  /** Two-digit zero-padded numeral, as `(v < 10 ? "0" : "") + v`. */
  function Pad2(v: nat): (s: string)
    requires v < 100
    ensures |s| == 2 && AllDigits(s)
    ensures ParseDecimal(s) == v
  {
    ParseDigits(v);
    var s := (if v < 10 then "0" else "") + Digits(v);
    assert s[..1] == (if v < 10 then "0" else Digits(v / 10));
    s
  }

  /** Every two-digit string is the padded numeral of its value. */
  lemma TwoDigitsArePadded(s: string)
    requires AllDigits(s) && |s| == 2
    ensures Pad2(ParseDecimal(s)) == s
  {
    if s[0] != '0' {
      DigitsOfParse(s);
    } else {
      assert s[..1] == "0";
    }
  }
}
