/** Decimal numerals: what `str(n)` and zero-padded formats print, and what they are read back as. */
module Decimal {
  import opened Text

  function DigitChar(d: nat): (c: char)
    requires d < 10
    ensures IsDigit(c) && c as int - '0' as int == d
  {
    '0' + d as char
  }

  function DigitValue(c: char): nat
    requires IsDigit(c)
  {
    c as int - '0' as int
  }

  predicate AllDigits(s: string) {
    forall i | 0 <= i < |s| :: IsDigit(s[i])
  }

  function Digits(n: nat): (s: string)
    ensures s != "" && AllDigits(s)
  {
    if n < 10 then [DigitChar(n)] else Digits(n / 10) + [DigitChar(n % 10)]
  }

  /** `str(n)`. */
  function Printed(n: int): (s: string)
    ensures s != ""
  {
    if n < 0 then "-" + Digits(-n) else Digits(n)
  }

  /** The number the first k characters of a numeral denote. */
  function Value(s: string, k: nat): nat
    requires AllDigits(s) && k <= |s|
  {
    if k == 0 then 0 else 10 * Value(s, k - 1) + DigitValue(s[k - 1])
  }

  lemma {:induction false} ValueOfPrefix(s: string, t: string, k: nat)
    requires AllDigits(s) && AllDigits(t) && k <= |s| && k <= |t| && s[..k] == t[..k]
    ensures Value(s, k) == Value(t, k)
  {
    if k != 0 {
      assert s[..k - 1] == s[..k][..k - 1] == t[..k - 1];
      assert s[k - 1] == s[..k][k - 1] == t[k - 1];
      ValueOfPrefix(s, t, k - 1);
    }
  }

  /** Printing and reading back. */
  lemma {:induction false} DigitsValue(n: nat)
    ensures Value(Digits(n), |Digits(n)|) == n
    decreases n
  {
    if n >= 10 {
      var front := Digits(n / 10);
      DigitsValue(n / 10);
      assert Digits(n)[..|front|] == front == front[..|front|];
      ValueOfPrefix(Digits(n), front, |front|);
    }
  }

  /** `f"{n:0{width}d}"`. */
  function Padded(n: nat, width: nat): (s: string)
    ensures s != "" && AllDigits(s)
  {
    PadLeft(Digits(n), width)
  }

  function PadLeft(s: string, width: nat): (t: string)
    requires s != "" && AllDigits(s)
    ensures t != "" && AllDigits(t)
    decreases width - |s|
  {
    if |s| >= width then s else PadLeft(['0'] + s, width)
  }

  lemma {:induction false} LeadingZero(s: string, k: nat)
    requires AllDigits(s) && k <= |s|
    ensures Value(['0'] + s, k + 1) == Value(s, k)
  {
    if k != 0 {
      LeadingZero(s, k - 1);
    }
  }

  lemma {:induction false} PadLeftValue(s: string, width: nat)
    requires s != "" && AllDigits(s)
    ensures Value(PadLeft(s, width), |PadLeft(s, width)|) == Value(s, |s|)
    decreases width - |s|
  {
    if |s| < width {
      PadLeftValue(['0'] + s, width);
      LeadingZero(s, |s|);
    }
  }

  /** Different numbers are padded to different numerals. */
  lemma PaddedInjective(a: nat, b: nat, width: nat)
    requires Padded(a, width) == Padded(b, width)
    ensures a == b
  {
    PadLeftValue(Digits(a), width);
    PadLeftValue(Digits(b), width);
    DigitsValue(a);
    DigitsValue(b);
  }

  /** A numeral has no leading zero, save zero itself. */
  lemma {:induction false} NoLeadingZero(n: nat)
    ensures Digits(n)[0] == '0' <==> n == 0
    decreases n
  {
    if n >= 10 {
      NoLeadingZero(n / 10);
    }
  }

  /** Padding puts zeros in front until the width is reached, and nothing else. */
  lemma {:induction false} PadLeftIs(s: string, width: nat)
    requires s != "" && AllDigits(s)
    ensures var t := PadLeft(s, width);
            && |t| == (if |s| < width then width else |s|)
            && t[|t| - |s|..] == s && forall i | 0 <= i < |t| - |s| :: t[i] == '0'
    decreases width - |s|
  {
    if |s| < width {
      PadLeftIs(['0'] + s, width);
      var t := PadLeft(s, width);
      assert t[|t| - |s|..] == t[|t| - |s| - 1..][1..];
      assert t[|t| - |s| - 1] == t[|t| - |s| - 1..][0];
    }
  }
}
