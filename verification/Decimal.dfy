/** Decimal numerals, as strconv.Itoa writes them and strconv.Atoi reads them. */
module Decimal {
  import opened Wrappers

  const MAX_INT: int := 0x7FFF_FFFF_FFFF_FFFF

  predicate IsDigit(c: char) {
    '0' <= c <= '9'
  }

  function DigitValue(c: char): (v: nat)
    requires IsDigit(c)
    ensures v < 10
  {
    (c as int) - ('0' as int)
  }

  function DigitChar(v: nat): (c: char)
    requires v < 10
    ensures IsDigit(c) && DigitValue(c) == v
  {
    (('0' as int) + v) as char
  }

  /** The numeral of n: no sign, no leading zero. */
  function Itoa(n: nat): (s: string)
    ensures 0 < |s| && forall i :: 0 <= i < |s| ==> IsDigit(s[i])
    ensures |s| == 1 || s[0] != '0'
  {
    if n < 10 then [DigitChar(n)] else Itoa(n / 10) + [DigitChar(n % 10)]
  }

  function DigitsValue(s: string): nat
    requires forall i :: 0 <= i < |s| ==> IsDigit(s[i])
  {
    if s == "" then 0 else 10 * DigitsValue(s[..|s| - 1]) + DigitValue(s[|s| - 1])
  }

  predicate Digits(s: string) {
    s != "" && forall i :: 0 <= i < |s| ==> IsDigit(s[i])
  }

  /** strconv.Atoi: an optional sign and digits, leading zeros accepted, within the int range. */
  function Atoi(s: string): Option<int> {
    var digits := if s != "" && (s[0] == '+' || s[0] == '-') then s[1..] else s;
    if !Digits(digits) then None
    else
      var magnitude: int := DigitsValue(digits);
      var value := if s[0] == '-' then -magnitude else magnitude;
      if -MAX_INT - 1 <= value <= MAX_INT then Some(value) else None
  }

  lemma {:induction false} DigitsOfItoa(n: nat)
    ensures DigitsValue(Itoa(n)) == n
  {
    if n >= 10 {
      var s := Itoa(n);
      assert s[..|s| - 1] == Itoa(n / 10);
      DigitsOfItoa(n / 10);
    }
  }

  /** Reading a printed number gives it back. */
  lemma AtoiOfItoa(n: nat)
    requires n <= MAX_INT
    ensures Atoi(Itoa(n)) == Some(n)
  {
    DigitsOfItoa(n);
  }

  /** A numeral without leading zero is the only one of its value, so printing undoes reading. */
  lemma {:induction false} ItoaOfDigits(s: string)
    requires 0 < |s| && forall i :: 0 <= i < |s| ==> IsDigit(s[i])
    requires |s| == 1 || s[0] != '0'
    ensures Itoa(DigitsValue(s)) == s
    ensures |s| > 1 ==> DigitsValue(s) >= 10
  {
    var rest := s[..|s| - 1];
    if |s| == 1 {
      assert rest == "";
    } else {
      ItoaOfDigits(rest);
      assert DigitsValue(rest) > 0 by {
        if |rest| == 1 {
          assert rest[..0] == "";
        }
      }
      assert s == rest + [s[|s| - 1]];
    }
  }

  lemma {:induction false} LeadingZero(s: string)
    requires s != "" && forall i :: 0 <= i < |s| ==> IsDigit(s[i])
    ensures DigitsValue("0" + s) == DigitsValue(s)
  {
    var t := "0" + s;
    assert t[..|t| - 1] == "0" + s[..|s| - 1];
    if |s| == 1 {
      assert s[..0] == "" && t[..1] == "0" && t[..1][..0] == "";
    } else {
      LeadingZero(s[..|s| - 1]);
    }
  }

  /** Digits after an optional sign are read as their value, if that is within the range. */
  lemma AtoiOfDigits(sign: string, s: string)
    requires sign in {"", "+", "-"} && Digits(s)
    ensures var value: int := if sign == "-" then 0 - DigitsValue(s) else DigitsValue(s);
            Atoi(sign + s) == if -MAX_INT - 1 <= value <= MAX_INT then Some(value) else None
  {
    if sign == "" {
      assert sign + s == s;
    } else {
      assert (sign + s)[1..] == s;
    }
    hide DigitsValue;
  }

  /** Nothing else is read. */
  lemma AtoiNeedsDigits(s: string)
    requires !Digits(s) && (s != "" && (s[0] == '+' || s[0] == '-') ==> !Digits(s[1..]))
    ensures Atoi(s) == None
  {
  }

  /** A sign and leading zeros make no difference to the number. */
  lemma AtoiForms(n: nat)
    requires n <= MAX_INT
    ensures Atoi("+" + Itoa(n)) == Some(n) && Atoi("0" + Itoa(n)) == Some(n)
    ensures Atoi("-" + Itoa(n)).Some? && Atoi("-" + Itoa(n)).value + n == 0
  {
    var s := Itoa(n);
    assert Digits(s);
    DigitsOfItoa(n);
    SignedForms(s);
    LeadingZeroForm(s);
  }

  lemma SignedForms(s: string)
    requires Digits(s) && DigitsValue(s) <= MAX_INT
    ensures Atoi("+" + s) == Some(DigitsValue(s))
    ensures Atoi("-" + s) == Some(0 - DigitsValue(s))
  {
    hide DigitsValue, Atoi;
    AtoiOfDigits("+", s);
    AtoiOfDigits("-", s);
  }

  lemma LeadingZeroForm(s: string)
    requires Digits(s) && DigitsValue(s) <= MAX_INT
    ensures Atoi("0" + s) == Some(DigitsValue(s))
  {
    hide DigitsValue, Atoi;
    var t := "0" + s;
    assert Digits(t);
    LeadingZero(s);
    AtoiOfDigits("", t);
    assert "" + t == t;
  }
}
