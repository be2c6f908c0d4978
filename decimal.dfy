/** Decimal rendering of the collision counter, as the f-string
    `f"{email_base}{counter}{domain}"` formats a Python int. */
module Decimal {
  import opened CharClasses

  function DigitChar(d: nat): (c: char)
    requires d < 10
    ensures IsDigit(c) && c as int - '0' as int == d
  {
    ('0' as int + d) as char
  }

  function DigitValue(c: char): nat
  {
    if IsDigit(c) then c as int - '0' as int else 0
  }

  /** The decimal numeral of `n`: digits only, most significant first, with
      no leading zero. */
  function IntToString(n: nat): (s: string)
    ensures 1 <= |s|
    ensures forall i :: 0 <= i < |s| ==> IsDigit(s[i])
    ensures s[0] == '0' ==> n == 0
  {
    if n < 10 then [DigitChar(n)] else IntToString(n / 10) + [DigitChar(n % 10)]
  }

  /** Reads a string of decimal digits back as a number. */
  function ParseDecimal(s: string): nat
  {
    if s == [] then 0 else ParseDecimal(s[..|s| - 1]) * 10 + DigitValue(s[|s| - 1])
  }

  /** Parsing the numeral of `n` gives `n` back. */
  lemma {:induction false} ParseIntToString(n: nat)
    ensures ParseDecimal(IntToString(n)) == n
  {
    var s := IntToString(n);
    if n < 10 {
      assert s[..|s| - 1] == [];
    } else {
      var p := IntToString(n / 10);
      assert s == p + [DigitChar(n % 10)];
      assert s[..|s| - 1] == p;
      ParseIntToString(n / 10);
    }
  }

  /** Distinct numbers have distinct numerals. */
  lemma IntToStringInjective(m: nat, n: nat)
    ensures IntToString(m) == IntToString(n) ==> m == n
  {
    ParseIntToString(m);
    ParseIntToString(n);
  }
}
