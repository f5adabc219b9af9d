/** Decimal notation of natural numbers, as string interpolation prints them. */
module Decimals {
  const DIGITS: string := "0123456789"

  function Decimal(n: nat): (text: string)
    ensures text != ""
    ensures forall c | c in text :: c in DIGITS
  {
    if n < 10 then [DIGITS[n]] else Decimal(n / 10) + [DIGITS[n % 10]]
  }

  /** What a numeral says, digit by digit. */
  ghost function NumeralValue(text: string): nat {
    if text == "" then 0
    else
      var c := text[|text| - 1];
      NumeralValue(text[..|text| - 1]) * 10 + if '0' <= c <= '9' then c as nat - '0' as nat else 0
  }

  /** A number is printed as the numeral that says it, without leading zeros. */
  lemma {:induction false} DecimalExactly(n: nat)
    ensures NumeralValue(Decimal(n)) == n
    ensures n > 0 ==> Decimal(n)[0] != '0'
  {
    var text := Decimal(n);
    if n < 10 {
      assert text[..0] == "";
    } else {
      DecimalExactly(n / 10);
      assert text[..|text| - 1] == Decimal(n / 10);
    }
  }

  lemma DecimalInjective(m: nat, n: nat)
    requires Decimal(m) == Decimal(n)
    ensures m == n
  {
    DecimalExactly(m);
    DecimalExactly(n);
  }
}
