/** Decimal numerals, as printed by `format!("{}")` and read back by `str::parse`. */
module Decimal {
  import opened Common

  function Digit(d: nat): char
    requires d < 10
  {
    '0' + d as char
  }

  function Print(n: nat): string {
    if n < 10 then [Digit(n)] else Print(n / 10) + [Digit(n % 10)]
  }

  predicate IsDigit(c: char) {
    '0' <= c <= '9'
  }

  /** The value of a non-empty string of digits. */
  function Parse(s: string): Option<nat> {
    if s == [] || !IsDigit(s[|s| - 1]) then None
    else
      var d := (s[|s| - 1] - '0') as nat;
      if |s| == 1 then Some(d)
      else
        match Parse(s[..|s| - 1])
        case None => None
        case Some(n) => Some(10 * n + d)
  }

  /** A numeral is made of digits and reads back as its number. */
  lemma {:induction false} ParsePrint(n: nat)
    ensures Print(n) != [] && (forall c <- Print(n) :: IsDigit(c))
    ensures Parse(Print(n)) == Some(n)
  {
    if n >= 10 {
      ParsePrint(n / 10);
      assert Print(n)[..|Print(n)| - 1] == Print(n / 10);
    }
  }
}
