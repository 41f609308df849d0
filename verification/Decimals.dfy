/** Digits and decimal numbers. */
module Decimals {
  predicate IsDigit(x: char) {
    '0' <= x <= '9'
  }

  /** A number as it is written, without leading zeros. */
  function Decimal(n: nat): string {
    if n < 10 then [['0', '1', '2', '3', '4', '5', '6', '7', '8', '9'][n]]
    else Decimal(n / 10) + [['0', '1', '2', '3', '4', '5', '6', '7', '8', '9'][n % 10]]
  }
}
