/**
 * Python's `str` of an integer, and the ISBN acceptance test of
 * `add_book` and `update_book`, which is `len(str(isbn)) == 13`.
 */
module Isbn {

  function Pow10(k: nat): (p: nat)
    ensures p >= 1
  {
    if k == 0 then 1 else 10 * Pow10(k - 1)
  }

  function DigitChar(d: nat): char
    requires d < 10
  {
    "0123456789"[d]
  }

  /** The decimal digits of `n`, without leading zeros, as `str` prints them. */
  function NatToString(n: nat): (r: string)
    ensures |r| >= 1
    decreases n
  {
    if n < 10 then [DigitChar(n)] else NatToString(n / 10) + [DigitChar(n % 10)]
  }

  /** `str(n)`: a negative number is printed as a minus sign and the digits of `-n`. */
  function IntToString(n: int): string
  {
    if n < 0 then "-" + NatToString(-n) else NatToString(n)
  }

  /**
   * The ISBN test as written: the printed form has 13 characters. The sign
   * counts, so this is not the same as "13 decimal digits".
   */
  predicate IsbnAccepted(n: int)
  {
    |IntToString(n)| == 13
  }

  /** `n` prints with more than `d` digits exactly when `n >= 10^d`. */
  lemma {:induction false} NatToStringLength(n: nat, d: nat)
    requires d >= 1
    ensures |NatToString(n)| > d <==> n >= Pow10(d)
    decreases n
  {
    if n >= 10 {
      if d > 1 {
        NatToStringLength(n / 10, d - 1);
        assert n / 10 >= Pow10(d - 1) <==> n >= 10 * Pow10(d - 1);
      }
    } else {
      assert Pow10(d) == 10 * Pow10(d - 1);
    }
  }

  lemma Pow10Values()
    ensures Pow10(11) == 100_000_000_000
    ensures Pow10(12) == 1_000_000_000_000
    ensures Pow10(13) == 10_000_000_000_000
  {
  }

  /**
   * The accepted ISBNs are the 13-digit naturals and also the negative
   * numbers with 12 digits, whose minus sign makes up the thirteenth character.
   */
  lemma IsbnAcceptedRange(n: int)
    ensures IsbnAccepted(n) <==>
      (1_000_000_000_000 <= n <= 9_999_999_999_999) || (-999_999_999_999 <= n <= -100_000_000_000)
  {
    Pow10Values();
    if n >= 0 {
      NatToStringLength(n, 12);
      NatToStringLength(n, 13);
    } else {
      NatToStringLength(-n, 11);
      NatToStringLength(-n, 12);
    }
  }

  /** A negative twelve-digit number passes the check; a positive twelve-digit one does not. */
  lemma NegativeIsbnAccepted()
    ensures IsbnAccepted(-123_456_789_012)
    ensures !IsbnAccepted(123_456_789_012)
  {
    Pow10Values();
    IsbnAcceptedRange(-123_456_789_012);
    IsbnAcceptedRange(123_456_789_012);
  }
}
