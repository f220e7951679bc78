/** The range check of the V3 circuit: a credential expires at most one year after it was issued. */
module ExpiryCheck {
  import opened PrimeField
  import opened Circomlib

  const FIRST_TOO_LONG: nat := 31536001  // one year and one second

  /** The constraints on expiry and iat, with the bits of both decompositions. */
  ghost predicate ExpiryConstraints(p: int, iat: int, expiry: int, differenceBits: seq<int>, comparisonBits: seq<int>)
    requires p > 0
  {
    && Num2Bits(p, 25, expiry - iat, differenceBits)
    && LessThan(p, 25, expiry - iat, FIRST_TOO_LONG, 1, comparisonBits)
  }

  lemma Pow2Values()
    ensures Pow(2, 25) == 33554432 && Pow(2, 26) == 67108864
  {
    assert Pow(2, 5) == 32;
    PowSum(2, 5, 5);
    PowSum(2, 10, 10);
    PowSum(2, 20, 5);
  }

  lemma ShiftedRemainder(d: int, shift: nat, p: int)
    requires p > 0 && d % p + shift < p
    ensures (d + shift) % p == d % p + shift
  {
    RemainderUnique(d + shift, d / p, d % p + shift, p);
  }

  /** With the difference known to fit 25 bits, the comparison is an ordinary one. */
  lemma ComparisonExactly(p: int, difference: int)
    requires IsPrime(p) && p > 67108864 && difference % p < 33554432
    ensures (exists bits :: LessThan(p, 25, difference, FIRST_TOO_LONG, 1, bits)) <==> difference % p <= 31536000
  {
    Pow2Values();
    LessThanExactly(p, 25, difference, FIRST_TOO_LONG);
    ShiftedRemainder(difference, 33554432 - FIRST_TOO_LONG, p);
  }

  /**
   * Some assignment of the internal signals satisfies the check exactly when expiry - iat, as a field
   * element, is at most a year; neither decomposition lets a wrapped difference through.
   */
  lemma ExpiryWithinAYear(p: int, iat: int, expiry: int)
    requires IsPrime(p) && p > 67108864
    ensures (exists differenceBits, comparisonBits ::
               ExpiryConstraints(p, iat, expiry, differenceBits, comparisonBits))
       <==> (expiry - iat) % p <= 31536000
  {
    var difference := expiry - iat;
    assert Pow(2, 25) == 33554432 by { Pow2Values(); }
    Num2BitsExactly(p, 25, difference);
    if differenceBits, comparisonBits :| ExpiryConstraints(p, iat, expiry, differenceBits, comparisonBits) {
      assert Num2Bits(p, 25, difference, differenceBits);
      assert LessThan(p, 25, difference, FIRST_TOO_LONG, 1, comparisonBits);
      ComparisonExactly(p, difference);
    }
    if difference % p <= 31536000 {
      ComparisonExactly(p, difference);
      var differenceBits :| Num2Bits(p, 25, difference, differenceBits);
      var comparisonBits :| LessThan(p, 25, difference, FIRST_TOO_LONG, 1, comparisonBits);
      assert ExpiryConstraints(p, iat, expiry, differenceBits, comparisonBits);
    }
  }
}
