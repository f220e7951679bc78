/**
 * The constraints of the standard comparison gadgets, over a prime field, and exactly which inputs satisfy them.
 * A signal is a residue; a gadget is a predicate on its signals, the internal ones included.
 */
module Circomlib {
  import opened PrimeField

  predicate IsSignal(x: int, p: int) { 0 <= x < p }

  // ----- Num2Bits -----

  /** The number whose bits these are, least significant first. */
  function BitsValue(bits: seq<int>): int {
    if bits == [] then 0 else bits[0] + 2 * BitsValue(bits[1..])
  }

  ghost predicate Num2Bits(p: int, n: nat, input: int, bits: seq<int>)
    requires p > 0
  {
    && |bits| == n
    && (forall i :: 0 <= i < n ==> IsSignal(bits[i], p) && Congruent(bits[i] * (bits[i] - 1), 0, p))
    && Congruent(BitsValue(bits), input, p)
  }

  ghost predicate Boolean(bits: seq<int>) {
    forall i :: 0 <= i < |bits| ==> bits[i] == 0 || bits[i] == 1
  }

  lemma BitIsBoolean(p: int, b: int)
    requires IsPrime(p) && IsSignal(b, p) && Congruent(b * (b - 1), 0, p)
    ensures b == 0 || b == 1
  {
    NoZeroDivisors(p, b, b - 1);
    if Congruent(b, 0, p) {
      CongruentResidues(b, 0, p);
    } else if b > 0 {
      CongruentResidues(b - 1, 0, p);
    }
  }

  lemma {:induction false} BooleanRange(bits: seq<int>)
    requires Boolean(bits)
    ensures 0 <= BitsValue(bits) < Pow(2, |bits|)
  {
    if bits != [] {
      assert Boolean(bits[1..]);
      BooleanRange(bits[1..]);
    }
  }

  /** The last bit says on which side of its weight the value lies. */
  lemma {:induction false} TopBit(bits: seq<int>)
    requires Boolean(bits) && |bits| > 0
    ensures bits[|bits| - 1] == if BitsValue(bits) >= Pow(2, |bits| - 1) then 1 else 0
  {
    if |bits| > 1 {
      assert Boolean(bits[1..]);
      TopBit(bits[1..]);
    }
  }

  function ToBits(v: nat, n: nat): (bits: seq<int>)
    ensures |bits| == n && Boolean(bits)
  {
    if n == 0 then [] else [v % 2] + ToBits(v / 2, n - 1)
  }

  lemma {:induction false} BitsOfValue(v: nat, n: nat)
    requires v < Pow(2, n)
    ensures BitsValue(ToBits(v, n)) == v
  {
    if n > 0 {
      BitsOfValue(v / 2, n - 1);
      assert ToBits(v, n)[1..] == ToBits(v / 2, n - 1);
    }
  }

  /** The decomposition is unique as soon as it fits below the prime. */
  lemma Num2BitsValue(p: int, n: nat, input: int, bits: seq<int>)
    requires IsPrime(p) && Pow(2, n) <= p && Num2Bits(p, n, input, bits)
    ensures Boolean(bits) && BitsValue(bits) == input % p < Pow(2, n)
  {
    forall i | 0 <= i < n ensures bits[i] == 0 || bits[i] == 1 { BitIsBoolean(p, bits[i]); }
    BooleanRange(bits);
    CongruentToRemainder(input, p);
    CongruentTransitive(BitsValue(bits), input, input % p, p);
    CongruentResidues(BitsValue(bits), input % p, p);
  }

  lemma Num2BitsSatisfiable(p: int, n: nat, input: int)
    requires p >= 2 && input % p < Pow(2, n)
    ensures Num2Bits(p, n, input, ToBits(input % p, n))
  {
    var bits := ToBits(input % p, n);
    forall i | 0 <= i < n ensures Congruent(bits[i] * (bits[i] - 1), 0, p) {
      assert bits[i] * (bits[i] - 1) == 0;
    }
    BitsOfValue(input % p, n);
    CongruentToRemainder(input, p);
  }

  lemma Num2BitsExactly(p: int, n: nat, input: int)
    requires IsPrime(p) && Pow(2, n) <= p
    ensures (exists bits :: Num2Bits(p, n, input, bits)) <==> input % p < Pow(2, n)
  {
    if bits :| Num2Bits(p, n, input, bits) {
      Num2BitsValue(p, n, input, bits);
    }
    if input % p < Pow(2, n) {
      Num2BitsSatisfiable(p, n, input);
    }
  }

  // ----- LessThan -----

  ghost predicate LessThan(p: int, n: nat, a: int, b: int, out: int, bits: seq<int>)
    requires p > 0
  {
    Num2Bits(p, n + 1, a + Pow(2, n) - b, bits) && Congruent(out, 1 - bits[n], p)
  }

  /** What forcing the output to one really says: a comparison of residues, not of numbers. */
  lemma LessThanExactly(p: int, n: nat, a: int, b: int)
    requires IsPrime(p) && Pow(2, n + 1) <= p
    ensures (exists bits :: LessThan(p, n, a, b, 1, bits)) <==> (a + Pow(2, n) - b) % p < Pow(2, n)
  {
    var input := a + Pow(2, n) - b;
    if bits :| LessThan(p, n, a, b, 1, bits) {
      Num2BitsValue(p, n + 1, input, bits);
      TopBit(bits);
      if bits[n] == 1 {
        CongruentResidues(1, 0, p);
      }
    }
    if input % p < Pow(2, n) {
      Num2BitsSatisfiable(p, n + 1, input);
      var bits := ToBits(input % p, n + 1);
      BitsOfValue(input % p, n + 1);
      TopBit(bits);
      CongruentIntro(1, 1 - bits[n], 0, p);
      assert LessThan(p, n, a, b, 1, bits);
    }
  }

  // ----- IsEqual -----

  ghost predicate IsZero(p: int, input: int, inv: int, out: int)
    requires p > 0
  {
    Congruent(out, 1 - input * inv, p) && Congruent(input * out, 0, p)
  }

  ghost predicate IsEqual(p: int, a: int, b: int, inv: int, out: int)
    requires p > 0
  {
    IsZero(p, b - a, inv, out)
  }

  lemma IsZeroForces(p: int, input: int, inv: int, out: int)
    requires IsPrime(p) && IsSignal(out, p) && IsZero(p, input, inv, out)
    ensures out == if Congruent(input, 0, p) then 1 else 0
  {
    if Congruent(input, 0, p) {
      CongruentMul(input, 0, inv, inv, p);
      var k := CongruentWitness(input * inv, 0, p);
      assert (-k) * p == -(k * p);
      CongruentIntro(1 - input * inv, 1, -k, p);
      CongruentTransitive(out, 1 - input * inv, 1, p);
      CongruentResidues(out, 1, p);
    } else {
      NoZeroDivisors(p, input, out);
      CongruentResidues(out, 0, p);
    }
  }

  lemma IsZeroSatisfiable(p: int, input: int) returns (inv: int)
    requires IsPrime(p)
    ensures IsSignal(inv, p) && IsZero(p, input, inv, if Congruent(input, 0, p) then 1 else 0)
  {
    if Congruent(input, 0, p) {
      inv := 0;
      assert input * 0 == 0;
      CongruentIntro(1, 1, 0, p);
      assert Congruent(1, 1 - input * inv, p);
    } else {
      inv := InverseExists(p, input);
      var k := CongruentWitness(input * inv, 1, p);
      CongruentIntro(0, 1 - input * inv, k, p);
      CongruentIntro(0, 0, 0, p);
      assert input * 0 == 0;
    }
  }
}
