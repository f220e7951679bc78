/** Big numbers as arrays of 32-bit limbs, as the JavaScript witness calculator passes them to the circuit. */
module Limbs {
  import opened PrimeField

  const RADIX: nat := 0x1_0000_0000

  /** Division and remainder of JavaScript's BigInt: both truncate toward zero. */
  function TruncDiv(a: int, b: int): int
    requires b > 0
  {
    if a >= 0 then a / b else -(-a / b)
  }

  function TruncRem(a: int, b: int): int
    requires b > 0
  {
    if a >= 0 then a % b else -(-a % b)
  }

  function Abs(a: int): nat { if a < 0 then -a else a }

  /** The limbs of a number, most significant first, none for zero. */
  function Digits(x: int): seq<int>
    decreases Abs(x)
  {
    if x == 0 then [] else Digits(TruncDiv(x, RADIX)) + [TruncRem(x, RADIX)]
  }

  function Zeros(n: nat): (z: seq<int>)
    ensures |z| == n && forall i :: 0 <= i < n ==> z[i] == 0
  {
    seq(n, _ => 0)
  }

  /** The limbs, padded with zeros in front up to the wanted size. */
  function Padded(x: int, size: nat): seq<int> {
    var d := Digits(x);
    if |d| < size then Zeros(size - |d|) + d else d
  }

  function Value(limbs: seq<int>): int {
    if limbs == [] then 0 else Value(limbs[..|limbs| - 1]) * RADIX + limbs[|limbs| - 1]
  }

  predicate AreLimbs(a: seq<int>) {
    forall i :: 0 <= i < |a| ==> 0 <= a[i] < RADIX
  }

  // ----- The loops -----

  lemma DigitMoves(rem: int, res: seq<int>)
    requires rem != 0
    ensures Digits(TruncDiv(rem, RADIX)) + ([TruncRem(rem, RADIX)] + res) == Digits(rem) + res
  {
  }

  lemma OneMoreZero(n: nat, digits: seq<int>)
    ensures Zeros(n + 1) + digits == [0] + (Zeros(n) + digits)
  {
  }

  method ToArray32(x: int, size: nat) returns (res: seq<int>)
    ensures res == Padded(x, size)
  {
    res := [];
    var rem := x;
    while rem != 0
      invariant Digits(rem) + res == Digits(x)
      decreases Abs(rem)
    {
      DigitMoves(rem, res);
      res := [TruncRem(rem, RADIX)] + res;
      rem := TruncDiv(rem, RADIX);
    }
    assert [] + res == res;
    if size != 0 { res := PadFront(res, size); }
  }

  method PadFront(digits: seq<int>, size: nat) returns (res: seq<int>)
    ensures res == if |digits| < size then Zeros(size - |digits|) + digits else digits
  {
    res := digits;
    if size <= |digits| { return; }
    ghost var missing := size - |digits|;
    assert Zeros(0) + digits == digits;
    var i := size - |res|;
    while i > 0
      invariant 0 <= i <= missing && res == Zeros(missing - i) + digits
    {
      OneMoreZero(missing - i, digits);
      res := [0] + res;
      i := i - 1;
    }
  }

  method FromArray32(arr: seq<int>) returns (res: int)
    ensures res == Value(arr)
  {
    res := 0;
    for i := 0 to |arr|
      invariant res == Value(arr[..i])
    {
      assert arr[..i + 1][..i] == arr[..i];
      res := res * RADIX + arr[i];
    }
    assert arr[..|arr|] == arr;
  }

  method Normalize(n: int, prime: nat) returns (res: int)
    requires prime > 0
    ensures res == n % prime
  {
    NormalizeIsRemainder(n, prime);
    res := TruncRem(n, prime);
    if res < 0 { res := res + prime; }
  }

  lemma NormalizeIsRemainder(n: int, prime: nat)
    requires prime > 0
    ensures n % prime == if TruncRem(n, prime) < 0 then TruncRem(n, prime) + prime else TruncRem(n, prime)
  {
    if n < 0 {
      DivisionSplits(-n, prime);
      RemainderOfNegated(n, -n / prime, -n % prime, prime);
    }
  }

  lemma DivisionSplits(m: int, prime: nat)
    requires prime > 0
    ensures m == m / prime * prime + m % prime && 0 <= m % prime < prime
  {
  }

  lemma RemainderOfNegated(n: int, q: int, r: int, prime: nat)
    requires 0 <= r < prime && -n == q * prime + r
    ensures n % prime == if r == 0 then 0 else prime - r
  {
    NegatedProduct(q, prime);
    if r == 0 {
      RemainderUnique(n, -q, 0, prime);
    } else {
      RemainderUnique(n, -q - 1, prime - r, prime);
    }
  }

  lemma NegatedProduct(q: int, prime: int)
    ensures -q * prime == -(q * prime) && (-q - 1) * prime == -(q * prime) - prime
  {
  }

  // ----- Round trips -----

  lemma {:induction false} DigitsOfValue(x: int)
    ensures Value(Digits(x)) == x
    decreases Abs(x)
  {
    if x != 0 {
      DigitsOfValue(TruncDiv(x, RADIX));
      assert Digits(x)[..|Digits(x)| - 1] == Digits(TruncDiv(x, RADIX));
    }
  }

  lemma {:induction false} LeadingZeros(n: nat, d: seq<int>)
    ensures Value(Zeros(n) + d) == Value(d)
    decreases |d|, n
  {
    if d == [] {
      assert Zeros(n) + d == Zeros(n);
      if n > 0 {
        assert Zeros(n)[..n - 1] == Zeros(n - 1) == Zeros(n - 1) + [];
        LeadingZeros(n - 1, []);
      }
    } else {
      assert (Zeros(n) + d)[..n + |d| - 1] == Zeros(n) + d[..|d| - 1];
      LeadingZeros(n, d[..|d| - 1]);
    }
  }

  /** From number to limbs and back, for any integer and any padding. */
  lemma NumberRoundTrip(x: int, size: nat)
    ensures Value(Padded(x, size)) == x
  {
    DigitsOfValue(x);
    if |Digits(x)| < size {
      LeadingZeros(size - |Digits(x)|, Digits(x));
    }
  }

  lemma {:induction false} ValueNonNegative(a: seq<int>)
    requires AreLimbs(a)
    ensures Value(a) >= 0
  {
    if a != [] {
      ValueNonNegative(a[..|a| - 1]);
    }
  }

  /** The digits of a limb array's value are the array without its leading zeros. */
  lemma {:induction false} LimbsReturn(a: seq<int>)
    requires AreLimbs(a)
    ensures |Digits(Value(a))| <= |a| && Zeros(|a| - |Digits(Value(a))|) + Digits(Value(a)) == a
  {
    if a != [] {
      var n := |a| - 1;
      var front, last := a[..n], a[n];
      ValueNonNegative(front);
      LimbsReturn(front);
      RemainderUnique(Value(a), Value(front), last, RADIX);
      if Value(a) == 0 {
        assert Value(front) == 0 && last == 0;
        assert Zeros(n) + [] == Zeros(n);
        assert Zeros(n + 1) == a;
      } else {
        assert Digits(Value(a)) == Digits(Value(front)) + [last];
        var z := Zeros(n - |Digits(Value(front))|);
        assert z + (Digits(Value(front)) + [last]) == z + Digits(Value(front)) + [last];
      }
    }
  }

  /** From limbs to number and back, leading zeros included. */
  lemma LimbRoundTrip(a: seq<int>)
    requires AreLimbs(a)
    ensures Padded(Value(a), |a|) == a
  {
    LimbsReturn(a);
    var d := Digits(Value(a));
    if |d| == |a| {
      assert Zeros(0) + d == d;
    }
  }

  // ----- Through the shared memory -----

  lemma {:induction false} DigitsFit(x: nat, n: nat)
    requires x < Pow(RADIX, n)
    ensures |Digits(x)| <= n && AreLimbs(Digits(x))
    decreases n
  {
    if x > 0 {
      DigitsFit(x / RADIX, n - 1);
    }
  }

  function Reversed(s: seq<int>): (r: seq<int>)
    ensures |r| == |s| && forall i :: 0 <= i < |s| ==> r[i] == s[|s| - 1 - i]
  {
    seq(|s|, i requires 0 <= i < |s| => s[|s| - 1 - i])
  }

  /** The first limb weighs most. */
  lemma {:induction false} FirstLimbWeighsMost(a: seq<int>)
    requires a != []
    ensures Value(a) == a[0] * Pow(RADIX, |a| - 1) + Value(a[1..])
  {
    var n := |a| - 1;
    if n > 0 {
      FirstLimbWeighsMost(a[..n]);
      assert a[..n][1..] == a[1..][..n - 1];
      Distribute(a[0] * Pow(RADIX, n - 1), Value(a[1..][..n - 1]), RADIX);
      Associate(a[0], Pow(RADIX, n - 1), RADIX);
    } else {
      assert a[..0] == [] && a[1..] == [];
    }
  }

  /** The limbs of a number, read from the last, are its base-2^32 digits. */
  lemma {:induction false} LimbAt(x: nat, size: nat, j: nat)
    requires x < Pow(RADIX, size) && j < size
    ensures |Padded(x, size)| == size && Padded(x, size)[size - 1 - j] == x / Pow(RADIX, j) % RADIX
    decreases j
  {
    DigitsFit(x, size);
    if j == 0 {
      LastLimb(x, size);
    } else {
      LastLimb(x, size);
      LimbAt(x / RADIX, size - 1, j - 1);
      DivideTwice(x, RADIX, Pow(RADIX, j - 1));
    }
  }

  lemma LastLimb(x: nat, size: nat)
    requires x < Pow(RADIX, size) && size > 0
    ensures x / RADIX < Pow(RADIX, size - 1)
    ensures Padded(x, size) == Padded(x / RADIX, size - 1) + [x % RADIX]
  {
    DigitsFit(x, size);
    DigitsFit(x / RADIX, size - 1);
    if x == 0 {
      assert Zeros(size) == Zeros(size - 1) + [0];
    } else {
      var d := Digits(x / RADIX);
      assert Zeros(size - 1 - |d|) + (d + [x % RADIX]) == Zeros(size - 1 - |d|) + d + [x % RADIX];
    }
  }

  lemma DivideTwice(x: nat, a: nat, b: nat)
    requires a > 0 && b > 0
    ensures a * b > 0 && x / a / b == x / (a * b)
  {
    var q, r, q', r' := x / a, x % a, x / a / b, x / a % b;
    DivisionSplits(x, a);
    DivisionSplits(q, b);
    Regroup(a, b, q', r', r);
    TwoDigitBound(a, b, r', r);
    RemainderUnique(x, q', r' * a + r, a * b);
  }

  /** Writing a value: normalised, cut into limbs, stored last limb first. */
  method WriteShared(n: int, prime: nat, memory: array<int>)
    requires 0 < prime <= Pow(RADIX, memory.Length) && memory.Length > 0
    modifies memory
    ensures memory[..] == Reversed(Padded(n % prime, memory.Length)) && AreLimbs(memory[..])
    ensures forall j :: 0 <= j < memory.Length ==> memory[j] == n % prime / Pow(RADIX, j) % RADIX
  {
    var n32 := memory.Length;
    var x := Normalize(n, prime);
    var arrFr := ToArray32(x, n32);
    DigitsFit(x, n32);
    assert |arrFr| == n32 && AreLimbs(arrFr);
    for j := 0 to n32
      invariant forall k :: 0 <= k < j ==> memory[k] == arrFr[n32 - 1 - k]
    {
      memory[j] := arrFr[n32 - 1 - j];
    }
    forall j | 0 <= j < n32 ensures memory[j] == x / Pow(RADIX, j) % RADIX { LimbAt(x, n32, j); }
  }

  /** Reading a value: the words collected last first, then put together. */
  method ReadShared(memory: array<int>) returns (x: int)
    ensures x == Value(Reversed(memory[..]))
  {
    var n32 := memory.Length;
    var arr := new int[n32];
    for j := 0 to n32
      invariant forall k :: 0 <= k < j ==> arr[n32 - 1 - k] == memory[k]
    {
      arr[n32 - 1 - j] := memory[j];
    }
    forall i | 0 <= i < n32 ensures arr[..][i] == Reversed(memory[..])[i] {
      assert arr[n32 - 1 - (n32 - 1 - i)] == memory[n32 - 1 - i];
    }
    assert arr[..] == Reversed(memory[..]);
    x := FromArray32(arr[..]);
  }

  /** What is read back is what was written modulo the prime, for any integer, negative ones included. */
  method WriteThenRead(n: int, prime: nat, memory: array<int>) returns (x: int)
    requires 0 < prime <= Pow(RADIX, memory.Length) && memory.Length > 0
    modifies memory
    ensures x == n % prime
  {
    WriteShared(n, prime, memory);
    assert Reversed(memory[..]) == Padded(n % prime, memory.Length);
    x := ReadShared(memory);
    NumberRoundTrip(n % prime, memory.Length);
  }
}
