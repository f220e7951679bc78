/** Arithmetic modulo a prime: what the circuits and the Montgomery code rest on, proved from the definition of a prime. */
module PrimeField {

  ghost predicate IsPrime(p: int) {
    p >= 2 && forall d :: 1 < d < p ==> p % d != 0
  }

  predicate Congruent(a: int, b: int, m: int)
    requires m > 0
  {
    (a - b) % m == 0
  }

  // ----- Division with remainder -----

  lemma MultipleGrows(d: int, m: int)
    requires m > 0
    ensures d >= 1 ==> d * m >= m
    ensures d <= -1 ==> d * m <= -m
  {
  }

  lemma SmallMultiple(d: int, m: int)
    requires m > 0 && -m < d * m < m
    ensures d == 0
  {
    MultipleGrows(d, m);
  }

  lemma RemainderUnique(n: int, q: int, r: int, m: int)
    requires m > 0 && n == q * m + r && 0 <= r < m
    ensures n % m == r && n / m == q
  {
    var d := q - n / m;
    assert d * m == q * m - (n / m) * m;
    SmallMultiple(d, m);
  }

  lemma CongruentWitness(a: int, b: int, m: int) returns (k: int)
    requires m > 0 && Congruent(a, b, m)
    ensures a == b + k * m
  {
    k := (a - b) / m;
  }

  lemma CongruentIntro(a: int, b: int, k: int, m: int)
    requires m > 0 && a == b + k * m
    ensures Congruent(a, b, m)
  {
    RemainderUnique(a - b, k, 0, m);
  }

  lemma CongruentReflexive(a: int, m: int)
    requires m > 0
    ensures Congruent(a, a, m)
  {
    CongruentIntro(a, a, 0, m);
  }

  lemma CongruentIffSameRemainder(a: int, b: int, m: int)
    requires m > 0
    ensures Congruent(a, b, m) <==> a % m == b % m
  {
    if Congruent(a, b, m) {
      var k := CongruentWitness(a, b, m);
      assert a == (b / m + k) * m + b % m by { assert (b / m + k) * m == (b / m) * m + k * m; }
      RemainderUnique(a, b / m + k, b % m, m);
    }
    if a % m == b % m {
      var k := a / m - b / m;
      assert k * m == (a / m) * m - (b / m) * m;
      CongruentIntro(a, b, k, m);
    }
  }

  lemma CongruentToRemainder(a: int, m: int)
    requires m > 0
    ensures Congruent(a, a % m, m) && Congruent(a % m, a, m)
  {
    CongruentIntro(a, a % m, a / m, m);
    assert (-(a / m)) * m == -((a / m) * m);
    CongruentIntro(a % m, a, -(a / m), m);
  }

  lemma CongruentSymmetric(a: int, b: int, m: int)
    requires m > 0 && Congruent(a, b, m)
    ensures Congruent(b, a, m)
  {
    var k := CongruentWitness(a, b, m);
    assert (-k) * m == -(k * m);
    CongruentIntro(b, a, -k, m);
  }

  lemma CongruentFlip(a: int, b: int, m: int)
    requires m > 0
    ensures Congruent(a, b, m) <==> Congruent(b, a, m)
  {
    if Congruent(a, b, m) { CongruentSymmetric(a, b, m); }
    if Congruent(b, a, m) { CongruentSymmetric(b, a, m); }
  }

  lemma CongruentNegate(a: int, b: int, m: int)
    requires m > 0 && Congruent(a, b, m)
    ensures Congruent(-a, -b, m)
  {
    var k := CongruentWitness(a, b, m);
    assert (-k) * m == -(k * m);
    CongruentIntro(-a, -b, -k, m);
  }

  lemma CongruentTransitive(a: int, b: int, c: int, m: int)
    requires m > 0 && Congruent(a, b, m) && Congruent(b, c, m)
    ensures Congruent(a, c, m)
  {
    var k := CongruentWitness(a, b, m);
    var l := CongruentWitness(b, c, m);
    assert (k + l) * m == k * m + l * m;
    CongruentIntro(a, c, k + l, m);
  }

  lemma CongruentAdd(a: int, b: int, c: int, d: int, m: int)
    requires m > 0 && Congruent(a, b, m) && Congruent(c, d, m)
    ensures Congruent(a + c, b + d, m)
  {
    var k := CongruentWitness(a, b, m);
    var l := CongruentWitness(c, d, m);
    assert (k + l) * m == k * m + l * m;
    CongruentIntro(a + c, b + d, k + l, m);
  }

  lemma CongruentMul(a: int, b: int, c: int, d: int, m: int)
    requires m > 0 && Congruent(a, b, m) && Congruent(c, d, m)
    ensures Congruent(a * c, b * d, m)
  {
    var k := CongruentWitness(a, b, m);
    var l := CongruentWitness(c, d, m);
    assert a * c == (b + k * m) * (d + l * m) == b * d + (b * l + k * d + k * l * m) * m;
    CongruentIntro(a * c, b * d, b * l + k * d + k * l * m, m);
  }

  /** Two residues that are congruent are equal. */
  lemma CongruentResidues(a: int, b: int, m: int)
    requires m > 0 && 0 <= a < m && 0 <= b < m && Congruent(a, b, m)
    ensures a == b
  {
    var k := CongruentWitness(a, b, m);
    SmallMultiple(k, m);
  }

  // ----- Inverses, and no zero divisors -----

  lemma Distribute(a: int, b: int, c: int)
    ensures (a + b) * c == a * c + b * c
  {
  }

  lemma InverseStep(p: int, q: int, a: int, r: int, y: int, k: int)
    requires p == q * a + r && r * y == 1 + k * p
    ensures a * -(q * y) == 1 + (k - y) * p
  {
    Distribute(q * a, r, y);
    Distribute(k, -y, p);
    assert a * -(q * y) == -(q * a * y);
    assert p * y == -(-y * p);
  }

  /** Every residue but zero has an inverse: divide the prime by it, and invert the smaller remainder. */
  lemma {:induction false} SmallInverse(p: int, a: int) returns (x: int)
    requires IsPrime(p) && 0 < a < p
    ensures Congruent(a * x, 1, p)
    decreases a
  {
    if a == 1 {
      return 1;
    }
    var q, r := p / a, p % a;
    var y := SmallInverse(p, r);
    var k := CongruentWitness(r * y, 1, p);
    x := -(q * y);
    InverseStep(p, q, a, r, y, k);
    CongruentIntro(a * x, 1, k - y, p);
  }

  /** The modular inverse as a residue. */
  lemma InverseExists(p: int, a: int) returns (x: int)
    requires IsPrime(p) && !Congruent(a, 0, p)
    ensures 0 < x < p && Congruent(a * x, 1, p)
  {
    CongruentToRemainder(a, p);
    var y := SmallInverse(p, a % p);
    x := y % p;
    CongruentToRemainder(y, p);
    CongruentMul(a, a % p, x, y, p);
    CongruentTransitive(a * x, (a % p) * y, 1, p);
    if x == 0 {
      CongruentSymmetric(a * x, 1, p);
      CongruentResidues(1, 0, p);
    }
  }

  lemma NoZeroDivisors(p: int, a: int, b: int)
    requires IsPrime(p) && Congruent(a * b, 0, p)
    ensures Congruent(a, 0, p) || Congruent(b, 0, p)
  {
    if !Congruent(a, 0, p) {
      var x := InverseExists(p, a);
      CongruentMul(a * x, 1, b, b, p);
      CongruentSymmetric(a * x * b, b, p);
      CongruentMul(a * b, 0, x, x, p);
      assert a * x * b == a * b * x;
      CongruentTransitive(b, a * x * b, 0, p);
    }
  }

  lemma Regroup(a: nat, b: nat, q: nat, r: nat, s: nat)
    ensures (q * b + r) * a + s == q * (a * b) + (r * a + s)
  {
    Distribute(q * b, r, a);
    assert q * b * a == q * (a * b);
  }

  lemma TwoDigitBound(a: nat, b: nat, r: nat, s: nat)
    requires r < b && s < a
    ensures r * a + s < a * b
  {
    Distribute(b - r - 1, r, a);
    assert (b - r - 1) * a >= 0;
    Distribute(b - 1, 1, a);
  }

  // ----- Powers -----

  function Pow(a: int, n: nat): (r: int)
    ensures a > 0 ==> r > 0
  {
    if n == 0 then 1 else a * Pow(a, n - 1)
  }

  lemma {:induction false} PowSum(a: int, m: nat, n: nat)
    ensures Pow(a, m + n) == Pow(a, m) * Pow(a, n)
  {
    if m > 0 {
      PowSum(a, m - 1, n);
      assert Pow(a, m + n) == a * Pow(a, m - 1 + n);
      Associate(a, Pow(a, m - 1), Pow(a, n));
    }
  }

  lemma Associate(a: int, b: int, c: int)
    ensures a * (b * c) == a * b * c
  {
  }
}
