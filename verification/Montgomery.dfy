/** Exponentiation, inversion and division on elements in Montgomery form, updated in place. */
module Montgomery {
  import opened PrimeField

  /**
   * The field prime q, the Montgomery factor R modulo q, R's inverse, by which every product is scaled,
   * and the big-number library's modular inversion.
   */
  datatype Field = Field(q: nat, R: nat, RInverse: nat, invert: nat -> nat)

  ghost predicate Valid(f: Field) {
    && IsPrime(f.q) && f.R < f.q && f.RInverse < f.q && Congruent(f.R * f.RInverse, 1, f.q)
    && forall x :: 0 < x < f.q ==> Congruent(x * f.invert(x), 1, f.q)
  }

  /** Fr_rawMMul: x * y / R modulo q. */
  function MMul(f: Field, x: nat, y: nat): (z: nat)
    requires f.q > 0
    ensures z < f.q
  {
    x * y * f.RInverse % f.q
  }

  /** The stored form of a field element. */
  function ToMontgomery(f: Field, a: int): (x: nat)
    requires f.q > 0
    ensures x < f.q
  {
    a * f.R % f.q
  }

  /** The constant fOne, and R cubed, which inversion multiplies by. */
  function One(f: Field): nat
    requires f.q > 0
  {
    ToMontgomery(f, 1)
  }

  function R3(f: Field): nat
    requires f.q > 0
  {
    f.R * f.R * f.R % f.q
  }

  // ----- Products of stored forms -----

  lemma ScaleBack(a: int, b: int, r: int, s: int)
    ensures (a * r) * (b * r) * s == a * b * r * (r * s)
  {
    assert (a * r) * (b * r) == a * b * r * r by {
      assert (a * r) * (b * r) == a * (r * (b * r)) == a * (b * (r * r));
      assert a * b * r * r == a * b * (r * r) == a * (b * (r * r));
    }
    assert a * b * r * r * s == a * b * r * (r * s);
  }

  /** Multiplying stored forms multiplies the elements. */
  lemma MMulMultiplies(f: Field, a: int, b: int)
    requires Valid(f)
    ensures MMul(f, ToMontgomery(f, a), ToMontgomery(f, b)) == ToMontgomery(f, a * b)
  {
    var x, y := ToMontgomery(f, a), ToMontgomery(f, b);
    CongruentToRemainder(a * f.R, f.q);
    CongruentToRemainder(b * f.R, f.q);
    CongruentMul(x, a * f.R, y, b * f.R, f.q);
    CongruentReflexive(f.RInverse, f.q);
    CongruentMul(x * y, a * f.R * (b * f.R), f.RInverse, f.RInverse, f.q);
    ScaleBack(a, b, f.R, f.RInverse);
    CongruentReflexive(a * b * f.R, f.q);
    CongruentMul(a * b * f.R, a * b * f.R, f.R * f.RInverse, 1, f.q);
    CongruentTransitive(x * y * f.RInverse, a * b * f.R * (f.R * f.RInverse), a * b * f.R, f.q);
    CongruentIffSameRemainder(x * y * f.RInverse, a * b * f.R, f.q);
  }

  // ----- Exponentiation -----

  type Byte = b: nat | b < 256

  function ByteBit(b: Byte, k: nat): (bit: nat)
    ensures bit <= 1
  {
    if k == 0 then b % 2 else ByteBit(b / 2, k - 1)
  }

  /** BIT_IS_SET: bit p & 7 of byte p >> 3. */
  function Bit(scalar: seq<Byte>, p: nat): (bit: nat)
    requires p < 8 * |scalar|
    ensures bit <= 1
  {
    ByteBit(scalar[p / 8], p % 8)
  }

  /** The number the little-endian scalar stands for. */
  function ScalarValue(scalar: seq<Byte>): nat {
    if scalar == [] then 0 else scalar[0] + 256 * ScalarValue(scalar[1..])
  }

  /** The number formed by the bits from i on. */
  function FromBit(scalar: seq<Byte>, i: nat): nat
    requires i <= 8 * |scalar|
    decreases 8 * |scalar| - i
  {
    if i == 8 * |scalar| then 0 else Bit(scalar, i) + 2 * FromBit(scalar, i + 1)
  }

  lemma {:induction false} BitsOfTail(scalar: seq<Byte>, i: nat)
    requires |scalar| > 0 && 8 <= i <= 8 * |scalar|
    ensures FromBit(scalar, i) == FromBit(scalar[1..], i - 8)
    decreases 8 * |scalar| - i
  {
    if i < 8 * |scalar| {
      BitsOfTail(scalar, i + 1);
      assert scalar[i / 8] == scalar[1..][(i - 8) / 8];
    }
  }

  function ShiftedRight(b: nat, k: nat): nat {
    if k == 0 then b else ShiftedRight(b / 2, k - 1)
  }

  lemma {:induction false} NextBit(b: Byte, k: nat)
    ensures ShiftedRight(b, k) == ByteBit(b, k) + 2 * ShiftedRight(b, k + 1)
  {
    if k == 0 {
      assert ShiftedRight(b, 1) == ShiftedRight(b / 2, 0);
    } else {
      NextBit(b / 2, k - 1);
    }
  }

  lemma {:induction false} NoBitsLeft(b: nat, k: nat)
    requires b < Pow(2, k)
    ensures ShiftedRight(b, k) == 0
  {
    if k > 0 { NoBitsLeft(b / 2, k - 1); }
  }

  lemma ByteFromBits(b: Byte)
    ensures b == ByteBit(b, 0) + 2 * (ByteBit(b, 1) + 2 * (ByteBit(b, 2) + 2 * (ByteBit(b, 3) + 2 * (ByteBit(b, 4)
              + 2 * (ByteBit(b, 5) + 2 * (ByteBit(b, 6) + 2 * ByteBit(b, 7)))))))
  {
    assert Pow(2, 8) == 256;
    NoBitsLeft(b, 8);
    assert ShiftedRight(b, 0) == b;
    NextBit(b, 0); NextBit(b, 1); NextBit(b, 2); NextBit(b, 3);
    NextBit(b, 4); NextBit(b, 5); NextBit(b, 6); NextBit(b, 7);
  }

  /** All the bits together are the scalar. */
  lemma {:induction false} AllBits(scalar: seq<Byte>)
    ensures FromBit(scalar, 0) == ScalarValue(scalar)
  {
    if scalar != [] {
      AllBits(scalar[1..]);
      BitsOfTail(scalar, 8);
      ByteFromBits(scalar[0]);
      assert FromBit(scalar, 6) == Bit(scalar, 6) + 2 * (Bit(scalar, 7) + 2 * FromBit(scalar, 8));
      assert FromBit(scalar, 4) == Bit(scalar, 4) + 2 * (Bit(scalar, 5) + 2 * FromBit(scalar, 6));
      assert FromBit(scalar, 2) == Bit(scalar, 2) + 2 * (Bit(scalar, 3) + 2 * FromBit(scalar, 4));
      assert FromBit(scalar, 0) == Bit(scalar, 0) + 2 * (Bit(scalar, 1) + 2 * FromBit(scalar, 2));
    }
  }

  class Element {
    var v: nat

    constructor (v: nat)
      ensures this.v == v
    {
      this.v := v;
    }
  }

  /** The value the source's signed 32-bit counter starts from: size * 8 - 1, both wrapped. */
  function StartBit(size: nat): int {
    var word := (size * 8 - 1) % 0x1_0000_0000;
    if word < 0x8000_0000 then word else word - 0x1_0000_0000
  }

  /** How many bytes of the scalar the loop then looks at: all of them, as long as the counter does not wrap. */
  function BytesRead(size: nat): (k: nat)
    ensures k <= size
    ensures size <= 0x1000_0000 ==> k == size
  {
    if size % 0x2000_0000 <= 0x1000_0000 then size % 0x2000_0000 else 0
  }

  lemma StartBitReads(size: nat)
    ensures var i := StartBit(size);
            if BytesRead(size) > 0 then i == 8 * BytesRead(size) - 1 else i < 0
  {
    var m, q := size % 0x2000_0000, size / 0x2000_0000;
    if m > 0 {
      RemainderUnique(size * 8 - 1, q, 8 * m - 1, 0x1_0000_0000);
    } else {
      RemainderUnique(size * 8 - 1, q - 1, 0xFFFF_FFFF, 0x1_0000_0000);
    }
  }

  lemma SquareAndMultiply(f: Field, a: int, e: nat)
    requires Valid(f)
    ensures var power := ToMontgomery(f, Pow(a, e));
            && MMul(f, power, power) == ToMontgomery(f, Pow(a, 2 * e))
            && MMul(f, ToMontgomery(f, Pow(a, 2 * e)), ToMontgomery(f, a)) == ToMontgomery(f, Pow(a, 2 * e + 1))
  {
    MMulMultiplies(f, Pow(a, e), Pow(a, e));
    PowSum(a, e, e);
    MMulMultiplies(f, Pow(a, 2 * e), a);
    assert Pow(a, 2 * e + 1) == a * Pow(a, 2 * e) == Pow(a, 2 * e) * a;
  }

  /**
   * Square and multiply from the top bit down.  r may be the very object base is: the base is copied first.
   */
  method Exp(f: Field, r: Element, base: Element, scalar: seq<Byte>, ghost a: int)
    requires Valid(f) && base.v == ToMontgomery(f, a)
    modifies r
    ensures r.v == ToMontgomery(f, Pow(a, ScalarValue(scalar[..BytesRead(|scalar|)])))
    ensures |scalar| <= 0x1000_0000 ==> r.v == ToMontgomery(f, Pow(a, ScalarValue(scalar)))
  {
    ghost var read := scalar[..BytesRead(|scalar|)];
    assert |scalar| <= 0x1000_0000 ==> read == scalar;
    StartBitReads(|scalar|);
    var oneFound := false;
    var copyBase := base.v;
    var i := StartBit(|scalar|);
    while i >= 0
      invariant read == [] ==> i < 0 && !oneFound
      invariant read != [] ==> -1 <= i < 8 * |read| && (!oneFound ==> FromBit(read, i + 1) == 0)
      invariant oneFound ==> r.v == ToMontgomery(f, Pow(a, FromBit(read, i + 1)))
    {
      var bit := Bit(scalar, i);
      assert bit == Bit(read, i);
      ghost var e := FromBit(read, i + 1);
      if !oneFound {
        if bit != 0 {
          r.v := copyBase;
          oneFound := true;
          assert Pow(a, 1) == a * Pow(a, 0) == a;
        }
      } else {
        SquareAndMultiply(f, a, e);
        r.v := MMul(f, r.v, r.v);
        if bit != 0 { r.v := MMul(f, r.v, copyBase); }
      }
      i := i - 1;
    }
    if !oneFound {
      r.v := One(f);
      assert Pow(a, 0) == 1;
    }
    AllBits(read);
  }

  // ----- Inversion and division -----

  lemma StoredIsNonzero(f: Field, a: int)
    requires Valid(f) && !Congruent(a, 0, f.q)
    ensures ToMontgomery(f, a) > 0
  {
    if ToMontgomery(f, a) == 0 {
      CongruentToRemainder(a * f.R, f.q);
      NoZeroDivisors(f.q, a, f.R);
      CongruentReflexive(f.RInverse, f.q);
      CongruentMul(f.R, 0, f.RInverse, f.RInverse, f.q);
      CongruentSymmetric(f.R * f.RInverse, 1, f.q);
      CongruentTransitive(1, f.R * f.RInverse, 0, f.q);
      CongruentResidues(1, 0, f.q);
    }
  }

  lemma TimesUnit(f: Field, x: int)
    requires Valid(f)
    ensures Congruent(x * (f.R * f.RInverse), x, f.q)
  {
    CongruentReflexive(x, f.q);
    CongruentMul(x, x, f.R * f.RInverse, 1, f.q);
  }

  lemma CubeRegrouped(y: int, r: int, s: int)
    ensures y * (r * r * r) * s == y * (r * r) * (r * s)
  {
    assert y * (r * r * r) == y * (r * r) * r;
    assert y * (r * r) * r * s == y * (r * r) * (r * s);
  }

  lemma SquareRegrouped(b: int, r: int, s: int)
    ensures b * s * (r * r) == b * r * (r * s)
  {
    assert b * s * (r * r) == b * (s * (r * r));
    assert s * (r * r) == r * (r * s);
    assert b * (r * (r * s)) == b * r * (r * s);
  }

  /** The inverse of a stored form is the inverse scaled back once. */
  lemma InverseOfStored(f: Field, a: int, b: int, y: nat)
    requires Valid(f) && Congruent(a * b, 1, f.q) && Congruent(ToMontgomery(f, a) * y, 1, f.q)
    ensures Congruent(y, b * f.RInverse, f.q)
  {
    InverseOfUnreduced(f, a, y);
    ProductOfInverses(f.q, a, b, f.R, f.RInverse);
    InversesCongruent(f.q, a * f.R, y, b * f.RInverse);
  }

  lemma InverseOfUnreduced(f: Field, a: int, y: nat)
    requires f.q > 0 && Congruent(ToMontgomery(f, a) * y, 1, f.q)
    ensures Congruent(a * f.R * y, 1, f.q)
  {
    CongruentToRemainder(a * f.R, f.q);
    CongruentReflexive(y, f.q);
    CongruentMul(a * f.R, ToMontgomery(f, a), y, y, f.q);
    CongruentTransitive(a * f.R * y, ToMontgomery(f, a) * y, 1, f.q);
  }

  lemma ProductOfInverses(q: nat, a: int, b: int, r: int, s: int)
    requires q > 0 && Congruent(a * b, 1, q) && Congruent(r * s, 1, q)
    ensures Congruent(a * r * (b * s), 1, q)
  {
    CongruentMul(a * b, 1, r * s, 1, q);
    Interchange(a, b, r, s);
  }

  lemma Interchange(a: int, b: int, r: int, s: int)
    ensures a * r * (b * s) == a * b * (r * s)
  {
    assert a * r * (b * s) == a * (r * (b * s)) == a * (b * (r * s));
  }

  lemma InversesCongruent(q: nat, x: int, y: int, z: int)
    requires q > 0 && Congruent(x * y, 1, q) && Congruent(x * z, 1, q)
    ensures Congruent(y, z, q)
  {
    CongruentReflexive(z, q);
    CongruentReflexive(y, q);
    CongruentMul(x * y, 1, z, z, q);
    CongruentMul(x * z, 1, y, y, q);
    assert x * y * z == x * z * y;
    CongruentSymmetric(x * z * y, y, q);
    CongruentTransitive(y, x * z * y, z, q);
  }

  /** Multiplying by R cubed brings the scaled-back inverse into stored form. */
  lemma CubeRestores(f: Field, y: nat, b: int)
    requires Valid(f) && Congruent(y, b * f.RInverse, f.q)
    ensures MMul(f, y, R3(f)) == ToMontgomery(f, b)
  {
    var q, r, s := f.q, f.R, f.RInverse;
    CongruentReflexive(y, q);
    CongruentReflexive(s, q);
    CongruentReflexive(r * r, q);
    CongruentToRemainder(r * r * r, q);
    CongruentMul(y, y, R3(f), r * r * r, q);
    CongruentMul(y * R3(f), y * (r * r * r), s, s, q);
    CubeRegrouped(y, r, s);
    TimesUnit(f, y * (r * r));
    CongruentTransitive(y * R3(f) * s, y * (r * r) * (r * s), y * (r * r), q);
    CongruentMul(y, b * s, r * r, r * r, q);
    SquareRegrouped(b, r, s);
    TimesUnit(f, b * r);
    CongruentTransitive(y * (r * r), b * r * (r * s), b * r, q);
    CongruentTransitive(y * R3(f) * s, y * (r * r), b * r, q);
    CongruentIffSameRemainder(y * R3(f) * s, b * r, q);
  }

  /** r receives the stored form of the inverse of a nonzero element; r may be the object a is stored in. */
  method Inv(f: Field, r: Element, x: Element, ghost a: int)
    requires Valid(f) && x.v == ToMontgomery(f, a) && !Congruent(a, 0, f.q)
    modifies r
    ensures forall b :: Congruent(a * b, 1, f.q) ==> r.v == ToMontgomery(f, b)
  {
    StoredIsNonzero(f, a);
    var mr := f.invert(x.v);
    forall b | Congruent(a * b, 1, f.q) ensures MMul(f, mr, R3(f)) == ToMontgomery(f, b) {
      InverseOfStored(f, a, b, mr);
      CubeRestores(f, mr, b);
    }
    r.v := MMul(f, mr, R3(f));
  }

  /** r receives the stored form of a / d for a nonzero d; any of the three may be the same object. */
  method Div(f: Field, r: Element, x: Element, y: Element, ghost a: int, ghost d: int)
    requires Valid(f) && x.v == ToMontgomery(f, a) && y.v == ToMontgomery(f, d) && !Congruent(d, 0, f.q)
    modifies r
    ensures forall b :: Congruent(d * b, 1, f.q) ==> r.v == ToMontgomery(f, a * b)
    ensures exists quotient :: r.v == ToMontgomery(f, quotient) && Congruent(quotient * d, a, f.q)
  {
    var tmp := new Element(0);
    Inv(f, tmp, y, d);
    ghost var inverse := InverseExists(f.q, d);
    forall b | Congruent(d * b, 1, f.q) ensures MMul(f, x.v, tmp.v) == ToMontgomery(f, a * b) {
      MMulMultiplies(f, a, b);
    }
    r.v := MMul(f, x.v, tmp.v);
    QuotientTimesDivisor(f.q, a, d, inverse);
    assert r.v == ToMontgomery(f, a * inverse);
  }

  lemma QuotientTimesDivisor(q: nat, a: int, d: int, b: int)
    requires q > 0 && Congruent(d * b, 1, q)
    ensures Congruent(a * b * d, a, q)
  {
    CongruentReflexive(a, q);
    CongruentMul(a, a, d * b, 1, q);
    assert a * (d * b) == a * b * d;
  }
}
