/** What the two verifiers accept: the Groth16 equation, for each shape exactly, and where the shapes part. */
module Groth16Proofs {
  import opened Common
  import opened PrimeField
  import opened Groth16

  // ----- Negation -----

  /** The point with Y reduced, which is what negation really negates. */
  function Canonical(c: Curve, p: G1Point): G1Point
    requires c.q > 0
  {
    if p.Y % c.q == 0 then p else G1Point(p.X, p.Y % c.q)
  }

  function Minus(r: nat, x: nat): nat
    requires x < r
  {
    if x == 0 then 0 else r - x
  }

  lemma DecodedIsCanonical(c: Curve, p: G1Point)
    requires c.q > 0 && p.Y < c.q
    ensures Canonical(c, p) == p
  {
    RemainderUnique(p.Y, 0, p.Y, c.q);
  }

  lemma ZeroDecodes(c: Curve)
    requires Valid(c)
    ensures c.log1(G1Point(0, 0)) == Some(0)
  {
    assert Encodes(c, 0);
  }

  /** The exponent of zero has one encoding only. */
  lemma OnlyZeroIsZero(c: Curve, p: G1Point)
    requires Valid(c) && c.log1(p) == Some(0)
    ensures p == G1Point(0, 0)
  {
    assert DecodesCanonically(c, p);
  }

  lemma NegateReduced(c: Curve, x: nat, y: nat)
    requires Valid(c) && 0 < y < c.q
    ensures c.log1(G1Point(x, c.q - y)).Some? <==> c.log1(G1Point(x, y)).Some?
    ensures c.log1(G1Point(x, y)).Some? ==>
              var e := c.log1(G1Point(x, y)).value; e < c.r && c.log1(G1Point(x, c.q - y)) == Some(Minus(c.r, e))
  {
    var up, down := G1Point(x, y), G1Point(x, c.q - y);
    assert DecodesCanonically(c, up) && NegationFlips(c, up) && NegationFlips(c, down);
    if c.log1(up) == Some(0) { OnlyZeroIsZero(c, up); }
    if c.log1(down) == Some(0) { OnlyZeroIsZero(c, down); }
  }

  lemma NegateNegatesCanonical(c: Curve, p: G1Point)
    requires Valid(c)
    ensures c.log1(Negate(c, p)).Some? <==> c.log1(Canonical(c, p)).Some?
    ensures c.log1(Canonical(c, p)).Some? ==>
              var e := c.log1(Canonical(c, p)).value; e < c.r && c.log1(Negate(c, p)) == Some(Minus(c.r, e))
  {
    ZeroDecodes(c);
    var y := p.Y % c.q;
    if y > 0 {
      NegateReduced(c, p.X, y);
    } else if p != G1Point(0, 0) {
      assert DecodesCanonically(c, G1Point(p.X, c.q)) && DecodesCanonically(c, p) && NegationFlips(c, p);
      if p.Y < c.q { RemainderUnique(p.Y, 0, p.Y, c.q); }
      if c.log1(p) == Some(0) { OnlyZeroIsZero(c, p); }
    } else {
      RemainderUnique(0, 0, 0, c.q);
    }
  }

  // ----- The linear combination -----

  ghost predicate AllPoints(c: Curve, points: seq<G1Point>) {
    forall i :: 0 <= i < |points| ==> c.log1(points[i]).Some?
  }

  /** The exponent of gamma_abc[0] + sum of input_i * gamma_abc[i + 1]. */
  ghost function PublicExponent(c: Curve, gammaAbc: seq<G1Point>, input: seq<nat>, i: nat): nat
    requires |gammaAbc| == |input| + 1 && AllPoints(c, gammaAbc) && i <= |input|
    decreases |input| - i
  {
    if i == |input| then c.log1(gammaAbc[0]).value
    else c.log1(gammaAbc[i + 1]).value * input[i] + PublicExponent(c, gammaAbc, input, i + 1)
  }

  predicate InputsInField(c: Curve, input: seq<nat>, from: nat) {
    forall i :: from <= i < |input| ==> input[i] < c.r
  }

  lemma ReducedSum(x: nat, y: nat, r: nat)
    requires r > 0
    ensures (x % r + y) % r == (x + y) % r && (x % r + y % r) % r == (x + y) % r
  {
    CongruentToRemainder(x, r);
    CongruentToRemainder(y, r);
    CongruentReflexive(y, r);
    CongruentAdd(x, x % r, y, y, r);
    CongruentAdd(x, x % r, y, y % r, r);
    CongruentIffSameRemainder(x + y, x % r + y, r);
    CongruentIffSameRemainder(x + y, x % r + y % r, r);
  }

  lemma AddToPoint(c: Curve, x: nat, b: G1Point)
    requires Valid(c) && c.log1(b).Some?
    ensures EcAdd(c, c.point1(x % c.r), b) == Some(c.point1((x + c.log1(b).value) % c.r))
  {
    assert Encodes(c, x % c.r);
    ReducedSum(x, c.log1(b).value, c.r);
  }

  lemma AddMultiple(c: Curve, x: nat, b: G1Point, s: nat)
    requires Valid(c) && c.log1(b).Some?
    ensures EcMul(c, b, s).Some?
    ensures EcAdd(c, c.point1(x % c.r), EcMul(c, b, s).value) == Some(c.point1((x + c.log1(b).value * s) % c.r))
  {
    var y := c.log1(b).value * s;
    assert Encodes(c, x % c.r) && Encodes(c, y % c.r);
    ReducedSum(x, y, c.r);
  }

  lemma {:induction false} CombineIsPublicExponent(c: Curve, gammaAbc: seq<G1Point>, input: seq<nat>, i: nat, x: nat)
    requires Valid(c) && |gammaAbc| == |input| + 1 && AllPoints(c, gammaAbc) && i <= |input|
    ensures var result := Combine(c, gammaAbc, input, i, c.point1(x % c.r));
            && (result.Some? <==> InputsInField(c, input, i))
            && (result.Some? ==> result.value == c.point1((x + PublicExponent(c, gammaAbc, input, i)) % c.r))
    decreases |input| - i
  {
    if i == |input| {
      AddToPoint(c, x, gammaAbc[0]);
    } else if input[i] < c.r {
      AddMultiple(c, x, gammaAbc[i + 1], input[i]);
      CombineIsPublicExponent(c, gammaAbc, input, i + 1, x + c.log1(gammaAbc[i + 1]).value * input[i]);
    }
  }

  lemma WholeCombination(c: Curve, gammaAbc: seq<G1Point>, input: seq<nat>)
    requires Valid(c) && |gammaAbc| == |input| + 1 && AllPoints(c, gammaAbc)
    ensures var result := Combine(c, gammaAbc, input, 0, G1Point(0, 0));
            && (result.Some? <==> InputsInField(c, input, 0))
            && (result.Some? ==>
                  var e := PublicExponent(c, gammaAbc, input, 0) % c.r;
                  && result.value == c.point1(e) && c.log1(result.value) == Some(e)
                  && Canonical(c, result.value) == result.value)
  {
    RemainderUnique(0, 0, 0, c.r);
    CombineIsPublicExponent(c, gammaAbc, input, 0, 0);
    var e := PublicExponent(c, gammaAbc, input, 0) % c.r;
    assert Encodes(c, e) && DecodesCanonically(c, c.point1(e));
    DecodedIsCanonical(c, c.point1(e));
  }

  // ----- The pairing product -----

  function Log2(c: Curve, shape: Shape, p: G2Point): Option<nat> {
    var w := Words(shape, p);
    c.log2(w.0, w.1, w.2, w.3)
  }

  function PairTerm(c: Curve, shape: Shape, p: G1Point, q: G2Point): Option<nat> {
    Term(c.log1(p), Log2(c, shape, q))
  }

  /** The sum of the first n pairs' terms. */
  function PairSum(c: Curve, shape: Shape, p: seq<G1Point>, q: seq<G2Point>, n: nat): Option<nat>
    requires |p| == |q| && n <= |p|
  {
    if n == 0 then Some(0) else Plus(PairSum(c, shape, p, q, n - 1), PairTerm(c, shape, p[n - 1], q[n - 1]))
  }

  lemma {:induction false} PairingIsSum(c: Curve, shape: Shape, p: seq<G1Point>, q: seq<G2Point>, n: nat)
    requires |p| == |q| && n <= |p|
    ensures PairingExponent(c, Flatten(shape, p[..n], q[..n])) == PairSum(c, shape, p, q, n)
  {
    if n > 0 {
      PairingIsSum(c, shape, p, q, n - 1);
      FlattenStep(shape, p, q, n - 1);
      var buffer := Flatten(shape, p[..n], q[..n]);
      assert buffer[..|buffer| - 6] == Flatten(shape, p[..n - 1], q[..n - 1]);
    }
  }

  /** The pairing check on four pairs: all eight must be points, and then the exponents decide. */
  lemma PairingOfFour(c: Curve, shape: Shape, p: seq<G1Point>, q: seq<G2Point>)
    requires c.r > 0 && |p| == |q| == 4
    ensures EcPairing(c, Flatten(shape, p, q)) ==
              match (PairTerm(c, shape, p[0], q[0]), PairTerm(c, shape, p[1], q[1]),
                     PairTerm(c, shape, p[2], q[2]), PairTerm(c, shape, p[3], q[3]))
              case (Some(w), Some(x), Some(y), Some(z)) => Some((w + x + y + z) % c.r == 0)
              case _ => None
  {
    PairingOfAll(c, shape, p, q);
    SumOfFour(c, shape, p, q);
  }

  lemma PairingOfAll(c: Curve, shape: Shape, p: seq<G1Point>, q: seq<G2Point>)
    requires |p| == |q|
    ensures PairingExponent(c, Flatten(shape, p, q)) == PairSum(c, shape, p, q, |p|)
  {
    PairingIsSum(c, shape, p, q, |p|);
    assert p[..|p|] == p && q[..|p|] == q;
  }

  lemma SumOfFour(c: Curve, shape: Shape, p: seq<G1Point>, q: seq<G2Point>)
    requires |p| == |q| == 4
    ensures PairSum(c, shape, p, q, 4) ==
              match (PairTerm(c, shape, p[0], q[0]), PairTerm(c, shape, p[1], q[1]),
                     PairTerm(c, shape, p[2], q[2]), PairTerm(c, shape, p[3], q[3]))
              case (Some(w), Some(x), Some(y), Some(z)) => Some(w + x + y + z)
              case _ => None
  {
    assert PairSum(c, shape, p, q, 1) == Plus(Some(0), PairTerm(c, shape, p[0], q[0]));
    assert PairSum(c, shape, p, q, 2) == Plus(PairSum(c, shape, p, q, 1), PairTerm(c, shape, p[1], q[1]));
    assert PairSum(c, shape, p, q, 3) == Plus(PairSum(c, shape, p, q, 2), PairTerm(c, shape, p[2], q[2]));
  }

  /** Swapping the two words of each coordinate turns one library's G2 convention into the other's. */
  function Swap(p: G2Point): G2Point { G2Point((p.X.1, p.X.0), (p.Y.1, p.Y.0)) }

  function SwapAll(points: seq<G2Point>): (swapped: seq<G2Point>)
    ensures |swapped| == |points| && forall i :: 0 <= i < |points| ==> swapped[i] == Swap(points[i])
  {
    seq(|points|, i requires 0 <= i < |points| => Swap(points[i]))
  }

  /** The two libraries hand the precompile the same buffer, word for word. */
  lemma {:induction false} SameBuffer(p1: seq<G1Point>, p2: seq<G2Point>)
    requires |p1| == |p2|
    ensures Flatten(ZoKrates, p1, p2) == Flatten(Snarkjs, p1, SwapAll(p2))
  {
    if p1 != [] {
      var n := |p1| - 1;
      SameBuffer(p1[..n], p2[..n]);
      assert SwapAll(p2)[..n] == SwapAll(p2[..n]);
    }
  }

  /** Each pair's group stands in its place. */
  lemma {:induction false} GroupAt(shape: Shape, p1: seq<G1Point>, p2: seq<G2Point>, i: nat)
    requires i < |p1| == |p2|
    ensures Flatten(shape, p1, p2)[6 * i..6 * i + 6] == Group(shape, p1[i], p2[i])
  {
    var n := |p1| - 1;
    if i < n {
      GroupAt(shape, p1[..n], p2[..n], i);
      SliceOfPrefix(Flatten(shape, p1[..n], p2[..n]), Group(shape, p1[n], p2[n]), 6 * i, 6 * i + 6);
    }
  }

  /** Each pair's six words in the buffer, as each library lays them out. */
  lemma BufferExactly(p1: seq<G1Point>, p2: seq<G2Point>, i: nat)
    requires i < |p1| == |p2|
    ensures Flatten(ZoKrates, p1, p2)[6 * i..6 * i + 6]
         == [p1[i].X, p1[i].Y, p2[i].X.1, p2[i].X.0, p2[i].Y.1, p2[i].Y.0]
    ensures Flatten(Snarkjs, p1, p2)[6 * i..6 * i + 6]
         == [p1[i].X, p1[i].Y, p2[i].X.0, p2[i].X.1, p2[i].Y.0, p2[i].Y.1]
  {
    GroupAt(ZoKrates, p1, p2, i);
    GroupAt(Snarkjs, p1, p2, i);
  }

  lemma SliceOfPrefix(a: seq<nat>, b: seq<nat>, from: nat, to: nat)
    requires from <= to <= |a|
    ensures (a + b)[from..to] == a[from..to]
  {
  }

  // ----- The equation -----

  ghost predicate ValidKey(c: Curve, shape: Shape, vk: VerifyingKey) {
    && c.log1(vk.alpha).Some? && AllPoints(c, vk.gammaAbc)
    && Log2(c, shape, vk.beta).Some? && Log2(c, shape, vk.gamma).Some? && Log2(c, shape, vk.delta).Some?
  }

  predicate ProofDecodes(c: Curve, shape: Shape, proof: Proof) {
    c.log1(proof.a).Some? && Log2(c, shape, proof.b).Some? && c.log1(proof.c).Some?
  }

  /** e(A, B) = e(alpha, beta) e(vk_x, gamma) e(C, delta), in exponents. */
  ghost predicate Equation(c: Curve, shape: Shape, vk: VerifyingKey, input: seq<nat>, proof: Proof)
    requires c.r > 0 && ValidKey(c, shape, vk) && ProofDecodes(c, shape, proof) && |input| + 1 == |vk.gammaAbc|
  {
    Congruent(
      c.log1(proof.a).value * Log2(c, shape, proof.b).value,
      c.log1(vk.alpha).value * Log2(c, shape, vk.beta).value
      + PublicExponent(c, vk.gammaAbc, input, 0) * Log2(c, shape, vk.gamma).value
      + c.log1(proof.c).value * Log2(c, shape, vk.delta).value,
      c.r)
  }

  /** The right number of inputs, all in the scalar field; a proof made of points; and the equation. */
  ghost predicate Groth16Holds(c: Curve, shape: Shape, vk: VerifyingKey, input: seq<nat>, proof: Proof)
    requires c.r > 0 && ValidKey(c, shape, vk)
  {
    && |input| + 1 == |vk.gammaAbc| && InputsInField(c, input, 0)
    && ProofDecodes(c, shape, proof) && Equation(c, shape, vk, input, proof)
  }

  lemma MinusTimes(r: nat, x: nat, y: nat)
    requires x < r
    ensures Congruent(Minus(r, x) * y, -(x * y), r)
  {
    if x == 0 {
      CongruentReflexive(0, r);
    } else {
      assert (r - x) * y == -(x * y) + y * r;
      CongruentIntro((r - x) * y, -(x * y), y, r);
    }
  }

  lemma ReducedTimes(r: nat, x: nat, y: nat)
    requires r > 0
    ensures Congruent(x % r * y, x * y, r)
  {
    CongruentToRemainder(x, r);
    CongruentReflexive(y, r);
    CongruentMul(x % r, x, y, y, r);
  }

  lemma MinusReducedTimes(r: nat, x: nat, y: nat)
    requires r > 0
    ensures Congruent(Minus(r, x % r) * y, -(x * y), r)
  {
    MinusTimes(r, x % r, y);
    ReducedTimes(r, x, y);
    CongruentNegate(x % r * y, x * y, r);
    CongruentTransitive(Minus(r, x % r) * y, -(x % r * y), -(x * y), r);
  }

  /** Four terms, each congruent to what it stands for, sum to zero exactly when the two sides balance. */
  lemma Balance(r: nat, t: (int, int, int, int), u: (int, int, int, int), left: int, right: int)
    requires r > 0
    requires Congruent(t.0, u.0, r) && Congruent(t.1, u.1, r) && Congruent(t.2, u.2, r) && Congruent(t.3, u.3, r)
    requires u.0 + u.1 + u.2 + u.3 == left - right
    ensures (t.0 + t.1 + t.2 + t.3) % r == 0 <==> Congruent(left, right, r)
  {
    CongruentAdd(t.0, u.0, t.1, u.1, r);
    CongruentAdd(t.0 + t.1, u.0 + u.1, t.2, u.2, r);
    CongruentAdd(t.0 + t.1 + t.2, u.0 + u.1 + u.2, t.3, u.3, r);
    CongruentIffSameRemainder(t.0 + t.1 + t.2 + t.3, left - right, r);
  }

  lemma ZoKratesBalance(r: nat, a: nat, b: nat, v: nat, gamma: nat, cc: nat, delta: nat, alpha: nat, beta: nat)
    requires cc < r && alpha < r
    ensures (a * b + Minus(r, v % r) * gamma + Minus(r, cc) * delta + Minus(r, alpha) * beta) % r == 0
       <==> Congruent(a * b, alpha * beta + v * gamma + cc * delta, r)
  {
    CongruentReflexive(a * b, r);
    MinusReducedTimes(r, v, gamma);
    MinusTimes(r, cc, delta);
    MinusTimes(r, alpha, beta);
    Balance(r, (a * b, Minus(r, v % r) * gamma, Minus(r, cc) * delta, Minus(r, alpha) * beta),
            (a * b, -(v * gamma), -(cc * delta), -(alpha * beta)),
            a * b, alpha * beta + v * gamma + cc * delta);
  }

  lemma SnarkjsBalance(r: nat, a: nat, b: nat, v: nat, gamma: nat, cc: nat, delta: nat, alpha: nat, beta: nat)
    requires a < r
    ensures (Minus(r, a) * b + alpha * beta + v % r * gamma + cc * delta) % r == 0
       <==> Congruent(a * b, alpha * beta + v * gamma + cc * delta, r)
  {
    MinusTimes(r, a, b);
    CongruentReflexive(alpha * beta, r);
    ReducedTimes(r, v, gamma);
    CongruentReflexive(cc * delta, r);
    Balance(r, (Minus(r, a) * b, alpha * beta, v % r * gamma, cc * delta),
            (-(a * b), alpha * beta, v * gamma, cc * delta),
            alpha * beta + v * gamma + cc * delta, a * b);
    CongruentFlip(a * b, alpha * beta + v * gamma + cc * delta, r);
  }

  // ----- Each verifier, exactly -----

  lemma ZoKratesProduct(c: Curve, vk: VerifyingKey, input: seq<nat>, proof: Proof, vkX: G1Point)
    requires Valid(c) && ValidKey(c, ZoKrates, vk) && |input| + 1 == |vk.gammaAbc|
    requires Combine(c, vk.gammaAbc, input, 0, G1Point(0, 0)) == Some(vkX)
    ensures var pairs := Pairs(c, ZoKrates, vk, proof, vkX);
            var reduced := proof.(c := Canonical(c, proof.c));
            EcPairing(c, Flatten(ZoKrates, pairs.0, pairs.1)) ==
              if ProofDecodes(c, ZoKrates, reduced) then Some(Equation(c, ZoKrates, vk, input, reduced)) else None
  {
    var pairs := Pairs(c, ZoKrates, vk, proof, vkX);
    var reduced := proof.(c := Canonical(c, proof.c));
    WholeCombination(c, vk.gammaAbc, input);
    NegateNegatesCanonical(c, vkX);
    NegateNegatesCanonical(c, proof.c);
    assert DecodesCanonically(c, vk.alpha);
    DecodedIsCanonical(c, vk.alpha);
    NegateNegatesCanonical(c, vk.alpha);
    PairingOfFour(c, ZoKrates, pairs.0, pairs.1);
    if ProofDecodes(c, ZoKrates, reduced) {
      ZoKratesBalance(c.r, c.log1(proof.a).value, Log2(c, ZoKrates, proof.b).value,
                      PublicExponent(c, vk.gammaAbc, input, 0), Log2(c, ZoKrates, vk.gamma).value,
                      c.log1(reduced.c).value, Log2(c, ZoKrates, vk.delta).value,
                      c.log1(vk.alpha).value, Log2(c, ZoKrates, vk.beta).value);
    }
  }

  lemma SnarkjsProduct(c: Curve, vk: VerifyingKey, input: seq<nat>, proof: Proof, vkX: G1Point)
    requires Valid(c) && ValidKey(c, Snarkjs, vk) && |input| + 1 == |vk.gammaAbc|
    requires Combine(c, vk.gammaAbc, input, 0, G1Point(0, 0)) == Some(vkX)
    ensures var pairs := Pairs(c, Snarkjs, vk, proof, vkX);
            var reduced := proof.(a := Canonical(c, proof.a));
            EcPairing(c, Flatten(Snarkjs, pairs.0, pairs.1)) ==
              if ProofDecodes(c, Snarkjs, reduced) then Some(Equation(c, Snarkjs, vk, input, reduced)) else None
  {
    var pairs := Pairs(c, Snarkjs, vk, proof, vkX);
    var reduced := proof.(a := Canonical(c, proof.a));
    WholeCombination(c, vk.gammaAbc, input);
    NegateNegatesCanonical(c, proof.a);
    PairingOfFour(c, Snarkjs, pairs.0, pairs.1);
    if ProofDecodes(c, Snarkjs, reduced) {
      SnarkjsBalance(c.r, c.log1(reduced.a).value, Log2(c, Snarkjs, proof.b).value,
                     PublicExponent(c, vk.gammaAbc, input, 0), Log2(c, Snarkjs, vk.gamma).value,
                     c.log1(proof.c).value, Log2(c, Snarkjs, vk.delta).value,
                     c.log1(vk.alpha).value, Log2(c, Snarkjs, vk.beta).value);
    }
  }

  /** The ZoKrates verifier accepts exactly the proofs of the equation whose A is as given and whose C has Y reduced. */
  lemma ZoKratesAcceptsExactly(c: Curve, vk: VerifyingKey, input: seq<nat>, proof: Proof)
    requires Valid(c) && ValidKey(c, ZoKrates, vk)
    ensures VerdictOf(c, ZoKrates, vk, input, proof) == Accepted
       <==> Groth16Holds(c, ZoKrates, vk, input, proof.(c := Canonical(c, proof.c)))
  {
    if |input| + 1 == |vk.gammaAbc| {
      WholeCombination(c, vk.gammaAbc, input);
      var combined := Combine(c, vk.gammaAbc, input, 0, G1Point(0, 0));
      if combined.Some? {
        ZoKratesProduct(c, vk, input, proof, combined.value);
      }
    }
  }

  /** The snarkjs verifier accepts exactly the proofs of the equation whose C is as given and whose A has Y reduced. */
  lemma SnarkjsAcceptsExactly(c: Curve, vk: VerifyingKey, input: seq<nat>, proof: Proof)
    requires Valid(c) && ValidKey(c, Snarkjs, vk)
    ensures VerdictOf(c, Snarkjs, vk, input, proof) == Accepted
       <==> Groth16Holds(c, Snarkjs, vk, input, proof.(a := Canonical(c, proof.a)))
  {
    if |input| + 1 == |vk.gammaAbc| {
      WholeCombination(c, vk.gammaAbc, input);
      var combined := Combine(c, vk.gammaAbc, input, 0, G1Point(0, 0));
      if combined.Some? {
        SnarkjsProduct(c, vk, input, proof, combined.value);
      }
    }
  }

  // ----- The two shapes -----

  /** Some public input is not below the scalar field. */
  predicate InputTooLarge(c: Curve, input: seq<nat>) {
    exists i :: 0 <= i < |input| && input[i] >= c.r
  }

  /** The other two verdicts of the ZoKrates shape: what makes it revert, and what it rejects. */
  lemma ZoKratesVerdictExactly(c: Curve, vk: VerifyingKey, input: seq<nat>, proof: Proof)
    requires Valid(c) && ValidKey(c, ZoKrates, vk)
    ensures var verdict, reduced := VerdictOf(c, ZoKrates, vk, input, proof), proof.(c := Canonical(c, proof.c));
            && (verdict == Reverted <==>
                  |input| + 1 != |vk.gammaAbc| || InputTooLarge(c, input) || !ProofDecodes(c, ZoKrates, reduced))
            && (verdict == Rejected <==>
                  && |input| + 1 == |vk.gammaAbc| && !InputTooLarge(c, input) && ProofDecodes(c, ZoKrates, reduced)
                  && !Equation(c, ZoKrates, vk, input, reduced))
  {
    if |input| + 1 == |vk.gammaAbc| {
      WholeCombination(c, vk.gammaAbc, input);
      assert InputsInField(c, input, 0) <==> !InputTooLarge(c, input);
      var vkX := Combine(c, vk.gammaAbc, input, 0, G1Point(0, 0));
      if vkX.Some? { ZoKratesProduct(c, vk, input, proof, vkX.value); }
    }
  }

  /** The same for the snarkjs shape. */
  lemma SnarkjsVerdictExactly(c: Curve, vk: VerifyingKey, input: seq<nat>, proof: Proof)
    requires Valid(c) && ValidKey(c, Snarkjs, vk)
    ensures var verdict, reduced := VerdictOf(c, Snarkjs, vk, input, proof), proof.(a := Canonical(c, proof.a));
            && (verdict == Reverted <==>
                  |input| + 1 != |vk.gammaAbc| || InputTooLarge(c, input) || !ProofDecodes(c, Snarkjs, reduced))
            && (verdict == Rejected <==>
                  && |input| + 1 == |vk.gammaAbc| && !InputTooLarge(c, input) && ProofDecodes(c, Snarkjs, reduced)
                  && !Equation(c, Snarkjs, vk, input, reduced))
  {
    if |input| + 1 == |vk.gammaAbc| {
      WholeCombination(c, vk.gammaAbc, input);
      assert InputsInField(c, input, 0) <==> !InputTooLarge(c, input);
      var vkX := Combine(c, vk.gammaAbc, input, 0, G1Point(0, 0));
      if vkX.Some? { SnarkjsProduct(c, vk, input, proof, vkX.value); }
    }
  }

  function SwapKey(vk: VerifyingKey): VerifyingKey {
    vk.(beta := Swap(vk.beta), gamma := Swap(vk.gamma), delta := Swap(vk.delta))
  }

  function SwapProof(proof: Proof): Proof { proof.(b := Swap(proof.b)) }

  function Reduced(c: Curve, proof: Proof): Proof
    requires c.q > 0
  {
    proof.(a := Canonical(c, proof.a), c := Canonical(c, proof.c))
  }

  lemma SwappedHolds(c: Curve, vk: VerifyingKey, input: seq<nat>, proof: Proof)
    requires c.r > 0 && ValidKey(c, ZoKrates, vk)
    ensures ValidKey(c, Snarkjs, SwapKey(vk))
    ensures Groth16Holds(c, ZoKrates, vk, input, proof) <==> Groth16Holds(c, Snarkjs, SwapKey(vk), input, SwapProof(proof))
  {
    assert Log2(c, ZoKrates, vk.beta) == Log2(c, Snarkjs, Swap(vk.beta));
    assert Log2(c, ZoKrates, vk.gamma) == Log2(c, Snarkjs, Swap(vk.gamma));
    assert Log2(c, ZoKrates, vk.delta) == Log2(c, Snarkjs, Swap(vk.delta));
    assert Log2(c, ZoKrates, proof.b) == Log2(c, Snarkjs, Swap(proof.b));
  }

  /** Asking for a point as given is asking for its reduced form, and for Y to be below the prime. */
  lemma HoldsThroughReduction(c: Curve, shape: Shape, vk: VerifyingKey, input: seq<nat>, proof: Proof)
    requires Valid(c) && ValidKey(c, shape, vk)
    ensures Groth16Holds(c, shape, vk, input, proof.(c := Canonical(c, proof.c)))
       <==> proof.a.Y < c.q && Groth16Holds(c, shape, vk, input, Reduced(c, proof))
    ensures Groth16Holds(c, shape, vk, input, proof.(a := Canonical(c, proof.a)))
       <==> proof.c.Y < c.q && Groth16Holds(c, shape, vk, input, Reduced(c, proof))
  {
    assert DecodesCanonically(c, proof.a) && DecodesCanonically(c, proof.c);
    if proof.a.Y < c.q { DecodedIsCanonical(c, proof.a); }
    if proof.c.Y < c.q { DecodedIsCanonical(c, proof.c); }
    assert proof.a.Y < c.q ==> proof.(c := Canonical(c, proof.c)) == Reduced(c, proof);
    assert proof.c.Y < c.q ==> proof.(a := Canonical(c, proof.a)) == Reduced(c, proof);
  }

  /**
   * The two shapes accept the same proof exactly when A and C are alike in having Y below the field prime,
   * or the proof fails the equation even with both Y reduced.
   */
  lemma ShapesAgreeExactly(c: Curve, vk: VerifyingKey, input: seq<nat>, proof: Proof)
    requires Valid(c) && ValidKey(c, ZoKrates, vk)
    ensures (VerdictOf(c, ZoKrates, vk, input, proof) == Accepted
             <==> VerdictOf(c, Snarkjs, SwapKey(vk), input, SwapProof(proof)) == Accepted)
       <==> ((proof.a.Y < c.q <==> proof.c.Y < c.q) || !Groth16Holds(c, ZoKrates, vk, input, Reduced(c, proof)))
  {
    ZoKratesAcceptsExactly(c, vk, input, proof);
    SwappedHolds(c, vk, input, proof.(a := Canonical(c, proof.a)));
    SnarkjsAcceptsExactly(c, SwapKey(vk), input, SwapProof(proof));
    HoldsThroughReduction(c, ZoKrates, vk, input, proof);
  }

  /** On proofs with coordinates below the prime, both verdicts are the equation itself. */
  lemma CanonicalProofsAreTheEquation(c: Curve, vk: VerifyingKey, input: seq<nat>, proof: Proof)
    requires Valid(c) && ValidKey(c, ZoKrates, vk) && proof.a.Y < c.q && proof.c.Y < c.q
    ensures VerdictOf(c, ZoKrates, vk, input, proof) == Accepted <==> Groth16Holds(c, ZoKrates, vk, input, proof)
    ensures VerdictOf(c, Snarkjs, SwapKey(vk), input, SwapProof(proof)) == Accepted
       <==> Groth16Holds(c, ZoKrates, vk, input, proof)
  {
    ZoKratesAcceptsExactly(c, vk, input, proof);
    ShapesAgreeExactly(c, vk, input, proof);
    DecodedIsCanonical(c, proof.a);
    DecodedIsCanonical(c, proof.c);
  }

  /**
   * Where they part: adding the field prime to A's Y, which on BN254 still fits a word,
   * leaves the snarkjs verdict alone and undoes the ZoKrates one.
   */
  lemma ShapesPartOnUnreducedA(c: Curve, vk: VerifyingKey, input: seq<nat>, proof: Proof)
    requires Valid(c) && ValidKey(c, ZoKrates, vk) && Groth16Holds(c, ZoKrates, vk, input, proof) && proof.a.Y > 0
    ensures var shifted := proof.(a := G1Point(proof.a.X, proof.a.Y + c.q));
            && VerdictOf(c, Snarkjs, SwapKey(vk), input, SwapProof(shifted)) == Accepted
            && VerdictOf(c, ZoKrates, vk, input, shifted) != Accepted
            && (c.q == BN254_Q ==> shifted.a.Y < 2 * BN254_Q < WORD_LIMIT)
  {
    var shifted := proof.(a := G1Point(proof.a.X, proof.a.Y + c.q));
    assert DecodesCanonically(c, proof.a) && DecodesCanonically(c, proof.c);
    RemainderUnique(proof.a.Y + c.q, 1, proof.a.Y, c.q);
    DecodedIsCanonical(c, proof.c);
    assert Reduced(c, shifted) == proof;
    HoldsThroughReduction(c, ZoKrates, vk, input, shifted);
    ZoKratesAcceptsExactly(c, vk, input, shifted);
    ShapesAgreeExactly(c, vk, input, shifted);
  }

  // ----- A curve small enough to write out -----

  /** Three points over the field of five elements; a G2 point is read off its first word. */
  function SmallCurve(): Curve {
    Curve(5, 3,
      (p: G1Point) =>
        if p == G1Point(0, 0) then Some(0) else if p == G1Point(1, 1) then Some(1)
        else if p == G1Point(1, 4) then Some(2) else None,
      (e: nat) => if e == 1 then G1Point(1, 1) else if e == 2 then G1Point(1, 4) else G1Point(0, 0),
      (x0: nat, x1: nat, y0: nat, y1: nat) => Some(x0 % 3))
  }

  /** One input on which the verdicts differ: Y of A is 4 + 5. */
  lemma ShapesPartOnSmallCurve()
    ensures var c, g2 := SmallCurve(), G2Point((1, 1), (1, 1));
            var vk := VerifyingKey(G1Point(1, 1), g2, g2, g2, [G1Point(1, 1)]);
            var proof := Proof(G1Point(1, 9), g2, G1Point(0, 0));
            && Valid(c) && ValidKey(c, ZoKrates, vk)
            && VerdictOf(c, Snarkjs, SwapKey(vk), [], SwapProof(proof)) == Accepted
            && VerdictOf(c, ZoKrates, vk, [], proof) != Accepted
  {
    var c, g2 := SmallCurve(), G2Point((1, 1), (1, 1));
    var vk := VerifyingKey(G1Point(1, 1), g2, g2, g2, [G1Point(1, 1)]);
    ShapesPartOnUnreducedA(c, vk, [], Proof(G1Point(1, 4), g2, G1Point(0, 0)));
  }
}
