/**
 * The two generated Groth16 verifiers.  They differ in which points they negate and in the word order of G2
 * coordinates.  A point is a pair of words; the curve says which words are points, and of which exponent.
 */
module Groth16 {
  import opened Common

  /** The prime of the base field that both contracts carry. */
  const BN254_Q: nat := 21888242871839275222246405745257275088696311157297823662689037894645226208583

  const WORD_LIMIT: nat := 0x1_0000000000000000_0000000000000000_0000000000000000_0000000000000000

  datatype G1Point = G1Point(X: nat, Y: nat)
  datatype G2Point = G2Point(X: (nat, nat), Y: (nat, nat))

  /**
   * A pairing-friendly curve seen through discrete logarithms: the exponent of a pair of words, if it encodes
   * a point at all, the point of an exponent, and the same for the four words of a G2 point.
   */
  datatype Curve = Curve(
    q: nat,
    r: nat,
    log1: G1Point -> Option<nat>,
    point1: nat -> G1Point,
    log2: (nat, nat, nat, nat) -> Option<nat>)

  /** Only canonical coordinates encode a point, and each point has one encoding. */
  predicate DecodesCanonically(c: Curve, P: G1Point) {
    c.log1(P).Some? ==>
      P.X < c.q && P.Y < c.q && c.log1(P).value < c.r && c.point1(c.log1(P).value) == P
  }

  predicate Encodes(c: Curve, e: nat) {
    e < c.r ==> c.log1(c.point1(e)) == Some(e)
  }

  /** Negating a point other than zero flips its Y. */
  predicate NegationFlips(c: Curve, P: G1Point) {
    c.log1(P).Some? && c.log1(P).value != 0 && P.Y <= c.q ==>
      P.Y != 0 && c.log1(G1Point(P.X, c.q - P.Y)) == Some(c.r - c.log1(P).value)
  }

  ghost predicate Valid(c: Curve) {
    && c.q > 0 && c.r > 0
    && (forall P :: DecodesCanonically(c, P))
    && (forall e: nat :: Encodes(c, e))
    && (forall P :: NegationFlips(c, P))
    && c.point1(0) == G1Point(0, 0)
  }

  // ----- The precompiles (EIP-196 and EIP-197) -----

  function EcAdd(c: Curve, a: G1Point, b: G1Point): Option<G1Point>
    requires c.r > 0
  {
    match (c.log1(a), c.log1(b))
    case (Some(x), Some(y)) => Some(c.point1((x + y) % c.r))
    case (_, _) => None
  }

  function EcMul(c: Curve, a: G1Point, s: nat): Option<G1Point>
    requires c.r > 0
  {
    match c.log1(a)
    case Some(x) => Some(c.point1(x * s % c.r))
    case None => None
  }

  /** One factor of a product of pairings, as an exponent. */
  function Term(e1: Option<nat>, e2: Option<nat>): Option<nat> {
    match (e1, e2)
    case (Some(x), Some(y)) => Some(x * y)
    case (_, _) => None
  }

  function Plus(a: Option<nat>, b: Option<nat>): Option<nat> {
    match (a, b)
    case (Some(x), Some(y)) => Some(x + y)
    case (_, _) => None
  }

  /** The exponent of the product of pairings over a buffer of six-word groups; None when some group is no pair of points. */
  function PairingExponent(c: Curve, input: seq<nat>): Option<nat>
    requires |input| % 6 == 0
    decreases |input|
  {
    if input == [] then Some(0)
    else
      var n := |input| - 6;
      Plus(PairingExponent(c, input[..n]),
           Term(c.log1(G1Point(input[n], input[n + 1])),
                c.log2(input[n + 2], input[n + 3], input[n + 4], input[n + 5])))
  }

  function EcPairing(c: Curve, input: seq<nat>): Option<bool>
    requires |input| % 6 == 0 && c.r > 0
  {
    match PairingExponent(c, input)
    case Some(e) => Some(e % c.r == 0)
    case None => None
  }

  // ----- The library -----

  datatype Shape = ZoKrates | Snarkjs

  /** The order in which each library puts the words of a G2 point into the buffer. */
  function Words(shape: Shape, p: G2Point): (nat, nat, nat, nat) {
    match shape
    case ZoKrates => (p.X.1, p.X.0, p.Y.1, p.Y.0)
    case Snarkjs => (p.X.0, p.X.1, p.Y.0, p.Y.1)
  }

  function Negate(c: Curve, p: G1Point): G1Point
    requires c.q > 0
  {
    if p.X == 0 && p.Y == 0 then G1Point(0, 0) else G1Point(p.X, c.q - p.Y % c.q)
  }

  function Group(shape: Shape, p1: G1Point, p2: G2Point): seq<nat> {
    var w := Words(shape, p2);
    [p1.X, p1.Y, w.0, w.1, w.2, w.3]
  }

  function Flatten(shape: Shape, p1: seq<G1Point>, p2: seq<G2Point>): (buffer: seq<nat>)
    requires |p1| == |p2|
    ensures |buffer| == 6 * |p1|
  {
    if p1 == [] then []
    else Flatten(shape, p1[..|p1| - 1], p2[..|p2| - 1]) + Group(shape, p1[|p1| - 1], p2[|p2| - 1])
  }

  lemma FlattenStep(shape: Shape, p1: seq<G1Point>, p2: seq<G2Point>, i: nat)
    requires |p1| == |p2| && i < |p1|
    ensures Flatten(shape, p1[..i + 1], p2[..i + 1]) == Flatten(shape, p1[..i], p2[..i]) + Group(shape, p1[i], p2[i])
  {
    assert p1[..i + 1][..i] == p1[..i] && p2[..i + 1][..i] == p2[..i];
  }

  /** Writes one group of six words, and nothing else. */
  method WriteGroup(input: array<nat>, at: nat, x: nat, y: nat, w: (nat, nat, nat, nat))
    requires at + 6 <= input.Length
    modifies input
    ensures input[..at + 6] == old(input[..at]) + [x, y, w.0, w.1, w.2, w.3]
  {
    input[at + 0] := x;
    input[at + 1] := y;
    input[at + 2] := w.0;
    input[at + 3] := w.1;
    input[at + 4] := w.2;
    input[at + 5] := w.3;
  }

  /** Fills the flattened buffer and calls the pairing precompile; None when the call fails. */
  method Pairing(c: Curve, shape: Shape, p1: seq<G1Point>, p2: seq<G2Point>) returns (result: Option<bool>)
    requires |p1| == |p2| && c.r > 0
    ensures result == EcPairing(c, Flatten(shape, p1, p2))
  {
    var elements := |p1|;
    var inputSize := elements * 6;
    var input := new nat[inputSize];
    var i := 0;
    while i < elements
      invariant 0 <= i <= elements
      invariant input[..i * 6] == Flatten(shape, p1[..i], p2[..i])
    {
      FlattenStep(shape, p1, p2, i);
      WriteGroup(input, i * 6, p1[i].X, p1[i].Y, Words(shape, p2[i]));
      i := i + 1;
    }
    assert p1[..elements] == p1 && p2[..elements] == p2 && input[..elements * 6] == input[..];
    result := EcPairing(c, input[..]);
  }

  // ----- The verifiers -----

  datatype VerifyingKey = VerifyingKey(alpha: G1Point, beta: G2Point, gamma: G2Point, delta: G2Point, gammaAbc: seq<G1Point>)
  datatype Proof = Proof(a: G1Point, b: G2Point, c: G1Point)

  /** 0, 1, or a revert. */
  datatype Verdict = Accepted | Rejected | Reverted

  /** The linear combination, continued from item i; None when an input is too large or a precompile fails. */
  function Combine(c: Curve, gammaAbc: seq<G1Point>, input: seq<nat>, i: nat, acc: G1Point): Option<G1Point>
    requires c.r > 0 && |gammaAbc| == |input| + 1 && i <= |input|
    decreases |input| - i
  {
    if i == |input| then EcAdd(c, acc, gammaAbc[0])
    else if input[i] >= c.r then None
    else
      match EcMul(c, gammaAbc[i + 1], input[i])
      case None => None
      case Some(term) =>
        match EcAdd(c, acc, term)
        case None => None
        case Some(next) => Combine(c, gammaAbc, input, i + 1, next)
  }

  method LinearCombination(c: Curve, gammaAbc: seq<G1Point>, input: seq<nat>) returns (vkX: Option<G1Point>)
    requires c.r > 0 && |gammaAbc| == |input| + 1
    ensures vkX == Combine(c, gammaAbc, input, 0, G1Point(0, 0))
  {
    var acc := G1Point(0, 0);
    for i := 0 to |input|
      invariant Combine(c, gammaAbc, input, i, acc) == Combine(c, gammaAbc, input, 0, G1Point(0, 0))
    {
      if input[i] >= c.r { return None; }
      var term := EcMul(c, gammaAbc[i + 1], input[i]);
      if term.None? { return None; }
      var next := EcAdd(c, acc, term.value);
      if next.None? { return None; }
      acc := next.value;
    }
    vkX := EcAdd(c, acc, gammaAbc[0]);
  }

  /** The four pairs each verifier hands to the pairing. */
  function Pairs(c: Curve, shape: Shape, vk: VerifyingKey, proof: Proof, vkX: G1Point): (seq<G1Point>, seq<G2Point>)
    requires c.q > 0
  {
    match shape
    case ZoKrates =>
      ([proof.a, Negate(c, vkX), Negate(c, proof.c), Negate(c, vk.alpha)], [proof.b, vk.gamma, vk.delta, vk.beta])
    case Snarkjs =>
      ([Negate(c, proof.a), vk.alpha, vkX, proof.c], [proof.b, vk.beta, vk.gamma, vk.delta])
  }

  function Decide(pairing: Option<bool>): Verdict {
    match pairing
    case None => Reverted
    case Some(product) => if product then Accepted else Rejected
  }

  function VerdictOf(c: Curve, shape: Shape, vk: VerifyingKey, input: seq<nat>, proof: Proof): Verdict
    requires c.q > 0 && c.r > 0
  {
    if |input| + 1 != |vk.gammaAbc| then Reverted
    else
      match Combine(c, vk.gammaAbc, input, 0, G1Point(0, 0))
      case None => Reverted
      case Some(vkX) =>
        var pairs := Pairs(c, shape, vk, proof, vkX);
        Decide(EcPairing(c, Flatten(shape, pairs.0, pairs.1)))
  }

  method VerifyZoKrates(c: Curve, vk: VerifyingKey, input: seq<nat>, proof: Proof) returns (verdict: Verdict)
    requires c.q > 0 && c.r > 0
    ensures verdict == VerdictOf(c, ZoKrates, vk, input, proof)
  {
    if |input| + 1 != |vk.gammaAbc| { return Reverted; }
    var vkX := LinearCombination(c, vk.gammaAbc, input);
    if vkX.None? { return Reverted; }
    var product := Pairing(c, ZoKrates,
      [proof.a, Negate(c, vkX.value), Negate(c, proof.c), Negate(c, vk.alpha)], [proof.b, vk.gamma, vk.delta, vk.beta]);
    return Decide(product);
  }

  method VerifySnarkjs(c: Curve, vk: VerifyingKey, input: seq<nat>, proof: Proof) returns (verdict: Verdict)
    requires c.q > 0 && c.r > 0
    ensures verdict == VerdictOf(c, Snarkjs, vk, input, proof)
  {
    if |input| + 1 != |vk.gammaAbc| { return Reverted; }
    var vkX := LinearCombination(c, vk.gammaAbc, input);
    if vkX.None? { return Reverted; }
    var product := Pairing(c, Snarkjs,
      [Negate(c, proof.a), vk.alpha, vkX.value, proof.c], [proof.b, vk.beta, vk.gamma, vk.delta]);
    return Decide(product);
  }
}
