/**
 * The quinary Merkle proof, as the circom constraint system and as the ZoKrates loop.
 * Both are compared with climbing a path by hand, and climbing with the leaves of a real tree.
 */
module MerkleProofModel {
  import opened Common
  import opened PrimeField
  import opened Circomlib

  const ARITY: nat := 5

  /** The field and its five-input hash. */
  datatype Setting = Setting(p: int, hash: seq<int> -> int)

  ghost predicate Valid(f: Setting) {
    && IsPrime(f.p) && f.p > 16
    && forall node: seq<int> :: IsSignal(f.hash(node), f.p)
  }

  ghost predicate IsNode(f: Setting, node: seq<int>) {
    |node| == ARITY && forall i :: 0 <= i < ARITY ==> IsSignal(node[i], f.p)
  }

  // ----- CalculateTotal -----

  ghost predicate CalculateTotal(p: int, nums: seq<int>, sums: seq<int>, sum: int)
    requires p > 0 && |nums| > 0
  {
    && |sums| == |nums|
    && Congruent(sums[0], nums[0], p)
    && (forall i :: 1 <= i < |nums| ==> Congruent(sums[i], sums[i - 1] + nums[i], p))
    && Congruent(sum, sums[|sums| - 1], p)
  }

  function Sum(nums: seq<int>): int {
    if nums == [] then 0 else Sum(nums[..|nums| - 1]) + nums[|nums| - 1]
  }

  lemma {:induction false} PartialSums(p: int, nums: seq<int>, sums: seq<int>, sum: int, k: nat)
    requires p > 0 && |nums| > 0 && CalculateTotal(p, nums, sums, sum) && k < |nums|
    ensures Congruent(sums[k], Sum(nums[..k + 1]), p)
  {
    assert nums[..k + 1][..k] == nums[..k];
    if k == 0 {
      assert Sum(nums[..0]) == 0;
    } else {
      PartialSums(p, nums, sums, sum, k - 1);
      CongruentIntro(nums[k], nums[k], 0, p);
      CongruentAdd(sums[k - 1], Sum(nums[..k]), nums[k], nums[k], p);
      CongruentTransitive(sums[k], sums[k - 1] + nums[k], Sum(nums[..k + 1]), p);
    }
  }

  /** The running sums force the output to be the sum of the inputs. */
  lemma TotalIsSum(p: int, nums: seq<int>, sums: seq<int>, sum: int)
    requires p > 0 && |nums| > 0 && CalculateTotal(p, nums, sums, sum)
    ensures Congruent(sum, Sum(nums), p)
  {
    PartialSums(p, nums, sums, sum, |nums| - 1);
    assert nums[..|nums|] == nums;
    CongruentTransitive(sum, sums[|sums| - 1], Sum(nums), p);
  }

  // ----- QuinSelector -----

  /** The internal signals of one selector. */
  datatype SelectorSignals = SelectorSignals(
    bits: seq<int>, inverses: seq<int>, equals: seq<int>, nums: seq<int>, sums: seq<int>)

  ghost predicate QuinSelector(p: int, choices: seq<int>, index: int, out: int, s: SelectorSignals)
    requires p > 0
  {
    && |choices| == |s.inverses| == |s.equals| == |s.nums| == ARITY
    && LessThan(p, 3, index, ARITY, 1, s.bits)
    && (forall i :: 0 <= i < ARITY ==>
          && IsSignal(s.equals[i], p) && IsEqual(p, i, index, s.inverses[i], s.equals[i])
          && Congruent(s.nums[i], s.equals[i] * choices[i], p))
    && CalculateTotal(p, s.nums, s.sums, out)
  }

  /** The comparison lets five indices through, and three residues that wrap around. */
  predicate IndexPasses(p: int, index: int) {
    0 <= index < ARITY || p - 3 <= index < p
  }

  /** What the selector puts out for an index that passes. */
  function Picked(choices: seq<int>, index: int): int
    requires |choices| == ARITY
  {
    if 0 <= index < ARITY then choices[index] else 0
  }

  function Flag(i: int, index: int): int { if i == index then 1 else 0 }

  lemma IndexPassesExactly(p: int, index: int)
    requires IsPrime(p) && p > 16 && IsSignal(index, p)
    ensures (exists bits :: LessThan(p, 3, index, ARITY, 1, bits)) <==> IndexPasses(p, index)
  {
    assert Pow(2, 3) == 8 && Pow(2, 4) == 16;
    LessThanExactly(p, 3, index, ARITY);
    if index + 3 < p {
      RemainderUnique(index + 3, 0, index + 3, p);
    } else {
      RemainderUnique(index + 3, 1, index + 3 - p, p);
    }
  }

  lemma EqualityFlag(p: int, i: int, index: int, inv: int, out: int)
    requires IsPrime(p) && IsSignal(i, p) && IsSignal(index, p) && IsSignal(out, p) && IsEqual(p, i, index, inv, out)
    ensures out == Flag(i, index)
  {
    IsZeroForces(p, index - i, inv, out);
    FlagIsCongruence(p, i, index);
  }

  lemma FlagIsCongruence(p: int, i: int, index: int)
    requires p > 0 && IsSignal(i, p) && IsSignal(index, p)
    ensures Flag(i, index) == if Congruent(index - i, 0, p) then 1 else 0
  {
    if Congruent(index - i, 0, p) {
      CongruentResidues(index, i, p);
    }
  }

  function Weighted(choices: seq<int>, index: int): (nums: seq<int>)
    ensures |nums| == |choices|
  {
    seq(|choices|, i requires 0 <= i < |choices| => Flag(i, index) * choices[i])
  }

  lemma WeightedSum(choices: seq<int>, index: int)
    requires |choices| == ARITY
    ensures Sum(Weighted(choices, index)) == Picked(choices, index)
  {
    var n := Weighted(choices, index);
    assert n == [n[0], n[1], n[2], n[3], n[4]];
    SumOfFive(n[0], n[1], n[2], n[3], n[4]);
  }

  lemma SumOfFive(a: int, b: int, c: int, d: int, e: int)
    ensures Sum([a, b, c, d, e]) == a + b + c + d + e
  {
    assert [a][..0] == [] && Sum([a]) == a;
    assert [a, b][..1] == [a] && Sum([a, b]) == a + b;
    assert [a, b, c][..2] == [a, b] && Sum([a, b, c]) == a + b + c;
    assert [a, b, c, d][..3] == [a, b, c] && Sum([a, b, c, d]) == a + b + c + d;
    assert [a, b, c, d, e][..4] == [a, b, c, d];
  }

  lemma {:induction false} SumCongruent(p: int, a: seq<int>, b: seq<int>)
    requires p > 0 && |a| == |b| && forall i :: 0 <= i < |a| ==> Congruent(a[i], b[i], p)
    ensures Congruent(Sum(a), Sum(b), p)
  {
    if a != [] {
      var n := |a| - 1;
      SumCongruent(p, a[..n], b[..n]);
      CongruentAdd(Sum(a[..n]), Sum(b[..n]), a[n], b[n], p);
    }
  }

  lemma SelectorForces(p: int, choices: seq<int>, index: int, out: int, s: SelectorSignals)
    requires IsPrime(p) && p > 16 && IsSignal(index, p) && IsSignal(out, p)
    requires |choices| == ARITY && forall i :: 0 <= i < ARITY ==> IsSignal(choices[i], p)
    requires QuinSelector(p, choices, index, out, s)
    ensures IndexPasses(p, index) && out == Picked(choices, index)
  {
    IndexPassesExactly(p, index);
    assert LessThan(p, 3, index, ARITY, 1, s.bits);
    forall i | 0 <= i < ARITY ensures Congruent(s.nums[i], Weighted(choices, index)[i], p) {
      EqualityFlag(p, i, index, s.inverses[i], s.equals[i]);
    }
    TotalIsSum(p, s.nums, s.sums, out);
    SumCongruent(p, s.nums, Weighted(choices, index));
    WeightedSum(choices, index);
    CongruentTransitive(out, Sum(s.nums), Picked(choices, index), p);
    CongruentResidues(out, Picked(choices, index), p);
  }

  lemma Inverses(p: int, index: int) returns (inverses: seq<int>)
    requires IsPrime(p) && p > 16 && IsSignal(index, p)
    ensures |inverses| == ARITY && forall i :: 0 <= i < ARITY ==> IsEqual(p, i, index, inverses[i], Flag(i, index))
  {
    inverses := [];
    while |inverses| < ARITY
      invariant |inverses| <= ARITY
      invariant forall i :: 0 <= i < |inverses| ==> IsEqual(p, i, index, inverses[i], Flag(i, index))
    {
      var i := |inverses|;
      var inv := IsZeroSatisfiable(p, index - i);
      FlagIsCongruence(p, i, index);
      inverses := inverses + [inv];
    }
  }

  function RunningSums(nums: seq<int>): (sums: seq<int>)
    ensures |sums| == |nums|
  {
    if nums == [] then [] else RunningSums(nums[..|nums| - 1]) + [Sum(nums)]
  }

  lemma {:induction false} RunningSumsStep(nums: seq<int>)
    requires |nums| > 0
    ensures RunningSums(nums)[0] == nums[0] && RunningSums(nums)[|nums| - 1] == Sum(nums)
    ensures forall i :: 1 <= i < |nums| ==> RunningSums(nums)[i] == RunningSums(nums)[i - 1] + nums[i]
  {
    var earlier := nums[..|nums| - 1];
    if |nums| == 1 {
      assert Sum(earlier) == 0;
    } else {
      RunningSumsStep(earlier);
    }
  }

  lemma TotalOfExactSums(p: int, nums: seq<int>, sums: seq<int>)
    requires p > 0 && |nums| == |sums| > 0 && sums[0] == nums[0]
    requires forall i :: 1 <= i < |nums| ==> sums[i] == sums[i - 1] + nums[i]
    ensures CalculateTotal(p, nums, sums, sums[|sums| - 1])
  {
    forall i | 0 <= i < |sums| ensures Congruent(sums[i], sums[i], p) {
      CongruentReflexive(sums[i], p);
    }
  }

  lemma TotalSatisfiable(p: int, nums: seq<int>)
    requires p > 0 && |nums| > 0
    ensures CalculateTotal(p, nums, RunningSums(nums), Sum(nums))
  {
    RunningSumsStep(nums);
    TotalOfExactSums(p, nums, RunningSums(nums));
  }

  lemma SelectorSatisfiable(p: int, choices: seq<int>, index: int) returns (s: SelectorSignals)
    requires IsPrime(p) && p > 16 && IsSignal(index, p) && |choices| == ARITY && IndexPasses(p, index)
    ensures QuinSelector(p, choices, index, Picked(choices, index), s)
  {
    IndexPassesExactly(p, index);
    var bits :| LessThan(p, 3, index, ARITY, 1, bits);
    var inverses := Inverses(p, index);
    var nums := Weighted(choices, index);
    TotalSatisfiable(p, nums);
    WeightedSum(choices, index);
    var equals := seq(ARITY, i requires 0 <= i < ARITY => Flag(i, index));
    s := SelectorSignals(bits, inverses, equals, nums, RunningSums(nums));
  }

  // ----- MerkleProof -----

  datatype ProofSignals = ProofSignals(supplied: SelectorSignals, levels: seq<SelectorSignals>, acc: seq<int>)

  /** The constraints of MerkleProof(depth, 5), all internal signals included. */
  ghost predicate MerkleProof(f: Setting, root: int, leaf: int, siblings: seq<seq<int>>, pathIndices: seq<int>, w: ProofSignals)
    requires f.p > 0 && |siblings| == |pathIndices| > 0
  {
    var depth := |siblings|;
    && |w.levels| == depth && |w.acc| == depth + 1
    && QuinSelector(f.p, siblings[0], pathIndices[0], leaf, w.supplied)
    && w.acc[0] == leaf
    && (forall level :: 0 <= level < depth ==>
          && QuinSelector(f.p, siblings[level], pathIndices[level], w.acc[level], w.levels[level])
          && w.acc[level + 1] == f.hash(siblings[level]))
    && root == w.acc[depth]
  }

  /** All the inputs are field elements, in nodes of five. */
  ghost predicate Inputs(f: Setting, root: int, leaf: int, siblings: seq<seq<int>>, pathIndices: seq<int>) {
    && |siblings| == |pathIndices|
    && IsSignal(root, f.p) && IsSignal(leaf, f.p)
    && (forall level :: 0 <= level < |siblings| ==> IsNode(f, siblings[level]) && IsSignal(pathIndices[level], f.p))
  }

  /** Climbing by hand: at each level the digest so far must be the entry picked; the node's hash is the next digest. */
  function Climb(f: Setting, leaf: int, siblings: seq<seq<int>>, pathIndices: seq<int>): Option<int>
    requires |siblings| == |pathIndices| && forall level :: 0 <= level < |siblings| ==> |siblings[level]| == ARITY
  {
    if siblings == [] then Some(leaf)
    else
      var n := |siblings| - 1;
      match Climb(f, leaf, siblings[..n], pathIndices[..n])
      case None => None
      case Some(digest) =>
        if IndexPasses(f.p, pathIndices[n]) && Picked(siblings[n], pathIndices[n]) == digest
        then Some(f.hash(siblings[n])) else None
  }

  /** The digest the circuit must carry at a level. */
  function DigestAt(f: Setting, leaf: int, siblings: seq<seq<int>>, level: nat): int
    requires level <= |siblings|
  {
    if level == 0 then leaf else f.hash(siblings[level - 1])
  }

  ghost predicate LevelPasses(f: Setting, leaf: int, siblings: seq<seq<int>>, pathIndices: seq<int>, level: nat)
    requires |siblings| == |pathIndices| && level < |siblings| && |siblings[level]| == ARITY
  {
    IndexPasses(f.p, pathIndices[level]) && Picked(siblings[level], pathIndices[level]) == DigestAt(f, leaf, siblings, level)
  }

  lemma {:induction false} ClimbLevelByLevel(f: Setting, leaf: int, siblings: seq<seq<int>>, pathIndices: seq<int>)
    requires |siblings| == |pathIndices| && forall level :: 0 <= level < |siblings| ==> |siblings[level]| == ARITY
    ensures Climb(f, leaf, siblings, pathIndices).Some? <==>
              forall level :: 0 <= level < |siblings| ==> LevelPasses(f, leaf, siblings, pathIndices, level)
    ensures Climb(f, leaf, siblings, pathIndices).Some? ==>
              Climb(f, leaf, siblings, pathIndices).value == DigestAt(f, leaf, siblings, |siblings|)
  {
    if siblings != [] {
      var n := |siblings| - 1;
      ClimbLevelByLevel(f, leaf, siblings[..n], pathIndices[..n]);
      assert forall level :: 0 <= level <= n ==> DigestAt(f, leaf, siblings[..n], level) == DigestAt(f, leaf, siblings, level);
      assert forall level :: 0 <= level < n ==>
        (LevelPasses(f, leaf, siblings[..n], pathIndices[..n], level) <==>
         LevelPasses(f, leaf, siblings, pathIndices, level));
      if forall level :: 0 <= level < |siblings| ==> LevelPasses(f, leaf, siblings, pathIndices, level) {
        assert LevelPasses(f, leaf, siblings, pathIndices, n);
      }
    }
  }

  lemma ConstraintsForceClimb(f: Setting, root: int, leaf: int, siblings: seq<seq<int>>, pathIndices: seq<int>, w: ProofSignals)
    requires Valid(f) && Inputs(f, root, leaf, siblings, pathIndices) && |siblings| > 0
    requires MerkleProof(f, root, leaf, siblings, pathIndices, w)
    ensures Climb(f, leaf, siblings, pathIndices) == Some(root)
  {
    forall level | 0 <= level < |siblings| ensures LevelPasses(f, leaf, siblings, pathIndices, level) {
      assert w.acc[level] == DigestAt(f, leaf, siblings, level);
      assert IsNode(f, siblings[level]);
      SelectorForces(f.p, siblings[level], pathIndices[level], w.acc[level], w.levels[level]);
    }
    ClimbLevelByLevel(f, leaf, siblings, pathIndices);
  }

  /** The signals satisfy the selector of a level that carries the digest it must. */
  ghost predicate SelectedAt(f: Setting, leaf: int, siblings: seq<seq<int>>, pathIndices: seq<int>, level: nat, s: SelectorSignals)
    requires f.p > 0 && level < |siblings| == |pathIndices|
  {
    QuinSelector(f.p, siblings[level], pathIndices[level], DigestAt(f, leaf, siblings, level), s)
  }

  lemma SignalsAt(f: Setting, leaf: int, siblings: seq<seq<int>>, pathIndices: seq<int>, level: nat)
    returns (s: SelectorSignals)
    requires Valid(f) && level < |siblings| == |pathIndices| && IsNode(f, siblings[level])
    requires IsSignal(pathIndices[level], f.p) && LevelPasses(f, leaf, siblings, pathIndices, level)
    ensures SelectedAt(f, leaf, siblings, pathIndices, level, s)
  {
    s := SelectorSatisfiable(f.p, siblings[level], pathIndices[level]);
  }

  lemma {:induction false} LevelSignals(f: Setting, leaf: int, siblings: seq<seq<int>>, pathIndices: seq<int>, k: nat)
    returns (levels: seq<SelectorSignals>)
    requires Valid(f) && |siblings| == |pathIndices| && k <= |siblings|
    requires forall level :: 0 <= level < |siblings| ==>
               IsNode(f, siblings[level]) && IsSignal(pathIndices[level], f.p)
               && LevelPasses(f, leaf, siblings, pathIndices, level)
    ensures |levels| == k
    ensures forall level :: 0 <= level < k ==> SelectedAt(f, leaf, siblings, pathIndices, level, levels[level])
  {
    if k == 0 {
      levels := [];
    } else {
      var earlier := LevelSignals(f, leaf, siblings, pathIndices, k - 1);
      var s := SignalsAt(f, leaf, siblings, pathIndices, k - 1);
      levels := earlier + [s];
      forall level | 0 <= level < k ensures SelectedAt(f, leaf, siblings, pathIndices, level, levels[level]) {
        if level < k - 1 { assert levels[level] == earlier[level]; }
      }
    }
  }

  lemma ClimbSatisfiesConstraints(f: Setting, root: int, leaf: int, siblings: seq<seq<int>>, pathIndices: seq<int>)
    returns (w: ProofSignals)
    requires Valid(f) && Inputs(f, root, leaf, siblings, pathIndices) && |siblings| > 0
    requires Climb(f, leaf, siblings, pathIndices) == Some(root)
    ensures MerkleProof(f, root, leaf, siblings, pathIndices, w)
  {
    ClimbLevelByLevel(f, leaf, siblings, pathIndices);
    var depth := |siblings|;
    assert forall level :: 0 <= level < depth ==> LevelPasses(f, leaf, siblings, pathIndices, level);
    var levels := LevelSignals(f, leaf, siblings, pathIndices, depth);
    var acc := seq(depth + 1, level requires 0 <= level < depth + 1 => DigestAt(f, leaf, siblings, level));
    assert forall level :: 0 <= level < depth ==> acc[level + 1] == f.hash(siblings[level]);
    w := ProofSignals(levels[0], levels, acc);
    forall level | 0 <= level < depth
      ensures QuinSelector(f.p, siblings[level], pathIndices[level], w.acc[level], w.levels[level])
    {
      assert acc[level] == DigestAt(f, leaf, siblings, level) && SelectedAt(f, leaf, siblings, pathIndices, level, levels[level]);
    }
    assert SelectedAt(f, leaf, siblings, pathIndices, 0, levels[0]);
  }

  /** The circuit accepts exactly what climbing by hand accepts, for all field inputs. */
  lemma CircuitIsClimb(f: Setting, root: int, leaf: int, siblings: seq<seq<int>>, pathIndices: seq<int>)
    requires Valid(f) && Inputs(f, root, leaf, siblings, pathIndices) && |siblings| > 0
    ensures (exists w :: MerkleProof(f, root, leaf, siblings, pathIndices, w))
       <==> Climb(f, leaf, siblings, pathIndices) == Some(root)
  {
    if w :| MerkleProof(f, root, leaf, siblings, pathIndices, w) {
      ConstraintsForceClimb(f, root, leaf, siblings, pathIndices, w);
    }
    if Climb(f, leaf, siblings, pathIndices) == Some(root) {
      var w := ClimbSatisfiesConstraints(f, root, leaf, siblings, pathIndices);
    }
  }

  // ----- The ZoKrates loop -----

  /** The loop of the ZoKrates program: an index out of bounds, or a failed assertion, rejects. */
  method QuinaryMerkleProof(f: Setting, root: int, leaf: int, path: seq<seq<int>>, indices: seq<nat>) returns (accepted: bool)
    requires |path| == |indices| && forall i :: 0 <= i < |path| ==> |path[i]| == ARITY
    ensures accepted <==> LoopAccepts(f, root, leaf, path, indices)
  {
    var digest := leaf;
    var i := 0;
    while i < |path|
      invariant 0 <= i <= |path|
      invariant InRange(indices[..i]) && Climb(f, leaf, path[..i], indices[..i]) == Some(digest)
    {
      assert path[..i + 1][..i] == path[..i] && indices[..i + 1][..i] == indices[..i];
      if indices[i] >= ARITY { return false; }
      if path[i][indices[i]] != digest {
        ClimbPrefix(f, leaf, path, indices, i + 1);
        return false;
      }
      digest := f.hash(path[i]);
      i := i + 1;
    }
    assert path[..i] == path && indices[..i] == indices;
    return digest == root;
  }

  ghost predicate LoopAccepts(f: Setting, root: int, leaf: int, path: seq<seq<int>>, indices: seq<int>)
    requires |path| == |indices| && forall i :: 0 <= i < |path| ==> |path[i]| == ARITY
  {
    InRange(indices) && Climb(f, leaf, path, indices) == Some(root)
  }

  /** The two programs accept the same inputs, exactly as far as the indices stay below five. */
  lemma LoopIsCircuitInRange(f: Setting, root: int, leaf: int, path: seq<seq<int>>, indices: seq<int>)
    requires Valid(f) && Inputs(f, root, leaf, path, indices) && |path| > 0
    requires forall i :: 0 <= i < |path| ==> |path[i]| == ARITY
    ensures LoopAccepts(f, root, leaf, path, indices)
       <==> InRange(indices) && exists w :: MerkleProof(f, root, leaf, path, indices, w)
  {
    CircuitIsClimb(f, root, leaf, path, indices);
  }

  ghost predicate InRange(indices: seq<int>) {
    forall i :: 0 <= i < |indices| ==> 0 <= indices[i] < ARITY
  }

  lemma {:induction false} ClimbPrefix(f: Setting, leaf: int, siblings: seq<seq<int>>, pathIndices: seq<int>, k: nat)
    requires |siblings| == |pathIndices| && forall level :: 0 <= level < |siblings| ==> |siblings[level]| == ARITY
    requires k <= |siblings| && Climb(f, leaf, siblings[..k], pathIndices[..k]).None?
    ensures Climb(f, leaf, siblings, pathIndices).None?
    decreases |siblings| - k
  {
    if k < |siblings| {
      assert siblings[..k + 1][..k] == siblings[..k] && pathIndices[..k + 1][..k] == pathIndices[..k];
      ClimbPrefix(f, leaf, siblings, pathIndices, k + 1);
    } else {
      assert siblings[..k] == siblings && pathIndices[..k] == pathIndices;
    }
  }

  /** A selector index that wraps picks the constant zero, whatever the node holds. */
  lemma WrappedIndexPicksZero(f: Setting, node: seq<int>, index: int)
    requires Valid(f) && IsNode(f, node) && f.p - 3 <= index < f.p
    ensures exists w :: MerkleProof(f, f.hash(node), 0, [node], [index], w)
  {
    assert [node][..0] == [] && [index][..0] == [];
    CircuitIsClimb(f, f.hash(node), 0, [node], [index]);
  }
}
