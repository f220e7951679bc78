/** What an accepted proof says about a real quinary tree: its leaf is in the tree, at the place the indices spell. */
module MerkleTree {
  import opened Common
  import opened PrimeField
  import opened Circomlib
  import opened MerkleProofModel

  datatype Tree = Leaf(value: int) | Node(children: seq<Tree>)

  /** A complete tree: five children everywhere, every leaf at the same depth, every leaf a field element. */
  predicate Complete(f: Setting, t: Tree, depth: nat)
    requires f.p > 0
  {
    match t
    case Leaf(value) => depth == 0 && IsSignal(value, f.p)
    case Node(children) =>
      depth > 0 && |children| == ARITY && forall i :: 0 <= i < |children| ==> Complete(f, children[i], depth - 1)
  }

  function Digest(f: Setting, t: Tree): int {
    match t
    case Leaf(value) => value
    case Node(children) => f.hash(Digests(f, children))
  }

  function Digests(f: Setting, trees: seq<Tree>): (digests: seq<int>)
    ensures |digests| == |trees| && forall i :: 0 <= i < |trees| ==> digests[i] == Digest(f, trees[i])
  {
    if trees == [] then [] else [Digest(f, trees[0])] + Digests(f, trees[1..])
  }

  /** The leaves from left to right. */
  function Leaves(t: Tree): seq<int> {
    match t
    case Leaf(value) => [value]
    case Node(children) => AllLeaves(children)
  }

  function AllLeaves(trees: seq<Tree>): seq<int> {
    if trees == [] then [] else Leaves(trees[0]) + AllLeaves(trees[1..])
  }

  /** The sum of index_i * 5^i. */
  function Position(indices: seq<int>): int {
    if indices == [] then 0
    else Position(indices[..|indices| - 1]) + indices[|indices| - 1] * Pow(5, |indices| - 1)
  }

  lemma {:induction false} PositionInRange(indices: seq<int>)
    requires InRange(indices)
    ensures 0 <= Position(indices) < Pow(5, |indices|)
  {
    if indices != [] {
      var n := |indices| - 1;
      PositionInRange(indices[..n]);
      assert 0 <= indices[n] <= 4;
      assert 0 <= indices[n] * Pow(5, n) <= 4 * Pow(5, n);
    }
  }

  lemma {:induction false} LeafCount(f: Setting, t: Tree, depth: nat)
    requires f.p > 0 && Complete(f, t, depth)
    ensures |Leaves(t)| == Pow(5, depth)
    decreases t, 0
  {
    if t.Node? {
      AllLeafCount(f, t.children, depth - 1);
    }
  }

  lemma {:induction false} AllLeafCount(f: Setting, trees: seq<Tree>, depth: nat)
    requires f.p > 0 && forall i :: 0 <= i < |trees| ==> Complete(f, trees[i], depth)
    ensures |AllLeaves(trees)| == |trees| * Pow(5, depth)
    decreases trees
  {
    if trees != [] {
      LeafCount(f, trees[0], depth);
      AllLeafCount(f, trees[1..], depth);
      assert |trees| * Pow(5, depth) == Pow(5, depth) + (|trees| - 1) * Pow(5, depth);
    }
  }

  /** The leaves of child k start k subtrees in. */
  lemma {:induction false} LeafOfChild(f: Setting, trees: seq<Tree>, depth: nat, k: nat, offset: nat)
    requires f.p > 0 && forall i :: 0 <= i < |trees| ==> Complete(f, trees[i], depth)
    requires k < |trees| && offset < Pow(5, depth)
    ensures |Leaves(trees[k])| == Pow(5, depth)
    ensures 0 <= offset + k * Pow(5, depth) < |AllLeaves(trees)|
    ensures AllLeaves(trees)[offset + k * Pow(5, depth)] == Leaves(trees[k])[offset]
    decreases trees
  {
    LeafCount(f, trees[0], depth);
    AllLeafCount(f, trees, depth);
    if k > 0 {
      LeafOfChild(f, trees[1..], depth, k - 1, offset);
      assert k * Pow(5, depth) == Pow(5, depth) + (k - 1) * Pow(5, depth);
    }
  }

  lemma DigestIsSignal(f: Setting, t: Tree, depth: nat)
    requires Valid(f) && Complete(f, t, depth)
    ensures IsSignal(Digest(f, t), f.p)
  {
  }

  // ----- Paths -----

  /** The nodes on the way from the leaf the indices spell up to the root. */
  function Path(f: Setting, t: Tree, indices: seq<int>): (path: seq<seq<int>>)
    requires f.p > 0 && Complete(f, t, |indices|) && InRange(indices)
    ensures |path| == |indices| && forall level :: 0 <= level < |path| ==> |path[level]| == ARITY
    decreases |indices|
  {
    if indices == [] then []
    else
      var n := |indices| - 1;
      Path(f, t.children[indices[n]], indices[..n]) + [Digests(f, t.children)]
  }

  /** The leaf at a position is the one at the shorter position in the child the last index picks. */
  lemma LeafAtPosition(f: Setting, t: Tree, indices: seq<int>)
    requires Valid(f) && indices != [] && Complete(f, t, |indices|) && InRange(indices)
    ensures var n := |indices| - 1;
            var child := t.children[indices[n]];
            && 0 <= Position(indices) < |Leaves(t)| && 0 <= Position(indices[..n]) < |Leaves(child)|
            && Leaves(t)[Position(indices)] == Leaves(child)[Position(indices[..n])]
  {
    var n := |indices| - 1;
    PositionInRange(indices[..n]);
    LeafOfChild(f, t.children, n, indices[n], Position(indices[..n]));
  }

  // ----- Soundness -----

  /** Two different nodes with the same hash. */
  ghost predicate Collision(f: Setting, a: seq<int>, b: seq<int>) {
    |a| == |b| == ARITY && a != b && f.hash(a) == f.hash(b)
  }

  /** At some level the proof supplies a node other than the tree's, with the same hash. */
  ghost predicate ShowsCollision(f: Setting, t: Tree, siblings: seq<seq<int>>, indices: seq<int>)
    requires f.p > 0 && Complete(f, t, |indices|) && |siblings| == |indices| && InRange(indices)
  {
    exists level :: 0 <= level < |siblings| && Collision(f, siblings[level], Path(f, t, indices)[level])
  }

  lemma {:induction false} ClimbToDigestFindsLeaf(
    f: Setting, t: Tree, leaf: int, siblings: seq<seq<int>>, indices: seq<int>)
    requires Valid(f) && |siblings| == |indices| && Complete(f, t, |indices|) && InRange(indices)
    requires forall level :: 0 <= level < |siblings| ==> |siblings[level]| == ARITY
    requires Climb(f, leaf, siblings, indices) == Some(Digest(f, t))
    ensures ShowsCollision(f, t, siblings, indices)
         || (siblings == Path(f, t, indices)
             && 0 <= Position(indices) < |Leaves(t)| && leaf == Leaves(t)[Position(indices)])
    decreases |indices|
  {
    if indices != [] {
      var n := |indices| - 1;
      var node := Digests(f, t.children);
      var child := t.children[indices[n]];
      var path := Path(f, t, indices);
      assert path[n] == node && path[..n] == Path(f, child, indices[..n]);
      if siblings[n] != node {
        assert Collision(f, siblings[n], path[n]);
      } else {
        ClimbToDigestFindsLeaf(f, child, leaf, siblings[..n], indices[..n]);
        if level :| 0 <= level < n && Collision(f, siblings[..n][level], path[..n][level]) {
          assert Collision(f, siblings[level], path[level]);
        } else {
          LeafAtPosition(f, t, indices);
          assert siblings == siblings[..n] + [node];
        }
      }
    }
  }

  /**
   * Soundness.  Against the root of any complete tree, a satisfied circuit with indices in 0..4 proves the
   * leaf at position sum of index_i * 5^i, by the tree's own nodes, unless one of the nodes it supplies
   * differs from the tree's node in that place and has the same hash.
   */
  lemma ProofIsOfThatLeaf(f: Setting, t: Tree, leaf: int, siblings: seq<seq<int>>, pathIndices: seq<int>, w: ProofSignals)
    requires Valid(f) && |siblings| == |pathIndices| > 0 && Complete(f, t, |pathIndices|)
    requires Inputs(f, Digest(f, t), leaf, siblings, pathIndices) && InRange(pathIndices)
    requires MerkleProof(f, Digest(f, t), leaf, siblings, pathIndices, w)
    ensures ShowsCollision(f, t, siblings, pathIndices)
         || (siblings == Path(f, t, pathIndices)
             && 0 <= Position(pathIndices) < |Leaves(t)| && leaf == Leaves(t)[Position(pathIndices)])
  {
    ConstraintsForceClimb(f, Digest(f, t), leaf, siblings, pathIndices, w);
    forall level | 0 <= level < |siblings| ensures |siblings[level]| == ARITY {
      assert IsNode(f, siblings[level]);
    }
    ClimbToDigestFindsLeaf(f, t, leaf, siblings, pathIndices);
  }

  // ----- Completeness -----

  lemma {:induction false} PathClimbs(f: Setting, t: Tree, indices: seq<int>)
    requires Valid(f) && Complete(f, t, |indices|) && InRange(indices)
    ensures 0 <= Position(indices) < |Leaves(t)|
    ensures Climb(f, Leaves(t)[Position(indices)], Path(f, t, indices), indices) == Some(Digest(f, t))
    decreases |indices|
  {
    if indices != [] {
      var n := |indices| - 1;
      var child := t.children[indices[n]];
      PathClimbs(f, child, indices[..n]);
      LeafAtPosition(f, t, indices);
      ClimbOneMore(f, Leaves(child)[Position(indices[..n])], Path(f, child, indices[..n]), indices[..n], Digest(f, child),
                   Digests(f, t.children), indices[n]);
      assert indices == indices[..n] + [indices[n]];
    }
  }

  lemma ClimbOneMore(f: Setting, leaf: int, siblings: seq<seq<int>>, indices: seq<int>, digest: int,
                     node: seq<int>, index: int)
    requires |siblings| == |indices| && forall level :: 0 <= level < |siblings| ==> |siblings[level]| == ARITY
    requires Climb(f, leaf, siblings, indices) == Some(digest)
    requires |node| == ARITY && 0 <= index < ARITY && node[index] == digest
    ensures Climb(f, leaf, siblings + [node], indices + [index]) == Some(f.hash(node))
  {
    assert (siblings + [node])[..|siblings|] == siblings;
    assert (indices + [index])[..|indices|] == indices;
  }

  lemma {:induction false} PathIsOfSignals(f: Setting, t: Tree, indices: seq<int>)
    requires Valid(f) && Complete(f, t, |indices|) && InRange(indices)
    ensures forall level :: 0 <= level < |indices| ==> IsNode(f, Path(f, t, indices)[level])
    ensures 0 <= Position(indices) < |Leaves(t)| && IsSignal(Leaves(t)[Position(indices)], f.p)
    decreases |indices|
  {
    if indices != [] {
      var n := |indices| - 1;
      PathIsOfSignals(f, t.children[indices[n]], indices[..n]);
      LeafAtPosition(f, t, indices);
      forall i | 0 <= i < ARITY ensures IsSignal(Digests(f, t.children)[i], f.p) {
        DigestIsSignal(f, t.children[i], n);
      }
    }
  }

  /** Completeness.  Every leaf of every complete tree, with its own path, satisfies the circuit. */
  lemma EveryLeafHasAProof(f: Setting, t: Tree, indices: seq<int>)
    requires Valid(f) && |indices| > 0 && Complete(f, t, |indices|) && InRange(indices)
    ensures 0 <= Position(indices) < |Leaves(t)|
    ensures exists w :: MerkleProof(f, Digest(f, t), Leaves(t)[Position(indices)], Path(f, t, indices), indices, w)
  {
    PathClimbs(f, t, indices);
    PathIsOfSignals(f, t, indices);
    DigestIsSignal(f, t, |indices|);
    CircuitIsClimb(f, Digest(f, t), Leaves(t)[Position(indices)], Path(f, t, indices), indices);
  }

  // ----- Indices that wrap -----

  /** The indices, but for a first one that wraps. */
  predicate WrappedAtTheBottom(f: Setting, indices: seq<int>, wrapped: seq<int>) {
    |indices| == |wrapped| > 0 && wrapped[1..] == indices[1..] && f.p - 3 <= wrapped[0] < f.p
  }

  lemma WrappedClimbs(f: Setting, leaf: int, siblings: seq<seq<int>>, indices: seq<int>, wrapped: seq<int>, root: int)
    requires Valid(f) && |siblings| == |indices| && WrappedAtTheBottom(f, indices, wrapped)
    requires forall level :: 0 <= level < |siblings| ==> |siblings[level]| == ARITY
    requires Climb(f, leaf, siblings, indices) == Some(root)
    ensures Climb(f, 0, siblings, wrapped) == Some(root)
  {
    ClimbLevelByLevel(f, leaf, siblings, indices);
    forall level | 0 <= level < |siblings| ensures LevelPasses(f, 0, siblings, wrapped, level) {
      if level > 0 {
        assert LevelPasses(f, leaf, siblings, indices, level);
        assert wrapped[level] == wrapped[1..][level - 1] == indices[1..][level - 1] == indices[level];
      }
    }
    ClimbLevelByLevel(f, 0, siblings, wrapped);
  }

  /**
   * At the bottom, an index that wraps picks the constant zero.  So against any complete tree of any depth
   * its own nodes prove the leaf zero, whatever its leaves are.
   */
  lemma WrappedIndexProvesZero(f: Setting, t: Tree, indices: seq<int>, wrapped: seq<int>)
    requires Valid(f) && Complete(f, t, |indices|) && InRange(indices) && WrappedAtTheBottom(f, indices, wrapped)
    ensures exists w :: MerkleProof(f, Digest(f, t), 0, Path(f, t, indices), wrapped, w)
  {
    PathClimbs(f, t, indices);
    WrappedClimbs(f, Leaves(t)[Position(indices)], Path(f, t, indices), indices, wrapped, Digest(f, t));
    WrappedInputs(f, t, indices, wrapped);
    CircuitIsClimb(f, Digest(f, t), 0, Path(f, t, indices), wrapped);
  }

  lemma WrappedInputs(f: Setting, t: Tree, indices: seq<int>, wrapped: seq<int>)
    requires Valid(f) && Complete(f, t, |indices|) && InRange(indices) && WrappedAtTheBottom(f, indices, wrapped)
    ensures Inputs(f, Digest(f, t), 0, Path(f, t, indices), wrapped)
  {
    PathIsOfSignals(f, t, indices);
    DigestIsSignal(f, t, |indices|);
    forall level | 0 <= level < |indices| ensures IsSignal(wrapped[level], f.p) {
      if level > 0 { assert wrapped[level] == wrapped[1..][level - 1] == indices[1..][level - 1] == indices[level]; }
    }
  }
}
