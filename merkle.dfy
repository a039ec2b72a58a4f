/** The single-prover Merkle gadget (circuits/src/zk_gadgets/merkle.rs): the
    root computed from a leaf and its opening, the constraint tying it to the
    expected root, and how `prove` lays out the witness commitments that
    `verify` splits again. The Poseidon sponge gadget, the commitment scheme
    and the proof system are parameters. */
module Merkle {
  import opened Wrappers
  import opened Scalars

  datatype R1CSError = VerificationError | GadgetError(message: string)

  /** A sponge hash inside the constraint system: absorb the values, squeeze
      one linear combination. */
  type SpongeHash<!L> = seq<L> -> Result<L, R1CSError>

  /** `leaf_hash`: the sponge over the leaf's values. */
  function LeafHash<L>(values: seq<L>, hash: SpongeHash<L>): Result<L, R1CSError>
  {
    hash(values)
  }

  /** `hash_internal_nodes`: the sponge over exactly the two children, the
      left one first. */
  function HashInternalNodes<L>(left: L, right: L, hash: SpongeHash<L>): (r: Result<L, R1CSError>)
    ensures r == hash([left, right])
  {
    hash([left, right])
  }

  /** Hashing up the opening from `current`: each sister node is hashed in
      as the right child. There are no path-selection bits, so the current
      node is always the left child. */
  function RootFold<L>(current: L, opening: seq<L>, hash: SpongeHash<L>): Result<L, R1CSError>
  {
    if opening == [] then Success(current)
    else
      var parent :- HashInternalNodes(current, opening[0], hash);
      RootFold(parent, opening[1..], hash)
  }

  function RootOf<L>(leaf: seq<L>, opening: seq<L>, hash: SpongeHash<L>): Result<L, R1CSError>
  {
    var leafHash :- LeafHash(leaf, hash);
    RootFold(leafHash, opening, hash)
  }

  /** One more sister node on the path hashes the previous root, as the left
      child, with that node. */
  lemma {:induction false} RootFoldSnoc<L>(current: L, opening: seq<L>, sister: L, hash: SpongeHash<L>)
    ensures RootFold(current, opening + [sister], hash) ==
      match RootFold(current, opening, hash)
      case Failure(e) => Failure(e)
      case Success(below) => hash([below, sister])
  {
    if opening != [] {
      assert (opening + [sister])[1..] == opening[1..] + [sister];
      match HashInternalNodes(current, opening[0], hash)
      case Failure(_) =>
      case Success(parent) => RootFoldSnoc(parent, opening[1..], sister, hash);
    }
  }

  /** An empty opening makes the leaf hash the root; a one-node opening
      hashes the leaf hash with that node. */
  lemma RootOfShortOpenings<L>(leaf: seq<L>, sister: L, hash: SpongeHash<L>)
    ensures RootOf(leaf, [], hash) == hash(leaf)
    ensures RootOf(leaf, [sister], hash) ==
      match hash(leaf)
      case Failure(e) => Failure(e)
      case Success(h) => hash([h, sister])
  {
    assert [sister][1..] == [];
    if hash(leaf).Success? {
      var h := hash(leaf).value;
      assert RootFold(h, [], hash) == Success(h);
      RootFoldSnoc(h, [], sister, hash);
      assert [] + [sister] == [sister];
    }
  }

  /** `compute_root`: the leaf hash, then one internal hash per sister node. */
  method ComputeRoot<L>(leaf: seq<L>, opening: seq<L>, hash: SpongeHash<L>) returns (r: Result<L, R1CSError>)
    ensures r == RootOf(leaf, opening, hash)
  {
    var leafHash := LeafHash(leaf, hash);
    if leafHash.Failure? {
      return Failure(leafHash.error);
    }
    var currentHash := leafHash.value;
    var i := 0;
    while i < |opening|
      invariant 0 <= i <= |opening|
      invariant RootFold(leafHash.value, opening[..i], hash) == Success(currentHash)
    {
      RootFoldSnoc(leafHash.value, opening[..i], opening[i], hash);
      assert opening[..i + 1] == opening[..i] + [opening[i]];
      var next := HashInternalNodes(currentHash, opening[i], hash);
      if next.Failure? {
        RootFoldStops(leafHash.value, opening, i + 1, hash);
        return Failure(next.error);
      }
      currentHash := next.value;
      i := i + 1;
    }
    assert opening[..i] == opening;
    return Success(currentHash);
  }

  /** A failure part-way up the path is the failure of the whole fold. */
  lemma {:induction false} RootFoldStops<L>(current: L, opening: seq<L>, i: nat, hash: SpongeHash<L>)
    requires i <= |opening| && RootFold(current, opening[..i], hash).Failure?
    ensures RootFold(current, opening, hash) == RootFold(current, opening[..i], hash)
  {
    if i > 0 {
      assert opening[..i][0] == opening[0];
      assert opening[..i][1..] == opening[1..][..i - 1];
      match HashInternalNodes(current, opening[0], hash)
      case Failure(_) =>
      case Success(parent) => RootFoldStops(parent, opening[1..], i - 1, hash);
    }
  }

  // ---------------------------------------------------------------------
  // Constraints
  // ---------------------------------------------------------------------

  /** A constraint `lhs - rhs = 0`. */
  datatype Constraint<L> = ZeroDifference(lhs: L, rhs: L)

  /** The constraints a `RandomizableConstraintSystem` has collected. Only
      the constraints this gadget adds itself are recorded; those of the
      sponge gadget are not part of this model. */
  class ConstraintSystem<L> {
    var constraints: seq<Constraint<L>>

    constructor ()
      ensures constraints == []
    {
      constraints := [];
    }

    method Constrain(c: Constraint<L>)
      modifies this
      ensures constraints == old(constraints) + [c]
    {
      constraints := constraints + [c];
    }
  }

  /** `compute_and_constrain_root`: exactly one new constraint, that the
      expected root equals the computed root; nothing is added when
      hashing fails. */
  method ComputeAndConstrainRoot<L>(cs: ConstraintSystem<L>, leaf: seq<L>, opening: seq<L>, expectedRoot: L, hash: SpongeHash<L>)
    returns (r: Result<(), R1CSError>)
    modifies cs
    ensures r.Success? <==> RootOf(leaf, opening, hash).Success?
    ensures r.Failure? ==> r.error == RootOf(leaf, opening, hash).error && cs.constraints == old(cs.constraints)
    ensures r.Success? ==> cs.constraints == old(cs.constraints) + [ZeroDifference(expectedRoot, RootOf(leaf, opening, hash).value)]
  {
    var root := ComputeRoot(leaf, opening, hash);
    if root.Failure? {
      return Failure(root.error);
    }
    cs.Constrain(ZeroDifference(expectedRoot, root.value));
    return Success(());
  }

  // ---------------------------------------------------------------------
  // Commitment layout of prove and verify
  // ---------------------------------------------------------------------

  datatype MerkleWitness = MerkleWitness(opening: seq<Scalar>, leafData: seq<Scalar>)
  datatype MerkleStatement = MerkleStatement(expectedRoot: Scalar, treeHeight: nat)

  /** Committing a list of values under their blinders (one fresh random
      blinder per value): a commitment and a variable per value, in order. */
  function CommitAll<C, V>(values: seq<Scalar>, blinders: seq<Scalar>, commit: (Scalar, Scalar) -> (C, V)): (r: (seq<C>, seq<V>))
    requires |blinders| == |values|
    ensures |r.0| == |values| && |r.1| == |values|
    ensures forall i | 0 <= i < |values| :: (r.0[i], r.1[i]) == commit(values[i], blinders[i])
  {
    if values == [] then ([], [])
    else
      var (c, v) := commit(values[0], blinders[0]);
      var rest := CommitAll(values[1..], blinders[1..], commit);
      ([c] + rest.0, [v] + rest.1)
  }

  /** The commitment vector `prove` returns: the opening's commitments
      followed by the leaf's. */
  function ProverCommitments<C, V>(w: MerkleWitness, leafBlinders: seq<Scalar>, openingBlinders: seq<Scalar>,
                                   commit: (Scalar, Scalar) -> (C, V)): (r: seq<C>)
    requires |leafBlinders| == |w.leafData| && |openingBlinders| == |w.opening|
    ensures |r| == |w.opening| + |w.leafData|
  {
    CommitAll(w.opening, openingBlinders, commit).0 + CommitAll(w.leafData, leafBlinders, commit).0
  }

  datatype LayoutError = HeightUnderflow | SliceOutOfRange

  /** How `verify` splits the commitments: the first `tree_height - 1` are
      the opening, the rest the leaf. A zero height underflows and a height
      beyond the commitments slices out of range; both panic. */
  function VerifierSplit<C>(comms: seq<C>, treeHeight: nat): (r: Result<(seq<C>, seq<C>), LayoutError>)
    ensures r.Success? <==> 1 <= treeHeight <= |comms| + 1
    ensures r.Success? ==> r.value.0 + r.value.1 == comms && |r.value.0| == treeHeight - 1
  {
    if treeHeight == 0 then Failure(HeightUnderflow)
    else if treeHeight - 1 > |comms| then Failure(SliceOutOfRange)
    else Success((comms[..treeHeight - 1], comms[treeHeight - 1..]))
  }

  /** The verifier reads back the prover's opening and leaf commitments
      exactly when the opening has `tree_height - 1` nodes. */
  lemma LayoutAgreement<C, V>(w: MerkleWitness, s: MerkleStatement, leafBlinders: seq<Scalar>, openingBlinders: seq<Scalar>,
                              commit: (Scalar, Scalar) -> (C, V))
    requires |leafBlinders| == |w.leafData| && |openingBlinders| == |w.opening|
    ensures var openingComms := CommitAll(w.opening, openingBlinders, commit).0;
      var leafComms := CommitAll(w.leafData, leafBlinders, commit).0;
      VerifierSplit(ProverCommitments(w, leafBlinders, openingBlinders, commit), s.treeHeight) == Success((openingComms, leafComms))
      <==> s.treeHeight >= 1 && |w.opening| == s.treeHeight - 1
  {
    var openingComms := CommitAll(w.opening, openingBlinders, commit).0;
    var leafComms := CommitAll(w.leafData, leafBlinders, commit).0;
    var comms := ProverCommitments(w, leafBlinders, openingBlinders, commit);
    if s.treeHeight >= 1 && |w.opening| == s.treeHeight - 1 {
      assert comms[..s.treeHeight - 1] == openingComms;
      assert comms[s.treeHeight - 1..] == leafComms;
    }
  }
}
