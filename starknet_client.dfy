/** The default authentication path of the StarkNet client
    (starknet-client/src/lib.rs). Its documentation promises recursive
    hashes of the empty leaf, but the loop hashes the same value every time.
    The empty leaf value, the tree height and the Poseidon hash come from
    other crates and are parameters here. */
module StarknetClient {

  /** Every entry the written loop pushes: the empty leaf hashed with itself. */
  function PathAsWritten<F>(emptyLeaf: F, hash: seq<F> -> F, height: nat): (r: seq<F>)
    ensures |r| == height
    ensures forall i | 0 <= i < height :: r[i] == hash([emptyLeaf, emptyLeaf])
  {
    if height == 0 then [] else PathAsWritten(emptyLeaf, hash, height - 1) + [hash([emptyLeaf, emptyLeaf])]
  }

  /** `DEFAULT_AUTHENTICATION_PATH` as written: `curr_val` is never
      updated inside the loop. */
  method DefaultAuthenticationPathAsWritten<F>(emptyLeaf: F, hash: seq<F> -> F, merkleHeight: nat) returns (values: seq<F>)
    ensures values == PathAsWritten(emptyLeaf, hash, merkleHeight)
  {
    values := [];
    var currVal := emptyLeaf;
    var i := 0;
    while i < merkleHeight
      invariant 0 <= i <= merkleHeight
      invariant values == PathAsWritten(emptyLeaf, hash, i)
    {
      values := values + [hash([currVal, currVal])];
      i := i + 1;
    }
  }

  /** The hash of the empty leaf with itself, then that hashed with itself,
      and so on: entry `i` is the root of an empty subtree of height `i + 1`. */
  function RecursiveEntry<F>(emptyLeaf: F, hash: seq<F> -> F, i: nat): F
  {
    if i == 0 then hash([emptyLeaf, emptyLeaf])
    else
      var below := RecursiveEntry(emptyLeaf, hash, i - 1);
      hash([below, below])
  }

  function RecursivePath<F>(emptyLeaf: F, hash: seq<F> -> F, height: nat): (r: seq<F>)
    ensures |r| == height
    ensures forall i | 0 <= i < height :: r[i] == RecursiveEntry(emptyLeaf, hash, i)
  {
    if height == 0 then [] else RecursivePath(emptyLeaf, hash, height - 1) + [RecursiveEntry(emptyLeaf, hash, height - 1)]
  }

  /** The path as documented: the same first entry, then each entry hashed
      with itself. */
  method DefaultAuthenticationPath<F>(emptyLeaf: F, hash: seq<F> -> F, merkleHeight: nat) returns (values: seq<F>)
    ensures values == RecursivePath(emptyLeaf, hash, merkleHeight)
  {
    values := [];
    var currVal := hash([emptyLeaf, emptyLeaf]);
    var i := 0;
    while i < merkleHeight
      invariant 0 <= i <= merkleHeight
      invariant values == RecursivePath(emptyLeaf, hash, i)
      invariant currVal == RecursiveEntry(emptyLeaf, hash, i)
    {
      values := values + [currVal];
      currVal := hash([currVal, currVal]);
      i := i + 1;
    }
  }

  /** The corrected path is recursive: each entry is the previous one hashed
      with itself. */
  lemma RecursivePathIsRecursive<F>(emptyLeaf: F, hash: seq<F> -> F, height: nat)
    ensures var path := RecursivePath(emptyLeaf, hash, height);
      (height > 0 ==> path[0] == hash([emptyLeaf, emptyLeaf])) &&
      forall i | 0 <= i < height - 1 :: path[i + 1] == hash([path[i], path[i]])
  {
  }

  /** With two or more levels, the written path is the documented one
      exactly when the first entry is a fixed point of hashing with itself. */
  lemma AsWrittenMatchesOnlyAtFixedPoint<F>(emptyLeaf: F, hash: seq<F> -> F, height: nat)
    requires height >= 2
    ensures var v := hash([emptyLeaf, emptyLeaf]);
      PathAsWritten(emptyLeaf, hash, height) == RecursivePath(emptyLeaf, hash, height) <==> hash([v, v]) == v
  {
    var v := hash([emptyLeaf, emptyLeaf]);
    var written := PathAsWritten(emptyLeaf, hash, height);
    var documented := RecursivePath(emptyLeaf, hash, height);
    if hash([v, v]) == v {
      forall i | 0 <= i < height
        ensures written[i] == documented[i]
      {
        FixedPointEntries(emptyLeaf, hash, i);
      }
    } else {
      assert written[1] != documented[1];
    }
  }

  lemma {:induction false} FixedPointEntries<F>(emptyLeaf: F, hash: seq<F> -> F, i: nat)
    requires hash([hash([emptyLeaf, emptyLeaf]), hash([emptyLeaf, emptyLeaf])]) == hash([emptyLeaf, emptyLeaf])
    ensures RecursiveEntry(emptyLeaf, hash, i) == hash([emptyLeaf, emptyLeaf])
  {
    if i > 0 {
      FixedPointEntries(emptyLeaf, hash, i - 1);
    }
  }

  /** A concrete instance: with the empty leaf 0, a hash that adds one to its
      first input and two levels, the written path is [1, 1] where the
      documented one is [1, 2]. */
  lemma AsWrittenCounterexample()
    ensures var hash := (s: seq<int>) => if |s| == 0 then 0 else s[0] + 1;
      PathAsWritten(0, hash, 2) == [1, 1] && RecursivePath(0, hash, 2) == [1, 2]
  {
    var hash := (s: seq<int>) => if |s| == 0 then 0 else s[0] + 1;
    assert RecursiveEntry(0, hash, 1) == 2;
  }
}
