/** Constants of the darkpool client (darkpool-client/src/constants.rs): the
    chain environment with its textual form, the polling intervals, and the
    default authentication path of the empty Merkle tree. The empty leaf
    value, the tree height and the Poseidon hash come from other crates and
    are parameters here. */
module DarkpoolConstants {
  import opened Wrappers
  import Merkle

  datatype Chain = Mainnet | Testnet | Devnet

  /** `Display for Chain`. */
  function ChainName(c: Chain): (r: string)
    ensures forall i | 0 <= i < |r| :: 'a' <= r[i] <= 'z'
  {
    match c
    case Mainnet => "mainnet"
    case Testnet => "testnet"
    case Devnet => "devnet"
  }

  /** Lower-casing one character; only ASCII letters change. */
  function LowerChar(ch: char): (r: char)
    ensures 'A' <= ch <= 'Z' ==> 'a' <= r <= 'z'
    ensures !('A' <= ch <= 'Z') ==> r == ch
  {
    if 'A' <= ch <= 'Z' then (ch as int + 32) as char else ch
  }

  /** `to_lowercase`, on ASCII letters. */
  function ToLower(s: string): (r: string)
    ensures |r| == |s| && forall i | 0 <= i < |s| :: r[i] == LowerChar(s[i])
  {
    if s == [] then [] else [LowerChar(s[0])] + ToLower(s[1..])
  }

  /** `FromStr for Chain`: the lower-cased name, or an error naming the
      input as given. */
  function ParseChain(s: string): (r: Result<Chain, string>)
    ensures r.Failure? ==> r.error == "Invalid chain: " + s
  {
    var lower := ToLower(s);
    if lower == "mainnet" then Success(Mainnet)
    else if lower == "testnet" then Success(Testnet)
    else if lower == "devnet" then Success(Devnet)
    else Failure("Invalid chain: " + s)
  }

  /** Lower-case text is left alone. */
  lemma ToLowerOfLower(s: string)
    requires forall i | 0 <= i < |s| :: 'a' <= s[i] <= 'z'
    ensures ToLower(s) == s
  {
  }

  /** Every chain reads back from its own name. */
  lemma ChainNameRoundTrip(c: Chain)
    ensures ParseChain(ChainName(c)) == Success(c)
  {
    ToLowerOfLower(ChainName(c));
  }

  /** Parsing succeeds exactly on the names of chains in any letter case,
      and gives the chain whose name is the lower-cased input. */
  lemma ParseChainAccepts(s: string)
    ensures ParseChain(s).Success? <==> exists c: Chain :: ToLower(s) == ChainName(c)
    ensures ParseChain(s).Success? ==> ChainName(ParseChain(s).value) == ToLower(s)
  {
    if ParseChain(s).Failure? {
      forall c: Chain
        ensures ToLower(s) != ChainName(c)
      {
      }
    } else {
      assert ToLower(s) == ChainName(ParseChain(s).value);
    }
  }

  /** `BLOCK_POLLING_INTERVAL_MS` and `EVENT_FILTER_POLLING_INTERVAL_MS`. */
  const BlockPollingIntervalMs: nat := 100
  const EventFilterPollingIntervalMs: nat := 7000

  // ---------------------------------------------------------------------
  // The default authentication path
  // ---------------------------------------------------------------------

  /** The root of an empty subtree of the given height: the empty leaf,
      hashed with itself once per level. */
  function EmptyRoot<F>(emptyLeaf: F, hash: seq<F> -> F, level: nat): F
  {
    if level == 0 then emptyLeaf
    else
      var below := EmptyRoot(emptyLeaf, hash, level - 1);
      hash([below, below])
  }

  /** The first `height` empty-subtree roots, lowest first. */
  function EmptyPath<F>(emptyLeaf: F, hash: seq<F> -> F, height: nat): (r: seq<F>)
    ensures |r| == height
    ensures forall i | 0 <= i < height :: r[i] == EmptyRoot(emptyLeaf, hash, i)
  {
    if height == 0 then [] else EmptyPath(emptyLeaf, hash, height - 1) + [EmptyRoot(emptyLeaf, hash, height - 1)]
  }

  /** `DEFAULT_AUTHENTICATION_PATH`: push the current value, then hash it
      with itself, `MERKLE_HEIGHT` times. The result always has exactly
      `MERKLE_HEIGHT` entries, so the conversion into a fixed-size array
      cannot fail. */
  method DefaultAuthenticationPath<F>(emptyLeaf: F, hash: seq<F> -> F, merkleHeight: nat) returns (values: seq<F>)
    ensures values == EmptyPath(emptyLeaf, hash, merkleHeight)
  {
    values := [];
    var currVal := emptyLeaf;
    var i := 0;
    while i < merkleHeight
      invariant 0 <= i <= merkleHeight
      invariant values == EmptyPath(emptyLeaf, hash, i)
      invariant currVal == EmptyRoot(emptyLeaf, hash, i)
    {
      values := values + [currVal];
      currVal := hash([currVal, currVal]);
      i := i + 1;
    }
  }

  /** The path starts at the empty leaf and each entry is the previous one
      hashed with itself. */
  lemma DefaultPathRecursive<F>(emptyLeaf: F, hash: seq<F> -> F, merkleHeight: nat)
    ensures var path := EmptyPath(emptyLeaf, hash, merkleHeight);
      (merkleHeight > 0 ==> path[0] == emptyLeaf) &&
      forall i | 0 <= i < merkleHeight - 1 :: path[i + 1] == hash([path[i], path[i]])
  {
  }

  function Infallible<F>(hash: seq<F> -> F): Merkle.SpongeHash<F>
  {
    s => Success(hash(s))
  }

  /** The default path is the opening of the leftmost leaf of the empty
      tree: folding it up from the empty leaf, as the Merkle gadget does,
      gives the root of the empty tree of that height. */
  lemma {:induction false} DefaultPathOpensEmptyTree<F>(emptyLeaf: F, hash: seq<F> -> F, height: nat)
    ensures Merkle.RootFold(emptyLeaf, EmptyPath(emptyLeaf, hash, height), Infallible(hash))
         == Success(EmptyRoot(emptyLeaf, hash, height))
  {
    if height > 0 {
      var below := EmptyRoot(emptyLeaf, hash, height - 1);
      DefaultPathOpensEmptyTree(emptyLeaf, hash, height - 1);
      Merkle.RootFoldSnoc(emptyLeaf, EmptyPath(emptyLeaf, hash, height - 1), below, Infallible(hash));
    }
  }
}
