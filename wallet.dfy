/** The relayer's wallet (common/src/types/wallet.rs): insertion-ordered
    maps of orders and balances, the fixed-width circuit wallet built from
    them, default-element removal, the balance and fee chosen for an order,
    and the share bookkeeping of reblinding. Cryptographic helpers (the hash
    chain and share construction) are parameters of the operations that
    use them. */
module Wallets {
  import opened Wrappers
  import opened Scalars
  import opened Padding
  import opened Keychain
  import opened GossipTypes

  // ---------------------------------------------------------------------
  // Order-preserving maps
  // ---------------------------------------------------------------------

  /** An `IndexMap`: its entries in insertion order. */
  datatype IndexMap<K, V> = IndexMap(entries: seq<(K, V)>)

  predicate DistinctKeys<K(==), V>(es: seq<(K, V)>)
  {
    forall i, j | 0 <= i < j < |es| :: es[i].0 != es[j].0
  }

  predicate HasKey<K(==), V>(es: seq<(K, V)>, k: K)
  {
    exists i | 0 <= i < |es| :: es[i].0 == k
  }

  /** `IndexMap::get`: the value stored under `k`. */
  function Get<K(==), V>(es: seq<(K, V)>, k: K): (r: Option<V>)
    ensures r.None? <==> !HasKey(es, k)
    ensures r.Some? ==> (k, r.value) in es
  {
    if es == [] then None
    else if es[0].0 == k then Some(es[0].1)
    else
      var r := Get(es[1..], k);
      assert HasKey(es, k) <==> HasKey(es[1..], k) by {
        if HasKey(es[1..], k) {
          var i :| 0 <= i < |es[1..]| && es[1..][i].0 == k;
          assert es[i + 1].0 == k;
        }
      }
      r
  }

  /** `IndexMap::insert`: a key already present keeps its position and
      takes the new value; a new key goes at the end. */
  function Insert<K(==), V>(es: seq<(K, V)>, k: K, v: V): (r: seq<(K, V)>)
  {
    if es == [] then [(k, v)]
    else if es[0].0 == k then [(k, v)] + es[1..]
    else [es[0]] + Insert(es[1..], k, v)
  }

  /** The values in insertion order (`into_values`). */
  function Values<K, V>(es: seq<(K, V)>): (r: seq<V>)
    ensures |r| == |es|
  {
    if es == [] then [] else [es[0].1] + Values(es[1..])
  }

  /** `collect` into an `IndexMap`: the pairs inserted one after another. */
  function Collect<K(==), V>(pairs: seq<(K, V)>): seq<(K, V)>
  {
    if pairs == [] then []
    else
      var last := pairs[|pairs| - 1];
      Insert(Collect(pairs[..|pairs| - 1]), last.0, last.1)
  }

  /** `serialize_indexmap`: the entries as a vector of pairs, in order. */
  function SerializeIndexMap<K, V>(m: IndexMap<K, V>): (r: seq<(K, V)>)
    ensures |r| == |m.entries| && forall i | 0 <= i < |r| :: r[i] == m.entries[i]
  {
    m.entries
  }

  /** `deserialize_indexmap`: the pairs collected into a map. */
  function DeserializeIndexMap<K(==), V>(pairs: seq<(K, V)>): IndexMap<K, V>
  {
    IndexMap(Collect(pairs))
  }

  /** `IndexMap::retain`: the entries whose value passes `keep`, in order. */
  function Retain<K, V>(es: seq<(K, V)>, keep: V -> bool): (r: seq<(K, V)>)
    ensures |r| <= |es|
  {
    if es == [] then []
    else (if keep(es[0].1) then [es[0]] else []) + Retain(es[1..], keep)
  }

  /** `Vec::retain`. */
  function Filter<T>(xs: seq<T>, keep: T -> bool): (r: seq<T>)
    ensures |r| <= |xs|
  {
    if xs == [] then [] else (if keep(xs[0]) then [xs[0]] else []) + Filter(xs[1..], keep)
  }

  // ----- map lemmas -----

  /** Inserting a key looks it up to the new value and leaves every other
      key's value alone. */
  lemma {:induction false} InsertGet<K, V>(es: seq<(K, V)>, k: K, v: V, q: K)
    ensures Get(Insert(es, k, v), q) == if q == k then Some(v) else Get(es, q)
  {
    if es != [] && es[0].0 != k {
      InsertGet(es[1..], k, v, q);
      assert Insert(es, k, v)[1..] == Insert(es[1..], k, v);
    }
  }

  /** Inserting an absent key appends it. */
  lemma {:induction false} InsertAbsent<K, V>(es: seq<(K, V)>, k: K, v: V)
    requires !HasKey(es, k)
    ensures Insert(es, k, v) == es + [(k, v)]
  {
    if es != [] {
      assert es[0].0 != k;
      InsertAbsent(es[1..], k, v);
      assert es == [es[0]] + es[1..];
    }
  }

  /** The keys after an insertion are the old keys plus `k`. */
  lemma {:induction false} InsertKeys<K, V>(es: seq<(K, V)>, k: K, v: V, q: K)
    ensures HasKey(Insert(es, k, v), q) <==> HasKey(es, q) || q == k
  {
    InsertGet(es, k, v, q);
  }

  /** Insertion keeps keys distinct. */
  lemma {:induction false} InsertDistinct<K, V>(es: seq<(K, V)>, k: K, v: V)
    requires DistinctKeys(es)
    ensures DistinctKeys(Insert(es, k, v))
  {
    if es == [] {
    } else if es[0].0 == k {
      var r := Insert(es, k, v);
      assert forall i | 0 <= i < |r| :: r[i].0 == es[i].0;
    } else {
      var tail := es[1..];
      assert DistinctKeys(tail);
      InsertDistinct(tail, k, v);
      var r := Insert(es, k, v);
      assert r == [es[0]] + Insert(tail, k, v);
      forall j | 0 < j < |r|
        ensures r[j].0 != es[0].0
      {
        assert r[j] in Insert(tail, k, v);
        assert HasKey(Insert(tail, k, v), r[j].0);
        InsertKeys(tail, k, v, r[j].0);
        if HasKey(tail, r[j].0) {
          var i :| 0 <= i < |tail| && tail[i].0 == r[j].0;
          assert es[i + 1].0 == r[j].0;
        }
      }
    }
  }

  /** Collecting any pairs gives distinct keys. */
  lemma {:induction false} CollectDistinct<K, V>(pairs: seq<(K, V)>)
    ensures DistinctKeys(Collect(pairs))
  {
    if pairs != [] {
      CollectDistinct(pairs[..|pairs| - 1]);
      var last := pairs[|pairs| - 1];
      InsertDistinct(Collect(pairs[..|pairs| - 1]), last.0, last.1);
    }
  }

  /** The value of the last pair with key `k`, if any. */
  function LastValue<K(==), V>(pairs: seq<(K, V)>, k: K): Option<V>
  {
    if pairs == [] then None
    else if pairs[|pairs| - 1].0 == k then Some(pairs[|pairs| - 1].1)
    else LastValue(pairs[..|pairs| - 1], k)
  }

  /** In a collected map, a later pair with the same key overrides an
      earlier one. */
  lemma {:induction false} CollectGet<K, V>(pairs: seq<(K, V)>, k: K)
    ensures Get(Collect(pairs), k) == LastValue(pairs, k)
  {
    if pairs != [] {
      var last := pairs[|pairs| - 1];
      CollectGet(pairs[..|pairs| - 1], k);
      InsertGet(Collect(pairs[..|pairs| - 1]), last.0, last.1, k);
    }
  }

  /** Collecting pairs with distinct keys keeps every pair, in order. */
  lemma {:induction false} CollectDistinctPairs<K, V>(pairs: seq<(K, V)>)
    requires DistinctKeys(pairs)
    ensures Collect(pairs) == pairs
  {
    if pairs != [] {
      var init := pairs[..|pairs| - 1];
      var last := pairs[|pairs| - 1];
      assert DistinctKeys(init);
      CollectDistinctPairs(init);
      InsertAbsent(init, last.0, last.1);
      assert init + [last] == pairs;
    }
  }

  /** Deserialising a serialised map gives back the same entries in the
      same order. */
  lemma IndexMapSerdeRoundTrip<K, V>(m: IndexMap<K, V>)
    requires DistinctKeys(m.entries)
    ensures DeserializeIndexMap(SerializeIndexMap(m)) == m
  {
    CollectDistinctPairs(m.entries);
  }

  // ----- retain and filter -----

  /** Retaining entries filters their values. */
  lemma {:induction false} RetainValues<K, V>(es: seq<(K, V)>, keep: V -> bool)
    ensures Values(Retain(es, keep)) == Filter(Values(es), keep)
  {
    if es != [] {
      RetainValues(es[1..], keep);
      assert Values(es)[1..] == Values(es[1..]);
      ValuesAppend(if keep(es[0].1) then [es[0]] else [], Retain(es[1..], keep));
    }
  }

  lemma {:induction false} ValuesAppend<K, V>(xs: seq<(K, V)>, ys: seq<(K, V)>)
    ensures Values(xs + ys) == Values(xs) + Values(ys)
  {
    if xs != [] {
      assert (xs + ys)[1..] == xs[1..] + ys;
      ValuesAppend(xs[1..], ys);
    } else {
      assert xs + ys == ys;
    }
  }

  /** Retained entries are entries of the map, so their keys stay distinct. */
  lemma {:induction false} RetainSubset<K, V>(es: seq<(K, V)>, keep: V -> bool)
    ensures forall e | e in Retain(es, keep) :: e in es && keep(e.1)
  {
    if es != [] {
      RetainSubset(es[1..], keep);
    }
  }

  lemma {:induction false} RetainDistinct<K, V>(es: seq<(K, V)>, keep: V -> bool)
    requires DistinctKeys(es)
    ensures DistinctKeys(Retain(es, keep))
  {
    if es != [] {
      var tail := es[1..];
      assert DistinctKeys(tail);
      RetainDistinct(tail, keep);
      RetainSubset(tail, keep);
      var rest := Retain(tail, keep);
      forall j | 0 <= j < |rest|
        ensures rest[j].0 != es[0].0
      {
        assert rest[j] in tail;
        var i :| 0 <= i < |tail| && tail[i] == rest[j];
        assert es[i + 1] == rest[j];
      }
    }
  }

  /** What `retain` keeps: exactly the elements that pass. */
  lemma {:induction false} FilterMembers<T>(xs: seq<T>, keep: T -> bool)
    ensures forall x :: x in Filter(xs, keep) <==> x in xs && keep(x)
  {
    if xs != [] {
      FilterMembers(xs[1..], keep);
      assert xs == [xs[0]] + xs[1..];
    }
  }

  /** `retain` preserves order: it distributes over concatenation. */
  lemma {:induction false} FilterAppend<T>(xs: seq<T>, ys: seq<T>, keep: T -> bool)
    ensures Filter(xs + ys, keep) == Filter(xs, keep) + Filter(ys, keep)
  {
    if xs != [] {
      assert (xs + ys)[1..] == xs[1..] + ys;
      FilterAppend(xs[1..], ys, keep);
    } else {
      assert xs + ys == ys;
    }
  }

  /** Retaining twice is retaining once. */
  lemma {:induction false} FilterIdempotent<T>(xs: seq<T>, keep: T -> bool)
    ensures Filter(Filter(xs, keep), keep) == Filter(xs, keep)
  {
    if xs != [] {
      FilterIdempotent(xs[1..], keep);
      FilterAppend(if keep(xs[0]) then [xs[0]] else [], Filter(xs[1..], keep), keep);
    }
  }

  /** A sequence all of whose elements pass is kept whole. */
  lemma {:induction false} FilterAllPass<T>(xs: seq<T>, keep: T -> bool)
    requires forall i | 0 <= i < |xs| :: keep(xs[i])
    ensures Filter(xs, keep) == xs
  {
    if xs != [] {
      FilterAllPass(xs[1..], keep);
    }
  }

  /** A sequence none of whose elements pass is dropped. */
  lemma {:induction false} FilterNonePass<T>(xs: seq<T>, keep: T -> bool)
    requires forall i | 0 <= i < |xs| :: !keep(xs[i])
    ensures Filter(xs, keep) == []
  {
    if xs != [] {
      FilterNonePass(xs[1..], keep);
    }
  }

  // ---------------------------------------------------------------------
  // Wallet elements
  // ---------------------------------------------------------------------

  type OrderIdentifier = nat
  type WalletIdentifier = nat
  /** Mints are ERC-20 addresses, held as big integers. */
  type Mint = nat

  const U32Limit: nat := 0x1_0000_0000
  type U32 = x: nat | x < U32Limit

  datatype Balance = Balance(mint: Mint, amount: U64)

  datatype OrderSide = Buy | Sell

  datatype Order = Order(quoteMint: Mint, baseMint: Mint, side: OrderSide, price: nat, amount: U64)

  /** `Fee`: the percentage fee is a fixed-point value, kept as its raw
      representation. */
  datatype Fee = Fee(settleKey: nat, gasAddr: Mint, gasTokenAmount: U64, percentageFee: nat)

  const DefaultBalance := Balance(0, 0)
  const DefaultOrder := Order(0, 0, Buy, 0, 0)
  const DefaultFee := Fee(0, 0, 0, 0)

  /** `is_default`: equal to the derived default. */
  predicate IsDefaultBalance(b: Balance) { b == DefaultBalance }
  predicate IsDefaultOrder(o: Order) { o == DefaultOrder }
  predicate IsDefaultFee(f: Fee) { f == DefaultFee }

  predicate NonDefaultBalance(b: Balance) { !IsDefaultBalance(b) }
  predicate NonDefaultOrder(o: Order) { !IsDefaultOrder(o) }
  predicate NonDefaultFee(f: Fee) { !IsDefaultFee(f) }

  datatype PrivateKeyChain = PrivateKeyChain(skRoot: Option<SecretSigningKey>, skMatch: SecretIdentificationKey)

  datatype KeyChain = KeyChain(publicKeys: PublicKeyChain, secretKeys: PrivateKeyChain)

  /** A Merkle opening of the wallet's share commitment; only carried. */
  datatype MerkleAuthenticationPath = MerkleAuthenticationPath(path: seq<Scalar>, leafIndex: nat, value: Scalar)

  /** The widths `MAX_BALANCES`, `MAX_ORDERS` and `MAX_FEES` of the circuit
      wallet. */
  datatype WalletSizes = WalletSizes(maxBalances: nat, maxOrders: nat, maxFees: nat)

  /** `SizedWallet` of the circuits: fixed-width arrays of elements. */
  datatype CircuitWallet = CircuitWallet(
    balances: seq<Balance>,
    orders: seq<Order>,
    fees: seq<Fee>,
    keys: PublicKeyChain,
    blinder: Scalar)

  /** `From<Wallet> for SizedCircuitWallet`: each list is the wallet's
      elements in insertion order, padded with defaults or truncated to its
      width. */
  function ToCircuitWallet(balances: seq<(Mint, Balance)>, orders: seq<(OrderIdentifier, Order)>, fees: seq<Fee>,
                           keys: PublicKeyChain, blinder: Scalar, sizes: WalletSizes): (r: CircuitWallet)
    ensures |r.balances| == sizes.maxBalances && |r.orders| == sizes.maxOrders && |r.fees| == sizes.maxFees
    ensures forall i | 0 <= i < sizes.maxBalances ::
      r.balances[i] == if i < |balances| then Values(balances)[i] else DefaultBalance
    ensures forall i | 0 <= i < sizes.maxOrders ::
      r.orders[i] == if i < |orders| then Values(orders)[i] else DefaultOrder
    ensures forall i | 0 <= i < sizes.maxFees :: r.fees[i] == if i < |fees| then fees[i] else DefaultFee
    ensures r.keys == keys && r.blinder == blinder
  {
    CircuitWallet(
      PadTake(Values(balances), DefaultBalance, sizes.maxBalances),
      PadTake(Values(orders), DefaultOrder, sizes.maxOrders),
      PadTake(fees, DefaultFee, sizes.maxFees),
      keys,
      blinder)
  }

  /** When the elements fit, padding loses nothing: dropping the default
      entries of the padded list gives the wallet's non-default elements. */
  lemma PaddingKeepsElements<T>(xs: seq<T>, default: T, n: nat, keep: T -> bool)
    requires |xs| <= n && !keep(default)
    ensures PadTake(xs, default, n)[..|xs|] == xs
    ensures Filter(PadTake(xs, default, n), keep) == Filter(xs, keep)
  {
    var padded := PadTake(xs, default, n);
    var tail := padded[|xs|..];
    assert padded == xs + tail;
    FilterAppend(xs, tail, keep);
    FilterNonePass(tail, keep);
  }

  // ----- balance and fee selection -----

  /** The mint the order spends when matched. */
  function OrderMint(o: Order): (m: Mint)
    ensures o.side.Buy? ==> m == o.quoteMint
    ensures o.side.Sell? ==> m == o.baseMint
  {
    match o.side
    case Buy => o.quoteMint
    case Sell => o.baseMint
  }

  /** `fees.iter().find(|fee| !fee.is_default())`. */
  function FirstNonDefaultFee(fees: seq<Fee>): (r: Option<Fee>)
    ensures r.None? <==> forall i | 0 <= i < |fees| :: IsDefaultFee(fees[i])
    ensures r.Some? ==> r.value in fees && NonDefaultFee(r.value)
  {
    if fees == [] then None
    else if NonDefaultFee(fees[0]) then Some(fees[0])
    else FirstNonDefaultFee(fees[1..])
  }

  /** The fee found is the first non-default one: every fee before it is
      default. */
  lemma {:induction false} FirstNonDefaultFeeIsFirst(fees: seq<Fee>)
    requires FirstNonDefaultFee(fees).Some?
    ensures exists i | 0 <= i < |fees| ::
      fees[i] == FirstNonDefaultFee(fees).value && forall j | 0 <= j < i :: IsDefaultFee(fees[j])
  {
    if IsDefaultFee(fees[0]) {
      var tail := fees[1..];
      FirstNonDefaultFeeIsFirst(tail);
      var i :| 0 <= i < |tail| && tail[i] == FirstNonDefaultFee(tail).value
               && forall j | 0 <= j < i :: IsDefaultFee(tail[j]);
      assert fees[i + 1] == FirstNonDefaultFee(fees).value;
      assert forall j | 0 <= j < i + 1 :: IsDefaultFee(fees[j]);
    } else {
      assert fees[0] == FirstNonDefaultFee(fees).value;
    }
  }

  /** `get_balance_and_fee_for_order`. */
  function BalanceAndFeeForOrder(balances: seq<(Mint, Balance)>, fees: seq<Fee>, o: Order): (r: Option<(Balance, Fee, Balance)>)
    ensures r.Some? <==>
      Get(balances, OrderMint(o)).Some? && FirstNonDefaultFee(fees).Some?
      && Get(balances, FirstNonDefaultFee(fees).value.gasAddr).Some?
      && Get(balances, FirstNonDefaultFee(fees).value.gasAddr).value.amount >= FirstNonDefaultFee(fees).value.gasTokenAmount
  {
    match Get(balances, OrderMint(o))
    case None => None
    case Some(balance) =>
      match FirstNonDefaultFee(fees)
      case None => None
      case Some(fee) =>
        match Get(balances, fee.gasAddr)
        case None => None
        case Some(feeBalance) =>
          if feeBalance.amount < fee.gasTokenAmount then None
          else Some((balance, fee, feeBalance))
  }

  /** What the selection means: the balance is the one stored under the
      order's spending mint, the fee is the first non-default fee, and the
      gas balance covers that fee's gas amount. */
  lemma BalanceAndFeeMeaning(balances: seq<(Mint, Balance)>, fees: seq<Fee>, o: Order)
    requires BalanceAndFeeForOrder(balances, fees, o).Some?
    ensures var (b, f, fb) := BalanceAndFeeForOrder(balances, fees, o).value;
      (OrderMint(o), b) in balances && (f.gasAddr, fb) in balances
      && fb.amount >= f.gasTokenAmount && NonDefaultFee(f)
      && exists i | 0 <= i < |fees| :: fees[i] == f && forall j | 0 <= j < i :: IsDefaultFee(fees[j])
  {
    FirstNonDefaultFeeIsFirst(fees);
  }

  // ----- reblinding -----

  /** The private shares handed to share construction on reblinding: the
      hash chain of length `n - 1` from share `n - 2`, then the second
      element of the length-2 chain from share `n - 1`. */
  function ReblindedPrivateShares(shares: seq<Scalar>, chain: (Scalar, nat) -> seq<Scalar>): (r: seq<Scalar>)
    requires |shares| >= 2
    requires |chain(shares[|shares| - 1], 2)| == 2
    requires |chain(shares[|shares| - 2], |shares| - 1)| == |shares| - 1
    ensures |r| == |shares|
    ensures r[..|shares| - 1] == chain(shares[|shares| - 2], |shares| - 1)
    ensures r[|shares| - 1] == chain(shares[|shares| - 1], 2)[1]
  {
    var n := |shares|;
    chain(shares[n - 2], n - 1) + [chain(shares[n - 1], 2)[1]]
  }

  /** A wallet managed by the local relayer. */
  class Wallet {
    var walletId: WalletIdentifier
    var orders: IndexMap<OrderIdentifier, Order>
    var balances: IndexMap<Mint, Balance>
    var fees: seq<Fee>
    var keyChain: KeyChain
    var blinder: Scalar
    /** `metadata.replicas`. */
    var replicas: set<WrappedPeerId>
    /** `private_shares` and `blinded_public_shares`, as their scalar
        serialisations. */
    var privateShares: seq<Scalar>
    var blindedPublicShares: seq<Scalar>
    var merkleProof: Option<MerkleAuthenticationPath>
    /** `proof_staleness`, an atomic counter. */
    var proofStaleness: U32

    /** Both maps keep distinct keys, as an `IndexMap` does. */
    predicate Valid()
      reads this
    {
      DistinctKeys(orders.entries) && DistinctKeys(balances.entries)
    }

    constructor (walletId: WalletIdentifier, orders: IndexMap<OrderIdentifier, Order>, balances: IndexMap<Mint, Balance>,
                 fees: seq<Fee>, keyChain: KeyChain, blinder: Scalar, replicas: set<WrappedPeerId>,
                 privateShares: seq<Scalar>, blindedPublicShares: seq<Scalar>,
                 merkleProof: Option<MerkleAuthenticationPath>, proofStaleness: U32)
      ensures this.walletId == walletId && this.orders == orders && this.balances == balances
      ensures this.fees == fees && this.keyChain == keyChain && this.blinder == blinder
      ensures this.replicas == replicas && this.privateShares == privateShares
      ensures this.blindedPublicShares == blindedPublicShares && this.merkleProof == merkleProof
      ensures this.proofStaleness == proofStaleness
    {
      this.walletId := walletId;
      this.orders := orders;
      this.balances := balances;
      this.fees := fees;
      this.keyChain := keyChain;
      this.blinder := blinder;
      this.replicas := replicas;
      this.privateShares := privateShares;
      this.blindedPublicShares := blindedPublicShares;
      this.merkleProof := merkleProof;
      this.proofStaleness := proofStaleness;
    }

    /** `clone`: a new wallet with every field equal, the staleness counter
        included. */
    method Clone() returns (c: Wallet)
      ensures fresh(c)
      ensures c.walletId == walletId && c.orders == orders && c.balances == balances
      ensures c.fees == fees && c.keyChain == keyChain && c.blinder == blinder
      ensures c.replicas == replicas && c.privateShares == privateShares
      ensures c.blindedPublicShares == blindedPublicShares && c.merkleProof == merkleProof
      ensures c.proofStaleness == proofStaleness
    {
      var staleness := proofStaleness;
      c := new Wallet(walletId, orders, balances, fees, keyChain, blinder, replicas,
                      privateShares, blindedPublicShares, merkleProof, staleness);
    }

    /** The circuit wallet of this wallet. */
    function CircuitWalletOf(sizes: WalletSizes): (r: CircuitWallet)
      reads this
      ensures |r.balances| == sizes.maxBalances && |r.orders| == sizes.maxOrders && |r.fees| == sizes.maxFees
      ensures r.keys == keyChain.publicKeys && r.blinder == blinder
    {
      ToCircuitWallet(balances.entries, orders.entries, fees, keyChain.publicKeys, blinder, sizes)
    }

    /** `needs_new_commitment_proof`: never, for now. */
    function NeedsNewCommitmentProof(): (r: bool)
      ensures !r
    {
      false
    }

    /** `get_balance_and_fee_for_order` on this wallet. */
    function GetBalanceAndFeeForOrder(o: Order): (r: Option<(Balance, Fee, Balance)>)
      reads this
      ensures r.Some? ==> Get(balances.entries, OrderMint(o)) == Some(r.value.0)
      ensures r.Some? ==> FirstNonDefaultFee(fees) == Some(r.value.1)
      ensures r.Some? ==> Get(balances.entries, r.value.1.gasAddr) == Some(r.value.2)
    {
      BalanceAndFeeForOrder(balances.entries, fees, o)
    }

    /** `remove_default_elements`: drops default balances, orders and fees,
        keeping the rest in order; nothing else changes. */
    method RemoveDefaultElements()
      requires Valid()
      modifies this
      ensures Valid()
      ensures balances == IndexMap(Retain(old(balances.entries), NonDefaultBalance))
      ensures orders == IndexMap(Retain(old(orders.entries), NonDefaultOrder))
      ensures fees == Filter(old(fees), NonDefaultFee)
      ensures walletId == old(walletId) && keyChain == old(keyChain) && blinder == old(blinder)
      ensures replicas == old(replicas) && privateShares == old(privateShares)
      ensures blindedPublicShares == old(blindedPublicShares) && merkleProof == old(merkleProof)
      ensures proofStaleness == old(proofStaleness)
    {
      RetainDistinct(balances.entries, NonDefaultBalance);
      RetainDistinct(orders.entries, NonDefaultOrder);
      balances := IndexMap(Retain(balances.entries, NonDefaultBalance));
      orders := IndexMap(Retain(orders.entries, NonDefaultOrder));
      fees := Filter(fees, NonDefaultFee);
    }

    /** `reblind_wallet`: the new blinder and its private share come from
        the length-2 hash chain on the last private share, the other shares
        from the chain on the one before; share construction (a parameter)
        then yields the new private and blinded public shares, computed from
        the wallet as it was. */
    method ReblindWallet(sizes: WalletSizes, chain: (Scalar, nat) -> seq<Scalar>,
                         createShares: (CircuitWallet, seq<Scalar>, Scalar) -> (seq<Scalar>, seq<Scalar>))
      requires |privateShares| >= 2
      requires |chain(privateShares[|privateShares| - 1], 2)| == 2
      requires |chain(privateShares[|privateShares| - 2], |privateShares| - 1)| == |privateShares| - 1
      modifies this
      ensures var newBlinder := chain(old(privateShares)[|old(privateShares)| - 1], 2)[0];
        var shares := createShares(old(CircuitWalletOf(sizes)), ReblindedPrivateShares(old(privateShares), chain), newBlinder);
        privateShares == shares.0 && blindedPublicShares == shares.1 && blinder == newBlinder
      ensures walletId == old(walletId) && orders == old(orders) && balances == old(balances)
      ensures fees == old(fees) && keyChain == old(keyChain) && replicas == old(replicas)
      ensures merkleProof == old(merkleProof) && proofStaleness == old(proofStaleness)
    {
      var serialized := privateShares;
      var n := |serialized|;
      var blinderAndPrivateShare := chain(serialized[n - 1], 2);
      var newBlinder := blinderAndPrivateShare[0];
      var newBlinderPrivateShare := blinderAndPrivateShare[1];
      var newPrivateShares := chain(serialized[n - 2], n - 1);
      newPrivateShares := newPrivateShares + [newBlinderPrivateShare];
      var circuitWallet := CircuitWalletOf(sizes);
      var shares := createShares(circuitWallet, newPrivateShares, newBlinder);
      privateShares := shares.0;
      blindedPublicShares := shares.1;
      blinder := newBlinder;
    }
  }

  // ----- properties of default removal -----

  /** After removal no default element remains, every non-default element
      remains, and the survivors keep their order. */
  lemma RemoveDefaultsSpec(balances: seq<(Mint, Balance)>, orders: seq<(OrderIdentifier, Order)>, fees: seq<Fee>)
    ensures forall b | b in Values(Retain(balances, NonDefaultBalance)) :: !IsDefaultBalance(b)
    ensures forall b :: b in Values(Retain(balances, NonDefaultBalance)) <==> b in Values(balances) && NonDefaultBalance(b)
    ensures Values(Retain(balances, NonDefaultBalance)) == Filter(Values(balances), NonDefaultBalance)
    ensures forall o :: o in Values(Retain(orders, NonDefaultOrder)) <==> o in Values(orders) && NonDefaultOrder(o)
    ensures Values(Retain(orders, NonDefaultOrder)) == Filter(Values(orders), NonDefaultOrder)
    ensures forall f :: f in Filter(fees, NonDefaultFee) <==> f in fees && NonDefaultFee(f)
  {
    RetainValues(balances, NonDefaultBalance);
    RetainValues(orders, NonDefaultOrder);
    FilterMembers(Values(balances), NonDefaultBalance);
    FilterMembers(Values(orders), NonDefaultOrder);
    FilterMembers(fees, NonDefaultFee);
  }

  /** Removing default elements twice is removing them once. */
  lemma RemoveDefaultsIdempotent(fees: seq<Fee>, balances: seq<(Mint, Balance)>)
    ensures Filter(Filter(fees, NonDefaultFee), NonDefaultFee) == Filter(fees, NonDefaultFee)
    ensures Values(Retain(Retain(balances, NonDefaultBalance), NonDefaultBalance))
         == Values(Retain(balances, NonDefaultBalance))
  {
    FilterIdempotent(fees, NonDefaultFee);
    RetainValues(balances, NonDefaultBalance);
    RetainValues(Retain(balances, NonDefaultBalance), NonDefaultBalance);
    FilterIdempotent(Values(balances), NonDefaultBalance);
  }

  /** Removing defaults never changes the fee chosen for an order. */
  lemma {:induction false} RemoveDefaultsKeepsFee(fees: seq<Fee>)
    ensures FirstNonDefaultFee(Filter(fees, NonDefaultFee)) == FirstNonDefaultFee(fees)
  {
    if fees != [] {
      var rest := Filter(fees[1..], NonDefaultFee);
      if NonDefaultFee(fees[0]) {
        assert Filter(fees, NonDefaultFee) == [fees[0]] + rest;
        assert ([fees[0]] + rest)[0] == fees[0];
      } else {
        assert Filter(fees, NonDefaultFee) == rest;
        RemoveDefaultsKeepsFee(fees[1..]);
      }
    }
  }
}
