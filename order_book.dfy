/** The order-book applicator (statev2/src/applicator/order_book.rs).

    Order records and nullifier sets share one table, `ORDERS_TABLE`, keyed
    by the strings `order:<id>` and `nullifier:<nullifier>`. The pure
    functions below say what each helper does to that table; the classes
    `DbTxn` (a write transaction) and `StateApplicator` run the helpers in
    place and are proved against those functions. */
module OrderBook {
  import opened Wrappers
  import opened Scalars

  // ---------------------------------------------------------------------
  // Types
  // ---------------------------------------------------------------------

  type OrderIdentifier = nat
  type Nullifier = Scalar
  type ClusterId = string

  const U32Limit: nat := 0x1_0000_0000
  type U32 = x: nat | x < U32Limit

  /** The default priority of a cluster and of an order. */
  const ClusterDefaultPriority: U32 := 1
  const OrderDefaultPriority: U32 := 1

  const ErrOrderMissing := "Order missing from message"

  datatype NetworkOrderState = Received | Verified | Cancelled

  /** A validity proof bundle; only the nullifier of the original shares it
      proves matters to the order book. */
  datatype OrderValidityProofBundle = OrderValidityProofBundle(originalSharesNullifier: Nullifier, proof: nat)

  datatype OrderValidityWitnessBundle = OrderValidityWitnessBundle(statementData: nat)

  datatype NetworkOrder = NetworkOrder(
    id: OrderIdentifier,
    publicShareNullifier: Nullifier,
    cluster: ClusterId,
    state: NetworkOrderState,
    validityProofs: Option<OrderValidityProofBundle>,
    validityProofWitnesses: Option<OrderValidityWitnessBundle>,
    timestamp: nat,
    local: bool)

  /** A value of `ORDERS_TABLE`: an order record or a nullifier set. Reading
      a key as the other kind fails to deserialise. */
  datatype TableValue = OrderInfo(order: NetworkOrder) | NullifierSet(ids: seq<OrderIdentifier>)

  type Table = map<string, TableValue>

  datatype StateApplicatorError = MissingEntry(message: string) | Storage(message: string)

  datatype SystemBusMessage = NewOrder(order: NetworkOrder) | OrderStateChange(order: NetworkOrder)

  // ---------------------------------------------------------------------
  // Priorities
  // ---------------------------------------------------------------------

  datatype OrderPriority = OrderPriority(clusterPriority: U32, orderPriority: U32)

  function DefaultOrderPriority(): OrderPriority
  {
    OrderPriority(ClusterDefaultPriority, OrderDefaultPriority)
  }

  /** `get_effective_priority`: the product of the two priorities. The
      product is computed in `u32`, so the model demands that it fits. */
  function EffectivePriority(p: OrderPriority): (r: U32)
    requires p.clusterPriority * p.orderPriority < U32Limit
    ensures p.clusterPriority == 1 ==> r == p.orderPriority
    ensures p.orderPriority == 1 ==> r == p.clusterPriority
    ensures r == 0 <==> p.clusterPriority == 0 || p.orderPriority == 0
  {
    p.clusterPriority * p.orderPriority
  }

  /** `get_cluster_priority_with_tx`: a cluster never written has the
      default priority. */
  function ClusterPriority(clusterPriorities: map<ClusterId, U32>, cluster: ClusterId): (r: U32)
    ensures cluster !in clusterPriorities ==> r == ClusterDefaultPriority
  {
    if cluster in clusterPriorities then clusterPriorities[cluster] else ClusterDefaultPriority
  }

  /** An order of a cluster with no stored priority gets the default
      priority, whose effective value is 1. */
  lemma NewOrderHasDefaultPriority(clusterPriorities: map<ClusterId, U32>, cluster: ClusterId)
    requires cluster !in clusterPriorities
    ensures OrderPriority(ClusterPriority(clusterPriorities, cluster), OrderDefaultPriority) == DefaultOrderPriority()
    ensures EffectivePriority(DefaultOrderPriority()) == 1
  {
  }

  // ---------------------------------------------------------------------
  // Keys
  // ---------------------------------------------------------------------

  function DigitValue(c: char): int { c as int - '0' as int }

  /** The value of a string of decimal digits. */
  function ParseDecimal(s: string): int
    decreases |s|
  {
    if s == [] then 0 else ParseDecimal(s[..|s| - 1]) * 10 + DigitValue(s[|s| - 1])
  }

  /** The decimal rendering of a number; `ParseDecimal` inverts it, so
      distinct numbers render differently. */
  function Decimal(n: nat): (s: string)
    ensures |s| >= 1
    ensures ParseDecimal(s) == n
    decreases n
  {
    if n < 10 then
      [('0' as int + n) as char]
    else
      var s := Decimal(n / 10) + [('0' as int + n % 10) as char];
      assert s[..|s| - 1] == Decimal(n / 10);
      s
  }

  /** `order_key`: `order:{id}`. */
  function OrderKey(id: OrderIdentifier): (k: string)
    ensures |k| > 6 && k[0] == 'o' && k[..6] == "order:" && ParseDecimal(k[6..]) == id
  {
    var k := "order:" + Decimal(id);
    assert k[6..] == Decimal(id);
    k
  }

  /** `nullifier_key`: `nullifier:{nullifier}`. */
  function NullifierKey(n: Nullifier): (k: string)
    ensures |k| > 10 && k[0] == 'n' && k[..10] == "nullifier:" && ParseDecimal(k[10..]) == n
  {
    var k := "nullifier:" + Decimal(n);
    assert k[10..] == Decimal(n);
    k
  }

  /** Order keys and nullifier keys never collide, and each key builder is
      injective. */
  lemma KeysNeverCollide(id: OrderIdentifier, id': OrderIdentifier, n: Nullifier, n': Nullifier)
    ensures OrderKey(id) != NullifierKey(n)
    ensures OrderKey(id) == OrderKey(id') <==> id == id'
    ensures NullifierKey(n) == NullifierKey(n') <==> n == n'
  {
    if OrderKey(id) == OrderKey(id') {
      assert OrderKey(id)[6..] == OrderKey(id')[6..];
    }
    if NullifierKey(n) == NullifierKey(n') {
      assert NullifierKey(n)[10..] == NullifierKey(n')[10..];
    }
  }

  // ---------------------------------------------------------------------
  // What each helper does to the table
  // ---------------------------------------------------------------------

  /** `read_order_info`: absent is `None`; a nullifier set stored under an
      order key does not deserialise. */
  function ReadOrderInfo(t: Table, id: OrderIdentifier): Result<Option<NetworkOrder>, StateApplicatorError>
  {
    if OrderKey(id) !in t then Success(None)
    else match t[OrderKey(id)]
      case OrderInfo(o) => Success(Some(o))
      case NullifierSet(_) => Failure(Storage("deserialization error"))
  }

  /** `read_order_info_unchecked`: a missing order is a `MissingEntry` error. */
  function ReadOrderInfoUnchecked(t: Table, id: OrderIdentifier): (r: Result<NetworkOrder, StateApplicatorError>)
    ensures OrderKey(id) !in t ==> r == Failure(MissingEntry(ErrOrderMissing))
    ensures r.Success? <==> OrderKey(id) in t && t[OrderKey(id)].OrderInfo?
    ensures r.Success? ==> r.value == t[OrderKey(id)].order
  {
    var info :- ReadOrderInfo(t, id);
    if info.None? then Failure(MissingEntry(ErrOrderMissing)) else Success(info.value)
  }

  /** `read_nullifier_set`: a nullifier never written has the empty set. */
  function ReadNullifierSet(t: Table, n: Nullifier): Result<seq<OrderIdentifier>, StateApplicatorError>
  {
    if NullifierKey(n) !in t then Success([])
    else match t[NullifierKey(n)]
      case NullifierSet(ids) => Success(ids)
      case OrderInfo(_) => Failure(Storage("deserialization error"))
  }

  /** `append_to_nullifier_set`: pushes the id only if it is not already in
      the set. */
  function AppendToNullifierSet(t: Table, n: Nullifier, id: OrderIdentifier): Result<Table, StateApplicatorError>
  {
    var members :- ReadNullifierSet(t, n);
    if id in members then Success(t) else Success(t[NullifierKey(n) := NullifierSet(members + [id])])
  }

  /** The `filter(|id| id != order_id)` of `update_order_nullifier`. */
  function Without(s: seq<OrderIdentifier>, id: OrderIdentifier): (r: seq<OrderIdentifier>)
    ensures id !in r
    ensures forall x :: x in r <==> x in s && x != id
  {
    if s == [] then [] else (if s[0] == id then [] else [s[0]]) + Without(s[1..], id)
  }

  /** `update_order_nullifier`: drop the id from the old set, then append it
      to the new one. */
  function UpdateOrderNullifier(t: Table, id: OrderIdentifier, oldN: Nullifier, newN: Nullifier): Result<Table, StateApplicatorError>
  {
    var oldSet :- ReadNullifierSet(t, oldN);
    AppendToNullifierSet(t[NullifierKey(oldN) := NullifierSet(Without(oldSet, id))], newN, id)
  }

  /** `write_order_info`. */
  function WriteOrderInfo(t: Table, o: NetworkOrder): Table
  {
    t[OrderKey(o.id) := OrderInfo(o)]
  }

  /** `add_order_with_tx`: re-index an order already known, otherwise index
      it under its nullifier; then write the record. */
  function AddOrder(t: Table, o: NetworkOrder): Result<Table, StateApplicatorError>
  {
    var info :- ReadOrderInfo(t, o.id);
    var t1 :- if info.Some? then UpdateOrderNullifier(t, o.id, info.value.publicShareNullifier, o.publicShareNullifier)
              else AppendToNullifierSet(t, o.publicShareNullifier, o.id);
    Success(WriteOrderInfo(t1, o))
  }

  /** The record `attach_validity_proof_with_tx` writes. */
  function WithProof(o: NetworkOrder, proof: OrderValidityProofBundle): NetworkOrder
  {
    o.(state := Verified, publicShareNullifier := proof.originalSharesNullifier, validityProofs := Some(proof))
  }

  /** `attach_validity_proof_with_tx`: re-index only when the proof's
      nullifier differs, then mark the order verified. */
  function AttachValidityProof(t: Table, id: OrderIdentifier, proof: OrderValidityProofBundle): Result<Table, StateApplicatorError>
  {
    var o :- ReadOrderInfoUnchecked(t, id);
    var t1 :- if o.publicShareNullifier != proof.originalSharesNullifier
              then UpdateOrderNullifier(t, id, o.publicShareNullifier, proof.originalSharesNullifier)
              else Success(t);
    Success(WriteOrderInfo(t1, WithProof(o, proof)))
  }

  /** The record `cancel_order_with_tx` writes. */
  function Cancelled(o: NetworkOrder): NetworkOrder
  {
    o.(state := NetworkOrderState.Cancelled, validityProofWitnesses := None, validityProofs := None)
  }

  /** `cancel_order_with_tx`: the new table and the order it publishes. */
  function CancelOrder(t: Table, id: OrderIdentifier): Result<(Table, NetworkOrder), StateApplicatorError>
  {
    var o :- ReadOrderInfoUnchecked(t, id);
    Success((WriteOrderInfo(t, Cancelled(o)), Cancelled(o)))
  }

  /** The nullify loop over `ids`, stopping at the first failure. */
  function CancelAll(t: Table, ids: seq<OrderIdentifier>): Result<(Table, seq<NetworkOrder>), StateApplicatorError>
    decreases |ids|
  {
    if ids == [] then Success((t, []))
    else
      var prefix :- CancelAll(t, ids[..|ids| - 1]);
      var last :- CancelOrder(prefix.0, ids[|ids| - 1]);
      Success((last.0, prefix.1 + [last.1]))
  }

  /** `nullify_orders_with_tx`. */
  function NullifyOrders(t: Table, n: Nullifier): Result<(Table, seq<NetworkOrder>), StateApplicatorError>
  {
    var members :- ReadNullifierSet(t, n);
    CancelAll(t, members)
  }

  // ---------------------------------------------------------------------
  // The index invariant
  // ---------------------------------------------------------------------

  predicate NoDuplicates(s: seq<OrderIdentifier>)
  {
    forall i, j | 0 <= i < j < |s| :: s[i] != s[j]
  }

  /** Every order key holds that order's record and every nullifier key a
      set without duplicates. */
  ghost predicate WellTyped(t: Table)
  {
    && (forall id :: OrderKey(id) in t ==> t[OrderKey(id)].OrderInfo? && t[OrderKey(id)].order.id == id)
    && (forall n :: NullifierKey(n) in t ==> t[NullifierKey(n)].NullifierSet? && NoDuplicates(t[NullifierKey(n)].ids))
  }

  /** `id` is listed in the set of nullifier `n`. */
  predicate InSet(t: Table, n: Nullifier, id: OrderIdentifier)
  {
    NullifierKey(n) in t && t[NullifierKey(n)].NullifierSet? && id in t[NullifierKey(n)].ids
  }

  /** There is a record for `id`, indexed under nullifier `n`. */
  predicate IndexedUnder(t: Table, id: OrderIdentifier, n: Nullifier)
  {
    OrderKey(id) in t && t[OrderKey(id)].OrderInfo? && t[OrderKey(id)].order.publicShareNullifier == n
  }

  /** Each order is listed in exactly one set, the set of its own
      nullifier, and every listed id has a record. */
  ghost predicate IndexValid(t: Table)
  {
    WellTyped(t) && forall n, id :: InSet(t, n, id) <==> IndexedUnder(t, id, n)
  }

  lemma EmptyTableValid()
    ensures IndexValid(map[])
  {
  }

  /** Appending to a set keeps it free of duplicates, contains the id
      afterwards and keeps every other member. */
  lemma AppendKeepsSetsDistinct(t: Table, n: Nullifier, id: OrderIdentifier)
    requires WellTyped(t)
    ensures AppendToNullifierSet(t, n, id).Success?
    ensures var t' := AppendToNullifierSet(t, n, id).value;
      WellTyped(t') && InSet(t', n, id)
      && (forall m, x :: InSet(t', m, x) <==> InSet(t, m, x) || (m == n && x == id))
      && (forall o :: OrderKey(o) in t' <==> OrderKey(o) in t)
      && (forall o | OrderKey(o) in t :: t'[OrderKey(o)] == t[OrderKey(o)])
  {
    var members := ReadNullifierSet(t, n).value;
    if id !in members {
      var t' := t[NullifierKey(n) := NullifierSet(members + [id])];
      assert NoDuplicates(members + [id]);
      forall m | NullifierKey(m) in t'
        ensures t'[NullifierKey(m)].NullifierSet? && NoDuplicates(t'[NullifierKey(m)].ids)
      {
        KeysNeverCollide(0, 0, m, n);
      }
      forall m, x ensures InSet(t', m, x) <==> InSet(t, m, x) || (m == n && x == id) {
        KeysNeverCollide(0, 0, m, n);
      }
      forall o ensures OrderKey(o) in t' <==> OrderKey(o) in t {
        KeysNeverCollide(o, o, n, n);
      }
    }
  }

  /** The filter keeps the remaining ids in their original order: it
      distributes over concatenation and leaves a set without `id` alone. */
  lemma {:induction false} WithoutKeepsOrder(a: seq<OrderIdentifier>, b: seq<OrderIdentifier>, id: OrderIdentifier)
    ensures Without(a + b, id) == Without(a, id) + Without(b, id)
    ensures id !in a ==> Without(a, id) == a
    decreases |a|
  {
    if a == [] {
      assert a + b == b;
    } else {
      var t := a[1..];
      var h := if a[0] == id then [] else [a[0]];
      assert (a + b)[1..] == t + b;
      WithoutKeepsOrder(t, b, id);
      calc {
        Without(a + b, id);
        h + Without(t + b, id);
        h + (Without(t, id) + Without(b, id));
        (h + Without(t, id)) + Without(b, id);
      }
      if id !in a {
        assert id !in t;
        assert a == [a[0]] + t;
      }
    }
  }

  /** `Without` keeps the other ids distinct. */
  lemma {:induction false} WithoutKeepsDistinct(s: seq<OrderIdentifier>, id: OrderIdentifier)
    requires NoDuplicates(s)
    ensures NoDuplicates(Without(s, id))
    decreases |s|
  {
    if s != [] {
      assert NoDuplicates(s[1..]) by {
        forall i, j | 0 <= i < j < |s[1..]| ensures s[1..][i] != s[1..][j] {
          assert s[1..][i] == s[i + 1] && s[1..][j] == s[j + 1];
        }
      }
      WithoutKeepsDistinct(s[1..], id);
      var rest := Without(s[1..], id);
      forall j | 0 <= j < |s[1..]| ensures s[1..][j] != s[0] {
        assert s[1..][j] == s[j + 1];
      }
      assert s[0] !in rest;
      var r := (if s[0] == id then [] else [s[0]]) + rest;
      assert r == Without(s, id);
      forall i, j | 0 <= i < j < |r| ensures r[i] != r[j] {
        if s[0] != id && i == 0 {
          assert r[j] == rest[j - 1];
        }
      }
    }
  }

  /** The first half of `update_order_nullifier`: dropping `id` from the
      old set removes it from the index and touches nothing else. */
  lemma DropFromOldSet(t: Table, id: OrderIdentifier, oldN: Nullifier)
    requires WellTyped(t)
    requires forall m | m != oldN :: !InSet(t, m, id)
    requires ReadNullifierSet(t, oldN).Success?
    ensures var t1 := t[NullifierKey(oldN) := NullifierSet(Without(ReadNullifierSet(t, oldN).value, id))];
      WellTyped(t1)
      && (forall m, x :: InSet(t1, m, x) <==> InSet(t, m, x) && x != id)
      && (forall o :: OrderKey(o) in t1 <==> OrderKey(o) in t)
      && (forall o | OrderKey(o) in t :: t1[OrderKey(o)] == t[OrderKey(o)])
  {
    var oldSet := ReadNullifierSet(t, oldN).value;
    var t1 := t[NullifierKey(oldN) := NullifierSet(Without(oldSet, id))];
    WithoutKeepsDistinct(oldSet, id);
    forall m | NullifierKey(m) in t1
      ensures t1[NullifierKey(m)].NullifierSet? && NoDuplicates(t1[NullifierKey(m)].ids)
    {
      KeysNeverCollide(0, 0, m, oldN);
    }
    forall o | OrderKey(o) in t1 ensures t1[OrderKey(o)].OrderInfo? && t1[OrderKey(o)].order.id == o {
      KeysNeverCollide(o, o, oldN, oldN);
    }
    forall m, x ensures InSet(t1, m, x) <==> InSet(t, m, x) && x != id {
      KeysNeverCollide(0, 0, m, oldN);
      if m == oldN {
        assert InSet(t, m, x) <==> x in oldSet;
      } else if x == id {
        assert !InSet(t, m, id);
      }
    }
    forall o ensures OrderKey(o) in t1 <==> OrderKey(o) in t {
      KeysNeverCollide(o, o, oldN, oldN);
    }
  }

  /** `update_order_nullifier` moves `id` from the old set to the new one:
      the old set keeps its other ids in order, and no other set changes
      except for gaining `id`. */
  lemma UpdateMovesId(t: Table, id: OrderIdentifier, oldN: Nullifier, newN: Nullifier)
    requires WellTyped(t)
    requires forall m | m != oldN :: !InSet(t, m, id)
    ensures UpdateOrderNullifier(t, id, oldN, newN).Success?
    ensures var t' := UpdateOrderNullifier(t, id, oldN, newN).value;
      WellTyped(t')
      && (forall m, x :: InSet(t', m, x) <==>
            if x == id then m == newN else InSet(t, m, x))
      && (oldN != newN ==> t'[NullifierKey(oldN)] == NullifierSet(Without(ReadNullifierSet(t, oldN).value, id)))
      && (forall o :: OrderKey(o) in t' <==> OrderKey(o) in t)
      && (forall o | OrderKey(o) in t :: t'[OrderKey(o)] == t[OrderKey(o)])
  {
    var oldSet := ReadNullifierSet(t, oldN).value;
    var t1 := t[NullifierKey(oldN) := NullifierSet(Without(oldSet, id))];
    DropFromOldSet(t, id, oldN);
    AppendKeepsSetsDistinct(t1, newN, id);
    var t' := AppendToNullifierSet(t1, newN, id).value;
    if oldN != newN {
      assert id !in Without(oldSet, id);
      KeysNeverCollide(0, 0, oldN, newN);
      assert t'[NullifierKey(oldN)] == t1[NullifierKey(oldN)];
    }
  }

  /** Writing the record of `o` into a table whose sets already list
      `o.id` exactly under its nullifier gives a valid index and changes
      nothing but that record. */
  lemma WriteRecordKeepsIndex(t1: Table, o: NetworkOrder)
    requires WellTyped(t1)
    requires forall m, x | x != o.id :: InSet(t1, m, x) <==> IndexedUnder(t1, x, m)
    requires forall m :: InSet(t1, m, o.id) <==> m == o.publicShareNullifier
    ensures var t' := WriteOrderInfo(t1, o);
      IndexValid(t') && OrderKey(o.id) in t' && t'[OrderKey(o.id)] == OrderInfo(o)
      && (forall m, x :: InSet(t', m, x) <==> InSet(t1, m, x))
      && (forall x | x != o.id :: OrderKey(x) in t' <==> OrderKey(x) in t1)
      && (forall x | x != o.id && OrderKey(x) in t1 :: t'[OrderKey(x)] == t1[OrderKey(x)])
  {
    var t' := WriteOrderInfo(t1, o);
    forall m ensures NullifierKey(m) in t' <==> NullifierKey(m) in t1 {
      KeysNeverCollide(o.id, o.id, m, m);
    }
    forall m | NullifierKey(m) in t' ensures t'[NullifierKey(m)] == t1[NullifierKey(m)] {
      KeysNeverCollide(o.id, o.id, m, m);
    }
    forall x | x != o.id ensures OrderKey(x) in t' <==> OrderKey(x) in t1 {
      KeysNeverCollide(x, o.id, 0, 0);
    }
    forall x | x != o.id && OrderKey(x) in t1 ensures t'[OrderKey(x)] == t1[OrderKey(x)] {
      KeysNeverCollide(x, o.id, 0, 0);
    }
    forall m, x ensures InSet(t', m, x) <==> InSet(t1, m, x) {
      KeysNeverCollide(o.id, o.id, m, m);
    }
    forall m, x ensures InSet(t', m, x) <==> IndexedUnder(t', x, m) {
      if x != o.id {
        KeysNeverCollide(x, o.id, m, m);
        assert IndexedUnder(t', x, m) <==> IndexedUnder(t1, x, m);
      }
    }
  }

  /** Adding an order keeps the index valid, stores the record under its
      key and lists its id in the set of its nullifier and no other. A
      fresh order on a fresh nullifier gets the set `[id]`; every other
      record is unchanged. */
  lemma AddOrderIndexes(t: Table, o: NetworkOrder)
    requires IndexValid(t)
    ensures AddOrder(t, o).Success?
    ensures var t' := AddOrder(t, o).value;
      IndexValid(t')
      && OrderKey(o.id) in t' && t'[OrderKey(o.id)] == OrderInfo(o)
      && (forall m :: InSet(t', m, o.id) <==> m == o.publicShareNullifier)
      && (forall x | x != o.id :: OrderKey(x) in t' <==> OrderKey(x) in t)
      && (forall x | x != o.id && OrderKey(x) in t :: t'[OrderKey(x)] == t[OrderKey(x)])
      && (OrderKey(o.id) !in t && NullifierKey(o.publicShareNullifier) !in t ==>
            t'[NullifierKey(o.publicShareNullifier)] == NullifierSet([o.id]))
  {
    var n := o.publicShareNullifier;
    var info := ReadOrderInfo(t, o.id).value;
    var t1;
    if info.Some? {
      var p := info.value.publicShareNullifier;
      assert IndexedUnder(t, o.id, p);
      forall m | m != p ensures !InSet(t, m, o.id) {
        assert !IndexedUnder(t, o.id, m);
      }
      UpdateMovesId(t, o.id, p, n);
      t1 := UpdateOrderNullifier(t, o.id, p, n).value;
    } else {
      forall m ensures !InSet(t, m, o.id) {
        assert !IndexedUnder(t, o.id, m);
      }
      AppendKeepsSetsDistinct(t, n, o.id);
      t1 := AppendToNullifierSet(t, n, o.id).value;
      if NullifierKey(n) !in t {
        assert ReadNullifierSet(t, n).value == [];
      }
    }
    assert AddOrder(t, o).value == WriteOrderInfo(t1, o);
    forall m, x | x != o.id ensures InSet(t1, m, x) <==> IndexedUnder(t1, x, m) {
      assert InSet(t1, m, x) <==> InSet(t, m, x);
      assert IndexedUnder(t1, x, m) <==> IndexedUnder(t, x, m);
    }
    WriteRecordKeepsIndex(t1, o);
    if OrderKey(o.id) !in t && NullifierKey(n) !in t {
      KeysNeverCollide(o.id, o.id, n, n);
    }
  }

  /** A proof for an unknown order is a `MissingEntry` error. Otherwise the
      order becomes `Verified`, carries the proof, is re-indexed under the
      proof's nullifier, and the index stays valid; its other fields and
      every other order record are unchanged. */
  lemma AttachProofVerifies(t: Table, id: OrderIdentifier, proof: OrderValidityProofBundle)
    requires IndexValid(t)
    ensures OrderKey(id) !in t ==> AttachValidityProof(t, id, proof) == Failure(MissingEntry(ErrOrderMissing))
    ensures OrderKey(id) in t ==> AttachValidityProof(t, id, proof).Success?
    ensures AttachValidityProof(t, id, proof).Success? ==>
      var t' := AttachValidityProof(t, id, proof).value;
      IndexValid(t') && OrderKey(id) in t'
      && t'[OrderKey(id)].order.state == Verified
      && t'[OrderKey(id)].order.validityProofs == Some(proof)
      && t'[OrderKey(id)].order.publicShareNullifier == proof.originalSharesNullifier
      && (forall m :: InSet(t', m, id) <==> m == proof.originalSharesNullifier)
      && OrderKey(id) in t && t'[OrderKey(id)] == OrderInfo(WithProof(t[OrderKey(id)].order, proof))
      && (forall x | x != id :: OrderKey(x) in t' <==> OrderKey(x) in t)
      && (forall x | x != id && OrderKey(x) in t :: t'[OrderKey(x)] == t[OrderKey(x)])
  {
    if OrderKey(id) in t {
      var o := t[OrderKey(id)].order;
      var p := o.publicShareNullifier;
      var n := proof.originalSharesNullifier;
      assert IndexedUnder(t, id, p);
      var t1;
      if p != n {
        forall m | m != p ensures !InSet(t, m, id) {
          assert !IndexedUnder(t, id, m);
        }
        UpdateMovesId(t, id, p, n);
        t1 := UpdateOrderNullifier(t, id, p, n).value;
      } else {
        t1 := t;
        forall m ensures InSet(t, m, id) <==> m == n {
          assert InSet(t, m, id) <==> IndexedUnder(t, id, m);
        }
      }
      var o' := WithProof(o, proof);
      assert AttachValidityProof(t, id, proof).value == WriteOrderInfo(t1, o');
      forall m, x | x != id ensures InSet(t1, m, x) <==> IndexedUnder(t1, x, m) {
        assert InSet(t1, m, x) <==> InSet(t, m, x);
        assert IndexedUnder(t1, x, m) <==> IndexedUnder(t, x, m);
      }
      WriteRecordKeepsIndex(t1, o');
    }
  }

  /** Cancelling keeps the index valid, leaves every nullifier set as it
      was and rewrites only the cancelled order's record. */
  lemma CancelKeepsIndex(t: Table, id: OrderIdentifier)
    requires IndexValid(t)
    ensures CancelOrder(t, id).Success? <==> OrderKey(id) in t
    ensures CancelOrder(t, id).Success? ==>
      var t' := CancelOrder(t, id).value.0;
      IndexValid(t') && t'.Keys == t.Keys
      && t'[OrderKey(id)] == OrderInfo(Cancelled(t[OrderKey(id)].order))
      && CancelOrder(t, id).value.1 == Cancelled(t[OrderKey(id)].order)
      && (forall k | k in t && k != OrderKey(id) :: t'[k] == t[k])
  {
    if OrderKey(id) in t {
      var t' := CancelOrder(t, id).value.0;
      forall m, x ensures InSet(t', m, x) <==> IndexedUnder(t', x, m) {
        KeysNeverCollide(x, id, m, m);
        assert InSet(t', m, x) <==> InSet(t, m, x);
      }
    }
  }

  /** The keys of the records the nullify loop rewrites. */
  function CancelledKeys(ids: seq<OrderIdentifier>): set<string>
  {
    set id | id in ids :: OrderKey(id)
  }

  /** Cancelling a list of indexed orders succeeds, keeps the index valid,
      marks every listed order `Cancelled` with its proofs and witnesses
      cleared, and touches no other entry. */
  lemma {:induction false} CancelAllCancels(t: Table, ids: seq<OrderIdentifier>)
    requires IndexValid(t)
    requires forall id | id in ids :: OrderKey(id) in t
    ensures CancelAll(t, ids).Success?
    ensures var t' := CancelAll(t, ids).value.0;
      IndexValid(t') && t'.Keys == t.Keys
      && |CancelAll(t, ids).value.1| == |ids|
      && (forall id | id in ids :: t'[OrderKey(id)].order.state == NetworkOrderState.Cancelled
            && t'[OrderKey(id)].order.validityProofs.None?
            && t'[OrderKey(id)].order.validityProofWitnesses.None?
            && t'[OrderKey(id)].order.publicShareNullifier == t[OrderKey(id)].order.publicShareNullifier)
      && (forall k | k in t && k !in CancelledKeys(ids) :: t'[k] == t[k])
    decreases |ids|
  {
    if ids != [] {
      var init := ids[..|ids| - 1];
      var last := ids[|ids| - 1];
      CancelAllCancels(t, init);
      var t1 := CancelAll(t, init).value.0;
      assert OrderKey(last) in t1;
      CancelKeepsIndex(t1, last);
      var t' := CancelAll(t, ids).value.0;
      assert t' == CancelOrder(t1, last).value.0;
      forall id | id in ids
        ensures t'[OrderKey(id)].order.state == NetworkOrderState.Cancelled
             && t'[OrderKey(id)].order.validityProofs.None?
             && t'[OrderKey(id)].order.validityProofWitnesses.None?
             && t'[OrderKey(id)].order.publicShareNullifier == t[OrderKey(id)].order.publicShareNullifier
      {
        if id != last {
          assert id in init;
          KeysNeverCollide(id, last, 0, 0);
        }
      }
      forall k | k in t && k !in CancelledKeys(ids) ensures t'[k] == t[k] {
        assert k !in CancelledKeys(init);
        assert k != OrderKey(last);
      }
    }
  }

  /** `nullify_orders` on a valid index: every order of the set is
      cancelled, nothing else changes. */
  lemma NullifyCancelsSet(t: Table, n: Nullifier)
    requires IndexValid(t)
    ensures NullifyOrders(t, n).Success?
    ensures var t' := NullifyOrders(t, n).value.0;
      var members := ReadNullifierSet(t, n).value;
      IndexValid(t') && t'.Keys == t.Keys
      && (forall id | id in members :: OrderKey(id) in t && t'[OrderKey(id)].order.state == NetworkOrderState.Cancelled)
      && (forall k | k in t && k !in CancelledKeys(members) :: t'[k] == t[k])
  {
    var members := ReadNullifierSet(t, n).value;
    forall id | id in members ensures OrderKey(id) in t {
      assert InSet(t, n, id);
      assert IndexedUnder(t, id, n);
    }
    CancelAllCancels(t, members);
  }

  /** One more cancellation extends the fold over the prefix by one step:
      its failure is the fold's failure, its success adds one published
      change. */
  lemma CancelStep(t0: Table, pre: seq<OrderIdentifier>, id: OrderIdentifier, bus0: seq<SystemBusMessage>)
    requires CancelAll(t0, pre).Success?
    ensures var prefix := CancelAll(t0, pre).value;
      var step := CancelOrder(prefix.0, id);
      && (step.Failure? ==> CancelAll(t0, pre + [id]) == Failure(step.error))
      && (step.Success? ==>
            && CancelAll(t0, pre + [id]) == Success((step.value.0, prefix.1 + [step.value.1]))
            && bus0 + PublishedChanges(prefix.1 + [step.value.1])
               == bus0 + PublishedChanges(prefix.1) + [OrderStateChange(step.value.1)])
  {
    var all := pre + [id];
    assert all[..|all| - 1] == pre && all[|all| - 1] == id;
    var prefix := CancelAll(t0, pre).value;
    var step := CancelOrder(prefix.0, id);
    if step.Success? {
      var x := OrderStateChange(step.value.1);
      PublishedSnoc(prefix.1, step.value.1);
      assert bus0 + (PublishedChanges(prefix.1) + [x]) == bus0 + PublishedChanges(prefix.1) + [x];
    }
  }

  lemma PublishedSnoc(os: seq<NetworkOrder>, o: NetworkOrder)
    ensures PublishedChanges(os + [o]) == PublishedChanges(os) + [OrderStateChange(o)]
  {
    assert (os + [o])[..|os|] == os;
  }

  /** A failure part-way through the loop is the loop's failure. */
  lemma {:induction false} CancelAllFailurePersists(t: Table, ids: seq<OrderIdentifier>, j: nat)
    requires j <= |ids| && CancelAll(t, ids[..j]).Failure?
    ensures CancelAll(t, ids) == Failure(CancelAll(t, ids[..j]).error)
    decreases |ids| - j
  {
    if j < |ids| {
      assert ids[..j + 1][..j] == ids[..j];
      CancelAllFailurePersists(t, ids, j + 1);
    } else {
      assert ids[..j] == ids;
    }
  }

  // ---------------------------------------------------------------------
  // The transaction and the applicator
  // ---------------------------------------------------------------------

  /** A read-write transaction over `ORDERS_TABLE` and `PRIORITIES_TABLE`;
      writes become visible to others only when the applicator commits it. */
  class DbTxn {
    var orders: Table
    var orderPriorities: map<OrderIdentifier, OrderPriority>
    var clusterPriorities: map<ClusterId, U32>

    constructor (orders: Table, orderPriorities: map<OrderIdentifier, OrderPriority>, clusterPriorities: map<ClusterId, U32>)
      ensures this.orders == orders && this.orderPriorities == orderPriorities && this.clusterPriorities == clusterPriorities
    {
      this.orders := orders;
      this.orderPriorities := orderPriorities;
      this.clusterPriorities := clusterPriorities;
    }
  }

  class StateApplicator {
    var orders: Table
    var orderPriorities: map<OrderIdentifier, OrderPriority>
    var clusterPriorities: map<ClusterId, U32>
    /** Messages published on the system bus, oldest first. */
    var bus: seq<SystemBusMessage>

    ghost predicate Valid()
      reads this
    {
      IndexValid(orders)
    }

    constructor ()
      ensures Valid() && orders == map[] && orderPriorities == map[] && clusterPriorities == map[] && bus == []
    {
      orders := map[];
      orderPriorities := map[];
      clusterPriorities := map[];
      bus := [];
    }

    /** `write_order_priority_with_tx`. */
    static method WriteOrderPriorityWithTx(order: NetworkOrder, tx: DbTxn)
      modifies tx
      ensures tx.orderPriorities == old(tx.orderPriorities)[order.id :=
        OrderPriority(ClusterPriority(tx.clusterPriorities, order.cluster), OrderDefaultPriority)]
      ensures tx.orders == old(tx.orders) && tx.clusterPriorities == old(tx.clusterPriorities)
    {
      var clusterPriority := ClusterPriority(tx.clusterPriorities, order.cluster);
      tx.orderPriorities := tx.orderPriorities[order.id := OrderPriority(clusterPriority, OrderDefaultPriority)];
    }

    /** `append_to_nullifier_set`. */
    static method AppendToNullifierSetWithTx(n: Nullifier, id: OrderIdentifier, tx: DbTxn) returns (r: Result<(), StateApplicatorError>)
      modifies tx
      ensures r.Success? <==> AppendToNullifierSet(old(tx.orders), n, id).Success?
      ensures r.Failure? ==> r.error == AppendToNullifierSet(old(tx.orders), n, id).error
      ensures r.Success? ==> tx.orders == AppendToNullifierSet(old(tx.orders), n, id).value
      ensures tx.orderPriorities == old(tx.orderPriorities) && tx.clusterPriorities == old(tx.clusterPriorities)
    {
      var members := ReadNullifierSet(tx.orders, n);
      if members.Failure? {
        return Failure(members.error);
      }
      var ids := members.value;
      if id !in ids {
        ids := ids + [id];
        tx.orders := tx.orders[NullifierKey(n) := NullifierSet(ids)];
      }
      return Success(());
    }

    /** `update_order_nullifier`. */
    static method UpdateOrderNullifierWithTx(id: OrderIdentifier, oldN: Nullifier, newN: Nullifier, tx: DbTxn)
      returns (r: Result<(), StateApplicatorError>)
      modifies tx
      ensures r.Success? <==> UpdateOrderNullifier(old(tx.orders), id, oldN, newN).Success?
      ensures r.Failure? ==> r.error == UpdateOrderNullifier(old(tx.orders), id, oldN, newN).error
      ensures r.Success? ==> tx.orders == UpdateOrderNullifier(old(tx.orders), id, oldN, newN).value
      ensures tx.orderPriorities == old(tx.orderPriorities) && tx.clusterPriorities == old(tx.clusterPriorities)
    {
      var oldSet := ReadNullifierSet(tx.orders, oldN);
      if oldSet.Failure? {
        return Failure(oldSet.error);
      }
      tx.orders := tx.orders[NullifierKey(oldN) := NullifierSet(Without(oldSet.value, id))];
      r := AppendToNullifierSetWithTx(newN, id, tx);
    }

    /** `add_order_with_tx`. */
    static method AddOrderWithTx(order: NetworkOrder, tx: DbTxn) returns (r: Result<(), StateApplicatorError>)
      modifies tx
      ensures r.Success? <==> AddOrder(old(tx.orders), order).Success?
      ensures r.Failure? ==> r.error == AddOrder(old(tx.orders), order).error
      ensures r.Success? ==> tx.orders == AddOrder(old(tx.orders), order).value
      ensures tx.orderPriorities == old(tx.orderPriorities) && tx.clusterPriorities == old(tx.clusterPriorities)
    {
      var info := ReadOrderInfo(tx.orders, order.id);
      if info.Failure? {
        return Failure(info.error);
      }
      if info.value.Some? {
        r := UpdateOrderNullifierWithTx(order.id, info.value.value.publicShareNullifier, order.publicShareNullifier, tx);
      } else {
        r := AppendToNullifierSetWithTx(order.publicShareNullifier, order.id, tx);
      }
      if r.Failure? {
        return;
      }
      tx.orders := WriteOrderInfo(tx.orders, order);
    }

    /** `attach_validity_proof_with_tx`. */
    static method AttachValidityProofWithTx(id: OrderIdentifier, proof: OrderValidityProofBundle, tx: DbTxn)
      returns (r: Result<(), StateApplicatorError>)
      modifies tx
      ensures r.Success? <==> AttachValidityProof(old(tx.orders), id, proof).Success?
      ensures r.Failure? ==> r.error == AttachValidityProof(old(tx.orders), id, proof).error
      ensures r.Success? ==> tx.orders == AttachValidityProof(old(tx.orders), id, proof).value
      ensures tx.orderPriorities == old(tx.orderPriorities) && tx.clusterPriorities == old(tx.clusterPriorities)
    {
      var info := ReadOrderInfoUnchecked(tx.orders, id);
      if info.Failure? {
        return Failure(info.error);
      }
      var orderInfo := info.value;
      var prevNullifier := orderInfo.publicShareNullifier;
      var newNullifier := proof.originalSharesNullifier;
      if prevNullifier != newNullifier {
        r := UpdateOrderNullifierWithTx(id, prevNullifier, newNullifier, tx);
        if r.Failure? {
          return;
        }
      }
      orderInfo := orderInfo.(state := Verified);
      orderInfo := orderInfo.(publicShareNullifier := proof.originalSharesNullifier);
      orderInfo := orderInfo.(validityProofs := Some(proof));
      tx.orders := WriteOrderInfo(tx.orders, orderInfo);
      r := Success(());
    }

    /** `cancel_order_with_tx`: writes the cancelled record and publishes it
        straight away, before the transaction commits. */
    method CancelOrderWithTx(id: OrderIdentifier, tx: DbTxn) returns (r: Result<(), StateApplicatorError>)
      modifies this`bus, tx
      ensures r.Success? <==> CancelOrder(old(tx.orders), id).Success?
      ensures r.Failure? ==> r.error == CancelOrder(old(tx.orders), id).error && bus == old(bus) && tx.orders == old(tx.orders)
      ensures r.Success? ==>
        tx.orders == CancelOrder(old(tx.orders), id).value.0
        && bus == old(bus) + [OrderStateChange(CancelOrder(old(tx.orders), id).value.1)]
      ensures tx.orderPriorities == old(tx.orderPriorities) && tx.clusterPriorities == old(tx.clusterPriorities)
    {
      var info := ReadOrderInfoUnchecked(tx.orders, id);
      if info.Failure? {
        return Failure(info.error);
      }
      var order := info.value;
      order := order.(state := NetworkOrderState.Cancelled);
      order := order.(validityProofWitnesses := None);
      order := order.(validityProofs := None);
      tx.orders := WriteOrderInfo(tx.orders, order);
      bus := bus + [OrderStateChange(order)];
      r := Success(());
    }

    /** `nullify_orders_with_tx`: cancels the orders of the set one by one. */
    method NullifyOrdersWithTx(n: Nullifier, tx: DbTxn) returns (r: Result<(), StateApplicatorError>)
      modifies this`bus, tx
      ensures r.Success? <==> NullifyOrders(old(tx.orders), n).Success?
      ensures r.Success? ==>
        tx.orders == NullifyOrders(old(tx.orders), n).value.0
        && bus == old(bus) + PublishedChanges(NullifyOrders(old(tx.orders), n).value.1)
      ensures tx.orderPriorities == old(tx.orderPriorities) && tx.clusterPriorities == old(tx.clusterPriorities)
    {
      var members := ReadNullifierSet(tx.orders, n);
      if members.Failure? {
        return Failure(members.error);
      }
      r := CancelEachWithTx(members.value, tx);
    }

    /** The loop of `nullify_orders_with_tx`: stops at the first order that
        cannot be cancelled. */
    method CancelEachWithTx(ids: seq<OrderIdentifier>, tx: DbTxn) returns (r: Result<(), StateApplicatorError>)
      modifies this`bus, tx
      ensures r.Success? <==> CancelAll(old(tx.orders), ids).Success?
      ensures r.Success? ==>
        tx.orders == CancelAll(old(tx.orders), ids).value.0
        && bus == old(bus) + PublishedChanges(CancelAll(old(tx.orders), ids).value.1)
      ensures tx.orderPriorities == old(tx.orderPriorities) && tx.clusterPriorities == old(tx.clusterPriorities)
    {
      ghost var t0 := tx.orders;
      ghost var bus0 := bus;
      var i := 0;
      while i < |ids|
        invariant 0 <= i <= |ids|
        invariant CancelAll(t0, ids[..i]).Success?
        invariant tx.orders == CancelAll(t0, ids[..i]).value.0
        invariant bus == bus0 + PublishedChanges(CancelAll(t0, ids[..i]).value.1)
        invariant tx.orderPriorities == old(tx.orderPriorities) && tx.clusterPriorities == old(tx.clusterPriorities)
      {
        var res := CancelNextWithTx(t0, ids, i, bus0, tx);
        if res.Failure? {
          return res;
        }
        i := i + 1;
      }
      assert ids[..i] == ids;
      r := Success(());
    }

    /** One pass of that loop: cancels the `i`-th order on top of the first
        `i` cancellations. */
    method CancelNextWithTx(ghost t0: Table, ids: seq<OrderIdentifier>, i: nat, ghost bus0: seq<SystemBusMessage>, tx: DbTxn)
      returns (res: Result<(), StateApplicatorError>)
      requires i < |ids| && CancelAll(t0, ids[..i]).Success?
      requires tx.orders == CancelAll(t0, ids[..i]).value.0
      requires bus == bus0 + PublishedChanges(CancelAll(t0, ids[..i]).value.1)
      modifies this`bus, tx
      ensures res.Failure? ==> CancelAll(t0, ids).Failure?
      ensures res.Success? ==>
        && CancelAll(t0, ids[..i + 1]).Success?
        && tx.orders == CancelAll(t0, ids[..i + 1]).value.0
        && bus == bus0 + PublishedChanges(CancelAll(t0, ids[..i + 1]).value.1)
      ensures tx.orderPriorities == old(tx.orderPriorities) && tx.clusterPriorities == old(tx.clusterPriorities)
    {
      assert ids[..i + 1] == ids[..i] + [ids[i]];
      CancelStep(t0, ids[..i], ids[i], bus0);
      res := CancelOrderWithTx(ids[i], tx);
      if res.Failure? {
        CancelAllFailurePersists(t0, ids, i + 1);
      }
    }

    /** `new_order`: writes the priority, indexes the order, commits, then
        publishes `NewOrder`. On a valid index, indexing cannot fail. */
    method NewOrderWith(order: NetworkOrder) returns (r: Result<(), StateApplicatorError>)
      requires Valid()
      modifies this
      ensures Valid()
      ensures r.Success? && AddOrder(old(orders), order).Success?
      ensures orders == AddOrder(old(orders), order).value
      ensures orderPriorities == old(orderPriorities)[order.id :=
        OrderPriority(ClusterPriority(old(clusterPriorities), order.cluster), OrderDefaultPriority)]
      ensures clusterPriorities == old(clusterPriorities)
      ensures bus == old(bus) + [NewOrder(order)]
    {
      var tx := new DbTxn(orders, orderPriorities, clusterPriorities);
      WriteOrderPriorityWithTx(order, tx);
      AddOrderIndexes(orders, order);
      r := AddOrderWithTx(order, tx);
      orders := tx.orders;
      orderPriorities := tx.orderPriorities;
      bus := bus + [NewOrder(order)];
    }

    /** `add_order_validity_proof`: attaches the proof, commits, and publishes
        the updated record. */
    method AddOrderValidityProof(id: OrderIdentifier, proof: OrderValidityProofBundle) returns (r: Result<(), StateApplicatorError>)
      requires Valid()
      modifies this
      ensures Valid()
      ensures r.Success? <==> OrderKey(id) in old(orders)
      ensures r.Failure? ==> r.error == MissingEntry(ErrOrderMissing) && orders == old(orders) && bus == old(bus)
      ensures r.Success? ==>
        orders == AttachValidityProof(old(orders), id, proof).value
        && bus == old(bus) + [OrderStateChange(orders[OrderKey(id)].order)]
      ensures orderPriorities == old(orderPriorities) && clusterPriorities == old(clusterPriorities)
    {
      AttachProofVerifies(orders, id, proof);
      var tx := new DbTxn(orders, orderPriorities, clusterPriorities);
      r := AttachValidityProofWithTx(id, proof, tx);
      if r.Failure? {
        return;
      }
      var info := ReadOrderInfoUnchecked(tx.orders, id);
      orders := tx.orders;
      bus := bus + [OrderStateChange(info.value)];
    }

    /** `nullify_orders`. */
    method NullifyOrdersWith(n: Nullifier) returns (r: Result<(), StateApplicatorError>)
      requires Valid()
      modifies this
      ensures Valid()
      ensures r.Success? && NullifyOrders(old(orders), n).Success?
      ensures orders == NullifyOrders(old(orders), n).value.0
      ensures bus == old(bus) + PublishedChanges(NullifyOrders(old(orders), n).value.1)
      ensures orderPriorities == old(orderPriorities) && clusterPriorities == old(clusterPriorities)
    {
      NullifyCancelsSet(orders, n);
      var tx := new DbTxn(orders, orderPriorities, clusterPriorities);
      r := NullifyOrdersWithTx(n, tx);
      orders := tx.orders;
    }
  }

  /** The bus messages for a run of cancelled orders. */
  function PublishedChanges(os: seq<NetworkOrder>): (r: seq<SystemBusMessage>)
    ensures |r| == |os|
  {
    if os == [] then [] else PublishedChanges(os[..|os| - 1]) + [OrderStateChange(os[|os| - 1])]
  }
}
