/** The heartbeat protocol of the gossip layer (core/src/gossip/heartbeat.rs):
    peer admission guarded by an expiry cache, peer expiry after missed
    heartbeats, merging of peer indices and wallet replica sets received in
    heartbeats, and the timing arithmetic of the heartbeat timer. Time is a
    parameter (seconds since the epoch) and everything runs sequentially. */
module Heartbeat {
  import opened Wrappers
  import opened Scalars
  import opened Multiaddr
  import opened GossipTypes

  const NanosPerMilli: nat := 1_000_000
  const NanosPerSec: nat := 1_000_000_000
  const MillisPerSec: nat := 1000
  /** The interval at which heartbeats are sent to known peers. */
  const HeartbeatIntervalMs: nat := 3_000
  /** Silence after which a peer is assumed to have failed. */
  const HeartbeatFailureMs: nat := 7_000
  /** Time after an expiry during which the peer may not be re-added. */
  const ExpiryInvisibilityWindowMs: nat := 10_000
  const ExpiryCacheSize: nat := 100
  const TwoTo32: nat := 0x1_0000_0000

  // ---------------------------------------------------------------------
  // The peer expiry cache: `lru::LruCache<WrappedPeerId, u64>` holding the
  // time each peer was expired, with room for `EXPIRY_CACHE_SIZE` peers.

  predicate Distinct(s: seq<WrappedPeerId>)
  {
    forall i, j | 0 <= i < j < |s| :: s[i] != s[j]
  }

  /** The recency order without `k`; the order of the others is kept. */
  function Without(s: seq<WrappedPeerId>, k: WrappedPeerId): (r: seq<WrappedPeerId>)
    ensures |r| <= |s|
    ensures forall x :: x in r <==> x in s && x != k
  {
    if s == [] then []
    else if s[0] == k then Without(s[1..], k)
    else [s[0]] + Without(s[1..], k)
  }

  /** Removing a key from a list of distinct keys keeps them distinct and
      shortens the list by one exactly when the key was present; removing
      an absent key changes nothing. */
  lemma {:induction false} WithoutDistinct(s: seq<WrappedPeerId>, k: WrappedPeerId)
    requires Distinct(s)
    ensures Distinct(Without(s, k))
    ensures |Without(s, k)| == if k in s then |s| - 1 else |s|
    ensures k !in s ==> Without(s, k) == s
  {
    if s != [] {
      assert Distinct(s[1..]);
      WithoutDistinct(s[1..], k);
      if s[0] != k {
        var rest := Without(s[1..], k);
        assert s[0] !in rest;
        assert k in s <==> k in s[1..];
        assert k !in s ==> s == [s[0]] + s[1..];
      } else {
        assert k !in s[1..];
      }
    }
  }

  /** Removing an absent key changes nothing. */
  lemma {:induction false} WithoutAbsent(s: seq<WrappedPeerId>, k: WrappedPeerId)
    requires k !in s
    ensures Without(s, k) == s
  {
    if s != [] {
      WithoutAbsent(s[1..], k);
      assert s == [s[0]] + s[1..];
    }
  }

  /** The recency order after a use of `k`: `k` moves to the back (or is
      appended), the order of the others is kept. */
  function Touch(s: seq<WrappedPeerId>, k: WrappedPeerId): (r: seq<WrappedPeerId>)
    ensures |r| > 0 && r[|r| - 1] == k
  {
    if s == [] then [k]
    else if s[0] == k then Touch(s[1..], k)
    else [s[0]] + Touch(s[1..], k)
  }

  /** A use is a removal followed by an append at the back. */
  lemma {:induction false} TouchIsMoveToBack(s: seq<WrappedPeerId>, k: WrappedPeerId)
    ensures Touch(s, k) == Without(s, k) + [k]
  {
    if s != [] {
      TouchIsMoveToBack(s[1..], k);
      if s[0] != k {
        assert [s[0]] + (Without(s[1..], k) + [k]) == [s[0]] + Without(s[1..], k) + [k];
      }
    } else {
      assert [] + [k] == [k];
    }
  }

  /** Removing a key after a use of it is removing it. */
  lemma {:induction false} WithoutAfterUse(s: seq<WrappedPeerId>, k: WrappedPeerId)
    ensures Without(Touch(s, k), k) == Without(s, k)
  {
    if s != [] {
      WithoutAfterUse(s[1..], k);
    }
  }

  /** The content `put(k, v)` leaves: `k` maps to `v` and, when `k` was
      absent from a full cache, the least recently used key is evicted. */
  function PutContent(content: map<WrappedPeerId, U64>, order: seq<WrappedPeerId>, k: WrappedPeerId, v: U64):
    map<WrappedPeerId, U64>
  {
    (if k !in content && |order| == ExpiryCacheSize && order != [] then content - {order[0]} else content)[k := v]
  }

  /** The recency order `put(k, v)` leaves: `k` becomes the most recently used. */
  function PutOrder(content: map<WrappedPeerId, U64>, order: seq<WrappedPeerId>, k: WrappedPeerId): seq<WrappedPeerId>
  {
    if k in content then Touch(order, k)
    else if |order| == ExpiryCacheSize && order != [] then order[1..] + [k]
    else order + [k]
  }

  /** Every expiry recorded in `content` lies at or before `now`. */
  predicate NotAfter(content: map<WrappedPeerId, U64>, now: U64)
  {
    forall k | k in content :: content[k] <= now
  }

  /** Whether `add_new_peer` may index `id` at time `now`: it was not
      expired, or its invisibility window has passed. */
  predicate Admissible(content: map<WrappedPeerId, U64>, id: WrappedPeerId, now: U64)
    requires NotAfter(content, now)
  {
    id !in content || now - content[id] > ExpiryInvisibilityWindowMs / MillisPerSec
  }

  /** The LRU cache, held as its content and its recency order (least
      recently used first). */
  class LruCache {
    var content: map<WrappedPeerId, U64>
    var order: seq<WrappedPeerId>

    /** The order lists every cached key once and the capacity is kept. */
    ghost predicate Valid()
      reads this
    {
      && Distinct(order)
      && |order| <= ExpiryCacheSize
      && (forall k :: k in content <==> k in order)
    }

    /** `LruCache::new(EXPIRY_CACHE_SIZE)`. */
    constructor ()
      ensures Valid() && content == map[] && order == []
    {
      content := map[];
      order := [];
    }

    /** `get`: the stored value; a present key becomes the most recently
        used. The content does not change. */
    method Get(k: WrappedPeerId) returns (v: Option<U64>)
      requires Valid()
      modifies this
      ensures Valid()
      ensures v == if k in old(content) then Some(old(content)[k]) else None
      ensures content == old(content)
      ensures order == if k in old(content) then Touch(old(order), k) else old(order)
    {
      if k !in content {
        return None;
      }
      WithoutDistinct(order, k);
      TouchIsMoveToBack(order, k);
      v := Some(content[k]);
      order := Without(order, k) + [k];
    }

    /** `pop_entry`: the removed value; `k` is gone and nothing else changes. */
    method PopEntry(k: WrappedPeerId) returns (v: Option<U64>)
      requires Valid()
      modifies this
      ensures Valid()
      ensures v == if k in old(content) then Some(old(content)[k]) else None
      ensures content == old(content) - {k}
      ensures order == Without(old(order), k)
    {
      WithoutDistinct(order, k);
      v := if k in content then Some(content[k]) else None;
      content := content - {k};
      order := Without(order, k);
    }

    /** `put`: `k` now maps to `v` as the most recently used entry; when
        `k` was absent and the cache full, the least recently used entry is
        evicted and no other entry changes. */
    method Put(k: WrappedPeerId, v: U64)
      requires Valid()
      modifies this
      ensures Valid()
      ensures content == PutContent(old(content), old(order), k, v)
      ensures order == PutOrder(old(content), old(order), k)
    {
      if k in content {
        WithoutDistinct(order, k);
        TouchIsMoveToBack(order, k);
        order := Without(order, k) + [k];
      } else if |order| == ExpiryCacheSize {
        var lru := order[0];
        assert forall x :: x in order[1..] <==> x in order && x != lru by {
          forall x | x in order && x != lru ensures x in order[1..] {
            var i :| 0 <= i < |order| && order[i] == x;
            assert order[1..][i - 1] == x;
          }
        }
        content := content - {lru};
        order := order[1..] + [k];
      } else {
        order := order + [k];
      }
      content := content[k := v];
    }
  }

  // ---------------------------------------------------------------------
  // Messages

  type WalletId = nat

  /** The content of a heartbeat: the sender's known peers and the replica
      set of each wallet it manages. */
  datatype GossipRequest = Heartbeat(knownPeers: set<WrappedPeerId>, managedWallets: map<WalletId, set<WrappedPeerId>>)

  /** What the gossip layer hands to the network manager. */
  datatype GossipOutbound =
    | Request(peerId: WrappedPeerId, message: GossipRequest)
    | NewAddr(peerId: WrappedPeerId, address: MultiaddrStack)

  datatype GossipError = Parse(key: string)

  // ---------------------------------------------------------------------
  // Specification of the merges

  /** The `peers_to_add` vector of `merge_peer_index` when every key
      parses: the ids of the keys, in iteration order, that are not known. */
  function PeersToAdd(order: seq<string>, parse: string -> Option<WrappedPeerId>, known: set<WrappedPeerId>): (r: seq<WrappedPeerId>)
    requires forall i | 0 <= i < |order| :: parse(order[i]).Some?
    ensures |r| <= |order|
  {
    if order == [] then []
    else
      var init := PeersToAdd(order[..|order| - 1], parse, known);
      var id := parse(order[|order| - 1]).value;
      if id in known then init else init + [id]
  }

  /** The peers to add are exactly the parsed ids that are not known. */
  lemma PeersToAddMembers(order: seq<string>, parse: string -> Option<WrappedPeerId>, known: set<WrappedPeerId>)
    requires forall i | 0 <= i < |order| :: parse(order[i]).Some?
    ensures forall id | id in PeersToAdd(order, parse, known) :: id !in known
    ensures forall i | 0 <= i < |PeersToAdd(order, parse, known)| ::
      exists m | 0 <= m < |order| :: parse(order[m]) == Some(PeersToAdd(order, parse, known)[i])
    ensures forall m | 0 <= m < |order| && parse(order[m]).value !in known :: parse(order[m]).value in PeersToAdd(order, parse, known)
  {
    PeersToAddUnknown(order, parse, known);
    PeersToAddFromOrder(order, parse, known);
    PeersToAddComplete(order, parse, known);
  }

  lemma {:induction false} PeersToAddUnknown(order: seq<string>, parse: string -> Option<WrappedPeerId>, known: set<WrappedPeerId>)
    requires forall i | 0 <= i < |order| :: parse(order[i]).Some?
    ensures forall id | id in PeersToAdd(order, parse, known) :: id !in known
  {
    if order != [] {
      PeersToAddUnknown(order[..|order| - 1], parse, known);
    }
  }

  lemma {:induction false} PeersToAddFromOrder(order: seq<string>, parse: string -> Option<WrappedPeerId>, known: set<WrappedPeerId>)
    requires forall i | 0 <= i < |order| :: parse(order[i]).Some?
    ensures forall i | 0 <= i < |PeersToAdd(order, parse, known)| ::
      exists m | 0 <= m < |order| :: parse(order[m]) == Some(PeersToAdd(order, parse, known)[i])
  {
    if order != [] {
      var prefix := order[..|order| - 1];
      PeersToAddFromOrder(prefix, parse, known);
      var init := PeersToAdd(prefix, parse, known);
      var r := PeersToAdd(order, parse, known);
      forall i | 0 <= i < |r| ensures exists m | 0 <= m < |order| :: parse(order[m]) == Some(r[i]) {
        if i < |init| {
          assert r[i] == init[i];
          var m :| 0 <= m < |prefix| && parse(prefix[m]) == Some(init[i]);
          assert order[m] == prefix[m];
        } else {
          assert parse(order[|order| - 1]) == Some(r[i]);
        }
      }
    } else {
      assert PeersToAdd(order, parse, known) == [];
    }
  }

  lemma {:induction false} PeersToAddComplete(order: seq<string>, parse: string -> Option<WrappedPeerId>, known: set<WrappedPeerId>)
    requires forall i | 0 <= i < |order| :: parse(order[i]).Some?
    ensures forall m | 0 <= m < |order| && parse(order[m]).value !in known :: parse(order[m]).value in PeersToAdd(order, parse, known)
  {
    if order != [] {
      var prefix := order[..|order| - 1];
      PeersToAddComplete(prefix, parse, known);
      var r := PeersToAdd(order, parse, known);
      forall m | 0 <= m < |order| && parse(order[m]).value !in known ensures parse(order[m]).value in r {
        if m < |prefix| {
          assert order[m] == prefix[m];
        }
      }
    }
  }


  /** Keys are the canonical rendering of the ids they parse to, so looking
      an id up by `to_string` finds its key again. */
  predicate Canonical(keys: set<string>, parse: string -> Option<WrappedPeerId>, render: WrappedPeerId -> string)
  {
    forall k | k in keys && parse(k).Some? :: render(parse(k).value) == k
  }

  /** The ids of `ids` that the expiry cache lets through. */
  function AdmittedIds(ids: seq<WrappedPeerId>, view: map<WrappedPeerId, U64>, now: U64): (r: set<WrappedPeerId>)
    requires NotAfter(view, now)
    ensures forall id :: id in r <==> id in ids && Admissible(view, id, now)
  {
    set id | id in ids && Admissible(view, id, now)
  }

  /** The same ids collected one by one, from position `j` of `ids` on, as
      `add_new_peer` admits them. */
  function AdmittedFrom(ids: seq<WrappedPeerId>, j: nat, view: map<WrappedPeerId, U64>, now: U64): set<WrappedPeerId>
    requires j <= |ids| && NotAfter(view, now)
    decreases |ids| - j
  {
    if j == |ids| then {}
    else (if Admissible(view, ids[j], now) then {ids[j]} else {}) + AdmittedFrom(ids, j + 1, view, now)
  }

  /** Collecting one by one gives the admitted ids of the rest of `ids`. */
  lemma {:induction false} AdmittedFromMeaning(ids: seq<WrappedPeerId>, j: nat, view: map<WrappedPeerId, U64>, now: U64)
    requires j <= |ids| && NotAfter(view, now)
    ensures AdmittedFrom(ids, j, view, now) == AdmittedIds(ids[j..], view, now)
    decreases |ids| - j
  {
    if j < |ids| {
      AdmittedFromMeaning(ids, j + 1, view, now);
      assert ids[j..] == [ids[j]] + ids[j + 1..];
    }
  }

  /** The `NewAddr` registrations sent while admitting the ids of `ids`
      from position `j` on, in order. */
  function Announcements(ids: seq<WrappedPeerId>, j: nat, view: map<WrappedPeerId, U64>, now: U64,
                         incoming: map<string, PeerInfo>, render: WrappedPeerId -> string): (r: seq<GossipOutbound>)
    requires j <= |ids| && NotAfter(view, now)
    requires forall id | id in ids :: render(id) in incoming
    ensures |r| <= |ids| - j
    decreases |ids| - j
  {
    if j == |ids| then []
    else
      (if Admissible(view, ids[j], now) then [NewAddr(ids[j], incoming[render(ids[j])].addr)] else [])
      + Announcements(ids, j + 1, view, now, incoming, render)
  }

  /** An id is announced exactly when it is admitted, and then with the
      address of its incoming record. */
  lemma {:induction false} AnnouncementsMatchAdmitted(ids: seq<WrappedPeerId>, j: nat, view: map<WrappedPeerId, U64>, now: U64,
                                                      incoming: map<string, PeerInfo>, render: WrappedPeerId -> string)
    requires j <= |ids| && NotAfter(view, now)
    requires forall id | id in ids :: render(id) in incoming
    ensures forall id | id in AdmittedFrom(ids, j, view, now) ::
      id in ids && NewAddr(id, incoming[render(id)].addr) in Announcements(ids, j, view, now, incoming, render)
    ensures forall m | m in Announcements(ids, j, view, now, incoming, render) ::
      m.NewAddr? && m.peerId in AdmittedFrom(ids, j, view, now) && m.peerId in ids && m.address == incoming[render(m.peerId)].addr
    decreases |ids| - j
  {
    if j < |ids| {
      AnnouncementsMatchAdmitted(ids, j + 1, view, now, incoming, render);
    }
  }

  /** Admitting the ids of the whole sequence one by one. */
  lemma AdmittedFromAll(ids: seq<WrappedPeerId>, view: map<WrappedPeerId, U64>, now: U64)
    requires NotAfter(view, now)
    ensures AdmittedFrom(ids, 0, view, now) == AdmittedIds(ids, view, now)
  {
    AdmittedFromMeaning(ids, 0, view, now);
    assert ids[0..] == ids;
  }

  /** An empty list of peers admits and announces nothing. */
  lemma NothingToAdmit(view: map<WrappedPeerId, U64>, now: U64, incoming: map<string, PeerInfo>, render: WrappedPeerId -> string)
    requires NotAfter(view, now)
    ensures AdmittedIds([], view, now) == {}
    ensures Announcements([], 0, view, now, incoming, render) == []
  {
  }

  /** Before the first offer nothing is admitted or announced. */
  lemma StartFolds(all: set<WrappedPeerId>, allAnnounced: seq<GossipOutbound>, view: map<WrappedPeerId, U64>,
                   keys: set<WrappedPeerId>, outbound: seq<GossipOutbound>)
    ensures {} + all == all && [] + allAnnounced == allAnnounced
    ensures view - {} == view && keys + {} == keys && outbound + [] == outbound
  {
  }

  /** After the last offer the running totals are the totals. */
  lemma FinishFolds(ids: seq<WrappedPeerId>, view: map<WrappedPeerId, U64>, now: U64,
                    incoming: map<string, PeerInfo>, render: WrappedPeerId -> string,
                    admitted: set<WrappedPeerId>, announced: seq<GossipOutbound>)
    requires NotAfter(view, now) && forall id | id in ids :: render(id) in incoming
    requires admitted + AdmittedFrom(ids, |ids|, view, now) == AdmittedFrom(ids, 0, view, now)
    requires announced + Announcements(ids, |ids|, view, now, incoming, render) == Announcements(ids, 0, view, now, incoming, render)
    ensures admitted == AdmittedFrom(ids, 0, view, now)
    ensures announced == Announcements(ids, 0, view, now, incoming, render)
  {
    assert announced + [] == announced;
  }

  /** Extending the ids admitted so far by the verdict on position `j`
      keeps them adding up to all the admitted ids. */
  lemma AdmittedStep(ids: seq<WrappedPeerId>, j: nat, view: map<WrappedPeerId, U64>, now: U64,
                     admitted: set<WrappedPeerId>, indexed: bool, next: set<WrappedPeerId>)
    requires j < |ids| && NotAfter(view, now)
    requires indexed == Admissible(view, ids[j], now)
    requires admitted + AdmittedFrom(ids, j, view, now) == AdmittedFrom(ids, 0, view, now)
    requires next == admitted + (if indexed then {ids[j]} else {})
    ensures next + AdmittedFrom(ids, j + 1, view, now) == AdmittedFrom(ids, 0, view, now)
  {
  }

  /** Extending the announcements made so far by the one for position `j`
      keeps them adding up to all the announcements. */
  lemma AnnouncedStep(ids: seq<WrappedPeerId>, j: nat, view: map<WrappedPeerId, U64>, now: U64,
                      incoming: map<string, PeerInfo>, render: WrappedPeerId -> string, announced: seq<GossipOutbound>,
                      indexed: bool, next: seq<GossipOutbound>)
    requires j < |ids| && NotAfter(view, now)
    requires forall id | id in ids :: render(id) in incoming
    requires indexed == Admissible(view, ids[j], now)
    requires announced + Announcements(ids, j, view, now, incoming, render) == Announcements(ids, 0, view, now, incoming, render)
    requires next == announced + (if indexed then [NewAddr(ids[j], incoming[render(ids[j])].addr)] else [])
    ensures next + Announcements(ids, j + 1, view, now, incoming, render) == Announcements(ids, 0, view, now, incoming, render)
  {
    var step := if indexed then [NewAddr(ids[j], incoming[render(ids[j])].addr)] else [];
    var rest := Announcements(ids, j + 1, view, now, incoming, render);
    assert Announcements(ids, j, view, now, incoming, render) == step + rest;
    AppendStep(announced, step, rest);
  }

  /** Dropping one more admitted id from the cache. */
  lemma SubtractStep(view: map<WrappedPeerId, U64>, admitted: set<WrappedPeerId>, id: WrappedPeerId, indexed: bool)
    ensures (if indexed then (view - admitted) - {id} else view - admitted)
      == view - (admitted + (if indexed then {id} else {}))
  {
  }

  /** Appending one more announcement to the log. */
  lemma AppendStep(outbound: seq<GossipOutbound>, announced: seq<GossipOutbound>, step: seq<GossipOutbound>)
    ensures (outbound + announced) + step == outbound + (announced + step)
  {
  }

  /** The replica sets `merge_wallets` leaves behind. */
  function MergedWallets(local: map<WalletId, set<WrappedPeerId>>, incoming: map<WalletId, set<WrappedPeerId>>,
                         known: set<WrappedPeerId>): map<WalletId, set<WrappedPeerId>>
  {
    map w | w in local :: if w in incoming && !(incoming[w] <= local[w]) then local[w] + (incoming[w] * known) else local[w]
  }

  /** `merge_wallets` keeps the managed wallets, only grows their replica
      sets, adds only replicas the message lists and that are known peers,
      adds every such replica, and leaves wallets absent from the message
      untouched. */
  lemma MergeWalletsGrowsOnly(local: map<WalletId, set<WrappedPeerId>>, incoming: map<WalletId, set<WrappedPeerId>>,
                              known: set<WrappedPeerId>)
    ensures MergedWallets(local, incoming, known).Keys == local.Keys
    ensures forall w | w in local :: local[w] <= MergedWallets(local, incoming, known)[w]
    ensures forall w | w in local ::
      MergedWallets(local, incoming, known)[w] - local[w] <= (if w in incoming then incoming[w] * known else {})
    ensures forall w | w in local && w in incoming :: incoming[w] * known <= MergedWallets(local, incoming, known)[w]
    ensures forall w | w in local && w !in incoming :: MergedWallets(local, incoming, known)[w] == local[w]
  {
  }

  /** Skipping wallets whose local replicas already contain the incoming
      ones is only an optimisation: merging every shared wallet gives the
      same result. */
  lemma MergeSkipIsSound(local: map<WalletId, set<WrappedPeerId>>, incoming: map<WalletId, set<WrappedPeerId>>,
                         known: set<WrappedPeerId>)
    ensures MergedWallets(local, incoming, known) ==
      map w | w in local :: if w in incoming then local[w] + (incoming[w] * known) else local[w]
  {
    var merged := MergedWallets(local, incoming, known);
    var eager := map w | w in local :: if w in incoming then local[w] + (incoming[w] * known) else local[w];
    forall w | w in local ensures merged[w] == eager[w] {
      if w in incoming && incoming[w] <= local[w] {
        assert local[w] + (incoming[w] * known) == local[w];
      }
    }
  }

  // ---------------------------------------------------------------------
  // The gossip node's state

  /** The relayer state the heartbeat protocol reads and writes: the
      known-peer index, the replica sets of managed wallets, the shared
      peer expiry cache and the log of what was sent to the network
      manager. */
  class GossipNode {
    const localPeerId: WrappedPeerId
    const expiryCache: LruCache
    var knownPeers: map<WrappedPeerId, PeerInfo>
    var managedWallets: map<WalletId, set<WrappedPeerId>>
    var outbound: seq<GossipOutbound>

    constructor (localPeerId: WrappedPeerId, knownPeers: map<WrappedPeerId, PeerInfo>,
                 managedWallets: map<WalletId, set<WrappedPeerId>>)
      ensures this.localPeerId == localPeerId && this.knownPeers == knownPeers
      ensures this.managedWallets == managedWallets && outbound == []
      ensures fresh(expiryCache) && expiryCache.Valid() && expiryCache.content == map[] && expiryCache.order == []
    {
      this.localPeerId := localPeerId;
      this.knownPeers := knownPeers;
      this.managedWallets := managedWallets;
      expiryCache := new LruCache();
      outbound := [];
    }

    /** `record_heartbeat`: a known peer's heartbeat becomes `now`; an
        unknown peer is ignored. */
    method RecordHeartbeat(peerId: WrappedPeerId, now: U64)
      modifies if peerId in knownPeers then {knownPeers[peerId]} else {}
      ensures peerId in knownPeers ==> knownPeers[peerId].lastHeartbeat == now
    {
      if peerId in knownPeers {
        knownPeers[peerId].SuccessfulHeartbeat(now);
      }
    }

    /** The heartbeat built from the local state. */
    function BuildHeartbeatMessage(): (r: GossipRequest)
      reads this
      ensures r.knownPeers == knownPeers.Keys && r.managedWallets == managedWallets
    {
      Heartbeat(knownPeers.Keys, managedWallets)
    }

    /** `add_new_peer`: a peer expired no more than ten seconds ago is
        refused and left in the cache (now most recently used); otherwise
        its cache entry is dropped and, if it is not yet known, it is
        indexed with a fresh heartbeat and announced to the network
        manager. The answer says whether the peer is indexed. */
    method AddNewPeer(newPeerId: WrappedPeerId, newPeerInfo: PeerInfo, now: U64) returns (indexed: bool)
      requires expiryCache.Valid() && NotAfter(expiryCache.content, now)
      modifies this, newPeerInfo, expiryCache
      ensures expiryCache.Valid() && NotAfter(expiryCache.content, now)
      ensures indexed <==> Admissible(old(expiryCache.content), newPeerId, now)
      ensures expiryCache.content == if indexed then old(expiryCache.content) - {newPeerId} else old(expiryCache.content)
      ensures expiryCache.order ==
        if indexed then Without(old(expiryCache.order), newPeerId) else Touch(old(expiryCache.order), newPeerId)
      ensures knownPeers.Keys == old(knownPeers).Keys + (if indexed then {newPeerId} else {})
      ensures forall id | id in old(knownPeers) :: knownPeers[id] == old(knownPeers)[id]
      ensures newPeerId in knownPeers && newPeerId !in old(knownPeers) ==>
        && fresh(knownPeers[newPeerId])
        && knownPeers[newPeerId].lastHeartbeat == now
        && knownPeers[newPeerId].peerId == newPeerInfo.peerId
        && knownPeers[newPeerId].addr == newPeerInfo.addr
      ensures outbound == old(outbound) +
        (if indexed && newPeerId !in old(knownPeers) then [NewAddr(newPeerId, newPeerInfo.addr)] else [])
      ensures managedWallets == old(managedWallets)
    {
      indexed := ConsultExpiryCache(newPeerId, now);
      if indexed {
        IndexPeer(newPeerId, newPeerInfo, now);
      }
    }

    /** The expiry-cache half of `add_new_peer`: `get` the peer's expiry
        time; a peer inside its invisibility window is refused, any other
        is let through and its entry popped. */
    method ConsultExpiryCache(newPeerId: WrappedPeerId, now: U64) returns (admitted: bool)
      requires expiryCache.Valid() && NotAfter(expiryCache.content, now)
      modifies expiryCache
      ensures expiryCache.Valid() && NotAfter(expiryCache.content, now)
      ensures admitted <==> Admissible(old(expiryCache.content), newPeerId, now)
      ensures expiryCache.content == if admitted then old(expiryCache.content) - {newPeerId} else old(expiryCache.content)
      ensures expiryCache.order ==
        if admitted then Without(old(expiryCache.order), newPeerId) else Touch(old(expiryCache.order), newPeerId)
    {
      var expiredAt := expiryCache.Get(newPeerId);
      if expiredAt.None? {
        WithoutAbsent(old(expiryCache.order), newPeerId);
        return true;
      }
      if now - expiredAt.value <= ExpiryInvisibilityWindowMs / MillisPerSec {
        return false;
      }
      WithoutAfterUse(old(expiryCache.order), newPeerId);
      var _ := expiryCache.PopEntry(newPeerId);
      return true;
    }

    /** The index half of `add_new_peer`: a peer that is not yet known is
        given a fresh heartbeat, indexed with a copy of its record and
        announced to the network manager; a known peer is left as it is. */
    method IndexPeer(newPeerId: WrappedPeerId, newPeerInfo: PeerInfo, now: U64)
      modifies this, newPeerInfo
      ensures knownPeers.Keys == old(knownPeers).Keys + {newPeerId}
      ensures forall id | id in old(knownPeers) :: knownPeers[id] == old(knownPeers)[id]
      ensures newPeerId !in old(knownPeers) ==>
        && fresh(knownPeers[newPeerId])
        && knownPeers[newPeerId].lastHeartbeat == now
        && knownPeers[newPeerId].peerId == newPeerInfo.peerId
        && knownPeers[newPeerId].addr == newPeerInfo.addr
      ensures outbound == old(outbound) + (if newPeerId !in old(knownPeers) then [NewAddr(newPeerId, newPeerInfo.addr)] else [])
      ensures managedWallets == old(managedWallets)
    {
      if newPeerId in knownPeers {
        return;
      }
      newPeerInfo.SuccessfulHeartbeat(now);
      var entry := newPeerInfo.Clone();
      knownPeers := knownPeers[newPeerId := entry];
      outbound := outbound + [NewAddr(newPeerId, newPeerInfo.addr)];
    }

    /** `merge_peer_index`: every key of the incoming index (visited in
        `order`) is parsed first; a key that does not parse fails the merge
        before anything changes. Then every unknown peer is offered to
        `add_new_peer` with a copy of its incoming record. */
    method MergePeerIndex(incoming: map<string, PeerInfo>, order: seq<string>,
                          parse: string -> Option<WrappedPeerId>, render: WrappedPeerId -> string, now: U64)
      returns (r: Result<(), GossipError>)
      requires |order| == |incoming| && forall k :: k in incoming <==> k in order
      requires forall i, j | 0 <= i < j < |order| :: order[i] != order[j]
      requires Canonical(incoming.Keys, parse, render)
      requires expiryCache.Valid() && NotAfter(expiryCache.content, now)
      modifies this, expiryCache
      ensures expiryCache.Valid() && NotAfter(expiryCache.content, now)
      ensures r.Failure? <==> exists i | 0 <= i < |order| :: parse(order[i]).None?
      ensures r.Failure? ==>
        && knownPeers == old(knownPeers) && outbound == old(outbound)
        && expiryCache.content == old(expiryCache.content) && expiryCache.order == old(expiryCache.order)
      ensures r.Success? ==>
        var toAdd := PeersToAdd(order, parse, old(knownPeers).Keys);
        && (forall id | id in toAdd :: render(id) in incoming && id !in old(knownPeers))
        && knownPeers.Keys == old(knownPeers).Keys + AdmittedIds(toAdd, old(expiryCache.content), now)
        && (forall id | id in old(knownPeers) :: knownPeers[id] == old(knownPeers)[id])
        && (forall id | id in knownPeers && id !in old(knownPeers) ::
              && fresh(knownPeers[id])
              && knownPeers[id].lastHeartbeat == now
              && render(id) in incoming
              && knownPeers[id].peerId == incoming[render(id)].peerId
              && knownPeers[id].addr == incoming[render(id)].addr)
        && expiryCache.content == old(expiryCache.content) - AdmittedIds(toAdd, old(expiryCache.content), now)
        && outbound == old(outbound) + Announcements(toAdd, 0, old(expiryCache.content), now, incoming, render)
      ensures managedWallets == old(managedWallets)
    {
      var parsed := CollectPeersToAdd(order, parse, knownPeers.Keys);
      if parsed.Failure? {
        return Failure(parsed.error);
      }
      var peersToAdd := parsed.value;
      AdmittedFromAll(peersToAdd, expiryCache.content, now);
      if peersToAdd == [] {
        NothingToAdmit(expiryCache.content, now, incoming, render);
        StartFolds({}, [], expiryCache.content, knownPeers.Keys, outbound);
        return Success(());
      }
      ToAddRendered(order, parse, render, knownPeers.Keys, incoming);
      ToAddDistinct(order, parse, render, knownPeers.Keys, incoming.Keys);
      AdmitPeers(peersToAdd, incoming, render, now);
      return Success(());
    }

    /** The second phase of `merge_peer_index`: each id, not yet known, is
        offered to `add_new_peer` with a copy of its incoming record. */
    method AdmitPeers(ids: seq<WrappedPeerId>, incoming: map<string, PeerInfo>, render: WrappedPeerId -> string, now: U64)
      requires Distinct(ids)
      requires forall id | id in ids :: render(id) in incoming && id !in knownPeers
      requires expiryCache.Valid() && NotAfter(expiryCache.content, now)
      modifies this, expiryCache
      ensures expiryCache.Valid() && NotAfter(expiryCache.content, now)
      ensures expiryCache.content == old(expiryCache.content) - AdmittedFrom(ids, 0, old(expiryCache.content), now)
      ensures knownPeers.Keys == old(knownPeers).Keys + AdmittedFrom(ids, 0, old(expiryCache.content), now)
      ensures forall id | id in old(knownPeers) :: knownPeers[id] == old(knownPeers)[id]
      ensures forall id | id in knownPeers && id !in old(knownPeers) ::
        && fresh(knownPeers[id])
        && knownPeers[id].lastHeartbeat == now
        && render(id) in incoming
        && knownPeers[id].peerId == incoming[render(id)].peerId
        && knownPeers[id].addr == incoming[render(id)].addr
      ensures outbound == old(outbound) + Announcements(ids, 0, old(expiryCache.content), now, incoming, render)
      ensures managedWallets == old(managedWallets)
    {
      ghost var view0 := expiryCache.content;
      StartFolds(AdmittedFrom(ids, 0, view0, now), Announcements(ids, 0, view0, now, incoming, render), view0,
                 knownPeers.Keys, outbound);
      var admitted, announced := OfferAll(ids, view0, now, incoming, render, knownPeers, outbound, managedWallets);
    }

    /** The loop of `AdmitPeers`: one offer per id, in order. */
    method OfferAll(ids: seq<WrappedPeerId>, ghost view0: map<WrappedPeerId, U64>, now: U64,
                    incoming: map<string, PeerInfo>, render: WrappedPeerId -> string,
                    ghost known0: map<WrappedPeerId, PeerInfo>, ghost outbound0: seq<GossipOutbound>,
                    ghost wallets0: map<WalletId, set<WrappedPeerId>>)
      returns (ghost admitted: set<WrappedPeerId>, ghost announced: seq<GossipOutbound>)
      requires Distinct(ids) && knownPeers == known0
      requires ExpiryProgress(ids, 0, view0, now, {})
      requires IndexProgress(ids, 0, view0, now, incoming, render, known0, outbound0, wallets0, {}, [])
      modifies this, expiryCache
      ensures ExpiryProgress(ids, |ids|, view0, now, admitted)
      ensures IndexProgress(ids, |ids|, view0, now, incoming, render, known0, outbound0, wallets0, admitted, announced)
      ensures admitted == AdmittedFrom(ids, 0, view0, now)
      ensures announced == Announcements(ids, 0, view0, now, incoming, render)
      ensures forall id | id in knownPeers && id !in known0 :: fresh(knownPeers[id])
    {
      admitted, announced := {}, [];
      StartFolds(AdmittedFrom(ids, 0, view0, now), Announcements(ids, 0, view0, now, incoming, render), view0,
                 known0.Keys, outbound0);
      var j := 0;
      while j < |ids|
        invariant ExpiryProgress(ids, j, view0, now, admitted)
        invariant IndexProgress(ids, j, view0, now, incoming, render, known0, outbound0, wallets0, admitted, announced)
        invariant admitted + AdmittedFrom(ids, j, view0, now) == AdmittedFrom(ids, 0, view0, now)
        invariant announced + Announcements(ids, j, view0, now, incoming, render) == Announcements(ids, 0, view0, now, incoming, render)
        invariant forall id | id in knownPeers && id !in known0 :: fresh(knownPeers[id])
      {
        var indexed, nextAdmitted, nextAnnounced := OfferStep(ids, j, view0, now, incoming, render, known0,
                                                              outbound0, wallets0, admitted, announced);
        admitted, announced := nextAdmitted, nextAnnounced;
        j := j + 1;
      }
      FinishFolds(ids, view0, now, incoming, render, admitted, announced);
    }

    /** Offering `ids[j]` to `add_new_peer` with a copy of its incoming
        record: the expiry cache decides, then the index and the outbound
        log follow, and both running totals grow by the verdict. */
    method OfferStep(ids: seq<WrappedPeerId>, j: nat, ghost view0: map<WrappedPeerId, U64>, now: U64,
                     incoming: map<string, PeerInfo>, render: WrappedPeerId -> string,
                     ghost known0: map<WrappedPeerId, PeerInfo>, ghost outbound0: seq<GossipOutbound>,
                     ghost wallets0: map<WalletId, set<WrappedPeerId>>,
                     ghost admitted: set<WrappedPeerId>, ghost announced: seq<GossipOutbound>)
      returns (indexed: bool, ghost nextAdmitted: set<WrappedPeerId>, ghost nextAnnounced: seq<GossipOutbound>)
      requires j < |ids| && Distinct(ids)
      requires ExpiryProgress(ids, j, view0, now, admitted)
      requires IndexProgress(ids, j, view0, now, incoming, render, known0, outbound0, wallets0, admitted, announced)
      requires admitted + AdmittedFrom(ids, j, view0, now) == AdmittedFrom(ids, 0, view0, now)
      requires announced + Announcements(ids, j, view0, now, incoming, render) == Announcements(ids, 0, view0, now, incoming, render)
      modifies this, expiryCache
      ensures indexed == Admissible(view0, ids[j], now)
      ensures ExpiryProgress(ids, j + 1, view0, now, nextAdmitted)
      ensures IndexProgress(ids, j + 1, view0, now, incoming, render, known0, outbound0, wallets0, nextAdmitted, nextAnnounced)
      ensures nextAdmitted + AdmittedFrom(ids, j + 1, view0, now) == AdmittedFrom(ids, 0, view0, now)
      ensures nextAnnounced + Announcements(ids, j + 1, view0, now, incoming, render) == Announcements(ids, 0, view0, now, incoming, render)
      ensures old(knownPeers).Keys <= knownPeers.Keys
      ensures forall id | id in old(knownPeers) :: knownPeers[id] == old(knownPeers)[id]
      ensures forall id | id in knownPeers && id !in old(knownPeers) :: fresh(knownPeers[id])
    {
      var peerId := ids[j];
      var copy := incoming[render(peerId)].Clone();
      indexed := ConsultStep(ids, j, view0, now, admitted);
      nextAdmitted := admitted + (if indexed then {ids[j]} else {});
      nextAnnounced := announced + (if indexed then [NewAddr(ids[j], incoming[render(ids[j])].addr)] else []);
      IndexStep(ids, j, view0, now, incoming, render, known0, outbound0, wallets0, admitted, announced,
                nextAdmitted, nextAnnounced, copy, indexed);
      AdmittedStep(ids, j, view0, now, admitted, indexed, nextAdmitted);
      AnnouncedStep(ids, j, view0, now, incoming, render, announced, indexed, nextAnnounced);
    }

    /** What the first `j` offers of `AdmitPeers` leave in the expiry cache:
        the admitted ids' entries are gone. */
    ghost predicate ExpiryProgress(ids: seq<WrappedPeerId>, j: nat, view0: map<WrappedPeerId, U64>, now: U64,
                                   admitted: set<WrappedPeerId>)
      reads expiryCache
    {
      && j <= |ids| && NotAfter(view0, now)
      && expiryCache.Valid() && NotAfter(expiryCache.content, now)
      && expiryCache.content == view0 - admitted
      && (forall i | j <= i < |ids| :: ids[i] !in admitted)
    }

    /** What the first `j` offers of `AdmitPeers` leave in the peer index
        and the outbound log: the admitted ids are indexed with fresh
        heartbeats and announced, in order. */
    ghost predicate IndexProgress(ids: seq<WrappedPeerId>, j: nat, view0: map<WrappedPeerId, U64>, now: U64,
                                  incoming: map<string, PeerInfo>, render: WrappedPeerId -> string,
                                  known0: map<WrappedPeerId, PeerInfo>, outbound0: seq<GossipOutbound>,
                                  wallets0: map<WalletId, set<WrappedPeerId>>,
                                  admitted: set<WrappedPeerId>, announced: seq<GossipOutbound>)
      reads this, knownPeers.Values
    {
      && j <= |ids| && NotAfter(view0, now)
      && (forall id | id in ids :: render(id) in incoming)
      && (forall i | j <= i < |ids| :: ids[i] !in knownPeers)
      && knownPeers.Keys == known0.Keys + admitted
      && (forall id | id in known0 :: knownPeers[id] == known0[id])
      && (forall id | id in knownPeers && id !in known0 ::
            && knownPeers[id].lastHeartbeat == now
            && render(id) in incoming
            && knownPeers[id].peerId == incoming[render(id)].peerId
            && knownPeers[id].addr == incoming[render(id)].addr)
      && outbound == outbound0 + announced
      && managedWallets == wallets0
    }

    /** The expiry-cache half of offering `ids[j]`. */
    method ConsultStep(ids: seq<WrappedPeerId>, j: nat, ghost view0: map<WrappedPeerId, U64>, now: U64,
                       ghost admitted: set<WrappedPeerId>)
      returns (indexed: bool)
      requires j < |ids| && ExpiryProgress(ids, j, view0, now, admitted)
      requires Distinct(ids)
      modifies expiryCache
      ensures indexed == Admissible(view0, ids[j], now)
      ensures ExpiryProgress(ids, j + 1, view0, now, admitted + (if indexed then {ids[j]} else {}))
    {
      var peerId := ids[j];
      assert Admissible(expiryCache.content, peerId, now) == Admissible(view0, peerId, now);
      indexed := ConsultExpiryCache(peerId, now);
      SubtractStep(view0, admitted, peerId, indexed);
    }

    /** The index half of offering `ids[j]`: an admitted id is indexed with
        the copy `record` of its incoming record and announced. */
    method IndexStep(ids: seq<WrappedPeerId>, j: nat, ghost view0: map<WrappedPeerId, U64>, now: U64,
                     incoming: map<string, PeerInfo>, render: WrappedPeerId -> string,
                     ghost known0: map<WrappedPeerId, PeerInfo>, ghost outbound0: seq<GossipOutbound>,
                     ghost wallets0: map<WalletId, set<WrappedPeerId>>,
                     ghost admitted: set<WrappedPeerId>, ghost announced: seq<GossipOutbound>,
                     ghost nextAdmitted: set<WrappedPeerId>, ghost nextAnnounced: seq<GossipOutbound>,
                     record: PeerInfo, indexed: bool)
      requires j < |ids| && IndexProgress(ids, j, view0, now, incoming, render, known0, outbound0, wallets0, admitted, announced)
      requires Distinct(ids)
      requires indexed == Admissible(view0, ids[j], now)
      requires nextAdmitted == admitted + (if indexed then {ids[j]} else {})
      requires nextAnnounced == announced + (if indexed then [NewAddr(ids[j], incoming[render(ids[j])].addr)] else [])
      requires record !in knownPeers.Values
      requires record.peerId == incoming[render(ids[j])].peerId && record.addr == incoming[render(ids[j])].addr
      modifies this, record
      ensures IndexProgress(ids, j + 1, view0, now, incoming, render, known0, outbound0, wallets0, nextAdmitted, nextAnnounced)
      ensures forall id | id in old(knownPeers) :: knownPeers[id] == old(knownPeers)[id]
      ensures forall id | id in knownPeers && id !in old(knownPeers) :: fresh(knownPeers[id])
    {
      var peerId := ids[j];
      ghost var stepAnnounced := if indexed then [NewAddr(peerId, incoming[render(peerId)].addr)] else [];
      AppendStep(outbound0, announced, stepAnnounced);
      if indexed {
        IndexPeer(peerId, record, now);
      }
    }

    /** `merge_wallets`: first the managed wallets whose replica set does
        not already contain the message's are picked out; then each of
        them receives the message's replicas that are known peers. */
    method MergeWallets(peerWallets: map<WalletId, set<WrappedPeerId>>)
      modifies this
      ensures managedWallets == MergedWallets(old(managedWallets), peerWallets, knownPeers.Keys)
      ensures knownPeers == old(knownPeers) && outbound == old(outbound)
    {
      var walletsToMerge := WalletsToMerge(managedWallets, peerWallets);
      if walletsToMerge == {} {
        assert managedWallets == MergedWallets(managedWallets, peerWallets, knownPeers.Keys) by {
          forall w | w in managedWallets
            ensures MergedWallets(managedWallets, peerWallets, knownPeers.Keys)[w] == managedWallets[w]
          {
            assert w !in walletsToMerge;
          }
        }
        return;
      }
      ghost var local0 := managedWallets;
      var todo := walletsToMerge;
      while todo != {}
        invariant todo <= walletsToMerge
        invariant managedWallets.Keys == local0.Keys
        invariant forall w | w in local0 ::
          managedWallets[w] == if w in walletsToMerge - todo then local0[w] + (peerWallets[w] * knownPeers.Keys) else local0[w]
        invariant knownPeers == old(knownPeers) && outbound == old(outbound)
        decreases todo
      {
        var w :| w in todo;
        var localReplicas := AddKnownReplicas(managedWallets[w], peerWallets[w], knownPeers);
        managedWallets := managedWallets[w := localReplicas];
        todo := todo - {w};
      }
      assert managedWallets == MergedWallets(local0, peerWallets, knownPeers.Keys);
    }

    /** `maybe_expire_peer`: a peer silent for seven seconds or more is
        removed from the index and its expiry time recorded in the cache;
        otherwise nothing changes. */
    method MaybeExpirePeer(peerId: WrappedPeerId, now: U64)
      requires peerId in knownPeers && knownPeers[peerId].lastHeartbeat <= now
      requires expiryCache.Valid()
      modifies this, expiryCache
      ensures expiryCache.Valid()
      ensures now - old(knownPeers[peerId].lastHeartbeat) >= HeartbeatFailureMs / MillisPerSec ==>
        && knownPeers == old(knownPeers) - {peerId}
        && expiryCache.content == PutContent(old(expiryCache.content), old(expiryCache.order), peerId, now)
        && expiryCache.order == PutOrder(old(expiryCache.content), old(expiryCache.order), peerId)
      ensures now - old(knownPeers[peerId].lastHeartbeat) < HeartbeatFailureMs / MillisPerSec ==>
        && knownPeers == old(knownPeers)
        && expiryCache.content == old(expiryCache.content) && expiryCache.order == old(expiryCache.order)
      ensures NotAfter(old(expiryCache.content), now) ==> NotAfter(expiryCache.content, now)
      ensures managedWallets == old(managedWallets) && outbound == old(outbound)
    {
      if now - knownPeers[peerId].GetLastHeartbeat() < HeartbeatFailureMs / MillisPerSec {
        return;
      }
      knownPeers := knownPeers - {peerId};
      expiryCache.Put(peerId, now);
    }

    /** `send_heartbeat`: nothing happens for the local peer; any other
        recipient is sent the local heartbeat and then checked for expiry. */
    method SendHeartbeat(recipient: WrappedPeerId, now: U64)
      requires recipient != localPeerId ==> recipient in knownPeers && knownPeers[recipient].lastHeartbeat <= now
      requires expiryCache.Valid()
      modifies this, expiryCache
      ensures expiryCache.Valid()
      ensures recipient == localPeerId ==>
        && knownPeers == old(knownPeers) && outbound == old(outbound)
        && expiryCache.content == old(expiryCache.content) && expiryCache.order == old(expiryCache.order)
      ensures recipient != localPeerId ==>
        outbound == old(outbound) + [Request(recipient, Heartbeat(old(knownPeers).Keys, old(managedWallets)))]
      ensures recipient != localPeerId && now - old(knownPeers[recipient].lastHeartbeat) >= HeartbeatFailureMs / MillisPerSec ==>
        && knownPeers == old(knownPeers) - {recipient}
        && expiryCache.content == PutContent(old(expiryCache.content), old(expiryCache.order), recipient, now)
        && expiryCache.order == PutOrder(old(expiryCache.content), old(expiryCache.order), recipient)
      ensures recipient != localPeerId && now - old(knownPeers[recipient].lastHeartbeat) < HeartbeatFailureMs / MillisPerSec ==>
        && knownPeers == old(knownPeers)
        && expiryCache.content == old(expiryCache.content) && expiryCache.order == old(expiryCache.order)
      ensures managedWallets == old(managedWallets)
    {
      if recipient == localPeerId {
        return;
      }
      var message := BuildHeartbeatMessage();
      outbound := outbound + [Request(recipient, message)];
      MaybeExpirePeer(recipient, now);
    }

    /** `merge_state_from_message`: the peer index is merged first (its
        error ends the merge), then the wallet replica sets against the
        updated peer index. */
    method MergeStateFromMessage(incoming: map<string, PeerInfo>, order: seq<string>,
                                 parse: string -> Option<WrappedPeerId>, render: WrappedPeerId -> string,
                                 peerWallets: map<WalletId, set<WrappedPeerId>>, now: U64)
      returns (r: Result<(), GossipError>)
      requires |order| == |incoming| && forall k :: k in incoming <==> k in order
      requires forall i, j | 0 <= i < j < |order| :: order[i] != order[j]
      requires Canonical(incoming.Keys, parse, render)
      requires expiryCache.Valid() && NotAfter(expiryCache.content, now)
      modifies this, expiryCache
      ensures expiryCache.Valid() && NotAfter(expiryCache.content, now)
      ensures r.Failure? <==> exists i | 0 <= i < |order| :: parse(order[i]).None?
      ensures r.Failure? ==> knownPeers == old(knownPeers) && managedWallets == old(managedWallets)
      ensures r.Success? ==>
        knownPeers.Keys == old(knownPeers).Keys +
          AdmittedIds(PeersToAdd(order, parse, old(knownPeers).Keys), old(expiryCache.content), now)
      ensures r.Success? ==> managedWallets == MergedWallets(old(managedWallets), peerWallets, knownPeers.Keys)
    {
      r := MergePeerIndex(incoming, order, parse, render, now);
      if r.Failure? {
        return;
      }
      MergeWallets(peerWallets);
    }
  }

  /** The first phase of `merge_peer_index`: parse every key, failing on
      the first that does not parse, and collect the unknown ids. */
  method CollectPeersToAdd(order: seq<string>, parse: string -> Option<WrappedPeerId>, known: set<WrappedPeerId>)
    returns (r: Result<seq<WrappedPeerId>, GossipError>)
    ensures r.Failure? <==> exists i | 0 <= i < |order| :: parse(order[i]).None?
    ensures r.Success? ==> r.value == PeersToAdd(order, parse, known)
  {
    var peersToAdd: seq<WrappedPeerId> := [];
    var i := 0;
    while i < |order|
      invariant 0 <= i <= |order|
      invariant forall m | 0 <= m < i :: parse(order[m]).Some?
      invariant peersToAdd == PeersToAdd(order[..i], parse, known)
    {
      var parsed := parse(order[i]);
      if parsed.None? {
        return Failure(Parse(order[i]));
      }
      assert order[..i + 1][..i] == order[..i];
      if parsed.value !in known {
        peersToAdd := peersToAdd + [parsed.value];
      }
      i := i + 1;
    }
    assert order[..i] == order;
    return Success(peersToAdd);
  }

  /** The first phase of `merge_wallets`: the managed wallets the message
      also lists, with replicas the local set does not contain. */
  method WalletsToMerge(local: map<WalletId, set<WrappedPeerId>>, incoming: map<WalletId, set<WrappedPeerId>>)
    returns (toMerge: set<WalletId>)
    ensures forall w :: w in toMerge <==> w in local && w in incoming && !(incoming[w] <= local[w])
  {
    toMerge := {};
    var remaining := local.Keys;
    while remaining != {}
      invariant remaining <= local.Keys
      invariant forall w :: w in toMerge <==> w in local.Keys - remaining && w in incoming && !(incoming[w] <= local[w])
      decreases remaining
    {
      var w :| w in remaining;
      if w in incoming && !(incoming[w] <= local[w]) {
        toMerge := toMerge + {w};
      }
      remaining := remaining - {w};
    }
  }

  /** The inner loop of `merge_wallets`: every message replica that is a
      known peer joins the local replica set, the others are skipped. */
  method AddKnownReplicas(localReplicas: set<WrappedPeerId>, messageReplicas: set<WrappedPeerId>,
                          knownPeers: map<WrappedPeerId, PeerInfo>) returns (r: set<WrappedPeerId>)
    ensures r == localReplicas + (messageReplicas * knownPeers.Keys)
  {
    r := localReplicas;
    var pending := messageReplicas;
    while pending != {}
      invariant pending <= messageReplicas
      invariant r == localReplicas + ((messageReplicas - pending) * knownPeers.Keys)
      decreases pending
    {
      var replica :| replica in pending;
      if replica in knownPeers {
        r := r + {replica};
      }
      pending := pending - {replica};
    }
  }

  /** Distinct canonical keys parse to distinct ids. */
  /** Distinct keys that are canonical renderings parse to distinct ids,
      so no peer is offered twice. */
  lemma {:induction false} ToAddDistinct(order: seq<string>, parse: string -> Option<WrappedPeerId>,
                                         render: WrappedPeerId -> string, known: set<WrappedPeerId>,
                                         keys: set<string>)
    requires forall i | 0 <= i < |order| :: parse(order[i]).Some? && order[i] in keys
    requires forall i, j | 0 <= i < j < |order| :: order[i] != order[j]
    requires Canonical(keys, parse, render)
    ensures Distinct(PeersToAdd(order, parse, known))
  {
    if order != [] {
      var n := |order|;
      var prefix := order[..n - 1];
      assert forall i | 0 <= i < |prefix| :: prefix[i] == order[i];
      ToAddDistinct(prefix, parse, render, known, keys);
      PeersToAddMembers(prefix, parse, known);
      var init := PeersToAdd(prefix, parse, known);
      var id := parse(order[n - 1]).value;
      if id !in known {
        forall i | 0 <= i < |init| ensures init[i] != id {
          var m :| 0 <= m < |prefix| && parse(prefix[m]) == Some(init[i]);
          assert render(init[i]) == order[m];
          assert render(id) == order[n - 1];
        }
        assert PeersToAdd(order, parse, known) == init + [id];
      }
    }
  }

  /** Every peer offered has its record under its own rendering. */
  lemma ToAddRendered(order: seq<string>, parse: string -> Option<WrappedPeerId>, render: WrappedPeerId -> string,
                      known: set<WrappedPeerId>, incoming: map<string, PeerInfo>)
    requires forall i | 0 <= i < |order| :: parse(order[i]).Some?
    requires forall k :: k in incoming <==> k in order
    requires Canonical(incoming.Keys, parse, render)
    ensures forall id | id in PeersToAdd(order, parse, known) :: render(id) in incoming && id !in known
  {
    var toAdd := PeersToAdd(order, parse, known);
    PeersToAddMembers(order, parse, known);
    forall id | id in toAdd ensures render(id) in incoming {
      var i :| 0 <= i < |toAdd| && toAdd[i] == id;
      var m :| 0 <= m < |order| && parse(order[m]) == Some(id);
      assert order[m] in incoming;
    }
  }


}
