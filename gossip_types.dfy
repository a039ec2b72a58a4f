/** Peer bookkeeping types of the gossip layer (core/src/gossip/types.rs):
    the peer record whose last-heartbeat time is updated in place, and the
    byte-level (de)serialisation of peer ids. */
module GossipTypes {
  import opened Wrappers
  import opened Scalars
  import opened Multiaddr

  type Byte = x: nat | x < 256

  /** A libp2p peer id, identified by its canonical byte encoding. Which byte
      strings are valid encodings is decided by libp2p, so every operation
      that parses bytes takes that decision as the parameter `isValid`. */
  datatype WrappedPeerId = WrappedPeerId(bytes: seq<Byte>)

  /** `to_bytes`, the bytes `serialize` writes. */
  function ToBytes(p: WrappedPeerId): seq<Byte>
  {
    p.bytes
  }

  /** One step of the deserialiser's `SeqAccess`: an element or an error. */
  type Element = Result<Byte, string>

  const PeerIdError := "deserializing byte array to PeerID"

  /** The bytes a well-behaved deserialiser yields for `bytes`. */
  function Elements(bytes: seq<Byte>): (r: seq<Element>)
    ensures |r| == |bytes|
    ensures forall i | 0 <= i < |r| :: r[i] == Success(bytes[i])
  {
    seq(|bytes|, i requires 0 <= i < |bytes| => Success(bytes[i]))
  }

  /** The bytes collected by the `while let Some(value) = seq.next_element()?`
      loop: every element in order, or the first error met. */
  function CollectBytes(elements: seq<Element>): (r: Result<seq<Byte>, string>)
    ensures r.Success? <==> forall i | 0 <= i < |elements| :: elements[i].Success?
    ensures r.Success? ==>
      |r.value| == |elements| && forall i | 0 <= i < |elements| :: elements[i] == Success(r.value[i])
    ensures r.Failure? ==> exists i | 0 <= i < |elements| ::
      elements[i] == Failure(r.error) && forall j | 0 <= j < i :: elements[j].Success?
  {
    if elements == [] then Success([])
    else
      var init := elements[..|elements| - 1];
      var last := elements[|elements| - 1];
      var prefix := CollectBytes(init);
      assert forall i | 0 <= i < |init| :: init[i] == elements[i];
      if prefix.Failure? then prefix
      else if last.Failure? then Failure(last.error)
      else Success(prefix.value + [last.value])
  }

  /** What `PeerIDVisitor::visit_seq` returns for a stream of elements. */
  function DecodePeerId(elements: seq<Element>, isValid: seq<Byte> -> bool): (r: Result<WrappedPeerId, string>)
    ensures r.Success? ==> CollectBytes(elements) == Success(r.value.bytes) && isValid(r.value.bytes)
    ensures r.Failure? ==> CollectBytes(elements).Failure? || !isValid(CollectBytes(elements).value)
  {
    var bytes :- CollectBytes(elements);
    if isValid(bytes) then Success(WrappedPeerId(bytes)) else Failure(PeerIdError)
  }

  /** `visit_seq`: pushes every element into a byte vector, propagating the
      first error, then accepts the bytes only if they form a valid id. */
  method VisitSeq(elements: seq<Element>, isValid: seq<Byte> -> bool) returns (r: Result<WrappedPeerId, string>)
    ensures r == DecodePeerId(elements, isValid)
  {
    var bytesVec: seq<Byte> := [];
    var i := 0;
    while i < |elements|
      invariant 0 <= i <= |elements|
      invariant CollectBytes(elements[..i]) == Success(bytesVec)
    {
      assert elements[..i + 1][..i] == elements[..i];
      match elements[i] {
        case Failure(e) =>
          CollectFailureExtends(elements, i);
          return Failure(e);
        case Success(value) =>
          bytesVec := bytesVec + [value];
      }
      i := i + 1;
    }
    assert elements[..i] == elements;
    if isValid(bytesVec) {
      return Success(WrappedPeerId(bytesVec));
    }
    return Failure(PeerIdError);
  }

  /** An error after a clean prefix is the error of the whole stream. */
  lemma {:induction false} CollectFailureExtends(elements: seq<Element>, i: nat)
    requires i < |elements| && elements[i].Failure?
    requires CollectBytes(elements[..i]).Success?
    ensures CollectBytes(elements) == Failure(elements[i].error)
  {
    if i == |elements| - 1 {
      assert elements[..|elements| - 1] == elements[..i];
    } else {
      var init := elements[..|elements| - 1];
      assert init[..i] == elements[..i];
      CollectFailureExtends(init, i);
    }
  }

  /** A stream without errors collects to exactly its bytes. */
  lemma CollectElements(bytes: seq<Byte>)
    ensures CollectBytes(Elements(bytes)) == Success(bytes)
  {
    var r := CollectBytes(Elements(bytes));
    assert r.Success? by {
      assert forall i | 0 <= i < |bytes| :: Elements(bytes)[i].Success?;
    }
    assert r.value == bytes;
  }

  /** Deserialising the bytes of a valid id gives back the id, and bytes
      that do not form a valid id are refused. */
  lemma PeerIdRoundTrip(p: WrappedPeerId, isValid: seq<Byte> -> bool)
    ensures isValid(ToBytes(p)) ==> DecodePeerId(Elements(ToBytes(p)), isValid) == Success(p)
    ensures !isValid(ToBytes(p)) ==> DecodePeerId(Elements(ToBytes(p)), isValid) == Failure(PeerIdError)
  {
    CollectElements(p.bytes);
  }

  /** The serialised form of a `PeerInfo`: `last_heartbeat` is `serde(skip)`. */
  datatype PeerInfoWire = PeerInfoWire(peerId: seq<Byte>, addr: MultiaddrStack)

  /** The fields a deserialised `PeerInfo` is built from; the skipped
      heartbeat takes `AtomicU64::default()`, which is 0. */
  datatype PeerInfoFields = PeerInfoFields(peerId: WrappedPeerId, addr: MultiaddrStack, lastHeartbeat: U64)

  function DecodePeerInfo(w: PeerInfoWire, isValid: seq<Byte> -> bool): (r: Result<PeerInfoFields, string>)
    ensures r.Success? <==> isValid(w.peerId)
    ensures r.Success? ==> r.value.peerId.bytes == w.peerId && r.value.addr == w.addr && r.value.lastHeartbeat == 0
  {
    CollectElements(w.peerId);
    var id :- DecodePeerId(Elements(w.peerId), isValid);
    Success(PeerInfoFields(id, w.addr, 0))
  }

  /** Information about a connected peer. `last_heartbeat` is an atomic that
      is stored into through shared references. */
  class PeerInfo {
    const peerId: WrappedPeerId
    const addr: MultiaddrStack
    var lastHeartbeat: U64

    /** `new`: the current time (a parameter here) is the first heartbeat. */
    constructor (peerId: WrappedPeerId, addr: MultiaddrStack, now: U64)
      ensures this.peerId == peerId && this.addr == addr && lastHeartbeat == now
    {
      this.peerId := peerId;
      this.addr := addr;
      lastHeartbeat := now;
    }

    /** A record with a given heartbeat, as `clone` and `Deserialize` build it. */
    constructor WithHeartbeat(peerId: WrappedPeerId, addr: MultiaddrStack, lastHeartbeat: U64)
      ensures this.peerId == peerId && this.addr == addr && this.lastHeartbeat == lastHeartbeat
    {
      this.peerId := peerId;
      this.addr := addr;
      this.lastHeartbeat := lastHeartbeat;
    }

    function GetPeerId(): (r: WrappedPeerId)
      ensures r == peerId
    {
      peerId
    }

    function GetAddr(): (r: MultiaddrStack)
      ensures r == addr
    {
      addr
    }

    function GetLastHeartbeat(): (r: U64)
      reads this
      ensures r == lastHeartbeat
    {
      lastHeartbeat
    }

    /** `successful_heartbeat`: stores the current time, nothing else changes. */
    method SuccessfulHeartbeat(now: U64)
      modifies this
      ensures lastHeartbeat == now
    {
      lastHeartbeat := now;
    }

    /** `clone`: a new record carrying the stored heartbeat, not the current time. */
    method Clone() returns (c: PeerInfo)
      ensures fresh(c)
      ensures c.peerId == peerId && c.addr == addr && c.lastHeartbeat == lastHeartbeat
    {
      c := new PeerInfo.WithHeartbeat(peerId, addr, lastHeartbeat);
    }

    /** `serialize`: the id's bytes and the address, never the heartbeat. */
    function Serialize(): (w: PeerInfoWire)
      ensures w.peerId == ToBytes(peerId) && w.addr == addr
    {
      PeerInfoWire(ToBytes(peerId), addr)
    }

    /** Deserialising a serialised record restores the id and the address;
        the heartbeat comes back as 0 whatever was stored. */
    lemma SerdeRoundTrip(isValid: seq<Byte> -> bool)
      requires isValid(ToBytes(peerId))
      ensures DecodePeerInfo(Serialize(), isValid) == Success(PeerInfoFields(peerId, addr, 0))
    {
      PeerIdRoundTrip(peerId, isValid);
    }
  }

  /** The derived `Deserialize` of `PeerInfo`. */
  method DeserializePeerInfo(w: PeerInfoWire, isValid: seq<Byte> -> bool) returns (r: Result<PeerInfo, string>)
    ensures r.Success? <==> DecodePeerInfo(w, isValid).Success?
    ensures r.Success? ==>
      fresh(r.value) && PeerInfoFields(r.value.peerId, r.value.addr, r.value.lastHeartbeat) == DecodePeerInfo(w, isValid).value
  {
    var id := VisitSeq(Elements(w.peerId), isValid);
    if id.Failure? {
      return Failure(id.error);
    }
    var p := new PeerInfo.WithHeartbeat(id.value, w.addr, 0);
    return Success(p);
  }
}
